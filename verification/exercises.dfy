/** The query pipelines of the exercises, one function per exercise, each over
    the loaded products and orders. Names follow the exercises' own. */
module Exercises {
  import opened Results
  import opened Text
  import opened Dates
  import opened Streams
  import opened Sorting
  import opened Collectors
  import opened Domain

  const Feb1st2021: LocalDate := Date(2021, 2, 1)
  const Mar15th2021: LocalDate := Date(2021, 3, 15)
  const Apr1st2021: LocalDate := Date(2021, 4, 1)

  /** `product.getCategory().equalsIgnoreCase(category)`. */
  predicate CategoryIs(p: Product, category: string)
  {
    EqualsIgnoreCase(p.category, category)
  }

  predicate IsBooks(p: Product)
  {
    CategoryIs(p, "Books")
  }

  predicate IsToys(p: Product)
  {
    CategoryIs(p, "Toys")
  }

  predicate IsBaby(p: Product)
  {
    CategoryIs(p, "Baby")
  }

  predicate OverHundred(p: Product)
  {
    p.price > 100.0
  }

  // ------------------------------------------------------- exercise 1, 1a, 1b

  /** exercise1: the products of category "Book" (not "Books") priced over
      100, in input order. */
  function Exercise1(products: seq<Product>): (r: seq<Product>)
    ensures forall p :: p in r <==> p in products && CategoryIs(p, "Book") && p.price > 100.0
    ensures IsSubsequence(r, products)
  {
    Filter(products, (p: Product) => CategoryIs(p, "Book") && p.price > 100.0)
  }

  /** exercise1a: the same query for "Books", with the two conditions joined by
      `Predicate.and`. */
  function Exercise1a(products: seq<Product>): (r: seq<Product>)
    ensures forall p :: p in r <==> p in products && IsBooks(p) && OverHundred(p)
    ensures IsSubsequence(r, products)
  {
    var predicate1 := IsBooks;
    var predicate2 := OverHundred;
    Filter(products, And(predicate1, predicate2))
  }

  /** Chaining with `Predicate.and` filters exactly as the inline `&&` does. */
  lemma Exercise1aIsInlineConjunction(products: seq<Product>)
    ensures Exercise1a(products) == Filter(products, (p: Product) => IsBooks(p) && p.price > 100.0)
  {
    FilterExtensional(products, And(IsBooks, OverHundred), p => IsBooks(p) && p.price > 100.0);
  }

  /** exercise1b: the category condition is a `BiPredicate` applied to the
      product's own category. */
  function Exercise1b(products: seq<Product>): (r: seq<Product>)
    ensures IsSubsequence(r, products)
  {
    var filter := (product: Product, category: string) => EqualsIgnoreCase(product.category, category);
    Filter(products, (p: Product) => filter(p, p.category) && p.price > 100.0)
  }

  /** Testing a category against itself always succeeds, so exercise1b keeps
      every product priced over 100, whatever its category. */
  lemma Exercise1bIgnoresCategory(products: seq<Product>)
    ensures Exercise1b(products) == Filter(products, OverHundred)
    ensures forall p :: p in Exercise1b(products) <==> p in products && p.price > 100.0
  {
    var filter := (product: Product, category: string) => EqualsIgnoreCase(product.category, category);
    forall p: Product ensures (filter(p, p.category) && p.price > 100.0) == OverHundred(p) {
      EqualsIgnoreCaseReflexive(p.category);
    }
    FilterExtensional(products, (p: Product) => filter(p, p.category) && p.price > 100.0, OverHundred);
  }

  /** No product is kept by both exercise1 and exercise1a: "Book" and "Books"
      never match the same category. */
  lemma Exercise1And1aDisjoint(products: seq<Product>, p: Product)
    ensures !(p in Exercise1(products) && p in Exercise1a(products))
  {
    NoCategoryIsBothBookAndBooks(p.category);
  }

  // -------------------------------------------------------- exercise 2, 22

  /** exercise2: the orders with at least one product of category "Baby". */
  function Exercise2(orders: seq<Order>): (r: seq<Order>)
    ensures forall o :: o in r <==> o in orders && exists q :: q in o.products && IsBaby(q)
    ensures IsSubsequence(r, orders)
  {
    Filter(orders, (o: Order) => AnyMatch(o.products, IsBaby))
  }

  /** exercise22: for each "Baby" product, its orders (through the
      back-references), concatenated; an order appears once per "Baby" product
      it lists. */
  function Exercise22(products: seq<Product>, orders: seq<Order>): (r: seq<Order>)
    ensures forall o :: o in r <==>
              o in orders && exists p :: p in products && IsBaby(p) && HasProductId(o, p.id)
    ensures forall o :: multiset(r)[o] == multiset(orders)[o] * |Filter(Filter(products, IsBaby), ListedBy(o))|
  {
    OrdersOfAllCounts(Filter(products, IsBaby), orders);
    FlatMap(Filter(products, IsBaby), OrdersOfIn(orders))
  }

  /** On a consistent snapshot, exercise22 reaches exactly the orders of
      exercise2. */
  lemma Exercise22SameOrdersAsExercise2(products: seq<Product>, orders: seq<Order>)
    requires Resolved(products, orders)
    requires UniqueIds(products)
    ensures forall o :: o in Exercise22(products, orders) <==> o in Exercise2(orders)
  {
    forall o | o in Exercise2(orders) ensures o in Exercise22(products, orders) {
      BabyOrderReachedFromItsProduct(products, orders, o);
    }
    forall o | o in Exercise22(products, orders) ensures o in Exercise2(orders) {
      var p :| p in products && IsBaby(p) && HasProductId(o, p.id);
      ReachedOrderListsBabyProduct(products, orders, o, p);
    }
  }

  lemma BabyOrderReachedFromItsProduct(products: seq<Product>, orders: seq<Order>, o: Order)
    requires Resolved(products, orders)
    requires o in Exercise2(orders)
    ensures o in Exercise22(products, orders)
  {
    var q :| q in o.products && IsBaby(q);
    var i :| 0 <= i < |o.products| && o.products[i] == q;
    assert HasProductId(o, q.id);
    assert q in products;
  }

  lemma ReachedOrderListsBabyProduct(products: seq<Product>, orders: seq<Order>, o: Order, p: Product)
    requires Resolved(products, orders)
    requires UniqueIds(products)
    requires o in orders && p in products && IsBaby(p) && HasProductId(o, p.id)
    ensures o in Exercise2(orders)
  {
    var i :| 0 <= i < |o.products| && o.products[i].id == p.id;
    var q := o.products[i];
    assert o in orders;
    ResolvedProduct(products, orders, o, q);
    SameIdSameProduct(products, p, q);
    assert q in o.products && IsBaby(q);
  }

  // ------------------------------------------------------------ exercise 3

  /** `product.withPrice(product.getPrice() * 0.9)`. */
  function Discount(p: Product): Product
  {
    p.WithPrice(p.price * 0.9)
  }

  /** exercise3: the "Toys" products, in order, each as a new product with 10%
      off; only the price differs from the original. */
  function Exercise3(products: seq<Product>): (r: seq<Product>)
    ensures |r| == |Filter(products, IsToys)|
    ensures forall i :: 0 <= i < |r| ==>
              var original := Filter(products, IsToys)[i];
              && r[i].id == original.id && r[i].name == original.name
              && r[i].category == original.category && r[i].price == original.price * 0.9
    ensures forall i :: 0 <= i < |r| ==> IsToys(r[i])
  {
    Map(Filter(products, IsToys), Discount)
  }

  /** Putting the original price back gives exactly the "Toys" products of
      the input: the discount changes nothing but the price, and the input
      products themselves are never changed. */
  lemma Exercise3UndoDiscount(products: seq<Product>)
    ensures Map(Exercise3(products), (p: Product) => p.WithPrice(p.price / 0.9)) == Filter(products, IsToys)
  {
    var r := Exercise3(products);
    var toys := Filter(products, IsToys);
    var restored := Map(r, (p: Product) => p.WithPrice(p.price / 0.9));
    forall i | 0 <= i < |toys| ensures restored[i] == toys[i] {
      assert r[i].price / 0.9 == toys[i].price;
    }
  }

  // ------------------------------------------------------- exercise 45, 4

  /** The order condition of exercise45 and exercise4: placed by a tier-2
      customer between 1 February and 1 April 2021, both days included. */
  predicate Tier2Feb1ToApr1(o: Order)
  {
    && o.customer.tier == 2
    && CompareTo(o.orderDate, Feb1st2021) >= 0
    && CompareTo(o.orderDate, Apr1st2021) <= 0
  }

  /** The products of the qualifying orders, flattened in order, before
      `distinct()`; the three filters of exercise45 run one after another. */
  function Tier2Products(orders: seq<Order>): (r: seq<Product>)
    ensures r == ProductsOfOrders(orders, Tier2Feb1ToApr1)
  {
    var tier2 := Filter(orders, (o: Order) => o.customer.tier == 2);
    var fromFeb1 := Filter(tier2, (o: Order) => CompareTo(o.orderDate, Feb1st2021) >= 0);
    var toApr1 := Filter(fromFeb1, (o: Order) => CompareTo(o.orderDate, Apr1st2021) <= 0);
    ChainedFiltersAreOneFilter(orders);
    FlatMap(toApr1, Items)
  }

  lemma ChainedFiltersAreOneFilter(orders: seq<Order>)
    ensures Filter(Filter(Filter(orders, (o: Order) => o.customer.tier == 2),
                          (o: Order) => CompareTo(o.orderDate, Feb1st2021) >= 0),
                   (o: Order) => CompareTo(o.orderDate, Apr1st2021) <= 0)
         == Filter(orders, Tier2Feb1ToApr1)
  {
    var tier2 := (o: Order) => o.customer.tier == 2;
    var fromFeb1 := (o: Order) => CompareTo(o.orderDate, Feb1st2021) >= 0;
    var toApr1 := (o: Order) => CompareTo(o.orderDate, Apr1st2021) <= 0;
    FilterFilter(orders, tier2, fromFeb1);
    FilterFilter(orders, And(tier2, fromFeb1), toApr1);
    FilterExtensional(orders, And(And(tier2, fromFeb1), toApr1), Tier2Feb1ToApr1);
  }

  /** exercise45: the products of tier-2 orders placed from 1 February to
      1 April 2021, each once (products are equal when their ids are). */
  function Exercise45(orders: seq<Order>): (r: seq<Product>)
    ensures forall i, j :: 0 <= i < j < |r| ==> r[i].id != r[j].id
    ensures forall id :: id in KeySet(r, ProductId) <==> OrderedWhere(orders, Tier2Feb1ToApr1, id)
    ensures forall p :: p in r ==> exists o :: o in orders && Tier2Feb1ToApr1(o) && p in o.products
    ensures IsSubsequence(r, Tier2Products(orders))
  {
    DistinctProductsWhere(orders, Tier2Feb1ToApr1)
  }

  /** The products of the orders satisfying `q`, each id once, first
      occurrence kept. */
  function DistinctProductsWhere(orders: seq<Order>, q: Order -> bool): (r: seq<Product>)
    ensures forall i, j :: 0 <= i < j < |r| ==> r[i].id != r[j].id
    ensures forall id :: id in KeySet(r, ProductId) <==> OrderedWhere(orders, q, id)
    ensures forall p :: p in r ==> exists o :: o in orders && q(o) && p in o.products
    ensures r == DistinctBy(ProductsOfOrders(orders, q), ProductId)
  {
    var all := ProductsOfOrders(orders, q);
    var r := DistinctBy(all, ProductId);
    ProductsOfOrdersIds(orders, q);
    SubsequenceMembers(r, all);
    r
  }

  /** Every product exercise45 keeps is the first one with its id among the
      products of the qualifying orders. */
  lemma Exercise45KeepsFirstOccurrence(orders: seq<Order>)
    ensures forall i :: 0 <= i < |Exercise45(orders)| ==>
              exists j :: 0 <= j < |Tier2Products(orders)| && Tier2Products(orders)[j] == Exercise45(orders)[i]
                          && FirstOfKey(Tier2Products(orders), ProductId, j)
  {
    DistinctByKeepsFirstOccurrence(Tier2Products(orders), ProductId, Exercise45(orders));
  }

  /** exercise4: the loaded products with at least one qualifying order among
      their orders. */
  function Exercise4(products: seq<Product>, orders: seq<Order>): (r: seq<Product>)
    ensures forall p :: p in r <==> p in products && OrderedWhere(orders, Tier2Feb1ToApr1, p.id)
    ensures IsSubsequence(r, products)
  {
    ProductsOrderedWhere(products, orders, Tier2Feb1ToApr1)
  }

  /** On a consistent snapshot, exercise4 and exercise45 find the same
      products (compared by id). */
  lemma Exercise4SameProductsAsExercise45(products: seq<Product>, orders: seq<Order>)
    requires Resolved(products, orders)
    ensures KeySet(Exercise4(products, orders), ProductId) == KeySet(Exercise45(orders), ProductId)
  {
    BackReferencesAgreeWithFlattening(products, orders, Tier2Feb1ToApr1);
    ProductsOfOrdersIds(orders, Tier2Feb1ToApr1);
  }

  // ------------------------------------------------------------ exercise 5

  /** `Comparator.comparingDouble(Product::getPrice)`, as "at most". */
  predicate PriceLe(a: Product, b: Product)
  {
    a.price <= b.price
  }

  lemma PriceLeIsTotalPreorder()
    ensures TotalPreorder(PriceLe)
  {
  }

  /** exercise5: the three cheapest "Books" products, cheapest first. */
  function Exercise5(products: seq<Product>): (r: seq<Product>)
    ensures |r| == if |Filter(products, IsBooks)| < 3 then |Filter(products, IsBooks)| else 3
    ensures forall i, j :: 0 <= i < j < |r| ==> r[i].price <= r[j].price
    ensures forall p :: p in r ==> p in products && IsBooks(p)
    ensures multiset(r) <= multiset(Filter(products, IsBooks))
    ensures forall p, q :: p in r && q in multiset(Filter(products, IsBooks)) - multiset(r) ==> p.price <= q.price
  {
    CheapestWhere(products, IsBooks, 3)
  }

  /** The `n` cheapest members of `s` that satisfy `p`, cheapest first. */
  function CheapestWhere(s: seq<Product>, p: Product -> bool, n: nat): (r: seq<Product>)
    ensures |r| == if |Filter(s, p)| < n then |Filter(s, p)| else n
    ensures forall i, j :: 0 <= i < j < |r| ==> r[i].price <= r[j].price
    ensures forall x :: x in r ==> x in s && p(x)
    ensures multiset(r) <= multiset(Filter(s, p))
    ensures forall x, y :: x in r && y in multiset(Filter(s, p)) - multiset(r) ==> x.price <= y.price
  {
    var r := CheapestFirst(Filter(s, p), n);
    FilteredMembers(s, p, r);
    r
  }

  /** `sorted(comparingDouble(Product::getPrice)).limit(n)`: the `n` cheapest
      products, cheapest first. */
  function CheapestFirst(s: seq<Product>, n: nat): (r: seq<Product>)
    ensures |r| == if |s| < n then |s| else n
    ensures forall i, j :: 0 <= i < j < |r| ==> r[i].price <= r[j].price
    ensures multiset(r) <= multiset(s)
    ensures forall p :: p in r ==> p in s
    ensures forall p, q :: p in r && q in multiset(s) - multiset(r) ==> p.price <= q.price
  {
    PriceLeIsTotalPreorder();
    var r := TopN(s, PriceLe, n);
    PriceOrderOfTopN(s, r);
    r
  }

  /** Members of a sequence drawn from `Filter(s, p)` are members of `s` that
      satisfy `p`. */
  lemma FilteredMembers<T>(s: seq<T>, p: T -> bool, r: seq<T>)
    requires forall x :: x in r ==> x in Filter(s, p)
    ensures forall x :: x in r ==> x in s && p(x)
  {
  }

  /** `TopN`'s guarantees under `PriceLe`, stated on prices. */
  lemma PriceOrderOfTopN(books: seq<Product>, r: seq<Product>)
    requires Sorted(r, PriceLe)
    requires forall x, y :: x in r && y in multiset(books) - multiset(r) ==> PriceLe(x, y)
    ensures forall i, j :: 0 <= i < j < |r| ==> r[i].price <= r[j].price
    ensures forall p, q :: p in r && q in multiset(books) - multiset(r) ==> p.price <= q.price
  {
  }

  /** Products of equal price keep their input order in exercise5's result:
      those kept are the first ones of that price among the "Books"
      products. */
  lemma Exercise5KeepsTiesInOrder(products: seq<Product>, pivot: Product)
    ensures exists k :: 0 <= k <= |TiedWith(Filter(products, IsBooks), PriceLe, pivot)| &&
              TiedWith(Exercise5(products), PriceLe, pivot) == TiedWith(Filter(products, IsBooks), PriceLe, pivot)[..k]
  {
    PriceLeIsTotalPreorder();
    TopNStable(Filter(products, IsBooks), PriceLe, 3, pivot);
  }

  // ------------------------------------------------------------ exercise 6

  /** `Comparator.comparing(Order::getOrderDate).reversed()`, as "at most":
      the later order comes first. */
  predicate LaterOrSameDate(a: Order, b: Order)
  {
    OnOrBefore(b.orderDate, a.orderDate)
  }

  lemma LaterOrSameDateIsTotalPreorder()
    ensures TotalPreorder(LaterOrSameDate)
  {
    forall a: Order, b: Order, c: Order
      ensures LaterOrSameDate(a, b) || LaterOrSameDate(b, a)
      ensures LaterOrSameDate(a, b) && LaterOrSameDate(b, c) ==> LaterOrSameDate(a, c)
    {
      OnOrBeforeTotalPreorder(c.orderDate, b.orderDate, a.orderDate);
    }
  }

  /** exercise6: the three most recently placed orders, latest first. */
  function Exercise6(orders: seq<Order>): (r: seq<Order>)
    ensures |r| == if |orders| < 3 then |orders| else 3
    ensures forall i, j :: 0 <= i < j < |r| ==> OnOrBefore(r[j].orderDate, r[i].orderDate)
    ensures multiset(r) <= multiset(orders)
    ensures forall o, o' :: o in r && o' in multiset(orders) - multiset(r) ==> OnOrBefore(o'.orderDate, o.orderDate)
  {
    LaterOrSameDateIsTotalPreorder();
    TopN(orders, LaterOrSameDate, 3)
  }

  /** Orders placed on the same day keep their input order in exercise6's
      result. */
  lemma Exercise6KeepsTiesInOrder(orders: seq<Order>, pivot: Order)
    ensures exists k :: 0 <= k <= |TiedWith(orders, LaterOrSameDate, pivot)| &&
              TiedWith(Exercise6(orders), LaterOrSameDate, pivot) == TiedWith(orders, LaterOrSameDate, pivot)[..k]
  {
    LaterOrSameDateIsTotalPreorder();
    TopNStable(orders, LaterOrSameDate, 3, pivot);
  }

  // ------------------------------------------------------------ exercise 7

  predicate OnMar15th2021(o: Order)
  {
    o.orderDate == Mar15th2021
  }

  /** exercise7: the loaded products with an order placed on 15 March 2021. */
  function Exercise7(products: seq<Product>, orders: seq<Order>): (r: seq<Product>)
    ensures forall p :: p in r <==> p in products && OrderedWhere(orders, OnMar15th2021, p.id)
    ensures IsSubsequence(r, products)
  {
    ProductsOrderedWhere(products, orders, OnMar15th2021)
  }

  // ------------------------------------------------------- exercise 8, 8a

  /** exercise8's filter as written: on or after 1 February 2021, and on or
      before the last day of the order's own month. */
  predicate FromFeb1ToOwnMonthEnd(o: Order)
  {
    && CompareTo(o.orderDate, Feb1st2021) >= 0
    && CompareTo(o.orderDate, LastDayOfMonth(o.orderDate)) <= 0
  }

  predicate FromFeb1st2021(o: Order)
  {
    CompareTo(o.orderDate, Feb1st2021) >= 0
  }

  /** The price total of one order, the value exercise13 maps it to. */
  function OrderTotal(o: Order): real
  {
    Sum(Map(o.products, Price))
  }

  /** Summing the prices of the flattened products is summing the orders'
      totals. */
  lemma {:induction false} FlattenedPriceSum(orders: seq<Order>)
    ensures Sum(Map(FlatMap(orders, Items), Price)) == Sum(Map(orders, OrderTotal))
  {
    if |orders| > 0 {
      var rest := FlatMap(orders[1..], Items);
      MapAppend(orders[0].products, rest, Price);
      SumAppend(Map(orders[0].products, Price), Map(rest, Price));
      FlattenedPriceSum(orders[1..]);
      assert Map(orders, OrderTotal)[1..] == Map(orders[1..], OrderTotal);
    }
  }

  /** An order is never after the end of its own month, so exercise8 keeps
      every order from 1 February 2021 on, whatever its month. */
  lemma Exercise8FilterIsLowerBoundOnly(orders: seq<Order>)
    ensures Filter(orders, FromFeb1ToOwnMonthEnd) == Filter(orders, FromFeb1st2021)
  {
    forall o | o in orders ensures FromFeb1ToOwnMonthEnd(o) == FromFeb1st2021(o) {
      WithinOwnMonth(o.orderDate, o.orderDate);
    }
    FilterExtensional(orders, FromFeb1ToOwnMonthEnd, FromFeb1st2021);
  }

  /** exercise8: the sum of the prices of the products of the orders that
      pass the filter. That is the sum of the totals of all orders placed on
      or after 1 February 2021. */
  function Exercise8(orders: seq<Order>): (r: real)
    ensures r == Sum(Map(Filter(orders, FromFeb1st2021), OrderTotal))
  {
    Exercise8FilterIsLowerBoundOnly(orders);
    FlattenedPriceSum(Filter(orders, FromFeb1st2021));
    Sum(Map(ProductsOfOrders(orders, FromFeb1ToOwnMonthEnd), Price))
  }

  /** exercise8a: the same products folded with `(acc, p) -> acc + p.getPrice()`
      from 0. */
  function Exercise8a(orders: seq<Order>): real
  {
    FoldLeft(0.0, ProductsOfOrders(orders, FromFeb1ToOwnMonthEnd), AddValue(Price))
  }

  /** `reduce` from 0 and `sum` give the same total. */
  lemma Exercise8aEqualsExercise8(orders: seq<Order>)
    ensures Exercise8a(orders) == Exercise8(orders)
  {
    FoldAddValue(0.0, ProductsOfOrders(orders, FromFeb1ToOwnMonthEnd), Price);
  }

  // ------------------------------------------------------------ exercise 9

  /** The exception `getAsDouble()` throws on an empty `OptionalDouble`. */
  datatype StreamError = NoSuchElement

  /** The prices of the products of the orders placed on 15 March 2021, in
      stream order; none exactly when those orders list no product. */
  function Mar15th2021Prices(orders: seq<Order>): (r: seq<real>)
    ensures |r| == 0 <==> forall o :: o in orders && OnMar15th2021(o) ==> o.products == []
  {
    NoProductsOnMar15th2021(orders);
    Map(ProductsOfOrders(orders, OnMar15th2021), Price)
  }

  /** exercise9: the average price of the products of the orders placed on
      15 March 2021; it fails when there are none. */
  function Exercise9(orders: seq<Order>): (r: Result<real, StreamError>)
    ensures r.Err? <==> forall o :: o in orders && OnMar15th2021(o) ==> o.products == []
    ensures r.Ok? ==> IsAverageOf(r.value, Mar15th2021Prices(orders))
  {
    var average := Average(Mar15th2021Prices(orders));
    if average.None? then Err(NoSuchElement) else Ok(average.value)
  }

  lemma NoProductsOnMar15th2021(orders: seq<Order>)
    ensures ProductsOfOrders(orders, OnMar15th2021) == [] <==>
              forall o :: o in orders && OnMar15th2021(o) ==> o.products == []
  {
    var flat := ProductsOfOrders(orders, OnMar15th2021);
    if flat != [] {
      assert flat[0] in flat;
    }
    if o :| o in orders && OnMar15th2021(o) && o.products != [] {
      assert o.products[0] in o.products;
      assert o.products[0] in flat;
    }
  }

  /** On a consistent snapshot, exercise9 fails exactly when exercise7 finds
      no product. */
  lemma Exercise9FailsIffExercise7Empty(products: seq<Product>, orders: seq<Order>)
    requires Resolved(products, orders)
    ensures Exercise9(orders).Err? <==> Exercise7(products, orders) == []
  {
    BackReferencesAgreeWithFlattening(products, orders, OnMar15th2021);
    KeySetEmpty(Exercise7(products, orders), ProductId);
    KeySetEmpty(ProductsOfOrders(orders, OnMar15th2021), ProductId);
  }

  // ----------------------------------------------------------- exercise 10

  /** exercise10: count, sum, minimum, maximum and average of the prices of
      the "Books" products, in one pass; `None` when there are none. */
  method Exercise10(products: seq<Product>) returns (r: Option<Stats>)
    ensures r.None? <==> forall p :: p in products ==> !IsBooks(p)
    ensures r.Some? ==> r.value.count == |Filter(products, IsBooks)|
    ensures r.Some? ==> r.value.sum == Sum(Map(Filter(products, IsBooks), Price))
    ensures r.Some? ==> forall p :: p in products && IsBooks(p) ==> r.value.min <= p.price <= r.value.max
    ensures r.Some? ==> exists p :: p in products && IsBooks(p) && p.price == r.value.min
    ensures r.Some? ==> exists p :: p in products && IsBooks(p) && p.price == r.value.max
    ensures r.Some? ==> IsAverageOf(r.value.Average(), Map(Filter(products, IsBooks), Price))
  {
    var books := Filter(products, IsBooks);
    var prices := Map(books, Price);
    if books != [] {
      assert books[0] in books;
    }
    r := SummaryStatistics(prices);
    if r.Some? {
      forall p | p in products && IsBooks(p) ensures r.value.min <= p.price <= r.value.max {
        var i :| 0 <= i < |books| && books[i] == p;
        assert prices[i] == p.price;
      }
      var i :| 0 <= i < |prices| && prices[i] == r.value.min;
      assert books[i] in books;
      var j :| 0 <= j < |prices| && prices[j] == r.value.max;
      assert books[j] in books;
    }
  }

  // ----------------------------------------------------------- exercise 11

  /** exercise11: order id to the number of products in the order; a repeated
      order id raises "Duplicate key". */
  function Exercise11(orders: seq<Order>): (r: Result<map<int, int>, int>)
    ensures r.Ok? <==> forall i, j :: 0 <= i < j < |orders| ==> orders[i].id != orders[j].id
    ensures r.Ok? ==> r.value.Keys == KeySet(orders, OrderId)
    ensures r.Ok? ==> forall o :: o in orders ==> r.value[o.id] == |o.products|
    ensures r.Err? ==> exists i, j :: 0 <= i < j < |orders| && orders[i].id == r.error && orders[j].id == r.error
  {
    var r := ToMap(orders, OrderId, ProductCount);
    assert r.Err? ==> exists i, j :: 0 <= i < j < |orders| && orders[i].id == r.error && orders[j].id == r.error by {
      if r.Err? {
        var j :| 0 <= j < |orders| && DistinctKeys(orders[..j], OrderId)
                 && r.error == orders[j].id && r.error in KeySet(orders[..j], OrderId);
        var i :| 0 <= i < j && orders[..j][i].id == r.error;
        assert orders[i].id == r.error;
      }
    }
    r
  }

  // ------------------------------------------------------- exercise 12, 12a

  /** exercise12: each customer with orders, to their orders in input
      order. */
  function Exercise12(orders: seq<Order>): (r: map<Customer, seq<Order>>)
    ensures r.Keys == KeySet(orders, CustomerOf)
    ensures forall c, o :: c in r ==> (o in r[c] <==> o in orders && o.customer == c)
    ensures forall c :: c in r ==> r[c] != [] && IsSubsequence(r[c], orders)
    ensures forall o :: o in orders ==> multiset(r[o.customer])[o] == multiset(orders)[o]
  {
    GroupByPartition(orders, CustomerOf);
    GroupBy(orders, CustomerOf)
  }

  /** exercise12a: each customer id with orders, to the ids of those orders in
      input order. */
  function Exercise12a(orders: seq<Order>): (r: map<int, seq<int>>)
    ensures r.Keys == KeySet(orders, CustomerId)
    ensures forall k :: k in r ==> r[k] == Map(Bucket(orders, CustomerId, k), OrderId)
    ensures forall k :: k in r ==> r[k] != []
    ensures forall k, id :: k in r ==>
              (id in r[k] <==> exists o :: o in orders && o.customer.id == k && o.id == id)
  {
    var r := GroupMapping(orders, CustomerId, OrderId);
    GroupByPartition(orders, CustomerId);
    forall k, id | k in r ensures id in r[k] <==> exists o :: o in orders && o.customer.id == k && o.id == id {
      MappedBucketMembers(orders, CustomerId, OrderId, k, id);
    }
    r
  }

  /** A value lies in a mapped bucket exactly when some member with that key
      maps to it. */
  lemma MappedBucketMembers<T, K, V>(s: seq<T>, key: T -> K, f: T -> V, k: K, v: V)
    ensures v in Map(Bucket(s, key, k), f) <==> exists x :: x in s && key(x) == k && f(x) == v
  {
    var bucket := Bucket(s, key, k);
    var mapped := Map(bucket, f);
    if v in mapped {
      var i :| 0 <= i < |mapped| && mapped[i] == v;
      assert bucket[i] in bucket;
    }
    if x :| x in s && key(x) == k && f(x) == v {
      assert x in bucket;
      var i :| 0 <= i < |bucket| && bucket[i] == x;
      assert mapped[i] == v;
    }
  }

  // ------------------------------------------------------- exercise 13, 13a

  /** exercise13: each order to its price total; an order listed twice raises
      "Duplicate key". */
  function Exercise13(orders: seq<Order>): (r: Result<map<Order, real>, Order>)
    ensures r.Ok? <==> forall i, j :: 0 <= i < j < |orders| ==> orders[i] != orders[j]
    ensures r.Ok? ==> r.value.Keys == set o | o in orders
    ensures r.Ok? ==> forall o :: o in r.value ==> r.value[o] == Sum(Map(o.products, Price))
  {
    var r := ToMap(orders, (o: Order) => o, OrderTotal);
    assert KeySet(orders, (o: Order) => o) == set o | o in orders;
    r
  }

  /** `o -> o.getProducts().stream().mapToDouble(getPrice).reduce(0, Double::sum)`. */
  function OrderTotalByReduce(o: Order): real
  {
    FoldLeft(0.0, Map(o.products, Price), (a: real, b: real) => a + b)
  }

  /** exercise13a: as exercise13, with each total computed by `reduce`. */
  function Exercise13a(orders: seq<Order>): Result<map<Order, real>, Order>
  {
    ToMap(orders, (o: Order) => o, OrderTotalByReduce)
  }

  /** `reduce(0, Double::sum)` and `sum()` agree, so exercise13a is
      exercise13. */
  lemma Exercise13aEqualsExercise13(orders: seq<Order>)
    ensures Exercise13a(orders) == Exercise13(orders)
  {
    forall i | 0 <= i < |orders| ensures OrderTotalByReduce(orders[i]) == OrderTotal(orders[i]) {
      FoldPlus(0.0, Map(orders[i].products, Price));
    }
    ToMapValueExtensional(orders, (o: Order) => o, OrderTotalByReduce, OrderTotal);
  }

  // ----------------------------------------------------------- exercise 14

  /** exercise14: each category (compared exactly, as `HashMap` keys are) to
      the names of its products in input order. */
  function Exercise14(products: seq<Product>): (r: map<string, seq<string>>)
    ensures r.Keys == KeySet(products, Category)
    ensures forall c :: c in r ==> r[c] != [] && r[c] == Map(Bucket(products, Category, c), Name)
    ensures forall c, p :: p in products && p.category == c ==> c in r && p.name in r[c]
  {
    var r := GroupMapping(products, Category, Name);
    GroupByPartition(products, Category);
    forall c, p | p in products && p.category == c ensures c in r && p.name in r[c] {
      MappedBucketMembers(products, Category, Name, c, p.name);
    }
    r
  }

  // ------------------------------------------------------- exercise 15, 15a

  /** `groupingBy(Product::getCategory, maxBy(comparing(Product::getPrice)))`. */
  function MaxPerCategory(products: seq<Product>): map<string, Option<Product>>
  {
    var groups := GroupBy(products, Category);
    map c | c in groups :: MaxBy(groups[c], Price)
  }

  /** exercise15: each category to its most expensive product; of several at
      the top price, the first in input order. */
  function Exercise15(products: seq<Product>): (r: map<string, Option<Product>>)
    ensures r.Keys == KeySet(products, Category)
    ensures forall c :: c in r ==> r[c].Some? && r[c].value in products && r[c].value.category == c
    ensures forall c, p :: c in r && p in products && p.category == c ==> p.price <= r[c].value.price
    ensures forall c :: c in r ==>
              exists i :: 0 <= i < |Bucket(products, Category, c)| && Bucket(products, Category, c)[i] == r[c].value
                          && IsFirstMax(Bucket(products, Category, c), Price, i)
  {
    MaxPerCategoryMembers(products);
    MaxPerCategoryIsMax(products);
    MaxPerCategoryIsFirst(products);
    MaxPerCategory(products)
  }

  lemma MaxPerCategoryMembers(products: seq<Product>)
    ensures MaxPerCategory(products).Keys == KeySet(products, Category)
    ensures forall c :: c in MaxPerCategory(products) ==>
              && MaxPerCategory(products)[c].Some?
              && MaxPerCategory(products)[c].value in products
              && MaxPerCategory(products)[c].value.category == c
  {
    forall c | c in MaxPerCategory(products)
      ensures MaxPerCategory(products)[c].Some?
      ensures MaxPerCategory(products)[c].value in products
      ensures MaxPerCategory(products)[c].value.category == c
    {
      CategoryMaxIsMember(products, c);
    }
  }

  lemma MaxPerCategoryIsMax(products: seq<Product>)
    ensures forall c, p :: c in MaxPerCategory(products) && p in products && p.category == c ==>
              MaxPerCategory(products)[c].Some? && p.price <= MaxPerCategory(products)[c].value.price
  {
    forall c, p | c in MaxPerCategory(products) && p in products && p.category == c
      ensures MaxPerCategory(products)[c].Some? && p.price <= MaxPerCategory(products)[c].value.price
    {
      MaxByBoundsBucket(products, Category, c, p);
    }
  }

  lemma MaxPerCategoryIsFirst(products: seq<Product>)
    ensures forall c :: c in MaxPerCategory(products) ==>
              && MaxPerCategory(products)[c].Some?
              && exists i :: 0 <= i < |Bucket(products, Category, c)|
                             && Bucket(products, Category, c)[i] == MaxPerCategory(products)[c].value
                             && IsFirstMax(Bucket(products, Category, c), Price, i)
  {
    forall c | c in MaxPerCategory(products)
      ensures MaxPerCategory(products)[c].Some?
      ensures exists i :: 0 <= i < |Bucket(products, Category, c)|
                          && Bucket(products, Category, c)[i] == MaxPerCategory(products)[c].value
                          && IsFirstMax(Bucket(products, Category, c), Price, i)
    {
      CategoryMaxIsMember(products, c);
    }
  }

  /** For a category that occurs, `maxBy` picks a product of that
      category. */
  lemma CategoryMaxIsMember(products: seq<Product>, c: string)
    requires c in KeySet(products, Category)
    ensures MaxBy(Bucket(products, Category, c), Price).Some?
    ensures MaxBy(Bucket(products, Category, c), Price).value in products
    ensures MaxBy(Bucket(products, Category, c), Price).value.category == c
  {
    var bucket := Bucket(products, Category, c);
    var i :| 0 <= i < |products| && products[i].category == c;
    assert products[i] in bucket;
    var m := MaxBy(bucket, Price).value;
    var j :| 0 <= j < |bucket| && bucket[j] == m && IsFirstMax(bucket, Price, j);
    assert m in bucket;
  }

  /** `maxBy` on a bucket is at least as large as every member of the
      bucket. */
  lemma MaxByBoundsBucket<K>(products: seq<Product>, key: Product -> K, k: K, p: Product)
    requires p in products && key(p) == k
    ensures MaxBy(Bucket(products, key, k), Price).Some?
    ensures p.price <= MaxBy(Bucket(products, key, k), Price).value.price
  {
    var bucket := Bucket(products, key, k);
    assert p in bucket;
    var m := MaxBy(bucket, Price).value;
    var i :| 0 <= i < |bucket| && bucket[i] == m && IsFirstMax(bucket, Price, i);
    var j :| 0 <= j < |bucket| && bucket[j] == p;
  }

  /** exercise15a: each category to the name of the product exercise15
      picks for it. */
  function Exercise15a(products: seq<Product>): (r: map<string, Option<string>>)
    ensures r.Keys == Exercise15(products).Keys
    ensures forall c :: c in r ==> r[c] == Some(Exercise15(products)[c].value.name)
  {
    var maxima := MaxPerCategory(products);
    MaxPerCategoryMembers(products);
    map c | c in maxima :: MapOption(maxima[c], Name)
  }
}
