/** The entities of the shop: customers, products and the orders that link
    them. A snapshot is the three sequences the repositories' `findAll()`
    return. */
module Domain {
  import opened Dates
  import opened Streams

  datatype Customer = Customer(id: int, name: string, tier: int)

  datatype Product = Product(id: int, name: string, category: string, price: real)
  {
    /** Lombok's `withPrice`: a new product that differs only in its price;
        the original value is untouched. */
    function WithPrice(newPrice: real): Product
    {
      this.(price := newPrice)
    }
  }

  datatype Order = Order(id: int, orderDate: LocalDate, customer: Customer, products: seq<Product>)

  /** `Product::getPrice`. */
  function Price(p: Product): real
  {
    p.price
  }

  /** `Product::getId`. */
  function ProductId(p: Product): int
  {
    p.id
  }

  /** `Product::getCategory`. */
  function Category(p: Product): string
  {
    p.category
  }

  /** `Product::getName`. */
  function Name(p: Product): string
  {
    p.name
  }

  /** `Order::getId`. */
  function OrderId(o: Order): int
  {
    o.id
  }

  /** `Order::getCustomer`. */
  function CustomerOf(o: Order): Customer
  {
    o.customer
  }

  /** `order -> order.getCustomer().getId()`. */
  function CustomerId(o: Order): int
  {
    o.customer.id
  }

  /** `order -> order.getProducts().size()`. */
  function ProductCount(o: Order): int
  {
    |o.products|
  }

  /** The order lists a product with this id. */
  predicate HasProductId(o: Order, id: int)
  {
    exists i :: 0 <= i < |o.products| && o.products[i].id == id
  }

  /** `product.getOrders()`: the other side of the many-to-many relation,
      found by looking the product's id up in the orders' product lists. It is
      consistent with the forward links by construction: an order is listed
      exactly when it lists the product. */
  function OrdersOf(orders: seq<Order>, p: Product): (r: seq<Order>)
    ensures forall o :: o in r <==> o in orders && HasProductId(o, p.id)
    ensures IsSubsequence(r, orders)
  {
    Filter(orders, o => HasProductId(o, p.id))
  }

  /** `product -> product.getOrders()` as a function value. */
  function OrdersOfIn(orders: seq<Order>): Product -> seq<Order>
  {
    (p: Product) => OrdersOf(orders, p)
  }

  /** The products the order lists, as a test on products. */
  function ListedBy(o: Order): Product -> bool
  {
    (p: Product) => HasProductId(o, p.id)
  }

  /** `getOrders()` holds an order as often as it was loaded if it lists the
      product, and not at all otherwise. */
  lemma OrdersOfCount(orders: seq<Order>, p: Product, o: Order)
    ensures multiset(OrdersOf(orders, p))[o] == if HasProductId(o, p.id) then multiset(orders)[o] else 0
  {
    if o !in orders {
      assert o !in OrdersOf(orders, p);
    }
  }

  /** Following back-references from each of `ps` and concatenating reaches
      an order once for every product of `ps` it lists, times the number of
      times it was loaded. */
  lemma OrdersOfAllCount(ps: seq<Product>, orders: seq<Order>, o: Order)
    ensures multiset(FlatMap(ps, OrdersOfIn(orders)))[o] == multiset(orders)[o] * |Filter(ps, ListedBy(o))|
  {
    var f := OrdersOfIn(orders);
    forall i | 0 <= i < |ps|
      ensures multiset(f(ps[i]))[o] == if ListedBy(o)(ps[i]) then multiset(orders)[o] else 0
    {
      OrdersOfCount(orders, ps[i], o);
    }
    FlatMapCount(ps, f, ListedBy(o), o, multiset(orders)[o]);
  }

  /** `OrdersOfAllCount` for every order at once. */
  lemma OrdersOfAllCounts(ps: seq<Product>, orders: seq<Order>)
    ensures forall o :: multiset(FlatMap(ps, OrdersOfIn(orders)))[o] == multiset(orders)[o] * |Filter(ps, ListedBy(o))|
  {
    forall o {
      OrdersOfAllCount(ps, orders, o);
    }
  }

  /** Every product an order lists is one of the loaded products. */
  ghost predicate Resolved(products: seq<Product>, orders: seq<Order>)
  {
    forall o, q :: o in orders && q in o.products ==> q in products
  }

  /** Loaded products with the same id are the same product. */
  ghost predicate UniqueIds(products: seq<Product>)
  {
    forall i, j :: 0 <= i < |products| && 0 <= j < |products| && products[i].id == products[j].id ==>
      products[i] == products[j]
  }

  lemma ResolvedProduct(products: seq<Product>, orders: seq<Order>, o: Order, p: Product)
    requires Resolved(products, orders)
    requires o in orders && p in o.products
    ensures p in products
  {
  }

  lemma SameIdSameProduct(products: seq<Product>, p: Product, q: Product)
    requires UniqueIds(products)
    requires p in products && q in products && p.id == q.id
    ensures p == q
  {
    var a :| 0 <= a < |products| && products[a] == p;
    var b :| 0 <= b < |products| && products[b] == q;
  }

  /** `Order::getProducts`. */
  function Items(o: Order): seq<Product>
  {
    o.products
  }

  /** Some order that satisfies `q` lists a product with this id. */
  predicate OrderedWhere(orders: seq<Order>, q: Order -> bool, id: int)
  {
    exists o :: o in orders && q(o) && HasProductId(o, id)
  }

  /** `orders.stream().filter(q).flatMap(o -> o.getProducts().stream())`. */
  function ProductsOfOrders(orders: seq<Order>, q: Order -> bool): (r: seq<Product>)
    ensures forall p :: p in r <==> exists o :: o in orders && q(o) && p in o.products
  {
    FlatMap(Filter(orders, q), Items)
  }

  /** The ids met while flattening are those of `OrderedWhere`. */
  lemma ProductsOfOrdersIds(orders: seq<Order>, q: Order -> bool)
    ensures forall id :: id in KeySet(ProductsOfOrders(orders, q), ProductId) <==> OrderedWhere(orders, q, id)
  {
    forall id | id in KeySet(ProductsOfOrders(orders, q), ProductId) ensures OrderedWhere(orders, q, id) {
      var all := ProductsOfOrders(orders, q);
      var i :| 0 <= i < |all| && all[i].id == id;
      assert all[i] in all;
      var o :| o in orders && q(o) && all[i] in o.products;
      var j :| 0 <= j < |o.products| && o.products[j] == all[i];
      assert HasProductId(o, id);
    }
    forall id | OrderedWhere(orders, q, id) ensures id in KeySet(ProductsOfOrders(orders, q), ProductId) {
      OrderedIdIsMet(orders, q, id);
    }
  }

  lemma OrderedIdIsMet(orders: seq<Order>, q: Order -> bool, id: int)
    requires OrderedWhere(orders, q, id)
    ensures id in KeySet(ProductsOfOrders(orders, q), ProductId)
  {
    var all := ProductsOfOrders(orders, q);
    var o :| o in orders && q(o) && HasProductId(o, id);
    var j :| 0 <= j < |o.products| && o.products[j].id == id;
    var p := o.products[j];
    assert p in o.products;
    assert p in all;
    KeySetMember(all, ProductId, p);
  }

  /** `products.stream().filter(p -> p.getOrders().stream().anyMatch(q))`:
      the loaded products that some order satisfying `q` lists. */
  function ProductsOrderedWhere(products: seq<Product>, orders: seq<Order>, q: Order -> bool): (r: seq<Product>)
    ensures forall p :: p in r <==> p in products && OrderedWhere(orders, q, p.id)
    ensures IsSubsequence(r, products)
  {
    Filter(products, (p: Product) => AnyMatch(OrdersOf(orders, p), q))
  }

  /** On a consistent snapshot, looking products up through their orders
      finds exactly the ids met by flattening the orders. */
  lemma BackReferencesAgreeWithFlattening(products: seq<Product>, orders: seq<Order>, q: Order -> bool)
    requires Resolved(products, orders)
    ensures KeySet(ProductsOrderedWhere(products, orders, q), ProductId) == KeySet(ProductsOfOrders(orders, q), ProductId)
  {
    ProductsOfOrdersIds(orders, q);
    forall id | OrderedWhere(orders, q, id) ensures id in KeySet(ProductsOrderedWhere(products, orders, q), ProductId) {
      OrderedIdIsLoaded(products, orders, q, id);
    }
    forall id | id in KeySet(ProductsOrderedWhere(products, orders, q), ProductId) ensures OrderedWhere(orders, q, id) {
      var r := ProductsOrderedWhere(products, orders, q);
      var i :| 0 <= i < |r| && r[i].id == id;
      assert r[i] in r;
    }
  }

  lemma OrderedIdIsLoaded(products: seq<Product>, orders: seq<Order>, q: Order -> bool, id: int)
    requires Resolved(products, orders)
    requires OrderedWhere(orders, q, id)
    ensures id in KeySet(ProductsOrderedWhere(products, orders, q), ProductId)
  {
    var o :| o in orders && q(o) && HasProductId(o, id);
    var j :| 0 <= j < |o.products| && o.products[j].id == id;
    var p := o.products[j];
    ResolvedProduct(products, orders, o, p);
    assert OrderedWhere(orders, q, p.id);
    var r := ProductsOrderedWhere(products, orders, q);
    assert p in r;
    KeySetMember(r, ProductId, p);
  }
}
