/** Three exercises whose code does not do what their display names say. For
    each one there is a concrete input on which the code as written differs
    from the evident intent, and a corrected query with the intended property
    proved. */
module Findings {
  import opened Text
  import opened Dates
  import opened Streams
  import opened Collectors
  import opened Domain
  import opened Exercises

  // exercise1 is named for category "Books" but compares with "Book".

  /** exercise1 as its display name describes it: "Books" priced over 100. */
  function Exercise1Corrected(products: seq<Product>): (r: seq<Product>)
    ensures forall p :: p in r <==> p in products && EqualsIgnoreCase(p.category, "Books") && p.price > 100.0
  {
    Filter(products, (p: Product) => CategoryIs(p, "Books") && p.price > 100.0)
  }

  /** The corrected exercise1 is exactly exercise1a. */
  lemma Exercise1CorrectedIsExercise1a(products: seq<Product>)
    ensures Exercise1Corrected(products) == Exercise1a(products)
  {
    FilterExtensional(products, (p: Product) => CategoryIs(p, "Books") && p.price > 100.0,
                      And(IsBooks, OverHundred));
  }

  /** A "Books" product at 120 is missed by exercise1 as written. */
  lemma Exercise1MissesBooks()
    ensures var book := Product(1, "Dune", "Books", 120.0);
            Exercise1([book]) == [] && Exercise1Corrected([book]) == [book]
  {
    var book := Product(1, "Dune", "Books", 120.0);
    NoCategoryIsBothBookAndBooks(book.category);
    assert !CategoryIs(book, "Book");
    assert IsBooks(book) by {
      EqualsIgnoreCaseReflexive("Books");
    }
  }

  // exercise1b is named for category "Books" but tests each product's
  // category against itself.

  /** exercise1b with the `BiPredicate` applied to "Books". */
  function Exercise1bCorrected(products: seq<Product>): (r: seq<Product>)
    ensures forall p :: p in r <==> p in products && EqualsIgnoreCase(p.category, "Books") && p.price > 100.0
  {
    var filter := (product: Product, category: string) => EqualsIgnoreCase(product.category, category);
    Filter(products, (p: Product) => filter(p, "Books") && p.price > 100.0)
  }

  /** The corrected exercise1b is exactly exercise1a. */
  lemma Exercise1bCorrectedIsExercise1a(products: seq<Product>)
    ensures Exercise1bCorrected(products) == Exercise1a(products)
  {
    var filter := (product: Product, category: string) => EqualsIgnoreCase(product.category, category);
    FilterExtensional(products, (p: Product) => filter(p, "Books") && p.price > 100.0,
                      And(IsBooks, OverHundred));
  }

  /** A "Toys" product at 150 is kept by exercise1b as written. */
  lemma Exercise1bKeepsToys()
    ensures var toy := Product(2, "Robot", "Toys", 150.0);
            Exercise1b([toy]) == [toy] && Exercise1bCorrected([toy]) == []
  {
    var toy := Product(2, "Robot", "Toys", 150.0);
    Exercise1bIgnoresCategory([toy]);
    assert !EqualsIgnoreCase(toy.category, "Books") by {
      assert ToLowerAscii(toy.category[0]) != ToLowerAscii("Books"[0]);
    }
  }

  // exercise8 is named for orders placed in February 2021 but bounds each
  // order by the end of its own month.

  /** The last day of February 2021. */
  const Feb28th2021: LocalDate := LastDayOfMonth(Feb1st2021)

  /** Placed in February 2021: from its first day to its last. */
  predicate InFeb2021(o: Order)
  {
    CompareTo(o.orderDate, Feb1st2021) >= 0 && CompareTo(o.orderDate, Feb28th2021) <= 0
  }

  /** The intended range is exactly the calendar month. */
  lemma InFeb2021IsTheMonth(o: Order)
    ensures InFeb2021(o) <==> o.orderDate.year == 2021 && o.orderDate.month == 2
  {
  }

  /** exercise8 with the range ending on the last day of February 2021: the
      sum of the totals of the orders placed in that month. */
  function Exercise8Corrected(orders: seq<Order>): (r: real)
    ensures r == Sum(Map(Filter(orders, (o: Order) => o.orderDate.year == 2021 && o.orderDate.month == 2),
                         OrderTotal))
  {
    FilterExtensional(orders, InFeb2021, (o: Order) => o.orderDate.year == 2021 && o.orderDate.month == 2);
    FlattenedPriceSum(Filter(orders, InFeb2021));
    Sum(Map(ProductsOfOrders(orders, InFeb2021), Price))
  }

  /** A March order is counted by exercise8 as written. */
  lemma Exercise8CountsMarch()
    ensures var order := Order(1, Date(2021, 3, 15), Customer(1, "Ann", 1), [Product(1, "Dune", "Books", 10.0)]);
            Exercise8([order]) == 10.0 && Exercise8Corrected([order]) == 0.0
  {
    var order := Order(1, Date(2021, 3, 15), Customer(1, "Ann", 1), [Product(1, "Dune", "Books", 10.0)]);
    assert FromFeb1st2021(order);
    assert Filter([order], FromFeb1st2021) == [order];
    assert Map([order], OrderTotal) == [OrderTotal(order)];
    assert Map(order.products, Price) == [10.0];
    assert !InFeb2021(order);
    assert Filter([order], InFeb2021) == [];
    assert Sum([10.0]) == 10.0;
    assert OrderTotal(order) == 10.0;
    assert Exercise8([order]) == 10.0;
    assert ProductsOfOrders([order], InFeb2021) == [];
    assert Map(ProductsOfOrders([order], InFeb2021), Price) == [];
    assert Exercise8Corrected([order]) == 0.0;
  }
}
