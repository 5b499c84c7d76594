# Stream API exercises, modelled in Dafny

The repository is a set of Java Stream API exercises over a small order
database. There are customers with a tier, products with a category and a
price, and orders with a date, one customer and a list of products. Each
exercise is one pipeline: `filter`, `map`, `flatMap`, `distinct`, `sorted`,
`limit`, `sum`, `average`, `summaryStatistics`, `toMap`, `groupingBy`,
`mapping`, `maxBy` and `collectingAndThen`, applied to the loaded products
or orders. This project models every pipeline body, exercise1 to
exercise15a, as a pure function over sequences. It then proves what each
result contains and how the exercises that answer the same question relate
to one another.

Layout (one module per file):

- `results.dfy` (`Results`): `Option` and `Result`.
- `text.dfy` (`Text`): `String.equalsIgnoreCase` on ASCII letters.
- `dates.dfy` (`Dates`): `LocalDate`, its validity rules, `compareTo`, and
  `TemporalAdjusters.lastDayOfMonth`.
- `streams.dfy` (`Streams`): the stream stages, one function each.
- `sorting.dfy` (`Sorting`): stable `sorted(comparator)` and `limit`.
- `collectors.dfy` (`Collectors`): `groupingBy`, `mapping`, `maxBy`, `toMap`,
  sum, reduce, average and `DoubleSummaryStatistics`.
- `domain.dfy` (`Domain`): the entities, and `Product.getOrders()` as a
  lookup over the orders.
- `exercises.dfy` (`Exercises`): the pipelines themselves.
- `findings.dfy` (`Findings`): three exercises whose code does not do what
  their titles say. Each has a counterexample and a corrected version.

Design choices:

- Prices are `real`, so `price * 0.9` is exact.
- `LocalDate` is a subset type of valid dates.
- An empty `average()` yields `None`, as Java's empty `OptionalDouble`.
  Exercise9 then calls `getAsDouble()`, which throws on an empty
  `OptionalDouble`; there the empty case yields `Err(NoSuchElement)`.
- A sum or a `reduce` over an empty selection is 0 and succeeds.
- An empty `summaryStatistics()` yields `None`.
- A duplicate key in `toMap` yields `Err(key)`, where Java throws
  `IllegalStateException`.
- The map collectors become Dafny `map`s. Each bucket keeps the encounter
  order of the input.
- `maxBy` keeps the first maximal element, because
  `BinaryOperator.maxBy` keeps its accumulator on ties.
- `distinct()` is modelled by product id and keeps the first occurrence.

## Model

| member | source | states |
|---|---|---|
| Exercises.Exercise1 | src/test/java/space/gavinklfong/demo/streamapi/StreamApiTest.java:39-43 | keeps, in input order, exactly the products whose category equals "Book" ignoring case and whose price exceeds 100 |
| Exercises.Exercise1a | src/test/java/space/gavinklfong/demo/streamapi/StreamApiTest.java:54-61 | keeps, in input order, exactly the "Books" products (ignoring case) priced over 100 |
| Exercises.Exercise1aIsInlineConjunction | src/test/java/space/gavinklfong/demo/streamapi/StreamApiTest.java:54-60 | filtering with `predicate1.and(predicate2)` is the same as filtering with the inline conjunction of the two tests |
| Exercises.Exercise1b | src/test/java/space/gavinklfong/demo/streamapi/StreamApiTest.java:72-78 | the result is a subsequence of the loaded products |
| Exercises.Exercise1bIgnoresCategory | src/test/java/space/gavinklfong/demo/streamapi/StreamApiTest.java:72-78 | because the BiPredicate compares a product's category with itself, exercise1b is exactly the price filter: every product over 100, whatever its category |
| Exercises.Exercise1And1aDisjoint | src/test/java/space/gavinklfong/demo/streamapi/StreamApiTest.java:41-54 | no product is returned by both exercise1 and exercise1a |
| Text.EqualsIgnoreCase | src/test/java/space/gavinklfong/demo/streamapi/StreamApiTest.java:41 | two strings are equal ignoring case iff they have the same length and each pair of characters is identical, equal after upper-casing, or equal after lower-casing |
| Text.EqualsIgnoreCaseTransitive | src/test/java/space/gavinklfong/demo/streamapi/StreamApiTest.java:41 | equality ignoring case is transitive |
| Text.NoCategoryIsBothBookAndBooks | src/test/java/space/gavinklfong/demo/streamapi/StreamApiTest.java:41-54 | no category matches both "Book" and "Books" ignoring case |
| Exercises.Exercise2 | src/test/java/space/gavinklfong/demo/streamapi/StreamApiTest.java:90-97 | an order is kept iff one of its products has category "Baby"; input order is kept |
| Exercises.Exercise22 | src/test/java/space/gavinklfong/demo/streamapi/StreamApiTest.java:111-115 | an order is reached iff it lists the id of some loaded "Baby" product; it occurs once for each loaded "Baby" product it lists, times its own number of occurrences among the orders |
| Domain.OrdersOfAllCount | src/test/java/space/gavinklfong/demo/streamapi/StreamApiTest.java:114 | flattening the `getOrders()` lists of several products yields each order once per product that it lists, times its own number of occurrences |
| Exercises.Exercise22SameOrdersAsExercise2 | src/test/java/space/gavinklfong/demo/streamapi/StreamApiTest.java:111-115 | on a snapshot whose orders list only loaded products with unique ids, walking product-to-order links reaches the same orders as exercise2 |
| Domain.OrdersOf | src/test/java/space/gavinklfong/demo/streamapi/StreamApiTest.java:114 | `getOrders()` holds exactly the orders that list the product's id, in order |
| Exercises.Exercise3 | src/test/java/space/gavinklfong/demo/streamapi/StreamApiTest.java:130-134 | one output per "Toys" product, in order, with the same id, name and category and 90% of the price |
| Exercises.Exercise3UndoDiscount | src/test/java/space/gavinklfong/demo/streamapi/StreamApiTest.java:133 | dividing each discounted price by 0.9 gives back exactly the original "Toys" products |
| Exercises.Tier2Products | src/test/java/space/gavinklfong/demo/streamapi/StreamApiTest.java:147-152 | the three chained date and tier filters, then flattening, give the products of the tier-2 orders dated 2021-02-01 to 2021-04-01 inclusive |
| Exercises.ChainedFiltersAreOneFilter | src/test/java/space/gavinklfong/demo/streamapi/StreamApiTest.java:149-151 | the three chained filters equal one filter on the conjunction |
| Exercises.Exercise45 | src/test/java/space/gavinklfong/demo/streamapi/StreamApiTest.java:147-154 | no two results share an id; an id appears iff some qualifying order lists it; each result comes from a qualifying order; first-seen order is kept |
| Exercises.Exercise45KeepsFirstOccurrence | src/test/java/space/gavinklfong/demo/streamapi/StreamApiTest.java:152-153 | each product that `distinct()` keeps is the first occurrence of its id in the flattened stream |
| Streams.DistinctBy | src/test/java/space/gavinklfong/demo/streamapi/StreamApiTest.java:153 | the result has pairwise distinct keys, the same key set as the input, and is a subsequence of it |
| Exercises.Exercise4 | src/test/java/space/gavinklfong/demo/streamapi/StreamApiTest.java:166-171 | a loaded product is kept iff one of its orders is tier 2 and dated 2021-02-01 to 2021-04-01 |
| Exercises.Exercise4SameProductsAsExercise45 | src/test/java/space/gavinklfong/demo/streamapi/StreamApiTest.java:166-171 | when every ordered product is loaded, exercise4 and exercise45 return the same set of product ids |
| Domain.BackReferencesAgreeWithFlattening | src/test/java/space/gavinklfong/demo/streamapi/StreamApiTest.java:166-170 | for any order condition, starting from products and following back-references gives the same product ids as flattening the matching orders |
| Dates.CompareTo | src/test/java/space/gavinklfong/demo/streamapi/StreamApiTest.java:150 | the comparison is zero iff the dates are equal, negative iff the first is earlier, positive iff it is later |
| Dates.DaysInMonth | src/test/java/space/gavinklfong/demo/streamapi/StreamApiTest.java:232 | between 28 and 31 days; February has 29 in a Gregorian leap year and 28 otherwise; April, June, September and November have 30; every other month has 31 |
| Dates.YearLength | src/test/java/space/gavinklfong/demo/streamapi/StreamApiTest.java:232 | the month lengths of a year add up to 366 in a Gregorian leap year and to 365 otherwise |
| Dates.OnOrBeforeTotalPreorder | src/test/java/space/gavinklfong/demo/streamapi/StreamApiTest.java:200 | date order is reflexive, total, transitive and antisymmetric |
| Exercises.Exercise5 | src/test/java/space/gavinklfong/demo/streamapi/StreamApiTest.java:183-187 | at most 3 "Books" products, cheapest first; every book left out costs at least as much as every book returned |
| Exercises.Exercise5KeepsTiesInOrder | src/test/java/space/gavinklfong/demo/streamapi/StreamApiTest.java:185-186 | books of equal price come out in their input order, as a prefix of that order |
| Sorting.SortBy | src/test/java/space/gavinklfong/demo/streamapi/StreamApiTest.java:185 | for any total preorder, the output is a permutation of the input and is sorted |
| Sorting.SortByStable | src/test/java/space/gavinklfong/demo/streamapi/StreamApiTest.java:185 | sorting keeps the relative order of elements that compare equal |
| Sorting.TopN | src/test/java/space/gavinklfong/demo/streamapi/StreamApiTest.java:185-186 | `sorted().limit(n)` has min(n, size) elements and is sorted; it is a sub-multiset of the input; every element returned is at most every element left out |
| Sorting.TopNStable | src/test/java/space/gavinklfong/demo/streamapi/StreamApiTest.java:185-186 | equal elements in the top n are a prefix of their input order |
| Exercises.Exercise6 | src/test/java/space/gavinklfong/demo/streamapi/StreamApiTest.java:199-202 | at most 3 orders, latest date first; no order left out is later than one returned |
| Exercises.Exercise6KeepsTiesInOrder | src/test/java/space/gavinklfong/demo/streamapi/StreamApiTest.java:200-201 | orders with the same date keep their input order through the reversed comparator |
| Exercises.Exercise7 | src/test/java/space/gavinklfong/demo/streamapi/StreamApiTest.java:214-217 | a loaded product is kept iff some order dated 2021-03-15 lists it; input order is kept |
| Dates.LastDayOfMonth | src/test/java/space/gavinklfong/demo/streamapi/StreamApiTest.java:232 | the adjusted date is in the same year and month, is the month's last valid day, and is not before the input |
| Exercises.Exercise8FilterIsLowerBoundOnly | src/test/java/space/gavinklfong/demo/streamapi/StreamApiTest.java:231-232 | the exercise8 filter is exactly "on or after 2021-02-01", because no date is after its own month's last day |
| Exercises.Exercise8 | src/test/java/space/gavinklfong/demo/streamapi/StreamApiTest.java:229-235 | the sum of the per-order totals over every order from 2021-02-01 on |
| Exercises.FlattenedPriceSum | src/test/java/space/gavinklfong/demo/streamapi/StreamApiTest.java:233-235 | summing the prices of the flattened products equals summing each order's total |
| Exercises.Exercise8aEqualsExercise8 | src/test/java/space/gavinklfong/demo/streamapi/StreamApiTest.java:246-255 | the three-argument `reduce` with the price accumulator gives the same total as exercise8 |
| Collectors.FoldAddValue | src/test/java/space/gavinklfong/demo/streamapi/StreamApiTest.java:255 | a left fold that adds each element's value to a seed equals the seed plus the sum of the values |
| Exercises.Exercise9 | src/test/java/space/gavinklfong/demo/streamapi/StreamApiTest.java:267-272 | fails with no-such-element iff no order dated 2021-03-15 has a product; otherwise average times count equals the sum of those products' prices |
| Exercises.Exercise9FailsIffExercise7Empty | src/test/java/space/gavinklfong/demo/streamapi/StreamApiTest.java:267-272 | when every ordered product is loaded, exercise9 fails exactly when exercise7 finds no product |
| Collectors.Average | src/test/java/space/gavinklfong/demo/streamapi/StreamApiTest.java:272 | empty iff the input is empty; otherwise the average times the count is the sum |
| Exercises.Exercise10 | src/test/java/space/gavinklfong/demo/streamapi/StreamApiTest.java:284-288 | absent iff there are no "Books" products; otherwise gives the count and sum of book prices, min and max that bound every book price and are attained, and an average consistent with the sum |
| Collectors.SummaryStatistics | src/test/java/space/gavinklfong/demo/streamapi/StreamApiTest.java:288 | one pass: count, sum, min and max of the values, min and max being members of the input and bounding it, and average times count equals sum |
| Exercises.Exercise11 | src/test/java/space/gavinklfong/demo/streamapi/StreamApiTest.java:301-303 | succeeds iff order ids are pairwise distinct, then maps each id to its order's product count; otherwise reports an id held by two orders |
| Collectors.ToMap | src/test/java/space/gavinklfong/demo/streamapi/StreamApiTest.java:303 | succeeds iff keys are pairwise distinct, with exactly the input's keys and each key's value; otherwise names the first repeated key |
| Exercises.Exercise12 | src/test/java/space/gavinklfong/demo/streamapi/StreamApiTest.java:314-317 | keys are exactly the ordering customers; each list holds exactly that customer's orders, in input order, none lost or duplicated |
| Collectors.GroupBy | src/test/java/space/gavinklfong/demo/streamapi/StreamApiTest.java:317 | keys are exactly the input's keys, and each bucket is the input filtered to that key |
| Collectors.GroupByPartition | src/test/java/space/gavinklfong/demo/streamapi/StreamApiTest.java:317 | the buckets partition the input: every element lands in its key's bucket as often as it occurs, buckets hold only matching input elements, none is empty |
| Exercises.Exercise12a | src/test/java/space/gavinklfong/demo/streamapi/StreamApiTest.java:329-331 | keys are exactly the customer ids; each list holds, in order, the ids of that customer's orders |
| Collectors.GroupMapping | src/test/java/space/gavinklfong/demo/streamapi/StreamApiTest.java:330-331 | `groupingBy` with a `mapping` downstream maps each key to the mapped bucket |
| Exercises.Exercise13 | src/test/java/space/gavinklfong/demo/streamapi/StreamApiTest.java:342-350 | succeeds iff no order occurs twice, then maps every order to the sum of its product prices |
| Exercises.Exercise13aEqualsExercise13 | src/test/java/space/gavinklfong/demo/streamapi/StreamApiTest.java:362-368 | totals computed by `reduce(0, Double::sum)` give the same map, or the same failure, as exercise13 |
| Collectors.FoldPlus | src/test/java/space/gavinklfong/demo/streamapi/StreamApiTest.java:368 | a left fold of addition from a seed equals the seed plus the sum |
| Exercises.Exercise14 | src/test/java/space/gavinklfong/demo/streamapi/StreamApiTest.java:380-385 | keys are exactly the categories present; each list holds the names of that category's products in input order, and every product's name is under its category |
| Exercises.Exercise15 | src/test/java/space/gavinklfong/demo/streamapi/StreamApiTest.java:397-402 | keys are exactly the categories present; each value is a product of that category priced at least as high as all of them, and the first such product in input order |
| Collectors.MaxBy | src/test/java/space/gavinklfong/demo/streamapi/StreamApiTest.java:401 | empty iff the input is empty; otherwise returns the first element of greatest key |
| Exercises.Exercise15a | src/test/java/space/gavinklfong/demo/streamapi/StreamApiTest.java:415-421 | the same categories as exercise15, each mapped to the name of exercise15's product |
| Results.MapOptionIdentity | src/test/java/space/gavinklfong/demo/streamapi/StreamApiTest.java:420 | `Optional.map` with the identity function leaves the optional unchanged |
| Results.MapOptionCompose | src/test/java/space/gavinklfong/demo/streamapi/StreamApiTest.java:420 | mapping with `f` and then with `g` is mapping once with `g` after `f` |
| Streams.Filter | src/test/java/space/gavinklfong/demo/streamapi/StreamApiTest.java:40-43 | keeps exactly the elements satisfying the predicate, each as often as in the input and in the same order |
| Streams.FilterFilter | src/test/java/space/gavinklfong/demo/streamapi/StreamApiTest.java:149-151 | two successive filters equal one filter on the conjunction |
| Streams.FlatMap | src/test/java/space/gavinklfong/demo/streamapi/StreamApiTest.java:152 | an element is in the result iff it belongs to the mapped sequence of some input element |
| Streams.FlatMapSingleton | src/test/java/space/gavinklfong/demo/streamapi/StreamApiTest.java:152 | flattening one element yields exactly its mapped sequence |
| Streams.FlatMapAppend | src/test/java/space/gavinklfong/demo/streamapi/StreamApiTest.java:152 | flattening a concatenation concatenates the flattened parts; with the singleton law this fixes the result as the mapped sequences in input order |
| Domain.ProductsOfOrders | src/test/java/space/gavinklfong/demo/streamapi/StreamApiTest.java:147-152 | a product is in the flattened stream iff some order satisfying the condition lists it |
| Domain.ProductsOrderedWhere | src/test/java/space/gavinklfong/demo/streamapi/StreamApiTest.java:166-170 | a loaded product is kept iff some order satisfying the condition lists its id; the result is a subsequence of the loaded products |
| Streams.Take | src/test/java/space/gavinklfong/demo/streamapi/StreamApiTest.java:186 | `limit(n)` gives the first min(n, size) elements |
| Collectors.SumNonNegative | src/test/java/space/gavinklfong/demo/streamapi/StreamApiTest.java:233-235 | a sum of non-negative prices is non-negative, and is zero iff every price is zero |
| Collectors.FoldLeftAppend | src/test/java/space/gavinklfong/demo/streamapi/StreamApiTest.java:255 | `reduce` on a sequential stream folds strictly left to right: a concatenation is folded by continuing from the first part's result |
| Findings.Exercise1MissesBooks | src/test/java/space/gavinklfong/demo/streamapi/StreamApiTest.java:41 | a "Books" product priced 120 is not returned by exercise1 but is returned by the corrected filter |
| Findings.Exercise1Corrected | src/test/java/space/gavinklfong/demo/streamapi/StreamApiTest.java:36-43 | keeps exactly the "Books" products (ignoring case) priced over 100 |
| Findings.Exercise1CorrectedIsExercise1a | src/test/java/space/gavinklfong/demo/streamapi/StreamApiTest.java:52-61 | the corrected exercise1 equals exercise1a |
| Findings.Exercise1bKeepsToys | src/test/java/space/gavinklfong/demo/streamapi/StreamApiTest.java:77 | a "Toys" product priced 150 is returned by exercise1b but not by the corrected filter |
| Findings.Exercise1bCorrected | src/test/java/space/gavinklfong/demo/streamapi/StreamApiTest.java:70-78 | the BiPredicate applied to "Books" keeps exactly the "Books" products priced over 100 |
| Findings.Exercise1bCorrectedIsExercise1a | src/test/java/space/gavinklfong/demo/streamapi/StreamApiTest.java:70-78 | the corrected exercise1b equals exercise1a |
| Findings.Exercise8CountsMarch | src/test/java/space/gavinklfong/demo/streamapi/StreamApiTest.java:231-232 | one order of 10.0 dated 2021-03-15 adds 10.0 to exercise8 and nothing to the February total |
| Findings.InFeb2021IsTheMonth | src/test/java/space/gavinklfong/demo/streamapi/StreamApiTest.java:225 | the corrected date window, 2021-02-01 to the last day of that month, holds exactly the dates in February 2021 |
| Findings.Exercise8Corrected | src/test/java/space/gavinklfong/demo/streamapi/StreamApiTest.java:225-235 | the sum of the totals of exactly the orders placed in February 2021 |

## Left out

- Repositories, Spring wiring and JPA loading are not modelled. Each exercise takes the loaded products or orders as a sequence.
- Timing and logging are not modelled: `System.currentTimeMillis`, `log.info` and the string formatting. None of them affects any result.
- Double arithmetic is not modelled: rounding, NaN, infinities, negative zero, and the compensated summation of `DoubleStream.sum`. Prices are exact reals.
- Hash-map iteration order is not modelled. The map results are Dafny maps, which have no order, and the lists inside them keep input order.
- Lombok-generated `equals`/`hashCode` is replaced by structural equality. `distinct()` compares products by id, and the maps keyed by `Order` or `Customer` compare whole values.
- Case folding is ASCII only. `equalsIgnoreCase` on non-ASCII letters is not modelled.
- `Product.getOrders()` is not a stored field. It is derived from the orders' product lists, so the two sides of the relation cannot disagree. A loaded order that refers to a product missing from the product list is allowed. It is simply not reached from the product side. The lemmas relating the two directions require that every ordered product is loaded.
- Collectors.SummaryStatistics: an empty input gives `None` instead of Java's count 0, sum 0, min +infinity and max -infinity, because the infinities have no real counterpart.
- Exercises.Exercise1b: its own contract only says the result is a subsequence of the input. What it keeps is stated by Exercises.Exercise1bIgnoresCategory.
- Exercises.Exercise8a and Exercises.Exercise13a carry no contract of their own. Their meaning is stated by the lemmas equating them with exercise8 and exercise13.

## Findings

| source | as written | input that shows it | evidently intended | confidence | as-written member | corrected member |
|---|---|---|---|---|---|---|
| src/test/java/space/gavinklfong/demo/streamapi/StreamApiTest.java:41 | category compared with "Book", while the title asks for "Books" | one product with category "Books" and price 120: the result is empty | keep "Books" products over 100, as exercise1a does | not executed | Findings.Exercise1MissesBooks | Findings.Exercise1Corrected |
| src/test/java/space/gavinklfong/demo/streamapi/StreamApiTest.java:77 | the BiPredicate is given the product's own category, so the category test always holds | one product with category "Toys" and price 150: it is returned | pass "Books" as the second argument | not executed | Findings.Exercise1bKeepsToys | Findings.Exercise1bCorrected |
| src/test/java/space/gavinklfong/demo/streamapi/StreamApiTest.java:232 | the upper bound is the last day of the order's own month, which every date satisfies | one order dated 2021-03-15 with a product priced 10: the "Feb 2021" total is 10 | bound by the last day of February 2021 | not executed | Findings.Exercise8CountsMarch | Findings.Exercise8Corrected |
