/** Failure-carrying values used where a Java stream operation returns an
    `Optional` or throws. */
module Results {

  /** `Optional<T>` / `OptionalDouble`: a value that may be absent. */
  datatype Option<+T> = None | Some(value: T)

  /** The outcome of an operation that either produces a value or throws. */
  datatype Result<+T, +E> = Ok(value: T) | Err(error: E)

  /** `Optional.map`: applies `f` to a present value. */
  function MapOption<T, U>(o: Option<T>, f: T -> U): (r: Option<U>)
    ensures r.Some? <==> o.Some?
    ensures o.Some? ==> r.value == f(o.value)
  {
    match o
    case None => None
    case Some(v) => Some(f(v))
  }

  /** Mapping with the identity changes nothing. */
  lemma MapOptionIdentity<T>(o: Option<T>)
    ensures MapOption(o, (x: T) => x) == o
  {
  }

  /** Mapping twice is mapping once with the composed function. */
  lemma MapOptionCompose<T, U, V>(o: Option<T>, f: T -> U, g: U -> V)
    ensures MapOption(MapOption(o, f), g) == MapOption(o, (x: T) => g(f(x)))
  {
  }
}
