/** Nullable columns. */
module Options {

  datatype Option<+T> = None | Some(value: T)

  /** Order of a nullable timestamp, NULLS FIRST. */
  predicate NoLater(a: Option<int>, b: Option<int>) {
    a == None || (b.Some? && a.value <= b.value)
  }
}
