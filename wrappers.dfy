/** Optional values: a Python `None` or an SQL `NULL` is `None`. */
module Wrappers {

  datatype Option<+T> = None | Some(value: T)

  /** Python truthiness of an optional string: absent and empty are both false. */
  predicate Given(o: Option<string>)
  {
    o.Some? && o.value != ""
  }
}
