/** The optional value used for attributes that Python represents with `None`. */
module Wrappers {

  datatype Option<+T> = None | Some(value: T)

  /** Python truthiness of an optional string: absent and `''` are both false. */
  predicate Truthy(o: Option<string>) {
    o.Some? && o.value != []
  }
}
