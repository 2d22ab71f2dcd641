/** Optional values: a JavaScript field or argument that may be `undefined`. */
module Wrappers {

  datatype Option<+T> = None | Some(value: T)

  /** JavaScript truthiness of a string field: present and non-empty. */
  predicate Provided(field: Option<string>) {
    field.Some? && field.value != ""
  }

}
