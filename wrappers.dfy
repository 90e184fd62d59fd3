/** The optional value used where the source has a nullable field, or where it
    would raise because such a field is absent. */
module Wrappers {

  datatype Option<+T> = None | Some(value: T)
}
