/** The optional value used for lookups that may find nothing and for API
    listings that may fail. */
module Wrappers {

  datatype Option<+T> = None | Some(value: T)

}
