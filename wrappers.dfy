/** The optional value used where `findBestDate` returns a date or `null`. */
module Wrappers {

  datatype Option<+T> = None | Some(value: T)
}
