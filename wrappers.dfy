/** The optional value used wherever the program answers "nothing found":
    Python's NaN sentinel of the extractors and the None of filter_datetime. */
module Wrappers {

  datatype Option<+T> = None | Some(value: T)
}
