/** The optional value used wherever the analyzer tests a JavaScript value for
    truthiness (`if (match)`, `if (fileInfo)`). */
module Wrappers {

  datatype Option<+T> = None | Some(value: T)
}
