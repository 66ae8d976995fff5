/** The optional value used wherever the pipeline accepts "a value or nothing":
    the page-number allowlist and the result of language detection. */
module Wrappers {

  datatype Option<+T> = None | Some(value: T)
}
