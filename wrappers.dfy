/** The nullable results of the source (a regular-expression `match` that
    returns `null`, a header section that `querySelector` does not find). */
module Wrappers {

  datatype Option<+T> = None | Some(value: T)
}
