/** The optional value used wherever md_lint.py gets back `None` from a
    regular-expression match or a string search. */
module Wrappers {

  datatype Option<+T> = None | Some(value: T)
}
