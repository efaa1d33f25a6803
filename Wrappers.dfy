/** The optional-value datatype shared by the lexer and the interpreter. */
module Wrappers {

  datatype Option<+T> = None | Some(value: T)
}
