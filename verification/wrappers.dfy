/** The optional value used wherever the C# code has a nullable reference or a "not found". */
module Wrappers {

  datatype Option<+T> = None | Some(value: T)

}
