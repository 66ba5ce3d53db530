/** Option stands for the nullable references and nullable values of the
    C# code (`string?`, `int?`, `Auth?`). */
module Wrappers {

  datatype Option<+T> = None | Some(value: T) {

    /** C#'s `??` operator. */
    function GetOr(default: T): T {
      match this
      case Some(v) => v
      case None => default
    }
  }
}
