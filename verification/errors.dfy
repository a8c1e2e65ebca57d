/** The error value every parsing and evaluation step returns (Error.hpp).
    Construction of an error is pure data here: kind and message, no printing. */
module Errors {

  datatype ErrorType = Ok | Lexical | Syntax

  datatype Error = Error(ty: ErrorType, msg: string) {
    /** `ParserProcessState` propagates every error whose type is not Ok. */
    predicate Failed() { !ty.Ok? }
  }

  /** `Error(Error::Type::Ok)` */
  const Success: Error := Error(Ok, "")

  function SyntaxError(msg: string): (e: Error)
    ensures e.Failed()
  {
    Error(Syntax, msg)
  }

  datatype Option<+T> = None | Some(value: T)

  /** A value, or the error that prevented computing it. */
  datatype Result<+T> = Done(value: T) | Fail(error: Error)
}
