/**
 * The failures of every pipeline stage, and the result type that carries them.
 * Minilang's `error` prints a message and exits; here a stage returns
 * `Failure` instead. Python exceptions on the same paths (an IndexError past
 * the end of the input or of the token list, a KeyError on the symbol table)
 * are failures too.
 */
module Errors {
  import opened Tokens

  datatype Option<T> = None | Some(value: T)

  datatype Error =
    // lexer
    | InvalidCharacter(c: char)
    | UnexpectedEndOfInput
    // parser
    | UnexpectedEndOfTokens
    | Expected(expected: TokKind, actual: TokKind)
    | NotADeclaration
    | IllegalStatement
    | IllegalToken(next: Option<TokKind>)
    // symbol table
    | DuplicateDeclaration(name: string)
    // type checker and code generators
    | UndeclaredVariable(name: string)
    | AssignMismatch(declared: Type, rhsType: Type)
    | OperandMismatch(lhs: Type, rhs: Type)
    | InvalidConditionType(condType: Type)

  datatype Result<T> = Success(value: T) | Failure(error: Error) {
    predicate IsFailure() {
      Failure?
    }

    function PropagateFailure<U>(): (r: Result<U>)
      requires Failure?
    {
      Failure(error)
    }

    function Extract(): (r: T)
      requires Success?
    {
      value
    }
  }
}
