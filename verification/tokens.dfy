/** Tokens produced by the lexer and consumed by the parser (Scanner.hpp). */
module Tokens {

  /** Keyword kinds. The source's `KeywordType::Null` is never produced and is omitted. */
  datatype KeywordType = Func | Else | If | Return | While | For | Byte | Int | Float | Pack | Void

  /** A floating point value, kept symbolic: the numeric conversion of a lexeme
      (`strtod`) and IEEE arithmetic are not modelled, only how a value was built. */
  datatype FloatVal =
    | Parsed(lexeme: string)         // strtod of the lexeme
    | Promoted(n: int)               // an integer converted to double
    | Sum(a: FloatVal, b: FloatVal)
    | Difference(a: FloatVal, b: FloatVal)
    | Product(a: FloatVal, b: FloatVal)
    | Quotient(a: FloatVal, b: FloatVal)

  datatype Token =
    | Null                 // invalid token (lexical error)
    | Acc                  // expression-internal: value held in a register
    | Ret                  // expression-internal: return value of a call
    | Eof
    | LeftCurly | RightCurly
    | LeftBracket | RightBracket
    | Dot | Colon | Comma | SemiColon
    | Assign | Less | More | LessEqu | MoreEqu | Equ | NonEqu
    | Plus | Minus | Mul | Div
    | Id(name: string)
    | IntLit(value: int)
    | FloatLit(fvalue: FloatVal)
    | Str(text: string)
    | Keyword(kw: KeywordType)
  {
    /** Tokens the infix pass pushes straight to the output queue. */
    predicate IsData() { Id? || IntLit? || FloatLit? || Str? }

    /** Tokens the evaluation pass pushes on the data stack. */
    predicate IsOperand() { IsData() || Acc? || Ret? }

    predicate IsOperator() {
      Plus? || Minus? || Mul? || Div? || IsComparison()
    }

    predicate IsComparison() {
      Less? || LessEqu? || More? || MoreEqu? || Equ? || NonEqu?
    }

    /** A keyword naming a value type: byte, int or float. */
    predicate IsValueTypeKeyword() {
      Keyword? && (kw.Byte? || kw.Int? || kw.Float?)
    }
  }
}
