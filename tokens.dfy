/** The token record shared by every stage of the accumulator-language front end,
    and the diagnostics the stages log. */
module Tokens {

  /** The token type. The source numbers these from 100; the codes are not observable here. */
  datatype TokenType = Variable | Literal | Eop | Invalid

  /** The token operation. The source numbers these from 200. */
  datatype Operation = Plus | Min | Mul | Div | Assign | End

  /** The union that holds a token's data: an integer for a literal, a letter for a
      variable, nothing for an end-of-program token (the source leaves it unset). */
  datatype Payload = NoData | Value(value: int) | Name(name: char)

  datatype Token = Token(kind: TokenType, operation: Operation, data: Payload)

  /** The combinations the header comment of the source allows: variables carry any
      arithmetic operation or an assignment and a name, literals an arithmetic operation
      and a value, and the end-of-program token the end operation. */
  predicate WellTyped(t: Token) {
    match t.kind
    case Variable => t.operation != End && t.data.Name?
    case Literal => t.operation !in {Assign, End} && t.data.Value?
    case Eop => t.operation == End
    case Invalid => false
  }

  /** The assignment to the result variable, written `$`, that the analyzer appends. */
  const ResultAssign: Token := Token(Variable, Assign, Name('$'))

  /** What a diagnostic reports; the source renders these as text into a global buffer. */
  datatype DiagnosticKind = UnrecognisedToken | MissingEop | UnreachableCode

  /** One diagnostic: the user-visible line number it names and what it reports. */
  datatype Diagnostic = Diagnostic(line: int, kind: DiagnosticKind)
}
