/** Bytes, failure classes, and results. */
module Bytes {

  type Byte = b: int | 0 <= b < 256

  type ByteString = seq<Byte>

  const QUOTE: Byte := 0x22
  const PLUS: Byte := 0x2B
  const COMMA: Byte := 0x2C
  const MINUS: Byte := 0x2D
  const POINT: Byte := 0x2E
  const SLASH: Byte := 0x2F
  const ZERO: Byte := 0x30
  const NINE: Byte := 0x39
  const COLON: Byte := 0x3A
  const UPPER_E: Byte := 0x45
  const LEFT_BRACKET: Byte := 0x5B
  const BACKSLASH: Byte := 0x5C
  const RIGHT_BRACKET: Byte := 0x5D
  const LOWER_E: Byte := 0x65
  const LEFT_BRACE: Byte := 0x7B
  const RIGHT_BRACE: Byte := 0x7D

  /** "null", "true" and "false". */
  const NULL_TEXT: ByteString := [0x6E, 0x75, 0x6C, 0x6C]
  const TRUE_TEXT: ByteString := [0x74, 0x72, 0x75, 0x65]
  const FALSE_TEXT: ByteString := [0x66, 0x61, 0x6C, 0x73, 0x65]

  predicate IsDigit(b: int) {
    ZERO <= b <= NINE
  }

  /** The failure classes the pipeline reports. */
  datatype FailureClass =
    | InvalidUtf8
    | InvalidGrammar
    | DuplicateKey
    | LoneSurrogate
    | Noncharacter
    | NumberOverflow
    | NumberNegZero
    | NumberUnderflow
    | BoundExceeded
    | NotCanonical
    | InternalError

  datatype Outcome = Pass | Fail(failure: FailureClass)

  lemma AppendAssociative(a: ByteString, b: ByteString, c: ByteString)
    ensures (a + b) + c == a + (b + c)
  {
  }

  datatype Result<+T> = Ok(value: T) | Err(failure: FailureClass)
}
