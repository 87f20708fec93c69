/** The vocabulary shared by the compiler and the executor: the eight source
    tokens, the six run-length-compressible instruction kinds, the fixed-width
    integer types of the C data model and the error codes. */
module Tokens {

  /** A `char` cell of the tape, viewed as its 8-bit pattern. */
  type Byte = x: int | 0 <= x < 256

  /** Bound of `unsigned long`, the type of the tape size and cursor,
      taken 64 bits wide as on LP64 targets. */
  const U64_LIMIT: int := 0x1_0000_0000_0000_0000

  type U64 = x: int | 0 <= x < U64_LIMIT

  /** Tape capacity used by the command-line driver. */
  const DEFAULT_BF_SLOTS: U64 := 4096

  /** Error codes stored in the state when the cursor leaves the tape. */
  const ERR_SLOTS_OVERFLOW: int := 4
  const ERR_SLOTS_UNDERFLOW: int := 5

  /** The byte a `char` cell receives from `(char)getchar()` at end of input:
      `(char)EOF`, that is `(char)-1`, whose bit pattern is 255. */
  const EOF_BYTE: Byte := 255

  const NEXT: char := '>'
  const PREVIOUS: char := '<'
  const PLUS: char := '+'
  const MINUS: char := '-'
  const OUTPUT: char := '.'
  const INPUT: char := ','
  const LOOP_START: char := '['
  const LOOP_END: char := ']'

  /** The recognised source alphabet, in declaration order. */
  const Alphabet: seq<char> := [NEXT, PREVIOUS, PLUS, MINUS, OUTPUT, INPUT, LOOP_START, LOOP_END]

  /** The instruction kinds that are compressed into runs (everything but the brackets). */
  datatype Kind = Next | Previous | Plus | Minus | Output | Input

  predicate IsToken(c: char) {
    IsOpToken(c) || c == LOOP_START || c == LOOP_END
  }

  predicate IsOpToken(c: char) {
    c == NEXT || c == PREVIOUS || c == PLUS || c == MINUS || c == OUTPUT || c == INPUT
  }

  function TokenOf(k: Kind): char {
    match k
    case Next => NEXT
    case Previous => PREVIOUS
    case Plus => PLUS
    case Minus => MINUS
    case Output => OUTPUT
    case Input => INPUT
  }

  function KindOf(c: char): (k: Kind)
    requires IsOpToken(c)
    ensures TokenOf(k) == c
  {
    if c == NEXT then Next
    else if c == PREVIOUS then Previous
    else if c == PLUS then Plus
    else if c == MINUS then Minus
    else if c == OUTPUT then Output
    else Input
  }

  /** The alphabet consists of eight distinct characters; six of them are
      instruction tokens, the remaining two are the brackets. */
  lemma AlphabetShape()
    ensures |Alphabet| == 8
    ensures forall i, j :: 0 <= i < j < |Alphabet| ==> Alphabet[i] != Alphabet[j]
    ensures forall c :: IsToken(c) <==> c in Alphabet
    ensures !IsOpToken(LOOP_START) && !IsOpToken(LOOP_END)
  {
  }

  /** Distinct kinds have distinct tokens, and every kind's token is an
      instruction token that maps back to the kind. */
  lemma TokenOfInjective(k: Kind, k': Kind)
    ensures IsOpToken(TokenOf(k)) && KindOf(TokenOf(k)) == k
    ensures TokenOf(k) == TokenOf(k') <==> k == k'
  {
  }
}
