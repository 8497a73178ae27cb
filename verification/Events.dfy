/** What a reader reports to its handler, and how a parse ends. */
module Events {
  import opened Bytes

  datatype Event =
    | NullEvent
    | BoolEvent(b: bool)
    | IntEvent(n: int)
    | UintEvent(n: int)
    | Int64Event(n: int)
    | Uint64Event(n: int)
    | DoubleEvent(literal: Text)
    | StringEvent(str: Text)
    | KeyEvent(str: Text)
    | StartObject
    | EndObject(count: nat)
    | StartArray
    | EndArray(count: nat)

  datatype ErrorCode =
    | DocumentEmpty
    | DocumentRootNotSingular
    | ValueInvalid
    | ObjectMissName
    | ObjectMissColon
    | ObjectMissCommaOrCurlyBracket
    | ArrayMissCommaOrSquareBracket
    | StringUnicodeEscapeInvalidHex
    | StringUnicodeSurrogateInvalid
    | StringEscapeInvalid
    | StringMissQuotationMark
    | StringInvalidEncoding
    | NumberTooBig
    | NumberMissFraction
    | NumberMissExponent
    | UnspecificSyntaxError

  /**
   * Parse flags. tooBig stands for the conversion of a literal to double, which decides whether the
   * literal exceeds the largest double.
   */
  datatype Flags = Flags(trailingCommas: bool, comments: bool, stopWhenDone: bool, tooBig: Text -> bool)

  /** A parse step ends at a position or with an error at an offset; either way the handler has seen evs. */
  datatype Outcome = Ok(pos: nat, evs: seq<Event>) | Fail(code: ErrorCode, off: nat, evs: seq<Event>)
  {
    predicate IsFailure() {
      Fail?
    }

    function PropagateFailure(): Outcome
      requires Fail?
    {
      this
    }

    function Extract(): (nat, seq<Event>)
      requires Ok?
    {
      (pos, evs)
    }
  }

  /** Member and element counts are 32-bit. */
  function Inc(count: nat): nat {
    (count + 1) % TWO_32
  }
}
