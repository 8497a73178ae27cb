/** The reader object: a cursor over the text, a handler that records events, and the stack of the automaton. */
module Reader {
  import opened Bytes
  import opened Encodings
  import opened Events
  import opened Options
  import S = Scanning
  import R = Reading
  import opened ReaderEquivalence
  import opened ReaderMirror
  import opened ReaderCalls

  /** The first error; again says that a second one has tripped the assertion that there is at most one. */
  datatype ParseError = NoError | ParseError(code: ErrorCode, off: nat, again: bool)

  function Raised(before: ParseError, code: ErrorCode, off: nat): ParseError {
    if before.NoError? then ParseError(code, off, false) else before.(again := true)
  }

  lemma NoComment(s: Text, p: nat, evs: seq<Event>)
    requires p <= |s| && Peek(s, p) != SLASH
    ensures S.SkipComments(s, p, evs) == Ok(p, evs)
  {
  }

  class GenericReader {
    const text: Text
    const flags: Flags
    var pos: nat
    var evs: seq<Event>
    var error: ParseError
    var stack: seq<R.Frame>
    var state: R.State

    constructor (text: Text, flags: Flags)
      ensures this.text == text && this.flags == flags
      ensures pos == 0 && evs == [] && error.NoError? && stack == [] && state == R.StartState
    {
      this.text, this.flags := text, flags;
      pos, evs, error, stack, state := 0, [], NoError, [], R.StartState;
    }

    /** Ready to parse: no error yet and the cursor within the text. */
    ghost predicate Ready()
      reads this
    {
      error.NoError? && pos <= |text|
    }

    /** What has been parsed ends as r, whether or not an error had been raised before. */
    predicate Reports(before: ParseError, r: Outcome)
      reads this
    {
      evs == r.evs
      && match r
         case Ok(q, _) => pos == q && error == before
         case Fail(code, off, _) => error == Raised(before, code, off)
    }

    /** A second error has tripped the assertion. */
    predicate Stopped()
      reads this
    {
      error.ParseError? && error.again
    }

    method SetError(code: ErrorCode, off: nat)
      modifies this`error
      ensures error == Raised(old(error), code, off)
    {
      error := if error.NoError? then ParseError(code, off, false) else error.(again := true);
    }

    method Emit(e: Event)
      modifies this`evs
      ensures evs == old(evs) + [e]
    {
      evs := evs + [e];
    }

    /** Takes the expected unit if it is next. */
    method Consume(c: byte) returns (taken: bool)
      requires pos <= |text| && c != NUL
      modifies this`pos
      ensures taken == (Peek(text, old(pos)) == c)
      ensures pos == (if taken then old(pos) + 1 else old(pos)) && pos <= |text|
    {
      taken := Peek(text, pos) == c;
      if taken {
        pos := pos + 1;
      }
    }

    // ---------------------------------------------- blanks and comments

    method SkipWhitespace()
      requires pos <= |text|
      modifies this`pos
      ensures pos == S.SkipWhitespace(text, old(pos))
    {
      while IsWhitespace(Peek(text, pos))
        invariant pos <= |text|
        invariant S.SkipWhitespace(text, pos) == S.SkipWhitespace(text, old(pos))
        decreases |text| - pos
      {
        pos := pos + 1;
      }
    }

    method SkipWhitespaceAndComments()
      requires pos <= |text|
      modifies this`pos, this`error
      ensures var r := S.SkipWhitespaceAndComments(flags, text, old(pos), evs);
              Reports(old(error), r) && (r.Fail? ==> pos == r.off)
    {
      hide S.SkipWhitespace, S.SkipComments;
      SkipWhitespace();
      if !flags.comments {
        return;
      }
      ghost var r := S.SkipComments(text, pos, evs);
      while Peek(text, pos) == SLASH
        invariant pos <= |text| && error == old(error) && r == S.SkipComments(text, pos, evs)
        decreases |text| - pos
      {
        var ok := SkipComment();
        if !ok {
          return;
        }
      }
      NoComment(text, pos, evs);
    }

    /** One comment, from its slash on, and the blanks after it. */
    method SkipComment() returns (ok: bool)
      requires pos <= |text| && Peek(text, pos) == SLASH
      modifies this`pos, this`error
      ensures var r := S.SkipComments(text, old(pos), evs);
              if ok then old(pos) < pos <= |text| && error == old(error) && r == S.SkipComments(text, pos, evs)
              else r.Fail? && Reports(old(error), r) && pos == r.off
    {
      hide S.SkipWhitespace, S.SkipBlockComment, S.SkipLineComment;
      pos := pos + 1;
      var block := Consume(STAR);
      if block {
        ok := SkipBlockComment();
        if !ok {
          return;
        }
      } else {
        var line := Consume(SLASH);
        if !line {
          SetError(UnspecificSyntaxError, pos);
          return false;
        }
        SkipLineComment();
      }
      SkipWhitespace();
      ok := true;
    }

    method SkipBlockComment() returns (ok: bool)
      requires pos <= |text|
      modifies this`pos, this`error
      ensures var r := S.SkipBlockComment(text, old(pos), evs);
              Reports(old(error), r) && ok == r.Ok? && (r.Fail? ==> pos == r.off)
    {
      while true
        invariant pos <= |text| && error == old(error)
        invariant S.SkipBlockComment(text, pos, evs) == S.SkipBlockComment(text, old(pos), evs)
        decreases |text| - pos
      {
        if Peek(text, pos) == NUL {
          SetError(UnspecificSyntaxError, pos);
          return false;
        }
        var star := Consume(STAR);
        if star {
          var slash := Consume(SLASH);
          if slash {
            return true;
          }
        } else {
          pos := pos + 1;
        }
      }
    }

    method SkipLineComment()
      requires pos <= |text|
      modifies this`pos
      ensures pos == S.SkipLineComment(text, old(pos))
    {
      var done := false;
      while !done && Peek(text, pos) != NUL
        invariant pos <= |text|
        invariant (if done then pos else S.SkipLineComment(text, pos)) == S.SkipLineComment(text, old(pos))
        decreases |text| - pos, !done
      {
        done := text[pos] == NEWLINE;
        pos := pos + 1;
      }
    }

    // ---------------------------------------------------------- literals

    method ParseLiteral(rest: Text, ev: Event)
      requires pos < |text| && NUL !in rest
      modifies this`pos, this`evs, this`error
      ensures Reports(old(error), S.ParseLiteral(text, old(pos), rest, ev, old(evs)))
    {
      pos := pos + 1;
      var i := 0;
      while i < |rest|
        invariant 0 <= i <= |rest| && pos <= |text| && error == old(error) && evs == old(evs)
        invariant S.MatchLiteral(text, pos, rest[i..], evs) == S.MatchLiteral(text, old(pos) + 1, rest, evs)
      {
        var c := rest[i];
        assert rest[i..][1..] == rest[i + 1..];
        var matched := Consume(c);
        if !matched {
          SetError(ValueInvalid, pos);
          return;
        }
        i := i + 1;
      }
      Emit(ev);
    }

    // ----------------------------------------------------------- strings

    method ParseHex4(escapeOffset: nat) returns (code: nat)
      requires pos <= |text|
      modifies this`pos, this`error
      ensures S.Hex4(text, old(pos)) < 0 ==> error == Raised(old(error), StringUnicodeEscapeInvalidHex, escapeOffset)
      ensures S.Hex4(text, old(pos)) >= 0 ==>
                error == old(error) && pos == old(pos) + 4 <= |text| && code == S.Hex4(text, old(pos))
    {
      code := 0;
      var i := 0;
      ghost var p := pos;
      while i < 4
        invariant 0 <= i <= 4 && pos == p + i <= |text| && error == old(error)
        invariant i >= 1 ==> HexValue(Peek(text, p)) >= 0
        invariant i >= 2 ==> HexValue(Peek(text, p + 1)) >= 0
        invariant i >= 3 ==> HexValue(Peek(text, p + 2)) >= 0
        invariant i == 0 ==> code == 0
        invariant i == 1 ==> code == HexValue(Peek(text, p))
        invariant i == 2 ==> code == HexValue(Peek(text, p)) * 16 + HexValue(Peek(text, p + 1))
        invariant i == 3 ==> code == (HexValue(Peek(text, p)) * 16 + HexValue(Peek(text, p + 1))) * 16
                                     + HexValue(Peek(text, p + 2))
        invariant i == 4 ==> code == S.Hex4(text, p)
      {
        var h := HexValue(Peek(text, pos));
        if h < 0 {
          SetError(StringUnicodeEscapeInvalidHex, escapeOffset);
          return;
        }
        code := code * 16 + h;
        pos := pos + 1;
        i := i + 1;
      }
    }

    /**
     * The digits of a \u escape, and those of its second half if it is a lead surrogate. With an error raised before,
     * it is left after the first four digits.
     */
    method ParseUnicode(escapeOffset: nat) returns (code: nat)
      requires pos == escapeOffset + 2 <= |text|
      modifies this`pos, this`error
      ensures old(error).NoError? ==>
                var r := S.ScanUnicode(text, escapeOffset);
                if r.CodePoint? then error.NoError? && pos == r.pos && code == r.code
                else error == ParseError(r.error, escapeOffset, false)
      ensures !old(error).NoError? ==>
                if S.Hex4(text, old(pos)) >= 0 then error == old(error) && pos == old(pos) + 4 <= |text|
                else error == old(error).(again := true)
    {
      code := ParseHex4(escapeOffset);
      if !error.NoError? || code < 0xD800 || code > 0xDBFF {
        return;
      }
      var backslash := Consume(BACKSLASH);
      var u := false;
      if backslash {
        u := Consume(LOWER_U);
      }
      if !u {
        SetError(StringUnicodeSurrogateInvalid, escapeOffset);
        return;
      }
      var code2 := ParseHex4(escapeOffset);
      if !error.NoError? {
        return;
      }
      if code2 < 0xDC00 || code2 > 0xDFFF {
        SetError(StringUnicodeSurrogateInvalid, escapeOffset);
        return;
      }
      code := S.FromPair(code, code2);
    }

    /** Decodes the string body up to the closing quote; with an error raised before, maybe not so far. */
    method ParseStringToStream() returns (str: Text)
      requires pos <= |text|
      modifies this`pos, this`error
      ensures old(error).NoError? ==>
                var r := S.ScanString(text, old(pos), []);
                if r.Scanned? then error.NoError? && pos == r.pos && str == r.str
                else error == ParseError(r.code, r.off, false)
      ensures !old(error).NoError? ==> StringStops(old(error), FlaggedString(text, old(pos)))
    {
      hide S.ScanUnicode, S.Hex4, Encode;
      str := [];
      while true
        invariant pos <= |text| && error == old(error)
        invariant S.ScanString(text, pos, str) == S.ScanString(text, old(pos), [])
        invariant !error.NoError? ==> FlaggedString(text, pos) == FlaggedString(text, old(pos))
        decreases |text| - pos
      {
        var c := Peek(text, pos);
        if c == BACKSLASH {
          var escapeOffset := pos;
          pos := pos + 1;
          var e := Peek(text, pos);
          if S.Escape(e) != 0 {
            pos := pos + 1;
            str := str + [S.Escape(e)];
          } else if e == LOWER_U {
            pos := pos + 1;
            var code := ParseUnicode(escapeOffset);
            if !error.NoError? {
              return;
            }
            str := str + Encode(code);
          } else {
            SetError(StringEscapeInvalid, escapeOffset);
            return;
          }
        } else if c == QUOTE {
          pos := pos + 1;
          return;
        } else if c < 0x20 {
          SetError(if c == NUL then StringMissQuotationMark else StringInvalidEncoding, pos);
          return;
        } else {
          pos := pos + 1;
          str := str + [c];
        }
      }
    }

    /** A string that was met with an error raised before ends at a position, or with a second error. */
    predicate StringStops(before: ParseError, stop: Option<nat>)
      reads this
    {
      match stop
      case Some(q) => pos == q && error == before
      case None => !before.NoError? && error == before.(again := true)
    }

    method ParseString(isKey: bool)
      requires pos < |text|
      modifies this`pos, this`evs, this`error
      ensures old(error).NoError? ==> Reports(NoError, S.ParseString(text, old(pos), isKey, old(evs)))
      ensures !old(error).NoError? ==> evs == old(evs) && StringStops(old(error), FlaggedString(text, old(pos) + 1))
    {
      pos := pos + 1;
      var str := ParseStringToStream();
      if error.NoError? {
        Emit(if isKey then KeyEvent(str) else StringEvent(str));
      }
    }

    // ----------------------------------------------------------- numbers

    /** The digit loop of one accumulator width. */
    method ScanDigits(w: S.Width, value0: nat, significant0: nat) returns (value: nat, significant: nat, stopped: bool)
      requires pos <= |text| && w.last < 10 && value0 <= w.Max()
      modifies this`pos
      ensures S.Digits(pos, value, significant, stopped) == S.ScanDigits(w, text, old(pos), value0, significant0)
    {
      value, significant, stopped := value0, significant0, false;
      while !stopped && IsDigit(Peek(text, pos))
        invariant pos <= |text| && value <= w.Max()
        invariant (if stopped then S.Digits(pos, value, significant, true)
                   else S.ScanDigits(w, text, pos, value, significant))
               == S.ScanDigits(w, text, old(pos), value0, significant0)
        decreases |text| - pos, !stopped
      {
        var d := text[pos] - ZERO;
        if value >= w.limit && (value != w.limit || d > w.last) {
          stopped := true;
        } else {
          value := value * 10 + d;
          significant := significant + 1;
          pos := pos + 1;
        }
      }
    }

    method SkipDigits()
      requires pos <= |text|
      modifies this`pos
      ensures pos == S.SkipDigits(text, old(pos))
    {
      while IsDigit(Peek(text, pos))
        invariant pos <= |text|
        invariant S.SkipDigits(text, pos) == S.SkipDigits(text, old(pos))
        decreases |text| - pos
      {
        pos := pos + 1;
      }
    }

    method ScanInt(minus: bool) returns (r: S.IntPart)
      requires pos <= |text|
      modifies this`pos
      ensures r == S.ScanInt(text, old(pos), minus)
      ensures pos == if r.IntPart? then r.pos else old(pos)
    {
      var c := Peek(text, pos);
      if c == ZERO {
        pos := pos + 1;
        return S.IntPart(pos, 0, 0, S.Narrow);
      }
      if !IsDigit(c) {
        return S.NoInt(pos);
      }
      pos := pos + 1;
      var value, significant, stopped := ScanDigits(S.Width32(minus), c - ZERO, 0);
      if !stopped {
        return S.IntPart(pos, value, significant, S.Narrow);
      }
      value, significant, stopped := ScanDigits(S.Width64(minus), value, significant);
      if !stopped {
        return S.IntPart(pos, value, significant, S.Wide);
      }
      SkipDigits();
      return S.IntPart(pos, value, significant, S.Floating);
    }

    /** Fraction digits after the period at pos; answers the decimal exponent they contribute. */
    method ScanFraction(i: S.IntPart) returns (expFrac: int)
      requires i.IntPart? && pos == i.pos < |text|
      modifies this`pos
      ensures pos == S.ScanFraction(text, i).pos && expFrac == S.ScanFraction(text, i).expFrac
    {
      var f := S.Fraction(i.pos + 1, i.value, 0, i.significant);
      if !i.repr.Floating? {
        ghost var all := S.ScanFractionExact(text, f);
        while IsDigit(Peek(text, f.pos)) && f.value <= S.MAX_EXACT
          invariant f.pos <= |text| && S.ScanFractionExact(text, f) == all
          decreases |text| - f.pos
        {
          var v := f.value * 10 + (text[f.pos] - ZERO);
          f := S.Fraction(f.pos + 1, v, f.expFrac - 1, f.significant + (if v != 0 then 1 else 0));
        }
      }
      var nonzero := f.value != 0;
      ghost var all := S.ScanFractionDouble(text, f, nonzero);
      while IsDigit(Peek(text, f.pos))
        invariant f.pos <= |text| && S.ScanFractionDouble(text, f, nonzero) == all
        decreases |text| - f.pos
      {
        if f.significant < 17 {
          nonzero := nonzero || text[f.pos] != ZERO;
          f := f.(pos := f.pos + 1, expFrac := f.expFrac - 1,
                  significant := f.significant + (if nonzero then 1 else 0));
        } else {
          f := f.(pos := f.pos + 1);
        }
      }
      pos, expFrac := f.pos, f.expFrac;
    }

    /** The exponent whose mark stands at pos. */
    method ScanExponent(expFrac: int, start: nat) returns (r: S.Exponent)
      requires pos < |text|
      modifies this`pos
      ensures r == S.ScanExponent(text, old(pos), expFrac, start) && (r.Exponent? ==> pos == r.pos)
    {
      pos := pos + 1;
      var expMinus := false;
      var plus := Consume(PLUS);
      if !plus {
        expMinus := Consume(MINUS);
      }
      if !IsDigit(Peek(text, pos)) {
        return S.BadExponent(NumberMissExponent, pos);
      }
      var exp: nat := text[pos] - ZERO;
      pos := pos + 1;
      if expMinus {
        var digits := NegativeExponentDigits(exp, S.MaxNegativeExponent(expFrac));
        r := S.Exponent(pos, -digits);
      } else {
        r := PositiveExponentDigits(exp, S.MaxPositiveExponent(expFrac), start);
      }
    }

    method NegativeExponentDigits(exp0: nat, maxExp: int) returns (exp: int)
      requires pos <= |text|
      modifies this`pos
      ensures S.Exponent(pos, exp) == S.ScanNegativeExponent(text, old(pos), exp0, maxExp)
    {
      exp := exp0;
      while IsDigit(Peek(text, pos))
        invariant pos <= |text| && exp >= 0
        invariant (if exp > maxExp && !IsDigit(Peek(text, pos)) then S.Exponent(pos, exp)
                   else S.ScanNegativeExponent(text, pos, exp, maxExp))
               == S.ScanNegativeExponent(text, old(pos), exp0, maxExp)
        decreases |text| - pos
      {
        exp := exp * 10 + (text[pos] - ZERO);
        pos := pos + 1;
        if exp > maxExp {
          SkipDigits();
        }
      }
    }

    method PositiveExponentDigits(exp0: nat, maxExp: int, start: nat) returns (r: S.Exponent)
      requires pos <= |text|
      modifies this`pos
      ensures r == S.ScanPositiveExponent(text, old(pos), exp0, maxExp, start) && (r.Exponent? ==> pos == r.pos)
    {
      var exp := exp0;
      while IsDigit(Peek(text, pos))
        invariant pos <= |text| && exp >= 0
        invariant S.ScanPositiveExponent(text, pos, exp, maxExp, start)
               == S.ScanPositiveExponent(text, old(pos), exp0, maxExp, start)
        decreases |text| - pos
      {
        exp := exp * 10 + (text[pos] - ZERO);
        pos := pos + 1;
        if exp > maxExp {
          return S.BadExponent(NumberTooBig, start);
        }
      }
      r := S.Exponent(pos, exp);
    }

    method ParseNumber()
      requires pos <= |text|
      modifies this`pos, this`evs, this`error
      ensures Reports(old(error), S.ParseNumber(flags, text, old(pos), old(evs)))
    {
      hide S.ScanInt, S.ScanFraction, S.ScanExponent;
      var start := pos;
      var minus := Consume(MINUS);
      var i := ScanInt(minus);
      if i.NoInt? {
        SetError(ValueInvalid, i.off);
        return;
      }
      var useDouble := i.repr.Floating?;
      var expFrac := 0;
      if Peek(text, pos) == PERIOD {
        if !IsDigit(Peek(text, pos + 1)) {
          SetError(NumberMissFraction, pos + 1);
          return;
        }
        expFrac := ScanFraction(i);
        useDouble := true;
      }
      if S.IsExponentMark(Peek(text, pos)) {
        useDouble := true;
        var e := ScanExponent(expFrac, start);
        if e.BadExponent? {
          SetError(e.code, e.off);
          return;
        }
      }
      if !useDouble {
        Emit(S.IntegerEvent(minus, i.repr, i.value));
      } else if flags.tooBig(text[start..pos]) {
        SetError(NumberTooBig, start);
      } else {
        Emit(DoubleEvent(text[start..pos]));
      }
    }

    // ------------------------------------------------- recursive descent

    /** Containers are only met without an error. */
    method ParseValue()
      requires pos <= |text| && (error.NoError? || (Peek(text, pos) != LBRACE && Peek(text, pos) != LBRACKET))
      modifies this`pos, this`evs, this`error
      ensures old(error).NoError? ==> Reports(NoError, R.ParseValue(flags, text, old(pos), old(evs)))
      ensures !old(error).NoError? ==> FlaggedReports(old(error), FlaggedScalar(flags, text, old(pos), old(evs)))
      decreases |text| - pos, 1
    {
      var c := Peek(text, pos);
      if c == LOWER_N {
        ParseLiteral(S.ULL, NullEvent);
      } else if c == LOWER_T {
        ParseLiteral(S.RUE, BoolEvent(true));
      } else if c == LOWER_F {
        ParseLiteral(S.ALSE, BoolEvent(false));
      } else if c == QUOTE {
        ParseString(false);
      } else if c == LBRACE {
        ParseObject();
      } else if c == LBRACKET {
        ParseArray();
      } else {
        ParseNumber();
      }
    }

    /** A scalar or a transition that was met with an error raised before leaves the reader as a step says. */
    predicate FlaggedReports(before: ParseError, step: CallStep)
      reads this
    {
      match step
      case Stops(q, e) => pos == q && evs == e && error == before
      case Moves(_, q, _, e) => pos == q && evs == e && error == before
      case Trips => !before.NoError? && error == before.(again := true)
    }

    method ParseObject()
      requires Ready() && pos < |text| && text[pos] == LBRACE
      modifies this`pos, this`evs, this`error
      ensures Reports(NoError, R.ParseObject(flags, text, old(pos), old(evs)))
      decreases |text| - pos, 0
    {
      hide S.SkipWhitespaceAndComments, S.ParseString, R.ParseValue, R.ParseMemberValue, R.ParseMemberEnd;
      ghost var all := R.ParseObject(flags, text, pos, evs);
      pos := pos + 1;
      Emit(StartObject);
      SkipWhitespaceAndComments();
      if !error.NoError? {
        return;
      }
      var empty := Consume(RBRACE);
      if empty {
        Emit(EndObject(0));
        return;
      }
      var memberCount := 0;
      while true
        invariant Ready() && pos > old(pos)
        invariant R.ParseMembers(flags, text, pos, evs, memberCount) == all
        decreases |text| - pos
      {
        if Peek(text, pos) != QUOTE {
          SetError(ObjectMissName, pos);
          return;
        }
        ParseString(true);
        if !error.NoError? {
          return;
        }
        ParseMemberValue();
        if !error.NoError? {
          return;
        }
        memberCount := Inc(memberCount);
        var more := MemberEnd(memberCount);
        if !more {
          return;
        }
      }
    }

    /** After a member: a comma and the blanks behind it, or the end of the object. */
    method MemberEnd(memberCount: nat) returns (more: bool)
      requires Ready()
      modifies this`pos, this`evs, this`error
      ensures var all := R.ParseMemberEnd(flags, text, old(pos), old(evs), memberCount);
              if more then Ready() && pos > old(pos) && R.ParseMembers(flags, text, pos, evs, memberCount) == all
              else Reports(NoError, all)
      decreases |text| - pos, 1
    {
      hide S.SkipWhitespaceAndComments, R.ParseMembers;
      SkipWhitespaceAndComments();
      if !error.NoError? {
        return false;
      }
      var c := Peek(text, pos);
      if c == COMMA {
        pos := pos + 1;
        SkipWhitespaceAndComments();
        if !error.NoError? {
          return false;
        }
      } else if c == RBRACE {
        pos := pos + 1;
        Emit(EndObject(memberCount));
        return false;
      } else {
        SetError(ObjectMissCommaOrCurlyBracket, pos);
        return false;
      }
      if flags.trailingCommas && Peek(text, pos) == RBRACE {
        Emit(EndObject(memberCount));
        pos := pos + 1;
        return false;
      }
      return true;
    }

    /** The colon and the value of a member. */
    method ParseMemberValue()
      requires Ready()
      modifies this`pos, this`evs, this`error
      ensures Reports(NoError, R.ParseMemberValue(flags, text, old(pos), old(evs)))
      decreases |text| - pos, 2
    {
      hide S.SkipWhitespaceAndComments, R.ParseValue;
      SkipWhitespaceAndComments();
      if !error.NoError? {
        return;
      }
      var colon := Consume(COLON);
      if !colon {
        SetError(ObjectMissColon, pos);
        return;
      }
      SkipWhitespaceAndComments();
      if error.NoError? {
        ParseValue();
      }
    }

    method ParseArray()
      requires Ready() && pos < |text| && text[pos] == LBRACKET
      modifies this`pos, this`evs, this`error
      ensures Reports(NoError, R.ParseArray(flags, text, old(pos), old(evs)))
      decreases |text| - pos, 0
    {
      hide S.SkipWhitespaceAndComments, R.ParseValue;
      ghost var all := R.ParseArray(flags, text, pos, evs);
      pos := pos + 1;
      Emit(StartArray);
      SkipWhitespaceAndComments();
      if !error.NoError? {
        return;
      }
      var empty := Consume(RBRACKET);
      if empty {
        Emit(EndArray(0));
        return;
      }
      var elementCount := 0;
      while true
        invariant Ready() && pos > old(pos)
        invariant R.ParseElements(flags, text, pos, evs, elementCount) == all
        decreases |text| - pos
      {
        ParseValue();
        if !error.NoError? {
          return;
        }
        elementCount := Inc(elementCount);
        assert R.ParseElementEnd(flags, text, pos, evs, elementCount) == all;
        SkipWhitespaceAndComments();
        if !error.NoError? {
          return;
        }
        var comma := Consume(COMMA);
        if comma {
          assert R.ParseNextElement(flags, text, pos, evs, elementCount) == all;
          SkipWhitespaceAndComments();
          if !error.NoError? {
            return;
          }
        } else {
          var close := Consume(RBRACKET);
          if close {
            Emit(EndArray(elementCount));
          } else {
            SetError(ArrayMissCommaOrSquareBracket, pos);
          }
          return;
        }
        if flags.trailingCommas && Peek(text, pos) == RBRACKET {
          Emit(EndArray(elementCount));
          pos := pos + 1;
          return;
        }
      }
    }

    method Parse()
      requires pos == 0 && evs == [] && error.NoError?
      modifies this`pos, this`evs, this`error
      ensures Reports(NoError, R.Parse(flags, text))
    {
      SkipWhitespaceAndComments();
      if !error.NoError? {
        return;
      }
      if Peek(text, pos) == NUL {
        SetError(DocumentEmpty, pos);
        return;
      }
      ParseValue();
      if !error.NoError? || flags.stopWhenDone {
        return;
      }
      SkipWhitespaceAndComments();
      if error.NoError? && Peek(text, pos) != NUL {
        SetError(DocumentRootNotSingular, pos);
      }
    }

    // --------------------------------------------------------- automaton

    /** The step the last transition amounts to, with the error filled in as HandleError does. */
    function LastStep(src: R.State, dst: R.State): R.Step
      reads this
    {
      match error
      case ParseError(code, off, _) => R.Halt(code, off, evs)
      case NoError => if dst.ErrorState? then R.Halt(R.StateError(src), pos, evs) else R.Go(dst, pos, stack, evs)
    }

    /** The same with an error raised before the transition. */
    predicate FlaggedLastStep(dst: R.State, before: ParseError, step: CallStep)
      reads this
    {
      FlaggedReports(before, step)
      && if step.Moves? then dst == step.state && stack == step.stack else dst.ErrorState?
    }

    method Transit(src: R.State, token: R.Token, dst: R.State) returns (d: R.State)
      requires pos <= |text| && R.Consistent(src, stack)
      requires token == R.Tokenize(Peek(text, pos)) && dst == R.Predict(src, token)
      modifies this`pos, this`evs, this`error, this`stack
      ensures old(error).NoError? ==>
                && LastStep(src, d) == R.Transit(flags, text, src, dst, old(pos), old(stack), old(evs))
                && (!error.NoError? ==> d.ErrorState? && !error.again)
      ensures !old(error).NoError? ==>
                FlaggedLastStep(d, old(error), FlaggedTransit(flags, text, src, dst, old(pos), old(stack), old(evs)))
      ensures src.FinishState? ==> d.ErrorState?
      ensures d.FinishState? ==> stack == []
    {
      hide S.ParseString, R.ParseValue, R.Close, FlaggedString;
      d := dst;
      if dst.ErrorState? {
        return;
      }
      if dst.ObjectInitialState? || dst.ArrayInitialState? {
        Open(src, dst);
      } else if dst.MemberKeyState? {
        ParseString(true);
        d := if error.NoError? then dst else R.ErrorState;
      } else if dst.KeyValueDelimiterState? {
        pos := pos + 1;
      } else if dst.MemberValueState? || dst.ElementState? {
        ParseValue();
        d := if error.NoError? then dst else R.ErrorState;
      } else if dst.MemberDelimiterState? || dst.ElementDelimiterState? {
        pos := pos + 1;
        var n := |stack| - 1;
        stack := stack[..n] + [R.Frame(stack[n].state, Inc(stack[n].count))];
      } else if dst.ObjectFinishState? || dst.ArrayFinishState? {
        d := Close(src, dst);
      } else {
        ParseValue();
        d := if error.NoError? then R.FinishState else R.ErrorState;
      }
    }

    /** Opens a container: saves where to go on after it, and starts its count at 0. */
    method Open(src: R.State, dst: R.State)
      requires dst.ObjectInitialState? || dst.ArrayInitialState?
      requires R.ExpectsValue(src)
      modifies this`pos, this`evs, this`stack
      ensures pos == old(pos) + 1
      ensures evs == old(evs) + [if dst.ObjectInitialState? then StartObject else StartArray]
      ensures stack == old(stack) + [R.Frame(R.SavedState(src), 0)]
    {
      var n := src;
      if src.ArrayInitialState? || src.ElementDelimiterState? {
        n := R.ElementState;
      } else if src.KeyValueDelimiterState? {
        n := R.MemberValueState;
      }
      stack := stack + [R.Frame(n, 0)];
      Emit(if dst.ObjectInitialState? then StartObject else StartArray);
      pos := pos + 1;
    }

    /** Closes a container: a trailing comma needs the flag, and the last item is counted if no comma counted it. */
    method Close(src: R.State, dst: R.State) returns (d: R.State)
      requires pos <= |text| && R.Consistent(src, stack) && !(src.FinishState? || src.StartState?)
      requires dst.ObjectFinishState? || dst.ArrayFinishState?
      modifies this`pos, this`evs, this`error, this`stack
      ensures match R.Close(flags, src, dst, old(pos), old(stack), old(evs))
              case Go(dd, q, st, e) => d == dd && pos == q && stack == st && evs == e && error == old(error)
              case Halt(code, off, e) =>
                d.ErrorState? && stack == old(stack) && evs == e && error == Raised(old(error), code, off)
    {
      if !flags.trailingCommas && (src.MemberDelimiterState? || src.ElementDelimiterState?) {
        SetError(if dst.ObjectFinishState? then ObjectMissName else ValueInvalid, pos);
        return R.ErrorState;
      }
      var top := stack[|stack| - 1];
      var c := top.count;
      if src.MemberValueState? || src.ElementState? {
        c := Inc(c);
      }
      stack := stack[..|stack| - 1];
      Emit(if dst.ObjectFinishState? then EndObject(c) else EndArray(c));
      pos := pos + 1;
      d := if top.state.StartState? then R.FinishState else top.state;
    }

    method HandleError(src: R.State)
      modifies this`error
      ensures error == if old(error).NoError? then ParseError(R.StateError(src), pos, false) else old(error)
    {
      if error.NoError? {
        SetError(R.StateError(src), pos);
      }
    }

    method IterativeParse()
      requires pos == 0 && evs == [] && error.NoError? && stack == []
      modifies this`pos, this`evs, this`error, this`stack
      ensures Reports(NoError, R.IterativeParse(flags, text))
      ensures Reports(NoError, R.Parse(flags, text)) || RootIsDelimiter(flags, text)
    {
      ParsersAgree(flags, text);
      ghost var all := R.IterativeParse(flags, text);
      var st := R.StartState;
      SkipWhitespaceAndComments();
      if !error.NoError? {
        return;
      }
      while Peek(text, pos) != NUL
        invariant Ready() && R.Consistent(st, stack)
        invariant R.Run(flags, text, st, pos, stack, evs) == all
        decreases |text| - pos
      {
        var t := R.Tokenize(text[pos]);
        var n := R.Predict(st, t);
        ghost var step := R.Next(flags, text, st, pos, stack, evs);
        var d := Transit(st, t, n);
        if d.ErrorState? {
          HandleError(st);
          return;
        }
        st := d;
        if flags.stopWhenDone && st.FinishState? {
          return;
        }
        SkipWhitespaceAndComments();
        if !error.NoError? {
          return;
        }
      }
      if !st.FinishState? {
        HandleError(st);
      }
    }

    /** The root is complete: unless parsing stops there, only blanks may follow. */
    method EndRoot() returns (more: bool)
      requires pos <= |text| && state.FinishState? && stack == [] && !Stopped()
      modifies this`pos, this`error
      ensures CallEnds(AfterRoot(flags, text, old(pos), evs, !old(error).NoError?), more)
    {
      hide S.SkipWhitespaceAndComments;
      if !flags.stopWhenDone {
        SkipWhitespaceAndComments();
        if Stopped() {
          return false;
        }
        if Peek(text, pos) != NUL {
          HandleError(state);
          return false;
        }
      }
      more := true;
    }

    /** One transition of a call, from the token at the cursor, and its error if it has none yet. */
    method Advance() returns (n: R.State, d: R.State)
      requires pos <= |text| && Mirrors(state, stack, OpenBrackets(evs)) && !Stopped()
      modifies this`pos, this`evs, this`error, this`stack
      ensures n == R.Predict(state, R.Tokenize(Peek(text, old(pos))))
      ensures match CallTransit(flags, text, state, n, old(pos), old(stack), old(evs), !old(error).NoError?)
              case Moves(dst, q, st, e) =>
                && d == dst && !d.ErrorState? && old(pos) < pos == q <= |text| && stack == st && evs == e
                && error == old(error) && Mirrors(d, stack, OpenBrackets(evs)) && (d.FinishState? ==> stack == [])
              case Stops(_, e) => d.ErrorState? && evs == e && error.ParseError? && !Stopped()
              case Trips => d.ErrorState? && Stopped()
    {
      hide R.Transit, R.Next, R.Predict, R.Tokenize, R.Consistent, MirrorsBelow, MirrorsTop, OpenBrackets,
           FlaggedTransit;
      NextKeepsMirror(flags, text, state, pos, stack, evs);
      CallMoves(flags, text, state, pos, stack, evs, !error.NoError?);
      var t := R.Tokenize(Peek(text, pos));
      n := R.Predict(state, t);
      d := Transit(state, t, n);
      if d.ErrorState? {
        HandleError(state);
      }
    }

    /** The reader is left as a call ends. */
    ghost predicate CallEnds(c: Call, more: bool)
      reads this
    {
      if c.Asserted? then Stopped()
      else
        && more == c.more && evs == c.evs && !Stopped() && c.failed == !error.NoError?
        && (more ==> c == Call(true, state, pos, stack, evs, !error.NoError?))
    }

    /**
     * One event per call: the call is that of NextCall, whether or not an error has been raised before, so what is
     * proved of it holds here. As long as the root is not complete the stack mirrors the containers that the events
     * have left open. Without comments true is answered exactly if there is no error.
     */
    method IterativeParseNext() returns (more: bool)
      requires pos <= |text| && Mirrors(state, stack, OpenBrackets(evs)) && !Stopped()
      modifies this`pos, this`evs, this`error, this`stack, this`state
      ensures CallEnds(NextCall(flags, text, old(state), old(pos), old(stack), old(evs), !old(error).NoError?), more)
      ensures more && !state.FinishState? ==> Mirrors(state, stack, OpenBrackets(evs))
      ensures old(error).NoError? && !flags.comments ==> (more <==> error.NoError?)
    {
      hide R.Predict, R.Tokenize, R.Consistent, MirrorsBelow, MirrorsTop, OpenBrackets, CallTransit, AfterRoot,
           S.SkipWhitespaceAndComments;
      ghost var call := NextCall(flags, text, state, pos, stack, evs, !error.NoError?);
      if error.NoError? && !flags.comments {
        ErrorsNoticed(flags, text, state, pos, stack, evs);
      }
      while Peek(text, pos) != NUL
        invariant pos <= |text| && Mirrors(state, stack, OpenBrackets(evs)) && !Stopped()
        invariant call == NextCall(flags, text, state, pos, stack, evs, !error.NoError?)
        decreases |text| - pos
      {
        SkipWhitespaceAndComments();
        if Stopped() {
          return false;
        }
        assert call == AtToken(flags, text, state, pos, stack, evs, !error.NoError?);
        var n, d := Advance();
        if d.ErrorState? {
          return false;
        }
        if d.FinishState? {
          state := d;
          more := EndRoot();
          return;
        }
        state := d;
        if !IsDelimiterState(n) {
          return true;
        }
      }
      stack := [];
      if !state.FinishState? {
        HandleError(state);
        return false;
      }
      return true;
    }
  }
}
