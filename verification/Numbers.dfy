/** Integers are reported exactly, and the exponent arithmetic stays within 32 bits. */
module Numbers {
  import opened Bytes
  import opened Events
  import opened Scanning

  /** The value of a digit string read after a prefix of value v. */
  function Extend(v: nat, digits: Text): nat
    requires AllDigits(digits)
    decreases |digits|
  {
    if |digits| == 0 then v else Extend(v * 10 + (digits[0] - ZERO), digits[1..])
  }

  lemma {:induction false} ExtendLast(v: nat, digits: Text)
    requires AllDigits(digits) && |digits| > 0
    ensures var n := |digits| - 1;
            Extend(v, digits) == Extend(v, digits[..n]) * 10 + (digits[n] - ZERO)
    decreases |digits|
  {
    var n := |digits| - 1;
    if n > 0 {
      ExtendLast(v * 10 + (digits[0] - ZERO), digits[1..]);
      assert digits[1..][..n - 1] == digits[..n][1..];
    }
  }

  lemma {:induction false} ExtendIsDecimalValue(digits: Text)
    requires AllDigits(digits)
    ensures Extend(0, digits) == DecimalValue(digits)
    decreases |digits|
  {
    if |digits| > 0 {
      ExtendLast(0, digits);
      ExtendIsDecimalValue(digits[..|digits| - 1]);
    }
  }

  lemma {:induction false} ExtendGrows(v: nat, digits: Text)
    requires AllDigits(digits)
    ensures Extend(v, digits) >= v
    decreases |digits|
  {
    if |digits| > 0 {
      ExtendGrows(v * 10 + (digits[0] - ZERO), digits[1..]);
    }
  }

  lemma {:induction false} SkipsDigits(s: Text, p: nat)
    requires p <= |s|
    ensures AllDigits(s[p..SkipDigits(s, p)])
    decreases |s| - p
  {
    if IsDigit(Peek(s, p)) {
      SkipsDigits(s, p + 1);
    }
  }

  /** A digit loop gets through to the end exactly when the number fits its width. */
  lemma {:induction false} ScanDigitsExact(w: Width, s: Text, p: nat, v: nat, significant: nat)
    requires p <= |s| && w.last < 10 && v <= w.Max()
    ensures var r, q := ScanDigits(w, s, p, v, significant), SkipDigits(s, p);
            AllDigits(s[p..q]) && p <= r.pos <= q && SkipDigits(s, r.pos) == q && AllDigits(s[r.pos..q])
            && (!r.stopped <==> Extend(v, s[p..q]) <= w.Max())
            && (!r.stopped ==> r.pos == q && r.value == Extend(v, s[p..q]))
            && (r.stopped ==> Extend(r.value, s[r.pos..q]) == Extend(v, s[p..q]))
    decreases |s| - p
  {
    var q := SkipDigits(s, p);
    SkipsDigits(s, p);
    if IsDigit(Peek(s, p)) {
      var d := s[p] - ZERO;
      assert s[p..q][1..] == s[p + 1..q];
      if v >= w.limit && (v != w.limit || d > w.last) {
        ExtendGrows(v * 10 + d, s[p + 1..q]);
      } else {
        ScanDigitsExact(w, s, p + 1, v * 10 + d, significant + 1);
      }
    }
  }

  /** The end of an integer: a leading zero stands alone. */
  function IntegerEnd(s: Text, p: nat): (q: nat)
    requires p < |s| && IsDigit(s[p])
    ensures p < q <= |s|
  {
    if s[p] == ZERO then p + 1 else SkipDigits(s, p + 1)
  }

  lemma IntegerDigits(s: Text, p: nat)
    requires p < |s| && IsDigit(s[p])
    ensures AllDigits(s[p..IntegerEnd(s, p)])
  {
    SkipsDigits(s, p + 1);
  }

  function IntegerValue(s: Text, p: nat): nat
    requires p < |s| && IsDigit(s[p])
  {
    IntegerDigits(s, p);
    DecimalValue(s[p..IntegerEnd(s, p)])
  }

  /** The integer part is read whole, in the narrowest representation its value fits. */
  lemma ScanIntExact(s: Text, p: nat, minus: bool)
    requires p < |s| && IsDigit(s[p])
    ensures var r, v := ScanInt(s, p, minus), IntegerValue(s, p);
            r.IntPart? && r.pos == IntegerEnd(s, p)
            && (r.repr.Narrow? <==> v <= Width32(minus).Max())
            && (r.repr.Floating? <==> v > Width64(minus).Max())
            && (!r.repr.Floating? ==> r.value == v)
  {
    var q := IntegerEnd(s, p);
    IntegerDigits(s, p);
    ExtendIsDecimalValue(s[p..q]);
    var c := s[p];
    assert s[p..q][1..] == s[p + 1..q];
    assert Extend(0, s[p..q]) == Extend(c - ZERO, s[p + 1..q]);
    if c != ZERO {
      ScanDigitsExact(Width32(minus), s, p + 1, c - ZERO, 0);
      var a := ScanDigits(Width32(minus), s, p + 1, c - ZERO, 0);
      if a.stopped {
        ScanDigitsExact(Width64(minus), s, a.pos, a.value, a.significant);
        var b := ScanDigits(Width64(minus), s, a.pos, a.value, a.significant);
        assert b.stopped ==> SkipDigits(s, b.pos) == q;
      }
    } else {
      assert s[p + 1..q] == [];
    }
  }

  /** The integer a literal at p denotes, sign included. */
  function LiteralValue(s: Text, p: nat): int
    requires p < |s| && IsDigit(Peek(s, if s[p] == MINUS then p + 1 else p))
  {
    var v: int := IntegerValue(s, if s[p] == MINUS then p + 1 else p);
    if s[p] == MINUS then -v else v
  }

  /** The event an integer of a given sign is due, if it has one. */
  function ExactEvent(minus: bool, n: int): seq<Event> {
    if minus then
      if -0x8000_0000 <= n then [IntEvent(n)]
      else if -0x8000_0000_0000_0000 <= n then [Int64Event(n)]
      else []
    else
      if n < TWO_32 then [UintEvent(n)]
      else if n < TWO_64 then [Uint64Event(n)]
      else []
  }

  /**
   * Every integer literal is reported with its exact value: by the 32-bit event of its sign if it fits,
   * else by the 64-bit event, and as a double exactly when it lies outside [-2^63, 2^64 - 1].
   */
  lemma IntegerLiteral(flags: Flags, s: Text, p: nat, evs: seq<Event>)
    requires p < |s| && IsDigit(Peek(s, if s[p] == MINUS then p + 1 else p))
    requires var c := Peek(s, IntegerEnd(s, if s[p] == MINUS then p + 1 else p));
             c != PERIOD && !IsExponentMark(c)
    ensures var q := IntegerEnd(s, if s[p] == MINUS then p + 1 else p);
            var event := ExactEvent(s[p] == MINUS, LiteralValue(s, p));
            ParseNumber(flags, s, p, evs)
            == if event != [] then Ok(q, evs + event) else FinishDouble(flags, s, p, q, evs)
  {
    var minus := s[p] == MINUS;
    ScanIntExact(s, if minus then p + 1 else p, minus);
    hide ScanInt, IntegerValue;
    assert Width32(true).Max() == 0x8000_0000 && Width64(true).Max() == 0x8000_0000_0000_0000;
    assert Width32(false).Max() == TWO_32 - 1 && Width64(false).Max() == TWO_64 - 1;
  }

  // ------------------------------------------------------------ exponents

  predicate FitsInt32(n: int) {
    -0x8000_0000 <= n <= 0x7FFF_FFFF
  }

  /** Every value the exponent takes in the loop after a minus sign fits, and so does its sum with expFrac. */
  predicate NegativeExponentFits(s: Text, p: nat, exp: nat, expFrac: int)
    requires p <= |s|
    decreases |s| - p
  {
    && FitsInt32(exp) && FitsInt32(expFrac - exp)
    && (IsDigit(Peek(s, p)) && exp <= MaxNegativeExponent(expFrac) ==>
          NegativeExponentFits(s, p + 1, exp * 10 + (s[p] - ZERO), expFrac))
  }

  predicate PositiveExponentFits(s: Text, p: nat, exp: nat, expFrac: int)
    requires p <= |s|
    decreases |s| - p
  {
    && FitsInt32(exp) && FitsInt32(expFrac + exp)
    && (IsDigit(Peek(s, p)) && exp <= MaxPositiveExponent(expFrac) ==>
          PositiveExponentFits(s, p + 1, exp * 10 + (s[p] - ZERO), expFrac))
  }

  lemma {:induction false} NegativeExponentStays(s: Text, p: nat, exp: nat, expFrac: int)
    requires p <= |s| && -2147483639 <= expFrac <= 0
    requires exp <= 10 * MaxNegativeExponent(expFrac) + 9
    ensures NegativeExponentFits(s, p, exp, expFrac)
    decreases |s| - p
  {
    if IsDigit(Peek(s, p)) && exp <= MaxNegativeExponent(expFrac) {
      NegativeExponentStays(s, p + 1, exp * 10 + (s[p] - ZERO), expFrac);
    }
  }

  lemma {:induction false} PositiveExponentStays(s: Text, p: nat, exp: nat, expFrac: int)
    requires p <= |s| && -214748055 <= expFrac <= 0
    requires exp <= 10 * MaxPositiveExponent(expFrac) + 9
    ensures PositiveExponentFits(s, p, exp, expFrac)
    decreases |s| - p
  {
    if IsDigit(Peek(s, p)) && exp <= MaxPositiveExponent(expFrac) {
      PositiveExponentStays(s, p + 1, exp * 10 + (s[p] - ZERO), expFrac);
    }
  }

  lemma {:induction false} NegativeExponentResult(s: Text, p: nat, exp: nat, expFrac: int)
    requires p <= |s| && NegativeExponentFits(s, p, exp, expFrac)
    requires exp <= MaxNegativeExponent(expFrac) || !IsDigit(Peek(s, p))
    ensures var r := ScanNegativeExponent(s, p, exp, MaxNegativeExponent(expFrac));
            FitsInt32(r.exp) && FitsInt32(expFrac - r.exp)
    decreases |s| - p
  {
    if IsDigit(Peek(s, p)) {
      var e := exp * 10 + (s[p] - ZERO);
      if e <= MaxNegativeExponent(expFrac) {
        NegativeExponentResult(s, p + 1, e, expFrac);
      }
    }
  }

  lemma {:induction false} PositiveExponentResult(s: Text, p: nat, exp: nat, expFrac: int, start: nat)
    requires p <= |s| && exp <= MaxPositiveExponent(expFrac)
    ensures var r := ScanPositiveExponent(s, p, exp, MaxPositiveExponent(expFrac), start);
            r.Exponent? ==> r.exp + expFrac <= 308
    decreases |s| - p
  {
    if IsDigit(Peek(s, p)) {
      var e := exp * 10 + (s[p] - ZERO);
      if e <= MaxPositiveExponent(expFrac) {
        PositiveExponentResult(s, p + 1, e, expFrac, start);
      }
    }
  }

  /** The exponent part for a given number of fraction digits. */
  lemma ExponentFitsFraction(s: Text, q: nat, expFrac: int, start: nat)
    requires q < |s| && -200_000_000 < expFrac <= 0
    ensures var r, sign := ScanExponent(s, q, expFrac, start), Peek(s, q + 1);
            var d := if sign == PLUS || sign == MINUS then q + 2 else q + 1;
            && (IsDigit(Peek(s, d)) ==>
                  if sign == MINUS then NegativeExponentFits(s, d + 1, s[d] - ZERO, expFrac)
                  else PositiveExponentFits(s, d + 1, s[d] - ZERO, expFrac))
            && (r.Exponent? ==> FitsInt32(r.exp) && FitsInt32(r.exp + expFrac))
            && (r.Exponent? && sign != MINUS ==> r.exp + expFrac <= 308)
  {
    var sign := Peek(s, q + 1);
    var d := if sign == PLUS || sign == MINUS then q + 2 else q + 1;
    hide NegativeExponentFits, PositiveExponentFits, ScanNegativeExponent, ScanPositiveExponent;
    if IsDigit(Peek(s, d)) {
      if sign == MINUS {
        NegativeExponentStays(s, d + 1, s[d] - ZERO, expFrac);
        NegativeExponentResult(s, d + 1, s[d] - ZERO, expFrac);
      } else {
        PositiveExponentStays(s, d + 1, s[d] - ZERO, expFrac);
        PositiveExponentResult(s, d + 1, s[d] - ZERO, expFrac, start);
      }
    }
  }

  /**
   * With fewer than 200,000,000 fraction digits and any number of exponent digits: every intermediate
   * value of the exponent, and its sum with the fraction's, fits 32 bits; the result does too, and an
   * accepted non-negative exponent leaves the sum at most 308.
   */
  lemma ExponentFits(s: Text, i: IntPart, q: nat, start: nat)
    requires i.IntPart? && i.pos < |s|
    requires q == ScanFraction(s, i).pos < |s| && q - i.pos - 1 < 200_000_000
    ensures var expFrac, r := ScanFraction(s, i).expFrac, ScanExponent(s, q, ScanFraction(s, i).expFrac, start);
            var sign := Peek(s, q + 1);
            var d := if sign == PLUS || sign == MINUS then q + 2 else q + 1;
            && FitsInt32(expFrac)
            && (IsDigit(Peek(s, d)) ==>
                  if sign == MINUS then NegativeExponentFits(s, d + 1, s[d] - ZERO, expFrac)
                  else PositiveExponentFits(s, d + 1, s[d] - ZERO, expFrac))
            && (r.Exponent? ==> FitsInt32(r.exp) && FitsInt32(r.exp + expFrac))
            && (r.Exponent? && sign != MINUS ==> r.exp + expFrac <= 308)
  {
    var expFrac := ScanFraction(s, i).expFrac;
    assert -200_000_000 < expFrac <= 0;
    hide ScanFraction, ScanExponent, NegativeExponentFits, PositiveExponentFits;
    ExponentFitsFraction(s, q, expFrac, start);
  }
}
