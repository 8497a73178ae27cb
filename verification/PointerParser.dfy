/** Parsing a pointer in place: names are unescaped into one buffer as long as the source. */
module PointerParser {
  import opened Bytes
  import opened Encodings
  import P = Pointer

  /** The index loop over the digits of a name in the buffer. */
  method ReadIndex(buffer: array<byte>, start: nat, end: nat) returns (index: nat)
    requires start <= end <= buffer.Length && AllDigits(buffer[start..end])
    ensures index == P.Accumulate(buffer[start..end], 0, 0)
  {
    ghost var name := buffer[start..end];
    var n: nat := 0;
    for j := start to end
      invariant n < TWO_32 && P.Accumulate(name, 0, 0) == P.Accumulate(name, j - start, n)
    {
      assert name[j - start] == buffer[j];
      var m: nat := (n * 10 + (buffer[j] - ZERO)) % TWO_32;
      if m < n {
        return P.INVALID_INDEX;
      }
      n := m;
    }
    index := n;
  }

  // ------------------------------------------- percent-encoded sequences

  /** A unit taken off percent triplets, where the stream then stands, and whether the triplet was whole. */
  datatype Triplet = Triplet(unit: byte, next: nat, valid: bool)

  /** A broken triplet yields 0 and leaves the stream where it breaks, so the next unit may be taken off another one. */
  function TakeTriplet(s: Text, i: nat): (t: Triplet)
    ensures t.valid ==> t.next == i + 3 <= |s|
    ensures !t.valid ==> t.unit == 0
  {
    if Peek(s, i) != PERCENT || i + 3 > |s| then Triplet(0, i, false)
    else if HexValue(s[i + 1]) < 0 then Triplet(0, i + 1, false)
    else if HexValue(s[i + 2]) < 0 then Triplet(0, i + 2, false)
    else Triplet(HexValue(s[i + 1]) * 16 + HexValue(s[i + 2]), i + 3, true)
  }

  /** The next n units the stream yields from i on. */
  function Taken(s: Text, i: nat, n: nat): (units: Text)
    ensures |units| == n
    decreases n
  {
    if n == 0 then [] else var t := TakeTriplet(s, i); [t.unit] + Taken(s, t.next, n - 1)
  }

  predicate AllValid(s: Text, i: nat, n: nat)
    decreases n
  {
    n == 0 || (TakeTriplet(s, i).valid && AllValid(s, TakeTriplet(s, i).next, n - 1))
  }

  /** All units validation takes and copies: as many as the lead unit announces, whatever they turn out to be. */
  function Copied(s: Text, i: nat): (units: Text)
    ensures 1 <= |units| <= 4 && units[0] == TakeTriplet(s, i).unit
  {
    Taken(s, i, 1 + Tail(GetRange(TakeTriplet(s, i).unit)).0)
  }

  /** After some units the stream stands at i, with n to come, and they are or are not all of whole triplets. */
  datatype Progress = Progress(units: Text, whole: bool, i: nat, n: nat)

  /** All units and the verdict of the stream as they will be in the end. */
  function Finally(s: Text, p: Progress): (Text, bool) {
    (p.units + Taken(s, p.i, p.n), p.whole && AllValid(s, p.i, p.n))
  }

  lemma FinallySame(s: Text, p: Progress)
    requires p.n > 0
    ensures var t := TakeTriplet(s, p.i); Finally(s, Progress(p.units + [t.unit], p.whole && t.valid, t.next, p.n - 1)) == Finally(s, p)
    ensures |Finally(s, p).0| == |p.units| + p.n && Finally(s, p).0[|p.units|] == TakeTriplet(s, p.i).unit
  {
    var t := TakeTriplet(s, p.i);
    var rest := Taken(s, t.next, p.n - 1);
    assert p.units + ([t.unit] + rest) == p.units + [t.unit] + rest;
  }

  lemma FinallyNow(s: Text, p: Progress)
    ensures p.n == 0 ==> Finally(s, p) == (p.units, p.whole)
    ensures p.units == [] ==> Finally(s, p) == (Taken(s, p.i, p.n), p.whole && AllValid(s, p.i, p.n))
  {
    assert p.units + [] == p.units && [] + Taken(s, p.i, p.n) == Taken(s, p.i, p.n);
  }

  /** Whole triplets are those of the run that starts here. */
  lemma {:induction false} TakenAreRun(s: Text, i: nat, n: nat)
    requires i <= |s|
    ensures AllValid(s, i, n) <==> n <= |P.Percents(s, i)|
    ensures AllValid(s, i, n) ==> Taken(s, i, n) == P.Percents(s, i)[..n]
    decreases n
  {
    if n > 0 && TakeTriplet(s, i).valid {
      TakenAreRun(s, i + 3, n - 1);
    }
  }

  /** The stream and the verdict on what it yields accept together exactly the sequences of whole triplets. */
  lemma AcceptsRun(s: Text, i: nat)
    requires i <= |s|
    ensures var run, units := P.Percents(s, i), Copied(s, i);
            && (AllValid(s, i, |units|) && Decode(units, 0).ok <==> |run| > 0 && Decode(run, 0).ok)
            && (AllValid(s, i, |units|) && Decode(units, 0).ok ==>
                  Decode(run, 0).pos == |units| <= |run| && units == run[..|units|])
  {
    var run, units := P.Percents(s, i), Copied(s, i);
    TakenAreRun(s, i, 1);
    TakenAreRun(s, i, |units|);
    if |units| <= |run| {
      assert forall k | 0 <= k < |units| :: Peek(units, k) == Peek(run, k);
    } else if |run| > 0 && Decode(run, 0).ok {
      AcceptedInside(run, 0);
    }
  }

  /** The verdict on the first k units after the lead of a sequence. */
  predicate Verdicts(units: Text, k: nat)
    requires k < |units|
  {
    if k == 0 then true
    else Verdicts(units, k - 1) && GetRange(units[k]) in if k == 1 then Tail(GetRange(units[0])).1 else MASK_70
  }

  lemma VerdictsStart(units: Text)
    requires |units| > 0
    ensures Verdicts(units, 0)
  {
  }

  lemma OneMoreVerdict(units: Text, k: nat)
    requires 0 < k < |units|
    ensures Verdicts(units, k) ==
            (Verdicts(units, k - 1) && GetRange(units[k]) in if k == 1 then Tail(GetRange(units[0])).1 else MASK_70)
  {
  }

  lemma VerdictsDecode(units: Text)
    requires |units| > 0 && |units| == 1 + Tail(GetRange(units[0])).0
    ensures Decode(units, 0).ok <==> (|units| > 1 || units[0] < 0x80) && Verdicts(units, |units| - 1)
  {
    assert |units| > 1 ==> Verdicts(units, 0);
    assert |units| > 2 ==> Verdicts(units, 1) == (GetRange(units[1]) in Tail(GetRange(units[0])).1);
    assert |units| > 3 ==> Verdicts(units, 2) == (Verdicts(units, 1) && GetRange(units[2]) in MASK_70);
  }

  /** Room for one unit for every unit of the source but the first is room for all that validation copies. */
  lemma CopiedFits(s: Text, i: nat, n: nat)
    requires n < i < |s|
    ensures n + |Copied(s, i)| <= |s|
  {
  }

  /** Three of the four units copied for a lead alone come from no triplet, and they are zeros. */
  lemma LeadAlone()
    ensures Copied([HASH, SLASH, PERCENT, 0x46, ZERO], 2) == [0xF0, 0, 0, 0]
  {
    var s: Text := [HASH, SLASH, PERCENT, 0x46, ZERO];
    assert TakeTriplet(s, 2) == Triplet(0xF0, 5, true) && TakeTriplet(s, 5) == Triplet(0, 5, false);
    assert Taken(s, 5, 1) == [0] && Taken(s, 5, 2) == [0, 0] && Taken(s, 5, 3) == [0, 0, 0];
  }

  /** A stream over percent triplets. */
  class PercentDecodeStream {
    const text: Text
    var src: nat
    var valid: bool

    constructor (text: Text, src: nat)
      ensures this.text == text && this.src == src && valid
    {
      this.text, this.src, valid := text, src, true;
    }

    method Take() returns (c: byte)
      modifies this
      ensures var t := TakeTriplet(text, old(src));
              c == t.unit && src == t.next && valid == (old(valid) && t.valid)
    {
      if Peek(text, src) != PERCENT || src + 3 > |text| {
        valid := false;
        return 0;
      }
      src := src + 1;
      var unit := 0;
      for j := 0 to 2
        invariant src == old(src) + 1 + j && valid == old(valid)
        invariant j >= 1 ==> HexValue(text[old(src) + 1]) >= 0
        invariant j >= 2 ==> HexValue(text[old(src) + 2]) >= 0
        invariant j == 0 ==> unit == 0
        invariant j == 1 ==> unit == HexValue(text[old(src) + 1])
        invariant j == 2 ==> unit == HexValue(text[old(src) + 1]) * 16 + HexValue(text[old(src) + 2])
      {
        var h := HexValue(text[src]);
        if h < 0 {
          valid := false;
          return 0;
        }
        unit := unit * 16 + h;
        src := src + 1;
      }
      c := unit;
    }
  }

  /**
   * Validates one sequence and copies into the buffer every unit the stream yields for it, even after a broken
   * triplet or a wrong unit.
   */
  method Validate(input: PercentDecodeStream, buffer: array<byte>, at: nat) returns (ok: bool, end: nat)
    requires at + |Copied(input.text, input.src)| <= buffer.Length
    modifies input, buffer
    ensures end == at + |Copied(input.text, old(input.src))|
    ensures ok == Decode(Copied(input.text, old(input.src)), 0).ok
    ensures input.valid == (old(input.valid) && AllValid(input.text, old(input.src), |Copied(input.text, old(input.src))|))
    ensures input.valid ==> input.src == old(input.src) + 3 * (end - at)
    ensures buffer[..] == old(buffer[..at]) + Copied(input.text, old(input.src)) + old(buffer[end..])
  {
    hide Decode, Verdicts, Finally, Taken, AllValid, TakeTriplet, GetRange, Tail;
    ghost var s, i, was, whole := input.text, input.src, buffer[..], input.valid;
    ghost var units := Copied(s, i);
    var c := input.Take();
    buffer[at] := c;
    end := at + 1;
    var (n, mask) := Tail(GetRange(c));
    ok := n > 0 || c < 0x80;
    ghost var copied := [c];
    var k := 0;
    FinallyNow(s, Progress([], whole, i, n + 1));
    FinallySame(s, Progress([], whole, i, n + 1));
    VerdictsStart(units);
    assert [] + [c] == [c];
    hide Copied;
    while k < n
      invariant 0 <= k <= n && |copied| == k + 1 && end == at + |copied| && |units| == n + 1
      invariant input.valid ==> input.src == i + 3 * (k + 1)
      invariant Finally(s, Progress(copied, input.valid, input.src, n - k)) == (units, whole && AllValid(s, i, n + 1))
      invariant buffer[..] == was[..at] + copied + was[end..]
      invariant ok == ((n > 0 || c < 0x80) && Verdicts(units, k))
    {
      FinallySame(s, Progress(copied, input.valid, input.src, n - k));
      var t := input.Take();
      Put(buffer, end, t, was, at, copied);
      copied := copied + [t];
      end := end + 1;
      ok := ok && GetRange(t) in (if k == 0 then mask else MASK_70);
      k := k + 1;
      OneMoreVerdict(units, k);
    }
    FinallyNow(s, Progress(copied, input.valid, input.src, 0));
    VerdictsDecode(units);
  }

  /** Puts one more unit behind what has been copied over a part of the buffer. */
  method Put(buffer: array<byte>, end: nat, c: byte, ghost was: Text, ghost at: nat, ghost copied: Text)
    requires end < buffer.Length == |was| && end == at + |copied| && buffer[..] == was[..at] + copied + was[end..]
    modifies buffer
    ensures buffer[..] == was[..at] + (copied + [c]) + was[end + 1..]
  {
    buffer[end] := c;
  }

  datatype Read = Read(next: nat, end: nat) | Stop(code: P.PointerError, off: nat)

  /** One turn of the inner loop: the next piece of a name goes into the buffer from n on. */
  method ReadPiece(s: Text, i: nat, uri: bool, buffer: array<byte>, n: nat) returns (r: Read)
    requires n < i < |s| && s[i] != SLASH && buffer.Length == |s|
    modifies buffer
    ensures forall k | 0 <= k < n :: buffer[k] == old(buffer[k])
    ensures match P.NextPiece(s, i, uri)
            case Units(bytes, next) => r == Read(next, n + |bytes|) && n + |bytes| < next && buffer[n..n + |bytes|] == bytes
            case BadPiece(code, off) => r == Stop(code, off)
  {
    hide Decode, P.Percents, Copied, AllValid;
    var c, next: nat := s[i], i + 1;
    if uri && c == PERCENT {
      CopiedFits(s, i, n);
      AcceptsRun(s, i);
      var input := new PercentDecodeStream(s, i);
      var ok, end := Validate(input, buffer, n);
      if !ok || !input.valid {
        return Stop(P.InvalidPercentEncoding, i);
      }
      assert buffer[n..end] == Copied(s, i);
      if end != n + 1 {
        return Read(input.src, end);
      }
      c, next := buffer[n], input.src;
    } else if uri && P.NeedPercentEncode(c) {
      return Stop(P.CharacterMustPercentEncode, i);
    }
    if c == TILDE {
      if next < |s| && s[next] == ZERO {
        c := TILDE;
      } else if next < |s| && s[next] == ONE {
        c := SLASH;
      } else {
        return Stop(P.InvalidEscape, next);
      }
      next := next + 1;
    }
    buffer[n] := c;
    assert buffer[n..n + 1] == [c];
    r := Read(next, n + 1);
  }

  /** The inner loop: one name from i0 on into the buffer from start on, never beyond the units consumed. */
  method ReadName(s: Text, i0: nat, uri: bool, buffer: array<byte>, start: nat) returns (r: Read)
    requires start < i0 <= |s| && buffer.Length == |s|
    modifies buffer
    ensures r.Read? ==> i0 <= r.next <= |s| && start <= r.end < r.next
                        && P.ScanName(s, i0, uri, []) == P.Name(buffer[start..r.end], r.next)
    ensures r.Stop? ==> P.ScanName(s, i0, uri, []) == P.BadName(r.code, r.off)
  {
    hide P.NextPiece;
    var i, n: nat := i0, start;
    assert buffer[start..start] == [];
    while i < |s| && s[i] != SLASH
      invariant i0 <= i <= |s| && start <= n < i
      invariant P.ScanName(s, i0, uri, []) == P.ScanName(s, i, uri, buffer[start..n])
      decreases |s| - i
    {
      ghost var name := buffer[start..n];
      r := ReadPiece(s, i, uri, buffer, n);
      if r.Stop? {
        return;
      }
      assert buffer[start..r.end] == buffer[start..n] + buffer[n..r.end];
      assert buffer[start..n] == name;
      i, n := r.next, r.end;
    }
    r := Read(i, n);
  }

  /** The whole parse; the buffer is never written beyond the length of the source. */
  method Parse(s: Text) returns (r: P.Parsed, buffer: array<byte>)
    ensures r == P.Parse(s)
    ensures fresh(buffer) && buffer.Length == |s|
  {
    buffer := new byte[|s|](_ => NUL);
    var uri := Peek(s, 0) == HASH;
    var i: nat, n: nat := if uri then 1 else 0, 0;
    if i != |s| && s[i] != SLASH {
      return P.PointerError(P.TokenMustBeginWithSolidus, i), buffer;
    }
    var tokens: seq<P.Token> := [];
    while i < |s|
      invariant i <= |s| && n <= i && (i == |s| || s[i] == SLASH)
      invariant P.Parse(s) == P.ScanTokens(s, i, uri, tokens)
      decreases |s| - i
    {
      hide P.Parse, P.ScanName;
      var read := ReadName(s, i + 1, uri, buffer, n);
      if read.Stop? {
        return P.PointerError(read.code, read.off), buffer;
      }
      var token := MakeToken(buffer, n, read.end);
      buffer[read.end] := NUL;
      tokens := tokens + [token];
      i, n := read.next, read.end + 1;
    }
    r := P.Tokens(tokens);
  }

  lemma OneMore(digits: Text, c: byte)
    ensures AllDigits(digits + [c]) <==> AllDigits(digits) && IsDigit(c)
  {
    if AllDigits(digits + [c]) {
      assert forall i | 0 <= i < |digits| :: digits[i] == (digits + [c])[i];
      assert (digits + [c])[|digits|] == c;
    }
  }

  /** The token of a name in the buffer. */
  method MakeToken(buffer: array<byte>, start: nat, end: nat) returns (token: P.Token)
    requires start <= end <= buffer.Length
    ensures token == P.Token(buffer[start..end], P.IndexOf(buffer[start..end]))
  {
    var isNumber := start < end;
    for j := start to end
      invariant isNumber == (start < end && AllDigits(buffer[start..j]))
    {
      assert buffer[start..j + 1] == buffer[start..j] + [buffer[j]];
      OneMore(buffer[start..j], buffer[j]);
      if !IsDigit(buffer[j]) {
        isNumber := false;
      }
    }
    if isNumber && end - start > 1 && buffer[start] == ZERO {
      isNumber := false;
    }
    var index := P.INVALID_INDEX;
    if isNumber {
      index := ReadIndex(buffer, start, end);
    }
    token := P.Token(buffer[start..end], index);
  }
}
