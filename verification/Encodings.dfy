/** UTF-8 and UTF-16 as the encoding classes implement them, against the grammars of RFC 3629 and RFC 2781. */
module Encodings {
  import opened Bytes

  /** Unicode scalar values: every code point that is not a surrogate. */
  predicate IsScalar(c: int) {
    0 <= c < 0xD800 || 0xE000 <= c <= 0x10FFFF
  }

  // ---------------------------------------------------------------- UTF-8

  /** The encoder takes any code point, surrogates included. */
  function Encode(c: nat): (r: Text)
    requires c <= 0x10FFFF
    ensures 1 <= |r| <= 4
  {
    if c <= 0x7F then [c]
    else if c <= 0x7FF then [0xC0 + c / 64, 0x80 + c % 64]
    else if c <= 0xFFFF then [0xE0 + c / 4096, 0x80 + c / 64 % 64, 0x80 + c % 64]
    else [0xF0 + c / 262144, 0x80 + c / 4096 % 64, 0x80 + c / 64 % 64, 0x80 + c % 64]
  }

  /** Character classes of the decoder's automaton. */
  function GetRange(c: byte): byte {
    if c < 0x80 then 0
    else if c < 0x90 then 0x10
    else if c < 0xA0 then 0x40
    else if c < 0xC0 then 0x20
    else if c < 0xC2 then 8
    else if c < 0xE0 then 2
    else if c == 0xE0 then 10
    else if c == 0xED then 4
    else if c < 0xF0 then 3
    else if c == 0xF0 then 11
    else if c < 0xF4 then 6
    else if c == 0xF4 then 5
    else 8
  }

  // A mask accepts the continuation classes whose bit it holds.
  const MASK_70: set<byte> := {0x10, 0x20, 0x40}
  const MASK_50: set<byte> := {0x10, 0x40}
  const MASK_10: set<byte> := {0x10}
  const MASK_20: set<byte> := {0x20}
  const MASK_60: set<byte> := {0x20, 0x40}

  /** How many continuation units a lead class takes and which mask the first of them must pass. */
  function Tail(range: byte): (r: (nat, set<byte>)) {
    match range
    case 2 => (1, MASK_70)
    case 3 => (2, MASK_70)
    case 4 => (2, MASK_50)
    case 5 => (3, MASK_10)
    case 6 => (3, MASK_70)
    case 10 => (2, MASK_20)
    case 11 => (3, MASK_60)
    case _ => (0, {})
  }

  /** Payload bits of a lead unit: (0xFF >> class) & unit. */
  function LeadBits(c: byte): nat {
    match GetRange(c)
    case 2 => c % 64
    case 3 => c % 32
    case 4 => c % 16
    case 5 => c % 8
    case 6 => c % 4
    case _ => 0
  }

  /**
   * Verdict, code point and the position after the units taken. All units of a sequence are taken even after one fails.
   */
  datatype Decoded = Decoded(ok: bool, code: nat, pos: nat)

  function Decode(s: Text, p: nat): Decoded {
    var c := Peek(s, p);
    var (n, mask) := Tail(GetRange(c));
    var c1, c2, c3 := Peek(s, p + 1), Peek(s, p + 2), Peek(s, p + 3);
    var ok1 := GetRange(c1) in mask;
    if c < 0x80 then Decoded(true, c, p + 1)
    else if n == 1 then Decoded(ok1, LeadBits(c) * 64 + c1 % 64, p + 2)
    else if n == 2 then
      Decoded(ok1 && GetRange(c2) in MASK_70, (LeadBits(c) * 64 + c1 % 64) * 64 + c2 % 64, p + 3)
    else if n == 3 then
      Decoded(ok1 && GetRange(c2) in MASK_70 && GetRange(c3) in MASK_70,
              ((LeadBits(c) * 64 + c1 % 64) * 64 + c2 % 64) * 64 + c3 % 64, p + 4)
    else Decoded(false, LeadBits(c), p + 1)
  }

  /** Productions UTF8-1 to UTF8-4 of section 4 of RFC 3629. */
  predicate UTF8Char(s: Text) {
    (|s| == 1 && s[0] <= 0x7F)
    || (|s| == 2 && 0xC2 <= s[0] <= 0xDF && UTF8Tail(s[1]))
    || (|s| == 3 && UTF8Tail(s[2]) &&
        ((s[0] == 0xE0 && 0xA0 <= s[1] <= 0xBF)
         || (0xE1 <= s[0] <= 0xEC && UTF8Tail(s[1]))
         || (s[0] == 0xED && 0x80 <= s[1] <= 0x9F)
         || (0xEE <= s[0] <= 0xEF && UTF8Tail(s[1]))))
    || (|s| == 4 && UTF8Tail(s[2]) && UTF8Tail(s[3]) &&
        ((s[0] == 0xF0 && 0x90 <= s[1] <= 0xBF)
         || (0xF1 <= s[0] <= 0xF3 && UTF8Tail(s[1]))
         || (s[0] == 0xF4 && 0x80 <= s[1] <= 0x8F)))
  }

  predicate UTF8Tail(c: byte) {
    0x80 <= c <= 0xBF
  }

  /** Reading past the end yields NUL, which no mask accepts, so an accepted sequence lies inside the text. */
  lemma AcceptedInside(s: Text, p: nat)
    requires p < |s| && Decode(s, p).ok
    ensures p < Decode(s, p).pos <= |s|
  {
    assert GetRange(NUL) == 0;
  }

  /** Splitting a code point into base-64 digits loses nothing. */
  lemma Digits64(h: nat, a: nat, b: nat, c: nat)
    requires a < 64 && b < 64 && c < 64
    ensures (h * 64 + a) / 64 == h && (h * 64 + a) % 64 == a
    ensures var n := (h * 64 + a) * 64 + b; n / 4096 == h && n / 64 % 64 == a && n % 64 == b
    ensures var n := ((h * 64 + a) * 64 + b) * 64 + c;
            n / 262144 == h && n / 4096 % 64 == a && n / 64 % 64 == b && n % 64 == c
  {
    var n2 := (h * 64 + a) * 64 + b;
    assert n2 / 64 == h * 64 + a;
    var n3 := n2 * 64 + c;
    assert n3 / 64 == n2;
    assert n3 / 4096 == n2 / 64;
    assert n3 / 262144 == n2 / 4096;
  }

  /** Every production encodes one scalar value and is its encoding. */
  lemma CharIsEncoding(s: Text)
    requires UTF8Char(s)
    ensures var d := Decode(s, 0);
            d.ok && d.pos == |s| && IsScalar(d.code) && Encode(d.code) == s
  {
    if |s| == 1 {
    } else if |s| == 2 {
      CharIsEncoding2(s);
    } else if |s| == 3 {
      CharIsEncoding3(s);
    } else {
      CharIsEncoding4(s);
    }
  }

  lemma CharIsEncoding2(s: Text)
    requires UTF8Char(s) && |s| == 2
    ensures var d := Decode(s, 0);
            d.ok && d.pos == |s| && IsScalar(d.code) && Encode(d.code) == s
  {
    var h: nat, a: nat := s[0] - 0xC0, s[1] - 0x80;
    assert Decode(s, 0) == Decoded(true, h * 64 + a, 2) by {
      assert GetRange(s[1]) in MASK_70;
    }
    hide Decode;
    Digits64(h, a, 0, 0);
  }

  lemma CharIsEncoding3(s: Text)
    requires UTF8Char(s) && |s| == 3
    ensures var d := Decode(s, 0);
            d.ok && d.pos == |s| && IsScalar(d.code) && Encode(d.code) == s
  {
    var h: nat, a: nat, b: nat := s[0] - 0xE0, s[1] - 0x80, s[2] - 0x80;
    assert Decode(s, 0) == Decoded(true, (h * 64 + a) * 64 + b, 3) by {
      assert GetRange(s[2]) in MASK_70;
      assert LeadBits(s[0]) == h && s[1] % 64 == a && s[2] % 64 == b;
    }
    hide Decode;
    Digits64(h, a, b, 0);
  }

  lemma CharIsEncoding4(s: Text)
    requires UTF8Char(s) && |s| == 4
    ensures var d := Decode(s, 0);
            d.ok && d.pos == |s| && IsScalar(d.code) && Encode(d.code) == s
  {
    var h: nat, a: nat, b: nat, c: nat := s[0] - 0xF0, s[1] - 0x80, s[2] - 0x80, s[3] - 0x80;
    Decode4(s, h, a, b, c);
    hide Decode, Encode;
    Encode4(h, a, b, c);
  }

  lemma Decode4(s: Text, h: nat, a: nat, b: nat, c: nat)
    requires UTF8Char(s) && s == [0xF0 + h, 0x80 + a, 0x80 + b, 0x80 + c]
    ensures Decode(s, 0) == Decoded(true, ((h * 64 + a) * 64 + b) * 64 + c, 4)
  {
    assert GetRange(s[2]) in MASK_70 && GetRange(s[3]) in MASK_70;
    assert LeadBits(s[0]) == h && s[1] % 64 == a && s[2] % 64 == b && s[3] % 64 == c;
  }

  lemma Encode4(h: nat, a: nat, b: nat, c: nat)
    requires h <= 4 && a < 64 && b < 64 && c < 64
    requires h == 0 ==> a >= 16
    requires h == 4 ==> a < 16
    ensures var code := ((h * 64 + a) * 64 + b) * 64 + c;
            0x10000 <= code <= 0x10FFFF && Encode(code) == [0xF0 + h, 0x80 + a, 0x80 + b, 0x80 + c]
  {
    Digits64(h, a, b, c);
  }

  /** Section 3 of RFC 3629: where the bits of a code point go, six of them in every continuation unit. */
  lemma EncodedBits(h: nat, a: nat, b: nat, c: nat)
    requires a < 64 && b < 64 && c < 64
    ensures 0x80 <= h * 64 + a <= 0x7FF ==> Encode(h * 64 + a) == [0xC0 + h, 0x80 + a]
    ensures var n := (h * 64 + a) * 64 + b; 0x800 <= n <= 0xFFFF ==> Encode(n) == [0xE0 + h, 0x80 + a, 0x80 + b]
    ensures var n := ((h * 64 + a) * 64 + b) * 64 + c;
            0x1_0000 <= n <= 0x10_FFFF ==> Encode(n) == [0xF0 + h, 0x80 + a, 0x80 + b, 0x80 + c]
  {
    Digits64(h, a, b, c);
  }

  /** The automaton accepts exactly the productions of RFC 3629. */
  lemma DecodeAcceptsExactlyUTF8(s: Text, p: nat)
    requires p < |s|
    ensures Decode(s, p).ok <==> exists n | p <= n <= |s| :: UTF8Char(s[p..n])
    ensures Decode(s, p).ok ==>
              var d := Decode(s, p);
              d.pos <= |s| && UTF8Char(s[p..d.pos]) && IsScalar(d.code) && Encode(d.code) == s[p..d.pos]
  {
    var d := Decode(s, p);
    if d.ok {
      AcceptedInside(s, p);
      var t := s[p..d.pos];
      assert UTF8Char(t) by {
        assert |t| == d.pos - p;
        assert t[0] == s[p];
        assert |t| > 1 ==> t[1] == s[p + 1];
        assert |t| > 2 ==> t[2] == s[p + 2];
        assert |t| > 3 ==> t[3] == s[p + 3];
      }
      CharIsEncoding(t);
      DecodeLocal(s, p, d.pos);
    }
    if n :| p <= n <= |s| && UTF8Char(s[p..n]) {
      CharIsEncoding(s[p..n]);
      DecodeLocal(s, p, n);
    }
  }

  /** Decoding looks at no unit outside the sequence it takes. */
  lemma DecodeLocal(s: Text, p: nat, n: nat)
    requires p < n <= |s| && UTF8Char(s[p..n])
    ensures var d := Decode(s[p..n], 0);
            Decode(s, p) == Decoded(d.ok, d.code, p + d.pos)
  {
    var t := s[p..n];
    CharIsEncoding(t);
    assert t[0] == s[p];
    assert |t| > 1 ==> t[1] == s[p + 1];
    assert |t| > 2 ==> t[2] == s[p + 2];
    assert |t| > 3 ==> t[3] == s[p + 3];
  }

  /** The encoding of a scalar value is one production, and decoding it gives the value back. */
  lemma EncodeIsChar(c: nat)
    requires IsScalar(c)
    ensures UTF8Char(Encode(c)) && Decode(Encode(c), 0) == Decoded(true, c, |Encode(c)|)
  {
    if c <= 0x7F {
    } else if c <= 0x7FF {
      EncodeIsChar2(c);
    } else if c <= 0xFFFF {
      EncodeIsChar3(c);
    } else {
      EncodeIsChar4(c);
    }
  }

  lemma EncodeIsChar2(c: nat)
    requires 0x7F < c <= 0x7FF
    ensures UTF8Char(Encode(c)) && Decode(Encode(c), 0) == Decoded(true, c, |Encode(c)|)
  {
    CharIsEncoding(Encode(c));
  }

  lemma EncodeIsChar3(c: nat)
    requires IsScalar(c) && 0x7FF < c <= 0xFFFF
    ensures UTF8Char(Encode(c)) && Decode(Encode(c), 0) == Decoded(true, c, |Encode(c)|)
  {
    var s := Encode(c);
    var h, a, b := c / 4096, c / 64 % 64, c % 64;
    assert c / 64 == h * 64 + a;
    assert c == (h * 64 + a) * 64 + b;
    assert s == [0xE0 + h, 0x80 + a, 0x80 + b];
    assert GetRange(s[2]) in MASK_70;
    assert LeadBits(s[0]) == h;
    assert s[1] % 64 == a && s[2] % 64 == b;
  }

  lemma EncodeIsChar4(c: nat)
    requires 0xFFFF < c <= 0x10FFFF
    ensures UTF8Char(Encode(c)) && Decode(Encode(c), 0) == Decoded(true, c, |Encode(c)|)
  {
    var s := Encode(c);
    var h, a, b, d := c / 262144, c / 4096 % 64, c / 64 % 64, c % 64;
    assert c / 4096 == h * 64 + a;
    assert c / 64 == (h * 64 + a) * 64 + b;
    assert c == ((h * 64 + a) * 64 + b) * 64 + d;
    assert s == [0xF0 + h, 0x80 + a, 0x80 + b, 0x80 + d];
    assert GetRange(s[2]) in MASK_70 && GetRange(s[3]) in MASK_70;
    assert LeadBits(s[0]) == h;
    assert s[1] % 64 == a && s[2] % 64 == b && s[3] % 64 == d;
  }

  /** Decoding inverts encoding in any surrounding text. */
  lemma DecodeEncode(before: Text, c: nat, after: Text)
    requires IsScalar(c)
    ensures Decode(before + Encode(c) + after, |before|) == Decoded(true, c, |before| + |Encode(c)|)
  {
    var s := before + Encode(c) + after;
    EncodeIsChar(c);
    assert s[|before|..|before| + |Encode(c)|] == Encode(c);
    DecodeLocal(s, |before|, |before| + |Encode(c)|);
  }

  function EncodeAll(cs: seq<nat>): Text
    requires forall i | 0 <= i < |cs| :: IsScalar(cs[i])
  {
    if |cs| == 0 then [] else assert IsScalar(cs[0]); Encode(cs[0]) + EncodeAll(cs[1..])
  }

  datatype DecodedAll = Scalars(codes: seq<nat>) | Malformed

  /** Decoding from a position to the end of the text. */
  function DecodeAll(s: Text, p: nat): DecodedAll
    requires p <= |s|
    decreases |s| - p
  {
    if p == |s| then Scalars([])
    else
      var d := Decode(s, p);
      if !d.ok || d.pos > |s| then Malformed
      else match DecodeAll(s, d.pos)
        case Scalars(codes) => Scalars([d.code] + codes)
        case Malformed => Malformed
  }

  /** Decoding the concatenated encodings of any scalar sequence returns that sequence. */
  lemma {:induction false} DecodeAllEncodeAll(before: Text, cs: seq<nat>)
    requires forall i | 0 <= i < |cs| :: IsScalar(cs[i])
    ensures DecodeAll(before + EncodeAll(cs), |before|) == Scalars(cs)
    decreases |cs|
  {
    hide Decode, Encode;
    if |cs| > 0 {
      var e := Encode(cs[0]);
      DecodeEncode(before, cs[0], EncodeAll(cs[1..]));
      assert before + EncodeAll(cs) == before + e + EncodeAll(cs[1..]);
      DecodeAllEncodeAll(before + e, cs[1..]);
    }
  }

  /** A text that decodes is the encoding of what it decodes to. */
  lemma {:induction false} EncodeAllDecodeAll(s: Text, p: nat)
    requires p <= |s| && DecodeAll(s, p).Scalars?
    ensures forall c | c in DecodeAll(s, p).codes :: IsScalar(c)
    ensures EncodeAll(DecodeAll(s, p).codes) == s[p..]
    decreases |s| - p
  {
    hide Decode, Encode;
    if p < |s| {
      DecodeAcceptsExactlyUTF8(s, p);
      AcceptedInside(s, p);
      var d := Decode(s, p);
      EncodeAllDecodeAll(s, d.pos);
      assert s[p..] == s[p..d.pos] + s[d.pos..];
    }
  }

  predicate IsUTF8(s: Text) {
    DecodeAll(s, 0).Scalars?
  }

  // --------------------------------------------------------------- UTF-16

  function Lead(c: nat): nat
    requires 0x10000 <= c <= 0x10FFFF
  {
    (c - 0x10000) / 0x400 + 0xD800
  }

  function Trail(c: nat): nat
    requires 0x10000 <= c <= 0x10FFFF
  {
    (c - 0x10000) % 0x400 + 0xDC00
  }

  function Encode16(c: nat): seq<nat>
    requires IsScalar(c)
  {
    if c <= 0xFFFF then [c] else [Lead(c), Trail(c)]
  }

  function Unit16(s: seq<nat>, p: nat): nat {
    if p < |s| then s[p] else 0
  }

  function Decode16(s: seq<nat>, p: nat): Decoded {
    var c := Unit16(s, p);
    if c < 0xD800 || c > 0xDFFF then Decoded(true, c, p + 1)
    else if c <= 0xDBFF then
      var c1 := Unit16(s, p + 1);
      Decoded(0xDC00 <= c1 <= 0xDFFF, c % 0x400 * 0x400 + c1 % 0x400 + 0x10000, p + 2)
    else Decoded(false, 0, p + 1)
  }

  /** Section 2 of RFC 2781: the surrogate pair arithmetic is inverted by the decoder, and only by the pair itself. */
  lemma Decode16Inverse(before: seq<nat>, c: nat, after: seq<nat>)
    requires IsScalar(c)
    ensures Decode16(before + Encode16(c) + after, |before|) == Decoded(true, c, |before| + |Encode16(c)|)
  {
    var s := before + Encode16(c) + after;
    assert s[|before|] == Encode16(c)[0];
    if c > 0xFFFF {
      assert s[|before| + 1] == Trail(c);
      assert Lead(c) % 0x400 == (c - 0x10000) / 0x400;
      assert Trail(c) % 0x400 == (c - 0x10000) % 0x400;
    }
  }

  lemma Decode16AcceptsEncodings(s: seq<nat>, p: nat)
    requires p < |s| && s[p] <= 0xFFFF && Decode16(s, p).ok
    ensures var d := Decode16(s, p);
            IsScalar(d.code) && d.pos <= |s| && Encode16(d.code) == s[p..d.pos]
  {
    var d := Decode16(s, p);
    if s[p] >= 0xD800 && s[p] <= 0xDFFF {
      var hi, lo := s[p], s[p + 1];
      assert d.code - 0x10000 == hi % 0x400 * 0x400 + lo % 0x400;
      assert hi == 0xD800 + hi % 0x400 && lo == 0xDC00 + lo % 0x400;
      assert s[p..d.pos] == [hi, lo];
    } else {
      assert s[p..d.pos] == [s[p]];
    }
  }

  // -------------------------------------------------------------- streams

  /** A read cursor over a text. */
  class InputStream {
    const text: Text
    var pos: nat

    constructor (text: Text)
      ensures this.text == text && pos == 0
    {
      this.text := text;
      pos := 0;
    }

    method Take() returns (c: byte)
      modifies this
      ensures c == Peek(text, old(pos)) && pos == old(pos) + 1
    {
      c := Peek(text, pos);
      pos := pos + 1;
    }
  }

  /** A sink of code units. */
  class OutputStream {
    var out: Text

    constructor ()
      ensures out == []
    {
      out := [];
    }

    method Put(c: byte)
      modifies this
      ensures out == old(out) + [c]
    {
      out := out + [c];
    }
  }

  /** The units a stream delivers from position p up to q. */
  function Units(s: Text, p: nat, q: nat): Text
    requires p <= q
  {
    seq<byte>(q - p, i requires 0 <= i => Peek(s, p + i))
  }

  method EncodeTo(os: OutputStream, c: nat)
    requires c <= 0x10FFFF
    modifies os
    ensures os.out == old(os.out) + Encode(c)
  {
    if c <= 0x7F {
      os.Put(c);
    } else if c <= 0x7FF {
      os.Put(0xC0 + c / 64);
      os.Put(0x80 + c % 64);
    } else if c <= 0xFFFF {
      os.Put(0xE0 + c / 4096);
      os.Put(0x80 + c / 64 % 64);
      os.Put(0x80 + c % 64);
    } else {
      os.Put(0xF0 + c / 262144);
      os.Put(0x80 + c / 4096 % 64);
      os.Put(0x80 + c / 64 % 64);
      os.Put(0x80 + c % 64);
    }
  }

  method DecodeFrom(input: InputStream) returns (ok: bool, code: nat)
    modifies input
    ensures Decoded(ok, code, input.pos) == Decode(input.text, old(input.pos))
  {
    var c := input.Take();
    if c < 0x80 {
      return true, c;
    }
    var (n, mask) := Tail(GetRange(c));
    ok, code := n > 0, LeadBits(c);
    var i := 0;
    while i < n
      invariant 0 <= i <= n <= 3
      invariant input.pos == old(input.pos) + 1 + i
      invariant n > 0 ==> ok == ((i >= 1 ==> GetRange(Peek(input.text, old(input.pos) + 1)) in mask)
                                 && (i >= 2 ==> GetRange(Peek(input.text, old(input.pos) + 2)) in MASK_70)
                                 && (i >= 3 ==> GetRange(Peek(input.text, old(input.pos) + 3)) in MASK_70))
      invariant i == 0 ==> code == LeadBits(c)
      invariant i == 1 ==> code == LeadBits(c) * 64 + Peek(input.text, old(input.pos) + 1) % 64
      invariant i == 2 ==> code == (LeadBits(c) * 64 + Peek(input.text, old(input.pos) + 1) % 64) * 64
                                   + Peek(input.text, old(input.pos) + 2) % 64
      invariant i == 3 ==> code == ((LeadBits(c) * 64 + Peek(input.text, old(input.pos) + 1) % 64) * 64
                                    + Peek(input.text, old(input.pos) + 2) % 64) * 64
                                   + Peek(input.text, old(input.pos) + 3) % 64
    {
      var t := input.Take();
      code := code * 64 + t % 64;
      ok := ok && GetRange(t) in (if i == 0 then mask else MASK_70);
      i := i + 1;
    }
    if n == 0 {
      ok := false;
    }
  }

  /** Validation takes the units decoding takes, copies every one of them, and gives the same verdict. */
  method Validate(input: InputStream, output: OutputStream) returns (ok: bool)
    modifies input, output
    ensures ok == Decode(input.text, old(input.pos)).ok
    ensures input.pos == Decode(input.text, old(input.pos)).pos
    ensures output.out == old(output.out) + Units(input.text, old(input.pos), input.pos)
  {
    var p := input.pos;
    var c := input.Take();
    output.Put(c);
    var (n, mask) := Tail(GetRange(c));
    if c < 0x80 {
      return true;
    }
    ok := n > 0;
    var i := 0;
    while i < n
      invariant 0 <= i <= n <= 3
      invariant input.pos == p + 1 + i
      invariant n > 0 ==> ok == ((i >= 1 ==> GetRange(Peek(input.text, p + 1)) in mask)
                                 && (i >= 2 ==> GetRange(Peek(input.text, p + 2)) in MASK_70)
                                 && (i >= 3 ==> GetRange(Peek(input.text, p + 3)) in MASK_70))
      invariant output.out == old(output.out) + Units(input.text, p, input.pos)
    {
      var t := input.Take();
      output.Put(t);
      ok := ok && GetRange(t) in (if i == 0 then mask else MASK_70);
      i := i + 1;
    }
    if n == 0 {
      ok := false;
    }
  }
}
