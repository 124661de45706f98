/** UTF-8 as section 3 of RFC 3629 defines it: the well-formedness check behind every `str::from_utf8`. */
module Utf8 {
  import opened Common

  predicate IsScalar(c: int) {
    0 <= c < 0xD800 || 0xE000 <= c < 0x11_0000
  }

  predicate IsTail(b: byte) {
    0x80 <= b < 0xC0
  }

  /** The six payload bits of a continuation byte. */
  function Low(b: byte): int {
    var n: int := b;
    n - 0x80
  }

  datatype Sequence = IllFormed | Sequence(scalar: nat, width: nat)

  /** Reads the first character of a non-empty byte string. */
  function FirstChar(s: Bytes): (r: Sequence)
    requires s != []
    ensures r.Sequence? ==> 1 <= r.width <= |s| && IsScalar(r.scalar)
  {
    var b: int := s[0];
    if b < 0x80 then
      Sequence(b, 1)
    else if 0xC2 <= b < 0xE0 && |s| >= 2 && IsTail(s[1]) then
      Sequence((b - 0xC0) * 0x40 + Low(s[1]), 2)
    else if 0xE0 <= b < 0xF0 && |s| >= 3 && IsTail(s[1]) && IsTail(s[2])
            && (b == 0xE0 ==> 0xA0 <= s[1]) && (b == 0xED ==> s[1] < 0xA0) then
      Sequence((b - 0xE0) * 0x1000 + Low(s[1]) * 0x40 + Low(s[2]), 3)
    else if 0xF0 <= b < 0xF5 && |s| >= 4 && IsTail(s[1]) && IsTail(s[2]) && IsTail(s[3])
            && (b == 0xF0 ==> 0x90 <= s[1]) && (b == 0xF4 ==> s[1] < 0x90) then
      Sequence((b - 0xF0) * 0x4_0000 + Low(s[1]) * 0x1000 + Low(s[2]) * 0x40 + Low(s[3]), 4)
    else
      IllFormed
  }

  /** The characters of `s`, or `None` where `from_utf8` returns an error. */
  function Decode(s: Bytes): Option<seq<nat>> {
    if s == [] then Some([])
    else
      match FirstChar(s)
      case IllFormed => None
      case Sequence(c, n) =>
        match Decode(s[n..])
        case None => None
        case Some(cs) => Some([c] + cs)
  }

  predicate IsUtf8(s: Bytes) {
    Decode(s).Some?
  }

  function EncodeChar(c: nat): (s: Bytes)
    requires IsScalar(c)
    ensures 1 <= |s| <= 4
  {
    if c < 0x80 then [c]
    else if c < 0x800 then [0xC0 + c / 0x40, 0x80 + c % 0x40]
    else if c < 0x1_0000 then [0xE0 + c / 0x1000, 0x80 + c / 0x40 % 0x40, 0x80 + c % 0x40]
    else [0xF0 + c / 0x4_0000, 0x80 + c / 0x1000 % 0x40, 0x80 + c / 0x40 % 0x40, 0x80 + c % 0x40]
  }

  /** Section 3 of RFC 3629: how many bytes a character takes, and which number its bytes spell. */
  lemma CharLayout(c: nat)
    requires IsScalar(c)
    ensures c < 0xD800 || 0xDFFF < c <= 0x10_FFFF
    ensures var e := EncodeChar(c);
            if c <= 0x7F then |e| == 1 && e[0] == c
            else if c <= 0x7FF then
              && |e| == 2 && 0xC0 <= e[0] <= 0xDF && 0x80 <= e[1] <= 0xBF
              && (e[0] as int - 0xC0) * 0x40 + (e[1] as int - 0x80) == c
            else if c <= 0xFFFF then
              && |e| == 3 && 0xE0 <= e[0] <= 0xEF && 0x80 <= e[1] <= 0xBF && 0x80 <= e[2] <= 0xBF
              && (e[0] as int - 0xE0) * 0x1000 + (e[1] as int - 0x80) * 0x40 + (e[2] as int - 0x80) == c
            else
              && |e| == 4 && 0xF0 <= e[0] <= 0xF7
              && 0x80 <= e[1] <= 0xBF && 0x80 <= e[2] <= 0xBF && 0x80 <= e[3] <= 0xBF
              && (e[0] as int - 0xF0) * 0x4_0000 + (e[1] as int - 0x80) * 0x1000
                 + (e[2] as int - 0x80) * 0x40 + (e[3] as int - 0x80) == c
  {
    Digits(c);
  }

  ghost predicate AllScalars(cs: seq<nat>) {
    forall i :: 0 <= i < |cs| ==> IsScalar(cs[i])
  }

  function Encode(cs: seq<nat>): Bytes
    requires AllScalars(cs)
  {
    if cs == [] then [] else EncodeChar(cs[0]) + Encode(cs[1..])
  }

  /** The base-64 digits of a scalar value put together again. */
  lemma Digits(c: nat)
    ensures c == c / 0x40 * 0x40 + c % 0x40
    ensures c == c / 0x1000 * 0x1000 + c / 0x40 % 0x40 * 0x40 + c % 0x40
    ensures c == c / 0x4_0000 * 0x4_0000 + c / 0x1000 % 0x40 * 0x1000 + c / 0x40 % 0x40 * 0x40 + c % 0x40
  {
    var q := c / 0x40;
    assert q == q / 0x40 * 0x40 + q % 0x40;
    assert q / 0x40 == c / 0x1000;
    var p := q / 0x40;
    assert p == p / 0x40 * 0x40 + p % 0x40;
    assert p / 0x40 == c / 0x4_0000;
  }

  lemma FirstCharOfEncoding(c: nat, rest: Bytes)
    requires IsScalar(c)
    ensures FirstChar(EncodeChar(c) + rest) == Sequence(c, |EncodeChar(c)|)
  {
    Digits(c);
  }

  lemma DivideBy64(n: nat, q: nat, r: nat)
    requires r < 0x40 && n == q * 0x40 + r
    ensures n / 0x40 == q && n % 0x40 == r
  {
  }

  /** Digits with known bounds are the digits of the number they make. */
  lemma DigitsUnique(c: nat, d0: nat, d1: nat, d2: nat, d3: nat)
    requires d0 < 0x40 && d1 < 0x40 && d2 < 0x40
    requires c == d3 * 0x4_0000 + d2 * 0x1000 + d1 * 0x40 + d0
    ensures c % 0x40 == d0 && c / 0x40 % 0x40 == d1 && c / 0x1000 % 0x40 == d2 && c / 0x4_0000 == d3
    ensures c / 0x40 == d3 * 0x1000 + d2 * 0x40 + d1 && c / 0x1000 == d3 * 0x40 + d2
  {
    var high, top := d3 * 0x40 + d2, d3 * 0x1000 + d2 * 0x40 + d1;
    DivideBy64(c, top, d0);
    DivideBy64(top, high, d1);
    DivideBy64(high, d3, d2);
    assert c / 0x1000 == c / 0x40 / 0x40 && c / 0x4_0000 == c / 0x1000 / 0x40;
  }

  lemma FirstCharReencodes(s: Bytes)
    requires s != [] && FirstChar(s).Sequence?
    ensures var r := FirstChar(s); EncodeChar(r.scalar) == s[..r.width]
  {
    var b: int := s[0];
    var r := FirstChar(s);
    if r.width == 2 {
      DigitsUnique(r.scalar, Low(s[1]), b - 0xC0, 0, 0);
    } else if r.width == 3 {
      DigitsUnique(r.scalar, Low(s[2]), Low(s[1]), b - 0xE0, 0);
    } else if r.width == 4 {
      DigitsUnique(r.scalar, Low(s[3]), Low(s[2]), Low(s[1]), b - 0xF0);
    }
  }

  lemma {:induction false} DecodedReencodes(s: Bytes)
    requires IsUtf8(s)
    ensures AllScalars(Decode(s).value) && Encode(Decode(s).value) == s
  {
    hide FirstChar, EncodeChar;
    if s == [] {
    } else {
      var r := FirstChar(s);
      var cs := Decode(s[r.width..]).value;
      assert Decode(s).value == [r.scalar] + cs;
      DecodedReencodes(s[r.width..]);
      FirstCharReencodes(s);
      assert ([r.scalar] + cs)[1..] == cs;
    }
  }

  lemma {:induction false} EncodedDecodes(cs: seq<nat>)
    requires AllScalars(cs)
    ensures Decode(Encode(cs)) == Some(cs)
  {
    hide FirstChar, EncodeChar;
    if cs == [] {
    } else {
      var e, rest := EncodeChar(cs[0]), Encode(cs[1..]);
      FirstCharOfEncoding(cs[0], rest);
      assert (e + rest)[|e|..] == rest;
      EncodedDecodes(cs[1..]);
      assert [cs[0]] + cs[1..] == cs;
    }
  }

  /** The decoder accepts exactly the encodings of scalar values, and is inverse to the encoder. */
  lemma DecodesExactlyEncodings(s: Bytes, cs: seq<nat>)
    ensures Decode(s) == Some(cs) <==> AllScalars(cs) && s == Encode(cs)
  {
    if IsUtf8(s) { DecodedReencodes(s); }
    if AllScalars(cs) { EncodedDecodes(cs); }
  }

  /** ASCII bytes are their own characters, and a character of 0x80 or above appears as soon as one byte is. */
  lemma {:induction false} AsciiDecodesToItself(s: Bytes)
    requires forall i :: 0 <= i < |s| ==> s[i] < 0x80
    ensures Decode(s) == Some(s)
  {
    if s == [] {
    } else {
      AsciiDecodesToItself(s[1..]);
      assert s == [s[0]] + s[1..];
    }
  }

  lemma {:induction false} HighByteGivesHighChar(s: Bytes, i: nat)
    requires i < |s| && s[i] >= 0x80
    requires Decode(s).Some?
    ensures exists k :: 0 <= k < |Decode(s).value| && Decode(s).value[k] >= 0x80
  {
    var cs := Decode(s).value;
    var r := FirstChar(s);
    if s[0] >= 0x80 {
      assert cs[0] == r.scalar >= 0x80;
    } else {
      assert s[1..][i - 1] == s[i];
      HighByteGivesHighChar(s[1..], i - 1);
      var k :| 0 <= k < |cs[1..]| && cs[1..][k] >= 0x80;
      assert cs[k + 1] >= 0x80;
    }
  }
}
