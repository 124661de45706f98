/** The SCALE codec (Polkadot Protocol Specification, section A.2.2) for the types the mailboxes carry. */
module Scale {
  import opened Common

  datatype Parsed<+T> = Malformed | Parsed(value: T, rest: Bytes) {
    predicate IsFailure() {
      Malformed?
    }

    function PropagateFailure<U>(): Parsed<U>
      requires Malformed?
    {
      Malformed
    }

    function Extract(): (T, Bytes)
      requires Parsed?
    {
      (value, rest)
    }
  }

  // ---------- regrouping concatenations ----------

  lemma Glue(s: Bytes, a: Bytes, r: Bytes, b: Bytes, t: Bytes)
    requires s == a + r && r == b + t
    ensures s == a + b + t
  {
  }

  lemma Assoc(a: Bytes, b: Bytes, c: Bytes)
    ensures a + b + c == a + (b + c)
  {
  }

  lemma Split(s: Bytes)
    requires s != []
    ensures s == [s[0]] + s[1..]
  {
  }

  // ---------- fixed-width little-endian integers ----------

  function LittleEndian(n: nat, width: nat): (s: Bytes)
    ensures |s| == width
    decreases width
  {
    if width == 0 then [] else [n % 0x100] + LittleEndian(n / 0x100, width - 1)
  }

  function FromLittleEndian(s: Bytes): nat {
    if s == [] then 0 else s[0] + 0x100 * FromLittleEndian(s[1..])
  }

  function Range(width: nat): nat {
    if width == 0 then 1 else 0x100 * Range(width - 1)
  }

  lemma DivideByByte(low: byte, high: nat)
    ensures (low + 0x100 * high) % 0x100 == low && (low + 0x100 * high) / 0x100 == high
  {
  }

  lemma {:induction false} LittleEndianOf(s: Bytes)
    ensures FromLittleEndian(s) < Range(|s|) && LittleEndian(FromLittleEndian(s), |s|) == s
  {
    if s == [] {
    } else {
      LittleEndianOf(s[1..]);
      DivideByByte(s[0], FromLittleEndian(s[1..]));
      Split(s);
    }
  }

  lemma {:induction false} FromLittleEndianOf(n: nat, width: nat)
    requires n < Range(width)
    ensures FromLittleEndian(LittleEndian(n, width)) == n
  {
    if width == 0 {
    } else {
      FromLittleEndianOf(n / 0x100, width - 1);
    }
  }

  lemma Ranges()
    ensures Range(2) == 0x1_0000 && Range(4) == 0x1_0000_0000 && Range(8) == U64_RANGE
  {
    assert Range(1) == 0x100 && Range(3) == 0x100_0000;
    assert Range(5) == 0x100_0000_0000 && Range(6) == 0x1_0000_0000_0000 && Range(7) == 0x100_0000_0000_0000;
  }

  function EncodeU32(n: u32): Bytes {
    LittleEndian(n, 4)
  }

  function DecodeU32(s: Bytes): Parsed<u32> {
    if |s| < 4 then Malformed
    else
      LittleEndianOf(s[..4]); Ranges();
      Parsed(FromLittleEndian(s[..4]), s[4..])
  }

  lemma U32Exactly(s: Bytes, n: u32, rest: Bytes)
    ensures DecodeU32(s) == Parsed(n, rest) <==> s == EncodeU32(n) + rest
  {
    Ranges();
    FromLittleEndianOf(n, 4);
    if s == EncodeU32(n) + rest {
      assert s[..4] == EncodeU32(n) && s[4..] == rest;
    }
    if |s| >= 4 {
      LittleEndianOf(s[..4]);
      assert s == s[..4] + s[4..];
    }
  }

  // ---------- compact lengths ----------

  /** The four modes of a compact `u32`, chosen by magnitude. */
  function EncodeCompact(n: u32): Bytes {
    if n < 0x40 then [4 * n]
    else if n < 0x4000 then LittleEndian(4 * n + 1, 2)
    else if n < 0x4000_0000 then LittleEndian(4 * n + 2, 4)
    else [3] + LittleEndian(n, 4)
  }

  /** Rejects a value written in a longer mode than it needs, as the library does. */
  function DecodeCompact(s: Bytes): Parsed<u32> {
    Ranges();
    if s == [] then Malformed
    else
      match s[0] % 4
      case 0 => Parsed(s[0] / 4, s[1..])
      case 1 =>
        if |s| < 2 then Malformed
        else
          LittleEndianOf(s[..2]);
          var n := FromLittleEndian(s[..2]) / 4;
          if 0x40 <= n then Parsed(n, s[2..]) else Malformed
      case 2 =>
        if |s| < 4 then Malformed
        else
          LittleEndianOf(s[..4]);
          var n := FromLittleEndian(s[..4]) / 4;
          if 0x4000 <= n then Parsed(n, s[4..]) else Malformed
      case _ =>
        if s[0] != 3 || |s| < 5 then Malformed
        else
          LittleEndianOf(s[1..5]);
          var n := FromLittleEndian(s[1..5]);
          if 0x4000_0000 <= n then Parsed(n, s[5..]) else Malformed
  }

  lemma LowBits(s: Bytes)
    requires s != []
    ensures FromLittleEndian(s) % 4 == s[0] % 4
  {
    var high := FromLittleEndian(s[1..]);
    assert FromLittleEndian(s) == s[0] + 4 * (0x40 * high);
  }

  lemma ShortCompactDecodes(n: u32, rest: Bytes)
    requires n < 0x4000
    ensures DecodeCompact(EncodeCompact(n) + rest) == Parsed(n, rest)
  {
    Ranges();
    var e := EncodeCompact(n);
    var s := e + rest;
    assert s[..|e|] == e && s[|e|..] == rest;
    if n >= 0x40 {
      FromLittleEndianOf(4 * n + 1, 2);
      LowBits(e);
    }
  }

  lemma LongCompactDecodes(n: u32, rest: Bytes)
    requires n >= 0x4000
    ensures DecodeCompact(EncodeCompact(n) + rest) == Parsed(n, rest)
  {
    Ranges();
    var e := EncodeCompact(n);
    var s := e + rest;
    assert s[|e|..] == rest;
    if n < 0x4000_0000 {
      assert s[..4] == e;
      FromLittleEndianOf(4 * n + 2, 4);
      LowBits(e);
    } else {
      FromLittleEndianOf(n, 4);
      assert s[1..5] == LittleEndian(n, 4);
    }
  }

  lemma CompactDecodes(n: u32, rest: Bytes)
    ensures DecodeCompact(EncodeCompact(n) + rest) == Parsed(n, rest)
  {
    if n < 0x4000 { ShortCompactDecodes(n, rest); } else { LongCompactDecodes(n, rest); }
  }

  lemma CompactReencodes(s: Bytes)
    requires DecodeCompact(s).Parsed?
    ensures var p := DecodeCompact(s); s == EncodeCompact(p.value) + p.rest
  {
    Ranges();
    var mode := s[0] % 4;
    if mode == 0 {
      assert s == [s[0]] + s[1..];
    } else if mode == 1 {
      LittleEndianOf(s[..2]);
      LowBits(s[..2]);
      assert s == s[..2] + s[2..];
    } else if mode == 2 {
      LittleEndianOf(s[..4]);
      LowBits(s[..4]);
      assert s == s[..4] + s[4..];
    } else {
      LittleEndianOf(s[1..5]);
      assert s == [3] + s[1..5] + s[5..];
    }
  }

  /** Every length has one compact form in its shortest mode, and nothing else decodes to it. */
  lemma CompactExactly(s: Bytes, n: u32, rest: Bytes)
    ensures DecodeCompact(s) == Parsed(n, rest) <==> s == EncodeCompact(n) + rest
  {
    CompactDecodes(n, rest);
    if DecodeCompact(s).Parsed? { CompactReencodes(s); }
  }

  /** The number some bytes spell, least significant first. */
  function Spelled(s: Bytes): nat {
    if s == [] then 0 else s[0] as int + 256 * Spelled(s[1..])
  }

  lemma {:induction false} SpelledIs(s: Bytes)
    ensures Spelled(s) == FromLittleEndian(s)
  {
    if s == [] {
    } else {
      SpelledIs(s[1..]);
    }
  }

  /** The shortest of four modes, told apart by the two low bits: one, two or four bytes spelling 4n and the mode, or
      a byte 3 and then n in four. */
  lemma CompactLayout(n: u32)
    ensures var e := EncodeCompact(n);
            if n < 64 then e == [4 * n]
            else if n < 16384 then |e| == 2 && Spelled(e) == 4 * n + 1
            else if n < 1073741824 then |e| == 4 && Spelled(e) == 4 * n + 2
            else |e| == 5 && e[0] == 3 && Spelled(e[1..]) == n
  {
    Ranges();
    var e := EncodeCompact(n);
    SpelledIs(e);
    if n < 64 {
    } else if n < 16384 {
      FromLittleEndianOf(4 * n + 1, 2);
    } else if n < 1073741824 {
      FromLittleEndianOf(4 * n + 2, 4);
    } else {
      assert e[1..] == LittleEndian(n, 4);
      SpelledIs(e[1..]);
      FromLittleEndianOf(n, 4);
    }
  }

  lemma U32Layout(n: u32)
    ensures |EncodeU32(n)| == 4 && Spelled(EncodeU32(n)) == n
  {
    Ranges();
    SpelledIs(EncodeU32(n));
    FromLittleEndianOf(n, 4);
  }

  // ---------- Vec<u8> and Option<Vec<u8>> ----------

  /** A `Vec<u8>` longer than `u32::MAX` cannot be encoded. */
  predicate Encodable(v: Bytes) {
    |v| < 0x1_0000_0000
  }

  function EncodeBytes(v: Bytes): Bytes
    requires Encodable(v)
  {
    EncodeCompact(|v|) + v
  }

  function DecodeBytes(s: Bytes): Parsed<Bytes> {
    var (n, r) :- DecodeCompact(s);
    if n <= |r| then Parsed(r[..n], r[n..]) else Malformed
  }

  lemma BytesDecode(v: Bytes, rest: Bytes)
    requires Encodable(v)
    ensures DecodeBytes(EncodeBytes(v) + rest) == Parsed(v, rest)
  {
    Assoc(EncodeCompact(|v|), v, rest);
    CompactDecodes(|v|, v + rest);
    assert (v + rest)[..|v|] == v && (v + rest)[|v|..] == rest;
  }

  lemma BytesReencode(s: Bytes)
    requires DecodeBytes(s).Parsed?
    ensures var p := DecodeBytes(s); Encodable(p.value) && s == EncodeBytes(p.value) + p.rest
  {
    CompactReencodes(s);
    var n, r := DecodeCompact(s).value, DecodeCompact(s).rest;
    assert r == r[..n] + r[n..];
    Glue(s, EncodeCompact(n), r, r[..n], r[n..]);
  }

  lemma BytesExactly(s: Bytes, v: Bytes, rest: Bytes)
    ensures DecodeBytes(s) == Parsed(v, rest) <==> Encodable(v) && s == EncodeBytes(v) + rest
  {
    if DecodeBytes(s).Parsed? { BytesReencode(s); }
    if Encodable(v) { BytesDecode(v, rest); }
  }

  predicate OptionEncodable(o: Option<Bytes>) {
    o.Some? ==> Encodable(o.value)
  }

  function EncodeOption(o: Option<Bytes>): (s: Bytes)
    requires OptionEncodable(o)
  {
    match o
    case None => [0]
    case Some(v) => [1] + EncodeBytes(v)
  }

  function DecodeOption(s: Bytes): Parsed<Option<Bytes>> {
    if s == [] then Malformed
    else if s[0] == 0 then Parsed(None, s[1..])
    else if s[0] == 1 then
      var (v, r) :- DecodeBytes(s[1..]);
      Parsed(Some(v), r)
    else Malformed
  }

  lemma OptionDecodes(o: Option<Bytes>, rest: Bytes)
    requires OptionEncodable(o)
    ensures DecodeOption(EncodeOption(o) + rest) == Parsed(o, rest)
  {
    var s := EncodeOption(o) + rest;
    match o
    case None =>
      assert s[1..] == rest;
    case Some(v) =>
      Assoc([1], EncodeBytes(v), rest);
      BytesDecode(v, rest);
      assert ([1] + (EncodeBytes(v) + rest))[1..] == EncodeBytes(v) + rest;
  }

  lemma OptionReencodes(s: Bytes)
    requires DecodeOption(s).Parsed?
    ensures var p := DecodeOption(s); OptionEncodable(p.value) && s == EncodeOption(p.value) + p.rest
  {
    var p := DecodeOption(s);
    assert s == [s[0]] + s[1..];
    if s[0] == 1 {
      BytesReencode(s[1..]);
      Assoc([1], EncodeBytes(p.value.value), p.rest);
    }
  }

  // ---------- a run of optional fields, in declaration order ----------

  predicate AllEncodable(os: seq<Option<Bytes>>) {
    forall i :: 0 <= i < |os| ==> OptionEncodable(os[i])
  }

  function EncodeOptions(os: seq<Option<Bytes>>): Bytes
    requires AllEncodable(os)
  {
    if os == [] then [] else EncodeOption(os[0]) + EncodeOptions(os[1..])
  }

  function DecodeOptions(s: Bytes, count: nat): (p: Parsed<seq<Option<Bytes>>>)
    ensures p.Parsed? ==> |p.value| == count
  {
    if count == 0 then Parsed([], s)
    else
      var (o, r) :- DecodeOption(s);
      var (os, t) :- DecodeOptions(r, count - 1);
      Parsed([o] + os, t)
  }

  lemma {:induction false} OptionsDecode(os: seq<Option<Bytes>>, rest: Bytes)
    requires AllEncodable(os)
    ensures DecodeOptions(EncodeOptions(os) + rest, |os|) == Parsed(os, rest)
  {
    if os == [] {
      assert [] + rest == rest;
    } else {
      var tail := EncodeOptions(os[1..]) + rest;
      Assoc(EncodeOption(os[0]), EncodeOptions(os[1..]), rest);
      OptionDecodes(os[0], tail);
      OptionsDecode(os[1..], rest);
      assert [os[0]] + os[1..] == os;
    }
  }

  lemma EncodeOptionsCons(o: Option<Bytes>, os: seq<Option<Bytes>>)
    requires OptionEncodable(o) && AllEncodable(os)
    ensures AllEncodable([o] + os) && EncodeOptions([o] + os) == EncodeOption(o) + EncodeOptions(os)
  {
    assert ([o] + os)[1..] == os;
  }

  lemma {:induction false} OptionsReencode(s: Bytes, count: nat)
    requires DecodeOptions(s, count).Parsed?
    ensures var p := DecodeOptions(s, count); AllEncodable(p.value) && s == EncodeOptions(p.value) + p.rest
    decreases count
  {
    if count == 0 {
      assert s == [] + s;
    } else {
      var first := DecodeOption(s);
      var others := DecodeOptions(first.rest, count - 1);
      assert DecodeOptions(s, count) == Parsed([first.value] + others.value, others.rest);
      OptionReencodes(s);
      OptionsReencode(first.rest, count - 1);
      EncodeOptionsCons(first.value, others.value);
      Glue(s, EncodeOption(first.value), first.rest, EncodeOptions(others.value), others.rest);
    }
  }
}
