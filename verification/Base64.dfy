/** Base64 with padding (section 4 of RFC 4648): the text mode of a gRPC-Web body. */
module Base64 {
  import opened Common

  const PADDING: byte := '=' as int

  function Symbol(v: nat): byte
    requires v < 0x40
  {
    if v < 26 then 'A' as int + v
    else if v < 52 then 'a' as int + (v - 26)
    else if v < 62 then '0' as int + (v - 52)
    else if v == 62 then '+' as int
    else '/' as int
  }

  function ValueOf(symbol: byte): (v: Option<nat>)
    ensures v.Some? ==> v.value < 0x40
  {
    var c: int := symbol;
    if 'A' as int <= c <= 'Z' as int then Some(c - 'A' as int)
    else if 'a' as int <= c <= 'z' as int then Some(c - 'a' as int + 26)
    else if '0' as int <= c <= '9' as int then Some(c - '0' as int + 52)
    else if c == '+' as int then Some(62)
    else if c == '/' as int then Some(63)
    else None
  }

  lemma SymbolsExactly(c: byte, v: nat)
    requires v < 0x40
    ensures ValueOf(c) == Some(v) <==> c == Symbol(v)
    ensures Symbol(v) != PADDING
  {
  }

  function Encode(b: Bytes): Bytes {
    if b == [] then []
    else if |b| == 1 then
      [Symbol(b[0] / 4), Symbol(b[0] % 4 * 16), PADDING, PADDING]
    else if |b| == 2 then
      [Symbol(b[0] / 4), Symbol(b[0] % 4 * 16 + b[1] / 16), Symbol(b[1] % 16 * 4), PADDING]
    else
      EncodeTriple(b[0], b[1], b[2]) + Encode(b[3..])
  }

  function EncodeTriple(x: byte, y: byte, z: byte): Bytes {
    [Symbol(x / 4), Symbol(x % 4 * 16 + y / 16), Symbol(y % 16 * 4 + z / 64), Symbol(z % 64)]
  }

  /** The bytes behind one group of four symbols; padding is legal only where nothing follows, and the bits it
      drops must be zero. */
  function DecodeGroup(s0: byte, s1: byte, s2: byte, s3: byte, last: bool): Option<Bytes> {
    match (ValueOf(s0), ValueOf(s1), ValueOf(s2), ValueOf(s3))
    case (Some(a), Some(b), Some(c), Some(d)) => Some([a * 4 + b / 16, b % 16 * 16 + c / 4, c % 4 * 64 + d])
    case (Some(a), Some(b), Some(c), None) =>
      if last && s3 == PADDING && c % 4 == 0 then Some([a * 4 + b / 16, b % 16 * 16 + c / 4]) else None
    case (Some(a), Some(b), None, None) =>
      if last && s2 == PADDING && s3 == PADDING && b % 16 == 0 then Some([a * 4 + b / 16]) else None
    case _ => None
  }

  function Decode(s: Bytes): Option<Bytes> {
    if s == [] then Some([])
    else if |s| < 4 then None
    else
      match (DecodeGroup(s[0], s[1], s[2], s[3], |s| == 4), Decode(s[4..]))
      case (Some(head), Some(tail)) => Some(head + tail)
      case _ => None
  }

  lemma GroupOfTriple(x: byte, y: byte, z: byte, last: bool)
    ensures var e := EncodeTriple(x, y, z); DecodeGroup(e[0], e[1], e[2], e[3], last) == Some([x, y, z])
  {
    var a, b, c, d := x / 4, x % 4 * 16 + y / 16, y % 16 * 4 + z / 64, z % 64;
    SymbolsExactly(Symbol(a), a);
    SymbolsExactly(Symbol(b), b);
    SymbolsExactly(Symbol(c), c);
    SymbolsExactly(Symbol(d), d);
    assert b / 16 == x % 4 && b % 16 == y / 16 && c / 4 == y % 16 && c % 4 == z / 64;
    assert a * 4 + b / 16 == x && b % 16 * 16 + c / 4 == y && c % 4 * 64 + d == z;
  }

  lemma LastGroup(s: Bytes, b: Bytes)
    requires |s| == 4 && DecodeGroup(s[0], s[1], s[2], s[3], true) == Some(b)
    ensures Decode(s) == Some(b)
  {
    assert Decode(s[4..]) == Some([]);
    assert b + [] == b;
  }

  lemma SingleDecodes(x: byte)
    ensures Decode(Encode([x])) == Some([x])
  {
    SymbolsExactly(Symbol(x / 4), x / 4);
    SymbolsExactly(Symbol(x % 4 * 16), x % 4 * 16);
    LastGroup(Encode([x]), [x]);
  }

  lemma PairDecodes(x: byte, y: byte)
    ensures Decode(Encode([x, y])) == Some([x, y])
  {
    var mid, low := x % 4 * 16 + y / 16, y % 16 * 4;
    SymbolsExactly(Symbol(x / 4), x / 4);
    SymbolsExactly(Symbol(mid), mid);
    SymbolsExactly(Symbol(low), low);
    assert mid / 16 == x % 4 && mid % 16 == y / 16 && low / 4 == y % 16 && low % 4 == 0;
    LastGroup(Encode([x, y]), [x, y]);
  }

  /** Text mode loses nothing: decoding the encoding of any byte sequence returns it. */
  lemma {:induction false} DecodesEncoding(b: Bytes)
    ensures Decode(Encode(b)) == Some(b)
  {
    if |b| == 1 {
      SingleDecodes(b[0]);
      assert [b[0]] == b;
    } else if |b| == 2 {
      PairDecodes(b[0], b[1]);
      assert [b[0], b[1]] == b;
    } else if |b| > 2 {
      GroupOfTriple(b[0], b[1], b[2], |Encode(b)| == 4);
      DecodesEncoding(b[3..]);
      assert Encode(b)[4..] == Encode(b[3..]);
      assert [b[0], b[1], b[2]] + b[3..] == b;
    }
  }

  lemma TripleOfGroup(s0: byte, s1: byte, s2: byte, s3: byte, last: bool)
    requires DecodeGroup(s0, s1, s2, s3, last).Some?
    ensures var r := DecodeGroup(s0, s1, s2, s3, last).value;
            1 <= |r| <= 3 && (|r| < 3 ==> last) && Encode(r) == [s0, s1, s2, s3]
  {
    var r := DecodeGroup(s0, s1, s2, s3, last).value;
    var a, b := ValueOf(s0).value, ValueOf(s1).value;
    SymbolsExactly(s0, a);
    SymbolsExactly(s1, b);
    assert b == b / 16 * 16 + b % 16 && r[0] / 4 == a && r[0] % 4 == b / 16;
    if |r| > 1 {
      var c := ValueOf(s2).value;
      SymbolsExactly(s2, c);
      assert c == c / 4 * 4 + c % 4 && r[1] / 16 == b % 16 && r[1] % 16 == c / 4;
      if |r| > 2 {
        var d := ValueOf(s3).value;
        SymbolsExactly(s3, d);
        assert r[2] / 64 == c % 4 && r[2] % 64 == d;
        assert Encode(r[3..]) == [];
        assert Encode(r) == EncodeTriple(r[0], r[1], r[2]);
      }
    }
  }

  lemma {:induction false} EncodesDecoded(s: Bytes)
    requires Decode(s).Some?
    ensures Encode(Decode(s).value) == s
  {
    if s == [] {
    } else {
      TripleOfGroup(s[0], s[1], s[2], s[3], |s| == 4);
      EncodesDecoded(s[4..]);
      var head, tail := DecodeGroup(s[0], s[1], s[2], s[3], |s| == 4).value, Decode(s[4..]).value;
      assert s == [s[0], s[1], s[2], s[3]] + s[4..];
      if |head| == 3 {
        assert head[3..] == [] && (head + tail)[3..] == tail;
        assert head == [head[0], head[1], head[2]];
      } else {
        assert s[4..] == [] && head + tail == head;
      }
    }
  }

  /** The decoder accepts exactly the encoder's output, each text for one byte sequence. */
  lemma DecodesExactly(s: Bytes, b: Bytes)
    ensures Decode(s) == Some(b) <==> s == Encode(b)
  {
    DecodesEncoding(b);
    if Decode(s).Some? { EncodesDecoded(s); }
  }

  // ---------- the text, bit by bit ----------

  /** Table 1 of RFC 4648: A to Z, a to z, 0 to 9, plus and slash. */
  predicate InTable(v: nat, symbol: int) {
    || (v < 26 && symbol == 65 + v)
    || (26 <= v < 52 && symbol == 97 + v - 26)
    || (52 <= v < 62 && symbol == 48 + v - 52)
    || (v == 62 && symbol == 43)
    || (v == 63 && symbol == 47)
  }

  lemma SymbolIsInTable(v: nat)
    requires v < 64
    ensures InTable(v, Symbol(v))
  {
  }

  /** The number four symbols spell, most significant first. */
  function Spelled(v0: nat, v1: nat, v2: nat, v3: nat): nat {
    v0 * 0x4_0000 + v1 * 0x1000 + v2 * 0x40 + v3
  }

  /** Four characters: the first ones are the symbols of these values, the rest padding. */
  ghost predicate IsGroup(e: Bytes, v: seq<nat>, symbols: nat) {
    && |e| == |v| == 4 && 2 <= symbols <= 4
    && (forall k :: 0 <= k < symbols ==> v[k] < 64 && InTable(v[k], e[k]))
    && (forall k :: symbols <= k < 4 ==> v[k] == 0 && e[k] == 61)
  }

  lemma TripleSpelled(x: byte, y: byte, z: byte)
    ensures Spelled(x / 4, x % 4 * 16 + y / 16, y % 16 * 4 + z / 64, z % 64)
            == x as int * 0x1_0000 + y as int * 0x100 + z as int
  {
    assert x == x / 4 * 4 + x % 4 && y == y / 16 * 16 + y % 16 && z == z / 64 * 64 + z % 64;
  }

  lemma ThreeSpelled(x: byte, y: byte, z: byte) returns (v: seq<nat>)
    ensures IsGroup(EncodeTriple(x, y, z), v, 4)
    ensures Spelled(v[0], v[1], v[2], v[3]) == x as int * 0x1_0000 + y as int * 0x100 + z as int
  {
    v := [x / 4, x % 4 * 16 + y / 16, y % 16 * 4 + z / 64, z % 64];
    SymbolIsInTable(v[0]);
    SymbolIsInTable(v[1]);
    SymbolIsInTable(v[2]);
    SymbolIsInTable(v[3]);
    TripleSpelled(x, y, z);
    hide Symbol, InTable, Spelled;
  }

  lemma TwoSpelled(x: byte, y: byte) returns (v: seq<nat>)
    ensures IsGroup(Encode([x, y]), v, 3)
    ensures Spelled(v[0], v[1], v[2], v[3]) == x as int * 0x1_0000 + y as int * 0x100
  {
    v := [x / 4, x % 4 * 16 + y / 16, y % 16 * 4, 0];
    SymbolIsInTable(v[0]);
    SymbolIsInTable(v[1]);
    SymbolIsInTable(v[2]);
    TripleSpelled(x, y, 0);
    hide Symbol, InTable, Spelled;
  }

  lemma OneSpelled(x: byte) returns (v: seq<nat>)
    ensures IsGroup(Encode([x]), v, 2)
    ensures Spelled(v[0], v[1], v[2], v[3]) == x as int * 0x1_0000
  {
    v := [x / 4, x % 4 * 16, 0, 0];
    SymbolIsInTable(v[0]);
    SymbolIsInTable(v[1]);
    TripleSpelled(x, 0, 0);
    hide Symbol, InTable, Spelled;
  }

  lemma FourSymbols(x: byte, y: byte, z: byte)
    ensures |EncodeTriple(x, y, z)| == 4
  {
  }

  /** The text, group by group: three bytes, read as one number, are the four symbols read as one; a rest of two or
      one is filled up with zero bits and marked by padding. */
  lemma EncodesBits(b: Bytes) returns (v: seq<nat>)
    requires b != []
    ensures |v| == 4 && |Encode(b)| >= 4
    ensures IsGroup(Encode(b)[..4], v, if |b| >= 3 then 4 else |b| + 1)
    ensures Encode(b)[4..] == if |b| >= 3 then Encode(b[3..]) else []
    ensures Spelled(v[0], v[1], v[2], v[3])
            == b[0] as int * 0x1_0000 + (if |b| > 1 then b[1] as int else 0) * 0x100
               + if |b| > 2 then b[2] as int else 0
  {
    if |b| == 1 {
      assert b == [b[0]];
      v := OneSpelled(b[0]);
      hide Spelled, InTable, Symbol;
      assert Encode(b)[..4] == Encode(b);
    } else if |b| == 2 {
      assert b == [b[0], b[1]];
      v := TwoSpelled(b[0], b[1]);
      hide Spelled, InTable, Symbol;
      assert Encode(b)[..4] == Encode(b);
    } else {
      v := ThreeSpelled(b[0], b[1], b[2]);
      hide Spelled, IsGroup, EncodeTriple;
      var head := EncodeTriple(b[0], b[1], b[2]);
      assert |head| == 4 by { FourSymbols(b[0], b[1], b[2]); }
      assert Encode(b) == head + Encode(b[3..]);
      assert Encode(b)[..4] == head;
    }
  }
}
