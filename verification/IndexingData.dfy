/** The two job records the extrinsics write and the workers parse back, in their derived SCALE form. */
module IndexingData {
  import opened Common
  import opened Scale

  datatype GarbleKind = GarbleStandard | GarbleAndStrip

  /** pallets/ocw-garble: the kind comes second, six optional fields after it. */
  datatype Garble = Garble(
    blockNumber: u32,
    kind: GarbleKind,
    skcdCid: Option<Bytes>,
    messageSkcdCid: Option<Bytes>,
    pinpadSkcdCid: Option<Bytes>,
    txMsg: Option<Bytes>,
    messageDigits: Option<Bytes>,
    pinpadDigits: Option<Bytes>)

  const GARBLE_DEFAULT := Garble(0, GarbleStandard, None, None, None, None, None, None)

  datatype CircuitsKind = Generic | Display

  /** pallets/ocw-circuits: the optional field comes first, the kind last. */
  datatype Circuits = Circuits(verilogHash: Option<Bytes>, blockNumber: u32, kind: CircuitsKind)

  const CIRCUITS_DEFAULT := Circuits(None, 0, Generic)

  // ---------- garble ----------

  function Fields(d: Garble): seq<Option<Bytes>> {
    [d.skcdCid, d.messageSkcdCid, d.pinpadSkcdCid, d.txMsg, d.messageDigits, d.pinpadDigits]
  }

  function FromFields(n: u32, kind: GarbleKind, f: seq<Option<Bytes>>): (d: Garble)
    requires |f| == 6
    ensures Fields(d) == f && d.blockNumber == n && d.kind == kind
  {
    Garble(n, kind, f[0], f[1], f[2], f[3], f[4], f[5])
  }

  function KindByte(kind: GarbleKind): byte {
    if kind.GarbleStandard? then 0 else 1
  }

  predicate GarbleEncodable(d: Garble) {
    AllEncodable(Fields(d))
  }

  function EncodeGarble(d: Garble): Bytes
    requires GarbleEncodable(d)
  {
    EncodeU32(d.blockNumber) + [KindByte(d.kind)] + EncodeOptions(Fields(d))
  }

  function DecodeGarble(s: Bytes): Parsed<Garble> {
    var (n, r) :- DecodeU32(s);
    if r == [] || r[0] > 1 then Malformed
    else
      var (f, t) :- DecodeOptions(r[1..], 6);
      Parsed(FromFields(n, if r[0] == 0 then GarbleStandard else GarbleAndStrip, f), t)
  }

  lemma TailDecodes(d: Garble, kind: byte, tail: Bytes, rest: Bytes)
    requires kind == KindByte(d.kind) && DecodeOptions(tail, 6) == Parsed(Fields(d), rest)
    ensures DecodeGarble(EncodeU32(d.blockNumber) + ([kind] + tail)) == Parsed(d, rest)
  {
    U32Exactly(EncodeU32(d.blockNumber) + ([kind] + tail), d.blockNumber, [kind] + tail);
    hide EncodeU32, DecodeU32, DecodeOptions;
    assert ([kind] + tail)[1..] == tail;
  }

  lemma GarbleDecodes(d: Garble, rest: Bytes)
    requires GarbleEncodable(d)
    ensures DecodeGarble(EncodeGarble(d) + rest) == Parsed(d, rest)
  {
    var number, kind: Bytes, fields := EncodeU32(d.blockNumber), [KindByte(d.kind)], EncodeOptions(Fields(d));
    Assoc(number + kind, fields, rest);
    Assoc(number, kind, fields + rest);
    OptionsDecode(Fields(d), rest);
    hide EncodeU32, EncodeOptions, DecodeOptions, DecodeGarble, AllEncodable;
    TailDecodes(d, KindByte(d.kind), fields + rest, rest);
  }

  lemma GarbleReencodes(s: Bytes)
    requires DecodeGarble(s).Parsed?
    ensures var p := DecodeGarble(s); GarbleEncodable(p.value) && s == EncodeGarble(p.value) + p.rest
  {
    var head := DecodeU32(s);
    U32Exactly(s, head.value, head.rest);
    var r := head.rest;
    OptionsReencode(r[1..], 6);
    var p := DecodeGarble(s);
    var fields := EncodeOptions(Fields(p.value));
    assert Fields(p.value) == DecodeOptions(r[1..], 6).value;
    Split(r);
    Glue(r, [r[0]], r[1..], fields, p.rest);
    Glue(s, EncodeU32(head.value), r, [r[0]] + fields, p.rest);
    Assoc(EncodeU32(head.value), [r[0]], fields);
  }

  /** Encoding and decoding a garble job are inverse, for every record and whatever bytes follow. */
  lemma GarbleExactly(s: Bytes, d: Garble, rest: Bytes)
    ensures DecodeGarble(s) == Parsed(d, rest) <==> GarbleEncodable(d) && s == EncodeGarble(d) + rest
  {
    if DecodeGarble(s) == Parsed(d, rest) { GarbleReencodes(s); }
    if GarbleEncodable(d) { GarbleDecodes(d, rest); }
  }

  // ---------- circuits ----------

  predicate CircuitsEncodable(d: Circuits) {
    OptionEncodable(d.verilogHash)
  }

  function EncodeCircuits(d: Circuits): Bytes
    requires CircuitsEncodable(d)
  {
    EncodeOption(d.verilogHash) + EncodeU32(d.blockNumber) + [if d.kind.Generic? then 0 else 1]
  }

  function DecodeCircuits(s: Bytes): Parsed<Circuits> {
    var (verilog, r) :- DecodeOption(s);
    var (n, t) :- DecodeU32(r);
    if t == [] || t[0] > 1 then Malformed
    else Parsed(Circuits(verilog, n, if t[0] == 0 then Generic else Display), t[1..])
  }

  lemma CircuitsDecodes(d: Circuits, rest: Bytes)
    requires CircuitsEncodable(d)
    ensures DecodeCircuits(EncodeCircuits(d) + rest) == Parsed(d, rest)
  {
    var option, number := EncodeOption(d.verilogHash), EncodeU32(d.blockNumber);
    var kind: Bytes := [if d.kind.Generic? then 0 else 1];
    Assoc(option + number, kind, rest);
    Assoc(option, number, kind + rest);
    OptionDecodes(d.verilogHash, number + (kind + rest));
    U32Exactly(number + (kind + rest), d.blockNumber, kind + rest);
    hide EncodeOption, DecodeOption, EncodeU32, DecodeU32;
    assert (kind + rest)[1..] == rest;
  }

  lemma CircuitsReencodes(s: Bytes)
    requires DecodeCircuits(s).Parsed?
    ensures var p := DecodeCircuits(s); CircuitsEncodable(p.value) && s == EncodeCircuits(p.value) + p.rest
  {
    var first := DecodeOption(s);
    OptionReencodes(s);
    var second := DecodeU32(first.rest);
    U32Exactly(first.rest, second.value, second.rest);
    var t := second.rest;
    Split(t);
    Glue(first.rest, EncodeU32(second.value), t, [t[0]], t[1..]);
    Glue(s, EncodeOption(first.value), first.rest, EncodeU32(second.value) + [t[0]], t[1..]);
    Assoc(EncodeOption(first.value), EncodeU32(second.value), [t[0]]);
  }

  /** The same for a circuits job, whose fields come in another order. */
  lemma CircuitsExactly(s: Bytes, d: Circuits, rest: Bytes)
    ensures DecodeCircuits(s) == Parsed(d, rest) <==> CircuitsEncodable(d) && s == EncodeCircuits(d) + rest
  {
    if DecodeCircuits(s).Parsed? { CircuitsReencodes(s); }
    if CircuitsEncodable(d) { CircuitsDecodes(d, rest); }
  }

  // ---------- the bytes of each job ----------

  /** A length and the bytes, behind the byte that says they are there. */
  function Present(v: Bytes): Bytes
    requires |v| < 0x1_0000_0000
  {
    [1] + EncodeCompact(|v|) + v
  }

  lemma OptionLayout(o: Option<Bytes>)
    requires OptionEncodable(o)
    ensures EncodeOption(o) == if o.None? then [0] else Present(o.value)
  {
    if o.Some? { Assoc([1], EncodeCompact(|o.value|), o.value); }
  }

  lemma One()
    ensures EncodeU32(0) == [0, 0, 0, 0] && EncodeU32(1) == [1, 0, 0, 0]
  {
    assert LittleEndian(0, 1) == [0] && LittleEndian(0, 2) == [0, 0] && LittleEndian(0, 3) == [0, 0, 0];
  }

  lemma ThreeOptions(a: Option<Bytes>, b: Option<Bytes>, c: Option<Bytes>, os: seq<Option<Bytes>>)
    requires OptionEncodable(a) && OptionEncodable(b) && OptionEncodable(c) && AllEncodable(os)
    ensures AllEncodable([a, b, c] + os)
    ensures EncodeOptions([a, b, c] + os)
            == EncodeOption(a) + (EncodeOption(b) + (EncodeOption(c) + EncodeOptions(os)))
  {
    EncodeOptionsCons(c, os);
    EncodeOptionsCons(b, [c] + os);
    EncodeOptionsCons(a, [b] + ([c] + os));
    hide EncodeOption, OptionEncodable, AllEncodable, EncodeOptions;
    assert [a] + ([b] + ([c] + os)) == [a, b, c] + os;
  }

  lemma SixOptions(a: Option<Bytes>, b: Option<Bytes>, c: Option<Bytes>, d: Option<Bytes>, e: Option<Bytes>,
                   f: Option<Bytes>)
    requires OptionEncodable(a) && OptionEncodable(b) && OptionEncodable(c)
    requires OptionEncodable(d) && OptionEncodable(e) && OptionEncodable(f)
    ensures AllEncodable([a, b, c, d, e, f])
    ensures EncodeOptions([a, b, c, d, e, f])
            == EncodeOption(a) + (EncodeOption(b) + (EncodeOption(c) + (EncodeOption(d) + (EncodeOption(e)
               + EncodeOption(f)))))
  {
    ThreeOptions(d, e, f, []);
    assert EncodeOptions([]) == [];
    hide EncodeOption, OptionEncodable, EncodeOptions;
    assert [d, e, f] + [] == [d, e, f];
    ThreeOptions(a, b, c, [d, e, f]);
    hide AllEncodable;
    assert [a, b, c] + [d, e, f] == [a, b, c, d, e, f];
    assert EncodeOption(f) + [] == EncodeOption(f);
  }

  /** The garble record: four bytes of block number, a byte for the kind, and the six fields in this order. */
  lemma GarbleLayout(d: Garble)
    requires GarbleEncodable(d)
    ensures OptionEncodable(d.skcdCid) && OptionEncodable(d.messageSkcdCid) && OptionEncodable(d.pinpadSkcdCid)
    ensures OptionEncodable(d.txMsg) && OptionEncodable(d.messageDigits) && OptionEncodable(d.pinpadDigits)
    ensures EncodeGarble(d)
            == EncodeU32(d.blockNumber) + [if d.kind == GarbleStandard then 0 else 1]
               + (EncodeOption(d.skcdCid) + (EncodeOption(d.messageSkcdCid) + (EncodeOption(d.pinpadSkcdCid)
               + (EncodeOption(d.txMsg) + (EncodeOption(d.messageDigits) + EncodeOption(d.pinpadDigits))))))
  {
    hide EncodeOption, OptionEncodable, EncodeU32;
    var f := Fields(d);
    assert f[0] == d.skcdCid && f[1] == d.messageSkcdCid && f[2] == d.pinpadSkcdCid;
    assert f[3] == d.txMsg && f[4] == d.messageDigits && f[5] == d.pinpadDigits;
    SixOptions(d.skcdCid, d.messageSkcdCid, d.pinpadSkcdCid, d.txMsg, d.messageDigits, d.pinpadDigits);
    assert f == [d.skcdCid, d.messageSkcdCid, d.pinpadSkcdCid, d.txMsg, d.messageDigits, d.pinpadDigits];
  }

  /** The circuits record: the optional field, four bytes of block number, a byte for the kind. */
  lemma CircuitsLayout(d: Circuits)
    requires CircuitsEncodable(d)
    ensures EncodeCircuits(d)
            == (if d.verilogHash.None? then [0] else Present(d.verilogHash.value)) + EncodeU32(d.blockNumber)
               + [if d.kind == Generic then 0 else 1]
  {
    OptionLayout(d.verilogHash);
  }

  /** What clearing writes: eleven zero bytes for garble, six for circuits. */
  lemma DefaultLayout()
    ensures GarbleEncodable(GARBLE_DEFAULT) && EncodeGarble(GARBLE_DEFAULT) == [0, 0, 0, 0, 0, 0, 0, 0, 0, 0, 0]
    ensures EncodeCircuits(CIRCUITS_DEFAULT) == [0, 0, 0, 0, 0, 0]
  {
    One();
    GarbleLayout(GARBLE_DEFAULT);
    CircuitsLayout(CIRCUITS_DEFAULT);
  }

  // ---------- what a worker makes of the cell ----------

  /** `oci_mem.get::<IndexingData>()` with both `unwrap_or`s: an absent or undecodable cell reads as the default. */
  function ReadGarble(cell: Option<Bytes>): Garble {
    match cell
    case None => GARBLE_DEFAULT
    case Some(s) => var p := DecodeGarble(s); if p.Parsed? then p.value else GARBLE_DEFAULT
  }

  function ReadCircuits(cell: Option<Bytes>): Circuits {
    match cell
    case None => CIRCUITS_DEFAULT
    case Some(s) => var p := DecodeCircuits(s); if p.Parsed? then p.value else CIRCUITS_DEFAULT
  }

  /** A worker reads back exactly the job an extrinsic wrote, and a cleared cell reads as nothing to do. */
  lemma GarbleReadsBack(d: Garble)
    requires GarbleEncodable(d)
    ensures ReadGarble(Some(EncodeGarble(d))) == d
    ensures GarbleEncodable(GARBLE_DEFAULT) && ReadGarble(Some(EncodeGarble(GARBLE_DEFAULT))).blockNumber == 0
  {
    assert EncodeGarble(d) + [] == EncodeGarble(d);
    GarbleDecodes(d, []);
    assert EncodeGarble(GARBLE_DEFAULT) + [] == EncodeGarble(GARBLE_DEFAULT);
    GarbleDecodes(GARBLE_DEFAULT, []);
  }

  lemma CircuitsReadsBack(d: Circuits)
    requires CircuitsEncodable(d)
    ensures ReadCircuits(Some(EncodeCircuits(d))) == d
    ensures ReadCircuits(Some(EncodeCircuits(CIRCUITS_DEFAULT))).blockNumber == 0
  {
    assert EncodeCircuits(d) + [] == EncodeCircuits(d);
    CircuitsDecodes(d, []);
    assert EncodeCircuits(CIRCUITS_DEFAULT) + [] == EncodeCircuits(CIRCUITS_DEFAULT);
    CircuitsDecodes(CIRCUITS_DEFAULT, []);
  }
}
