/** ocw-common: gRPC-Web framing over the gRPC Length-Prefixed-Message format. The protobuf payload codec is a
    pair of functions the statements quantify over. */
module GrpcWeb {
  import opened Common
  import Base64

  const HEADER: nat := 5

  datatype ContentType = GrpcWeb | GrpcWebTextProto | Unknown

  /** `put_u32(len as u32)`: big-endian, the cast dropping everything above 32 bits. */
  function BigEndian(len: nat): (s: Bytes)
    ensures |s| == 4
  {
    [len / 0x100_0000 % 0x100, len / 0x1_0000 % 0x100, len / 0x100 % 0x100, len % 0x100]
  }

  function FromBigEndian(b0: byte, b1: byte, b2: byte, b3: byte): (n: nat)
    ensures n < 0x1_0000_0000
  {
    b0 * 0x100_0000 + b1 * 0x1_0000 + b2 * 0x100 + b3
  }

  lemma Remainder(n: nat, q: nat, r: nat)
    requires n == q * 0x1_0000_0000 + r && r < 0x1_0000_0000
    ensures n % 0x1_0000_0000 == r
  {
  }

  lemma BigEndianTruncates(len: nat)
    ensures var s := BigEndian(len); FromBigEndian(s[0], s[1], s[2], s[3]) == len % 0x1_0000_0000
  {
    var q1, r0 := len / 0x100, len % 0x100;
    var q2, r1 := q1 / 0x100, q1 % 0x100;
    var q3, r2 := q2 / 0x100, q2 % 0x100;
    var q4, r3 := q3 / 0x100, q3 % 0x100;
    assert q2 == len / 0x1_0000 && q3 == len / 0x100_0000;
    Remainder(len, q4, r3 * 0x100_0000 + r2 * 0x1_0000 + r1 * 0x100 + r0);
  }

  // ---------- writing ----------

  function Frame(payload: Bytes): Bytes {
    [0] + BigEndian(|payload|) + payload
  }

  /** Reserves five bytes, appends the payload, then patches the header in place. */
  method EncodeBody(payload: Bytes) returns (frame: Bytes)
    ensures frame == Frame(payload)
    ensures |frame| == 5 + |payload| && frame[0] == 0 && frame[5..] == payload
    ensures frame[1] as int * 0x100_0000 + frame[2] as int * 0x1_0000 + frame[3] as int * 0x100 + frame[4] as int
            == |payload| % 0x1_0000_0000
  {
    var buf := new byte[HEADER + |payload|];
    var i := 0;
    while i < |payload|
      invariant 0 <= i <= |payload|
      invariant buf[HEADER..HEADER + i] == payload[..i]
    {
      buf[HEADER + i] := payload[i];
      i := i + 1;
    }
    var len := buf.Length - HEADER;
    buf[0] := 0;
    buf[1], buf[2] := len / 0x100_0000 % 0x100, len / 0x1_0000 % 0x100;
    buf[3], buf[4] := len / 0x100 % 0x100, len % 0x100;
    assert buf[HEADER..HEADER + |payload|] == payload[..|payload|];
    frame := buf[..len + HEADER];
    assert frame[..HEADER] == [0] + BigEndian(|payload|);
    assert frame[HEADER..] == payload;
    assert frame == frame[..HEADER] + frame[HEADER..];
    BigEndianTruncates(|payload|);
  }

  // ---------- reading ----------

  /** A `Bytes` cursor: every read moves the front, and reading past the end panics. */
  class Cursor {
    var view: Bytes

    constructor (bytes: Bytes)
      ensures view == bytes
    {
      view := bytes;
    }

    method Advance(n: nat) returns (ok: bool)
      modifies this
      ensures ok <==> n <= |old(view)|
      ensures view == if ok then old(view)[n..] else old(view)
    {
      ok := n <= |view|;
      if ok {
        view := view[n..];
      }
    }

    method GetU32() returns (value: Option<nat>)
      modifies this
      ensures value.Some? <==> |old(view)| >= 4
      ensures value.Some? ==> value.value == FromBigEndian(old(view)[0], old(view)[1], old(view)[2], old(view)[3])
      ensures view == if value.Some? then old(view)[4..] else old(view)
    {
      if |view| < 4 {
        return None;
      }
      value := Some(FromBigEndian(view[0], view[1], view[2], view[3]));
      view := view[4..];
    }

    method SplitTo(n: nat) returns (front: Option<Bytes>)
      modifies this
      ensures front == if n <= |old(view)| then Some(old(view)[..n]) else None
      ensures view == if front.Some? then old(view)[n..] else old(view)
    {
      if n > |view| {
        return None;
      }
      front := Some(view[..n]);
      view := view[n..];
    }
  }

  datatype Decoded<T> = Decoded(message: T, trailers: Bytes)

  /** What a raw body decodes to; `None` is a panic. */
  function Unframe<T>(body: Bytes, parse: Bytes -> Option<T>): Option<Decoded<T>> {
    if |body| < HEADER then None
    else
      var len := FromBigEndian(body[1], body[2], body[3], body[4]);
      if |body| < HEADER + len + HEADER then None
      else
        match parse(body[HEADER..HEADER + len])
        case None => None
        case Some(m) => Some(Decoded(m, body[HEADER + len + HEADER..]))
  }

  function Body(bytes: Bytes, contentType: ContentType): Option<Bytes> {
    if contentType.GrpcWebTextProto? then Base64.Decode(bytes) else Some(bytes)
  }

  function Decode<T>(bytes: Bytes, contentType: ContentType, parse: Bytes -> Option<T>): Option<Decoded<T>> {
    match Body(bytes, contentType)
    case None => None
    case Some(body) => Unframe(body, parse)
  }

  method DecodeBody<T>(bytes: Bytes, contentType: ContentType, parse: Bytes -> Option<T>)
    returns (reply: Option<Decoded<T>>)
    ensures reply == Decode(bytes, contentType, parse)
  {
    var raw := Body(bytes, contentType);
    if raw.None? {
      return None;
    }
    var body := new Cursor(raw.value);
    var ok := body.Advance(1);
    if !ok {
      return None;
    }
    var len := body.GetU32();
    if len.None? {
      return None;
    }
    assert body.view == raw.value[HEADER..];
    ghost var n := FromBigEndian(raw.value[1], raw.value[2], raw.value[3], raw.value[4]);
    assert len.value == n;
    var payload := body.SplitTo(len.value);
    if payload.None? {
      return None;
    }
    assert payload.value == raw.value[HEADER..HEADER + n] && body.view == raw.value[HEADER + n..];
    var message := parse(payload.value);
    if message.None? {
      return None;
    }
    ok := body.Advance(HEADER);
    if !ok {
      return None;
    }
    assert body.view == raw.value[HEADER + n + HEADER..];
    return Some(Decoded(message.value, body.view));
  }

  // ---------- properties ----------

  /** Five bytes: a flag of any value, then the length, most significant byte first. */
  ghost predicate IsHeader(h: Bytes, len: nat) {
    |h| == 5 && h[1] as int * 0x100_0000 + h[2] as int * 0x1_0000 + h[3] as int * 0x100 + h[4] as int == len
  }

  /** Exactly which bodies decode, and to what: a flag byte of any value, the length, that many payload bytes the
      payload parser accepts, five bytes of any value, and the rest is the trailers. */
  lemma UnframesExactly<T>(body: Bytes, parse: Bytes -> Option<T>, message: T, trailers: Bytes)
    ensures Unframe(body, parse) == Some(Decoded(message, trailers))
       <==> exists h: Bytes, payload: Bytes, mark: Bytes ::
              && IsHeader(h, |payload|) && |mark| == 5
              && body == h + payload + mark + trailers && parse(payload) == Some(message)
  {
    if Unframe(body, parse) == Some(Decoded(message, trailers)) {
      var len := FromBigEndian(body[1], body[2], body[3], body[4]);
      var h, payload, mark := body[..HEADER], body[HEADER..HEADER + len], body[HEADER + len..HEADER + len + HEADER];
      assert body == h + payload + mark + trailers;
      assert IsHeader(h, |payload|);
    }
    if h: Bytes, payload: Bytes, mark: Bytes :|
      && IsHeader(h, |payload|) && |mark| == 5
      && body == h + payload + mark + trailers && parse(payload) == Some(message) {
      assert body[..HEADER] == h;
      assert body[1] == h[1] && body[2] == h[2] && body[3] == h[3] && body[4] == h[4];
      assert body[HEADER..HEADER + |payload|] == payload;
      assert body[HEADER + |payload| + HEADER..] == trailers;
    }
  }

  function Verbatim(payload: Bytes): Option<Bytes> {
    Some(payload)
  }

  /** A framed payload comes back, with the trailers behind it, exactly when its length fits the 32-bit field;
      every byte of the body is accounted for. */
  lemma FramingRoundTrip(payload: Bytes, mark: Bytes, trailers: Bytes)
    requires |mark| == 5
    ensures var body := Frame(payload) + mark + trailers;
            && |body| == 5 + |payload| + 5 + |trailers|
            && (Unframe(body, Verbatim) == Some(Decoded(payload, trailers)) <==> |payload| < 0x1_0000_0000)
  {
    var body := Frame(payload) + mark + trailers;
    FrameLength(payload);
    UnframesExactly(body, Verbatim, payload, trailers);
    hide Unframe, FromBigEndian, BigEndian, IsHeader;
    if |payload| < 0x1_0000_0000 {
      HeaderOf(|payload|);
    } else {
      forall h: Bytes ensures !IsHeader(h, |payload|) { HeaderBelow(h, |payload|); }
    }
  }

  lemma HeaderOf(len: nat)
    requires len < 0x1_0000_0000
    ensures IsHeader([0] + BigEndian(len), len)
  {
    hide BigEndian;
    BigEndianTruncates(len);
    Remainder(len, 0, len);
    var s, h := BigEndian(len), [0] + BigEndian(len);
    assert h[1] == s[0] && h[2] == s[1] && h[3] == s[2] && h[4] == s[3];
  }

  lemma HeaderBelow(h: Bytes, len: nat)
    ensures IsHeader(h, len) ==> len < 0x1_0000_0000
  {
  }

  lemma FrameLength(payload: Bytes)
    ensures |Frame(payload)| == HEADER + |payload|
  {
  }

  /** The same through any payload codec that is a round trip. */
  lemma MessageRoundTrip<T(!new)>(serialise: T -> Bytes, parse: Bytes -> Option<T>, m: T, mark: Bytes, trailers: Bytes)
    requires forall x: T :: parse(serialise(x)) == Some(x)
    requires |serialise(m)| < 0x1_0000_0000 && |mark| == 5
    ensures Unframe(Frame(serialise(m)) + mark + trailers, parse) == Some(Decoded(m, trailers))
  {
    var payload := serialise(m);
    HeaderOf(|payload|);
    hide BigEndian, FromBigEndian, Unframe, IsHeader;
    UnframesExactly(Frame(payload) + mark + trailers, parse, m, trailers);
  }

  lemma FrameReads(payload: Bytes)
    ensures var body := Frame(payload);
            FromBigEndian(body[1], body[2], body[3], body[4]) == |payload| % 0x1_0000_0000
  {
    BigEndianTruncates(|payload|);
    var body, s := Frame(payload), BigEndian(|payload|);
    assert body[1..HEADER] == s;
    assert body[1] == s[0] && body[2] == s[1] && body[3] == s[2] && body[4] == s[3];
  }

  /** What the encoder writes has no trailer section, so the decoder refuses it, whatever the payload parser: except
      that from 2^32 bytes on the truncated length leaves payload over, and the parser sees only the first part. */
  lemma FrameAloneIsTooShort<T>(payload: Bytes, parse: Bytes -> Option<T>)
    ensures Unframe(Frame(payload), parse).None?
       <==> |payload| < 0x1_0000_0000 || parse(payload[..|payload| % 0x1_0000_0000]).None?
  {
    FrameReads(payload);
    FrameLength(payload);
    var len := |payload| % 0x1_0000_0000;
    assert |payload| < 0x1_0000_0000 ==> len == |payload|;
    assert |payload| >= 0x1_0000_0000 ==> |payload| >= len + HEADER;
    assert Frame(payload)[HEADER..HEADER + len] == payload[..len];
    hide BigEndian, FromBigEndian, Frame;
  }

  /** The content type decides only whether base64 is peeled off first. */
  lemma TextModeAgrees<T>(body: Bytes, parse: Bytes -> Option<T>)
    ensures Decode(Base64.Encode(body), GrpcWebTextProto, parse) == Decode(body, ContentType.GrpcWeb, parse)
    ensures Decode(body, Unknown, parse) == Decode(body, ContentType.GrpcWeb, parse)
  {
    Base64.DecodesEncoding(body);
  }
}
