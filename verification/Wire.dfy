/** Bytes on the wire: body codec, cleartext header, nonce, and the sealed datagram. */
module Wire {
  import opened Types
  import opened DispatchSpec

  const U64_MAX: nat := 0xFFFF_FFFF_FFFF_FFFF
  const VERSION: Byte := 0x04
  const REQUEST_ID_LEN: nat := 16

  type Bytes = seq<Byte>

  datatype PacketKind = KData | KEnd | KEndAck | KAck | KNack | KKeepalive

  datatype WireError =
    | Truncated(need: nat, got: nat)
    | UnsupportedVersion(v: Byte)
    | UnknownKind(v: Byte)
    | MalformedBody(kind: PacketKind)
    | TrailingBytes(kind: PacketKind)
    | PayloadTooLarge(got: nat, max: nat)
    | WrongDirection(kind: PacketKind)
    | DecryptFailed

  datatype Result<+T> = Ok(value: T) | Err(error: WireError)

  // ----- big-endian integers -----

  function Pow256(w: nat): (p: nat)
    ensures p > 0
  {
    if w == 0 then 1 else 256 * Pow256(w - 1)
  }

  function BigEndian(n: nat, w: nat): (b: Bytes)
    ensures |b| == w
    decreases w
  {
    if w == 0 then [] else BigEndian(n / 256, w - 1) + [n % 256]
  }

  function FromBigEndian(b: Bytes): (n: nat)
    decreases |b|
  {
    if b == [] then 0 else FromBigEndian(b[..|b| - 1]) * 256 + b[|b| - 1]
  }

  lemma {:induction false} ReadWritten(n: nat, w: nat)
    requires n < Pow256(w)
    ensures FromBigEndian(BigEndian(n, w)) == n
    decreases w
  {
    if w > 0 {
      ReadWritten(n / 256, w - 1);
      assert BigEndian(n, w)[..w - 1] == BigEndian(n / 256, w - 1);
    }
  }

  lemma {:induction false} WrittenRead(b: Bytes)
    ensures FromBigEndian(b) < Pow256(|b|)
    ensures BigEndian(FromBigEndian(b), |b|) == b
    decreases |b|
  {
    if b != [] {
      var front, last := b[..|b| - 1], b[|b| - 1];
      WrittenRead(front);
      assert FromBigEndian(b) / 256 == FromBigEndian(front) && FromBigEndian(b) % 256 == last;
      assert b == front + [last];
    }
  }

  lemma Widths()
    ensures Pow256(2) == U16_MAX + 1 && Pow256(4) == U32_MAX + 1 && Pow256(8) == U64_MAX + 1
  {
    assert Pow256(2) == 256 * (256 * Pow256(0));
    assert Pow256(4) == 256 * (256 * Pow256(2));
    assert Pow256(6) == 256 * (256 * Pow256(4));
    assert Pow256(8) == 256 * (256 * Pow256(6));
  }

  // ----- bodies -----

  function KindOf(b: Body): (k: PacketKind)
  {
    match b
    case Data(_, _) => KData
    case End(_) => KEnd
    case EndAck => KEndAck
    case Ack(_, _, _) => KAck
    case Nack(_) => KNack
    case Keepalive(_) => KKeepalive
  }

  /** The value ranges of the body's field types: u64 timestamps, u32 numbers, u16 occupancy. */
  ghost predicate Typed(b: Body)
  {
    match b
    case Data(ts, _) => ts <= U64_MAX
    case End(final) => final <= U32_MAX
    case EndAck => true
    case Ack(c, h, ms) => c <= U32_MAX && h <= U32_MAX && ms <= U16_MAX
    case Nack(missing) => forall i :: 0 <= i < |missing| ==> missing[i] <= U32_MAX
    case Keepalive(l) => l <= U32_MAX
  }

  function EncodeSeqs(qs: seq<nat>): (b: Bytes)
    ensures |b| == 4 * |qs|
  {
    if qs == [] then [] else BigEndian(qs[0], 4) + EncodeSeqs(qs[1..])
  }

  function Encode(b: Body): (r: Result<Bytes>)
  {
    match b
    case Data(ts, payload) =>
      if |payload| > MAX_PAYLOAD then Err(PayloadTooLarge(|payload|, MAX_PAYLOAD))
      else Ok(BigEndian(ts, 8) + payload)
    case End(final) => Ok(BigEndian(final, 4))
    case EndAck => Ok([])
    case Ack(c, h, ms) => Ok(BigEndian(c, 4) + BigEndian(h, 4) + BigEndian(ms, 2))
    case Nack(missing) =>
      if |missing| > MAX_NACK_ENTRIES then Err(PayloadTooLarge(|missing|, MAX_NACK_ENTRIES))
      else Ok(BigEndian(|missing|, 2) + EncodeSeqs(missing))
    case Keepalive(l) => Ok(BigEndian(l, 4))
  }

  /** The encoder as written, with its loop over the entries of a `Nack`. */
  method EncodeBody(b: Body) returns (r: Result<Bytes>)
    ensures r == Encode(b)
  {
    match b {
      case Nack(missing) =>
        if |missing| > MAX_NACK_ENTRIES {
          return Err(PayloadTooLarge(|missing|, MAX_NACK_ENTRIES));
        }
        var out := BigEndian(|missing|, 2);
        var i := 0;
        assert missing[0..] == missing;
        while i < |missing|
          invariant 0 <= i <= |missing|
          invariant out + EncodeSeqs(missing[i..]) == BigEndian(|missing|, 2) + EncodeSeqs(missing)
        {
          assert missing[i..][0] == missing[i] && missing[i..][1..] == missing[i + 1..];
          out := out + BigEndian(missing[i], 4);
          i := i + 1;
        }
        assert missing[i..] == [] && out + [] == out;
        r := Ok(out);
      case Data(ts, payload) =>
        if |payload| > MAX_PAYLOAD {
          return Err(PayloadTooLarge(|payload|, MAX_PAYLOAD));
        }
        var out := BigEndian(ts, 8);
        out := out + payload;
        r := Ok(out);
      case Ack(c, h, ms) =>
        var out := BigEndian(c, 4);
        out := out + BigEndian(h, 4);
        out := out + BigEndian(ms, 2);
        r := Ok(out);
      case End(final) => r := Ok(BigEndian(final, 4));
      case EndAck => r := Ok([]);
      case Keepalive(l) => r := Ok(BigEndian(l, 4));
    }
  }

  function TakeInt(buf: Bytes, at: nat, w: nat): (n: Option<nat>)
  {
    if at + w <= |buf| then Some(FromBigEndian(buf[at..at + w])) else None
  }

  function DecodeSeqs(buf: Bytes): (qs: seq<nat>)
    requires |buf| % 4 == 0
    ensures |qs| == |buf| / 4
    decreases |buf|
  {
    if buf == [] then [] else [FromBigEndian(buf[..4])] + DecodeSeqs(buf[4..])
  }

  function ExpectLen(buf: Bytes, want: nat, kind: PacketKind): (e: Option<WireError>)
  {
    if |buf| < want then Some(MalformedBody(kind))
    else if |buf| > want then Some(TrailingBytes(kind))
    else None
  }

  function DecodeNack(buf: Bytes): (r: Result<Body>)
  {
    var count := TakeInt(buf, 0, 2);
    if count.None? then Err(MalformedBody(KNack))
    else if count.value > MAX_NACK_ENTRIES then Err(PayloadTooLarge(count.value, MAX_NACK_ENTRIES))
    else
      var e := ExpectLen(buf, 2 + count.value * 4, KNack);
      if e.Some? then Err(e.value) else Ok(Nack(DecodeSeqs(buf[2..])))
  }

  function Decode(kind: PacketKind, buf: Bytes): (r: Result<Body>)
  {
    match kind
    case KData =>
      var ts := TakeInt(buf, 0, 8);
      if ts.None? then Err(MalformedBody(kind))
      else if |buf| - 8 > MAX_PAYLOAD then Err(PayloadTooLarge(|buf| - 8, MAX_PAYLOAD))
      else Ok(Data(ts.value, buf[8..]))
    case KEnd =>
      var e := ExpectLen(buf, 4, kind);
      if e.Some? then Err(e.value) else Ok(End(FromBigEndian(buf)))
    case KEndAck =>
      var e := ExpectLen(buf, 0, kind);
      if e.Some? then Err(e.value) else Ok(EndAck)
    case KAck =>
      var e := ExpectLen(buf, 10, kind);
      if e.Some? then Err(e.value)
      else Ok(Ack(FromBigEndian(buf[0..4]), FromBigEndian(buf[4..8]), FromBigEndian(buf[8..10])))
    case KNack => DecodeNack(buf)
    case KKeepalive =>
      var e := ExpectLen(buf, 4, kind);
      if e.Some? then Err(e.value) else Ok(Keepalive(FromBigEndian(buf)))
  }

  lemma {:induction false} SeqsRoundTrip(qs: seq<nat>)
    requires forall i :: 0 <= i < |qs| ==> qs[i] <= U32_MAX
    ensures DecodeSeqs(EncodeSeqs(qs)) == qs
    decreases |qs|
  {
    if qs != [] {
      var b := EncodeSeqs(qs);
      Widths();
      ReadWritten(qs[0], 4);
      SeqsRoundTrip(qs[1..]);
      assert b[..4] == BigEndian(qs[0], 4) && b[4..] == EncodeSeqs(qs[1..]);
    }
  }

  lemma {:induction false} SeqsReencode(buf: Bytes)
    requires |buf| % 4 == 0
    ensures EncodeSeqs(DecodeSeqs(buf)) == buf
    ensures forall i :: 0 <= i < |DecodeSeqs(buf)| ==> DecodeSeqs(buf)[i] <= U32_MAX
    decreases |buf|
  {
    if buf != [] {
      Widths();
      WrittenRead(buf[..4]);
      SeqsReencode(buf[4..]);
      assert buf == buf[..4] + buf[4..];
    }
  }

  /** Encoding succeeds exactly when the body fits, and yields the length the ring accounts. */
  lemma EncodedSize(b: Body)
    ensures Encode(b).Ok? <==> FitsWire(b)
    ensures Encode(b).Ok? ==> |Encode(b).value| == BodySize(b)
  {
  }

  lemma DecodeEncodeAck(c: nat, h: nat, ms: nat)
    requires c <= U32_MAX && h <= U32_MAX && ms <= U16_MAX
    ensures Decode(KAck, BigEndian(c, 4) + BigEndian(h, 4) + BigEndian(ms, 2)) == Ok(Ack(c, h, ms))
  {
    var buf := BigEndian(c, 4) + BigEndian(h, 4) + BigEndian(ms, 2);
    Widths();
    ReadWritten(c, 4);
    ReadWritten(h, 4);
    ReadWritten(ms, 2);
    assert buf[0..4] == BigEndian(c, 4) && buf[4..8] == BigEndian(h, 4) && buf[8..10] == BigEndian(ms, 2);
  }

  /** Whatever encodes decodes, under its own kind, to itself. */
  lemma DecodeEncode(b: Body)
    requires Typed(b) && Encode(b).Ok?
    ensures Decode(KindOf(b), Encode(b).value) == Ok(b)
  {
    Widths();
    match b
    case Data(ts, payload) =>
      ReadWritten(ts, 8);
      var buf := BigEndian(ts, 8) + payload;
      assert buf[0..8] == BigEndian(ts, 8) && buf[8..] == payload;
    case End(final) => ReadWritten(final, 4);
    case EndAck =>
    case Ack(c, h, ms) => DecodeEncodeAck(c, h, ms);
    case Nack(missing) =>
      ReadWritten(|missing|, 2);
      SeqsRoundTrip(missing);
      var buf := BigEndian(|missing|, 2) + EncodeSeqs(missing);
      assert buf[0..2] == BigEndian(|missing|, 2) && buf[2..] == EncodeSeqs(missing);
    case Keepalive(l) => ReadWritten(l, 4);
  }

  lemma EncodeDecodeAck(buf: Bytes)
    requires |buf| == 10
    ensures var b := Ack(FromBigEndian(buf[0..4]), FromBigEndian(buf[4..8]), FromBigEndian(buf[8..10]));
            Typed(b) && Encode(b) == Ok(buf)
  {
    Widths();
    WrittenRead(buf[0..4]);
    WrittenRead(buf[4..8]);
    WrittenRead(buf[8..10]);
    assert buf == buf[0..4] + buf[4..8] + buf[8..10];
  }

  /** Whatever decodes was the encoding of the result: no two byte strings mean the same body. */
  lemma EncodeDecode(kind: PacketKind, buf: Bytes)
    requires Decode(kind, buf).Ok?
    ensures var b := Decode(kind, buf).value;
            KindOf(b) == kind && Typed(b) && Encode(b) == Ok(buf)
  {
    Widths();
    match kind
    case KData =>
      WrittenRead(buf[0..8]);
      assert buf == buf[0..8] + buf[8..];
    case KEnd => WrittenRead(buf);
    case KEndAck =>
    case KAck => EncodeDecodeAck(buf);
    case KNack =>
      WrittenRead(buf[0..2]);
      SeqsReencode(buf[2..]);
      assert buf == buf[0..2] + buf[2..];
    case KKeepalive => WrittenRead(buf);
  }

  // ----- header -----

  datatype Header = Header(kind: PacketKind, requestId: Bytes, seqNo: nat)

  ghost predicate TypedHeader(h: Header)
  {
    |h.requestId| == REQUEST_ID_LEN && h.seqNo <= U32_MAX
  }

  function KindByte(k: PacketKind): (v: Byte)
  {
    match k
    case KData => 0
    case KEnd => 1
    case KEndAck => 2
    case KAck => 3
    case KNack => 4
    case KKeepalive => 5
  }

  function KindFrom(v: Byte): (k: Result<PacketKind>)
    ensures forall kind :: k == Ok(kind) <==> v == KindByte(kind)
  {
    if v == 0 then Ok(KData) else if v == 1 then Ok(KEnd) else if v == 2 then Ok(KEndAck)
    else if v == 3 then Ok(KAck) else if v == 4 then Ok(KNack) else if v == 5 then Ok(KKeepalive)
    else Err(UnknownKind(v))
  }

  function HeaderBytes(h: Header): (b: Bytes)
  {
    [VERSION, KindByte(h.kind)] + h.requestId + BigEndian(h.seqNo, 4)
  }

  function ParseHeader(buf: Bytes): (r: Result<(Header, Bytes)>)
  {
    if |buf| < HEADER_LEN then Err(Truncated(HEADER_LEN, |buf|))
    else if buf[0] != VERSION then Err(UnsupportedVersion(buf[0]))
    else
      var k := KindFrom(buf[1]);
      if k.Err? then Err(k.error)
      else Ok((Header(k.value, buf[2..18], FromBigEndian(buf[18..22])), buf[22..]))
  }

  /** What a relay reads: no check of the kind. */
  function PeekRequestId(buf: Bytes): (r: Result<Bytes>)
  {
    if |buf| < HEADER_LEN then Err(Truncated(HEADER_LEN, |buf|))
    else if buf[0] != VERSION then Err(UnsupportedVersion(buf[0]))
    else Ok(buf[2..18])
  }

  /** Parsing undoes writing, whatever follows the header, and a relay reads the same id. */
  lemma ParseWritten(h: Header, rest: Bytes)
    requires TypedHeader(h)
    ensures |HeaderBytes(h)| == HEADER_LEN
    ensures ParseHeader(HeaderBytes(h) + rest) == Ok((h, rest))
    ensures PeekRequestId(HeaderBytes(h) + rest) == Ok(h.requestId)
  {
    var buf := HeaderBytes(h) + rest;
    Widths();
    ReadWritten(h.seqNo, 4);
    assert buf[0] == VERSION && buf[1] == KindByte(h.kind);
    assert buf[2..18] == h.requestId && buf[18..22] == BigEndian(h.seqNo, 4) && buf[22..] == rest;
  }

  /** Whatever parses was written from the result. */
  lemma WrittenParse(buf: Bytes)
    requires ParseHeader(buf).Ok?
    ensures var (h, rest) := ParseHeader(buf).value;
            TypedHeader(h) && HeaderBytes(h) + rest == buf
  {
    Widths();
    WrittenRead(buf[18..22]);
    assert buf == [buf[0], buf[1]] + buf[2..18] + buf[18..22] + buf[22..];
  }

  // ----- nonce and sealing -----

  function DirByte(d: Direction): (v: Byte)
  {
    if d.ToSink? then 0 else 1
  }

  function ClassByte(c: SeqClass): (v: Byte)
  {
    if c.DataClass? then 0 else 1
  }

  /** dir, class, a zero epoch, and the zero-extended counter. */
  function NonceFor(s: Seal): (n: Bytes)
    ensures |n| == 12
  {
    [DirByte(s.dir), ClassByte(s.cls), 0, 0] + BigEndian(s.counter, 8)
  }

  lemma NonceFields(s: Seal)
    requires s.counter <= U64_MAX
    ensures var n := NonceFor(s);
            n[0] == DirByte(s.dir) && n[1] == ClassByte(s.cls) && FromBigEndian(n[4..]) == s.counter
  {
    Widths();
    ReadWritten(s.counter, 8);
    assert NonceFor(s)[4..] == BigEndian(s.counter, 8);
  }

  /** Different seals use different nonces. */
  lemma NonceInjective(a: Seal, b: Seal)
    requires a.counter <= U64_MAX && b.counter <= U64_MAX
    ensures NonceFor(a) == NonceFor(b) ==> a == b
  {
    NonceFields(a);
    NonceFields(b);
  }

  function DirectionOf(k: PacketKind): (d: Direction)
  {
    match k
    case KData => ToSink
    case KEnd => ToSink
    case KKeepalive => ToSink
    case _ => ToTap
  }

  function KindClass(k: PacketKind): (c: SeqClass)
  {
    if k.KData? then DataClass else ControlClass
  }

  /** An authenticated cipher: nonce, associated data, message. */
  type Encrypt = (Bytes, Bytes, Bytes) -> Bytes
  type Decrypt = (Bytes, Bytes, Bytes) -> Option<Bytes>

  function SealBytes(enc: Encrypt, h: Header, dir: Direction, plaintext: Bytes): (b: Bytes)
  {
    HeaderBytes(h) + enc(NonceFor(Seal(dir, KindClass(h.kind), h.seqNo)), HeaderBytes(h), plaintext)
  }

  function OpenBytes(dec: Decrypt, datagram: Bytes, dir: Direction): (r: Result<(Header, Bytes)>)
  {
    var p := ParseHeader(datagram);
    if p.Err? then Err(p.error)
    else
      var (h, sealed) := p.value;
      if DirectionOf(h.kind) != dir then Err(WrongDirection(h.kind))
      else
        var m := dec(NonceFor(Seal(dir, KindClass(h.kind), h.seqNo)), HeaderBytes(h), sealed);
        if m.None? then Err(DecryptFailed) else Ok((h, m.value))
  }

  /** For any cipher whose decryption undoes encryption: a sealed body that fits the wire opens
      to the same header and decodes to the same body. A datagram may therefore be identified
      with its sequence number and body. */
  lemma SealedRoundTrip(enc: Encrypt, dec: Decrypt, id: Bytes, seqNo: nat, b: Body)
    requires forall n, aad, m :: dec(n, aad, enc(n, aad, m)) == Some(m)
    requires |id| == REQUEST_ID_LEN && seqNo <= U32_MAX && Typed(b) && FitsWire(b)
    ensures var h := Header(KindOf(b), id, seqNo);
            var dir := DirectionOf(h.kind);
            var back := OpenBytes(dec, SealBytes(enc, h, dir, Encode(b).value), dir);
            back.Ok? && back.value.0 == h && Decode(h.kind, back.value.1) == Ok(b)
  {
    var h := Header(KindOf(b), id, seqNo);
    var dir := DirectionOf(h.kind);
    EncodedSize(b);
    var plain := Encode(b).value;
    var nonce := NonceFor(Seal(dir, KindClass(h.kind), h.seqNo));
    ParseWritten(h, enc(nonce, HeaderBytes(h), plain));
    DecodeEncode(b);
  }
}
