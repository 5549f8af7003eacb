/** The bytes themselves: what stands at each offset, what each error means, and which packets
    travel in which direction. */
module WireLayout {
  import opened Types
  import opened DispatchSpec
  import opened Wire

  // ----- integers -----

  lemma DivDiv(n: nat, p: nat)
    requires p > 0
    ensures n / 256 / p == n / (256 * p)
  {
    var q, r := n / 256, n % 256;
    var t, u := q / p, q % p;
    assert n == 256 * q + r && q == p * t + u;
    assert n == 256 * (p * t + u) + r == (256 * p) * t + (256 * u + r);
    assert 0 <= 256 * u + r < 256 * p;
    Quotient(n, 256 * p, t, 256 * u + r);
  }

  lemma MulStep(d: nat, a: nat, b: nat)
    ensures a < b ==> d * a + d <= d * b
  {
    if a < b {
      assert d * b == d * a + d * (b - a);
      assert d * (b - a) == d + d * (b - a - 1);
    }
  }

  lemma Quotient(n: nat, d: nat, t: nat, r: nat)
    requires d > 0 && n == d * t + r && r < d
    ensures n / d == t
  {
    assert n == d * (n / d) + n % d;
    MulStep(d, n / d, t);
    MulStep(d, t, n / d);
  }

  /** Most significant byte first. */
  lemma {:induction false} BigEndianAt(n: nat, w: nat, i: nat)
    requires i < w
    ensures BigEndian(n, w)[i] == n / Pow256(w - 1 - i) % 256
    decreases w
  {
    if i < w - 1 {
      BigEndianAt(n / 256, w - 1, i);
      DivDiv(n, Pow256(w - 2 - i));
    } else {
      assert Pow256(0) == 1;
    }
  }

  /** The bytes are n, most significant first. */
  ghost predicate Spells(b: Bytes, n: nat)
  {
    forall i :: 0 <= i < |b| ==> b[i] == Digit(n, |b| - 1 - i)
  }

  function Digit(n: nat, k: nat): (d: nat)
  {
    n / Pow256(k) % 256
  }

  /** The w bytes at `off` are n, most significant first. */
  ghost predicate FieldAt(buf: Bytes, off: nat, w: nat, n: nat)
  {
    off + w <= |buf| && Spells(buf[off..off + w], n)
  }

  lemma BigEndianSpells(n: nat, w: nat)
    ensures Spells(BigEndian(n, w), n)
  {
    forall i | 0 <= i < w ensures BigEndian(n, w)[i] == Digit(n, w - 1 - i) {
      BigEndianAt(n, w, i);
    }
  }

  lemma FieldIs(buf: Bytes, off: nat, w: nat, n: nat)
    requires off + w <= |buf| && buf[off..off + w] == BigEndian(n, w)
    ensures FieldAt(buf, off, w, n)
  {
    BigEndianSpells(n, w);
  }

  // ----- bodies -----

  lemma {:induction false} SeqsAt(pre: Bytes, qs: seq<nat>, k: nat)
    requires k < |qs|
    ensures var off := |pre| + 4 * k; FieldAt(pre + EncodeSeqs(qs), off, 4, qs[k])
    decreases k
  {
    var all := pre + EncodeSeqs(qs);
    if k == 0 {
      assert all[|pre|..|pre| + 4] == BigEndian(qs[0], 4);
      FieldIs(all, |pre|, 4, qs[0]);
    } else {
      var pre' := pre + BigEndian(qs[0], 4);
      assert all == pre' + EncodeSeqs(qs[1..]);
      SeqsAt(pre', qs[1..], k - 1);
    }
  }

  /** Where each field of an encoded body stands. */
  lemma BodyLayout(b: Body)
    requires FitsWire(b)
    ensures var e := Encode(b);
            e.Ok? &&
            match b
            case Data(ts, payload) => |e.value| == 8 + |payload| && FieldAt(e.value, 0, 8, ts) && e.value[8..] == payload
            case End(final) => |e.value| == 4 && FieldAt(e.value, 0, 4, final)
            case EndAck => e.value == []
            case Ack(c, h, ms) =>
              |e.value| == 10 && FieldAt(e.value, 0, 4, c) && FieldAt(e.value, 4, 4, h) && FieldAt(e.value, 8, 2, ms)
            case Nack(missing) =>
              && |e.value| == 2 + 4 * |missing| && FieldAt(e.value, 0, 2, |missing|)
              && (forall k :: 0 <= k < |missing| ==> NackEntryAt(e.value, missing, k))
            case Keepalive(l) => |e.value| == 4 && FieldAt(e.value, 0, 4, l)
  {
    var buf := Encode(b).value;
    match b
    case Data(ts, payload) =>
      assert buf[0..8] == BigEndian(ts, 8) && buf[8..] == payload;
      FieldIs(buf, 0, 8, ts);
    case End(final) =>
      assert buf[0..4] == BigEndian(final, 4);
      FieldIs(buf, 0, 4, final);
    case EndAck =>
    case Ack(c, h, ms) => AckLayout(c, h, ms, buf);
    case Nack(missing) => NackLayout(missing, buf);
    case Keepalive(l) =>
      assert buf[0..4] == BigEndian(l, 4);
      FieldIs(buf, 0, 4, l);
  }

  lemma AckLayout(c: nat, h: nat, ms: nat, buf: Bytes)
    requires buf == BigEndian(c, 4) + BigEndian(h, 4) + BigEndian(ms, 2)
    ensures |buf| == 10 && FieldAt(buf, 0, 4, c) && FieldAt(buf, 4, 4, h) && FieldAt(buf, 8, 2, ms)
  {
    assert buf[0..4] == BigEndian(c, 4) && buf[4..8] == BigEndian(h, 4) && buf[8..10] == BigEndian(ms, 2);
    FieldIs(buf, 0, 4, c);
    FieldIs(buf, 4, 4, h);
    FieldIs(buf, 8, 2, ms);
  }

  lemma NackLayout(missing: seq<nat>, buf: Bytes)
    requires buf == BigEndian(|missing|, 2) + EncodeSeqs(missing)
    ensures |buf| == 2 + 4 * |missing| && FieldAt(buf, 0, 2, |missing|)
    ensures forall k :: 0 <= k < |missing| ==> NackEntryAt(buf, missing, k)
  {
    assert buf[0..2] == BigEndian(|missing|, 2);
    FieldIs(buf, 0, 2, |missing|);
    NackEntries(BigEndian(|missing|, 2), missing, buf);
  }

  lemma NackEntries(head: Bytes, missing: seq<nat>, buf: Bytes)
    requires |head| == 2 && buf == head + EncodeSeqs(missing)
    ensures forall k :: 0 <= k < |missing| ==> NackEntryAt(buf, missing, k)
  {
    forall k | 0 <= k < |missing| ensures NackEntryAt(buf, missing, k) {
      SeqsAt(head, missing, k);
    }
  }

  ghost predicate NackEntryAt(buf: Bytes, missing: seq<nat>, k: nat)
    requires k < |missing|
  {
    FieldAt(buf, 2 + 4 * k, 4, missing[k])
  }

  /** Decoding accepts exactly the encodings of well-typed bodies of its kind. */
  lemma DecodesExactly(kind: PacketKind, buf: Bytes, b: Body)
    ensures Decode(kind, buf) == Ok(b) <==> KindOf(b) == kind && Typed(b) && Encode(b) == Ok(buf)
  {
    if Decode(kind, buf) == Ok(b) {
      EncodeDecode(kind, buf);
    }
    if KindOf(b) == kind && Typed(b) && Encode(b) == Ok(buf) {
      DecodeEncode(b);
    }
  }

  /** The length a body of a fixed-layout kind has. */
  function FixedLength(kind: PacketKind): (n: nat)
  {
    match kind
    case KAck => 10
    case KEndAck => 0
    case _ => 4
  }

  /** Which error a body that does not decode gets, by its length and, for a `Nack`, its count. */
  lemma DecodeErrors(kind: PacketKind, buf: Bytes)
    ensures Decode(kind, buf).Err? ==>
            var want := if kind.KData? then 8
                        else if !kind.KNack? then FixedLength(kind)
                        else if |buf| < 2 then 2 else 2 + 4 * (Pair(buf[0], buf[1]));
            Decode(kind, buf).error ==
              if kind.KNack? && |buf| >= 2 && Pair(buf[0], buf[1]) > 128
              then PayloadTooLarge(Pair(buf[0], buf[1]), 128)
              else if |buf| < want then MalformedBody(kind)
              else if kind.KData? then PayloadTooLarge(|buf| - 8, 1024)
              else TrailingBytes(kind)
  {
    if kind.KNack? && |buf| >= 2 {
      TwoBytes(buf[0..2]);
    }
  }

  function Pair(hi: Byte, lo: Byte): (n: nat)
  {
    (hi as int) * 256 + (lo as int)
  }

  lemma TwoBytes(b: Bytes)
    requires |b| == 2
    ensures FromBigEndian(b) == Pair(b[0], b[1])
  {
    assert b[..1] == [b[0]];
    assert FromBigEndian(b[..1]) == FromBigEndian(b[..1][..0]) * 256 + b[0];
  }

  // ----- header and nonce -----

  /** The header: version 4, the kind's code, the id, the sequence number. */
  lemma HeaderLayout(h: Header)
    requires TypedHeader(h)
    ensures var b := HeaderBytes(h);
            && |b| == 22 && b[0] == 4 && b[2..18] == h.requestId && FieldAt(b, 18, 4, h.seqNo)
            && b[1] == match h.kind
                       case KData => 0
                       case KEnd => 1
                       case KEndAck => 2
                       case KAck => 3
                       case KNack => 4
                       case KKeepalive => 5
  {
    var b := HeaderBytes(h);
    assert b[18..22] == BigEndian(h.seqNo, 4);
    FieldIs(b, 18, 4, h.seqNo);
  }

  /** Parsing accepts exactly a header followed by anything. */
  lemma ParsesExactly(buf: Bytes, h: Header, rest: Bytes)
    ensures ParseHeader(buf) == Ok((h, rest)) <==> TypedHeader(h) && buf == HeaderBytes(h) + rest
  {
    if ParseHeader(buf) == Ok((h, rest)) {
      WrittenParse(buf);
    }
    if TypedHeader(h) && buf == HeaderBytes(h) + rest {
      ParseWritten(h, rest);
    }
  }

  /** Which error a header gets; a relay ignores the kind. */
  lemma ParseErrors(buf: Bytes)
    ensures ParseHeader(buf).Ok? <==> |buf| >= 22 && buf[0] == 4 && buf[1] <= 5
    ensures |buf| < 22 ==>
              ParseHeader(buf) == Err(Truncated(22, |buf|)) && PeekRequestId(buf) == Err(Truncated(22, |buf|))
    ensures |buf| >= 22 && buf[0] != 4 ==>
              ParseHeader(buf) == Err(UnsupportedVersion(buf[0])) && PeekRequestId(buf) == Err(UnsupportedVersion(buf[0]))
    ensures |buf| >= 22 && buf[0] == 4 && buf[1] > 5 ==> ParseHeader(buf) == Err(UnknownKind(buf[1]))
    ensures |buf| >= 22 && buf[0] == 4 ==> PeekRequestId(buf) == Ok(buf[2..18])
  {
  }

  /** The nonce: direction, class, a zero epoch, the counter. */
  lemma NonceLayout(s: Seal)
    ensures var n := NonceFor(s);
            && |n| == 12 && n[0] == (if s.dir.ToSink? then 0 else 1) && n[1] == (if s.cls.DataClass? then 0 else 1)
            && n[2] == 0 && n[3] == 0 && FieldAt(n, 4, 8, s.counter)
  {
    var n := NonceFor(s);
    assert n[4..12] == BigEndian(s.counter, 8);
    FieldIs(n, 4, 8, s.counter);
  }

  // ----- sealed datagrams -----

  /** The ring accounts the length a sealed datagram really has, for a cipher that adds a
      16-byte tag. */
  lemma SealedLength(enc: Encrypt, id: Bytes, seqNo: nat, b: Body)
    requires forall n, aad, m :: |enc(n, aad, m)| == |m| + 16
    requires |id| == REQUEST_ID_LEN && seqNo <= U32_MAX && FitsWire(b)
    ensures var h := Header(KindOf(b), id, seqNo);
            Encode(b).Ok? && |SealBytes(enc, h, DirectionOf(h.kind), Encode(b).value)| == Datagram(seqNo, b).Size()
  {
    EncodedSize(b);
  }

  /** A datagram opens in its own direction only, whatever the cipher says. */
  lemma WrongWay(dec: Decrypt, h: Header, sealed: Bytes, dir: Direction)
    requires TypedHeader(h) && DirectionOf(h.kind) != dir
    ensures OpenBytes(dec, HeaderBytes(h) + sealed, dir) == Err(WrongDirection(h.kind))
  {
    ParseWritten(h, sealed);
  }
}

/** The direction check passes everything the two ends send each other, and nothing else. */
module WireDirections {
  import opened Types
  import S = SenderSpec
  import opened DispatchSpec
  import W = Wire
  import opened System
  import opened SystemInv
  import opened SystemTheorems

  /** In every run each datagram is of a kind that travels in its direction, and the class the
      cipher uses is that of its kind. */
  lemma DirectionsAgree(scfg: SenderConfig, rcfg: ReceiverConfig, t0: Instant, ms: seq<Move>, d: Datagram, b: Body)
    requires Short(Run(scfg, rcfg, t0, ms))
    ensures var s := Run(scfg, rcfg, t0, ms);
            && (d in s.tap.sent ==> W.DirectionOf(W.KindOf(d.body)) == ToSink)
            && (b in s.replies ==> W.DirectionOf(W.KindOf(b)) == ToTap)
            && W.KindClass(W.KindOf(b)) == ClassOf(b)
  {
    RunInv(scfg, rcfg, t0, ms);
    var s := Run(scfg, rcfg, t0, ms);
    if d in s.tap.sent {
      assert Honest(s, d);
    }
  }
}
