/** The retransmission ring over whole runs: what a request is answered with, what a push evicts,
    and what the watermark is. */
module RingTheorems {
  import opened Types
  import G = GapSpec
  import opened RetransSpec
  import S = SenderSpec
  import opened DispatchSpec
  import opened System
  import opened SystemInv
  import opened SystemTheorems

  // ----- answering a request -----

  /** The frame can still be resent: it reached the ring and lies above the watermark. */
  ghost predicate Resendable(s: Sys, q: nat)
  {
    q in s.recorded && s.tap.snd.ring.lostBelow < q && 1 <= q <= |s.pushed|
  }

  /** The datagrams first sealed for the frames asked for, in the order asked. */
  ghost function Answer(s: Sys, missing: seq<nat>): (ds: seq<Datagram>)
    decreases |missing|
  {
    if missing == [] then []
    else (if Resendable(s, missing[0]) then [DataOf(s.pushed, missing[0])] else []) + Answer(s, missing[1..])
  }

  lemma {:induction false} LookupIsAnswer(scfg: SenderConfig, s: Sys, missing: seq<nat>)
    requires TapInv(scfg, s)
    ensures S.Lookup(s.tap.snd.ring.entries, missing) == Answer(s, missing)
    decreases |missing|
  {
    if missing != [] {
      LookupIsAnswer(scfg, s, missing[1..]);
      FoundIsResendable(scfg, s, missing[0]);
    }
  }

  lemma FoundIsResendable(scfg: SenderConfig, s: Sys, q: nat)
    requires TapInv(scfg, s)
    ensures Find(s.tap.snd.ring.entries, q) == if Resendable(s, q) then Some(DataOf(s.pushed, q)) else None
  {
    var r := s.tap.snd.ring;
    FindIsHolds(r.entries, q);
    if Resendable(s, q) {
      assert Holds(r, q, DataOf(s.pushed, q));
    } else {
      assert forall d :: Find(r.entries, q) == Some(d) <==> Holds(r, q, d);
    }
  }

  ghost predicate Answered(s: Sys, missing: seq<nat>, o: S.SendOut, s': Sys, sends: nat)
  {
    var ds := Answer(s, missing);
    var k := if |ds| <= sends then |ds| else sends;
    && o.event == (if ds == [] then None else Some(S.Resend(ds)))
    && s'.tap.sent == s.tap.sent + ds[..k] && s'.tap.seals == s.tap.seals
    && (forall d :: d in ds ==> d in s.tap.sent && d.body.Data?)
  }

  /** In every run a request is answered with exactly the datagrams first sealed for the frames
      asked for that are recorded and above the watermark, in the order asked, and with no event
      exactly if there are none. As many as the socket takes go on the wire again, verbatim:
      nothing is sealed. */
  lemma ResendIsVerbatim(scfg: SenderConfig, rcfg: ReceiverConfig, t0: Instant, ms: seq<Move>, missing: seq<nat>, sends: nat)
    requires Short(Run(scfg, rcfg, t0, ms))
    ensures var s := Run(scfg, rcfg, t0, ms);
            var o := S.Handle(scfg, s.tap.snd, Nack(missing));
            Answered(s, missing, o, ControlStep(s, o, sends), sends)
  {
    RunInv(scfg, rcfg, t0, ms);
    NackAnswered(scfg, rcfg, Run(scfg, rcfg, t0, ms), missing, sends);
  }

  lemma NackAnswered(scfg: SenderConfig, rcfg: ReceiverConfig, s: Sys, missing: seq<nat>, sends: nat)
    requires SysInv(scfg, rcfg, s)
    ensures var o := S.Handle(scfg, s.tap.snd, Nack(missing));
            Answered(s, missing, o, ControlStep(s, o, sends), sends)
  {
    LookupIsAnswer(scfg, s, missing);
    AnswerIsData(s, missing);
    NackKeeps(scfg, rcfg, s, missing, sends);
  }

  lemma {:induction false} AnswerIsData(s: Sys, missing: seq<nat>)
    ensures forall d :: d in Answer(s, missing) ==> d.body.Data?
    decreases |missing|
  {
    if missing != [] {
      AnswerIsData(s, missing[1..]);
    }
  }

  // ----- what a push evicts -----

  /** How many of the numbers lo..hi are recorded. */
  ghost function FramesFrom(recorded: set<nat>, lo: nat, hi: nat): (n: nat)
    decreases hi + 1 - lo
  {
    if lo > hi then 0 else (if lo in recorded then 1 else 0) + FramesFrom(recorded, lo + 1, hi)
  }

  /** How many bytes their sealed datagrams take. */
  ghost function BytesFrom(pushed: seq<Media>, recorded: set<nat>, lo: nat, hi: nat): (n: nat)
    requires 1 <= lo && hi <= |pushed|
    decreases hi + 1 - lo
  {
    if lo > hi then 0
    else (if lo in recorded then DataOf(pushed, lo).Size() else 0) + BytesFrom(pushed, recorded, lo + 1, hi)
  }

  /** The recorded frames from `v` to the newest are more than the configured ring takes. */
  ghost predicate Exceeds(scfg: SenderConfig, pushed: seq<Media>, recorded: set<nat>, v: nat)
    requires 1 <= v
  {
    || FramesFrom(recorded, v, |pushed|) > AtLeastOne(scfg.retransRingFrames)
    || BytesFrom(pushed, recorded, v, |pushed|) > AtLeastOne(scfg.retransRingBytes)
  }

  /** The slots are exactly the recorded frames lo..hi, ascending. */
  ghost predicate Lists(es: seq<Slot>, pushed: seq<Media>, recorded: set<nat>, lo: nat, hi: nat)
  {
    && 1 <= lo && hi <= |pushed|
    && (forall i, j :: 0 <= i < j < |es| ==> es[i].seqNo < es[j].seqNo)
    && (forall s :: s in es <==> lo <= s.seqNo <= hi && s.seqNo in recorded && s.sealed == DataOf(pushed, s.seqNo))
  }

  lemma {:induction false} ListsWeigh(es: seq<Slot>, pushed: seq<Media>, recorded: set<nat>, lo: nat, hi: nat)
    requires Lists(es, pushed, recorded, lo, hi)
    ensures |es| == FramesFrom(recorded, lo, hi) && Total(es) == BytesFrom(pushed, recorded, lo, hi)
    decreases hi + 1 - lo
  {
    if lo > hi {
      EmptyOrSome(es);
    } else if lo in recorded {
      ListsHead(es, pushed, recorded, lo, hi);
      ListsWeigh(es[1..], pushed, recorded, lo + 1, hi);
    } else {
      ListsWeigh(es, pushed, recorded, lo + 1, hi);
    }
  }

  lemma EmptyOrSome(es: seq<Slot>)
    ensures es == [] || exists s :: s in es
  {
    if es != [] {
      assert es[0] in es;
    }
  }

  lemma ListsHead(es: seq<Slot>, pushed: seq<Media>, recorded: set<nat>, lo: nat, hi: nat)
    requires Lists(es, pushed, recorded, lo, hi) && lo <= hi && lo in recorded
    ensures es != [] && es[0] == Slot(lo, DataOf(pushed, lo)) && Lists(es[1..], pushed, recorded, lo + 1, hi)
  {
    var s := Slot(lo, DataOf(pushed, lo));
    assert s in es;
    var i :| 0 <= i < |es| && es[i] == s;
    assert es[0] in es;
    assert forall x :: x in es <==> x == es[0] || x in es[1..];
    assert forall x :: x in es[1..] ==> x.seqNo > es[0].seqNo;
  }

  lemma {:induction false} TotalSuffix(es: seq<Slot>, j: nat)
    requires j <= |es|
    ensures Total(es[j..]) <= Total(es)
    decreases j
  {
    if j == 0 {
      assert es[0..] == es;
    } else {
      TotalSuffix(es[1..], j - 1);
      assert es[1..][j - 1..] == es[j..];
    }
  }

  /** Trimming drops an entry exactly when it and those after it exceed a budget. */
  lemma TrimExact(a: Ring, j: nat)
    requires RingOk(a) && j < |a.entries|
    ensures a.entries[j] !in Trim(a).entries <==>
            |a.entries| - j > a.maxFrames || Total(a.entries[j..]) > a.maxBytes
  {
    var k := TrimIsLongestSuffix(a);
    if j >= k {
      assert a.entries[k..][j - k] == a.entries[j];
      assert a.entries[k..][j - k..] == a.entries[j..];
      TotalSuffix(a.entries[k..], j - k);
    } else {
      assert forall i :: k <= i < |a.entries| ==> a.entries[i].seqNo > a.entries[j].seqNo;
    }
  }

  /** A frame that reaches the ring, pushed in a state where the ring is what it should be. */
  ghost predicate Kept(scfg: SenderConfig, rcfg: ReceiverConfig, s: Sys, m: Media, sends: nat)
  {
    && SysInv(scfg, rcfg, s) && |s.pushed| + 1 < U32_MAX
    && S.CanSend(scfg, s.tap.snd) && FitsWire(Data(m.ts, m.payload)) && sends > 0
  }

  lemma AppendLists(scfg: SenderConfig, rcfg: ReceiverConfig, s: Sys, m: Media, at: Instant, sends: nat)
    requires Kept(scfg, rcfg, s, m, sends)
    ensures var s' := PushStep(scfg, s, m, at, sends);
            var q := |s.pushed| + 1;
            var a := Append(s.tap.snd.ring, q, DataOf(s'.pushed, q));
            && RingOk(a) && s'.tap.snd.ring == Trim(a)
            && s'.pushed == s.pushed + [m] && s'.recorded == s.recorded + {q}
            && Lists(a.entries, s'.pushed, s'.recorded, s.tap.snd.ring.lostBelow + 1, q)
  {
    var r := s.tap.snd.ring;
    var s' := PushStep(scfg, s, m, at, sends);
    var q := |s.pushed| + 1;
    var d := DataOf(s'.pushed, q);
    forall i | 0 <= i < |r.entries| ensures 1 <= r.entries[i].seqNo <= |s.pushed| {
      assert Holds(r, r.entries[i].seqNo, r.entries[i].sealed);
    }
    AppendKeeps(r, q, d);
    assert forall k: nat :: 1 <= k <= |s.pushed| ==> DataOf(s'.pushed, k) == DataOf(s.pushed, k);
    forall x: Slot ensures x in Append(r, q, d).entries <==>
      r.lostBelow + 1 <= x.seqNo <= q && x.seqNo in s'.recorded && x.sealed == DataOf(s'.pushed, x.seqNo)
    {
      assert x in r.entries <==> Holds(r, x.seqNo, x.sealed);
    }
  }

  lemma {:induction false} ListsTail(es: seq<Slot>, pushed: seq<Media>, recorded: set<nat>, lo: nat, hi: nat, j: nat)
    requires Lists(es, pushed, recorded, lo, hi) && j < |es|
    ensures es[j] in es && lo <= es[j].seqNo <= hi && Lists(es[j..], pushed, recorded, es[j].seqNo, hi)
  {
    assert es[j] in es;
    forall s ensures s in es[j..] <==>
      es[j].seqNo <= s.seqNo <= hi && s.seqNo in recorded && s.sealed == DataOf(pushed, s.seqNo)
    {
      if s in es[j..] {
        var i :| 0 <= i < |es[j..]| && es[j..][i] == s;
        assert es[j + i] == s && s in es;
      } else if s in es {
        var i :| 0 <= i < |es| && es[i] == s;
        assert i < j;
      }
    }
  }

  lemma SlotEvicted(scfg: SenderConfig, a: Ring, pushed: seq<Media>, recorded: set<nat>, lo: nat, x: Slot)
    requires RingOk(a) && Lists(a.entries, pushed, recorded, lo, |pushed|) && x in a.entries
    requires a.maxFrames == AtLeastOne(scfg.retransRingFrames) && a.maxBytes == AtLeastOne(scfg.retransRingBytes)
    ensures x.seqNo !in Seqs(Trim(a)) <==> Exceeds(scfg, pushed, recorded, x.seqNo)
  {
    var j :| 0 <= j < |a.entries| && a.entries[j] == x;
    ListsTail(a.entries, pushed, recorded, lo, |pushed|, j);
    ListsWeigh(a.entries[j..], pushed, recorded, x.seqNo, |pushed|);
    TrimExact(a, j);
    StillThere(a, x);
  }

  lemma EvictedIffExceeds(scfg: SenderConfig, rcfg: ReceiverConfig, s: Sys, m: Media, at: Instant, sends: nat, v: nat)
    requires Kept(scfg, rcfg, s, m, sends)
    requires var s' := PushStep(scfg, s, m, at, sends);
             v in s'.recorded && s.tap.snd.ring.lostBelow < v <= |s.pushed| + 1
    ensures var s' := PushStep(scfg, s, m, at, sends);
            v !in Seqs(s'.tap.snd.ring) <==> Exceeds(scfg, s'.pushed, s'.recorded, v)
  {
    var s' := PushStep(scfg, s, m, at, sends);
    var q := |s.pushed| + 1;
    AppendLists(scfg, rcfg, s, m, at, sends);
    var a := Append(s.tap.snd.ring, q, DataOf(s'.pushed, q));
    SlotEvicted(scfg, a, s'.pushed, s'.recorded, s.tap.snd.ring.lostBelow + 1, Slot(v, DataOf(s'.pushed, v)));
  }

  lemma StillThere(a: Ring, x: Slot)
    requires RingOk(a) && x in a.entries
    ensures x in Trim(a).entries <==> x.seqNo in Seqs(Trim(a))
  {
    var k := TrimIsLongestSuffix(a);
    if x.seqNo in Seqs(Trim(a)) {
      var y :| y in Trim(a).entries && y.seqNo == x.seqNo;
      assert y in a.entries;
      SameSlot(a.entries, x, y);
    }
  }

  lemma SameSlot(es: seq<Slot>, x: Slot, y: Slot)
    requires forall i, j :: 0 <= i < j < |es| ==> es[i].seqNo < es[j].seqNo
    requires x in es && y in es && x.seqNo == y.seqNo
    ensures x == y
  {
    var i :| 0 <= i < |es| && es[i] == x;
    var j :| 0 <= j < |es| && es[j] == y;
    assert i == j;
  }

  /** The frames a push evicts: those still above the watermark from which on the recorded
      frames exceed a configured limit. */
  ghost function Evicted(scfg: SenderConfig, s: Sys, s': Sys): (vs: set<nat>)
  {
    set v: nat | v in s'.recorded && s.tap.snd.ring.lostBelow < v && Exceeds(scfg, s'.pushed, s'.recorded, v)
  }

  lemma OverflowAt(scfg: SenderConfig, rcfg: ReceiverConfig, s: Sys, m: Media, at: Instant, sends: nat)
    requires Kept(scfg, rcfg, s, m, sends)
    ensures var s' := PushStep(scfg, s, m, at, sends); s'.overflowed == s.overflowed + Evicted(scfg, s, s')
  {
    var s' := PushStep(scfg, s, m, at, sends);
    var gone := Seqs(s.tap.snd.ring) + {|s.pushed| + 1} - Seqs(s'.tap.snd.ring);
    AppendLists(scfg, rcfg, s, m, at, sends);
    forall v: nat ensures v in gone <==> v in Evicted(scfg, s, s') {
      HeldSeqs(scfg, s, v);
      if v in s'.recorded && s.tap.snd.ring.lostBelow < v {
        EvictedIffExceeds(scfg, rcfg, s, m, at, sends, v);
      }
    }
    assert gone == Evicted(scfg, s, s');
  }

  lemma HeldSeqs(scfg: SenderConfig, s: Sys, v: nat)
    requires TapInv(scfg, s)
    ensures v in Seqs(s.tap.snd.ring) <==> v in s.recorded && s.tap.snd.ring.lostBelow < v
  {
    var r := s.tap.snd.ring;
    if v in Seqs(r) {
      var x :| x in r.entries && x.seqNo == v;
      assert Holds(r, v, x.sealed);
    }
    if v in s.recorded && r.lostBelow < v {
      assert Holds(r, v, DataOf(s.pushed, v));
    }
  }

  /** In every run, frames leave by overflow exactly as the configured limits say: a push that
      reaches the ring evicts those from which on the recorded frames exceed one of the two
      limits; every other move evicts nothing. */
  lemma OverflowExact(scfg: SenderConfig, rcfg: ReceiverConfig, t0: Instant, ms: seq<Move>, x: Move)
    requires Short(Run(scfg, rcfg, t0, ms + [x]))
    ensures var s, s' := Run(scfg, rcfg, t0, ms), Run(scfg, rcfg, t0, ms + [x]);
            var kept := x.PushMove? && S.CanSend(scfg, s.tap.snd) && FitsWire(Data(x.media.ts, x.media.payload)) && x.sends > 0;
            s'.overflowed == s.overflowed + if kept then Evicted(scfg, s, s') else {}
  {
    assert (ms + [x])[..|ms|] == ms;
    RunGrows(scfg, rcfg, t0, ms + [x], |ms|);
    RunInv(scfg, rcfg, t0, ms);
    OverflowStep(scfg, rcfg, Run(scfg, rcfg, t0, ms), x);
  }

  lemma OverflowStep(scfg: SenderConfig, rcfg: ReceiverConfig, s: Sys, x: Move)
    requires SysInv(scfg, rcfg, s) && |Step(scfg, rcfg, s, x).pushed| < U32_MAX
    ensures var s' := Step(scfg, rcfg, s, x);
            var kept := x.PushMove? && S.CanSend(scfg, s.tap.snd) && FitsWire(Data(x.media.ts, x.media.payload)) && x.sends > 0;
            s'.overflowed == s.overflowed + if kept then Evicted(scfg, s, s') else {}
  {
    if x.PushMove? && S.CanSend(scfg, s.tap.snd) && FitsWire(Data(x.media.ts, x.media.payload)) && x.sends > 0 {
      OverflowAt(scfg, rcfg, s, x.media, x.at, x.sends);
    }
  }

  // ----- the watermark -----

  /** The largest prefix an acknowledgement handled so far named. */
  ghost function AckedMost(scfg: SenderConfig, rcfg: ReceiverConfig, t0: Instant, ms: seq<Move>): (c: nat)
    decreases |ms|
  {
    if ms == [] then 0
    else
      var before, m := ms[..|ms| - 1], ms[|ms| - 1];
      var c := AckedMost(scfg, rcfg, t0, before);
      if m.TapPacket? && m.body.Ack? && m.body in Run(scfg, rcfg, t0, before).replies && m.body.contiguous > c
      then m.body.contiguous else c
  }

  /** The watermark is the largest of what was acknowledged and what overflowed. */
  ghost predicate Watermarked(s: Sys, acked: nat)
  {
    s.tap.snd.ring.lostBelow == G.Max(s.overflowed + {acked})
  }

  lemma MaxIs(a: set<nat>, m: nat)
    requires m in a && forall x :: x in a ==> x <= m
    ensures G.Max(a) == m
  {
  }

  lemma WatermarkPush(scfg: SenderConfig, rcfg: ReceiverConfig, s: Sys, m: Media, at: Instant, sends: nat, acked: nat)
    requires Kept(scfg, rcfg, s, m, sends) && Watermarked(s, acked)
    ensures Watermarked(PushStep(scfg, s, m, at, sends), acked)
  {
    var s' := PushStep(scfg, s, m, at, sends);
    var r, r' := s.tap.snd.ring, s'.tap.snd.ring;
    RingAfterPush(scfg, rcfg, s, m);
    assert s'.tap.snd.ring == Push(r, |s.pushed| + 1, DataOf(s.pushed + [m], |s.pushed| + 1));
    forall v | v in s'.overflowed ensures v <= r'.lostBelow {
      if v in Seqs(r) + {|s.pushed| + 1} - Seqs(r') {
        GoneIsBelow(scfg, s, m, r', v);
      }
    }
    MaxIs(s'.overflowed + {acked}, r'.lostBelow);
  }

  lemma GoneIsBelow(scfg: SenderConfig, s: Sys, m: Media, r': Ring, v: nat)
    requires TapInv(scfg, s)
    requires var q := |s.pushed| + 1;
             var d := DataOf(s.pushed + [m], q);
             forall k: nat, x :: Holds(r', k, x) <==> k > r'.lostBelow && (Holds(s.tap.snd.ring, k, x) || (k == q && x == d))
    requires v in Seqs(s.tap.snd.ring) + {|s.pushed| + 1} - Seqs(r')
    ensures v <= r'.lostBelow
  {
    var q := |s.pushed| + 1;
    var d := DataOf(s.pushed + [m], q);
    if v == q {
      assert !Holds(r', q, d);
    } else {
      var x :| x in s.tap.snd.ring.entries && x.seqNo == v;
      assert Holds(s.tap.snd.ring, v, x.sealed) && !Holds(r', v, x.sealed);
    }
  }

  lemma WatermarkAck(scfg: SenderConfig, rcfg: ReceiverConfig, s: Sys, b: Body, sends: nat, acked: nat)
    requires SysInv(scfg, rcfg, s) && Watermarked(s, acked) && b.Ack?
    ensures Watermarked(ControlStep(s, S.Handle(scfg, s.tap.snd, b), sends), if b.contiguous > acked then b.contiguous else acked)
  {
    RetransSpec.AckKeeps(s.tap.snd.ring, b.contiguous);
    var s' := ControlStep(s, S.Handle(scfg, s.tap.snd, b), sends);
    MaxIs(s.overflowed + {if b.contiguous > acked then b.contiguous else acked}, s'.tap.snd.ring.lostBelow);
  }

  /** Only a frame that is kept or an acknowledgement moves the watermark. */
  ghost predicate MovesRing(scfg: SenderConfig, s: Sys, m: Move)
  {
    || (m.PushMove? && S.CanSend(scfg, s.tap.snd) && FitsWire(Data(m.media.ts, m.media.payload)) && m.sends > 0)
    || (m.TapPacket? && m.body.Ack? && m.body in s.replies)
  }

  lemma RingStays(scfg: SenderConfig, rcfg: ReceiverConfig, s: Sys, m: Move)
    requires !MovesRing(scfg, s, m)
    ensures Step(scfg, rcfg, s, m).tap.snd.ring == s.tap.snd.ring && Step(scfg, rcfg, s, m).overflowed == s.overflowed
  {
    match m
    case PushMove(_, _, _) =>
    case FinishMove(at, sends) =>
    case TapTick(at, sends) =>
    case TapPacket(body, at, sends) =>
    case _ =>
  }

  lemma WatermarkStep(scfg: SenderConfig, rcfg: ReceiverConfig, s: Sys, m: Move, acked: nat)
    requires SysInv(scfg, rcfg, s) && |Step(scfg, rcfg, s, m).pushed| < U32_MAX && Watermarked(s, acked)
    ensures Watermarked(Step(scfg, rcfg, s, m),
                        if m.TapPacket? && m.body.Ack? && m.body in s.replies && m.body.contiguous > acked
                        then m.body.contiguous else acked)
  {
    if !MovesRing(scfg, s, m) {
      RingStays(scfg, rcfg, s, m);
    } else if m.PushMove? {
      WatermarkPush(scfg, rcfg, s, m.media, m.at, m.sends, acked);
    } else {
      WatermarkAck(scfg, rcfg, s, m.body, m.sends, acked);
    }
  }

  /** In every run the watermark that keepalives report is the largest number acknowledged as a
      prefix or lost by overflow. */
  lemma {:induction false} WatermarkExact(scfg: SenderConfig, rcfg: ReceiverConfig, t0: Instant, ms: seq<Move>)
    requires Short(Run(scfg, rcfg, t0, ms))
    ensures Watermarked(Run(scfg, rcfg, t0, ms), AckedMost(scfg, rcfg, t0, ms))
    decreases |ms|
  {
    if ms == [] {
      MaxIs({} + {0}, 0);
    } else {
      var before := ms[..|ms| - 1];
      RunGrows(scfg, rcfg, t0, ms, |ms| - 1);
      RunInv(scfg, rcfg, t0, before);
      WatermarkExact(scfg, rcfg, t0, before);
      WatermarkStep(scfg, rcfg, Run(scfg, rcfg, t0, before), ms[|ms| - 1], AckedMost(scfg, rcfg, t0, before));
    }
  }
}
