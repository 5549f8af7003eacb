/** What the composed system promises over every run. */
module SystemTheorems {
  import opened Types
  import opened GapSpec
  import R = ReceiverSpec
  import opened ReceiverSteps
  import opened ReceiverRuns
  import O = ReceiverOutcomes
  import opened RetransSpec
  import S = SenderSpec
  import opened DispatchSpec
  import opened System
  import opened SystemInv

  // ----- every run keeps the invariants -----

  /** Sequence numbers saturate: after k pushes the next one is k + 1, but never above 2^32 - 1. */
  ghost predicate SeqInv(s: Sys)
  {
    s.tap.snd.nextSeq == if |s.pushed| < U32_MAX then |s.pushed| + 1 else U32_MAX
  }

  lemma StepSeq(scfg: SenderConfig, rcfg: ReceiverConfig, s: Sys, m: Move)
    requires SeqInv(s)
    ensures SeqInv(Step(scfg, rcfg, s, m))
    ensures s.pushed <= Step(scfg, rcfg, s, m).pushed && s.tap.sent <= Step(scfg, rcfg, s, m).tap.sent
  {
  }

  lemma {:induction false} RunSeq(scfg: SenderConfig, rcfg: ReceiverConfig, t0: Instant, ms: seq<Move>)
    ensures SeqInv(Run(scfg, rcfg, t0, ms))
    decreases |ms|
  {
    if ms != [] {
      RunSeq(scfg, rcfg, t0, ms[..|ms| - 1]);
      StepSeq(scfg, rcfg, Run(scfg, rcfg, t0, ms[..|ms| - 1]), ms[|ms| - 1]);
    }
  }

  /** In every run, the final number the tap would declare is the number of frames it pushed
      exactly as long as it pushed fewer than 2^32 - 1 of them. */
  lemma FinalSeqExact(scfg: SenderConfig, rcfg: ReceiverConfig, t0: Instant, ms: seq<Move>)
    ensures var s := Run(scfg, rcfg, t0, ms);
            S.LastSeq(s.tap.snd) == |s.pushed| <==> |s.pushed| < U32_MAX
  {
    RunSeq(scfg, rcfg, t0, ms);
  }

  lemma StepKeeps(scfg: SenderConfig, rcfg: ReceiverConfig, s: Sys, m: Move)
    requires SysInv(scfg, rcfg, s) && |Step(scfg, rcfg, s, m).pushed| < U32_MAX
    ensures SysInv(scfg, rcfg, Step(scfg, rcfg, s, m))
  {
    match m
    case PushMove(media, at, sends) =>
      if S.CanSend(scfg, s.tap.snd) {
        if FitsWire(Data(media.ts, media.payload)) && sends > 0 {
          PushKept(scfg, rcfg, s, media, at, sends);
        } else {
          PushLost(scfg, rcfg, s, media, at, sends);
        }
      }
    case FinishMove(at, sends) => FinishKeeps(scfg, rcfg, s, at, sends);
    case TapTick(at, sends) => TickKeeps(scfg, rcfg, s, at, sends);
    case TapPacket(body, at, sends) => TapPacketKeeps(scfg, rcfg, s, body, sends);
    case SinkPacket(d, at, occupancy) =>
      if d in s.tap.sent {
        SinkKeeps(scfg, rcfg, s, Packet(d.seqNo, d.body, at), occupancy);
      }
    case SinkTick(at, occupancy) => SinkKeeps(scfg, rcfg, s, Clock(at), occupancy);
    case SinkReport(ms, at) => SinkKeeps(scfg, rcfg, s, Occupancy(ms, at), 0);
  }

  lemma TapPacketKeeps(scfg: SenderConfig, rcfg: ReceiverConfig, s: Sys, body: Body, sends: nat)
    requires SysInv(scfg, rcfg, s)
    ensures body in s.replies ==> SysInv(scfg, rcfg, ControlStep(s, S.Handle(scfg, s.tap.snd, body), sends))
  {
    if body in s.replies {
      match body
      case Ack(c, h, ms) => AckStepKeeps(scfg, rcfg, s, c, h, ms, sends);
      case Nack(missing) => NackKeeps(scfg, rcfg, s, missing, sends);
      case EndAck => EndAckKeeps(scfg, rcfg, s, sends);
      case _ =>
    }
  }

  /** Fewer than 2^32 - 1 frames were pushed. */
  ghost predicate Short(s: Sys)
  {
    |s.pushed| < U32_MAX
  }

  lemma {:induction false} RunInv(scfg: SenderConfig, rcfg: ReceiverConfig, t0: Instant, ms: seq<Move>)
    requires Short(Run(scfg, rcfg, t0, ms))
    ensures SysInv(scfg, rcfg, Run(scfg, rcfg, t0, ms))
    decreases |ms|
  {
    if ms == [] {
      BeginInv(scfg, rcfg, t0);
    } else {
      var before := Run(scfg, rcfg, t0, ms[..|ms| - 1]);
      RunSeq(scfg, rcfg, t0, ms[..|ms| - 1]);
      StepSeq(scfg, rcfg, before, ms[|ms| - 1]);
      RunInv(scfg, rcfg, t0, ms[..|ms| - 1]);
      StepKeeps(scfg, rcfg, before, ms[|ms| - 1]);
    }
  }

  // ----- end to end -----

  lemma ReliablePut(tr: seq<RecvEvent>, e: RecvEvent)
    ensures ReliableIn(tr + [e]) == ReliableIn(tr) + if e.Reliable? then [e.frame] else []
  {
    ReliableAppend(tr, [e]);
    assert [e][1..] == [] && ReliableIn([e]) == Copied(e) + ReliableIn([e][1..]);
  }

  lemma {:induction false} ReliableOnto(out: seq<RecvEvent>, fs: seq<Frame>)
    ensures ReliableIn(R.RelOnto(out, fs)) == ReliableIn(out) + fs
    decreases |fs|
  {
    if fs != [] {
      ReliablePut(out, Reliable(fs[0]));
      ReliableOnto(out + [Reliable(fs[0])], fs[1..]);
    }
  }

  /** Appending an event that is not `Reliable`, or nothing. */
  lemma OtherPut(tr: seq<RecvEvent>, c: bool, e: RecvEvent)
    requires !e.Reliable?
    ensures ReliableIn(if c then tr + [e] else tr) == ReliableIn(tr)
  {
    ReliablePut(tr, e);
  }

  lemma ReliableTail(out: seq<RecvEvent>, b: R.Burst)
    ensures ReliableIn(R.TailOnto(out, b)) == ReliableIn(out)
  {
    var v := if b.fin.Some? then b.fin.value else Complete(0);
    var a := if b.ack.Some? then b.ack.value else R.AckInfo(0, 0, 0);
    var finished := if b.fin.Some? then out + [RelFinished(v)] else out;
    OtherPut(out, b.fin.Some?, RelFinished(v));
    var acked := if b.endAck then finished + [SendEndAck] else finished;
    OtherPut(finished, b.endAck, SendEndAck);
    var closed := if b.closed then acked + [Closed] else acked;
    OtherPut(acked, b.closed, Closed);
    OtherPut(closed, b.ack.Some?, SendAck(a.contiguous, a.highest, a.bufferedMs));
  }

  lemma ReliableEvents(b: R.Burst)
    ensures ReliableIn(R.Events(b)) == b.rel
  {
    var e := if b.unrel.Some? then Unreliable(b.unrel.value) else Closed;
    var played := if b.unrel.Some? then [] + [e] else [];
    OtherPut([], b.unrel.Some?, e);
    ReliableOnto(played, b.rel);
    OtherPut(R.RelOnto(played, b.rel), b.nack != [], SendNack(b.nack));
    ReliableTail(R.HeadOnto([], b), b);
    assert ReliableIn([]) == [];
  }

  lemma {:induction false} ReliableTrace(log: seq<Entry>)
    ensures ReliableIn(O.Trace(log)) == Released(log)
    decreases |log|
  {
    if log != [] {
      var before, b := log[..|log| - 1], log[|log| - 1].burst;
      ReliableTrace(before);
      ReliableEvents(b);
      ReliableAppend(O.Trace(before), R.Events(b));
    }
  }

  // ----- what the binding does with the events -----

  /** Appending one event under a condition. */
  lemma RepliesPut(tr: seq<RecvEvent>, c: bool, e: RecvEvent, occ: nat)
    ensures RepliesTo(if c then tr + [e] else tr, occ)
            == RepliesTo(tr, occ) + if c && ReplyTo(e, occ).Some? then [ReplyTo(e, occ).value] else []
  {
    RepliesAppend(tr, [e], occ);
    assert [e][1..] == [];
    assert RepliesTo([e], occ)
           == (if ReplyTo(e, occ).Some? then [ReplyTo(e, occ).value] else []) + RepliesTo([e][1..], occ);
  }

  lemma {:induction false} RepliesOnto(out: seq<RecvEvent>, fs: seq<Frame>, occ: nat)
    ensures RepliesTo(R.RelOnto(out, fs), occ) == RepliesTo(out, occ)
    decreases |fs|
  {
    if fs != [] {
      RepliesPut(out, true, Reliable(fs[0]), occ);
      RepliesOnto(out + [Reliable(fs[0])], fs[1..], occ);
    }
  }

  lemma RepliesHead(b: R.Burst, occ: nat)
    ensures RepliesTo(R.HeadOnto([], b), occ) == if b.nack != [] then [Nack(b.nack)] else []
  {
    var e := if b.unrel.Some? then Unreliable(b.unrel.value) else Closed;
    var played := if b.unrel.Some? then [] + [e] else [];
    RepliesPut([], b.unrel.Some?, e, occ);
    RepliesOnto(played, b.rel, occ);
    RepliesPut(R.RelOnto(played, b.rel), b.nack != [], SendNack(b.nack), occ);
    assert RepliesTo([], occ) == [];
  }

  lemma RepliesTail(out: seq<RecvEvent>, b: R.Burst, occ: nat)
    ensures RepliesTo(R.TailOnto(out, b), occ)
            == RepliesTo(out, occ) + (if b.endAck then [EndAck] else [])
               + if b.ack.Some? then [Ack(b.ack.value.contiguous, b.ack.value.highest, occ)] else []
  {
    var v := if b.fin.Some? then b.fin.value else Complete(0);
    var a := if b.ack.Some? then b.ack.value else R.AckInfo(0, 0, 0);
    var finished := if b.fin.Some? then out + [RelFinished(v)] else out;
    RepliesPut(out, b.fin.Some?, RelFinished(v), occ);
    assert RepliesTo(finished, occ) == RepliesTo(out, occ);
    var acked := if b.endAck then finished + [SendEndAck] else finished;
    RepliesPut(finished, b.endAck, SendEndAck, occ);
    var closed := if b.closed then acked + [Closed] else acked;
    RepliesPut(acked, b.closed, Closed, occ);
    assert RepliesTo(closed, occ) == RepliesTo(acked, occ);
    RepliesPut(closed, b.ack.Some?, SendAck(a.contiguous, a.highest, a.bufferedMs), occ);
  }

  /** The replies of a composed step are those its events ask for, in the order of the events. */
  lemma RepliesAreEvents(b: R.Burst, occ: nat)
    ensures Replies(b, occ) == RepliesTo(R.Events(b), occ)
  {
    RepliesHead(b, occ);
    RepliesTail(R.HeadOnto([], b), b, occ);
  }

  const NEW_SINK := Sink(0, [], [], 0, [], None, 0)

  /** The endpoint's entry after applying the events of every step so far; `occ` and `room` give
      each step's occupancy report and the room its playback channel had. */
  ghost function SinkAfter(log: seq<Entry>, occ: nat -> nat, room: nat -> nat): (k: Sink)
    decreases |log|
  {
    if log == [] then NEW_SINK
    else
      var n := |log| - 1;
      ApplyAll(SinkAfter(log[..n], occ, room), R.Events(log[n].burst), occ(n), room(n)).sink
  }

  /** The channels carry the trace: the cache gets its `Reliable` frames in order, and the
      outcome is the one it reports. */
  lemma {:induction false} ChannelsFed(log: seq<Entry>, occ: nat -> nat, room: nat -> nat)
    ensures SinkAfter(log, occ, room).cached == ReliableIn(O.Trace(log))
    ensures SinkAfter(log, occ, room).outcome == FirstOutcome(O.Trace(log))
    decreases |log|
  {
    if log != [] {
      var n := |log| - 1;
      var evs := R.Events(log[n].burst);
      ChannelsFed(log[..n], occ, room);
      ApplyCaches(SinkAfter(log[..n], occ, room), evs, occ(n), room(n));
      ReliableAppend(O.Trace(log[..n]), evs);
      OutcomeAppend(O.Trace(log[..n]), evs);
    }
  }

  /** A reported outcome is the outcome of some step. */
  lemma {:induction false} OutcomeTraced(log: seq<Entry>, v: RelOutcome)
    requires RelFinished(v) in O.Trace(log)
    ensures exists i :: 0 <= i < |log| && log[i].burst.fin == Some(v)
    decreases |log|
  {
    var n := |log| - 1;
    if RelFinished(v) in O.Trace(log[..n]) {
      OutcomeTraced(log[..n], v);
      var i :| 0 <= i < n && log[..n][i].burst.fin == Some(v);
      assert log[i].burst.fin == Some(v);
    } else {
      O.EventsRanked(log[n].burst);
      assert O.Names(log[n].burst, RelFinished(v));
    }
  }

  /** The `Reliable` events so far are a prefix of what the tap pushed, number by number, with
      the same timestamps and the same bytes; and once `Complete` is reported its number is the
      count of frames pushed and the copy is the whole of it. */
  ghost predicate CopyExact(s: Sys)
  {
    var copy := ReliableIn(O.Trace(s.rcv.log));
    && |copy| <= |s.pushed|
    && (forall i :: 0 <= i < |copy| ==> copy[i] == Frame(i + 1, s.pushed[i].ts, s.pushed[i].payload))
    && (forall final: nat :: RelFinished(Complete(final)) in O.Trace(s.rcv.log) ==> final == |s.pushed| == |copy|)
  }

  /** The cache copy is byte-exact, over every run, under any loss, duplication and reordering. */
  lemma EndToEnd(scfg: SenderConfig, rcfg: ReceiverConfig, t0: Instant, ms: seq<Move>)
    requires Short(Run(scfg, rcfg, t0, ms))
    ensures CopyExact(Run(scfg, rcfg, t0, ms))
  {
    RunInv(scfg, rcfg, t0, ms);
    ExactCopy(scfg, rcfg, Run(scfg, rcfg, t0, ms));
  }

  lemma ExactCopy(scfg: SenderConfig, rcfg: ReceiverConfig, s: Sys)
    requires SysInv(scfg, rcfg, s)
    ensures CopyExact(s)
  {
    ReliableTrace(s.rcv.log);
    Bounds(scfg, rcfg, s);
    var copy := Released(s.rcv.log);
    forall i | 0 <= i < |copy| ensures copy[i] == Frame(i + 1, s.pushed[i].ts, s.pushed[i].payload) {
      assert copy[i] in s.rcv.given && copy[i].seqNo == i + 1;
    }
    forall final: nat | RelFinished(Complete(final)) in O.Trace(s.rcv.log) ensures final == |s.pushed| == |copy| {
      OutcomeTraced(s.rcv.log, Complete(final));
    }
  }

  /** What the cache channel and the outcome channel received is right. */
  ghost predicate CacheExact(s: Sys, k: Sink)
  {
    && |k.cached| <= |s.pushed|
    && (forall i :: 0 <= i < |k.cached| ==> k.cached[i] == Frame(i + 1, s.pushed[i].ts, s.pushed[i].payload))
    && (k.outcome.Some? && k.outcome.value.Complete? ==>
          k.outcome.value.finalSeq == |s.pushed| == |k.cached|)
  }

  /** The copy on the cache channel is byte-exact, and a `Complete` on the outcome channel means
      it is whole, for any occupancy reports and however full the playback channel was. */
  lemma CacheChannelExact(scfg: SenderConfig, rcfg: ReceiverConfig, t0: Instant, ms: seq<Move>,
                          occ: nat -> nat, room: nat -> nat)
    requires Short(Run(scfg, rcfg, t0, ms))
    ensures CacheExact(Run(scfg, rcfg, t0, ms), SinkAfter(Run(scfg, rcfg, t0, ms).rcv.log, occ, room))
  {
    EndToEnd(scfg, rcfg, t0, ms);
    CacheCopies(Run(scfg, rcfg, t0, ms), occ, room);
  }

  lemma CacheCopies(s: Sys, occ: nat -> nat, room: nat -> nat)
    requires CopyExact(s)
    ensures CacheExact(s, SinkAfter(s.rcv.log, occ, room))
  {
    ChannelsFed(s.rcv.log, occ, room);
    OutcomeIn(O.Trace(s.rcv.log));
  }

  // ----- completion, flow control -----

  /** When the sender reports completion, `End` had been sent and every frame it pushed really
      arrived, whichever way the reliable stream ended. */
  lemma CompletedMeansArrived(scfg: SenderConfig, rcfg: ReceiverConfig, t0: Instant, ms: seq<Move>)
    requires Short(Run(scfg, rcfg, t0, ms)) && Run(scfg, rcfg, t0, ms).completed
    ensures var s := Run(scfg, rcfg, t0, ms);
            && (exists c: nat :: Datagram(c, End(|s.pushed|)) in s.tap.sent)
            && (forall q: nat :: 1 <= q <= |s.pushed| ==> q in s.rcv.arrived)
  {
    RunInv(scfg, rcfg, t0, ms);
    var s := Run(scfg, rcfg, t0, ms);
    assert forall q: nat :: 1 <= q <= |s.pushed| ==> Covers(s.rcv.st.gaps, q);
  }

  /** Neither end overstates what the sink has seen, and the tap is never further ahead of it
      than its window. */
  ghost predicate WindowHolds(scfg: SenderConfig, s: Sys)
  {
    var h := s.rcv.st.gaps.highest;
    s.tap.snd.ackedHighest <= h <= S.LastSeq(s.tap.snd) <= h + scfg.maxOutstanding
  }

  /** The send window is never exceeded by what the receiver has really seen, even when
      acknowledgements are lost, duplicated or stale. */
  lemma FlowControl(scfg: SenderConfig, rcfg: ReceiverConfig, t0: Instant, ms: seq<Move>)
    requires Short(Run(scfg, rcfg, t0, ms))
    ensures WindowHolds(scfg, Run(scfg, rcfg, t0, ms))
  {
    RunInv(scfg, rcfg, t0, ms);
    Bounds(scfg, rcfg, Run(scfg, rcfg, t0, ms));
  }

  // ----- the ring and the discard report -----

  /** A number is answered from the ring exactly when it was recorded and lies above the
      watermark, and then with the datagram first sealed for it; if every frame reached the
      ring, what it holds is exactly the interval (watermark, last pushed]. */
  ghost predicate RingExact(scfg: SenderConfig, s: Sys, q: nat)
  {
    var r := s.tap.snd.ring;
    && (Find(r.entries, q).Some? <==> q in s.recorded && q > r.lostBelow)
    && (Find(r.entries, q).Some? ==>
          && 1 <= q <= |s.pushed| && Find(r.entries, q).value == DataOf(s.pushed, q)
          && DataOf(s.pushed, q) in s.tap.sent)
    && ((forall k: nat :: 1 <= k <= |s.pushed| ==> k in s.recorded) ==>
          (Find(r.entries, q).Some? <==> r.lostBelow < q <= |s.pushed|))
    && r.bytes == Total(r.entries)
    && |r.entries| <= AtLeastOne(scfg.retransRingFrames) && Total(r.entries) <= AtLeastOne(scfg.retransRingBytes)
  }

  lemma RingIsInterval(scfg: SenderConfig, rcfg: ReceiverConfig, t0: Instant, ms: seq<Move>, q: nat)
    requires Short(Run(scfg, rcfg, t0, ms))
    ensures RingExact(scfg, Run(scfg, rcfg, t0, ms), q)
  {
    RunInv(scfg, rcfg, t0, ms);
    RingAt(scfg, rcfg, Run(scfg, rcfg, t0, ms), q);
  }

  lemma RingAt(scfg: SenderConfig, rcfg: ReceiverConfig, s: Sys, q: nat)
    requires SysInv(scfg, rcfg, s)
    ensures RingExact(scfg, s, q)
  {
    FindIsHolds(s.tap.snd.ring.entries, q);
    assert forall d :: Find(s.tap.snd.ring.entries, q) == Some(d) <==> Holds(s.tap.snd.ring, q, d);
    if q in s.recorded && q > s.tap.snd.ring.lostBelow {
      assert Holds(s.tap.snd.ring, q, DataOf(s.pushed, q));
    }
  }

  lemma {:induction false} RunGrows(scfg: SenderConfig, rcfg: ReceiverConfig, t0: Instant, ms: seq<Move>, n: nat)
    requires n <= |ms|
    ensures Run(scfg, rcfg, t0, ms[..n]).pushed <= Run(scfg, rcfg, t0, ms).pushed
    ensures Run(scfg, rcfg, t0, ms[..n]).tap.sent <= Run(scfg, rcfg, t0, ms).tap.sent
    decreases |ms|
  {
    if n < |ms| {
      var ms' := ms[..|ms| - 1];
      RunGrows(scfg, rcfg, t0, ms', n);
      assert ms'[..n] == ms[..n];
      RunSeq(scfg, rcfg, t0, ms');
      StepSeq(scfg, rcfg, Run(scfg, rcfg, t0, ms'), ms[|ms| - 1]);
    } else {
      assert ms[..n] == ms;
    }
  }

  /** Once a keepalive naming watermark `l` is out, nothing at or below `l` is in the ring: not
      then and not at any later point of the run, so it can never be resent. */
  lemma GoneForGood(scfg: SenderConfig, rcfg: ReceiverConfig, t0: Instant, ms: seq<Move>, n: nat, c: nat, l: nat, q: nat)
    requires n <= |ms| && Short(Run(scfg, rcfg, t0, ms)) && q <= l
    requires Datagram(c, Keepalive(l)) in Run(scfg, rcfg, t0, ms[..n]).tap.sent
    ensures Find(Run(scfg, rcfg, t0, ms).tap.snd.ring.entries, q).None?
  {
    RunGrows(scfg, rcfg, t0, ms, n);
    RunInv(scfg, rcfg, t0, ms);
    var s := Run(scfg, rcfg, t0, ms);
    assert Honest(s, Datagram(c, Keepalive(l)));
    NotHeld(s.tap.snd.ring, q);
  }

  /** Handling the datagram makes the sink abort with `SenderDiscarded`. */
  ghost predicate Discards(rcfg: ReceiverConfig, s: Sys, d: Datagram, at: Instant)
  {
    d in s.tap.sent && React(rcfg, s.rcv.st, Packet(d.seqNo, d.body, at)).burst.fin == Some(Aborted(SenderDiscarded))
  }

  /** The datagram is a keepalive whose watermark lies above the sink's prefix, a frame with
      exactly that number left the ring by overflow, and the frame the sink is waiting for is
      in the ring neither now nor at the later point. */
  ghost predicate Justified(s: Sys, later: Sys, d: Datagram)
  {
    var next := s.rcv.st.gaps.contiguous + 1;
    && d.body.Keepalive? && next <= d.body.lostBelow && d.body.lostBelow in s.overflowed
    && Find(s.tap.snd.ring.entries, next).None? && Find(later.tap.snd.ring.entries, next).None?
  }

  /** A `SenderDiscarded` abort is justified, now and at every later point of the run: the
      missing frame can never be resent. */
  lemma DiscardJustified(scfg: SenderConfig, rcfg: ReceiverConfig, t0: Instant, ms: seq<Move>, n: nat,
                         d: Datagram, at: Instant)
    requires n <= |ms| && Short(Run(scfg, rcfg, t0, ms))
    requires Discards(rcfg, Run(scfg, rcfg, t0, ms[..n]), d, at)
    ensures Justified(Run(scfg, rcfg, t0, ms[..n]), Run(scfg, rcfg, t0, ms), d)
  {
    RunGrows(scfg, rcfg, t0, ms, n);
    RunInv(scfg, rcfg, t0, ms);
    RunInv(scfg, rcfg, t0, ms[..n]);
    DiscardAt(scfg, rcfg, Run(scfg, rcfg, t0, ms[..n]), Run(scfg, rcfg, t0, ms), d, at);
  }

  lemma DiscardAt(scfg: SenderConfig, rcfg: ReceiverConfig, s: Sys, later: Sys, d: Datagram, at: Instant)
    requires SysInv(scfg, rcfg, s) && SysInv(scfg, rcfg, later) && s.tap.sent <= later.tap.sent
    requires Discards(rcfg, s, d, at)
    ensures Justified(s, later, d)
  {
    SinkMoves(rcfg, s.rcv, Packet(d.seqNo, d.body, at));
    assert Honest(s, d) && Honest(later, d);
    NotHeld(s.tap.snd.ring, s.rcv.st.gaps.contiguous + 1);
    NotHeld(later.tap.snd.ring, s.rcv.st.gaps.contiguous + 1);
  }

  lemma NotHeld(r: Ring, q: nat)
    requires RingOk(r) && q <= r.lostBelow
    ensures Find(r.entries, q).None?
  {
    FindIsHolds(r.entries, q);
    assert forall s :: s in r.entries ==> s.seqNo > r.lostBelow;
  }

  /** If the ring never overflows, the sink never aborts for that reason. */
  lemma NoOverflowNoDiscard(scfg: SenderConfig, rcfg: ReceiverConfig, t0: Instant, ms: seq<Move>)
    requires Short(Run(scfg, rcfg, t0, ms)) && Run(scfg, rcfg, t0, ms).overflowed == {}
    ensures RelFinished(Aborted(SenderDiscarded)) !in O.Trace(Run(scfg, rcfg, t0, ms).rcv.log)
  {
    RunInv(scfg, rcfg, t0, ms);
    if RelFinished(Aborted(SenderDiscarded)) in O.Trace(Run(scfg, rcfg, t0, ms).rcv.log) {
      OutcomeTraced(Run(scfg, rcfg, t0, ms).rcv.log, Aborted(SenderDiscarded));
    }
  }

  // ----- the sink inside the system -----

  /** The sink of a composed run is a run of the receiver on its own, so everything proved of
      those holds of it. */
  lemma {:induction false} SinkIsRun(scfg: SenderConfig, rcfg: ReceiverConfig, t0: Instant, ms: seq<Move>)
    returns (xs: seq<Input>)
    ensures Run(scfg, rcfg, t0, ms).rcv == Exec(rcfg, t0, xs)
    decreases |ms|
  {
    if ms == [] {
      xs := [];
    } else {
      xs := SinkIsRun(scfg, rcfg, t0, ms[..|ms| - 1]);
      var before, m := Run(scfg, rcfg, t0, ms[..|ms| - 1]), ms[|ms| - 1];
      var x :=
        match m
        case SinkPacket(d, at, _) => if d in before.tap.sent then [Packet(d.seqNo, d.body, at)] else []
        case SinkTick(at, _) => [Clock(at)]
        case SinkReport(r, at) => [Occupancy(r, at)]
        case _ => [];
      if x != [] {
        ExecStep(rcfg, t0, xs, x[0]);
        xs := xs + [x[0]];
      }
    }
  }
}
