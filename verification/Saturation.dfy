/** The bound on the number of frames is needed: at 2^32 - 1 frames the copy can be wrong. */
module Saturation {
  import opened Types
  import opened GapSpec
  import R = ReceiverSpec
  import opened ReceiverSteps
  import opened ReceiverRuns
  import O = ReceiverOutcomes
  import S = SenderSpec
  import opened DispatchSpec
  import opened System
  import opened SystemTheorems

  const SILENCE := Media(0, [])

  lemma RunStep(scfg: SenderConfig, rcfg: ReceiverConfig, t0: Instant, ms: seq<Move>, m: Move)
    ensures Run(scfg, rcfg, t0, ms + [m]) == Step(scfg, rcfg, Run(scfg, rcfg, t0, ms), m)
  {
    assert (ms + [m])[..|ms|] == ms;
  }

  // ----- the sink, fed in order -----

  /** Everything up to n arrived in order and was released; the end is not known yet. */
  ghost predicate InStep(rcfg: ReceiverConfig, h: Hist, n: nat)
  {
    && Inv(rcfg, h) && h.st.streaming && h.st.finalSeq.None?
    && h.st.gaps.contiguous == h.st.gaps.highest == n
  }

  lemma NextInOrder(rcfg: ReceiverConfig, s: R.Recv, x: Input, n: nat)
    requires Good(rcfg, s) && s.streaming && s.finalSeq.None? && s.gaps.contiguous == s.gaps.highest == n
    requires IsData(x) && x.seqNo == n + 1 && x.body.payload == []
    ensures var s' := React(rcfg, s, x).st;
            s'.streaming && s'.finalSeq.None? && s'.gaps.contiguous == s'.gaps.highest == n + 1
  {
    var f := FrameOf(x);
    RecordCovers(s.gaps, n + 1);
    assert Covers(Record(s.gaps, n + 1), n + 1);
    assert Fits(rcfg, s, f);
    FitsFresh(rcfg, s, f, x.at);
    ReleaseKeeps(rcfg, s, f, x.at);
    CheckFinishShape(rcfg, R.Release(Buffered(s, f), x.at).st, x.at);
  }

  lemma InStepNext(rcfg: ReceiverConfig, h: Hist, x: Input, n: nat)
    requires InStep(rcfg, h, n) && IsData(x) && x.seqNo == n + 1 && x.body.payload == []
    ensures InStep(rcfg, Next(rcfg, h, x), n + 1)
  {
    InvNext(rcfg, h, x);
    NextInOrder(rcfg, h.st, x, n);
  }

  /** A finish no later than the prefix completes at that number. */
  lemma EndCompletes(rcfg: ReceiverConfig, h: Hist, x: Input, n: nat)
    requires InStep(rcfg, h, n) && x.Packet? && x.body == End(n)
    ensures React(rcfg, h.st, x).burst.fin == Some(Complete(n))
  {
    CheckFinishShape(rcfg, h.st.(finalSeq := Some(n)), x.at);
  }

  // ----- both ends -----

  /** n frames pushed, and the numbers up to `arrived` delivered in order. */
  ghost predicate Level(rcfg: ReceiverConfig, s: Sys, n: nat, arrived: nat)
  {
    && s.tap.snd.phase == S.Streaming && !s.tap.snd.paused && s.tap.snd.ackedHighest == 0
    && SeqInv(s) && |s.pushed| == n && InStep(rcfg, s.rcv, arrived)
  }

  lemma PushLevel(scfg: SenderConfig, rcfg: ReceiverConfig, s: Sys, n: nat, arrived: nat, at: Instant)
    requires scfg.maxOutstanding == U32_MAX && Level(rcfg, s, n, arrived)
    ensures var s' := Step(scfg, rcfg, s, PushMove(SILENCE, at, 1));
            && Level(rcfg, s', n + 1, arrived)
            && Datagram(s.tap.snd.nextSeq, Data(0, [])) in s'.tap.sent
  {
    assert S.CanSend(scfg, s.tap.snd);
  }

  lemma DeliverLevel(scfg: SenderConfig, rcfg: ReceiverConfig, s: Sys, n: nat, arrived: nat, at: Instant)
    requires Level(rcfg, s, n, arrived) && Datagram(arrived + 1, Data(0, [])) in s.tap.sent
    ensures Level(rcfg, Step(scfg, rcfg, s, SinkPacket(Datagram(arrived + 1, Data(0, [])), at, 0)), n, arrived + 1)
  {
    InStepNext(rcfg, s.rcv, Packet(arrived + 1, Data(0, []), at), arrived);
  }

  lemma BeginLevel(scfg: SenderConfig, rcfg: ReceiverConfig, t0: Instant)
    ensures Level(rcfg, Begin(scfg, t0), 0, 0)
  {
  }

  /** Push a frame, deliver it, n times over. */
  lemma {:induction false} Lockstep(scfg: SenderConfig, rcfg: ReceiverConfig, t0: Instant, n: nat)
    returns (ms: seq<Move>)
    requires scfg.maxOutstanding == U32_MAX && n < U32_MAX
    ensures Level(rcfg, Run(scfg, rcfg, t0, ms), n, n)
    decreases n
  {
    ms := [];
    if n == 0 {
      BeginLevel(scfg, rcfg, t0);
    } else {
      ms := Lockstep(scfg, rcfg, t0, n - 1);
      ms := PushAndDeliver(scfg, rcfg, t0, ms, n - 1);
    }
  }

  lemma PushAndDeliver(scfg: SenderConfig, rcfg: ReceiverConfig, t0: Instant, ms: seq<Move>, n: nat)
    returns (ms': seq<Move>)
    requires scfg.maxOutstanding == U32_MAX && n + 1 < U32_MAX && Level(rcfg, Run(scfg, rcfg, t0, ms), n, n)
    ensures Level(rcfg, Run(scfg, rcfg, t0, ms'), n + 1, n + 1)
  {
    var push, deliver := PushMove(SILENCE, t0, 1), SinkPacket(Datagram(n + 1, Data(0, [])), t0, 0);
    RunStep(scfg, rcfg, t0, ms, push);
    PushLevel(scfg, rcfg, Run(scfg, rcfg, t0, ms), n, n, t0);
    RunStep(scfg, rcfg, t0, ms + [push], deliver);
    DeliverLevel(scfg, rcfg, Run(scfg, rcfg, t0, ms + [push]), n + 1, n, t0);
    ms' := ms + [push] + [deliver];
  }

  /** One frame more than the numbers can tell apart, then `End`. */
  lemma FinishWrong(scfg: SenderConfig, rcfg: ReceiverConfig, s: Sys, at: Instant) returns (c: nat)
    requires Level(rcfg, s, U32_MAX, U32_MAX - 1)
    ensures var s' := Step(scfg, rcfg, s, FinishMove(at, 1));
            && s'.pushed == s.pushed && s'.rcv == s.rcv
            && Datagram(c, End(U32_MAX - 1)) in s'.tap.sent
  {
    c := S.NextControl(s.tap.snd.controlCounter);
  }

  lemma CompleteWrong(rcfg: ReceiverConfig, s: Sys, d: Datagram, at: Instant)
    requires InStep(rcfg, s.rcv, U32_MAX - 1) && |s.pushed| == U32_MAX && d.body == End(U32_MAX - 1)
    ensures !CopyExact(SinkStep(rcfg, s, Packet(d.seqNo, d.body, at), 0))
  {
    var x := Packet(d.seqNo, d.body, at);
    EndCompletes(rcfg, s.rcv, x, U32_MAX - 1);
    var b := React(rcfg, s.rcv.st, x).burst;
    var log := Next(rcfg, s.rcv, x).log;
    assert log[..|log| - 1] == s.rcv.log;
    O.EventsRanked(b);
    assert RelFinished(Complete(U32_MAX - 1)) in O.Trace(log);
  }

  /** The end-to-end theorem stops exactly at its bound: with the widest window there is, for
      every receiver configuration, a run of 2^32 - 1 frames whose `Complete` is wrong. */
  lemma CopyWrongAtBound(scfg: SenderConfig, rcfg: ReceiverConfig, t0: Instant) returns (ms: seq<Move>)
    requires scfg.maxOutstanding == U32_MAX
    ensures |Run(scfg, rcfg, t0, ms).pushed| == U32_MAX && !CopyExact(Run(scfg, rcfg, t0, ms))
  {
    ms := Lockstep(scfg, rcfg, t0, U32_MAX - 1);
    ms := LastFrameLost(scfg, rcfg, t0, ms);
  }

  lemma LastFrameLost(scfg: SenderConfig, rcfg: ReceiverConfig, t0: Instant, ms: seq<Move>) returns (ms': seq<Move>)
    requires scfg.maxOutstanding == U32_MAX && Level(rcfg, Run(scfg, rcfg, t0, ms), U32_MAX - 1, U32_MAX - 1)
    ensures |Run(scfg, rcfg, t0, ms').pushed| == U32_MAX && !CopyExact(Run(scfg, rcfg, t0, ms'))
  {
    var push, finish := PushMove(SILENCE, t0, 1), FinishMove(t0, 1);
    RunStep(scfg, rcfg, t0, ms, push);
    PushLevel(scfg, rcfg, Run(scfg, rcfg, t0, ms), U32_MAX - 1, U32_MAX - 1, t0);
    RunStep(scfg, rcfg, t0, ms + [push], finish);
    var c := FinishWrong(scfg, rcfg, Run(scfg, rcfg, t0, ms + [push]), t0);
    ms' := EndDelivered(scfg, rcfg, t0, ms + [push] + [finish], Datagram(c, End(U32_MAX - 1)));
  }

  lemma EndDelivered(scfg: SenderConfig, rcfg: ReceiverConfig, t0: Instant, ms: seq<Move>, d: Datagram)
    returns (ms': seq<Move>)
    requires InStep(rcfg, Run(scfg, rcfg, t0, ms).rcv, U32_MAX - 1) && |Run(scfg, rcfg, t0, ms).pushed| == U32_MAX
    requires d in Run(scfg, rcfg, t0, ms).tap.sent && d.body == End(U32_MAX - 1)
    ensures |Run(scfg, rcfg, t0, ms').pushed| == U32_MAX && !CopyExact(Run(scfg, rcfg, t0, ms'))
  {
    RunStep(scfg, rcfg, t0, ms, SinkPacket(d, t0, 0));
    CompleteWrong(rcfg, Run(scfg, rcfg, t0, ms), d, t0);
    ms' := ms + [SinkPacket(d, t0, 0)];
  }
}
