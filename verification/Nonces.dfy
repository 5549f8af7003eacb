/** No nonce is used twice in a run, by either endpoint. */
module Nonces {
  import opened Types
  import opened GapSpec
  import R = ReceiverSpec
  import opened ReceiverSteps
  import opened ReceiverRuns
  import S = SenderSpec
  import opened DispatchSpec
  import opened System
  import opened SystemInv
  import opened SystemTheorems
  import W = Wire

  const CONTROL_SPACE: nat := U32_MAX + 1

  ghost predicate Distinct(ss: seq<Seal>)
  {
    forall i, j :: 0 <= i < j < |ss| ==> ss[i] != ss[j]
  }

  lemma DistinctPut(ss: seq<Seal>, x: Seal)
    ensures Distinct(ss + [x]) <==> Distinct(ss) && x !in ss
  {
    var all := ss + [x];
    if x in ss {
      var i :| 0 <= i < |ss| && ss[i] == x;
      assert all[i] == all[|ss|];
    } else if Distinct(all) {
      forall i, j | 0 <= i < j < |ss| ensures ss[i] != ss[j] {
        assert all[i] == ss[i] && all[j] == ss[j];
      }
    }
  }

  // ----- control numbers -----

  /** Control number `c` is among the first `n` numbered from `from`, modulo 2^32. */
  ghost predicate Numbered(c: nat, from: nat, n: nat)
  {
    exists k: nat :: from <= k < from + n && c == k % CONTROL_SPACE
  }

  /** The next control number is new exactly as long as fewer than 2^32 were taken. */
  lemma NextIsNew(from: nat, n: nat)
    requires from <= 1
    ensures Numbered((from + n) % CONTROL_SPACE, from, n) <==> n >= CONTROL_SPACE
  {
    if n >= CONTROL_SPACE {
      var k := from + n - CONTROL_SPACE;
      assert from <= k < from + n && (from + n) % CONTROL_SPACE == k % CONTROL_SPACE;
    }
  }

  lemma NumberedNext(c: nat, from: nat, n: nat)
    ensures Numbered(c, from, n + 1) <==> Numbered(c, from, n) || c == (from + n) % CONTROL_SPACE
  {
    if Numbered(c, from, n) {
      var k: nat :| from <= k < from + n && c == k % CONTROL_SPACE;
      assert from <= k < from + (n + 1);
    }
    if c == (from + n) % CONTROL_SPACE {
      var k := from + n;
      assert from <= k < from + (n + 1) && c == k % CONTROL_SPACE;
    }
  }

  // ----- frame numbers -----

  predicate Encodes(m: Media)
  {
    FitsWire(Data(m.ts, m.payload))
  }

  /** The number of the frame pushed at index i. */
  function Number(i: nat): (q: nat)
  {
    if i + 1 < U32_MAX then i + 1 else U32_MAX
  }

  /** Some encodable frame was pushed under number `q`. */
  ghost predicate Used(pushed: seq<Media>, q: nat)
  {
    exists i :: 0 <= i < |pushed| && Encodes(pushed[i]) && q == Number(i)
  }

  /** An encodable frame pushed once the numbers have run out. */
  ghost predicate Late(pushed: seq<Media>, i: nat)
  {
    i < |pushed| && i + 1 >= U32_MAX && Encodes(pushed[i])
  }

  ghost predicate OneLate(pushed: seq<Media>)
  {
    forall i: nat, j: nat :: Late(pushed, i) && Late(pushed, j) ==> i == j
  }

  lemma UsedPut(pushed: seq<Media>, m: Media, q: nat)
    ensures Used(pushed + [m], q) <==> Used(pushed, q) || (Encodes(m) && q == Number(|pushed|))
  {
    var all := pushed + [m];
    if Used(pushed, q) {
      var i :| 0 <= i < |pushed| && Encodes(pushed[i]) && q == Number(i);
      assert all[i] == pushed[i];
    }
    if Encodes(m) && q == Number(|pushed|) {
      assert all[|pushed|] == m;
    }
  }

  /** The next frame's number is taken exactly when an encodable frame already has the last one. */
  lemma UsedNext(pushed: seq<Media>)
    ensures Used(pushed, Number(|pushed|)) <==> exists i: nat :: Late(pushed, i)
  {
    if i: nat :| Late(pushed, i) {
      assert Encodes(pushed[i]) && Number(|pushed|) == Number(i);
    }
    if Used(pushed, Number(|pushed|)) {
      var i: nat :| 0 <= i < |pushed| && Encodes(pushed[i]) && Number(|pushed|) == Number(i);
      assert Late(pushed, i);
    }
  }

  lemma OneLatePut(pushed: seq<Media>, m: Media)
    ensures OneLate(pushed + [m]) <==> OneLate(pushed) && (Encodes(m) ==> !Used(pushed, Number(|pushed|)))
  {
    var all, n := pushed + [m], |pushed|;
    UsedNext(pushed);
    assert forall i: nat :: i < n ==> (Late(all, i) <==> Late(pushed, i));
    if i: nat :| Late(pushed, i) {
      assert Late(all, i) && (Encodes(m) ==> Late(all, n));
    }
  }

  // ----- what was sealed -----

  /** The tap's seals: the numbers of its encodable frames and the control numbers it took. */
  ghost predicate TapSeal(s: Sys, x: Seal)
  {
    && x.dir.ToSink?
    && if x.cls.DataClass? then Used(s.pushed, x.counter) else Numbered(x.counter, 1, s.tapControls)
  }

  ghost predicate TapSeals(s: Sys)
  {
    && (forall x :: x in s.tap.seals <==> TapSeal(s, x))
    && (Distinct(s.tap.seals) <==> s.tapControls <= CONTROL_SPACE && OneLate(s.pushed))
  }

  /** The sink's seals: the first n control numbers from zero. */
  ghost predicate ReplySeals(ss: seq<Seal>, n: nat)
  {
    && (forall x :: x in ss <==> x.dir.ToTap? && x.cls.ControlClass? && Numbered(x.counter, 0, n))
    && (Distinct(ss) <==> n <= CONTROL_SPACE)
  }

  ghost predicate SealInv(s: Sys)
  {
    && SeqInv(s)
    && s.tap.snd.controlCounter == s.tapControls % CONTROL_SPACE
    && s.replySeq == s.sinkControls % CONTROL_SPACE
    && TapSeals(s) && ReplySeals(s.replySeals, s.sinkControls)
  }

  // ----- the tap -----

  /** A frame was numbered; only an encodable one was sealed. */
  ghost predicate FrameTaken(s: Sys, s': Sys, m: Media)
  {
    && s'.pushed == s.pushed + [m] && s'.tapControls == s.tapControls
    && s'.tap.seals == s.tap.seals + if Encodes(m) then [Seal(ToSink, DataClass, Number(|s.pushed|))] else []
  }

  lemma FrameTakenKeeps(s: Sys, s': Sys, m: Media)
    requires TapSeals(s) && FrameTaken(s, s', m)
    ensures TapSeals(s')
  {
    var x := Seal(ToSink, DataClass, Number(|s.pushed|));
    DistinctPut(s.tap.seals, x);
    OneLatePut(s.pushed, m);
    forall y ensures y in s'.tap.seals <==> TapSeal(s', y) {
      UsedPut(s.pushed, m, y.counter);
      assert y in s.tap.seals <==> TapSeal(s, y);
    }
    assert x in s.tap.seals <==> TapSeal(s, x);
    assert !Encodes(m) ==> s'.tap.seals == s.tap.seals;
  }

  lemma PushSeals(scfg: SenderConfig, s: Sys, m: Media, at: Instant, sends: nat)
    requires SealInv(s)
    ensures SealInv(PushStep(scfg, s, m, at, sends))
  {
    if S.CanSend(scfg, s.tap.snd) {
      var s' := PushStep(scfg, s, m, at, sends);
      assert FrameTaken(s, s', m);
      FrameTakenKeeps(s, s', m);
    }
  }

  /** One more control number was taken, and the seal that uses it was added. */
  ghost predicate ControlTaken(s: Sys, s': Sys)
  {
    && s'.pushed == s.pushed && s'.tapControls == s.tapControls + 1
    && s'.tap.seals == s.tap.seals + [Seal(ToSink, ControlClass, (1 + s.tapControls) % CONTROL_SPACE)]
  }

  lemma ControlTakenKeeps(s: Sys, s': Sys)
    requires TapSeals(s) && ControlTaken(s, s')
    ensures TapSeals(s')
  {
    var x := Seal(ToSink, ControlClass, (1 + s.tapControls) % CONTROL_SPACE);
    DistinctPut(s.tap.seals, x);
    NextIsNew(1, s.tapControls);
    assert x in s.tap.seals <==> TapSeal(s, x);
    forall y ensures y in s'.tap.seals <==> TapSeal(s', y) {
      NumberedNext(y.counter, 1, s.tapControls);
      assert y in s.tap.seals <==> TapSeal(s, y);
    }
  }

  /** What the tap may add besides frames: nothing, or one control packet under the next number,
      which always encodes. */
  ghost predicate ControlOut(s: Sys, o: S.SendOut)
  {
    && o.st.nextSeq == s.tap.snd.nextSeq
    && if o.event.Some? && o.event.value.Emit?
       then && (o.event.value.body.End? || o.event.value.body.Keepalive?)
            && o.event.value.seqNo == o.st.controlCounter == S.NextControl(s.tap.snd.controlCounter)
       else o.st.controlCounter == s.tap.snd.controlCounter
  }

  lemma NextOf(c: nat, n: nat)
    requires c == n % CONTROL_SPACE
    ensures S.NextControl(c) == (1 + n) % CONTROL_SPACE
  {
  }

  lemma ControlSeals(s: Sys, o: S.SendOut, sends: nat)
    requires SealInv(s) && ControlOut(s, o)
    ensures SealInv(ControlStep(s, o, sends))
  {
    var s' := ControlStep(s, o, sends);
    if o.event.Some? && o.event.value.Emit? {
      NextOf(s.tap.snd.controlCounter, s.tapControls);
      assert ControlTaken(s, s');
      ControlTakenKeeps(s, s');
    } else {
      assert s'.tap.seals == s.tap.seals;
      assert forall x :: TapSeal(s', x) == TapSeal(s, x);
    }
  }

  // ----- the sink -----

  lemma {:induction false} ReplyNext(n: nat, bs: seq<Body>)
    ensures SealReplies(n % CONTROL_SPACE, bs).next == (n + |bs|) % CONTROL_SPACE
    decreases |bs|
  {
    if bs != [] {
      NextOf(n % CONTROL_SPACE, n);
      ReplyNext(n + 1, bs[1..]);
    }
  }

  /** Replies that encode take consecutive control numbers. */
  lemma {:induction false} ReplyNumbers(ss: seq<Seal>, n: nat, bs: seq<Body>)
    requires ReplySeals(ss, n) && forall b :: b in bs ==> FitsWire(b)
    ensures ReplySeals(ss + SealReplies(n % CONTROL_SPACE, bs).seals, n + |bs|)
    decreases |bs|
  {
    if bs == [] {
      assert ss + [] == ss;
    } else {
      var x := Seal(ToTap, ControlClass, n % CONTROL_SPACE);
      ReplyTaken(ss, n);
      NextOf(n % CONTROL_SPACE, n);
      ReplyNumbers(ss + [x], n + 1, bs[1..]);
      var rest := SealReplies((n + 1) % CONTROL_SPACE, bs[1..]);
      assert (ss + [x]) + rest.seals == ss + ([x] + rest.seals);
    }
  }

  lemma ReplyTaken(ss: seq<Seal>, n: nat)
    requires ReplySeals(ss, n)
    ensures ReplySeals(ss + [Seal(ToTap, ControlClass, n % CONTROL_SPACE)], n + 1)
  {
    var x := Seal(ToTap, ControlClass, n % CONTROL_SPACE);
    DistinctPut(ss, x);
    NextIsNew(0, n);
    forall y ensures y in ss + [x] <==> y.dir.ToTap? && y.cls.ControlClass? && Numbered(y.counter, 0, n + 1) {
      NumberedNext(y.counter, 0, n);
    }
  }

  /** A request never outgrows one packet. */
  lemma NackFits(cfg: ReceiverConfig, st: R.Recv, x: Input)
    ensures |React(cfg, st, x).burst.nack| <= MAX_NACK_ENTRIES
  {
    if x.Clock? {
      var missing := Missing(st.gaps, MAX_NACK_ENTRIES);
      MissingIsFirstHoles(st.gaps, MAX_NACK_ENTRIES);
      AskKeys(cfg, st.nacks, missing, st.senderLostBelow, x.at);
    }
  }

  lemma SinkSeals(rcfg: ReceiverConfig, s: Sys, x: Input, occ: nat)
    requires SealInv(s)
    ensures SealInv(SinkStep(rcfg, s, x, occ))
  {
    NackFits(rcfg, s.rcv.st, x);
    BurstSeals(s, Next(rcfg, s.rcv, x), React(rcfg, s.rcv.st, x).burst, occ);
  }

  lemma BurstSeals(s: Sys, h: Hist, b: R.Burst, occ: nat)
    requires SealInv(s) && |b.nack| <= MAX_NACK_ENTRIES
    ensures SealInv(SinkUpdate(s, h, b, occ))
  {
    var bs := Replies(b, occ);
    assert forall x :: x in bs ==> FitsWire(x);
    ReplyNext(s.sinkControls, bs);
    ReplyNumbers(s.replySeals, s.sinkControls, bs);
    SinkSealsKept(s, h, b, occ);
  }

  lemma SinkSealsKept(s: Sys, h: Hist, b: R.Burst, occ: nat)
    requires TapSeals(s)
    ensures TapSeals(SinkUpdate(s, h, b, occ))
  {
    assert forall y :: TapSeal(SinkUpdate(s, h, b, occ), y) == TapSeal(s, y);
  }

  // ----- the run -----

  lemma StepSeals(scfg: SenderConfig, rcfg: ReceiverConfig, s: Sys, m: Move)
    requires SealInv(s)
    ensures SealInv(Step(scfg, rcfg, s, m))
  {
    match m
    case PushMove(media, at, sends) => PushSeals(scfg, s, media, at, sends);
    case FinishMove(at, sends) => ControlSeals(s, S.Finish(s.tap.snd, at), sends);
    case TapTick(at, sends) => ControlSeals(s, S.Tick(scfg, s.tap.snd, at), sends);
    case TapPacket(body, at, sends) =>
      if body in s.replies {
        ControlSeals(s, S.Handle(scfg, s.tap.snd, body), sends);
      }
    case SinkPacket(d, at, occ) =>
      if d in s.tap.sent {
        SinkSeals(rcfg, s, Packet(d.seqNo, d.body, at), occ);
      }
    case SinkTick(at, occ) => SinkSeals(rcfg, s, Clock(at), occ);
    case SinkReport(ms, at) => SinkSeals(rcfg, s, Occupancy(ms, at), 0);
  }

  lemma BeginSeals(scfg: SenderConfig, t0: Instant)
    ensures SealInv(Begin(scfg, t0))
  {
    var s := Begin(scfg, t0);
    assert forall x :: !TapSeal(s, x);
    assert OneLate(s.pushed);
  }

  /** What was sealed in a run, exactly: the numbers of the encodable frames, and on either side
      the control numbers taken. */
  lemma {:induction false} RunSeals(scfg: SenderConfig, rcfg: ReceiverConfig, t0: Instant, ms: seq<Move>)
    ensures SealInv(Run(scfg, rcfg, t0, ms))
    decreases |ms|
  {
    if ms == [] {
      BeginSeals(scfg, t0);
    } else {
      RunSeals(scfg, rcfg, t0, ms[..|ms| - 1]);
      StepSeals(scfg, rcfg, Run(scfg, rcfg, t0, ms[..|ms| - 1]), ms[|ms| - 1]);
    }
  }

  ghost predicate NoncesDistinct(ss: seq<Seal>)
  {
    forall i, j :: 0 <= i < j < |ss| ==> W.NonceFor(ss[i]) != W.NonceFor(ss[j])
  }

  /** At most 2^32 control packets per direction, and at most one encodable frame among those
      pushed from number 2^32 - 1 on. */
  ghost predicate WithinSpace(s: Sys)
  {
    s.tapControls <= CONTROL_SPACE && s.sinkControls <= CONTROL_SPACE && OneLate(s.pushed)
  }

  /** No two seal operations of a run, by either endpoint, use the same 12-byte nonce, if and
      only if the run stays within the space of numbers. */
  lemma NoncesUnique(scfg: SenderConfig, rcfg: ReceiverConfig, t0: Instant, ms: seq<Move>)
    ensures var s := Run(scfg, rcfg, t0, ms);
            NoncesDistinct(s.tap.seals + s.replySeals) <==> WithinSpace(s)
  {
    RunSeals(scfg, rcfg, t0, ms);
    SealsToNonces(Run(scfg, rcfg, t0, ms));
  }

  lemma SealsToNonces(s: Sys)
    requires SealInv(s)
    ensures NoncesDistinct(s.tap.seals + s.replySeals) <==> WithinSpace(s)
  {
    var all := s.tap.seals + s.replySeals;
    forall x | x in all ensures x.counter <= W.U64_MAX && (x in s.tap.seals ==> x !in s.replySeals) {
      SmallCounter(s, x);
    }
    DistinctJoin(s.tap.seals, s.replySeals);
    DistinctNonces(all);
  }

  lemma DistinctJoin(a: seq<Seal>, b: seq<Seal>)
    requires forall x :: x in a ==> x !in b
    ensures Distinct(a + b) <==> Distinct(a) && Distinct(b)
  {
    var all := a + b;
    if Distinct(all) {
      forall i, j | 0 <= i < j < |a| ensures a[i] != a[j] {
        assert all[i] == a[i] && all[j] == a[j];
      }
      forall i, j | 0 <= i < j < |b| ensures b[i] != b[j] {
        assert all[|a| + i] == b[i] && all[|a| + j] == b[j];
      }
    }
    if Distinct(a) && Distinct(b) {
      forall i, j | 0 <= i < j < |all| ensures all[i] != all[j] {
        if i < |a| <= j {
          assert all[i] in a && all[j] in b;
        }
      }
    }
  }

  lemma DistinctNonces(ss: seq<Seal>)
    requires forall x :: x in ss ==> x.counter <= W.U64_MAX
    ensures NoncesDistinct(ss) <==> Distinct(ss)
  {
    forall i, j | 0 <= i < j < |ss| ensures W.NonceFor(ss[i]) == W.NonceFor(ss[j]) <==> ss[i] == ss[j] {
      W.NonceInjective(ss[i], ss[j]);
    }
  }

  lemma SmallCounter(s: Sys, x: Seal)
    requires SealInv(s) && (x in s.tap.seals || x in s.replySeals)
    ensures x.counter <= W.U64_MAX && (x in s.tap.seals ==> x !in s.replySeals)
  {
    assert x in s.tap.seals ==> TapSeal(s, x);
  }

  // ----- the bound is reached -----

  /** A tap with the widest window pushing one frame n times. */
  ghost function Pushes(m: Media, at: Instant, n: nat): (ms: seq<Move>)
  {
    seq(n, _ => PushMove(m, at, 1))
  }

  ghost predicate PushedAll(s: Sys, m: Media, n: nat)
  {
    && s.tap.snd.phase == S.Streaming && !s.tap.snd.paused && s.tap.snd.ackedHighest == 0
    && |s.pushed| == n && (forall i :: 0 <= i < n ==> s.pushed[i] == m)
    && s.tapControls == 0 && s.sinkControls == 0
  }

  lemma {:induction false} PushesRun(scfg: SenderConfig, rcfg: ReceiverConfig, t0: Instant, m: Media, at: Instant, n: nat)
    requires scfg.maxOutstanding == U32_MAX
    ensures PushedAll(Run(scfg, rcfg, t0, Pushes(m, at, n)), m, n)
    decreases n
  {
    if n > 0 {
      PushesRun(scfg, rcfg, t0, m, at, n - 1);
      RunSeq(scfg, rcfg, t0, Pushes(m, at, n - 1));
      assert Pushes(m, at, n)[..n - 1] == Pushes(m, at, n - 1);
      PushOnce(scfg, Run(scfg, rcfg, t0, Pushes(m, at, n - 1)), m, at, n - 1);
    }
  }

  lemma PushOnce(scfg: SenderConfig, s: Sys, m: Media, at: Instant, n: nat)
    requires scfg.maxOutstanding == U32_MAX && SeqInv(s) && PushedAll(s, m, n)
    ensures PushedAll(PushStep(scfg, s, m, at, 1), m, n + 1)
  {
    assert S.CanSend(scfg, s.tap.snd);
  }

  /** The bounds are needed, at a real run: a tap that pushes an encodable frame n times keeps its
      nonces distinct exactly as long as n < 2^32, and would declare the right final number
      exactly as long as n < 2^32 - 1. */
  lemma SaturatedRunReusesNonce(scfg: SenderConfig, rcfg: ReceiverConfig, t0: Instant, m: Media, at: Instant, n: nat)
    requires scfg.maxOutstanding == U32_MAX && Encodes(m)
    ensures var s := Run(scfg, rcfg, t0, Pushes(m, at, n));
            && |s.pushed| == n
            && (NoncesDistinct(s.tap.seals + s.replySeals) <==> n < CONTROL_SPACE)
            && (S.LastSeq(s.tap.snd) == n <==> n < U32_MAX)
  {
    PushesRun(scfg, rcfg, t0, m, at, n);
    NoncesUnique(scfg, rcfg, t0, Pushes(m, at, n));
    FinalSeqExact(scfg, rcfg, t0, Pushes(m, at, n));
    LateOnes(Run(scfg, rcfg, t0, Pushes(m, at, n)).pushed, m);
  }

  lemma LateOnes(pushed: seq<Media>, m: Media)
    requires Encodes(m) && forall i :: 0 <= i < |pushed| ==> pushed[i] == m
    ensures OneLate(pushed) <==> |pushed| < CONTROL_SPACE
  {
    if |pushed| >= CONTROL_SPACE {
      assert Late(pushed, U32_MAX - 1) && Late(pushed, U32_MAX);
    }
  }
}
