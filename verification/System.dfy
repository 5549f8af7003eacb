/** The composed system: one tap, one sink, and a network that may lose, duplicate, delay and
    reorder anything that was ever sent, in both directions. */
module System {
  import opened Types
  import R = ReceiverSpec
  import opened ReceiverSteps
  import opened ReceiverRuns
  import opened RetransSpec
  import S = SenderSpec
  import opened DispatchSpec

  /** One frame as the tap pushed it. */
  datatype Media = Media(ts: nat, payload: seq<Byte>)

  /** Both endpoints, both directions of the network, and history: the frames pushed, the
      numbers recorded in the ring and those that left it by overflow, whether the sender
      reported completion, and how many control packets each side numbered. */
  datatype Sys = Sys(
    tap: Tap,
    rcv: Hist,
    replies: set<Body>,
    replySeq: nat,
    replySeals: seq<Seal>,
    pushed: seq<Media>,
    recorded: set<nat>,
    overflowed: set<nat>,
    completed: bool,
    tapControls: nat,
    sinkControls: nat)

  ghost function Begin(scfg: SenderConfig, t0: Instant): (s: Sys)
  {
    Sys(Tap(S.Init(scfg), [], []), Start(t0), {}, 0, [], [], {}, {}, false, 0, 0)
  }

  /** `sends` is how many socket sends succeed in the step; `occupancy` is what the sink's
      buffer feedback puts into an acknowledgement. */
  datatype Move =
    | PushMove(media: Media, at: Instant, sends: nat)
    | FinishMove(at: Instant, sends: nat)
    | TapTick(at: Instant, sends: nat)
    | TapPacket(body: Body, at: Instant, sends: nat)
    | SinkPacket(d: Datagram, at: Instant, occupancy: nat)
    | SinkTick(at: Instant, occupancy: nat)
    | SinkReport(ms: nat, at: Instant)

  // ----- the tap's side -----

  function Deliver(t: Tap, o: S.SendOut, sends: nat): (t': Tap)
  {
    var t1 := t.(snd := o.st);
    if o.event.None? then t1 else DispatchOne(t1, o.event.value, sends).tap
  }

  ghost function Seqs(r: Ring): (qs: set<nat>)
  {
    set s | s in r.entries :: s.seqNo
  }

  ghost function PushStep(scfg: SenderConfig, s: Sys, m: Media, at: Instant, sends: nat): (s': Sys)
  {
    var o := S.PushFrame(scfg, s.tap.snd, m.ts, m.payload, at);
    if o.event.None? then s
    else
      var q := s.tap.snd.nextSeq;
      var t := Deliver(s.tap, o, sends);
      var kept := FitsWire(Data(m.ts, m.payload)) && sends > 0;
      s.(tap := t,
         pushed := s.pushed + [m],
         recorded := if kept then s.recorded + {q} else s.recorded,
         overflowed := if kept then s.overflowed + (Seqs(s.tap.snd.ring) + {q} - Seqs(t.snd.ring))
                       else s.overflowed)
  }

  function ControlStep(s: Sys, o: S.SendOut, sends: nat): (s': Sys)
  {
    s.(tap := Deliver(s.tap, o, sends),
       tapControls := s.tapControls + if o.event.Some? && o.event.value.Emit? then 1 else 0,
       completed := s.completed || o.event == Some(S.Completed))
  }

  // ----- the sink's side -----

  function Replies(b: R.Burst, occupancy: nat): (bs: seq<Body>)
  {
    (if b.nack != [] then [Nack(b.nack)] else [])
    + (if b.endAck then [EndAck] else [])
    + (if b.ack.Some? then [Ack(b.ack.value.contiguous, b.ack.value.highest, occupancy)] else [])
  }

  ghost function SinkUpdate(s: Sys, h: Hist, b: R.Burst, occupancy: nat): (s': Sys)
  {
    var bs := Replies(b, occupancy);
    var r := SealReplies(s.replySeq, bs);
    s.(rcv := h, replies := s.replies + (set b | b in r.bodies), replySeals := s.replySeals + r.seals,
       replySeq := r.next, sinkControls := s.sinkControls + |bs|)
  }

  ghost function SinkStep(rcfg: ReceiverConfig, s: Sys, x: Input, occupancy: nat): (s': Sys)
  {
    SinkUpdate(s, Next(rcfg, s.rcv, x), React(rcfg, s.rcv.st, x).burst, occupancy)
  }

  // ----- runs -----

  /** One step. A packet that was never sent is never delivered. */
  ghost function Step(scfg: SenderConfig, rcfg: ReceiverConfig, s: Sys, m: Move): (s': Sys)
  {
    match m
    case PushMove(media, at, sends) => PushStep(scfg, s, media, at, sends)
    case FinishMove(at, sends) => ControlStep(s, S.Finish(s.tap.snd, at), sends)
    case TapTick(at, sends) => ControlStep(s, S.Tick(scfg, s.tap.snd, at), sends)
    case TapPacket(body, at, sends) =>
      if body in s.replies then ControlStep(s, S.Handle(scfg, s.tap.snd, body), sends) else s
    case SinkPacket(d, at, occupancy) =>
      if d in s.tap.sent then SinkStep(rcfg, s, Packet(d.seqNo, d.body, at), occupancy) else s
    case SinkTick(at, occupancy) => SinkStep(rcfg, s, Clock(at), occupancy)
    case SinkReport(ms, at) => SinkStep(rcfg, s, Occupancy(ms, at), 0)
  }

  ghost function Run(scfg: SenderConfig, rcfg: ReceiverConfig, t0: Instant, ms: seq<Move>): (s: Sys)
    decreases |ms|
  {
    if ms == [] then Begin(scfg, t0)
    else Step(scfg, rcfg, Run(scfg, rcfg, t0, ms[..|ms| - 1]), ms[|ms| - 1])
  }
}

/** The invariants of the composed system. */
module SystemInv {
  import opened Types
  import R = ReceiverSpec
  import opened ReceiverSteps
  import opened ReceiverRuns
  import opened RetransSpec
  import S = SenderSpec
  import opened DispatchSpec
  import opened System

  function DataOf(pushed: seq<Media>, q: nat): (d: Datagram)
    requires 1 <= q <= |pushed|
  {
    Datagram(q, Data(pushed[q - 1].ts, pushed[q - 1].payload))
  }

  /** A ring always has room for one frame. */
  function AtLeastOne(n: nat): (m: nat)
  {
    if n < 1 then 1 else n
  }

  /** The ring holds exactly the recorded numbers above the watermark, each with the datagram
      sealed for it; the window never runs further ahead than allowed. */
  ghost predicate TapInv(scfg: SenderConfig, s: Sys)
  {
    var snd := s.tap.snd;
    var n := |s.pushed|;
    && snd.nextSeq == n + 1
    && RingOk(snd.ring) && !OverBudget(snd.ring) && snd.ring.lostBelow <= n
    && snd.ring.maxFrames == AtLeastOne(scfg.retransRingFrames)
    && snd.ring.maxBytes == AtLeastOne(scfg.retransRingBytes)
    && (forall q :: q in s.recorded ==> 1 <= q <= n)
    && (forall q: nat, d :: Holds(snd.ring, q, d) <==>
          q in s.recorded && q > snd.ring.lostBelow && 1 <= q <= n && d == DataOf(s.pushed, q))
    && n <= snd.ackedHighest + scfg.maxOutstanding
  }

  /** Everything on the forward network is what it claims to be. */
  ghost predicate Honest(s: Sys, d: Datagram)
  {
    match d.body
    case Data(ts, payload) => 1 <= d.seqNo <= |s.pushed| && d == DataOf(s.pushed, d.seqNo)
    case End(final) => !s.tap.snd.phase.Streaming? && final == |s.pushed|
    case Keepalive(l) =>
      l <= s.tap.snd.ring.lostBelow && (l <= s.rcv.st.gaps.contiguous || l in s.overflowed)
    case _ => false
  }

  ghost predicate NetInv(s: Sys)
  {
    && (forall d :: d in s.tap.sent ==> Honest(s, d))
    && (forall q :: q in s.recorded ==> 1 <= q <= |s.pushed| && DataOf(s.pushed, q) in s.tap.sent)
    && (s.tap.snd.ring.lostBelow <= s.rcv.st.gaps.contiguous || s.tap.snd.ring.lostBelow in s.overflowed)
    && (forall q :: q in s.overflowed ==> 1 <= q <= |s.pushed|)
  }

  /** The sink knows only true things about the tap. */
  ghost predicate SinkInv(rcfg: ReceiverConfig, s: Sys)
  {
    && Inv(rcfg, s.rcv)
    && (forall f :: f in s.rcv.given ==>
          1 <= f.seqNo <= |s.pushed| && Media(f.ts, f.payload) == s.pushed[f.seqNo - 1])
    && (forall q :: q in s.rcv.arrived ==> q <= |s.pushed|)
    && (s.rcv.st.finalSeq.Some? ==>
          && !s.tap.snd.phase.Streaming? && s.rcv.st.finalSeq.value == |s.pushed|
          && exists c: nat :: Datagram(c, End(|s.pushed|)) in s.tap.sent)
    && (s.rcv.st.endAcked ==> s.rcv.st.finalSeq.Some? && s.rcv.st.gaps.contiguous >= |s.pushed|)
  }

  /** The tap knows only true things about the sink. */
  ghost predicate BackInv(s: Sys)
  {
    && (forall b :: b in s.replies ==>
          match b
          case Ack(c, h, _) => c <= s.rcv.st.gaps.contiguous && h <= s.rcv.st.gaps.highest
          case Nack(_) => true
          case EndAck => s.rcv.st.endAcked
          case _ => false)
    && s.tap.snd.ackedHighest <= s.rcv.st.gaps.highest
    && (s.completed ==> s.rcv.st.endAcked)
  }

  /** Outcomes already reported are right. */
  ghost predicate VerdictInv(s: Sys)
  {
    forall i :: 0 <= i < |s.rcv.log| && s.rcv.log[i].burst.fin.Some? ==>
      match s.rcv.log[i].burst.fin.value
      case Complete(final) =>
        !s.tap.snd.phase.Streaming? && !s.rcv.st.streaming && final == |s.pushed| == s.rcv.st.relReleased
      case Aborted(why) => why == SenderDiscarded ==> s.overflowed != {}
  }

  ghost predicate SysInv(scfg: SenderConfig, rcfg: ReceiverConfig, s: Sys)
  {
    TapInv(scfg, s) && NetInv(s) && SinkInv(rcfg, s) && BackInv(s) && VerdictInv(s)
  }

  lemma BeginInv(scfg: SenderConfig, rcfg: ReceiverConfig, t0: Instant)
    ensures SysInv(scfg, rcfg, Begin(scfg, t0))
  {
  }

  /** What the tap believes is bounded by what the sink has. */
  lemma Bounds(scfg: SenderConfig, rcfg: ReceiverConfig, s: Sys)
    requires SysInv(scfg, rcfg, s)
    ensures s.rcv.st.gaps.contiguous <= s.rcv.st.gaps.highest <= |s.pushed|
  {
  }

  // ----- pushing a frame -----

  ghost predicate Pushable(scfg: SenderConfig, rcfg: ReceiverConfig, s: Sys, m: Media, at: Instant)
  {
    && SysInv(scfg, rcfg, s) && |s.pushed| + 1 < U32_MAX
    && S.CanSend(scfg, s.tap.snd)
  }

  /** The frame reached neither the wire nor the ring: only its number is used up. */
  lemma PushLost(scfg: SenderConfig, rcfg: ReceiverConfig, s: Sys, m: Media, at: Instant, sends: nat)
    requires Pushable(scfg, rcfg, s, m, at) && !(FitsWire(Data(m.ts, m.payload)) && sends > 0)
    ensures SysInv(scfg, rcfg, PushStep(scfg, s, m, at, sends))
  {
    var s' := PushStep(scfg, s, m, at, sends);
    assert s'.tap.snd == s.tap.snd.(nextSeq := s'.tap.snd.nextSeq, firstDataAt := s'.tap.snd.firstDataAt);
    assert s'.tap.sent == s.tap.sent;
    assert forall q: nat :: 1 <= q <= |s.pushed| ==> DataOf(s'.pushed, q) == DataOf(s.pushed, q);
  }

  lemma RingAfterPush(scfg: SenderConfig, rcfg: ReceiverConfig, s: Sys, m: Media)
    requires TapInv(scfg, s)
    ensures var q := |s.pushed| + 1;
            var d := DataOf(s.pushed + [m], q);
            var r, r' := s.tap.snd.ring, Push(s.tap.snd.ring, q, d);
            && RingOk(r') && !OverBudget(r') && r.lostBelow <= r'.lostBelow <= q
            && r'.maxFrames == r.maxFrames && r'.maxBytes == r.maxBytes
            && (forall k: nat, x :: Holds(r', k, x) <==> k > r'.lostBelow && (Holds(r, k, x) || (k == q && x == d)))
            && (r'.lostBelow != r.lostBelow ==> r'.lostBelow in Seqs(r) + {q} - Seqs(r'))
            && (forall k :: k in Seqs(r) ==> 1 <= k <= |s.pushed|)
  {
    var r := s.tap.snd.ring;
    var q := |s.pushed| + 1;
    forall i | 0 <= i < |r.entries| ensures 1 <= r.entries[i].seqNo <= |s.pushed| {
      assert Holds(r, r.entries[i].seqNo, r.entries[i].sealed);
    }
    PushKeeps(r, q, DataOf(s.pushed + [m], q));
    var r' := Push(r, q, DataOf(s.pushed + [m], q));
    if r'.lostBelow != r.lostBelow && r'.lostBelow != q {
      var d :| Holds(r, r'.lostBelow, d);
      assert Slot(r'.lostBelow, d) in r.entries;
    }
  }

  lemma PushKept(scfg: SenderConfig, rcfg: ReceiverConfig, s: Sys, m: Media, at: Instant, sends: nat)
    requires Pushable(scfg, rcfg, s, m, at) && FitsWire(Data(m.ts, m.payload)) && sends > 0
    ensures SysInv(scfg, rcfg, PushStep(scfg, s, m, at, sends))
  {
    var s' := PushStep(scfg, s, m, at, sends);
    var n := |s.pushed|;
    assert forall q: nat :: 1 <= q <= n ==> DataOf(s'.pushed, q) == DataOf(s.pushed, q);
    RingAfterPush(scfg, rcfg, s, m);
    var d := DataOf(s'.pushed, n + 1);
    assert s'.tap.snd.ring == Push(s.tap.snd.ring, n + 1, d);
    assert s'.tap.sent == s.tap.sent + [d];
    PushKeptTap(scfg, s, s', m);
    PushKeptNet(s, s', m);
  }

  ghost predicate PushedTo(s: Sys, s': Sys, m: Media)
  {
    var n := |s.pushed|;
    var d := DataOf(s.pushed + [m], n + 1);
    var r, r' := s.tap.snd.ring, s'.tap.snd.ring;
    && s'.pushed == s.pushed + [m] && s'.recorded == s.recorded + {n + 1}
    && s'.tap.sent == s.tap.sent + [d] && s'.tap.snd.nextSeq == n + 2
    && s'.tap.snd.ackedHighest == s.tap.snd.ackedHighest && s'.tap.snd.phase == s.tap.snd.phase
    && s'.rcv == s.rcv
    && s'.overflowed == s.overflowed + (Seqs(r) + {n + 1} - Seqs(r'))
    && RingOk(r') && !OverBudget(r') && r.lostBelow <= r'.lostBelow <= n + 1
    && r'.maxFrames == r.maxFrames && r'.maxBytes == r.maxBytes
    && (forall k: nat, x :: Holds(r', k, x) <==> k > r'.lostBelow && (Holds(r, k, x) || (k == n + 1 && x == d)))
    && (r'.lostBelow != r.lostBelow ==> r'.lostBelow in Seqs(r) + {n + 1} - Seqs(r'))
    && (forall k :: k in Seqs(r) ==> 1 <= k <= n)
  }

  lemma PushKeptTap(scfg: SenderConfig, s: Sys, s': Sys, m: Media)
    requires TapInv(scfg, s) && PushedTo(s, s', m)
    requires |s.pushed| < s.tap.snd.ackedHighest + scfg.maxOutstanding
    ensures TapInv(scfg, s')
  {
    assert forall q: nat :: 1 <= q <= |s.pushed| ==> DataOf(s'.pushed, q) == DataOf(s.pushed, q);
  }

  lemma PushKeptNet(s: Sys, s': Sys, m: Media)
    requires NetInv(s) && PushedTo(s, s', m) && s.tap.snd.phase.Streaming?
    ensures NetInv(s')
  {
    assert forall q: nat :: 1 <= q <= |s.pushed| ==> DataOf(s'.pushed, q) == DataOf(s.pushed, q);
    forall d | d in s'.tap.sent ensures Honest(s', d) {
      assert d in s.tap.sent ==> Honest(s, d);
    }
  }

  // ----- control steps of the tap -----

  /** The tap moved without pushing: the ring's contents and phase may only move forward. */
  ghost predicate TapMoved(s: Sys, s': Sys)
  {
    && s'.pushed == s.pushed && s'.recorded == s.recorded && s'.overflowed == s.overflowed
    && s'.rcv == s.rcv && s'.replies == s.replies
    && s'.tap.snd.nextSeq == s.tap.snd.nextSeq
    && (s'.tap.snd.phase.Streaming? ==> s.tap.snd.phase.Streaming?)
    && s.tap.sent <= s'.tap.sent
  }

  /** All a finish or a tick may do: move on to a later phase, and emit an honest control packet. */
  ghost predicate ControlOnly(s: Sys, o: S.SendOut)
  {
    var snd := s.tap.snd;
    && o.st.ring == snd.ring && o.st.nextSeq == snd.nextSeq && o.st.ackedHighest == snd.ackedHighest
    && (o.st.phase.Streaming? ==> snd.phase.Streaming?)
    && (o.event.Some? ==>
          match o.event.value
          case Emit(_, End(final)) => final == |s.pushed| && !o.st.phase.Streaming?
          case Emit(_, Keepalive(l)) => l == snd.ring.lostBelow
          case Failed(_) => true
          case _ => false)
  }

  lemma ControlKeeps(scfg: SenderConfig, rcfg: ReceiverConfig, s: Sys, o: S.SendOut, sends: nat)
    requires SysInv(scfg, rcfg, s) && ControlOnly(s, o)
    ensures SysInv(scfg, rcfg, ControlStep(s, o, sends))
  {
    var s' := ControlStep(s, o, sends);
    assert TapMoved(s, s') && s'.tap.snd == o.st;
    forall d | d in s'.tap.sent ensures Honest(s', d) {
      assert d in s.tap.sent ==> Honest(s, d);
    }
  }

  lemma FinishKeeps(scfg: SenderConfig, rcfg: ReceiverConfig, s: Sys, at: Instant, sends: nat)
    requires SysInv(scfg, rcfg, s)
    ensures SysInv(scfg, rcfg, ControlStep(s, S.Finish(s.tap.snd, at), sends))
  {
    ControlKeeps(scfg, rcfg, s, S.Finish(s.tap.snd, at), sends);
  }

  lemma TickKeeps(scfg: SenderConfig, rcfg: ReceiverConfig, s: Sys, at: Instant, sends: nat)
    requires SysInv(scfg, rcfg, s)
    ensures SysInv(scfg, rcfg, ControlStep(s, S.Tick(scfg, s.tap.snd, at), sends))
  {
    ControlKeeps(scfg, rcfg, s, S.Tick(scfg, s.tap.snd, at), sends);
  }

  /** Whatever a `Nack` asks for, only datagrams sealed and sent before are sent again. */
  lemma {:induction false} LookupStored(r: Ring, missing: seq<nat>)
    requires RingOk(r)
    ensures forall d :: d in S.Lookup(r.entries, missing) <==> exists q :: q in missing && Holds(r, q, d)
    decreases |missing|
  {
    if missing != [] {
      var q, rest := missing[0], missing[1..];
      LookupStored(r, rest);
      FindIsHolds(r.entries, q);
      forall d ensures d in S.Lookup(r.entries, missing) <==> exists k :: k in missing && Holds(r, k, d) {
        assert d in S.Lookup(r.entries, missing)
               <==> Find(r.entries, q) == Some(d) || d in S.Lookup(r.entries, rest);
        assert q in missing && forall k :: k in missing <==> k == q || k in rest;
      }
    }
  }

  lemma NackKeeps(scfg: SenderConfig, rcfg: ReceiverConfig, s: Sys, missing: seq<nat>, sends: nat)
    requires SysInv(scfg, rcfg, s)
    ensures SysInv(scfg, rcfg, ControlStep(s, S.Handle(scfg, s.tap.snd, Nack(missing)), sends))
    ensures forall d :: d in S.Lookup(s.tap.snd.ring.entries, missing) ==> d in s.tap.sent
  {
    var s' := ControlStep(s, S.Handle(scfg, s.tap.snd, Nack(missing)), sends);
    var ds := S.Lookup(s.tap.snd.ring.entries, missing);
    LookupStored(s.tap.snd.ring, missing);
    forall d | d in ds ensures d in s.tap.sent {
      var q :| q in missing && Holds(s.tap.snd.ring, q, d);
      assert q in s.recorded && d == DataOf(s.pushed, q);
    }
    forall d | d in s'.tap.sent ensures Honest(s', d) {
      assert d in ds ==> d in s.tap.sent;
      assert Honest(s, d);
    }
  }

  lemma AckStepKeeps(scfg: SenderConfig, rcfg: ReceiverConfig, s: Sys, c: nat, h: nat, ms: nat, sends: nat)
    requires SysInv(scfg, rcfg, s) && Ack(c, h, ms) in s.replies
    ensures SysInv(scfg, rcfg, ControlStep(s, S.Handle(scfg, s.tap.snd, Ack(c, h, ms)), sends))
  {
    var s' := ControlStep(s, S.Handle(scfg, s.tap.snd, Ack(c, h, ms)), sends);
    Bounds(scfg, rcfg, s);
    RetransSpec.AckKeeps(s.tap.snd.ring, c);
    assert TapMoved(s, s') && s'.tap.sent == s.tap.sent;
    forall d | d in s'.tap.sent ensures Honest(s', d) {
      assert Honest(s, d);
    }
  }

  lemma EndAckKeeps(scfg: SenderConfig, rcfg: ReceiverConfig, s: Sys, sends: nat)
    requires SysInv(scfg, rcfg, s) && EndAck in s.replies
    ensures SysInv(scfg, rcfg, ControlStep(s, S.Handle(scfg, s.tap.snd, EndAck), sends))
  {
    var s' := ControlStep(s, S.Handle(scfg, s.tap.snd, EndAck), sends);
    forall d | d in s'.tap.sent ensures Honest(s', d) {
      assert Honest(s, d);
    }
  }

  // ----- steps of the sink -----

  /** All that a step of the sink may do to its history, read off `Delta`. */
  ghost predicate SinkMoved(rcfg: ReceiverConfig, h: Hist, x: Input, h': Hist, b: R.Burst)
  {
    && Inv(rcfg, h')
    && h'.log == h.log + [Entry(x.at, b)]
    && h'.given == h.given + (if IsData(x) then {FrameOf(x)} else {})
    && h'.arrived == h.arrived + (if IsData(x) && x.seqNo >= 1 then {x.seqNo} else {})
    && h.st.gaps.contiguous <= h'.st.gaps.contiguous && h.st.gaps.highest <= h'.st.gaps.highest
    && EndDelta(h.st, x, R.StepOut(h'.st, b))
    && (!h.st.streaming ==> h'.st.relReleased == h.st.relReleased)
    && (b.ack.Some? ==> b.ack.value.contiguous == h'.st.gaps.contiguous && b.ack.value.highest == h'.st.gaps.highest)
  }

  lemma SinkMoves(rcfg: ReceiverConfig, h: Hist, x: Input)
    requires Inv(rcfg, h)
    ensures SinkMoved(rcfg, h, x, Next(rcfg, h, x), React(rcfg, h.st, x).burst)
  {
    InvNext(rcfg, h, x);
    ReactDelta(rcfg, h.st, x);
  }

  lemma {:induction false} SealedAreReplies(c: nat, bs: seq<Body>)
    ensures forall b :: b in SealReplies(c, bs).bodies ==> b in bs
    decreases |bs|
  {
    if bs != [] {
      SealedAreReplies(S.NextControl(c), bs[1..]);
    }
  }

  ghost predicate SinkFed(s: Sys, x: Input)
  {
    x.Packet? ==> Datagram(x.seqNo, x.body) in s.tap.sent
  }

  lemma SinkKeepsSink(rcfg: ReceiverConfig, s: Sys, x: Input, h: Hist, b: R.Burst, occ: nat)
    requires NetInv(s) && SinkInv(rcfg, s) && SinkFed(s, x) && SinkMoved(rcfg, s.rcv, x, h, b)
    ensures SinkInv(rcfg, SinkUpdate(s, h, b, occ))
  {
    if x.Packet? {
      assert Honest(s, Datagram(x.seqNo, x.body));
    }
  }

  lemma SinkKeepsNet(rcfg: ReceiverConfig, s: Sys, x: Input, h: Hist, b: R.Burst, occ: nat)
    requires NetInv(s) && SinkMoved(rcfg, s.rcv, x, h, b)
    ensures NetInv(SinkUpdate(s, h, b, occ))
  {
    var s' := SinkUpdate(s, h, b, occ);
    forall d | d in s'.tap.sent ensures Honest(s', d) {
      assert Honest(s, d);
    }
  }

  lemma SinkKeepsBack(rcfg: ReceiverConfig, s: Sys, x: Input, h: Hist, b: R.Burst, occ: nat)
    requires BackInv(s) && SinkMoved(rcfg, s.rcv, x, h, b)
    ensures BackInv(SinkUpdate(s, h, b, occ))
  {
    SealedAreReplies(s.replySeq, Replies(b, occ));
  }

  lemma SinkKeepsVerdict(rcfg: ReceiverConfig, s: Sys, x: Input, h: Hist, b: R.Burst, occ: nat)
    requires NetInv(s) && SinkInv(rcfg, s) && SinkFed(s, x) && VerdictInv(s) && SinkMoved(rcfg, s.rcv, x, h, b)
    ensures VerdictInv(SinkUpdate(s, h, b, occ))
  {
    SinkKeepsSink(rcfg, s, x, h, b, occ);
    if x.Packet? {
      assert Honest(s, Datagram(x.seqNo, x.body));
    }
    if b.fin.Some? && b.fin.value.Complete? {
      assert h.st.gaps.contiguous <= h.st.gaps.highest <= |s.pushed|;
    }
  }

  lemma SinkKeeps(scfg: SenderConfig, rcfg: ReceiverConfig, s: Sys, x: Input, occ: nat)
    requires SysInv(scfg, rcfg, s) && SinkFed(s, x)
    ensures SysInv(scfg, rcfg, SinkStep(rcfg, s, x, occ))
  {
    var h, b := Next(rcfg, s.rcv, x), React(rcfg, s.rcv.st, x).burst;
    SinkMoves(rcfg, s.rcv, x);
    SinkKeepsSink(rcfg, s, x, h, b, occ);
    SinkKeepsNet(rcfg, s, x, h, b, occ);
    SinkKeepsBack(rcfg, s, x, h, b, occ);
    SinkKeepsVerdict(rcfg, s, x, h, b, occ);
  }
}
