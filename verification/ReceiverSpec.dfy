/** What one step of the receiving half does, as a function of its state.

    A step's events always come out in one order: playback frame, released frames,
    retransmission request, outcome, tail acknowledgement, close, progress report.
    `Burst` holds them in that normal form; `Events` lays them out. */
module ReceiverSpec {
  import opened Types
  import opened GapSpec

  datatype NackEntry = NackEntry(attempts: nat, lastAt: Instant)

  datatype Recv = Recv(
    gaps: Gaps,
    reorder: map<nat, Frame>,
    reorderBytes: int,
    streaming: bool,
    relReleased: nat,
    finalSeq: Option<nat>,
    endAcked: bool,
    closed: bool,
    nacks: map<nat, NackEntry>,
    senderLostBelow: nat,
    lastPacketAt: Instant,
    lastAckAt: Instant,
    lastRelProgressAt: Instant,
    bufferedMs: nat)

  function Init(now: Instant): (s: Recv)
  {
    Recv(EMPTY_GAPS, map[], 0, true, 0, None, false, false, map[], 0, now, now, now, 0)
  }

  datatype AckInfo = AckInfo(contiguous: nat, highest: nat, bufferedMs: nat)

  datatype Burst = Burst(
    unrel: Option<Frame>,
    rel: seq<Frame>,
    nack: seq<nat>,
    fin: Option<RelOutcome>,
    endAck: bool,
    closed: bool,
    ack: Option<AckInfo>)

  const QUIET := Burst(None, [], [], None, false, false, None)

  datatype StepOut = StepOut(st: Recv, burst: Burst)

  function RelOnto(out: seq<RecvEvent>, fs: seq<Frame>): (es: seq<RecvEvent>)
    decreases |fs|
  {
    if fs == [] then out else RelOnto(out + [Reliable(fs[0])], fs[1..])
  }

  function HeadOnto(out: seq<RecvEvent>, b: Burst): (es: seq<RecvEvent>)
  {
    var played := if b.unrel.Some? then out + [Unreliable(b.unrel.value)] else out;
    var released := RelOnto(played, b.rel);
    if b.nack != [] then released + [SendNack(b.nack)] else released
  }

  function TailOnto(out: seq<RecvEvent>, b: Burst): (es: seq<RecvEvent>)
  {
    var finished := if b.fin.Some? then out + [RelFinished(b.fin.value)] else out;
    var acked := if b.endAck then finished + [SendEndAck] else finished;
    var closed := if b.closed then acked + [Closed] else acked;
    if b.ack.Some?
    then closed + [SendAck(b.ack.value.contiguous, b.ack.value.highest, b.ack.value.bufferedMs)]
    else closed
  }

  /** The burst appended to an output vector. */
  function Onto(out: seq<RecvEvent>, b: Burst): (es: seq<RecvEvent>)
  {
    TailOnto(HeadOnto(out, b), b)
  }

  function Events(b: Burst): (es: seq<RecvEvent>)
  {
    Onto([], b)
  }

  // ----- the reliable stream -----

  datatype Drained = Drained(reorder: map<nat, Frame>, nacks: map<nat, NackEntry>, bytes: int,
                             top: nat, frames: seq<Frame>)

  /** Let go of held frames top + 1, top + 2, ..., up to `last` or the first one absent. */
  function Drain(m: map<nat, Frame>, nacks: map<nat, NackEntry>, bytes: int, top: nat, last: nat)
    : (r: Drained)
    decreases last - top
  {
    if top < last && top + 1 in m then
      var k := top + 1;
      var r := Drain(m - {k}, nacks - {k}, bytes - |m[k].payload|, k, last);
      r.(frames := [m[k]] + r.frames)
    else
      Drained(m, nacks, bytes, top, [])
  }

  function Release(s: Recv, now: Instant): (o: StepOut)
  {
    var r := Drain(s.reorder, s.nacks, s.reorderBytes, s.relReleased, s.gaps.contiguous);
    StepOut(
      s.(reorder := r.reorder, nacks := r.nacks, reorderBytes := r.bytes, relReleased := r.top,
         lastRelProgressAt := if r.frames == [] then s.lastRelProgressAt else now),
      QUIET.(rel := r.frames))
  }

  function Abandon(s: Recv): (r: Recv)
  {
    s.(streaming := false, reorder := map[], reorderBytes := 0, nacks := map[],
       gaps := s.gaps.(ahead := {}))
  }

  function CompleteRel(s: Recv, now: Instant): (o: StepOut)
    requires s.finalSeq.Some?
    ensures o.burst == QUIET.(rel := o.burst.rel, fin := Some(Complete(s.finalSeq.value)))
    ensures o.st.endAcked == s.endAcked && o.st.closed == s.closed && !o.st.streaming
    ensures o.st.gaps.contiguous == s.gaps.contiguous && o.st.lastAckAt == s.lastAckAt
  {
    var released := Release(s, now);
    StepOut(Abandon(released.st), released.burst.(fin := Some(Complete(s.finalSeq.value))))
  }

  function CheckFinish(s: Recv, now: Instant): (o: StepOut)
    ensures o.burst.unrel.None? && o.burst.nack == [] && o.burst.ack.None?
    ensures o.st.lastAckAt == s.lastAckAt
  {
    if s.finalSeq.None? then StepOut(s, QUIET)
    else
      var done := s.gaps.contiguous >= s.finalSeq.value;
      var first := if s.streaming && done then CompleteRel(s, now) else StepOut(s, QUIET);
      var acks := !s.endAcked && done;
      var closes := (s.endAcked || acks) && !s.closed;
      StepOut(first.st.(endAcked := s.endAcked || acks, closed := s.closed || closes),
              first.burst.(endAck := acks, closed := closes))
  }

  // ----- one packet -----

  function ReleaseAndCheck(s: Recv, now: Instant): (o: StepOut)
    ensures o.burst.unrel.None? && o.burst.nack == [] && o.burst.ack.None?
    ensures o.st.lastAckAt == s.lastAckAt
  {
    var released := Release(s, now);
    var checked := CheckFinish(released.st, now);
    StepOut(checked.st, checked.burst.(rel := released.burst.rel + checked.burst.rel))
  }

  /** Buffer a new frame and let go of everything that became contiguous. */
  function Hold(cfg: ReceiverConfig, s: Recv, f: Frame, now: Instant): (o: StepOut)
    ensures o.burst.unrel.None? && o.burst.nack == [] && o.burst.ack.None?
    ensures o.st.lastAckAt == s.lastAckAt
  {
    if s.reorderBytes + |f.payload| > cfg.maxReorderBytes
    then StepOut(Abandon(s), QUIET.(fin := Some(Aborted(BufferExhausted))))
    else ReleaseAndCheck(s.(reorder := s.reorder[f.seqNo := f],
                            reorderBytes := s.reorderBytes + |f.payload|), now)
  }

  /** A new arrival, as far as the reliable stream is concerned. */
  function OnFresh(cfg: ReceiverConfig, s: Recv, f: Frame, now: Instant): (o: StepOut)
    ensures o.burst.unrel.None? && o.burst.nack == [] && o.burst.ack.None?
    ensures o.st.lastAckAt == s.lastAckAt
  {
    var arrived := s.(gaps := Record(s.gaps, f.seqNo));
    if !s.streaming then StepOut(arrived, QUIET)
    else if WindowSpan(arrived.gaps) > cfg.reorderWindow
    then StepOut(Abandon(arrived), QUIET.(fin := Some(Aborted(BufferExhausted))))
    else Hold(cfg, arrived, f, now)
  }

  function Played(o: StepOut, u: Option<Frame>): (r: StepOut)
  {
    o.(burst := o.burst.(unrel := u))
  }

  function OnData(cfg: ReceiverConfig, s: Recv, f: Frame, now: Instant): (o: StepOut)
    ensures o.burst.nack == [] && o.burst.ack.None? && o.st.lastAckAt == s.lastAckAt
  {
    if !Fresh(s.gaps, f.seqNo) then StepOut(s, QUIET)
    else Played(OnFresh(cfg, s, f, now), if cfg.mode.Dual? then Some(f) else None)
  }

  function OnKeepalive(s: Recv, lostBelow: nat, now: Instant): (o: StepOut)
    ensures o.burst.nack == [] && o.burst.ack.None? && o.st.lastAckAt == s.lastAckAt
  {
    if lostBelow > s.senderLostBelow && s.streaming && s.gaps.contiguous < lostBelow
    then
      var checked := CheckFinish(Abandon(s.(senderLostBelow := lostBelow)), now);
      StepOut(checked.st, checked.burst.(fin := Some(Aborted(SenderDiscarded))))
    else
      CheckFinish(s.(senderLostBelow :=
                       if lostBelow > s.senderLostBelow then lostBelow else s.senderLostBelow), now)
  }

  function OnBody(cfg: ReceiverConfig, s: Recv, seqNo: nat, body: Body, now: Instant): (o: StepOut)
    ensures o.burst.nack == [] && o.burst.ack.None? && o.st.lastAckAt == s.lastAckAt
  {
    match body
    case Data(ts, payload) => OnData(cfg, s, Frame(seqNo, ts, payload), now)
    case End(finalSeq) => CheckFinish(s.(finalSeq := Some(finalSeq)), now)
    case Keepalive(lostBelow) => OnKeepalive(s, lostBelow, now)
    case _ => StepOut(s, QUIET)
  }

  function WithAck(cfg: ReceiverConfig, o: StepOut, now: Instant): (r: StepOut)
  {
    if o.st.closed || Since(now, o.st.lastAckAt) < cfg.ackInterval || o.st.gaps.highest == 0
    then o
    else
      var ms := if o.st.bufferedMs < U16_MAX then o.st.bufferedMs else U16_MAX;
      StepOut(o.st.(lastAckAt := now),
              o.burst.(ack := Some(AckInfo(o.st.gaps.contiguous, o.st.gaps.highest, ms))))
  }

  function Heard(o: StepOut, now: Instant): (r: StepOut)
  {
    o.(st := o.st.(lastPacketAt := now))
  }

  function Handle(cfg: ReceiverConfig, s: Recv, seqNo: nat, body: Body, now: Instant): (o: StepOut)
  {
    WithAck(cfg, Heard(OnBody(cfg, s, seqNo, body, now), now), now)
  }

  // ----- timers -----

  datatype Asked = Asked(nacks: map<nat, NackEntry>, ask: seq<nat>, exhausted: bool)

  function EntryFor(nacks: map<nat, NackEntry>, x: nat, now: Instant): (e: NackEntry)
  {
    if x in nacks then nacks[x] else NackEntry(0, now - HOUR)
  }

  /** Walk the missing numbers: ask for those whose backoff has run out, stop at the
      first one that is known lost or has used up its attempts. */
  function Ask(cfg: ReceiverConfig, nacks: map<nat, NackEntry>, missing: seq<nat>,
               lostBelow: nat, now: Instant): (r: Asked)
    decreases |missing|
  {
    if missing == [] then Asked(nacks, [], false)
    else
      var x := missing[0];
      if x <= lostBelow then Asked(nacks, [], true)
      else
        var e := EntryFor(nacks, x, now);
        if e.attempts >= cfg.maxNackAttempts then Asked(nacks[x := e], [], true)
        else if Since(now, e.lastAt) >= cfg.NackDelay(e.attempts) then
          var r := Ask(cfg, nacks[x := NackEntry(e.attempts + 1, now)], missing[1..], lostBelow, now);
          r.(ask := [x] + r.ask)
        else
          Ask(cfg, nacks[x := e], missing[1..], lostBelow, now)
  }

  ghost function EmitNacks(cfg: ReceiverConfig, s: Recv, now: Instant): (o: StepOut)
  {
    var r := Ask(cfg, s.nacks, Missing(s.gaps, MAX_NACK_ENTRIES), s.senderLostBelow, now);
    if r.exhausted
    then StepOut(Abandon(s), QUIET.(fin := Some(Aborted(UnrecoverableGap))))
    else StepOut(s.(nacks := r.nacks), QUIET.(nack := r.ask))
  }

  ghost function OnTimers(cfg: ReceiverConfig, s: Recv, now: Instant): (o: StepOut)
  {
    if !s.streaming then StepOut(s, QUIET)
    else if Since(now, s.lastRelProgressAt) > cfg.relStallTimeout
    then StepOut(Abandon(s), QUIET.(fin := Some(Aborted(Stalled))))
    else EmitNacks(cfg, s, now)
  }

  ghost function Tick(cfg: ReceiverConfig, s: Recv, now: Instant): (o: StepOut)
  {
    if s.closed then StepOut(s, QUIET)
    else if Since(now, s.lastPacketAt) > cfg.idleTimeout
    then StepOut((if s.streaming then Abandon(s) else s).(closed := true),
                 QUIET.(fin := if s.streaming then Some(Aborted(PeerGone)) else None, closed := true))
    else WithAck(cfg, OnTimers(cfg, s, now), now)
  }
}
