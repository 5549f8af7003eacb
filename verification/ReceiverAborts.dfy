/** Every abort tells the truth, and comes exactly when it should. */
module ReceiverAborts {
  import opened Types
  import opened GapSpec
  import opened ReceiverSpec
  import opened ReceiverSteps
  import opened ReceiverRuns
  import N = ReceiverNacks

  // ----- what the timestamps mean -----

  /** When the last packet of any kind came, or the start. */
  ghost function LastHeard(t0: Instant, xs: seq<Input>): (t: Instant)
    decreases |xs|
  {
    if xs == [] then t0
    else if xs[|xs| - 1].Packet? then xs[|xs| - 1].at
    else LastHeard(t0, xs[..|xs| - 1])
  }

  /** When the last frame was released, or the start. */
  ghost function LastRelease(t0: Instant, log: seq<Entry>): (t: Instant)
    decreases |log|
  {
    if log == [] then t0
    else if log[|log| - 1].burst.rel != [] then log[|log| - 1].at
    else LastRelease(t0, log[..|log| - 1])
  }

  ghost predicate Stamped(s: Recv, o: StepOut, x: Input)
  {
    && o.st.lastPacketAt == (if x.Packet? then x.at else s.lastPacketAt)
    && o.st.lastRelProgressAt == if o.burst.rel != [] then x.at else s.lastRelProgressAt
  }

  lemma CheckStamps(s: Recv, now: Instant)
    ensures var o := CheckFinish(s, now);
            && o.st.lastPacketAt == s.lastPacketAt
            && o.st.lastRelProgressAt == if o.burst.rel != [] then now else s.lastRelProgressAt
  {
  }

  lemma ReleaseStamps(s: Recv, now: Instant)
    ensures var o := ReleaseAndCheck(s, now);
            && o.st.lastPacketAt == s.lastPacketAt
            && o.st.lastRelProgressAt == if o.burst.rel != [] then now else s.lastRelProgressAt
  {
    CheckStamps(Release(s, now).st, now);
  }

  lemma HoldStamps(cfg: ReceiverConfig, s: Recv, f: Frame, now: Instant)
    ensures var o := Hold(cfg, s, f, now);
            && o.st.lastPacketAt == s.lastPacketAt
            && o.st.lastRelProgressAt == if o.burst.rel != [] then now else s.lastRelProgressAt
  {
    if s.reorderBytes + |f.payload| <= cfg.maxReorderBytes {
      var held := s.(reorder := s.reorder[f.seqNo := f], reorderBytes := s.reorderBytes + |f.payload|);
      assert Hold(cfg, s, f, now) == ReleaseAndCheck(held, now);
      ReleaseStamps(held, now);
    }
  }

  lemma FreshStamps(cfg: ReceiverConfig, s: Recv, f: Frame, now: Instant)
    ensures var o := OnFresh(cfg, s, f, now);
            && o.st.lastPacketAt == s.lastPacketAt
            && o.st.lastRelProgressAt == if o.burst.rel != [] then now else s.lastRelProgressAt
  {
    HoldStamps(cfg, s.(gaps := Record(s.gaps, f.seqNo)), f, now);
  }

  lemma BodyStamps(cfg: ReceiverConfig, s: Recv, seqNo: nat, body: Body, now: Instant)
    ensures var o := OnBody(cfg, s, seqNo, body, now);
            && o.st.lastPacketAt == s.lastPacketAt
            && o.st.lastRelProgressAt == if o.burst.rel != [] then now else s.lastRelProgressAt
  {
    match body
    case Data(ts, payload) => FreshStamps(cfg, s, Frame(seqNo, ts, payload), now);
    case End(final) => CheckStamps(s.(finalSeq := Some(final)), now);
    case Keepalive(l) =>
      var raised := s.(senderLostBelow := if l > s.senderLostBelow then l else s.senderLostBelow);
      CheckStamps(raised, now);
      CheckStamps(Abandon(raised), now);
    case _ =>
  }

  lemma ReactStamps(cfg: ReceiverConfig, s: Recv, x: Input)
    ensures Stamped(s, React(cfg, s, x), x)
  {
    if x.Packet? {
      BodyStamps(cfg, s, x.seqNo, x.body, x.at);
    }
  }

  /** The two timestamps of the state are those of the history. */
  lemma {:induction false} StampsTrue(cfg: ReceiverConfig, t0: Instant, xs: seq<Input>)
    ensures Exec(cfg, t0, xs).st.lastPacketAt == LastHeard(t0, xs)
    ensures Exec(cfg, t0, xs).st.lastRelProgressAt == LastRelease(t0, Exec(cfg, t0, xs).log)
    decreases |xs|
  {
    if xs != [] {
      var h, x := Exec(cfg, t0, xs[..|xs| - 1]), xs[|xs| - 1];
      StampsTrue(cfg, t0, xs[..|xs| - 1]);
      ReactStamps(cfg, h.st, x);
      assert Next(cfg, h, x).log[..|h.log|] == h.log;
    }
  }

  // ----- when each abort comes -----

  ghost predicate Aborts(cfg: ReceiverConfig, s: Recv, x: Input, why: RelAbortReason)
  {
    React(cfg, s, x).burst.fin == Some(Aborted(why))
  }

  /** A tick later than the limit after the given time. */
  predicate Overdue(x: Input, since: Instant, limit: nat)
  {
    x.Clock? && Since(x.at, since) > limit
  }

  /** A new frame beyond what may be buffered: the arrivals reach further past the prefix than
      the window, or the frames held above the prefix and this one exceed the byte budget. */
  ghost predicate Overflows(cfg: ReceiverConfig, h: Hist, x: Input)
  {
    var g := Next(cfg, h, x).st.gaps;
    && IsData(x) && x.seqNo >= 1 && x.seqNo !in h.arrived
    && (|| g.highest - g.contiguous > cfg.reorderWindow
        || Held(h.st.reorder, h.st.gaps.contiguous + 1, h.st.gaps.highest) + |x.body.payload| > cfg.maxReorderBytes)
  }

  /** A data packet either exhausts the buffer, completes, or leaves the stream running. */
  lemma DataAborts(cfg: ReceiverConfig, s: Recv, x: Input)
    requires Good(cfg, s) && IsData(x)
    ensures var fin := OnData(cfg, s, FrameOf(x), x.at).burst.fin;
            && (fin == Some(Aborted(BufferExhausted)) <==>
                  s.streaming && Fresh(s.gaps, x.seqNo) && !Fits(cfg, s, FrameOf(x)))
            && (fin.Some? && fin.value.Aborted? ==> fin.value.reason == BufferExhausted)
  {
    var f := FrameOf(x);
    if Fits(cfg, s, f) {
      FitsFresh(cfg, s, f, x.at);
      ReleaseKeeps(cfg, s, f, x.at);
      CheckFinishShape(cfg, Release(Buffered(s, f), x.at).st, x.at);
    }
  }

  lemma DataGaps(cfg: ReceiverConfig, s: Recv, x: Input)
    requires Good(cfg, s) && IsData(x) && s.streaming && Fresh(s.gaps, x.seqNo)
    ensures var g, r := React(cfg, s, x).st.gaps, Record(s.gaps, x.seqNo);
            g.contiguous == r.contiguous && g.highest == r.highest
  {
    var f := FrameOf(x);
    if Fits(cfg, s, f) {
      FitsFresh(cfg, s, f, x.at);
      ReleaseKeeps(cfg, s, f, x.at);
      CheckFinishShape(cfg, Release(Buffered(s, f), x.at).st, x.at);
    }
  }

  /** Packets abort only for lack of space, and only data does, or because the sender gave up. */
  lemma PacketAborts(cfg: ReceiverConfig, s: Recv, x: Input)
    requires Good(cfg, s) && x.Packet?
    ensures var fin := OnBody(cfg, s, x.seqNo, x.body, x.at).burst.fin;
            && (fin == Some(Aborted(BufferExhausted)) <==>
                  IsData(x) && s.streaming && Fresh(s.gaps, x.seqNo) && !Fits(cfg, s, FrameOf(x)))
            && (fin.Some? && fin.value.Aborted? ==> fin.value.reason in {BufferExhausted, SenderDiscarded})
  {
    match x.body
    case Data(_, _) => DataAborts(cfg, s, x);
    case End(final) => CheckFinishShape(cfg, s.(finalSeq := Some(final)), x.at);
    case Keepalive(l) =>
      var raised := s.(senderLostBelow := if l > s.senderLostBelow then l else s.senderLostBelow);
      if !(l > s.senderLostBelow && s.streaming && s.gaps.contiguous < l) {
        CheckFinishShape(cfg, raised, x.at);
      }
    case _ =>
  }

  lemma SpaceExact(cfg: ReceiverConfig, h: Hist, x: Input)
    requires Inv(cfg, h)
    ensures Aborts(cfg, h.st, x, BufferExhausted) <==> h.st.streaming && Overflows(cfg, h, x)
  {
    if x.Packet? {
      PacketAborts(cfg, h.st, x);
    }
    if IsData(x) && h.st.streaming {
      assert Fresh(h.st.gaps, x.seqNo) <==> x.seqNo >= 1 && !Covers(h.st.gaps, x.seqNo);
      assert Covers(h.st.gaps, x.seqNo) <==> x.seqNo in h.arrived;
      if Fresh(h.st.gaps, x.seqNo) {
        RecordCovers(h.st.gaps, x.seqNo);
        DataGaps(cfg, h.st, x);
      }
    }
  }

  lemma TimersExact(cfg: ReceiverConfig, s: Recv, x: Input)
    requires Good(cfg, s)
    ensures Aborts(cfg, s, x, PeerGone) <==> s.streaming && Overdue(x, s.lastPacketAt, cfg.idleTimeout)
    ensures Aborts(cfg, s, x, Stalled) <==>
            && s.streaming && Overdue(x, s.lastRelProgressAt, cfg.relStallTimeout)
            && !Overdue(x, s.lastPacketAt, cfg.idleTimeout)
    ensures !Aborts(cfg, s, x, NotAttempted)
  {
    if x.Packet? {
      PacketAborts(cfg, s, x);
    }
  }

  /** A keepalive whose watermark lies above the prefix. */
  ghost predicate GivesUpPast(h: Hist, x: Input)
  {
    x.Packet? && x.body.Keepalive? && h.st.gaps.contiguous < x.body.lostBelow
  }

  lemma DiscardsExact(cfg: ReceiverConfig, h: Hist, x: Input)
    requires Inv(cfg, h)
    ensures Aborts(cfg, h.st, x, SenderDiscarded) <==> h.st.streaming && GivesUpPast(h, x)
  {
    ReactDelta(cfg, h.st, x);
  }

  lemma GapExact(cfg: ReceiverConfig, h: Hist, x: Input)
    requires Inv(cfg, h) && N.NackInv(cfg, h)
    ensures Aborts(cfg, h.st, x, UnrecoverableGap) <==>
            && h.st.streaming && x.Clock? && !Overdue(x, h.st.lastPacketAt, cfg.idleTimeout)
            && !Overdue(x, h.st.lastRelProgressAt, cfg.relStallTimeout) && N.BudgetUsed(cfg, h)
  {
    if x.Clock? && h.st.streaming {
      N.PassExhausts(cfg, h, x.at);
    } else {
      ReactDelta(cfg, h.st, x);
    }
  }

  /** In every run, each abort comes exactly when it should, and always at a live stream:
      `PeerGone` at a tick later than `idle_timeout` after the last packet; `Stalled` at one later
      than `rel_stall_timeout` after the last release when the peer is not gone;
      `UnrecoverableGap` at one that is neither, when a missing number it looks at was asked for
      `max_nack_attempts` times; `BufferExhausted` at a new frame beyond the window or the byte
      budget; `SenderDiscarded` at a keepalive whose watermark lies above the prefix. */
  lemma AbortsExact(cfg: ReceiverConfig, t0: Instant, xs: seq<Input>, x: Input)
    ensures var h := Exec(cfg, t0, xs);
            var gone := Overdue(x, LastHeard(t0, xs), cfg.idleTimeout);
            var stalled := Overdue(x, LastRelease(t0, h.log), cfg.relStallTimeout);
            && (Aborts(cfg, h.st, x, PeerGone) <==> h.st.streaming && gone)
            && (Aborts(cfg, h.st, x, Stalled) <==> h.st.streaming && !gone && stalled)
            && (Aborts(cfg, h.st, x, UnrecoverableGap) <==>
                  h.st.streaming && x.Clock? && !gone && !stalled && N.BudgetUsed(cfg, h))
            && (Aborts(cfg, h.st, x, BufferExhausted) <==> h.st.streaming && Overflows(cfg, h, x))
            && (Aborts(cfg, h.st, x, SenderDiscarded) <==> h.st.streaming && GivesUpPast(h, x))
            && !Aborts(cfg, h.st, x, NotAttempted)
  {
    CouplingAlways(cfg, t0, xs);
    N.NackBudget(cfg, t0, xs);
    StampsTrue(cfg, t0, xs);
    var h := Exec(cfg, t0, xs);
    SpaceExact(cfg, h, x);
    TimersExact(cfg, h.st, x);
    GapExact(cfg, h, x);
    DiscardsExact(cfg, h, x);
  }

  /** The prefix those distances are measured from is the true one: everything in it arrived, and
      the number after it, in the step that overflows, did not. */
  lemma OverflowPrefix(cfg: ReceiverConfig, h: Hist, x: Input)
    requires Inv(cfg, h) && h.st.streaming && IsData(x)
    ensures var h' := Next(cfg, h, x);
            var c := h'.st.gaps.contiguous;
            (forall y: nat :: 1 <= y <= c ==> y in h'.arrived) && c + 1 !in h'.arrived
  {
    InvNext(cfg, h, x);
    var h' := Next(cfg, h, x);
    assert forall y: nat :: 1 <= y <= h'.st.gaps.contiguous ==> Covers(h'.st.gaps, y);
    RecordCovers(h.st.gaps, x.seqNo);
    if Fresh(h.st.gaps, x.seqNo) {
      DataGaps(cfg, h.st, x);
      assert !Covers(Record(h.st.gaps, x.seqNo), h'.st.gaps.contiguous + 1);
    } else {
      assert !Covers(h.st.gaps, h.st.gaps.contiguous + 1);
      assert h'.st.gaps == h.st.gaps;
    }
  }
}
