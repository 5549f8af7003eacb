/** When the receiver reports progress, acknowledges the tail, completes and closes: each exactly. */
module ReceiverReports {
  import opened Types
  import opened GapSpec
  import opened ReceiverSpec
  import opened ReceiverSteps
  import opened ReceiverRuns
  import O = ReceiverOutcomes
  import opened ReceiverAborts
  import P = ReceiverPlayback

  // ----- what the history says -----

  /** When progress was last reported, or the start. */
  ghost function LastAck(t0: Instant, log: seq<Entry>): (t: Instant)
    decreases |log|
  {
    if log == [] then t0
    else if log[|log| - 1].burst.ack.Some? then log[|log| - 1].at
    else LastAck(t0, log[..|log| - 1])
  }

  /** The occupancy last reported by the application. */
  ghost function LastOccupancy(xs: seq<Input>): (ms: nat)
    decreases |xs|
  {
    if xs == [] then 0
    else if xs[|xs| - 1].Occupancy? then xs[|xs| - 1].ms
    else LastOccupancy(xs[..|xs| - 1])
  }

  /** The number the last `End` declared. */
  ghost function LastEnd(xs: seq<Input>): (n: Option<nat>)
    decreases |xs|
  {
    if xs == [] then None
    else if xs[|xs| - 1].Packet? && xs[|xs| - 1].body.End? then Some(xs[|xs| - 1].body.finalSeq)
    else LastEnd(xs[..|xs| - 1])
  }

  /** The parts of the state that only record history. */
  ghost predicate Notes(s: Recv, t0: Instant, xs: seq<Input>, log: seq<Entry>)
  {
    && s.lastAckAt == LastAck(t0, log) && s.bufferedMs == LastOccupancy(xs) && s.finalSeq == LastEnd(xs)
    && (s.endAcked ==> s.closed)
  }

  lemma CheckNotes(s: Recv, now: Instant)
    requires s.endAcked ==> s.closed
    ensures var o := CheckFinish(s, now);
            && o.st.bufferedMs == s.bufferedMs && (o.st.endAcked ==> o.st.closed)
            && (o.burst.closed <==> !s.closed && o.burst.endAck)
  {
  }

  lemma BodyNotes(cfg: ReceiverConfig, s: Recv, seqNo: nat, body: Body, now: Instant)
    requires s.endAcked ==> s.closed
    ensures var o := OnBody(cfg, s, seqNo, body, now);
            && o.st.bufferedMs == s.bufferedMs && (o.st.endAcked ==> o.st.closed)
            && (o.burst.closed <==> !s.closed && o.burst.endAck)
  {
    match body
    case Data(ts, payload) => FreshNotes(cfg, s, Frame(seqNo, ts, payload), now);
    case End(final) => CheckNotes(s.(finalSeq := Some(final)), now);
    case Keepalive(l) =>
      var raised := s.(senderLostBelow := if l > s.senderLostBelow then l else s.senderLostBelow);
      CheckNotes(raised, now);
      CheckNotes(Abandon(raised), now);
    case _ =>
  }

  lemma HoldNotes(cfg: ReceiverConfig, s: Recv, f: Frame, now: Instant)
    requires s.endAcked ==> s.closed
    ensures var o := Hold(cfg, s, f, now);
            && o.st.bufferedMs == s.bufferedMs && (o.st.endAcked ==> o.st.closed)
            && (o.burst.closed <==> !s.closed && o.burst.endAck)
  {
    if s.reorderBytes + |f.payload| <= cfg.maxReorderBytes {
      var held := s.(reorder := s.reorder[f.seqNo := f], reorderBytes := s.reorderBytes + |f.payload|);
      assert Hold(cfg, s, f, now) == ReleaseAndCheck(held, now);
      CheckNotes(Release(held, now).st, now);
    }
  }

  lemma FreshNotes(cfg: ReceiverConfig, s: Recv, f: Frame, now: Instant)
    requires s.endAcked ==> s.closed
    ensures var o := OnFresh(cfg, s, f, now);
            && o.st.bufferedMs == s.bufferedMs && (o.st.endAcked ==> o.st.closed)
            && (o.burst.closed <==> !s.closed && o.burst.endAck)
  {
    HoldNotes(cfg, s.(gaps := Record(s.gaps, f.seqNo)), f, now);
  }

  /** One step: occupancy is only set from outside, and closing follows the tail
      acknowledgement or an idle peer. */
  lemma ReactNotes(cfg: ReceiverConfig, s: Recv, x: Input)
    requires s.endAcked ==> s.closed
    ensures var o := React(cfg, s, x);
            && o.st.bufferedMs == (if x.Occupancy? then x.ms else s.bufferedMs) && (o.st.endAcked ==> o.st.closed)
            && (o.burst.closed <==>
                  !s.closed && (o.burst.endAck || Overdue(x, s.lastPacketAt, cfg.idleTimeout)))
  {
    if x.Packet? {
      BodyNotes(cfg, s, x.seqNo, x.body, x.at);
    }
  }

  lemma {:induction false} NotesTrue(cfg: ReceiverConfig, t0: Instant, xs: seq<Input>)
    ensures Notes(Exec(cfg, t0, xs).st, t0, xs, Exec(cfg, t0, xs).log)
    decreases |xs|
  {
    if xs != [] {
      var before, x := xs[..|xs| - 1], xs[|xs| - 1];
      var h := Exec(cfg, t0, before);
      NotesTrue(cfg, t0, before);
      CouplingAlways(cfg, t0, before);
      ReactNotes(cfg, h.st, x);
      ReactDelta(cfg, h.st, x);
      assert Next(cfg, h, x).log[..|h.log|] == h.log;
    }
  }

  // ----- progress reports -----

  /** The report that is due, judged after the step. */
  ghost function DueReport(cfg: ReceiverConfig, s: Recv, s': Recv, x: Input): (a: Option<AckInfo>)
  {
    if !x.Occupancy? && !s'.closed && Since(x.at, s.lastAckAt) >= cfg.ackInterval && s'.gaps.highest > 0
    then Some(AckInfo(s'.gaps.contiguous, s'.gaps.highest, if s.bufferedMs < U16_MAX then s.bufferedMs else U16_MAX))
    else None
  }

  lemma ReactReports(cfg: ReceiverConfig, s: Recv, x: Input)
    requires s.endAcked ==> s.closed
    ensures React(cfg, s, x).burst.ack == DueReport(cfg, s, React(cfg, s, x).st, x)
  {
    if x.Packet? {
      BodyNotes(cfg, s, x.seqNo, x.body, x.at);
    } else if x.Clock? {
      TimersQuiet(cfg, s, x.at);
    }
  }

  lemma TimersQuiet(cfg: ReceiverConfig, s: Recv, now: Instant)
    ensures var o := OnTimers(cfg, s, now);
            && o.burst.ack.None? && o.st.lastAckAt == s.lastAckAt && o.st.bufferedMs == s.bufferedMs
            && o.st.closed == s.closed
  {
  }

  /** All of 1..c is in sight and c + 1 is not: it did not arrive, or it is lost from sight. */
  ghost predicate PrefixIs(arrived: set<nat>, lost: set<nat>, c: nat)
  {
    && (forall y: nat :: 1 <= y <= c ==> y in arrived && y !in lost)
    && (c + 1 !in arrived || c + 1 in lost)
  }

  lemma PrefixAlways(cfg: ReceiverConfig, t0: Instant, xs: seq<Input>)
    ensures var h := Exec(cfg, t0, xs); PrefixIs(h.arrived, P.Lost(cfg, t0, xs).now, h.st.gaps.contiguous)
  {
    CouplingAlways(cfg, t0, xs);
    P.PlayCountExact(cfg, t0, xs);
    PrefixOf(cfg, Exec(cfg, t0, xs), P.Lost(cfg, t0, xs));
  }

  lemma PrefixOf(cfg: ReceiverConfig, h: Hist, b: P.Blind)
    requires Inv(cfg, h) && P.BlindInv(cfg, h, b)
    ensures PrefixIs(h.arrived, b.now, h.st.gaps.contiguous)
  {
    var c := h.st.gaps.contiguous;
    assert forall y: nat :: 1 <= y <= c ==> Covers(h.st.gaps, y);
    assert !Covers(h.st.gaps, c + 1);
  }

  /** A report comes out of this step. */
  ghost predicate ReportDue(cfg: ReceiverConfig, t0: Instant, h: Hist, x: Input, h': Hist)
  {
    && !x.Occupancy? && Closed !in O.Trace(h'.log)
    && Since(x.at, LastAck(t0, h.log)) >= cfg.ackInterval && h'.arrived != {}
  }

  /** In every run a packet or a tick yields a progress report if and only if the receiver is not
      closed, even by this step, the last report is at least `ack_interval` old, and something
      has arrived. The report carries the prefix, the largest arrival, and the last reported
      occupancy, cut at 65535. */
  lemma ReportsExact(cfg: ReceiverConfig, t0: Instant, xs: seq<Input>, x: Input)
    ensures var h, h' := Exec(cfg, t0, xs), Exec(cfg, t0, xs + [x]);
            var ack := React(cfg, h.st, x).burst.ack;
            && (ack.Some? <==> ReportDue(cfg, t0, h, x, h'))
            && (ack.Some? ==>
                  && PrefixIs(h'.arrived, P.Lost(cfg, t0, xs + [x]).now, ack.value.contiguous)
                  && ack.value.highest == Max(h'.arrived)
                  && ack.value.bufferedMs == if LastOccupancy(xs) < 65535 then LastOccupancy(xs) else 65535)
  {
    ExecStep(cfg, t0, xs, x);
    NotesTrue(cfg, t0, xs);
    PrefixAlways(cfg, t0, xs + [x]);
    ReactReports(cfg, Exec(cfg, t0, xs).st, x);
    ClosedTraced(cfg, t0, xs + [x]);
    HighestIsMax(cfg, t0, xs + [x]);
  }

  lemma ClosedTraced(cfg: ReceiverConfig, t0: Instant, xs: seq<Input>)
    ensures Closed in O.Trace(Exec(cfg, t0, xs).log) <==> Exec(cfg, t0, xs).st.closed
    ensures SendEndAck in O.Trace(Exec(cfg, t0, xs).log) <==> Exec(cfg, t0, xs).st.endAcked
  {
    O.OutcomesDisciplined(cfg, t0, xs);
    TracedRank(O.Trace(Exec(cfg, t0, xs).log));
  }

  lemma TracedRank(tr: seq<RecvEvent>)
    ensures Closed in tr <==> O.Contains(tr, 5)
    ensures SendEndAck in tr <==> O.Contains(tr, 4)
  {
    assert forall e :: e in tr <==> exists i :: 0 <= i < |tr| && tr[i] == e;
  }

  lemma HighestIsMax(cfg: ReceiverConfig, t0: Instant, xs: seq<Input>)
    ensures var h := Exec(cfg, t0, xs);
            h.st.gaps.highest == Max(h.arrived) && (h.st.gaps.highest > 0 <==> h.arrived != {})
  {
    CouplingAlways(cfg, t0, xs);
    MaxOf(Exec(cfg, t0, xs));
  }

  lemma MaxOf(h: Hist)
    requires ArrivalInv(h)
    ensures h.st.gaps.highest == Max(h.arrived) && (h.st.gaps.highest > 0 <==> h.arrived != {})
  {
    if h.arrived != {} {
      var y :| y in h.arrived;
      assert 1 <= y <= h.st.gaps.highest;
    }
  }

  // ----- the tail, completion and closing -----

  /** A packet after which the finish check runs: an `End`, a `Keepalive`, or a new frame that
      the live stream could buffer. */
  ghost predicate Checks(cfg: ReceiverConfig, h: Hist, x: Input)
  {
    x.Packet? &&
    (x.body.End? || x.body.Keepalive? || (x.body.Data? && Fits(cfg, h.st, FrameOf(x))))
  }

  lemma EndAcksOn(cfg: ReceiverConfig, s: Recv, x: Input)
    requires Good(cfg, s)
    ensures var o := React(cfg, s, x);
            o.burst.endAck <==>
              && x.Packet? && (x.body.End? || x.body.Keepalive? || (x.body.Data? && Fits(cfg, s, FrameOf(x))))
              && !s.endAcked && o.st.finalSeq.Some? && o.st.finalSeq.value <= o.st.gaps.contiguous
  {
    if x.Packet? {
      BodyEndAcks(cfg, s, x);
    }
  }

  lemma BodyEndAcks(cfg: ReceiverConfig, s: Recv, x: Input)
    requires Good(cfg, s) && x.Packet?
    ensures var o := OnBody(cfg, s, x.seqNo, x.body, x.at);
            o.burst.endAck <==>
              && (x.body.End? || x.body.Keepalive? || (x.body.Data? && Fits(cfg, s, FrameOf(x))))
              && !s.endAcked && o.st.finalSeq.Some? && o.st.finalSeq.value <= o.st.gaps.contiguous
  {
    match x.body
    case Data(_, _) => DataEndAcks(cfg, s, x);
    case End(final) => CheckFinishShape(cfg, s.(finalSeq := Some(final)), x.at);
    case Keepalive(l) => KeepaliveEndAcks(cfg, s, l, x.at);
    case _ =>
  }

  lemma KeepaliveEndAcks(cfg: ReceiverConfig, s: Recv, l: nat, now: Instant)
    requires Good(cfg, s)
    ensures var o := OnKeepalive(s, l, now);
            o.burst.endAck <==>
              !s.endAcked && o.st.finalSeq.Some? && o.st.finalSeq.value <= o.st.gaps.contiguous
  {
    var raised := s.(senderLostBelow := if l > s.senderLostBelow then l else s.senderLostBelow);
    if l > s.senderLostBelow && s.streaming && s.gaps.contiguous < l {
      CheckFinishShape(cfg, Abandon(raised), now);
    } else {
      CheckFinishShape(cfg, raised, now);
    }
  }

  lemma DataEndAcks(cfg: ReceiverConfig, s: Recv, x: Input)
    requires Good(cfg, s) && IsData(x)
    ensures var o := OnData(cfg, s, FrameOf(x), x.at);
            o.burst.endAck <==>
              && Fits(cfg, s, FrameOf(x)) && !s.endAcked
              && o.st.finalSeq.Some? && o.st.finalSeq.value <= o.st.gaps.contiguous
  {
    var f := FrameOf(x);
    if Fits(cfg, s, f) {
      FitsFresh(cfg, s, f, x.at);
      ReleaseKeeps(cfg, s, f, x.at);
      CheckFinishShape(cfg, Release(Buffered(s, f), x.at).st, x.at);
    }
  }

  /** In every run a step closes the receiver if and only if it was not closed and the step
      either acknowledges the tail or is a tick past `idle_timeout` since the last packet. The
      tail is acknowledged if and only if the finish check runs, it was not acknowledged before,
      and the prefix has reached the number the last `End` declared. */
  lemma ClosesExact(cfg: ReceiverConfig, t0: Instant, xs: seq<Input>, x: Input)
    ensures var h, h' := Exec(cfg, t0, xs), Exec(cfg, t0, xs + [x]);
            var b := React(cfg, h.st, x).burst;
            && (b.closed <==> Closed !in O.Trace(h.log) && (b.endAck || Overdue(x, LastHeard(t0, xs), cfg.idleTimeout)))
            && (b.endAck <==>
                  && Checks(cfg, h, x) && SendEndAck !in O.Trace(h.log)
                  && LastEnd(xs + [x]).Some? && LastEnd(xs + [x]).value <= h'.st.gaps.contiguous)
  {
    ExecStep(cfg, t0, xs, x);
    CouplingAlways(cfg, t0, xs);
    NotesTrue(cfg, t0, xs);
    NotesTrue(cfg, t0, xs + [x]);
    StampsTrue(cfg, t0, xs);
    ClosedTraced(cfg, t0, xs);
    ReactNotes(cfg, Exec(cfg, t0, xs).st, x);
    EndAcksOn(cfg, Exec(cfg, t0, xs).st, x);
  }

  /** So a transfer whose tail was acknowledged is closed. */
  lemma TailCloses(cfg: ReceiverConfig, t0: Instant, xs: seq<Input>)
    ensures SendEndAck in O.Trace(Exec(cfg, t0, xs).log) ==> Closed in O.Trace(Exec(cfg, t0, xs).log)
  {
    NotesTrue(cfg, t0, xs);
    ClosedTraced(cfg, t0, xs);
  }

  lemma CompletesOn(cfg: ReceiverConfig, s: Recv, x: Input, final: nat)
    requires Good(cfg, s)
    ensures var o := React(cfg, s, x);
            o.burst.fin == Some(Complete(final)) <==>
              && s.streaming && x.Packet? && o.st.finalSeq == Some(final) && final <= o.st.gaps.contiguous
              && !Aborts(cfg, s, x, BufferExhausted) && !Aborts(cfg, s, x, SenderDiscarded)
  {
    ReactDelta(cfg, s, x);
    var o := React(cfg, s, x);
    if o.burst.fin.Some? && o.burst.fin.value.Complete? {
      CompleteIsPacket(cfg, s, x);
    } else if x.Packet? {
      PacketAborts(cfg, s, x);
    }
  }

  lemma CompleteIsPacket(cfg: ReceiverConfig, s: Recv, x: Input)
    requires Good(cfg, s)
    ensures React(cfg, s, x).burst.fin.Some? && React(cfg, s, x).burst.fin.value.Complete? ==> x.Packet?
  {
  }

  /** In every run the reliable stream completes if and only if it is live, a packet brings the
      prefix to the number the last `End` declared, and nothing aborts it in that step. */
  lemma CompletesExact(cfg: ReceiverConfig, t0: Instant, xs: seq<Input>, x: Input, final: nat)
    ensures var h, h' := Exec(cfg, t0, xs), Exec(cfg, t0, xs + [x]);
            React(cfg, h.st, x).burst.fin == Some(Complete(final)) <==>
              && h.st.streaming && x.Packet? && LastEnd(xs + [x]) == Some(final) && final <= h'.st.gaps.contiguous
              && !Aborts(cfg, h.st, x, BufferExhausted) && !Aborts(cfg, h.st, x, SenderDiscarded)
  {
    ExecStep(cfg, t0, xs, x);
    CouplingAlways(cfg, t0, xs);
    NotesTrue(cfg, t0, xs + [x]);
    CompletesOn(cfg, Exec(cfg, t0, xs).st, x, final);
  }
}
