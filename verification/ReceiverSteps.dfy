/** What one step keeps and changes: the coupling between the tracker, the reorder buffer,
    the byte counter and the release counter, and everything later proofs need to know about
    a step without looking inside it. */
module ReceiverSteps {
  import opened Types
  import opened GapSpec
  import opened ReceiverSpec

  datatype Input =
    | Packet(seqNo: nat, body: Body, at: Instant)
    | Clock(at: Instant)
    | Occupancy(ms: nat, at: Instant)

  ghost function React(cfg: ReceiverConfig, s: Recv, x: Input): (o: StepOut)
  {
    match x
    case Packet(seqNo, body, at) => Handle(cfg, s, seqNo, body, at)
    case Clock(at) => Tick(cfg, s, at)
    case Occupancy(ms, _) => StepOut(s.(bufferedMs := ms), QUIET)
  }

  predicate IsData(x: Input)
  {
    x.Packet? && x.body.Data?
  }

  function FrameOf(x: Input): (f: Frame)
    requires IsData(x)
  {
    Frame(x.seqNo, x.body.ts, x.body.payload)
  }

  // ----- bytes held -----

  /** Sum of the payload lengths held under numbers lo..hi. */
  ghost function Held(m: map<nat, Frame>, lo: nat, hi: nat): (n: nat)
    decreases hi + 1 - lo
  {
    if lo > hi then 0 else (if lo in m then |m[lo].payload| else 0) + Held(m, lo + 1, hi)
  }

  lemma {:induction false} HeldAgree(m: map<nat, Frame>, m': map<nat, Frame>, lo: nat, hi: nat)
    requires forall j :: lo <= j <= hi ==> (j in m <==> j in m') && (j in m ==> m[j] == m'[j])
    ensures Held(m, lo, hi) == Held(m', lo, hi)
    decreases hi + 1 - lo
  {
    if lo <= hi {
      HeldAgree(m, m', lo + 1, hi);
    }
  }

  lemma {:induction false} HeldInsert(m: map<nat, Frame>, f: Frame, x: nat, lo: nat, hi: nat)
    requires x !in m && lo <= x <= hi
    ensures Held(m[x := f], lo, hi) == Held(m, lo, hi) + |f.payload|
    decreases hi + 1 - lo
  {
    if lo == x {
      HeldAgree(m, m[x := f], lo + 1, hi);
    } else {
      HeldInsert(m, f, x, lo + 1, hi);
    }
  }

  lemma {:induction false} HeldExtend(m: map<nat, Frame>, lo: nat, hi: nat, hi': nat)
    requires lo <= hi + 1 && hi <= hi' && forall j :: j in m ==> j <= hi
    ensures Held(m, lo, hi') == Held(m, lo, hi)
    decreases hi' + 1 - lo
  {
    if lo <= hi {
      HeldExtend(m, lo + 1, hi, hi');
    } else if lo <= hi' {
      HeldEmpty(m, lo, hi');
    }
  }

  lemma {:induction false} HeldEmpty(m: map<nat, Frame>, lo: nat, hi: nat)
    requires forall j :: j in m ==> j < lo || j > hi
    ensures Held(m, lo, hi) == 0
    decreases hi + 1 - lo
  {
    if lo <= hi {
      HeldEmpty(m, lo + 1, hi);
    }
  }

  // ----- the invariant -----

  /** While streaming: the buffer is indexed exactly by the tracker, everything in the prefix
      has been released, the byte counter is the sum of what is held, and every budget holds. */
  ghost predicate Coupled(cfg: ReceiverConfig, s: Recv)
  {
    && s.relReleased == s.gaps.contiguous
    && s.reorder.Keys == s.gaps.ahead
    && (forall k :: k in s.reorder ==> s.reorder[k].seqNo == k)
    && s.reorderBytes == Held(s.reorder, s.gaps.contiguous + 1, s.gaps.highest)
    && s.reorderBytes <= cfg.maxReorderBytes
    && WindowSpan(s.gaps) <= cfg.reorderWindow
    && (forall k :: k in s.nacks ==> s.gaps.contiguous < k < s.gaps.highest)
    && s.senderLostBelow <= s.gaps.contiguous
    && !s.closed && !s.endAcked
  }

  /** Once finished nothing is held. */
  ghost predicate Emptied(s: Recv)
  {
    s.reorder == map[] && s.nacks == map[] && s.reorderBytes == 0
  }

  /** The invariant short of the finish check. */
  ghost predicate Unchecked(cfg: ReceiverConfig, s: Recv)
  {
    && TrackerOk(s.gaps)
    && s.relReleased <= s.gaps.contiguous
    && if s.streaming then Coupled(cfg, s) else Emptied(s)
  }

  ghost predicate Good(cfg: ReceiverConfig, s: Recv)
  {
    && Unchecked(cfg, s)
    && (s.streaming && s.finalSeq.Some? ==> s.gaps.contiguous < s.finalSeq.value)
  }

  // ----- draining -----

  /** When everything up to `last` is held, draining takes exactly those frames, in order. */
  lemma {:induction false} DrainTakes(m: map<nat, Frame>, nacks: map<nat, NackEntry>, bytes: int,
                                      top: nat, last: nat)
    requires top <= last && forall k :: top < k <= last ==> k in m
    ensures var r := Drain(m, nacks, bytes, top, last);
            && r.top == last && |r.frames| == last - top
            && (forall i :: 0 <= i < |r.frames| ==> r.frames[i] == m[top + 1 + i])
    decreases last - top
  {
    if top < last {
      var k := top + 1;
      DrainTakes(m - {k}, nacks - {k}, bytes - |m[k].payload|, k, last);
    }
  }

  lemma {:induction false} DrainLeaves(m: map<nat, Frame>, nacks: map<nat, NackEntry>, bytes: int,
                                       top: nat, last: nat)
    requires top <= last && forall k :: top < k <= last ==> k in m
    ensures var r := Drain(m, nacks, bytes, top, last);
            && (forall k :: k in r.reorder <==> k in m && !(top < k <= last))
            && (forall k :: k in r.reorder ==> r.reorder[k] == m[k])
            && (forall k :: k in r.nacks <==> k in nacks && !(top < k <= last))
            && (forall k :: k in r.nacks ==> r.nacks[k] == nacks[k])
    decreases last - top
  {
    if top < last {
      var k := top + 1;
      DrainLeaves(m - {k}, nacks - {k}, bytes - |m[k].payload|, k, last);
    }
  }

  lemma {:induction false} DrainBytes(m: map<nat, Frame>, nacks: map<nat, NackEntry>, bytes: int,
                                      top: nat, last: nat, hi: nat)
    requires top <= last <= hi && forall k :: top < k <= last ==> k in m
    ensures var r := Drain(m, nacks, bytes, top, last);
            && r.bytes == bytes - Held(m, top + 1, hi) + Held(r.reorder, last + 1, hi)
            && r.bytes <= bytes
    decreases last - top
  {
    if top < last {
      var k := top + 1;
      DrainBytes(m - {k}, nacks - {k}, bytes - |m[k].payload|, k, last, hi);
      HeldAgree(m, m - {k}, k + 1, hi);
    }
  }

  // ----- what a step changes -----

  /** Arrivals: the prefix and the maximum only grow, nothing counts as arrived that did not
      arrive, and nothing is forgotten except by the step that finishes the reliable stream. */
  ghost predicate GapsDelta(s: Recv, x: Input, s': Recv)
  {
    && s.gaps.contiguous <= s'.gaps.contiguous
    && s'.gaps.highest == (if IsData(x) && x.seqNo > s.gaps.highest then x.seqNo else s.gaps.highest)
    && (forall y: nat :: Covers(s'.gaps, y) ==> Covers(s.gaps, y) || (IsData(x) && y == x.seqNo >= 1))
    && (s.streaming == s'.streaming ==>
          forall y: nat :: Covers(s.gaps, y) || (IsData(x) && y == x.seqNo >= 1) ==> Covers(s'.gaps, y))
  }

  /** Releases: numbered on from the last one, each frame either held before or just delivered. */
  ghost predicate RelDelta(s: Recv, x: Input, o: StepOut)
  {
    && o.st.relReleased == s.relReleased + |o.burst.rel|
    && (forall i :: 0 <= i < |o.burst.rel| ==>
          var k := s.relReleased + 1 + i;
          && o.burst.rel[i].seqNo == k
          && ((k in s.reorder && o.burst.rel[i] == s.reorder[k]) || (IsData(x) && o.burst.rel[i] == FrameOf(x))))
    && (forall k :: k in o.st.reorder ==>
          || (k in s.reorder && o.st.reorder[k] == s.reorder[k])
          || (IsData(x) && o.st.reorder[k] == FrameOf(x)))
    && (!s.streaming ==> o.burst.rel == [] && o.burst.nack == [])
  }

  /** Endings: an outcome exactly when the stream stops, and what each ending proves. */
  ghost predicate EndDelta(s: Recv, x: Input, o: StepOut)
  {
    && (o.burst.fin.Some? <==> s.streaming && !o.st.streaming)
    && (o.st.streaming ==> s.streaming)
    && o.st.finalSeq == (if x.Packet? && x.body.End? then Some(x.body.finalSeq) else s.finalSeq)
    && (o.st.endAcked <==> s.endAcked || o.burst.endAck)
    && (o.burst.endAck ==> !s.endAcked && o.st.finalSeq.Some? && o.st.finalSeq.value <= o.st.gaps.contiguous)
    && (o.st.closed <==> s.closed || o.burst.closed)
    && (o.burst.closed ==> !s.closed)
    && (o.burst.fin.Some? ==>
          match o.burst.fin.value
          case Complete(final) =>
            o.st.finalSeq == Some(final) && final <= o.st.gaps.contiguous == o.st.relReleased
          case Aborted(why) =>
            && (why == SenderDiscarded ==>
                  && x.Packet? && x.body.Keepalive?
                  && s.gaps.contiguous == o.st.gaps.contiguous < x.body.lostBelow)
            && (why == UnrecoverableGap ==> x.Clock?))
  }

  ghost predicate AckDelta(cfg: ReceiverConfig, s: Recv, x: Input, o: StepOut)
  {
    match o.burst.ack
    case None => o.st.lastAckAt == s.lastAckAt
    case Some(a) =>
      && a.contiguous == o.st.gaps.contiguous && a.highest == o.st.gaps.highest > 0
      && Since(x.at, s.lastAckAt) >= cfg.ackInterval && o.st.lastAckAt == x.at
  }

  ghost predicate UnrelDelta(cfg: ReceiverConfig, s: Recv, x: Input, o: StepOut)
  {
    o.burst.unrel ==
      if IsData(x) && Fresh(s.gaps, x.seqNo) && cfg.mode.Dual? then Some(FrameOf(x)) else None
  }

  ghost predicate Delta(cfg: ReceiverConfig, s: Recv, x: Input, o: StepOut)
  {
    && Good(cfg, o.st)
    && GapsDelta(s, x, o.st)
    && RelDelta(s, x, o)
    && EndDelta(s, x, o)
  }

  // ----- finish checks -----

  /** In a coupled state the finish check has nothing left to release. */
  lemma CheckFinishShape(cfg: ReceiverConfig, s: Recv, now: Instant)
    requires Unchecked(cfg, s)
    ensures var o := CheckFinish(s, now);
            var done := s.finalSeq.Some? && s.gaps.contiguous >= s.finalSeq.value;
            && o.burst.rel == []
            && o.burst.fin == (if s.streaming && done then Some(Complete(s.finalSeq.value)) else None)
            && o.st == (if s.streaming && done then Abandon(s) else s)
                       .(endAcked := s.endAcked || done, closed := s.closed || o.burst.closed)
            && o.burst.endAck == (!s.endAcked && done)
            && (o.burst.closed ==> !s.closed && s.finalSeq.Some?)
            && Good(cfg, o.st)
  {
  }

  // ----- data -----

  function Buffered(s: Recv, f: Frame): (r: Recv)
  {
    s.(gaps := Record(s.gaps, f.seqNo), reorder := s.reorder[f.seqNo := f],
       reorderBytes := s.reorderBytes + |f.payload|)
  }

  /** The new frame plus what was held covers exactly the numbers the prefix just passed and
      those still above it. */
  lemma BufferedKeys(cfg: ReceiverConfig, s: Recv, f: Frame)
    requires Good(cfg, s) && s.streaming && Fresh(s.gaps, f.seqNo)
    ensures var h := Buffered(s, f);
            && TrackerOk(h.gaps) && s.gaps.contiguous <= h.gaps.contiguous
            && s.gaps.highest <= h.gaps.highest && f.seqNo <= h.gaps.highest
            && (forall k :: k in h.reorder <==> (s.gaps.contiguous < k <= h.gaps.contiguous) || k in h.gaps.ahead)
            && (forall k :: k in h.reorder ==> h.reorder[k].seqNo == k)
            && h.reorderBytes == Held(h.reorder, s.gaps.contiguous + 1, h.gaps.highest)
  {
    var h := Buffered(s, f);
    RecordCovers(s.gaps, f.seqNo);
    AdvanceIsMaximal(s.gaps.contiguous, s.gaps.ahead + {f.seqNo});
    HeldExtend(s.reorder, s.gaps.contiguous + 1, s.gaps.highest, h.gaps.highest);
    HeldInsert(s.reorder, f, f.seqNo, s.gaps.contiguous + 1, h.gaps.highest);
  }

  /** Releasing restores the coupling. */
  lemma ReleaseCouples(cfg: ReceiverConfig, s: Recv, f: Frame, now: Instant)
    requires Good(cfg, s) && s.streaming && Fresh(s.gaps, f.seqNo)
    requires WindowSpan(Record(s.gaps, f.seqNo)) <= cfg.reorderWindow
    requires s.reorderBytes + |f.payload| <= cfg.maxReorderBytes
    ensures Coupled(cfg, Release(Buffered(s, f), now).st)
  {
    var h := Buffered(s, f);
    var c, last, hi := s.gaps.contiguous, h.gaps.contiguous, h.gaps.highest;
    BufferedKeys(cfg, s, f);
    DrainTakes(h.reorder, h.nacks, h.reorderBytes, c, last);
    DrainLeaves(h.reorder, h.nacks, h.reorderBytes, c, last);
    DrainBytes(h.reorder, h.nacks, h.reorderBytes, c, last, hi);
    var r := Release(h, now).st;
    assert r.reorder.Keys == r.gaps.ahead;
  }

  /** The early exit of the release loop is never taken: exactly what the prefix passed is let
      go, in order. */
  lemma ReleaseKeeps(cfg: ReceiverConfig, s: Recv, f: Frame, now: Instant)
    requires Good(cfg, s) && s.streaming && Fresh(s.gaps, f.seqNo)
    requires WindowSpan(Record(s.gaps, f.seqNo)) <= cfg.reorderWindow
    requires s.reorderBytes + |f.payload| <= cfg.maxReorderBytes
    ensures var h := Buffered(s, f);
            var o := Release(h, now);
            && Unchecked(cfg, o.st) && o.st.streaming
            && o.st.gaps == h.gaps && o.st.finalSeq == s.finalSeq
            && |o.burst.rel| == h.gaps.contiguous - s.gaps.contiguous
            && (forall i :: 0 <= i < |o.burst.rel| ==>
                  var k := s.gaps.contiguous + 1 + i;
                  k in h.reorder && o.burst.rel[i] == h.reorder[k] && o.burst.rel[i].seqNo == k)
            && (forall k :: k in o.st.reorder ==> k in h.reorder && o.st.reorder[k] == h.reorder[k])
  {
    var h := Buffered(s, f);
    ReleaseCouples(cfg, s, f, now);
    BufferedKeys(cfg, s, f);
    DrainTakes(h.reorder, h.nacks, h.reorderBytes, s.gaps.contiguous, h.gaps.contiguous);
    DrainLeaves(h.reorder, h.nacks, h.reorderBytes, s.gaps.contiguous, h.gaps.contiguous);
  }

  ghost predicate Fits(cfg: ReceiverConfig, s: Recv, f: Frame)
  {
    && s.streaming && Fresh(s.gaps, f.seqNo)
    && WindowSpan(Record(s.gaps, f.seqNo)) <= cfg.reorderWindow
    && s.reorderBytes + |f.payload| <= cfg.maxReorderBytes
  }

  /** The finish check adds no releases to those of the new frame. */
  lemma HoldShape(cfg: ReceiverConfig, s: Recv, f: Frame, now: Instant)
    requires Good(cfg, s) && Fits(cfg, s, f)
    ensures var released := Release(Buffered(s, f), now);
            var o := ReleaseAndCheck(Buffered(s, f), now);
            && o.burst.rel == released.burst.rel
            && Unchecked(cfg, released.st) && released.st.streaming && released.st.finalSeq == s.finalSeq
            && o.st == CheckFinish(released.st, now).st
            && o.burst == CheckFinish(released.st, now).burst.(rel := released.burst.rel)
  {
    var released := Release(Buffered(s, f), now);
    ReleaseKeeps(cfg, s, f, now);
    CheckFinishShape(cfg, released.st, now);
    assert released.burst.rel + [] == released.burst.rel;
  }

  lemma HoldRel(cfg: ReceiverConfig, s: Recv, x: Input)
    requires Good(cfg, s) && IsData(x) && Fits(cfg, s, FrameOf(x))
    ensures RelDelta(s, x, ReleaseAndCheck(Buffered(s, FrameOf(x)), x.at))
  {
    var f := FrameOf(x);
    HoldShape(cfg, s, f, x.at);
    ReleaseKeeps(cfg, s, f, x.at);
    CheckFinishShape(cfg, Release(Buffered(s, f), x.at).st, x.at);
  }

  lemma HoldDelta(cfg: ReceiverConfig, s: Recv, x: Input)
    requires Good(cfg, s) && IsData(x) && Fits(cfg, s, FrameOf(x))
    ensures Delta(cfg, s, x, ReleaseAndCheck(Buffered(s, FrameOf(x)), x.at))
  {
    var f := FrameOf(x);
    HoldRel(cfg, s, x);
    HoldShape(cfg, s, f, x.at);
    RecordCovers(s.gaps, f.seqNo);
    CheckFinishShape(cfg, Release(Buffered(s, f), x.at).st, x.at);
  }

  /** A frame that fits is buffered, and what became contiguous is let go. */
  lemma FitsFresh(cfg: ReceiverConfig, s: Recv, f: Frame, now: Instant)
    requires Fits(cfg, s, f)
    ensures OnFresh(cfg, s, f, now) == ReleaseAndCheck(Buffered(s, f), now)
  {
    var arrived := s.(gaps := Record(s.gaps, f.seqNo));
    assert OnFresh(cfg, s, f, now) == Hold(cfg, arrived, f, now);
  }

  lemma FreshDelta(cfg: ReceiverConfig, s: Recv, x: Input)
    requires Good(cfg, s) && IsData(x) && Fresh(s.gaps, x.seqNo)
    ensures Delta(cfg, s, x, OnFresh(cfg, s, FrameOf(x), x.at))
  {
    if Fits(cfg, s, FrameOf(x)) {
      HoldDelta(cfg, s, x);
      FitsFresh(cfg, s, FrameOf(x), x.at);
    } else {
      RefusedDelta(cfg, s, x);
    }
  }

  lemma RefusedDelta(cfg: ReceiverConfig, s: Recv, x: Input)
    requires Good(cfg, s) && IsData(x) && Fresh(s.gaps, x.seqNo) && !Fits(cfg, s, FrameOf(x))
    ensures Delta(cfg, s, x, OnFresh(cfg, s, FrameOf(x), x.at))
  {
    RecordCovers(s.gaps, x.seqNo);
  }

  lemma PlayedKeeps(cfg: ReceiverConfig, s: Recv, x: Input, o: StepOut, u: Option<Frame>)
    requires Delta(cfg, s, x, o)
    ensures Delta(cfg, s, x, Played(o, u))
  {
  }

  lemma DataDelta(cfg: ReceiverConfig, s: Recv, x: Input)
    requires Good(cfg, s) && IsData(x)
    ensures Delta(cfg, s, x, OnData(cfg, s, FrameOf(x), x.at))
    ensures UnrelDelta(cfg, s, x, OnData(cfg, s, FrameOf(x), x.at))
  {
    var f := FrameOf(x);
    if Fresh(s.gaps, f.seqNo) {
      FreshDelta(cfg, s, x);
      PlayedKeeps(cfg, s, x, OnFresh(cfg, s, f, x.at), if cfg.mode.Dual? then Some(f) else None);
    }
  }

  lemma EndPacketDelta(cfg: ReceiverConfig, s: Recv, x: Input)
    requires Good(cfg, s) && x.Packet? && x.body.End?
    ensures Delta(cfg, s, x, CheckFinish(s.(finalSeq := Some(x.body.finalSeq)), x.at))
  {
    CheckFinishShape(cfg, s.(finalSeq := Some(x.body.finalSeq)), x.at);
  }

  lemma KeepaliveDelta(cfg: ReceiverConfig, s: Recv, x: Input)
    requires Good(cfg, s) && x.Packet? && x.body.Keepalive?
    ensures Delta(cfg, s, x, OnKeepalive(s, x.body.lostBelow, x.at))
  {
    var l := x.body.lostBelow;
    if l > s.senderLostBelow && s.streaming && s.gaps.contiguous < l {
      CheckFinishShape(cfg, Abandon(s.(senderLostBelow := l)), x.at);
    } else {
      CheckFinishShape(cfg, s.(senderLostBelow := if l > s.senderLostBelow then l else s.senderLostBelow), x.at);
    }
  }

  // ----- timers -----

  /** Asking touches only the numbers it was given, and asks only for those. */
  lemma {:induction false} AskKeys(cfg: ReceiverConfig, nacks: map<nat, NackEntry>, missing: seq<nat>,
                                   lostBelow: nat, now: Instant)
    ensures var r := Ask(cfg, nacks, missing, lostBelow, now);
            && (forall k :: k in r.nacks ==> k in nacks || k in missing)
            && (forall k :: k in r.ask ==> k in missing)
            && |r.ask| <= |missing|
    decreases |missing|
  {
    if missing != [] && missing[0] > lostBelow {
      var x := missing[0];
      var e := EntryFor(nacks, x, now);
      AskKeys(cfg, nacks[x := NackEntry(e.attempts + 1, now)], missing[1..], lostBelow, now);
      AskKeys(cfg, nacks[x := e], missing[1..], lostBelow, now);
    }
  }

  lemma ClockDelta(cfg: ReceiverConfig, s: Recv, x: Input)
    requires Good(cfg, s) && x.Clock?
    ensures Delta(cfg, s, x, OnTimers(cfg, s, x.at))
    ensures OnTimers(cfg, s, x.at).burst.ack.None? && OnTimers(cfg, s, x.at).burst.unrel.None?
    ensures OnTimers(cfg, s, x.at).st.lastAckAt == s.lastAckAt
  {
    if s.streaming {
      var missing := Missing(s.gaps, MAX_NACK_ENTRIES);
      MissingIsFirstHoles(s.gaps, MAX_NACK_ENTRIES);
      AskKeys(cfg, s.nacks, missing, s.senderLostBelow, x.at);
      assert forall k :: k in missing ==> s.gaps.contiguous < k < s.gaps.highest;
      var o := OnTimers(cfg, s, x.at);
      if o.burst.fin.None? {
        assert o == StepOut(s.(nacks := o.st.nacks), QUIET.(nack := o.burst.nack));
        NacksKeep(cfg, s, o.st.nacks);
      } else {
        assert o == StepOut(Abandon(s), QUIET.(fin := o.burst.fin));
      }
    }
  }

  lemma NacksKeep(cfg: ReceiverConfig, s: Recv, nacks: map<nat, NackEntry>)
    requires Good(cfg, s) && s.streaming
    requires forall k :: k in nacks ==> s.gaps.contiguous < k < s.gaps.highest
    ensures Good(cfg, s.(nacks := nacks))
  {
  }

  lemma ReportDelta(cfg: ReceiverConfig, s: Recv, x: Input, o: StepOut)
    requires Delta(cfg, s, x, o)
    ensures Delta(cfg, s, x, WithAck(cfg, o, x.at))
  {
    var r := WithAck(cfg, o, x.at);
    assert r.st == o.st.(lastAckAt := r.st.lastAckAt) && r.burst == o.burst.(ack := r.burst.ack);
  }

  lemma ReportKeeps(cfg: ReceiverConfig, s: Recv, x: Input, o: StepOut)
    requires Delta(cfg, s, x, o) && UnrelDelta(cfg, s, x, o)
    requires o.burst.ack.None? && o.st.lastAckAt == s.lastAckAt
    ensures Delta(cfg, s, x, WithAck(cfg, o, x.at))
    ensures AckDelta(cfg, s, x, WithAck(cfg, o, x.at))
    ensures UnrelDelta(cfg, s, x, WithAck(cfg, o, x.at))
  {
    ReportDelta(cfg, s, x, o);
  }

  lemma HeardKeeps(cfg: ReceiverConfig, s: Recv, x: Input, o: StepOut)
    requires Delta(cfg, s, x, o)
    ensures Delta(cfg, s, x, Heard(o, x.at))
  {
  }

  /** Every step keeps the coupling and changes only what `Delta` says. */
  lemma ReactDelta(cfg: ReceiverConfig, s: Recv, x: Input)
    requires Good(cfg, s)
    ensures Delta(cfg, s, x, React(cfg, s, x))
    ensures AckDelta(cfg, s, x, React(cfg, s, x))
    ensures UnrelDelta(cfg, s, x, React(cfg, s, x))
  {
    match x
    case Packet(seqNo, body, at) =>
      PacketDelta(cfg, s, x);
    case Clock(at) =>
      TickDelta(cfg, s, x);
    case Occupancy(_, _) =>
  }

  lemma TickDelta(cfg: ReceiverConfig, s: Recv, x: Input)
    requires Good(cfg, s) && x.Clock?
    ensures Delta(cfg, s, x, React(cfg, s, x))
    ensures AckDelta(cfg, s, x, React(cfg, s, x))
    ensures UnrelDelta(cfg, s, x, React(cfg, s, x))
  {
    if !s.closed && Since(x.at, s.lastPacketAt) <= cfg.idleTimeout {
      ClockDelta(cfg, s, x);
      ReportKeeps(cfg, s, x, OnTimers(cfg, s, x.at));
    }
  }

  lemma PacketDelta(cfg: ReceiverConfig, s: Recv, x: Input)
    requires Good(cfg, s) && x.Packet?
    ensures Delta(cfg, s, x, React(cfg, s, x))
    ensures AckDelta(cfg, s, x, React(cfg, s, x))
    ensures UnrelDelta(cfg, s, x, React(cfg, s, x))
  {
    var o := OnBody(cfg, s, x.seqNo, x.body, x.at);
    assert Delta(cfg, s, x, o) == UnrelDelta(cfg, s, x, o) == true by {
      if x.body.Data? {
        DataDelta(cfg, s, x);
      } else if x.body.End? {
        EndPacketDelta(cfg, s, x);
      } else if x.body.Keepalive? {
        KeepaliveDelta(cfg, s, x);
      }
    }
    HeardKeeps(cfg, s, x, o);
    ReportKeeps(cfg, s, x, Heard(o, x.at));
  }
}
