/** The receiving half as it is held by an endpoint: fields updated in place, events
    appended to an output vector. Every method is proved against `ReceiverSpec`. */
module Receiver {
  import opened Types
  import opened GapSpec
  import opened GapTracking
  import S = ReceiverSpec

  class XferReceiver {
    const cfg: ReceiverConfig
    const gaps: GapTracker
    var reorder: map<nat, Frame>
    var reorderBytes: int
    var streaming: bool
    var relReleased: nat
    var finalSeq: Option<nat>
    var endAcked: bool
    var closed: bool
    var nacks: map<nat, S.NackEntry>
    var senderLostBelow: nat
    var lastPacketAt: Instant
    var lastAckAt: Instant
    var lastRelProgressAt: Instant
    var bufferedMs: nat

    ghost predicate Valid()
      reads this, gaps
    {
      TrackerOk(gaps.View())
    }

    ghost function View(): (s: S.Recv)
      reads this, gaps
    {
      S.Recv(gaps.View(), reorder, reorderBytes, streaming, relReleased, finalSeq, endAcked, closed,
             nacks, senderLostBelow, lastPacketAt, lastAckAt, lastRelProgressAt, bufferedMs)
    }

    constructor (cfg: ReceiverConfig, now: Instant)
      ensures Valid() && this.cfg == cfg && fresh(gaps)
      ensures View() == S.Init(now)
    {
      this.cfg := cfg;
      gaps := new GapTracker();
      reorder, reorderBytes, streaming, relReleased := map[], 0, true, 0;
      finalSeq, endAcked, closed := None, false, false;
      nacks, senderLostBelow := map[], 0;
      lastPacketAt, lastAckAt, lastRelProgressAt, bufferedMs := now, now, now, 0;
    }

    method SetBufferedMs(ms: nat)
      modifies this`bufferedMs
      ensures View() == old(View()).(bufferedMs := ms)
    {
      bufferedMs := ms;
    }

    method FinishRel(outcome: RelOutcome, out: seq<RecvEvent>) returns (out': seq<RecvEvent>)
      requires Valid()
      modifies this, gaps
      ensures Valid()
      ensures View() == if old(streaming) then S.Abandon(old(View())) else old(View())
      ensures out' == if old(streaming) then out + [RelFinished(outcome)] else out
    {
      if !streaming {
        return out;
      }
      streaming := false;
      reorder := map[];
      reorderBytes := 0;
      nacks := map[];
      gaps.Abandon();
      out' := out + [RelFinished(outcome)];
    }

    method ReleaseContiguous(now: Instant, out: seq<RecvEvent>) returns (out': seq<RecvEvent>)
      modifies `reorder, `reorderBytes, `relReleased, `nacks, `lastRelProgressAt
      ensures var r := S.Drain(old(reorder), old(nacks), old(reorderBytes), old(relReleased), gaps.contiguous);
              && reorder == r.reorder && nacks == r.nacks && reorderBytes == r.bytes && relReleased == r.top
              && lastRelProgressAt == (if r.frames == [] then old(lastRelProgressAt) else now)
              && out' == S.RelOnto(out, r.frames)
    {
      var contiguous := gaps.contiguous;
      var released := false;
      out' := out;
      ghost var goal := S.Drain(reorder, nacks, reorderBytes, relReleased, contiguous);
      while relReleased < contiguous
        invariant var r := S.Drain(reorder, nacks, reorderBytes, relReleased, contiguous);
                  && r.(frames := goal.frames) == goal
                  && S.RelOnto(out', r.frames) == S.RelOnto(out, goal.frames)
                  && if released then goal.frames != [] else r.frames == goal.frames
        invariant lastRelProgressAt == old(lastRelProgressAt)
      {
        var next := relReleased + 1;
        if next !in reorder {
          break;
        }
        var frame := reorder[next];
        reorder := reorder - {next};
        reorderBytes := reorderBytes - |frame.payload|;
        relReleased := next;
        nacks := nacks - {next};
        out' := out' + [Reliable(frame)];
        released := true;
      }
      if released {
        lastRelProgressAt := now;
      }
    }

    method CompleteRel(final: nat, now: Instant, out: seq<RecvEvent>) returns (out': seq<RecvEvent>)
      requires Valid() && streaming && finalSeq == Some(final)
      modifies this, gaps
      ensures Valid()
      ensures var o := S.CompleteRel(old(View()), now);
              View() == o.st && out' == S.RelOnto(out, o.burst.rel) + [RelFinished(Complete(final))]
    {
      ghost var released := S.Release(View(), now);
      out' := ReleaseContiguous(now, out);
      assert View() == released.st;
      out' := FinishRel(Complete(final), out');
    }

    method CheckFinish(now: Instant, out: seq<RecvEvent>) returns (out': seq<RecvEvent>)
      requires Valid()
      modifies this, gaps
      ensures Valid()
      ensures View() == S.CheckFinish(old(View()), now).st
      ensures var b := S.CheckFinish(old(View()), now).burst;
              out' == S.TailOnto(S.RelOnto(out, b.rel), b)
    {
      out' := out;
      if finalSeq.None? {
        return;
      }
      var final := finalSeq.value;
      if streaming && gaps.contiguous >= final {
        out' := CompleteRel(final, now, out');
      }
      if !endAcked && gaps.contiguous >= final {
        endAcked := true;
        out' := out' + [SendEndAck];
      }
      if endAcked && !closed {
        closed := true;
        out' := out' + [Closed];
      }
    }

    method OnData(frame: Frame, now: Instant, out: seq<RecvEvent>) returns (out': seq<RecvEvent>)
      requires Valid()
      modifies this, gaps
      ensures Valid()
      ensures View() == S.OnData(cfg, old(View()), frame, now).st
      ensures out' == S.Onto(out, S.OnData(cfg, old(View()), frame, now).burst)
    {
      RecordCovers(gaps.View(), frame.seqNo);
      out' := out;
      var isNew := gaps.Record(frame.seqNo);
      if isNew && cfg.mode.Dual? {
        out' := out' + [Unreliable(frame)];
      }
      if !streaming {
        return;
      }
      if !isNew {
        return;
      }
      if gaps.WindowSpan() > cfg.reorderWindow {
        out' := FinishRel(Aborted(BufferExhausted), out');
        return;
      }
      out' := Hold(frame, now, out');
    }

    /** The streaming half of `on_data`: buffer the frame, then let go of what became contiguous. */
    method Hold(frame: Frame, now: Instant, out: seq<RecvEvent>) returns (out': seq<RecvEvent>)
      requires Valid() && streaming
      modifies this, gaps
      ensures Valid()
      ensures var o := S.Hold(cfg, old(View()), frame, now);
              View() == o.st && out' == S.TailOnto(S.RelOnto(out, o.burst.rel), o.burst)
    {
      out' := out;
      reorderBytes := reorderBytes + |frame.payload|;
      reorder := reorder[frame.seqNo := frame];
      if reorderBytes > cfg.maxReorderBytes {
        out' := FinishRel(Aborted(BufferExhausted), out');
        return;
      }
      out' := ReleaseAndCheck(now, out');
    }

    method ReleaseAndCheck(now: Instant, out: seq<RecvEvent>) returns (out': seq<RecvEvent>)
      requires Valid()
      modifies this, gaps
      ensures Valid()
      ensures var o := S.ReleaseAndCheck(old(View()), now);
              View() == o.st && out' == S.TailOnto(S.RelOnto(out, o.burst.rel), o.burst)
    {
      ghost var released := S.Release(View(), now);
      ghost var checked := S.CheckFinish(released.st, now);
      out' := ReleaseContiguous(now, out);
      assert View() == released.st;
      out' := CheckFinish(now, out');
      RelOntoAppend(out, released.burst.rel, checked.burst.rel);
    }

    method OnKeepalive(lostBelow: nat, now: Instant, out: seq<RecvEvent>) returns (out': seq<RecvEvent>)
      requires Valid()
      modifies this, gaps
      ensures Valid()
      ensures View() == S.OnKeepalive(old(View()), lostBelow, now).st
      ensures out' == S.Onto(out, S.OnKeepalive(old(View()), lostBelow, now).burst)
    {
      out' := out;
      if lostBelow > senderLostBelow {
        senderLostBelow := lostBelow;
        if streaming && gaps.contiguous < senderLostBelow {
          out' := FinishRel(Aborted(SenderDiscarded), out');
        }
      }
      out' := CheckFinish(now, out');
    }

    method MaybeAck(now: Instant, out: seq<RecvEvent>, ghost b: S.Burst) returns (out': seq<RecvEvent>)
      requires Valid()
      requires b.ack.None? && out == S.Events(b)
      modifies `lastAckAt
      ensures Valid()
      ensures View() == S.WithAck(cfg, S.StepOut(old(View()), b), now).st
      ensures out' == S.Events(S.WithAck(cfg, S.StepOut(old(View()), b), now).burst)
    {
      out' := out;
      if closed {
        return;
      }
      if Since(now, lastAckAt) < cfg.ackInterval {
        return;
      }
      if gaps.highest == 0 {
        return;
      }
      lastAckAt := now;
      var ms := if bufferedMs < U16_MAX then bufferedMs else U16_MAX;
      out' := out + [SendAck(gaps.contiguous, gaps.highest, ms)];
    }

    method OnBody(seqNo: nat, body: Body, now: Instant) returns (out: seq<RecvEvent>)
      requires Valid()
      modifies this, gaps
      ensures Valid()
      ensures View() == S.OnBody(cfg, old(View()), seqNo, body, now).st
      ensures out == S.Events(S.OnBody(cfg, old(View()), seqNo, body, now).burst)
    {
      out := [];
      match body {
        case Data(ts, payload) =>
          out := OnData(Frame(seqNo, ts, payload), now, out);
        case End(final) =>
          finalSeq := Some(final);
          out := CheckFinish(now, out);
        case Keepalive(lostBelow) =>
          out := OnKeepalive(lostBelow, now, out);
        case _ =>
      }
    }

    method Handle(seqNo: nat, body: Body, now: Instant) returns (out: seq<RecvEvent>)
      requires Valid()
      modifies this, gaps
      ensures Valid()
      ensures View() == S.Handle(cfg, old(View()), seqNo, body, now).st
      ensures out == S.Events(S.Handle(cfg, old(View()), seqNo, body, now).burst)
    {
      HeardFirst(cfg, View(), seqNo, body, now);
      lastPacketAt := now;
      ghost var done := S.OnBody(cfg, View(), seqNo, body, now);
      out := OnBody(seqNo, body, now);
      out := MaybeAck(now, out, done.burst);
    }

    /** The loop of `emit_nacks` over the missing numbers. */
    method AskFor(missing: seq<nat>, now: Instant) returns (ask: seq<nat>, exhausted: bool)
      modifies `nacks
      ensures var r := S.Ask(cfg, old(nacks), missing, senderLostBelow, now);
              exhausted == r.exhausted && (!exhausted ==> nacks == r.nacks && ask == r.ask)
    {
      ask, exhausted := [], false;
      var i := 0;
      ghost var goal := S.Ask(cfg, nacks, missing, senderLostBelow, now);
      assert missing[0..] == missing;
      while i < |missing|
        invariant 0 <= i <= |missing| && !exhausted
        invariant var r := S.Ask(cfg, nacks, missing[i..], senderLostBelow, now);
                  goal.nacks == r.nacks && goal.ask == ask + r.ask && goal.exhausted == r.exhausted
      {
        assert missing[i..][0] == missing[i] && missing[i..][1..] == missing[i + 1..];
        var x := missing[i];
        if x <= senderLostBelow {
          exhausted := true;
          break;
        }
        var e := S.EntryFor(nacks, x, now);
        if e.attempts >= cfg.maxNackAttempts {
          exhausted := true;
          break;
        }
        if Since(now, e.lastAt) >= cfg.NackDelay(e.attempts) {
          nacks := nacks[x := S.NackEntry(e.attempts + 1, now)];
          ghost var more := S.Ask(cfg, nacks, missing[i + 1..], senderLostBelow, now).ask;
          assert ask + ([x] + more) == (ask + [x]) + more;
          ask := ask + [x];
        } else {
          nacks := nacks[x := e];
        }
        i := i + 1;
      }
    }

    method EmitNacks(now: Instant, out: seq<RecvEvent>) returns (out': seq<RecvEvent>)
      requires Valid() && streaming
      modifies this, gaps
      ensures Valid()
      ensures View() == S.EmitNacks(cfg, old(View()), now).st
      ensures out' == S.Onto(out, S.EmitNacks(cfg, old(View()), now).burst)
    {
      out' := out;
      var missing := gaps.Missing(MAX_NACK_ENTRIES);
      if missing == [] {
        return;
      }
      var ask, exhausted := AskFor(missing, now);
      if exhausted {
        out' := FinishRel(Aborted(UnrecoverableGap), out');
        return;
      }
      if ask != [] {
        out' := out' + [SendNack(ask)];
      }
    }

    method Tick(now: Instant) returns (out: seq<RecvEvent>)
      requires Valid()
      modifies this, gaps
      ensures Valid()
      ensures View() == S.Tick(cfg, old(View()), now).st
      ensures out == S.Events(S.Tick(cfg, old(View()), now).burst)
    {
      out := [];
      if closed {
        return;
      }
      if Since(now, lastPacketAt) > cfg.idleTimeout {
        if streaming {
          out := FinishRel(Aborted(PeerGone), out);
        }
        closed := true;
        out := out + [Closed];
        return;
      }
      if streaming {
        if Since(now, lastRelProgressAt) > cfg.relStallTimeout {
          out := FinishRel(Aborted(Stalled), out);
        } else {
          out := EmitNacks(now, out);
        }
      }
      out := MaybeAck(now, out, S.OnTimers(cfg, old(View()), now).burst);
    }
  }

  lemma HeardCheck(s: S.Recv, now: Instant)
    ensures S.CheckFinish(s.(lastPacketAt := now), now) == S.Heard(S.CheckFinish(s, now), now)
  {
  }

  lemma HeardRelease(s: S.Recv, now: Instant)
    ensures S.ReleaseAndCheck(s.(lastPacketAt := now), now) == S.Heard(S.ReleaseAndCheck(s, now), now)
  {
    HeardCheck(S.Release(s, now).st, now);
  }

  lemma HeardHold(cfg: ReceiverConfig, s: S.Recv, f: Frame, now: Instant)
    ensures S.Hold(cfg, s.(lastPacketAt := now), f, now) == S.Heard(S.Hold(cfg, s, f, now), now)
  {
    var held := s.(reorder := s.reorder[f.seqNo := f], reorderBytes := s.reorderBytes + |f.payload|);
    HeardRelease(held, now);
    assert held.(lastPacketAt := now)
           == s.(lastPacketAt := now).(reorder := held.reorder, reorderBytes := held.reorderBytes);
  }

  lemma HeardFresh(cfg: ReceiverConfig, s: S.Recv, f: Frame, now: Instant)
    ensures S.OnFresh(cfg, s.(lastPacketAt := now), f, now) == S.Heard(S.OnFresh(cfg, s, f, now), now)
  {
    HeardHold(cfg, s.(gaps := Record(s.gaps, f.seqNo)), f, now);
  }

  /** No packet handler looks at the liveness stamp, so it does not matter when it is set. */
  lemma HeardFirst(cfg: ReceiverConfig, s: S.Recv, seqNo: nat, body: Body, now: Instant)
    ensures S.OnBody(cfg, s.(lastPacketAt := now), seqNo, body, now)
            == S.Heard(S.OnBody(cfg, s, seqNo, body, now), now)
  {
    match body
    case Data(ts, payload) => HeardFresh(cfg, s, Frame(seqNo, ts, payload), now);
    case End(final) => HeardCheck(s.(finalSeq := Some(final)), now);
    case Keepalive(l) =>
      var raised := s.(senderLostBelow := if l > s.senderLostBelow then l else s.senderLostBelow);
      HeardCheck(raised, now);
      HeardCheck(S.Abandon(raised), now);
    case _ =>
  }

  /** Two releases in a row append like one. */
  lemma {:induction false} RelOntoAppend(out: seq<RecvEvent>, a: seq<Frame>, b: seq<Frame>)
    ensures S.RelOnto(S.RelOnto(out, a), b) == S.RelOnto(out, a + b)
    decreases |a|
  {
    if a == [] {
      assert a + b == b;
    } else {
      assert (a + b)[1..] == a[1..] + b;
      RelOntoAppend(out + [Reliable(a[0])], a[1..], b);
    }
  }
}
