/** What one step of the sending half does, as a function of its state. */
module SenderSpec {
  import opened Types
  import opened RetransSpec

  datatype Phase = Streaming | Finalizing | Done

  datatype SendFailure = NoAck | FinalizeTimeout

  datatype SendEvent =
    | Emit(seqNo: nat, body: Body)
    | Resend(datagrams: seq<Datagram>)
    | Completed
    | Failed(why: SendFailure)

  datatype Send = Send(
    ring: Ring,
    phase: Phase,
    nextSeq: nat,
    controlCounter: nat,
    ackedHighest: nat,
    bufferedMs: nat,
    paused: bool,
    firstDataAt: Option<Instant>,
    gotAck: bool,
    finalizeAt: Option<Instant>,
    lastKeepaliveAt: Option<Instant>)

  datatype SendOut = SendOut(st: Send, event: Option<SendEvent>)

  function Init(cfg: SenderConfig): (s: Send)
  {
    Send(NewRing(cfg.retransRingFrames, cfg.retransRingBytes), Streaming, 1, 0, 0, 0, false,
         None, false, None, None)
  }

  /** `XferSeq::next` saturates. */
  function NextSeq(n: nat): (m: nat)
  {
    if n >= U32_MAX then U32_MAX else n + 1
  }

  /** Control counters wrap. */
  function NextControl(n: nat): (m: nat)
  {
    (n + 1) % (U32_MAX + 1)
  }

  function LastSeq(s: Send): (n: nat)
  {
    if s.nextSeq < 1 then 0 else s.nextSeq - 1
  }

  predicate CanSend(cfg: SenderConfig, s: Send)
  {
    && s.phase == Streaming && !s.paused
    && (if LastSeq(s) < s.ackedHighest then 0 else LastSeq(s) - s.ackedHighest) < cfg.maxOutstanding
  }

  function PushFrame(cfg: SenderConfig, s: Send, ts: nat, payload: seq<Byte>, now: Instant): (o: SendOut)
  {
    if !CanSend(cfg, s) then SendOut(s, None)
    else SendOut(s.(nextSeq := NextSeq(s.nextSeq),
                    firstDataAt := if s.firstDataAt.None? then Some(now) else s.firstDataAt),
                 Some(Emit(s.nextSeq, Data(ts, payload))))
  }

  function RecordSealed(s: Send, seqNo: nat, sealed: Datagram): (s': Send)
  {
    s.(ring := Push(s.ring, seqNo, sealed))
  }

  function Control(s: Send, body: Body): (o: SendOut)
  {
    var c := NextControl(s.controlCounter);
    SendOut(s.(controlCounter := c), Some(Emit(c, body)))
  }

  function Finish(s: Send, now: Instant): (o: SendOut)
  {
    if s.phase != Streaming then SendOut(s, None)
    else Control(s.(phase := Finalizing, finalizeAt := Some(now), lastKeepaliveAt := Some(now)),
                 End(LastSeq(s)))
  }

  /** The stored datagrams among those asked for, in the order asked. */
  function Lookup(entries: seq<Slot>, missing: seq<nat>): (ds: seq<Datagram>)
    decreases |missing|
  {
    if missing == [] then []
    else
      var d := Find(entries, missing[0]);
      (if d.Some? then [d.value] else []) + Lookup(entries, missing[1..])
  }

  function OnAck(cfg: SenderConfig, s: Send, contiguous: nat, highest: nat, bufferedMs: nat): (s': Send)
  {
    s.(gotAck := true,
       ring := AckThrough(s.ring, contiguous),
       ackedHighest := if highest > s.ackedHighest then highest else s.ackedHighest,
       bufferedMs := bufferedMs,
       paused := if bufferedMs >= cfg.bufferHighWaterMs then true
                 else if bufferedMs <= cfg.bufferLowWaterMs then false
                 else s.paused)
  }

  function Handle(cfg: SenderConfig, s: Send, body: Body): (o: SendOut)
  {
    match body
    case Ack(contiguous, highest, bufferedMs) =>
      SendOut(OnAck(cfg, s, contiguous, highest, bufferedMs), None)
    case Nack(missing) =>
      var ds := Lookup(s.ring.entries, missing);
      SendOut(s.(gotAck := true), if ds == [] then None else Some(Resend(ds)))
    case EndAck => SendOut(s.(phase := Done), Some(Completed))
    case _ => SendOut(s, None)
  }

  function SendKeepalive(s: Send, now: Instant): (o: SendOut)
  {
    Control(s.(lastKeepaliveAt := Some(now)), Keepalive(s.ring.lostBelow))
  }

  function Tick(cfg: SenderConfig, s: Send, now: Instant): (o: SendOut)
  {
    if s.phase == Done then SendOut(s, None)
    else if !s.gotAck && s.firstDataAt.Some? && Since(now, s.firstDataAt.value) > cfg.firstAckTimeout
    then SendOut(s.(phase := Done), Some(Failed(NoAck)))
    else if s.phase == Streaming then
      if s.paused && (s.lastKeepaliveAt.None?
                      || Since(now, s.lastKeepaliveAt.value) >= cfg.tailKeepaliveInterval)
      then SendKeepalive(s, now) else SendOut(s, None)
    else if s.finalizeAt.Some? && Since(now, s.finalizeAt.value) > cfg.finalizeTimeout
    then SendOut(s.(phase := Done), Some(Failed(FinalizeTimeout)))
    else if s.lastKeepaliveAt.Some? && Since(now, s.lastKeepaliveAt.value) >= cfg.tailKeepaliveInterval
    then SendKeepalive(s, now)
    else SendOut(s, None)
  }
}

/** The sending half as the tap holds it. */
module Sender {
  import opened Types
  import opened Retrans
  import S = SenderSpec

  class XferSender {
    const cfg: SenderConfig
    const ring: RetransRing
    var phase: S.Phase
    var nextSeq: nat
    var controlCounter: nat
    var ackedHighest: nat
    var bufferedMs: nat
    var paused: bool
    var firstDataAt: Option<Instant>
    var gotAck: bool
    var finalizeAt: Option<Instant>
    var lastKeepaliveAt: Option<Instant>

    ghost function View(): (s: S.Send)
      reads this, ring
    {
      S.Send(ring.View(), phase, nextSeq, controlCounter, ackedHighest, bufferedMs, paused,
             firstDataAt, gotAck, finalizeAt, lastKeepaliveAt)
    }

    constructor (cfg: SenderConfig)
      ensures this.cfg == cfg && fresh(ring) && View() == S.Init(cfg)
    {
      this.cfg := cfg;
      ring := new RetransRing(cfg.retransRingFrames, cfg.retransRingBytes);
      phase, nextSeq, controlCounter := S.Streaming, 1, 0;
      ackedHighest, bufferedMs, paused := 0, 0, false;
      firstDataAt, gotAck, finalizeAt, lastKeepaliveAt := None, false, None, None;
    }

    predicate CanSend()
      reads this, ring
      ensures CanSend() == S.CanSend(cfg, View())
    {
      if phase != S.Streaming || paused then false
      else
        var last := if nextSeq < 1 then 0 else nextSeq - 1;
        var outstanding := if last < ackedHighest then 0 else last - ackedHighest;
        outstanding < cfg.maxOutstanding
    }

    method PushFrame(ts: nat, payload: seq<Byte>, now: Instant) returns (ev: Option<S.SendEvent>)
      modifies this
      ensures var o := S.PushFrame(cfg, old(View()), ts, payload, now);
              View() == o.st && ev == o.event
    {
      if !CanSend() {
        return None;
      }
      var seqNo := nextSeq;
      nextSeq := S.NextSeq(seqNo);
      if firstDataAt.None? {
        firstDataAt := Some(now);
      }
      ev := Some(S.Emit(seqNo, Data(ts, payload)));
    }

    method RecordSealed(seqNo: nat, sealed: Datagram)
      modifies ring
      ensures View() == S.RecordSealed(old(View()), seqNo, sealed)
    {
      ring.Push(seqNo, sealed);
    }

    method ControlSeq() returns (c: nat)
      modifies `controlCounter
      ensures c == controlCounter == S.NextControl(old(controlCounter))
      ensures c <= U32_MAX
      ensures old(controlCounter) < U32_MAX ==> c == old(controlCounter) + 1
      ensures old(controlCounter) == U32_MAX ==> c == 0
    {
      controlCounter := S.NextControl(controlCounter);
      c := controlCounter;
    }

    method Finish(now: Instant) returns (ev: Option<S.SendEvent>)
      modifies this
      ensures View() == S.Finish(old(View()), now).st && ev == S.Finish(old(View()), now).event
    {
      if phase != S.Streaming {
        return None;
      }
      phase := S.Finalizing;
      finalizeAt := Some(now);
      lastKeepaliveAt := Some(now);
      var final := if nextSeq < 1 then 0 else nextSeq - 1;
      var c := ControlSeq();
      ev := Some(S.Emit(c, End(final)));
    }

    /** Collect the stored datagrams for a `Nack`. */
    method Collect(missing: seq<nat>) returns (ds: seq<Datagram>)
      ensures ds == S.Lookup(ring.entries, missing)
    {
      ds := [];
      var i := 0;
      assert missing[0..] == missing;
      while i < |missing|
        invariant 0 <= i <= |missing|
        invariant ds + S.Lookup(ring.entries, missing[i..]) == S.Lookup(ring.entries, missing)
      {
        assert missing[i..][0] == missing[i] && missing[i..][1..] == missing[i + 1..];
        var d := ring.Get(missing[i]);
        if d.Some? {
          ds := ds + [d.value];
        }
        i := i + 1;
      }
    }

    method Handle(body: Body) returns (out: seq<S.SendEvent>)
      modifies this, ring
      ensures var o := S.Handle(cfg, old(View()), body);
              View() == o.st && out == if o.event.Some? then [o.event.value] else []
    {
      out := [];
      match body {
        case Ack(contiguous, highest, ms) =>
          gotAck := true;
          ring.AckThrough(contiguous);
          if highest > ackedHighest {
            ackedHighest := highest;
          }
          bufferedMs := ms;
          if ms >= cfg.bufferHighWaterMs {
            paused := true;
          } else if ms <= cfg.bufferLowWaterMs {
            paused := false;
          }
        case Nack(missing) =>
          gotAck := true;
          var ds := Collect(missing);
          if ds != [] {
            out := [S.Resend(ds)];
          }
        case EndAck =>
          phase := S.Done;
          out := [S.Completed];
        case _ =>
      }
    }

    method EmitKeepalive(now: Instant) returns (ev: S.SendEvent)
      modifies this
      ensures View() == S.SendKeepalive(old(View()), now).st
      ensures Some(ev) == S.SendKeepalive(old(View()), now).event
    {
      lastKeepaliveAt := Some(now);
      var c := ControlSeq();
      ev := S.Emit(c, Keepalive(ring.lostBelow));
    }

    method Tick(now: Instant) returns (out: seq<S.SendEvent>)
      modifies this
      ensures var o := S.Tick(cfg, old(View()), now);
              View() == o.st && out == if o.event.Some? then [o.event.value] else []
    {
      out := [];
      if phase == S.Done {
        return;
      }
      if !gotAck && firstDataAt.Some? && Since(now, firstDataAt.value) > cfg.firstAckTimeout {
        phase := S.Done;
        return [S.Failed(S.NoAck)];
      }
      if phase == S.Streaming && paused {
        var due := lastKeepaliveAt.None? || Since(now, lastKeepaliveAt.value) >= cfg.tailKeepaliveInterval;
        if due {
          var ev := EmitKeepalive(now);
          out := out + [ev];
        }
      }
      if phase == S.Finalizing {
        if finalizeAt.Some? && Since(now, finalizeAt.value) > cfg.finalizeTimeout {
          phase := S.Done;
          return [S.Failed(S.FinalizeTimeout)];
        }
        if lastKeepaliveAt.Some? && Since(now, lastKeepaliveAt.value) >= cfg.tailKeepaliveInterval {
          var ev := EmitKeepalive(now);
          out := out + [ev];
        }
      }
    }
  }
}
