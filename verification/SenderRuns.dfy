/** Runs of the sending half on its own: any sequence of pushes, finishes, ticks and packets from
    the peer, at any times. Every answer is determined by the history, read off the log of moves
    and events alone. */
module SenderRuns {
  import opened Types
  import S = SenderSpec
  import opened DispatchSpec
  import opened System

  datatype TapMove =
    | Push(media: Media, at: Instant, sends: nat)
    | Finish(at: Instant, sends: nat)
    | Tick(at: Instant, sends: nat)
    | Hear(body: Body, at: Instant, sends: nat)

  datatype TapEntry = TapEntry(move: TapMove, event: Option<S.SendEvent>)

  datatype TapHist = TapHist(tap: Tap, log: seq<TapEntry>)

  function Respond(cfg: SenderConfig, s: S.Send, x: TapMove): (o: S.SendOut)
  {
    match x
    case Push(m, at, _) => S.PushFrame(cfg, s, m.ts, m.payload, at)
    case Finish(at, _) => S.Finish(s, at)
    case Tick(at, _) => S.Tick(cfg, s, at)
    case Hear(body, _, _) => S.Handle(cfg, s, body)
  }

  function TapNext(cfg: SenderConfig, h: TapHist, x: TapMove): (h': TapHist)
  {
    var o := Respond(cfg, h.tap.snd, x);
    TapHist(Deliver(h.tap, o, x.sends), h.log + [TapEntry(x, o.event)])
  }

  function TapExec(cfg: SenderConfig, xs: seq<TapMove>): (h: TapHist)
    decreases |xs|
  {
    if xs == [] then TapHist(Tap(S.Init(cfg), [], []), [])
    else TapNext(cfg, TapExec(cfg, xs[..|xs| - 1]), xs[|xs| - 1])
  }

  // ----- what the log says -----

  /** A failure was reported or the peer's `EndAck` handled. */
  function DoneIn(log: seq<TapEntry>): (b: bool)
    decreases |log|
  {
    log != [] &&
    var e := log[|log| - 1];
    || DoneIn(log[..|log| - 1])
    || (e.event.Some? && e.event.value.Failed?)
    || (e.move.Hear? && e.move.body.EndAck?)
  }

  /** An `Ack` or a `Nack` was handled. */
  function HeardIn(log: seq<TapEntry>): (b: bool)
    decreases |log|
  {
    log != [] &&
    var e := log[|log| - 1];
    HeardIn(log[..|log| - 1]) || (e.move.Hear? && (e.move.body.Ack? || e.move.body.Nack?))
  }

  /** When the first push was accepted. */
  function FirstPush(log: seq<TapEntry>): (t: Option<Instant>)
    decreases |log|
  {
    if log == [] then None
    else
      var e, t := log[|log| - 1], FirstPush(log[..|log| - 1]);
      if t.None? && e.move.Push? && e.event.Some? then Some(e.move.at) else t
  }

  /** When a finish was accepted. */
  function FinishedAt(log: seq<TapEntry>): (t: Option<Instant>)
    decreases |log|
  {
    if log == [] then None
    else
      var e := log[|log| - 1];
      if e.move.Finish? && e.event.Some? then Some(e.move.at) else FinishedAt(log[..|log| - 1])
  }

  /** When a control packet, `End` or `Keepalive`, was last emitted. */
  function ControlAt(log: seq<TapEntry>): (t: Option<Instant>)
    decreases |log|
  {
    if log == [] then None
    else
      var e := log[|log| - 1];
      if IsControl(e.event) then Some(e.move.at) else ControlAt(log[..|log| - 1])
  }

  predicate IsControl(ev: Option<S.SendEvent>)
  {
    ev.Some? && ev.value.Emit? && !ev.value.body.Data?
  }

  function Controls(log: seq<TapEntry>): (n: nat)
    decreases |log|
  {
    if log == [] then 0 else Controls(log[..|log| - 1]) + if IsControl(log[|log| - 1].event) then 1 else 0
  }

  function Accepted(log: seq<TapEntry>): (n: nat)
    decreases |log|
  {
    if log == [] then 0
    else
      var e := log[|log| - 1];
      Accepted(log[..|log| - 1]) + if e.move.Push? && e.event.Some? then 1 else 0
  }

  /** The largest `highest` an acknowledgement named. */
  function Highest(log: seq<TapEntry>): (h: nat)
    decreases |log|
  {
    if log == [] then 0
    else
      var e, h := log[|log| - 1], Highest(log[..|log| - 1]);
      if e.move.Hear? && e.move.body.Ack? && e.move.body.highest > h then e.move.body.highest else h
  }

  /** The last reported occupancy outside the two water marks was the high one. */
  function PausedIn(cfg: SenderConfig, log: seq<TapEntry>): (b: bool)
    decreases |log|
  {
    log != [] &&
    var e, b := log[|log| - 1], PausedIn(cfg, log[..|log| - 1]);
    if !(e.move.Hear? && e.move.body.Ack?) then b
    else if e.move.body.bufferedMs >= cfg.bufferHighWaterMs then true
    else if e.move.body.bufferedMs <= cfg.bufferLowWaterMs then false
    else b
  }

  function LastReport(log: seq<TapEntry>): (ms: nat)
    decreases |log|
  {
    if log == [] then 0
    else
      var e := log[|log| - 1];
      if e.move.Hear? && e.move.body.Ack? then e.move.body.bufferedMs else LastReport(log[..|log| - 1])
  }

  function PhaseIn(log: seq<TapEntry>): (p: S.Phase)
  {
    if DoneIn(log) then S.Done else if FinishedAt(log).Some? then S.Finalizing else S.Streaming
  }

  /** The number after n accepted pushes, and the last one used. */
  function NextNumber(n: nat): (q: nat)
  {
    if n < U32_MAX then n + 1 else U32_MAX
  }

  function LastNumber(n: nat): (q: nat)
  {
    if n < U32_MAX then n else U32_MAX - 1
  }

  // ----- what the tap does, said of the log -----

  /** The tap may send: streaming, not paused, and fewer than the window outstanding. */
  predicate Open(cfg: SenderConfig, log: seq<TapEntry>)
  {
    && PhaseIn(log) == S.Streaming && !PausedIn(cfg, log)
    && LastNumber(Accepted(log)) < Highest(log) + cfg.maxOutstanding
    && 0 < cfg.maxOutstanding
  }

  predicate NoAckDue(cfg: SenderConfig, log: seq<TapEntry>, at: Instant)
  {
    && !DoneIn(log) && !HeardIn(log)
    && FirstPush(log).Some? && Since(at, FirstPush(log).value) > cfg.firstAckTimeout
  }

  predicate FinalizeDue(cfg: SenderConfig, log: seq<TapEntry>, at: Instant)
  {
    && PhaseIn(log) == S.Finalizing && !NoAckDue(cfg, log, at)
    && Since(at, FinishedAt(log).value) > cfg.finalizeTimeout
  }

  predicate KeepaliveDue(cfg: SenderConfig, log: seq<TapEntry>, at: Instant)
  {
    && !DoneIn(log) && !NoAckDue(cfg, log, at) && !FinalizeDue(cfg, log, at)
    && (PhaseIn(log) == S.Finalizing || PausedIn(cfg, log))
    && (ControlAt(log).None? || Since(at, ControlAt(log).value) >= cfg.tailKeepaliveInterval)
  }

  function NextControlIn(log: seq<TapEntry>): (c: nat)
  {
    (Controls(log) + 1) % (U32_MAX + 1)
  }

  // ----- the invariant -----

  /** Every field of the sender but the ring is a reading of the log. */
  ghost predicate Recalls(cfg: SenderConfig, s: S.Send, log: seq<TapEntry>)
  {
    && s.phase == PhaseIn(log) && s.paused == PausedIn(cfg, log) && s.gotAck == HeardIn(log)
    && s.firstDataAt == FirstPush(log) && s.finalizeAt == FinishedAt(log) && s.lastKeepaliveAt == ControlAt(log)
    && s.ackedHighest == Highest(log) && s.bufferedMs == LastReport(log)
    && s.nextSeq == NextNumber(Accepted(log))
    && s.controlCounter == Controls(log) % (U32_MAX + 1)
    && (s.finalizeAt.Some? ==> s.lastKeepaliveAt.Some?)
  }

  lemma NextControlOf(n: nat)
    ensures S.NextControl(n % (U32_MAX + 1)) == (n + 1) % (U32_MAX + 1)
  {
  }

  lemma RecallsPush(cfg: SenderConfig, s: S.Send, log: seq<TapEntry>, x: TapMove)
    requires Recalls(cfg, s, log) && x.Push?
    ensures var o := Respond(cfg, s, x); Recalls(cfg, o.st, log + [TapEntry(x, o.event)])
  {
    assert (log + [TapEntry(x, Respond(cfg, s, x).event)])[..|log|] == log;
  }

  lemma RecallsControl(cfg: SenderConfig, s: S.Send, log: seq<TapEntry>, x: TapMove)
    requires Recalls(cfg, s, log) && (x.Finish? || x.Tick?)
    ensures var o := Respond(cfg, s, x); Recalls(cfg, o.st, log + [TapEntry(x, o.event)])
  {
    assert (log + [TapEntry(x, Respond(cfg, s, x).event)])[..|log|] == log;
    NextControlOf(Controls(log));
  }

  lemma RecallsHear(cfg: SenderConfig, s: S.Send, log: seq<TapEntry>, x: TapMove)
    requires Recalls(cfg, s, log) && x.Hear?
    ensures var o := Respond(cfg, s, x); Recalls(cfg, o.st, log + [TapEntry(x, o.event)])
  {
    assert (log + [TapEntry(x, Respond(cfg, s, x).event)])[..|log|] == log;
  }

  lemma RecallsNext(cfg: SenderConfig, s: S.Send, log: seq<TapEntry>, x: TapMove)
    requires Recalls(cfg, s, log)
    ensures var o := Respond(cfg, s, x); Recalls(cfg, o.st, log + [TapEntry(x, o.event)])
  {
    match x
    case Push(_, _, _) => RecallsPush(cfg, s, log, x);
    case Hear(_, _, _) => RecallsHear(cfg, s, log, x);
    case _ => RecallsControl(cfg, s, log, x);
  }

  lemma DeliverKeeps(t: Tap, o: S.SendOut, sends: nat)
    ensures Deliver(t, o, sends).snd == o.st.(ring := Deliver(t, o, sends).snd.ring)
  {
  }

  lemma {:induction false} RunRecalls(cfg: SenderConfig, xs: seq<TapMove>)
    ensures Recalls(cfg, TapExec(cfg, xs).tap.snd, TapExec(cfg, xs).log)
    decreases |xs|
  {
    if xs != [] {
      var h, x := TapExec(cfg, xs[..|xs| - 1]), xs[|xs| - 1];
      RunRecalls(cfg, xs[..|xs| - 1]);
      RecallsNext(cfg, h.tap.snd, h.log, x);
      DeliverKeeps(h.tap, Respond(cfg, h.tap.snd, x), x.sends);
    }
  }

  // ----- exactly what each call yields -----

  /** In every run a push is accepted if and only if the tap is streaming, the last occupancy
      outside the water marks was not the high one, and the last number pushed is less than the
      window above the largest number acknowledged. */
  lemma PushExact(cfg: SenderConfig, xs: seq<TapMove>, m: Media, at: Instant, sends: nat)
    ensures var h := TapExec(cfg, xs);
            Respond(cfg, h.tap.snd, Push(m, at, sends)).event ==
              if Open(cfg, h.log) then Some(S.Emit(NextNumber(Accepted(h.log)), Data(m.ts, m.payload))) else None
  {
    RunRecalls(cfg, xs);
  }

  /** In every run a finish is accepted if and only if the tap is streaming, and declares the
      last number used. */
  lemma FinishExact(cfg: SenderConfig, xs: seq<TapMove>, at: Instant, sends: nat)
    ensures var h := TapExec(cfg, xs);
            Respond(cfg, h.tap.snd, Finish(at, sends)).event ==
              if PhaseIn(h.log) == S.Streaming
              then Some(S.Emit(NextControlIn(h.log), End(LastNumber(Accepted(h.log))))) else None
  {
    RunRecalls(cfg, xs);
    FinishAt(cfg, TapExec(cfg, xs).tap.snd, TapExec(cfg, xs).log, at);
  }

  lemma FinishAt(cfg: SenderConfig, s: S.Send, log: seq<TapEntry>, at: Instant)
    requires Recalls(cfg, s, log)
    ensures S.Finish(s, at).event ==
              if PhaseIn(log) == S.Streaming
              then Some(S.Emit(NextControlIn(log), End(LastNumber(Accepted(log))))) else None
  {
    NextControlOf(Controls(log));
  }

  /** In every run a tick fails with `NoAck` if and only if the tap is not done, heard no `Ack` or
      `Nack`, and the first accepted push is older than `first_ack_timeout`; otherwise with
      `FinalizeTimeout` if and only if it is finalizing and the finish is older than
      `finalize_timeout`; otherwise it keeps alive, naming the watermark, if and only if the tap
      is finalizing or paused and the last control packet is at least
      `tail_keepalive_interval` old, or there was none. */
  lemma TickExact(cfg: SenderConfig, xs: seq<TapMove>, at: Instant, sends: nat)
    ensures var h := TapExec(cfg, xs);
            Respond(cfg, h.tap.snd, Tick(at, sends)).event ==
              if NoAckDue(cfg, h.log, at) then Some(S.Failed(S.NoAck))
              else if FinalizeDue(cfg, h.log, at) then Some(S.Failed(S.FinalizeTimeout))
              else if KeepaliveDue(cfg, h.log, at)
              then Some(S.Emit(NextControlIn(h.log), Keepalive(h.tap.snd.ring.lostBelow)))
              else None
  {
    RunRecalls(cfg, xs);
    TickAt(cfg, TapExec(cfg, xs).tap.snd, TapExec(cfg, xs).log, at);
  }

  lemma TickAt(cfg: SenderConfig, s: S.Send, log: seq<TapEntry>, at: Instant)
    requires Recalls(cfg, s, log)
    ensures S.Tick(cfg, s, at).event ==
              if NoAckDue(cfg, log, at) then Some(S.Failed(S.NoAck))
              else if FinalizeDue(cfg, log, at) then Some(S.Failed(S.FinalizeTimeout))
              else if KeepaliveDue(cfg, log, at)
              then Some(S.Emit(NextControlIn(log), Keepalive(s.ring.lostBelow)))
              else None
  {
    NextControlOf(Controls(log));
  }

  /** Packets: completion is reported exactly for `EndAck`, nothing for an `Ack` or for a packet
      that is not the sink's to send. */
  lemma HearExact(cfg: SenderConfig, s: S.Send, body: Body)
    requires !body.Nack?
    ensures S.Handle(cfg, s, body).event == if body.EndAck? then Some(S.Completed) else None
  {
  }

  // ----- the tap inside the system -----

  /** The moves of a composed run that reach the tap: a packet only if the sink sent it. */
  ghost function TapMoves(scfg: SenderConfig, rcfg: ReceiverConfig, t0: Instant, ms: seq<Move>): (xs: seq<TapMove>)
    decreases |ms|
  {
    if ms == [] then []
    else
      var before, m := ms[..|ms| - 1], ms[|ms| - 1];
      TapMoves(scfg, rcfg, t0, before) + TapMoveOf(Run(scfg, rcfg, t0, before), m)
  }

  ghost function TapMoveOf(s: Sys, m: Move): (xs: seq<TapMove>)
  {
    match m
    case PushMove(media, at, sends) => [Push(media, at, sends)]
    case FinishMove(at, sends) => [Finish(at, sends)]
    case TapTick(at, sends) => [Tick(at, sends)]
    case TapPacket(body, at, sends) => if body in s.replies then [Hear(body, at, sends)] else []
    case _ => []
  }

  lemma TapStep(scfg: SenderConfig, rcfg: ReceiverConfig, s: Sys, m: Move)
    ensures var xs := TapMoveOf(s, m);
            Step(scfg, rcfg, s, m).tap ==
              if xs == [] then s.tap else Deliver(s.tap, Respond(scfg, s.tap.snd, xs[0]), xs[0].sends)
  {
  }

  lemma TapExecMore(cfg: SenderConfig, xs: seq<TapMove>, ys: seq<TapMove>)
    requires |ys| <= 1
    ensures var t := TapExec(cfg, xs).tap;
            TapExec(cfg, xs + ys).tap == if ys == [] then t else Deliver(t, Respond(cfg, t.snd, ys[0]), ys[0].sends)
  {
    if ys == [] {
      assert xs + ys == xs;
    } else {
      assert (xs + ys)[..|xs|] == xs;
    }
  }

  /** The tap of a composed run is a run of the sending half on its own, so everything said
      above of those holds of it. */
  lemma {:induction false} TapIsRun(scfg: SenderConfig, rcfg: ReceiverConfig, t0: Instant, ms: seq<Move>)
    ensures Run(scfg, rcfg, t0, ms).tap == TapExec(scfg, TapMoves(scfg, rcfg, t0, ms)).tap
    decreases |ms|
  {
    if ms != [] {
      var before, m := ms[..|ms| - 1], ms[|ms| - 1];
      TapIsRun(scfg, rcfg, t0, before);
      TapStep(scfg, rcfg, Run(scfg, rcfg, t0, before), m);
      TapExecMore(scfg, TapMoves(scfg, rcfg, t0, before), TapMoveOf(Run(scfg, rcfg, t0, before), m));
    }
  }
}
