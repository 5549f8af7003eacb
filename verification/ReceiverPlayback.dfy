/** The playback side of the tee, which never waits for the reliable side. */
module ReceiverPlayback {
  import opened Types
  import opened GapSpec
  import opened ReceiverSpec
  import opened ReceiverSteps
  import opened ReceiverRuns

  /** The first arrival of a number plays in that very step, with the reliable stream alive,
      finished or closed. */
  lemma FirstArrivalPlays(cfg: ReceiverConfig, t0: Instant, xs: seq<Input>, x: Input)
    requires cfg.mode.Dual? && IsData(x) && x.seqNo >= 1 && x.seqNo !in Exec(cfg, t0, xs).arrived
    ensures React(cfg, Exec(cfg, t0, xs).st, x).burst.unrel == Some(FrameOf(x))
  {
    CouplingAlways(cfg, t0, xs);
    var h := Exec(cfg, t0, xs);
    ReactDelta(cfg, h.st, x);
    assert !Covers(h.st.gaps, x.seqNo);
  }

  /** How often number `q` was handed to playback. */
  ghost function Plays(log: seq<Entry>, q: nat): (n: nat)
  {
    if log == [] then 0
    else
      var u := log[|log| - 1].burst.unrel;
      Plays(log[..|log| - 1], q) + if u.Some? && u.value.seqNo == q then 1 else 0
  }

  ghost function PlayLimit(h: Hist, q: nat): (n: nat)
  {
    if !h.st.streaming && Covers(h.st.gaps, q) then 2 else if q in h.arrived then 1 else 0
  }

  ghost predicate PlayInv(h: Hist)
  {
    forall q: nat :: Plays(h.log, q) <= PlayLimit(h, q)
  }

  lemma PlaysNext(cfg: ReceiverConfig, h: Hist, x: Input, q: nat)
    requires Good(cfg, h.st)
    ensures Plays(Next(cfg, h, x).log, q) ==
            Plays(h.log, q) + if IsData(x) && x.seqNo == q && Fresh(h.st.gaps, q) && cfg.mode.Dual? then 1 else 0
  {
    ReactDelta(cfg, h.st, x);
    assert Next(cfg, h, x).log[..|h.log|] == h.log;
  }

  lemma PlayNext(cfg: ReceiverConfig, h: Hist, x: Input)
    requires Inv(cfg, h) && PlayInv(h)
    ensures PlayInv(Next(cfg, h, x))
  {
    ReactDelta(cfg, h.st, x);
    var h' := Next(cfg, h, x);
    forall q: nat ensures Plays(h'.log, q) <= PlayLimit(h', q) {
      PlaysNext(cfg, h, x, q);
      assert Plays(h.log, q) <= PlayLimit(h, q);
      assert Covers(h.st.gaps, q) ==> q in h.arrived;
      assert q in h.arrived ==> q in h'.arrived;
    }
  }

  /** No number plays twice while the reliable stream runs, and none more than twice ever. */
  lemma {:induction false} PlaysAtMostTwice(cfg: ReceiverConfig, t0: Instant, xs: seq<Input>)
    ensures PlayInv(Exec(cfg, t0, xs))
    ensures forall q: nat ::
              Plays(Exec(cfg, t0, xs).log, q) <= if Exec(cfg, t0, xs).st.streaming then 1 else 2
    decreases |xs|
  {
    if xs != [] {
      CouplingAlways(cfg, t0, xs[..|xs| - 1]);
      PlaysAtMostTwice(cfg, t0, xs[..|xs| - 1]);
      PlayNext(cfg, Exec(cfg, t0, xs[..|xs| - 1]), xs[|xs| - 1]);
    }
    assert forall q: nat :: Plays(Exec(cfg, t0, xs).log, q) <= PlayLimit(Exec(cfg, t0, xs), q);
  }

  lemma PrefixNeverPlays(cfg: ReceiverConfig, t0: Instant, xs: seq<Input>, x: Input, q: nat)
    requires q <= Exec(cfg, t0, xs).st.gaps.contiguous
    ensures Plays(Exec(cfg, t0, xs + [x]).log, q) == Plays(Exec(cfg, t0, xs).log, q)
    ensures q <= Exec(cfg, t0, xs + [x]).st.gaps.contiguous
  {
    ExecStep(cfg, t0, xs, x);
    CouplingAlways(cfg, t0, xs);
    ReactDelta(cfg, Exec(cfg, t0, xs).st, x);
    PlaysNext(cfg, Exec(cfg, t0, xs), x, q);
  }

  /** Once inside the prefix a number never plays again, however the run goes on; in
      particular nothing in the prefix at the moment the reliable stream finished. */
  lemma {:induction false} NeverPlaysAgain(cfg: ReceiverConfig, t0: Instant, xs: seq<Input>, ys: seq<Input>, q: nat)
    requires q <= Exec(cfg, t0, xs).st.gaps.contiguous
    ensures Plays(Exec(cfg, t0, xs + ys).log, q) == Plays(Exec(cfg, t0, xs).log, q)
    ensures q <= Exec(cfg, t0, xs + ys).st.gaps.contiguous
    decreases |ys|
  {
    if ys == [] {
      assert xs + ys == xs;
    } else {
      SplitLast(xs, ys);
      NeverPlaysAgain(cfg, t0, xs, ys[..|ys| - 1], q);
      PrefixNeverPlays(cfg, t0, xs + ys[..|ys| - 1], ys[|ys| - 1], q);
    }
  }

  // ----- exactly when a number plays again -----

  /** The step that finishes the reliable stream forgets everything above the prefix. */
  lemma FinishForgets(cfg: ReceiverConfig, s: Recv, x: Input)
    requires Good(cfg, s) && s.streaming && !React(cfg, s, x).st.streaming
    ensures React(cfg, s, x).st.gaps.ahead == {}
  {
    if x.Packet? {
      BodyForgets(cfg, s, x);
    }
  }

  lemma BodyForgets(cfg: ReceiverConfig, s: Recv, x: Input)
    requires Good(cfg, s) && s.streaming && x.Packet?
    ensures var s' := OnBody(cfg, s, x.seqNo, x.body, x.at).st;
            !s'.streaming ==> s'.gaps.ahead == {}
  {
    match x.body
    case Data(_, _) =>
      if Fits(cfg, s, FrameOf(x)) {
        FitsFresh(cfg, s, FrameOf(x), x.at);
        ReleaseKeeps(cfg, s, FrameOf(x), x.at);
        CheckFinishShape(cfg, Release(Buffered(s, FrameOf(x)), x.at).st, x.at);
      }
    case End(final) =>
      CheckFinishShape(cfg, s.(finalSeq := Some(final)), x.at);
    case Keepalive(l) =>
      var raised := s.(senderLostBelow := if l > s.senderLostBelow then l else s.senderLostBelow);
      if l > s.senderLostBelow && s.gaps.contiguous < l {
        CheckFinishShape(cfg, Abandon(raised), x.at);
      } else {
        CheckFinishShape(cfg, raised, x.at);
      }
    case _ =>
  }

  /** Arrived numbers the tracker has lost sight of: those above the prefix when the reliable
      stream finished, each until it arrives again. `all` keeps every number ever lost. */
  datatype Blind = Blind(all: set<nat>, now: set<nat>)

  ghost function LoseNext(h: Hist, x: Input, h': Hist, b: Blind): (b': Blind)
  {
    if h.st.streaming && !h'.st.streaming
    then var gone := set q | q in h'.arrived && q > h'.st.gaps.contiguous; Blind(gone, gone)
    else b.(now := if IsData(x) then b.now - {x.seqNo} else b.now)
  }

  ghost function Lost(cfg: ReceiverConfig, t0: Instant, xs: seq<Input>): (b: Blind)
    decreases |xs|
  {
    if xs == [] then Blind({}, {})
    else
      var n := |xs| - 1;
      LoseNext(Exec(cfg, t0, xs[..n]), xs[n], Exec(cfg, t0, xs), Lost(cfg, t0, xs[..n]))
  }

  /** An arrived number is out of sight exactly when it is lost; and how often each has played. */
  ghost predicate BlindInv(cfg: ReceiverConfig, h: Hist, b: Blind)
  {
    && b.now <= b.all <= h.arrived
    && (h.st.streaming ==> b.all == {})
    && (forall y :: y in h.arrived ==> (Covers(h.st.gaps, y) <==> y !in b.now))
    && (cfg.mode.Dual? ==> forall q: nat :: Plays(h.log, q) == PlayCount(h, b, q))
  }

  ghost function PlayCount(h: Hist, b: Blind, q: nat): (n: nat)
  {
    (if q in h.arrived then 1 else 0) + if q in b.all && q !in b.now then 1 else 0
  }

  lemma BlindTracker(cfg: ReceiverConfig, h: Hist, x: Input, b: Blind)
    requires Inv(cfg, h) && BlindInv(cfg, h, b)
    ensures var h' := Next(cfg, h, x);
            var b' := LoseNext(h, x, h', b);
            && b'.now <= b'.all <= h'.arrived && (h'.st.streaming ==> b'.all == {})
            && forall y :: y in h'.arrived ==> (Covers(h'.st.gaps, y) <==> y !in b'.now)
  {
    var h' := Next(cfg, h, x);
    InvNext(cfg, h, x);
    ReactDelta(cfg, h.st, x);
    if h.st.streaming && !h'.st.streaming {
      FinishForgets(cfg, h.st, x);
    }
  }

  lemma BlindPlays(cfg: ReceiverConfig, h: Hist, x: Input, b: Blind, q: nat)
    requires Inv(cfg, h) && BlindInv(cfg, h, b) && cfg.mode.Dual?
    ensures Plays(Next(cfg, h, x).log, q) == PlayCount(Next(cfg, h, x), LoseNext(h, x, Next(cfg, h, x), b), q)
  {
    PlaysNext(cfg, h, x, q);
    assert Plays(h.log, q) == PlayCount(h, b, q);
    assert Covers(h.st.gaps, q) ==> q in h.arrived;
    assert q in h.arrived ==> (Covers(h.st.gaps, q) <==> q !in b.now);
    ReactDelta(cfg, h.st, x);
  }

  lemma BlindNext(cfg: ReceiverConfig, h: Hist, x: Input, b: Blind)
    requires Inv(cfg, h) && BlindInv(cfg, h, b)
    ensures BlindInv(cfg, Next(cfg, h, x), LoseNext(h, x, Next(cfg, h, x), b))
  {
    BlindTracker(cfg, h, x, b);
    forall q: nat | cfg.mode.Dual?
      ensures Plays(Next(cfg, h, x).log, q) == PlayCount(Next(cfg, h, x), LoseNext(h, x, Next(cfg, h, x), b), q)
    {
      BlindPlays(cfg, h, x, b, q);
    }
  }

  /** Over every run in Dual mode, a number has played once if it arrived, and once more exactly
      if it was lost when the reliable stream finished and has arrived again since. */
  lemma {:induction false} PlayCountExact(cfg: ReceiverConfig, t0: Instant, xs: seq<Input>)
    ensures BlindInv(cfg, Exec(cfg, t0, xs), Lost(cfg, t0, xs))
    decreases |xs|
  {
    if xs != [] {
      var before := xs[..|xs| - 1];
      CouplingAlways(cfg, t0, before);
      PlayCountExact(cfg, t0, before);
      BlindNext(cfg, Exec(cfg, t0, before), xs[|xs| - 1], Lost(cfg, t0, before));
    }
  }

  /** A data packet plays exactly when its number is new or lost. */
  lemma PlaysExactlyWhen(cfg: ReceiverConfig, t0: Instant, xs: seq<Input>, x: Input)
    requires cfg.mode.Dual? && IsData(x)
    ensures React(cfg, Exec(cfg, t0, xs).st, x).burst.unrel.Some? <==>
            x.seqNo >= 1 && (x.seqNo !in Exec(cfg, t0, xs).arrived || x.seqNo in Lost(cfg, t0, xs).now)
  {
    CouplingAlways(cfg, t0, xs);
    PlayCountExact(cfg, t0, xs);
    PlaysWhenBlind(cfg, Exec(cfg, t0, xs), x, Lost(cfg, t0, xs));
  }

  lemma PlaysWhenBlind(cfg: ReceiverConfig, h: Hist, x: Input, b: Blind)
    requires Inv(cfg, h) && BlindInv(cfg, h, b) && cfg.mode.Dual? && IsData(x)
    ensures React(cfg, h.st, x).burst.unrel.Some? <==> x.seqNo >= 1 && (x.seqNo !in h.arrived || x.seqNo in b.now)
  {
    ReactDelta(cfg, h.st, x);
    assert Covers(h.st.gaps, x.seqNo) ==> x.seqNo in h.arrived;
    assert x.seqNo in h.arrived ==> (Covers(h.st.gaps, x.seqNo) <==> x.seqNo !in b.now);
  }

  lemma ExecThree(cfg: ReceiverConfig, t0: Instant, xs: seq<Input>)
    requires |xs| == 3
    ensures Exec(cfg, t0, xs) == Next(cfg, Next(cfg, Next(cfg, Start(t0), xs[0]), xs[1]), xs[2])
  {
    assert xs[..2][..1] == xs[..1] && xs[..1][..0] == [];
    assert Exec(cfg, t0, xs[..1]) == Next(cfg, Start(t0), xs[0]);
    assert Exec(cfg, t0, xs[..2]) == Next(cfg, Exec(cfg, t0, xs[..1]), xs[1]);
  }

  /** Such runs exist, whatever the configuration: frame 2 arrives, the sender gives up frame 1,
      and frame 2 arrives again. */
  lemma PlayedTwice(cfg: ReceiverConfig, t0: Instant, xs: seq<Input>)
    requires cfg.mode.Dual? && |xs| == 3 && xs[2] == xs[0]
    requires IsData(xs[0]) && xs[0].seqNo == 2 && xs[1].Packet? && xs[1].body == Keepalive(1)
    ensures Plays(Exec(cfg, t0, xs).log, 2) == 2
  {
    ExecThree(cfg, t0, xs);
    PlaysFromStart(cfg, Start(t0), t0, xs[0], xs[1]);
  }

  lemma PlaysFromStart(cfg: ReceiverConfig, h: Hist, t0: Instant, x: Input, g: Input)
    requires cfg.mode.Dual? && IsData(x) && x.seqNo == 2 && g.Packet? && g.body == Keepalive(1)
    requires h == Start(t0)
    ensures Plays(Next(cfg, Next(cfg, Next(cfg, h, x), g), x).log, 2) == 2
  {
    PlaysBoth(cfg, h, x, g);
  }

  lemma PlaysBoth(cfg: ReceiverConfig, h: Hist, x: Input, g: Input)
    requires cfg.mode.Dual? && IsData(x) && x.seqNo == 2 && g.Packet? && g.body == Keepalive(1)
    requires Inv(cfg, h) && h.st.streaming && h.arrived == {} && h.log == []
    ensures Plays(Next(cfg, Next(cfg, Next(cfg, h, x), g), x).log, 2) == 2
  {
    var h1 := Next(cfg, h, x);
    var h2 := Next(cfg, h1, g);
    AfterGivingUp(cfg, h, h1, h2, x, g);
    assert !Covers(h.st.gaps, 2);
    PlaysNext(cfg, h, x, 2);
    PlaysNext(cfg, h1, g, 2);
    PlaysNext(cfg, h2, x, 2);
  }

  lemma AfterGivingUp(cfg: ReceiverConfig, h0: Hist, h1: Hist, h2: Hist, x: Input, g: Input)
    requires IsData(x) && x.seqNo == 2 && g.Packet? && g.body == Keepalive(1)
    requires Inv(cfg, h0) && h0.st.streaming && h0.arrived == {}
    requires h1 == Next(cfg, h0, x) && h2 == Next(cfg, h1, g)
    ensures Inv(cfg, h1) && Inv(cfg, h2) && Fresh(h2.st.gaps, 2)
  {
    InvNext(cfg, h0, x);
    if !h1.st.streaming {
      FinishForgets(cfg, h0.st, x);
    }
    GivenUp(cfg, h1, g);
  }

  /** Wherever the stream stood, afterwards nothing above the missing frame 1 is in sight. */
  lemma GivenUp(cfg: ReceiverConfig, h: Hist, g: Input)
    requires Inv(cfg, h) && g.Packet? && g.body == Keepalive(1) && 1 !in h.arrived
    requires !h.st.streaming ==> h.st.gaps.ahead == {}
    ensures Inv(cfg, Next(cfg, h, g)) && Fresh(Next(cfg, h, g).st.gaps, 2)
  {
    InvNext(cfg, h, g);
    assert !Covers(h.st.gaps, 1);
    ReactDelta(cfg, h.st, g);
    Discarded(cfg, h.st, g);
    if h.st.streaming {
      FinishForgets(cfg, h.st, g);
    } else {
      assert !Covers(h.st.gaps, 2);
    }
    assert !Covers(Next(cfg, h, g).st.gaps, 1) && !Covers(Next(cfg, h, g).st.gaps, 2);
  }

  lemma Discarded(cfg: ReceiverConfig, s: Recv, g: Input)
    requires Good(cfg, s) && g.Packet? && g.body == Keepalive(1) && s.gaps.contiguous == 0
    ensures !React(cfg, s, g).st.streaming
  {
  }
}
