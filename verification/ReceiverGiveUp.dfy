/** Bounded give-up: a gap that never fills ends the reliable stream after a bounded number
    of ticks, whatever else arrives meanwhile. */
module ReceiverGiveUp {
  import opened Types
  import opened GapSpec
  import opened ReceiverSpec
  import opened ReceiverSteps
  import opened ReceiverRuns
  import opened ReceiverNacks

  /** Time does not run backwards. */
  ghost predicate Monotone(t0: Instant, xs: seq<Input>)
  {
    && (forall i :: 0 <= i < |xs| ==> t0 <= xs[i].at)
    && (forall i, j :: 0 <= i < j < |xs| ==> xs[i].at <= xs[j].at)
  }

  ghost function ClockAfter(t0: Instant, xs: seq<Input>): (t: Instant)
  {
    if xs == [] then t0 else xs[|xs| - 1].at
  }

  /** No entry lies in the future, and an entry without a request is an hour old. */
  ghost predicate TimeInv(s: Recv, clock: Instant)
  {
    forall k :: k in s.nacks ==>
      s.nacks[k].lastAt <= clock && (s.nacks[k].attempts == 0 ==> s.nacks[k].lastAt + HOUR <= clock)
  }

  lemma TimeNext(cfg: ReceiverConfig, s: Recv, x: Input, clock: Instant)
    requires Good(cfg, s) && TimeInv(s, clock) && clock <= x.at
    ensures TimeInv(React(cfg, s, x).st, x.at)
  {
    ReactDelta(cfg, s, x);
    var s' := React(cfg, s, x).st;
    if s'.streaming {
      if x.Clock? {
        ClockNacks(cfg, s, x);
        MissingIsFirstHoles(s.gaps, MAX_NACK_ENTRIES);
        var missing := Missing(s.gaps, MAX_NACK_ENTRIES);
        AskFacts(cfg, s.nacks, missing, s.senderLostBelow, x.at);
        AskTimes(cfg, s, missing, x.at, clock, Ask(cfg, s.nacks, missing, s.senderLostBelow, x.at));
      } else {
        PacketNacks(cfg, s, x);
      }
    }
  }

  lemma AskTimes(cfg: ReceiverConfig, s: Recv, missing: seq<nat>, now: Instant, clock: Instant, r: Asked)
    requires TimeInv(s, clock) && clock <= now
    requires forall q: nat :: q !in missing ==> Untouched(s.nacks, q, r)
    requires forall q :: q in missing ==> AskedRight(cfg, s.nacks, q, now, r)
    ensures TimeInv(s.(nacks := r.nacks), now)
  {
    forall k | k in r.nacks
      ensures r.nacks[k].lastAt <= now && (r.nacks[k].attempts == 0 ==> r.nacks[k].lastAt + HOUR <= now)
    {
      if k in missing {
        assert AskedRight(cfg, s.nacks, k, now, r);
      } else {
        assert Untouched(s.nacks, k, r);
      }
    }
  }

  lemma {:induction false} TimeAlways(cfg: ReceiverConfig, t0: Instant, xs: seq<Input>)
    requires Monotone(t0, xs)
    ensures TimeInv(Exec(cfg, t0, xs).st, ClockAfter(t0, xs))
    decreases |xs|
  {
    if xs != [] {
      var before := xs[..|xs| - 1];
      TimeAlways(cfg, t0, before);
      CouplingAlways(cfg, t0, before);
      TimeNext(cfg, Exec(cfg, t0, before).st, xs[|xs| - 1], ClockAfter(t0, before));
    }
  }

  // ----- a stuck stream -----

  /** Something is held above the hole at c + 1. */
  ghost predicate Stuck(s: Recv, c: nat)
  {
    s.streaming && s.gaps.contiguous == c && s.gaps.ahead != {}
  }

  ghost function Attempts(s: Recv, c: nat): (n: nat)
  {
    if c + 1 in s.nacks then s.nacks[c + 1].attempts else 0
  }

  /** The hole has been asked for more than `j` times, or `j` times and last by time `t`. */
  ghost predicate Progress(s: Recv, c: nat, j: nat, t: Instant)
  {
    !s.streaming ||
    (&& Stuck(s, c)
     && (Attempts(s, c) > j || (Attempts(s, c) == j && (j >= 1 ==> s.nacks[c + 1].lastAt <= t))))
  }

  lemma StuckStays(cfg: ReceiverConfig, s: Recv, x: Input, c: nat)
    requires Good(cfg, s) && Stuck(s, c) && !(IsData(x) && x.seqNo == c + 1)
    ensures var s' := React(cfg, s, x).st; s'.streaming ==> Stuck(s', c)
  {
    ReactDelta(cfg, s, x);
    var s' := React(cfg, s, x).st;
    if s'.streaming {
      var y :| y in s.gaps.ahead;
      assert Covers(s'.gaps, y);
      assert !Covers(s'.gaps, c + 1);
    }
  }

  /** What one tick does about the hole, if the stream survives it. */
  lemma TickAtHole(cfg: ReceiverConfig, s: Recv, x: Input, c: nat)
    requires Good(cfg, s) && Stuck(s, c) && x.Clock? && React(cfg, s, x).st.streaming
    ensures var s' := React(cfg, s, x).st;
            var e := EntryFor(s.nacks, c + 1, x.at);
            && e.attempts < cfg.maxNackAttempts && c + 1 in s'.nacks
            && s'.nacks[c + 1] == if Since(x.at, e.lastAt) >= cfg.NackDelay(e.attempts)
                                  then NackEntry(e.attempts + 1, x.at) else e
  {
    ClockNacks(cfg, s, x);
    FirstMissing(s.gaps, MAX_NACK_ENTRIES);
    MissingIsFirstHoles(s.gaps, MAX_NACK_ENTRIES);
    var missing := Missing(s.gaps, MAX_NACK_ENTRIES);
    AskFacts(cfg, s.nacks, missing, s.senderLostBelow, x.at);
    assert missing[0] in missing;
    assert AskedRight(cfg, s.nacks, c + 1, x.at, Ask(cfg, s.nacks, missing, s.senderLostBelow, x.at));
  }

  /** Nothing that happens meanwhile undoes progress. */
  lemma ProgressKept(cfg: ReceiverConfig, s: Recv, x: Input, c: nat, j: nat, t: Instant)
    requires Good(cfg, s) && Progress(s, c, j, t) && !(IsData(x) && x.seqNo == c + 1)
    ensures Progress(React(cfg, s, x).st, c, j, t)
  {
    ReactDelta(cfg, s, x);
    if React(cfg, s, x).st.streaming {
      StuckStays(cfg, s, x, c);
      if x.Clock? {
        TickAtHole(cfg, s, x, c);
      } else {
        PacketNacks(cfg, s, x);
      }
    }
  }

  /** A tick at least `d` after the last counted one makes progress, or ends the stream. */
  lemma ProgressMade(cfg: ReceiverConfig, s: Recv, x: Input, c: nat, j: nat, t: Instant, clock: Instant, d: nat)
    requires Good(cfg, s) && Progress(s, c, j, t) && x.Clock?
    requires TimeInv(s, clock) && clock <= x.at && (j >= 1 ==> t + d <= x.at)
    requires d <= HOUR && forall k: nat :: cfg.NackDelay(k) <= d
    ensures Progress(React(cfg, s, x).st, c, j + 1, x.at)
    ensures j >= cfg.maxNackAttempts ==> !React(cfg, s, x).st.streaming
  {
    ReactDelta(cfg, s, x);
    if React(cfg, s, x).st.streaming {
      StuckStays(cfg, s, x, c);
      TickAtHole(cfg, s, x, c);
    }
  }

  // ----- the run -----

  /** `idx` picks ticks of the run, in order and at least `d` apart. */
  ghost predicate SpacedTicks(xs: seq<Input>, a: nat, idx: seq<nat>, d: nat)
  {
    && (forall j :: 0 <= j < |idx| ==> a <= idx[j] < |xs| && xs[idx[j]].Clock?)
    && (forall j, k :: 0 <= j < k < |idx| ==> idx[j] < idx[k] && xs[idx[j]].at + d <= xs[idx[k]].at)
  }

  lemma PrefixStep(cfg: ReceiverConfig, t0: Instant, xs: seq<Input>, p: nat)
    requires 0 < p <= |xs|
    ensures Exec(cfg, t0, xs[..p]) == Next(cfg, Exec(cfg, t0, xs[..p - 1]), xs[p - 1])
    ensures Good(cfg, Exec(cfg, t0, xs[..p - 1]).st)
  {
    assert xs[..p] == xs[..p - 1] + [xs[p - 1]];
    ExecStep(cfg, t0, xs[..p - 1], xs[p - 1]);
    CouplingAlways(cfg, t0, xs[..p - 1]);
  }

  lemma KeptAt(cfg: ReceiverConfig, t0: Instant, xs: seq<Input>, p: nat, c: nat, j: nat, t: Instant)
    requires 0 < p <= |xs| && Progress(Exec(cfg, t0, xs[..p - 1]).st, c, j, t)
    requires !(IsData(xs[p - 1]) && xs[p - 1].seqNo == c + 1)
    ensures Progress(Exec(cfg, t0, xs[..p]).st, c, j, t)
    ensures Exec(cfg, t0, xs[..p]).st.streaming ==> Exec(cfg, t0, xs[..p - 1]).st.streaming
  {
    PrefixStep(cfg, t0, xs, p);
    ProgressKept(cfg, Exec(cfg, t0, xs[..p - 1]).st, xs[p - 1], c, j, t);
    ReactDelta(cfg, Exec(cfg, t0, xs[..p - 1]).st, xs[p - 1]);
  }

  lemma MadeAt(cfg: ReceiverConfig, t0: Instant, xs: seq<Input>, p: nat, c: nat, j: nat, t: Instant, d: nat)
    requires Monotone(t0, xs) && 0 < p <= |xs| && Progress(Exec(cfg, t0, xs[..p - 1]).st, c, j, t)
    requires xs[p - 1].Clock? && (j >= 1 ==> t + d <= xs[p - 1].at)
    requires d <= HOUR && forall k: nat :: cfg.NackDelay(k) <= d
    ensures Progress(Exec(cfg, t0, xs[..p]).st, c, j + 1, xs[p - 1].at)
    ensures j >= cfg.maxNackAttempts ==> !Exec(cfg, t0, xs[..p]).st.streaming
  {
    PrefixStep(cfg, t0, xs, p);
    TimeAlways(cfg, t0, xs[..p - 1]);
    ProgressMade(cfg, Exec(cfg, t0, xs[..p - 1]).st, xs[p - 1], c, j, t, ClockAfter(t0, xs[..p - 1]), d);
  }

  /** From position `a` on, frame c + 1 never arrives, and `idx` picks ticks spaced by `d`,
      a bound on every backoff that is no more than an hour. */
  ghost predicate Hopeless(cfg: ReceiverConfig, t0: Instant, xs: seq<Input>, a: nat, idx: seq<nat>, d: nat, c: nat)
  {
    && Monotone(t0, xs) && a <= |xs|
    && (forall i :: a <= i < |xs| && IsData(xs[i]) ==> xs[i].seqNo != c + 1)
    && d <= HOUR && (forall k: nat :: cfg.NackDelay(k) <= d)
    && SpacedTicks(xs, a, idx, d)
  }

  // ----- counting the ticks -----

  /** Nothing takes a rung away. */
  ghost predicate RungsStay(rung: (nat, nat, Instant) -> bool, a: nat, n: nat)
  {
    forall p: nat, p': nat, j, t :: a <= p < n && p' == p + 1 && rung(p, j, t) ==> rung(p', j, t)
  }

  ghost predicate EndStays(ended: nat -> bool, a: nat, n: nat)
  {
    forall p: nat, p': nat :: a <= p < n && p' == p + 1 && ended(p) ==> ended(p')
  }

  /** Every picked position whose time is `d` past the last counted one adds a rung or, from the
      top, ends. */
  ghost predicate RungsAdded(rung: (nat, nat, Instant) -> bool, ended: nat -> bool, at: nat -> Instant,
                             idx: seq<nat>, d: nat, top: nat)
  {
    forall i, j: nat, t :: 0 <= i < |idx| && rung(idx[i], j, t) && (j >= 1 ==> t + d <= at(idx[i])) ==>
      rung(idx[i] + 1, j + 1, at(idx[i])) && (j >= top ==> ended(idx[i] + 1))
  }

  /** A ladder climbed by the positions of a run. */
  ghost predicate Ladder(rung: (nat, nat, Instant) -> bool, ended: nat -> bool, at: nat -> Instant,
                         a: nat, n: nat, idx: seq<nat>, d: nat, top: nat)
  {
    && RungsStay(rung, a, n) && EndStays(ended, a, n) && RungsAdded(rung, ended, at, idx, d, top)
    && (forall i :: 0 <= i < |idx| ==> a <= idx[i] < n)
    && (forall i, k :: 0 <= i < k < |idx| ==> idx[i] < idx[k] && at(idx[i]) + d <= at(idx[k]))
  }

  lemma {:induction false} RungKept(rung: (nat, nat, Instant) -> bool, ended: nat -> bool, at: nat -> Instant,
                                    a: nat, n: nat, idx: seq<nat>, d: nat, top: nat, p: nat, p': nat, j: nat, t: Instant)
    requires Ladder(rung, ended, at, a, n, idx, d, top) && a <= p <= p' <= n
    ensures rung(p, j, t) ==> rung(p', j, t)
    ensures ended(p) ==> ended(p')
    decreases p'
  {
    if p < p' {
      RungKept(rung, ended, at, a, n, idx, d, top, p, p' - 1, j, t);
    }
  }

  lemma {:induction false} Climb(rung: (nat, nat, Instant) -> bool, ended: nat -> bool, at: nat -> Instant,
                                 a: nat, n: nat, idx: seq<nat>, d: nat, top: nat, t0: Instant, i: nat)
    requires Ladder(rung, ended, at, a, n, idx, d, top) && rung(a, 0, t0) && i < |idx|
    ensures rung(idx[i] + 1, i + 1, at(idx[i]))
    ensures i >= top ==> ended(idx[i] + 1)
    decreases i
  {
    if i == 0 {
      RungKept(rung, ended, at, a, n, idx, d, top, a, idx[0], 0, t0);
    } else {
      Climb(rung, ended, at, a, n, idx, d, top, t0, i - 1);
      RungKept(rung, ended, at, a, n, idx, d, top, idx[i - 1] + 1, idx[i], i, at(idx[i - 1]));
    }
  }

  lemma LadderEnds(rung: (nat, nat, Instant) -> bool, ended: nat -> bool, at: nat -> Instant,
                   a: nat, n: nat, idx: seq<nat>, d: nat, top: nat, t0: Instant)
    requires Ladder(rung, ended, at, a, n, idx, d, top) && rung(a, 0, t0) && |idx| == top + 1
    ensures ended(n)
  {
    Climb(rung, ended, at, a, n, idx, d, top, t0, top);
    RungKept(rung, ended, at, a, n, idx, d, top, idx[top] + 1, n, 0, t0);
  }

  ghost function RungOf(cfg: ReceiverConfig, t0: Instant, xs: seq<Input>, c: nat): (nat, nat, Instant) -> bool
  {
    (p: nat, j: nat, t: Instant) => p <= |xs| && Progress(Exec(cfg, t0, xs[..p]).st, c, j, t)
  }

  ghost function EndedOf(cfg: ReceiverConfig, t0: Instant, xs: seq<Input>): nat -> bool
  {
    (p: nat) => p <= |xs| && !Exec(cfg, t0, xs[..p]).st.streaming
  }

  ghost function TimeOf(t0: Instant, xs: seq<Input>): nat -> Instant
  {
    (p: nat) => if p < |xs| then xs[p].at else t0
  }

  lemma RungStays(cfg: ReceiverConfig, t0: Instant, xs: seq<Input>, a: nat, c: nat, p: nat, j: nat, t: Instant)
    requires forall i :: a <= i < |xs| && IsData(xs[i]) ==> xs[i].seqNo != c + 1
    requires a <= p < |xs|
    ensures RungOf(cfg, t0, xs, c)(p, j, t) ==> RungOf(cfg, t0, xs, c)(p + 1, j, t)
    ensures EndedOf(cfg, t0, xs)(p) ==> EndedOf(cfg, t0, xs)(p + 1)
  {
    if RungOf(cfg, t0, xs, c)(p, j, t) || EndedOf(cfg, t0, xs)(p) {
      KeptAt(cfg, t0, xs, p + 1, c, j, t);
    }
  }

  lemma RungAdded(cfg: ReceiverConfig, t0: Instant, xs: seq<Input>, c: nat, d: nat, q: nat, j: nat, t: Instant)
    requires Monotone(t0, xs) && q < |xs| && xs[q].Clock? && RungOf(cfg, t0, xs, c)(q, j, t)
    requires d <= HOUR && (forall k: nat :: cfg.NackDelay(k) <= d) && (j >= 1 ==> t + d <= xs[q].at)
    ensures RungOf(cfg, t0, xs, c)(q + 1, j + 1, xs[q].at)
    ensures j >= cfg.maxNackAttempts ==> EndedOf(cfg, t0, xs)(q + 1)
  {
    MadeAt(cfg, t0, xs, q + 1, c, j, t, d);
  }

  lemma RunRungsStay(cfg: ReceiverConfig, t0: Instant, xs: seq<Input>, a: nat, c: nat)
    requires forall i :: a <= i < |xs| && IsData(xs[i]) ==> xs[i].seqNo != c + 1
    ensures RungsStay(RungOf(cfg, t0, xs, c), a, |xs|)
  {
    var rung := RungOf(cfg, t0, xs, c);
    forall p: nat, p': nat, j: nat, t: Instant | a <= p < |xs| && p' == p + 1 && rung(p, j, t) ensures rung(p', j, t) {
      RungStays(cfg, t0, xs, a, c, p, j, t);
    }
  }

  lemma RunEndStays(cfg: ReceiverConfig, t0: Instant, xs: seq<Input>, a: nat, c: nat)
    requires forall i :: a <= i < |xs| && IsData(xs[i]) ==> xs[i].seqNo != c + 1
    ensures EndStays(EndedOf(cfg, t0, xs), a, |xs|)
  {
    var ended := EndedOf(cfg, t0, xs);
    forall p: nat, p': nat | a <= p < |xs| && p' == p + 1 && ended(p) ensures ended(p') {
      RungStays(cfg, t0, xs, a, c, p, 0, t0);
    }
  }

  lemma RunRungsAdded(cfg: ReceiverConfig, t0: Instant, xs: seq<Input>, a: nat, idx: seq<nat>, d: nat, c: nat)
    requires Hopeless(cfg, t0, xs, a, idx, d, c)
    ensures RungsAdded(RungOf(cfg, t0, xs, c), EndedOf(cfg, t0, xs), TimeOf(t0, xs), idx, d, cfg.maxNackAttempts)
  {
    var rung, ended, at := RungOf(cfg, t0, xs, c), EndedOf(cfg, t0, xs), TimeOf(t0, xs);
    forall i, j: nat, t: Instant | 0 <= i < |idx| && rung(idx[i], j, t) && (j >= 1 ==> t + d <= at(idx[i]))
      ensures rung(idx[i] + 1, j + 1, at(idx[i])) && (j >= cfg.maxNackAttempts ==> ended(idx[i] + 1))
    {
      RungAdded(cfg, t0, xs, c, d, idx[i], j, t);
    }
  }

  lemma RunIsLadder(cfg: ReceiverConfig, t0: Instant, xs: seq<Input>, a: nat, idx: seq<nat>, d: nat, c: nat)
    requires Hopeless(cfg, t0, xs, a, idx, d, c)
    ensures Ladder(RungOf(cfg, t0, xs, c), EndedOf(cfg, t0, xs), TimeOf(t0, xs), a, |xs|, idx, d, cfg.maxNackAttempts)
  {
    RunRungsStay(cfg, t0, xs, a, c);
    RunEndStays(cfg, t0, xs, a, c);
    RunRungsAdded(cfg, t0, xs, a, idx, d, c);
  }

  /** If at some point of a run something is held above a hole, the frame in the hole never
      arrives, and no backoff exceeds an hour, then any `max_nack_attempts + 1` later ticks
      spaced by at least the largest backoff leave the reliable stream finished, whatever
      packets and other ticks come in between. */
  lemma BoundedGiveUp(cfg: ReceiverConfig, t0: Instant, xs: seq<Input>, a: nat, idx: seq<nat>, d: nat, c: nat)
    requires Hopeless(cfg, t0, xs, a, idx, d, c)
    requires Stuck(Exec(cfg, t0, xs[..a]).st, c)
    requires |idx| == cfg.maxNackAttempts + 1
    ensures !Exec(cfg, t0, xs).st.streaming
  {
    RunIsLadder(cfg, t0, xs, a, idx, d, c);
    LadderEnds(RungOf(cfg, t0, xs, c), EndedOf(cfg, t0, xs), TimeOf(t0, xs), a, |xs|, idx, d, cfg.maxNackAttempts, t0);
    assert xs[..|xs|] == xs;
  }
}
