/** Retransmission requests over whole runs: a budget per number, a backoff between requests,
    and giving up exactly when the budget is spent. */
module ReceiverNacks {
  import opened Types
  import opened GapSpec
  import opened ReceiverSpec
  import opened ReceiverSteps
  import opened ReceiverRuns

  // ----- one pass over the missing numbers -----

  /** What the pass does to one number it looks at: ask again if the backoff has run out,
      otherwise leave its entry as it was. */
  ghost predicate AskedRight(cfg: ReceiverConfig, nacks: map<nat, NackEntry>, q: nat, now: Instant, r: Asked)
  {
    var e := EntryFor(nacks, q, now);
    && q in r.nacks
    && e.attempts < cfg.maxNackAttempts
    && (q in r.ask <==> Since(now, e.lastAt) >= cfg.NackDelay(e.attempts))
    && r.nacks[q] == if q in r.ask then NackEntry(e.attempts + 1, now) else e
  }

  /** Numbers not looked at keep their entries and are not asked for. */
  ghost predicate Untouched(nacks: map<nat, NackEntry>, q: nat, r: Asked)
  {
    && q !in r.ask
    && (q in r.nacks <==> q in nacks)
    && (q in nacks ==> r.nacks[q] == nacks[q])
  }

  ghost predicate Spent(cfg: ReceiverConfig, nacks: map<nat, NackEntry>, q: nat, lostBelow: nat, now: Instant)
  {
    q <= lostBelow || EntryFor(nacks, q, now).attempts >= cfg.maxNackAttempts
  }

  lemma {:induction false} AskFacts(cfg: ReceiverConfig, nacks: map<nat, NackEntry>, missing: seq<nat>,
                                    lostBelow: nat, now: Instant)
    requires Ascending(missing)
    ensures var r := Ask(cfg, nacks, missing, lostBelow, now);
            && (forall q: nat :: q !in missing ==> Untouched(nacks, q, r))
            && (!r.exhausted ==> forall q :: q in missing ==> AskedRight(cfg, nacks, q, now, r))
            && (r.exhausted ==> exists q :: q in missing && Spent(cfg, nacks, q, lostBelow, now))
    decreases |missing|
  {
    if missing != [] {
      var x, rest := missing[0], missing[1..];
      assert forall q :: q in missing <==> q == x || q in rest;
      if !Spent(cfg, nacks, x, lostBelow, now) {
        var e := EntryFor(nacks, x, now);
        var due := Since(now, e.lastAt) >= cfg.NackDelay(e.attempts);
        var nacks' := nacks[x := if due then NackEntry(e.attempts + 1, now) else e];
        AskFacts(cfg, nacks', rest, lostBelow, now);
        AskCons(cfg, nacks, nacks', x, rest, lostBelow, now, Ask(cfg, nacks', rest, lostBelow, now));
      } else {
        assert x in missing;
      }
    }
  }

  /** One more number in front. */
  lemma AskCons(cfg: ReceiverConfig, nacks: map<nat, NackEntry>, nacks': map<nat, NackEntry>, x: nat,
                rest: seq<nat>, lostBelow: nat, now: Instant, r: Asked)
    requires !Spent(cfg, nacks, x, lostBelow, now) && x !in rest
    requires var e := EntryFor(nacks, x, now);
             nacks' == nacks[x := if Since(now, e.lastAt) >= cfg.NackDelay(e.attempts)
                                  then NackEntry(e.attempts + 1, now) else e]
    requires forall q: nat :: q !in rest ==> Untouched(nacks', q, r)
    requires !r.exhausted ==> forall q :: q in rest ==> AskedRight(cfg, nacks', q, now, r)
    requires r.exhausted ==> exists q :: q in rest && Spent(cfg, nacks', q, lostBelow, now)
    ensures var e := EntryFor(nacks, x, now);
            var due := Since(now, e.lastAt) >= cfg.NackDelay(e.attempts);
            var all := r.(ask := if due then [x] + r.ask else r.ask);
            && (forall q: nat :: q != x && q !in rest ==> Untouched(nacks, q, all))
            && (!r.exhausted ==> forall q :: q == x || q in rest ==> AskedRight(cfg, nacks, q, now, all))
            && (r.exhausted ==> exists q :: (q == x || q in rest) && Spent(cfg, nacks, q, lostBelow, now))
  {
    assert Untouched(nacks', x, r);
    if r.exhausted {
      var q :| q in rest && Spent(cfg, nacks', q, lostBelow, now);
      assert Spent(cfg, nacks, q, lostBelow, now);
    }
  }

  // ----- the history of requests -----

  /** When number `q` was asked for. */
  ghost function Requests(log: seq<Entry>, q: nat): (ts: seq<Instant>)
  {
    if log == [] then []
    else
      var last := log[|log| - 1];
      Requests(log[..|log| - 1], q) + if q in last.burst.nack then [last.at] else []
  }

  /** At most the budget, and each repeat waited out the backoff of its attempt. */
  ghost predicate WithinBudget(cfg: ReceiverConfig, ts: seq<Instant>)
  {
    && |ts| <= cfg.maxNackAttempts
    && forall j, k :: 0 <= j < k < |ts| && k == j + 1 ==> Since(ts[k], ts[j]) >= cfg.NackDelay(k)
  }

  /** The bookkeeping entry of `q` is the history of `q`. */
  ghost predicate Recorded(nacks: map<nat, NackEntry>, q: nat, ts: seq<Instant>)
  {
    if q in nacks
    then nacks[q].attempts == |ts| && (ts != [] ==> nacks[q].lastAt == ts[|ts| - 1])
    else ts == []
  }

  ghost predicate NackInv(cfg: ReceiverConfig, h: Hist)
  {
    && (forall q: nat :: WithinBudget(cfg, Requests(h.log, q)))
    && (h.st.streaming ==>
          forall q: nat :: q > h.st.gaps.contiguous ==> Recorded(h.st.nacks, q, Requests(h.log, q)))
  }

  lemma RequestsNext(cfg: ReceiverConfig, h: Hist, x: Input, q: nat)
    ensures Requests(Next(cfg, h, x).log, q) ==
            Requests(h.log, q) + if q in React(cfg, h.st, x).burst.nack then [x.at] else []
  {
    assert Next(cfg, h, x).log[..|h.log|] == h.log;
  }

  /** If the stream goes on, the entries above the prefix are as they were. */
  ghost predicate EntriesKept(s: Recv, s': Recv)
  {
    s'.streaming ==> forall q: nat :: q > s'.gaps.contiguous ==>
      (q in s'.nacks <==> q in s.nacks) && (q in s.nacks ==> s'.nacks[q] == s.nacks[q])
  }

  /** Packets never ask, and leave the entries above the prefix alone. */
  lemma PacketNacks(cfg: ReceiverConfig, s: Recv, x: Input)
    requires Good(cfg, s) && !x.Clock?
    ensures React(cfg, s, x).burst.nack == [] && EntriesKept(s, React(cfg, s, x).st)
  {
    if x.Packet? {
      BodyNacks(cfg, s, x);
    }
  }

  lemma BodyNacks(cfg: ReceiverConfig, s: Recv, x: Input)
    requires Good(cfg, s) && x.Packet?
    ensures EntriesKept(s, OnBody(cfg, s, x.seqNo, x.body, x.at).st)
  {
    match x.body
    case Data(ts, payload) =>
      DataNacks(cfg, s, x);
    case End(final) =>
      CheckFinishShape(cfg, s.(finalSeq := Some(final)), x.at);
    case Keepalive(l) =>
      KeepaliveNacks(cfg, s, l, x.at);
    case _ =>
  }

  lemma DataNacks(cfg: ReceiverConfig, s: Recv, x: Input)
    requires Good(cfg, s) && IsData(x)
    ensures EntriesKept(s, OnData(cfg, s, FrameOf(x), x.at).st)
  {
    if Fits(cfg, s, FrameOf(x)) {
      FitsNacks(cfg, s, x);
    }
  }

  lemma FitsNacks(cfg: ReceiverConfig, s: Recv, x: Input)
    requires Good(cfg, s) && IsData(x) && Fits(cfg, s, FrameOf(x))
    ensures EntriesKept(s, OnFresh(cfg, s, FrameOf(x), x.at).st)
  {
    var f := FrameOf(x);
    var h := Buffered(s, f);
    BufferedKeys(cfg, s, f);
    ReleaseKeeps(cfg, s, f, x.at);
    DrainLeaves(h.reorder, h.nacks, h.reorderBytes, s.relReleased, h.gaps.contiguous);
    CheckFinishShape(cfg, Release(h, x.at).st, x.at);
    FitsFresh(cfg, s, f, x.at);
  }

  lemma KeepaliveNacks(cfg: ReceiverConfig, s: Recv, l: nat, now: Instant)
    requires Good(cfg, s)
    ensures EntriesKept(s, OnKeepalive(s, l, now).st)
  {
    var raised := s.(senderLostBelow := if l > s.senderLostBelow then l else s.senderLostBelow);
    if !(l > s.senderLostBelow && s.streaming && s.gaps.contiguous < l) {
      CheckFinishShape(cfg, raised, now);
    }
  }

  /** A tick that leaves the stream running did one pass over the missing numbers. */
  lemma ClockNacks(cfg: ReceiverConfig, s: Recv, x: Input)
    requires Good(cfg, s) && x.Clock?
    ensures var o := React(cfg, s, x);
            var r := Ask(cfg, s.nacks, Missing(s.gaps, MAX_NACK_ENTRIES), s.senderLostBelow, x.at);
            && (o.st.streaming ==> o.st.nacks == r.nacks && o.burst.nack == r.ask && !r.exhausted
                                   && o.st.gaps == s.gaps)
            && (!o.st.streaming ==> o.burst.nack == [])
            && (o.burst.fin == Some(Aborted(UnrecoverableGap)) ==> r.exhausted && s.streaming)
  {
  }

  lemma NackNextPacket(cfg: ReceiverConfig, h: Hist, x: Input)
    requires Good(cfg, h.st) && NackInv(cfg, h) && !x.Clock?
    ensures NackInv(cfg, Next(cfg, h, x))
  {
    PacketNacks(cfg, h.st, x);
    ReactDelta(cfg, h.st, x);
    var h' := Next(cfg, h, x);
    forall q: nat ensures Requests(h'.log, q) == Requests(h.log, q) {
      RequestsNext(cfg, h, x, q);
    }
    forall q: nat | h'.st.streaming && q > h'.st.gaps.contiguous
      ensures Recorded(h'.st.nacks, q, Requests(h'.log, q))
    {
      assert Recorded(h.st.nacks, q, Requests(h.log, q));
    }
  }

  /** The history of one number across one pass. */
  lemma PassRecords(cfg: ReceiverConfig, nacks: map<nat, NackEntry>, q: nat, ts: seq<Instant>, now: Instant, r: Asked)
    requires WithinBudget(cfg, ts) && Recorded(nacks, q, ts)
    requires Untouched(nacks, q, r) || AskedRight(cfg, nacks, q, now, r)
    ensures var ts' := ts + if q in r.ask then [now] else [];
            WithinBudget(cfg, ts') && Recorded(r.nacks, q, ts')
  {
  }

  lemma NackNextClock(cfg: ReceiverConfig, h: Hist, x: Input)
    requires Good(cfg, h.st) && NackInv(cfg, h) && x.Clock?
    ensures NackInv(cfg, Next(cfg, h, x))
  {
    ClockNacks(cfg, h.st, x);
    ReactDelta(cfg, h.st, x);
    var s, h' := h.st, Next(cfg, h, x);
    var missing := Missing(s.gaps, MAX_NACK_ENTRIES);
    MissingIsFirstHoles(s.gaps, MAX_NACK_ENTRIES);
    AskFacts(cfg, s.nacks, missing, s.senderLostBelow, x.at);
    var r := Ask(cfg, s.nacks, missing, s.senderLostBelow, x.at);
    forall q: nat
      ensures WithinBudget(cfg, Requests(h'.log, q))
      ensures h'.st.streaming && q > h'.st.gaps.contiguous ==> Recorded(h'.st.nacks, q, Requests(h'.log, q))
    {
      RequestsNext(cfg, h, x, q);
      assert WithinBudget(cfg, Requests(h.log, q));
      if h'.st.streaming {
        if q > s.gaps.contiguous {
          assert q in missing || Untouched(s.nacks, q, r);
          PassRecords(cfg, s.nacks, q, Requests(h.log, q), x.at, r);
        } else {
          assert q !in missing;
        }
      }
    }
  }

  /** Over every run: no number is asked for more than `max_nack_attempts` times, and request
      k + 1 comes at least `nack_delay(k)` after request k. */
  lemma {:induction false} NackBudget(cfg: ReceiverConfig, t0: Instant, xs: seq<Input>)
    ensures NackInv(cfg, Exec(cfg, t0, xs))
    decreases |xs|
  {
    if xs != [] {
      var before, x := Exec(cfg, t0, xs[..|xs| - 1]), xs[|xs| - 1];
      CouplingAlways(cfg, t0, xs[..|xs| - 1]);
      NackBudget(cfg, t0, xs[..|xs| - 1]);
      if x.Clock? {
        NackNextClock(cfg, before, x);
      } else {
        NackNextPacket(cfg, before, x);
      }
    } else {
      assert forall q: nat :: Requests([], q) == [];
    }
  }

  /** Some frame that never arrived, below one that did, has been asked for exactly
      `max_nack_attempts` times. */
  ghost predicate BudgetSpent(cfg: ReceiverConfig, h: Hist)
  {
    exists q: nat ::
      q !in h.arrived && 1 <= q < h.st.gaps.highest && |Requests(h.log, q)| == cfg.maxNackAttempts
  }

  /** `UnrecoverableGap` is honest: it is only reported when some budget is spent. The other way
      out of the loop, a number at or below the sender's watermark, cannot be reached. */
  lemma GapReallyUnrecoverable(cfg: ReceiverConfig, t0: Instant, xs: seq<Input>, x: Input)
    ensures var h := Exec(cfg, t0, xs);
            React(cfg, h.st, x).burst.fin == Some(Aborted(UnrecoverableGap)) ==>
              h.st.senderLostBelow <= h.st.gaps.contiguous && BudgetSpent(cfg, h)
  {
    CouplingAlways(cfg, t0, xs);
    NackBudget(cfg, t0, xs);
    GivesUpHonestly(cfg, Exec(cfg, t0, xs), x);
  }

  lemma GivesUpHonestly(cfg: ReceiverConfig, h: Hist, x: Input)
    requires Inv(cfg, h) && NackInv(cfg, h)
    ensures React(cfg, h.st, x).burst.fin == Some(Aborted(UnrecoverableGap)) ==>
              h.st.senderLostBelow <= h.st.gaps.contiguous && BudgetSpent(cfg, h)
  {
    var s := h.st;
    ReactDelta(cfg, s, x);
    if React(cfg, s, x).burst.fin == Some(Aborted(UnrecoverableGap)) {
      ClockNacks(cfg, s, x);
      var missing := Missing(s.gaps, MAX_NACK_ENTRIES);
      MissingIsFirstHoles(s.gaps, MAX_NACK_ENTRIES);
      AskFacts(cfg, s.nacks, missing, s.senderLostBelow, x.at);
      var q :| q in missing && Spent(cfg, s.nacks, q, s.senderLostBelow, x.at);
      assert q in Holes(s.gaps);
      assert Recorded(s.nacks, q, Requests(h.log, q)) && WithinBudget(cfg, Requests(h.log, q));
      assert !Covers(s.gaps, q);
    }
  }

  /** Giving up, exactly: a missing number among those looked at has used up its attempts. */
  ghost predicate BudgetUsed(cfg: ReceiverConfig, h: Hist)
  {
    exists q :: q in Missing(h.st.gaps, MAX_NACK_ENTRIES) && |Requests(h.log, q)| >= cfg.maxNackAttempts
  }

  lemma PassExhausts(cfg: ReceiverConfig, h: Hist, now: Instant)
    requires Inv(cfg, h) && NackInv(cfg, h) && h.st.streaming
    ensures var s := h.st;
            Ask(cfg, s.nacks, Missing(s.gaps, MAX_NACK_ENTRIES), s.senderLostBelow, now).exhausted <==> BudgetUsed(cfg, h)
  {
    var s := h.st;
    var missing := Missing(s.gaps, MAX_NACK_ENTRIES);
    MissingIsFirstHoles(s.gaps, MAX_NACK_ENTRIES);
    AskFacts(cfg, s.nacks, missing, s.senderLostBelow, now);
    var r := Ask(cfg, s.nacks, missing, s.senderLostBelow, now);
    forall q | q in missing
      ensures Spent(cfg, s.nacks, q, s.senderLostBelow, now) <==> |Requests(h.log, q)| >= cfg.maxNackAttempts
      ensures AskedRight(cfg, s.nacks, q, now, r) ==> !Spent(cfg, s.nacks, q, s.senderLostBelow, now)
    {
      assert q in Holes(s.gaps);
      assert Recorded(s.nacks, q, Requests(h.log, q));
    }
  }

  // ----- exactly what is asked for -----

  lemma {:induction false} AskAscending(cfg: ReceiverConfig, nacks: map<nat, NackEntry>, missing: seq<nat>,
                                        lostBelow: nat, now: Instant)
    requires Ascending(missing)
    ensures Ascending(Ask(cfg, nacks, missing, lostBelow, now).ask)
    decreases |missing|
  {
    if missing != [] && !Spent(cfg, nacks, missing[0], lostBelow, now) {
      var x, rest := missing[0], missing[1..];
      var e := EntryFor(nacks, x, now);
      var due := Since(now, e.lastAt) >= cfg.NackDelay(e.attempts);
      var nacks' := nacks[x := if due then NackEntry(e.attempts + 1, now) else e];
      AskAscending(cfg, nacks', rest, lostBelow, now);
      AskKeys(cfg, nacks', rest, lostBelow, now);
      var ask := Ask(cfg, nacks', rest, lostBelow, now).ask;
      forall i | 0 <= i < |ask| ensures x < ask[i] {
        assert ask[i] in rest;
      }
    }
  }

  /** When `q` was first looked at: the first tick the stream survived with `q` among the
      missing numbers that fit one packet. */
  ghost function Looked(cfg: ReceiverConfig, t0: Instant, xs: seq<Input>, q: nat): (t: Option<Instant>)
    decreases |xs|
  {
    if xs == [] then None
    else
      var before, x := xs[..|xs| - 1], xs[|xs| - 1];
      var t := Looked(cfg, t0, before, q);
      if t.None? && Looks(cfg, Exec(cfg, t0, before), x, q) then Some(x.at) else t
  }

  ghost predicate Looks(cfg: ReceiverConfig, h: Hist, x: Input, q: nat)
  {
    x.Clock? && React(cfg, h.st, x).st.streaming && q in Missing(h.st.gaps, MAX_NACK_ENTRIES)
  }

  /** The entry of `q` exists once it was looked at, and starts an hour before that. */
  ghost predicate Entered(nacks: map<nat, NackEntry>, q: nat, t: Option<Instant>)
  {
    && (q in nacks <==> t.Some?)
    && (q in nacks && nacks[q].attempts == 0 ==> nacks[q].lastAt == t.value - HOUR)
  }

  lemma EnteredNext(cfg: ReceiverConfig, s: Recv, x: Input, q: nat, t: Option<Instant>)
    requires Good(cfg, s) && (s.streaming && q > s.gaps.contiguous ==> Entered(s.nacks, q, t))
    ensures var s' := React(cfg, s, x).st;
            var looks := x.Clock? && s'.streaming && q in Missing(s.gaps, MAX_NACK_ENTRIES);
            s'.streaming && q > s'.gaps.contiguous ==>
              Entered(s'.nacks, q, if t.None? && looks then Some(x.at) else t)
  {
    ReactDelta(cfg, s, x);
    var s' := React(cfg, s, x).st;
    if s'.streaming && q > s'.gaps.contiguous {
      if x.Clock? {
        ClockNacks(cfg, s, x);
        var missing := Missing(s.gaps, MAX_NACK_ENTRIES);
        MissingIsFirstHoles(s.gaps, MAX_NACK_ENTRIES);
        AskFacts(cfg, s.nacks, missing, s.senderLostBelow, x.at);
        var r := Ask(cfg, s.nacks, missing, s.senderLostBelow, x.at);
        assert if q in missing then AskedRight(cfg, s.nacks, q, x.at, r) else Untouched(s.nacks, q, r);
      } else {
        PacketNacks(cfg, s, x);
      }
    }
  }

  lemma {:induction false} EnteredAlways(cfg: ReceiverConfig, t0: Instant, xs: seq<Input>, q: nat)
    ensures var s := Exec(cfg, t0, xs).st;
            s.streaming && q > s.gaps.contiguous ==> Entered(s.nacks, q, Looked(cfg, t0, xs, q))
    decreases |xs|
  {
    if xs != [] {
      var before := xs[..|xs| - 1];
      CouplingAlways(cfg, t0, before);
      EnteredAlways(cfg, t0, before, q);
      EnteredNext(cfg, Exec(cfg, t0, before).st, xs[|xs| - 1], q, Looked(cfg, t0, before, q));
    }
  }

  /** The time the backoff of `q` runs from: its last request, or an hour before it was first
      looked at. */
  ghost function WaitsFrom(ts: seq<Instant>, looked: Option<Instant>, now: Instant): (t: Instant)
  {
    if ts != [] then ts[|ts| - 1] else (if looked.Some? then looked.value else now) - 3_600_000_000_000
  }

  ghost predicate AskDue(cfg: ReceiverConfig, h: Hist, looked: Option<Instant>, q: nat, now: Instant)
  {
    var ts := Requests(h.log, q);
    q in Missing(h.st.gaps, MAX_NACK_ENTRIES) && Since(now, WaitsFrom(ts, looked, now)) >= cfg.NackDelay(|ts|)
  }

  /** In every run a step asks for `q` if and only if it is a tick the stream survives, `q` is
      among the first missing numbers, and the backoff of its next attempt has run out; the
      numbers asked for are listed in ascending order. */
  lemma RequestsExact(cfg: ReceiverConfig, t0: Instant, xs: seq<Input>, x: Input, q: nat)
    ensures var h := Exec(cfg, t0, xs);
            var o := React(cfg, h.st, x);
            && (q in o.burst.nack <==>
                  x.Clock? && o.st.streaming && AskDue(cfg, h, Looked(cfg, t0, xs, q), q, x.at))
            && Ascending(o.burst.nack)
  {
    CouplingAlways(cfg, t0, xs);
    NackBudget(cfg, t0, xs);
    EnteredAlways(cfg, t0, xs, q);
    RequestsAt(cfg, Exec(cfg, t0, xs), x, q, Looked(cfg, t0, xs, q));
  }

  lemma RequestsAt(cfg: ReceiverConfig, h: Hist, x: Input, q: nat, looked: Option<Instant>)
    requires Inv(cfg, h) && NackInv(cfg, h)
    requires h.st.streaming && q > h.st.gaps.contiguous ==> Entered(h.st.nacks, q, looked)
    ensures var o := React(cfg, h.st, x);
            && (q in o.burst.nack <==> x.Clock? && o.st.streaming && AskDue(cfg, h, looked, q, x.at))
            && Ascending(o.burst.nack)
  {
    var s := h.st;
    ReactDelta(cfg, s, x);
    if !x.Clock? {
      PacketNacks(cfg, s, x);
    } else {
      ClockNacks(cfg, s, x);
      if React(cfg, s, x).st.streaming {
        PassAsks(cfg, h, x.at, q, looked);
      }
    }
  }

  lemma PassAsks(cfg: ReceiverConfig, h: Hist, now: Instant, q: nat, looked: Option<Instant>)
    requires Inv(cfg, h) && NackInv(cfg, h) && h.st.streaming
    requires q > h.st.gaps.contiguous ==> Entered(h.st.nacks, q, looked)
    ensures var r := Ask(cfg, h.st.nacks, Missing(h.st.gaps, MAX_NACK_ENTRIES), h.st.senderLostBelow, now);
            !r.exhausted ==> (q in r.ask <==> AskDue(cfg, h, looked, q, now)) && Ascending(r.ask)
  {
    var s := h.st;
    var missing := Missing(s.gaps, MAX_NACK_ENTRIES);
    MissingIsFirstHoles(s.gaps, MAX_NACK_ENTRIES);
    AskFacts(cfg, s.nacks, missing, s.senderLostBelow, now);
    AskAscending(cfg, s.nacks, missing, s.senderLostBelow, now);
    if q in missing {
      assert q in Holes(s.gaps);
      assert Recorded(s.nacks, q, Requests(h.log, q));
    }
  }
}
