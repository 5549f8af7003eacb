/** Runs of the receiver: any sequence of packets, clock ticks and occupancy reports, in any
    order and at any times. The history keeps what was delivered and what came out. */
module ReceiverRuns {
  import opened Types
  import opened GapSpec
  import opened ReceiverSpec
  import opened ReceiverSteps

  datatype Entry = Entry(at: Instant, burst: Burst)

  /** `given` are the frames of all data packets handled so far, `arrived` their numbers. */
  datatype Hist = Hist(st: Recv, log: seq<Entry>, given: set<Frame>, arrived: set<nat>)

  ghost function Start(t0: Instant): (h: Hist)
  {
    Hist(Init(t0), [], {}, {})
  }

  ghost function Next(cfg: ReceiverConfig, h: Hist, x: Input): (h': Hist)
  {
    var o := React(cfg, h.st, x);
    Hist(o.st, h.log + [Entry(x.at, o.burst)],
         h.given + (if IsData(x) then {FrameOf(x)} else {}),
         h.arrived + (if IsData(x) && x.seqNo >= 1 then {x.seqNo} else {}))
  }

  ghost function Exec(cfg: ReceiverConfig, t0: Instant, xs: seq<Input>): (h: Hist)
    decreases |xs|
  {
    if xs == [] then Start(t0) else Next(cfg, Exec(cfg, t0, xs[..|xs| - 1]), xs[|xs| - 1])
  }

  lemma ExecStep(cfg: ReceiverConfig, t0: Instant, xs: seq<Input>, x: Input)
    ensures Exec(cfg, t0, xs + [x]) == Next(cfg, Exec(cfg, t0, xs), x)
  {
    assert (xs + [x])[..|xs|] == xs;
  }

  lemma SplitLast(xs: seq<Input>, ys: seq<Input>)
    requires ys != []
    ensures xs + ys == (xs + ys[..|ys| - 1]) + [ys[|ys| - 1]]
  {
  }

  // ----- arrivals and releases -----

  /** The tracker knows the true maximum, claims nothing that did not arrive, and while
      streaming has forgotten nothing. */
  ghost predicate ArrivalInv(h: Hist)
  {
    && (forall y: nat :: Covers(h.st.gaps, y) ==> y in h.arrived)
    && (forall y :: y in h.arrived ==> 1 <= y <= h.st.gaps.highest)
    && (h.st.gaps.highest > 0 ==> h.st.gaps.highest in h.arrived)
    && (h.st.streaming ==> forall y :: y in h.arrived ==> Covers(h.st.gaps, y))
  }

  /** All frames released so far, in order. */
  ghost function Released(log: seq<Entry>): (fs: seq<Frame>)
  {
    if log == [] then [] else Released(log[..|log| - 1]) + log[|log| - 1].burst.rel
  }

  /** Releases are numbered 1, 2, 3, ... and every frame held or released was delivered. */
  ghost predicate ReleaseInv(h: Hist)
  {
    var fs := Released(h.log);
    && |fs| == h.st.relReleased
    && (forall i :: 0 <= i < |fs| ==> fs[i].seqNo == i + 1 && fs[i] in h.given)
    && (forall k :: k in h.st.reorder ==> h.st.reorder[k] in h.given)
  }

  ghost predicate Inv(cfg: ReceiverConfig, h: Hist)
  {
    Good(cfg, h.st) && ArrivalInv(h) && ReleaseInv(h)
  }

  lemma InvNext(cfg: ReceiverConfig, h: Hist, x: Input)
    requires Inv(cfg, h)
    ensures Inv(cfg, Next(cfg, h, x))
  {
    ReactDelta(cfg, h.st, x);
    ArrivalNext(cfg, h, x);
    ReleaseNext(cfg, h, x);
  }

  lemma ArrivalNext(cfg: ReceiverConfig, h: Hist, x: Input)
    requires Good(cfg, h.st) && ArrivalInv(h) && GapsDelta(h.st, x, React(cfg, h.st, x).st)
    requires React(cfg, h.st, x).st.streaming ==> h.st.streaming
    ensures ArrivalInv(Next(cfg, h, x))
  {
  }

  lemma ReleaseNext(cfg: ReceiverConfig, h: Hist, x: Input)
    requires ReleaseInv(h) && RelDelta(h.st, x, React(cfg, h.st, x))
    ensures ReleaseInv(Next(cfg, h, x))
  {
    assert Next(cfg, h, x).log[..|h.log|] == h.log;
  }

  /** After every step of every run: while streaming the release counter equals the prefix,
      the buffer holds exactly the numbers the tracker holds, the byte counter is their total
      and never negative, and releases are numbered 1, 2, 3, ... without a hole. */
  lemma {:induction false} CouplingAlways(cfg: ReceiverConfig, t0: Instant, xs: seq<Input>)
    ensures Inv(cfg, Exec(cfg, t0, xs))
    decreases |xs|
  {
    if xs != [] {
      CouplingAlways(cfg, t0, xs[..|xs| - 1]);
      InvNext(cfg, Exec(cfg, t0, xs[..|xs| - 1]), xs[|xs| - 1]);
    }
  }

  // ----- memory -----

  lemma {:induction false} IntervalBound(a: set<nat>, lo: nat, hi: nat)
    requires lo <= hi && forall x :: x in a ==> lo < x <= hi
    ensures |a| <= hi - lo
    decreases hi - lo
  {
    if lo == hi {
      assert a == {};
    } else {
      IntervalBound(a - {hi}, lo, hi - 1);
    }
  }

  /** Memory stays bounded: while streaming each of the three collections holds at most
      `reorder_window` entries and the bytes stay in budget; afterwards nothing is held. */
  lemma MemoryBounded(cfg: ReceiverConfig, t0: Instant, xs: seq<Input>)
    ensures var s := Exec(cfg, t0, xs).st;
            if s.streaming
            then && |s.reorder| <= cfg.reorderWindow && |s.gaps.ahead| <= cfg.reorderWindow
                 && |s.nacks| <= cfg.reorderWindow && 0 <= s.reorderBytes <= cfg.maxReorderBytes
            else |s.reorder| == 0 && |s.nacks| == 0 && s.reorderBytes == 0
  {
    CouplingAlways(cfg, t0, xs);
    var s := Exec(cfg, t0, xs).st;
    if s.streaming {
      IntervalBound(s.gaps.ahead, s.gaps.contiguous, s.gaps.highest);
      IntervalBound(s.nacks.Keys, s.gaps.contiguous, s.gaps.highest);
      assert |s.reorder| == |s.reorder.Keys|;
      assert |s.nacks| == |s.nacks.Keys|;
    }
  }

  /** Finished, with exactly the numbers 2 to n + 1 held above an empty prefix. */
  ghost predicate Flooded(s: Recv, n: nat)
  {
    !s.streaming && s.gaps.contiguous == 0 && forall k :: k in s.gaps.ahead <==> 2 <= k <= n + 1
  }

  lemma FloodStart(cfg: ReceiverConfig, t0: Instant, xs: seq<Input>)
    requires |xs| == 1 && xs[0].Packet? && xs[0].body == Keepalive(1)
    ensures Flooded(Exec(cfg, t0, xs).st, 0) && Exec(cfg, t0, xs).st.gaps.ahead == {}
  {
    assert xs[..0] == [];
    assert Exec(cfg, t0, xs) == Next(cfg, Start(t0), xs[0]);
  }

  lemma FloodStep(cfg: ReceiverConfig, s: Recv, n: nat, x: Input)
    requires Flooded(s, n) && IsData(x) && x.seqNo == n + 2
    ensures Flooded(React(cfg, s, x).st, n + 1)
    ensures React(cfg, s, x).st.gaps.ahead == s.gaps.ahead + {n + 2}
  {
  }

  lemma FloodNext(cfg: ReceiverConfig, t0: Instant, xs: seq<Input>, n: nat, x: Input)
    requires Flooded(Exec(cfg, t0, xs).st, n) && IsData(x) && x.seqNo == n + 2
    ensures Flooded(Exec(cfg, t0, xs + [x]).st, n + 1)
    ensures |Exec(cfg, t0, xs + [x]).st.gaps.ahead| == |Exec(cfg, t0, xs).st.gaps.ahead| + 1
  {
    ExecStep(cfg, t0, xs, x);
    FloodStep(cfg, Exec(cfg, t0, xs).st, n, x);
  }

  /** The tracker's own set has no such bound once the stream is finished: for every n and in
      every configuration there is a finished run that holds n numbers. The sender gives up
      frame 1, and frames 2 to n + 1 arrive. */
  lemma {:induction false} AheadUncapped(cfg: ReceiverConfig, t0: Instant, n: nat) returns (xs: seq<Input>)
    ensures Flooded(Exec(cfg, t0, xs).st, n) && |Exec(cfg, t0, xs).st.gaps.ahead| == n
    decreases n
  {
    if n == 0 {
      xs := [Packet(0, Keepalive(1), t0)];
      FloodStart(cfg, t0, xs);
    } else {
      var before := AheadUncapped(cfg, t0, n - 1);
      var x := Packet(n + 1, Data(0, []), t0);
      FloodNext(cfg, t0, before, n - 1, x);
      xs := before + [x];
    }
  }

  // ----- acknowledgements -----

  /** Every progress report of every run is true: all of 1..contiguous really arrived,
      `highest` is the largest arrival, and it is not below `contiguous`; also after the
      reliable stream was abandoned. */
  lemma AckIsTrue(cfg: ReceiverConfig, t0: Instant, xs: seq<Input>, x: Input)
    ensures var h := Exec(cfg, t0, xs + [x]);
            var ack := React(cfg, Exec(cfg, t0, xs).st, x).burst.ack;
            ack.Some? ==>
              && (forall y: nat :: 1 <= y <= ack.value.contiguous ==> y in h.arrived)
              && ack.value.highest in h.arrived
              && (forall y :: y in h.arrived ==> y <= ack.value.highest)
              && ack.value.contiguous <= ack.value.highest
  {
    ExecStep(cfg, t0, xs, x);
    CouplingAlways(cfg, t0, xs);
    CouplingAlways(cfg, t0, xs + [x]);
    var h := Exec(cfg, t0, xs + [x]);
    ReactDelta(cfg, Exec(cfg, t0, xs).st, x);
    assert forall y: nat :: 1 <= y <= h.st.gaps.contiguous ==> Covers(h.st.gaps, y);
  }

  /** No report so far exceeds the current state; the last one is as old as `lastAckAt` says. */
  ghost predicate AckInv(cfg: ReceiverConfig, h: Hist)
  {
    && (forall i :: 0 <= i < |h.log| && h.log[i].burst.ack.Some? ==>
          var a := h.log[i].burst.ack.value;
          a.contiguous <= h.st.gaps.contiguous && a.highest <= h.st.gaps.highest)
    && LastStamped(h) && AcksOrdered(cfg, h.log)
  }

  ghost predicate LastStamped(h: Hist)
  {
    forall i :: 0 <= i < |h.log| && h.log[i].burst.ack.Some? && NoAckAfter(h.log, i) ==>
      h.st.lastAckAt == h.log[i].at
  }

  ghost predicate NoAckAfter(log: seq<Entry>, i: nat)
  {
    forall j :: i < j < |log| ==> log[j].burst.ack.None?
  }

  /** Reports never go back, and consecutive ones are at least the interval apart. */
  ghost predicate AcksOrdered(cfg: ReceiverConfig, log: seq<Entry>)
  {
    && (forall i, j :: 0 <= i < j < |log| && log[i].burst.ack.Some? && log[j].burst.ack.Some? ==>
          && log[i].burst.ack.value.contiguous <= log[j].burst.ack.value.contiguous
          && log[i].burst.ack.value.highest <= log[j].burst.ack.value.highest)
    && (forall i, j :: 0 <= i < j < |log| && log[i].burst.ack.Some? && log[j].burst.ack.Some?
                       && NoAckAfter(log[..j], i) ==>
          Since(log[j].at, log[i].at) >= cfg.ackInterval)
  }

  /** One more entry: either no report, or one that is not below the state and not too early. */
  ghost predicate Reported(cfg: ReceiverConfig, h: Hist, at: Instant, h': Hist, b: Burst)
  {
    && h'.log == h.log + [Entry(at, b)]
    && h.st.gaps.contiguous <= h'.st.gaps.contiguous && h.st.gaps.highest <= h'.st.gaps.highest
    && match b.ack
       case None => h'.st.lastAckAt == h.st.lastAckAt
       case Some(a) =>
         && a.contiguous == h'.st.gaps.contiguous && a.highest == h'.st.gaps.highest
         && Since(at, h.st.lastAckAt) >= cfg.ackInterval && h'.st.lastAckAt == at
  }

  lemma ReportedOrdered(cfg: ReceiverConfig, h: Hist, at: Instant, h': Hist, b: Burst)
    requires AckInv(cfg, h) && Reported(cfg, h, at, h', b)
    ensures AcksOrdered(cfg, h'.log)
  {
    var n := |h.log|;
    assert h'.log[..n] == h.log;
    forall i, j | 0 <= i < j < |h'.log| && h'.log[i].burst.ack.Some? && h'.log[j].burst.ack.Some?
                  && NoAckAfter(h'.log[..j], i)
      ensures Since(h'.log[j].at, h'.log[i].at) >= cfg.ackInterval
    {
      if j < n {
        assert h'.log[..j] == h.log[..j];
      }
    }
  }

  lemma NoAckAfterFront(log: seq<Entry>, e: Entry, i: nat)
    requires i < |log| && NoAckAfter(log + [e], i)
    ensures e.burst.ack.None? && NoAckAfter(log, i)
  {
    assert (log + [e])[|log|] == e;
    forall j | i < j < |log| ensures log[j].burst.ack.None? {
      assert (log + [e])[j] == log[j];
    }
  }

  lemma ReportedLast(cfg: ReceiverConfig, h: Hist, at: Instant, h': Hist, b: Burst)
    requires LastStamped(h) && Reported(cfg, h, at, h', b)
    ensures LastStamped(h')
  {
    forall i | 0 <= i < |h'.log| && h'.log[i].burst.ack.Some? && NoAckAfter(h'.log, i)
      ensures h'.st.lastAckAt == h'.log[i].at
    {
      if i < |h.log| {
        NoAckAfterFront(h.log, Entry(at, b), i);
      }
    }
  }

  lemma ReportedKeeps(cfg: ReceiverConfig, h: Hist, at: Instant, h': Hist, b: Burst)
    requires AckInv(cfg, h) && Reported(cfg, h, at, h', b)
    ensures AckInv(cfg, h')
  {
    ReportedOrdered(cfg, h, at, h', b);
    ReportedLast(cfg, h, at, h', b);
  }

  lemma AckNext(cfg: ReceiverConfig, h: Hist, x: Input)
    requires Good(cfg, h.st) && AckInv(cfg, h)
    ensures AckInv(cfg, Next(cfg, h, x))
  {
    ReactDelta(cfg, h.st, x);
    ReportedKeeps(cfg, h, x.at, Next(cfg, h, x), React(cfg, h.st, x).burst);
  }

  lemma {:induction false} AcksAlwaysOrdered(cfg: ReceiverConfig, t0: Instant, xs: seq<Input>)
    ensures AckInv(cfg, Exec(cfg, t0, xs))
    decreases |xs|
  {
    if xs != [] {
      CouplingAlways(cfg, t0, xs[..|xs| - 1]);
      AcksAlwaysOrdered(cfg, t0, xs[..|xs| - 1]);
      AckNext(cfg, Exec(cfg, t0, xs[..|xs| - 1]), xs[|xs| - 1]);
    }
  }
}
