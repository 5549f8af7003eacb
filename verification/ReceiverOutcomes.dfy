/** The order of events over whole runs: one outcome, one tail acknowledgement, one close. */
module ReceiverOutcomes {
  import opened Types
  import opened ReceiverSpec
  import opened ReceiverSteps
  import opened ReceiverRuns

  /** Everything emitted so far, in order. */
  ghost function Trace(log: seq<Entry>): (tr: seq<RecvEvent>)
  {
    if log == [] then [] else Trace(log[..|log| - 1]) + Events(log[|log| - 1].burst)
  }

  function Rank(e: RecvEvent): (r: nat)
  {
    match e
    case Unreliable(_) => 0
    case Reliable(_) => 1
    case SendNack(_) => 2
    case RelFinished(_) => 3
    case SendEndAck => 4
    case Closed => 5
    case SendAck(_, _, _) => 6
  }

  /** In rank order, and nothing but `Reliable` repeats. */
  ghost predicate Ranked(es: seq<RecvEvent>, top: nat)
  {
    && (forall i :: 0 <= i < |es| ==> Rank(es[i]) < top)
    && (forall i, j :: 0 <= i < j < |es| ==>
          Rank(es[i]) < Rank(es[j]) || (es[i].Reliable? && es[j].Reliable?))
  }

  /** The burst accounts for the event. */
  ghost predicate Names(b: Burst, e: RecvEvent)
  {
    match e
    case Unreliable(f) => b.unrel == Some(f)
    case Reliable(f) => f in b.rel
    case SendNack(m) => m == b.nack && m != []
    case RelFinished(v) => b.fin == Some(v)
    case SendEndAck => b.endAck
    case Closed => b.closed
    case SendAck(c, h, ms) => b.ack == Some(AckInfo(c, h, ms))
  }

  /** Ranked below `top`, and exactly the events of those ranks the burst accounts for. */
  ghost predicate Upto(es: seq<RecvEvent>, b: Burst, top: nat)
  {
    Ranked(es, top) && forall e :: e in es <==> Rank(e) < top && Names(b, e)
  }

  lemma Put(es: seq<RecvEvent>, top: nat, e: RecvEvent)
    requires Ranked(es, top) && (Rank(e) >= top || (e.Reliable? && top == 2))
    ensures Ranked(es + [e], Rank(e) + 1)
    ensures forall e' :: e' in es + [e] <==> e' in es || e' == e
  {
    assert (es + [e])[|es|] == e;
  }

  lemma {:induction false} RelOntoRanked(es: seq<RecvEvent>, fs: seq<Frame>)
    requires Ranked(es, 2)
    ensures Ranked(RelOnto(es, fs), 2)
    ensures forall e :: e in RelOnto(es, fs) <==> e in es || (e.Reliable? && e.frame in fs)
    decreases |fs|
  {
    if fs != [] {
      Put(es, 2, Reliable(fs[0]));
      RelOntoRanked(es + [Reliable(fs[0])], fs[1..]);
      assert forall f :: f in fs <==> f == fs[0] || f in fs[1..];
    }
  }

  /** The only event of its rank the burst may name. */
  ghost predicate Sole(b: Burst, c: bool, e: RecvEvent)
  {
    forall e' :: Rank(e') == Rank(e) ==> (Names(b, e') <==> c && e' == e)
  }

  /** Appending under a condition, whichever way it goes. */
  lemma PutIf(es: seq<RecvEvent>, b: Burst, c: bool, e: RecvEvent) returns (r: seq<RecvEvent>)
    requires Upto(es, b, Rank(e)) && Sole(b, c, e)
    ensures r == if c then es + [e] else es
    ensures Upto(r, b, Rank(e) + 1)
  {
    r := if c then es + [e] else es;
    Put(es, Rank(e), e);
  }

  /** Every optional part of a burst is the sole event of its rank. */
  lemma Soles(b: Burst, f: Frame, v: RelOutcome, a: AckInfo)
    requires b.unrel.Some? ==> f == b.unrel.value
    requires b.fin.Some? ==> v == b.fin.value
    requires b.ack.Some? ==> a == b.ack.value
    ensures Sole(b, b.unrel.Some?, Unreliable(f)) && Sole(b, b.nack != [], SendNack(b.nack))
    ensures Sole(b, b.fin.Some?, RelFinished(v)) && Sole(b, b.endAck, SendEndAck) && Sole(b, b.closed, Closed)
    ensures Sole(b, b.ack.Some?, SendAck(a.contiguous, a.highest, a.bufferedMs))
  {
  }

  lemma HeadUpto(b: Burst, f: Frame)
    requires b.unrel.Some? ==> f == b.unrel.value
    requires Sole(b, b.unrel.Some?, Unreliable(f)) && Sole(b, b.nack != [], SendNack(b.nack))
    ensures Upto(HeadOnto([], b), b, 3)
  {
    var played := PutIf([], b, b.unrel.Some?, Unreliable(f));
    RelOntoUpto(played, b);
    var all := PutIf(RelOnto(played, b.rel), b, b.nack != [], SendNack(b.nack));
    assert all == HeadOnto([], b);
  }

  lemma RelOntoUpto(es: seq<RecvEvent>, b: Burst)
    requires Upto(es, b, 1)
    ensures Upto(RelOnto(es, b.rel), b, 2)
  {
    RelOntoRanked(es, b.rel);
  }

  lemma FinUpto(es: seq<RecvEvent>, b: Burst, v: RelOutcome) returns (acked: seq<RecvEvent>)
    requires Upto(es, b, 3) && Sole(b, b.fin.Some?, RelFinished(v)) && Sole(b, b.endAck, SendEndAck)
    ensures var finished := if b.fin.Some? then es + [RelFinished(v)] else es;
            acked == if b.endAck then finished + [SendEndAck] else finished
    ensures Upto(acked, b, 5)
  {
    var finished := PutIf(es, b, b.fin.Some?, RelFinished(v));
    acked := PutIf(finished, b, b.endAck, SendEndAck);
  }

  lemma CloseUpto(es: seq<RecvEvent>, b: Burst, e: RecvEvent) returns (all: seq<RecvEvent>)
    requires Upto(es, b, 5) && e.SendAck? && Sole(b, b.closed, Closed) && Sole(b, b.ack.Some?, e)
    ensures var closed := if b.closed then es + [Closed] else es;
            all == if b.ack.Some? then closed + [e] else closed
    ensures Upto(all, b, 7)
  {
    var closed := PutIf(es, b, b.closed, Closed);
    all := PutIf(closed, b, b.ack.Some?, e);
  }

  lemma TailUpto(es: seq<RecvEvent>, b: Burst, v: RelOutcome, a: AckInfo)
    requires Upto(es, b, 3)
    requires (b.fin.Some? ==> v == b.fin.value) && (b.ack.Some? ==> a == b.ack.value)
    requires Sole(b, b.fin.Some?, RelFinished(v)) && Sole(b, b.endAck, SendEndAck) && Sole(b, b.closed, Closed)
    requires Sole(b, b.ack.Some?, SendAck(a.contiguous, a.highest, a.bufferedMs))
    ensures Upto(TailOnto(es, b), b, 7)
  {
    var acked := FinUpto(es, b, v);
    var all := CloseUpto(acked, b, SendAck(a.contiguous, a.highest, a.bufferedMs));
    assert all == TailOnto(es, b);
  }

  /** A step's events are in rank order and are exactly those the burst names. */
  lemma EventsRanked(b: Burst)
    ensures Ranked(Events(b), 7) && forall e :: e in Events(b) <==> Names(b, e)
  {
    var f := if b.unrel.Some? then b.unrel.value else Frame(0, 0, []);
    var v := if b.fin.Some? then b.fin.value else Complete(0);
    var a := if b.ack.Some? then b.ack.value else AckInfo(0, 0, 0);
    Soles(b, f, v, a);
    HeadUpto(b, f);
    TailUpto(HeadOnto([], b), b, v, a);
    assert forall e: RecvEvent :: Rank(e) < 7;
  }

  ghost predicate Contains(tr: seq<RecvEvent>, r: nat)
  {
    exists i :: 0 <= i < |tr| && Rank(tr[i]) == r
  }

  /** One outcome at most, nothing reliable after it, one `EndAck`, one `Closed`, and no
      `Closed` without an outcome before it. */
  ghost predicate Disciplined(tr: seq<RecvEvent>)
  {
    && (forall i, j :: 0 <= i < j < |tr| && tr[i].RelFinished? ==> !(1 <= Rank(tr[j]) <= 3))
    && (forall i, j :: 0 <= i < j < |tr| && tr[i].SendEndAck? ==> !tr[j].SendEndAck?)
    && (forall i, j :: 0 <= i < j < |tr| && tr[i].Closed? ==> !tr[j].Closed?)
    && (forall j :: 0 <= j < |tr| && tr[j].Closed? ==> Contains(tr[..j], 3))
  }

  ghost predicate OutcomeInv(h: Hist)
  {
    var tr := Trace(h.log);
    && Disciplined(tr)
    && (Contains(tr, 3) <==> !h.st.streaming)
    && (Contains(tr, 4) <==> h.st.endAcked)
    && (Contains(tr, 5) <==> h.st.closed)
  }

  lemma ContainsAppend(a: seq<RecvEvent>, b: seq<RecvEvent>, r: nat)
    ensures Contains(a + b, r) <==> Contains(a, r) || Contains(b, r)
  {
    if i :| 0 <= i < |a| && Rank(a[i]) == r {
      assert (a + b)[i] == a[i];
    }
    if i :| 0 <= i < |b| && Rank(b[i]) == r {
      assert (a + b)[|a| + i] == b[i];
    }
  }

  lemma ContainsIn(es: seq<RecvEvent>, e: RecvEvent)
    requires e in es
    ensures Contains(es, Rank(e))
  {
    var i :| 0 <= i < |es| && es[i] == e;
    assert Rank(es[i]) == Rank(e);
  }

  lemma NamedContain(es: seq<RecvEvent>, b: Burst)
    requires forall e :: e in es <==> Names(b, e)
    ensures Contains(es, 1) ==> b.rel != []
    ensures Contains(es, 2) ==> b.nack != []
    ensures Contains(es, 3) <==> b.fin.Some?
    ensures Contains(es, 4) <==> b.endAck
    ensures Contains(es, 5) <==> b.closed
  {
    assert forall i :: 0 <= i < |es| ==> Names(b, es[i]);
    if b.fin.Some? {
      ContainsIn(es, RelFinished(b.fin.value));
    }
    if b.endAck {
      ContainsIn(es, SendEndAck);
    }
    if b.closed {
      ContainsIn(es, Closed);
    }
  }

  lemma OutcomeNext(cfg: ReceiverConfig, h: Hist, x: Input)
    requires Good(cfg, h.st) && OutcomeInv(h)
    ensures OutcomeInv(Next(cfg, h, x))
  {
    ReactDelta(cfg, h.st, x);
    var o := React(cfg, h.st, x);
    var tr, es := Trace(h.log), Events(o.burst);
    assert Next(cfg, h, x).log[..|h.log|] == h.log;
    EventsRanked(o.burst);
    NamedContain(es, o.burst);
    forall r ensures Contains(tr + es, r) <==> Contains(tr, r) || Contains(es, r) {
      ContainsAppend(tr, es, r);
    }
    DisciplineAppend(tr, es);
  }

  /** Appending a ranked burst keeps the discipline when nothing once-only is repeated. */
  lemma DisciplineAppend(tr: seq<RecvEvent>, es: seq<RecvEvent>)
    requires Disciplined(tr) && Ranked(es, 7)
    requires Contains(tr, 3) ==> !Contains(es, 1) && !Contains(es, 2) && !Contains(es, 3)
    requires Contains(tr, 4) ==> !Contains(es, 4)
    requires Contains(tr, 5) ==> !Contains(es, 5)
    requires Contains(es, 5) ==> Contains(tr, 3) || Contains(es, 3)
    ensures Disciplined(tr + es)
  {
    var all := tr + es;
    forall j | 0 <= j < |all| && all[j].Closed? ensures Contains(all[..j], 3) {
      if j < |tr| {
        assert all[..j] == tr[..j];
      } else {
        var k := j - |tr|;
        assert all[..j] == tr + es[..k];
        ContainsAppend(tr, es[..k], 3);
        assert Rank(es[k]) == 5;
        if !Contains(tr, 3) {
          var i :| 0 <= i < |es| && Rank(es[i]) == 3;
          assert i < k;
          assert es[..k][i] == es[i];
        }
      }
    }
  }

  /** Every run keeps the outcome discipline. */
  lemma {:induction false} OutcomesDisciplined(cfg: ReceiverConfig, t0: Instant, xs: seq<Input>)
    ensures OutcomeInv(Exec(cfg, t0, xs))
    decreases |xs|
  {
    if xs != [] {
      CouplingAlways(cfg, t0, xs[..|xs| - 1]);
      OutcomesDisciplined(cfg, t0, xs[..|xs| - 1]);
      OutcomeNext(cfg, Exec(cfg, t0, xs[..|xs| - 1]), xs[|xs| - 1]);
    }
  }
}
