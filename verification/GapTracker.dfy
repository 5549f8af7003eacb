/** Which sequence numbers have arrived: a contiguous prefix plus a set above it. */
module GapSpec {
  datatype Gaps = Gaps(contiguous: nat, ahead: set<nat>, highest: nat)

  const EMPTY_GAPS := Gaps(0, {}, 0)

  /** The number counts as arrived: inside the prefix, or held above it. */
  predicate Covers(g: Gaps, x: nat)
  {
    1 <= x <= g.contiguous || x in g.ahead
  }

  /** `record` treats `x` as new. */
  predicate Fresh(g: Gaps, x: nat)
  {
    x != 0 && x > g.contiguous && x !in g.ahead
  }

  /** Everything held sits strictly above the first hole and at or below `highest`. */
  ghost predicate TrackerOk(g: Gaps)
  {
    && g.contiguous <= g.highest
    && forall x :: x in g.ahead ==> g.contiguous + 1 < x <= g.highest
  }

  /** The prefix swallows everything that has become adjacent to it. */
  function Advance(c: nat, a: set<nat>): (r: (nat, set<nat>))
    decreases a
  {
    if c + 1 in a then Advance(c + 1, a - {c + 1}) else (c, a)
  }

  function Record(g: Gaps, x: nat): (r: Gaps)
  {
    if !Fresh(g, x) then g
    else
      var (c, a) := Advance(g.contiguous, g.ahead + {x});
      Gaps(c, a, if x > g.highest then x else g.highest)
  }

  function WindowSpan(g: Gaps): (n: nat)
  {
    if g.highest < g.contiguous then 0 else g.highest - g.contiguous
  }

  /** The prefix stops at the first number not held, and only what it passed leaves the set. */
  lemma {:induction false} AdvanceIsMaximal(c: nat, a: set<nat>)
    ensures var r := Advance(c, a);
            && c <= r.0
            && r.0 + 1 !in r.1
            && (forall x :: c < x <= r.0 ==> x in a)
            && (forall x :: x in r.1 <==> x in a && !(c < x <= r.0))
    decreases a
  {
    if c + 1 in a {
      AdvanceIsMaximal(c + 1, a - {c + 1});
    }
  }

  /** Recording adds exactly `x` to the numbers that count as arrived, whatever the
      prefix does to the representation. */
  lemma RecordCovers(g: Gaps, x: nat)
    requires TrackerOk(g)
    ensures TrackerOk(Record(g, x))
    ensures g.contiguous <= Record(g, x).contiguous && g.highest <= Record(g, x).highest
    ensures Record(g, x).highest == if Fresh(g, x) && x > g.highest then x else g.highest
    ensures forall y: nat :: Covers(Record(g, x), y) <==> Covers(g, y) || (y == x && x != 0)
  {
    if Fresh(g, x) {
      AdvanceIsMaximal(g.contiguous, g.ahead + {x});
      var c := Record(g, x).contiguous;
      assert c > g.contiguous ==> c in g.ahead + {x};
    }
  }

  lemma {:induction false} MaxExists(a: set<nat>, x: nat, above: set<nat>)
    requires x in a && forall y :: y in a && y > x ==> y in above
    ensures exists m :: m in a && forall y :: y in a ==> y <= m
    decreases above
  {
    if y :| y in a && y > x {
      MaxExists(a, y, above - {y});
    }
  }

  /** The largest member, or zero. */
  ghost function Max(a: set<nat>): (m: nat)
    ensures a != {} ==> m in a
    ensures forall x :: x in a ==> x <= m
  {
    if a == {} then 0
    else
      MaxExists(a, var x :| x in a; x, a);
      var m :| m in a && forall x :: x in a ==> x <= m;
      m
  }

  lemma {:induction false} MinExists(a: set<nat>, x: nat)
    requires x in a
    ensures exists m :: m in a && forall y :: y in a ==> m <= y
    decreases x
  {
    if y :| y in a && y < x {
      MinExists(a, y);
    }
  }

  /** Numbers above the prefix and below the furthest held one that have not arrived. */
  ghost function Holes(g: Gaps): (h: set<nat>)
  {
    set x: nat | g.contiguous < x < Max(g.ahead) && x !in g.ahead
  }

  /** Up to `limit` of the numbers in [from, top) that are not in `a`, ascending. */
  function Walk(a: set<nat>, from: nat, top: nat, limit: nat): (r: seq<nat>)
    decreases top - from
  {
    if from >= top || limit == 0 then []
    else if from in a then Walk(a, from + 1, top, limit)
    else [from] + Walk(a, from + 1, top, limit - 1)
  }

  ghost function Missing(g: Gaps, limit: nat): (r: seq<nat>)
  {
    Walk(g.ahead, g.contiguous + 1, Max(g.ahead), limit)
  }

  ghost predicate Ascending(s: seq<nat>)
  {
    forall i, j :: 0 <= i < j < |s| ==> s[i] < s[j]
  }

  /** `r` lists the `limit` smallest members of `h` in order, or all of `h` if it is smaller. */
  ghost predicate FirstOf(r: seq<nat>, h: set<nat>, limit: nat)
  {
    && Ascending(r)
    && (forall i :: 0 <= i < |r| ==> r[i] in h)
    && (forall x, i :: x in h && x !in r && 0 <= i < |r| ==> r[i] < x)
    && |r| == if |h| < limit then |h| else limit
  }

  lemma FirstOfCons(x: nat, r: seq<nat>, h: set<nat>, limit: nat)
    requires FirstOf(r, h, limit) && forall y :: y in h ==> x < y
    ensures FirstOf([x] + r, {x} + h, limit + 1)
  {
    assert |{x} + h| == 1 + |h|;
  }

  ghost function Gap(a: set<nat>, from: nat, top: nat): (h: set<nat>)
  {
    set x: nat | from <= x < top && x !in a
  }

  lemma {:induction false} WalkIsFirst(a: set<nat>, from: nat, top: nat, limit: nat)
    ensures FirstOf(Walk(a, from, top, limit), Gap(a, from, top), limit)
    decreases top - from
  {
    var h := Gap(a, from, top);
    if from >= top || limit == 0 {
      assert from >= top ==> h == {};
    } else if from in a {
      assert h == Gap(a, from + 1, top);
      WalkIsFirst(a, from + 1, top, limit);
    } else {
      assert h == {from} + Gap(a, from + 1, top);
      WalkIsFirst(a, from + 1, top, limit - 1);
      FirstOfCons(from, Walk(a, from + 1, top, limit - 1), Gap(a, from + 1, top), limit - 1);
    }
  }

  /** `missing(limit)` is exactly the `limit` smallest holes, ascending and without
      repetition; all of them when there are no more than `limit`, none when nothing is held. */
  lemma MissingIsFirstHoles(g: Gaps, limit: nat)
    ensures FirstOf(Missing(g, limit), Holes(g), limit)
    ensures g.ahead == {} ==> Missing(g, limit) == []
  {
    WalkIsFirst(g.ahead, g.contiguous + 1, Max(g.ahead), limit);
    assert Holes(g) == Gap(g.ahead, g.contiguous + 1, Max(g.ahead));
  }

  /** While anything is held above a hole, the number right after the prefix is asked for first. */
  lemma FirstMissing(g: Gaps, limit: nat)
    requires TrackerOk(g) && g.ahead != {} && limit > 0
    ensures Missing(g, limit) != [] && Missing(g, limit)[0] == g.contiguous + 1
  {
  }
}

/** The tracker as the receiver holds it, updated in place. */
module GapTracking {
  import opened GapSpec

  class GapTracker {
    var contiguous: nat
    var ahead: set<nat>
    var highest: nat

    ghost function View(): (g: Gaps)
      reads this
    {
      Gaps(contiguous, ahead, highest)
    }

    constructor ()
      ensures View() == EMPTY_GAPS
    {
      contiguous, ahead, highest := 0, {}, 0;
    }

    method Record(x: nat) returns (isNew: bool)
      modifies this
      ensures isNew == Fresh(old(View()), x)
      ensures View() == GapSpec.Record(old(View()), x)
    {
      if x == 0 || x <= contiguous {
        return false;
      }
      if x in ahead {
        return false;
      }
      ahead := ahead + {x};
      if x > highest {
        highest := x;
      }
      while contiguous + 1 in ahead
        invariant Advance(contiguous, ahead) == Advance(old(contiguous), old(ahead) + {x})
        invariant highest == if x > old(highest) then x else old(highest)
        decreases ahead
      {
        ahead := ahead - {contiguous + 1};
        contiguous := contiguous + 1;
      }
      return true;
    }

    /** The inner loop of `missing`: list the numbers from `start` up to the next held one. */
    method Fill(start: nat, have: nat, limit: nat, out: seq<nat>) returns (next: nat, out': seq<nat>)
      requires start <= have && |out| <= limit && have in ahead
      requires forall x :: start <= x < have ==> x !in ahead
      ensures next <= have && |out'| <= limit && (next == have || |out'| == limit)
      ensures out' + Walk(ahead, next, Max(ahead), limit - |out'|)
              == out + Walk(ahead, start, Max(ahead), limit - |out|)
    {
      next, out' := start, out;
      while next < have && |out'| < limit
        invariant start <= next <= have && |out'| <= limit
        invariant out' + Walk(ahead, next, Max(ahead), limit - |out'|)
                  == out + Walk(ahead, start, Max(ahead), limit - |out|)
      {
        out' := out' + [next];
        next := next + 1;
      }
    }

    method Missing(limit: nat) returns (out: seq<nat>)
      requires TrackerOk(View())
      ensures out == GapSpec.Missing(View(), limit)
    {
      out := [];
      var next: nat := contiguous + 1;
      var rest := ahead;
      while rest != {}
        invariant forall x :: x in rest <==> x in ahead && x >= next
        invariant |out| <= limit
        invariant out + Walk(ahead, next, Max(ahead), limit - |out|) == GapSpec.Missing(View(), limit)
      {
        ghost var some :| some in rest;
        MinExists(rest, some);
        var have :| have in rest && forall x :: x in rest ==> have <= x;
        assert forall x :: next <= x < have && x in ahead ==> x in rest;
        next, out := Fill(next, have, limit, out);
        if |out| >= limit {
          break;
        }
        assert next == have && have <= Max(ahead);
        next := have + 1;
        rest := rest - {have};
      }
      assert |out| < limit && ahead != {} ==> Max(ahead) in ahead && Max(ahead) !in rest;
    }

    function WindowSpan(): (n: nat)
      reads this
      ensures n == GapSpec.WindowSpan(View())
    {
      if highest < contiguous then 0 else highest - contiguous
    }

    method Abandon()
      modifies this
      ensures View() == old(View()).(ahead := {})
    {
      ahead := {};
    }
  }
}
