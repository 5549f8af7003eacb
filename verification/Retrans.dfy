/** The retransmission ring: a frame- and byte-bounded queue of sealed datagrams. */
module RetransSpec {
  import opened Types

  datatype Slot = Slot(seqNo: nat, sealed: Datagram)

  datatype Ring = Ring(entries: seq<Slot>, bytes: int, maxFrames: nat, maxBytes: nat, lostBelow: nat)

  function NewRing(maxFrames: nat, maxBytes: nat): (r: Ring)
  {
    Ring([], 0, if maxFrames < 1 then 1 else maxFrames, if maxBytes < 1 then 1 else maxBytes, 0)
  }

  predicate OverBudget(r: Ring)
  {
    |r.entries| > r.maxFrames || r.bytes > r.maxBytes
  }

  function EvictOldest(r: Ring): (r': Ring)
    requires r.entries != []
  {
    var s := r.entries[0];
    r.(entries := r.entries[1..], bytes := r.bytes - s.sealed.Size(),
       lostBelow := if r.lostBelow < s.seqNo then s.seqNo else r.lostBelow)
  }

  /** Evict until both budgets hold, or nothing is left to evict. */
  function Trim(r: Ring): (r': Ring)
    decreases |r.entries|
  {
    if !OverBudget(r) || r.entries == [] then r else Trim(EvictOldest(r))
  }

  function Append(r: Ring, seqNo: nat, sealed: Datagram): (r': Ring)
  {
    r.(entries := r.entries + [Slot(seqNo, sealed)], bytes := r.bytes + sealed.Size())
  }

  function Push(r: Ring, seqNo: nat, sealed: Datagram): (r': Ring)
  {
    Trim(Append(r, seqNo, sealed))
  }

  function DropAcked(r: Ring, contiguous: nat): (r': Ring)
    decreases |r.entries|
  {
    if r.entries == [] || r.entries[0].seqNo > contiguous then r
    else DropAcked(EvictOldest(r), contiguous)
  }

  function AckThrough(r: Ring, contiguous: nat): (r': Ring)
  {
    var d := DropAcked(r, contiguous);
    d.(lostBelow := if d.lostBelow < contiguous then contiguous else d.lostBelow)
  }

  /** The first entry stored under the number. */
  function Find(entries: seq<Slot>, q: nat): (d: Option<Datagram>)
    decreases |entries|
  {
    if entries == [] then None
    else if entries[0].seqNo == q then Some(entries[0].sealed)
    else Find(entries[1..], q)
  }

  // ----- what the ring keeps -----

  ghost function Total(es: seq<Slot>): (n: nat)
  {
    if es == [] then 0 else es[0].sealed.Size() + Total(es[1..])
  }

  lemma {:induction false} TotalAppend(es: seq<Slot>, s: Slot)
    ensures Total(es + [s]) == Total(es) + s.sealed.Size()
    decreases |es|
  {
    if es != [] {
      assert (es + [s])[1..] == es[1..] + [s];
      TotalAppend(es[1..], s);
    } else {
      assert Total([s]) == s.sealed.Size() + Total([s][1..]);
    }
  }

  /** Ascending, everything above the watermark, and an exact byte count. */
  ghost predicate RingOk(r: Ring)
  {
    && r.maxFrames >= 1 && r.maxBytes >= 1
    && r.bytes == Total(r.entries)
    && (forall i, j :: 0 <= i < j < |r.entries| ==> r.entries[i].seqNo < r.entries[j].seqNo)
    && (forall i :: 0 <= i < |r.entries| ==> r.entries[i].seqNo > r.lostBelow)
  }

  ghost predicate Holds(r: Ring, q: nat, d: Datagram)
  {
    Slot(q, d) in r.entries
  }

  lemma EvictKeeps(r: Ring)
    requires RingOk(r) && r.entries != []
    ensures RingOk(EvictOldest(r)) && EvictOldest(r).lostBelow == r.entries[0].seqNo
  {
  }

  /** Trimming keeps the longest suffix that fits both budgets, and the watermark moves to the
      last number evicted. A well-formed ring never runs empty while over budget. */
  lemma {:induction false} TrimIsLongestSuffix(r: Ring) returns (k: nat)
    requires RingOk(r)
    ensures k <= |r.entries|
    ensures RingOk(Trim(r)) && !OverBudget(Trim(r))
    ensures Trim(r).entries == r.entries[k..]
    ensures Trim(r).lostBelow == if k == 0 then r.lostBelow else r.entries[k - 1].seqNo
    ensures Trim(r).maxFrames == r.maxFrames && Trim(r).maxBytes == r.maxBytes
    ensures forall j :: 0 <= j < k ==> |r.entries| - j > r.maxFrames || Total(r.entries[j..]) > r.maxBytes
    decreases |r.entries|
  {
    if !OverBudget(r) {
      k := 0;
    } else {
      assert r.entries != [] by {
        assert Total([]) == 0;
      }
      EvictKeeps(r);
      var k' := TrimIsLongestSuffix(EvictOldest(r));
      k := k' + 1;
      forall j | 0 <= j < k
        ensures |r.entries| - j > r.maxFrames || Total(r.entries[j..]) > r.maxBytes
      {
        if j > 0 {
          assert r.entries[1..][j - 1..] == r.entries[j..];
        } else {
          assert r.entries[0..] == r.entries;
        }
      }
      assert r.entries[1..][k'..] == r.entries[k..];
    }
  }

  lemma AppendKeeps(r: Ring, seqNo: nat, sealed: Datagram)
    requires RingOk(r) && seqNo > r.lostBelow
    requires forall i :: 0 <= i < |r.entries| ==> r.entries[i].seqNo < seqNo
    ensures RingOk(Append(r, seqNo, sealed))
  {
    TotalAppend(r.entries, Slot(seqNo, sealed));
  }

  /** After a push both budgets hold, and every entry, old or new, is either still held or at or
      below the watermark; nothing else appears. */
  lemma PushKeeps(r: Ring, seqNo: nat, sealed: Datagram)
    requires RingOk(r) && seqNo > r.lostBelow
    requires forall i :: 0 <= i < |r.entries| ==> r.entries[i].seqNo < seqNo
    ensures var r' := Push(r, seqNo, sealed);
            && RingOk(r') && !OverBudget(r')
            && r.lostBelow <= r'.lostBelow <= seqNo && r'.maxFrames == r.maxFrames && r'.maxBytes == r.maxBytes
            && (forall q: nat, d :: Holds(r', q, d) <==>
                  q > r'.lostBelow && (Holds(r, q, d) || (q == seqNo && d == sealed)))
            && (r'.lostBelow != r.lostBelow ==>
                  r'.lostBelow == seqNo || exists d :: Holds(r, r'.lostBelow, d))
  {
    AppendKeeps(r, seqNo, sealed);
    var a := Append(r, seqNo, sealed);
    var k := TrimIsLongestSuffix(a);
    var r' := Push(r, seqNo, sealed);
    forall q: nat, d
      ensures Holds(r', q, d) <==> q > r'.lostBelow && (Holds(r, q, d) || (q == seqNo && d == sealed))
    {
      SuffixHolds(a, r', k, Slot(q, d));
    }
    if k > 0 {
      var s := a.entries[k - 1];
      assert s in a.entries;
      assert s.seqNo == r'.lostBelow;
      assert s == Slot(seqNo, sealed) || Holds(r, s.seqNo, s.sealed);
    }
  }

  lemma SuffixHolds(a: Ring, r: Ring, k: nat, s: Slot)
    requires RingOk(a) && RingOk(r) && k <= |a.entries| && r.entries == a.entries[k..]
    requires r.lostBelow == if k == 0 then a.lostBelow else a.entries[k - 1].seqNo
    ensures s in r.entries <==> s.seqNo > r.lostBelow && s in a.entries
  {
    if s in a.entries && s.seqNo > r.lostBelow {
      var i :| 0 <= i < |a.entries| && a.entries[i] == s;
      assert i >= k;
      assert r.entries[i - k] == s;
    }
  }

  lemma {:induction false} DropKeeps(r: Ring, c: nat) returns (k: nat)
    requires RingOk(r)
    ensures k <= |r.entries| && RingOk(DropAcked(r, c))
    ensures DropAcked(r, c).entries == r.entries[k..]
    ensures DropAcked(r, c).lostBelow == if k == 0 then r.lostBelow else r.entries[k - 1].seqNo
    ensures k > 0 ==> r.entries[k - 1].seqNo <= c
    ensures k < |r.entries| ==> r.entries[k].seqNo > c
    ensures DropAcked(r, c).maxFrames == r.maxFrames && DropAcked(r, c).maxBytes == r.maxBytes
    ensures DropAcked(r, c).bytes <= r.bytes
    decreases |r.entries|
  {
    if r.entries == [] || r.entries[0].seqNo > c {
      k := 0;
    } else {
      EvictKeeps(r);
      var k' := DropKeeps(EvictOldest(r), c);
      k := k' + 1;
      assert r.entries[1..][k'..] == r.entries[k..];
    }
  }

  lemma DropHolds(r: Ring, c: nat)
    requires RingOk(r)
    ensures forall q: nat, x :: Holds(DropAcked(r, c), q, x) <==> Holds(r, q, x) && q > c
  {
    var k := DropKeeps(r, c);
    forall q: nat, x ensures Holds(DropAcked(r, c), q, x) <==> Holds(r, q, x) && q > c {
      AboveAck(r, DropAcked(r, c), k, c, Slot(q, x));
    }
  }

  /** An acknowledgement removes exactly the entries it covers. It also raises the watermark
      that keepalives report, although the source comments call acked frames not lost. */
  lemma AckKeeps(r: Ring, c: nat)
    requires RingOk(r)
    ensures var r' := AckThrough(r, c);
            && RingOk(r') && (!OverBudget(r) ==> !OverBudget(r'))
            && r'.lostBelow == (if r.lostBelow < c then c else r.lostBelow)
            && r'.maxFrames == r.maxFrames && r'.maxBytes == r.maxBytes
            && (forall q: nat, d :: Holds(r', q, d) <==> Holds(r, q, d) && q > c)
  {
    var k := DropKeeps(r, c);
    DropHolds(r, c);
    var d := DropAcked(r, c);
    forall i | 0 <= i < |d.entries| ensures d.entries[i].seqNo > c {
      assert Holds(d, d.entries[i].seqNo, d.entries[i].sealed);
    }
  }

  lemma AboveAck(r: Ring, d: Ring, k: nat, c: nat, s: Slot)
    requires RingOk(r) && k <= |r.entries| && d.entries == r.entries[k..]
    requires k > 0 ==> r.entries[k - 1].seqNo <= c
    requires k < |r.entries| ==> r.entries[k].seqNo > c
    ensures s in d.entries <==> s in r.entries && s.seqNo > c
  {
    if s in d.entries {
      var i :| 0 <= i < |d.entries| && d.entries[i] == s;
      assert r.entries[k + i] == s;
    } else if s in r.entries {
      var i :| 0 <= i < |r.entries| && r.entries[i] == s;
      assert i < k;
    }
  }

  /** Lookup returns the stored datagram exactly when the number is held. */
  lemma {:induction false} FindIsHolds(entries: seq<Slot>, q: nat)
    requires forall i, j :: 0 <= i < j < |entries| ==> entries[i].seqNo < entries[j].seqNo
    ensures forall d :: Find(entries, q) == Some(d) <==> Slot(q, d) in entries
    decreases |entries|
  {
    if entries != [] {
      FindIsHolds(entries[1..], q);
      assert forall s :: s in entries <==> s == entries[0] || s in entries[1..];
      assert forall s :: s in entries[1..] ==> s.seqNo > entries[0].seqNo;
    }
  }
}

/** The ring as the sender holds it. */
module Retrans {
  import opened Types
  import opened RetransSpec

  class RetransRing {
    var entries: seq<Slot>
    var bytes: int
    const maxFrames: nat
    const maxBytes: nat
    var lostBelow: nat

    ghost function View(): (r: Ring)
      reads this
    {
      Ring(entries, bytes, maxFrames, maxBytes, lostBelow)
    }

    constructor (maxFrames: nat, maxBytes: nat)
      ensures View() == NewRing(maxFrames, maxBytes)
    {
      entries, bytes, lostBelow := [], 0, 0;
      this.maxFrames := if maxFrames < 1 then 1 else maxFrames;
      this.maxBytes := if maxBytes < 1 then 1 else maxBytes;
    }

    method EvictOldest() returns (gone: Option<nat>)
      modifies this
      ensures gone == if old(entries) == [] then None else Some(old(entries)[0].seqNo)
      ensures View() == if old(entries) == [] then old(View()) else RetransSpec.EvictOldest(old(View()))
    {
      if entries == [] {
        return None;
      }
      var s := entries[0];
      entries := entries[1..];
      bytes := bytes - s.sealed.Size();
      if lostBelow < s.seqNo {
        lostBelow := s.seqNo;
      }
      gone := Some(s.seqNo);
    }

    method Push(seqNo: nat, sealed: Datagram)
      modifies this
      ensures View() == RetransSpec.Push(old(View()), seqNo, sealed)
    {
      bytes := bytes + sealed.Size();
      entries := entries + [Slot(seqNo, sealed)];
      while |entries| > maxFrames || bytes > maxBytes
        invariant Trim(View()) == RetransSpec.Push(old(View()), seqNo, sealed)
        decreases |entries|
      {
        var gone := EvictOldest();
        if gone.None? {
          break;
        }
      }
    }

    method Get(q: nat) returns (d: Option<Datagram>)
      ensures d == Find(entries, q)
    {
      var i := 0;
      assert entries[0..] == entries;
      while i < |entries|
        invariant 0 <= i <= |entries|
        invariant Find(entries[i..], q) == Find(entries, q)
      {
        assert entries[i..][0] == entries[i] && entries[i..][1..] == entries[i + 1..];
        if entries[i].seqNo == q {
          return Some(entries[i].sealed);
        }
        i := i + 1;
      }
      d := None;
    }

    method AckThrough(contiguous: nat)
      modifies this
      ensures View() == RetransSpec.AckThrough(old(View()), contiguous)
    {
      while |entries| > 0
        invariant DropAcked(View(), contiguous) == DropAcked(old(View()), contiguous)
        decreases |entries|
      {
        if entries[0].seqNo > contiguous {
          break;
        }
        var _ := EvictOldest();
      }
      if lostBelow < contiguous {
        lostBelow := contiguous;
      }
    }
  }
}
