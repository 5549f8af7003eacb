/** The replay window as a set of bit positions, and what it remembers of the counters accepted. */
module ReplaySpec {

  const WIDTH: nat := 1024

  /** Position i stands for counter highest - 1 - i. */
  datatype Window = Window(started: bool, highest: nat, bits: set<nat>)

  const FRESH_WINDOW := Window(false, 0, {})

  function Shifted(bits: set<nat>, shift: nat): (r: set<nat>)
    requires shift >= 1
  {
    if shift >= WIDTH then {}
    else (set j | j in bits && j + shift < WIDTH :: j + shift) + {shift - 1}
  }

  datatype Verdict = Verdict(win: Window, ok: bool)

  function Accept(w: Window, c: nat): (v: Verdict)
  {
    if !w.started then Verdict(w.(started := true, highest := c), true)
    else if c > w.highest then Verdict(w.(highest := c, bits := Shifted(w.bits, c - w.highest)), true)
    else
      var back := w.highest - c;
      if back == 0 || back > WIDTH || back - 1 in w.bits then Verdict(w, false)
      else Verdict(w.(bits := w.bits + {back - 1}), true)
  }

  // ----- history -----

  /** All counters accepted so far, and the one the window has lost sight of, if any: the old
      highest after a jump of exactly WIDTH, until it is accepted again or the window moves on. */
  datatype Hist = Hist(win: Window, accepted: set<nat>, forgotten: set<nat>)

  function Next(h: Hist, c: nat): (h': Hist)
  {
    var v := Accept(h.win, c);
    if !v.ok then h
    else
      Hist(v.win, h.accepted + {c},
           if h.win.started && c > h.win.highest
           then if c == h.win.highest + WIDTH then {h.win.highest} else {}
           else h.forgotten - {c})
  }

  function Exec(cs: seq<nat>): (h: Hist)
    decreases |cs|
  {
    if cs == [] then Hist(FRESH_WINDOW, {}, {}) else Next(Exec(cs[..|cs| - 1]), cs[|cs| - 1])
  }

  /** Bit i is set exactly when counter highest - 1 - i was accepted and not forgotten. */
  ghost predicate Remembers(h: Hist)
  {
    && (h.win.started <==> h.accepted != {})
    && (h.win.started ==> h.win.highest in h.accepted && forall c :: c in h.accepted ==> c <= h.win.highest)
    && (forall i :: i in h.win.bits ==> 0 <= i < WIDTH)
    && (forall i: nat :: i < WIDTH ==>
          (i in h.win.bits <==>
             h.win.highest >= i + 1 && h.win.highest - 1 - i in h.accepted - h.forgotten))
    && (forall f :: f in h.forgotten ==> f in h.accepted && h.win.highest == f + WIDTH)
  }

  lemma RaiseRemembers(h: Hist, c: nat)
    requires Remembers(h) && h.win.started && c > h.win.highest
    ensures Remembers(Next(h, c))
  {
    var h' := Next(h, c);
    var shift := c - h.win.highest;
    forall i: nat | i < WIDTH
      ensures i in h'.win.bits <==> c >= i + 1 && c - 1 - i in h'.accepted - h'.forgotten
    {
      if shift < WIDTH && i >= shift {
        var j: nat := i - shift;
        assert i == j + shift;
        assert i in h'.win.bits <==> j in h.win.bits;
        assert c - 1 - i == h.win.highest - 1 - (i - shift);
      }
    }
  }

  lemma NextRemembers(h: Hist, c: nat)
    requires Remembers(h)
    ensures Remembers(Next(h, c))
  {
    if h.win.started && c > h.win.highest {
      RaiseRemembers(h, c);
    }
  }

  lemma {:induction false} WindowRemembers(cs: seq<nat>)
    ensures Remembers(Exec(cs))
    decreases |cs|
  {
    if cs != [] {
      WindowRemembers(cs[..|cs| - 1]);
      NextRemembers(Exec(cs[..|cs| - 1]), cs[|cs| - 1]);
    }
  }

  /** After any run, a counter already accepted is accepted once more exactly when it is the
      forgotten one. */
  lemma AcceptedTwiceIff(cs: seq<nat>, c: nat)
    ensures var h := Exec(cs);
            Accept(h.win, c).ok && c in h.accepted <==> c in h.forgotten
  {
    WindowRemembers(cs);
    var h := Exec(cs);
    if c in h.accepted && c < h.win.highest {
      assert h.win.highest - 1 - (h.win.highest - c - 1) == c;
    }
  }

  /** No accepted counter of the run was above the previous highest by exactly WIDTH. */
  ghost predicate NoExactJump(cs: seq<nat>)
  {
    forall n :: 0 <= n < |cs| ==> !(Exec(cs[..n]).win.started && cs[n] == Exec(cs[..n]).win.highest + WIDTH)
  }

  lemma {:induction false} NothingForgotten(cs: seq<nat>)
    requires NoExactJump(cs)
    ensures Exec(cs).forgotten == {}
    decreases |cs|
  {
    if cs != [] {
      var before := cs[..|cs| - 1];
      forall n | 0 <= n < |before|
        ensures !(Exec(before[..n]).win.started && before[n] == Exec(before[..n]).win.highest + WIDTH)
      {
        assert before[..n] == cs[..n];
      }
      NothingForgotten(before);
      assert cs[..|cs| - 1] == before;
    }
  }

  /** Without such a jump the window is a plain set: a counter is accepted exactly when it is
      new and not more than WIDTH below the highest, so none is ever accepted twice. */
  lemma WindowIsSet(cs: seq<nat>, c: nat)
    requires NoExactJump(cs)
    ensures var h := Exec(cs);
            Accept(h.win, c).ok <==> c !in h.accepted && (h.accepted == {} || c + 1024 >= h.win.highest)
  {
    WindowRemembers(cs);
    NothingForgotten(cs);
    AcceptsNew(Exec(cs), c);
  }

  lemma AcceptsNew(h: Hist, c: nat)
    requires Remembers(h) && h.forgotten == {}
    ensures Accept(h.win, c).ok <==> c !in h.accepted && (h.accepted == {} || c + WIDTH >= h.win.highest)
  {
    if c < h.win.highest {
      assert h.win.highest - 1 - (h.win.highest - c - 1) == c;
    }
  }

  /** The exclusion is needed: h, h + WIDTH, h accepts h twice, whatever h is. */
  lemma ExactJumpRepeats(h: nat)
    ensures Accept(Exec([h, h + 1024]).win, h).ok && h in Exec([h, h + 1024]).accepted
  {
    var cs := [h, h + WIDTH];
    assert cs[..1] == [h] && cs[..1][..0] == [];
    assert Exec([h]) == Next(Exec([]), h);
    assert Exec(cs) == Next(Exec([h]), h + WIDTH);
  }
}

/** 64-bit words and their bits. The machine operations are tied to bit sequences here, one
    operation at a time; everything above works on the sequences. */
module Bits64 {

  /** A bit position, in the width the shifter takes. */
  function Pos(n: nat): (r: bv7)
  {
    if n == 0 then 0 else Pos(n - 1) + 1
  }

  lemma Inc(x: bv7)
    requires x as int < 64
    ensures (x + 1) as int == x as int + 1
  {
  }

  lemma Less(i: bv7, j: bv7)
    requires i as int < j as int
    ensures i < j
  {
  }

  lemma Same(i: bv7, j: bv7)
    requires i as int == j as int
    ensures i == j
  {
  }

  lemma {:induction false} PosValue(n: nat)
    requires n <= 64
    ensures Pos(n) as int == n
  {
    if n > 0 {
      PosValue(n - 1);
      Inc(Pos(n - 1));
    }
  }

  lemma PosLess(i: nat, j: nat)
    requires i < j <= 64
    ensures Pos(i) < Pos(j)
  {
    PosValue(i);
    PosValue(j);
    Less(Pos(i), Pos(j));
  }

  lemma PosSmall(i: nat)
    requires i < 64
    ensures Pos(i) < 64
  {
    PosValue(i);
    Less(Pos(i), 64);
  }

  lemma PosBelowTop(i: nat)
    requires i < 63
    ensures Pos(i) < 63
  {
    PosValue(i);
    Less(Pos(i), 63);
  }

  /** w << n, as n single shifts. */
  function Shl(w: bv64, n: nat): (r: bv64)
  {
    if n == 0 then w else Shl(w, n - 1) << 1
  }

  /** w >> n, as n single shifts. */
  function Shr(w: bv64, n: nat): (r: bv64)
  {
    if n == 0 then w else Shr(w, n - 1) >> 1
  }

  /** The word is w << i, respectively w >> i. */
  predicate IsUp(w: bv64, r: bv64, i: bv7)
  {
    i < 64 && r == w << i
  }

  predicate IsDown(w: bv64, r: bv64, i: bv7)
  {
    i < 64 && r == w >> i
  }

  lemma UpEven(w: bv64, r: bv64, i: bv7)
    requires i < 63 && i & 1 == 0 && r == w << i
    ensures i + 1 < 64 && r << 1 == w << (i + 1)
  {
  }

  lemma UpOdd(w: bv64, r: bv64, i: bv7)
    requires i < 63 && i & 1 == 1 && r == w << i
    ensures i + 1 < 64 && r << 1 == w << (i + 1)
  {
  }

  lemma UpOnce(w: bv64, r: bv64, i: bv7)
    requires IsUp(w, r, i) && i < 63
    ensures IsUp(w, r << 1, i + 1)
  {
    if i & 1 == 0 {
      UpEven(w, r, i);
    } else {
      assert i & 1 == 1;
      UpOdd(w, r, i);
    }
  }

  lemma DownEven(w: bv64, r: bv64, i: bv7)
    requires i < 63 && i & 1 == 0 && r == w >> i
    ensures i + 1 < 64 && r >> 1 == w >> (i + 1)
  {
  }

  lemma DownOdd(w: bv64, r: bv64, i: bv7)
    requires i < 63 && i & 1 == 1 && r == w >> i
    ensures i + 1 < 64 && r >> 1 == w >> (i + 1)
  {
  }

  lemma DownOnce(w: bv64, r: bv64, i: bv7)
    requires IsDown(w, r, i) && i < 63
    ensures IsDown(w, r >> 1, i + 1)
  {
    if i & 1 == 0 {
      DownEven(w, r, i);
    } else {
      assert i & 1 == 1;
      DownOdd(w, r, i);
    }
  }

  lemma ShlNext(w: bv64, n: nat)
    ensures Shl(w, n) << 1 == Shl(w, n + 1) && Pos(n) + 1 == Pos(n + 1)
  {
  }

  lemma ShlStep(w: bv64, n: nat, r: bv64, i: bv7)
    requires IsUp(w, r, i) && i < 63 && r == Shl(w, n) && i == Pos(n)
    ensures IsUp(w, Shl(w, n + 1), Pos(n + 1))
  {
    UpOnce(w, r, i);
    ShlNext(w, n);
  }

  lemma ShrNext(w: bv64, n: nat)
    ensures Shr(w, n) >> 1 == Shr(w, n + 1) && Pos(n) + 1 == Pos(n + 1)
  {
  }

  lemma ShrStep(w: bv64, n: nat, r: bv64, i: bv7)
    requires IsDown(w, r, i) && i < 63 && r == Shr(w, n) && i == Pos(n)
    ensures IsDown(w, Shr(w, n + 1), Pos(n + 1))
  {
    DownOnce(w, r, i);
    ShrNext(w, n);
  }

  /** The single shifts add up to the machine's shift by n. */
  lemma {:induction false} ShlIsShift(w: bv64, n: nat)
    requires n < 64
    ensures IsUp(w, Shl(w, n), Pos(n))
    decreases n
  {
    if n > 0 {
      ShlIsShift(w, n - 1);
      PosBelowTop(n - 1);
      ShlStep(w, n - 1, Shl(w, n - 1), Pos(n - 1));
    }
  }

  lemma {:induction false} ShrIsShift(w: bv64, n: nat)
    requires n < 64
    ensures IsDown(w, Shr(w, n), Pos(n))
    decreases n
  {
    if n > 0 {
      ShrIsShift(w, n - 1);
      PosBelowTop(n - 1);
      ShrStep(w, n - 1, Shr(w, n - 1), Pos(n - 1));
    }
  }

  predicate At(w: bv64, i: bv7)
    requires i < 64
  {
    (w >> i) & 1 == 1
  }

  predicate Bit(w: bv64, i: nat)
    requires i < 64
  {
    PosSmall(i);
    At(w, Pos(i))
  }

  lemma UpAt(w: bv64, i: bv7)
    requires i < 63
    ensures At(w << 1, i + 1) == At(w, i)
  {
  }

  lemma DownAt(w: bv64, i: bv7)
    requires i < 63
    ensures At(w >> 1, i) == At(w, i + 1)
  {
  }

  lemma UpBit(w: bv64, i: nat)
    requires i < 64
    ensures Bit(w << 1, i) == (i >= 1 && Bit(w, i - 1))
  {
    if i >= 1 {
      PosSmall(i);
      PosValue(i - 1);
      Less(Pos(i - 1), 63);
      UpAt(w, Pos(i - 1));
    }
  }

  lemma DownBit(w: bv64, i: nat)
    requires i < 64
    ensures Bit(w >> 1, i) == (i + 1 < 64 && Bit(w, i + 1))
  {
    PosValue(i);
    if i == 63 {
      Same(Pos(63), 63);
    } else {
      PosSmall(i + 1);
      Less(Pos(i), 63);
      DownAt(w, Pos(i));
    }
  }

  lemma {:induction false} ShlBit(w: bv64, n: nat, i: nat)
    requires i < 64
    ensures Bit(Shl(w, n), i) == (i >= n && Bit(w, i - n))
    decreases n
  {
    if n > 0 {
      UpBit(Shl(w, n - 1), i);
      if i >= 1 {
        ShlBit(w, n - 1, i - 1);
      }
    }
  }

  lemma ShrBitNext(w: bv64, n: nat, i: nat)
    requires n > 0 && i < 64
    requires i < 63 ==> Bit(Shr(w, n - 1), i + 1) == (i + n < 64 && Bit(w, i + n))
    ensures Bit(Shr(w, n), i) == (i + n < 64 && Bit(w, i + n))
  {
    DownBit(Shr(w, n - 1), i);
  }

  lemma {:induction false} ShrBit(w: bv64, n: nat, i: nat)
    requires i < 64
    ensures Bit(Shr(w, n), i) == (i + n < 64 && Bit(w, i + n))
    decreases n
  {
    if n > 0 {
      if i < 63 {
        ShrBit(w, n - 1, i + 1);
      }
      ShrBitNext(w, n, i);
    }
  }

  lemma OrAt(w: bv64, p: bv64, i: bv7)
    requires i < 64
    ensures At(w | p, i) == (At(w, i) || At(p, i))
  {
  }

  lemma OrBit(w: bv64, p: bv64, i: nat)
    requires i < 64
    ensures Bit(w | p, i) == (Bit(w, i) || Bit(p, i))
  {
    PosSmall(i);
    OrAt(w, p, Pos(i));
  }

  lemma ZeroAt(i: bv7)
    requires i < 64
    ensures !At(0, i)
  {
  }

  lemma OneAt(i: bv7)
    requires i < 64
    ensures At(1, i) == (i == 0)
  {
  }

  lemma UnitBit(k: nat, i: nat)
    requires k < 64 && i < 64
    ensures Bit(Shl(1, k), i) == (i == k)
  {
    ShlBit(1, k, i);
    if i >= k {
      PosSmall(i - k);
      OneAt(Pos(i - k));
      if i > k {
        PosLess(0, i - k);
      }
    }
  }

  lemma MaskDown(w: bv64, m: bv64)
    ensures (w & (m << 1) != 0) == ((w >> 1) & m != 0)
  {
  }

  lemma LowMask(w: bv64)
    ensures (w & 1 != 0) == At(w, 0)
  {
  }

  lemma {:induction false} MaskBit(w: bv64, k: nat)
    requires k < 64
    ensures (w & Shl(1, k) != 0) == Bit(w, k)
    decreases k
  {
    if k == 0 {
      LowMask(w);
    } else {
      MaskDown(w, Shl(1, k - 1));
      MaskBit(w >> 1, k - 1);
      DownBit(w, k - 1);
    }
  }

  // ----- words as bit sequences -----

  type Bits = v: seq<bool> | |v| == 64 witness seq(64, _ => false)

  /** The low n bits of a word. */
  ghost function LowBits(w: bv64, n: nat): (v: seq<bool>)
    requires n <= 64
    ensures |v| == n
  {
    if n == 0 then [] else LowBits(w, n - 1) + [Bit(w, n - 1)]
  }

  ghost function BitsOf(w: bv64): (v: Bits)
  {
    LowBits(w, 64)
  }

  lemma {:induction false} LowBitsAt(w: bv64, n: nat, i: nat)
    requires i < n <= 64
    ensures LowBits(w, n)[i] == Bit(w, i)
    decreases n
  {
    if i < n - 1 {
      LowBitsAt(w, n - 1, i);
    }
  }

  lemma BitsAt(w: bv64, i: nat)
    requires i < 64
    ensures BitsOf(w)[i] == Bit(w, i)
  {
    LowBitsAt(w, 64, i);
  }

  function Zero(): (r: Bits)
  {
    seq(64, _ => false)
  }

  function Up(v: Bits, n: nat): (r: Bits)
  {
    seq(64, i requires 0 <= i < 64 => i >= n && v[i - n])
  }

  function Down(v: Bits, n: nat): (r: Bits)
  {
    seq(64, i requires 0 <= i < 64 => i + n < 64 && v[i + n])
  }

  function Or(v: Bits, u: Bits): (r: Bits)
  {
    seq(64, i requires 0 <= i < 64 => v[i] || u[i])
  }

  lemma BitsZero()
    ensures BitsOf(0) == Zero()
  {
    forall i: nat | i < 64 ensures !BitsOf(0)[i] {
      BitsAt(0, i);
      PosSmall(i);
      ZeroAt(Pos(i));
    }
  }

  lemma BitsShl(w: bv64, n: nat)
    ensures BitsOf(Shl(w, n)) == Up(BitsOf(w), n)
  {
    forall i: nat | i < 64 ensures BitsOf(Shl(w, n))[i] == Up(BitsOf(w), n)[i] {
      ShlBit(w, n, i);
      BitsAt(Shl(w, n), i);
      if i >= n {
        BitsAt(w, i - n);
      }
    }
  }

  lemma BitsShr(w: bv64, n: nat)
    ensures BitsOf(Shr(w, n)) == Down(BitsOf(w), n)
  {
    forall i: nat | i < 64 ensures BitsOf(Shr(w, n))[i] == Down(BitsOf(w), n)[i] {
      ShrBit(w, n, i);
      BitsAt(Shr(w, n), i);
      if i + n < 64 {
        BitsAt(w, i + n);
      }
    }
  }

  lemma BitsOr(w: bv64, p: bv64)
    ensures BitsOf(w | p) == Or(BitsOf(w), BitsOf(p))
  {
    forall i: nat | i < 64 ensures BitsOf(w | p)[i] == Or(BitsOf(w), BitsOf(p))[i] {
      OrBit(w, p, i);
      BitsAt(w | p, i);
      BitsAt(w, i);
      BitsAt(p, i);
    }
  }

  lemma BitsUnit(k: nat)
    requires k < 64
    ensures BitsOf(Shl(1, k)) == Zero()[k := true]
  {
    forall i: nat | i < 64 ensures BitsOf(Shl(1, k))[i] == Zero()[k := true][i] {
      UnitBit(k, i);
      BitsAt(Shl(1, k), i);
    }
  }

  lemma BitsMask(w: bv64, k: nat)
    requires k < 64
    ensures (w & Shl(1, k) != 0) == BitsOf(w)[k]
  {
    MaskBit(w, k);
    BitsAt(w, k);
  }
}

/** Sixteen words in a row, read as 1024 bits. */
module BitRows {
  import opened ReplaySpec
  import opened Bits64

  const WORDS: nat := 16

  type Row = ws: seq<bv64> | |ws| == WORDS witness seq(WORDS, _ => 0)

  /** Bit k of the row. */
  ghost predicate Has(ws: Row, k: nat)
    requires k < WIDTH
  {
    BitsOf(ws[k / 64])[k % 64]
  }

  ghost function BitSet(ws: Row): (r: set<nat>)
  {
    set k: nat | k < WIDTH && Has(ws, k)
  }

  /** Whole words moved up by n. */
  ghost predicate WordsUp(ws: Row, ws': Row, n: nat)
  {
    forall i :: 0 <= i < WORDS ==> ws'[i] == Below(ws, i, n)
  }

  /** The word n places below word i, empty past the bottom. */
  ghost function Below(ws: Row, i: nat, n: nat): (w: bv64)
    requires i < WORDS
  {
    if i >= n then ws[i - n] else 0
  }

  /** Each word shifted by b, the word below carried in. */
  ghost predicate BitsUp(ws: Row, ws': Row, b: nat)
    requires b < 64
  {
    forall i :: 0 <= i < WORDS ==> WordUp(ws, ws'[i], i, b)
  }

  ghost predicate WordUp(ws: Row, w: bv64, i: nat, b: nat)
    requires i < WORDS && b < 64
  {
    BitsOf(w) == Or(Up(BitsOf(ws[i]), b), CarryInto(ws, i, b))
  }

  ghost function CarryInto(ws: Row, i: nat, b: nat): (v: Bits)
    requires i <= WORDS && b < 64
  {
    if i > 0 then Down(BitsOf(ws[i - 1]), 64 - b) else Zero()
  }

  /** Every bit moved by `shift`. */
  ghost predicate Moved(ws: Row, ws': Row, shift: nat)
  {
    forall k: nat :: k < WIDTH ==> BitMoved(ws, ws', k, shift)
  }

  ghost predicate BitMoved(ws: Row, ws': Row, k: nat, shift: nat)
    requires k < WIDTH
  {
    Has(ws', k) <==> k >= shift && Has(ws, k - shift)
  }

  /** Moving whole words up moves every bit by 64 per word. */
  lemma WordsMoved(ws: Row, ws': Row, n: nat)
    requires WordsUp(ws, ws', n)
    ensures Moved(ws, ws', 64 * n)
  {
    BitsZero();
    forall k: nat | k < WIDTH ensures BitMoved(ws, ws', k, 64 * n) {
      assert ws'[k / 64] == Below(ws, k / 64, n);
      if k >= 64 * n {
        assert (k - 64 * n) / 64 == k / 64 - n && (k - 64 * n) % 64 == k % 64;
      }
    }
  }

  /** Shifting each word with carry moves every bit by b. */
  lemma BitsMoved(ws: Row, ws': Row, b: nat)
    requires 0 < b < 64 && BitsUp(ws, ws', b)
    ensures Moved(ws, ws', b)
  {
    forall k: nat | k < WIDTH ensures BitMoved(ws, ws', k, b) {
      CarriedBit(ws, ws', b, k);
    }
  }

  lemma CarriedBit(ws: Row, ws': Row, b: nat, k: nat)
    requires k < WIDTH && 0 < b < 64 && BitsUp(ws, ws', b)
    ensures BitMoved(ws, ws', k, b)
  {
    var w, i := k / 64, k % 64;
    assert WordUp(ws, ws'[w], w, b);
    CarriedInWord(ws, ws'[w], w, i, b);
    if i >= b {
      assert (k - b) / 64 == w && (k - b) % 64 == i - b;
    } else if w > 0 {
      assert (k - b) / 64 == w - 1 && (k - b) % 64 == 64 - b + i;
    }
  }

  lemma CarriedInWord(ws: Row, w': bv64, w: nat, i: nat, b: nat)
    requires w < WORDS && i < 64 && 0 < b < 64 && WordUp(ws, w', w, b)
    ensures BitsOf(w')[i] <==>
            if i >= b then BitsOf(ws[w])[i - b] else w > 0 && BitsOf(ws[w - 1])[64 - b + i]
  {
  }

  /** Two moves make one. */
  lemma MovedTwice(ws: Row, mid: Row, ws': Row, m: nat, n: nat)
    requires Moved(ws, mid, m) && Moved(mid, ws', n)
    ensures Moved(ws, ws', m + n)
  {
    var both := m + n;
    forall k: nat | k < WIDTH ensures BitMoved(ws, ws', k, both) {
      assert BitMoved(mid, ws', k, n);
      if k >= n {
        assert BitMoved(ws, mid, k - n, m);
      }
    }
  }

  lemma NotMoved(ws: Row)
    ensures Moved(ws, ws, 0)
  {
    forall k: nat | k < WIDTH ensures BitMoved(ws, ws, k, 0) {
    }
  }

  /** The set of bits after such a move, plus the old highest, is the shifted set. */
  lemma MovedSet(ws: Row, ws': Row, shift: nat)
    requires 1 <= shift < WIDTH && Moved(ws, ws', shift)
    ensures BitSet(ws') + {shift - 1} == Shifted(BitSet(ws), shift)
  {
    var bits := BitSet(ws);
    var moved := set j | j in bits && j + shift < WIDTH :: j + shift;
    forall k: nat ensures k in BitSet(ws') <==> k in moved {
      if k < WIDTH {
        assert BitMoved(ws, ws', k, shift);
      }
      if k in BitSet(ws') {
        assert k - shift in bits && k == (k - shift) + shift;
      }
    }
    assert BitSet(ws') == moved;
  }

  lemma BitAdded(ws: Row, ws': Row, bit: nat)
    requires bit < WIDTH
    requires BitsOf(ws'[bit / 64]) == Or(BitsOf(ws[bit / 64]), Zero()[bit % 64 := true])
    requires forall i :: 0 <= i < WORDS && i != bit / 64 ==> ws'[i] == ws[i]
    ensures BitSet(ws') == BitSet(ws) + {bit}
  {
    forall k: nat | k < WIDTH ensures Has(ws', k) <==> Has(ws, k) || k == bit {
      if k / 64 != bit / 64 {
        assert ws'[k / 64] == ws[k / 64];
      }
    }
  }
}

/** The window as it is held: sixteen words updated in place. */
module Replay {
  import opened ReplaySpec
  import opened Bits64
  import opened BitRows

  /** One step of the carry loop: shift the word up, take the carry in, pass the next one on. */
  method ShiftWord(w: bv64, carry: bv64, b: nat) returns (r: bv64, next: bv64)
    requires 0 < b < 64
    ensures BitsOf(r) == Or(Up(BitsOf(w), b), BitsOf(carry))
    ensures BitsOf(next) == Down(BitsOf(w), 64 - b)
  {
    next := Shr(w, 64 - b);
    BitsShr(w, 64 - b);
    var up := Shl(w, b);
    BitsShl(w, b);
    r := up | carry;
    BitsOr(up, carry);
  }

  method SetInWord(w: bv64, k: nat) returns (r: bv64)
    requires k < 64
    ensures BitsOf(r) == Or(BitsOf(w), Zero()[k := true])
  {
    var unit := Shl(1, k);
    BitsUnit(k);
    r := w | unit;
    BitsOr(w, unit);
  }

  method TestInWord(w: bv64, k: nat) returns (r: bool)
    requires k < 64
    ensures r == BitsOf(w)[k]
  {
    r := w & Shl(1, k) != 0;
    BitsMask(w, k);
  }

  class ReplayWindow {
    var highest: nat
    const seen: array<bv64>
    var started: bool

    ghost predicate Valid()
    {
      seen.Length == WORDS
    }

    ghost function Seen(): (bits: set<nat>)
      requires Valid()
      reads seen
    {
      BitSet(seen[..])
    }

    ghost function View(): (w: Window)
      requires Valid()
      reads this, seen
    {
      Window(started, highest, Seen())
    }

    constructor ()
      ensures Valid() && fresh(seen) && View() == FRESH_WINDOW
    {
      highest, started := 0, false;
      seen := new bv64[WORDS](_ => 0);
      new;
      BitsZero();
    }

    method Set(bit: nat)
      requires Valid()
      modifies seen
      ensures Seen() == if bit < WIDTH then old(Seen()) + {bit} else old(Seen())
    {
      if bit >= WIDTH {
        return;
      }
      ghost var before := seen[..];
      var w := SetInWord(seen[bit / 64], bit % 64);
      seen[bit / 64] := w;
      BitAdded(before, seen[..], bit);
    }

    method Get(bit: nat) returns (r: bool)
      requires Valid()
      ensures r == (bit in Seen())
    {
      if bit >= WIDTH {
        return false;
      }
      r := TestInWord(seen[bit / 64], bit % 64);
      assert r == Has(seen[..], bit);
    }

    /** The word loop of `shift_by`, from the top down. */
    method MoveWords(n: nat)
      requires Valid()
      modifies seen
      ensures Moved(old(seen[..]), seen[..], 64 * n)
    {
      ghost var ws := seen[..];
      var i := WORDS;
      while i > 0
        invariant 0 <= i <= WORDS
        invariant forall j :: i <= j < WORDS ==> seen[j] == Below(ws, j, n)
        invariant forall j :: 0 <= j < i ==> seen[j] == ws[j]
      {
        i := i - 1;
        seen[i] := if i >= n then seen[i - n] else 0;
      }
      WordsMoved(ws, seen[..], n);
    }

    /** The bit loop of `shift_by`, from the bottom up, with the carry. */
    method MoveBits(b: nat)
      requires Valid() && 0 < b < 64
      modifies seen
      ensures Moved(old(seen[..]), seen[..], b)
    {
      ghost var ws := seen[..];
      var carry: bv64 := 0;
      BitsZero();
      var i := 0;
      while i < WORDS
        invariant 0 <= i <= WORDS
        invariant BitsOf(carry) == CarryInto(ws, i, b)
        invariant forall j :: 0 <= j < i ==> WordUp(ws, seen[j], j, b)
        invariant forall j :: i <= j < WORDS ==> seen[j] == ws[j]
      {
        var w, next := ShiftWord(seen[i], carry, b);
        seen[i] := w;
        carry := next;
        i := i + 1;
      }
      BitsMoved(ws, seen[..], b);
    }

    method Clear()
      requires Valid()
      modifies seen
      ensures Seen() == {}
    {
      for i := 0 to WORDS
        invariant forall j :: 0 <= j < i ==> seen[j] == 0
      {
        seen[i] := 0;
      }
      BitsZero();
    }

    /** Both loops of `shift_by`. */
    method MoveAll(words: nat, bits: nat)
      requires Valid() && bits < 64
      modifies seen
      ensures Moved(old(seen[..]), seen[..], 64 * words + bits)
    {
      NotMoved(seen[..]);
      if words > 0 {
        MoveWords(words);
      }
      ghost var mid := seen[..];
      NotMoved(mid);
      if bits > 0 {
        MoveBits(bits);
      }
      MovedTwice(old(seen[..]), mid, seen[..], 64 * words, bits);
    }

    method ShiftBy(shift: nat)
      requires Valid() && shift >= 1
      modifies seen
      ensures Seen() == Shifted(old(Seen()), shift)
    {
      if shift >= WIDTH {
        Clear();
        return;
      }
      MoveAll(shift / 64, shift % 64);
      MovedSet(old(seen[..]), seen[..], shift);
      if shift - 1 < WIDTH {
        Set(shift - 1);
      }
    }

    method Accept(counter: nat) returns (ok: bool)
      requires Valid()
      modifies this, seen
      ensures ReplaySpec.Accept(old(View()), counter) == Verdict(View(), ok)
    {
      if !started {
        started := true;
        highest := counter;
        return true;
      }
      if counter > highest {
        ShiftBy(counter - highest);
        highest := counter;
        return true;
      }
      var back := highest - counter;
      if back == 0 || back > WIDTH {
        return false;
      }
      var have := Get(back - 1);
      if have {
        return false;
      }
      Set(back - 1);
      return true;
    }
  }
}
