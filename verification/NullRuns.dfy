/**
 The committed activation in geometric form: the maximal aligned blocks on which an
 algorithm is inactive, their canonical bytes, and the combined root that commits them.
 */
module NullRuns {
  import opened Base
  import opened Topology
  import opened Spine
  import opened Epochs
  import opened Mountain

  // ------------------------------------------------------------------ specification

  /** The end of the inactive stretch that starts at `left`. */
  function NextActive(es: seq<Epoch>, n: nat, left: nat): (r: nat)
    requires left <= n
    ensures left <= r <= n
    ensures forall i :: left <= i < r ==> !ActiveAt(es, i)
    ensures r < n ==> ActiveAt(es, r)
    decreases n - left
  {
    if left == n || ActiveAt(es, left) then left else NextActive(es, n, left + 1)
  }

  predicate Fits(k: Arity, left: nat, h: nat, right: nat) {
    Aligned(k, Coord(left, h)) && left + Pow(k, h) <= right
  }

  /** The tallest aligned block at `left` that stays below `right`, starting from height `h`. */
  function Grow(k: Arity, left: nat, right: nat, h: nat): (r: nat)
    requires Fits(k, left, h, right)
    ensures r >= h && Fits(k, left, r, right) && !Fits(k, left, r + 1, right)
    decreases right - Pow(k, h)
  {
    PowGrows(k, h);
    if Fits(k, left, h + 1, right) then Grow(k, left, right, h + 1) else h
  }

  lemma PowGrows(k: Arity, h: nat)
    ensures Pow(k, h) < Pow(k, h + 1)
  {
    TimesComm(k, Pow(k, h));
    TimesGap(Pow(k, h), 1, k);
  }

  /** Greedy decomposition of the inactive gap `[left, right)`. */
  function Decompose(k: Arity, left: nat, right: nat): seq<Coord>
    decreases right - left
  {
    if left >= right then []
    else
      var c := Coord(left, Grow(k, left, right, 0));
      [c] + Decompose(k, End(k, c), right)
  }

  /** The position-by-position scan: every inactive stretch, decomposed in turn. */
  function Scan(k: Arity, es: seq<Epoch>, n: nat, left: nat): seq<Coord>
    decreases n - left
  {
    if left >= n then []
    else if ActiveAt(es, left) then Scan(k, es, n, left + 1)
    else
      var right := NextActive(es, n, left);
      Decompose(k, left, right) + Scan(k, es, n, right)
  }

  function NullRunsOf(k: Arity, es: seq<Epoch>, n: nat): seq<Coord> { Scan(k, es, n, 0) }

  // ------------------------------------------------------------------ the interval algorithm

  predicate Before(a: Epoch, b: Epoch) { a.start < b.start || (a.start == b.start && a.end <= b.end) }

  ghost predicate Sorted(es: seq<Epoch>) {
    forall i, j :: 0 <= i < j < |es| ==> Before(es[i], es[j])
  }

  /** Insertion into a sorted list, the order `sort_unstable` leaves pairs in. */
  method InsertSorted(es: seq<Epoch>, e: Epoch) returns (r: seq<Epoch>)
    requires Sorted(es)
    ensures Sorted(r) && |r| == |es| + 1
    ensures forall x :: x in r <==> x in es || x == e
  {
    var p := 0;
    while p < |es| && Before(es[p], e)
      invariant p <= |es|
      invariant forall i :: 0 <= i < p ==> Before(es[i], e)
    {
      p := p + 1;
    }
    r := es[..p] + [e] + es[p..];
  }

  /** Sorted, nonempty, clipped to `[0, n)`, and with the same activity there. */
  method ClipAndSort(eps: seq<Epoch>, n: nat) returns (r: seq<Epoch>)
    ensures Sorted(r)
    ensures forall x :: x in r ==> x.start < x.end <= n
    ensures forall i :: 0 <= i < n ==> (ActiveAt(r, i) <==> ActiveAt(eps, i))
  {
    r := [];
    for p := 0 to |eps|
      invariant Sorted(r)
      invariant forall x :: x in r ==> x.start < x.end <= n
      invariant forall i :: 0 <= i < n ==> (ActiveAt(r, i) <==> ActiveAt(eps[..p], i))
    {
      var s := if eps[p].start < n then eps[p].start else n;
      var e := if eps[p].end < n then eps[p].end else n;
      ghost var before := r;
      if s < e {
        r := InsertSorted(r, Epoch(s, e));
      }
      forall i | 0 <= i < n
        ensures ActiveAt(r, i) <==> ActiveAt(eps[..p + 1], i)
      {
        ActiveIn(r, i);
        ActiveIn(before, i);
        ActiveIn(eps[..p], i);
        ActiveIn(eps[..p + 1], i);
        assert eps[..p + 1] == eps[..p] + [eps[p]];
        assert s < e && s <= i < e <==> eps[p].start <= i < eps[p].end;
      }
    }
    assert eps[..|eps|] == eps;
  }

  lemma ActiveIn(es: seq<Epoch>, i: nat)
    ensures ActiveAt(es, i) <==> exists x :: x in es && x.start <= i < x.end
  {
    if exists x :: x in es && x.start <= i < x.end {
      var x :| x in es && x.start <= i < x.end;
      var j :| 0 <= j < |es| && es[j] == x;
      assert es[j].start <= i < es[j].end;
    }
  }

  /** Disjoint nonempty intervals with a gap between neighbours. */
  ghost predicate Gapped(es: seq<Epoch>, n: nat) {
    && (forall i :: 0 <= i < |es| ==> es[i].start < es[i].end <= n)
    && (forall i, j :: 0 <= i < j < |es| ==> es[i].end < es[j].start)
  }

  /** Merges sorted intervals that overlap or touch. */
  method Merge(active: seq<Epoch>, n: nat) returns (merged: seq<Epoch>)
    requires Sorted(active)
    requires forall x :: x in active ==> x.start < x.end <= n
    ensures Gapped(merged, n)
    ensures forall i :: 0 <= i < n ==> (ActiveAt(merged, i) <==> ActiveAt(active, i))
  {
    hide ActiveAt;
    merged := [];
    NoneActive();
    for p := 0 to |active|
      invariant Gapped(merged, n)
      invariant p == 0 ==> merged == []
      invariant p > 0 ==> |merged| > 0 && merged[|merged| - 1].start <= active[p - 1].start
      invariant forall i: nat :: ActiveAt(merged, i) <==> ActiveAt(active[..p], i)
    {
      var e := active[p];
      assert e in active;
      ghost var before := merged;
      if |merged| > 0 && e.start <= merged[|merged| - 1].end {
        var last := merged[|merged| - 1];
        merged := merged[..|merged| - 1] + [Epoch(last.start, if last.end < e.end then e.end else last.end)];
      } else {
        merged := merged + [e];
      }
      forall i: nat
        ensures ActiveAt(merged, i) <==> ActiveAt(active[..p + 1], i)
      {
        assert active[..p + 1] == active[..p] + [e];
        ActivePush(active[..p], e, i);
        MergeStep(before, e, i);
      }
    }
    assert active[..|active|] == active;
  }

  lemma NoneActive()
    ensures forall i :: !ActiveAt([], i)
  {
  }

  lemma ActivePush(es: seq<Epoch>, e: Epoch, i: nat)
    ensures ActiveAt(es + [e], i) <==> ActiveAt(es, i) || e.start <= i < e.end
  {
    if ActiveAt(es, i) {
      var j :| 0 <= j < |es| && es[j].start <= i < es[j].end;
      assert (es + [e])[j].start <= i < (es + [e])[j].end;
    }
    if e.start <= i < e.end {
      assert (es + [e])[|es|].start <= i < (es + [e])[|es|].end;
    }
  }

  lemma MergeStep(merged: seq<Epoch>, e: Epoch, i: nat)
    requires forall j :: 0 <= j < |merged| ==> merged[j].start < merged[j].end
    requires |merged| > 0 ==> merged[|merged| - 1].start <= e.start
    ensures |merged| > 0 && e.start <= merged[|merged| - 1].end ==>
              var last := merged[|merged| - 1];
              ActiveAt(merged[..|merged| - 1] + [Epoch(last.start, if last.end < e.end then e.end else last.end)], i)
              <==> ActiveAt(merged, i) || e.start <= i < e.end
    ensures ActiveAt(merged + [e], i) <==> ActiveAt(merged, i) || e.start <= i < e.end
  {
    ActivePush(merged, e, i);
    if |merged| > 0 {
      var init, last := merged[..|merged| - 1], merged[|merged| - 1];
      assert merged == init + [last];
      ActivePush(init, last, i);
      ActivePush(init, Epoch(last.start, if last.end < e.end then e.end else last.end), i);
    }
  }

  lemma {:induction false} ScanActive(k: Arity, es: seq<Epoch>, n: nat, s: nat, e: nat)
    requires s <= e <= n
    requires forall i :: s <= i < e ==> ActiveAt(es, i)
    ensures Scan(k, es, n, s) == Scan(k, es, n, e)
    decreases e - s
  {
    hide ActiveAt, Decompose;
    if s < e {
      ScanActive(k, es, n, s + 1, e);
    }
  }

  lemma ScanGap(k: Arity, es: seq<Epoch>, n: nat, s: nat, e: nat)
    requires s <= e <= n && (e < n ==> ActiveAt(es, e))
    requires forall i :: s <= i < e ==> !ActiveAt(es, i)
    ensures Scan(k, es, n, s) == Decompose(k, s, e) + Scan(k, es, n, e)
  {
    hide ActiveAt;
    if s == e {
      assert Decompose(k, s, e) == [];
    } else {
      assert NextActive(es, n, s) == e;
    }
  }

  const WORD: nat := U64_MAX + 1
  const HALF: nat := 0x8000_0000_0000_0000

  /** The sum of two 64-bit words, as a word. */
  function Add64(a: nat, b: nat): nat { (a + b) % WORD }

  lemma AddIs(a: nat, b: nat)
    requires a <= U64_MAX && b <= U64_MAX
    ensures Add64(a, b) == if a + b <= U64_MAX then a + b else a + b - WORD
  {
  }

  /** A block whose next taller candidate is aligned, its span a word, but its end past every word. */
  ghost predicate AtEdge(k: Arity, c: Coord) {
    Aligned(k, Coord(c.left, c.height + 1)) && Pow(k, c.height + 1) <= U64_MAX < c.left + Pow(k, c.height + 1)
  }

  /** Such a block lies in the gap. */
  ghost predicate Overruns(k: Arity, left: nat, right: nat) {
    exists c: Coord :: AtEdge(k, c) && left <= c.left && End(k, c) <= right
  }

  /** A block at `left` that fits and stands at the edge. */
  ghost predicate EdgeFits(k: Arity, left: nat, right: nat) {
    exists h: nat :: Fits(k, left, h, right) && AtEdge(k, Coord(left, h))
  }

  /** The loop that grows one block, in 64-bit words. */
  function GrowWord(k: Arity, left: nat, right: nat, h: nat): nat
    requires Pow(k, h) <= U64_MAX
    decreases U64_MAX - Pow(k, h)
  {
    PowGrows(k, h);
    var span := Pow(k, h + 1);
    if span <= U64_MAX && left % span == 0 && Add64(left, span) <= right
    then GrowWord(k, left, right, h + 1) else h
  }

  /** Grows the block while it stays aligned and, as far as the word sum tells, inside the gap. */
  method GrowBlock(k: Arity, left: nat, right: nat) returns (height: nat)
    requires left < right <= U64_MAX
    ensures Fits(k, left, 0, right) && Pow(k, height) <= U64_MAX
    ensures Pow(k, 0) == 1 && height == GrowWord(k, left, right, 0) >= Grow(k, left, right, 0)
    ensures height == Grow(k, left, right, 0) <==>
            !EdgeFits(k, left, right)
  {
    PowSucc(k, 0);
    AlignedLeaf(k, left);
    WordExact(k, left, right, 0);
    hide Add64, Pow, Grow, Fits, AtEdge;
    height := 0;
    while true
      invariant Pow(k, height) <= U64_MAX && GrowWord(k, left, right, 0) == GrowWord(k, left, right, height)
      decreases U64_MAX - Pow(k, height)
    {
      PowGrows(k, height);
      var span := Pow(k, height + 1);
      if span <= U64_MAX && left % span == 0 && Add64(left, span) <= right {
        height := height + 1;
      } else {
        break;
      }
    }
  }

  /** From a height that fits, the word loop ends too tall exactly if it meets an edge that fits. */
  lemma {:induction false} WordExact(k: Arity, left: nat, right: nat, h: nat)
    requires left < right <= U64_MAX && Fits(k, left, h, right)
    ensures Pow(k, h) <= U64_MAX && GrowWord(k, left, right, h) >= Grow(k, left, right, h)
    ensures GrowWord(k, left, right, h) == Grow(k, left, right, h) <==>
            !exists g: nat :: g >= h && Fits(k, left, g, right) && AtEdge(k, Coord(left, g))
    decreases right - Pow(k, h)
  {
    PowGrows(k, h);
    LowerFits(k, left, right, h);
    WordStep(k, left, right, h);
    hide Pow, Aligned, GrowWord;
    if Fits(k, left, h + 1, right) {
      WordExact(k, left, right, h + 1);
    } else if AtEdge(k, Coord(left, h)) {
      WordGrows(k, left, right, h + 1);
    }
  }

  /** One test of the word loop: it passes a block that fits, and one that stands at the edge. */
  lemma WordStep(k: Arity, left: nat, right: nat, h: nat)
    requires left < right <= U64_MAX && Pow(k, h) <= U64_MAX
    ensures GrowWord(k, left, right, h) ==
              if Fits(k, left, h + 1, right) || AtEdge(k, Coord(left, h)) then GrowWord(k, left, right, h + 1) else h
  {
    AlignedMod(k, Coord(left, h + 1));
    hide Pow, Aligned;
    if Pow(k, h + 1) <= U64_MAX {
      AddIs(left, Pow(k, h + 1));
    }
    hide Add64;
  }

  /** Above `h` only a taller aligned block fits or stands at the edge. */
  lemma LowerFits(k: Arity, left: nat, right: nat, h: nat)
    ensures forall g: nat :: g > h && Fits(k, left, g, right) ==> Fits(k, left, h + 1, right)
    ensures forall g: nat :: g >= h && AtEdge(k, Coord(left, g)) ==>
              Aligned(k, Coord(left, h + 1)) && Pow(k, h + 1) <= U64_MAX
  {
    forall g: nat | g > h
      ensures Pow(k, h + 1) <= Pow(k, g) && (Aligned(k, Coord(left, g)) ==> Aligned(k, Coord(left, h + 1)))
    {
      hide Pow, Aligned;
      LowerAligned(k, left, h + 1, g);
    }
    hide Pow, Aligned;
  }

  lemma {:induction false} LowerAligned(k: Arity, left: nat, g: nat, h: nat)
    requires g <= h
    ensures Pow(k, g) <= Pow(k, h) && (Aligned(k, Coord(left, h)) ==> Aligned(k, Coord(left, g)))
    decreases h - g
  {
    if g < h {
      PowGrows(k, g);
      OneLower(k, Coord(left, g));
      hide Pow, Aligned;
      LowerAligned(k, left, g + 1, h);
    }
  }

  lemma {:induction false} OneLower(k: Arity, c: Coord)
    ensures Aligned(k, Coord(c.left, c.height + 1)) ==> Aligned(k, c)
    decreases c.height
  {
    hide Quot, Times;
    if c.height > 0 {
      OneLower(k, Down(k, c));
    }
  }

  lemma {:induction false} WordGrows(k: Arity, left: nat, right: nat, h: nat)
    requires Pow(k, h) <= U64_MAX
    ensures GrowWord(k, left, right, h) >= h
    decreases U64_MAX - Pow(k, h)
  {
    PowGrows(k, h);
    hide Pow, Add64;
    if Pow(k, h + 1) <= U64_MAX {
      WordGrows(k, left, right, h + 1);
    }
  }

  /** No gap that ends by `HALF` overruns. */
  lemma EdgeIsHigh(k: Arity, c: Coord)
    requires AtEdge(k, c)
    ensures End(k, c) > HALF
  {
    PowGrows(k, c.height);
    AlignedMod(k, Coord(c.left, c.height + 1));
    PowSucc(k, c.height);
    hide Aligned, Pow;
    if c.left < Pow(k, c.height + 1) {
      SmallMod(c.left, Pow(k, c.height + 1));
    }
  }

  lemma SmallMod(a: nat, b: nat)
    requires a < b
    ensures a % b == a
  {
  }

  /**
   What the wrap does: with two-ary trees and an inactive stretch from `HALF` to
   `HALF + HALF / 2` the loop ends at height 63, whose block is twice the stretch, and the
   position after that block wraps to 0.
   */
  lemma SumWraps(k: Arity, left: nat, right: nat, h: nat)
    requires k == 2 && left == HALF && right == HALF + HALF / 2 && h == 62
    ensures Pow(k, 0) == 1 && Fits(k, left, 0, right)
    ensures GrowWord(k, left, right, 0) == h + 1 && Grow(k, left, right, 0) == h
    ensures left + Pow(k, h + 1) == WORD
  {
    SmallPowers(k, h);
    PowSucc(k, 0);
    hide *;
    HalfFits(k, left, right, h);
    GrowReaches(k, left, right, 0, h);
    GrowTop(k, left, right, h);
  }

  lemma SmallPowers(k: Arity, h: nat)
    requires k == 2 && h == 62
    ensures Pow(k, h) == HALF / 2 && Pow(k, h + 1) == HALF && Pow(k, h + 2) == WORD == HALF + HALF
    ensures Add64(HALF, HALF) == 0 && HALF % HALF == 0 && HALF % (HALF / 2) == 0
    ensures HALF + HALF / 2 <= U64_MAX
  {
    TwoWord();
    hide Pow;
    PowIsTwo(h);
    PowIsTwo(h + 1);
    PowIsTwo(h + 2);
  }

  lemma HalfFits(k: Arity, left: nat, right: nat, h: nat)
    requires left % Pow(k, h) == 0 && left + Pow(k, h) == right
    ensures Fits(k, left, h, right)
  {
    hide Pow, Aligned;
    AlignedMod(k, Coord(left, h));
  }

  lemma GrowTop(k: Arity, left: nat, right: nat, h: nat)
    requires Fits(k, left, h, right) && left + Pow(k, h) == right < left + Pow(k, h + 1) && left % Pow(k, h + 1) == 0
    requires Pow(k, h) <= U64_MAX && Pow(k, h + 1) <= U64_MAX < Pow(k, h + 2) && Add64(left, Pow(k, h + 1)) == 0
    ensures GrowWord(k, left, right, h) == h + 1 && Grow(k, left, right, h) == h
  {
    hide Pow, Aligned, Add64;
    assert GrowWord(k, left, right, h + 1) == h + 1;
  }

  /** Both loops pass every height below one that fits. */
  lemma {:induction false} GrowReaches(k: Arity, left: nat, right: nat, g: nat, h: nat)
    requires g <= h && left < right <= U64_MAX && Fits(k, left, h, right)
    ensures Fits(k, left, g, right) && Pow(k, g) <= U64_MAX && Pow(k, h) <= U64_MAX
    ensures Grow(k, left, right, g) == Grow(k, left, right, h)
    ensures GrowWord(k, left, right, g) == GrowWord(k, left, right, h)
    decreases h - g
  {
    LowerAligned(k, left, g, h);
    if g < h {
      GrowReaches(k, left, right, g + 1, h);
      AlignedMod(k, Coord(left, g + 1));
      AddIs(left, Pow(k, g + 1));
      hide Pow, Aligned, Add64;
    }
  }

  lemma {:induction false} PowIsTwo(h: nat)
    ensures Pow(2, h) == Two(h)
  {
    if h > 0 {
      PowIsTwo(h - 1);
      PowSucc(2, h - 1);
      TimesIs(2, Pow(2, h - 1));
    }
  }

  /** Alignment is divisibility of the start by the span. */
  lemma {:induction false} AlignedMod(k: Arity, c: Coord)
    ensures Aligned(k, c) <==> c.left % Pow(k, c.height) == 0
    decreases c.height
  {
    hide Times, Quot;
    PowSucc(k, if c.height > 0 then c.height - 1 else 0);
    if c.height > 0 {
      var p, q, r := Pow(k, c.height - 1), Quot(k, c.left), Rem(k, c.left);
      AlignedMod(k, Down(k, c));
      QuotIs(p, q);
      QuotIs(Times(k, p), c.left);
      var t := Quot(p, q);
      if r == 0 && q % p == 0 {
        TimesAssoc(k, p, t);
        QuotUnique(Times(k, p), t, 0);
      }
      if Rem(Times(k, p), c.left) == 0 {
        var u := Quot(Times(k, p), c.left);
        TimesAssoc(k, p, u);
        QuotUnique(k, Times(p, u), 0);
        QuotUnique(p, u, 0);
      }
    }
  }

  /**
   The greedy loop, in 64-bit words.  It stops where its position wraps; there the source
   runs on from a position it has passed, or panics if built with overflow checks.
   */
  method DecomposeInactiveGap(leftBound: nat, right: nat, k: Arity, runs: seq<Coord>)
    returns (out: seq<Coord>, wrapped: bool)
    requires right <= U64_MAX
    ensures wrapped <==> Overruns(k, leftBound, right)
    ensures !wrapped ==> out == runs + Decompose(k, leftBound, right)
    ensures wrapped ==> Departs(out, runs + Decompose(k, leftBound, right))
  {
    hide Add64, Grow, GrowWord, Fits, AtEdge, Overruns, EdgeFits;
    out, wrapped := runs, false;
    var left := leftBound;
    while left < right
      invariant runs + Decompose(k, leftBound, right) == out + Decompose(k, left, right)
      invariant Overruns(k, leftBound, right) <==> Overruns(k, left, right)
      decreases right - left
    {
      var height := GrowBlock(k, left, right);
      OverrunsHere(k, left, right, height);
      AddIs(left, Pow(k, height));
      ghost var all := runs + Decompose(k, leftBound, right);
      var next := Add64(left, Pow(k, height));
      assert all[|out|] == Coord(left, Grow(k, left, right, 0));
      out := out + [Coord(left, height)];
      if next <= left {
        return out, true;
      }
      left := next;
    }
    OverrunsNot(k, left, right);
  }

  /** The last block pushed is not the one that belongs there. */
  ghost predicate Departs(out: seq<Coord>, full: seq<Coord>) {
    0 < |out| <= |full| && out[|out| - 1] != full[|out| - 1]
  }

  lemma OverrunsNot(k: Arity, left: nat, right: nat)
    requires right <= left
    ensures !Overruns(k, left, right)
  {
    hide AtEdge;
  }

  /** One block: it wraps exactly if it is too tall; if it is not, the rest of the gap decides. */
  lemma OverrunsHere(k: Arity, left: nat, right: nat, height: nat)
    requires left < right <= U64_MAX && Fits(k, left, 0, right) && Pow(k, height) <= U64_MAX
    requires height >= Grow(k, left, right, 0)
    requires height == Grow(k, left, right, 0) <==> !EdgeFits(k, left, right)
    ensures var next := left + Pow(k, height);
            if height == Grow(k, left, right, 0)
            then left < next <= right && (Overruns(k, left, right) <==> Overruns(k, next, right))
            else next > U64_MAX && Overruns(k, left, right)
  {
    hide *;
    if height == Grow(k, left, right, 0) {
      OverrunsLater(k, left, height, right);
    } else {
      OverrunsAt(k, left, right, height);
    }
  }

  lemma OverrunsLater(k: Arity, left: nat, height: nat, right: nat)
    requires right <= U64_MAX && Fits(k, left, height, right)
    requires !EdgeFits(k, left, right)
    ensures left < left + Pow(k, height) <= right
    ensures Overruns(k, left, right) <==> Overruns(k, left + Pow(k, height), right)
  {
    hide Pow, Aligned, AtEdge;
    forall c: Coord | AtEdge(k, c) && left <= c.left && End(k, c) <= right
      ensures left + Pow(k, height) <= c.left
    {
      EdgeBeyond(k, left, height, right, c);
    }
  }

  lemma OverrunsAt(k: Arity, left: nat, right: nat, height: nat)
    requires left < right <= U64_MAX && Fits(k, left, 0, right) && EdgeFits(k, left, right)
    requires height > Grow(k, left, right, 0)
    ensures left + Pow(k, height) > U64_MAX && Overruns(k, left, right)
  {
    var h: nat :| Fits(k, left, h, right) && AtEdge(k, Coord(left, h));
    EdgeIsTop(k, left, right, h);
    hide Pow, Aligned, Grow;
    LowerAligned(k, left, h + 1, height);
    assert AtEdge(k, Coord(left, h)) && End(k, Coord(left, h)) <= right;
  }

  lemma EdgeIsTop(k: Arity, left: nat, right: nat, h: nat)
    requires left < right <= U64_MAX && Fits(k, left, 0, right) && Fits(k, left, h, right) && AtEdge(k, Coord(left, h))
    ensures Grow(k, left, right, 0) == h
  {
    GrowReaches(k, left, right, 0, h);
    hide Pow, Aligned;
  }

  /** An edge block in the gap starts at or after the end of a block that fits and is not itself at the edge. */
  lemma EdgeBeyond(k: Arity, left: nat, height: nat, right: nat, c: Coord)
    requires right <= U64_MAX && Fits(k, left, height, right) && AtEdge(k, c) && left <= c.left && End(k, c) <= right
    requires !EdgeFits(k, left, right)
    ensures left + Pow(k, height) <= c.left
  {
    var block, up := Coord(left, height), Coord(c.left, c.height + 1);
    EdgeAligned(k, c);
    hide Pow, Aligned, AtEdge;
    assert Fits(k, c.left, c.height, right) && c == Coord(c.left, c.height);
    assert c.left != left;
    assert left + Pow(k, height) == End(k, block);
    BlockMeets(k, block, up);
  }

  lemma EdgeAligned(k: Arity, c: Coord)
    requires AtEdge(k, c)
    ensures Aligned(k, c) && Aligned(k, Coord(c.left, c.height + 1)) && End(k, Coord(c.left, c.height + 1)) > U64_MAX
  {
    OneLower(k, c);
  }

  /** An aligned subtree that starts inside another ends inside it. */
  lemma BlockMeets(k: Arity, c: Coord, d: Coord)
    requires Aligned(k, c) && Aligned(k, d) && c.left < d.left
    ensures End(k, c) <= d.left || End(k, d) <= End(k, c)
  {
    hide Pow, Aligned;
    if d.left < End(k, c) {
      if c.height <= d.height {
        Nested(k, c, d, d.left);
      } else {
        Nested(k, d, c, d.left);
      }
    }
  }

  /** Somewhere the timeline leaves such a block inactive. */
  ghost predicate TimelineOverruns(k: Arity, es: seq<Epoch>, n: nat) {
    exists c: Coord :: AtEdge(k, c) && NullBlock(k, es, n, c)
  }

  /** A tree of up to `HALF` entries never overruns. */
  lemma SmallNeverOverruns(k: Arity, es: seq<Epoch>, n: nat)
    requires n <= HALF
    ensures !TimelineOverruns(k, es, n)
  {
    hide AtEdge;
    forall c: Coord | AtEdge(k, c)
      ensures End(k, c) > n
    {
      EdgeIsHigh(k, c);
    }
  }

  /**
   Works on arbitrary (unsorted, overlapping, out-of-range) intervals and on every size.
   It fails exactly if the timeline leaves an edge block inactive, and then what it has
   pushed is already wrong.
   */
  method NullRunsForAlg(eps: seq<Epoch>, treeSize: nat, k: Arity) returns (runs: seq<Coord>, wrapped: bool)
    requires treeSize <= U64_MAX
    ensures wrapped <==> TimelineOverruns(k, eps, treeSize)
    ensures !wrapped ==> runs == NullRunsOf(k, eps, treeSize)
    ensures wrapped ==> Departs(runs, NullRunsOf(k, eps, treeSize))
  {
    hide Scan, Decompose, Sorted, Overruns, TimelineOverruns, ActiveAt, Departs;
    var active := ClipAndSort(eps, treeSize);
    var merged := Merge(active, treeSize);
    runs := [];
    var cursor := 0;
    EdgesFromStart(k, eps, treeSize);
    for p := 0 to |merged|
      invariant cursor <= treeSize && (p > 0 ==> cursor == merged[p - 1].end) && (p == 0 ==> cursor == 0)
      invariant NullRunsOf(k, eps, treeSize) == runs + Scan(k, eps, treeSize, cursor)
      invariant EdgesFrom(k, eps, treeSize, cursor)
    {
      var s, e := merged[p].start, merged[p].end;
      Stretch(merged, treeSize, p, cursor);
      ScanGap(k, eps, treeSize, cursor, s);
      ScanActive(k, eps, treeSize, s, e);
      GapEdges(k, eps, treeSize, cursor, s, e);
      ghost var before := runs;
      runs, wrapped := DecomposeInactiveGap(cursor, s, k, runs);
      RunsRegroup(before, Decompose(k, cursor, s), Scan(k, eps, treeSize, e));
      if wrapped {
        DepartsLonger(runs, before + Decompose(k, cursor, s), Scan(k, eps, treeSize, e));
        return;
      }
      cursor := e;
    }
    Stretch(merged, treeSize, |merged|, cursor);
    ScanGap(k, eps, treeSize, cursor, treeSize);
    ScanEnd(k, eps, treeSize);
    GapEdges(k, eps, treeSize, cursor, treeSize, treeSize);
    LastEdges(k, eps, treeSize);
    assert Decompose(k, cursor, treeSize) + [] == Decompose(k, cursor, treeSize);
    runs, wrapped := DecomposeInactiveGap(cursor, treeSize, k, runs);
  }

  lemma DepartsLonger(out: seq<Coord>, full: seq<Coord>, more: seq<Coord>)
    requires Departs(out, full)
    ensures Departs(out, full + more)
  {
  }

  lemma RunsRegroup(a: seq<Coord>, b: seq<Coord>, c: seq<Coord>)
    ensures a + (b + c) == (a + b) + c
  {
  }

  /** Every inactive edge block starts at or after `left`. */
  ghost predicate EdgesFrom(k: Arity, es: seq<Epoch>, n: nat, left: nat) {
    forall c: Coord :: AtEdge(k, c) && NullBlock(k, es, n, c) ==> left <= c.left
  }

  lemma EdgesFromStart(k: Arity, es: seq<Epoch>, n: nat)
    ensures EdgesFrom(k, es, n, 0)
  {
  }

  lemma LastEdges(k: Arity, es: seq<Epoch>, n: nat)
    ensures EdgesFrom(k, es, n, n) ==> !TimelineOverruns(k, es, n)
  {
    hide AtEdge;
  }

  /** A gap and the active stretch behind it: the gap overruns, or edge blocks come later. */
  lemma GapEdges(k: Arity, es: seq<Epoch>, n: nat, left: nat, s: nat, e: nat)
    requires left <= s <= e <= n && EdgesFrom(k, es, n, left)
    requires forall i :: left <= i < s ==> !ActiveAt(es, i)
    requires forall i :: s <= i < e ==> ActiveAt(es, i)
    requires s == n || s < e
    ensures Overruns(k, left, s) ==> TimelineOverruns(k, es, n)
    ensures !Overruns(k, left, s) ==> EdgesFrom(k, es, n, e)
  {
    hide ActiveAt, AtEdge, Aligned, Pow;
    forall c: Coord | AtEdge(k, c)
      ensures Aligned(k, c) && c.left < End(k, c)
    {
      EdgeAligned(k, c);
    }
    if Overruns(k, left, s) {
      var c: Coord :| AtEdge(k, c) && left <= c.left && End(k, c) <= s;
      assert NullBlock(k, es, n, c);
    } else {
      forall c: Coord | AtEdge(k, c) && NullBlock(k, es, n, c)
        ensures e <= c.left
      {
        NullAvoids(k, es, n, c, s, e);
      }
    }
  }

  /** A null block ends by an active stretch or starts after it. */
  lemma NullAvoids(k: Arity, es: seq<Epoch>, n: nat, c: Coord, s: nat, e: nat)
    requires NullBlock(k, es, n, c) && c.left < End(k, c) && s <= e <= n && (s == n || s < e)
    requires forall i :: s <= i < e ==> ActiveAt(es, i)
    ensures End(k, c) <= s || e <= c.left
  {
    hide ActiveAt, Aligned, Pow;
    var i := if c.left < s then s else c.left;
    var active := ActiveAt(es, i);
    assert (s <= i < e ==> active) && (c.left <= i < End(k, c) ==> !active);
  }

  lemma ScanEnd(k: Arity, es: seq<Epoch>, n: nat)
    ensures Scan(k, es, n, n) == []
  {
  }

  /** Between two merged intervals nothing is active; on an interval everything is. */
  lemma Stretch(merged: seq<Epoch>, n: nat, p: nat, cursor: nat)
    requires Gapped(merged, n) && p <= |merged|
    requires cursor == if p == 0 then 0 else merged[p - 1].end
    ensures var s := if p < |merged| then merged[p].start else n;
            cursor <= s <= n && forall i :: cursor <= i < s ==> !ActiveAt(merged, i)
    ensures p < |merged| ==> forall i :: merged[p].start <= i < merged[p].end ==> ActiveAt(merged, i)
  {
  }

  // ------------------------------------------------------------------ maximality

  /** `c` is aligned, lies in `[0, n)` and holds no active position. */
  ghost predicate NullBlock(k: Arity, es: seq<Epoch>, n: nat, c: Coord) {
    Aligned(k, c) && End(k, c) <= n && forall i :: c.left <= i < End(k, c) ==> !ActiveAt(es, i)
  }

  /** `c` is the tallest such block over its first leaf. */
  ghost predicate MaximalNull(k: Arity, es: seq<Epoch>, n: nat, c: Coord) {
    NullBlock(k, es, n, c) && !NullBlock(k, es, n, Anc(k, c.left, c.height + 1))
  }

  /** Every aligned block that starts before `left` and is null ends at or before it. */
  ghost predicate Settled(k: Arity, es: seq<Epoch>, n: nat, left: nat) {
    forall c: Coord :: NullBlock(k, es, n, c) && c.left < left ==> End(k, c) <= left
  }

  /** A greedy block is maximal, and settles the positions up to its end. */
  lemma GreedyMaximal(k: Arity, es: seq<Epoch>, n: nat, left: nat, right: nat)
    requires left < right <= n && (right < n ==> ActiveAt(es, right))
    requires forall i :: left <= i < right ==> !ActiveAt(es, i)
    requires Settled(k, es, n, left)
    ensures Fits(k, left, 0, right)
    ensures var c := Coord(left, Grow(k, left, right, 0));
            MaximalNull(k, es, n, c) && Settled(k, es, n, End(k, c)) && End(k, c) <= right
  {
    hide ActiveAt, Anc, Settled, Grow, Aligned, Pow;
    PowSucc(k, 0);
    AlignedLeaf(k, left);
    var c := Coord(left, Grow(k, left, right, 0));
    forall d: Coord | NullBlock(k, es, n, d) && d.left < End(k, c)
      ensures End(k, d) <= End(k, c)
    {
      GreedyCovers(k, es, n, left, right, d);
    }
    assert Settled(k, es, n, End(k, c)) by { SettledIntro(k, es, n, End(k, c)); }
    var u := Anc(k, left, c.height + 1);
    AncContains(k, left, c.height + 1);
    if NullBlock(k, es, n, u) {
      GreedyCovers(k, es, n, left, right, u);
      Nested(k, c, u, left);
      PowGrows(k, c.height);
      if u.left < left {
        SettledAt(k, es, n, left, u);
      }
      assert false;
    }
  }

  lemma AlignedLeaf(k: Arity, left: nat)
    ensures Aligned(k, Coord(left, 0))
  {
  }

  lemma SettledIntro(k: Arity, es: seq<Epoch>, n: nat, left: nat)
    requires forall d: Coord :: NullBlock(k, es, n, d) && d.left < left ==> End(k, d) <= left
    ensures Settled(k, es, n, left)
  {
  }

  lemma SettledAt(k: Arity, es: seq<Epoch>, n: nat, left: nat, d: Coord)
    requires Settled(k, es, n, left) && NullBlock(k, es, n, d) && d.left < left
    ensures End(k, d) <= left
  {
  }

  lemma GreedyCovers(k: Arity, es: seq<Epoch>, n: nat, left: nat, right: nat, d: Coord)
    requires left < right <= n && (right < n ==> ActiveAt(es, right))
    requires Settled(k, es, n, left) && NullBlock(k, es, n, d)
    requires Fits(k, left, 0, right)
    requires d.left < left + Pow(k, Grow(k, left, right, 0))
    ensures End(k, d) <= left + Pow(k, Grow(k, left, right, 0))
  {
    hide ActiveAt, Settled, Aligned;
    var c := Coord(left, Grow(k, left, right, 0));
    if d.left < left {
      SettledAt(k, es, n, left, d);
    } else {
      NullStops(k, es, n, right, d);
      if d.height <= c.height {
        Nested(k, d, c, d.left);
      } else {
        Nested(k, c, d, d.left);
        TallerAligned(k, d, c.height + 1);
      }
    }
  }

  lemma NullStops(k: Arity, es: seq<Epoch>, n: nat, right: nat, d: Coord)
    requires NullBlock(k, es, n, d) && d.left <= right <= n && (right < n ==> ActiveAt(es, right))
    ensures End(k, d) <= right
  {
    hide ActiveAt, Aligned;
  }

  /** A start aligned to a tall block is aligned to every lower one, which is no longer. */
  lemma {:induction false} TallerAligned(k: Arity, d: Coord, h: nat)
    requires Aligned(k, d) && h <= d.height
    ensures Aligned(k, Coord(d.left, h)) && Pow(k, h) <= Pow(k, d.height)
    decreases d.height
  {
    hide Times, Quot;
    if h < d.height {
      if h > 0 {
        TallerAligned(k, Down(k, d), h - 1);
        PowSucc(k, h - 1);
        PowSucc(k, d.height - 1);
        TimesGap(k, Pow(k, h - 1), Pow(k, d.height - 1));
      }
    }
  }

  /** The runs are in order, lie at or after `left`, are maximal, and hold every inactive position. */
  ghost predicate Exactly(k: Arity, es: seq<Epoch>, n: nat, left: nat, runs: seq<Coord>) {
    && (forall i :: 0 <= i < |runs| ==> left <= runs[i].left && MaximalNull(k, es, n, runs[i]))
    && (forall i, j :: 0 <= i < j < |runs| ==> End(k, runs[i]) <= runs[j].left)
    && (forall i :: left <= i < n && !ActiveAt(es, i) ==> exists j :: 0 <= j < |runs| && Contains(k, runs[j], i))
  }

  lemma ExactlyCons(k: Arity, es: seq<Epoch>, n: nat, left: nat, c: Coord, rest: seq<Coord>)
    requires c.left == left && MaximalNull(k, es, n, c) && Exactly(k, es, n, End(k, c), rest)
    ensures Exactly(k, es, n, left, [c] + rest)
  {
    hide MaximalNull, ActiveAt, Pow;
    var runs := [c] + rest;
    forall i | left <= i < n && !ActiveAt(es, i)
      ensures exists j :: 0 <= j < |runs| && Contains(k, runs[j], i)
    {
      if i < End(k, c) {
        assert Contains(k, runs[0], i);
      } else {
        var j :| 0 <= j < |rest| && Contains(k, rest[j], i);
        assert Contains(k, runs[j + 1], i);
      }
    }
  }

  lemma {:induction false} DecomposeExact(k: Arity, es: seq<Epoch>, n: nat, left: nat, right: nat)
    requires left <= right <= n && (right < n ==> ActiveAt(es, right))
    requires forall i :: left <= i < right ==> !ActiveAt(es, i)
    requires Settled(k, es, n, left) && Exactly(k, es, n, right, Scan(k, es, n, right))
    requires Settled(k, es, n, right)
    ensures Exactly(k, es, n, left, Decompose(k, left, right) + Scan(k, es, n, right))
    decreases right - left
  {
    hide ActiveAt, Settled, Exactly, Scan, Grow, MaximalNull;
    if left == right {
      assert Decompose(k, left, right) + Scan(k, es, n, right) == Scan(k, es, n, right);
    } else {
      GreedyMaximal(k, es, n, left, right);
      var c := Coord(left, Grow(k, left, right, 0));
      DecomposeExact(k, es, n, End(k, c), right);
      var rest := Decompose(k, End(k, c), right) + Scan(k, es, n, right);
      ExactlyCons(k, es, n, left, c, rest);
      assert Decompose(k, left, right) + Scan(k, es, n, right) == [c] + rest;
    }
  }

  /** An active position, and the end, settle everything before them. */
  lemma SettledBoundary(k: Arity, es: seq<Epoch>, n: nat, left: nat)
    requires left <= n && (left < n ==> ActiveAt(es, left) || (left > 0 && ActiveAt(es, left - 1)) || left == 0)
    ensures Settled(k, es, n, left)
  {
    hide ActiveAt, Aligned;
  }

  /** The scan yields exactly the maximal aligned inactive blocks, in order. */
  lemma {:induction false} ScanExact(k: Arity, es: seq<Epoch>, n: nat, left: nat)
    requires left <= n && (left < n && !ActiveAt(es, left) ==> left == 0 || ActiveAt(es, left - 1))
    ensures Exactly(k, es, n, left, Scan(k, es, n, left))
    decreases n - left
  {
    hide ActiveAt, Settled, Decompose, MaximalNull;
    if left < n {
      if ActiveAt(es, left) {
        ScanExact(k, es, n, left + 1);
      } else {
        var right := NextActive(es, n, left);
        ScanExact(k, es, n, right);
        SettledBoundary(k, es, n, left);
        SettledBoundary(k, es, n, right);
        DecomposeExact(k, es, n, left, right);
      }
    }
  }

  lemma NullRunsExact(k: Arity, es: seq<Epoch>, n: nat)
    ensures Exactly(k, es, n, 0, NullRunsOf(k, es, n))
  {
    ScanExact(k, es, n, 0);
  }

  /** Two maximal blocks that share a leaf are the same block. */
  lemma MaximalUnique(k: Arity, es: seq<Epoch>, n: nat, c: Coord, d: Coord, i: nat)
    requires MaximalNull(k, es, n, c) && MaximalNull(k, es, n, d)
    requires Contains(k, c, i) && Contains(k, d, i)
    ensures c == d
  {
    hide ActiveAt, Aligned, Anc;
    if c.height < d.height {
      MaximalParent(k, es, n, c, d, i);
    } else if d.height < c.height {
      MaximalParent(k, es, n, d, c, i);
    }
    AlignedIsAnc(k, c, i);
    AlignedIsAnc(k, d, i);
  }

  lemma MaximalParent(k: Arity, es: seq<Epoch>, n: nat, c: Coord, d: Coord, i: nat)
    requires NullBlock(k, es, n, c) && NullBlock(k, es, n, d) && c.height < d.height
    requires Contains(k, c, i) && Contains(k, d, i)
    ensures NullBlock(k, es, n, Anc(k, c.left, c.height + 1))
  {
    hide ActiveAt, Aligned, Anc;
    Nested(k, c, d, i);
    var u := Anc(k, c.left, c.height + 1);
    AncContains(k, c.left, c.height + 1);
    Nested(k, u, d, c.left);
  }

  /** The runs are canonical: any two exact lists are equal. */
  lemma {:induction false} ExactUnique(k: Arity, es: seq<Epoch>, n: nat, left: nat, a: seq<Coord>, b: seq<Coord>)
    requires Exactly(k, es, n, left, a) && Exactly(k, es, n, left, b)
    ensures a == b
    decreases |a| + |b|
  {
    hide ActiveAt, Aligned, Anc, Pow;
    if |a| > 0 {
      ExactFirst(k, es, n, left, a);
    }
    if |b| > 0 {
      ExactFirst(k, es, n, left, b);
    }
    if |a| > 0 && |b| > 0 {
      ExactHead(k, es, n, left, a, b);
      ExactHead(k, es, n, left, b, a);
      assert Contains(k, a[0], a[0].left);
      assert a[0].left == b[0].left;
      MaximalUnique(k, es, n, a[0], b[0], a[0].left);
      ExactTail(k, es, n, left, a);
      ExactTail(k, es, n, left, b);
      ExactUnique(k, es, n, End(k, a[0]), a[1..], b[1..]);
      assert a == [a[0]] + a[1..] && b == [b[0]] + b[1..];
    }
  }

  lemma ExactFirst(k: Arity, es: seq<Epoch>, n: nat, left: nat, runs: seq<Coord>)
    requires Exactly(k, es, n, left, runs) && |runs| > 0
    ensures left <= runs[0].left < n && !ActiveAt(es, runs[0].left)
  {
    hide ActiveAt, Aligned;
    assert Contains(k, runs[0], runs[0].left);
  }

  lemma ExactHead(k: Arity, es: seq<Epoch>, n: nat, left: nat, a: seq<Coord>, b: seq<Coord>)
    requires Exactly(k, es, n, left, a) && Exactly(k, es, n, left, b) && |a| > 0 && |b| > 0
    ensures a[0].left <= b[0].left
  {
    hide ActiveAt, Aligned, Anc, Pow;
    assert Contains(k, b[0], b[0].left) && !ActiveAt(es, b[0].left);
    var j :| 0 <= j < |a| && Contains(k, a[j], b[0].left);
  }

  lemma ExactTail(k: Arity, es: seq<Epoch>, n: nat, left: nat, a: seq<Coord>)
    requires Exactly(k, es, n, left, a) && |a| > 0
    ensures Exactly(k, es, n, End(k, a[0]), a[1..])
  {
    hide MaximalNull, ActiveAt, Pow;
    var r := a[1..];
    forall i | End(k, a[0]) <= i < n && !ActiveAt(es, i)
      ensures exists j :: 0 <= j < |r| && Contains(k, r[j], i)
    {
      var j :| 0 <= j < |a| && Contains(k, a[j], i);
      assert Contains(k, r[j - 1], i);
    }
  }

  /** The runs and the activity determine each other. */
  lemma RunsAreActivity(k: Arity, a: seq<Epoch>, b: seq<Epoch>, n: nat)
    ensures NullRunsOf(k, a, n) == NullRunsOf(k, b, n)
       <==> forall i :: 0 <= i < n ==> (ActiveAt(a, i) <==> ActiveAt(b, i))
  {
    hide ActiveAt, Aligned, Anc, Scan;
    NullRunsExact(k, a, n);
    NullRunsExact(k, b, n);
    var r, s := NullRunsOf(k, a, n), NullRunsOf(k, b, n);
    if r == s {
      forall i | 0 <= i < n
        ensures ActiveAt(a, i) <==> ActiveAt(b, i)
      {
        if !ActiveAt(a, i) {
          var j :| 0 <= j < |r| && Contains(k, r[j], i);
        }
        if !ActiveAt(b, i) {
          var j :| 0 <= j < |s| && Contains(k, s[j], i);
        }
      }
    } else if forall i :: 0 <= i < n ==> (ActiveAt(a, i) <==> ActiveAt(b, i)) {
      SameMaximal(k, a, b, n);
      ExactUnique(k, a, n, 0, r, s);
    }
  }

  lemma SameMaximal(k: Arity, a: seq<Epoch>, b: seq<Epoch>, n: nat)
    requires forall i :: 0 <= i < n ==> (ActiveAt(a, i) <==> ActiveAt(b, i))
    requires Exactly(k, b, n, 0, NullRunsOf(k, b, n))
    ensures Exactly(k, a, n, 0, NullRunsOf(k, b, n))
  {
    hide ActiveAt, Aligned, Anc, Scan;
    forall c: Coord
      ensures NullBlock(k, a, n, c) <==> NullBlock(k, b, n, c)
    {
    }
  }

  // ------------------------------------------------------------------ bytes

  /** The low `width` bytes of `x`, most significant first. */
  function BigEndian(x: nat, width: nat): (r: Bytes)
    ensures |r| == width
  {
    if width == 0 then [] else BigEndian(x / 256, width - 1) + [(x % 256) as byte]
  }

  function Bound(width: nat): nat { if width == 0 then 1 else 256 * Bound(width - 1) }

  lemma {:induction false} BigEndianInjective(x: nat, y: nat, width: nat)
    requires x < Bound(width) && y < Bound(width) && BigEndian(x, width) == BigEndian(y, width)
    ensures x == y
  {
    if width > 0 {
      var a, b := BigEndian(x, width), BigEndian(y, width);
      assert a[..width - 1] == BigEndian(x / 256, width - 1) && b[..width - 1] == BigEndian(y / 256, width - 1);
      assert a[width - 1] == b[width - 1];
      BigEndianInjective(x / 256, y / 256, width - 1);
    }
  }

  function FromBigEndian(bs: Bytes): nat {
    if |bs| == 0 then 0 else 256 * FromBigEndian(bs[..|bs| - 1]) + bs[|bs| - 1] as nat
  }

  lemma {:induction false} BigEndianRoundTrip(x: nat, width: nat)
    requires x < Bound(width)
    ensures FromBigEndian(BigEndian(x, width)) == x
  {
    if width > 0 {
      BigEndianRoundTrip(x / 256, width - 1);
      var a := BigEndian(x / 256, width - 1);
      assert (a + [(x % 256) as byte])[..width - 1] == a;
    }
  }

  /** Any bytes are the big-endian form of their value. */
  lemma {:induction false} BigEndianBack(bs: Bytes)
    ensures FromBigEndian(bs) < Bound(|bs|) && BigEndian(FromBigEndian(bs), |bs|) == bs
  {
    if |bs| > 0 {
      BigEndianBack(bs[..|bs| - 1]);
      assert bs == bs[..|bs| - 1] + [bs[|bs| - 1]];
    }
  }

  datatype AlgRuns = AlgRuns(id: nat, runs: seq<Coord>)

  /** Every algorithm's runs, in the order given, omitting those with none. */
  function Collected(k: Arity, t: Timeline, n: nat): seq<AlgRuns> {
    if |t| == 0 then []
    else
      var runs := NullRunsOf(k, t[0].epochs, n);
      (if |runs| == 0 then [] else [AlgRuns(t[0].id, runs)]) + Collected(k, t[1..], n)
  }

  ghost predicate ById(all: seq<AlgRuns>) {
    forall i, j :: 0 <= i < j < |all| ==> all[i].id <= all[j].id
  }

  function InsertById(x: AlgRuns, all: seq<AlgRuns>): seq<AlgRuns> {
    if |all| == 0 || x.id <= all[0].id then [x] + all else [all[0]] + InsertById(x, all[1..])
  }

  function SortById(all: seq<AlgRuns>): seq<AlgRuns> {
    if |all| == 0 then [] else InsertById(all[0], SortById(all[1..]))
  }

  lemma {:induction false} Inserted(x: AlgRuns, all: seq<AlgRuns>)
    requires ById(all)
    ensures ById(InsertById(x, all)) && multiset(InsertById(x, all)) == multiset{x} + multiset(all)
    ensures |all| > 0 ==> InsertById(x, all)[0] in [x, all[0]]
  {
    if |all| > 0 && x.id > all[0].id {
      assert all == [all[0]] + all[1..];
      Inserted(x, all[1..]);
    }
  }

  /** The sort puts the same entries in order of their ids. */
  lemma {:induction false} SortedById(all: seq<AlgRuns>)
    ensures ById(SortById(all)) && multiset(SortById(all)) == multiset(all) && |SortById(all)| == |all|
  {
    if |all| > 0 {
      assert all == [all[0]] + all[1..];
      SortedById(all[1..]);
      Inserted(all[0], SortById(all[1..]));
      assert |SortById(all)| == |multiset(SortById(all))|;
    }
  }

  /** All algorithms' runs, by id. */
  function AllNullRuns(k: Arity, t: Timeline, n: nat): seq<AlgRuns> { SortById(Collected(k, t, n)) }

  /** Every algorithm's runs collected in a loop, then sorted by id; none if one overruns. */
  method CollectNullRuns(t: Timeline, n: nat, k: Arity) returns (r: Option<seq<AlgRuns>>)
    requires n <= U64_MAX
    ensures r.None? <==> exists i :: 0 <= i < |t| && TimelineOverruns(k, t[i].epochs, n)
    ensures r.Some? ==> r.value == AllNullRuns(k, t, n)
  {
    hide NullRunsOf, SortById, TimelineOverruns;
    var out: seq<AlgRuns> := [];
    assert t[0..] == t;
    for i := 0 to |t|
      invariant Collected(k, t, n) == out + Collected(k, t[i..], n)
      invariant forall j :: 0 <= j < i ==> !TimelineOverruns(k, t[j].epochs, n)
    {
      CollectedNext(k, t, n, i, out);
      var runs, wrapped := NullRunsForAlg(t[i].epochs, n, k);
      if wrapped {
        return None;
      }
      if |runs| > 0 {
        out := out + [AlgRuns(t[i].id, runs)];
      }
    }
    assert t[|t|..] == [] && out + [] == out;
    r := Some(SortById(out));
  }

  lemma CollectedNext(k: Arity, t: Timeline, n: nat, i: nat, out: seq<AlgRuns>)
    requires i < |t|
    ensures var runs := NullRunsOf(k, t[i].epochs, n);
            out + Collected(k, t[i..], n)
              == (if |runs| == 0 then out else out + [AlgRuns(t[i].id, runs)]) + Collected(k, t[i + 1..], n)
  {
    assert t[i..][1..] == t[i + 1..];
    CollectedUnfold(k, t[i..], n);
    hide *;
    var rest := Collected(k, t[i + 1..], n);
    assert [] + rest == rest;
  }

  lemma {:induction false} CollectedLater(k: Arity, t: Timeline, n: nat, id: nat)
    requires forall i :: 0 <= i < |t| ==> t[i].id > id
    ensures forall i :: 0 <= i < |Collected(k, t, n)| ==> Collected(k, t, n)[i].id > id
  {
    hide NullRunsOf;
    if |t| > 0 {
      CollectedLater(k, t[1..], n, id);
    }
  }

  /** On a timeline in id order the sort changes nothing. */
  lemma {:induction false} AlreadySorted(k: Arity, t: Timeline, n: nat)
    requires SortedIds(t)
    ensures AllNullRuns(k, t, n) == Collected(k, t, n)
  {
    hide NullRunsOf;
    if |t| > 0 {
      AlreadySorted(k, t[1..], n);
      CollectedLater(k, t[1..], n, t[0].id);
      CollectedUnfold(k, t, n);
      hide Collected;
      var rest := Collected(k, t[1..], n);
      var first := AlgRuns(t[0].id, NullRunsOf(k, t[0].epochs, n));
      assert ([first] + rest)[1..] == rest && [] + rest == rest;
    }
  }

  function RunBytes(runs: seq<Coord>): (r: Bytes)
    ensures |r| == 12 * |runs|
  {
    if |runs| == 0 then []
    else BigEndian(runs[0].left, 8) + BigEndian(runs[0].height, 4) + RunBytes(runs[1..])
  }

  function AlgBytes(all: seq<AlgRuns>): Bytes {
    if |all| == 0 then []
    else BigEndian(all[0].id, 8) + (BigEndian(|all[0].runs|, 8) + (RunBytes(all[0].runs) + AlgBytes(all[1..])))
  }

  function Serialize(all: seq<AlgRuns>, n: nat, k: Arity): Bytes {
    BigEndian(k, 8) + BigEndian(n, 8) + BigEndian(|all|, 8) + AlgBytes(all)
  }

  function SerializeNullRuns(t: Timeline, n: nat, k: Arity): Bytes {
    Serialize(AllNullRuns(k, t, n), n, k)
  }

  /** The loop that writes one algorithm's runs. */
  method WriteRuns(buf: Bytes, runs: seq<Coord>) returns (out: Bytes)
    ensures out == buf + RunBytes(runs)
  {
    hide BigEndian;
    out := buf;
    assert runs[0..] == runs;
    for j := 0 to |runs|
      invariant buf + RunBytes(runs) == out + RunBytes(runs[j..])
    {
      RunBytesNext(runs, j, out);
      hide RunBytes;
      out := out + BigEndian(runs[j].left, 8);
      out := out + BigEndian(runs[j].height, 4);
    }
  }

  lemma RunBytesNext(runs: seq<Coord>, j: nat, out: Bytes)
    requires j < |runs|
    ensures out + RunBytes(runs[j..])
            == out + BigEndian(runs[j].left, 8) + BigEndian(runs[j].height, 4) + RunBytes(runs[j + 1..])
  {
    assert runs[j..][1..] == runs[j + 1..];
    hide BigEndian;
  }

  /** The loop that writes the header, then every algorithm's id, count and runs. */
  method WriteNullRuns(t: Timeline, n: nat, k: Arity) returns (r: Option<Bytes>)
    requires n <= U64_MAX
    ensures r.None? <==> exists i :: 0 <= i < |t| && TimelineOverruns(k, t[i].epochs, n)
    ensures r.Some? ==> r.value == SerializeNullRuns(t, n, k)
  {
    hide BigEndian, AllNullRuns, RunBytes, TimelineOverruns;
    var collected := CollectNullRuns(t, n, k);
    if collected.None? {
      return None;
    }
    var all := collected.value;
    var buf := BigEndian(k, 8) + BigEndian(n, 8);
    buf := buf + BigEndian(|all|, 8);
    ghost var whole := buf + AlgBytes(all);
    assert all[0..] == all;
    for i := 0 to |all|
      invariant whole == buf + AlgBytes(all[i..])
    {
      AlgBytesNext(all, i, buf);
      hide AlgBytes;
      buf := buf + BigEndian(all[i].id, 8);
      buf := buf + BigEndian(|all[i].runs|, 8);
      buf := WriteRuns(buf, all[i].runs);
    }
    r := Some(buf);
  }

  lemma AlgBytesNext(all: seq<AlgRuns>, i: nat, buf: Bytes)
    requires i < |all|
    ensures buf + AlgBytes(all[i..])
         == buf + BigEndian(all[i].id, 8) + BigEndian(|all[i].runs|, 8) + RunBytes(all[i].runs) + AlgBytes(all[i + 1..])
  {
    assert all[i..][1..] == all[i + 1..];
    var a, b, c, d := BigEndian(all[i].id, 8), BigEndian(|all[i].runs|, 8), RunBytes(all[i].runs),
        AlgBytes(all[i + 1..]);
    assert AlgBytes(all[i..]) == a + (b + (c + d));
    Rebracket(buf, a, b, c, d);
  }

  lemma Rebracket(buf: Bytes, a: Bytes, b: Bytes, c: Bytes, d: Bytes)
    ensures buf + (a + (b + (c + d))) == buf + a + b + c + d
  {
  }

  /** Every integer fits the width it is written in. */
  ghost predicate Encodable(all: seq<AlgRuns>) {
    && |all| < Bound(8)
    && forall i :: 0 <= i < |all| ==>
         all[i].id < Bound(8) && |all[i].runs| < Bound(8) &&
         forall j :: 0 <= j < |all[i].runs| ==> all[i].runs[j].left < Bound(8) && all[i].runs[j].height < Bound(4)
  }

  /** Equal concatenations with equally long fronts have equal parts. */
  lemma SplitAt(a: Bytes, b: Bytes, c: Bytes, d: Bytes)
    requires |a| == |c| && a + b == c + d
    ensures a == c && b == d
  {
    assert a == (a + b)[..|a|] && c == (c + d)[..|c|];
    assert b == (a + b)[|a|..] && d == (c + d)[|c|..];
  }

  lemma {:induction false} RunBytesInjective(a: seq<Coord>, b: seq<Coord>)
    requires |a| == |b| && RunBytes(a) == RunBytes(b)
    requires forall j :: 0 <= j < |a| ==>
               a[j].left < Bound(8) && a[j].height < Bound(4) && b[j].left < Bound(8) && b[j].height < Bound(4)
    ensures a == b
  {
    hide Bound, BigEndian;
    if |a| > 0 {
      var x, y := a[0], b[0];
      SplitAt(BigEndian(x.left, 8) + BigEndian(x.height, 4), RunBytes(a[1..]),
              BigEndian(y.left, 8) + BigEndian(y.height, 4), RunBytes(b[1..]));
      SplitAt(BigEndian(x.left, 8), BigEndian(x.height, 4), BigEndian(y.left, 8), BigEndian(y.height, 4));
      BigEndianInjective(x.left, y.left, 8);
      BigEndianInjective(x.height, y.height, 4);
      RunBytesInjective(a[1..], b[1..]);
      assert a == [x] + a[1..] && b == [y] + b[1..];
    }
  }

  lemma {:induction false} AlgBytesInjective(a: seq<AlgRuns>, b: seq<AlgRuns>)
    requires Encodable(a) && Encodable(b) && |a| == |b| && AlgBytes(a) == AlgBytes(b)
    ensures a == b
  {
    hide Bound, BigEndian, RunBytes;
    if |a| > 0 {
      var x, y := a[0], b[0];
      var restA := RunBytes(x.runs) + AlgBytes(a[1..]);
      var restB := RunBytes(y.runs) + AlgBytes(b[1..]);
      SplitAt(BigEndian(x.id, 8), BigEndian(|x.runs|, 8) + restA, BigEndian(y.id, 8), BigEndian(|y.runs|, 8) + restB);
      SplitAt(BigEndian(|x.runs|, 8), restA, BigEndian(|y.runs|, 8), restB);
      BigEndianInjective(x.id, y.id, 8);
      BigEndianInjective(|x.runs|, |y.runs|, 8);
      SplitAt(RunBytes(x.runs), AlgBytes(a[1..]), RunBytes(y.runs), AlgBytes(b[1..]));
      RunBytesInjective(x.runs, y.runs);
      AlgBytesInjective(a[1..], b[1..]);
      assert a == [x] + a[1..] && b == [y] + b[1..];
    }
  }

  /** The bytes determine the arity, the size and every run. */
  lemma SerializeInjective(a: seq<AlgRuns>, m: nat, j: Arity, b: seq<AlgRuns>, n: nat, k: Arity)
    requires Encodable(a) && Encodable(b) && m < Bound(8) && n < Bound(8)
    requires Serialize(a, m, j) == Serialize(b, n, k)
    ensures a == b && m == n && j == k
  {
    assert 256 < Bound(8) by { assert Bound(2) == 65536; BoundGrows(2, 8); }
    hide Bound, BigEndian, AlgBytes, Encodable;
    SplitAt(BigEndian(j, 8) + BigEndian(m, 8) + BigEndian(|a|, 8), AlgBytes(a),
            BigEndian(k, 8) + BigEndian(n, 8) + BigEndian(|b|, 8), AlgBytes(b));
    SplitAt(BigEndian(j, 8) + BigEndian(m, 8), BigEndian(|a|, 8), BigEndian(k, 8) + BigEndian(n, 8), BigEndian(|b|, 8));
    SplitAt(BigEndian(j, 8), BigEndian(m, 8), BigEndian(k, 8), BigEndian(n, 8));
    BigEndianInjective(j, k, 8);
    BigEndianInjective(m, n, 8);
    EncodableLength(a);
    EncodableLength(b);
    BigEndianInjective(|a|, |b|, 8);
    AlgBytesInjective(a, b);
  }

  lemma EncodableLength(a: seq<AlgRuns>)
    requires Encodable(a)
    ensures |a| < Bound(8)
  {
  }

  lemma {:induction false} BoundGrows(a: nat, b: nat)
    requires a <= b
    ensures Bound(a) <= Bound(b)
  {
    if a < b {
      BoundGrows(a, b - 1);
    }
  }

  // ------------------------------------------------------------------ where each field lies

  /** The big-endian number of `width` bytes at an offset. */
  ghost predicate FieldIs(bs: Bytes, at: nat, width: nat, x: nat) {
    at + width <= |bs| && FromBigEndian(bs[at..at + width]) == x
  }

  /** A field stays where it is as bytes are put before and after. */
  lemma FieldMoves(bs: Bytes, at: nat, width: nat, x: nat, before: Bytes, after: Bytes)
    requires FieldIs(bs, at, width, x)
    ensures FieldIs(before + bs + after, |before| + at, width, x)
  {
    assert (before + bs + after)[|before| + at..|before| + at + width] == bs[at..at + width];
  }

  /** Run `j` takes the twelve bytes from `12 * j`: its left edge, then its height. */
  lemma {:induction false} RunAt(runs: seq<Coord>, j: nat)
    requires j < |runs| && runs[j].left < Bound(8) && runs[j].height < Bound(4)
    ensures FieldIs(RunBytes(runs), 12 * j, 8, runs[j].left)
    ensures FieldIs(RunBytes(runs), 12 * j + 8, 4, runs[j].height)
  {
    hide FromBigEndian, BigEndian, Bound;
    var a, b, rest := BigEndian(runs[0].left, 8), BigEndian(runs[0].height, 4), RunBytes(runs[1..]);
    if j == 0 {
      BigEndianRoundTrip(runs[0].left, 8);
      BigEndianRoundTrip(runs[0].height, 4);
      assert (a + b + rest)[0..8] == a && (a + b + rest)[8..12] == b;
    } else {
      RunAt(runs[1..], j - 1);
      FieldMoves(rest, 12 * (j - 1), 8, runs[j].left, a + b, []);
      FieldMoves(rest, 12 * (j - 1) + 8, 4, runs[j].height, a + b, []);
      assert a + b + rest + [] == a + b + rest;
    }
  }

  /** Where entry `i` begins, after those before it: sixteen bytes each, and twelve for every run. */
  function EntryAt(all: seq<AlgRuns>, i: nat): nat
    requires i <= |all|
  {
    if i == 0 then 0 else 16 + 12 * |all[0].runs| + EntryAt(all[1..], i - 1)
  }

  /** The entry at this offset: its id, how many runs it has, then the runs. */
  ghost predicate EntryIs(bs: Bytes, at: nat, e: AlgRuns) {
    && FieldIs(bs, at, 8, e.id) && FieldIs(bs, at + 8, 8, |e.runs|)
    && forall j :: 0 <= j < |e.runs| ==>
         FieldIs(bs, at + 16 + 12 * j, 8, e.runs[j].left) && FieldIs(bs, at + 24 + 12 * j, 4, e.runs[j].height)
  }

  ghost predicate EntryFits(e: AlgRuns) {
    && e.id < Bound(8) && |e.runs| < Bound(8)
    && forall j :: 0 <= j < |e.runs| ==> e.runs[j].left < Bound(8) && e.runs[j].height < Bound(4)
  }

  lemma EntryMoves(bs: Bytes, at: nat, e: AlgRuns, before: Bytes, after: Bytes)
    requires EntryIs(bs, at, e)
    ensures EntryIs(before + bs + after, |before| + at, e)
  {
    hide FieldIs;
    FieldMoves(bs, at, 8, e.id, before, after);
    FieldMoves(bs, at + 8, 8, |e.runs|, before, after);
    forall j | 0 <= j < |e.runs|
      ensures FieldIs(before + bs + after, |before| + at + 16 + 12 * j, 8, e.runs[j].left)
      ensures FieldIs(before + bs + after, |before| + at + 24 + 12 * j, 4, e.runs[j].height)
    {
      FieldMoves(bs, at + 16 + 12 * j, 8, e.runs[j].left, before, after);
      FieldMoves(bs, at + 24 + 12 * j, 4, e.runs[j].height, before, after);
    }
  }

  lemma FirstEntry(e: AlgRuns)
    requires EntryFits(e)
    ensures EntryIs(BigEndian(e.id, 8) + BigEndian(|e.runs|, 8) + RunBytes(e.runs), 0, e)
  {
    hide BigEndian, FromBigEndian, RunBytes, Bound;
    var a, b, c := BigEndian(e.id, 8), BigEndian(|e.runs|, 8), RunBytes(e.runs);
    BigEndianRoundTrip(e.id, 8);
    BigEndianRoundTrip(|e.runs|, 8);
    assert (a + b + c)[0..8] == a && (a + b + c)[8..16] == b;
    hide FieldIs;
    forall j | 0 <= j < |e.runs|
      ensures FieldIs(a + b + c, 16 + 12 * j, 8, e.runs[j].left)
      ensures FieldIs(a + b + c, 24 + 12 * j, 4, e.runs[j].height)
    {
      RunAt(e.runs, j);
      FieldMoves(c, 12 * j, 8, e.runs[j].left, a + b, []);
      FieldMoves(c, 12 * j + 8, 4, e.runs[j].height, a + b, []);
      assert a + b + c + [] == a + b + c;
    }
  }

  lemma {:induction false} EntriesLie(all: seq<AlgRuns>, i: nat)
    requires i < |all| && EntryFits(all[i])
    ensures EntryIs(AlgBytes(all), EntryAt(all, i), all[i])
  {
    hide BigEndian, RunBytes, EntryIs, EntryFits;
    var first := BigEndian(all[0].id, 8) + BigEndian(|all[0].runs|, 8) + RunBytes(all[0].runs);
    var rest := AlgBytes(all[1..]);
    assert AlgBytes(all) == first + rest;
    if i == 0 {
      FirstEntry(all[0]);
      EntryMoves(first, 0, all[0], [], rest);
      assert [] + first + rest == first + rest;
    } else {
      EntriesLie(all[1..], i - 1);
      EntryMoves(rest, EntryAt(all[1..], i - 1), all[i], first, []);
      assert first + rest + [] == first + rest;
    }
  }

  lemma {:induction false} AlgBytesLength(all: seq<AlgRuns>)
    ensures |AlgBytes(all)| == EntryAt(all, |all|)
  {
    hide BigEndian, RunBytes;
    if |all| > 0 {
      AlgBytesLength(all[1..]);
    }
  }

  /**
   The layout: the arity, the size and the number of entries in eight bytes each, then the
   entries one after the other, and nothing more.
   */
  lemma SerializedLayout(all: seq<AlgRuns>, n: nat, k: Arity)
    requires n <= U64_MAX && |all| <= U64_MAX && forall e :: e in all ==> EntryFits(e)
    ensures var bs := Serialize(all, n, k);
            FieldIs(bs, 0, 8, k) && FieldIs(bs, 8, 8, n) && FieldIs(bs, 16, 8, |all|) &&
            |bs| == 24 + EntryAt(all, |all|) &&
            forall i :: 0 <= i < |all| ==> EntryIs(bs, 24 + EntryAt(all, i), all[i])
  {
    hide BigEndian, FromBigEndian, AlgBytes, EntryIs, EntryFits, EntryAt, Bound;
    BoundIsWord();
    BigEndianRoundTrip(k, 8);
    BigEndianRoundTrip(n, 8);
    BigEndianRoundTrip(|all|, 8);
    var a, b, c, rest := BigEndian(k, 8), BigEndian(n, 8), BigEndian(|all|, 8), AlgBytes(all);
    var bs := a + b + c + rest;
    assert bs[0..8] == a && bs[8..16] == b && bs[16..24] == c;
    AlgBytesLength(all);
    forall i | 0 <= i < |all|
      ensures EntryIs(bs, 24 + EntryAt(all, i), all[i])
    {
      assert all[i] in all;
      EntriesLie(all, i);
      EntryMoves(rest, EntryAt(all, i), all[i], a + b + c, []);
      assert a + b + c + rest + [] == bs;
    }
  }

  /** The entry of an algorithm among all runs: its runs, absent when there are none. */
  function FindRuns(all: seq<AlgRuns>, id: nat): seq<Coord> {
    if |all| == 0 then [] else if all[0].id == id then all[0].runs else FindRuns(all[1..], id)
  }

  lemma FindRunsCons(k: Arity, t: Timeline, n: nat, id: nat)
    requires |t| > 0
    ensures FindRuns(Collected(k, t, n), id)
         == if t[0].id == id && |NullRunsOf(k, t[0].epochs, n)| > 0 then NullRunsOf(k, t[0].epochs, n)
            else FindRuns(Collected(k, t[1..], n), id)
  {
    CollectedUnfold(k, t, n);
    hide *;
    var rest := Collected(k, t[1..], n);
    FindFirst(AlgRuns(t[0].id, NullRunsOf(k, t[0].epochs, n)), rest, id);
    assert [] + rest == rest;
  }

  lemma CollectedUnfold(k: Arity, t: Timeline, n: nat)
    requires |t| > 0
    ensures Collected(k, t, n) ==
              (if |NullRunsOf(k, t[0].epochs, n)| == 0 then [] else [AlgRuns(t[0].id, NullRunsOf(k, t[0].epochs, n))])
                + Collected(k, t[1..], n)
  {
    hide NullRunsOf;
  }

  lemma FindFirst(first: AlgRuns, rest: seq<AlgRuns>, id: nat)
    ensures FindRuns([first] + rest, id) == if first.id == id then first.runs else FindRuns(rest, id)
  {
    assert ([first] + rest)[1..] == rest;
  }

  lemma {:induction false} FindRunsOf(k: Arity, t: Timeline, n: nat, i: nat)
    requires SortedIds(t) && i < |t|
    ensures FindRuns(Collected(k, t, n), t[i].id) == NullRunsOf(k, t[i].epochs, n)
  {
    hide NullRunsOf, FindRuns, Collected;
    FindRunsCons(k, t, n, t[i].id);
    if i == 0 {
      LaterIds(k, t[1..], n, t[0].id);
    } else {
      FindRunsOf(k, t[1..], n, i - 1);
    }
  }

  lemma {:induction false} LaterIds(k: Arity, t: Timeline, n: nat, id: nat)
    requires forall i :: 0 <= i < |t| ==> t[i].id > id
    ensures FindRuns(Collected(k, t, n), id) == []
  {
    hide NullRunsOf;
    if |t| > 0 {
      LaterIds(k, t[1..], n, id);
      FindRunsCons(k, t, n, id);
    }
  }

  /** Runs of 64-bit sizes fit their fields. */
  lemma RunsFit(k: Arity, es: seq<Epoch>, n: nat)
    requires n <= U64_MAX
    ensures |NullRunsOf(k, es, n)| <= n
    ensures forall j :: 0 <= j < |NullRunsOf(k, es, n)| ==>
              NullRunsOf(k, es, n)[j].left < n && NullRunsOf(k, es, n)[j].height < 64
  {
    hide ActiveAt, Aligned, Anc, Scan, Pow;
    NullRunsExact(k, es, n);
    var r := NullRunsOf(k, es, n);
    forall j | 0 <= j < |r|
      ensures r[j].left < n && r[j].height < 64
    {
      assert MaximalNull(k, es, n, r[j]);
      HeightFits(k, r[j].height, n);
    }
    if |r| > 0 {
      CountFits(k, r, |r| - 1);
    }
  }

  lemma {:induction false} CountFits(k: Arity, r: seq<Coord>, j: nat)
    requires forall i, j :: 0 <= i < j < |r| ==> End(k, r[i]) <= r[j].left
    requires j < |r|
    ensures r[j].left >= j
  {
    hide Pow;
    if j > 0 {
      CountFits(k, r, j - 1);
      assert End(k, r[j - 1]) <= r[j].left;
    }
  }

  lemma {:induction false} PowAtLeastTwo(k: Arity, h: nat)
    ensures Two(h) <= Pow(k, h)
  {
    if h > 0 {
      PowAtLeastTwo(k, h - 1);
      PowSucc(k, h - 1);
      TimesComm(k, Pow(k, h - 1));
      TimesGap(Pow(k, h - 1), 2, k);
      TimesIs(Pow(k, h - 1), 2);
    }
  }

  lemma {:induction false} TwoGrows(a: nat, b: nat)
    requires a <= b
    ensures Two(a) <= Two(b)
  {
    if a < b {
      TwoGrows(a, b - 1);
    }
  }

  lemma HeightFits(k: Arity, h: nat, n: nat)
    requires Pow(k, h) <= n <= U64_MAX
    ensures h < 64
  {
    hide Two, Pow;
    PowAtLeastTwo(k, h);
    TwoWord();
    if h >= 64 {
      TwoGrows(64, h);
    }
  }

  lemma {:induction false} BoundIsWord()
    ensures Bound(8) == U64_MAX + 1 && 64 < Bound(4)
  {
    assert Bound(4) == 0x1_0000_0000;
    assert Bound(5) == 256 * Bound(4) && Bound(6) == 256 * Bound(5) && Bound(7) == 256 * Bound(6);
  }

  /** Timelines of 64-bit ids over 64-bit sizes are encodable. */
  lemma {:induction false} TimelineEncodable(k: Arity, t: Timeline, n: nat)
    requires n <= U64_MAX && |t| <= U64_MAX
    requires forall i :: 0 <= i < |t| ==> t[i].id <= U64_MAX
    ensures Encodable(Collected(k, t, n)) && |Collected(k, t, n)| <= |t|
  {
    BoundIsWord();
    hide NullRunsOf, Bound;
    if |t| > 0 {
      TimelineEncodable(k, t[1..], n);
      RunsFit(k, t[0].epochs, n);
    }
  }

  /**
   The committed bytes bind the activity: two timelines with the same bytes agree on
   every position for every algorithm that both register.
   */
  lemma BytesBindActivity(k: Arity, a: Timeline, b: Timeline, n: nat, i: nat, j: nat, p: nat)
    requires SortedIds(a) && SortedIds(b) && n <= U64_MAX && |a| <= U64_MAX && |b| <= U64_MAX
    requires forall g :: 0 <= g < |a| ==> a[g].id <= U64_MAX
    requires forall g :: 0 <= g < |b| ==> b[g].id <= U64_MAX
    requires SerializeNullRuns(a, n, k) == SerializeNullRuns(b, n, k)
    requires i < |a| && j < |b| && a[i].id == b[j].id && p < n
    ensures ActiveAt(a[i].epochs, p) <==> ActiveAt(b[j].epochs, p)
  {
    hide Bound, Encodable, ActiveAt, AllNullRuns, Collected, NullRunsOf, FindRuns, Serialize;
    BoundIsWord();
    TimelineEncodable(k, a, n);
    TimelineEncodable(k, b, n);
    AlreadySorted(k, a, n);
    AlreadySorted(k, b, n);
    SerializeInjective(AllNullRuns(k, a, n), n, k, AllNullRuns(k, b, n), n, k);
    FindRunsOf(k, a, n, i);
    FindRunsOf(k, b, n, j);
    RunsAreActivity(k, a[i].epochs, b[j].epochs, n);
  }

  // ------------------------------------------------------------------ when there is anything to commit

  /** Some algorithm of the timeline was inactive somewhere below `n`. */
  ghost predicate SomeInactive(t: Timeline, n: nat) {
    exists i: nat, p: nat :: i < |t| && p < n && !ActiveAt(t[i].epochs, p)
  }

  /** There are runs exactly if some position was inactive. */
  lemma NoRuns(k: Arity, es: seq<Epoch>, n: nat)
    ensures |NullRunsOf(k, es, n)| == 0 <==> forall p :: 0 <= p < n ==> ActiveAt(es, p)
  {
    hide ActiveAt, Aligned, Anc, Scan, Pow;
    NullRunsExact(k, es, n);
    var r := NullRunsOf(k, es, n);
    if |r| > 0 {
      assert MaximalNull(k, es, n, r[0]) && r[0].left < End(k, r[0]) <= n && !ActiveAt(es, r[0].left);
    } else {
      assert r == [];
      NoneExact(k, es, n);
    }
  }

  lemma NoneExact(k: Arity, es: seq<Epoch>, n: nat)
    requires Exactly(k, es, n, 0, [])
    ensures forall p :: 0 <= p < n ==> ActiveAt(es, p)
  {
    hide ActiveAt;
  }

  lemma {:induction false} NoneCollected(k: Arity, t: Timeline, n: nat)
    ensures |Collected(k, t, n)| == 0 <==> !SomeInactive(t, n)
  {
    hide ActiveAt, NullRunsOf;
    if |t| > 0 {
      NoneCollected(k, t[1..], n);
      NoRuns(k, t[0].epochs, n);
      CollectedUnfold(k, t, n);
      if i: nat, p: nat :| i < |t| && p < n && !ActiveAt(t[i].epochs, p) {
        if i > 0 {
          assert t[1..][i - 1] == t[i];
        }
      }
      if i: nat, p: nat :| i < |t[1..]| && p < n && !ActiveAt(t[1..][i].epochs, p) {
        assert t[i + 1] == t[1..][i];
      }
    }
  }

  lemma AnyRuns(k: Arity, t: Timeline, n: nat)
    ensures |AllNullRuns(k, t, n)| == 0 <==> !SomeInactive(t, n)
  {
    NoneCollected(k, t, n);
    hide Collected, SomeInactive;
    SortedById(Collected(k, t, n));
  }

  // ------------------------------------------------------------------ the combined root

  /** The fold over the member roots, with the coverage child when some run exists. */
  function CombinedRoot(h: Hasher, roots: seq<Digest>, t: Timeline, n: nat, k: Arity): Digest {
    var all := AllNullRuns(k, t, n);
    NaryMr(h, roots + (if |all| == 0 then [] else [h.hash(Serialize(all, n, k))]))
  }

  /**
   What is folded: the member roots alone where every algorithm was active throughout, and
   with the hash of the activation's bytes as one more child where one was not.
   */
  lemma CombinedIs(h: Hasher, roots: seq<Digest>, t: Timeline, n: nat, k: Arity)
    ensures SomeInactive(t, n) ==>
            CombinedRoot(h, roots, t, n, k) == NaryMr(h, roots + [h.hash(SerializeNullRuns(t, n, k))])
    ensures !SomeInactive(t, n) ==> CombinedRoot(h, roots, t, n, k) == NaryMr(h, roots)
  {
    AnyRuns(k, t, n);
    hide AllNullRuns, SomeInactive, NaryMr, Serialize;
    assert roots + [] == roots;
  }

  lemma FoldCases(h: Hasher, roots: seq<Digest>, extra: Digest)
    ensures roots != [] ==>
              NaryMr(h, roots + [extra]) == if AllSame(roots + [extra]) then roots[0] else h.node(roots + [extra])
    ensures |roots| > 1 ==> NaryMr(h, roots) == if AllSame(roots) then roots[0] else h.node(roots)
    ensures |roots| == 1 ==> NaryMr(h, roots) == roots[0]
    ensures roots == [] ==> NaryMr(h, roots + [extra]) == extra && NaryMr(h, roots) == h.empty
  {
  }

  /** The program's fold: the member roots, then the hash of the serialized runs unless there are none. */
  method FoldCombinedRoot(h: Hasher, roots: seq<Digest>, t: Timeline, n: nat, k: Arity) returns (r: Option<Digest>)
    requires n <= U64_MAX
    ensures r.None? <==> exists i :: 0 <= i < |t| && TimelineOverruns(k, t[i].epochs, n)
    ensures r.Some? ==> r.value == CombinedRoot(h, roots, t, n, k)
    ensures n <= HALF ==> r.Some?
    ensures r.Some? && SomeInactive(t, n) && roots != [] ==>
              var children := roots + [h.hash(SerializeNullRuns(t, n, k))];
              r.value == if AllSame(children) then roots[0] else h.node(children)
    ensures r.Some? && !SomeInactive(t, n) && |roots| > 1 ==>
              r.value == if AllSame(roots) then roots[0] else h.node(roots)
    ensures r.Some? && !SomeInactive(t, n) && |roots| == 1 ==> r.value == roots[0]
    ensures r.Some? && roots == [] ==>
              r.value == if SomeInactive(t, n) then h.hash(SerializeNullRuns(t, n, k)) else h.empty
  {
    CombinedIs(h, roots, t, n, k);
    FoldCases(h, roots, h.hash(SerializeNullRuns(t, n, k)));
    hide AllNullRuns, NaryMr, Serialize, TimelineOverruns, SomeInactive, AllSame;
    forall i | 0 <= i < |t| && n <= HALF
      ensures !TimelineOverruns(k, t[i].epochs, n)
    {
      SmallNeverOverruns(k, t[i].epochs, n);
    }
    var children := roots;
    var all := CollectNullRuns(t, n, k);
    if all.None? {
      return None;
    }
    if |all.value| > 0 {
      var bytes := WriteNullRuns(t, n, k);
      children := children + [h.hash(bytes.value)];
    }
    assert roots + [] == roots;
    r := Some(NaryMr(h, children));
  }
}
