/**
 The perfect k-ary subtree decomposition of a log of `n` leaves, and the base-k
 carry that maintains it.

 Every notion here is defined by recursion on the low base-k digit: the frontier
 of `n` is the frontier of `n / k` lifted one level, followed by `n % k` single
 leaves.  The loops of the program run over the high digits instead.
 */
module Topology {
  import opened Base

  /** The perfect subtree of `k^height` leaves that starts at leaf `left`. */
  datatype Coord = Coord(left: nat, height: nat)

  function End(k: Arity, c: Coord): nat { c.left + Pow(k, c.height) }

  predicate Contains(k: Arity, c: Coord, i: nat) { c.left <= i < End(k, c) }

  /** Reads a coordinate over groups of `k` leaves as one over single leaves. */
  function Up(k: Arity, c: Coord): Coord { Coord(Times(k, c.left), c.height + 1) }

  function UpAll(k: Arity, cs: seq<Coord>): (r: seq<Coord>)
    ensures |r| == |cs|
    ensures forall i :: 0 <= i < |cs| ==> r[i] == Up(k, cs[i])
  {
    seq(|cs|, i requires 0 <= i < |cs| => Up(k, cs[i]))
  }

  lemma UpAllConcat(k: Arity, a: seq<Coord>, b: seq<Coord>)
    ensures UpAll(k, a + b) == UpAll(k, a) + UpAll(k, b)
  {
  }

  function Leaves(left: nat, count: nat): (r: seq<Coord>)
    ensures |r| == count
    ensures forall i :: 0 <= i < count ==> r[i] == Coord(left + i, 0)
  {
    seq(count, i requires 0 <= i => Coord(left + i, 0))
  }

  /** The frontier of `n` leaves: one perfect subtree per unit of each base-k digit. */
  function Frontier(k: Arity, n: nat): seq<Coord>
    decreases n
  {
    if n == 0 then []
    else UpAll(k, Frontier(k, Quot(k, n))) + Leaves(Times(k, Quot(k, n)), Rem(k, n))
  }

  lemma FrontierAt(k: Arity, n: nat, q: nat, r: nat)
    requires r < k && n == Times(k, q) + r
    ensures Frontier(k, n) == UpAll(k, Frontier(k, q)) + Leaves(Times(k, q), r)
  {
    hide Times, Quot, Pow;
    QuotUnique(k, q, r);
    TimesGap(k, 0, q);
  }

  function Shift(cs: seq<Coord>, off: nat): (r: seq<Coord>)
    ensures |r| == |cs|
    ensures forall i :: 0 <= i < |cs| ==> r[i] == Coord(cs[i].left + off, cs[i].height)
  {
    seq(|cs|, i requires 0 <= i < |cs| => Coord(cs[i].left + off, cs[i].height))
  }

  // ------------------------------------------------------------------ greedy form

  lemma UpShift(k: Arity, cs: seq<Coord>, off: nat)
    ensures UpAll(k, Shift(cs, off)) == Shift(UpAll(k, cs), Times(k, off))
  {
    forall i | 0 <= i < |cs|
      ensures Times(k, cs[i].left + off) == Times(k, cs[i].left) + Times(k, off)
    {
      TimesAdd(k, cs[i].left, off);
    }
  }

  lemma GreedyDigit(k: Arity, n: nat, h: nat, q: nat, p: nat)
    requires h > 0 && Pow(k, h) <= n < Pow(k, h + 1) && q == Quot(k, n) && p == Pow(k, h - 1)
    ensures p <= q < Pow(k, h)
    ensures Times(k, q) == Times(k, q - p) + Pow(k, h)
  {
    hide Quot;
    TimesGap(k, q, p - 1);
    TimesGap(k, q + 1, p);
    TimesGap(k, Times(k, p), q);
    TimesAdd(k, q - p, p);
  }

  lemma GreedyLift(k: Arity, rest: seq<Coord>, h: nat, p: nat, left: nat, r: nat)
    ensures UpAll(k, [Coord(0, h)] + Shift(rest, p)) + Leaves(left + Times(k, p), r)
         == [Coord(0, h + 1)] + Shift(UpAll(k, rest) + Leaves(left, r), Times(k, p))
  {
    hide Times, UpAll, Leaves, Shift;
    UpShift(k, rest, p);
    UpAllConcat(k, [Coord(0, h)], Shift(rest, p));
    assert UpAll(k, [Coord(0, h)]) == [Coord(0, h + 1)];
    assert Leaves(left + Times(k, p), r) == Shift(Leaves(left, r), Times(k, p));
  }

  /** The largest subtree that fits is the head of the frontier. */
  lemma {:induction false} GreedyStep(k: Arity, n: nat, h: nat, m: nat)
    requires Pow(k, h) <= n < Pow(k, h + 1) && n == m + Pow(k, h)
    ensures Frontier(k, n) == [Coord(0, h)] + Shift(Frontier(k, m), Pow(k, h))
    decreases h
  {
    hide Times, Quot, Pow, UpAll, Leaves, Shift;
    if h == 0 {
      PowSucc(k, 0);
      FrontierAt(k, n, 0, n);
      FrontierAt(k, m, 0, m);
    } else {
      PowSucc(k, h - 1);
      var q, p := Quot(k, n), Pow(k, h - 1);
      GreedyDigit(k, n, h, q, p);
      var d := q - p;
      GreedyStep(k, q, h - 1, d);
      FrontierAt(k, m, d, Rem(k, n));
      GreedyLift(k, Frontier(k, d), h - 1, p, Times(k, d), Rem(k, n));
    }
  }

  /** `a.checked_mul(b)` on 64-bit words. */
  function CheckedMul(a: nat, b: nat): Option<nat> {
    TimesIs(a, b);
    if a * b <= U64_MAX then Some(a * b) else None
  }

  lemma GreedyPush(k: Arity, done: seq<Coord>, left: nat, n: nat, h: nat, m: nat)
    requires Pow(k, h) <= n < Pow(k, h + 1) && n == m + Pow(k, h)
    ensures done + Shift(Frontier(k, n), left)
         == done + [Coord(left, h)] + Shift(Frontier(k, m), left + Pow(k, h))
  {
    hide *;
    GreedyStep(k, n, h, m);
    var rest := Frontier(k, m);
    assert Shift([Coord(0, h)] + Shift(rest, Pow(k, h)), left)
        == [Coord(left, h)] + Shift(rest, left + Pow(k, h));
  }

  /** The frontier decomposition, largest perfect subtree first. */
  method FrontierForSize(n: nat, k: Arity) returns (frontier: seq<Coord>)
    requires n <= U64_MAX
    ensures frontier == Frontier(k, n)
  {
    hide Times, Quot, Pow;
    frontier := [];
    var currLeft, tempN := 0, n;
    while tempN > 0
      invariant currLeft + tempN == n
      invariant Frontier(k, n) == frontier + Shift(Frontier(k, tempN), currLeft)
    {
      var height, cap := FittingSpan(tempN, k);
      GreedyPush(k, frontier, currLeft, tempN, height, tempN - cap);
      frontier := frontier + [Coord(currLeft, height)];
      currLeft, tempN := currLeft + cap, tempN - cap;
    }
    assert Shift(Frontier(k, 0), currLeft) == [];
  }

  /** The inner loop: the largest power of `k` that fits in `n`. */
  method FittingSpan(n: nat, k: Arity) returns (height: nat, cap: nat)
    requires 0 < n <= U64_MAX
    ensures cap == Pow(k, height) && cap <= n < Pow(k, height + 1)
  {
    height, cap := 0, 1;
    var next := CheckedMul(cap, k);
    while next.Some? && next.value <= n
      invariant cap == Pow(k, height) && cap <= n
      invariant next == CheckedMul(cap, k)
      decreases n - cap
    {
      TimesIs(k, cap);
      TimesGap(k, 1, cap);
      TimesGap(cap, 2, k);
      TimesIs(cap, k);
      TimesIs(cap, 2);
      cap, height := next.value, height + 1;
      next := CheckedMul(cap, k);
    }
    TimesIs(k, cap);
  }

  // ------------------------------------------------------------------ geometry

  lemma UpEnd(k: Arity, c: Coord)
    ensures End(k, Up(k, c)) == Times(k, End(k, c))
  {
    TimesAdd(k, c.left, Pow(k, c.height));
  }

  lemma UpContains(k: Arity, c: Coord, i: nat)
    ensures Contains(k, Up(k, c), i) <==> Contains(k, c, Quot(k, i))
  {
    UpEnd(k, c);
    var q := Quot(k, i);
    TimesGap(k, c.left, q);
    TimesGap(k, q, c.left);
    TimesGap(k, End(k, c), q);
    TimesGap(k, q, End(k, c));
  }

  /** A coordinate whose start is a multiple of its span. */
  predicate Aligned(k: Arity, c: Coord)
    decreases c.height
  {
    c.height == 0 || (Rem(k, c.left) == 0 && Aligned(k, Down(k, c)))
  }

  function Down(k: Arity, c: Coord): Coord
    requires c.height > 0
  {
    Coord(Quot(k, c.left), c.height - 1)
  }

  lemma UpDown(k: Arity, c: Coord)
    ensures Down(k, Up(k, c)) == c
    ensures Aligned(k, Up(k, c)) <==> Aligned(k, c)
  {
    QuotUnique(k, c.left, 0);
  }

  lemma DownUp(k: Arity, c: Coord)
    requires c.height > 0 && Aligned(k, c)
    ensures Up(k, Down(k, c)) == c && Aligned(k, Down(k, c))
  {
  }

  /** Aligned subtrees that lie end to end from 0 to `n`. */
  ghost predicate Tiles(k: Arity, cs: seq<Coord>, n: nat) {
    && (forall i :: 0 <= i < |cs| ==> Aligned(k, cs[i]))
    && (|cs| > 0 ==> cs[0].left == 0)
    && (forall i, j :: 0 <= i < j < |cs| && j == i + 1 ==> cs[j].left == End(k, cs[i]))
    && n == if |cs| == 0 then 0 else End(k, cs[|cs| - 1])
  }

  lemma TilesUp(k: Arity, cs: seq<Coord>, n: nat)
    requires Tiles(k, cs, n)
    ensures Tiles(k, UpAll(k, cs), Times(k, n))
  {
    var up := UpAll(k, cs);
    forall i | 0 <= i < |cs|
      ensures Aligned(k, up[i]) && End(k, up[i]) == Times(k, End(k, cs[i]))
    {
      UpDown(k, cs[i]);
      UpEnd(k, cs[i]);
    }
  }

  lemma TilesPush(k: Arity, cs: seq<Coord>, n: nat)
    requires Tiles(k, cs, n)
    ensures Tiles(k, cs + [Coord(n, 0)], n + 1)
  {
    hide Times, Quot;
    PowSucc(k, 0);
  }

  lemma {:induction false} TilesLeaves(k: Arity, cs: seq<Coord>, n: nat, count: nat)
    requires Tiles(k, cs, n)
    ensures Tiles(k, cs + Leaves(n, count), n + count)
  {
    hide Times, Quot, Tiles, Pow;
    if count == 0 {
      assert cs + Leaves(n, 0) == cs;
    } else {
      TilesLeaves(k, cs, n, count - 1);
      TilesPush(k, cs + Leaves(n, count - 1), n + count - 1);
      assert cs + Leaves(n, count) == cs + Leaves(n, count - 1) + [Coord(n + count - 1, 0)];
    }
  }

  lemma {:induction false} FrontierTiles(k: Arity, n: nat)
    ensures Tiles(k, Frontier(k, n), n)
    decreases n
  {
    hide Times, Quot;
    if n > 0 {
      FrontierTiles(k, Quot(k, n));
      TilesUp(k, Frontier(k, Quot(k, n)), Quot(k, n));
      TilesLeaves(k, UpAll(k, Frontier(k, Quot(k, n))), Times(k, Quot(k, n)), Rem(k, n));
    }
  }

  lemma {:induction false} TilesOrdered(k: Arity, cs: seq<Coord>, n: nat, f: nat, g: nat)
    requires Tiles(k, cs, n) && f <= g < |cs|
    ensures End(k, cs[g]) <= n && (f < g ==> End(k, cs[f]) <= cs[g].left)
    decreases |cs| - f
  {
    if f < g {
      TilesOrdered(k, cs, n, f + 1, g);
    } else if g + 1 < |cs| {
      TilesOrdered(k, cs, n, g + 1, g + 1);
    }
  }

  /** The frontier index of the subtree holding leaf `i` of `n`. */
  function MountainOf(k: Arity, n: nat, i: nat): nat
    requires i < n
    decreases n
  {
    QuotMono(k, i, n);
    if Quot(k, i) == Quot(k, n) then |Frontier(k, Quot(k, n))| + Rem(k, i)
    else MountainOf(k, Quot(k, n), Quot(k, i))
  }

  lemma {:induction false} MountainContains(k: Arity, n: nat, i: nat)
    requires i < n
    ensures MountainOf(k, n, i) < |Frontier(k, n)|
    ensures Contains(k, Frontier(k, n)[MountainOf(k, n, i)], i)
    decreases n
  {
    QuotMono(k, i, n);
    if Quot(k, i) != Quot(k, n) {
      MountainContains(k, Quot(k, n), Quot(k, i));
      UpContains(k, Frontier(k, Quot(k, n))[MountainOf(k, n, i)], i);
    }
  }

  /** No other frontier subtree holds leaf `i`. */
  lemma MountainUnique(k: Arity, n: nat, i: nat, f: nat)
    requires i < n && f < |Frontier(k, n)|
    ensures MountainOf(k, n, i) < |Frontier(k, n)|
    ensures Contains(k, Frontier(k, n)[f], i) <==> f == MountainOf(k, n, i)
  {
    MountainContains(k, n, i);
    FrontierTiles(k, n);
    var g := MountainOf(k, n, i);
    if f < g {
      TilesOrdered(k, Frontier(k, n), n, f, g);
    } else if g < f {
      TilesOrdered(k, Frontier(k, n), n, g, f);
    }
  }

  // ------------------------------------------------------------------ paths

  /** The subtree of height `h` that holds leaf `i`. */
  function Anc(k: Arity, i: nat, h: nat): (c: Coord)
    ensures c.height == h
    decreases h
  {
    if h == 0 then Coord(i, 0) else Up(k, Anc(k, Quot(k, i), h - 1))
  }

  /** The base-k digit `h` of `i`. */
  function Digit(k: Arity, i: nat, h: nat): (d: nat)
    ensures d < k
    decreases h
  {
    if h == 0 then Rem(k, i) else Digit(k, Quot(k, i), h - 1)
  }

  function Child(k: Arity, c: Coord, j: nat): Coord
    requires c.height > 0
  {
    Coord(c.left + Times(Pow(k, c.height - 1), j), c.height - 1)
  }

  lemma UpChild(k: Arity, c: Coord, j: nat)
    requires c.height > 0
    ensures Child(k, Up(k, c), j) == Up(k, Child(k, c, j))
  {
    var p := Pow(k, c.height - 1);
    TimesAdd(k, c.left, Times(p, j));
    TimesAssoc(k, p, j);
  }

  function Children(k: Arity, c: Coord): (r: seq<Coord>)
    requires c.height > 0
    ensures |r| == k
    ensures forall j :: 0 <= j < k ==> r[j] == Child(k, c, j)
  {
    seq(k, j requires 0 <= j < k => Child(k, c, j))
  }

  lemma LeafChildren(k: Arity, left: nat)
    ensures Children(k, Coord(left, 1)) == Leaves(left, k)
  {
    hide Times, Quot;
    PowSucc(k, 0);
    forall j | 0 <= j < k
      ensures Children(k, Coord(left, 1))[j] == Coord(left + j, 0)
    {
      TimesIs(1, j);
    }
  }

  lemma ChildrenUp(k: Arity, c: Coord)
    requires c.height > 0
    ensures Children(k, Up(k, c)) == UpAll(k, Children(k, c))
  {
    hide Times, Quot;
    forall j | 0 <= j < k
      ensures Children(k, Up(k, c))[j] == UpAll(k, Children(k, c))[j]
    {
      UpChild(k, c, j);
    }
  }

  /** The path to leaf `i` leaves the subtree above height `h` at child `Digit(i, h)`. */
  lemma {:induction false} AncChild(k: Arity, i: nat, h: nat)
    ensures Child(k, Anc(k, i, h + 1), Digit(k, i, h)) == Anc(k, i, h)
    decreases h
  {
    if h == 0 {
      assert Anc(k, Quot(k, i), 0) == Coord(Quot(k, i), 0);
      TimesIs(1, Rem(k, i));
    } else {
      AncChild(k, Quot(k, i), h - 1);
      UpChild(k, Anc(k, Quot(k, i), h), Digit(k, Quot(k, i), h - 1));
    }
  }

  lemma {:induction false} AncContains(k: Arity, i: nat, h: nat)
    ensures Contains(k, Anc(k, i, h), i) && Aligned(k, Anc(k, i, h))
    decreases h
  {
    if h > 0 {
      AncContains(k, Quot(k, i), h - 1);
      UpContains(k, Anc(k, Quot(k, i), h - 1), i);
      UpDown(k, Anc(k, Quot(k, i), h - 1));
    }
  }

  /** An aligned subtree is the ancestor, at its height, of each leaf it holds. */
  lemma {:induction false} AlignedIsAnc(k: Arity, c: Coord, i: nat)
    requires Aligned(k, c) && Contains(k, c, i)
    ensures c == Anc(k, i, c.height)
    decreases c.height
  {
    if c.height > 0 {
      DownUp(k, c);
      UpContains(k, Down(k, c), i);
      AlignedIsAnc(k, Down(k, c), Quot(k, i));
    }
  }

  /** Aligned subtrees that share a leaf are nested by height. */
  lemma Nested(k: Arity, c: Coord, d: Coord, i: nat)
    requires Aligned(k, c) && Aligned(k, d) && Contains(k, c, i) && Contains(k, d, i)
    requires c.height <= d.height
    ensures d.left <= c.left && End(k, c) <= End(k, d)
  {
    hide Aligned;
    AlignedIsAnc(k, c, i);
    AlignedIsAnc(k, d, i);
    AncInside(k, i, c.height, d.height);
  }

  lemma {:induction false} AncInside(k: Arity, i: nat, g: nat, h: nat)
    requires g <= h
    ensures Anc(k, i, h).left <= Anc(k, i, g).left && End(k, Anc(k, i, g)) <= End(k, Anc(k, i, h))
    decreases h - g
  {
    hide Anc, Digit, Times;
    if g < h {
      AncInside(k, i, g, h - 1);
      AncChild(k, i, h - 1);
      var c, j := Anc(k, i, h), Digit(k, i, h - 1);
      var p := Pow(k, h - 1);
      PowSucc(k, h - 1);
      TimesGap(p, j + 1, k);
      TimesSucc(p, j);
      TimesComm(p, k);
    }
  }

  /** The left siblings of the path from leaf `i` up to height `h`, highest first. */
  function LeftSibs(k: Arity, i: nat, h: nat): seq<Coord>
    decreases h
  {
    if h == 0 then [] else LeftSibsAt(k, i, h - 1) + LeftSibs(k, i, h - 1)
  }

  function LeftSibsAt(k: Arity, i: nat, h: nat): seq<Coord> {
    Children(k, Anc(k, i, h + 1))[..Digit(k, i, h)]
  }

  lemma LeftSibsAtUp(k: Arity, i: nat, h: nat)
    requires h > 0
    ensures LeftSibsAt(k, i, h) == UpAll(k, LeftSibsAt(k, Quot(k, i), h - 1))
  {
    ChildrenUp(k, Anc(k, Quot(k, i), h));
  }

  lemma LeftSibsUnfold(k: Arity, i: nat, h: nat)
    requires h > 0
    ensures LeftSibs(k, i, h) == LeftSibsAt(k, i, h - 1) + LeftSibs(k, i, h - 1)
    ensures LeftSibs(k, i, 0) == []
  {
  }

  lemma LeftSibsOne(k: Arity, i: nat)
    ensures LeftSibs(k, i, 1) == Leaves(Times(k, Quot(k, i)), Rem(k, i))
  {
    hide Times, Quot;
    LeafChildren(k, Times(k, Quot(k, i)));
    assert Anc(k, Quot(k, i), 0) == Coord(Quot(k, i), 0);
    LeftSibsUnfold(k, i, 1);
  }

  lemma {:induction false} LeftSibsLow(k: Arity, i: nat, h: nat)
    requires h > 0
    ensures LeftSibs(k, i, h)
         == UpAll(k, LeftSibs(k, Quot(k, i), h - 1)) + Leaves(Times(k, Quot(k, i)), Rem(k, i))
    decreases h
  {
    hide *;
    var q, low := Quot(k, i), Leaves(Times(k, Quot(k, i)), Rem(k, i));
    LeftSibsUnfold(k, q, 1);
    if h == 1 {
      LeftSibsOne(k, i);
      assert UpAll(k, LeftSibs(k, q, 0)) + low == low;
    } else {
      LeftSibsLow(k, i, h - 1);
      LeftSibsAtUp(k, i, h - 1);
      LeftSibsUnfold(k, i, h);
      LeftSibsUnfold(k, q, h - 1);
      var at, rest := LeftSibsAt(k, q, h - 2), LeftSibs(k, q, h - 2);
      UpAllConcat(k, at, rest);
      Assoc(UpAll(k, at), UpAll(k, rest), low);
    }
  }

  lemma {:induction false} AlignedDigit(k: Arity, c: Coord, g: nat)
    requires Aligned(k, c) && g < c.height
    ensures Digit(k, c.left, g) == 0
    decreases g
  {
    if g > 0 {
      AlignedDigit(k, Down(k, c), g - 1);
    }
  }

  /** Digits of zero contribute no left sibling. */
  lemma {:induction false} LeftSibsAligned(k: Arity, c: Coord, h: nat)
    requires Aligned(k, c) && h <= c.height
    ensures LeftSibs(k, c.left, h) == []
    decreases h
  {
    if h > 0 {
      LeftSibsAligned(k, c, h - 1);
      AlignedDigit(k, c, h - 1);
    }
  }

  /**
   The frontier of `i` leaves, read off the path to leaf `i` in a larger tree: the
   subtrees left of the one holding `i`, then the left siblings met on the way down.
   */
  lemma {:induction false} FrontierFromPath(k: Arity, n: nat, i: nat)
    requires i < n
    ensures MountainOf(k, n, i) < |Frontier(k, n)|
    ensures var f := MountainOf(k, n, i);
            Frontier(k, i) == Frontier(k, n)[..f] + LeftSibs(k, i, Frontier(k, n)[f].height)
    decreases n
  {
    hide *;
    QuotMono(k, i, n);
    var q, p := Quot(k, n), Quot(k, i);
    var f := MountainOf(k, n, i);
    MountainStep(k, n, i);
    FrontierAt(k, i, p, Rem(k, i));
    FrontierAt(k, n, q, Rem(k, n));
    if p == q {
      LeftSibsUnfold(k, i, 1);
      LowPart(k, Frontier(k, q), Times(k, q), Rem(k, n), Rem(k, i));
      assert Frontier(k, n)[..f] + [] == Frontier(k, n)[..f];
    } else {
      FrontierFromPath(k, q, p);
      var c := Frontier(k, q)[f];
      HighPart(k, Frontier(k, q), Leaves(Times(k, q), Rem(k, n)), f);
      LeftSibsLow(k, i, c.height + 1);
      UpAllConcat(k, Frontier(k, q)[..f], LeftSibs(k, p, c.height));
      Assoc(UpAll(k, Frontier(k, q)[..f]), UpAll(k, LeftSibs(k, p, c.height)), Leaves(Times(k, p), Rem(k, i)));
    }
  }

  lemma MountainStep(k: Arity, n: nat, i: nat)
    requires i < n
    ensures Quot(k, i) <= Quot(k, n) && (Quot(k, i) == Quot(k, n) ==> Rem(k, i) < Rem(k, n))
    ensures MountainOf(k, n, i) ==
              if Quot(k, i) == Quot(k, n) then |Frontier(k, Quot(k, n))| + Rem(k, i)
              else MountainOf(k, Quot(k, n), Quot(k, i))
  {
    hide Frontier, Quot;
    QuotMono(k, i, n);
  }

  lemma LowPart(k: Arity, high: seq<Coord>, left: nat, r: nat, s: nat)
    requires s < r
    ensures var f := UpAll(k, high) + Leaves(left, r);
            |high| + s < |f| && f[..|high| + s] == UpAll(k, high) + Leaves(left, s) &&
            f[|high| + s] == Coord(left + s, 0)
  {
    hide Times;
  }

  lemma HighPart(k: Arity, high: seq<Coord>, low: seq<Coord>, f: nat)
    requires f < |high|
    ensures var all := UpAll(k, high) + low;
            all[..f] == UpAll(k, high[..f]) && all[f] == Up(k, high[f]) && all[f].height == high[f].height + 1
  {
    hide Times;
  }

  /** Dropping the last (smallest) subtree leaves the frontier of the leaves before it. */
  lemma {:induction false} FrontierInit(k: Arity, n: nat)
    requires n > 0
    ensures |Frontier(k, n)| > 0
    ensures var last := Frontier(k, n)[|Frontier(k, n)| - 1];
            last.left < n && Frontier(k, n) == Frontier(k, last.left) + [last]
    decreases n
  {
    hide *;
    var q, r := Quot(k, n), Rem(k, n);
    var high := Frontier(k, q);
    FrontierAt(k, n, q, r);
    if r > 0 {
      var m, last := n - 1, Coord(n - 1, 0);
      FrontierAt(k, m, q, r - 1);
      LeavesSnoc(Times(k, q), r - 1);
      Assoc(UpAll(k, high), Leaves(Times(k, q), r - 1), [last]);
      Parts(Frontier(k, n), Frontier(k, m), [last]);
    } else {
      NoLeaves(Times(k, q));
      TimesGap(k, 0, q);
      assert q > 0;
      FrontierInit(k, q);
      var last := high[|high| - 1];
      TimesGap(k, last.left, q);
      var m := Times(k, last.left);
      FrontierAt(k, m, last.left, 0);
      NoLeaves(m);
      UpAllConcat(k, Frontier(k, last.left), [last]);
      UpOne(k, last);
      assert Frontier(k, n) == UpAll(k, high) + [] == UpAll(k, high);
      assert Frontier(k, m) == UpAll(k, Frontier(k, last.left)) + [] == UpAll(k, Frontier(k, last.left));
    }
  }

  lemma LeavesSnoc(left: nat, count: nat)
    ensures Leaves(left, count + 1) == Leaves(left, count) + [Coord(left + count, 0)]
  {
  }

  lemma NoLeaves(left: nat)
    ensures Leaves(left, 0) == []
  {
  }

  lemma UpOne(k: Arity, c: Coord)
    ensures UpAll(k, [c]) == [Up(k, c)] && Up(k, c).left == Times(k, c.left)
  {
  }

  // ------------------------------------------------------------------ the carry

  /** How many merges the append at index `n` triggers: the trailing zeros of `n + 1`. */
  function Merges(k: Arity, n: nat): nat
    decreases n
  {
    if Rem(k, n) == k - 1 then 1 + Merges(k, Quot(k, n)) else 0
  }

  lemma SuccDigit(k: Arity, n: nat)
    ensures Rem(k, n) < k - 1 ==> Quot(k, n + 1) == Quot(k, n) && Rem(k, n + 1) == Rem(k, n) + 1
    ensures Rem(k, n) == k - 1 ==> Quot(k, n + 1) == Quot(k, n) + 1 && Rem(k, n + 1) == 0
  {
    hide Times, Quot, Pow;
    TimesSucc(k, Quot(k, n));
    if Rem(k, n) < k - 1 {
      QuotUnique(k, Quot(k, n), Rem(k, n) + 1);
    } else {
      QuotUnique(k, Quot(k, n) + 1, 0);
    }
  }

  /** The reduction schedule of the log. */
  method ReductionCount(n: nat, k: Arity) returns (count: nat)
    ensures count == Merges(k, n)
  {
    hide Times, Quot, Pow;
    count := 0;
    var m := n + 1;
    QuotIs(k, m);
    while m % k == 0
      invariant m >= 1 && Rem(k, m) == m % k
      invariant Merges(k, n) == count + Merges(k, m - 1)
      decreases m
    {
      QuotIs(k, m);
      SuccDigit(k, m - 1);
      count, m := count + 1, m / k;
      QuotIs(k, m);
    }
    SuccDigit(k, m - 1);
  }

  /** The subtree the append at index `n` completes at height `s`. */
  function Completed(k: Arity, n: nat, s: nat): (c: Coord)
    ensures c.height == s
    decreases s
  {
    if s == 0 then Coord(n, 0) else Up(k, Completed(k, Quot(k, n), s - 1))
  }

  /** The coordinate stack after pushing leaf `n` and performing `s` merges. */
  function Partial(k: Arity, n: nat, s: nat): seq<Coord>
    decreases s
  {
    if s == 0 then Frontier(k, n) + [Coord(n, 0)] else UpAll(k, Partial(k, Quot(k, n), s - 1))
  }

  /** Each merge replaces the `k` children of the completed subtree by that subtree. */
  lemma {:induction false} PartialStep(k: Arity, n: nat, s: nat)
    requires s < Merges(k, n)
    ensures var st := Partial(k, n, s);
            |st| >= k &&
            st[|st| - k..] == Children(k, Completed(k, n, s + 1)) &&
            Partial(k, n, s + 1) == st[..|st| - k] + [Completed(k, n, s + 1)]
    decreases s
  {
    hide *;
    var q := Quot(k, n);
    PartialUnfold(k, n, s);
    if s == 0 {
      PartialUnfold(k, q, 0);
      var high := UpAll(k, Frontier(k, q));
      LeafChildren(k, Times(k, q));
      FrontierAt(k, n, q, k - 1);
      LeavesSnoc(Times(k, q), k - 1);
      Assoc(high, Leaves(Times(k, q), k - 1), [Coord(n, 0)]);
      Parts(Partial(k, n, 0), high, Leaves(Times(k, q), k));
      UpAllConcat(k, Frontier(k, q), [Coord(q, 0)]);
      UpOne(k, Coord(q, 0));
    } else {
      PartialStep(k, q, s - 1);
      PartialUnfold(k, q, s - 1);
      PartialUnfold(k, n, s - 1);
      var st := Partial(k, q, s - 1);
      var head := st[..|st| - k];
      var c := Completed(k, q, s);
      ChildrenUp(k, c);
      UpAllConcat(k, head, [c]);
      UpAllConcat(k, head, Children(k, c));
      assert st == head + Children(k, c);
      Parts(Partial(k, n, s), UpAll(k, head), UpAll(k, Children(k, c)));
      UpOne(k, c);
    }
  }

  lemma PartialUnfold(k: Arity, n: nat, s: nat)
    ensures Partial(k, n, 0) == Frontier(k, n) + [Coord(n, 0)] && Completed(k, n, 0) == Coord(n, 0)
    ensures Partial(k, n, s + 1) == UpAll(k, Partial(k, Quot(k, n), s))
    ensures Completed(k, n, s + 1) == Up(k, Completed(k, Quot(k, n), s))
    ensures s < Merges(k, n) ==> Rem(k, n) == k - 1 && (s > 0 ==> s - 1 < Merges(k, Quot(k, n)))
    ensures Up(k, Coord(n, 0)) == Coord(Times(k, n), 1)
  {
    hide Times, Quot, Frontier;
  }

  /** After all its merges the stack is the frontier of `n + 1`. */
  lemma {:induction false} PartialDone(k: Arity, n: nat)
    ensures Partial(k, n, Merges(k, n)) == Frontier(k, n + 1)
    decreases n
  {
    hide Times, Quot, Pow;
    var q, r := Quot(k, n), Rem(k, n);
    SuccDigit(k, n);
    if r == k - 1 {
      assert Leaves(Times(k, q + 1), 0) == [];
      PartialDone(k, q);
    } else {
      FrontierAt(k, n, q, r);
      assert Leaves(Times(k, q), r + 1) == Leaves(Times(k, q), r) + [Coord(n, 0)];
    }
  }

  lemma {:induction false} CompletedEnd(k: Arity, n: nat, s: nat)
    requires s <= Merges(k, n)
    ensures End(k, Completed(k, n, s)) == n + 1 && Aligned(k, Completed(k, n, s))
    decreases s
  {
    hide Times, Quot;
    if s > 0 {
      TimesSucc(k, Quot(k, n));
      CompletedEnd(k, Quot(k, n), s - 1);
      UpEnd(k, Completed(k, Quot(k, n), s - 1));
      UpDown(k, Completed(k, Quot(k, n), s - 1));
    }
  }

  /** The append at `n` completes every aligned subtree ending at `n + 1`. */
  lemma {:induction false} CompletedAll(k: Arity, n: nat, c: Coord)
    requires Aligned(k, c) && End(k, c) == n + 1
    ensures c.height <= Merges(k, n) && c == Completed(k, n, c.height)
    decreases c.height
  {
    hide Times, Quot;
    if c.height > 0 {
      DownUp(k, c);
      UpEnd(k, Down(k, c));
      TimesSucc(k, End(k, Down(k, c)) - 1);
      QuotUnique(k, End(k, Down(k, c)) - 1, k - 1);
      CompletedAll(k, Quot(k, n), Down(k, c));
    }
  }

  function TotalMerges(k: Arity, n: nat): nat {
    if n == 0 then 0 else TotalMerges(k, n - 1) + Merges(k, n - 1)
  }

  lemma {:induction false} PartialLength(k: Arity, n: nat, s: nat)
    requires s <= Merges(k, n)
    ensures |Partial(k, n, s)| + Times(k - 1, s) == |Frontier(k, n)| + 1
  {
    if s > 0 {
      PartialLength(k, n, s - 1);
      PartialStep(k, n, s - 1);
    }
  }

  /** Over `n` appends every merge removes `k - 1` entries from the frontier. */
  lemma {:induction false} MergesTotal(k: Arity, n: nat)
    ensures (k - 1) * TotalMerges(k, n) == n - |Frontier(k, n)|
  {
    hide Times, Quot, Merges;
    if n > 0 {
      MergesTotal(k, n - 1);
      PartialLength(k, n - 1, Merges(k, n - 1));
      PartialDone(k, n - 1);
      TimesIs(k - 1, Merges(k, n - 1));
      TimesIs(k - 1, TotalMerges(k, n - 1));
      TimesIs(k - 1, TotalMerges(k, n));
      TimesAdd(k - 1, TotalMerges(k, n - 1), Merges(k, n - 1));
    }
  }
}
