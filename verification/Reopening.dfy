/**
 Reopening a frozen algorithm: its frontier is rebuilt from the stored nodes and leaves.
 On a log begun from a seal only the sealed peaks are stored of what came before, and the
 rebuilding is right exactly if it never has to look below one that matters.
 */
module Reopening {
  import opened Base
  import opened Topology
  import opened Spine
  import opened Shapes
  import opened Mountain
  import opened Blocks
  import Consistency
  import opened Epochs
  import opened Storage
  import opened Engine
  import opened Views

  /** A subtree inside `n` leaves whose parent is not is a frontier subtree of `n`. */
  lemma KnownIsFrontier(k: Arity, n: nat, c: Coord)
    requires Aligned(k, c) && End(k, c) <= n < End(k, Above(k, c))
    ensures c in Frontier(k, n)
  {
    hide Aligned, Anc, Frontier, MountainOf;
    AboveContains(k, c);
    Consistency.MountainCovers(k, n, c);
    MountainContains(k, n, c.left);
    FrontierTiles(k, n);
    var f := MountainOf(k, n, c.left);
    var m := Frontier(k, n)[f];
    TilesOrdered(k, Frontier(k, n), n, f, f);
    if c.height < m.height {
      Nested(k, Above(k, c), m, c.left);
    }
    AlignedIsAnc(k, c, c.left);
    AlignedIsAnc(k, m, c.left);
  }

  // ------------------------------------------------------------------ resuming an algorithm

  /** The leaf payloads behind the active cells of a flat log. */
  ghost predicate LeavesOk(kind: LogKind, leaves: seq<Bytes>, view: AlgView, cells: seq<Digest>) {
    kind == Flat ==>
      |leaves| == |cells| &&
      forall i :: 0 <= i < |cells| && ActiveAt(view.epochs, i) ==> cells[i] == view.hasher.leaf(leaves[i])
  }

  predicate Inside(k: Arity, d: Coord, c: Coord) { c.left <= d.left && End(k, d) <= End(k, c) }

  /** The rebuilt nodes are correct, and with the old ones cover every touched subtree of `c`. */
  ghost predicate Rebuilt(
      k: Arity, alg: nat, view: AlgView, cells: seq<Digest>, oldSize: nat, c: Coord, ws: seq<NodeWrite>)
  {
    && (forall w :: w in ws ==>
          w.key.alg == alg && Aligned(k, w.key.at) && Inside(k, w.key.at, c) &&
          w.hash == Block(view.hasher, k, cells, w.key.at))
    && (forall d: Coord ::
          Aligned(k, d) && d.height > 0 && Inside(k, d, c) && Touched(k, view, d) && End(k, d) > oldSize ==>
          exists w :: w in ws && w.key == NodeKey(alg, d))
  }

  /** What a reopening reads: the store and the algorithm's timeline with its new epoch. */
  datatype Source = Source(store: Store, alg: nat, view: AlgView, kind: LogKind)

  /** Resolves one position: a stored node of a subtree log (null if there is none), a leaf of a flat one. */
  function ResolveCell(x: Source, i: nat): Result<Digest> {
    if !ActiveAt(x.view.epochs, i) then Ok(Null(x.view.hasher))
    else
      match x.kind
      case SubtreeKind =>
        var key := NodeKey(x.alg, Coord(i, 0));
        Ok(if key in x.store.nodes then x.store.nodes[key] else Null(x.view.hasher))
      case Flat =>
        if i >= |x.store.leaves| then Err(StorageFailed) else Ok(x.view.hasher.leaf(x.store.leaves[i]))
  }

  predicate Stored(x: Source, c: Coord) { NodeKey(x.alg, c) in x.store.nodes }

  predicate Whole(k: Arity, view: AlgView, c: Coord) { FullyActive(view.epochs, c.left, End(k, c)) }

  /** What one aligned subtree resolves to, and the nodes to persist. */
  function Resolve(k: Arity, x: Source, c: Coord): (Digest, seq<NodeWrite>)
    decreases c.height, k + 1
  {
    if c.height == 0 then
      var cell := ResolveCell(x, c.left);
      (if cell.Ok? then cell.value else Null(x.view.hasher), [])
    else if !Touched(k, x.view, c) then (Null(x.view.hasher), [])
    else if Whole(k, x.view, c) && Stored(x, c) then (x.store.nodes[NodeKey(x.alg, c)], [])
    else
      var parts := ResolveUpTo(k, x, c, k);
      var hash := NaryMr(x.view.hasher, parts.0);
      (hash, parts.1 + [NodeWrite(NodeKey(x.alg, c), hash)])
  }

  /** The first `j` children of `c`. */
  function ResolveUpTo(k: Arity, x: Source, c: Coord, j: nat): (seq<Digest>, seq<NodeWrite>)
    requires c.height > 0 && j <= k
    decreases c.height, j
  {
    if j == 0 then ([], [])
    else
      var before, part := ResolveUpTo(k, x, c, j - 1), Resolve(k, x, Child(k, c, j - 1));
      (before.0 + [part.0], before.1 + part.1)
  }

  /** The subtrees of a list, left to right. */
  function ResolveAll(k: Arity, x: Source, cs: seq<Coord>): (seq<Digest>, seq<NodeWrite>) {
    if |cs| == 0 then ([], [])
    else
      var last := |cs| - 1;
      var before, part := ResolveAll(k, x, cs[..last]), Resolve(k, x, cs[last]);
      (before.0 + [part.0], before.1 + part.1)
  }

  /** Resolves one aligned subtree of a reopened algorithm, collecting the nodes to persist. */
  method ReconstructSubtreeRoot(x: Source, c: Coord, k: Arity) returns (r: Result<(Digest, seq<NodeWrite>)>)
    requires x.kind == Flat ==> End(k, c) <= |x.store.leaves|
    ensures r == Ok(Resolve(k, x, c))
    decreases c.height
  {
    hide NaryMr, Child, Touched, Whole;
    if c.height == 0 {
      CellEnd(k, c);
      var cell := ResolveCell(x, c.left);
      return Ok((cell.value, []));
    }
    if !Touched(k, x.view, c) {
      return Ok((Null(x.view.hasher), []));
    }
    if Whole(k, x.view, c) && Stored(x, c) {
      return Ok((x.store.nodes[NodeKey(x.alg, c)], []));
    }
    var childHashes: seq<Digest> := [];
    var mixed: seq<NodeWrite> := [];
    for j := 0 to k
      invariant (childHashes, mixed) == ResolveUpTo(k, x, c, j)
    {
      ChildInside(k, c, j);
      var part := ReconstructSubtreeRoot(x, Child(k, c, j), k);
      childHashes := childHashes + [part.value.0];
      mixed := mixed + part.value.1;
    }
    var hash := NaryMr(x.view.hasher, childHashes);
    r := Ok((hash, mixed + [NodeWrite(NodeKey(x.alg, c), hash)]));
  }

  lemma CellEnd(k: Arity, c: Coord)
    requires c.height == 0
    ensures End(k, c) == c.left + 1
  {
  }

  // ------------------------------------------------------------------ what is resolved and written

  lemma ResolveStep(k: Arity, x: Source, c: Coord, j: nat)
    requires c.height > 0 && j < k
    ensures var before, part := ResolveUpTo(k, x, c, j), Resolve(k, x, Child(k, c, j));
            ResolveUpTo(k, x, c, j + 1) == (before.0 + [part.0], before.1 + part.1)
    ensures ResolveUpTo(k, x, c, 0) == ([], [])
  {
    hide NaryMr, Child, Touched, Whole;
  }

  /** Where nothing is written: leaves, untouched subtrees, and whole ones that are stored. */
  predicate Flatly(k: Arity, x: Source, c: Coord) {
    c.height == 0 || !Touched(k, x.view, c) || (Whole(k, x.view, c) && Stored(x, c))
  }

  lemma ResolveTop(k: Arity, x: Source, c: Coord)
    requires !Flatly(k, x, c)
    ensures c.height > 0 && Touched(k, x.view, c)
    ensures var parts := ResolveUpTo(k, x, c, k);
            var hash := NaryMr(x.view.hasher, parts.0);
            Resolve(k, x, c) == (hash, parts.1 + [NodeWrite(NodeKey(x.alg, c), hash)])
  {
    hide NaryMr, Child, Touched, Whole;
  }

  lemma ResolveFlat(k: Arity, x: Source, c: Coord)
    requires Flatly(k, x, c)
    ensures Resolve(k, x, c).1 == []
    ensures c.height > 0 && !Touched(k, x.view, c) ==> Resolve(k, x, c).0 == Null(x.view.hasher)
    ensures c.height > 0 && Touched(k, x.view, c) ==>
              Whole(k, x.view, c) && Stored(x, c) && Resolve(k, x, c).0 == x.store.nodes[NodeKey(x.alg, c)]
    ensures c.height == 0 && ResolveCell(x, c.left).Ok? ==> Resolve(k, x, c).0 == ResolveCell(x, c.left).value
  {
    hide NaryMr, Child, Touched, Whole, ResolveCell;
  }

  /** A write is a touched subtree's own resolution. */
  ghost predicate WriteOk(k: Arity, x: Source, c: Coord, w: NodeWrite) {
    && w.key.alg == x.alg && Aligned(k, w.key.at) && Inside(k, w.key.at, c)
    && w.key.at.height > 0 && Touched(k, x.view, w.key.at) && w.hash == Resolve(k, x, w.key.at).0
  }

  lemma {:induction false} WritesAre(k: Arity, x: Source, c: Coord)
    requires Aligned(k, c)
    ensures forall w :: w in Resolve(k, x, c).1 ==> WriteOk(k, x, c, w)
    decreases c.height, k + 1
  {
    hide *;
    if Flatly(k, x, c) {
      ResolveFlat(k, x, c);
    } else {
      ResolveTop(k, x, c);
      WritesUpTo(k, x, c, k);
      OwnWrite(k, x, c, NodeWrite(NodeKey(x.alg, c), Resolve(k, x, c).0));
    }
  }

  lemma OwnWrite(k: Arity, x: Source, c: Coord, w: NodeWrite)
    requires c.height > 0 && Aligned(k, c) && Touched(k, x.view, c) &&
             w == NodeWrite(NodeKey(x.alg, c), Resolve(k, x, c).0)
    ensures WriteOk(k, x, c, w)
  {
    hide Aligned, Touched, Resolve;
  }

  lemma WriteWider(k: Arity, x: Source, c: Coord, d: Coord, w: NodeWrite)
    requires WriteOk(k, x, c, w) && Inside(k, c, d)
    ensures WriteOk(k, x, d, w)
  {
    hide Aligned, Touched, Resolve;
  }

  lemma {:induction false} WritesUpTo(k: Arity, x: Source, c: Coord, j: nat)
    requires c.height > 0 && j <= k && Aligned(k, c)
    ensures forall w :: w in ResolveUpTo(k, x, c, j).1 ==> WriteOk(k, x, c, w)
    decreases c.height, j
  {
    hide *;
    if j == 0 {
      ResolveStep(k, x, c, 0);
    } else {
      var d := Child(k, c, j - 1);
      ResolveStep(k, x, c, j - 1);
      WritesUpTo(k, x, c, j - 1);
      ChildIn(k, c, j - 1);
      WritesAre(k, x, d);
      forall w | w in Resolve(k, x, d).1
        ensures WriteOk(k, x, c, w)
      {
        WriteWider(k, x, d, c, w);
      }
    }
  }

  lemma ChildIn(k: Arity, c: Coord, j: nat)
    requires c.height > 0 && j < k && Aligned(k, c)
    ensures var d := Child(k, c, j);
            Inside(k, d, c) && d.height == c.height - 1 && Aligned(k, d) && d != c && Above(k, d) == c
  {
    hide Aligned, Anc, Times;
    ChildInside(k, c, j);
    var d := Child(k, c, j);
    assert Contains(k, c, d.left);
    AlignedIsAnc(k, c, d.left);
  }

  lemma CellBlock(h: Hasher, k: Arity, cells: seq<Digest>, c: Coord)
    requires c.height == 0 && End(k, c) <= |cells|
    ensures c.left < |cells| && Block(h, k, cells, c) == cells[c.left]
  {
  }

  lemma ActiveCellStored(
      k: Arity, nodes: map<NodeKey, Digest>, alg: nat, view: AlgView, cells: seq<Digest>, base: nat, c: Coord)
    requires NodesOk(k, nodes, alg, view, cells, base) && c.height == 0 && End(k, c) <= |cells| && Known(k, base, c)
    requires c.left < TreeSize(view.epochs, |cells|) && ActiveAt(view.epochs, c.left)
    ensures NodeKey(alg, c) in nodes && nodes[NodeKey(alg, c)] == Block(view.hasher, k, cells, c)
  {
    hide Block, Anc;
    PowSucc(k, 0);
    var j :| 0 <= j < |view.epochs| && view.epochs[j].start <= c.left < view.epochs[j].end;
    assert Touched(k, view, c);
    assert InTree(k, view, |cells|, base, c) && MustStore(k, view, cells, c);
  }

  /** A subtree that one epoch covers was complete before the algorithm froze. */
  lemma FullyActiveOld(k: Arity, old_: AlgView, n: nat, c: Coord)
    requires WellFormed(old_.epochs, n) && !IsActive(old_.epochs) && n < OPEN && End(k, c) <= n
    requires FullyActive(old_.epochs + [Epoch(n, OPEN)], c.left, End(k, c))
    ensures End(k, c) <= TreeSize(old_.epochs, n)
  {
    var es := old_.epochs + [Epoch(n, OPEN)];
    var j :| 0 <= j < |es| && es[j].start <= c.left && End(k, c) <= es[j].end;
    if j < |old_.epochs| - 1 {
      assert old_.epochs[j].end <= old_.epochs[|old_.epochs| - 1].start;
    }
  }

  lemma RebuiltNone(k: Arity, alg: nat, view: AlgView, cells: seq<Digest>, t: nat, c: Coord)
    requires c.height == 0
    ensures Rebuilt(k, alg, view, cells, t, c, [])
  {
    hide Aligned, Block;
    forall d: Coord | d.height > 0
      ensures !Inside(k, d, c)
    {
      NullHeight(k, d.height);
      assert Pow(k, 0) == 1;
    }
  }

  lemma {:induction false} NullHeight(k: Arity, h: nat)
    requires h > 0
    ensures Pow(k, h) > 1
  {
    PowSucc(k, h - 1);
    TimesComm(k, Pow(k, h - 1));
    TimesGap(Pow(k, h - 1), 1, k);
  }

  lemma UntouchedInside(k: Arity, alg: nat, view: AlgView, cells: seq<Digest>, t: nat, c: Coord)
    requires !Touched(k, view, c)
    ensures Rebuilt(k, alg, view, cells, t, c, [])
  {
    hide Aligned, Block, Touched;
    forall d: Coord | Inside(k, d, c)
      ensures !Touched(k, view, d)
    {
      UntouchedPart(k, view, d, c);
    }
  }

  lemma UntouchedPart(k: Arity, view: AlgView, d: Coord, c: Coord)
    requires !Touched(k, view, c) && Inside(k, d, c)
    ensures !Touched(k, view, d)
  {
  }

  lemma RebuiltOld(k: Arity, alg: nat, view: AlgView, cells: seq<Digest>, t: nat, c: Coord)
    requires End(k, c) <= t
    ensures Rebuilt(k, alg, view, cells, t, c, [])
  {
  }

  /** The first `j` children are rebuilt. */
  ghost predicate RebuiltUpTo(
      k: Arity, alg: nat, view: AlgView, cells: seq<Digest>, t: nat, c: Coord, j: nat, ws: seq<NodeWrite>)
    requires c.height > 0
  {
    && (forall w :: w in ws ==>
          w.key.alg == alg && Aligned(k, w.key.at) && Inside(k, w.key.at, c) &&
          w.hash == Block(view.hasher, k, cells, w.key.at))
    && (forall d: Coord, g: nat ::
          g < j && Aligned(k, d) && d.height > 0 && Inside(k, d, Child(k, c, g)) && Touched(k, view, d) &&
            End(k, d) > t ==>
          exists w :: w in ws && w.key == NodeKey(alg, d))
  }

  lemma RebuiltJoin(
      k: Arity, alg: nat, view: AlgView, cells: seq<Digest>, t: nat, c: Coord, j: nat, ws: seq<NodeWrite>,
      more: seq<NodeWrite>)
    requires c.height > 0 && j < k && RebuiltUpTo(k, alg, view, cells, t, c, j, ws)
    requires Rebuilt(k, alg, view, cells, t, Child(k, c, j), more)
    ensures RebuiltUpTo(k, alg, view, cells, t, c, j + 1, ws + more)
  {
    hide Aligned, Block, Touched, Child;
    ChildInside(k, c, j);
    forall d: Coord, g: nat | g < j + 1 && Aligned(k, d) && d.height > 0 && Inside(k, d, Child(k, c, g)) &&
                              Touched(k, view, d) && End(k, d) > t
      ensures exists w :: w in ws + more && w.key == NodeKey(alg, d)
    {
      if g < j {
        var w :| w in ws && w.key == NodeKey(alg, d);
        assert w in ws + more;
      } else {
        var w :| w in more && w.key == NodeKey(alg, d);
        assert w in ws + more;
      }
    }
  }

  /** An aligned subtree strictly inside another lies inside one of its children. */
  lemma InsideChild(k: Arity, d: Coord, c: Coord)
    requires Aligned(k, c) && Aligned(k, d) && Inside(k, d, c) && d != c
    ensures d.height < c.height && Inside(k, d, Child(k, c, Digit(k, d.left, c.height - 1)))
  {
    hide Aligned, Anc, Digit, Child;
    AlignedIsAnc(k, c, d.left);
    AlignedIsAnc(k, d, d.left);
    if d.height >= c.height {
      Nested(k, c, d, d.left);
      AlignedIsAnc(k, d, c.left);
      SameSpan(k, c, d);
    } else {
      AncChild(k, d.left, c.height - 1);
      AncContains(k, d.left, c.height - 1);
      Nested(k, d, Anc(k, d.left, c.height - 1), d.left);
    }
  }

  lemma SameSpan(k: Arity, c: Coord, d: Coord)
    requires c.left == d.left && End(k, c) == End(k, d) && c.height <= d.height
    ensures c.height == d.height
  {
    if c.height < d.height {
      SpanGrows(k, c.height, d.height);
    }
  }

  lemma {:induction false} SpanGrows(k: Arity, g: nat, h: nat)
    requires g < h
    ensures Pow(k, g) < Pow(k, h)
    decreases h - g
  {
    PowSucc(k, h - 1);
    TimesComm(k, Pow(k, h - 1));
    TimesGap(Pow(k, h - 1), 1, k);
    if g + 1 < h {
      SpanGrows(k, g, h - 1);
    }
  }

  lemma RebuiltTop(
      k: Arity, alg: nat, view: AlgView, cells: seq<Digest>, t: nat, c: Coord, ws: seq<NodeWrite>)
    requires c.height > 0 && Aligned(k, c) && RebuiltUpTo(k, alg, view, cells, t, c, k, ws)
    ensures Rebuilt(k, alg, view, cells, t, c, ws + [NodeWrite(NodeKey(alg, c), Block(view.hasher, k, cells, c))])
  {
    hide Aligned, Block, Touched, Child, Digit;
    var top := NodeWrite(NodeKey(alg, c), Block(view.hasher, k, cells, c));
    forall d: Coord | Aligned(k, d) && d.height > 0 && Inside(k, d, c) && Touched(k, view, d) && End(k, d) > t
      ensures exists w :: w in ws + [top] && w.key == NodeKey(alg, d)
    {
      if d == c {
        assert top in ws + [top];
      } else {
        InsideChild(k, d, c);
        var w :| w in ws && w.key == NodeKey(alg, d);
        assert w in ws + [top];
      }
    }
  }

  /** The frontier subtrees rebuilt so far. */
  ghost predicate RebuiltFrontier(
      k: Arity, alg: nat, view: AlgView, cells: seq<Digest>, t: nat, cs: seq<Coord>, ws: seq<NodeWrite>)
  {
    && (forall w :: w in ws ==>
          w.key.alg == alg && Aligned(k, w.key.at) && End(k, w.key.at) <= |cells| &&
          w.hash == Block(view.hasher, k, cells, w.key.at))
    && (forall d: Coord, c: Coord ::
          c in cs && Aligned(k, d) && d.height > 0 && Inside(k, d, c) && Touched(k, view, d) && End(k, d) > t ==>
          exists w :: w in ws && w.key == NodeKey(alg, d))
  }

  lemma RebuiltEmpty(k: Arity, alg: nat, view: AlgView, cells: seq<Digest>, t: nat)
    ensures RebuiltFrontier(k, alg, view, cells, t, [], [])
  {
  }

  lemma RebuiltSame(
      k: Arity, alg: nat, view: AlgView, view': AlgView, cells: seq<Digest>, t: nat, cs: seq<Coord>, ws: seq<NodeWrite>)
    requires RebuiltFrontier(k, alg, view, cells, t, cs, ws)
    requires view.hasher == view'.hasher && view.epochs == view'.epochs
    ensures RebuiltFrontier(k, alg, view', cells, t, cs, ws)
  {
  }

  lemma RebuiltAdd(
      k: Arity, alg: nat, view: AlgView, cells: seq<Digest>, t: nat, cs: seq<Coord>, c: Coord, ws: seq<NodeWrite>,
      more: seq<NodeWrite>)
    requires RebuiltFrontier(k, alg, view, cells, t, cs, ws) && Rebuilt(k, alg, view, cells, t, c, more)
    requires End(k, c) <= |cells|
    ensures RebuiltFrontier(k, alg, view, cells, t, cs + [c], ws + more)
  {
    hide Aligned, Block, Touched;
    forall d: Coord, e: Coord | e in cs + [c] && Aligned(k, d) && d.height > 0 && Inside(k, d, e) &&
                                Touched(k, view, d) && End(k, d) > t
      ensures exists w :: w in ws + more && w.key == NodeKey(alg, d)
    {
      if e in cs {
        var w :| w in ws && w.key == NodeKey(alg, d);
        assert w in ws + more;
      } else {
        var w :| w in more && w.key == NodeKey(alg, d);
        assert w in ws + more;
      }
    }
  }

  // ------------------------------------------------------------------ sealed peaks

  /** Every touched subtree of more than one leaf in `f` folds to null. */
  ghost predicate Emptied(k: Arity, view: AlgView, cells: seq<Digest>, f: Coord) {
    forall d: Coord ::
      Aligned(k, d) && d.height > 0 && Inside(k, d, f) && Touched(k, view, d) ==>
      Block(view.hasher, k, cells, d) == Null(view.hasher)
  }

  /**
   Of what was sealed the touched peaks are stored, and below a peak at most what an
   earlier reopening wrote under one that folds to null.
   */
  ghost predicate PeaksOnly(
      k: Arity, nodes: map<NodeKey, Digest>, alg: nat, view: AlgView, cells: seq<Digest>, base: nat)
  {
    && (forall f :: f in Frontier(k, base) && Touched(k, view, f) ==> NodeKey(alg, f) in nodes)
    && (forall f, c: Coord :: f in Frontier(k, base) && NodeKey(alg, c) in nodes && Inside(k, c, f) && c != f ==>
          c.height > 0 && Emptied(k, view, cells, f))
  }

  /** Each sealed peak is a single leaf, lies within one epoch, or folds to null all the way down. */
  ghost predicate Recoverable(k: Arity, view: AlgView, cells: seq<Digest>, base: nat) {
    forall f :: f in Frontier(k, base) ==> f.height == 0 || Whole(k, view, f) || Emptied(k, view, cells, f)
  }

  /** A log begun empty has no sealed peaks. */
  lemma BegunEmpty(k: Arity, view: AlgView, cells: seq<Digest>)
    ensures Recoverable(k, view, cells, 0)
  {
    NoPeaks(k);
  }

  /** A frozen algorithm in order, about to be reopened. */
  ghost predicate Frozen(k: Arity, x: Source, old_: AlgView, cells: seq<Digest>, base: nat) {
    && ViewOk(k, old_, cells) && NodesOk(k, x.store.nodes, x.alg, old_, cells, base) && |cells| < OPEN
    && !IsActive(old_.epochs) && x.view.hasher == old_.hasher && x.view.epochs == old_.epochs + [Epoch(|cells|, OPEN)]
    && LeavesOk(x.kind, x.store.leaves, old_, cells) && base <= TreeSize(old_.epochs, |cells|)
    && (base > 0 ==> x.kind == SubtreeKind)
    && PeaksOnly(k, x.store.nodes, x.alg, old_, cells, base)
  }

  /** Below `f` nothing is stored but nulls, and no leaf. */
  ghost predicate OnlyNulls(k: Arity, x: Source, f: Coord) {
    forall c: Coord :: Inside(k, c, f) && c != f && Stored(x, c) ==>
      c.height > 0 && x.store.nodes[NodeKey(x.alg, c)] == Null(x.view.hasher)
  }

  lemma CellNull(x: Source, c: Coord)
    requires x.kind == SubtreeKind && c.height == 0 && !Stored(x, c)
    ensures ResolveCell(x, c.left) == Ok(Null(x.view.hasher))
  {
    hide ActiveAt;
    assert c == Coord(c.left, 0);
  }

  /** Under such a subtree everything resolves to null. */
  lemma {:induction false} ResolvesNull(k: Arity, x: Source, f: Coord, d: Coord)
    requires x.kind == SubtreeKind && f.height > 0 && OnlyNulls(k, x, f) && Aligned(k, d) && Inside(k, d, f)
    requires d == f ==> !Flatly(k, x, d)
    ensures Resolve(k, x, d).0 == Null(x.view.hasher)
    decreases d.height, k + 1
  {
    NullsBelow(k, x, f, d);
    hide *;
    if Flatly(k, x, d) {
      ResolveFlat(k, x, d);
      if d.height == 0 {
        CellNull(x, d);
      }
    } else {
      ResolveTop(k, x, d);
      NullChildren(k, x, f, d, k);
      AllNullIs(x.view.hasher, ResolveUpTo(k, x, d, k).0);
    }
  }

  lemma NullsBelow(k: Arity, x: Source, f: Coord, d: Coord)
    requires OnlyNulls(k, x, f) && Inside(k, d, f)
    ensures d != f && Stored(x, d) ==> d.height > 0 && x.store.nodes[NodeKey(x.alg, d)] == Null(x.view.hasher)
  {
  }

  lemma AllNullIs(h: Hasher, ds: seq<Digest>)
    requires |ds| > 0 && forall i :: 0 <= i < |ds| ==> ds[i] == Null(h)
    ensures NaryMr(h, ds) == Null(h)
  {
  }

  lemma {:induction false} NullChildren(k: Arity, x: Source, f: Coord, d: Coord, j: nat)
    requires x.kind == SubtreeKind && f.height > 0 && OnlyNulls(k, x, f) && Aligned(k, d) && Inside(k, d, f)
    requires d.height > 0 && j <= k
    ensures |ResolveUpTo(k, x, d, j).0| == j
    ensures forall i :: 0 <= i < j ==> ResolveUpTo(k, x, d, j).0[i] == Null(x.view.hasher)
    decreases d.height, j
  {
    hide *;
    ResolveStep(k, x, d, 0);
    if j > 0 {
      NullChildren(k, x, f, d, j - 1);
      ResolveStep(k, x, d, j - 1);
      ChildIn(k, d, j - 1);
      BelowStrict(k, d, f, j - 1);
      ResolvesNull(k, x, f, Child(k, d, j - 1));
    }
  }

  lemma BelowStrict(k: Arity, d: Coord, f: Coord, j: nat)
    requires d.height > 0 && j < k && Aligned(k, d) && Inside(k, d, f)
    ensures Inside(k, Child(k, d, j), f) && Child(k, d, j) != f
  {
    hide Aligned;
    ChildIn(k, d, j);
    SpanGrows(k, d.height - 1, d.height);
    hide Child;
  }

  // ------------------------------------------------------------------ when reopening is right

  lemma EmptiedSame(k: Arity, old_: AlgView, view: AlgView, cells: seq<Digest>, f: Coord)
    requires view.hasher == old_.hasher && End(k, f) <= |cells|
    requires forall c: Coord :: End(k, c) <= |cells| ==> (Touched(k, view, c) <==> Touched(k, old_, c))
    ensures Emptied(k, view, cells, f) <==> Emptied(k, old_, cells, f)
  {
    hide Touched, Block, Aligned;
  }

  /** The new epoch changes nothing below the present size. */
  lemma BelowSame(k: Arity, x: Source, old_: AlgView, cells: seq<Digest>, base: nat)
    requires Frozen(k, x, old_, cells, base)
    ensures forall c: Coord :: End(k, c) <= |cells| ==> (Touched(k, x.view, c) <==> Touched(k, old_, c))
    ensures forall c: Coord :: End(k, c) <= |cells| ==> (Whole(k, x.view, c) <==> Whole(k, old_, c))
    ensures forall i :: 0 <= i < |cells| ==> (ActiveAt(x.view.epochs, i) <==> ActiveAt(old_.epochs, i))
    ensures base <= TreeSize(old_.epochs, |cells|) <= |cells|
  {
    hide NodesOk, Frontier, Peaks, PeaksOnly, LeavesOk;
    ReopenBelow(old_.epochs, x.view.epochs, |cells|);
    hide WellFormed, ActiveAt, ActiveRange;
    forall c: Coord | End(k, c) <= |cells|
      ensures Whole(k, x.view, c) <==> Whole(k, old_, c)
      ensures Touched(k, x.view, c) <==> Touched(k, old_, c)
    {
      WholeSame(k, x.view, old_, |cells|, c);
    }
  }

  lemma WholeSame(k: Arity, view: AlgView, old_: AlgView, n: nat, c: Coord)
    requires view.epochs == old_.epochs + [Epoch(n, OPEN)] && End(k, c) <= n
    ensures Whole(k, view, c) <==> Whole(k, old_, c)
  {
    if Whole(k, old_, c) {
      var j :| 0 <= j < |old_.epochs| && old_.epochs[j].start <= c.left && End(k, c) <= old_.epochs[j].end;
      assert view.epochs[j] == old_.epochs[j];
    }
  }

  /** A sealed peak is aligned and inside what was sealed. */
  lemma PeakPlace(k: Arity, x: Source, old_: AlgView, cells: seq<Digest>, base: nat, f: Coord)
    requires Frozen(k, x, old_, cells, base) && f in Frontier(k, base)
    ensures Aligned(k, f) && End(k, f) <= base <= TreeSize(old_.epochs, |cells|) <= |cells| && Known(k, base, f)
    ensures x.kind == SubtreeKind
  {
    FrontierIncomplete(k, base, f);
    BelowSame(k, x, old_, cells, base);
    hide NodesOk, PeaksOnly, LeavesOk, Frontier, Aligned;
    if base == 0 {
      NoPeaks(k);
    }
  }

  lemma NoPeaks(k: Arity)
    ensures Frontier(k, 0) == []
  {
  }

  lemma FrozenParts(k: Arity, x: Source, old_: AlgView, cells: seq<Digest>, base: nat)
    requires Frozen(k, x, old_, cells, base)
    ensures NodesOk(k, x.store.nodes, x.alg, old_, cells, base) && |cells| < OPEN && WellFormed(old_.epochs, |cells|)
    ensures !IsActive(old_.epochs) && x.view.hasher == old_.hasher &&
            x.view.epochs == old_.epochs + [Epoch(|cells|, OPEN)]
    ensures LeavesOk(x.kind, x.store.leaves, old_, cells) && PeaksOnly(k, x.store.nodes, x.alg, old_, cells, base)
    ensures forall i :: 0 <= i < |cells| && !ActiveAt(old_.epochs, i) ==> cells[i] == Null(old_.hasher)
  {
    hide NodesOk, Frontier, Peaks, PeaksOnly, LeavesOk, WellFormed, ActiveAt;
  }

  /** A single leaf the log can know resolves to its cell. */
  lemma CellRight(k: Arity, x: Source, old_: AlgView, cells: seq<Digest>, base: nat, c: Coord)
    requires Frozen(k, x, old_, cells, base) && c.height == 0 && Aligned(k, c) && End(k, c) <= |cells| &&
             Known(k, base, c)
    ensures ResolveCell(x, c.left) == Ok(Block(x.view.hasher, k, cells, c))
  {
    FrozenParts(k, x, old_, cells, base);
    BelowSame(k, x, old_, cells, base);
    hide Frozen, NodesOk, PeaksOnly, Aligned, Known, WellFormed, ActiveAt;
    CellBlock(x.view.hasher, k, cells, c);
    if ActiveAt(x.view.epochs, c.left) {
      ClosedBelow(old_.epochs, |cells|, c.left);
      ActiveCellStored(k, x.store.nodes, x.alg, old_, cells, base, c);
    }
  }

  lemma FlatRight(k: Arity, x: Source, old_: AlgView, cells: seq<Digest>, base: nat, c: Coord)
    requires Frozen(k, x, old_, cells, base) && Flatly(k, x, c)
    requires Aligned(k, c) && End(k, c) <= |cells| && Known(k, base, c)
    ensures Resolve(k, x, c).0 == Block(x.view.hasher, k, cells, c)
    ensures Rebuilt(k, x.alg, x.view, cells, TreeSize(old_.epochs, |cells|), c, Resolve(k, x, c).1)
  {
    var t := TreeSize(old_.epochs, |cells|);
    FrozenParts(k, x, old_, cells, base);
    BelowSame(k, x, old_, cells, base);
    hide *;
    ResolveFlat(k, x, c);
    if c.height == 0 {
      CellRight(k, x, old_, cells, base, c);
      RebuiltNone(k, x.alg, x.view, cells, t, c);
    } else if !Touched(k, x.view, c) {
      UntouchedBlock(k, x.view, cells, c);
      UntouchedInside(k, x.alg, x.view, cells, t, c);
    } else {
      WholeOld(k, x, old_, cells, c);
      StoredIs(k, x, old_, cells, base, c);
      RebuiltOld(k, x.alg, x.view, cells, t, c);
    }
  }

  lemma WholeOld(k: Arity, x: Source, old_: AlgView, cells: seq<Digest>, c: Coord)
    requires WellFormed(old_.epochs, |cells|) && !IsActive(old_.epochs) && |cells| < OPEN && End(k, c) <= |cells|
    requires x.view.epochs == old_.epochs + [Epoch(|cells|, OPEN)] && Whole(k, x.view, c)
    ensures End(k, c) <= TreeSize(old_.epochs, |cells|)
  {
    FullyActiveOld(k, old_, |cells|, c);
  }

  lemma StoredIs(k: Arity, x: Source, old_: AlgView, cells: seq<Digest>, base: nat, c: Coord)
    requires NodesOk(k, x.store.nodes, x.alg, old_, cells, base) && Stored(x, c)
    ensures x.store.nodes[NodeKey(x.alg, c)] == Block(old_.hasher, k, cells, c)
  {
    hide Block, Aligned;
  }

  /** What `PeaksOnly` says of one peak. */
  lemma PeakStored(k: Arity, x: Source, old_: AlgView, cells: seq<Digest>, base: nat, f: Coord)
    requires PeaksOnly(k, x.store.nodes, x.alg, old_, cells, base) && f in Frontier(k, base)
    ensures Touched(k, old_, f) ==> Stored(x, f)
    ensures forall c: Coord :: Stored(x, c) && Inside(k, c, f) && c != f ==> c.height > 0 && Emptied(k, old_, cells, f)
  {
    hide Touched, Emptied, Frontier;
  }

  /** Below a peak that folds to null only nulls are stored. */
  lemma EmptiedNulls(k: Arity, x: Source, old_: AlgView, cells: seq<Digest>, base: nat, f: Coord)
    requires Frozen(k, x, old_, cells, base) && f in Frontier(k, base) && Emptied(k, old_, cells, f)
    ensures OnlyNulls(k, x, f)
  {
    PeakPlace(k, x, old_, cells, base, f);
    FrozenParts(k, x, old_, cells, base);
    PeakStored(k, x, old_, cells, base, f);
    hide Frozen, PeaksOnly, Frontier, Known, Touched, WellFormed, ActiveAt, Block;
    forall c: Coord | Inside(k, c, f) && c != f && Stored(x, c)
      ensures c.height > 0 && x.store.nodes[NodeKey(x.alg, c)] == Null(x.view.hasher)
    {
      StoredIs(k, x, old_, cells, base, c);
      if !Touched(k, old_, c) {
        UntouchedBlock(k, old_, cells, c);
      }
    }
  }

  /** What is written under such a subtree is null. */
  lemma NullWrites(k: Arity, x: Source, f: Coord)
    requires x.kind == SubtreeKind && Aligned(k, f) && OnlyNulls(k, x, f) && !Flatly(k, x, f)
    ensures f.height > 0 && Touched(k, x.view, f) && Resolve(k, x, f).0 == Null(x.view.hasher)
    ensures forall w :: w in Resolve(k, x, f).1 ==> WriteOk(k, x, f, w) && w.hash == Null(x.view.hasher)
  {
    hide *;
    ResolveTop(k, x, f);
    SelfInside(k, f);
    ResolvesNull(k, x, f, f);
    WritesAre(k, x, f);
    forall w | w in Resolve(k, x, f).1
      ensures w.hash == Null(x.view.hasher)
    {
      WriteParts(k, x, f, w);
      if w.key.at != f {
        ResolvesNull(k, x, f, w.key.at);
      }
    }
  }

  lemma SelfInside(k: Arity, f: Coord)
    ensures Inside(k, f, f)
  {
  }

  lemma WriteParts(k: Arity, x: Source, c: Coord, w: NodeWrite)
    requires WriteOk(k, x, c, w)
    ensures w.key.alg == x.alg && Aligned(k, w.key.at) && Inside(k, w.key.at, c)
    ensures w.key.at.height > 0 && Touched(k, x.view, w.key.at) && w.hash == Resolve(k, x, w.key.at).0
  {
    hide Aligned, Inside, Touched, Resolve;
  }

  /** A touched peak that has to be rebuilt, on a recoverable log, folds to null. */
  lemma RebuiltPeak(k: Arity, x: Source, old_: AlgView, cells: seq<Digest>, base: nat, f: Coord)
    requires Frozen(k, x, old_, cells, base) && Recoverable(k, old_, cells, base) && f in Frontier(k, base) &&
             !Flatly(k, x, f)
    ensures Emptied(k, old_, cells, f) && Emptied(k, x.view, cells, f) && OnlyNulls(k, x, f)
  {
    PeakPlace(k, x, old_, cells, base, f);
    FrozenParts(k, x, old_, cells, base);
    BelowSame(k, x, old_, cells, base);
    PeakStored(k, x, old_, cells, base, f);
    hide Touched, Whole, Emptied, Frozen, NodesOk, PeaksOnly, Frontier, Known, Aligned, OnlyNulls;
    assert f.height > 0 && Touched(k, x.view, f);
    EmptiedNulls(k, x, old_, cells, base, f);
    EmptiedSame(k, old_, x.view, cells, f);
  }

  lemma EmptiedAt(k: Arity, view: AlgView, cells: seq<Digest>, f: Coord, d: Coord)
    requires Emptied(k, view, cells, f) && Aligned(k, d) && d.height > 0 && Inside(k, d, f) && Touched(k, view, d)
    ensures Block(view.hasher, k, cells, d) == Null(view.hasher)
  {
  }

  lemma RebuiltIs(k: Arity, alg: nat, view: AlgView, cells: seq<Digest>, t: nat, c: Coord, ws: seq<NodeWrite>)
    requires End(k, c) <= t
    requires forall w :: w in ws ==>
               w.key.alg == alg && Aligned(k, w.key.at) && Inside(k, w.key.at, c) &&
               w.hash == Block(view.hasher, k, cells, w.key.at)
    ensures Rebuilt(k, alg, view, cells, t, c, ws)
  {
    hide Aligned, Block, Touched;
  }

  /** A sealed peak that has to be rebuilt is right if it folds to null all the way down. */
  lemma PeakRight(k: Arity, x: Source, old_: AlgView, cells: seq<Digest>, base: nat, f: Coord)
    requires Frozen(k, x, old_, cells, base) && Recoverable(k, old_, cells, base) && f in Frontier(k, base) &&
             !Flatly(k, x, f)
    ensures Resolve(k, x, f).0 == Block(x.view.hasher, k, cells, f)
    ensures Rebuilt(k, x.alg, x.view, cells, TreeSize(old_.epochs, |cells|), f, Resolve(k, x, f).1)
  {
    hide *;
    PeakPlace(k, x, old_, cells, base, f);
    RebuiltPeak(k, x, old_, cells, base, f);
    NullWrites(k, x, f);
    SelfInside(k, f);
    EmptiedAt(k, x.view, cells, f, f);
    forall w | w in Resolve(k, x, f).1
      ensures w.key.alg == x.alg && Aligned(k, w.key.at) && Inside(k, w.key.at, f)
      ensures w.hash == Block(x.view.hasher, k, cells, w.key.at)
    {
      WriteParts(k, x, f, w);
      EmptiedAt(k, x.view, cells, f, w.key.at);
    }
    RebuiltIs(k, x.alg, x.view, cells, TreeSize(old_.epochs, |cells|), f, Resolve(k, x, f).1);
  }

  /**
   On a recoverable log every subtree the log can know resolves to its value, and what is
   written is right and complete.
   */
  lemma {:induction false} ResolveRight(k: Arity, x: Source, old_: AlgView, cells: seq<Digest>, base: nat, c: Coord)
    requires Frozen(k, x, old_, cells, base) && Recoverable(k, old_, cells, base)
    requires Aligned(k, c) && End(k, c) <= |cells| && Known(k, base, c)
    ensures Resolve(k, x, c).0 == Block(x.view.hasher, k, cells, c)
    ensures Rebuilt(k, x.alg, x.view, cells, TreeSize(old_.epochs, |cells|), c, Resolve(k, x, c).1)
    decreases c.height, k + 1
  {
    hide *;
    if Flatly(k, x, c) {
      FlatRight(k, x, old_, cells, base, c);
    } else if End(k, c) <= base {
      KnownPeak(k, base, c);
      PeakRight(k, x, old_, cells, base, c);
    } else {
      ResolveTop(k, x, c);
      RightUpTo(k, x, old_, cells, base, c, k);
      BlockUnfold(x.view.hasher, k, cells, c);
      assert Children(k, c)[..k] == Children(k, c) by { ChildCount(k, c); }
      RebuiltTop(k, x.alg, x.view, cells, TreeSize(old_.epochs, |cells|), c, ResolveUpTo(k, x, c, k).1);
    }
  }

  lemma KnownPeak(k: Arity, base: nat, c: Coord)
    requires Aligned(k, c) && End(k, c) <= base && Known(k, base, c)
    ensures c in Frontier(k, base)
  {
    hide Frontier, Aligned, Anc;
    KnownIsFrontier(k, base, c);
  }

  lemma ChildCount(k: Arity, c: Coord)
    requires c.height > 0
    ensures |Children(k, c)| == k
    ensures forall j: nat :: j < k ==> Children(k, c)[j] == Child(k, c, j)
  {
  }

  lemma {:induction false} RightUpTo(
      k: Arity, x: Source, old_: AlgView, cells: seq<Digest>, base: nat, c: Coord, j: nat)
    requires Frozen(k, x, old_, cells, base) && Recoverable(k, old_, cells, base)
    requires Aligned(k, c) && base < End(k, c) <= |cells| && c.height > 0 && j <= k
    ensures |Children(k, c)| == k
    ensures ResolveUpTo(k, x, c, j).0 == BlockAll(x.view.hasher, k, cells, Children(k, c)[..j])
    ensures RebuiltUpTo(k, x.alg, x.view, cells, TreeSize(old_.epochs, |cells|), c, j, ResolveUpTo(k, x, c, j).1)
    decreases c.height, j
  {
    hide *;
    ChildCount(k, c);
    var t := TreeSize(old_.epochs, |cells|);
    if j == 0 {
      ResolveStep(k, x, c, 0);
      UpToNone(k, x.alg, x.view, cells, t, c);
      NoBlocks(x.view.hasher, k, cells);
      assert Children(k, c)[..0] == [];
    } else {
      var d := Child(k, c, j - 1);
      RightUpTo(k, x, old_, cells, base, c, j - 1);
      ResolveStep(k, x, c, j - 1);
      ChildKnown(k, base, c, j - 1);
      ResolveRight(k, x, old_, cells, base, d);
      RebuiltJoin(k, x.alg, x.view, cells, t, c, j - 1, ResolveUpTo(k, x, c, j - 1).1, Resolve(k, x, d).1);
      BlockNext(x.view.hasher, k, cells, Children(k, c), j - 1);
    }
  }

  lemma UpToNone(k: Arity, alg: nat, view: AlgView, cells: seq<Digest>, t: nat, c: Coord)
    requires c.height > 0
    ensures RebuiltUpTo(k, alg, view, cells, t, c, 0, [])
  {
  }

  lemma NoBlocks(h: Hasher, k: Arity, cells: seq<Digest>)
    ensures BlockAll(h, k, cells, []) == []
  {
  }

  lemma BlockNext(h: Hasher, k: Arity, cells: seq<Digest>, cs: seq<Coord>, j: nat)
    requires j < |cs|
    ensures BlockAll(h, k, cells, cs[..j + 1]) == BlockAll(h, k, cells, cs[..j]) + [Block(h, k, cells, cs[j])]
  {
    hide Block;
  }

  /** The children of a subtree that reaches past the seal are known. */
  lemma ChildKnown(k: Arity, base: nat, c: Coord, j: nat)
    requires c.height > 0 && j < k && Aligned(k, c) && base < End(k, c)
    ensures var d := Child(k, c, j);
            d.height < c.height && Aligned(k, d) && End(k, d) <= End(k, c) && Known(k, base, d)
  {
    hide Aligned, Anc, Child;
    ChildIn(k, c, j);
  }

  // ------------------------------------------------------------------ the whole frontier

  lemma AllStep(k: Arity, x: Source, cs: seq<Coord>, c: Coord)
    ensures var before, part := ResolveAll(k, x, cs), Resolve(k, x, c);
            ResolveAll(k, x, cs + [c]) == (before.0 + [part.0], before.1 + part.1)
    ensures ResolveAll(k, x, []) == ([], [])
  {
    hide Resolve;
    assert (cs + [c])[..|cs|] == cs;
  }

  lemma {:induction false} AllRight(k: Arity, x: Source, old_: AlgView, cells: seq<Digest>, base: nat, cs: seq<Coord>)
    requires Frozen(k, x, old_, cells, base) && Recoverable(k, old_, cells, base)
    requires forall c :: c in cs ==> Aligned(k, c) && End(k, c) <= |cells| && Known(k, base, c)
    ensures ResolveAll(k, x, cs).0 == BlockAll(x.view.hasher, k, cells, cs)
    ensures RebuiltFrontier(k, x.alg, x.view, cells, TreeSize(old_.epochs, |cells|), cs, ResolveAll(k, x, cs).1)
    decreases |cs|
  {
    hide *;
    var t := TreeSize(old_.epochs, |cells|);
    AllStep(k, x, [], Coord(0, 0));
    if |cs| == 0 {
      RebuiltEmpty(k, x.alg, x.view, cells, t);
      NoBlocks(x.view.hasher, k, cells);
    } else {
      var init, c := cs[..|cs| - 1], cs[|cs| - 1];
      AllRight(k, x, old_, cells, base, init);
      AllStep(k, x, init, c);
      ResolveRight(k, x, old_, cells, base, c);
      RebuiltAdd(k, x.alg, x.view, cells, t, init, c, ResolveAll(k, x, init).1, Resolve(k, x, c).1);
      BlockNext(x.view.hasher, k, cells, cs, |init|);
      assert init + [c] == cs && cs[..|init| + 1] == cs;
    }
  }

  /** The frontier of the present size is known, and inside it. */
  lemma MountainsKnown(k: Arity, n: nat, base: nat)
    requires base <= n
    ensures forall c :: c in Frontier(k, n) ==> Aligned(k, c) && End(k, c) <= n && Known(k, base, c)
  {
    hide Frontier, Aligned, Anc;
    forall c | c in Frontier(k, n)
      ensures Aligned(k, c) && End(k, c) <= n && Known(k, base, c)
    {
      FrontierIncomplete(k, n, c);
    }
  }

  lemma TouchedCell(k: Arity, view: AlgView, n: nat, c: Coord)
    requires WellFormed(view.epochs, n) && c.height == 0 && Touched(k, view, c)
    ensures ActiveAt(view.epochs, c.left)
  {
    PowSucc(k, 0);
    var j :| 0 <= j < |view.epochs| && view.epochs[j].start < End(k, c) && view.epochs[j].end > c.left;
    assert view.epochs[j].start <= c.left < view.epochs[j].end;
  }

  lemma RebuiltCorrect(k: Arity, alg: nat, view: AlgView, cells: seq<Digest>, t: nat, ws: seq<NodeWrite>)
    requires RebuiltFrontier(k, alg, view, cells, t, Frontier(k, |cells|), ws)
    ensures forall w :: w in ws ==>
              w.key.alg == alg && Aligned(k, w.key.at) && End(k, w.key.at) <= |cells| &&
              w.hash == Block(view.hasher, k, cells, w.key.at)
  {
  }

  lemma OldOrRebuilt(
      k: Arity, nodes: map<NodeKey, Digest>, alg: nat, old_: AlgView, cells: seq<Digest>, base: nat,
      ws: seq<NodeWrite>, view: AlgView, c: Coord)
    requires ViewOk(k, old_, cells) && NodesOk(k, nodes, alg, old_, cells, base) && |cells| < OPEN
    requires !IsActive(old_.epochs) && view.hasher == old_.hasher
    requires view.epochs == old_.epochs + [Epoch(|cells|, OPEN)]
    requires RebuiltFrontier(k, alg, view, cells, TreeSize(old_.epochs, |cells|), Frontier(k, |cells|), ws)
    requires InTree(k, view, |cells|, base, c) && MustStore(k, view, cells, c)
    ensures NodeKey(alg, c) in nodes || exists i :: 0 <= i < |ws| && ws[i].key == NodeKey(alg, c)
  {
    hide Aligned, Block, Frontier, Anc, MountainOf, Known;
    var n, t := |cells|, TreeSize(old_.epochs, |cells|);
    ReopenBelow(old_.epochs, view.epochs, n);
    ClosedBelow(old_.epochs, n, c.left);
    var i := c.left;
    assert i < n;
    assert Touched(k, old_, c);
    if c.height == 0 {
      TouchedCell(k, old_, n, c);
      ActiveCellStored(k, nodes, alg, old_, cells, base, c);
    } else if End(k, c) <= t {
      assert InTree(k, old_, n, base, c) && MustStore(k, old_, cells, c);
    } else {
      Consistency.MountainCovers(k, n, c);
      MountainContains(k, n, i);
      FrontierTiles(k, n);
      var m := Frontier(k, n)[MountainOf(k, n, i)];
      Nested(k, c, m, i);
      assert m in Frontier(k, n) && Inside(k, c, m);
      var w :| w in ws && w.key == NodeKey(alg, c);
      var j :| 0 <= j < |ws| && ws[j] == w;
    }
  }

  /** The view a reopening leaves: what was rebuilt, at the present size. */
  ghost predicate IsReopened(k: Arity, x: Source, n: nat, view: AlgView) {
    view.hasher == x.view.hasher && view.epochs == x.view.epochs && view.coords == Frontier(k, n)
  }

  /** On a recoverable log the rebuilt frontier is the genuine one, and with its nodes stored all is in order. */
  lemma ReopensRight(k: Arity, x: Source, old_: AlgView, cells: seq<Digest>, base: nat, view: AlgView)
    requires Frozen(k, x, old_, cells, base) && Recoverable(k, old_, cells, base)
    requires IsReopened(k, x, |cells|, view)
    ensures var all := ResolveAll(k, x, Frontier(k, |cells|));
            all.0 == Peaks(view.hasher, k, cells, |cells|) &&
            NodesOk(k, InsertAll(x.store.nodes, all.1), x.alg, view, cells, base) &&
            (view.frontier == all.0 ==> ViewOk(k, view, cells))
  {
    var all := ResolveAll(k, x, Frontier(k, |cells|));
    BelowSame(k, x, old_, cells, base);
    MountainsKnown(k, |cells|, base);
    AllRight(k, x, old_, cells, base, Frontier(k, |cells|));
    FrozenParts(k, x, old_, cells, base);
    ReopenBelow(old_.epochs, x.view.epochs, |cells|);
    hide Frontier, Block, Aligned, NodesOk, PeaksOnly, Recoverable, Resolve, ResolveAll, InsertAll, RebuiltFrontier,
         WellFormed, ActiveAt;
    RebuiltSame(k, x.alg, x.view, view, cells, TreeSize(old_.epochs, |cells|), Frontier(k, |cells|), all.1);
    Resumed(k, x.store.nodes, x.alg, old_, cells, base, all.1, view);
  }

  /** Once the whole frontier is rebuilt and stored, the nodes of the reopened view are in order. */
  lemma Resumed(
      k: Arity, nodes: map<NodeKey, Digest>, alg: nat, old_: AlgView, cells: seq<Digest>, base: nat,
      ws: seq<NodeWrite>, view: AlgView)
    requires ViewOk(k, old_, cells) && NodesOk(k, nodes, alg, old_, cells, base) && |cells| < OPEN
    requires !IsActive(old_.epochs) && view.hasher == old_.hasher && view.epochs == old_.epochs + [Epoch(|cells|, OPEN)]
    requires RebuiltFrontier(k, alg, view, cells, TreeSize(old_.epochs, |cells|), Frontier(k, |cells|), ws)
    ensures NodesOk(k, InsertAll(nodes, ws), alg, view, cells, base)
  {
    hide Aligned, Block, Frontier, Anc, MountainOf, InsertAll, RebuiltFrontier, Known;
    var n, t, nodes' := |cells|, TreeSize(old_.epochs, |cells|), InsertAll(nodes, ws);
    ReopenBelow(old_.epochs, view.epochs, n);
    ClosedBelow(old_.epochs, n, 0);
    forall c: Coord | NodeKey(alg, c) in nodes'
      ensures Aligned(k, c) && End(k, c) <= n && nodes'[NodeKey(alg, c)] == Block(view.hasher, k, cells, c)
    {
      InsertAllGet(nodes, ws, NodeKey(alg, c));
      RebuiltCorrect(k, alg, view, cells, t, ws);
    }
    forall c: Coord | InTree(k, view, n, base, c) && MustStore(k, view, cells, c)
      ensures NodeKey(alg, c) in nodes'
    {
      InsertAllGet(nodes, ws, NodeKey(alg, c));
      OldOrRebuilt(k, nodes, alg, old_, cells, base, ws, view, c);
    }
  }

  // ------------------------------------------------------------------ when it is not

  lemma {:induction false} UpToHas(k: Arity, x: Source, c: Coord, j: nat, g: nat)
    requires c.height > 0 && g < j <= k
    ensures forall w :: w in Resolve(k, x, Child(k, c, g)).1 ==> w in ResolveUpTo(k, x, c, j).1
    decreases j
  {
    hide *;
    ResolveStep(k, x, c, j - 1);
    if g < j - 1 {
      UpToHas(k, x, c, j - 1, g);
    }
  }

  /** Rebuilding `c` writes `d`. */
  ghost predicate Writes(k: Arity, x: Source, c: Coord, d: Coord) {
    exists w :: w in Resolve(k, x, c).1 && w.key == NodeKey(x.alg, d)
  }

  lemma TopHas(k: Arity, x: Source, c: Coord)
    requires !Flatly(k, x, c)
    ensures c.height > 0 && forall w :: w in ResolveUpTo(k, x, c, k).1 ==> w in Resolve(k, x, c).1
    ensures Writes(k, x, c, c)
  {
    hide Resolve, Touched, Whole, Stored, NaryMr;
    ResolveTop(k, x, c);
    var parts := ResolveUpTo(k, x, c, k);
    assert NodeWrite(NodeKey(x.alg, c), NaryMr(x.view.hasher, parts.0)) in Resolve(k, x, c).1;
  }

  lemma ChildHas(k: Arity, x: Source, c: Coord, j: nat, d: Coord)
    requires !Flatly(k, x, c) && c.height > 0 && j < k
    requires Writes(k, x, Child(k, c, j), d)
    ensures Writes(k, x, c, d)
  {
    hide Resolve, Flatly, Child, ResolveUpTo;
    TopHas(k, x, c);
    UpToHas(k, x, c, k, j);
    var w :| w in Resolve(k, x, Child(k, c, j)).1 && w.key == NodeKey(x.alg, d);
    assert w in Resolve(k, x, c).1;
  }

  /** Nothing from `c` down to `d` is whole and stored. */
  ghost predicate Open(k: Arity, x: Source, c: Coord, d: Coord) {
    forall u: Coord :: Aligned(k, u) && Inside(k, d, u) && Inside(k, u, c) ==> !(Whole(k, x.view, u) && Stored(x, u))
  }

  /** The rebuilding goes down to every such subtree, and writes it. */
  lemma {:induction false} Reaches(k: Arity, x: Source, c: Coord, d: Coord)
    requires Aligned(k, c) && Aligned(k, d) && d.height > 0 && Inside(k, d, c) && Touched(k, x.view, d) &&
             Open(k, x, c, d)
    ensures Writes(k, x, c, d)
    decreases c.height
  {
    hide *;
    OpenHere(k, x, c, d);
    TopHas(k, x, c);
    if d != c {
      InsideChild(k, d, c);
      var j := DigitOf(k, d.left, c.height - 1);
      ChildIn(k, c, j);
      OpenBelow(k, x, c, Child(k, c, j), d);
      Reaches(k, x, Child(k, c, j), d);
      ChildHas(k, x, c, j, d);
    }
  }

  lemma DigitOf(k: Arity, i: nat, h: nat) returns (j: nat)
    ensures j < k && j == Digit(k, i, h)
  {
    j := Digit(k, i, h);
  }

  lemma OpenHere(k: Arity, x: Source, c: Coord, d: Coord)
    requires Aligned(k, c) && d.height > 0 && Inside(k, d, c) && Touched(k, x.view, d) && Open(k, x, c, d)
    ensures !Flatly(k, x, c)
  {
    hide Aligned, Whole, Stored;
    SelfInside(k, c);
    if !Touched(k, x.view, c) {
      UntouchedPart(k, x.view, d, c);
    }
    if c.height == 0 {
      NullHeight(k, d.height);
      CellEnd(k, c);
    }
  }

  lemma OpenBelow(k: Arity, x: Source, c: Coord, c': Coord, d: Coord)
    requires Open(k, x, c, d) && Inside(k, c', c)
    ensures Open(k, x, c', d)
  {
    hide Aligned, Whole, Stored;
  }

  lemma {:induction false} AllHas(k: Arity, x: Source, cs: seq<Coord>, c: Coord)
    requires c in cs
    ensures forall w :: w in Resolve(k, x, c).1 ==> w in ResolveAll(k, x, cs).1
    decreases |cs|
  {
    hide *;
    var init, last := cs[..|cs| - 1], cs[|cs| - 1];
    assert cs == init + [last];
    AllStep(k, x, init, last);
    if c != last {
      AllHas(k, x, init, c);
    }
  }

  lemma {:induction false} AllWrites(k: Arity, x: Source, cs: seq<Coord>, w: NodeWrite) returns (c: Coord)
    requires w in ResolveAll(k, x, cs).1
    ensures c in cs && w in Resolve(k, x, c).1
    decreases |cs|
  {
    hide *;
    AllStep(k, x, [], Coord(0, 0));
    var init, last := cs[..|cs| - 1], cs[|cs| - 1];
    assert cs == init + [last];
    AllStep(k, x, init, last);
    c := last;
    if w !in Resolve(k, x, last).1 {
      c := AllWrites(k, x, init, w);
    }
  }

  /** A sealed peak the rebuilding has to look below, with something below it that is not null. */
  ghost predicate LostPeak(k: Arity, view: AlgView, cells: seq<Digest>, base: nat, f: Coord) {
    f in Frontier(k, base) && f.height > 0 && !Whole(k, view, f) && !Emptied(k, view, cells, f)
  }

  /** Below it everything resolves to null, and is written so. */
  lemma LostIsWritten(k: Arity, x: Source, old_: AlgView, cells: seq<Digest>, base: nat, f: Coord, d: Coord)
    requires Frozen(k, x, old_, cells, base) && LostPeak(k, old_, cells, base, f)
    requires Aligned(k, d) && d.height > 0 && Inside(k, d, f) && Touched(k, old_, d)
    ensures var nodes' := InsertAll(x.store.nodes, ResolveAll(k, x, Frontier(k, |cells|)).1);
            NodeKey(x.alg, d) in nodes' && nodes'[NodeKey(x.alg, d)] == Null(x.view.hasher)
  {
    LostResolves(k, x, old_, cells, base, f, d);
    LostReached(k, x, old_, cells, base, f, d);
    MountainsKnown(k, |cells|, 0);
    hide *;
    var ws := ResolveAll(k, x, Frontier(k, |cells|)).1;
    forall w | w in ws && w.key == NodeKey(x.alg, d)
      ensures w.hash == Null(x.view.hasher)
    {
      var c := AllWrites(k, x, Frontier(k, |cells|), w);
      WritesAre(k, x, c);
      WriteParts(k, x, c, w);
    }
    WrittenValue(x.store.nodes, ws, NodeKey(x.alg, d), Null(x.view.hasher));
  }

  lemma WrittenValue(nodes: map<NodeKey, Digest>, ws: seq<NodeWrite>, key: NodeKey, v: Digest)
    requires (exists w :: w in ws && w.key == key) && forall w :: w in ws && w.key == key ==> w.hash == v
    ensures key in InsertAll(nodes, ws) && InsertAll(nodes, ws)[key] == v
  {
    hide InsertAll;
    InsertAllGet(nodes, ws, key);
    var w :| w in ws && w.key == key;
    var i :| 0 <= i < |ws| && ws[i] == w;
    var j :| 0 <= j < |ws| && ws[j] == NodeWrite(key, InsertAll(nodes, ws)[key]);
    assert ws[j] in ws;
  }

  lemma LostResolves(k: Arity, x: Source, old_: AlgView, cells: seq<Digest>, base: nat, f: Coord, d: Coord)
    requires Frozen(k, x, old_, cells, base) && LostPeak(k, old_, cells, base, f)
    requires Aligned(k, d) && d.height > 0 && Inside(k, d, f) && Touched(k, old_, d)
    ensures Resolve(k, x, d).0 == Null(x.view.hasher)
    ensures Open(k, x, f, d) && Aligned(k, f) && Touched(k, x.view, d) && End(k, f) <= |cells|
  {
    BelowSame(k, x, old_, cells, base);
    NothingBelow(k, x, old_, cells, base, f);
    hide *;
    OnlyPeak(k, x, f, d);
    ResolvesNull(k, x, f, d);
  }

  /** Nothing is stored below a peak like that. */
  lemma NothingBelow(k: Arity, x: Source, old_: AlgView, cells: seq<Digest>, base: nat, f: Coord)
    requires Frozen(k, x, old_, cells, base) && LostPeak(k, old_, cells, base, f)
    ensures forall c: Coord :: Inside(k, c, f) && c != f ==> !Stored(x, c)
    ensures Aligned(k, f) && End(k, f) <= |cells| && f.height > 0 && x.kind == SubtreeKind && !Whole(k, x.view, f)
  {
    PeakPlace(k, x, old_, cells, base, f);
    FrozenParts(k, x, old_, cells, base);
    BelowSame(k, x, old_, cells, base);
    PeakStored(k, x, old_, cells, base, f);
    hide Frozen, NodesOk, PeaksOnly, Frontier, Known, Aligned, Whole, Touched, Emptied, Resolve;
  }

  lemma OnlyPeak(k: Arity, x: Source, f: Coord, d: Coord)
    requires !Whole(k, x.view, f) && forall c: Coord :: Inside(k, c, f) && c != f ==> !Stored(x, c)
    ensures OnlyNulls(k, x, f) && Open(k, x, f, d)
    ensures d == f && f.height > 0 && Touched(k, x.view, f) ==> !Flatly(k, x, f)
  {
    hide Aligned, Whole, Stored, Touched;
  }

  lemma LostReached(k: Arity, x: Source, old_: AlgView, cells: seq<Digest>, base: nat, f: Coord, d: Coord)
    requires Frozen(k, x, old_, cells, base) && LostPeak(k, old_, cells, base, f)
    requires Aligned(k, d) && d.height > 0 && Inside(k, d, f) && Touched(k, old_, d)
    ensures exists w :: w in ResolveAll(k, x, Frontier(k, |cells|)).1 && w.key == NodeKey(x.alg, d)
  {
    var n := |cells|;
    LostResolves(k, x, old_, cells, base, f, d);
    BelowSame(k, x, old_, cells, base);
    hide *;
    var m := MountainOver(k, n, f);
    LostNotWhole(k, old_, cells, base, f);
    OpenAbove(k, x, old_, n, m, f, d);
    InsideTrans(k, d, f, m);
    Reaches(k, x, m, d);
    AllHas(k, x, Frontier(k, n), m);
    WritesOne(k, x, m, d);
    var w :| w in Resolve(k, x, m).1 && w.key == NodeKey(x.alg, d);
  }

  lemma WritesOne(k: Arity, x: Source, c: Coord, d: Coord)
    requires Writes(k, x, c, d)
    ensures exists w :: w in Resolve(k, x, c).1 && w.key == NodeKey(x.alg, d)
  {
  }

  lemma LostNotWhole(k: Arity, view: AlgView, cells: seq<Digest>, base: nat, f: Coord)
    requires LostPeak(k, view, cells, base, f)
    ensures !Whole(k, view, f) && f.height > 0
  {
    hide Whole, Emptied, Frontier;
  }

  lemma InsideTrans(k: Arity, a: Coord, b: Coord, c: Coord)
    requires Inside(k, a, b) && Inside(k, b, c)
    ensures Inside(k, a, c)
  {
  }

  /** Some mountain of the frontier covers every aligned subtree inside. */
  lemma MountainOver(k: Arity, n: nat, f: Coord) returns (m: Coord)
    requires Aligned(k, f) && End(k, f) <= n
    ensures m in Frontier(k, n) && Aligned(k, m) && Inside(k, f, m) && End(k, m) <= n
  {
    hide Aligned, Frontier, MountainOf;
    Consistency.MountainCovers(k, n, f);
    MountainContains(k, n, f.left);
    FrontierTiles(k, n);
    var g := MountainOf(k, n, f.left);
    TilesOrdered(k, Frontier(k, n), n, g, g);
    m := Frontier(k, n)[g];
    Nested(k, f, m, f.left);
  }

  /** A subtree over a peak that no one epoch covers is not covered either. */
  lemma OpenAbove(k: Arity, x: Source, old_: AlgView, n: nat, m: Coord, f: Coord, d: Coord)
    requires Open(k, x, f, d) && Aligned(k, m) && Aligned(k, f) && Inside(k, d, f) && Inside(k, f, m) && End(k, m) <= n
    requires !Whole(k, old_, f) && forall c: Coord :: End(k, c) <= n ==> (Whole(k, x.view, c) <==> Whole(k, old_, c))
    ensures Open(k, x, m, d)
  {
    hide Aligned, Stored;
    forall u: Coord | Aligned(k, u) && Inside(k, d, u) && Inside(k, u, m)
      ensures !(Whole(k, x.view, u) && Stored(x, u))
    {
      if u.height <= f.height {
        Nested(k, u, f, d.left);
      } else {
        Nested(k, f, u, d.left);
        if Whole(k, old_, u) {
          WholePart(k, old_, f, u);
        }
      }
    }
  }

  lemma WholePart(k: Arity, view: AlgView, f: Coord, u: Coord)
    requires Whole(k, view, u) && Inside(k, f, u)
    ensures Whole(k, view, f)
  {
  }

  /**
   Reopening leaves the stored nodes in order exactly if the log is recoverable: if some
   sealed peak is not, a node below it that is not null is stored as null.
   */
  lemma ReopensExactly(k: Arity, x: Source, old_: AlgView, cells: seq<Digest>, base: nat, view: AlgView)
    requires Frozen(k, x, old_, cells, base) && IsReopened(k, x, |cells|, view)
    ensures NodesOk(k, InsertAll(x.store.nodes, ResolveAll(k, x, Frontier(k, |cells|)).1), x.alg, view, cells, base)
       <==> Recoverable(k, old_, cells, base)
  {
    if Recoverable(k, old_, cells, base) {
      ReopensRight(k, x, old_, cells, base, view);
    } else {
      SameHasher(k, x, old_, cells, base, view);
      hide Frozen, NodesOk, Frontier, Whole, Touched, Aligned, Block, Resolve, ResolveAll, InsertAll, IsReopened;
      var f := SomeLost(k, old_, cells, base);
      var d: Coord :| Aligned(k, d) && d.height > 0 && Inside(k, d, f) && Touched(k, old_, d) &&
                      Block(old_.hasher, k, cells, d) != Null(old_.hasher);
      LostIsWritten(k, x, old_, cells, base, f, d);
      WrongNode(k, InsertAll(x.store.nodes, ResolveAll(k, x, Frontier(k, |cells|)).1), x.alg, view, cells, base, d);
    }
  }

  lemma SameHasher(k: Arity, x: Source, old_: AlgView, cells: seq<Digest>, base: nat, view: AlgView)
    requires Frozen(k, x, old_, cells, base) && IsReopened(k, x, |cells|, view)
    ensures view.hasher == x.view.hasher == old_.hasher
  {
    hide NodesOk, PeaksOnly, Frontier, Whole, Emptied, ViewOk;
  }

  lemma SomeLost(k: Arity, view: AlgView, cells: seq<Digest>, base: nat) returns (f: Coord)
    requires !Recoverable(k, view, cells, base)
    ensures LostPeak(k, view, cells, base, f)
  {
    hide Frontier, Whole, Emptied;
    f :| f in Frontier(k, base) && !(f.height == 0 || Whole(k, view, f) || Emptied(k, view, cells, f));
  }

  lemma WrongNode(
      k: Arity, nodes: map<NodeKey, Digest>, alg: nat, view: AlgView, cells: seq<Digest>, base: nat, d: Coord)
    requires NodeKey(alg, d) in nodes && nodes[NodeKey(alg, d)] != Block(view.hasher, k, cells, d)
    ensures !NodesOk(k, nodes, alg, view, cells, base)
  {
    hide Block, Aligned;
  }

  // ------------------------------------------------------------------ what keeps the sealed peaks

  /** A step that stores nothing new below the seal and changes nothing there keeps them as they are. */
  lemma PeaksSame(
      k: Arity, nodes: map<NodeKey, Digest>, nodes': map<NodeKey, Digest>, alg: nat,
      view: AlgView, view': AlgView, cells: seq<Digest>, cells': seq<Digest>, base: nat)
    requires PeaksOnly(k, nodes, alg, view, cells, base) && view'.hasher == view.hasher && base <= |cells|
    requires cells <= cells'
    requires forall c: Coord :: End(k, c) <= base ==> (NodeKey(alg, c) in nodes' <==> NodeKey(alg, c) in nodes)
    requires forall c: Coord :: End(k, c) <= base ==> (Touched(k, view', c) <==> Touched(k, view, c))
    ensures PeaksOnly(k, nodes', alg, view', cells', base)
  {
    hide Frontier, Touched, Block, Aligned, Emptied, Above;
    forall f | f in Frontier(k, base)
      ensures End(k, f) <= base && (Emptied(k, view, cells, f) ==> Emptied(k, view', cells', f))
    {
      FrontierIncomplete(k, base, f);
      EmptiedLonger(k, view, view', cells, cells', f);
    }
  }

  lemma EmptiedLonger(
      k: Arity, view: AlgView, view': AlgView, cells: seq<Digest>, cells': seq<Digest>, f: Coord)
    requires view'.hasher == view.hasher && End(k, f) <= |cells| && cells <= cells'
    requires forall c: Coord :: End(k, c) <= End(k, f) ==> (Touched(k, view', c) <==> Touched(k, view, c))
    ensures Emptied(k, view, cells, f) ==> Emptied(k, view', cells', f)
  {
    hide Touched, Aligned, Block;
    if Emptied(k, view, cells, f) {
      forall d: Coord | Aligned(k, d) && d.height > 0 && Inside(k, d, f) && Touched(k, view', d)
        ensures Block(view'.hasher, k, cells', d) == Null(view'.hasher)
      {
        BlockCongruent(view.hasher, k, cells', cells, d);
      }
    }
  }

  /** Nothing is written inside a subtree that is whole and stored. */
  lemma {:induction false} NoWriteInside(k: Arity, x: Source, c: Coord, f: Coord)
    requires Aligned(k, c) && Aligned(k, f) && f.height > 0 && Whole(k, x.view, f) && Stored(x, f)
    requires Inside(k, c, f) ==> c == f
    ensures forall w :: w in Resolve(k, x, c).1 ==> !Inside(k, w.key.at, f)
    decreases c.height, k + 1
  {
    hide *;
    if Flatly(k, x, c) {
      ResolveFlat(k, x, c);
    } else {
      WholeFlat(k, x, f);
      ResolveTop(k, x, c);
      NoneUpTo(k, x, c, f, k);
    }
  }

  lemma WholeFlat(k: Arity, x: Source, f: Coord)
    requires Whole(k, x.view, f) && Stored(x, f)
    ensures Flatly(k, x, f)
  {
    hide Whole, Stored, Touched;
  }

  lemma {:induction false} NoneUpTo(k: Arity, x: Source, c: Coord, f: Coord, j: nat)
    requires Aligned(k, c) && Aligned(k, f) && f.height > 0 && Whole(k, x.view, f) && Stored(x, f)
    requires !Inside(k, c, f) && c.height > 0 && j <= k
    ensures forall w :: w in ResolveUpTo(k, x, c, j).1 ==> !Inside(k, w.key.at, f)
    decreases c.height, j
  {
    hide *;
    ResolveStep(k, x, c, 0);
    if j > 0 {
      NoneUpTo(k, x, c, f, j - 1);
      ResolveStep(k, x, c, j - 1);
      ChildIn(k, c, j - 1);
      ChildOutside(k, c, f, j - 1);
      NoWriteInside(k, x, Child(k, c, j - 1), f);
    }
  }

  /** A child of a subtree not inside `f` is inside it only if it is `f`. */
  lemma ChildOutside(k: Arity, c: Coord, f: Coord, j: nat)
    requires Aligned(k, c) && Aligned(k, f) && c.height > 0 && j < k && !Inside(k, c, f)
    ensures Inside(k, Child(k, c, j), f) ==> Child(k, c, j) == f
  {
    hide Aligned, Child, Anc;
    ChildIn(k, c, j);
    var d := Child(k, c, j);
    if Inside(k, d, f) && d != f {
      InsideChild(k, d, f);
      Nested(k, c, f, d.left);
    }
  }

  /** A mountain strictly inside an aligned subtree of the tree is none. */
  lemma MountainOutside(k: Arity, n: nat, m: Coord, f: Coord)
    requires m in Frontier(k, n) && Aligned(k, f) && End(k, f) <= n && Inside(k, m, f)
    ensures m == f
  {
    hide Frontier, Aligned, Anc;
    FrontierIncomplete(k, n, m);
    if m != f {
      InsideChild(k, m, f);
      AboveContains(k, m);
      Nested(k, Above(k, m), f, m.left);
    }
  }

  /** What is written strictly below a sealed peak, on a recoverable log, is below one that folds to null. */
  lemma WrittenBelow(
      k: Arity, x: Source, old_: AlgView, cells: seq<Digest>, base: nat, f: Coord, w: NodeWrite)
    requires Frozen(k, x, old_, cells, base) && Recoverable(k, old_, cells, base) && f in Frontier(k, base)
    requires w in ResolveAll(k, x, Frontier(k, |cells|)).1 && Inside(k, w.key.at, f)
    ensures w.key.at.height > 0 && Emptied(k, old_, cells, f)
  {
    hide *;
    PeakPlace(k, x, old_, cells, base, f);
    FrozenParts(k, x, old_, cells, base);
    BelowSame(k, x, old_, cells, base);
    PeakStored(k, x, old_, cells, base, f);
    RecoverableAt(k, old_, cells, base, f);
    MountainsKnown(k, |cells|, base);
    var c := AllWrites(k, x, Frontier(k, |cells|), w);
    WritesAre(k, x, c);
    WriteParts(k, x, c, w);
    if f.height == 0 {
      LeafAlone(k, w.key.at, f);
    } else if Whole(k, old_, f) {
      if !Touched(k, x.view, f) {
        UntouchedPart(k, x.view, w.key.at, f);
      }
      if Inside(k, c, f) {
        MountainOutside(k, |cells|, c, f);
      }
      NoWriteInside(k, x, c, f);
    }
  }

  lemma RecoverableAt(k: Arity, view: AlgView, cells: seq<Digest>, base: nat, f: Coord)
    requires Recoverable(k, view, cells, base) && f in Frontier(k, base)
    ensures f.height == 0 || Whole(k, view, f) || Emptied(k, view, cells, f)
  {
    hide Frontier, Whole, Emptied;
  }

  lemma LeafAlone(k: Arity, d: Coord, f: Coord)
    requires f.height == 0 && d.height > 0
    ensures !Inside(k, d, f)
  {
    NullHeight(k, d.height);
    CellEnd(k, f);
  }

  /** After a right reopening the sealed peaks are still as they must be. */
  lemma ReopensPeaks(k: Arity, x: Source, old_: AlgView, cells: seq<Digest>, base: nat, view: AlgView)
    requires Frozen(k, x, old_, cells, base) && Recoverable(k, old_, cells, base) && IsReopened(k, x, |cells|, view)
    ensures PeaksOnly(k, InsertAll(x.store.nodes, ResolveAll(k, x, Frontier(k, |cells|)).1), x.alg, view, cells, base)
  {
    var ws := ResolveAll(k, x, Frontier(k, |cells|)).1;
    FrozenParts(k, x, old_, cells, base);
    BelowSame(k, x, old_, cells, base);
    SameHasher(k, x, old_, cells, base, view);
    MountainsKnown(k, |cells|, base);
    TouchedIs(k, x, view);
    hide Frozen, NodesOk, Frontier, Whole, Touched, Aligned, Block, Resolve, ResolveAll, InsertAll, Emptied, IsReopened,
         Known;
    forall f | f in Frontier(k, base)
      ensures Touched(k, view, f) ==> NodeKey(x.alg, f) in InsertAll(x.store.nodes, ws)
      ensures forall c: Coord :: NodeKey(x.alg, c) in InsertAll(x.store.nodes, ws) && Inside(k, c, f) && c != f ==>
                c.height > 0 && Emptied(k, view, cells, f)
    {
      PeakPlace(k, x, old_, cells, base, f);
      InsertAllGet(x.store.nodes, ws, NodeKey(x.alg, f));
      EmptiedSame(k, old_, view, cells, f);
      forall c: Coord | NodeKey(x.alg, c) in InsertAll(x.store.nodes, ws) && Inside(k, c, f) && c != f
        ensures c.height > 0 && Emptied(k, view, cells, f)
      {
        InsertAllGet(x.store.nodes, ws, NodeKey(x.alg, c));
        if NodeKey(x.alg, c) !in x.store.nodes {
          var i :| 0 <= i < |ws| && ws[i].key == NodeKey(x.alg, c);
          WrittenBelow(k, x, old_, cells, base, f, ws[i]);
        }
      }
    }
  }

  lemma TouchedIs(k: Arity, x: Source, view: AlgView)
    requires view.epochs == x.view.epochs
    ensures forall c: Coord :: Touched(k, view, c) <==> Touched(k, x.view, c)
  {
  }

  // ------------------------------------------------------------------ what reads find afterwards

  /** No subtree of the tree over `c` is whole and stored. */
  ghost predicate OpenIn(k: Arity, x: Source, n: nat, c: Coord) {
    forall u: Coord :: Aligned(k, u) && Inside(k, c, u) && End(k, u) <= n ==> !(Whole(k, x.view, u) && Stored(x, u))
  }

  /** The rebuilding writes a touched subtree exactly if none over it is whole and stored. */
  lemma Rewritten(k: Arity, x: Source, n: nat, c: Coord)
    requires Aligned(k, c) && c.height > 0 && End(k, c) <= n && Touched(k, x.view, c)
    ensures (exists w :: w in ResolveAll(k, x, Frontier(k, n)).1 && w.key == NodeKey(x.alg, c)) <==> OpenIn(k, x, n, c)
  {
    hide *;
    var ws := ResolveAll(k, x, Frontier(k, n)).1;
    if OpenIn(k, x, n, c) {
      var m := MountainOver(k, n, c);
      OpenDown(k, x, n, m, c);
      Reaches(k, x, m, c);
      WritesOne(k, x, m, c);
      AllHas(k, x, Frontier(k, n), m);
      var w :| w in Resolve(k, x, m).1 && w.key == NodeKey(x.alg, c);
      assert w in ws;
    } else {
      var u := SomeWhole(k, x, n, c);
      forall w | w in ws && w.key == NodeKey(x.alg, c)
        ensures false
      {
        var m := AllWrites(k, x, Frontier(k, n), w);
        MountainsKnown(k, n, 0);
        if Inside(k, m, u) {
          MountainOutside(k, n, m, u);
        }
        NoWriteInside(k, x, m, u);
      }
    }
  }

  lemma OpenDown(k: Arity, x: Source, n: nat, m: Coord, c: Coord)
    requires OpenIn(k, x, n, c) && End(k, m) <= n
    ensures Open(k, x, m, c)
  {
    hide Aligned, Whole, Stored;
  }

  lemma SomeWhole(k: Arity, x: Source, n: nat, c: Coord) returns (u: Coord)
    requires !OpenIn(k, x, n, c) && c.height > 0
    ensures Aligned(k, u) && Inside(k, c, u) && End(k, u) <= n && Whole(k, x.view, u) && Stored(x, u) && u.height > 0
  {
    hide Aligned, Whole, Stored, Inside;
    u :| Aligned(k, u) && Inside(k, c, u) && End(k, u) <= n && Whole(k, x.view, u) && Stored(x, u);
    if u.height == 0 {
      LeafAlone(k, c, u);
    }
  }

  /**
   After a reopening a read succeeds, masked or not, unless the subtree was not stored and
   lies below one that was, within one epoch: only there does the rebuilding not go.
   */
  lemma ReopenedReads(k: Arity, x: Source, n: nat, view: AlgView, c: Coord)
    requires view.hasher == x.view.hasher && view.epochs == x.view.epochs
    requires Aligned(k, c) && c.height > 0 && End(k, c) <= n <= U64_MAX && Touched(k, view, c)
    ensures Readable(InsertAll(x.store.nodes, ResolveAll(k, x, Frontier(k, n)).1), view, x.alg, k, c)
       <==> Stored(x, c) || OpenIn(k, x, n, c)
  {
    TouchedIs(k, x, view);
    Rewritten(k, x, n, c);
    var ws := ResolveAll(k, x, Frontier(k, n)).1;
    hide Aligned, Touched, OpenIn, ResolveAll, Frontier, InsertAll;
    InsertAllGet(x.store.nodes, ws, NodeKey(x.alg, c));
    if exists w :: w in ws && w.key == NodeKey(x.alg, c) {
      var w :| w in ws && w.key == NodeKey(x.alg, c);
      var i :| 0 <= i < |ws| && ws[i] == w;
    }
  }

  // ------------------------------------------------------------------ the condition, from the seal alone

  /** No node hash is the null constant. */
  ghost predicate NullFree(h: Hasher) { forall ds: seq<Digest> :: h.node(ds) != Null(h) }

  /** Then a peak folds to null all the way down exactly if its own digest is null. */
  lemma {:induction false} EmptiedIsNull(k: Arity, view: AlgView, cells: seq<Digest>, f: Coord)
    requires NullFree(view.hasher) && Aligned(k, f) && f.height > 0 && End(k, f) <= |cells|
    requires forall i :: 0 <= i < |cells| && !ActiveAt(view.epochs, i) ==> cells[i] == Null(view.hasher)
    ensures Emptied(k, view, cells, f) <==> Block(view.hasher, k, cells, f) == Null(view.hasher)
  {
    hide Touched, Aligned, Block, ActiveAt;
    if Block(view.hasher, k, cells, f) == Null(view.hasher) {
      forall d: Coord | Aligned(k, d) && d.height > 0 && Inside(k, d, f) && Touched(k, view, d)
        ensures Block(view.hasher, k, cells, d) == Null(view.hasher)
      {
        NullInside(view.hasher, k, cells, f, d);
      }
    } else if !Touched(k, view, f) {
      UntouchedBlock(k, view, cells, f);
    } else {
      SelfInside(k, f);
    }
  }

  /** A null block has only null blocks below it. */
  lemma {:induction false} NullInside(h: Hasher, k: Arity, cells: seq<Digest>, f: Coord, d: Coord)
    requires NullFree(h) && Aligned(k, f) && Aligned(k, d) && Inside(k, d, f) && Block(h, k, cells, f) == Null(h)
    ensures Block(h, k, cells, d) == Null(h)
    decreases f.height
  {
    hide *;
    if d != f {
      InsideChild(k, d, f);
      var j := DigitOf(k, d.left, f.height - 1);
      ChildIn(k, f, j);
      NullChild(h, k, cells, f, j);
      NullInside(h, k, cells, Child(k, f, j), d);
    }
  }

  lemma NullChild(h: Hasher, k: Arity, cells: seq<Digest>, f: Coord, j: nat)
    requires NullFree(h) && f.height > 0 && j < k && Block(h, k, cells, f) == Null(h)
    ensures Block(h, k, cells, Child(k, f, j)) == Null(h)
  {
    hide Block, Child;
    BlockUnfold(h, k, cells, f);
    var ds := BlockAll(h, k, cells, Children(k, f));
    assert ds[j] == Block(h, k, cells, Child(k, f, j));
    assert AllSame(ds);
    assert j > 0 ==> ds[0] == ds[j];
  }

  /** So whether a log is recoverable can be told from the sealed peaks and the timeline. */
  lemma RecoverableFromSeal(k: Arity, view: AlgView, cells: seq<Digest>, base: nat)
    requires NullFree(view.hasher) && base <= |cells|
    requires forall i :: 0 <= i < |cells| && !ActiveAt(view.epochs, i) ==> cells[i] == Null(view.hasher)
    ensures Recoverable(k, view, cells, base) <==>
            forall j :: 0 <= j < |Frontier(k, base)| ==>
              var f := Frontier(k, base)[j];
              f.height == 0 || Whole(k, view, f) || Peaks(view.hasher, k, cells, base)[j] == Null(view.hasher)
  {
    hide Frontier, Whole, Aligned, Block, Emptied, ActiveAt, NullFree;
    forall j | 0 <= j < |Frontier(k, base)| && Frontier(k, base)[j].height > 0
      ensures Emptied(k, view, cells, Frontier(k, base)[j]) <==>
              Peaks(view.hasher, k, cells, base)[j] == Null(view.hasher)
    {
      FrontierIncomplete(k, base, Frontier(k, base)[j]);
      EmptiedIsNull(k, view, cells, Frontier(k, base)[j]);
    }
  }

  /** And nothing is masked while no active cell is null. */
  lemma NothingMasked(k: Arity, view: AlgView, cells: seq<Digest>)
    requires NullFree(view.hasher)
    requires forall i :: 0 <= i < |cells| && ActiveAt(view.epochs, i) ==> cells[i] != Null(view.hasher)
    ensures Clear(k, view, cells)
  {
    hide Aligned, Block, ActiveAt, NullFree;
    forall c: Coord | Aligned(k, c) && End(k, c) <= |cells|
      ensures !Masked(k, view, cells, c)
    {
      if Masked(k, view, cells, c) {
        var i :| Contains(k, c, i) && ActiveAt(view.epochs, i);
        var d := Coord(i, 0);
        CellEnd(k, d);
        LeafAligned(k, i);
        NullInside(view.hasher, k, cells, c, d);
        CellBlock(view.hasher, k, cells, d);
      }
    }
  }

  lemma LeafAligned(k: Arity, i: nat)
    ensures Aligned(k, Coord(i, 0))
  {
  }

  // ------------------------------------------------------------------ any range

  /** The exponent of `n` as a power of `k`, if it is one. */
  function PowerOf(k: Arity, n: nat): Option<nat> {
    if n <= 1 then (if n == 1 then Some(0) else None)
    else if Rem(k, n) != 0 then None
    else
      var rest := PowerOf(k, Quot(k, n));
      if rest.None? then None else Some(rest.value + 1)
  }

  lemma {:induction false} PowerIs(k: Arity, n: nat)
    ensures PowerOf(k, n).Some? ==> n == Pow(k, PowerOf(k, n).value)
    decreases n
  {
    hide Times, Quot, Rem;
    PowSucc(k, 0);
    if n > 1 && Rem(k, n) == 0 {
      PowerIs(k, Quot(k, n));
      if PowerOf(k, Quot(k, n)).Some? {
        PowSucc(k, PowerOf(k, Quot(k, n)).value);
      }
    }
  }

  lemma {:induction false} PowerFound(k: Arity, h: nat)
    ensures PowerOf(k, Pow(k, h)) == Some(h)
    decreases h
  {
    hide Times, Quot;
    PowSucc(k, 0);
    if h > 0 {
      PowSucc(k, h - 1);
      QuotUnique(k, Pow(k, h - 1), 0);
      NullHeight(k, h);
      PowerFound(k, h - 1);
    }
  }

  /** What a range of positions resolves to: one subtree, or the bag of the subtrees it falls into. */
  function ResolveRange(k: Arity, x: Source, lo: nat, hi: nat): (Digest, seq<NodeWrite>)
    requires lo <= hi
  {
    var size := hi - lo;
    if size == 0 then (x.view.hasher.empty, [])
    else if PowerOf(k, size).Some? then Resolve(k, x, Coord(lo, PowerOf(k, size).value))
    else if !ActiveRange(x.view.epochs, lo, hi) then (Null(x.view.hasher), [])
    else
      var parts := ResolveAll(k, x, Shift(Frontier(k, size), lo));
      (BagPeaks(x.view.hasher, parts.0, k), parts.1)
  }

  /** The loops that tell a power of `k`, and which. */
  method HeightOfPower(k: Arity, size: nat) returns (height: Option<nat>)
    requires size > 0
    ensures height == PowerOf(k, size)
  {
    hide Pow;
    var temp := size;
    ghost var divided := 0;
    while temp % k == 0
      invariant temp > 0 && PowerOf(k, size) == Raised(PowerOf(k, temp), divided)
      decreases temp
    {
      QuotIs(k, temp);
      PowerStep(k, temp);
      temp := temp / k;
      divided := divided + 1;
    }
    QuotIs(k, temp);
    if temp != 1 {
      return None;
    }
    var h := 0;
    temp := size;
    while temp > 1
      invariant temp > 0 && PowerOf(k, temp).Some? && PowerOf(k, size) == Raised(PowerOf(k, temp), h)
      decreases temp
    {
      QuotIs(k, temp);
      PowerStep(k, temp);
      temp := temp / k;
      h := h + 1;
    }
    height := Some(h);
  }

  function Raised(o: Option<nat>, more: nat): Option<nat> { if o.None? then None else Some(o.value + more) }

  lemma PowerStep(k: Arity, n: nat)
    requires n > 1 && (Rem(k, n) == 0 || PowerOf(k, n).Some?)
    ensures PowerOf(k, n) == Raised(PowerOf(k, Quot(k, n)), 1) && 0 < Quot(k, n) < n
  {
    hide Times;
  }

  /** The whole of the recursion's entry: an empty range, a subtree, or a bag of them. */
  method ReconstructRange(x: Source, lo: nat, hi: nat, k: Arity) returns (r: Result<(Digest, seq<NodeWrite>)>)
    requires lo <= hi <= U64_MAX && (x.kind == Flat ==> hi <= |x.store.leaves|)
    ensures r == Ok(ResolveRange(k, x, lo, hi))
  {
    hide Resolve, ResolveAll, Frontier, Pow, BagPeaks, ActiveRange, PowerOf;
    var size := hi - lo;
    if size == 0 {
      return Ok((x.view.hasher.empty, []));
    }
    PowerIs(k, size);
    var height := HeightOfPower(k, size);
    if height.Some? {
      r := ReconstructSubtreeRoot(x, Coord(lo, height.value), k);
      return;
    }
    if !ActiveRange(x.view.epochs, lo, hi) {
      return Ok((Null(x.view.hasher), []));
    }
    var coords := FrontierForSize(size, k);
    var cs := Shift(coords, lo);
    PartsInside(k, size);
    var componentHashes: seq<Digest> := [];
    var mixed: seq<NodeWrite> := [];
    AllStep(k, x, [], Coord(0, 0));
    for n := 0 to |coords|
      invariant (componentHashes, mixed) == ResolveAll(k, x, cs[..n])
    {
      assert coords[n] in coords && cs[..n + 1] == cs[..n] + [cs[n]];
      AllStep(k, x, cs[..n], cs[n]);
      var part := ReconstructSubtreeRoot(x, Coord(lo + coords[n].left, coords[n].height), k);
      componentHashes := componentHashes + [part.value.0];
      mixed := mixed + part.value.1;
    }
    assert cs[..|coords|] == cs;
    r := Ok((BagPeaks(x.view.hasher, componentHashes, k), mixed));
  }

  lemma PartsInside(k: Arity, n: nat)
    ensures forall c :: c in Frontier(k, n) ==> End(k, c) <= n
  {
    hide Frontier;
    MountainsKnown(k, n, 0);
  }

  lemma {:induction false} PowerFrontier(k: Arity, h: nat)
    ensures Frontier(k, Pow(k, h)) == [Coord(0, h)]
    decreases h
  {
    hide Times, Quot;
    if h == 0 {
      FrontierAt(k, 1, 0, 1);
      PowSucc(k, 0);
      NoPeaks(k);
      assert Leaves(0, 1) == [Coord(0, 0)];
    } else {
      PowerFrontier(k, h - 1);
      PowSucc(k, h - 1);
      FrontierAt(k, Pow(k, h), Pow(k, h - 1), 0);
      assert UpAll(k, [Coord(0, h - 1)]) == [Coord(0, h)];
    }
  }

  /**
   On a recoverable log the range from the start to any size not below the seal's resolves
   to the member root of that size: a reconstruction agrees with a build from scratch.
   */
  lemma RangeRight(k: Arity, x: Source, old_: AlgView, cells: seq<Digest>, base: nat, n: nat)
    requires Frozen(k, x, old_, cells, base) && Recoverable(k, old_, cells, base) && base <= n <= |cells|
    ensures ResolveRange(k, x, 0, n).0 == MemberRoot(x.view.hasher, k, cells, n)
  {
    var h := x.view.hasher;
    MountainsKnown(k, n, base);
    PowerIs(k, n);
    if n == 0 {
      NoPeaks(k);
    } else if PowerOf(k, n).Some? {
      var c := Coord(0, PowerOf(k, n).value);
      PowerFrontier(k, c.height);
      hide *;
      assert c in Frontier(k, n);
      RangeParts(k, x, n);
      ResolveRight(k, x, old_, cells, base, c);
      OneBag(h, k, cells, n, c);
    } else {
      hide *;
      FrontierCount(k, n);
      RangeParts(k, x, n);
      AllRight(k, x, old_, cells, base, Frontier(k, n));
      RootIs(h, k, cells, n);
      if !ActiveRange(x.view.epochs, 0, n) {
        NothingActive(k, x, old_, cells, base, n);
      }
    }
  }

  lemma RangeParts(k: Arity, x: Source, n: nat)
    requires n > 0
    ensures PowerOf(k, n).Some? ==> ResolveRange(k, x, 0, n) == Resolve(k, x, Coord(0, PowerOf(k, n).value))
    ensures PowerOf(k, n).None? ==>
              ResolveRange(k, x, 0, n).0 ==
              if ActiveRange(x.view.epochs, 0, n) then BagPeaks(x.view.hasher, ResolveAll(k, x, Frontier(k, n)).0, k)
              else Null(x.view.hasher)
  {
    hide Resolve, ResolveAll, Frontier, BagPeaks, ActiveRange, PowerOf;
    assert Shift(Frontier(k, n), 0) == Frontier(k, n);
  }

  lemma OneBag(h: Hasher, k: Arity, cells: seq<Digest>, n: nat, c: Coord)
    requires Frontier(k, n) == [c]
    ensures MemberRoot(h, k, cells, n) == Block(h, k, cells, c)
  {
    hide Block, Frontier;
    BagOfOne(h, k, Block(h, k, cells, c));
    assert Peaks(h, k, cells, n) == [Block(h, k, cells, c)];
  }

  lemma RootIs(h: Hasher, k: Arity, cells: seq<Digest>, n: nat)
    ensures MemberRoot(h, k, cells, n) == BagPeaks(h, BlockAll(h, k, cells, Frontier(k, n)), k)
    ensures Peaks(h, k, cells, n) == BlockAll(h, k, cells, Frontier(k, n))
  {
    hide Block, Frontier, BagPeaks;
  }

  lemma FrontierCount(k: Arity, n: nat)
    requires n > 0
    ensures |Frontier(k, n)| > 0
  {
    FrontierInit(k, n);
  }

  /** Where nothing was active every peak is null, and so is their bag. */
  lemma NothingActive(k: Arity, x: Source, old_: AlgView, cells: seq<Digest>, base: nat, n: nat)
    requires Frozen(k, x, old_, cells, base) && 0 < n <= |cells| && !ActiveRange(x.view.epochs, 0, n)
    requires |Frontier(k, n)| > 0
    ensures MemberRoot(x.view.hasher, k, cells, n) == Null(x.view.hasher)
  {
    var h := x.view.hasher;
    FrozenParts(k, x, old_, cells, base);
    BelowSame(k, x, old_, cells, base);
    MountainsKnown(k, n, 0);
    hide Frozen, NodesOk, PeaksOnly, LeavesOk, Frontier, Block, WellFormed, ActiveAt, Aligned, Known;
    forall j | 0 <= j < |Frontier(k, n)|
      ensures Block(h, k, cells, Frontier(k, n)[j]) == Null(h)
    {
      assert Frontier(k, n)[j] in Frontier(k, n);
      UntouchedRange(k, x.view, Frontier(k, n)[j], n);
      UntouchedBlock(k, x.view, cells, Frontier(k, n)[j]);
    }
    hide ActiveRange;
    BagConstant(h, k, Peaks(h, k, cells, n), Null(h));
  }

  lemma UntouchedRange(k: Arity, view: AlgView, c: Coord, n: nat)
    requires !ActiveRange(view.epochs, 0, n) && End(k, c) <= n
    ensures !Touched(k, view, c)
  {
  }
}
