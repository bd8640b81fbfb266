/**
 How each step of the log keeps one algorithm's view and stored nodes in agreement
 with its cells, and how a view is rebuilt from storage.
 */
module Views {
  import opened Base
  import opened Topology
  import opened Spine
  import opened Mountain
  import opened Blocks
  import Consistency
  import opened Epochs
  import opened Ledger
  import opened Storage
  import opened Engine

  /** Blocks inside the old cells do not see a new one. */
  lemma BlockAppend(h: Hasher, k: Arity, cells: seq<Digest>, d: Digest, c: Coord)
    requires End(k, c) <= |cells|
    ensures Block(h, k, cells + [d], c) == Block(h, k, cells, c)
  {
    hide Block;
    BlockCongruent(h, k, cells + [d], cells, c);
  }

  /** What an append writes for one active algorithm. */
  ghost predicate AppendWrites(k: Arity, alg: nat, h: Hasher, cells: seq<Digest>, ws: seq<NodeWrite>) {
    && (forall w :: w in ws && w.key.alg == alg ==>
          Aligned(k, w.key.at) && End(k, w.key.at) == |cells| && w.hash == Block(h, k, cells, w.key.at) &&
          (w.key.at.height > 0 ==> w.hash != Null(h)))
    && (forall c: Coord ::
          Aligned(k, c) && End(k, c) == |cells| && (c.height == 0 || Block(h, k, cells, c) != Null(h)) ==>
          exists w :: w in ws && w.key == NodeKey(alg, c))
  }

  lemma NewestActive(k: Arity, es: seq<Epoch>, c: Coord, n: nat)
    requires ActiveAt(es, n) && End(k, c) == n + 1
    ensures HoldsActive(k, es, c)
  {
    assert Contains(k, c, n);
  }

  lemma SameTouch(k: Arity, a: AlgView, b: AlgView, c: Coord)
    requires a.epochs == b.epochs
    ensures Touched(k, a, c) <==> Touched(k, b, c)
  {
  }

  lemma AppendActive(
      k: Arity, nodes: map<NodeKey, Digest>, alg: nat, view: AlgView, cells: seq<Digest>, base: nat,
      d: Digest, ws: seq<NodeWrite>, view': AlgView)
    requires ViewOk(k, view, cells) && NodesOk(k, nodes, alg, view, cells, base)
    requires IsActive(view.epochs) && |cells| + 1 < OPEN
    requires view' == view.(frontier := Peaks(view.hasher, k, cells + [d], |cells| + 1),
                            coords := Frontier(k, |cells| + 1))
    requires AppendWrites(k, alg, view.hasher, cells + [d], ws)
    ensures ViewOk(k, view', cells + [d])
    ensures NodesOk(k, InsertAll(nodes, ws), alg, view', cells + [d], base)
  {
    hide Block, Frontier, Aligned, Anc, Pow, Touched, InsertAll;
    var all, nodes' := cells + [d], InsertAll(nodes, ws);
    LastOpen(view.epochs, |cells|);
    forall c: Coord | NodeKey(alg, c) in nodes'
      ensures Aligned(k, c) && End(k, c) <= |all| && nodes'[NodeKey(alg, c)] == Block(view.hasher, k, all, c)
    {
      InsertAllGet(nodes, ws, NodeKey(alg, c));
      if NodeKey(alg, c) in nodes {
        BlockAppend(view.hasher, k, cells, d, c);
      }
    }
    forall c: Coord | InTree(k, view', |all|, base, c) && MustStore(k, view', all, c)
      ensures NodeKey(alg, c) in nodes'
    {
      InsertAllGet(nodes, ws, NodeKey(alg, c));
      if End(k, c) <= |cells| {
        BlockAppend(view.hasher, k, cells, d, c);
        SameTouch(k, view, view', c);
        assert InTree(k, view, |cells|, base, c);
        assert MustStore(k, view, cells, c);
      } else {
        NewestActive(k, view.epochs, c, |cells|);
        var w :| w in ws && w.key == NodeKey(alg, c);
        var i :| 0 <= i < |ws| && ws[i] == w;
      }
    }
  }

  lemma AppendFrozen(
      k: Arity, nodes: map<NodeKey, Digest>, alg: nat, view: AlgView, cells: seq<Digest>, base: nat, ws: seq<NodeWrite>)
    requires ViewOk(k, view, cells) && NodesOk(k, nodes, alg, view, cells, base)
    requires !IsActive(view.epochs) && |cells| + 1 < OPEN
    requires forall w :: w in ws ==> w.key.alg != alg
    ensures ViewOk(k, view, cells + [Null(view.hasher)])
    ensures NodesOk(k, InsertAll(nodes, ws), alg, view, cells + [Null(view.hasher)], base)
  {
    hide Block, Frontier, Aligned, Anc, Pow, Touched, InsertAll;
    var d := Null(view.hasher);
    var all, nodes' := cells + [d], InsertAll(nodes, ws);
    ClosedBelow(view.epochs, |cells|, |cells|);
    PeaksPermanent(view.hasher, k, cells, [d], TreeSize(view.epochs, |cells|));
    forall c: Coord
      ensures NodeKey(alg, c) in nodes' <==> NodeKey(alg, c) in nodes
      ensures NodeKey(alg, c) in nodes ==> nodes'[NodeKey(alg, c)] == nodes[NodeKey(alg, c)]
    {
      InsertAllGet(nodes, ws, NodeKey(alg, c));
    }
    forall c: Coord | End(k, c) <= |cells|
      ensures Block(view.hasher, k, all, c) == Block(view.hasher, k, cells, c)
    {
      BlockAppend(view.hasher, k, cells, d, c);
    }
  }

  /** Two timelines that agree on what they touch below `n`. */
  lemma Retimed(
      k: Arity, nodes: map<NodeKey, Digest>, alg: nat, view: AlgView, cells: seq<Digest>, base: nat, es: seq<Epoch>)
    requires ViewOk(k, view, cells) && NodesOk(k, nodes, alg, view, cells, base)
    requires WellFormed(es, |cells|) && TreeSize(es, |cells|) == TreeSize(view.epochs, |cells|)
    requires forall i :: 0 <= i < |cells| ==> (ActiveAt(es, i) <==> ActiveAt(view.epochs, i))
    requires forall lo: nat, hi: nat :: lo < hi <= |cells| ==>
             (ActiveRange(es, lo, hi) <==> ActiveRange(view.epochs, lo, hi))
    ensures ViewOk(k, view.(epochs := es), cells)
    ensures NodesOk(k, nodes, alg, view.(epochs := es), cells, base)
  {
    hide Block, Frontier, Aligned, Anc, Pow, ActiveRange, WellFormed, ActiveAt, TreeSize;
    var view' := view.(epochs := es);
    forall c: Coord | InTree(k, view', |cells|, base, c) && MustStore(k, view', cells, c)
      ensures NodeKey(alg, c) in nodes
    {
      assert InTree(k, view, |cells|, base, c) && MustStore(k, view, cells, c);
    }
  }

  lemma Remove(
      k: Arity, nodes: map<NodeKey, Digest>, alg: nat, view: AlgView, cells: seq<Digest>, base: nat)
    requires ViewOk(k, view, cells) && NodesOk(k, nodes, alg, view, cells, base)
    requires IsActive(view.epochs) && |cells| < OPEN
    ensures ViewOk(k, view.(epochs := CloseAt(view.epochs, |cells|)), cells)
    ensures NodesOk(k, nodes, alg, view.(epochs := CloseAt(view.epochs, |cells|)), cells, base)
  {
    hide NodesOk;
    var es := CloseAt(view.epochs, |cells|);
    SameBelow(view.epochs, es, |cells|);
    Retimed(k, nodes, alg, view, cells, base, es);
  }

  /** A new algorithm starts with a null frontier and nothing stored. */
  lemma Register(k: Arity, nodes: map<NodeKey, Digest>, alg: nat, h: Hasher, n: nat, base: nat)
    requires n < OPEN
    requires forall c :: NodeKey(alg, c) !in nodes
    ensures var view := AlgView(h, [Epoch(n, OPEN)], Nulls(h, |Frontier(k, n)|), Frontier(k, n));
            ViewOk(k, view, Nulls(h, n)) && NodesOk(k, nodes, alg, view, Nulls(h, n), base)
  {
    hide Block, Frontier, Aligned, Anc, Pow;
    var view := AlgView(h, [Epoch(n, OPEN)], Nulls(h, |Frontier(k, n)|), Frontier(k, n));
    var cells, f := Nulls(h, n), Frontier(k, n);
    FrontierTiles(k, n);
    forall j | 0 <= j < |f|
      ensures Block(h, k, cells, f[j]) == Null(h)
    {
      TilesOrdered(k, f, n, j, j);
      BlockConstant(h, k, cells, f[j], Null(h));
    }
    assert view.frontier == Peaks(h, k, cells, n);
  }

  // ------------------------------------------------------------------ reopening

  /** What a timeline and its tree's frontier need for the view to be rebuilt. */
  ghost predicate Rebuildable(nodes: map<NodeKey, Digest>, alg: nat, view: AlgView, globalSize: nat, k: Arity) {
    && WellFormed(view.epochs, globalSize)
    && forall c :: c in Frontier(k, TreeSize(view.epochs, globalSize)) ==> Readable(nodes, view, alg, k, c)
  }

  /** A view read back from the store: its frontier nodes as they are there. */
  ghost predicate ReadBack(nodes: map<NodeKey, Digest>, alg: nat, view: AlgView, globalSize: nat, k: Arity) {
    && view.coords == Frontier(k, TreeSize(view.epochs, globalSize)) && |view.frontier| == |view.coords|
    && forall j :: 0 <= j < |view.coords| ==> GetNodeHash(nodes, view, alg, view.coords[j], k) == Ok(view.frontier[j])
  }

  /** Rebuilds a view from the store: every frontier node is read back. */
  method ReconstructView(
      nodes: map<NodeKey, Digest>, alg: nat, hasher: Hasher, epochs: seq<Epoch>, globalSize: nat, k: Arity)
    returns (r: Result<AlgView>)
    requires globalSize <= U64_MAX && forall i :: 0 <= i < |epochs| ==> epochs[i].end <= OPEN
    ensures r.Ok? <==> Rebuildable(nodes, alg, AlgView(hasher, epochs, [], []), globalSize, k)
    ensures r.Ok? ==>
            r.value.hasher == hasher && r.value.epochs == epochs && ReadBack(nodes, alg, r.value, globalSize, k)
  {
    hide Block, Frontier, Aligned, Anc, Readable, Touched;
    var ok := ValidateEpochs(epochs, globalSize);
    if !ok {
      return Err(Corrupted(alg));
    }
    var treeSize := TreeSize(epochs, globalSize);
    var coords := FrontierForSize(treeSize, k);
    var view := AlgView(hasher, epochs, [], []);
    var frontier := ReadPeaks(nodes, view, alg, coords, k, []);
    if frontier.Err? {
      return Err(frontier.error);
    }
    r := Ok(AlgView(hasher, epochs, frontier.value, coords));
    SameReads(nodes, view, r.value, alg, k, []);
    SameNodes(nodes, view, r.value, alg, k);
  }

  lemma SameNodes(nodes: map<NodeKey, Digest>, a: AlgView, b: AlgView, alg: nat, k: Arity)
    requires a.hasher == b.hasher && a.epochs == b.epochs
    ensures forall c :: GetNodeHash(nodes, a, alg, c, k) == GetNodeHash(nodes, b, alg, c, k)
  {
  }

  /** From what a log in order stored, it is the live view; and it is rebuilt unless a peak cannot be read. */
  lemma ReadBackIsLive(
      k: Arity, nodes: map<NodeKey, Digest>, alg: nat, live: AlgView, cells: seq<Digest>, base: nat, view: AlgView)
    requires ViewOk(k, live, cells) && NodesOk(k, nodes, alg, live, cells, base) && |cells| < OPEN
    requires base <= TreeSize(live.epochs, |cells|) && view.hasher == live.hasher && view.epochs == live.epochs
    ensures ReadBack(nodes, alg, view, |cells|, k) ==> view == live
    ensures Rebuildable(nodes, alg, view, |cells|, k) <==> forall c :: c in live.coords ==>
            Readable(nodes, live, alg, k, c)
  {
    hide Block, Frontier, Aligned, Anc, Readable, Truthful, NodesOk, Touched, Known, GetNodeHash;
    var treeSize := TreeSize(live.epochs, |cells|);
    SameReads(nodes, live, view, alg, k, cells);
    if ReadBack(nodes, alg, view, |cells|, k) {
      forall j | 0 <= j < |view.coords|
        ensures view.frontier[j] == Block(live.hasher, k, cells, view.coords[j])
      {
        FrontierInTree(k, live, |cells|, base, treeSize, view.coords[j]);
        ReadsAreTruthful(k, nodes, alg, live, cells, base, view.coords[j]);
        TruthIs(nodes, view, alg, k, cells, view.coords[j], view.frontier[j]);
      }
      assert view.frontier == Peaks(live.hasher, k, cells, treeSize);
    }
  }

  lemma TruthIs(
      nodes: map<NodeKey, Digest>, view: AlgView, alg: nat, k: Arity, cells: seq<Digest>, c: Coord, d: Digest)
    requires Truthful(nodes, view, alg, k, cells, c) && GetNodeHash(nodes, view, alg, c, k) == Ok(d)
    ensures d == Block(view.hasher, k, cells, c)
  {
  }

  lemma SameReads(nodes: map<NodeKey, Digest>, a: AlgView, b: AlgView, alg: nat, k: Arity, cells: seq<Digest>)
    requires a.hasher == b.hasher && a.epochs == b.epochs
    ensures forall c :: Readable(nodes, a, alg, k, c) <==> Readable(nodes, b, alg, k, c)
    ensures forall c :: Truthful(nodes, a, alg, k, cells, c) <==> Truthful(nodes, b, alg, k, cells, c)
  {
  }

  /** The parent of a subtree left of leaf `i` that the path of `i` passes covers `i`. */
  lemma AboveContains(k: Arity, c: Coord)
    requires Aligned(k, c)
    ensures Contains(k, Above(k, c), c.left) && Aligned(k, Above(k, c)) && End(k, c) <= End(k, Above(k, c))
  {
    hide Aligned, Anc;
    AncContains(k, c.left, c.height + 1);
    Nested(k, c, Above(k, c), c.left);
  }

  /** A frontier subtree's parent is not complete. */
  lemma FrontierIncomplete(k: Arity, n: nat, c: Coord)
    requires c in Frontier(k, n)
    ensures Aligned(k, c) && End(k, c) <= n < End(k, Above(k, c))
  {
    hide Aligned, Anc, Frontier, MountainOf;
    FrontierTiles(k, n);
    var f :| 0 <= f < |Frontier(k, n)| && Frontier(k, n)[f] == c;
    TilesOrdered(k, Frontier(k, n), n, f, f);
    AboveContains(k, c);
    if End(k, Above(k, c)) <= n {
      var u := Above(k, c);
      Consistency.MountainCovers(k, n, u);
      MountainContains(k, n, u.left);
      Nested(k, c, Frontier(k, n)[MountainOf(k, n, u.left)], c.left) by {
        var m := Frontier(k, n)[MountainOf(k, n, u.left)];
        FrontierTiles(k, n);
        Nested(k, u, m, u.left);
      }
      MountainUnique(k, n, c.left, f);
      MountainUnique(k, n, c.left, MountainOf(k, n, u.left));
      assert false;
    }
  }

  lemma FrontierInTree(k: Arity, view: AlgView, n: nat, base: nat, size: nat, c: Coord)
    requires c in Frontier(k, size) && base <= size <= TreeSize(view.epochs, n)
    ensures InTree(k, view, n, base, c)
  {
    hide Frontier, Anc, Aligned;
    FrontierIncomplete(k, size, c);
  }

  // ------------------------------------------------------------------ what proofs read

  /** No known aligned subtree of the tree is masked. */
  ghost predicate Clear(k: Arity, view: AlgView, cells: seq<Digest>) {
    forall c: Coord :: Aligned(k, c) && End(k, c) <= |cells| ==> !Masked(k, view, cells, c)
  }

  /** Reading at `c` returns its value; and it succeeds when `c` is in the known tree and nothing is masked. */
  lemma ReadAt(
      k: Arity, nodes: map<NodeKey, Digest>, alg: nat, view: AlgView, cells: seq<Digest>, base: nat, c: Coord)
    requires ViewOk(k, view, cells) && NodesOk(k, nodes, alg, view, cells, base)
    requires Aligned(k, c) && End(k, c) <= |cells| <= U64_MAX
    ensures Truthful(nodes, view, alg, k, cells, c)
    ensures InTree(k, view, |cells|, base, c) && Clear(k, view, cells) ==> Readable(nodes, view, alg, k, c)
  {
    hide Aligned, Block, Anc, Touched, Masked, NodesOk, ViewOk, Readable, Truthful;
    ReadsAreTruthful(k, nodes, alg, view, cells, base, c);
    if InTree(k, view, |cells|, base, c) {
      ReadsSucceed(k, nodes, alg, view, cells, base, c);
    }
  }

  lemma FrontierReads(
      k: Arity, nodes: map<NodeKey, Digest>, alg: nat, view: AlgView, cells: seq<Digest>, base: nat, n: nat)
    requires ViewOk(k, view, cells) && NodesOk(k, nodes, alg, view, cells, base) && n <= |cells| <= U64_MAX
    ensures forall c :: c in Frontier(k, n) ==> Truthful(nodes, view, alg, k, cells, c)
    ensures base <= n <= TreeSize(view.epochs, |cells|) && Clear(k, view, cells) ==>
              forall c :: c in Frontier(k, n) ==> Readable(nodes, view, alg, k, c)
  {
    hide Aligned, NodesOk, ViewOk, Readable, Truthful, Frontier, Clear, Known;
    forall c | c in Frontier(k, n)
      ensures Truthful(nodes, view, alg, k, cells, c)
      ensures base <= n <= TreeSize(view.epochs, |cells|) && Clear(k, view, cells) ==> Readable(nodes, view, alg, k, c)
    {
      FrontierIncomplete(k, n, c);
      if base <= n <= TreeSize(view.epochs, |cells|) {
        FrontierInTree(k, view, |cells|, base, n, c);
      }
      ReadAt(k, nodes, alg, view, cells, base, c);
    }
  }

  /** Where a sibling off the path of leaf `i` lies: under the path's own subtree. */
  lemma SiblingPlace(k: Arity, i: nat, g: nat, j: nat, c: Coord, hi: nat)
    requires IsSibling(k, i, g, j, c) && g < hi
    ensures Aligned(k, c) && Above(k, c) == Anc(k, i, g + 1)
    ensures End(k, c) <= End(k, Anc(k, i, hi)) && i < End(k, Above(k, c))
  {
    hide Aligned, Anc, Digit, Times;
    AncContains(k, i, g + 1);
    ChildInside(k, Anc(k, i, g + 1), j);
    AncInside(k, i, g + 1, hi);
    var top := Anc(k, i, g + 1);
    assert Contains(k, top, c.left);
    AlignedIsAnc(k, top, c.left);
  }

  /** Everything an inclusion proof for leaf `i` of `n` reads is inside, and above `i` or at the edge. */
  lemma InclusionPlaces(k: Arity, n: nat, i: nat, c: Coord)
    requires i < n && InclusionReads(k, n, i, c)
    ensures Aligned(k, c) && End(k, c) <= n && End(k, Above(k, c)) > i
  {
    hide Aligned, Anc, MountainOf, Frontier, IsSibling;
    if c in Frontier(k, n) {
      FrontierIncomplete(k, n, c);
    } else {
      var g: nat, j: nat :| 0 <= g < HeightOf(k, n, i) && IsSibling(k, i, g, j, c);
      SiblingPlace(k, i, g, j, c, HeightOf(k, n, i));
      MountainEnd(k, n, i);
    }
  }

  lemma MountainEnd(k: Arity, n: nat, i: nat)
    requires i < n
    ensures End(k, Anc(k, i, HeightOf(k, n, i))) <= n
  {
    hide Anc, MountainOf, Frontier;
    MountainIsAnc(k, n, i);
    FrontierTiles(k, n);
    TilesOrdered(k, Frontier(k, n), n, MountainOf(k, n, i), MountainOf(k, n, i));
  }

  /** Everything a consistency proof from `m` to `n` reads is inside, and not complete at `m`. */
  lemma ConsistencyPlaces(k: Arity, m: nat, n: nat, c: Coord)
    requires 0 < m < n && ConsistencyReads(k, m, n, c)
    ensures Aligned(k, c) && End(k, c) <= n && End(k, Above(k, c)) > m
  {
    hide Aligned, Anc, MountainOf, Frontier, IsSibling;
    Consistency.BoundaryFits(k, m, n);
    FrontierInit(k, m);
    var b := Consistency.Last(k, m);
    FrontierIncomplete(k, m, b);
    if c in Frontier(k, n) {
      FrontierIncomplete(k, n, c);
    } else if c != b {
      var hi := HeightOf(k, n, b.left);
      var g: nat, j: nat :| b.height <= g < hi && IsSibling(k, b.left, g, j, c);
      SiblingPlace(k, b.left, g, j, c, hi);
      MountainEnd(k, n, b.left);
      AncInside(k, b.left, b.height + 1, g + 1);
    }
  }

  lemma ConsistencyReadsOk(
      k: Arity, nodes: map<NodeKey, Digest>, alg: nat, view: AlgView, cells: seq<Digest>, base: nat, m: nat, n: nat)
    requires ViewOk(k, view, cells) && NodesOk(k, nodes, alg, view, cells, base) && |cells| <= U64_MAX
    requires 0 < m < n <= TreeSize(view.epochs, |cells|)
    ensures forall c :: ConsistencyReads(k, m, n, c) ==> Truthful(nodes, view, alg, k, cells, c)
    ensures base <= m && Clear(k, view, cells) ==>
              forall c :: ConsistencyReads(k, m, n, c) ==> Readable(nodes, view, alg, k, c)
  {
    assert TreeSize(view.epochs, |cells|) <= |cells|;
    hide Aligned, NodesOk, ViewOk, Readable, Truthful, ConsistencyReads, Clear, Anc;
    forall c | ConsistencyReads(k, m, n, c)
      ensures Truthful(nodes, view, alg, k, cells, c)
      ensures base <= m && Clear(k, view, cells) ==> Readable(nodes, view, alg, k, c)
    {
      ConsistencyPlaces(k, m, n, c);
      ReadAt(k, nodes, alg, view, cells, base, c);
    }
  }

  lemma InclusionReadsOk(
      k: Arity, nodes: map<NodeKey, Digest>, alg: nat, view: AlgView, cells: seq<Digest>, base: nat, n: nat, i: nat)
    requires ViewOk(k, view, cells) && NodesOk(k, nodes, alg, view, cells, base) && |cells| <= U64_MAX
    requires i < n <= TreeSize(view.epochs, |cells|)
    ensures forall c :: InclusionReads(k, n, i, c) ==> Truthful(nodes, view, alg, k, cells, c)
    ensures base <= i && Clear(k, view, cells) ==>
              forall c :: InclusionReads(k, n, i, c) ==> Readable(nodes, view, alg, k, c)
  {
    assert TreeSize(view.epochs, |cells|) <= |cells|;
    hide Aligned, NodesOk, ViewOk, Readable, Truthful, InclusionReads, Clear, Anc;
    forall c | InclusionReads(k, n, i, c)
      ensures Truthful(nodes, view, alg, k, cells, c)
      ensures base <= i && Clear(k, view, cells) ==> Readable(nodes, view, alg, k, c)
    {
      InclusionPlaces(k, n, i, c);
      ReadAt(k, nodes, alg, view, cells, base, c);
    }
  }

  // ------------------------------------------------------------------ when reads fail

  /** An algorithm never reopened, none of it sealed away, in order. */
  ghost predicate Plain(k: Arity, nodes: map<NodeKey, Digest>, alg: nat, view: AlgView, cells: seq<Digest>, base: nat) {
    && ViewOk(k, view, cells) && NodesOk(k, nodes, alg, view, cells, base) && |cells| <= U64_MAX
    && OneEpoch(view.epochs, base) && Lean(k, nodes, alg, view.hasher, Since(view.epochs, base))
  }

  lemma PlainReads(
      k: Arity, nodes: map<NodeKey, Digest>, alg: nat, view: AlgView, cells: seq<Digest>, base: nat, c: Coord)
    requires Plain(k, nodes, alg, view, cells, base) && Aligned(k, c) && End(k, c) <= TreeSize(view.epochs, |cells|)
    ensures Readable(nodes, view, alg, k, c) <==> !Masked(k, view, cells, c)
  {
    hide Aligned, ViewOk, NodesOk, Lean, Masked, Readable, OneEpoch, TreeSize;
    OneEpochReads(k, nodes, alg, view, cells, base, c);
  }

  /** Its root at a size, its inclusion proofs and its consistency proofs fail exactly at masked subtrees. */
  lemma RootFails(
      k: Arity, nodes: map<NodeKey, Digest>, alg: nat, view: AlgView, cells: seq<Digest>, base: nat, n: nat)
    requires Plain(k, nodes, alg, view, cells, base) && n <= TreeSize(view.epochs, |cells|)
    ensures (forall c :: c in Frontier(k, n) ==> Readable(nodes, view, alg, k, c)) <==>
            (forall c :: c in Frontier(k, n) ==> !Masked(k, view, cells, c))
  {
    hide Aligned, Plain, Masked, Readable, Frontier;
    forall c | c in Frontier(k, n)
      ensures Readable(nodes, view, alg, k, c) <==> !Masked(k, view, cells, c)
    {
      FrontierIncomplete(k, n, c);
      PlainReads(k, nodes, alg, view, cells, base, c);
    }
  }

  lemma InclusionFails(
      k: Arity, nodes: map<NodeKey, Digest>, alg: nat, view: AlgView, cells: seq<Digest>, base: nat, n: nat, i: nat)
    requires Plain(k, nodes, alg, view, cells, base) && i < n <= TreeSize(view.epochs, |cells|)
    ensures (forall c :: InclusionReads(k, n, i, c) ==> Readable(nodes, view, alg, k, c)) <==>
            (forall c :: InclusionReads(k, n, i, c) ==> !Masked(k, view, cells, c))
  {
    hide Aligned, Plain, Masked, Readable, InclusionReads, Above;
    forall c | InclusionReads(k, n, i, c)
      ensures Readable(nodes, view, alg, k, c) <==> !Masked(k, view, cells, c)
    {
      InclusionPlaces(k, n, i, c);
      PlainReads(k, nodes, alg, view, cells, base, c);
    }
  }

  lemma ConsistencyFails(
      k: Arity, nodes: map<NodeKey, Digest>, alg: nat, view: AlgView, cells: seq<Digest>, base: nat, m: nat, n: nat)
    requires Plain(k, nodes, alg, view, cells, base) && 0 < m < n <= TreeSize(view.epochs, |cells|)
    ensures (forall c :: ConsistencyReads(k, m, n, c) ==> Readable(nodes, view, alg, k, c)) <==>
            (forall c :: ConsistencyReads(k, m, n, c) ==> !Masked(k, view, cells, c))
  {
    hide Aligned, Plain, Masked, Readable, ConsistencyReads, Above;
    forall c | ConsistencyReads(k, m, n, c)
      ensures Readable(nodes, view, alg, k, c) <==> !Masked(k, view, cells, c)
    {
      ConsistencyPlaces(k, m, n, c);
      PlainReads(k, nodes, alg, view, cells, base, c);
    }
  }

  // ------------------------------------------------------------------ masked subtrees

  /** The carry never stores a masked subtree, so reading one is reported as corruption. */
  lemma {:induction false} MaskedNeverWritten(
      h: Hasher, k: Arity, alg: nat, cells: seq<Digest>, n: nat, s: nat, c: Coord)
    requires Block(h, k, cells, c) == Null(h)
    ensures forall w :: w in CarryWrites(h, k, alg, cells, n, s) ==> w.key != NodeKey(alg, c)
  {
    hide Block, Completed;
    if s > 0 {
      MaskedNeverWritten(h, k, alg, cells, n, s - 1, c);
    }
  }

  /**
   Masking happens: under a hasher whose leaf hash of `null` is the null constant, the
   first `k` appends of that payload complete a subtree whose read fails, on every log in
   order whose algorithm was never reopened.
   */
  lemma NullPayloadMasks(k: Arity, nodes: map<NodeKey, Digest>, alg: nat, view: AlgView, cells: seq<Digest>)
    requires Plain(k, nodes, alg, view, cells, 0) && view.epochs == [Epoch(0, OPEN)]
    requires view.hasher.leaf(NULL_PAYLOAD) == Null(view.hasher) && k <= |cells| <= CAPACITY
    requires forall i :: 0 <= i < k ==> cells[i] == view.hasher.leaf(NULL_PAYLOAD)
    ensures Masked(k, view, cells, Coord(0, 1)) && GetNodeHash(nodes, view, alg, Coord(0, 1), k) == Err(Corrupted(alg))
  {
    var c := Coord(0, 1);
    PowSucc(k, 0);
    FirstAligned(k);
    assert Contains(k, c, 0) && view.epochs[0].start <= 0 < view.epochs[0].end;
    hide Block, NodesOk, ViewOk, Lean, Aligned;
    BlockConstant(view.hasher, k, cells, c, Null(view.hasher));
    PlainReads(k, nodes, alg, view, cells, 0, c);
  }

  lemma FirstAligned(k: Arity)
    ensures Aligned(k, Coord(0, 1))
  {
    QuotUnique(k, 0, 0);
  }
}
