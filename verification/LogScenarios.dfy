/**
 A reopening that goes wrong, through the log's own operations: an algorithm that was
 frozen for part of a sealed peak, reopened on the log resumed from that seal.
 */
module LogScenarios {
  import opened Base
  import opened Topology
  import opened Spine
  import opened Mountain
  import opened Blocks
  import opened Subtrees
  import opened Epochs
  import opened Storage
  import opened Engine
  import opened Ledger
  import opened Representation
  import opened Log
  import Views
  import Reopening
  import Soundness

  function Appended(p: Bytes): Step { Append(TreeItem(Leaf(p))) }

  /** Two algorithms over one position. */
  function OneCell(h: Hasher, p: Bytes): State {
    State(map[0 := Member(h, [Epoch(0, OPEN)], [h.leaf(p)]), 1 := Member(h, [Epoch(0, OPEN)], [h.leaf(p)])], 1)
  }

  /** The second of them frozen. */
  function OneFrozen(h: Hasher, p: Bytes): State {
    State(map[0 := Member(h, [Epoch(0, OPEN)], [h.leaf(p)]), 1 := Member(h, [Epoch(0, 1)], [h.leaf(p)])], 1)
  }

  /** One more position. */
  function TwoFrozen(h: Hasher, p: Bytes): State {
    State(map[0 := Member(h, [Epoch(0, OPEN)], [h.leaf(p), h.leaf(p)]),
              1 := Member(h, [Epoch(0, 1)], [h.leaf(p), Null(h)])], 2)
  }

  /** And open again. */
  function TwoCells(h: Hasher, p: Bytes): State {
    State(map[0 := Member(h, [Epoch(0, OPEN)], [h.leaf(p), h.leaf(p)]),
              1 := Member(h, [Epoch(0, 1), Epoch(2, OPEN)], [h.leaf(p), Null(h)])], 2)
  }

  lemma FirstSteps(h: Hasher, p: Bytes)
    ensures Enabled(Genesis, Add(0, h)) && Enabled(After(Genesis, Add(0, h)), Add(1, h))
    ensures var s := After(After(Genesis, Add(0, h)), Add(1, h));
            Enabled(s, Appended(p)) && After(s, Appended(p)) == OneCell(h, p)
  {
    var s := After(After(Genesis, Add(0, h)), Add(1, h));
    assert s.members == map[0 := Member(h, [Epoch(0, OPEN)], []), 1 := Member(h, [Epoch(0, OPEN)], [])];
    assert IsActive(s.members[0].epochs);
    assert ItemDigest(h, TreeItem(Leaf(p))) == h.leaf(p);
    assert [] + [h.leaf(p)] == [h.leaf(p)];
    assert After(s, Appended(p)).members == OneCell(h, p).members;
  }

  lemma Freezing(h: Hasher, p: Bytes)
    ensures Enabled(OneCell(h, p), Freeze(1)) && After(OneCell(h, p), Freeze(1)) == OneFrozen(h, p)
  {
    assert CloseAt([Epoch(0, OPEN)], 1) == [Epoch(0, 1)];
    assert After(OneCell(h, p), Freeze(1)).members == OneFrozen(h, p).members;
  }

  lemma Appending(h: Hasher, p: Bytes)
    ensures Enabled(OneFrozen(h, p), Appended(p)) && After(OneFrozen(h, p), Appended(p)) == TwoFrozen(h, p)
  {
    var s := OneFrozen(h, p);
    assert IsActive(s.members[0].epochs) && !IsActive(s.members[1].epochs);
    assert ItemDigest(h, TreeItem(Leaf(p))) == h.leaf(p);
    assert [h.leaf(p)] + [h.leaf(p)] == [h.leaf(p), h.leaf(p)] && [h.leaf(p)] + [Null(h)] == [h.leaf(p), Null(h)];
    assert After(s, Appended(p)).members == TwoFrozen(h, p).members;
  }

  lemma Opening(h: Hasher, p: Bytes)
    ensures Enabled(TwoFrozen(h, p), Reopen(1)) && After(TwoFrozen(h, p), Reopen(1)) == TwoCells(h, p)
  {
    assert [Epoch(0, 1)] + [Epoch(2, OPEN)] == [Epoch(0, 1), Epoch(2, OPEN)];
    assert After(TwoFrozen(h, p), Reopen(1)).members == TwoCells(h, p).members;
  }

  /** The log of those two positions. */
  method TwoCellLog(h: Hasher, p: Bytes) returns (log: NaryMerkleLog)
    ensures fresh(log) && fresh(log.storage) && log.Valid() && log.base == 0 && log.k == 2 &&
            log.state == TwoCells(h, p)
  {
    FirstSteps(h, p);
    Freezing(h, p);
    Appending(h, p);
    Opening(h, p);
    assert Appended(p) == Append(TreeItem(Leaf(p)));
    var storage := new MemoryStorage();
    hide *;
    var made := NaryMerkleLog.New(storage, h, 2, false);
    log := made.value;
    var r0 := log.AddAlgorithm(1, h, false);
    var r1 := log.AppendSubtree(Leaf(p), false);
    var r2 := log.RemoveAlgorithm(1, false);
    var r3 := log.AppendSubtree(Leaf(p), false);
    var r4 := log.ResumeAlgorithm(1, false);
  }

  lemma NoneMasked(h: Hasher, p: Bytes, algs: map<nat, AlgView>)
    requires Reopening.NullFree(h) && h.leaf(p) != Null(h) && algs.Keys == TwoCells(h, p).members.Keys
    requires forall id :: id in algs ==> algs[id].hasher == h && algs[id].epochs == TwoCells(h, p).members[id].epochs
    ensures AllClear(2, algs, TwoCells(h, p))
  {
    var s := TwoCells(h, p);
    forall id | id in algs
      ensures Views.Clear(2, algs[id], s.members[id].cells)
    {
      Activity(algs[id].epochs);
      hide ActiveAt;
      Reopening.NothingMasked(2, algs[id], s.members[id].cells);
    }
  }

  lemma Activity(es: seq<Epoch>)
    requires es == [Epoch(0, OPEN)] || es == [Epoch(0, 1), Epoch(2, OPEN)]
    ensures es == [Epoch(0, 1), Epoch(2, OPEN)] ==> !ActiveAt(es, 1)
  {
  }

  /** The seal of that log, resumed in a fresh store, and the second algorithm frozen there. */
  method ResumedLog(h: Hasher, p: Bytes) returns (log: NaryMerkleLog)
    requires Reopening.NullFree(h) && h.leaf(p) != Null(h)
    ensures fresh(log) && fresh(log.storage) && log.Valid() && log.base == 2 && log.k == 2
    ensures log.state == Carried(TwoCells(h, p)) && log.kind == SubtreeKind
  {
    hide *;
    var log0 := TwoCellLog(h, p);
    MembersOf(log0, h, p);
    NoneMasked(h, p, log0.algs);
    CarriedIs(h, p);
    var sealed := log0.Seal();
    var storage := new MemoryStorage();
    EmptyParts(storage);
    OwnTwo(sealed.value, h, p);
    OwnHashed(sealed.value, map[0 := h, 1 := h], TwoCells(h, p), 2);
    var r := NaryMerkleLog.Resume(sealed.value, storage, map[0 := h, 1 := h], false, TwoCells(h, p), 2);
    log := r.value;
  }

  lemma EmptyParts(storage: MemoryStorage)
    requires storage.Contents() == EmptyStore
    ensures storage.count == 0 && storage.metas == map[]
  {
  }

  lemma OwnTwo(sealed: Sealed, h: Hasher, p: Bytes)
    requires sealed == SealedOf(TwoCells(h, p), 2) && StateOk(TwoCells(h, p))
    ensures Own(sealed, map[0 := h, 1 := h], TwoCells(h, p), 2) && TwoCells(h, p).size <= U64_MAX
  {
    TwoKeys(h, p);
    hide SealedOf, StateOk;
  }

  /** What a valid log over those positions holds. */
  lemma MembersOf(log: NaryMerkleLog, h: Hasher, p: Bytes)
    requires log.Valid() && log.state == TwoCells(h, p)
    ensures log.algs.Keys == TwoCells(h, p).members.Keys == {0, 1} && StateOk(TwoCells(h, p))
    ensures forall id :: id in log.algs ==>
              TwoCells(h, p).members[id].hasher == h &&
              log.algs[id].hasher == h && log.algs[id].epochs == TwoCells(h, p).members[id].epochs
  {
    hide *;
    TwoKeys(h, p);
    ValidParts(log);
    RepresentsAt(log.k, log.storage.Contents(), log.algs, log.state, log.kind, log.base, 0);
    forall id | id in log.algs
      ensures log.algs[id].hasher == h && log.algs[id].epochs == TwoCells(h, p).members[id].epochs
    {
      RepresentsAt(log.k, log.storage.Contents(), log.algs, log.state, log.kind, log.base, id);
      MemberOf(log.k, log.storage.Contents(), id, log.algs[id], log.state.members[id], log.kind, log.base);
    }
  }

  lemma TwoKeys(h: Hasher, p: Bytes)
    ensures TwoCells(h, p).members.Keys == {0, 1}
    ensures TwoCells(h, p).members[0] == Member(h, [Epoch(0, OPEN)], [h.leaf(p), h.leaf(p)])
    ensures TwoCells(h, p).members[1] == Member(h, [Epoch(0, 1), Epoch(2, OPEN)], [h.leaf(p), Null(h)])
  {
  }

  lemma ValidParts(log: NaryMerkleLog)
    requires log.Valid()
    ensures Represents(log.k, log.storage.Contents(), log.algs, log.state, log.kind, log.base) &&
            log.count == log.state.size
  {
    hide Represents;
  }

  /** The seal carries both. */
  lemma CarriedIs(h: Hasher, p: Bytes)
    ensures Carried(TwoCells(h, p)) == TwoCells(h, p) && TwoCells(h, p).size == 2
    ensures TwoCells(h, p).members.Keys == {0, 1}
  {
    assert Carried(TwoCells(h, p)).members == TwoCells(h, p).members;
  }

  /** The second algorithm frozen again. */
  function Member1(h: Hasher, p: Bytes): Member {
    Member(h, [Epoch(0, 1), Epoch(2, 2)], [h.leaf(p), Null(h)])
  }

  lemma FreezingAgain(h: Hasher, p: Bytes)
    ensures var s := TwoCells(h, p);
            Enabled(s, Freeze(1)) && 1 in After(s, Freeze(1)).members &&
              After(s, Freeze(1)).members[1] == Member1(h, p) &&
            Enabled(After(s, Freeze(1)), Reopen(1)) && After(s, Freeze(1)).size == 2 &&
            var t := After(After(s, Freeze(1)), Reopen(1));
            1 in t.members && t.members[1].cells == Member1(h, p).cells && t.size == 2
    ensures Member1(h, p).hasher == h && Member1(h, p).cells == [h.leaf(p), Null(h)]
  {
    assert CloseAt([Epoch(0, 1), Epoch(2, OPEN)], 2) == [Epoch(0, 1), Epoch(2, 2)];
  }

  /** Its one sealed peak spans both positions, and no epoch does. */
  lemma PeakLost(h: Hasher, p: Bytes, view: AlgView)
    requires Reopening.NullFree(h) && h.leaf(p) != Null(h) && view.hasher == h && view.epochs == Member1(h, p).epochs
    ensures Reopening.LostPeak(2, view, Member1(h, p).cells, 2, Coord(0, 1))
    ensures !Reopening.Recoverable(2, view, Member1(h, p).cells, 2)
    ensures Aligned(2, Coord(0, 1)) && Touched(2, view, Coord(0, 1)) && Frontier(2, 2) == [Coord(0, 1)]
    ensures MemberRoot(h, 2, Member1(h, p).cells, 2) == h.node([h.leaf(p), Null(h)])
  {
    var f, cells := Coord(0, 1), Member1(h, p).cells;
    PairSpan(2, f, view);
    PairBlock(h, cells);
    NullFreeAt(h, cells);
    hide *;
    NotEmptied(view, cells, f);
    LostIs(view, cells, f);
    OnePeak(h, cells);
  }

  lemma NullFreeAt(h: Hasher, ds: seq<Digest>)
    requires Reopening.NullFree(h)
    ensures h.node(ds) != Null(h)
  {
  }

  /** The frontier of `k` positions is one subtree, touched but not covered by an epoch that ends inside. */
  lemma PairSpan(k: Arity, f: Coord, view: AlgView)
    requires f == Coord(0, 1) && |view.epochs| == 2 && view.epochs[0] == Epoch(0, 1) && view.epochs[1].start >= 1
    ensures Aligned(k, f) && Touched(k, view, f) && Frontier(k, k) == [f]
    ensures !Reopening.Whole(k, view, f) && f in Frontier(k, k)
  {
    Soundness.SmallFrontiers(k);
    PowSucc(k, 0);
    FrontierInside(k, k);
    hide Frontier, Aligned, Pow;
    assert f in Frontier(k, k);
    assert view.epochs[0].start < End(k, f) && view.epochs[0].end > f.left;
  }

  lemma OnePeak(h: Hasher, cells: seq<Digest>)
    requires Frontier(2, 2) == [Coord(0, 1)]
    ensures MemberRoot(h, 2, cells, 2) == Block(h, 2, cells, Coord(0, 1))
  {
    hide Frontier, Block;
    BagOfOne(h, 2, Block(h, 2, cells, Coord(0, 1)));
    assert Peaks(h, 2, cells, 2) == [Block(h, 2, cells, Coord(0, 1))];
  }

  lemma NotEmptied(view: AlgView, cells: seq<Digest>, f: Coord)
    requires Aligned(2, f) && f.height > 0 && Touched(2, view, f) &&
             Block(view.hasher, 2, cells, f) != Null(view.hasher)
    ensures !Reopening.Emptied(2, view, cells, f)
  {
    hide Aligned, Touched, Block;
    Reopening.SelfInside(2, f);
  }

  lemma LostIs(view: AlgView, cells: seq<Digest>, f: Coord)
    requires f in Frontier(2, 2) && f.height > 0 && !Reopening.Whole(2, view, f) &&
             !Reopening.Emptied(2, view, cells, f)
    ensures Reopening.LostPeak(2, view, cells, 2, f) && !Reopening.Recoverable(2, view, cells, 2)
  {
    hide Frontier, Reopening.Whole, Reopening.Emptied;
  }

  lemma PairBlock(h: Hasher, cells: seq<Digest>)
    requires |cells| == 2 && cells[0] != cells[1]
    ensures Block(h, 2, cells, Coord(0, 1)) == h.node(cells)
  {
    var c := Coord(0, 1);
    BlockUnfold(h, 2, cells, c);
    PowSucc(2, 0);
    TimesIs(1, 1);
    var ds := BlockAll(h, 2, cells, Children(2, c));
    assert Children(2, c)[0] == Coord(0, 0) && Children(2, c)[1] == Coord(1, 0);
    assert ds[0] == cells[0] && ds[1] == cells[1];
    assert ds == cells;
    assert !AllSame(ds);
  }

  /** What was rebuilt is null, where the peak was not. */
  lemma RebuiltNull(h: Hasher, p: Bytes, store: Store, view: AlgView, kind: LogKind)
    requires Reopening.NullFree(h) && h.leaf(p) != Null(h) && kind == SubtreeKind
    requires AlgOk(2, store, 1, view, Member1(h, p), kind, 2) && MemberOk(Member1(h, p), 2)
    ensures var x := Rebuilding(store, 1, Member1(h, p), 2, kind);
            ComputeRoot(Reopened(2, x, 2), 2) == Null(h)
  {
    var m, x, f := Member1(h, p), Rebuilding(store, 1, Member1(h, p), 2, kind), Coord(0, 1);
    FrozenAlg(2, store, 1, view, m, kind, 2, 2);
    MemberOf(2, store, 1, view, m, kind, 2);
    PeakLost(h, p, view);
    Reopening.SelfInside(2, f);
    hide *;
    Reopening.LostResolves(2, x, view, m.cells, 2, f, f);
    ReopenedOne(x, f);
    BagOfOne(h, 2, Null(h));
  }

  lemma ReopenedOne(x: Reopening.Source, f: Coord)
    requires Frontier(2, 2) == [f]
    ensures Reopened(2, x, 2).frontier == [Reopening.Resolve(2, x, f).0]
    ensures ComputeRoot(Reopened(2, x, 2), 2) == BagPeaks(x.view.hasher, [Reopening.Resolve(2, x, f).0], 2)
  {
    hide Reopening.Resolve, Frontier;
    Reopening.AllStep(2, x, [], f);
    assert [] + [f] == [f];
  }

  /**
   Frozen and reopened on the resumed log, the algorithm's live root is the null constant;
   the root it committed to at the same size hashes both positions.
   */
  method SealedPeakLost(h: Hasher, p: Bytes) returns (log: NaryMerkleLog)
    requires Reopening.NullFree(h) && h.leaf(p) != Null(h)
    ensures !log.Valid() && 1 in log.algs && log.count == 2 && 1 in log.state.members
    ensures ComputeRoot(log.algs[1], 2) == Null(h)
    ensures MemberRoot(h, 2, log.state.members[1].cells, 2) == h.node([h.leaf(p), Null(h)])
  {
    hide *;
    CarriedIs(h, p);
    FreezingAgain(h, p);
    log := ResumedLog(h, p);
    var r0 := log.RemoveAlgorithm(1, false);
    ValidParts(log);
    ghost var s, store, kind := log.state, log.storage.Contents(), log.kind;
    RepresentsAt(2, store, log.algs, s, kind, 2, 1);
    MemberOf(2, store, 1, log.algs[1], s.members[1], kind, 2);
    PeakLost(h, p, log.algs[1]);
    RebuiltNull(h, p, store, log.algs[1], kind);
    log.RecoverableIs(1);
    var r1 := log.ResumeAlgorithm(1, false);
  }
}
