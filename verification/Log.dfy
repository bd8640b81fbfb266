/**
 The multi-algorithm append-only log: one store, one frontier per algorithm.  Every
 operation is proved to take the abstract state to its next state, or to fail with
 its error and change nothing.
 */
module Log {
  import opened Base
  import opened Topology
  import opened Spine
  import opened Mountain
  import opened Blocks
  import opened Consistency
  import Shapes
  import opened Subtrees
  import opened Epochs
  import opened NullRuns
  import opened Storage
  import opened Engine
  import opened Ledger
  import opened Representation
  import Views
  import Reopening

  class NaryMerkleLog {
    const k: Arity
    const storage: MemoryStorage
    var algs: map<nat, AlgView>
    var count: nat
    var kind: LogKind
    /** The size of the sealed frontier this log was resumed from; 0 for a log begun empty. */
    ghost const base: nat
    /** The history so far. */
    ghost var state: State

    ghost predicate Valid()
      reads this, storage
    {
      Represents(k, storage.Contents(), algs, state, kind, base) && count == state.size
    }

    /** An empty log with no algorithm, over a fresh store. */
    constructor (k: Arity, storage: MemoryStorage)
      requires storage.Contents() == EmptyStore
      ensures Valid() && state == Genesis && base == 0 && kind == Flat && count == 0
      ensures this.k == k && this.storage == storage
    {
      this.k, this.storage, algs, count, kind := k, storage, map[], 0, Flat;
      base, state := 0, Genesis;
    }

    /** A log around what is already in the store. */
    constructor Holding(
        k: Arity, storage: MemoryStorage, algs: map<nat, AlgView>, count: nat, kind: LogKind, ghost state: State,
        ghost base: nat)
      ensures this.k == k && this.storage == storage && this.algs == algs && this.count == count && this.kind == kind
      ensures this.state == state && this.base == base
    {
      this.k, this.storage, this.algs, this.count, this.kind := k, storage, algs, count, kind;
      this.state, this.base := state, base;
    }

    lemma ValidIs()
      ensures Valid() <==> Represents(k, storage.Contents(), algs, state, kind, base) && count == state.size
    {
    }

    /**
     A new log, with algorithm 0 open from the start.  Nothing looks at what the store
     holds: it is refused only if algorithm 0 is registered there, and the log is in order
     exactly if the store was empty.
     */
    static method New(storage: MemoryStorage, hasher: Hasher, arity: nat, fault: bool)
      returns (r: Result<NaryMerkleLog>)
      modifies storage
      ensures r.Ok? <==> 2 <= arity <= 256 && !fault && 0 !in old(storage.metas)
      ensures r.Ok? ==> fresh(r.value) && r.value.storage == storage && r.value.k == arity && r.value.base == 0
      ensures r.Ok? ==> r.value.state == After(Genesis, Add(0, hasher))
      ensures r.Ok? ==> (r.value.Valid() <==> old(storage.Contents()) == EmptyStore)
      ensures r.Err? ==> storage.Contents() == old(storage.Contents())
      ensures r.Err? ==> r.error == if 2 <= arity <= 256 then StorageFailed else BadArity
    {
      ghost var before := storage.Contents();
      assert before.metas == storage.metas;
      hide *;
      if !(2 <= arity <= 256) {
        return Err(BadArity);
      }
      FirstStep(hasher);
      var log := new NaryMerkleLog.Holding(arity, storage, map[], 0, Flat, Genesis, 0);
      var ok := log.Register(0, hasher, fault);
      if !ok {
        return Err(StorageFailed);
      }
      log.state := After(Genesis, Add(0, hasher));
      log.NewValid(before, hasher);
      r := Ok(log);
    }

    lemma NewValid(before: Store, hasher: Hasher)
      requires algs == map[][0 := Registered(k, hasher, 0)] && 0 !in before.metas && kind == Flat && base == 0 &&
               count == 0
      requires storage.Contents() == Effect(before, WriteOp.AddAlgorithm(0, [Epoch(0, OPEN)]))
      requires Enabled(Genesis, Add(0, hasher)) && state == After(Genesis, Add(0, hasher))
      ensures Valid() <==> before == EmptyStore
    {
      FirstRepresents(k, hasher);
      hide *;
      ValidIs();
      assert algs == map[0 := Registered(k, hasher, 0)];
      if Valid() && before != EmptyStore {
        OnlyEmpty(k, before, algs, state, kind);
      }
    }

    /** Commits the registration, then keeps the new view: null peaks at the present size. */
    method Register(id: nat, hasher: Hasher, fault: bool) returns (ok: bool)
      requires count <= U64_MAX
      modifies this, storage
      ensures count == old(count) && kind == old(kind) && state == old(state)
      ensures ok <==> !fault && id !in old(storage.metas)
      ensures !ok ==> unchanged(this) && storage.Contents() == old(storage.Contents())
      ensures ok ==>
                algs == old(algs)[id := Registered(k, hasher, count)] &&
                storage.Contents() == Effect(old(storage.Contents()), WriteOp.AddAlgorithm(id, [Epoch(count, OPEN)]))
    {
      var currentSize := count;
      var epochs := [Epoch(currentSize, OPEN)];
      RegisterLegal(storage.Contents(), id, epochs);
      hide *;
      ok := storage.Apply([WriteOp.AddAlgorithm(id, epochs)], fault);
      if !ok {
        return;
      }
      var coords := FrontierForSize(currentSize, k);
      var stack := Nulls(hasher, |coords|);
      RegisteredIs(k, hasher, currentSize);
      algs := algs[id := AlgView(hasher, epochs, stack, coords)];
    }

    method AddAlgorithm(id: nat, hasher: Hasher, fault: bool) returns (r: Result<()>)
      requires Valid()
      modifies this, storage
      ensures Valid() && kind == old(kind)
      ensures r.Ok? <==> !fault && Enabled(old(state), Add(id, hasher))
      ensures r.Ok? ==> state == After(old(state), Add(id, hasher))
      ensures r.Err? ==> unchanged(this) && storage.Contents() == old(storage.Contents())
      ensures r.Err? ==> r.error == if id in old(algs) then DuplicateAlgorithm(id) else StorageFailed
      ensures r.Ok? ==> SameReads(k, old(storage.Contents()), storage.Contents(), old(algs), algs, count)
    {
      hide Represents, AlgOk, StateOk, MemberOk, Frontier, NodesOk, ViewOk, Effect;
      RepresentsAt(k, storage.Contents(), algs, state, kind, base, id);
      if id in algs {
        return Err(DuplicateAlgorithm(id));
      }
      AddRepresents(k, storage.Contents(), algs, state, kind, base, id, hasher);
      AddedReads(k, storage.Contents(), algs, id, [Epoch(count, OPEN)], Registered(k, hasher, count), count);
      var ok := Register(id, hasher, fault);
      if !ok {
        return Err(StorageFailed);
      }
      state := After(state, Add(id, hasher));
      r := Ok(());
    }

    method RemoveAlgorithm(id: nat, fault: bool) returns (r: Result<()>)
      requires Valid()
      modifies this, storage
      ensures Valid() && kind == old(kind)
      ensures r.Ok? <==> !fault && Enabled(old(state), Freeze(id))
      ensures r.Ok? ==> state == After(old(state), Freeze(id))
      ensures r.Err? ==> unchanged(this) && storage.Contents() == old(storage.Contents())
      ensures r.Err? ==>
                r.error == if id !in old(algs) then UnknownAlgorithm(id)
                           else if !IsActive(old(algs)[id].epochs) then FrozenAlgorithm(id) else StorageFailed
      ensures r.Ok? ==> SameReads(k, old(storage.Contents()), storage.Contents(), old(algs), algs, count)
    {
      hide Represents, AlgOk, StateOk, MemberOk, Frontier, NodesOk, ViewOk, Effect, SameReads;
      RepresentsAt(k, storage.Contents(), algs, state, kind, base, id);
      if id !in algs {
        return Err(UnknownAlgorithm(id));
      }
      MemberOf(k, storage.Contents(), id, algs[id], state.members[id], kind, base);
      var view := algs[id];
      if !IsActive(view.epochs) {
        return Err(FrozenAlgorithm(id));
      }
      var newEpochs := view.epochs[..|view.epochs| - 1] + [Epoch(view.epochs[|view.epochs| - 1].start, count)];
      LegalOne(storage.Contents(), WriteOp.RemoveAlgorithm(id, newEpochs));
      var ok := storage.Apply([WriteOp.RemoveAlgorithm(id, newEpochs)], fault);
      if !ok {
        return Err(StorageFailed);
      }
      FreezeRepresents(k, old(storage.Contents()), algs, state, kind, base, id);
      FreezeReads(k, old(storage.Contents()), algs, state, kind, base, id);
      EffectUpdates(old(storage.Contents()), id, newEpochs, []);
      algs := algs[id := view.(epochs := newEpochs)];
      state := After(state, Freeze(id));
      r := Ok(());
    }

    /** Whether reopening finds what it needs: see `Reopening.Recoverable`. */
    ghost predicate Recoverable(id: nat)
      reads this
    {
      id in algs && id in state.members && Reopening.Recoverable(k, algs[id], state.members[id].cells, base)
    }

    lemma RecoverableIs(id: nat)
      requires id in algs && id in state.members
      ensures Recoverable(id) <==> Reopening.Recoverable(k, algs[id], state.members[id].cells, base)
    {
    }

    /**
     Reactivation: every frontier subtree is rebuilt from nodes and leaves, and stored.  It
     goes through whether or not what it rebuilt is right; the log is in order afterwards
     exactly if the algorithm was recoverable, as on a log begun empty it always is.
     */
    method ResumeAlgorithm(id: nat, fault: bool) returns (r: Result<()>)
      requires Valid()
      modifies this, storage
      ensures kind == old(kind) && count == old(count)
      ensures r.Ok? <==> !fault && Enabled(old(state), Reopen(id))
      ensures r.Ok? ==> state == After(old(state), Reopen(id)) && (Valid() <==> old(Recoverable(id)))
      ensures r.Ok? ==>
                id in old(state).members &&
                var x := Rebuilding(old(storage.Contents()), id, old(state).members[id], count, kind);
                algs == old(algs)[id := Reopened(k, x, count)] &&
                SameReads(k, old(storage.Contents()), storage.Contents(), old(algs) - {id}, algs, count) &&
                forall c :: Aligned(k, c) && c.height > 0 && End(k, c) <= count && Touched(k, algs[id], c) ==>
                  (Readable(storage.Contents().nodes, algs[id], id, k, c) <==>
                   Reopening.Stored(x, c) || Reopening.OpenIn(k, x, count, c))
      ensures base == 0 && Enabled(old(state), Reopen(id)) ==> old(Recoverable(id))
      ensures r.Err? ==> Valid() && unchanged(this) && storage.Contents() == old(storage.Contents())
      ensures r.Err? ==>
                r.error == if id !in old(algs) then UnknownAlgorithm(id)
                           else if IsActive(old(algs)[id].epochs) then AlgorithmActive(id) else StorageFailed
    {
      hide Represents, AlgOk, StateOk, MemberOk, Frontier, NodesOk, ViewOk, Effect, Peaks, Block, Aligned,
           Reopening.LeavesOk, Reopening.ResolveAll, Reopening.Recoverable, SameReads, Readable, Touched,
           Reopening.OpenIn, Reopening.Stored;
      RepresentsAt(k, storage.Contents(), algs, state, kind, base, id);
      if id !in algs {
        return Err(UnknownAlgorithm(id));
      }
      ghost var m := state.members[id];
      MemberOf(k, storage.Contents(), id, algs[id], m, kind, base);
      if IsActive(algs[id].epochs) {
        return Err(AlgorithmActive(id));
      }
      var newEpochs := algs[id].epochs + [Epoch(count, OPEN)];
      var x := Reopening.Source(storage.Contents(), id, AlgView(algs[id].hasher, newEpochs, [], []), kind);
      var coords := FrontierForSize(count, k);
      FrontierInside(k, count);
      var frontier, mixed := RebuildFrontier(x, coords);
      LegalOne(storage.Contents(), WriteOp.ResumeAlgorithm(id, newEpochs, mixed));
      var ok := storage.Apply([WriteOp.ResumeAlgorithm(id, newEpochs, mixed)], fault);
      Reopening.BegunEmpty(k, algs[id], m.cells);
      if !ok {
        return Err(StorageFailed);
      }
      ReopenRepresents(k, old(storage.Contents()), algs, state, kind, base, id);
      ReopenReads(k, old(storage.Contents()), algs, id, m, count, kind);
      EffectUpdates(old(storage.Contents()), id, newEpochs, mixed);
      algs := algs[id := algs[id].(epochs := newEpochs, frontier := frontier, coords := coords)];
      state := After(state, Reopen(id));
      assert algs == old(algs)[id := Reopened(k, x, count)];
      r := Ok(());
    }

    /** The loop of the reactivation over the frontier's subtrees. */
    method RebuildFrontier(x: Reopening.Source, coords: seq<Coord>)
      returns (frontier: seq<Digest>, mixed: seq<NodeWrite>)
      requires x.kind == Flat ==> forall c :: c in coords ==> End(k, c) <= |x.store.leaves|
      ensures (frontier, mixed) == Reopening.ResolveAll(k, x, coords)
    {
      hide Reopening.Resolve, Reopening.ResolveAll;
      frontier, mixed := [], [];
      Reopening.AllStep(k, x, [], Coord(0, 0));
      for n := 0 to |coords|
        invariant (frontier, mixed) == Reopening.ResolveAll(k, x, coords[..n])
      {
        assert coords[n] in coords && coords[..n + 1] == coords[..n] + [coords[n]];
        Reopening.AllStep(k, x, coords[..n], coords[n]);
        var part := Reopening.ReconstructSubtreeRoot(x, coords[n], k);
        frontier := frontier + [part.value.0];
        mixed := mixed + part.value.1;
      }
      assert coords[..|coords|] == coords;
    }

    /** One active algorithm's share of an append: its digest, its leaf node and its carry. */
    method CarryOne(id: nat, view: AlgView, item: Item) returns (view': AlgView, own: seq<NodeWrite>)
      requires Valid() && count < CAPACITY && id in algs && id in state.members && view == algs[id] &&
               IsActive(view.epochs)
      ensures var cells := state.members[id].cells + [ItemDigest(view.hasher, item)];
              view' == view.(frontier := Peaks(view.hasher, k, cells, |cells|), coords := Frontier(k, |cells|)) &&
              Views.AppendWrites(k, id, view.hasher, cells, own)
      ensures forall w :: w in own ==> w.key.alg == id
    {
      hide Represents, AlgOk, StateOk, MemberOk, Frontier, NodesOk, ViewOk, Effect, CarryWrites, Peaks,
           Block, Merges, IsActive, Views.AppendWrites;
      RepresentsAt(k, storage.Contents(), algs, state, kind, base, id);
      ghost var m := state.members[id];
      MemberOf(k, storage.Contents(), id, view, m, kind, base);
      ActiveView(k, view, m, count);
      var digest, extra := Null(view.hasher), [];
      if ActiveAt(view.epochs, count) {
        digest := ItemDigest(view.hasher, item);
        extra := [NodeWrite(NodeKey(id, Coord(count, 0)), digest)];
      }
      ghost var cells := m.cells + [digest];
      PeaksPermanent(view.hasher, k, m.cells, [digest], count);
      var carried := Carry(view, id, digest, count, k, extra, cells);
      CarryIsAppend(k, id, view.hasher, cells, count, carried.value.1);
      view', own := carried.value.0, carried.value.1;
    }

    /** The next views and the node batch of an append, built before anything is changed. */
    method BuildAppendState(item: Item) returns (r: Result<(map<nat, AlgView>, seq<NodeWrite>)>)
      requires Valid() && count < CAPACITY
      ensures r.Ok? && r.value.0.Keys == algs.Keys
      ensures forall id :: id in algs ==> Appended(k, id, algs[id], state.members[id], item, r.value.0[id], r.value.1)
      ensures forall w :: w in r.value.1 ==> w.key.alg in algs
    {
      hide Represents, AlgOk, StateOk, MemberOk, Frontier, NodesOk, ViewOk, Effect, Appended, Peaks,
           IsActive, Views.AppendWrites;
      RepresentsAt(k, storage.Contents(), algs, state, kind, base, 0);
      var newAlgs, batch: seq<NodeWrite> := algs, [];
      var todo := algs.Keys;
      while todo != {}
        invariant todo <= algs.Keys == newAlgs.Keys
        invariant forall id :: id in todo ==> newAlgs[id] == algs[id]
        invariant forall id :: id in algs && id !in todo ==>
                    Appended(k, id, algs[id], state.members[id], item, newAlgs[id], batch)
        invariant forall w :: w in batch ==> w.key.alg in algs && w.key.alg !in todo
        decreases |todo|
      {
        var id :| id in todo;
        todo := todo - {id};
        var view := newAlgs[id];
        ghost var m := state.members[id];
        RepresentsAt(k, storage.Contents(), algs, state, kind, base, id);
        MemberOf(k, storage.Contents(), id, view, m, kind, base);
        if !IsActive(view.epochs) {
          AppendedNone(k, id, view, m, item, batch);
        } else {
          var view', own := CarryOne(id, view, item);
          AppendedOwn(k, id, view, m, item, view', batch, own);
          forall a | a in algs && a !in todo && a != id
            ensures Appended(k, a, algs[a], state.members[a], item, newAlgs[a], batch + own)
          {
            AppendedMore(k, a, algs[a], state.members[a], item, newAlgs[a], batch, own);
          }
          newAlgs := newAlgs[id := view'];
          batch := batch + own;
        }
      }
      r := Ok((newAlgs, batch));
    }

    predicate AnyOpen()
      reads this
    {
      exists id :: id in algs && IsActive(algs[id].epochs)
    }

    /** The refusals common to both appends, in the order they are checked. */
    function AppendRefusal(flat: bool): Option<Error>
      reads this
    {
      if kind == (if flat then SubtreeKind else Flat) && count > 0 then Some(KindConflict)
      else if count >= CAPACITY then Some(CapacityExceeded)
      else if !AnyOpen() then Some(NoActiveAlgorithms)
      else None
    }

    lemma RefusalIs(flat: bool, step: Step)
      requires Valid() && step.Append?
      ensures AppendRefusal(flat).None?
         <==> Enabled(state, step) && (kind == (if flat then Flat else SubtreeKind) || count == 0)
    {
      hide Represents, AlgOk, StateOk, MemberOk, Frontier, NodesOk, ViewOk, Effect;
      forall id
        ensures id in algs <==> id in state.members
        ensures id in algs ==> algs[id].epochs == state.members[id].epochs
      {
        RepresentsAt(k, storage.Contents(), algs, state, kind, base, id);
        if id in algs {
          MemberOf(k, storage.Contents(), id, algs[id], state.members[id], kind, base);
        }
      }
    }

    method AppendLeaf(data: Bytes, fault: bool) returns (r: Result<()>)
      requires Valid()
      modifies this, storage
      ensures Valid()
      ensures r.Err? ==>
                r.error == if old(kind) == SubtreeKind && old(count) > 0 then KindConflict
                           else if old(count) >= CAPACITY then CapacityExceeded
                           else if !old(AnyOpen()) then NoActiveAlgorithms else StorageFailed
      ensures r.Ok? <==> !fault && Enabled(old(state), Append(LeafItem(data))) && (old(kind) == Flat || old(count) == 0)
      ensures r.Ok? ==> state == After(old(state), Append(LeafItem(data))) && kind == Flat
      ensures r.Ok? ==> LeafCommitted(old(state), state, data) && count == state.size
      ensures r.Ok? ==> forall id :: id in state.members && IsActive(state.members[id].epochs) ==>
                LeafProved(state.members[id], k, count, data)
      ensures r.Ok? ==> SameReads(k, old(storage.Contents()), storage.Contents(), old(algs), algs, old(count))
      ensures r.Err? ==> unchanged(this) && storage.Contents() == old(storage.Contents())
    {
      hide Represents, AlgOk, StateOk, MemberOk, Frontier, NodesOk, ViewOk, Effect, Appended, IsActive;
      hide After, Enabled, OneMoreCell, LeafCommitted, LeafProved, TreeCommitted, TreeProved, SameReads;
      RefusalIs(true, Append(LeafItem(data)));
      var refusal := AppendRefusal(true);
      if refusal.Some? {
        return Err(refusal.value);
      }
      RepresentsAt(k, storage.Contents(), algs, state, kind, base, 0);
      var at := count;
      var next := BuildAppendState(LeafItem(data));
      LegalOne(storage.Contents(), WriteOp.AppendLeaf(at, data, next.value.1));
      var ok := storage.Apply([WriteOp.AppendLeaf(at, data, next.value.1)], fault);
      if !ok {
        return Err(StorageFailed);
      }
      AppendRepresents(k, old(storage.Contents()), algs, state, kind, base, LeafItem(data),
        next.value.0, next.value.1, storage.Contents(), Flat);
      AppendReads(k, old(storage.Contents()), algs, state, kind, base, LeafItem(data),
        next.value.0, next.value.1, storage.Contents());
      LeafIsCommitted(state, k, data);
      algs, count, kind := next.value.0, at + 1, Flat;
      state := After(state, Append(LeafItem(data)));
      r := Ok(());
    }

    method AppendSubtree(tree: Subtree, fault: bool) returns (r: Result<()>)
      requires Valid()
      modifies this, storage
      ensures Valid()
      ensures r.Err? ==>
                r.error == if old(kind) == Flat && old(count) > 0 then KindConflict
                           else if old(count) >= CAPACITY then CapacityExceeded
                           else if !old(AnyOpen()) then NoActiveAlgorithms else StorageFailed
      ensures r.Ok? <==>
              !fault && Enabled(old(state), Append(TreeItem(tree))) && (old(kind) == SubtreeKind || old(count) == 0)
      ensures r.Ok? ==> state == After(old(state), Append(TreeItem(tree))) && kind == SubtreeKind
      ensures r.Ok? ==> TreeCommitted(old(state), state, tree) && count == state.size
      ensures r.Ok? ==> forall id :: id in state.members && IsActive(state.members[id].epochs) ==>
                TreeProved(state.members[id], k, count, tree)
      ensures r.Ok? ==> SameReads(k, old(storage.Contents()), storage.Contents(), old(algs), algs, old(count))
      ensures r.Err? ==> unchanged(this) && storage.Contents() == old(storage.Contents())
    {
      hide Represents, AlgOk, StateOk, MemberOk, Frontier, NodesOk, ViewOk, Effect, Appended, IsActive;
      hide After, Enabled, OneMoreCell, LeafCommitted, LeafProved, TreeCommitted, TreeProved, SameReads;
      RefusalIs(false, Append(TreeItem(tree)));
      var refusal := AppendRefusal(false);
      if refusal.Some? {
        return Err(refusal.value);
      }
      RepresentsAt(k, storage.Contents(), algs, state, kind, base, 0);
      var at := count;
      var next := BuildAppendState(TreeItem(tree));
      LegalOne(storage.Contents(), WriteOp.AppendSubtree(at, next.value.1));
      var ok := storage.Apply([WriteOp.AppendSubtree(at, next.value.1)], fault);
      if !ok {
        return Err(StorageFailed);
      }
      AppendRepresents(k, old(storage.Contents()), algs, state, kind, base, TreeItem(tree),
        next.value.0, next.value.1, storage.Contents(), SubtreeKind);
      AppendReads(k, old(storage.Contents()), algs, state, kind, base, TreeItem(tree),
        next.value.0, next.value.1, storage.Contents());
      TreeIsCommitted(state, k, tree);
      algs, count, kind := next.value.0, at + 1, SubtreeKind;
      state := After(state, Append(TreeItem(tree)));
      r := Ok(());
    }

    // ---------------------------------------------------------------- reading

    /** A registered algorithm none of whose subtrees is masked. */
    ghost predicate Reads(id: nat)
      reads this
    {
      id in algs && algs.Keys == state.members.Keys && Views.Clear(k, algs[id], state.members[id].cells)
    }

    /** A read of this algorithm's subtree succeeds. */
    ghost predicate Found(id: nat, c: Coord)
      reads this, storage
    {
      id in algs && Readable(storage.nodes, algs[id], id, k, c)
    }

    /** Of a subtree completed in the algorithm's present stretch it does exactly if it is not masked. */
    lemma FoundIs(id: nat, c: Coord)
      requires Valid() && id in algs && id in state.members && Aligned(k, c)
      requires Since(algs[id].epochs, base) < End(k, c) <= TreeSize(algs[id].epochs, count)
      ensures Found(id, c) <==> Unmasked(id, c)
    {
      RepresentsAt(k, storage.Contents(), algs, state, kind, base, id);
      hide Represents, AlgOk, NodesOk, ViewOk, Masked, Lean, Readable, Aligned;
      MemberOf(k, storage.Contents(), id, algs[id], state.members[id], kind, base);
      ReadsExactly(k, storage.nodes, id, algs[id], state.members[id].cells, base, c);
    }

    /** A registered algorithm never reopened, none of it sealed away: its reads fail exactly at masked subtrees. */
    ghost predicate Simple(id: nat)
      reads this
    {
      id in algs && id in state.members && OneEpoch(algs[id].epochs, base)
    }

    ghost predicate Unmasked(id: nat, c: Coord)
      reads this
    {
      id in algs && id in state.members && !Masked(k, algs[id], state.members[id].cells, c)
    }

    lemma SimpleIs(id: nat)
      requires Valid() && Simple(id)
      ensures Views.Plain(k, storage.nodes, id, algs[id], state.members[id].cells, base)
      ensures forall c :: Unmasked(id, c) <==> !Masked(k, algs[id], state.members[id].cells, c)
    {
      RepresentsAt(k, storage.Contents(), algs, state, kind, base, id);
      hide Represents, AlgOk, NodesOk, ViewOk, Masked, Lean;
      MemberOf(k, storage.Contents(), id, algs[id], state.members[id], kind, base);
    }

    /** The registered ids, collected in any order and sorted. */
    method SortedIds() returns (ids: seq<nat>)
      ensures ids == Ids(algs.Keys)
    {
      hide Ids;
      ids := [];
      var todo := algs.Keys;
      while todo != {}
        invariant todo <= algs.Keys && Ascending(ids)
        invariant forall x :: x in ids <==> x in algs && x !in todo
        decreases |todo|
      {
        var id :| id in todo;
        ids := InsertId(ids, id);
        todo := todo - {id};
      }
      AscendingUnique(ids, Ids(algs.Keys));
    }

    method CommittedEpochsAt(size: nat) returns (timeline: Timeline)
      requires Valid()
      ensures timeline == TimelineAt(state, size)
    {
      hide Represents, AlgOk, StateOk, MemberOk, Frontier, NodesOk, ViewOk, Effect, TimelineOf, EpochsAt, Ids;
      RepresentsAt(k, storage.Contents(), algs, state, kind, base, 0);
      var ids := SortedIds();
      timeline := [];
      NoTimeline(state.members, size);
      for n := 0 to |ids|
        invariant timeline == TimelineOf(state.members, ids[..n], size)
      {
        assert ids[n] in ids && ids[..n + 1] == ids[..n] + [ids[n]];
        RepresentsAt(k, storage.Contents(), algs, state, kind, base, ids[n]);
        MemberOf(k, storage.Contents(), ids[n], algs[ids[n]], state.members[ids[n]], kind, base);
        TimelineSnoc(state.members, ids[..n], ids[n], size);
        var snapshot := CommittedEpochs(algs[ids[n]].epochs, size);
        if snapshot.Some? {
          timeline := timeline + [Entry(ids[n], snapshot.value)];
        }
      }
      assert ids[..|ids|] == ids;
    }

    /** The algorithms whose epochs cover position `size - 1`. */
    method ActiveAlgsAt(size: nat) returns (active: seq<nat>)
      requires Valid() && size > 0
      ensures algs.Keys == state.members.Keys
      ensures active == ActiveIds(state.members, Ids(state.members.Keys), size)
    {
      hide Represents, AlgOk, StateOk, MemberOk, Frontier, NodesOk, ViewOk, Effect, Ids, ActiveAt, ActiveIds;
      RepresentsAt(k, storage.Contents(), algs, state, kind, base, 0);
      var ids := SortedIds();
      active := [];
      NoneActiveAt(state.members, size);
      for n := 0 to |ids|
        invariant active == ActiveIds(state.members, ids[..n], size)
      {
        assert ids[n] in ids && ids[..n + 1] == ids[..n] + [ids[n]];
        ActiveSnoc(state.members, ids[..n], ids[n], size);
        RepresentsAt(k, storage.Contents(), algs, state, kind, base, ids[n]);
        MemberOf(k, storage.Contents(), ids[n], algs[ids[n]], state.members[ids[n]], kind, base);
        if ActiveAt(algs[ids[n]].epochs, size - 1) {
          active := active + [ids[n]];
        }
      }
      assert ids[..|ids|] == ids;
    }

    /** The live combined root is the historical one of the present size. */
    method LiveCombinedRoot(id: nat) returns (r: Result<Digest>)
      requires Valid()
      ensures id !in algs ==> r == Err(UnknownAlgorithm(id))
      ensures id in algs ==> id in state.members && r == Ok(CombinedAt(state, k, id, count))
    {
      hide Represents, AlgOk, StateOk, MemberOk, Frontier, NodesOk, ViewOk, Effect, ActiveIds, RootAt,
           TimelineOf, CombinedRoot, ComputeRoot, ActiveAt, Ids;
      RepresentsAt(k, storage.Contents(), algs, state, kind, base, id);
      if id !in algs {
        return Err(UnknownAlgorithm(id));
      }
      MemberOf(k, storage.Contents(), id, algs[id], state.members[id], kind, base);
      if count == 0 {
        return Ok(algs[id].hasher.empty);
      }
      var active := ActiveAlgsAt(count);
      var roots: seq<Digest> := [];
      for n := 0 to |active|
        invariant roots == RootMap(state.members, active[..n], k, count)
      {
        var a := active[n];
        assert a in active && active[..n + 1] == active[..n] + [a];
        RepresentsAt(k, storage.Contents(), algs, state, kind, base, a);
        MemberOf(k, storage.Contents(), a, algs[a], state.members[a], kind, base);
        LiveRoot(k, algs[a], state.members[a], count);
        roots := roots + [ComputeRoot(algs[a], k)];
      }
      assert active[..|active|] == active;
      RootsAreActive(state.members, Ids(state.members.Keys), k, count);
      var timeline := CommittedEpochsAt(count);
      var root := FoldCombinedRoot(algs[id].hasher, roots, timeline, count, k);
      r := Ok(root.value);
    }

    method RootForAt(id: nat, size: nat) returns (r: Result<Digest>)
      requires Valid()
      ensures id !in algs ==> r == Err(UnknownAlgorithm(id))
      ensures id in algs && size > count ==> r == Err(IndexOutOfBounds)
      ensures r.Ok? ==>
              id in algs && id in state.members && size <= count && r.value == RootAt(state.members[id], k, size)
      ensures id in algs && size == 0 ==> r == Ok(algs[id].hasher.empty)
      ensures id in algs && 0 < size <= count && |algs[id].epochs| > 0 && size <= algs[id].epochs[0].start ==>
                r == Ok(algs[id].hasher.hash(NULL_PAYLOAD))
      ensures r.Ok? && |algs[id].epochs| > 0 ==>
                var m := state.members[id];
                if size <= algs[id].epochs[0].start || ActiveAt(algs[id].epochs, size - 1) then
                  r.value == MemberRoot(m.hasher, k, m.cells, size)
                else
                  forall e :: IsLastEnd(algs[id].epochs, size, e) ==> r.value == MemberRoot(m.hasher, k, m.cells, e)
      ensures Reads(id) && base <= EffectiveSize(state.members[id].epochs, size) && size <= count ==> r.Ok?
      ensures id in algs && size <= count ==>
                id in state.members &&
                (r.Ok? <==> forall c :: c in Frontier(k, EffectiveSize(state.members[id].epochs, size)) ==>
                  Found(id, c))
      ensures Simple(id) && size <= count ==>
                (r.Ok? <==> forall c :: c in Frontier(k, EffectiveSize(state.members[id].epochs, size)) ==>
                  Unmasked(id, c))
    {
      hide Represents, AlgOk, StateOk, MemberOk, Frontier, NodesOk, ViewOk, Effect, EffectiveSize,
           Views.Clear, WellFormed, TreeSize, Readable, Truthful, MemberRoot, ActiveAt, IsLastEnd;
      RepresentsAt(k, storage.Contents(), algs, state, kind, base, id);
      if id !in algs {
        return Err(UnknownAlgorithm(id));
      }
      if size > count {
        return Err(IndexOutOfBounds);
      }
      ghost var m := state.members[id];
      MemberOf(k, storage.Contents(), id, algs[id], m, kind, base);
      EffectiveInTree(m.epochs, size, count);
      Views.FrontierReads(k, storage.nodes, id, algs[id], m.cells, base, EffectiveSize(m.epochs, size));
      if Simple(id) {
        SimpleIs(id);
        Views.RootFails(k, storage.nodes, id, algs[id], m.cells, base, EffectiveSize(m.epochs, size));
      }
      EffectiveIs(m.epochs, size);
      EmptyRoot(k, m.hasher, m.cells);
      if 0 < size <= m.epochs[0].start {
        Unbegun(k, storage.nodes, id, algs[id], m.cells, size);
      }
      r := Engine.RootForAt(storage.nodes, algs[id], id, size, k, m.cells);
    }

    method CombinedRootAt(id: nat, size: nat) returns (r: Result<Digest>)
      requires Valid()
      ensures id !in algs ==> r == Err(UnknownAlgorithm(id))
      ensures r.Ok? ==> id in algs && id in state.members && r.value == CombinedAt(state, k, id, size)
      ensures r.Ok? ==> size == 0 || (size <= count && ActiveAt(state.members[id].epochs, size - 1))
      ensures id in algs && size == 0 ==> r.Ok?
      ensures id in algs && size > 0 ==>
                (r.Ok? <==> size <= count && ActiveAt(algs[id].epochs, size - 1) && ActiveFound(size))
      ensures Reads(id) && AllClear(k, algs, state) && size > 0 && base <= size <= count &&
              ActiveAt(state.members[id].epochs, size - 1)
              ==> r.Ok?
    {
      hide Represents, AlgOk, StateOk, MemberOk, Frontier, NodesOk, ViewOk, Effect, ActiveIds, RootAt,
           TimelineOf, CombinedRoot, EffectiveSize, Ids, ActiveAt, Views.Clear, FrontierFound, ActiveFound;
      RepresentsAt(k, storage.Contents(), algs, state, kind, base, id);
      if id !in algs {
        return Err(UnknownAlgorithm(id));
      }
      MemberOf(k, storage.Contents(), id, algs[id], state.members[id], kind, base);
      if size == 0 {
        return Ok(algs[id].hasher.empty);
      }
      var active := ActiveAlgsAt(size);
      ActiveMember(state.members, Ids(state.members.Keys), size, id);
      if active == [] {
        return Err(NoActiveAlgorithms);
      }
      if id !in active {
        return Err(FrozenAlgorithm(id));
      }
      var roots := ActiveRoots(active, size);
      if roots.Err? {
        return Err(roots.error);
      }
      RootsAreActive(state.members, Ids(state.members.Keys), k, size);
      var timeline := CommittedEpochsAt(size);
      var root := FoldCombinedRoot(algs[id].hasher, roots.value, timeline, size, k);
      r := Ok(root.value);
    }

    /** Every frontier subtree of `n` reads. */
    ghost predicate FrontierFound(id: nat, n: nat)
      reads this, storage
    {
      forall c :: c in Frontier(k, n) ==> Found(id, c)
    }

    /** For every algorithm active at the last of `n` positions. */
    ghost predicate ActiveFound(n: nat)
      requires n > 0
      reads this, storage
    {
      forall a :: a in algs && ActiveAt(algs[a].epochs, n - 1) ==> FrontierFound(a, n)
    }

    lemma FrontierFoundIs(id: nat, n: nat)
      ensures FrontierFound(id, n) <==> forall c :: c in Frontier(k, n) ==> Found(id, c)
    {
      hide Found, Frontier;
    }

    lemma ActiveKeys(active: seq<nat>, n: nat)
      requires Valid() && n > 0 && algs.Keys == state.members.Keys
      requires active == ActiveIds(state.members, Ids(state.members.Keys), n)
      ensures ActiveFound(n) <==> forall j :: 0 <= j < |active| ==> FrontierFound(active[j], n)
    {
      hide Represents, AlgOk, FrontierFound, ActiveAt, Ids, ActiveIds;
      forall a | a in algs
        ensures a in active <==> ActiveAt(algs[a].epochs, n - 1)
      {
        RepresentsAt(k, storage.Contents(), algs, state, kind, base, a);
        MemberOf(k, storage.Contents(), a, algs[a], state.members[a], kind, base);
        ActiveMember(state.members, Ids(state.members.Keys), n, a);
      }
      forall j | 0 <= j < |active|
        ensures active[j] in algs
      {
        assert active[j] in active;
        ActiveEffective(state.members, Ids(state.members.Keys), n, active[j]);
      }
    }

    /** The member roots of the active algorithms, in order. */
    method ActiveRoots(active: seq<nat>, size: nat) returns (r: Result<seq<Digest>>)
      requires Valid() && size > 0 && algs.Keys == state.members.Keys && active != []
      requires active == ActiveIds(state.members, Ids(state.members.Keys), size)
      ensures r.Ok? <==> size <= count && ActiveFound(size)
      ensures r.Ok? ==>
              (forall a :: a in active ==> a in state.members) && r.value == RootMap(state.members, active, k, size)
      ensures AllClear(k, algs, state) && base <= size <= count ==> r.Ok?
    {
      hide *;
      ActiveKeys(active, size);
      var roots: seq<Digest> := [];
      NoRoots(state.members, k, size);
      for n := 0 to |active|
        invariant forall a :: a in active[..n] ==> a in state.members
        invariant roots == RootMap(state.members, active[..n], k, size)
        invariant n > 0 ==> size <= count
        invariant forall j :: 0 <= j < n ==> FrontierFound(active[j], size)
      {
        var a := active[n];
        assert a in active && active[..n + 1] == active[..n] + [a];
        ActiveEffective(state.members, Ids(state.members.Keys), size, a);
        RootSnoc(state.members, active[..n], a, k, size);
        ClearReads(a);
        var root := RootForAt(a, size);
        FrontierFoundIs(a, size);
        if root.Err? {
          return Err(root.error);
        }
        roots := roots + [root.value];
      }
      assert active[..|active|] == active;
      r := Ok(roots);
    }

    lemma ClearReads(id: nat)
      ensures id in algs && algs.Keys == state.members.Keys && AllClear(k, algs, state) ==> Reads(id)
    {
      hide Views.Clear;
    }

    /** An inclusion proof that is produced verifies; one is produced for every known index. */
    method InclusionProofFor(id: nat, index: nat, treeSize: nat) returns (r: Result<Option<seq<ProofStep>>>)
      requires Valid() && treeSize <= U64_MAX
      ensures id !in algs ==> r == Err(UnknownAlgorithm(id))
      ensures id in algs && !(index < treeSize <= TreeSize(algs[id].epochs, count)) ==> r == Ok(None)
      ensures r.Ok? && r.value.Some? ==>
                id in algs && id in state.members && index < treeSize <= TreeSize(algs[id].epochs, count) &&
                var m := state.members[id];
                r.value.value == InclusionPath(m.hasher, k, m.cells, treeSize, index) &&
                VerifyInclusion(m.hasher, Shapes.At(m.cells, index), Skeleton(k, treeSize, index), r.value.value,
                                MemberRoot(m.hasher, k, m.cells, treeSize))
      ensures Reads(id) && index < treeSize <= TreeSize(algs[id].epochs, count) && base <= index ==>
              r.Ok? && r.value.Some?
      ensures id in algs && index < treeSize <= TreeSize(algs[id].epochs, count) ==>
                (r.Ok? <==> forall c :: InclusionReads(k, treeSize, index, c) ==> Found(id, c))
      ensures Simple(id) && index < treeSize <= TreeSize(algs[id].epochs, count) ==>
                (r.Ok? <==> forall c :: InclusionReads(k, treeSize, index, c) ==> Unmasked(id, c))
    {
      hide Represents, AlgOk, StateOk, MemberOk, Frontier, NodesOk, ViewOk, Effect, Views.Clear, WellFormed,
           TreeSize, Readable, Truthful, InclusionReads, InclusionPath, Skeleton, MemberRoot;
      hide VerifyInclusion;
      RepresentsAt(k, storage.Contents(), algs, state, kind, base, id);
      if id !in algs {
        return Err(UnknownAlgorithm(id));
      }
      ghost var m := state.members[id];
      MemberOf(k, storage.Contents(), id, algs[id], m, kind, base);
      if index < treeSize <= TreeSize(algs[id].epochs, count) {
        Views.InclusionReadsOk(k, storage.nodes, id, algs[id], m.cells, base, treeSize, index);
        if Simple(id) {
          SimpleIs(id);
          Views.InclusionFails(k, storage.nodes, id, algs[id], m.cells, base, treeSize, index);
        }
        InclusionVerifies(m.hasher, k, m.cells, treeSize, index);
      }
      r := Engine.InclusionProof(storage.nodes, algs[id], id, index, treeSize, count, k, m.cells);
    }

    /** A consistency proof that is produced reconstructs both roots; one is produced from every known size. */
    method ConsistencyProofFor(id: nat, oldSize: nat, newSize: nat) returns (r: Result<Option<ConsistencyProof>>)
      requires Valid() && newSize <= U64_MAX
      ensures id !in algs ==> r == Err(UnknownAlgorithm(id))
      ensures id in algs && !(0 < oldSize < newSize <= TreeSize(algs[id].epochs, count)) ==> r == Ok(None)
      ensures r.Ok? && r.value.Some? ==>
                id in algs && id in state.members && 0 < oldSize < newSize <= TreeSize(algs[id].epochs, count) &&
                var m := state.members[id];
                r.value.value == HonestProof(m.hasher, k, m.cells, oldSize, newSize) &&
                VerifyConsistency(m.hasher, oldSize, newSize, k, r.value.value,
                                  MemberRoot(m.hasher, k, m.cells, oldSize), MemberRoot(m.hasher, k, m.cells, newSize))
      ensures Reads(id) && 0 < oldSize < newSize <= TreeSize(algs[id].epochs, count) && base <= oldSize
              ==> r.Ok? && r.value.Some?
      ensures id in algs && 0 < oldSize < newSize <= TreeSize(algs[id].epochs, count) ==>
                (r.Ok? <==> forall c :: ConsistencyReads(k, oldSize, newSize, c) ==> Found(id, c))
      ensures Simple(id) && 0 < oldSize < newSize <= TreeSize(algs[id].epochs, count) ==>
                (r.Ok? <==> forall c :: ConsistencyReads(k, oldSize, newSize, c) ==> Unmasked(id, c))
    {
      hide Represents, AlgOk, StateOk, MemberOk, Frontier, NodesOk, ViewOk, Effect, Views.Clear, WellFormed,
           TreeSize, Readable, Truthful, ConsistencyReads, HonestProof, ReconstructRoots, MemberRoot;
      RepresentsAt(k, storage.Contents(), algs, state, kind, base, id);
      if id !in algs {
        return Err(UnknownAlgorithm(id));
      }
      ghost var m := state.members[id];
      MemberOf(k, storage.Contents(), id, algs[id], m, kind, base);
      if 0 < oldSize < newSize <= TreeSize(algs[id].epochs, count) {
        Views.ConsistencyReadsOk(k, storage.nodes, id, algs[id], m.cells, base, oldSize, newSize);
        if Simple(id) {
          SimpleIs(id);
          Views.ConsistencyFails(k, storage.nodes, id, algs[id], m.cells, base, oldSize, newSize);
        }
        ConsistencyComplete(m.hasher, k, m.cells, oldSize, newSize);
      }
      r := Engine.ConsistencyProofFor(storage.nodes, algs[id], id, oldSize, newSize, count, k, m.cells);
    }

    // ---------------------------------------------------------------- seal, resume, reopen

    /** Every sealed peak reads. */
    ghost predicate OpenFound()
      reads this, storage
    {
      forall a :: a in algs && IsActive(algs[a].epochs) ==> FrontierFound(a, count)
    }

    lemma OpenKeys(ids: seq<nat>)
      requires ids == Ids(algs.Keys)
      ensures OpenFound() <==> forall j :: 0 <= j < |ids| && ids[j] in algs && IsActive(algs[ids[j]].epochs) ==>
                FrontierFound(ids[j], count)
    {
      hide FrontierFound, IsActive;
      forall a | a in algs
        ensures exists j :: 0 <= j < |ids| && ids[j] == a
      {
        assert a in ids;
      }
    }

    /** The peaks of an open algorithm. */
    method OpenPeaks(id: nat) returns (r: Result<seq<Digest>>)
      requires Valid() && id in algs && IsActive(algs[id].epochs)
      ensures id in state.members && (r.Ok? <==> FrontierFound(id, count))
      ensures r.Ok? ==> r.value == Peaks(state.members[id].hasher, k, state.members[id].cells, count)
      ensures algs.Keys == state.members.Keys && AllClear(k, algs, state) ==> r.Ok?
    {
      hide *;
      ValidIs();
      RepresentsAt(k, storage.Contents(), algs, state, kind, base, id);
      ghost var m := state.members[id];
      MemberOf(k, storage.Contents(), id, algs[id], m, kind, base);
      StorageNodes();
      OpenTree(m.epochs, count);
      Views.FrontierReads(k, storage.nodes, id, algs[id], m.cells, base, count);
      ClearReads(id);
      ReadsIs(id);
      FrontierFoundIs(id, count);
      var coords := FrontierForSize(count, k);
      r := ReadPeaks(storage.nodes, algs[id], id, coords, k, m.cells);
      FoundAll(id);
      PeaksAre(m.hasher, k, m.cells, count);
    }

    lemma StorageNodes()
      requires Valid()
      ensures storage.Contents().nodes == storage.nodes && count <= U64_MAX
    {
      RepresentsAt(k, storage.Contents(), algs, state, kind, base, 0);
      hide Represents;
    }

    lemma ReadsIs(id: nat)
      ensures Reads(id) ==> id in state.members && Views.Clear(k, algs[id], state.members[id].cells)
    {
      hide Views.Clear;
    }

    lemma FoundAll(id: nat)
      requires id in algs
      ensures forall c :: Found(id, c) <==> Readable(storage.nodes, algs[id], id, k, c)
    {
      hide Readable;
    }

    /** Freezes the peaks of the algorithms still open, with the committed timeline. */
    method Seal() returns (r: Result<Sealed>)
      requires Valid()
      ensures r.Ok? ==> r.value == SealedOf(state, k)
      ensures r.Ok? <==> count == 0 || OpenFound()
      ensures algs.Keys == state.members.Keys && AllClear(k, algs, state) ==> r.Ok?
    {
      hide *;
      ValidIs();
      StorageNodes();
      RepresentsAt(k, storage.Contents(), algs, state, kind, base, 0);
      SealedIs(state, k);
      if count == 0 {
        return Ok(Sealed(0, k, [], []));
      }
      var timeline := CommittedEpochsAt(count);
      ghost var ids := Ids(state.members.Keys);
      FullTimeline(k, storage.Contents(), algs, state, kind, base);
      var frontiers: seq<SealedFrontier> := [];
      NoSealed(state.members, k, count);
      OpenKeys(ids);
      for n := 0 to |timeline|
        invariant frontiers == SealedFrontiers(state.members, ids[..n], k, count)
        invariant forall j :: 0 <= j < n && ids[j] in algs && IsActive(algs[ids[j]].epochs) ==>
                    FrontierFound(ids[j], count)
      {
        var id := timeline[n].id;
        ghost var m := state.members[id];
        assert ids[..n + 1] == ids[..n] + [id];
        RepresentsAt(k, storage.Contents(), algs, state, kind, base, id);
        MemberOf(k, storage.Contents(), id, algs[id], m, kind, base);
        OpenAtSize(m.epochs, count);
        SealedSnoc(state.members, ids[..n], id, k, count);
        if ActiveAt(timeline[n].epochs, count) {
          var peaks := OpenPeaks(id);
          if peaks.Err? {
            return Err(peaks.error);
          }
          frontiers := frontiers + [SealedFrontier(id, peaks.value)];
        }
      }
      assert ids[..|ids|] == ids;
      r := Ok(Sealed(count, k, frontiers, timeline));
    }

    /**
     Reopens a log onto a sealed frontier, in a store with no history, from the peaks alone.
     Any seal is taken whose algorithms are distinct and all have hashers; from one a log
     gave, the log of the algorithms it carries is in order.
     */
    static method Resume(
        sealed: Sealed, storage: MemoryStorage, hashers: map<nat, Hasher>, fault: bool, ghost origin: State,
        ghost arity: Arity)
      returns (r: Result<NaryMerkleLog>)
      requires sealed.size <= U64_MAX
      modifies storage
      ensures r.Ok? <==>
                old(storage.count) == 0 && old(storage.metas) == map[] && 2 <= sealed.arity <= 256 &&
                Hashed(sealed.frontiers, hashers) && !fault
      ensures r.Ok? ==>
                fresh(r.value) && r.value.storage == storage && r.value.k == sealed.arity &&
                r.value.count == sealed.size && r.value.kind == SubtreeKind
      ensures r.Ok? ==>
                r.value.algs.Keys == Taken(sealed.frontiers) &&
                forall i :: 0 <= i < |sealed.frontiers| ==>
                  var f := sealed.frontiers[i];
                  f.alg in hashers && f.alg in r.value.algs &&
                    r.value.algs[f.alg] == MadeView(sealed, hashers, Frontier(sealed.arity, sealed.size), f)
      ensures r.Err? ==>
                if old(storage.count) > 0 || old(storage.metas) != map[] then r.error == ResumeTargetNotFresh
                else if !(2 <= sealed.arity <= 256) then r.error == BadArity
                else if !Hashed(sealed.frontiers, hashers) then r.error.UnknownAlgorithm? else r.error == StorageFailed
      ensures r.Ok? && Own(sealed, hashers, origin, arity) && old(storage.Contents()) == EmptyStore ==>
                r.value.Valid() && r.value.state == Carried(origin) && r.value.base == origin.size
      ensures Own(sealed, hashers, origin, arity) ==>
                (Hashed(sealed.frontiers, hashers) <==> Carried(origin).members.Keys <= hashers.Keys)
      ensures r.Err? ==> storage.Contents() == old(storage.Contents())
    {
      ghost var own, before := Own(sealed, hashers, origin, arity), storage.Contents();
      if own {
        OwnHashed(sealed, hashers, origin, arity);
      }
      ContentsAre(storage);
      hide *;
      if storage.count > 0 || storage.metas != map[] {
        return Err(ResumeTargetNotFresh);
      }
      if !(2 <= sealed.arity <= 256) {
        return Err(BadArity);
      }
      var k: Arity := sealed.arity;
      var coords := FrontierForSize(sealed.size, k);
      var algs, seeds, missing := SeedsFor(sealed, hashers, coords, k);
      if missing.Some? {
        return Err(UnknownAlgorithm(missing.value));
      }
      SeedLegal(before, sealed.size, seeds);
      var ok := storage.Apply([WriteOp.SeedFrontier(sealed.size, seeds)], fault);
      if !ok {
        return Err(StorageFailed);
      }
      var log := new NaryMerkleLog.Holding(k, storage, algs, sealed.size, SubtreeKind, Carried(origin), origin.size);
      if own && before == EmptyStore {
        OwnResumes(sealed, hashers, origin, k, algs, seeds);
        log.ValidIs();
      }
      r := Ok(log);
    }

    /** The loop of the resumption: one view and one seed per sealed frontier, each hasher used once. */
    static method SeedsFor(sealed: Sealed, hashers: map<nat, Hasher>, coords: seq<Coord>, k: Arity)
      returns (algs: map<nat, AlgView>, seeds: seq<AlgorithmSeed>, missing: Option<nat>)
      ensures missing.None? <==> Hashed(sealed.frontiers, hashers)
      ensures missing.None? ==>
              SeedsMade(sealed, hashers, coords, k, algs, seeds, |sealed.frontiers|) && Distinct(seeds)
    {
      algs, seeds, missing := map[], [], None;
      var left := hashers.Keys;
      var fs := sealed.frontiers;
      NoneMade(sealed, hashers, coords, k);
      for n := 0 to |fs|
        invariant SeedsMade(sealed, hashers, coords, k, algs, seeds, n)
        invariant Hashed(fs[..n], hashers) && left == hashers.Keys - Taken(fs[..n])
      {
        hide *;
        var id := fs[n].alg;
        HashedNext(fs, hashers, n);
        if id !in left {
          return map[], [], Some(id);
        }
        left := left - {id};
        var found := Lookup(sealed.timeline, id);
        var epochs := if found.Some? then found.value else FROM_GENESIS;
        var view := AlgView(hashers[id], epochs, fs[n].peaks, coords);
        var zipped := if |coords| < |fs[n].peaks| then |coords| else |fs[n].peaks|;
        var nodes := PeakNodes(k, id, view, coords[..zipped], fs[n].peaks[..zipped]);
        MadeNext(sealed, hashers, coords, k, algs, seeds, n);
        seeds := seeds + [AlgorithmSeed(id, epochs, nodes)];
        algs := algs[id := view];
      }
      assert fs[..|fs|] == fs;
      MadeDistinct(sealed, hashers, coords, k, algs, seeds);
    }

    /**
     Reopening.  Over any store it fails exactly on a bad arity, a mismatched set of hashers,
     a malformed timeline or an unreadable frontier node; from what a log in order left
     there, the same views are rebuilt.
     */
    static method FromStorage(
        storage: MemoryStorage, hashers: map<nat, Hasher>, arity: nat,
        ghost live: map<nat, AlgView>, ghost s: State, ghost lastKind: LogKind, ghost base: nat)
      returns (r: Result<NaryMerkleLog>)
      requires Words(storage.Contents())
      ensures r.Ok? <==>
                2 <= arity <= 256 && hashers.Keys == storage.metas.Keys &&
                  ViewsRebuildable(storage.Contents(), hashers, arity)
      ensures r.Ok? ==>
                fresh(r.value) && r.value.storage == storage && r.value.k == arity && r.value.count == storage.count &&
                ViewsReadBack(storage.Contents(), hashers, arity, r.value.algs)
      ensures r.Ok? && Left(arity, storage.Contents(), hashers, live, s, lastKind, base) ==>
                r.value.Valid() && r.value.algs == live && r.value.state == s && r.value.base == base &&
                (r.value.kind == lastKind || s.size == 0)
      ensures Left(arity, storage.Contents(), hashers, live, s, lastKind, base) ==>
                (r.Ok? <==> hashers.Keys == storage.metas.Keys &&
                            forall id, c :: id in live && c in live[id].coords ==>
                              Readable(storage.nodes, live[id], id, arity, c))
    {
      hide *;
      if !(2 <= arity <= 256) {
        NotLeft(arity, storage.Contents(), hashers, live, s, lastKind, base);
        return Err(BadArity);
      }
      var k: Arity := arity;
      if orphan :| orphan in storage.metas && orphan !in hashers {
        return Err(OrphanedMetadata(orphan));
      }
      if unknown :| unknown in hashers && unknown !in storage.metas {
        return Err(UnknownMetadata(unknown));
      }
      assert hashers.Keys == storage.metas.Keys;
      ContentsAre(storage);
      var kind := if |storage.leaves| > 0 then Flat else SubtreeKind;
      var views := ReopenViews(storage.Contents(), hashers, k);
      if Left(k, storage.Contents(), hashers, live, s, lastKind, base) {
        LeftViews(k, storage.Contents(), hashers, live, s, lastKind, base);
      }
      if views.Err? {
        return Err(views.error);
      }
      var log := new NaryMerkleLog.Holding(k, storage, views.value, storage.count, kind, s, base);
      if Left(k, storage.Contents(), hashers, live, s, lastKind, base) {
        LeftAlgs(k, storage.Contents(), hashers, live, s, lastKind, base, log.algs);
        LeftKind(k, storage.Contents(), hashers, live, s, lastKind, base);
        log.ValidIs();
      }
      r := Ok(log);
    }
  }

  lemma ContentsAre(storage: MemoryStorage)
    ensures storage.Contents() == Store(storage.leaves, storage.nodes, storage.metas, storage.count)
  {
  }

  /** The store holds 64-bit words. */
  ghost predicate Words(store: Store) {
    store.count <= U64_MAX && forall id, i: nat :: id in store.metas && i < |store.metas[id]| ==>
      store.metas[id][i].end <= OPEN
  }

  /** Every registered timeline is well formed and its frontier reads. */
  ghost predicate ViewsRebuildable(store: Store, hashers: map<nat, Hasher>, k: nat) {
    2 <= k <= 256 && forall id :: id in store.metas && id in hashers ==>
      Views.Rebuildable(store.nodes, id, AlgView(hashers[id], store.metas[id], [], []), store.count, k)
  }

  /** The views are those timelines with their frontiers as stored. */
  ghost predicate ViewsReadBack(store: Store, hashers: map<nat, Hasher>, k: nat, algs: map<nat, AlgView>) {
    2 <= k <= 256 && algs.Keys == store.metas.Keys && forall id :: id in algs && id in hashers ==>
      algs[id].hasher == hashers[id] && algs[id].epochs == store.metas[id] &&
      Views.ReadBack(store.nodes, id, algs[id], store.count, k)
  }

  /** The store is what a log in order left, and the hashers are its own. */
  ghost predicate Left(
      k: nat, store: Store, hashers: map<nat, Hasher>, live: map<nat, AlgView>, s: State, kind: LogKind, base: nat)
  {
    && 2 <= k <= 256 && Represents(k, store, live, s, kind, base)
    && forall id :: id in hashers && id in s.members ==> hashers[id] == s.members[id].hasher
  }

  lemma NotLeft(
      k: nat, store: Store, hashers: map<nat, Hasher>, live: map<nat, AlgView>, s: State, kind: LogKind, base: nat)
    requires !(2 <= k <= 256)
    ensures !Left(k, store, hashers, live, s, kind, base) && !ViewsRebuildable(store, hashers, k)
  {
    hide Represents;
  }

  lemma LeftAt(
      k: Arity, store: Store, hashers: map<nat, Hasher>, live: map<nat, AlgView>, s: State, kind: LogKind, base: nat,
      id: nat)
    requires Left(k, store, hashers, live, s, kind, base) && id in live && id in hashers
    ensures id in s.members && id in store.metas && store.metas[id] == live[id].epochs && hashers[id] == live[id].hasher
    ensures ViewOk(k, live[id], s.members[id].cells) && NodesOk(k, store.nodes, id, live[id], s.members[id].cells, base)
    ensures |s.members[id].cells| == store.count < OPEN && base <= TreeSize(live[id].epochs, store.count)
  {
    hide AlgOk, StateOk, NodesOk, ViewOk;
    RepresentsAt(k, store, live, s, kind, base, id);
    hide Represents;
    MemberOf(k, store, id, live[id], s.members[id], kind, base);
    MetaOf(k, store, id, live[id], s.members[id], kind, base);
  }

  /** For such a store the views can be rebuilt exactly if every live peak reads. */
  lemma LeftViews(
      k: Arity, store: Store, hashers: map<nat, Hasher>, live: map<nat, AlgView>, s: State, kind: LogKind, base: nat)
    requires Left(k, store, hashers, live, s, kind, base) && hashers.Keys == store.metas.Keys
    ensures ViewsRebuildable(store, hashers, k) <==>
            forall id, c :: id in live && c in live[id].coords ==> Readable(store.nodes, live[id], id, k, c)
  {
    RepresentsAt(k, store, live, s, kind, base, 0);
    hide Left, Represents, ViewOk, NodesOk, Views.Rebuildable, Readable;
    forall id | id in live
      ensures Views.Rebuildable(store.nodes, id, AlgView(hashers[id], store.metas[id], [], []), store.count, k) <==>
              forall c :: c in live[id].coords ==> Readable(store.nodes, live[id], id, k, c)
    {
      LeftAt(k, store, hashers, live, s, kind, base, id);
      Views.ReadBackIsLive(k, store.nodes, id, live[id], s.members[id].cells, base,
        AlgView(hashers[id], store.metas[id], [], []));
    }
  }

  lemma LeftKeys(
      k: Arity, store: Store, hashers: map<nat, Hasher>, live: map<nat, AlgView>, s: State, kind: LogKind, base: nat)
    requires Left(k, store, hashers, live, s, kind, base)
    ensures live.Keys == store.metas.Keys == s.members.Keys
  {
    hide AlgOk, StateOk;
    RepresentsAt(k, store, live, s, kind, base, 0);
  }

  lemma LeftAlgs(
      k: Arity, store: Store, hashers: map<nat, Hasher>, live: map<nat, AlgView>, s: State, kind: LogKind, base: nat,
      algs: map<nat, AlgView>)
    requires Left(k, store, hashers, live, s, kind, base) && hashers.Keys == store.metas.Keys
    requires ViewsReadBack(store, hashers, k, algs)
    ensures algs == live
  {
    hide *;
    LeftKeys(k, store, hashers, live, s, kind, base);
    ReadBackAt(store, hashers, k, algs);
    forall id | id in live
      ensures algs[id] == live[id]
    {
      LeftAt(k, store, hashers, live, s, kind, base, id);
      Views.ReadBackIsLive(k, store.nodes, id, live[id], s.members[id].cells, base, algs[id]);
    }
  }

  lemma ReadBackAt(store: Store, hashers: map<nat, Hasher>, k: Arity, algs: map<nat, AlgView>)
    requires ViewsReadBack(store, hashers, k, algs)
    ensures algs.Keys == store.metas.Keys
    ensures forall id :: id in algs && id in hashers ==>
              algs[id].hasher == hashers[id] && algs[id].epochs == store.metas[id] &&
              Views.ReadBack(store.nodes, id, algs[id], store.count, k)
  {
    hide Views.ReadBack;
  }

  /** The kind told from the leaves is the log's own, which at size 0 is not binding. */
  lemma LeftKind(
      k: Arity, store: Store, hashers: map<nat, Hasher>, live: map<nat, AlgView>, s: State, lastKind: LogKind,
      base: nat)
    requires Left(k, store, hashers, live, s, lastKind, base)
    ensures var kind := if |store.leaves| > 0 then Flat else SubtreeKind;
            Represents(k, store, live, s, kind, base) && (kind == lastKind || s.size == 0) && store.count == s.size
  {
    RepresentsAt(k, store, live, s, lastKind, base, 0);
    if s.size == 0 {
      KindAtZero(k, store, live, s, lastKind, base);
    }
    hide Represents;
  }

  /** One view, read back. */
  ghost predicate ViewBack(store: Store, hashers: map<nat, Hasher>, k: Arity, id: nat, view: AlgView)
    requires id in hashers && id in store.metas
  {
    && view.hasher == hashers[id] && view.epochs == store.metas[id]
    && Views.ReadBack(store.nodes, id, view, store.count, k)
    && Views.Rebuildable(store.nodes, id, AlgView(hashers[id], store.metas[id], [], []), store.count, k)
  }

  /** The loop of the reopening: every registered algorithm's view, read back from the store. */
  method ReopenViews(store: Store, hashers: map<nat, Hasher>, k: Arity) returns (r: Result<map<nat, AlgView>>)
    requires Words(store) && hashers.Keys == store.metas.Keys
    ensures r.Ok? <==> ViewsRebuildable(store, hashers, k)
    ensures r.Ok? ==> ViewsReadBack(store, hashers, k, r.value)
  {
    hide *;
    WordsAre(store);
    var algs: map<nat, AlgView> := map[];
    var todo := store.metas.Keys;
    while todo != {}
      invariant todo <= store.metas.Keys && algs.Keys == store.metas.Keys - todo
      invariant forall id :: id in algs ==> ViewBack(store, hashers, k, id, algs[id])
      decreases |todo|
    {
      var id :| id in todo;
      todo := todo - {id};
      var view := Views.ReconstructView(store.nodes, id, hashers[id], store.metas[id], store.count, k);
      if view.Err? {
        NotAll(store, hashers, k, id);
        return Err(view.error);
      }
      OneBack(store, hashers, k, id, view.value);
      algs := algs[id := view.value];
    }
    AllBack(store, hashers, k, algs);
    r := Ok(algs);
  }

  lemma WordsAre(store: Store)
    requires Words(store)
    ensures store.count <= U64_MAX
    ensures forall id, i: nat :: id in store.metas && i < |store.metas[id]| ==> store.metas[id][i].end <= OPEN
  {
  }

  lemma NotAll(store: Store, hashers: map<nat, Hasher>, k: Arity, id: nat)
    requires id in store.metas && id in hashers
    requires !Views.Rebuildable(store.nodes, id, AlgView(hashers[id], store.metas[id], [], []), store.count, k)
    ensures !ViewsRebuildable(store, hashers, k)
  {
    hide Views.Rebuildable;
  }

  lemma OneBack(store: Store, hashers: map<nat, Hasher>, k: Arity, id: nat, view: AlgView)
    requires id in hashers && id in store.metas && view.hasher == hashers[id] && view.epochs == store.metas[id]
    requires Views.ReadBack(store.nodes, id, view, store.count, k)
    requires Views.Rebuildable(store.nodes, id, AlgView(hashers[id], store.metas[id], [], []), store.count, k)
    ensures ViewBack(store, hashers, k, id, view)
  {
    hide Views.Rebuildable, Views.ReadBack;
  }

  lemma AllBack(store: Store, hashers: map<nat, Hasher>, k: Arity, algs: map<nat, AlgView>)
    requires algs.Keys == store.metas.Keys == hashers.Keys
    requires forall id :: id in algs ==> ViewBack(store, hashers, k, id, algs[id])
    ensures ViewsRebuildable(store, hashers, k) && ViewsReadBack(store, hashers, k, algs)
  {
    hide Views.Rebuildable, Views.ReadBack;
  }

  method InsertId(ids: seq<nat>, id: nat) returns (r: seq<nat>)
    requires Ascending(ids) && id !in ids
    ensures Ascending(r) && forall x :: x in r <==> x in ids || x == id
  {
    var p := 0;
    while p < |ids| && ids[p] < id
      invariant p <= |ids| && forall i :: 0 <= i < p ==> ids[i] < id
    {
      p := p + 1;
    }
    r := ids[..p] + [id] + ids[p..];
  }

  /** The peaks worth storing: those the timeline touches. */
  method PeakNodes(k: Arity, id: nat, view: AlgView, coords: seq<Coord>, peaks: seq<Digest>)
    returns (ws: seq<NodeWrite>)
    requires |coords| == |peaks|
    ensures ws == SeedWrites(k, id, view, coords, peaks)
  {
    hide Touched;
    ws := [];
    for n := 0 to |coords|
      invariant ws == SeedWrites(k, id, view, coords[..n], peaks[..n])
    {
      assert coords[..n + 1][..n] == coords[..n] && peaks[..n + 1][..n] == peaks[..n];
      if Touched(k, view, coords[n]) {
        ws := ws + [NodeWrite(NodeKey(id, coords[n]), peaks[n])];
      }
    }
    assert coords[..|coords|] == coords && peaks[..|peaks|] == peaks;
  }

  lemma NoneActiveAt(members: map<nat, Member>, n: nat)
    requires n > 0
    ensures ActiveIds(members, [], n) == []
  {
  }

  lemma ActiveSnoc(members: map<nat, Member>, ids: seq<nat>, x: nat, n: nat)
    requires n > 0 && (forall y :: y in ids ==> y in members) && x in members
    ensures ActiveIds(members, ids + [x], n)
         == ActiveIds(members, ids, n) + (if ActiveAt(members[x].epochs, n - 1) then [x] else [])
  {
    hide ActiveAt;
    assert (ids + [x])[..|ids|] == ids;
  }

  lemma NoTimeline(members: map<nat, Member>, n: nat)
    ensures TimelineOf(members, [], n) == []
  {
  }

  lemma NoSealed(members: map<nat, Member>, k: Arity, n: nat)
    ensures SealedFrontiers(members, [], k, n) == []
  {
  }

  lemma ActiveMember(members: map<nat, Member>, ids: seq<nat>, n: nat, id: nat)
    requires n > 0 && (forall x :: x in ids ==> x in members) && id in ids
    ensures id in ActiveIds(members, ids, n) <==> ActiveAt(members[id].epochs, n - 1)
  {
  }

  lemma ActiveEffective(members: map<nat, Member>, ids: seq<nat>, n: nat, id: nat)
    requires n > 0 && (forall x :: x in ids ==> x in members) && id in ActiveIds(members, ids, n)
    ensures id in members && EffectiveSize(members[id].epochs, n) == n
  {
  }

  /** At index `n` exactly the open algorithms are active. */
  lemma OpenAtSize(es: seq<Epoch>, n: nat)
    requires WellFormed(es, n) && n < OPEN
    ensures ActiveAt(es, n) <==> IsActive(es)
  {
    if IsActive(es) {
      LastOpen(es, n);
    } else {
      ClosedBelow(es, n, n);
    }
  }

  lemma OpenTree(es: seq<Epoch>, n: nat)
    requires IsActive(es)
    ensures TreeSize(es, n) == n
  {
  }

  lemma FullTimeline(k: Arity, store: Store, algs: map<nat, AlgView>, s: State, kind: LogKind, base: nat)
    requires Represents(k, store, algs, s, kind, base)
    ensures |TimelineAt(s, s.size)| == |Ids(s.members.Keys)|
    ensures forall i :: 0 <= i < |Ids(s.members.Keys)| ==>
              TimelineAt(s, s.size)[i] == Entry(Ids(s.members.Keys)[i], s.members[Ids(s.members.Keys)[i]].epochs)
  {
    hide Represents, TimelineOf, Ids;
    forall x | x in Ids(s.members.Keys)
      ensures WellFormed(s.members[x].epochs, s.size)
    {
      RepresentsAt(k, store, algs, s, kind, base, x);
    }
    RepresentsAt(k, store, algs, s, kind, base, 0);
    hide WellFormed;
    TimelineFull(s.members, Ids(s.members.Keys), s.size);
  }

  /** What a seal holds about the state it was taken of. */
  lemma SealedParts(s: State, k: Arity)
    requires StateOk(s)
    ensures var fs := SealedOf(s, k).frontiers;
            && (forall i :: 0 <= i < |fs| ==>
                  fs[i].alg in s.members && IsActive(s.members[fs[i].alg].epochs) && s.size > 0 &&
                  fs[i].peaks == Peaks(s.members[fs[i].alg].hasher, k, s.members[fs[i].alg].cells, s.size) &&
                  Lookup(SealedOf(s, k).timeline, fs[i].alg) == Some(s.members[fs[i].alg].epochs))
            && (forall i, j :: 0 <= i < j < |fs| ==> fs[i].alg < fs[j].alg)
            && (forall id :: id in Carried(s).members ==> exists i :: 0 <= i < |fs| && fs[i].alg == id)
    ensures SealedOf(s, k).size == s.size <= CAPACITY && SealedOf(s, k).arity == k
  {
    hide Ids, IsActive, SealedFrontiers, TimelineOf, Peaks, MemberOk, EpochsAt;
    if s.size > 0 {
      var ids := Ids(s.members.Keys);
      SealedEntries(s.members, ids, k, s.size);
      TimelineEntries(s.members, ids, s.size);
      forall id | id in s.members
        ensures Lookup(TimelineAt(s, s.size), id) == Some(s.members[id].epochs)
      {
        assert MemberOk(s.members[id], s.size);
        NowOf(s.members[id], s.size);
      }
    }
  }

  lemma NowOf(m: Member, n: nat)
    requires MemberOk(m, n) && n <= CAPACITY
    ensures EpochsAt(m.epochs, n) == Some(m.epochs)
  {
    SnapshotNow(m.epochs, n);
  }

  lemma SeedEffect(size: nat, seeds: seq<AlgorithmSeed>)
    ensures Effect(EmptyStore, WriteOp.SeedFrontier(size, seeds)) == SeedAll(EmptyStore.(count := size), seeds)
  {
  }

  lemma MetaOf(k: Arity, store: Store, alg: nat, view: AlgView, m: Member, kind: LogKind, base: nat)
    requires AlgOk(k, store, alg, view, m, kind, base)
    ensures alg in store.metas && store.metas[alg] == m.epochs
  {
  }

  lemma RegisterLegal(store: Store, id: nat, es: seq<Epoch>)
    ensures ApplyEach(store, [WriteOp.AddAlgorithm(id, es)])
         == if id in store.metas then None else Some(Effect(store, WriteOp.AddAlgorithm(id, es)))
  {
    assert [WriteOp.AddAlgorithm(id, es)][1..] == [];
  }

  lemma RegisteredIs(k: Arity, h: Hasher, n: nat)
    ensures Registered(k, h, n) == AlgView(h, [Epoch(n, OPEN)], Nulls(h, |Frontier(k, n)|), Frontier(k, n))
  {
    hide Frontier;
  }

  /** The first registration over an empty store is in order. */
  lemma FirstRepresents(k: Arity, h: Hasher)
    ensures Represents(k, Effect(EmptyStore, WriteOp.AddAlgorithm(0, [Epoch(0, OPEN)])), map[0 := Registered(k, h, 0)],
                       After(Genesis, Add(0, h)), Flat, 0)
    ensures Enabled(Genesis, Add(0, h)) && After(Genesis, Add(0, h)).size == 0
  {
    GenesisRepresents(k);
    hide Represents;
    AddRepresents(k, EmptyStore, map[], Genesis, Flat, 0, 0, h);
  }

  lemma FirstStep(h: Hasher)
    ensures Enabled(Genesis, Add(0, h))
  {
  }

  lemma GenesisRepresents(k: Arity)
    ensures Represents(k, EmptyStore, map[], Genesis, Flat, 0)
  {
  }

  /** Over any other store it is not. */
  lemma OnlyEmpty(k: Arity, store: Store, algs: map<nat, AlgView>, s: State, kind: LogKind)
    requires Represents(k, Effect(store, WriteOp.AddAlgorithm(0, [Epoch(0, OPEN)])), algs, s, kind, 0) && s.size == 0
    requires 0 !in store.metas && algs.Keys == {0}
    ensures store == EmptyStore
  {
    var store' := Effect(store, WriteOp.AddAlgorithm(0, [Epoch(0, OPEN)]));
    RegisteredStore(store);
    RepresentsAt(k, store', algs, s, kind, 0, 0);
    hide Represents, AlgOk, Frontier, ViewOk, NodesOk, Effect;
    MemberOf(k, store', 0, algs[0], s.members[0], kind, 0);
    forall key
      ensures key !in store.nodes
    {
      RepresentsAt(k, store', algs, s, kind, 0, key.alg);
      assert key == NodeKey(key.alg, key.at);
      if key.alg == 0 {
        NoNode(k, store'.nodes, algs[0], s.members[0].cells, key.at);
      }
    }
    assert store.metas.Keys == {};
  }

  lemma RegisteredStore(store: Store)
    ensures var store' := Effect(store, WriteOp.AddAlgorithm(0, [Epoch(0, OPEN)]));
            store'.nodes == store.nodes && store'.leaves == store.leaves && store'.count == store.count &&
            store'.metas.Keys == store.metas.Keys + {0}
  {
  }

  /** No subtree fits in an empty tree. */
  lemma NoNode(k: Arity, nodes: map<NodeKey, Digest>, view: AlgView, cells: seq<Digest>, c: Coord)
    requires NodesOk(k, nodes, 0, view, cells, 0) && WellFormed(view.epochs, 0) && |cells| == 0
    ensures NodeKey(0, c) !in nodes
  {
    hide Block, Aligned;
  }

  // ------------------------------------------------------------------ seals

  /** Every sealed frontier has a hasher of its own. */
  ghost predicate Hashed(fs: seq<SealedFrontier>, hashers: map<nat, Hasher>) {
    && (forall i :: 0 <= i < |fs| ==> fs[i].alg in hashers)
    && forall i, j :: 0 <= i < j < |fs| ==> fs[i].alg != fs[j].alg
  }

  /** The algorithms of these frontiers, whose hashers are used up. */
  ghost function Taken(fs: seq<SealedFrontier>): set<nat> { set i | 0 <= i < |fs| :: fs[i].alg }

  /** One more frontier is hashed exactly if its hasher is left; if it is not, the whole list fails. */
  lemma HashedNext(fs: seq<SealedFrontier>, hashers: map<nat, Hasher>, n: nat)
    requires n < |fs| && Hashed(fs[..n], hashers)
    ensures fs[n].alg in hashers.Keys - Taken(fs[..n]) ==>
              fs[n].alg in hashers && Hashed(fs[..n + 1], hashers) && Taken(fs[..n + 1]) == Taken(fs[..n]) + {fs[n].alg}
    ensures fs[n].alg !in hashers.Keys - Taken(fs[..n]) ==> !Hashed(fs, hashers)
  {
    var before := fs[..n];
    assert forall i :: 0 <= i < n ==> before[i] == fs[i];
    if fs[n].alg !in Taken(before) {
      forall i | 0 <= i < n
        ensures fs[i].alg != fs[n].alg
      {
        assert before[i].alg in Taken(before);
      }
    }
    assert fs[..n + 1] == before + [fs[n]];
  }

  /** The view and the seed made from one sealed frontier. */
  function MadeView(sealed: Sealed, hashers: map<nat, Hasher>, coords: seq<Coord>, f: SealedFrontier): AlgView
    requires f.alg in hashers
  {
    var found := Lookup(sealed.timeline, f.alg);
    AlgView(hashers[f.alg], if found.Some? then found.value else FROM_GENESIS, f.peaks, coords)
  }

  function MadeSeed(
      sealed: Sealed, hashers: map<nat, Hasher>, coords: seq<Coord>, k: Arity, f: SealedFrontier): AlgorithmSeed
    requires f.alg in hashers
  {
    var view := MadeView(sealed, hashers, coords, f);
    var zipped := if |coords| < |f.peaks| then |coords| else |f.peaks|;
    AlgorithmSeed(f.alg, view.epochs, SeedWrites(k, f.alg, view, coords[..zipped], f.peaks[..zipped]))
  }

  ghost predicate SeedsMade(
      sealed: Sealed, hashers: map<nat, Hasher>, coords: seq<Coord>, k: Arity,
      algs: map<nat, AlgView>, seeds: seq<AlgorithmSeed>, n: nat)
  {
    var fs := sealed.frontiers;
    && n <= |fs| && |seeds| == n
    && (forall i :: 0 <= i < n ==>
          fs[i].alg in hashers && seeds[i] == MadeSeed(sealed, hashers, coords, k, fs[i]) &&
          fs[i].alg in algs && algs[fs[i].alg] == MadeView(sealed, hashers, coords, fs[i]))
    && (forall id :: id in algs ==> exists i :: 0 <= i < n && fs[i].alg == id)
  }

  lemma NoneMade(sealed: Sealed, hashers: map<nat, Hasher>, coords: seq<Coord>, k: Arity)
    ensures SeedsMade(sealed, hashers, coords, k, map[], [], 0) && Hashed([], hashers) && Taken([]) == {}
    ensures sealed.frontiers[..0] == []
  {
  }

  lemma MadeNext(
      sealed: Sealed, hashers: map<nat, Hasher>, coords: seq<Coord>, k: Arity,
      algs: map<nat, AlgView>, seeds: seq<AlgorithmSeed>, n: nat)
    requires SeedsMade(sealed, hashers, coords, k, algs, seeds, n) && n < |sealed.frontiers|
    requires Hashed(sealed.frontiers[..n + 1], hashers)
    ensures sealed.frontiers[n].alg in hashers
    ensures var f := sealed.frontiers[n];
            SeedsMade(sealed, hashers, coords, k, algs[f.alg := MadeView(sealed, hashers, coords, f)],
                      seeds + [MadeSeed(sealed, hashers, coords, k, f)], n + 1)
  {
    hide MadeView, MadeSeed;
    var upTo := sealed.frontiers[..n + 1];
    assert forall i :: 0 <= i <= n ==> upTo[i] == sealed.frontiers[i];
    var f := sealed.frontiers[n];
    var algs' := algs[f.alg := MadeView(sealed, hashers, coords, f)];
    forall id | id in algs'
      ensures exists i :: 0 <= i < n + 1 && sealed.frontiers[i].alg == id
    {
      if id in algs {
        var i :| 0 <= i < n && sealed.frontiers[i].alg == id;
      }
    }
  }

  lemma MadeDistinct(
      sealed: Sealed, hashers: map<nat, Hasher>, coords: seq<Coord>, k: Arity,
      algs: map<nat, AlgView>, seeds: seq<AlgorithmSeed>)
    requires SeedsMade(sealed, hashers, coords, k, algs, seeds, |sealed.frontiers|) && Hashed(sealed.frontiers, hashers)
    ensures Distinct(seeds)
  {
    hide SeedWrites, MadeView;
  }

  lemma SeedLegal(store: Store, size: nat, seeds: seq<AlgorithmSeed>)
    requires store.count == 0 && store.metas == map[] && Distinct(seeds)
    ensures ApplyEach(store, [WriteOp.SeedFrontier(size, seeds)])
            == Some(Effect(store, WriteOp.SeedFrontier(size, seeds)))
  {
    LegalOne(store, WriteOp.SeedFrontier(size, seeds));
  }

  /** A seal a log of this model gave, with that log's own hashers. */
  ghost predicate Own(sealed: Sealed, hashers: map<nat, Hasher>, origin: State, k: Arity) {
    && StateOk(origin) && sealed == SealedOf(origin, k)
    && forall id :: id in hashers && id in origin.members ==> hashers[id] == origin.members[id].hasher
  }

  lemma OwnHashed(sealed: Sealed, hashers: map<nat, Hasher>, origin: State, k: Arity)
    requires Own(sealed, hashers, origin, k)
    ensures Hashed(sealed.frontiers, hashers) <==> Carried(origin).members.Keys <= hashers.Keys
    ensures sealed.arity == k && sealed.size == origin.size == Carried(origin).size
  {
    SealedParts(origin, k);
    hide SealedOf, StateOk, IsActive, Peaks, Lookup;
    var fs := sealed.frontiers;
    assert forall i :: 0 <= i < |fs| ==> fs[i].alg in Carried(origin).members;
    if Hashed(fs, hashers) {
      forall id | id in Carried(origin).members
        ensures id in hashers
      {
        var i :| 0 <= i < |fs| && fs[i].alg == id;
      }
    }
  }

  /** From such a seal the store and the views represent the algorithms carried. */
  lemma OwnResumes(
      sealed: Sealed, hashers: map<nat, Hasher>, origin: State, k: Arity, algs: map<nat, AlgView>,
      seeds: seq<AlgorithmSeed>)
    requires Own(sealed, hashers, origin, k) && Hashed(sealed.frontiers, hashers)
    requires SeedsMade(sealed, hashers, Frontier(k, sealed.size), k, algs, seeds, |sealed.frontiers|) && Distinct(seeds)
    ensures Represents(k, Effect(EmptyStore, WriteOp.SeedFrontier(sealed.size, seeds)), algs, Carried(origin),
            SubtreeKind, origin.size)
  {
    OwnHashed(sealed, hashers, origin, k);
    OwnSeeds(sealed, hashers, origin, k, algs, seeds);
    hide *;
    OwnState(sealed, hashers, origin, k);
    SeedsRepresent(k, origin, seeds, algs, Carried(origin));
    SeedEffect(sealed.size, seeds);
  }

  lemma OwnState(sealed: Sealed, hashers: map<nat, Hasher>, origin: State, k: Arity)
    requires Own(sealed, hashers, origin, k)
    ensures StateOk(origin) && sealed == SealedOf(origin, k)
    ensures forall id :: id in hashers && id in origin.members ==> hashers[id] == origin.members[id].hasher
  {
    hide StateOk, SealedOf;
  }

  lemma OwnSeeds(
      sealed: Sealed, hashers: map<nat, Hasher>, origin: State, k: Arity, algs: map<nat, AlgView>,
      seeds: seq<AlgorithmSeed>)
    requires Own(sealed, hashers, origin, k) && Hashed(sealed.frontiers, hashers)
    requires SeedsMade(sealed, hashers, Frontier(k, sealed.size), k, algs, seeds, |sealed.frontiers|) && Distinct(seeds)
    ensures SeedsOf(k, origin, seeds) && algs.Keys == Carried(origin).members.Keys
    ensures forall id :: id in algs <==> exists i :: 0 <= i < |seeds| && seeds[i].alg == id
    ensures forall id :: id in algs ==> algs[id] == CarriedView(k, origin.members[id], origin.size)
  {
    hide *;
    OwnState(sealed, hashers, origin, k);
    SealedParts(origin, k);
    var fs, coords := sealed.frontiers, Frontier(k, sealed.size);
    SeedsMadeAt(sealed, hashers, coords, k, algs, seeds);
    forall i | 0 <= i < |fs|
      ensures fs[i].alg in origin.members && IsActive(origin.members[fs[i].alg].epochs)
      ensures seeds[i] == SeedOf(k, fs[i].alg, origin.members[fs[i].alg], origin.size) && seeds[i].alg == fs[i].alg
      ensures algs[fs[i].alg] == CarriedView(k, origin.members[fs[i].alg], origin.size)
    {
      MadeIs(sealed, hashers, coords, k, fs[i], origin.members[fs[i].alg], origin.size);
      SeedAlg(k, fs[i].alg, origin.members[fs[i].alg], origin.size);
    }
    CarriedKeys(origin);
    forall id | id in Carried(origin).members
      ensures exists i :: 0 <= i < |seeds| && seeds[i].alg == id
    {
      var i :| 0 <= i < |fs| && fs[i].alg == id;
      assert seeds[i].alg == id;
    }
    forall id | id in algs
      ensures id in Carried(origin).members && exists i :: 0 <= i < |seeds| && seeds[i].alg == id
      ensures algs[id] == CarriedView(k, origin.members[id], origin.size)
    {
      var i :| 0 <= i < |fs| && fs[i].alg == id;
      assert seeds[i].alg == id;
    }
    SeedsOfIs(k, origin, seeds);
  }

  lemma CarriedKeys(s: State)
    ensures forall id :: id in Carried(s).members <==> id in s.members && s.size > 0 && IsActive(s.members[id].epochs)
  {
  }

  lemma SeedsOfIs(k: Arity, s: State, seeds: seq<AlgorithmSeed>)
    requires Distinct(seeds)
    requires forall i :: 0 <= i < |seeds| ==>
               seeds[i].alg in s.members && IsActive(s.members[seeds[i].alg].epochs) &&
               seeds[i] == SeedOf(k, seeds[i].alg, s.members[seeds[i].alg], s.size)
    ensures SeedsOf(k, s, seeds)
  {
    hide SeedOf, IsActive;
  }

  lemma SeedsMadeAt(
      sealed: Sealed, hashers: map<nat, Hasher>, coords: seq<Coord>, k: Arity, algs: map<nat, AlgView>,
      seeds: seq<AlgorithmSeed>)
    requires SeedsMade(sealed, hashers, coords, k, algs, seeds, |sealed.frontiers|)
    ensures var fs := sealed.frontiers;
            && |seeds| == |fs|
            && (forall i :: 0 <= i < |fs| ==>
                  fs[i].alg in hashers && seeds[i] == MadeSeed(sealed, hashers, coords, k, fs[i]) &&
                  fs[i].alg in algs && algs[fs[i].alg] == MadeView(sealed, hashers, coords, fs[i]))
            && (forall id :: id in algs ==> exists i :: 0 <= i < |fs| && fs[i].alg == id)
  {
    hide MadeView, MadeSeed;
  }

  lemma SeedAlg(k: Arity, alg: nat, m: Member, n: nat)
    ensures SeedOf(k, alg, m, n).alg == alg
  {
  }

  lemma MadeIs(
      sealed: Sealed, hashers: map<nat, Hasher>, coords: seq<Coord>, k: Arity, f: SealedFrontier, m: Member, n: nat)
    requires f.alg in hashers && hashers[f.alg] == m.hasher && coords == Frontier(k, n)
    requires f.peaks == Peaks(m.hasher, k, m.cells, n) && Lookup(sealed.timeline, f.alg) == Some(m.epochs)
    ensures MadeView(sealed, hashers, coords, f) == CarriedView(k, m, n)
    ensures MadeSeed(sealed, hashers, coords, k, f) == SeedOf(k, f.alg, m, n)
  {
    hide Frontier, SeedWrites, Lookup;
    assert |f.peaks| == |coords|;
    assert coords[..|coords|] == coords && f.peaks[..|coords|] == f.peaks;
  }

  lemma PeaksAre(h: Hasher, k: Arity, cells: seq<Digest>, n: nat)
    ensures Peaks(h, k, cells, n) == BlockAll(h, k, cells, Frontier(k, n))
  {
    hide Frontier, Block;
  }

  lemma NoRoots(members: map<nat, Member>, k: Arity, n: nat)
    ensures RootMap(members, [], k, n) == []
  {
  }

  lemma RootSnoc(members: map<nat, Member>, ids: seq<nat>, x: nat, k: Arity, n: nat)
    requires (forall y :: y in ids ==> y in members) && x in members
    ensures RootMap(members, ids + [x], k, n) == RootMap(members, ids, k, n) + [RootAt(members[x], k, n)]
  {
    hide RootAt;
  }

  lemma SealedIs(s: State, k: Arity)
    ensures s.size == 0 ==> SealedOf(s, k) == Sealed(0, k, [], [])
    ensures s.size > 0 ==>
              SealedOf(s, k) ==
              Sealed(s.size, k, SealedFrontiers(s.members, Ids(s.members.Keys), k, s.size), TimelineAt(s, s.size))
  {
    hide SealedFrontiers, TimelineAt, Ids;
  }

  /** A registration changes no read of the others. */
  lemma AddedReads(
      k: Arity, store: Store, algs: map<nat, AlgView>, id: nat, es: seq<Epoch>, view: AlgView, n: nat)
    requires id !in algs
    ensures SameReads(k, store, Effect(store, WriteOp.AddAlgorithm(id, es)), algs, algs[id := view], n)
  {
    EffectUpdates(store, id, es, []);
    OtherReads(k, store, algs, id, es, [], view, n);
    hide SameReads, Effect;
    assert algs - {id} == algs;
  }

  lemma EmptyRoot(k: Arity, h: Hasher, cells: seq<Digest>)
    ensures Frontier(k, 0) == [] && MemberRoot(h, k, cells, 0) == h.empty
  {
  }

  /** Before an algorithm begins its tree is null cells, whose frontier reads without storage and bags to null. */
  lemma Unbegun(k: Arity, nodes: map<NodeKey, Digest>, id: nat, view: AlgView, cells: seq<Digest>, size: nat)
    requires ViewOk(k, view, cells) && 0 < size <= |cells| && size <= view.epochs[0].start
    ensures forall c :: c in Frontier(k, size) ==> Readable(nodes, view, id, k, c)
    ensures MemberRoot(view.hasher, k, cells, size) == Null(view.hasher)
  {
    var h := view.hasher;
    FrontierInit(k, size);
    FrontierInside(k, size);
    hide Frontier, Block, Aligned;
    forall j | 0 <= j < |Frontier(k, size)|
      ensures Readable(nodes, view, id, k, Frontier(k, size)[j]) && Block(h, k, cells, Frontier(k, size)[j]) == Null(h)
    {
      var c := Frontier(k, size)[j];
      assert c in Frontier(k, size);
      UntouchedBefore(k, view, |cells|, c, size);
      UntouchedBlock(k, view, cells, c);
    }
    BagConstant(h, k, Peaks(h, k, cells, size), Null(h));
  }

  lemma UntouchedBefore(k: Arity, view: AlgView, n: nat, c: Coord, size: nat)
    requires WellFormed(view.epochs, n) && size <= view.epochs[0].start && End(k, c) <= size
    ensures !Touched(k, view, c)
  {
    forall j | 0 < j < |view.epochs|
      ensures view.epochs[j].start >= view.epochs[0].end >= view.epochs[0].start
    {
    }
  }
}
