/**
 When a store and its algorithms' views represent an abstract state, and how the write
 of each step carries that from the state to the next.
 */
module Representation {
  import opened Base
  import opened Topology
  import opened Spine
  import opened Mountain
  import opened Blocks
  import opened Subtrees
  import opened Epochs
  import opened Storage
  import opened Engine
  import opened Ledger
  import Views
  import Reopening

  /** One algorithm's view, store entry and nodes represent its member. */
  ghost predicate AlgOk(k: Arity, store: Store, alg: nat, view: AlgView, m: Member, kind: LogKind, base: nat) {
    && view.hasher == m.hasher && view.epochs == m.epochs
    && alg in store.metas && store.metas[alg] == m.epochs
    && ViewOk(k, view, m.cells)
    && NodesOk(k, store.nodes, alg, view, m.cells, base)
    && Reopening.LeavesOk(kind, store.leaves, view, m.cells)
    && base <= TreeSize(m.epochs, |m.cells|)
    && Reopening.PeaksOnly(k, store.nodes, alg, view, m.cells, base)
    && Lean(k, store.nodes, alg, m.hasher, Since(m.epochs, base))
  }

  /** The store and the views represent the state; the log knows nothing below `base` but peaks. */
  ghost predicate Represents(
      k: Arity, store: Store, algs: map<nat, AlgView>, s: State, kind: LogKind, base: nat)
  {
    && StateOk(s) && base <= s.size == store.count && (base > 0 ==> kind == SubtreeKind)
    && |store.leaves| == (if kind == Flat then s.size else 0)
    && algs.Keys == s.members.Keys == store.metas.Keys
    && (forall key :: key in store.nodes ==> key.alg in store.metas)
    && forall id :: id in algs ==> AlgOk(k, store, id, algs[id], s.members[id], kind, base)
  }

  /** A batch of one legal operation is applied. */
  lemma LegalOne(store: Store, op: WriteOp)
    requires Legal(store, op)
    ensures ApplyEach(store, [op]) == Some(Effect(store, op))
  {
    assert [op][1..] == [];
  }

  // ------------------------------------------------------------------ the effect of each step

  /** What an append does to one view and writes for it. */
  ghost predicate Appended(
      k: Arity, alg: nat, view: AlgView, m: Member, item: Item, view': AlgView, ws: seq<NodeWrite>)
  {
    if IsActive(view.epochs) then
      var cells := m.cells + [ItemDigest(view.hasher, item)];
      && view' == view.(frontier := Peaks(view.hasher, k, cells, |cells|), coords := Frontier(k, |cells|))
      && Views.AppendWrites(k, alg, view.hasher, cells, ws)
    else
      view' == view && forall w :: w in ws ==> w.key.alg != alg
  }

  lemma AppendedOk(
      k: Arity, store: Store, alg: nat, view: AlgView, m: Member, kind: LogKind, base: nat, item: Item,
      view': AlgView, ws: seq<NodeWrite>, store': Store, kind': LogKind)
    requires AlgOk(k, store, alg, view, m, kind, base) && Appended(k, alg, view, m, item, view', ws)
    requires MemberOk(m, store.count) && store.count < CAPACITY
    requires store'.nodes == InsertAll(store.nodes, ws) && store'.metas == store.metas
    requires match item
             case LeafItem(data) =>
               kind' == Flat && store'.leaves == store.leaves + [data] && |store.leaves| == store.count
             case TreeItem(_) => kind' == SubtreeKind
    requires kind == Flat || store.count == 0 || item.TreeItem?
    ensures AlgOk(k, store', alg, view', AppendTo(m, item), kind', base)
  {
    hide Views.AppendWrites, NodesOk, InsertAll, Frontier, Peaks, Evaluate;
    if IsActive(m.epochs) {
      LastOpen(m.epochs, store.count);
      Views.AppendActive(k, store.nodes, alg, view, m.cells, base, ItemDigest(m.hasher, item), ws, view');
    } else {
      Views.AppendFrozen(k, store.nodes, alg, view, m.cells, base, ws);
    }
    AppendLeaves(store, view, m, kind, item, view', store', kind');
    AppendPeaks(k, store, alg, view, m, base, item, view', ws);
    AppendLean(k, store.nodes, alg, view, m, item, view', ws, Since(m.epochs, base));
  }

  /** An append stores no null but at a leaf. */
  lemma AppendLean(
      k: Arity, nodes: map<NodeKey, Digest>, alg: nat, view: AlgView, m: Member, item: Item, view': AlgView,
      ws: seq<NodeWrite>, since: nat)
    requires Lean(k, nodes, alg, m.hasher, since) && view.hasher == m.hasher &&
             Appended(k, alg, view, m, item, view', ws)
    ensures Lean(k, InsertAll(nodes, ws), alg, m.hasher, since)
  {
    hide InsertAll, Frontier, Peaks, Aligned, Block;
    forall c: Coord | NodeKey(alg, c) in InsertAll(nodes, ws) && c.height > 0 && End(k, c) > since
      ensures InsertAll(nodes, ws)[NodeKey(alg, c)] != Null(m.hasher)
    {
      InsertAllGet(nodes, ws, NodeKey(alg, c));
    }
  }

  lemma AppendPeaks(
      k: Arity, store: Store, alg: nat, view: AlgView, m: Member, base: nat, item: Item, view': AlgView,
      ws: seq<NodeWrite>)
    requires Reopening.PeaksOnly(k, store.nodes, alg, view, m.cells, base) && base <= |m.cells|
    requires view.hasher == m.hasher && view.epochs == m.epochs && Appended(k, alg, view, m, item, view', ws)
    ensures Reopening.PeaksOnly(k, InsertAll(store.nodes, ws), alg, view', AppendTo(m, item).cells, base)
  {
    hide Reopening.PeaksOnly, InsertAll, Frontier, Peaks, Aligned, Block, Touched, Pow;
    var cells' := AppendTo(m, item).cells;
    forall c: Coord | End(k, c) <= base
      ensures NodeKey(alg, c) in InsertAll(store.nodes, ws) <==> NodeKey(alg, c) in store.nodes
      ensures Touched(k, view', c) <==> Touched(k, view, c)
    {
      InsertAllGet(store.nodes, ws, NodeKey(alg, c));
      Views.SameTouch(k, view', view, c);
    }
    Reopening.PeaksSame(k, store.nodes, InsertAll(store.nodes, ws), alg, view, view', m.cells, cells', base);
  }

  lemma AppendLeaves(
      store: Store, view: AlgView, m: Member, kind: LogKind, item: Item, view': AlgView, store': Store, kind': LogKind)
    requires Reopening.LeavesOk(kind, store.leaves, view, m.cells) && MemberOk(m, store.count) && store.count < CAPACITY
    requires view.hasher == view'.hasher == m.hasher && view.epochs == view'.epochs == m.epochs
    requires match item
             case LeafItem(data) =>
               kind' == Flat && store'.leaves == store.leaves + [data] && |store.leaves| == store.count
             case TreeItem(_) => kind' == SubtreeKind
    requires kind == Flat || store.count == 0 || item.TreeItem?
    ensures Reopening.LeavesOk(kind', store'.leaves, view', AppendTo(m, item).cells)
  {
    hide WellFormed;
    assert store.count < OPEN;
    if !IsActive(m.epochs) {
      ClosedBelow(m.epochs, store.count, store.count);
    }
    hide ActiveAt;
  }

  lemma AppendRepresents(
      k: Arity, store: Store, algs: map<nat, AlgView>, s: State, kind: LogKind, base: nat, item: Item,
      algs': map<nat, AlgView>, ws: seq<NodeWrite>, store': Store, kind': LogKind)
    requires Represents(k, store, algs, s, kind, base) && Enabled(s, Append(item))
    requires algs'.Keys == algs.Keys && forall w :: w in ws ==> w.key.alg in algs
    requires forall id :: id in algs ==> Appended(k, id, algs[id], s.members[id], item, algs'[id], ws)
    requires kind' == (if item.LeafItem? then Flat else SubtreeKind)
    requires item.LeafItem? ==> kind == Flat || s.size == 0
    requires item.TreeItem? ==> kind == SubtreeKind || s.size == 0
    requires store' == Effect(store, if item.LeafItem? then AppendLeaf(s.size, item.data, ws)
             else AppendSubtree(s.size, ws))
    ensures Represents(k, store', algs', After(s, Append(item)), kind', base)
  {
    hide Appended, AlgOk, AppendTo, MemberOk, InsertAll, IsActive;
    StepOk(s, Append(item));
    hide StateOk;
    forall id | id in algs
      ensures AlgOk(k, store', id, algs'[id], AppendTo(s.members[id], item), kind', base)
    {
      RepresentsAt(k, store, algs, s, kind, base, id);
      AppendedOk(k, store, id, algs[id], s.members[id], kind, base, item, algs'[id], ws, store', kind');
    }
    WrittenKeys(store.nodes, ws);
  }

  lemma WrittenKeys(nodes: map<NodeKey, Digest>, ws: seq<NodeWrite>)
    ensures forall key :: key in InsertAll(nodes, ws) ==> key in nodes || exists w :: w in ws && w.key == key
  {
    hide InsertAll;
    forall key | key in InsertAll(nodes, ws) && key !in nodes
      ensures exists w :: w in ws && w.key == key
    {
      InsertAllGet(nodes, ws, key);
      var i :| 0 <= i < |ws| && ws[i].key == key;
      assert ws[i] in ws;
    }
  }

  /** The writes of one active algorithm's carry are all an append owes it. */
  lemma CarryIsAppend(k: Arity, alg: nat, h: Hasher, cells: seq<Digest>, n: nat, ws: seq<NodeWrite>)
    requires |cells| == n + 1
    requires ws == [NodeWrite(NodeKey(alg, Coord(n, 0)), cells[n])] + CarryWrites(h, k, alg, cells, n, Merges(k, n))
    ensures Views.AppendWrites(k, alg, h, cells, ws)
    ensures forall w :: w in ws ==> w.key.alg == alg
  {
    hide Block, Completed, Merges, Aligned, Times, Quot, CarryWrites;
    CarryWritesAre(k := k, h := h, alg := alg, cells := cells, n := n, s := Merges(k, n));
    var leaf := NodeWrite(NodeKey(alg, Coord(n, 0)), cells[n]);
    LeafCoord(h, k, cells, n);
    forall c: Coord | Aligned(k, c) && End(k, c) == n + 1 && (c.height == 0 || Block(h, k, cells, c) != Null(h))
      ensures exists w :: w in ws && w.key == NodeKey(alg, c)
    {
      CompletedAll(k, n, c);
      if c.height == 0 {
        LeafEnd(k, c);
        assert leaf in ws;
      } else {
        assert NodeWrite(NodeKey(alg, c), Block(h, k, cells, c)) in ws;
      }
    }
  }

  lemma LeafCoord(h: Hasher, k: Arity, cells: seq<Digest>, n: nat)
    requires n < |cells|
    ensures Aligned(k, Coord(n, 0)) && End(k, Coord(n, 0)) == n + 1 && Block(h, k, cells, Coord(n, 0)) == cells[n]
  {
  }

  lemma LeafEnd(k: Arity, c: Coord)
    requires c.height == 0
    ensures End(k, c) == c.left + 1
  {
  }

  /** Writes for other algorithms do not disturb an append. */
  lemma AppendedMore(
      k: Arity, alg: nat, view: AlgView, m: Member, item: Item, view': AlgView, ws: seq<NodeWrite>,
      more: seq<NodeWrite>)
    requires Appended(k, alg, view, m, item, view', ws)
    requires forall w :: w in more ==> w.key.alg != alg
    ensures Appended(k, alg, view, m, item, view', ws + more)
  {
    hide Block, Aligned, Frontier, Peaks;
    if IsActive(view.epochs) {
      var cells := m.cells + [ItemDigest(view.hasher, item)];
      forall c: Coord | Aligned(k, c) && End(k, c) == |cells| &&
             (c.height == 0 || Block(view.hasher, k, cells, c) != Null(view.hasher))
        ensures exists w :: w in ws + more && w.key == NodeKey(alg, c)
      {
        var w :| w in ws && w.key == NodeKey(alg, c);
        assert w in ws + more;
      }
    }
  }

  lemma AppendedOwn(
      k: Arity, alg: nat, view: AlgView, m: Member, item: Item, view': AlgView, ws: seq<NodeWrite>, own: seq<NodeWrite>)
    requires IsActive(view.epochs) && (forall w :: w in ws ==> w.key.alg != alg)
    requires var cells := m.cells + [ItemDigest(view.hasher, item)];
             view' == view.(frontier := Peaks(view.hasher, k, cells, |cells|), coords := Frontier(k, |cells|)) &&
             Views.AppendWrites(k, alg, view.hasher, cells, own)
    ensures Appended(k, alg, view, m, item, view', ws + own)
  {
    hide Block, Aligned, Frontier, Peaks;
    var cells := m.cells + [ItemDigest(view.hasher, item)];
    forall c: Coord | Aligned(k, c) && End(k, c) == |cells| &&
           (c.height == 0 || Block(view.hasher, k, cells, c) != Null(view.hasher))
      ensures exists w :: w in ws + own && w.key == NodeKey(alg, c)
    {
      var w :| w in own && w.key == NodeKey(alg, c);
      assert w in ws + own;
    }
  }

  function Updated(store: Store, alg: nat, es: seq<Epoch>, ws: seq<NodeWrite>): Store {
    store.(metas := store.metas[alg := es], nodes := InsertAll(store.nodes, ws))
  }

  /** A change to one algorithm leaves every other one as it was. */
  lemma AlgElsewhere(
      k: Arity, store: Store, id: nat, view: AlgView, m: Member, kind: LogKind, base: nat,
      alg: nat, es: seq<Epoch>, ws: seq<NodeWrite>)
    requires AlgOk(k, store, id, view, m, kind, base) && id != alg && forall w :: w in ws ==> w.key.alg == alg
    ensures AlgOk(k, Updated(store, alg, es, ws), id, view, m, kind, base)
  {
    hide NodesOk, ViewOk, InsertAll, Reopening.LeavesOk, Reopening.PeaksOnly, Lean;
    OtherNodes(k, store.nodes, id, view, m.cells, base, ws);
  }

  lemma Replaced(
      k: Arity, store: Store, algs: map<nat, AlgView>, s: State, kind: LogKind, base: nat,
      alg: nat, view: AlgView, m: Member, ws: seq<NodeWrite>)
    requires Represents(k, store, algs, s, kind, base) && forall w :: w in ws ==> w.key.alg == alg
    requires StateOk(s.(members := s.members[alg := m]))
    requires AlgOk(k, Updated(store, alg, m.epochs, ws), alg, view, m, kind, base)
    ensures Represents(k, Updated(store, alg, m.epochs, ws), algs[alg := view], s.(members := s.members[alg := m]),
            kind, base)
  {
    hide AlgOk, InsertAll, StateOk;
    forall id | id in algs && id != alg
      ensures AlgOk(k, Updated(store, alg, m.epochs, ws), id, algs[id], s.members[id], kind, base)
    {
      AlgElsewhere(k, store, id, algs[id], s.members[id], kind, base, alg, m.epochs, ws);
    }
    WrittenKeys(store.nodes, ws);
  }

  lemma RepresentsAt(k: Arity, store: Store, algs: map<nat, AlgView>, s: State, kind: LogKind, base: nat, id: nat)
    requires Represents(k, store, algs, s, kind, base)
    ensures algs.Keys == s.members.Keys == store.metas.Keys
    ensures id in algs ==> AlgOk(k, store, id, algs[id], s.members[id], kind, base) && MemberOk(s.members[id], s.size)
    ensures StateOk(s) && base <= s.size == store.count <= CAPACITY < OPEN && (base > 0 ==> kind == SubtreeKind)
    ensures id in algs ==> |s.members[id].cells| == s.size
    ensures |store.leaves| == (if kind == Flat then s.size else 0)
    ensures id !in algs ==> forall c :: NodeKey(id, c) !in store.nodes
  {
    hide AlgOk;
  }

  /** What one algorithm's representation says of its member. */
  lemma MemberOf(k: Arity, store: Store, alg: nat, view: AlgView, m: Member, kind: LogKind, base: nat)
    requires AlgOk(k, store, alg, view, m, kind, base)
    ensures view.hasher == m.hasher && view.epochs == m.epochs && |m.epochs| > 0
    ensures ViewOk(k, view, m.cells) && NodesOk(k, store.nodes, alg, view, m.cells, base)
    ensures Reopening.LeavesOk(kind, store.leaves, view, m.cells)
    ensures WellFormed(view.epochs, |m.cells|) && base <= TreeSize(m.epochs, |m.cells|) <= |m.cells|
    ensures Lean(k, store.nodes, alg, m.hasher, Since(m.epochs, base))
  {
    hide NodesOk, Reopening.LeavesOk;
  }

  /** An active view is at the log's own size. */
  lemma ActiveView(k: Arity, view: AlgView, m: Member, n: nat)
    requires ViewOk(k, view, m.cells) && IsActive(view.epochs) && |m.cells| == n < OPEN
    ensures view.coords == Frontier(k, n) && view.frontier == Peaks(view.hasher, k, m.cells, n)
    ensures ActiveAt(view.epochs, n)
  {
    LastOpen(view.epochs, n);
  }

  lemma AppendedNone(k: Arity, alg: nat, view: AlgView, m: Member, item: Item, ws: seq<NodeWrite>)
    requires !IsActive(view.epochs) && forall w :: w in ws ==> w.key.alg != alg
    ensures Appended(k, alg, view, m, item, view, ws)
  {
  }

  lemma FrontierInside(k: Arity, n: nat)
    ensures forall c :: c in Frontier(k, n) ==> Aligned(k, c) && End(k, c) <= n
  {
    hide Frontier, Aligned;
    forall c | c in Frontier(k, n)
      ensures Aligned(k, c) && End(k, c) <= n
    {
      Views.FrontierIncomplete(k, n, c);
    }
  }

  lemma EffectUpdates(store: Store, alg: nat, es: seq<Epoch>, ws: seq<NodeWrite>)
    ensures Effect(store, AddAlgorithm(alg, es)) == Updated(store, alg, es, [])
    ensures Effect(store, RemoveAlgorithm(alg, es)) == Updated(store, alg, es, [])
    ensures Effect(store, ResumeAlgorithm(alg, es, ws)) == Updated(store, alg, es, ws)
  {
    assert InsertAll(store.nodes, []) == store.nodes;
  }

  /** The member a timeline step replaces, and its replacement. */
  function Stepped(s: State, step: Step): Member
    requires Enabled(s, step) && !step.Append?
  {
    match step
    case Add(_, h) => Member(h, [Epoch(s.size, OPEN)], Nulls(h, s.size))
    case Freeze(id) => s.members[id].(epochs := CloseAt(s.members[id].epochs, s.size))
    case Reopen(id) => s.members[id].(epochs := s.members[id].epochs + [Epoch(s.size, OPEN)])
  }

  lemma AfterReplaces(s: State, step: Step)
    requires Enabled(s, step) && !step.Append? && StateOk(s)
    ensures After(s, step) == s.(members := s.members[step.alg := Stepped(s, step)])
    ensures StateOk(After(s, step))
  {
    StepOk(s, step);
  }

  function Registered(k: Arity, h: Hasher, n: nat): AlgView {
    AlgView(h, [Epoch(n, OPEN)], Nulls(h, |Frontier(k, n)|), Frontier(k, n))
  }

  lemma AddAlg(k: Arity, store: Store, alg: nat, h: Hasher, kind: LogKind, base: nat, n: nat)
    requires forall c :: NodeKey(alg, c) !in store.nodes
    requires base <= n < OPEN && |store.leaves| == (if kind == Flat then n else 0)
    ensures AlgOk(k, Updated(store, alg, [Epoch(n, OPEN)], []), alg, Registered(k, h, n),
                  Member(h, [Epoch(n, OPEN)], Nulls(h, n)), kind, base)
  {
    hide Frontier, NodesOk, ViewOk;
    Views.Register(k, store.nodes, alg, h, n, base);
    NewPeaks(k, store.nodes, alg, Registered(k, h, n), n, base);
    FreshLeaves(kind, store.leaves, Registered(k, h, n), Nulls(h, n));
  }

  /** An algorithm registered after the seal has no sealed peaks. */
  lemma NewPeaks(k: Arity, nodes: map<NodeKey, Digest>, alg: nat, view: AlgView, n: nat, base: nat)
    requires (forall c :: NodeKey(alg, c) !in nodes) && base <= n && view.epochs == [Epoch(n, OPEN)]
    ensures Reopening.PeaksOnly(k, nodes, alg, view, Nulls(view.hasher, n), base)
  {
    hide Frontier, Reopening.Emptied, Above;
    forall f | f in Frontier(k, base)
      ensures !Touched(k, view, f)
    {
      Views.FrontierIncomplete(k, base, f);
    }
  }

  lemma AddRepresents(
      k: Arity, store: Store, algs: map<nat, AlgView>, s: State, kind: LogKind, base: nat, alg: nat, h: Hasher)
    requires Represents(k, store, algs, s, kind, base) && Enabled(s, Add(alg, h))
    ensures Represents(k, Effect(store, AddAlgorithm(alg, [Epoch(s.size, OPEN)])),
            algs[alg := Registered(k, h, s.size)],
                       After(s, Add(alg, h)), kind, base)
  {
    hide Represents, AlgOk, StateOk, Updated, MemberOk, Nulls, Effect, Registered;
    RepresentsAt(k, store, algs, s, kind, base, alg);
    EffectUpdates(store, alg, [Epoch(s.size, OPEN)], []);
    AfterReplaces(s, Add(alg, h));
    AddAlg(k, store, alg, h, kind, base, s.size);
    Replaced(k, store, algs, s, kind, base, alg, Registered(k, h, s.size), Stepped(s, Add(alg, h)), []);
  }

  lemma FreshLeaves(kind: LogKind, leaves: seq<Bytes>, view: AlgView, cells: seq<Digest>)
    requires view.epochs == [Epoch(|cells|, OPEN)] && (kind == Flat ==> |leaves| == |cells|)
    ensures Reopening.LeavesOk(kind, leaves, view, cells)
  {
  }

  lemma SameLeaves(kind: LogKind, leaves: seq<Bytes>, view: AlgView, view': AlgView, cells: seq<Digest>)
    requires Reopening.LeavesOk(kind, leaves, view, cells) && view'.hasher == view.hasher
    requires forall i :: 0 <= i < |cells| ==> (ActiveAt(view'.epochs, i) <==> ActiveAt(view.epochs, i))
    ensures Reopening.LeavesOk(kind, leaves, view', cells)
  {
    hide ActiveAt;
  }

  lemma FreezeAlg(k: Arity, store: Store, alg: nat, view: AlgView, m: Member, kind: LogKind, base: nat, n: nat)
    requires AlgOk(k, store, alg, view, m, kind, base) && MemberOk(m, n) && IsActive(m.epochs) && base <= n < OPEN
    ensures var es := CloseAt(m.epochs, n);
            AlgOk(k, Updated(store, alg, es, []), alg, view.(epochs := es), m.(epochs := es), kind, base)
  {
    var es := CloseAt(m.epochs, n);
    ClosedEnd(m.epochs, n);
    SameBelow(m.epochs, es, n);
    hide CloseAt, ActiveAt, WellFormed, ActiveRange, NodesOk, ViewOk, Reopening.LeavesOk, Reopening.PeaksOnly;
    Views.Remove(k, store.nodes, alg, view, m.cells, base);
    Reopening.PeaksSame(k, store.nodes, store.nodes, alg, view, view.(epochs := es), m.cells, m.cells, base);
    SameLeaves(kind, store.leaves, view, view.(epochs := es), m.cells);
  }

  lemma FreezeRepresents(k: Arity, store: Store, algs: map<nat, AlgView>, s: State, kind: LogKind, base: nat, alg: nat)
    requires Represents(k, store, algs, s, kind, base) && Enabled(s, Freeze(alg))
    ensures var es := CloseAt(s.members[alg].epochs, s.size);
            Represents(k, Effect(store, RemoveAlgorithm(alg, es)), algs[alg := algs[alg].(epochs := es)],
                       After(s, Freeze(alg)), kind, base)
  {
    hide Represents, AlgOk, StateOk, Updated, MemberOk, CloseAt, Effect;
    var m, es := s.members[alg], CloseAt(s.members[alg].epochs, s.size);
    RepresentsAt(k, store, algs, s, kind, base, alg);
    EffectUpdates(store, alg, es, []);
    AfterReplaces(s, Freeze(alg));
    FreezeAlg(k, store, alg, algs[alg], m, kind, base, s.size);
    Replaced(k, store, algs, s, kind, base, alg, algs[alg].(epochs := es), m.(epochs := es), []);
  }

  lemma ClosedEnd(es: seq<Epoch>, n: nat)
    requires |es| > 0 && n < OPEN
    ensures TreeSize(CloseAt(es, n), n) == n
  {
  }

  /** What reopening reads: the store, and the timeline with a new epoch from `n`. */
  function Rebuilding(store: Store, alg: nat, m: Member, n: nat, kind: LogKind): Reopening.Source {
    Reopening.Source(store, alg, AlgView(m.hasher, m.epochs + [Epoch(n, OPEN)], [], []), kind)
  }

  /** The view of a reopened algorithm: what was rebuilt, at the present size. */
  function Reopened(k: Arity, x: Reopening.Source, n: nat): AlgView {
    x.view.(frontier := Reopening.ResolveAll(k, x, Frontier(k, n)).0, coords := Frontier(k, n))
  }

  function ReopenWrites(k: Arity, x: Reopening.Source, n: nat): seq<NodeWrite> {
    Reopening.ResolveAll(k, x, Frontier(k, n)).1
  }

  lemma FrozenAlg(k: Arity, store: Store, alg: nat, view: AlgView, m: Member, kind: LogKind, base: nat, n: nat)
    requires AlgOk(k, store, alg, view, m, kind, base) && MemberOk(m, n) && !IsActive(m.epochs) && n < OPEN
    requires base > 0 ==> kind == SubtreeKind
    ensures Reopening.Frozen(k, Rebuilding(store, alg, m, n, kind), view, m.cells, base) && |m.cells| == n
    ensures Reopening.IsReopened(k, Rebuilding(store, alg, m, n, kind), n,
            Reopened(k, Rebuilding(store, alg, m, n, kind), n))
  {
    hide NodesOk, ViewOk, Reopening.LeavesOk, Reopening.PeaksOnly, Reopening.ResolveAll, Frontier, WellFormed;
  }

  lemma ReopenAlg(k: Arity, store: Store, alg: nat, view: AlgView, m: Member, kind: LogKind, base: nat, n: nat)
    requires AlgOk(k, store, alg, view, m, kind, base) && MemberOk(m, n) && !IsActive(m.epochs) && n < OPEN
    requires base > 0 ==> kind == SubtreeKind
    requires Reopening.Recoverable(k, view, m.cells, base)
    ensures var x := Rebuilding(store, alg, m, n, kind);
            Reopened(k, x, n).frontier == Peaks(m.hasher, k, m.cells, n) &&
            AlgOk(k, Updated(store, alg, x.view.epochs, ReopenWrites(k, x, n)), alg, Reopened(k, x, n),
                  m.(epochs := x.view.epochs), kind, base)
  {
    hide *;
    var x := Rebuilding(store, alg, m, n, kind);
    var view' := Reopened(k, x, n);
    FrozenAlg(k, store, alg, view, m, kind, base, n);
    Reopening.ReopensRight(k, x, view, m.cells, base, view');
    Reopening.ReopensPeaks(k, x, view, m.cells, base, view');
    Rebuilds(k, store, alg, m, kind, n);
    MemberOf(k, store, alg, view, m, kind, base);
    WholeTree(m.epochs, base, n);
    ReopenBelow(m.epochs, x.view.epochs, n);
    SameLeaves(kind, store.leaves, view, view', m.cells);
    AllBefore(k, InsertAll(store.nodes, ReopenWrites(k, x, n)), alg, view', m.cells, base);
    UpdatedParts(store, alg, x.view.epochs, ReopenWrites(k, x, n));
    AlgParts(k, Updated(store, alg, x.view.epochs, ReopenWrites(k, x, n)), alg, view', m.(epochs := x.view.epochs),
      kind, base);
  }

  lemma Rebuilds(k: Arity, store: Store, alg: nat, m: Member, kind: LogKind, n: nat)
    ensures var x := Rebuilding(store, alg, m, n, kind);
            x.store == store && x.alg == alg && x.kind == kind && x.view.epochs == m.epochs + [Epoch(n, OPEN)] &&
            Reopened(k, x, n).epochs == x.view.epochs && Reopened(k, x, n).hasher == m.hasher &&
            Reopened(k, x, n).frontier == Reopening.ResolveAll(k, x, Frontier(k, n)).0 &&
            ReopenWrites(k, x, n) == Reopening.ResolveAll(k, x, Frontier(k, n)).1
  {
    hide Frontier, Reopening.ResolveAll;
  }

  lemma WholeTree(es: seq<Epoch>, base: nat, n: nat)
    requires base <= TreeSize(es, n) <= n
    ensures var es' := es + [Epoch(n, OPEN)]; base <= TreeSize(es', n) == n <= Since(es', base)
  {
  }

  lemma UpdatedParts(store: Store, alg: nat, es: seq<Epoch>, ws: seq<NodeWrite>)
    ensures var t := Updated(store, alg, es, ws);
            t.nodes == InsertAll(store.nodes, ws) && t.leaves == store.leaves && alg in t.metas && t.metas[alg] == es
  {
    hide InsertAll;
  }

  lemma AlgParts(k: Arity, store: Store, alg: nat, view: AlgView, m: Member, kind: LogKind, base: nat)
    requires view.hasher == m.hasher && view.epochs == m.epochs
    requires alg in store.metas && store.metas[alg] == m.epochs
    requires ViewOk(k, view, m.cells) && NodesOk(k, store.nodes, alg, view, m.cells, base)
    requires Reopening.LeavesOk(kind, store.leaves, view, m.cells) && base <= TreeSize(m.epochs, |m.cells|)
    requires Reopening.PeaksOnly(k, store.nodes, alg, view, m.cells, base)
    requires Lean(k, store.nodes, alg, m.hasher, Since(m.epochs, base))
    ensures AlgOk(k, store, alg, view, m, kind, base)
  {
    hide ViewOk, NodesOk, Reopening.LeavesOk, Reopening.PeaksOnly, Lean;
  }

  /** A stretch that begins at the present size has completed nothing yet. */
  lemma AllBefore(k: Arity, nodes: map<NodeKey, Digest>, alg: nat, view: AlgView, cells: seq<Digest>, base: nat)
    requires NodesOk(k, nodes, alg, view, cells, base) && TreeSize(view.epochs, |cells|) <= Since(view.epochs, base)
    ensures Lean(k, nodes, alg, view.hasher, Since(view.epochs, base))
  {
    hide Aligned, Block;
  }

  /** Otherwise the nodes stored are not those of the member. */
  lemma ReopenLoses(
      k: Arity, store: Store, alg: nat, view: AlgView, m: Member, kind: LogKind, base: nat, n: nat, store': Store)
    requires AlgOk(k, store, alg, view, m, kind, base) && MemberOk(m, n) && !IsActive(m.epochs) && n < OPEN
    requires base > 0 ==> kind == SubtreeKind
    requires !Reopening.Recoverable(k, view, m.cells, base)
    requires var x := Rebuilding(store, alg, m, n, kind); store'.nodes == InsertAll(store.nodes, ReopenWrites(k, x, n))
    ensures var x := Rebuilding(store, alg, m, n, kind);
            !AlgOk(k, store', alg, Reopened(k, x, n), m.(epochs := x.view.epochs), kind, base)
  {
    var x := Rebuilding(store, alg, m, n, kind);
    FrozenAlg(k, store, alg, view, m, kind, base, n);
    Reopening.ReopensExactly(k, x, view, m.cells, base, Reopened(k, x, n));
    hide ViewOk, NodesOk, Peaks, Frontier, Reopening.LeavesOk, Reopening.PeaksOnly, Reopening.Recoverable,
         Reopening.Frozen, Reopening.ResolveAll, WellFormed, InsertAll;
  }

  /**
   Reopening represents the next state exactly if every sealed peak is a single leaf, or
   lies within one epoch, or folds to null all the way down.
   */
  lemma ReopenRepresents(
      k: Arity, store: Store, algs: map<nat, AlgView>, s: State, kind: LogKind, base: nat, alg: nat)
    requires Represents(k, store, algs, s, kind, base) && Enabled(s, Reopen(alg))
    ensures alg in algs && |s.members[alg].cells| == s.size
    ensures var m := s.members[alg];
            var x := Rebuilding(store, alg, m, s.size, kind);
            var right := Reopening.Recoverable(k, algs[alg], m.cells, base);
            (right ==> Reopened(k, x, s.size).frontier == Peaks(m.hasher, k, m.cells, s.size)) &&
            (right <==> Represents(k, Effect(store, ResumeAlgorithm(alg, x.view.epochs, ReopenWrites(k, x, s.size))),
                                   algs[alg := Reopened(k, x, s.size)], After(s, Reopen(alg)), kind, base))
  {
    hide Represents, AlgOk, StateOk, Updated, MemberOk, Effect, Peaks, Frontier, TreeSize, Reopened, ReopenWrites,
         Reopening.Recoverable;
    RepresentsAt(k, store, algs, s, kind, base, alg);
    var m := s.members[alg];
    var x := Rebuilding(store, alg, m, s.size, kind);
    var ws, view := ReopenWrites(k, x, s.size), Reopened(k, x, s.size);
    EffectUpdates(store, alg, x.view.epochs, ws);
    AfterReplaces(s, Reopen(alg));
    if Reopening.Recoverable(k, algs[alg], m.cells, base) {
      ReopenAlg(k, store, alg, algs[alg], m, kind, base, s.size);
      ReopenKeys(k, x, s.size);
      Replaced(k, store, algs, s, kind, base, alg, view, m.(epochs := x.view.epochs), ws);
    } else {
      var store' := Updated(store, alg, x.view.epochs, ws);
      UpdatedNodes(store, alg, x.view.epochs, ws);
      ReopenLoses(k, store, alg, algs[alg], m, kind, base, s.size, store');
      if Represents(k, store', algs[alg := view], After(s, Reopen(alg)), kind, base) {
        RepresentsAt(k, store', algs[alg := view], After(s, Reopen(alg)), kind, base, alg);
      }
    }
  }

  lemma UpdatedNodes(store: Store, alg: nat, es: seq<Epoch>, ws: seq<NodeWrite>)
    ensures Updated(store, alg, es, ws).nodes == InsertAll(store.nodes, ws)
  {
  }

  lemma ReopenKeys(k: Arity, x: Reopening.Source, n: nat)
    ensures forall w :: w in ReopenWrites(k, x, n) ==> w.key.alg == x.alg
  {
    hide Frontier, Reopening.Resolve, Reopening.ResolveAll;
    Reopening.MountainsKnown(k, n, 0);
    forall w | w in ReopenWrites(k, x, n)
      ensures w.key.alg == x.alg
    {
      var c := Reopening.AllWrites(k, x, Frontier(k, n), w);
      Reopening.WritesAre(k, x, c);
    }
  }

  lemma OtherNodes(
      k: Arity, nodes: map<NodeKey, Digest>, alg: nat, view: AlgView, cells: seq<Digest>, base: nat, ws: seq<NodeWrite>)
    requires NodesOk(k, nodes, alg, view, cells, base) && forall w :: w in ws ==> w.key.alg != alg
    ensures NodesOk(k, InsertAll(nodes, ws), alg, view, cells, base)
    ensures Reopening.PeaksOnly(k, nodes, alg, view, cells, base) ==>
              Reopening.PeaksOnly(k, InsertAll(nodes, ws), alg, view, cells, base)
    ensures forall since :: Lean(k, nodes, alg, view.hasher, since) ==>
            Lean(k, InsertAll(nodes, ws), alg, view.hasher, since)
  {
    hide Block, Aligned, Touched, Known, InsertAll, Masked, Frontier, Reopening.Emptied, Reopening.Inside;
    forall c: Coord
      ensures NodeKey(alg, c) in InsertAll(nodes, ws) <==> NodeKey(alg, c) in nodes
      ensures NodeKey(alg, c) in nodes ==> InsertAll(nodes, ws)[NodeKey(alg, c)] == nodes[NodeKey(alg, c)]
    {
      InsertAllGet(nodes, ws, NodeKey(alg, c));
    }
  }

  // ------------------------------------------------------------------ reading

  /** Nothing an algorithm could read is masked. */
  ghost predicate AllClear(k: Arity, algs: map<nat, AlgView>, s: State)
    requires algs.Keys <= s.members.Keys
  {
    forall id :: id in algs ==> Views.Clear(k, algs[id], s.members[id].cells)
  }

  /** For an algorithm active at the last position, the live root is the historical one. */
  lemma LiveRoot(k: Arity, view: AlgView, m: Member, n: nat)
    requires ViewOk(k, view, m.cells) && view.hasher == m.hasher && view.epochs == m.epochs && |m.cells| == n < OPEN
    requires n > 0 && ActiveAt(m.epochs, n - 1)
    ensures ComputeRoot(view, k) == RootAt(m, k, n)
  {
    hide ActiveAt, Peaks, BagPeaks;
    LiveMatchesHistorical(m.epochs, n);
  }

  /** Of these algorithms the subtrees completed by `n` read in the second store if they did in the first. */
  ghost predicate SameReads(
      k: Arity, store: Store, store': Store, algs: map<nat, AlgView>, algs': map<nat, AlgView>, n: nat)
  {
    forall id, c :: id in algs && End(k, c) <= n ==>
      id in algs' && (Readable(store'.nodes, algs'[id], id, k, c) <==> Readable(store.nodes, algs[id], id, k, c))
  }

  lemma ReadsLike(
      k: Arity, nodes: map<NodeKey, Digest>, nodes': map<NodeKey, Digest>, id: nat, view: AlgView, view': AlgView,
      c: Coord)
    requires NodeKey(id, c) in nodes' <==> NodeKey(id, c) in nodes
    requires Touched(k, view', c) <==> Touched(k, view, c)
    ensures Readable(nodes', view', id, k, c) <==> Readable(nodes, view, id, k, c)
  {
    hide Touched;
  }

  /** An append changes no read of what was complete before. */
  lemma AppendReads(
      k: Arity, store: Store, algs: map<nat, AlgView>, s: State, kind: LogKind, base: nat, item: Item,
      algs': map<nat, AlgView>, ws: seq<NodeWrite>, store': Store)
    requires Represents(k, store, algs, s, kind, base) && algs'.Keys == algs.Keys
    requires forall id :: id in algs ==> Appended(k, id, algs[id], s.members[id], item, algs'[id], ws)
    requires store' == Effect(store,
             if item.LeafItem? then AppendLeaf(s.size, item.data, ws) else AppendSubtree(s.size, ws))
    ensures SameReads(k, store, store', algs, algs', s.size)
  {
    hide Represents, AlgOk, Appended, InsertAll, Readable, Aligned, Block;
    forall id, c: Coord | id in algs && End(k, c) <= s.size
      ensures Readable(store'.nodes, algs'[id], id, k, c) <==> Readable(store.nodes, algs[id], id, k, c)
    {
      RepresentsAt(k, store, algs, s, kind, base, id);
      AppendedRead(k, store.nodes, id, algs[id], s.members[id], item, algs'[id], ws, c);
      ReadsLike(k, store.nodes, store'.nodes, id, algs[id], algs'[id], c);
    }
  }

  lemma AppendedRead(
      k: Arity, nodes: map<NodeKey, Digest>, alg: nat, view: AlgView, m: Member, item: Item, view': AlgView,
      ws: seq<NodeWrite>, c: Coord)
    requires Appended(k, alg, view, m, item, view', ws) && End(k, c) <= |m.cells|
    ensures NodeKey(alg, c) in InsertAll(nodes, ws) <==> NodeKey(alg, c) in nodes
    ensures Touched(k, view', c) <==> Touched(k, view, c)
  {
    hide InsertAll, Frontier, Peaks, Aligned, Block, Touched;
    InsertAllGet(nodes, ws, NodeKey(alg, c));
    Views.SameTouch(k, view', view, c);
  }

  /** Nor does a timeline step, of the other algorithms. */
  lemma OtherReads(
      k: Arity, store: Store, algs: map<nat, AlgView>, alg: nat, es: seq<Epoch>, ws: seq<NodeWrite>, view: AlgView,
      n: nat)
    requires forall w :: w in ws ==> w.key.alg == alg
    ensures SameReads(k, store, Updated(store, alg, es, ws), algs - {alg}, algs[alg := view], n)
  {
    hide InsertAll, Readable;
    forall id, c: Coord | id in algs && id != alg
      ensures Readable(Updated(store, alg, es, ws).nodes, algs[id], id, k, c) <==>
              Readable(store.nodes, algs[id], id, k, c)
    {
      InsertAllGet(store.nodes, ws, NodeKey(id, c));
      ReadsLike(k, store.nodes, Updated(store, alg, es, ws).nodes, id, algs[id], algs[id], c);
    }
  }

  /** Nor does freezing, of any. */
  lemma FreezeReads(k: Arity, store: Store, algs: map<nat, AlgView>, s: State, kind: LogKind, base: nat, alg: nat)
    requires Represents(k, store, algs, s, kind, base) && Enabled(s, Freeze(alg))
    ensures alg in algs
    ensures var es := CloseAt(s.members[alg].epochs, s.size);
            SameReads(k, store, Updated(store, alg, es, []), algs, algs[alg := algs[alg].(epochs := es)], s.size)
  {
    hide *;
    OpenHere(s, alg);
    RepresentsAt(k, store, algs, s, kind, base, alg);
    var m, es := s.members[alg], CloseAt(s.members[alg].epochs, s.size);
    MemberOf(k, store, alg, algs[alg], m, kind, base);
    FrozenTouch(k, algs[alg], s.size);
    SameReadsIs(k, store, Updated(store, alg, es, []), algs, algs[alg := algs[alg].(epochs := es)], s.size);
    SameNodes(store, alg, es);
    forall id, c: Coord | id in algs && End(k, c) <= s.size
      ensures Readable(store.nodes, algs[alg := algs[alg].(epochs := es)][id], id, k, c)
         <==> Readable(store.nodes, algs[id], id, k, c)
    {
      if id == alg {
        ReadsLike(k, store.nodes, store.nodes, id, algs[id], algs[id].(epochs := es), c);
      }
    }
  }

  lemma OpenHere(s: State, alg: nat)
    requires Enabled(s, Freeze(alg))
    ensures alg in s.members && IsActive(s.members[alg].epochs)
  {
  }

  lemma SameNodes(store: Store, alg: nat, es: seq<Epoch>)
    ensures Updated(store, alg, es, []).nodes == store.nodes
  {
    assert InsertAll(store.nodes, []) == store.nodes;
  }

  lemma SameReadsIs(
      k: Arity, store: Store, store': Store, algs: map<nat, AlgView>, algs': map<nat, AlgView>, n: nat)
    ensures SameReads(k, store, store', algs, algs', n) <==>
            forall id, c :: id in algs && End(k, c) <= n ==>
              id in algs' && (Readable(store'.nodes, algs'[id], id, k, c) <==>
                Readable(store.nodes, algs[id], id, k, c))
  {
    hide Readable;
  }

  /** Closing the timeline at `n` changes nothing that is touched below. */
  lemma FrozenTouch(k: Arity, view: AlgView, n: nat)
    requires WellFormed(view.epochs, n) && IsActive(view.epochs) && n < OPEN
    ensures forall c: Coord :: End(k, c) <= n ==>
              (Touched(k, view.(epochs := CloseAt(view.epochs, n)), c) <==> Touched(k, view, c))
  {
    SameBelow(view.epochs, CloseAt(view.epochs, n), n);
    hide WellFormed, ActiveAt, ActiveRange, CloseAt;
  }

  /** After a reopening: see `Reopening.ReopenedReads`. */
  lemma ReopenReads(k: Arity, store: Store, algs: map<nat, AlgView>, alg: nat, m: Member, n: nat, kind: LogKind)
    requires n <= U64_MAX
    ensures var x := Rebuilding(store, alg, m, n, kind);
            var store', view := Updated(store, alg, x.view.epochs, ReopenWrites(k, x, n)), Reopened(k, x, n);
            SameReads(k, store, store', algs - {alg}, algs[alg := view], n) &&
            forall c :: Aligned(k, c) && c.height > 0 && End(k, c) <= n && Touched(k, view, c) ==>
              (Readable(store'.nodes, view, alg, k, c) <==> Reopening.Stored(x, c) || Reopening.OpenIn(k, x, n, c))
  {
    var x := Rebuilding(store, alg, m, n, kind);
    var store', view := Updated(store, alg, x.view.epochs, ReopenWrites(k, x, n)), Reopened(k, x, n);
    ReopenKeys(k, x, n);
    OtherReads(k, store, algs, alg, x.view.epochs, ReopenWrites(k, x, n), view, n);
    hide SameReads, Readable, Aligned, Touched, InsertAll, Frontier, Reopening.ResolveAll, Reopening.OpenIn,
         Reopening.Stored;
    forall c | Aligned(k, c) && c.height > 0 && End(k, c) <= n && Touched(k, view, c)
      ensures Readable(store'.nodes, view, alg, k, c) <==> Reopening.Stored(x, c) || Reopening.OpenIn(k, x, n, c)
    {
      Reopening.ReopenedReads(k, x, n, view, c);
    }
  }

  // ------------------------------------------------------------------ seeding

  lemma {:induction false} InsertAllCongruent(
      a: map<NodeKey, Digest>, b: map<NodeKey, Digest>, ws: seq<NodeWrite>, key: NodeKey)
    requires (key in a <==> key in b) && (key in a ==> a[key] == b[key])
    ensures key in InsertAll(a, ws) <==> key in InsertAll(b, ws)
    ensures key in InsertAll(a, ws) ==> InsertAll(a, ws)[key] == InsertAll(b, ws)[key]
    decreases |ws|
  {
    if |ws| > 0 {
      InsertAllCongruent(a[ws[0].key := ws[0].hash], b[ws[0].key := ws[0].hash], ws[1..], key);
    }
  }

  ghost predicate OwnNodes(seeds: seq<AlgorithmSeed>) {
    forall i :: 0 <= i < |seeds| ==> forall w :: w in seeds[i].nodes ==> w.key.alg == seeds[i].alg
  }

  /** Seeds of other algorithms do not touch this one. */
  lemma {:induction false} SeedOthers(s: Store, seeds: seq<AlgorithmSeed>, id: nat)
    requires OwnNodes(seeds) && forall i :: 0 <= i < |seeds| ==> seeds[i].alg != id
    ensures id in SeedAll(s, seeds).metas <==> id in s.metas
    ensures id in s.metas ==> SeedAll(s, seeds).metas[id] == s.metas[id]
    ensures forall c :: NodeKey(id, c) in SeedAll(s, seeds).nodes <==> NodeKey(id, c) in s.nodes
    ensures forall c :: NodeKey(id, c) in s.nodes ==> SeedAll(s, seeds).nodes[NodeKey(id, c)] == s.nodes[NodeKey(id, c)]
    decreases |seeds|
  {
    hide InsertAll;
    if |seeds| > 0 {
      var s' := s.(metas := s.metas[seeds[0].alg := seeds[0].epochs], nodes := InsertAll(s.nodes, seeds[0].nodes));
      SeedOthers(s', seeds[1..], id);
      forall c
        ensures NodeKey(id, c) in s'.nodes <==> NodeKey(id, c) in s.nodes
        ensures NodeKey(id, c) in s.nodes ==> s'.nodes[NodeKey(id, c)] == s.nodes[NodeKey(id, c)]
      {
        InsertAllGet(s.nodes, seeds[0].nodes, NodeKey(id, c));
      }
    }
  }

  /** Each seeded algorithm ends up with its own timeline and exactly its own nodes. */
  lemma {:induction false} SeedOwn(s: Store, seeds: seq<AlgorithmSeed>, i: nat)
    requires OwnNodes(seeds) && Distinct(seeds) && i < |seeds|
    ensures var id := seeds[i].alg;
            var t := SeedAll(s, seeds);
            id in t.metas && t.metas[id] == seeds[i].epochs &&
            forall c :: (NodeKey(id, c) in t.nodes <==> NodeKey(id, c) in InsertAll(s.nodes, seeds[i].nodes)) &&
                        (NodeKey(id, c) in t.nodes ==>
                          t.nodes[NodeKey(id, c)] == InsertAll(s.nodes, seeds[i].nodes)[NodeKey(id, c)])
    decreases |seeds|
  {
    hide InsertAll;
    var id := seeds[i].alg;
    var s' := s.(metas := s.metas[seeds[0].alg := seeds[0].epochs], nodes := InsertAll(s.nodes, seeds[0].nodes));
    assert SeedAll(s, seeds) == SeedAll(s', seeds[1..]);
    if i == 0 {
      SeedOthers(s', seeds[1..], id);
    } else {
      SeedOwn(s', seeds[1..], i - 1);
      assert seeds[1..][i - 1] == seeds[i];
      forall c
        ensures NodeKey(id, c) in InsertAll(s'.nodes, seeds[i].nodes) <==>
                NodeKey(id, c) in InsertAll(s.nodes, seeds[i].nodes)
        ensures NodeKey(id, c) in InsertAll(s.nodes, seeds[i].nodes) ==>
                  InsertAll(s'.nodes, seeds[i].nodes)[NodeKey(id, c)]
                    == InsertAll(s.nodes, seeds[i].nodes)[NodeKey(id, c)]
      {
        InsertAllGet(s.nodes, seeds[0].nodes, NodeKey(id, c));
        InsertAllCongruent(s'.nodes, s.nodes, seeds[i].nodes, NodeKey(id, c));
      }
    }
  }

  lemma {:induction false} SeedKeys(s: Store, seeds: seq<AlgorithmSeed>)
    requires OwnNodes(seeds) && forall key :: key in s.nodes ==> key.alg in s.metas
    ensures forall key :: key in SeedAll(s, seeds).nodes ==> key.alg in SeedAll(s, seeds).metas
    decreases |seeds|
  {
    hide InsertAll;
    if |seeds| > 0 {
      var s' := s.(metas := s.metas[seeds[0].alg := seeds[0].epochs], nodes := InsertAll(s.nodes, seeds[0].nodes));
      WrittenKeys(s.nodes, seeds[0].nodes);
      SeedKeys(s', seeds[1..]);
    }
  }

  /** The frontier peaks a resumption persists: those its timeline touches. */
  function SeedWrites(k: Arity, alg: nat, view: AlgView, cs: seq<Coord>, peaks: seq<Digest>): seq<NodeWrite>
    requires |cs| == |peaks|
  {
    if |cs| == 0 then []
    else
      var c, last := cs[|cs| - 1], |cs| - 1;
      SeedWrites(k, alg, view, cs[..last], peaks[..last])
        + (if Touched(k, view, c) then [NodeWrite(NodeKey(alg, c), peaks[last])] else [])
  }

  lemma {:induction false} SeedWritesAre(k: Arity, alg: nat, view: AlgView, cs: seq<Coord>, cells: seq<Digest>)
    ensures forall w :: w in SeedWrites(k, alg, view, cs, BlockAll(view.hasher, k, cells, cs)) ==>
              w.key.alg == alg && w.key.at in cs && Touched(k, view, w.key.at) &&
                w.hash == Block(view.hasher, k, cells, w.key.at)
    ensures forall c :: c in cs && Touched(k, view, c) ==>
              exists w :: w in SeedWrites(k, alg, view, cs, BlockAll(view.hasher, k, cells, cs)) &&
                w.key == NodeKey(alg, c)
  {
    hide Touched, Block;
    if |cs| > 0 {
      var init, last := cs[..|cs| - 1], cs[|cs| - 1];
      assert BlockAll(view.hasher, k, cells, cs)[..|cs| - 1] == BlockAll(view.hasher, k, cells, init);
      SeedWritesAre(k, alg, view, init, cells);
      var before, all := SeedWrites(k, alg, view, init, BlockAll(view.hasher, k, cells, init)),
                         SeedWrites(k, alg, view, cs, BlockAll(view.hasher, k, cells, cs));
      assert cs == init + [last];
      forall c | c in cs && Touched(k, view, c)
        ensures exists w :: w in all && w.key == NodeKey(alg, c)
      {
        if c in init {
          var w :| w in before && w.key == NodeKey(alg, c);
          assert w in all;
        } else {
          assert NodeWrite(NodeKey(alg, c), Block(view.hasher, k, cells, c)) in all;
        }
      }
    }
  }

  /** The view a carried algorithm resumes with. */
  function CarriedView(k: Arity, m: Member, n: nat): AlgView {
    AlgView(m.hasher, m.epochs, Peaks(m.hasher, k, m.cells, n), Frontier(k, n))
  }

  function SeedOf(k: Arity, alg: nat, m: Member, n: nat): AlgorithmSeed {
    AlgorithmSeed(alg, m.epochs,
      SeedWrites(k, alg, CarriedView(k, m, n), Frontier(k, n), Peaks(m.hasher, k, m.cells, n)))
  }

  lemma SeededAlg(k: Arity, store: Store, alg: nat, m: Member, n: nat)
    requires MemberOk(m, n) && IsActive(m.epochs) && n < OPEN
    requires alg in store.metas && store.metas[alg] == m.epochs
    requires var seeded := InsertAll(map[], SeedOf(k, alg, m, n).nodes);
             forall c :: (NodeKey(alg, c) in store.nodes <==> NodeKey(alg, c) in seeded) &&
                         (NodeKey(alg, c) in store.nodes ==> store.nodes[NodeKey(alg, c)] == seeded[NodeKey(alg, c)])
    ensures AlgOk(k, store, alg, CarriedView(k, m, n), m, SubtreeKind, n)
  {
    hide Block, Aligned, Frontier, Touched, InsertAll, Anc, WellFormed;
    var view, ws := CarriedView(k, m, n), SeedOf(k, alg, m, n).nodes;
    SeedWritesAre(k, alg, view, Frontier(k, n), m.cells);
    FrontierInside(k, n);
    forall c: Coord | NodeKey(alg, c) in store.nodes
      ensures Aligned(k, c) && End(k, c) <= n && store.nodes[NodeKey(alg, c)] == Block(m.hasher, k, m.cells, c)
    {
      InsertAllGet(map[], ws, NodeKey(alg, c));
    }
    forall c: Coord | InTree(k, view, n, n, c) && MustStore(k, view, m.cells, c)
      ensures NodeKey(alg, c) in store.nodes
    {
      Reopening.KnownIsFrontier(k, n, c);
      InsertAllGet(map[], ws, NodeKey(alg, c));
      var w :| w in ws && w.key == NodeKey(alg, c);
      var i :| 0 <= i < |ws| && ws[i] == w;
    }
    SeededPeaks(k, store.nodes, alg, view, m.cells, n, ws);
  }

  /** The seeds are the touched peaks and nothing else. */
  lemma SeededPeaks(
      k: Arity, nodes: map<NodeKey, Digest>, alg: nat, view: AlgView, cells: seq<Digest>, n: nat, ws: seq<NodeWrite>)
    requires forall w :: w in ws ==> w.key.at in Frontier(k, n)
    requires forall c :: c in Frontier(k, n) && Touched(k, view, c) ==> exists w :: w in ws && w.key == NodeKey(alg, c)
    requires forall c :: NodeKey(alg, c) in nodes <==> NodeKey(alg, c) in InsertAll(map[], ws)
    ensures Reopening.PeaksOnly(k, nodes, alg, view, cells, n)
  {
    hide Frontier, Touched, InsertAll, Reopening.Emptied, Reopening.Inside, Aligned;
    forall f | f in Frontier(k, n)
      ensures Touched(k, view, f) ==> NodeKey(alg, f) in nodes
      ensures forall c: Coord :: NodeKey(alg, c) in nodes && Reopening.Inside(k, c, f) ==> c == f
    {
      InsertAllGet(map[], ws, NodeKey(alg, f));
      if Touched(k, view, f) {
        var w :| w in ws && w.key == NodeKey(alg, f);
        var i :| 0 <= i < |ws| && ws[i] == w;
      }
      Views.FrontierIncomplete(k, n, f);
      forall c: Coord | NodeKey(alg, c) in nodes && Reopening.Inside(k, c, f)
        ensures c == f
      {
        InsertAllGet(map[], ws, NodeKey(alg, c));
        Reopening.MountainOutside(k, n, c, f);
      }
    }
  }

  /** The seeds of a whole seal. */
  ghost predicate SeedsOf(k: Arity, s: State, seeds: seq<AlgorithmSeed>) {
    && Distinct(seeds)
    && (forall i :: 0 <= i < |seeds| ==>
          seeds[i].alg in s.members && IsActive(s.members[seeds[i].alg].epochs) &&
          seeds[i] == SeedOf(k, seeds[i].alg, s.members[seeds[i].alg], s.size))
  }

  lemma SeedsRepresent(k: Arity, s: State, seeds: seq<AlgorithmSeed>, algs: map<nat, AlgView>, c: State)
    requires StateOk(s) && SeedsOf(k, s, seeds) && c == Carried(s)
    requires algs.Keys == c.members.Keys
    requires forall id :: id in algs <==> exists i :: 0 <= i < |seeds| && seeds[i].alg == id
    requires forall id :: id in algs ==> algs[id] == CarriedView(k, s.members[id], s.size)
    ensures Represents(k, SeedAll(EmptyStore.(count := s.size), seeds), algs, c, SubtreeKind, s.size)
  {
    hide SeedsOf, CarriedView, AlgOk, MemberOk, SeedAll, IsActive, OwnNodes;
    var start := EmptyStore.(count := s.size);
    SeedsOwn(k, s, seeds);
    SeedKeys(start, seeds);
    SeedShape(start, seeds, algs.Keys);
    CarriedOk(s);
    hide StateOk;
    forall id | id in algs
      ensures AlgOk(k, SeedAll(start, seeds), id, algs[id], c.members[id], SubtreeKind, s.size)
    {
      SeedRepresents(k, s, seeds, id);
    }
  }

  lemma SeedShape(start: Store, seeds: seq<AlgorithmSeed>, ids: set<nat>)
    requires start.metas == map[] && forall id :: id in ids <==> exists i :: 0 <= i < |seeds| && seeds[i].alg == id
    ensures SeedAll(start, seeds).metas.Keys == ids
    ensures SeedAll(start, seeds).count == start.count && SeedAll(start, seeds).leaves == start.leaves
  {
    hide SeedAll;
    SeedAllKeys(start, seeds);
    assert ids == set i | 0 <= i < |seeds| :: seeds[i].alg;
  }

  lemma SeedRepresents(k: Arity, s: State, seeds: seq<AlgorithmSeed>, id: nat)
    requires StateOk(s) && SeedsOf(k, s, seeds) && OwnNodes(seeds)
    requires exists i :: 0 <= i < |seeds| && seeds[i].alg == id
    ensures id in s.members
    ensures AlgOk(k, SeedAll(EmptyStore.(count := s.size), seeds), id, CarriedView(k, s.members[id], s.size),
                  s.members[id], SubtreeKind, s.size)
  {
    hide CarriedView, AlgOk, MemberOk, SeedAll, SeedWrites, IsActive, OwnNodes, InsertAll;
    var i :| 0 <= i < |seeds| && seeds[i].alg == id;
    SeedOwn(EmptyStore.(count := s.size), seeds, i);
    SeededAlg(k, SeedAll(EmptyStore.(count := s.size), seeds), id, s.members[id], s.size);
  }

  lemma SeedsOwn(k: Arity, s: State, seeds: seq<AlgorithmSeed>)
    requires SeedsOf(k, s, seeds)
    ensures OwnNodes(seeds)
  {
    hide SeedWrites, Frontier, Block, IsActive;
    forall i | 0 <= i < |seeds|
      ensures forall w :: w in seeds[i].nodes ==> w.key.alg == seeds[i].alg
    {
      var m := s.members[seeds[i].alg];
      SeedWritesAre(k, seeds[i].alg, CarriedView(k, m, s.size), Frontier(k, s.size), m.cells);
    }
  }

  /** Before anything is appended the kind is not binding. */
  lemma KindAtZero(k: Arity, store: Store, algs: map<nat, AlgView>, s: State, kind: LogKind, base: nat)
    requires Represents(k, store, algs, s, kind, base) && s.size == 0
    ensures Represents(k, store, algs, s, SubtreeKind, base)
  {
    hide ViewOk, NodesOk, MemberOk;
  }
}
