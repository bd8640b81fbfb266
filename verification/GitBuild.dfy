/**
 From a batch to the next checkpoint tree: the ops are walked once, placing nodes and
 leaves; then every known algorithm's timeline and the metadata are written afresh.
 The tree that results reads as the in-memory backend does after the same batch.
 */
module GitBuild {
  import opened Base
  import opened Topology
  import opened Spine
  import opened Epochs
  import opened Storage
  import opened GitLayout
  import opened GitTree

  datatype Applied = Applied(tree: Object, count: nat, hasLeaves: bool)

  /** Writes within the program's word sizes. */
  predicate WritesFit(ws: seq<NodeWrite>) {
    forall w :: w in ws ==> Fits(NodeAt(w.key.alg, w.key.at.height, w.key.at.left))
  }

  predicate OpFits(op: WriteOp) {
    match op
    case AppendLeaf(at, _, ws) => at <= U64_MAX && WritesFit(ws)
    case AppendSubtree(at, ws) => at <= U64_MAX && WritesFit(ws)
    case AddAlgorithm(alg, _) => alg <= U64_MAX
    case RemoveAlgorithm(alg, _) => alg <= U64_MAX
    case ResumeAlgorithm(alg, _, ws) => alg <= U64_MAX && WritesFit(ws)
    case SeedFrontier(size, seeds) =>
      size <= U64_MAX && forall i :: 0 <= i < |seeds| ==> seeds[i].alg <= U64_MAX && WritesFit(seeds[i].nodes)
  }

  /** A run that never mixes leaf and subtree appends. */
  ghost predicate KindRun(s: Store, ops: seq<WriteOp>)
    decreases |ops|
  {
    |ops| > 0 && Legal(s, ops[0]) ==>
      (ops[0].AppendLeaf? ==> |s.leaves| == s.count) &&
      (ops[0].AppendSubtree? ==> s.leaves == []) &&
      KindRun(Effect(s, ops[0]), ops[1..])
  }

  /** Two trees with the same `epochs/` section and the same legacy entry, if any. */
  ghost predicate SameEpochs(t: Object, u: Object) {
    && EpochNames(t) == EpochNames(u) && FindEntry(t, "roots") == FindEntry(u, "roots")
    && forall alg: nat | Fits(EpochsOf(alg)) :: ReadKey(t, EpochsOf(alg)) == ReadKey(u, EpochsOf(alg))
  }

  lemma PutNode(s: Store, t: Object, w: NodeWrite)
    requires DataOk(s, t) && Fits(NodeAt(w.key.alg, w.key.at.height, w.key.at.left))
    ensures var t' := PutKey(t, NodeAt(w.key.alg, w.key.at.height, w.key.at.left), NodeBlob(w.hash));
            DataOk(s.(nodes := s.nodes[w.key := w.hash]), t') && SameEpochs(t, t')
  {
    hide ReadKey, PutKey, EpochNames;
    var key := NodeAt(w.key.alg, w.key.at.height, w.key.at.left);
    PutNames(t, key, NodeBlob(w.hash));
    PutLeaves(t, key, NodeBlob(w.hash));
    forall other: Key | Fits(other)
      ensures ReadKey(PutKey(t, key, NodeBlob(w.hash)), other) == if other == key then Some(NodeBlob(w.hash))
              else ReadKey(t, other)
    {
      PutReads(t, key, NodeBlob(w.hash), other);
    }
  }

  lemma PutLeaf(s: Store, t: Object, data: Bytes)
    requires DataOk(s, t) && |s.leaves| <= U64_MAX
    ensures var t' := PutKey(t, LeafAt(|s.leaves|), LeafBlob(data));
            DataOk(s.(leaves := s.leaves + [data]), t') && SameEpochs(t, t')
  {
    hide ReadKey, PutKey, EpochNames;
    var key := LeafAt(|s.leaves|);
    PutNames(t, key, LeafBlob(data));
    PutLeaves(t, key, LeafBlob(data));
    forall other: Key | Fits(other)
      ensures ReadKey(PutKey(t, key, LeafBlob(data)), other) == if other == key then Some(LeafBlob(data))
              else ReadKey(t, other)
    {
      PutReads(t, key, LeafBlob(data), other);
    }
  }

  lemma SameEpochsTrans(t: Object, u: Object, v: Object)
    requires SameEpochs(t, u) && SameEpochs(u, v)
    ensures SameEpochs(t, v)
  {
    hide ReadKey, EpochNames;
  }

  /** Writes a list of nodes, each at its own path. */
  method PutNodes(t: Object, ws: seq<NodeWrite>, ghost s: Store) returns (t': Object)
    requires DataOk(s, t) && WritesFit(ws)
    ensures DataOk(s.(nodes := InsertAll(s.nodes, ws)), t') && SameEpochs(t, t')
  {
    hide DataOk, SameEpochs, PutKey, InsertAll;
    t' := t;
    NothingInserted(s, t);
    for n := 0 to |ws|
      invariant DataOk(s.(nodes := InsertAll(s.nodes, ws[..n])), t') && SameEpochs(t, t')
    {
      assert ws[n] in ws;
      InsertOne(s.nodes, ws, n);
      ghost var before := t';
      PutNode(s.(nodes := InsertAll(s.nodes, ws[..n])), t', ws[n]);
      t' := PutKey(t', NodeAt(ws[n].key.alg, ws[n].key.at.height, ws[n].key.at.left), NodeBlob(ws[n].hash));
      SameEpochsTrans(t, before, t');
    }
    assert ws[..|ws|] == ws;
  }

  lemma NothingInserted(s: Store, t: Object)
    ensures s.(nodes := InsertAll(s.nodes, [])) == s && SameEpochs(t, t)
  {
  }

  lemma InsertOne(nodes: map<NodeKey, Digest>, ws: seq<NodeWrite>, n: nat)
    requires n < |ws|
    ensures InsertAll(nodes, ws[..n + 1]) == InsertAll(nodes, ws[..n])[ws[n].key := ws[n].hash]
    ensures ws[..0] == []
  {
    assert ws[..n + 1] == ws[..n] + [ws[n]];
    InsertAllConcat(nodes, ws[..n], [ws[n]]);
    assert [ws[n]][1..] == [];
  }

  // ------------------------------------------------------------------ the walk over the ops

  /** What the walk has gathered so far. */
  datatype Walk = Walk(tree: Object, count: nat, hasLeaves: bool, registered: set<nat>, overrides: map<nat, seq<Epoch>>)

  /** The gathered state stands for the store after the ops walked, over the store before. */
  ghost predicate Walked(old_: Store, oldTree: Object, w: Walk, s: Store) {
    && DataOk(s, w.tree) && SameEpochs(oldTree, w.tree)
    && w.count == s.count && (w.hasLeaves <==> s.leaves != [])
    && s.metas.Keys == old_.metas.Keys + w.registered && w.registered !! old_.metas.Keys
    && w.registered <= w.overrides.Keys <= s.metas.Keys
    && (forall alg :: alg in s.metas ==> alg <= U64_MAX)
    && forall alg :: alg in s.metas ==>
         s.metas[alg] == if alg in w.overrides then w.overrides[alg] else old_.metas[alg]
  }

  /** Whether the old tree already has the algorithm's entry. */
  function EpochsEntryExists(t: Object, alg: nat): bool {
    var dir := FindEntry(t, "epochs");
    dir.Some? && FindEntry(dir.value, Hex(alg, 16)).Some?
  }

  lemma EntryIsMeta(metas: map<nat, seq<Epoch>>, t: Object, alg: nat)
    requires EpochsOk(metas, t) && alg <= U64_MAX
    ensures EpochsEntryExists(t, alg) <==> alg in metas
  {
    SixteenIsWord();
    NamesParse(metas, t);
    hide Hex, Sixteen, EpochsOk, ParseHex16;
    if EpochsEntryExists(t, alg) {
      var name := Hex(alg, 16);
      assert name in EpochNames(t);
      HexInjective(alg, ParseHex16(name).value, 16) by { EpochsAreWords(metas, t); }
    }
  }

  lemma EpochsAreWords(metas: map<nat, seq<Epoch>>, t: Object)
    requires EpochsOk(metas, t)
    ensures forall alg :: alg in metas ==> alg <= U64_MAX
  {
  }

  method StageLeaf(old_: Object, w: Walk, op: WriteOp, ghost before: Store, ghost s: Store) returns (r: Option<Walk>)
    requires op.AppendLeaf? && Walked(before, old_, w, s) && OpFits(op) && (Legal(s, op) ==> |s.leaves| == s.count)
    ensures r.Some? <==> Legal(s, op)
    ensures r.Some? ==> Walked(before, old_, r.value, Effect(s, op))
  {
    hide DataOk, SameEpochs, InsertAll, PutKey;
    if op.at != w.count {
      return None;
    }
    PutLeaf(s, w.tree, op.data);
    var t := PutKey(w.tree, LeafAt(op.at), LeafBlob(op.data));
    SameEpochsTrans(old_, w.tree, t);
    var t' := PutNodes(t, op.nodes, s.(leaves := s.leaves + [op.data]));
    SameEpochsTrans(old_, t, t');
    CountIgnored(s.(leaves := s.leaves + [op.data], nodes := InsertAll(s.nodes, op.nodes)), t', s.count + 1);
    r := Some(w.(tree := t', count := w.count + 1, hasLeaves := true));
  }

  method StageResume(old_: Object, w: Walk, op: WriteOp, ghost before: Store, ghost s: Store) returns (r: Option<Walk>)
    requires op.ResumeAlgorithm? && EpochsOk(before.metas, old_) && Walked(before, old_, w, s) && OpFits(op)
    ensures r.Some? <==> Legal(s, op)
    ensures r.Some? ==> Walked(before, old_, r.value, Effect(s, op))
  {
    hide DataOk, SameEpochs, InsertAll, EpochsOk;
    EntryIsMeta(before.metas, old_, op.alg);
    if op.alg !in w.registered && !EpochsEntryExists(old_, op.alg) {
      return None;
    }
    var t' := PutNodes(w.tree, op.nodes, s);
    SameEpochsTrans(old_, w.tree, t');
    MetasIgnored(s.(nodes := InsertAll(s.nodes, op.nodes)), t', s.metas[op.alg := op.epochs]);
    r := Some(w.(tree := t', overrides := w.overrides[op.alg := op.epochs]));
  }

  /** One op, checked against what is known and then staged. */
  method StageOp(old_: Object, w: Walk, op: WriteOp, ghost before: Store, ghost s: Store) returns (r: Option<Walk>)
    requires EpochsOk(before.metas, old_) && Walked(before, old_, w, s) && OpFits(op)
    requires op.AppendLeaf? && Legal(s, op) ==> |s.leaves| == s.count
    ensures r.Some? <==> Legal(s, op)
    ensures r.Some? ==> Walked(before, old_, r.value, Effect(s, op))
  {
    hide DataOk, SameEpochs, InsertAll, EpochsOk, PutKey, SeedAll;
    match op {
      case AppendLeaf(_, _, _) =>
        r := StageLeaf(old_, w, op, before, s);
      case AppendSubtree(at, ws) =>
        if at != w.count {
          return None;
        }
        var t' := PutNodes(w.tree, ws, s);
        SameEpochsTrans(old_, w.tree, t');
        CountIgnored(s.(nodes := InsertAll(s.nodes, ws)), t', s.count + 1);
        r := Some(w.(tree := t', count := w.count + 1));
      case AddAlgorithm(alg, es) =>
        EntryIsMeta(before.metas, old_, alg);
        if alg in w.registered || EpochsEntryExists(old_, alg) {
          return None;
        }
        MetasIgnored(s, w.tree, s.metas[alg := es]);
        r := Some(w.(registered := w.registered + {alg}, overrides := w.overrides[alg := es]));
      case RemoveAlgorithm(alg, es) =>
        EntryIsMeta(before.metas, old_, alg);
        if alg !in w.registered && !EpochsEntryExists(old_, alg) {
          return None;
        }
        MetasIgnored(s, w.tree, s.metas[alg := es]);
        r := Some(w.(overrides := w.overrides[alg := es]));
      case ResumeAlgorithm(_, _, _) =>
        r := StageResume(old_, w, op, before, s);
      case SeedFrontier(size, seeds) =>
        NoNamesNoMetas(before.metas, old_);
        if w.count != 0 || w.registered != {} || EpochNames(old_) != {} {
          return None;
        }
        CountIgnored(s, w.tree, size);
        r := StageSeeds(old_, w.(count := size), seeds, before, s.(count := size));
    }
  }

  lemma CountIgnored(s: Store, t: Object, count: nat)
    requires DataOk(s, t)
    ensures DataOk(s.(count := count), t)
  {
    hide ReadKey;
  }

  lemma MetasIgnored(s: Store, t: Object, metas: map<nat, seq<Epoch>>)
    requires DataOk(s, t)
    ensures DataOk(s.(metas := metas), t)
  {
    hide ReadKey;
  }

  lemma NoNamesNoMetas(metas: map<nat, seq<Epoch>>, t: Object)
    requires EpochsOk(metas, t)
    ensures EpochNames(t) == {} <==> metas == map[]
  {
    hide Hex, ReadKey;
    NamesParse(metas, t);
    if metas != map[] {
      var alg :| alg in metas;
      assert Hex(alg, 16) in EpochNames(t);
    }
  }

  /** The seeds of a resumption, refusing an algorithm named twice. */
  method StageSeeds(old_: Object, w: Walk, seeds: seq<AlgorithmSeed>, ghost before: Store, ghost s: Store)
    returns (r: Option<Walk>)
    requires EpochsOk(before.metas, old_) && Walked(before, old_, w, s) && before.metas == map[] && w.registered == {}
    requires forall i :: 0 <= i < |seeds| ==> seeds[i].alg <= U64_MAX && WritesFit(seeds[i].nodes)
    ensures r.Some? <==> Distinct(seeds)
    ensures r.Some? ==> Walked(before, old_, r.value, SeedAll(s, seeds))
  {
    hide DataOk, SameEpochs, InsertAll, EpochsOk;
    hide Walked, SeedAll, Distinct, EpochsEntryExists;
    var walk := w;
    ghost var cur := s;
    assert seeds[0..] == seeds;
    DistinctStep(seeds, 0);
    for n := 0 to |seeds|
      invariant Walked(before, old_, walk, cur) && SeedAll(s, seeds) == SeedAll(cur, seeds[n..])
      invariant forall alg :: alg in walk.registered <==> exists i :: 0 <= i < n && seeds[i].alg == alg
      invariant Distinct(seeds[..n])
    {
      var seed := seeds[n];
      EntryIsMeta(before.metas, old_, seed.alg);
      DistinctStep(seeds, n);
      if seed.alg in walk.registered || EpochsEntryExists(old_, seed.alg) {
        return None;
      }
      SeedStep(cur, seeds, n);
      var next := StageSeed(old_, walk, seed, before, cur);
      cur := cur.(metas := cur.metas[seed.alg := seed.epochs], nodes := InsertAll(cur.nodes, seed.nodes));
      walk := next;
    }
    assert seeds[..|seeds|] == seeds && seeds[|seeds|..] == [];
    SeedNone(cur);
    r := Some(walk);
  }

  lemma SeedNone(s: Store)
    ensures SeedAll(s, []) == s
  {
  }

  lemma DistinctStep(seeds: seq<AlgorithmSeed>, n: nat)
    requires n <= |seeds|
    ensures Distinct(seeds[..0])
    ensures n < |seeds| && (exists i :: 0 <= i < n && seeds[i].alg == seeds[n].alg) ==> !Distinct(seeds)
    ensures n < |seeds| && Distinct(seeds[..n]) && !(exists i :: 0 <= i < n && seeds[i].alg == seeds[n].alg) ==>
            Distinct(seeds[..n + 1])
  {
  }

  /** One seed: registered with its timeline, and its nodes placed. */
  method StageSeed(old_: Object, w: Walk, seed: AlgorithmSeed, ghost before: Store, ghost s: Store) returns (r: Walk)
    requires Walked(before, old_, w, s) && before.metas == map[] && seed.alg <= U64_MAX && WritesFit(seed.nodes)
    requires seed.alg !in w.registered
    ensures Walked(before, old_, r,
              s.(metas := s.metas[seed.alg := seed.epochs], nodes := InsertAll(s.nodes, seed.nodes)))
    ensures r.registered == w.registered + {seed.alg}
  {
    hide DataOk, SameEpochs, InsertAll, EpochsOk;
    MetasIgnored(s, w.tree, s.metas[seed.alg := seed.epochs]);
    var t' := PutNodes(w.tree, seed.nodes, s.(metas := s.metas[seed.alg := seed.epochs]));
    SameEpochsTrans(old_, w.tree, t');
    r := w.(tree := t', registered := w.registered + {seed.alg}, overrides := w.overrides[seed.alg := seed.epochs]);
  }

  lemma SeedStep(s: Store, seeds: seq<AlgorithmSeed>, n: nat)
    requires n < |seeds|
    ensures SeedAll(s, seeds[n..]) ==
              SeedAll(s.(metas := s.metas[seeds[n].alg := seeds[n].epochs],
                nodes := InsertAll(s.nodes, seeds[n].nodes)), seeds[n + 1..])
  {
    assert seeds[n..][0] == seeds[n] && seeds[n..][1..] == seeds[n + 1..];
  }

  // ------------------------------------------------------------------ the batch

  /**
   Assembles the next tree.  It fails exactly when the in-memory backend refuses the
   batch, and otherwise holds exactly what that backend then holds.
   */
  method Apply(
      old_: Option<Object>, oldCount: nat, oldHasLeaves: bool, arity: Arity, ops: seq<WriteOp>, ghost s: Store)
    returns (r: Option<Applied>)
    requires if old_.None? then s == EmptyStore else TreeOk(s, old_.value, arity)
    requires oldCount == s.count && (oldHasLeaves <==> s.leaves != [])
    requires (forall op :: op in ops ==> OpFits(op)) && KindRun(s, ops)
    requires ApplyEach(s, ops).Some? ==> MetasOk(ApplyEach(s, ops).value)
    ensures r.Some? <==> ApplyEach(s, ops).Some?
    ensures r.Some? ==>
              var s' := ApplyEach(s, ops).value;
              TreeOk(s', r.value.tree, arity) && r.value.count == s'.count && (r.value.hasLeaves <==> s'.leaves != [])
    ensures r.Some? ==> FindEntry(r.value.tree, "roots").None?
  {
    hide DataOk, SameEpochs, EpochsOk, Legal, Effect, MetasOk, ReadKey, FindEntry;
    var root := if old_.Some? then old_.value else EmptyTree;
    EmptyOk();
    var editor := Without(root, "roots");
    WithoutOk(s, root);
    var walk := Walk(editor, oldCount, oldHasLeaves, {}, map[]);
    ghost var cur := s;
    assert ops[0..] == ops;
    assert Walked(s, editor, walk, s) by { WalkStart(s, walk); }
    for n := 0 to |ops|
      invariant Walked(s, editor, walk, cur) && KindRun(cur, ops[n..])
      invariant ApplyEach(s, ops) == ApplyEach(cur, ops[n..])
    {
      assert ops[n] in ops;
      RunStep(cur, ops, n);
      var next := StageOp(editor, walk, ops[n], s, cur);
      if next.None? {
        return None;
      }
      cur := Effect(cur, ops[n]);
      walk := next.value;
    }
    RunEnd(cur, ops);
    var applied := Finish(editor, walk, arity, s, cur);
    r := Some(applied);
  }

  lemma RunStep(s: Store, ops: seq<WriteOp>, n: nat)
    requires n < |ops| && KindRun(s, ops[n..])
    ensures Legal(s, ops[n]) ==>
              KindRun(Effect(s, ops[n]), ops[n + 1..]) &&
                ApplyEach(s, ops[n..]) == ApplyEach(Effect(s, ops[n]), ops[n + 1..]) &&
              (ops[n].AppendLeaf? ==> |s.leaves| == s.count)
    ensures !Legal(s, ops[n]) ==> ApplyEach(s, ops[n..]) == None
  {
    hide Legal, Effect;
    assert ops[n..][0] == ops[n] && ops[n..][1..] == ops[n + 1..];
  }

  lemma RunEnd(s: Store, ops: seq<WriteOp>)
    ensures ApplyEach(s, ops[|ops|..]) == Some(s)
  {
  }

  lemma EmptyOk()
    ensures DataOk(EmptyStore, EmptyTree) && EpochsOk(map[], EmptyTree)
  {
    hide Trimmed, Hex;
  }

  lemma WithoutOk(s: Store, t: Object)
    requires DataOk(s, t) && EpochsOk(s.metas, t)
    ensures DataOk(s, Without(t, "roots")) && EpochsOk(s.metas, Without(t, "roots"))
    ensures FindEntry(Without(t, "roots"), "roots").None?
  {
    hide ReadKey, Without, EpochNames;
    forall key: Key | Fits(key)
      ensures ReadKey(Without(t, "roots"), key) == ReadKey(t, key)
    {
      WithoutLookup(t, key);
    }
    WithoutLookup(t, MetaKey);
  }

  lemma WalkStart(s: Store, w: Walk)
    requires DataOk(s, w.tree) && w == Walk(w.tree, s.count, s.leaves != [], {}, map[]) && EpochsOk(s.metas, w.tree)
    ensures Walked(s, w.tree, w, s)
  {
    hide DataOk, ReadKey, EpochNames;
  }

  /** Every algorithm the old tree has an entry for. */
  method KnownAlgorithmIds(t: Object, ghost metas: map<nat, seq<Epoch>>) returns (ids: set<nat>)
    requires EpochsOk(metas, t)
    ensures ids == metas.Keys
  {
    NamesParse(metas, t);
    hide EpochsOk, EpochNames, ParseHex16, Hex;
    ids := {};
    var todo := EpochNames(t);
    while todo != {}
      invariant todo <= EpochNames(t) && ids <= metas.Keys
      invariant forall alg :: alg in metas && Hex(alg, 16) !in todo ==> alg in ids
      decreases |todo|
    {
      var name :| name in todo;
      todo := todo - {name};
      ids := ids + {ParseHex16(name).value};
    }
  }

  /** The stored timeline of an algorithm the batch does not mention. */
  method ReadStoredEpochs(t: Object, alg: nat, ghost metas: map<nat, seq<Epoch>>) returns (es: seq<Epoch>)
    requires EpochsOk(metas, t) && alg in metas && WordEpochs(metas[alg])
    ensures es == metas[alg]
  {
    hide Hex, EncodeEpochs, DecodeEpochs, ReadKey;
    NamesParse(metas, t);
    NamesPresent(metas, t);
    EntryAt(metas, t, alg);
    EpochsRoundTrip(metas[alg]);
    var blob := Entries(FindEntry(t, "epochs").value)[Hex(alg, 16)];
    es := DecodeEpochs(blob.content.data).value;
  }

  /** The entries of the algorithms in `done` are the new ones, the others still the old. */
  ghost predicate Refreshed(old_: Object, s: Store, t: Object, done: set<nat>) {
    && DataOk(s, t) && done <= s.metas.Keys && FindEntry(t, "roots") == FindEntry(old_, "roots")
    && EpochNames(t) == EpochNames(old_) + (set alg | alg in done :: Hex(alg, 16))
    && forall alg: nat | Fits(EpochsOf(alg)) ::
         ReadKey(t, EpochsOf(alg)) == if alg in done then Some(LeafBlob(EncodeEpochs(s.metas[alg])))
           else ReadKey(old_, EpochsOf(alg))
  }

  lemma RefreshStart(old_: Object, s: Store, t: Object)
    requires DataOk(s, t) && SameEpochs(old_, t)
    ensures Refreshed(old_, s, t, {})
  {
    hide ReadKey, EpochNames, Hex, DataOk;
  }

  lemma RefreshOne(old_: Object, s: Store, t: Object, done: set<nat>, alg: nat)
    requires Refreshed(old_, s, t, done) && alg in s.metas && alg <= U64_MAX
    ensures Refreshed(old_, s, PutKey(t, EpochsOf(alg), LeafBlob(EncodeEpochs(s.metas[alg]))), done + {alg})
  {
    hide ReadKey, PutKey, EpochNames, Hex, EncodeEpochs;
    var x := LeafBlob(EncodeEpochs(s.metas[alg]));
    PutNames(t, EpochsOf(alg), x);
    PutLeaves(t, EpochsOf(alg), x);
    forall other: Key | Fits(other)
      ensures ReadKey(PutKey(t, EpochsOf(alg), x), other) == if other == EpochsOf(alg) then Some(x)
              else ReadKey(t, other)
    {
      PutReads(t, EpochsOf(alg), x, other);
    }
  }

  lemma RefreshDone(old_: Object, before: Store, s: Store, t: Object, done: set<nat>)
    requires Refreshed(old_, s, t, done) && done == s.metas.Keys && EpochsOk(before.metas, old_)
    requires before.metas.Keys <= s.metas.Keys && forall alg :: alg in s.metas ==> alg <= U64_MAX
    ensures DataOk(s, t) && EpochsOk(s.metas, t) && FindEntry(t, "roots") == FindEntry(old_, "roots")
  {
    hide ReadKey, Hex, EncodeEpochs, DataOk, EpochNames;
  }

  lemma MetaPut(s: Store, t: Object, arity: Arity)
    requires DataOk(s, t) && EpochsOk(s.metas, t)
    ensures var t' := PutKey(t, MetaKey, LeafBlob(EncodeMeta(arity, s.count)));
            TreeOk(s, t', arity) && FindEntry(t', "roots") == FindEntry(t, "roots")
  {
    hide ReadKey, PutKey, EpochNames, Hex, EncodeEpochs, EncodeMeta;
    var x := LeafBlob(EncodeMeta(arity, s.count));
    PutNames(t, MetaKey, x);
    PutLeaves(t, MetaKey, x);
    forall other: Key | Fits(other)
      ensures ReadKey(PutKey(t, MetaKey, x), other) == if other == MetaKey then Some(x) else ReadKey(t, other)
    {
      PutReads(t, MetaKey, x, other);
    }
  }

  lemma WalkedMetas(before: Store, old_: Object, w: Walk, s: Store)
    requires Walked(before, old_, w, s)
    ensures DataOk(s, w.tree) && SameEpochs(old_, w.tree) && s.metas.Keys == before.metas.Keys + w.registered
    ensures before.metas.Keys <= s.metas.Keys && forall alg :: alg in s.metas ==> alg <= U64_MAX
    ensures w.count == s.count && (w.hasLeaves <==> s.leaves != [])
    ensures forall alg :: alg in s.metas && alg !in w.overrides ==>
            alg in before.metas && s.metas[alg] == before.metas[alg]
    ensures forall alg :: alg in s.metas && alg in w.overrides ==> s.metas[alg] == w.overrides[alg]
  {
    hide DataOk, SameEpochs;
  }

  lemma MetaOf(s: Store, alg: nat)
    requires MetasOk(s) && alg in s.metas
    ensures EpochsAt(s.metas[alg], s.count) == Some(s.metas[alg]) && WordEpochs(s.metas[alg])
  {
  }

  /** One algorithm's entry: its override, or what was stored, projected to the new size. */
  method RefreshAlgorithm(
      old_: Object, w: Walk, t: Object, alg: nat, ghost done: set<nat>, ghost before: Store, ghost s: Store)
    returns (t': Object)
    requires EpochsOk(before.metas, old_) && Walked(before, old_, w, s) && MetasOk(s)
    requires alg in s.metas && Refreshed(old_, s, t, done)
    ensures Refreshed(old_, s, t', done + {alg})
  {
    WalkedMetas(before, old_, w, s);
    MetaOf(s, alg);
    assert Fits(EpochsOf(alg));
    hide Refreshed, EpochsAt, EpochsOk, Walked, MetasOk, WordEpochs, PutKey, EncodeEpochs;
    var es: seq<Epoch>;
    if alg in w.overrides {
      es := w.overrides[alg];
    } else {
      es := ReadStoredEpochs(old_, alg, before.metas);
    }
    var projected := CommittedEpochs(es, w.count);
    RefreshOne(old_, s, t, done, alg);
    var blob := WriteEpochs(projected.value);
    t' := PutKey(t, EpochsOf(alg), LeafBlob(blob));
  }

  method RefreshAll(old_: Object, w: Walk, t: Object, ids: set<nat>, ghost before: Store, ghost s: Store)
    returns (t': Object, ghost done: set<nat>)
    requires EpochsOk(before.metas, old_) && Walked(before, old_, w, s) && MetasOk(s)
    requires ids == s.metas.Keys && Refreshed(old_, s, t, {})
    ensures done == s.metas.Keys && Refreshed(old_, s, t', done)
  {
    hide *;
    t', done := t, {};
    var todo := ids;
    while todo != {}
      invariant todo <= ids && done == ids - todo && Refreshed(old_, s, t', done)
      decreases |todo|
    {
      var alg :| alg in todo;
      t' := RefreshAlgorithm(old_, w, t', alg, done, before, s);
      done := done + {alg};
      todo := todo - {alg};
    }
  }

  /** The final pass: every known algorithm's projected timeline, then the metadata. */
  method Finish(old_: Object, w: Walk, arity: Arity, ghost before: Store, ghost s: Store) returns (r: Applied)
    requires EpochsOk(before.metas, old_) && Walked(before, old_, w, s) && MetasOk(s)
    ensures TreeOk(s, r.tree, arity) && r.count == s.count && (r.hasLeaves <==> s.leaves != [])
    ensures FindEntry(r.tree, "roots") == FindEntry(old_, "roots")
  {
    assert Fits(MetaKey);
    hide *;
    WalkedMetas(before, old_, w, s);
    var known := KnownAlgorithmIds(old_, before.metas);
    var t := w.tree;
    RefreshStart(old_, s, t);
    ghost var done: set<nat>;
    t, done := RefreshAll(old_, w, t, known + w.registered, before, s);
    RefreshDone(old_, before, s, t, done);
    MetaPut(s, t, arity);
    r := Applied(PutKey(t, MetaKey, LeafBlob(EncodeMeta(arity, w.count))), w.count, w.hasLeaves);
  }
}
