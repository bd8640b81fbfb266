/**
 The storage contract: one mutating entry point that commits a batch of operations
 atomically, and the in-memory backend that keeps it.
 */
module Storage {
  import opened Base
  import opened Topology
  import opened Spine
  import opened Epochs

  datatype NodeKey = NodeKey(alg: nat, at: Coord)
  datatype NodeWrite = NodeWrite(key: NodeKey, hash: Digest)
  datatype AlgorithmSeed = AlgorithmSeed(alg: nat, epochs: seq<Epoch>, nodes: seq<NodeWrite>)

  datatype WriteOp =
    | AppendLeaf(at: nat, data: Bytes, nodes: seq<NodeWrite>)
    | AppendSubtree(at: nat, nodes: seq<NodeWrite>)
    | AddAlgorithm(alg: nat, epochs: seq<Epoch>)
    | RemoveAlgorithm(alg: nat, epochs: seq<Epoch>)
    | ResumeAlgorithm(alg: nat, epochs: seq<Epoch>, nodes: seq<NodeWrite>)
    | SeedFrontier(size: nat, algorithms: seq<AlgorithmSeed>)

  /** What a backend holds. */
  datatype Store = Store(
    leaves: seq<Bytes>,
    nodes: map<NodeKey, Digest>,
    metas: map<nat, seq<Epoch>>,
    count: nat)

  const EmptyStore: Store := Store([], map[], map[], 0)

  function InsertAll(nodes: map<NodeKey, Digest>, ws: seq<NodeWrite>): map<NodeKey, Digest>
    decreases |ws|
  {
    if |ws| == 0 then nodes else InsertAll(nodes[ws[0].key := ws[0].hash], ws[1..])
  }

  predicate Distinct(seeds: seq<AlgorithmSeed>) {
    forall i, j :: 0 <= i < j < |seeds| ==> seeds[i].alg != seeds[j].alg
  }

  function SeedAll(s: Store, seeds: seq<AlgorithmSeed>): Store
    decreases |seeds|
  {
    if |seeds| == 0 then s
    else
      SeedAll(s.(metas := s.metas[seeds[0].alg := seeds[0].epochs],
                 nodes := InsertAll(s.nodes, seeds[0].nodes)), seeds[1..])
  }

  /** When one operation is legal. */
  predicate Legal(s: Store, op: WriteOp) {
    match op
    case AppendLeaf(at, _, _) => at == s.count
    case AppendSubtree(at, _) => at == s.count
    case AddAlgorithm(alg, _) => alg !in s.metas
    case RemoveAlgorithm(alg, _) => alg in s.metas
    case ResumeAlgorithm(alg, _, _) => alg in s.metas
    case SeedFrontier(_, seeds) => s.count == 0 && s.metas == map[] && Distinct(seeds)
  }

  /** What one operation does. */
  function Effect(s: Store, op: WriteOp): Store {
    match op
    case AppendLeaf(_, data, ws) =>
      s.(leaves := s.leaves + [data], nodes := InsertAll(s.nodes, ws), count := s.count + 1)
    case AppendSubtree(_, ws) => s.(nodes := InsertAll(s.nodes, ws), count := s.count + 1)
    case AddAlgorithm(alg, es) => s.(metas := s.metas[alg := es])
    case RemoveAlgorithm(alg, es) => s.(metas := s.metas[alg := es])
    case ResumeAlgorithm(alg, es, ws) =>
      s.(metas := s.metas[alg := es], nodes := InsertAll(s.nodes, ws))
    case SeedFrontier(size, seeds) => SeedAll(s.(count := size), seeds)
  }

  /** Operations committed one at a time, stopping at the first illegal one. */
  function ApplyEach(s: Store, ops: seq<WriteOp>): Option<Store>
    decreases |ops|
  {
    if |ops| == 0 then Some(s)
    else if Legal(s, ops[0]) then ApplyEach(Effect(s, ops[0]), ops[1..])
    else None
  }

  // ------------------------------------------------------------------ lookup laws

  lemma {:induction false} InsertAllConcat(nodes: map<NodeKey, Digest>, a: seq<NodeWrite>, b: seq<NodeWrite>)
    ensures InsertAll(nodes, a + b) == InsertAll(InsertAll(nodes, a), b)
    decreases |a|
  {
    if |a| == 0 {
      assert a + b == b;
    } else {
      assert (a + b)[1..] == a[1..] + b;
      InsertAllConcat(nodes[a[0].key := a[0].hash], a[1..], b);
    }
  }

  /** A key reads back a value written to it, or its old value when none was. */
  lemma {:induction false} InsertAllGet(nodes: map<NodeKey, Digest>, ws: seq<NodeWrite>, key: NodeKey)
    ensures (exists i :: 0 <= i < |ws| && ws[i].key == key) ==>
              key in InsertAll(nodes, ws) &&
              exists i :: 0 <= i < |ws| && ws[i] == NodeWrite(key, InsertAll(nodes, ws)[key])
    ensures !(exists i :: 0 <= i < |ws| && ws[i].key == key) ==>
              (key in InsertAll(nodes, ws) <==> key in nodes) &&
              (key in nodes ==> InsertAll(nodes, ws)[key] == nodes[key])
    decreases |ws|
  {
    if |ws| > 0 {
      var init, last := ws[..|ws| - 1], ws[|ws| - 1];
      assert ws == init + [last];
      InsertAllConcat(nodes, init, [last]);
      InsertAllGet(nodes, init, key);
      var before := InsertAll(nodes, init);
      assert [last][1..] == [];
      assert InsertAll(before, [last]) == before[last.key := last.hash];
      if last.key == key {
        assert ws[|ws| - 1] == NodeWrite(key, last.hash);
      } else if exists i :: 0 <= i < |ws| && ws[i].key == key {
        var i :| 0 <= i < |ws| && ws[i].key == key;
        assert init[i].key == key;
        var j :| 0 <= j < |init| && init[j] == NodeWrite(key, before[key]);
        assert ws[j] == NodeWrite(key, before[key]);
      }
    }
  }

  lemma {:induction false} SeedAllKeys(s: Store, seeds: seq<AlgorithmSeed>)
    ensures SeedAll(s, seeds).count == s.count && SeedAll(s, seeds).leaves == s.leaves
    ensures SeedAll(s, seeds).metas.Keys == s.metas.Keys + set i | 0 <= i < |seeds| :: seeds[i].alg
    decreases |seeds|
  {
    if |seeds| > 0 {
      var s' := s.(metas := s.metas[seeds[0].alg := seeds[0].epochs], nodes := InsertAll(s.nodes, seeds[0].nodes));
      SeedAllKeys(s', seeds[1..]);
      forall a
        ensures a in SeedAll(s, seeds).metas.Keys
          <==> a in s.metas.Keys + set i | 0 <= i < |seeds| :: seeds[i].alg
      {
        if i :| 0 <= i < |seeds| && seeds[i].alg == a {
          if i > 0 {
            assert seeds[1..][i - 1].alg == a;
          }
        }
        if i :| 0 <= i < |seeds| - 1 && seeds[1..][i].alg == a {
          assert seeds[i + 1].alg == a;
        }
      }
    }
  }

  // ------------------------------------------------------------------ which batches are accepted

  /** How many items a log of `count` holds after these operations: one more by each append. */
  function Counted(count: nat, ops: seq<WriteOp>): nat
    decreases |ops|
  {
    if |ops| == 0 then count
    else
      var op := ops[0];
      Counted(if op.SeedFrontier? then op.size else if op.AppendLeaf? || op.AppendSubtree? then count + 1 else count,
              ops[1..])
  }

  /** The algorithms an operation introduces. */
  function Introduced(op: WriteOp): set<nat> {
    match op
    case AddAlgorithm(alg, _) => {alg}
    case SeedFrontier(_, seeds) => set i | 0 <= i < |seeds| :: seeds[i].alg
    case _ => {}
  }

  /** The algorithm is there, or one of these operations introduces it. */
  ghost predicate IsKnown(s: Store, ops: seq<WriteOp>, alg: nat) {
    alg in s.metas || exists i :: 0 <= i < |ops| && alg in Introduced(ops[i])
  }

  /** The payloads appended, in order. */
  function Payloads(ops: seq<WriteOp>): seq<Bytes> {
    if |ops| == 0 then [] else (if ops[0].AppendLeaf? then [ops[0].data] else []) + Payloads(ops[1..])
  }

  /** What operation `n` of a batch demands, after those before it. */
  ghost predicate Fitting(s: Store, ops: seq<WriteOp>, n: nat)
    requires n < |ops|
  {
    match ops[n]
    case AppendLeaf(at, _, _) => at == Counted(s.count, ops[..n])
    case AppendSubtree(at, _) => at == Counted(s.count, ops[..n])
    case AddAlgorithm(alg, _) => !IsKnown(s, ops[..n], alg)
    case RemoveAlgorithm(alg, _) => IsKnown(s, ops[..n], alg)
    case ResumeAlgorithm(alg, _, _) => IsKnown(s, ops[..n], alg)
    case SeedFrontier(_, seeds) =>
      Counted(s.count, ops[..n]) == 0 && (forall alg :: !IsKnown(s, ops[..n], alg)) &&
      forall i, j :: 0 <= i < j < |seeds| ==> seeds[i].alg != seeds[j].alg
  }

  lemma EffectIs(s: Store, op: WriteOp)
    requires Legal(s, op)
    ensures Effect(s, op).count == Counted(s.count, [op])
    ensures Effect(s, op).metas.Keys == s.metas.Keys + Introduced(op)
    ensures Effect(s, op).leaves == s.leaves + Payloads([op])
  {
    assert [op][1..] == [];
    if op.SeedFrontier? {
      SeedAllKeys(s.(count := op.size), op.algorithms);
    }
  }

  lemma CountedOnward(count: nat, ops: seq<WriteOp>)
    requires |ops| > 0
    ensures Counted(count, ops) == Counted(Counted(count, [ops[0]]), ops[1..])
    ensures Payloads(ops) == Payloads([ops[0]]) + Payloads(ops[1..])
  {
    assert [ops[0]][1..] == [];
  }

  lemma Associate(a: seq<Bytes>, b: seq<Bytes>, c: seq<Bytes>)
    ensures a + (b + c) == a + b + c
  {
  }

  lemma IsKnownOnward(s: Store, t: Store, ops: seq<WriteOp>, alg: nat)
    requires |ops| > 0 && t.metas.Keys == s.metas.Keys + Introduced(ops[0])
    ensures IsKnown(s, ops, alg) <==> IsKnown(t, ops[1..], alg)
  {
    hide Introduced;
    if i :| 1 <= i < |ops| && alg in Introduced(ops[i]) {
      assert ops[1..][i - 1] == ops[i];
    }
    if i :| 0 <= i < |ops[1..]| && alg in Introduced(ops[1..][i]) {
      assert ops[i + 1] == ops[1..][i];
    }
    assert alg in t.metas.Keys <==> alg in s.metas.Keys || alg in Introduced(ops[0]);
  }

  /** What is there after some operations is there after the rest of them on the first one's effect. */
  lemma Onward(s: Store, ops: seq<WriteOp>)
    requires |ops| > 0 && Legal(s, ops[0])
    ensures var t := Effect(s, ops[0]);
            Counted(s.count, ops) == Counted(t.count, ops[1..]) &&
            s.leaves + Payloads(ops) == t.leaves + Payloads(ops[1..]) &&
            forall alg :: IsKnown(s, ops, alg) <==> IsKnown(t, ops[1..], alg)
  {
    var t := Effect(s, ops[0]);
    hide *;
    EffectIs(s, ops[0]);
    CountedOnward(s.count, ops);
    Associate(s.leaves, Payloads([ops[0]]), Payloads(ops[1..]));
    forall alg: nat
      ensures IsKnown(s, ops, alg) <==> IsKnown(t, ops[1..], alg)
    {
      IsKnownOnward(s, t, ops, alg);
    }
  }

  lemma FittingFirst(s: Store, ops: seq<WriteOp>)
    requires |ops| > 0
    ensures Fitting(s, ops, 0) <==> Legal(s, ops[0])
  {
    assert ops[..0] == [];
    if forall alg :: !IsKnown(s, [], alg) {
      assert s.metas == map[] by {
        assert forall alg :: alg in s.metas ==> IsKnown(s, [], alg);
      }
    }
  }

  lemma FittingOnward(s: Store, ops: seq<WriteOp>, n: nat)
    requires 0 < n < |ops| && Legal(s, ops[0])
    ensures Fitting(s, ops, n) <==> Fitting(Effect(s, ops[0]), ops[1..], n - 1)
  {
    hide Effect, IsKnown, Counted;
    assert ops[..n][1..] == ops[1..][..n - 1] && ops[..n][0] == ops[0];
    Onward(s, ops[..n]);
  }

  /** The first fits, and the rest fit what the first leaves. */
  lemma AllFitting(s: Store, ops: seq<WriteOp>)
    requires |ops| > 0 && Legal(s, ops[0])
    ensures (forall n :: 0 <= n < |ops| ==> Fitting(s, ops, n)) <==>
            forall n :: 0 <= n < |ops[1..]| ==> Fitting(Effect(s, ops[0]), ops[1..], n)
  {
    hide Fitting, Legal, Effect;
    var t, rest := Effect(s, ops[0]), ops[1..];
    if forall n :: 0 <= n < |ops| ==> Fitting(s, ops, n) {
      forall n | 0 <= n < |rest|
        ensures Fitting(t, rest, n)
      {
        FittingOnward(s, ops, n + 1);
      }
    }
    if forall n :: 0 <= n < |rest| ==> Fitting(t, rest, n) {
      forall n | 0 <= n < |ops|
        ensures Fitting(s, ops, n)
      {
        if n > 0 {
          FittingOnward(s, ops, n);
        } else {
          FittingFirst(s, ops);
        }
      }
    }
  }

  /**
   A batch is accepted exactly if every append names the position the log has reached,
   every algorithm added is new, every one removed or resumed is known, and a seed comes
   to a store without history.  Then the payloads follow those already there, in order.
   */
  lemma {:induction false} AcceptedExactly(s: Store, ops: seq<WriteOp>)
    ensures ApplyEach(s, ops).Some? <==> forall n :: 0 <= n < |ops| ==> Fitting(s, ops, n)
    ensures ApplyEach(s, ops).Some? ==>
              var t := ApplyEach(s, ops).value;
              t.count == Counted(s.count, ops) && t.leaves == s.leaves + Payloads(ops) &&
              forall alg :: alg in t.metas <==> IsKnown(s, ops, alg)
    decreases |ops|
  {
    if |ops| > 0 {
      hide Effect, Legal, Fitting, IsKnown, Counted, Payloads;
      FittingFirst(s, ops);
      if Legal(s, ops[0]) {
        AcceptedExactly(Effect(s, ops[0]), ops[1..]);
        Onward(s, ops);
        AllFitting(s, ops);
      }
    }
  }

  // ------------------------------------------------------------------ the backend

  class MemoryStorage {
    var leaves: seq<Bytes>
    var nodes: map<NodeKey, Digest>
    var metas: map<nat, seq<Epoch>>
    var count: nat

    function Contents(): Store
      reads this
    {
      Store(leaves, nodes, metas, count)
    }

    constructor ()
      ensures Contents() == EmptyStore
    {
      leaves, nodes, metas, count := [], map[], map[], 0;
    }

    method InsertNodes(ws: seq<NodeWrite>)
      modifies this`nodes
      ensures nodes == InsertAll(old(nodes), ws)
    {
      for i := 0 to |ws|
        invariant nodes == InsertAll(old(nodes), ws[..i])
      {
        assert ws[..i + 1] == ws[..i] + [ws[i]];
        InsertAllConcat(old(nodes), ws[..i], [ws[i]]);
        assert [ws[i]][1..] == [];
        nodes := nodes[ws[i].key := ws[i].hash];
      }
      assert ws[..|ws|] == ws;
    }

    /** The validation pass: every precondition against a running projection of the state. */
    method Validate(ops: seq<WriteOp>) returns (ok: bool)
      ensures ok <==> ApplyEach(Contents(), ops).Some?
    {
      var projectedCount := count;
      var registered: set<nat> := {};
      ghost var s := Contents();
      for n := 0 to |ops|
        invariant s.count == projectedCount
        invariant s.metas.Keys == metas.Keys + registered
        invariant ApplyEach(Contents(), ops) == ApplyEach(s, ops[n..])
      {
        assert ops[n..][0] == ops[n] && ops[n..][1..] == ops[n + 1..];
        match ops[n] {
          case AppendLeaf(at, _, _) =>
            if at != projectedCount {
              return false;
            }
            projectedCount := projectedCount + 1;
          case AppendSubtree(at, _) =>
            if at != projectedCount {
              return false;
            }
            projectedCount := projectedCount + 1;
          case AddAlgorithm(alg, _) =>
            if alg in registered || alg in metas {
              return false;
            }
            registered := registered + {alg};
          case RemoveAlgorithm(alg, _) =>
            if alg !in registered && alg !in metas {
              return false;
            }
          case ResumeAlgorithm(alg, _, _) =>
            if alg !in registered && alg !in metas {
              return false;
            }
          case SeedFrontier(size, seeds) =>
            if projectedCount != 0 || registered != {} || metas != map[] {
              return false;
            }
            for i := 0 to |seeds|
              invariant registered == set j | 0 <= j < i :: seeds[j].alg
              invariant Distinct(seeds[..i])
            {
              if seeds[i].alg in registered {
                var j :| 0 <= j < i && seeds[j].alg == seeds[i].alg;
                assert !Distinct(seeds);
                return false;
              }
              registered := registered + {seeds[i].alg};
            }
            assert seeds[..|seeds|] == seeds;
            SeedAllKeys(s.(count := size), seeds);
            projectedCount := size;
        }
        s := Effect(s, ops[n]);
      }
      assert ops[|ops|..] == [];
      ok := true;
    }

    /** The mutation pass for one operation. */
    method Mutate(op: WriteOp)
      modifies this
      ensures Contents() == Effect(old(Contents()), op)
    {
      match op {
        case AppendLeaf(_, data, ws) =>
          leaves := leaves + [data];
          InsertNodes(ws);
          count := count + 1;
        case AppendSubtree(_, ws) =>
          InsertNodes(ws);
          count := count + 1;
        case AddAlgorithm(alg, es) =>
          metas := metas[alg := es];
        case RemoveAlgorithm(alg, es) =>
          metas := metas[alg := es];
        case ResumeAlgorithm(alg, es, ws) =>
          metas := metas[alg := es];
          InsertNodes(ws);
        case SeedFrontier(size, seeds) =>
          count := size;
          for i := 0 to |seeds|
            invariant SeedAll(old(Contents()).(count := size), seeds) == SeedAll(Contents(), seeds[i..])
          {
            assert seeds[i..][0] == seeds[i] && seeds[i..][1..] == seeds[i + 1..];
            metas := metas[seeds[i].alg := seeds[i].epochs];
            InsertNodes(seeds[i].nodes);
          }
      }
    }

    /**
     Commits a batch.  `fault` stands for a backend failure, which may strike any call
     and leaves the store as it was.
     */
    method Apply(ops: seq<WriteOp>, fault: bool) returns (ok: bool)
      modifies this
      ensures ok <==> !fault && ApplyEach(old(Contents()), ops).Some?
      ensures ok ==> Contents() == ApplyEach(old(Contents()), ops).value
      ensures !ok ==> Contents() == old(Contents())
    {
      if fault {
        return false;
      }
      ok := Validate(ops);
      if ok {
        for n := 0 to |ops|
          invariant ApplyEach(old(Contents()), ops) == ApplyEach(Contents(), ops[n..])
          invariant ApplyEach(Contents(), ops[n..]).Some?
        {
          assert ops[n..][0] == ops[n] && ops[n..][1..] == ops[n + 1..];
          Mutate(ops[n]);
        }
        assert ops[|ops|..] == [];
      }
    }
  }
}
