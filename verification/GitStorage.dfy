/**
 The git backend: applying batches under a compare-and-swap of the staging ref, making
 them durable, and recovering.  Once a checkpoint has returned, whatever power loss
 follows, reopening yields the state it returned for or a later applied one, complete.
 */
module GitStore {
  import opened Base
  import opened Spine
  import opened Epochs
  import opened Storage
  import opened GitLayout
  import opened GitTree
  import opened GitBuild
  import opened GitCheckpoint
  import opened GitRuns
  import Topology

  datatype Error =
    | InvalidArity
    | InvalidOperation
    | TipMoved
    | RefUpdateTransient
    | Corruption
    | SyncFailed
    | NoDurableState

  datatype Result<+T> = Ok(value: T) | Err(error: Error)

  datatype Newest = Newest(generation: nat, snap: Snap)

  /** What listing the checkpoints must find. */
  ghost predicate IsNewest(d: Disk, h: History, newest: Option<Newest>) {
    match newest
    case None => forall g: nat :: !Listed(d, g)
    case Some(n) =>
      && Listed(d, n.generation) && (forall g: nat :: Listed(d, g) ==> g <= n.generation)
      && n.generation in h.place && h.place[n.generation] < |h.trees| == |h.stores|
      && n.snap.tree == h.trees[h.place[n.generation]] && n.snap.tree.Tree?
      && n.snap.count == h.stores[h.place[n.generation]].count
      && (n.snap.hasLeaves <==> h.stores[h.place[n.generation]].leaves != [])
  }

  /** The checkpoints read so far: the newest of those not in `todo`. */
  ghost predicate Scanned(d: Disk, k: Arity, newest: Option<Newest>, todo: set<nat>) {
    match newest
    case None => forall g: nat :: Listed(d, g) ==> g in todo
    case Some(n) =>
      && Listed(d, n.generation) && (forall g: nat :: Listed(d, g) && g !in todo ==> g <= n.generation)
      && ReadSnap(d.objects, d.ckpts[n.generation].now, k) == Good(n.snap)
  }

  /** The listed checkpoints, by generation: the last one, which is the newest valid one. */
  method ListCkpts(d: Disk, k: Arity, ghost h: History) returns (r: Result<Option<Newest>>)
    requires Safe(d, h, -1, k)
    ensures r.Ok?
    ensures IsNewest(d, h, r.value)
  {
    hide Reachable, TreeOk, Safe, CkptOk, ReadSnap;
    var newest: Option<Newest> := None;
    var todo := d.ckpts.Keys;
    while todo != {}
      invariant todo <= d.ckpts.Keys && Scanned(d, k, newest, todo)
      decreases |todo|
    {
      var g :| g in todo;
      todo := todo - {g};
      if d.ckpts[g].now.Points? {
        ListedReads(d, h, -1, k, g);
        match ReadSnap(d.objects, d.ckpts[g].now, k)
        case Good(snap) =>
          if newest.None? || g > newest.value.generation {
            newest := Some(Newest(g, snap));
          }
        case WrongArity => return Err(InvalidArity);
        case _ =>
      }
    }
    ScannedAll(d, k, newest, h);
    r := Ok(newest);
  }

  lemma ScannedAll(d: Disk, k: Arity, newest: Option<Newest>, h: History)
    requires Safe(d, h, -1, k) && Scanned(d, k, newest, {})
    ensures IsNewest(d, h, newest)
  {
    SafeBound(d, h, -1, k);
    hide Reachable, TreeOk, Safe, CkptOk, ReadSnap;
    if newest.Some? {
      ListedReads(d, h, -1, k, newest.value.generation);
    }
  }

  /** What an instance remembers of the tip it observed. */
  ghost predicate TipCached(
      tip: Option<Object>, count: nat, hasLeaves: bool, trees: seq<Object>, stores: seq<Store>, at: nat)
  {
    match tip
    case None => count == 0 && !hasLeaves
    case Some(t) =>
      at < |trees| == |stores| && trees[at] == t && count == stores[at].count &&
        (hasLeaves <==> stores[at].leaves != [])
  }

  /** The checkpoints listed before generation `next`, all but the newest of them. */
  function Older(d: Disk, newest: Option<Newest>, next: nat): set<nat> {
    set g | g in d.ckpts && d.ckpts[g].now.Points? && g < next && !(newest.Some? && g == newest.value.generation)
  }

  lemma OlderBelow(d: Disk, newest: Option<Newest>, next: nat)
    ensures Older(d, newest, next) <= d.ckpts.Keys && forall g :: g in Older(d, newest, next) ==> g < next
  {
  }

  class GitStorage {
    const repo: Repo
    const arity: Arity
    var observedTip: Option<Object>
    var count: nat
    var hasLeaves: bool
    /** The states applied, and which of them this instance is at. */
    ghost var h: History
    ghost var at: nat

    ghost function W(): World
      reads this, repo
    {
      World(repo.disk, h, if observedTip.None? then Fresh else At(at))
    }

    /** What the in-memory backend would hold. */
    ghost function Current(): Store
      reads this
      requires observedTip.Some? ==> at < |h.stores|
    {
      if observedTip.None? then EmptyStore else h.stores[at]
    }

    ghost predicate Valid()
      reads this, repo
    {
      Sound(W(), -1, arity) && TipCached(observedTip, count, hasLeaves, h.trees, h.stores, at)
    }

    constructor (
        repo: Repo, arity: Arity, tip: Option<Object>, count: nat, hasLeaves: bool, ghost h: History, ghost at: nat)
      ensures this.repo == repo && this.arity == arity && observedTip == tip && this.count == count
      ensures this.hasLeaves == hasLeaves && this.h == h && this.at == at
    {
      this.repo, this.arity, observedTip, this.count, this.hasLeaves := repo, arity, tip, count, hasLeaves;
      this.h, this.at := h, at;
    }

    lemma WIs()
      ensures W() == World(repo.disk, h, if observedTip.None? then Fresh else At(at))
    {
    }

    /** The parts of validity, and what they say of the tip. */
    lemma Parts()
      requires Valid()
      ensures Sound(W(), -1, arity) && TipCached(observedTip, count, hasLeaves, h.trees, h.stores, at)
      ensures Safe(repo.disk, h, -1, arity)
      ensures observedTip.Some? ==>
                at < |h.trees| == |h.stores| && h.trees[at] == observedTip.value && observedTip.value.Tree? &&
                TreeOk(h.stores[at], observedTip.value, arity) && h.stores[at].count <= U64_MAX
      ensures observedTip.Some? ==> Placing(W()) && Tip(W()) == observedTip.value
      ensures ReachableOf(observedTip) <= repo.disk.objects && |h.trees| == |h.stores|
      ensures repo.disk.staging.now == if observedTip.None? then Absent else Points(observedTip.value)
    {
      hide TreeOk, Reachable, CkptOk, NoOlder, Alive;
      if observedTip.Some? {
        MetaEntry(h.stores[at], observedTip.value, arity);
      }
    }

    lemma CurrentIs()
      requires TipCached(observedTip, count, hasLeaves, h.trees, h.stores, at)
      ensures observedTip.Some? ==> at < |h.stores|
      ensures count == Current().count && (hasLeaves <==> Current().leaves != [])
      ensures Current() == if observedTip.None? then EmptyStore else h.stores[at]
      ensures observedTip.None? ==> count == 0
    {
    }

    lemma ValidIs(w: World, es: seq<Event>)
      requires Sound(w, -1, arity) && Runs(w, es, W(), arity)
      requires TipCached(observedTip, count, hasLeaves, h.trees, h.stores, at)
      ensures Valid()
    {
      hide Sound, EnabledAll, AfterAll, TipCached;
      RunGood(w, es, -1, arity);
    }

    /**
     Applies one batch: builds the next tree, writes what is new in it, then moves the
     staging ref.  It syncs nothing.
     */
    method Apply(ops: seq<WriteOp>, fault: bool) returns (r: Result<()>, ghost es: seq<Event>)
      requires Valid() && (observedTip.Some? ==> at < |h.stores|)
      requires (forall op :: op in ops ==> OpFits(op)) && KindRun(Current(), ops)
      requires ApplyEach(Current(), ops).Some? ==>
                 MetasOk(ApplyEach(Current(), ops).value) && ApplyEach(Current(), ops).value.count <= U64_MAX
      modifies this, repo
      ensures Valid() && Runs(old(W()), es, W(), arity) && (observedTip.Some? ==> at < |h.stores|)
      ensures r.Ok? <==> !fault && ApplyEach(old(Current()), ops).Some?
      ensures r.Err? ==>
                r.error == if ApplyEach(old(Current()), ops).None? then InvalidOperation else RefUpdateTransient
      ensures r.Ok? ==>
                observedTip.Some? && Current() == ApplyEach(old(Current()), ops).value &&
                h == Extend(old(h), observedTip.value, Current()) && at == |old(h).trees| &&
                repo.disk.staging == Written(old(repo.disk).staging, Points(observedTip.value))
      ensures r.Err? ==>
                observedTip == old(observedTip) && h == old(h) && at == old(at) &&
                  repo.disk.staging == old(repo.disk).staging
      ensures repo.disk.ckpts == old(repo.disk).ckpts && repo.disk.durable == old(repo.disk).durable
    {
      Parts();
      CurrentIs();
      ghost var s, w := Current(), W();
      hide *;
      var built := GitBuild.Apply(observedTip, count, hasLeaves, arity, ops, s);
      if built.None? {
        RunsNone(w, arity);
        return Err(InvalidOperation), [];
      }
      var t := built.value.tree;
      es := WriteNew(t);
      if fault || repo.disk.staging.now != (if observedTip.None? then Absent else Points(observedTip.value)) {
        return Err(if fault then RefUpdateTransient else TipMoved), es;
      }
      ghost var s', middle := ApplyEach(s, ops).value, W();
      MoveTo(built.value, s');
      RunsConcat(w, es, middle, [MoveStaging(t, s')], W(), arity);
      es := es + [MoveStaging(t, s')];
      r := Ok(());
    }

    /** The compare-and-swap of the staging ref, and the new tip remembered. */
    method MoveTo(a: Applied, ghost s: Store)
      requires Valid() && TreeOk(s, a.tree, arity) && a.count == s.count <= U64_MAX && (a.hasLeaves <==> s.leaves != [])
      requires Reachable(a.tree) <= repo.disk.objects
      modifies this, repo
      ensures Valid() && Runs(old(W()), [MoveStaging(a.tree, s)], W(), arity)
      ensures observedTip == Some(a.tree) && h == Extend(old(h), a.tree, s) && at == |old(h).trees|
      ensures at < |h.stores| && h.stores[at] == s
      ensures repo.disk == old(repo.disk).(staging := Written(old(repo.disk).staging, Points(a.tree)))
    {
      Parts();
      hide *;
      WIs();
      ghost var w := W();
      MoveIs(w, a.tree, s, arity);
      RunOneIs(w, MoveStaging(a.tree, s), arity);
      MovedCached(h, a.tree, s, a.count, a.hasLeaves);
      repo.SetStaging(Points(a.tree));
      h, at := Extend(h, a.tree, s), |h.trees|;
      observedTip, count, hasLeaves := Some(a.tree), a.count, a.hasLeaves;
      WIs();
      ValidIs(w, [MoveStaging(a.tree, s)]);
    }

    /** Writes the objects of the new tree that differ from the tip's; with the tip's own they are all it names. */
    method WriteNew(t: Object) returns (ghost es: seq<Event>)
      requires Valid()
      modifies repo
      ensures Valid() && Runs(old(W()), es, W(), arity) && Reachable(t) <= repo.disk.objects
      ensures repo.disk == old(repo.disk).(objects := repo.disk.objects)
    {
      ChangedCovers(t, observedTip);
      Parts();
      hide *;
      ghost var w, before := W(), repo.disk;
      es := [];
      RunsNone(w, arity);
      var todo := Changed(t, observedTip);
      while todo != {}
        invariant Runs(w, es, W(), arity)
        invariant repo.disk == before.(objects := repo.disk.objects)
        invariant before.objects <= repo.disk.objects && Changed(t, observedTip) - todo <= repo.disk.objects
        decreases |todo|
      {
        var o :| o in todo;
        WIs();
        WriteIs(W(), o, arity);
        RunsSnoc(w, es, W(), WriteObject(o), arity);
        es := es + [WriteObject(o)];
        repo.WriteObject(o);
        WIs();
        todo := todo - {o};
      }
      ValidIs(w, es);
    }

    /**
     Makes everything applied durable: objects first, then staging, then a new checkpoint
     ref.  It returns exactly if there is nothing to do, or no write fails and the next
     generation is free.  Where it returns for a state (place `p`), that state or a later
     one is found in every run from there, unless, and only unless, the newest checkpoint
     already named the tip and its ref was never synced.  Deleting a ref in `stuck` fails,
     which it ignores.
     */
    method Checkpoint(fault: Fault, stuck: set<nat>) returns (r: Result<nat>, ghost es: seq<Event>, ghost p: nat)
      requires Valid()
      modifies this`h, repo
      ensures Valid() && Runs(old(W()), es, W(), arity)
      ensures h.trees == old(h).trees && h.stores == old(h).stores
      ensures r.Ok? <==> observedTip.None? || NamesTip(old(W())) || (fault == NoFault && !Blocked(old(repo.disk)))
      ensures r.Ok? ==> r.value == count
      ensures r.Err? ==>
                r.error == if fault == FailRef || fault == NoFault || (fault == FailCkpt && Blocked(old(repo.disk)))
                           then RefUpdateTransient else SyncFailed
      ensures observedTip.None? || NamesTip(old(W())) ==> es == []
      ensures r.Ok? && observedTip.Some? ==>
                NamesTip(W()) && p <= at < |h.trees| && h.trees[p] == observedTip.value
      ensures r.Ok? && observedTip.Some? ==>
                (Durable(W(), p, arity) <==> !(NamesTip(old(W())) && !NewestSynced(old(repo.disk))))
      ensures r.Ok? && observedTip.Some? && !NamesTip(old(W())) ==>
                p == at && LastKeptAt(W(), at) && LeavesTwo(old(W()), W(), stuck)
      ensures NextOnly(old(repo.disk), repo.disk) && (r.Err? ==> RefsStay(old(W()), W()))
      ensures if fault == FailCkpt && observedTip.Some? && !NamesTip(old(W())) && !Blocked(old(repo.disk))
              then NamesTip(W()) && NewestCreated(repo.disk)
              else NewestSynced(old(repo.disk)) ==> NewestSynced(repo.disk)
    {
      hide *;
      p, es := at, [];
      Parts();
      CurrentIs();
      WIs();
      RunsNone(W(), arity);
      SameStays(W(), W());
      if observedTip.None? {
        return Ok(0), es, p;
      }
      var tip := observedTip.value;
      ReachableSome(tip);
      BuiltReads(Current(), tip, arity, repo.disk.objects);
      match ReadSnap(repo.disk.objects, repo.disk.staging.now, arity) {
        case Good(s) =>
          if s.tree != tip {
            return Err(TipMoved), es, p;
          }
        case _ => return Err(TipMoved), es, p;
      }
      r, es, p := CheckpointTip(tip, fault, stuck);
    }

    /** With staging at the tip: the newest checkpoint names it already, or a new one is made. */
    method CheckpointTip(tip: Object, fault: Fault, stuck: set<nat>)
      returns (r: Result<nat>, ghost es: seq<Event>, ghost p: nat)
      requires Valid() && observedTip == Some(tip)
      modifies this`h, repo
      ensures Valid() && Runs(old(W()), es, W(), arity)
      ensures h.trees == old(h).trees && h.stores == old(h).stores
      ensures r.Ok? <==> NamesTip(old(W())) || (fault == NoFault && !Blocked(old(repo.disk)))
      ensures r.Ok? ==> r.value == count
      ensures r.Err? ==>
                r.error == if fault == FailRef || fault == NoFault || (fault == FailCkpt && Blocked(old(repo.disk)))
                           then RefUpdateTransient else SyncFailed
      ensures NamesTip(old(W())) ==> es == []
      ensures r.Ok? ==> NamesTip(W()) && p <= at < |h.trees| && h.trees[p] == tip
      ensures r.Ok? ==> (Durable(W(), p, arity) <==> !(NamesTip(old(W())) && !NewestSynced(old(repo.disk))))
      ensures r.Ok? && !NamesTip(old(W())) ==> p == at && LastKeptAt(W(), at) && LeavesTwo(old(W()), W(), stuck)
      ensures NextOnly(old(repo.disk), repo.disk) && (r.Err? ==> RefsStay(old(W()), W()))
      ensures if fault == FailCkpt && !NamesTip(old(W())) && !Blocked(old(repo.disk))
              then NamesTip(W()) && NewestCreated(repo.disk)
              else NewestSynced(old(repo.disk)) ==> NewestSynced(repo.disk)
    {
      p := at;
      Parts();
      hide *;
      var listed := ListCkpts(repo.disk, arity, h);
      var newest := listed.value;
      NamesTipIs(W(), newest, arity);
      if newest.Some? && newest.value.snap.tree == tip {
        RunsNone(W(), arity);
        SameStays(W(), W());
        p := EarlyReturn(W(), newest.value, arity);
        return Ok(count), [], p;
      }
      r, es := Advance(newest, tip, fault, stuck);
      if r.Ok? {
        Parts();
        Returned(W(), arity);
      }
    }

    /** The durable part of a checkpoint: objects, staging, the new ref, and then the old ones go. */
    method Advance(newest: Option<Newest>, tip: Object, fault: Fault, stuck: set<nat>)
      returns (r: Result<nat>, ghost es: seq<Event>)
      requires Valid() && observedTip == Some(tip) && IsNewest(repo.disk, h, newest) && !NamesTip(W())
      modifies this`h, repo
      ensures Valid() && Runs(old(W()), es, W(), arity) && h.trees == old(h).trees && h.stores == old(h).stores
      ensures r.Ok? <==> fault == NoFault && !Blocked(old(repo.disk))
      ensures r.Err? ==>
                r.error == if fault == FailRef || fault == NoFault || (fault == FailCkpt && Blocked(old(repo.disk)))
                           then RefUpdateTransient else SyncFailed
      ensures r.Ok? ==> r.value == count && LastKeptAt(W(), at) && LeavesTwo(old(W()), W(), stuck)
      ensures NextOnly(old(repo.disk), repo.disk) && (r.Err? ==> RefsStay(old(W()), W()))
      ensures if fault == FailCkpt && !Blocked(old(repo.disk)) then NamesTip(W()) && NewestCreated(repo.disk)
              else NewestSynced(old(repo.disk)) ==> NewestSynced(repo.disk)
    {
      hide *;
      Parts();
      WIs();
      ReachableSome(tip);
      ghost var w := W();
      var base := if newest.Some? then Some(newest.value.snap.tree) else None;
      var next := if newest.None? then 1 else newest.value.generation + 1;
      BaseDurable(w, newest, arity);
      RunsNone(w, arity);
      SameStays(w, w);
      var delta := ChangedObjects(repo.disk.objects, tip, base);
      if delta.None? || fault == FailObjects {
        return Err(if delta.None? then Corruption else SyncFailed), [];
      }
      es := SyncBoth(tip, base, delta.value, fault == FailStaging);
      SameListing(w.d, repo.disk);
      WIs();
      SameStays(w, W());
      SameNewest(w.d, repo.disk, h, newest);
      if fault == FailStaging {
        return Err(SyncFailed), es;
      }
      ghost var middle, more := W(), [];
      r, more := AdvanceRef(newest, next, tip, fault, stuck);
      WIs();
      RunsConcat(w, es, middle, more, W(), arity);
      StaysOver(w, middle, W());
      es := es + more;
    }

    /** The rest of it, once the tip and staging are durable. */
    method AdvanceRef(newest: Option<Newest>, next: nat, tip: Object, fault: Fault, stuck: set<nat>)
      returns (r: Result<nat>, ghost es: seq<Event>)
      requires Valid() && observedTip == Some(tip) && NextGen(repo.disk, next) && !NamesTip(W())
      requires Reachable(tip) <= repo.disk.durable && repo.disk.staging.maybe == {Points(tip)}
      requires IsNewest(repo.disk, h, newest)
      requires fault != FailObjects && fault != FailStaging
      modifies this`h, repo
      ensures Valid() && Runs(old(W()), es, W(), arity) && h.trees == old(h).trees && h.stores == old(h).stores
      ensures r.Ok? <==> fault == NoFault && !Blocked(old(repo.disk))
      ensures r.Err? ==>
                r.error == if fault == FailRef || fault == NoFault || (fault == FailCkpt && Blocked(old(repo.disk)))
                           then RefUpdateTransient else SyncFailed
      ensures r.Ok? ==> r.value == count && LastKeptAt(W(), at) && LeavesTwo(old(W()), W(), stuck)
      ensures NextOnly(old(repo.disk), repo.disk) && (r.Err? ==> RefsStay(old(W()), W()))
      ensures if fault == FailCkpt && !Blocked(old(repo.disk)) then NamesTip(W()) && NewestCreated(repo.disk)
              else NewestSynced(old(repo.disk)) ==> NewestSynced(repo.disk)
    {
      hide *;
      RunsNone(W(), arity);
      SameStays(W(), W());
      WIs();
      BlockedIs(repo.disk, next);
      if fault == FailRef || !Free(repo.disk, next) {
        return Err(RefUpdateTransient), [];
      }
      es := CreateAndPrune(newest, next, tip, fault == FailCkpt, stuck);
      r := if fault == FailCkpt then Err(SyncFailed) else Ok(count);
    }

    /** The new ref, and once it is synced, the older ones go. */
    method CreateAndPrune(newest: Option<Newest>, next: nat, tip: Object, fail: bool, stuck: set<nat>)
      returns (ghost es: seq<Event>)
      requires Valid() && observedTip == Some(tip) && NextGen(repo.disk, next) && Free(repo.disk, next) &&
               !NamesTip(W())
      requires Reachable(tip) <= repo.disk.durable && repo.disk.staging.maybe == {Points(tip)}
      requires IsNewest(repo.disk, h, newest)
      modifies this`h, repo
      ensures Valid() && Runs(old(W()), es, W(), arity) && h.trees == old(h).trees && h.stores == old(h).stores
      ensures !fail ==> LeavesTwo(old(W()), W(), stuck)
      ensures if fail then NamesTip(W()) && NewestCreated(repo.disk) else LastKeptAt(W(), at) && NewestSynced(repo.disk)
      ensures NextOnly(old(repo.disk), repo.disk) && (fail ==> RefsStay(old(W()), W()))
    {
      hide *;
      WIs();
      ghost var w := W();
      PlacedIs(h, next, at);
      es := Publish(next, tip, fail);
      NextKeys(w.d, repo.disk, next);
      if !fail {
        WIs();
        ghost var middle := W();
        ghost var more := Prune(newest, next, stuck);
        RunsConcat(w, es, middle, more, W(), arity);
        es := es + more;
        NextKeys(w.d, repo.disk, next);
        WIs();
        NewestLeft(w, middle, W(), newest, next, stuck);
      }
    }

    /** The tip's objects, then the staging ref, made durable. */
    method SyncBoth(tip: Object, base: Option<Object>, delta: set<Object>, failStaging: bool)
      returns (ghost es: seq<Event>)
      requires Valid() && delta == Changed(tip, base) <= repo.disk.objects && ReachableOf(base) <= repo.disk.durable
      requires observedTip == Some(tip)
      modifies repo
      ensures Valid() && Runs(old(W()), es, W(), arity) && Reachable(tip) <= repo.disk.durable
      ensures repo.disk.ckpts == old(repo.disk).ckpts && repo.disk.tornTaken == old(repo.disk).tornTaken
      ensures !failStaging ==> repo.disk.staging.maybe == {Points(tip)}
    {
      hide *;
      ghost var w := W();
      es := SyncTip(tip, base, delta);
      if !failStaging {
        Parts();
        SyncedIs(repo.disk.staging);
        ghost var middle := W();
        ghost var more := SyncStagingRef();
        RunsConcat(w, es, middle, more, W(), arity);
        es := es + more;
      }
    }

    /** Syncs every object of the delta: with the newest checkpoint's own, all the tip names. */
    method SyncTip(tip: Object, base: Option<Object>, delta: set<Object>) returns (ghost es: seq<Event>)
      requires Valid() && delta == Changed(tip, base) <= repo.disk.objects && ReachableOf(base) <= repo.disk.durable
      modifies repo
      ensures Valid() && Runs(old(W()), es, W(), arity) && Reachable(tip) <= repo.disk.durable
      ensures repo.disk == old(repo.disk).(durable := repo.disk.durable)
    {
      ChangedCovers(tip, base);
      Parts();
      hide *;
      ghost var w, before := W(), repo.disk;
      es := [];
      RunsNone(w, arity);
      var todo := delta;
      while todo != {}
        invariant todo <= delta && Runs(w, es, W(), arity)
        invariant repo.disk == before.(durable := repo.disk.durable)
        invariant before.durable <= repo.disk.durable && delta - todo <= repo.disk.durable
        decreases |todo|
      {
        var o :| o in todo;
        WIs();
        SyncIs(W(), o, arity);
        RunsSnoc(w, es, W(), Event.SyncObject(o), arity);
        es := es + [Event.SyncObject(o)];
        repo.SyncObject(o);
        WIs();
        todo := todo - {o};
      }
      ValidIs(w, es);
    }

    method SyncStagingRef() returns (ghost es: seq<Event>)
      requires Valid()
      modifies repo
      ensures Valid() && Runs(old(W()), es, W(), arity)
      ensures repo.disk == old(repo.disk).(staging := Synced(old(repo.disk).staging))
    {
      Parts();
      hide *;
      WIs();
      ghost var w := W();
      RunsNone(w, arity);
      SyncStagingIs(w, arity);
      RunsSnoc(w, [], w, Event.SyncStaging, arity);
      es := [] + [Event.SyncStaging];
      repo.SyncStaging();
      WIs();
      ValidIs(w, es);
    }

    /** Creates the checkpoint ref and syncs it. */
    method Publish(next: nat, tip: Object, fail: bool) returns (ghost es: seq<Event>)
      requires Valid() && observedTip == Some(tip) && NextGen(repo.disk, next) && Free(repo.disk, next) &&
               !NamesTip(W())
      requires Reachable(tip) <= repo.disk.durable && repo.disk.staging.maybe == {Points(tip)}
      modifies this`h, repo
      ensures Valid() && Runs(old(W()), es, W(), arity) && h == Placed(old(h), next, at)
      ensures NamesTip(W()) && Last(repo.disk, next) && RefsStay(old(W()), W())
      ensures repo.disk.ckpts.Keys == old(repo.disk).ckpts.Keys + {next}
      ensures repo.disk.ckpts == old(repo.disk).ckpts[next := repo.disk.ckpts[next]]
      ensures fail ==> NewestCreated(repo.disk)
      ensures !fail ==>
                Kept(repo.disk, h, next) && h.place[next] == at &&
                repo.disk.ckpts[next].maybe == {repo.disk.ckpts[next].now}
    {
      Parts();
      WIs();
      ghost var w := W();
      es := PublishRun(w, next, tip, fail, arity);
      hide *;
      PlacedIs(h, next, at);
      WriteRef(next, tip, fail);
      h := Placed(h, next, at);
      WIs();
      ValidIs(w, es);
    }

    method WriteRef(next: nat, tip: Object, fail: bool)
      requires Free(repo.disk, next)
      modifies repo
      ensures repo.disk == old(repo.disk).(ckpts := old(repo.disk).ckpts[next := if fail then Created(tip)
              else Synced(Created(tip))])
    {
      repo.CreateCkpt(next, tip);
      if !fail {
        repo.SyncCkpt(next);
      }
      assert repo.disk.ckpts == old(repo.disk).ckpts[next := if fail then Created(tip) else Synced(Created(tip))];
    }

    /** Drops the checkpoints listed before, all but the newest of them, where the deletion goes through. */
    method Prune(newest: Option<Newest>, next: nat, stuck: set<nat>) returns (ghost es: seq<Event>)
      requires Valid() && observedTip.Some? && Last(repo.disk, next) && Kept(repo.disk, h, next) && h.place[next] == at
      requires repo.disk.ckpts[next].maybe == {repo.disk.ckpts[next].now}
      modifies repo
      ensures Valid() && Runs(old(W()), es, W(), arity) && LastKeptAt(W(), at) && NewestSynced(repo.disk)
      ensures repo.disk.ckpts.Keys == old(repo.disk).ckpts.Keys
      ensures NewestOnly(old(repo.disk), repo.disk, newest, next, stuck)
    {
      hide *;
      Parts();
      WIs();
      KeptThere(repo.disk, h, next);
      OlderBelow(repo.disk, newest, next);
      ghost var w, older := W(), Older(repo.disk, newest, next) - stuck;
      es := [];
      RunsNone(w, arity);
      NoneDropped(w.d);
      var todo := Older(repo.disk, newest, next) - stuck;
      assert older - todo == {};
      while todo != {}
        invariant todo <= repo.disk.ckpts.Keys && (forall g :: g in todo ==> g < next)
        invariant Runs(w, es, W(), arity) && Last(repo.disk, next) && Kept(repo.disk, h, next)
        invariant next in repo.disk.ckpts && repo.disk.ckpts[next].maybe == {repo.disk.ckpts[next].now}
        invariant repo.disk.ckpts.Keys == old(repo.disk).ckpts.Keys
        invariant todo <= older && Dropped(w.d, repo.disk, older - todo)
        decreases |todo|
      {
        var g :| g in todo;
        ghost var before, gone := W(), older - todo;
        todo := todo - {g};
        WIs();
        assert gone + {g} == older - todo;
        DropOne(g, next);
        OneDropped(w.d, before.d, repo.disk, gone, g);
        RunsConcat(w, es, before, [Event.DeleteCkpt(g, next)], W(), arity);
        es := es + [Event.DeleteCkpt(g, next)];
      }
      WIs();
      LastKeptIs(W(), next, at);
      ValidIs(w, es);
      assert older - todo == older;
      OlderDropped(w.d, repo.disk, newest, next, stuck);
    }

    method DropOne(g: nat, next: nat)
      requires observedTip.Some? && g in repo.disk.ckpts && g < next && next in repo.disk.ckpts
      requires Last(repo.disk, next) && Kept(repo.disk, h, next) && h.place[next] == at
      modifies repo
      ensures Runs(old(W()), [Event.DeleteCkpt(g, next)], W(), arity) && Last(repo.disk, next) &&
              Kept(repo.disk, h, next)
      ensures repo.disk.ckpts == old(repo.disk).ckpts[g := Deleted(old(repo.disk).ckpts[g])]
    {
      hide *;
      WIs();
      ghost var w := W();
      DeleteIs(w, g, next, arity);
      RunOneIs(w, Event.DeleteCkpt(g, next), arity);
      repo.DeleteCkpt(g);
      WIs();
    }

    /** Leaf-specific length: the count of a flat log, zero for one of subtrees. */
    function LeafLen(): nat
      reads this
    {
      if hasLeaves then count else 0
    }

    lemma LeafLenIs()
      requires Valid() && (observedTip.Some? ==> at < |h.stores|) && SingleKind(Current())
      ensures LeafLen() == |Current().leaves|
    {
      hide Sound;
      CurrentIs();
    }

    /** Reads answer as the in-memory backend's do. */
    method ReadLeaf(index: nat) returns (r: Option<Bytes>)
      requires Valid() && (observedTip.Some? ==> at < |h.stores|) && SingleKind(Current())
      ensures r == if index < |Current().leaves| then Some(Current().leaves[index]) else None
    {
      Parts();
      CurrentIs();
      hide Safe, Reachable, ReadKey, PathOf, Valid, TipCached;
      if observedTip.None? {
        return None;
      }
      TreeParts(Current(), observedTip.value, arity);
      if index < LeafLen() {
        LeafParts(Current(), observedTip.value, index);
      }
      hide TreeOk, DataOk;
      r := GetLeaf(observedTip.value, LeafLen(), index);
    }

    method ReadNode(alg: nat, left: nat, height: nat) returns (r: Option<Digest>)
      requires Valid() && Fits(NodeAt(alg, height, left))
      ensures var key := NodeKey(alg, Topology.Coord(left, height));
              r == if key in Current().nodes then Some(Current().nodes[key]) else None
    {
      Parts();
      CurrentIs();
      hide Safe, Reachable, ReadKey, PathOf, Valid, TipCached;
      if observedTip.None? {
        return None;
      }
      NodeParts(Current(), observedTip.value, arity, alg, left, height);
      hide TreeOk;
      r := GetNode(observedTip.value, alg, left, height);
    }

    method ReadMetas() returns (r: Option<map<nat, seq<Epoch>>>)
      requires Valid() && MetasOk(Current())
      ensures r == Some(Current().metas)
    {
      Parts();
      CurrentIs();
      hide Safe, Reachable, ReadKey, PathOf, WordEpochs, EpochsAt, Valid, TipCached;
      if observedTip.None? {
        return Some(map[]);
      }
      TreeParts(Current(), observedTip.value, arity);
      hide TreeOk, EpochsOk;
      r := LoadAlgorithmMetas(observedTip.value, Current().metas);
    }

    /**
     Opens the store, recovering first: staging is kept if it is the newest checkpoint or
     adds to it only objects that read, and is otherwise put back to that checkpoint.  It
     succeeds exactly as `Recovers` says, and then is at `Recovered`.  Its own checkpoint,
     failing on its last sync, leaves a newest ref that is not synced.
     */
    static method New(repo: Repo, arity: nat, fault: Fault, stuck: set<nat>, ghost h: History)
      returns (r: Result<GitStorage>, ghost es: seq<Event>, ghost w': World)
      requires 2 <= arity <= 256 ==> Sound(World(repo.disk, h, Closed), -1, arity)
      modifies repo
      ensures !(2 <= arity <= 256) ==> r == Err(InvalidArity)
      ensures 2 <= arity <= 256 ==>
                (r.Ok? <==> Recovers(old(repo.disk), fault, arity)) &&
                Runs(World(old(repo.disk), h, Closed), es, w', arity) && w'.d == repo.disk &&
                w'.h.trees == h.trees && w'.h.stores == h.stores && (r.Err? ==> w'.handle == Closed)
      ensures 2 <= arity <= 256 ==>
                if fault == FailCkpt && Ahead(old(repo.disk)) && !Blocked(old(repo.disk)) then UnsyncedTip(repo.disk)
                else NewestSynced(old(repo.disk)) ==> NewestSynced(repo.disk)
      ensures 2 <= arity <= 256 && (exists g: nat :: Listed(old(repo.disk), g)) && !Intact(old(repo.disk)) ==>
                IsPutBack(old(repo.disk), repo.disk, fault)
      ensures 2 <= arity <= 256 ==>
                NextOnly(old(repo.disk), repo.disk) && (r.Err? ==> RefsStay(World(old(repo.disk), h, Closed), w'))
      ensures (forall g: nat :: !Listed(old(repo.disk), g)) ==> repo.disk == old(repo.disk)
      ensures 2 <= arity <= 256 && r.Err? ==>
                r.error == if forall g: nat :: !Listed(old(repo.disk), g) then NoDurableState
                           else if fault == FailRef || fault == NoFault ||
                                   (fault == FailCkpt && Blocked(old(repo.disk)))
                           then RefUpdateTransient else SyncFailed
      ensures 2 <= arity <= 256 && Intact(old(repo.disk)) && NewestIs(old(repo.disk), old(repo.disk).staging.now) ==>
                repo.disk == old(repo.disk) && w'.h == h
      ensures 2 <= arity <= 256 && Intact(old(repo.disk)) ==> repo.disk.staging.now == old(repo.disk).staging.now
      ensures r.Ok? ==>
                fresh(r.value) && r.value.repo == repo && r.value.arity == arity && r.value.h == w'.h &&
                Recovered(old(repo.disk), r.value.observedTip)
      ensures r.Ok? && Complete(old(repo.disk)) ==> r.value.Valid() && r.value.W() == w'
    {
      ghost var w := World(repo.disk, h, Closed);
      es, w' := [], w;
      SameStays(w, w);
      if !(2 <= arity <= 256) {
        return Err(InvalidArity), es, w';
      }
      var k: Arity := arity;
      GoodIsSafe(w, -1, k);
      hide *;
      RunsNone(w, k);
      var listed := ListCkpts(repo.disk, k, h);
      var staging := ReadSnap(repo.disk.objects, repo.disk.staging.now, k);
      if listed.value.None? {
        UnlistedIs(repo.disk, h);
        r, es, w' := OpenUnlisted(repo, k, staging, fault, h);
        SameStays(w, w');
        NotAhead(repo.disk);
        return;
      }
      var c := listed.value.value;
      NewestHere(w, c, k);
      ListedRecovers(repo.disk, c.snap.tree, fault, k);
      StagingReads(w, k);
      IntactIs(repo.disk);
      ghost var before := repo.disk;
      match staging {
        case WrongArity => return Err(InvalidArity), es, w';
        case Good(s) =>
          ReachableSome(c.snap.tree);
          var changed := ChangedObjects(repo.disk.objects, s.tree, Some(c.snap.tree));
          if s.tree == c.snap.tree || changed.Some? {
            r, es, w' := Keep(repo, k, s, s.tree != c.snap.tree, c.generation, fault, stuck, h);
            return;
          }
        case _ =>
      }
      r, es, w' := PutBack(repo, k, c, fault, h);
      SameListing(before, repo.disk);
      SameStays(w, w');
    }

    /** Without a checkpoint staging is taken as it is. */
    static method OpenUnlisted(repo: Repo, k: Arity, staging: SnapResult, ghost fault: Fault, ghost h: History)
      returns (r: Result<GitStorage>, ghost es: seq<Event>, ghost w': World)
      requires Sound(World(repo.disk, h, Closed), -1, k) && forall g: nat :: !Listed(repo.disk, g)
      requires staging == ReadSnap(repo.disk.objects, repo.disk.staging.now, k)
      ensures r.Ok? <==> Recovers(repo.disk, fault, k)
      ensures r.Err? ==> r.error == NoDurableState
      ensures Runs(World(repo.disk, h, Closed), es, w', k) && w'.d == repo.disk && w'.h == h &&
              (r.Err? ==> w'.handle == Closed)
      ensures r.Ok? ==>
                fresh(r.value) && r.value.repo == repo && r.value.arity == k && r.value.h == h &&
                Recovered(repo.disk, r.value.observedTip)
      ensures r.Ok? && Complete(repo.disk) ==> r.value.Valid() && r.value.W() == w'
    {
      ghost var w := World(repo.disk, h, Closed);
      es, w' := [], w;
      hide *;
      RunsNone(w, k);
      StagingReads(w, k);
      UnlistedRecovers(repo.disk, fault, k);
      match staging
      case Good(s) =>
        ghost var i: nat := 0;
        if Intact(repo.disk) {
          i := UnlistedPlace(w, s, k);
          OpenIs(w, At(i), k);
          es, w' := [Open(At(i))], w.(handle := At(i));
        }
        var kept := new GitStorage(repo, k, Some(s.tree), s.count, s.hasLeaves, h, i);
        if Intact(repo.disk) {
          kept.WIs();
          kept.ValidIs(w, es);
        }
        r := Ok(kept);
      case NoRef =>
        FreshIs(w, k);
        es, w' := [Open(Fresh)], w.(handle := Fresh);
        var empty := new GitStorage(repo, k, None, 0, false, h, 0);
        EmptyCached(h);
        empty.WIs();
        empty.ValidIs(w, es);
        r := Ok(empty);
      case Broken => r := Err(NoDurableState);
      case WrongArity => r := Err(InvalidArity);
    }

    /** Staging stays; if it is ahead of the newest checkpoint it is checkpointed. */
    static method Keep(
        repo: Repo, k: Arity, s: Snap, ahead: bool, ghost last: nat, fault: Fault, stuck: set<nat>, ghost h: History)
      returns (r: Result<GitStorage>, ghost es: seq<Event>, ghost w': World)
      requires Sound(World(repo.disk, h, Closed), -1, k) && Last(repo.disk, last)
      requires repo.disk.staging.now == Points(s.tree) && Reachable(s.tree) <= repo.disk.objects
      requires ReadSnap(repo.disk.objects, repo.disk.staging.now, k) == SnapResult.Good(s)
      requires ahead <==> repo.disk.ckpts[last].now != Points(s.tree)
      modifies repo
      ensures r.Ok? <==> !ahead || (fault == NoFault && !Blocked(old(repo.disk)))
      ensures r.Err? ==>
                r.error == if fault == FailRef || fault == NoFault || (fault == FailCkpt && Blocked(old(repo.disk)))
                           then RefUpdateTransient else SyncFailed
      ensures Runs(World(old(repo.disk), h, Closed), es, w', k) && w'.d == repo.disk
      ensures w'.h.trees == h.trees && w'.h.stores == h.stores && (r.Err? ==> w'.handle == Closed)
      ensures repo.disk.staging.now == Points(s.tree) && (!ahead ==> repo.disk == old(repo.disk) && w'.h == h)
      ensures if fault == FailCkpt && ahead && !Blocked(old(repo.disk)) then UnsyncedTip(repo.disk)
              else NewestSynced(old(repo.disk)) ==> NewestSynced(repo.disk)
      ensures NextOnly(old(repo.disk), repo.disk) && (r.Err? ==> RefsStay(World(old(repo.disk), h, Closed), w'))
      ensures r.Ok? ==>
                fresh(r.value) && r.value.repo == repo && r.value.arity == k && r.value.h == w'.h &&
                r.value.observedTip == Some(s.tree) && r.value.Valid() && r.value.W() == w'
    {
      hide *;
      ghost var w := World(repo.disk, h, Closed);
      var kept;
      kept, es := OpenStaging(repo, k, s, last, h);
      w' := kept.W();
      SameStays(w, w');
      if ahead {
        kept.WIs();
        var done, more, _ := kept.Checkpoint(fault, stuck);
        kept.WIs();
        kept.Parts();
        KeptTip(kept, s.tree);
        StaysOver(w, w', kept.W());
        RunsConcat(w, es, w', more, kept.W(), k);
        es, w' := es + more, kept.W();
        if done.Err? {
          DieIs(w', k);
          RunsSnoc(w, es, w', Die, k);
          StaysClosed(w, w');
          es, w' := es + [Die], w'.(handle := Closed);
          return Err(done.error), es, w';
        }
      }
      kept.WIs();
      r := Ok(kept);
    }

    /** An instance at the staging tree. */
    static method OpenStaging(repo: Repo, k: Arity, s: Snap, ghost last: nat, ghost h: History)
      returns (kept: GitStorage, ghost es: seq<Event>)
      requires Sound(World(repo.disk, h, Closed), -1, k) && Last(repo.disk, last)
      requires repo.disk.staging.now == Points(s.tree) && Reachable(s.tree) <= repo.disk.objects
      requires ReadSnap(repo.disk.objects, repo.disk.staging.now, k) == SnapResult.Good(s)
      ensures fresh(kept) && kept.repo == repo && kept.arity == k && kept.h == h && kept.observedTip == Some(s.tree)
      ensures kept.Valid() && Runs(World(repo.disk, h, Closed), es, kept.W(), k)
      ensures kept.W().d == repo.disk && kept.W().h == h
      ensures NamesTip(kept.W()) <==> repo.disk.ckpts[last].now == Points(s.tree)
    {
      hide *;
      ghost var w := World(repo.disk, h, Closed);
      ghost var i := StagingPlace(w, s, last, k);
      OpenIs(w, At(i), k);
      es := [Open(At(i))];
      kept := new GitStorage(repo, k, Some(s.tree), s.count, s.hasLeaves, h, i);
      kept.WIs();
      kept.ValidIs(w, es);
      kept.Parts();
      AheadIs(kept.W(), s.tree, last);
    }

    /** Staging is torn, empty or names a hole: it is put back to the checkpoint and synced. */
    static method PutBack(repo: Repo, k: Arity, c: Newest, fault: Fault, ghost h: History)
      returns (r: Result<GitStorage>, ghost es: seq<Event>, ghost w': World)
      requires Sound(World(repo.disk, h, Closed), -1, k) && IsNewest(repo.disk, h, Some(c))
      modifies repo
      ensures r.Ok? <==> fault != FailRef && fault != FailStaging
      ensures r.Err? ==> r.error == if fault == FailRef then RefUpdateTransient else SyncFailed
      ensures Runs(World(old(repo.disk), h, Closed), es, w', k) && w'.d == repo.disk && w'.h == h
      ensures repo.disk.ckpts == old(repo.disk).ckpts && (r.Err? ==> w'.handle == Closed)
      ensures IsPutBack(old(repo.disk), repo.disk, fault)
      ensures r.Ok? ==>
                fresh(r.value) && r.value.repo == repo && r.value.arity == k && r.value.h == h &&
                r.value.observedTip == Some(c.snap.tree) && r.value.Valid() && r.value.W() == w'
    {
      ghost var w := World(repo.disk, h, Closed);
      es, w' := [], w;
      hide *;
      RunsNone(w, k);
      PutBackIs(w, c, fault, k);
      if fault == FailRef {
        return Err(RefUpdateTransient), es, w';
      }
      NewestHere(w, c, k);
      repo.SetStaging(Points(c.snap.tree));
      if fault == FailStaging {
        es, w' := [ResetStaging(c.generation)], World(repo.disk, h, Closed);
        ResetIs(w, c.generation, k);
        return Err(SyncFailed), es, w';
      }
      ghost var i := NewestPlace(w, c, k);
      es := ResetRun(w, c, i, k);
      repo.SyncStaging();
      w' := World(repo.disk, h, At(i));
      var back := new GitStorage(repo, k, Some(c.snap.tree), c.snap.count, c.snap.hasLeaves, h, i);
      back.WIs();
      back.ValidIs(w, es);
      r := Ok(back);
    }
  }

  // ------------------------------------------------------------------ the events of each write

  lemma WriteIs(w: World, o: Object, k: Arity)
    ensures Enabled(w, Event.WriteObject(o), k)
    ensures After(w, Event.WriteObject(o)) == w.(d := w.d.(objects := w.d.objects + {o}))
  {
  }

  lemma MoveIs(w: World, t: Object, s: Store, k: Arity)
    requires w.handle != Closed && TreeOk(s, t, k) && s.count <= U64_MAX && Reachable(t) <= w.d.objects
    ensures Enabled(w, MoveStaging(t, s), k)
    ensures After(w, MoveStaging(t, s))
         == World(w.d.(staging := Written(w.d.staging, Points(t))), Extend(w.h, t, s), At(|w.h.trees|))
  {
    hide TreeOk, Reachable;
  }

  lemma MovedCached(h: History, t: Object, s: Store, count: nat, hasLeaves: bool)
    requires |h.stores| == |h.trees| && count == s.count && (hasLeaves <==> s.leaves != [])
    ensures var h' := Extend(h, t, s);
            TipCached(Some(t), count, hasLeaves, h'.trees, h'.stores, |h.trees|) &&
            |h.trees| < |h'.stores| && h'.stores[|h.trees|] == s
  {
  }

  lemma RunOneIs(w: World, e: Event, k: Arity)
    requires Enabled(w, e, k)
    ensures Runs(w, [e], After(w, e), k)
  {
    hide Enabled, After;
    RunOne(w, e, k);
  }

  lemma SyncedIs(r: Ref)
    ensures Synced(r).maybe == {r.now}
  {
  }

  lemma PlacedIs(h: History, g: nat, a: nat)
    ensures var h' := Placed(h, g, a);
            h'.trees == h.trees && h'.stores == h.stores && g in h'.place && h'.place[g] == a &&
              h'.place == h.place[g := a]
  {
  }

  lemma EmptyCached(h: History)
    ensures TipCached(None, 0, false, h.trees, h.stores, 0)
  {
  }

  lemma SyncIs(w: World, o: Object, k: Arity)
    requires o in w.d.objects
    ensures Enabled(w, Event.SyncObject(o), k)
    ensures After(w, Event.SyncObject(o)) == w.(d := w.d.(durable := w.d.durable + {o}))
  {
  }

  lemma SyncStagingIs(w: World, k: Arity)
    ensures Enabled(w, Event.SyncStaging, k)
    ensures After(w, Event.SyncStaging) == w.(d := w.d.(staging := Synced(w.d.staging)))
  {
  }

  lemma CreateIs(w: World, g: nat, k: Arity)
    requires Placing(w) && NextGen(w.d, g) && Free(w.d, g) && !NamesTip(w)
    requires Reachable(Tip(w)) <= w.d.durable && w.d.staging.maybe == {Points(Tip(w))}
    ensures Enabled(w, Event.CreateCkpt(g), k)
    ensures After(w, Event.CreateCkpt(g))
         == World(w.d.(ckpts := w.d.ckpts[g := Created(Tip(w))]), Placed(w.h, g, w.handle.place), w.handle)
  {
    hide Reachable, NamesTip, NextGen;
  }

  lemma SyncCkptIs(w: World, g: nat, k: Arity)
    requires g in w.d.ckpts && w.d.ckpts[g].now.Points?
    ensures Enabled(w, Event.SyncCkpt(g), k)
    ensures After(w, Event.SyncCkpt(g)) == w.(d := w.d.(ckpts := w.d.ckpts[g := Synced(w.d.ckpts[g])]))
  {
  }

  lemma DieIs(w: World, k: Arity)
    ensures Enabled(w, Die, k) && After(w, Die) == w.(handle := Closed)
  {
  }

  lemma OpenIs(w: World, handle: Handle, k: Arity)
    requires w.handle == Closed && Opens(w, handle)
    ensures Enabled(w, Open(handle), k) && Runs(w, [Open(handle)], w.(handle := handle), k)
  {
    hide Opens;
    RunOne(w, Open(handle), k);
  }

  /** A new ref of the next generation is the newest, and names the tip. */
  lemma Published(w: World, g: nat, t: Object, r: Ref)
    requires Placing(w) && Tip(w) == t && NextGen(w.d, g) && Free(w.d, g) &&
             (r == Created(t) || r == Synced(Created(t)))
    ensures var w' := World(w.d.(ckpts := w.d.ckpts[g := r]), Placed(w.h, g, w.handle.place), w.handle);
            && Last(w'.d, g) && NamesTip(w')
            && (r == Created(t) ==> NewestCreated(w'.d))
            && (r == Synced(Created(t)) ==>
                r.maybe == {r.now} && Kept(w'.d, w'.h, g) && w'.h.place[g] == w.handle.place)
  {
    var w' := World(w.d.(ckpts := w.d.ckpts[g := r]), Placed(w.h, g, w.handle.place), w.handle);
    assert forall u: nat :: Listed(w'.d, u) <==> Listed(w.d, u) || u == g;
    assert Last(w'.d, g);
    if r == Created(t) {
      assert w'.d.ckpts[g] == Created(w'.d.ckpts[g].now.tree);
    }
  }

  /** The ref created, and synced unless that fails. */
  lemma PublishRun(w: World, g: nat, t: Object, fail: bool, k: Arity) returns (es: seq<Event>)
    requires Placing(w) && Tip(w) == t && NextGen(w.d, g) && Free(w.d, g) && !NamesTip(w)
    requires Reachable(t) <= w.d.durable && w.d.staging.maybe == {Points(t)}
    ensures var r := if fail then Created(t) else Synced(Created(t));
            var w' := World(w.d.(ckpts := w.d.ckpts[g := r]), Placed(w.h, g, w.handle.place), w.handle);
            Runs(w, es, w', k) && Last(w'.d, g) && NamesTip(w') && RefsStay(w, w') &&
              w'.d.ckpts.Keys == w.d.ckpts.Keys + {g} &&
            if fail then NewestCreated(w'.d)
            else r.maybe == {r.now} && Kept(w'.d, w'.h, g) && w'.h.place[g] == w.handle.place
  {
    var w1 := World(w.d.(ckpts := w.d.ckpts[g := Created(t)]), Placed(w.h, g, w.handle.place), w.handle);
    var w2 := w1.(d := w1.d.(ckpts := w1.d.ckpts[g := Synced(w1.d.ckpts[g])]));
    CreateIs(w, g, k);
    SyncCkptIs(w1, g, k);
    Published(w, g, t, if fail then Created(t) else Synced(Created(t)));
    assert w2.d.ckpts == w.d.ckpts[g := Synced(Created(t))];
    OneMoreStays(w, w1, g);
    OneMoreStays(w, w2, g);
    hide RefsStay, Runs, Enabled, After, NamesTip, NewestSynced, NextGen, Last, Kept, Reachable;
    RunsNone(w, k);
    RunsSnoc(w, [], w, Event.CreateCkpt(g), k);
    es := [] + [Event.CreateCkpt(g)];
    if !fail {
      RunsSnoc(w, es, w1, Event.SyncCkpt(g), k);
      es := es + [Event.SyncCkpt(g)];
    }
  }

  lemma DeleteIs(w: World, g: nat, keep: nat, k: Arity)
    requires w.handle.At? && g in w.d.ckpts && g < keep && Kept(w.d, w.h, keep) && w.h.place[keep] == w.handle.place
    requires Last(w.d, keep)
    ensures Enabled(w, Event.DeleteCkpt(g, keep), k)
    ensures var w' := After(w, Event.DeleteCkpt(g, keep));
            w' == w.(d := w.d.(ckpts := w.d.ckpts[g := Deleted(w.d.ckpts[g])])) && Last(w'.d, keep) &&
              Kept(w'.d, w'.h, keep)
  {
    var d' := w.d.(ckpts := w.d.ckpts[g := Deleted(w.d.ckpts[g])]);
    assert forall u: nat :: Listed(d', u) ==> Listed(w.d, u);
  }

  /** The refs of `gone` are deleted, every other is as it was. */
  ghost predicate Dropped(d: Disk, d': Disk, gone: set<nat>) {
    && d'.ckpts.Keys == d.ckpts.Keys
    && forall g :: g in d.ckpts ==> d'.ckpts[g] == if g in gone then Deleted(d.ckpts[g]) else d.ckpts[g]
  }

  lemma NoneDropped(d: Disk)
    ensures Dropped(d, d, {})
  {
  }

  lemma OneDropped(d: Disk, before: Disk, after: Disk, gone: set<nat>, g: nat)
    requires Dropped(d, before, gone) && g in before.ckpts && g !in gone
    requires after.ckpts == before.ckpts[g := Deleted(before.ckpts[g])]
    ensures Dropped(d, after, gone + {g})
  {
  }

  /** Listed are the last checkpoint, the newest found earlier and those whose deletion failed, as they were. */
  ghost predicate NewestOnly(d: Disk, d': Disk, newest: Option<Newest>, last: nat, stuck: set<nat>) {
    && (forall g: nat :: Listed(d', g) <==>
          g == last || (Listed(d, g) && ((newest.Some? && g == newest.value.generation) || g in stuck)))
    && forall g: nat :: Listed(d', g) ==> g in d.ckpts && g in d'.ckpts && d'.ckpts[g] == d.ckpts[g]
  }

  lemma OlderDropped(d: Disk, d': Disk, newest: Option<Newest>, last: nat, stuck: set<nat>)
    requires Dropped(d, d', Older(d, newest, last) - stuck) && Last(d, last)
    ensures NewestOnly(d, d', newest, last, stuck)
  {
    forall g: nat
      ensures Listed(d', g) <==>
              g == last || (Listed(d, g) && ((newest.Some? && g == newest.value.generation) || g in stuck))
    {
      assert Listed(d, g) ==> g <= last;
    }
  }

  /**
   What a checkpoint leaves listed: the one it made and the newest before it, and of the
   others those whose deletion failed; their refs and places are as they were.
   */
  ghost predicate LeavesTwo(w: World, w': World, stuck: set<nat>) {
    && (forall g: nat :: Listed(w'.d, g) <==> NextGen(w.d, g) || Last(w.d, g) || (g in stuck && Listed(w.d, g)))
    && forall g: nat :: Last(w.d, g) || (g in stuck && Listed(w.d, g)) ==>
         g in w.d.ckpts && g in w'.d.ckpts && w'.d.ckpts[g] == w.d.ckpts[g] &&
           (g in w.h.place ==> g in w'.h.place && w'.h.place[g] == w.h.place[g])
  }

  lemma NewestLeft(w: World, middle: World, w': World, newest: Option<Newest>, next: nat, stuck: set<nat>)
    requires IsNewest(w.d, w.h, newest) && NextGen(w.d, next) && RefsStay(w, middle) && w'.h == middle.h
    requires next in middle.d.ckpts && middle.d.ckpts == w.d.ckpts[next := middle.d.ckpts[next]]
    requires NewestOnly(middle.d, w'.d, newest, next, stuck)
    ensures LeavesTwo(w, w', stuck)
  {
    forall g: nat
      ensures NextGen(w.d, g) <==> g == next
      ensures Last(w.d, g) <==> newest.Some? && g == newest.value.generation
      ensures Listed(w.d, g) ==> g != next
    {
      assert newest.None? ==> !Listed(w.d, g);
      assert g > 0 ==> (Last(w.d, g - 1) ==> Listed(w.d, g - 1));
    }
    assert forall g: nat :: g != next ==> (Listed(middle.d, g) <==> Listed(w.d, g));
  }

  lemma SameNewest(d: Disk, d': Disk, h: History, newest: Option<Newest>)
    requires d'.ckpts == d.ckpts && IsNewest(d, h, newest)
    ensures IsNewest(d', h, newest)
  {
    assert forall g: nat :: Listed(d, g) <==> Listed(d', g);
  }

  /** The newest checkpoint is synced and stands for place `a`. */
  ghost predicate LastKeptAt(w: World, a: nat) {
    exists g: nat :: Last(w.d, g) && Kept(w.d, w.h, g) && g in w.h.place && w.h.place[g] == a
  }

  // ------------------------------------------------------------------ what the listing tells

  /** Every ref of the first world that is not torn is in the second as it was, at its place. */
  ghost predicate RefsStay(w: World, w': World) {
    forall g :: g in w.d.ckpts && w.d.ckpts[g].now != Torn ==>
      g in w'.d.ckpts && w'.d.ckpts[g] == w.d.ckpts[g] &&
        (g in w.h.place ==> g in w'.h.place && w'.h.place[g] == w.h.place[g])
  }

  /** The only new ref is of the next generation. */
  ghost predicate NextOnly(d: Disk, d': Disk) { forall g :: g in d'.ckpts ==> g in d.ckpts || NextGen(d, g) }

  lemma SameStays(w: World, w': World)
    requires w'.d.ckpts == w.d.ckpts && w'.h == w.h
    ensures RefsStay(w, w') && NextOnly(w.d, w'.d)
  {
  }

  lemma StaysOver(w: World, middle: World, w': World)
    requires middle.d.ckpts == w.d.ckpts && middle.h == w.h && middle.d.tornTaken == w.d.tornTaken
    ensures RefsStay(middle, w') ==> RefsStay(w, w')
    ensures NextOnly(middle.d, w'.d) ==> NextOnly(w.d, w'.d)
    ensures forall stuck: set<nat> :: LeavesTwo(middle, w', stuck) ==> LeavesTwo(w, w', stuck)
  {
    SameListing(w.d, middle.d);
    hide NextGen;
  }

  lemma OneMoreStays(w: World, w': World, g: nat)
    requires Free(w.d, g) && g in w'.d.ckpts && w'.d.ckpts == w.d.ckpts[g := w'.d.ckpts[g]]
    requires g in w'.h.place && w'.h.place == w.h.place[g := w'.h.place[g]]
    ensures RefsStay(w, w')
  {
  }

  lemma NextKeys(d: Disk, d': Disk, g: nat)
    requires NextGen(d, g) && d'.ckpts.Keys == d.ckpts.Keys + {g}
    ensures NextOnly(d, d')
  {
    hide NextGen;
  }

  lemma SameListing(d: Disk, d': Disk)
    requires d'.ckpts == d.ckpts && d'.tornTaken == d.tornTaken
    ensures NewestSynced(d) <==> NewestSynced(d')
    ensures Blocked(d) <==> Blocked(d')
    ensures forall g: nat :: (NextGen(d, g) <==> NextGen(d', g)) && (Last(d, g) <==> Last(d', g))
    ensures forall h: History, a: Handle :: NamesTip(World(d, h, a)) <==> NamesTip(World(d', h, a))
  {
    assert forall g: nat :: Listed(d, g) <==> Listed(d', g);
    assert forall g: nat :: Last(d, g) <==> Last(d', g);
    hide Listed, Last;
    assert forall g: nat :: NextGen(d, g) <==> NextGen(d', g);
    assert forall g: nat :: Free(d, g) <==> Free(d', g);
    hide NextGen, Free;
  }

  lemma BlockedIs(d: Disk, g: nat)
    requires NextGen(d, g)
    ensures Blocked(d) <==> !Free(d, g)
  {
  }

  lemma LastKeptIs(w: World, g: nat, a: nat)
    requires Last(w.d, g) && Kept(w.d, w.h, g) && g in w.h.place && w.h.place[g] == a
    requires g in w.d.ckpts && w.d.ckpts[g].maybe == {w.d.ckpts[g].now}
    ensures LastKeptAt(w, a) && NewestSynced(w.d)
  {
    hide Kept;
  }

  /** What the listing found is in the history, and is the base of the next checkpoint. */
  lemma BaseDurable(w: World, newest: Option<Newest>, k: Arity)
    requires Sound(w, -1, k) && IsNewest(w.d, w.h, newest)
    ensures var base := if newest.Some? then Some(newest.value.snap.tree) else None;
            NextGen(w.d, if newest.None? then 1 else newest.value.generation + 1) &&
            ReachableOf(base) <= w.d.durable <= w.d.objects && (base.Some? ==> base.value.Tree?)
  {
    hide Reachable, TreeOk, NoOlder, HandleOk, CkptOk, ReadSnap;
    if newest.Some? {
      ListedReads(w.d, w.h, -1, k, newest.value.generation);
    }
  }

  /** The early return's test is `NamesTip`. */
  lemma NamesTipIs(w: World, newest: Option<Newest>, k: Arity)
    requires Sound(w, -1, k) && Placing(w) && IsNewest(w.d, w.h, newest)
    ensures NamesTip(w) <==> newest.Some? && newest.value.snap.tree == Tip(w)
  {
    hide Reachable, TreeOk, NoOlder, HandleOk, CkptOk, ReadSnap;
    if newest.Some? {
      ListedReads(w.d, w.h, -1, k, newest.value.generation);
    }
  }

  /** The early return: durable exactly if the newest ref has been synced. */
  lemma EarlyReturn(w: World, newest: Newest, k: Arity) returns (p: nat)
    requires Sound(w, -1, k) && Placing(w) && IsNewest(w.d, w.h, Some(newest)) && newest.snap.tree == Tip(w)
    ensures p <= w.handle.place && p < |w.h.trees| && w.h.trees[p] == Tip(w)
    ensures Durable(w, p, k) <==> NewestSynced(w.d)
  {
    var g := newest.generation;
    NewestIsTip(w, newest, k);
    hide Sound, Durable, IsNewest, Listed;
    DurableIffSynced(w, g, k);
    p := w.h.place[g];
  }

  lemma NewestIsTip(w: World, newest: Newest, k: Arity)
    requires Sound(w, -1, k) && Placing(w) && IsNewest(w.d, w.h, Some(newest)) && newest.snap.tree == Tip(w)
    ensures var g := newest.generation;
            Last(w.d, g) && w.d.ckpts[g].now == Points(Tip(w)) && g in w.h.place && w.h.place[g] <= w.handle.place &&
            (NewestSynced(w.d) <==> w.d.ckpts[g].maybe == {w.d.ckpts[g].now})
  {
    hide Reachable, TreeOk, NoOlder, ReadSnap, CkptOk;
    ListedReads(w.d, w.h, -1, k, newest.generation);
  }

  /** After a full checkpoint the tip itself is durable. */
  lemma Returned(w: World, k: Arity)
    requires Sound(w, -1, k) && Placing(w) && LastKeptAt(w, w.handle.place)
    ensures NamesTip(w) && Durable(w, w.handle.place, k)
  {
    hide Sound, Durable, Last, Kept;
    var g: nat :| Last(w.d, g) && Kept(w.d, w.h, g) && g in w.h.place && w.h.place[g] == w.handle.place;
    SyncedIsDurable(w, g, k);
    KeptNames(w, g, k);
  }

  lemma KeptNames(w: World, g: nat, k: Arity)
    requires Sound(w, -1, k) && Placing(w) && Last(w.d, g) && Kept(w.d, w.h, g) && w.h.place[g] == w.handle.place
    ensures NamesTip(w)
  {
    hide Reachable, HistoryOk, NoOlder, HandleOk;
    assert CkptOk(w.d, w.h, g);
  }

  lemma NewestHere(w: World, c: Newest, k: Arity)
    requires Sound(w, -1, k) && IsNewest(w.d, w.h, Some(c))
    ensures Last(w.d, c.generation) && w.d.ckpts[c.generation].now == Points(c.snap.tree) && c.snap.tree.Tree?
    ensures Reachable(c.snap.tree) <= w.d.durable <= w.d.objects
    ensures exists g: nat :: Listed(w.d, g)
    ensures forall v: Val :: NewestIs(w.d, v) <==> v == Points(c.snap.tree)
  {
    hide Reachable, TreeOk, NoOlder, HandleOk, CkptOk, ReadSnap;
    ListedReads(w.d, w.h, -1, k, c.generation);
  }

  lemma UnlistedIs(d: Disk, h: History)
    requires IsNewest(d, h, None)
    ensures forall g: nat :: !Listed(d, g)
  {
  }

  lemma IntactIs(d: Disk)
    ensures Intact(d) <==> d.staging.now.Points? && Reachable(d.staging.now.tree) <= d.objects
  {
    hide Reachable;
  }

  lemma UnlistedRecovers(d: Disk, fault: Fault, k: Arity)
    requires forall g: nat :: !Listed(d, g)
    ensures Recovers(d, fault, k) <==> d.staging.now == Absent || ReadSnap(d.objects, d.staging.now, k).Good?
    ensures Complete(d) <==> Intact(d) || d.staging.now == Absent
    ensures d.staging.now == Absent ==> Recovered(d, None) && !Intact(d)
    ensures d.staging.now.Points? ==> Recovered(d, Some(d.staging.now.tree))
  {
    hide ReadSnap, Reachable, Listed;
  }

  lemma ReachableSome(t: Object)
    ensures ReachableOf(Some(t)) == Reachable(t)
  {
  }

  /** The newest checkpoint is not synced, and staging is complete and at it: the next opening stops there. */
  ghost predicate UnsyncedTip(d: Disk) { NewestCreated(d) && Intact(d) && NewestIs(d, d.staging.now) }

  /** Only staging moved, to the newest checkpoint, and it is synced unless that failed. */
  ghost predicate IsPutBack(d: Disk, d': Disk, fault: Fault) {
    && d' == d.(staging := d'.staging)
    && if fault == FailRef then d' == d
       else
         NewestIs(d, d'.staging.now) && Intact(d') &&
         d'.staging == var moved := Written(d.staging, d'.staging.now); if fault == FailStaging then moved
           else Synced(moved)
  }

  /** What a checkpoint that failed on its last sync leaves, seen from the disk. */
  lemma KeptTip(g: GitStorage, t: Object)
    requires g.Valid() && g.observedTip == Some(t)
    ensures NamesTip(g.W()) && NewestCreated(g.repo.disk) ==> UnsyncedTip(g.repo.disk)
  {
    g.Parts();
    hide Reachable, Sound, TipCached;
  }

  lemma NotAhead(d: Disk)
    requires forall g: nat :: !Listed(d, g)
    ensures !Ahead(d) && forall v: Val :: !NewestIs(d, v)
  {
    hide Listed, Intact;
  }

  lemma StaysClosed(w: World, w': World)
    ensures RefsStay(w, w') ==> RefsStay(w, w'.(handle := Closed))
  {
  }

  lemma PutBackIs(w: World, c: Newest, fault: Fault, k: Arity)
    requires Sound(w, -1, k) && IsNewest(w.d, w.h, Some(c))
    ensures var moved := Written(w.d.staging, Points(c.snap.tree));
            IsPutBack(w.d, if fault == FailRef then w.d
                           else w.d.(staging := if fault == FailStaging then moved else Synced(moved)), fault)
  {
    NewestHere(w, c, k);
    hide Sound, IsNewest, Reachable, NewestIs;
  }

  lemma ResetIs(w: World, g: nat, k: Arity)
    requires w.handle == Closed && Last(w.d, g)
    ensures Runs(w, [ResetStaging(g)], w.(d := w.d.(staging := Written(w.d.staging, w.d.ckpts[g].now))), k)
  {
    assert Enabled(w, ResetStaging(g), k);
    hide Last, Enabled;
    RunOneIs(w, ResetStaging(g), k);
  }

  /** What recovery must do when the newest checkpoint names `t`. */
  lemma ListedRecovers(d: Disk, t: Object, fault: Fault, k: Arity)
    requires exists g: nat :: Listed(d, g)
    requires forall v: Val :: NewestIs(d, v) <==> v == Points(t)
    ensures Complete(d)
    ensures Recovers(d, fault, k) <==>
            if Intact(d) then d.staging.now == Points(t) || (fault == NoFault && !Blocked(d))
            else fault != FailRef && fault != FailStaging
    ensures Ahead(d) <==> Intact(d) && d.staging.now != Points(t)
    ensures Recovered(d, Some(if Intact(d) then d.staging.now.tree else t))
  {
    hide Listed, Intact, NewestIs, Blocked;
  }

  /** What a read of staging says of it. */
  lemma StagingReads(w: World, k: Arity)
    requires Sound(w, -1, k)
    ensures var s := ReadSnap(w.d.objects, w.d.staging.now, k);
            s != WrongArity && (s == NoRef <==> w.d.staging.now == Absent) &&
            (s.Good? ==> w.d.staging.now == Points(s.snap.tree) && s.snap.tree.Tree?) && (Intact(w.d) ==> s.Good?)
  {
    hide TreeOk, Reachable, HandleOk, CkptOk;
    if w.d.staging.now.Points? {
      var i := StagingIndex(w, k);
      MetaEntry(w.h.stores[i], w.h.trees[i], k);
      MetaRoundTrip(k, w.h.stores[i].count);
      if Intact(w.d) {
        BuiltReads(w.h.stores[i], w.h.trees[i], k, w.d.objects);
      }
    }
  }

  lemma StagingIndex(w: World, k: Arity) returns (i: nat)
    requires Sound(w, -1, k) && w.d.staging.now.Points?
    ensures i < |w.h.trees| == |w.h.stores| && w.d.staging.now == Points(w.h.trees[i])
    ensures TreeOk(w.h.stores[i], w.h.trees[i], k) && w.h.stores[i].count <= U64_MAX
  {
    hide TreeOk, Reachable, HandleOk, CkptOk;
    assert NoOlder(w.h, 0, w.d.staging.now);
    i :| 0 <= i < |w.h.trees| && w.d.staging.now == Points(w.h.trees[i]);
  }

  /** The place of the state staging is at, no older than any checkpoint that may survive. */
  lemma StagingPlace(w: World, s: Snap, last: nat, k: Arity) returns (i: nat)
    requires Sound(w, -1, k) && Last(w.d, last) && w.handle == Closed && w.d.staging.now == Points(s.tree)
    requires Reachable(s.tree) <= w.d.objects && ReadSnap(w.d.objects, w.d.staging.now, k) == SnapResult.Good(s)
    ensures Opens(w, At(i)) && TipCached(Some(s.tree), s.count, s.hasLeaves, w.h.trees, w.h.stores, i)
  {
    NewestIsLast(w.d, w.h, -1, k, last);
    hide TreeOk, Reachable, HandleOk, CkptOk;
    assert NoOlder(w.h, w.h.place[last], w.d.staging.now);
    i :| w.h.place[last] <= i < |w.h.trees| && w.d.staging.now == Points(w.h.trees[i]);
    BuiltReads(w.h.stores[i], w.h.trees[i], k, w.d.objects);
  }

  lemma UnlistedPlace(w: World, s: Snap, k: Arity) returns (i: nat)
    requires Sound(w, -1, k) && (forall g: nat :: !Listed(w.d, g)) && w.handle == Closed && Intact(w.d)
    requires ReadSnap(w.d.objects, w.d.staging.now, k) == SnapResult.Good(s)
    ensures Opens(w, At(i)) && w.d.staging.now == Points(s.tree)
    ensures TipCached(Some(s.tree), s.count, s.hasLeaves, w.h.trees, w.h.stores, i)
  {
    i := StagingIndex(w, k);
    NoneListed(w.d, w.h, -1, k);
    hide TreeOk, Reachable, HandleOk, CkptOk, Alive;
    BuiltReads(w.h.stores[i], w.h.trees[i], k, w.d.objects);
  }

  lemma FreshIs(w: World, k: Arity)
    requires w.handle == Closed && w.d.staging.now == Absent && forall g: nat :: !Listed(w.d, g)
    ensures Runs(w, [Open(Fresh)], w.(handle := Fresh), k)
  {
    OpenIs(w, Fresh, k);
  }

  /** An opened staging tree names the newest checkpoint's or is ahead of it. */
  lemma AheadIs(w: World, t: Object, last: nat)
    requires Placing(w) && Tip(w) == t && Last(w.d, last)
    ensures NamesTip(w) <==> w.d.ckpts[last].now == Points(t)
  {
  }

  lemma NewestPlace(w: World, c: Newest, k: Arity) returns (i: nat)
    requires Sound(w, -1, k) && IsNewest(w.d, w.h, Some(c)) && w.handle == Closed
    ensures i < |w.h.trees| && w.h.trees[i] == c.snap.tree && Last(w.d, c.generation)
    ensures w.d.ckpts[c.generation].now == Points(c.snap.tree)
    ensures TipCached(Some(c.snap.tree), c.snap.count, c.snap.hasLeaves, w.h.trees, w.h.stores, i)
    ensures Reachable(c.snap.tree) <= w.d.objects && forall g: nat :: Alive(w.d, w.h, g) ==>
            g in w.h.place && w.h.place[g] <= i
  {
    NewestIsLast(w.d, w.h, -1, k, c.generation);
    ListedReads(w.d, w.h, -1, k, c.generation);
    hide TreeOk, Reachable, HandleOk, CkptOk, NoOlder, ReadSnap;
    i := w.h.place[c.generation];
  }

  /** Staging set back to the newest checkpoint and synced, then opened. */
  lemma ResetRun(w: World, c: Newest, i: nat, k: Arity) returns (es: seq<Event>)
    requires w.handle == Closed && Last(w.d, c.generation) && w.d.ckpts[c.generation].now == Points(c.snap.tree)
    requires i < |w.h.trees| && w.h.trees[i] == c.snap.tree && Reachable(c.snap.tree) <= w.d.objects
    requires forall g: nat :: Alive(w.d, w.h, g) ==> g in w.h.place && w.h.place[g] <= i
    ensures var d1 := w.d.(staging := Written(w.d.staging, Points(c.snap.tree)));
            Runs(w, es, World(d1.(staging := Synced(d1.staging)), w.h, At(i)), k)
  {
    var w1 := w.(d := w.d.(staging := Written(w.d.staging, Points(c.snap.tree))));
    var w2 := w1.(d := w1.d.(staging := Synced(w1.d.staging)));
    hide Reachable;
    assert Enabled(w, ResetStaging(c.generation), k) && After(w, ResetStaging(c.generation)) == w1;
    SyncStagingIs(w1, k);
    SameRefs(w.d, w2.d, w.h, -1);
    hide Last, Alive;
    OpenIs(w2, At(i), k);
    hide *;
    RunsNone(w, k);
    RunsSnoc(w, [], w, ResetStaging(c.generation), k);
    RunsSnoc(w, [] + [ResetStaging(c.generation)], w1, Event.SyncStaging, k);
    es := [] + [ResetStaging(c.generation)] + [Event.SyncStaging] + [Open(At(i))];
    RunsConcat(w, [] + [ResetStaging(c.generation)] + [Event.SyncStaging], w2, [Open(At(i))], w2.(handle := At(i)), k);
  }

  lemma TreeParts(s: Store, t: Object, arity: Arity)
    requires TreeOk(s, t, arity)
    ensures DataOk(s, t) && EpochsOk(s.metas, t)
  {
  }

  lemma LeafParts(s: Store, t: Object, i: nat)
    requires DataOk(s, t) && i <= U64_MAX
    ensures ReadKey(t, LeafAt(i)) == if i < |s.leaves| then Some(LeafBlob(s.leaves[i])) else None
  {
    hide ReadKey;
    assert Fits(LeafAt(i));
  }

  lemma NodeParts(s: Store, t: Object, arity: Arity, alg: nat, left: nat, height: nat)
    requires TreeOk(s, t, arity) && Fits(NodeAt(alg, height, left))
    ensures ReadKey(t, NodeAt(alg, height, left)) == StoredNode(s, alg, height, left)
  {
    hide ReadKey;
  }

}
