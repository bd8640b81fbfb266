/**
 The git backend's checkpoint and recovery protocol: what a power loss may leave, the
 order in which a checkpoint makes things durable, and what recovery finds.
 */
module GitCheckpoint {
  import opened Base
  import opened Spine
  import opened Storage
  import opened GitLayout
  import opened GitTree
  import opened GitBuild

  // ------------------------------------------------------------------ reachability

  /** Everything a tree names, itself included. */
  function Reachable(o: Object): set<Object> {
    match o
    case Blob(_) => {o}
    case Tree(es) => {o} + set n, x | n in es && x in Reachable(es[n]) :: x
  }

  predicate SameEntry(old_: Option<Object>, name: string, x: Object) {
    old_.Some? && name in Entries(old_.value) && Entries(old_.value)[name] == x
  }

  /** The old subtree a changed subtree is compared with. */
  function Twin(old_: Option<Object>, name: string): Option<Object> {
    if old_.Some? && name in Entries(old_.value) && Entries(old_.value)[name].Tree?
    then Some(Entries(old_.value)[name]) else None
  }

  /** What is reachable from `t` other than through an entry identical in `old_`. */
  function Changed(t: Object, old_: Option<Object>): set<Object>
    decreases t
  {
    match t
    case Blob(_) => {t}
    case Tree(es) =>
      {t} + set n, x | n in es && !SameEntry(old_, n, es[n]) && x in Changed(es[n], Twin(old_, n)) :: x
  }

  lemma ReachableEntry(t: Object, n: string)
    requires t.Tree? && n in t.entries
    ensures Reachable(t.entries[n]) <= Reachable(t)
  {
  }

  lemma ReachableSelf(o: Object)
    ensures o in Reachable(o)
  {
  }

  lemma TwinReachable(old_: Option<Object>, name: string)
    ensures Twin(old_, name).Some? ==> Reachable(Twin(old_, name).value) <= Reachable(old_.value)
  {
    if Twin(old_, name).Some? {
      ReachableEntry(old_.value, name);
    }
  }

  function ReachableOf(old_: Option<Object>): set<Object> { if old_.None? then {} else Reachable(old_.value) }

  /** The walk covers everything new: what it skips is reachable from the old tree. */
  lemma {:induction false} ChangedCovers(t: Object, old_: Option<Object>)
    ensures Reachable(t) <= Changed(t, old_) + ReachableOf(old_)
    ensures Changed(t, old_) <= Reachable(t)
    decreases t
  {
    if t.Tree? {
      forall n | n in t.entries
        ensures Reachable(t.entries[n]) <= Changed(t, old_) + ReachableOf(old_)
        ensures !SameEntry(old_, n, t.entries[n]) ==> Changed(t.entries[n], Twin(old_, n)) <= Reachable(t)
      {
        ReachableEntry(t, n);
        if SameEntry(old_, n, t.entries[n]) {
          ReachableEntry(old_.value, n);
        } else {
          ChangedCovers(t.entries[n], Twin(old_, n));
          TwinReachable(old_, n);
        }
      }
    }
  }

  /** The part of the changed set found under the entries named. */
  ghost function ChangedUnder(t: Object, old_: Option<Object>, names: set<string>): set<Object>
    requires t.Tree?
  {
    {t} + set n, x | n in names && n in t.entries && !SameEntry(old_, n, t.entries[n]) &&
                     x in Changed(t.entries[n], Twin(old_, n)) :: x
  }

  lemma ChangedNext(t: Object, old_: Option<Object>, names: set<string>, n: string)
    requires t.Tree? && n in t.entries
    ensures ChangedUnder(t, old_, names + {n}) == ChangedUnder(t, old_, names) +
              (if SameEntry(old_, n, t.entries[n]) then {} else Changed(t.entries[n], Twin(old_, n)))
    ensures ChangedUnder(t, old_, {}) == {t} && ChangedUnder(t, old_, t.entries.Keys) == Changed(t, old_)
    ensures !SameEntry(old_, n, t.entries[n]) ==> Changed(t.entries[n], Twin(old_, n)) <= Reachable(t)
  {
    ChangedCovers(t.entries[n], Twin(old_, n));
    ReachableEntry(t, n);
    hide Reachable, Twin, SameEntry;
  }

  lemma ChangedEmpty(t: Object, old_: Option<Object>)
    requires t.Tree?
    ensures ChangedUnder(t, old_, {}) == {t} && ChangedUnder(t, old_, t.entries.Keys) == Changed(t, old_)
  {
    hide Reachable, Twin, SameEntry;
  }

  /** The recursive walk; it fails on any object that does not read. */
  method ChangedObjects(objects: set<Object>, t: Object, old_: Option<Object>) returns (r: Option<set<Object>>)
    requires t.Tree? && (old_.Some? ==> old_.value.Tree?)
    ensures r.Some? ==> r.value == Changed(t, old_) <= objects
    ensures ReachableOf(old_) <= objects ==> (r.Some? <==> Reachable(t) <= objects)
    decreases t, 1
  {
    ReachableSelf(t);
    ChangedCovers(t, old_);
    if old_.Some? {
      ReachableSelf(old_.value);
    }
    if (old_.Some? && old_.value !in objects) || t !in objects {
      return None;
    }
    ChangedEmpty(t, old_);
    r := ChangedEntries(objects, t, old_, t.entries.Keys);
  }

  /** The loop over a tree's entries. */
  method ChangedEntries(objects: set<Object>, t: Object, old_: Option<Object>, names: set<string>)
    returns (r: Option<set<Object>>)
    requires t.Tree? && names == t.entries.Keys && t in objects
    ensures r.Some? ==> r.value == ChangedUnder(t, old_, names) && r.value <= objects
    ensures ReachableOf(old_) <= objects && Reachable(t) <= objects ==> r.Some?
    decreases t, 0, 1
  {
    ChangedEmpty(t, old_);
    hide *;
    var out := {t};
    var todo := names;
    ghost var done: set<string> := {};
    while todo != {}
      invariant todo <= names && done == names - todo && out <= objects && out == ChangedUnder(t, old_, done)
      decreases |todo|
    {
      var n :| n in todo;
      var part := ChangedEntry(objects, t, old_, n);
      if part.None? {
        return None;
      }
      ChangedNext(t, old_, done, n);
      out := out + part.value;
      done := done + {n};
      todo := todo - {n};
    }
    assert done == names;
    r := Some(out);
  }

  /** One entry of the walk: skipped if identical, walked if a tree, checked if a blob. */
  method ChangedEntry(objects: set<Object>, t: Object, old_: Option<Object>, n: string) returns (r: Option<set<Object>>)
    requires t.Tree? && n in t.entries
    ensures r.Some? ==>
              r.value == (if SameEntry(old_, n, t.entries[n]) then {} else Changed(t.entries[n], Twin(old_, n))) &&
              r.value <= objects
    ensures ReachableOf(old_) <= objects && Reachable(t) <= objects ==> r.Some?
    decreases t, 0, 0
  {
    var e := t.entries[n];
    ReachableEntry(t, n);
    ReachableSelf(e);
    TwinReachable(old_, n);
    if SameEntry(old_, n, e) {
      return Some({});
    }
    if e.Tree? {
      r := ChangedObjects(objects, e, Twin(old_, n));
    } else {
      r := if e in objects then Some({e}) else None;
    }
  }

  // ------------------------------------------------------------------ the disk

  /** What a ref holds: nothing, an unreadable half-write, or a tree. */
  datatype Val = Absent | Torn | Points(tree: Object)

  /** A ref's present value, and every value a power loss might leave in its place. */
  datatype Ref = Ref(now: Val, maybe: set<Val>)

  /**
   Objects that read, those that survive a power loss, and the refs, by generation.
   `tornTaken` is how the ref library takes a create-only write over a ref that does not
   decode: as taken, or as none.  It never changes.
   */
  datatype Disk = Disk(
    objects: set<Object>, durable: set<Object>, staging: Ref, ckpts: map<nat, Ref>, tornTaken: bool)

  function EmptyDisk(tornTaken: bool): Disk { Disk({}, {}, Ref(Absent, {Absent}), map[], tornTaken) }

  /** A checkpoint ref of this generation can be created. */
  predicate Free(d: Disk, g: nat) { g in d.ckpts ==> d.ckpts[g].now == Torn && !d.tornTaken }

  /** No ref of this generation can be read, now or after a power loss. */
  ghost predicate Vacant(d: Disk, g: nat) { g in d.ckpts ==> d.ckpts[g].maybe == {Torn} }

  function Written(r: Ref, v: Val): Ref { Ref(v, r.maybe + {v, Torn}) }

  function Synced(r: Ref): Ref { Ref(r.now, {r.now}) }

  function Created(t: Object): Ref { Ref(Points(t), {Absent, Torn, Points(t)}) }

  function Deleted(r: Ref): Ref { Ref(Absent, r.maybe + {Absent}) }

  /** Any unsynced object or ref write may be lost, and a ref may be torn. */
  ghost predicate Crash(d: Disk, d': Disk) {
    && d.durable <= d'.objects <= d.objects && d'.durable == d'.objects && d'.tornTaken == d.tornTaken
    && d'.staging.now in d.staging.maybe && d'.staging.maybe == {d'.staging.now}
    && d'.ckpts.Keys <= d.ckpts.Keys
    && forall g :: g in d.ckpts ==>
         if g in d'.ckpts then
           d'.ckpts[g].now in d.ckpts[g].maybe && d'.ckpts[g].now != Absent && d'.ckpts[g].maybe == {d'.ckpts[g].now}
         else Absent in d.ckpts[g].maybe
  }

  class Repo {
    var disk: Disk

    constructor (tornTaken: bool)
      ensures disk == EmptyDisk(tornTaken)
    {
      disk := EmptyDisk(tornTaken);
    }

    method PowerLoss(lost: Disk)
      requires Crash(disk, lost)
      modifies this
      ensures disk == lost
    {
      disk := lost;
    }

    method WriteObject(o: Object)
      modifies this
      ensures disk == old(disk).(objects := old(disk).objects + {o})
    {
      disk := disk.(objects := disk.objects + {o});
    }

    method SyncObject(o: Object)
      requires o in disk.objects
      modifies this
      ensures disk == old(disk).(durable := old(disk).durable + {o})
    {
      disk := disk.(durable := disk.durable + {o});
    }

    method SetStaging(v: Val)
      modifies this
      ensures disk == old(disk).(staging := Written(old(disk).staging, v))
    {
      disk := disk.(staging := Written(disk.staging, v));
    }

    method SyncStaging()
      modifies this
      ensures disk == old(disk).(staging := Synced(old(disk).staging))
    {
      disk := disk.(staging := Synced(disk.staging));
    }

    method CreateCkpt(g: nat, t: Object)
      requires Free(disk, g)
      modifies this
      ensures disk == old(disk).(ckpts := old(disk).ckpts[g := Created(t)])
    {
      disk := disk.(ckpts := disk.ckpts[g := Created(t)]);
    }

    method SyncCkpt(g: nat)
      requires g in disk.ckpts
      modifies this
      ensures disk == old(disk).(ckpts := old(disk).ckpts[g := Synced(old(disk).ckpts[g])])
    {
      disk := disk.(ckpts := disk.ckpts[g := Synced(disk.ckpts[g])]);
    }

    method DeleteCkpt(g: nat)
      requires g in disk.ckpts
      modifies this
      ensures disk == old(disk).(ckpts := old(disk).ckpts[g := Deleted(old(disk).ckpts[g])])
    {
      disk := disk.(ckpts := disk.ckpts[g := Deleted(disk.ckpts[g])]);
    }
  }

  /** A power loss that leaves this value of a ref, or no ref. */
  function Lost(d: Disk, g: nat, left: Val): Disk {
    d.(ckpts := if left == Absent then map u | u in d.ckpts && u != g :: d.ckpts[u]
                else d.ckpts[g := Ref(left, {left})])
  }

  /**
   What a power loss may make of a ref write that was not synced: the staging ref moved, torn
   or as it was; a new checkpoint ref there, torn or gone; a dropped one gone or as it was.
   */
  lemma UnsyncedMayRevert(d: Disk, lost: Disk, v: Val, left: Val, g: nat, t: Object)
    requires Crash(d, lost)
    ensures left in d.staging.maybe || left == v || left == Torn ==>
              Crash(d.(staging := Written(d.staging, v)), lost.(staging := Ref(left, {left})))
    ensures left in {Points(t), Torn, Absent} ==> Crash(d.(ckpts := d.ckpts[g := Created(t)]), Lost(lost, g, left))
    ensures g in d.ckpts && (left in d.ckpts[g].maybe || left == Absent) ==>
              Crash(d.(ckpts := d.ckpts[g := Deleted(d.ckpts[g])]), Lost(lost, g, left))
  {
  }

  // ------------------------------------------------------------------ reading refs

  datatype Snap = Snap(tree: Object, count: nat, hasLeaves: bool)

  datatype SnapResult = NoRef | Good(snap: Snap) | Broken | WrongArity

  function ReadSnap(objects: set<Object>, v: Val, arity: nat): SnapResult {
    match v
    case Absent => NoRef
    case Torn => Broken
    case Points(t) =>
      if t !in objects || !t.Tree? then Broken else
      match FindEntry(t, "meta")
      case None => Broken
      case Some(m) =>
        if m !in objects then Broken else
        match m
        case Blob(Raw(bytes)) =>
          (match DecodeMeta(bytes)
           case None => Broken
           case Some(meta) =>
             if meta.0 != arity then WrongArity else Good(Snap(t, meta.1, FindEntry(t, "leaves").Some?)))
        case _ => Broken
  }

  /**
   What counts as a snapshot: a tree that is there, with a metadata entry that is there and
   encodes this arity and the count.  One that encodes another arity is told apart.
   */
  lemma SnapIs(objects: set<Object>, v: Val, arity: nat, s: Snap)
    ensures ReadSnap(objects, v, arity) == Good(s) <==>
            v == Points(s.tree) && s.tree in objects && s.tree.Tree? && arity < 65536 && s.count <= U64_MAX &&
            ReadKey(s.tree, MetaKey) == Some(LeafBlob(EncodeMeta(arity, s.count))) &&
            LeafBlob(EncodeMeta(arity, s.count)) in objects &&
            (s.hasLeaves <==> FindEntry(s.tree, "leaves").Some?)
    ensures ReadSnap(objects, v, arity) == WrongArity <==>
            v.Points? && v.tree in objects && v.tree.Tree? &&
            exists other: nat, count: nat ::
              other != arity && other < 65536 && count <= U64_MAX &&
              ReadKey(v.tree, MetaKey) == Some(LeafBlob(EncodeMeta(other, count))) &&
              LeafBlob(EncodeMeta(other, count)) in objects
  {
    if v.Points? {
      MetaRead(v.tree);
      hide EncodeMeta, DecodeMeta, ReadKey;
      forall a: nat, c: nat | a < 65536 && c <= U64_MAX
        ensures DecodeMeta(EncodeMeta(a, c)) == Some((a, c))
      {
        MetaRoundTrip(a, c);
      }
      if v.tree.Tree? && FindEntry(v.tree, "meta").Some? {
        match FindEntry(v.tree, "meta").value
        case Blob(Raw(bytes)) => MetaDecoded(bytes);
        case _ =>
      }
    }
  }

  lemma MetaRead(t: Object)
    ensures ReadKey(t, MetaKey) == FindEntry(t, "meta")
  {
    hide Trimmed, Hex;
    var p := PathOf(MetaKey);
    assert p[1..] == [];
    ResolveUnfold(t, p);
    if FindEntry(t, "meta").Some? {
      ResolveNone(FindEntry(t, "meta").value);
    }
  }

  /** A tree the backend built reads as a snapshot of its store, once its objects are present. */
  lemma BuiltReads(s: Store, t: Object, arity: Arity, objects: set<Object>)
    requires TreeOk(s, t, arity) && s.count <= U64_MAX && Reachable(t) <= objects
    ensures t.Tree? && ReadSnap(objects, Points(t), arity) == Good(Snap(t, s.count, s.leaves != []))
  {
    MetaEntry(s, t, arity);
    MetaRoundTrip(arity, s.count);
    ReachableSelf(t);
    ReachableEntry(t, "meta");
    ReachableSelf(t.entries["meta"]);
  }

  lemma MetaEntry(s: Store, t: Object, arity: Arity)
    requires TreeOk(s, t, arity)
    ensures t.Tree? && FindEntry(t, "meta") == Some(LeafBlob(EncodeMeta(arity, s.count)))
    ensures FindEntry(t, "leaves").Some? <==> s.leaves != []
  {
    hide EncodeMeta, Trimmed, Hex;
    var p := PathOf(MetaKey);
    assert p[1..] == [];
    ResolveUnfold(t, p);
  }

  // ------------------------------------------------------------------ the invariant

  /** The states applied so far, oldest first, and the checkpoint refs' places among them. */
  datatype History = History(trees: seq<Object>, stores: seq<Store>, place: map<nat, nat>)

  /** A torn ref, or a state no older than place `a`. */
  ghost predicate NoOlder(h: History, a: nat, v: Val) {
    v == Torn || exists i: nat :: a <= i < |h.trees| && v == Points(h.trees[i])
  }

  ghost predicate HistoryOk(h: History, arity: Arity) {
    && |h.stores| == |h.trees|
    && forall i :: 0 <= i < |h.trees| ==> TreeOk(h.stores[i], h.trees[i], arity) && h.stores[i].count <= U64_MAX
  }

  /** A checkpoint ref that is there now, or might be after a power loss. */
  ghost predicate Alive(d: Disk, h: History, g: nat) {
    g in d.ckpts && g in h.place && h.place[g] < |h.trees| && Points(h.trees[h.place[g]]) in d.ckpts[g].maybe
  }

  /** The checkpoint ref survives any power loss. */
  ghost predicate Kept(d: Disk, h: History, g: nat) {
    g in d.ckpts && g in h.place && h.place[g] < |h.trees| && d.ckpts[g].maybe == {Points(h.trees[h.place[g]])}
  }

  ghost predicate CkptOk(d: Disk, h: History, g: nat)
    requires g in d.ckpts
  {
    var r := d.ckpts[g];
    && g in h.place && h.place[g] < |h.trees|
    && r.now in r.maybe && r.maybe <= {Absent, Torn, Points(h.trees[h.place[g]])}
    && (r.now == Torn ==> r.maybe == {Torn})
    && (r.now == Absent ==> exists g': nat :: g' > g && g' in d.ckpts && d.ckpts[g'].now.Points?)
  }

  /**
   What holds in every state the disk passes through.  A checkpoint ref that may survive
   names a tree whose every object survives, and staging can then only be at that state,
   at a later one, or torn.  `promised` is the place of a state that has to stay
   recoverable, or -1.
   */
  ghost predicate Safe(d: Disk, h: History, promised: int, arity: Arity) {
    && HistoryOk(h, arity) && d.durable <= d.objects
    && d.staging.now in d.staging.maybe
    && (forall v :: v in d.staging.maybe ==> v == Absent || NoOlder(h, 0, v))
    && (forall g :: g in d.ckpts ==> CkptOk(d, h, g))
    && (forall g :: Alive(d, h, g) ==> Reachable(h.trees[h.place[g]]) <= d.durable)
    && (forall g, v :: Alive(d, h, g) && v in d.staging.maybe ==> NoOlder(h, h.place[g], v))
    && (forall g, g' :: Alive(d, h, g) && Alive(d, h, g') && g < g' ==> h.place[g] < h.place[g'])
    && promised < |h.trees|
    && (promised >= 0 ==> exists g :: Kept(d, h, g) && h.place[g] >= promised)
  }

  /** A power loss in a safe state leaves a safe state. */
  lemma CrashKeeps(d: Disk, d': Disk, h: History, promised: int, arity: Arity)
    requires Safe(d, h, promised, arity) && Crash(d, d')
    ensures Safe(d', h, promised, arity)
  {
    hide Reachable, HistoryOk, NoOlder;
    forall g | g in d'.ckpts
      ensures CkptOk(d', h, g)
    {
      assert CkptOk(d, h, g);
    }
    forall g | Alive(d', h, g)
      ensures Alive(d, h, g)
    {
    }
    if promised >= 0 {
      var g :| Kept(d, h, g) && h.place[g] >= promised;
      assert Kept(d', h, g);
    }
  }

  // ------------------------------------------------------------------ what each write keeps

  lemma SafeWrite(d: Disk, o: Object, h: History, p: int, arity: Arity)
    requires Safe(d, h, p, arity)
    ensures Safe(d.(objects := d.objects + {o}), h, p, arity)
    ensures o in d.objects ==> Safe(d.(durable := d.durable + {o}), h, p, arity)
  {
    hide HistoryOk, NoOlder, Reachable;
    SameRefs(d, d.(objects := d.objects + {o}), h, p);
    SameRefs(d, d.(durable := d.durable + {o}), h, p);
  }

  lemma SameRefs(d: Disk, d': Disk, h: History, p: int)
    requires d'.ckpts == d.ckpts
    ensures forall g :: Alive(d', h, g) <==> Alive(d, h, g)
    ensures forall g :: Kept(d', h, g) <==> Kept(d, h, g)
    ensures forall g :: g in d.ckpts ==> (CkptOk(d', h, g) <==> CkptOk(d, h, g))
  {
  }

  /** The history after one more state. */
  function Extend(h: History, t: Object, s: Store): History { History(h.trees + [t], h.stores + [s], h.place) }

  lemma SafeExtend(d: Disk, h: History, p: int, arity: Arity, t: Object, s: Store)
    requires Safe(d, h, p, arity) && TreeOk(s, t, arity) && s.count <= U64_MAX
    ensures Safe(d, Extend(h, t, s), p, arity)
  {
    hide TreeOk, Reachable;
    var h' := Extend(h, t, s);
    forall a: nat, v | NoOlder(h, a, v)
      ensures NoOlder(h', a, v)
    {
      if v != Torn {
        var i: nat :| a <= i < |h.trees| && v == Points(h.trees[i]);
        assert v == Points(h'.trees[i]);
      }
    }
    hide NoOlder;
    forall g | g in d.ckpts
      ensures CkptOk(d, h', g) && (Alive(d, h', g) <==> Alive(d, h, g)) && (Kept(d, h', g) <==> Kept(d, h, g))
    {
      assert CkptOk(d, h, g);
    }
  }

  /** Staging may be moved to the newest state at any time. */
  lemma SafeSetStaging(d: Disk, h: History, p: int, arity: Arity, t: Object, at: nat)
    requires Safe(d, h, p, arity) && at < |h.trees| && h.trees[at] == t
    requires forall g :: Alive(d, h, g) ==> h.place[g] <= at
    ensures Safe(d.(staging := Written(d.staging, Points(t))), h, p, arity)
  {
    hide HistoryOk, Reachable;
    var d' := d.(staging := Written(d.staging, Points(t)));
    SameRefs(d, d', h, p);
    forall a: nat | a <= at
      ensures NoOlder(h, a, Points(t)) && NoOlder(h, a, Torn)
    {
    }
    hide NoOlder;
  }

  lemma SafeSyncStaging(d: Disk, h: History, p: int, arity: Arity)
    requires Safe(d, h, p, arity)
    ensures Safe(d.(staging := Synced(d.staging)), h, p, arity)
  {
    hide HistoryOk, NoOlder, Reachable;
    SameRefs(d, d.(staging := Synced(d.staging)), h, p);
  }

  function Placed(h: History, g: nat, at: nat): History { h.(place := h.place[g := at]) }

  lemma FreeIsVacant(d: Disk, h: History, p: int, arity: Arity, g: nat)
    requires Safe(d, h, p, arity) && Free(d, g)
    ensures Vacant(d, g)
  {
    hide HistoryOk, Reachable, NoOlder;
    assert g in d.ckpts ==> CkptOk(d, h, g);
  }

  /** Giving a generation its place changes nothing while no ref of that generation can be read. */
  lemma SafePlace(d: Disk, h: History, p: int, arity: Arity, g: nat, at: nat)
    requires Safe(d, h, p, arity) && Vacant(d, g) && at < |h.trees|
    ensures Safe(d, Placed(h, g, at), p, arity)
  {
    hide TreeOk, Reachable;
    var h' := Placed(h, g, at);
    forall a: nat, v
      ensures NoOlder(h', a, v) <==> NoOlder(h, a, v)
    {
    }
    hide NoOlder;
    assert g in d.ckpts ==> !Alive(d, h, g) && !Alive(d, h', g);
    forall g' | g' in d.ckpts
      ensures CkptOk(d, h', g') && (Kept(d, h', g') ==> Kept(d, h, g')) && (Kept(d, h, g') ==> Kept(d, h', g'))
      ensures Alive(d, h', g') <==> Alive(d, h, g')
      ensures Alive(d, h, g') ==> g' in h.place && h'.place[g'] == h.place[g']
    {
      assert CkptOk(d, h, g');
    }
    hide CkptOk, Alive, Kept, HistoryOk;
    assert HistoryOk(h', arity) by {
      SameHistory(h, h', arity);
    }
  }

  lemma SameHistory(h: History, h': History, arity: Arity)
    requires HistoryOk(h, arity) && h'.trees == h.trees && h'.stores == h.stores
    ensures HistoryOk(h', arity)
  {
    hide TreeOk;
  }

  /** A checkpoint ref may be created once its tree and a staging ref at it are durable. */
  lemma SafeCreate(d: Disk, h: History, p: int, arity: Arity, g: nat, t: Object, at: nat)
    requires Safe(d, h, p, arity) && Vacant(d, g) && at < |h.trees| && h.trees[at] == t && g in h.place &&
             h.place[g] == at
    requires Reachable(t) <= d.durable && d.staging.maybe == {Points(t)}
    requires forall g': nat :: Alive(d, h, g') ==> g' < g && h.place[g'] < at
    ensures Safe(d.(ckpts := d.ckpts[g := Created(t)]), h, p, arity)
  {
    hide HistoryOk, Reachable;
    var d' := d.(ckpts := d.ckpts[g := Created(t)]);
    assert NoOlder(h, at, Points(t));
    hide NoOlder;
    assert g in d.ckpts ==> !Alive(d, h, g) && !Kept(d, h, g);
    assert CkptOk(d', h, g) && d'.ckpts.Keys == d.ckpts.Keys + {g};
    forall g' | g' in d.ckpts && g' != g
      ensures CkptOk(d', h, g') && (Alive(d', h, g') <==> Alive(d, h, g')) && (Kept(d', h, g') <==> Kept(d, h, g'))
    {
      CreatedOther(d, h, g, t, g');
    }
    hide CkptOk, Alive, Kept;
    CreatedOnly(d, d', h, g);
  }

  /** The other refs are as they were. */
  lemma CreatedOther(d: Disk, h: History, g: nat, t: Object, g': nat)
    requires Vacant(d, g) && g' in d.ckpts && g' != g && CkptOk(d, h, g')
    requires forall u :: u in d.ckpts ==> d.ckpts[u].now in d.ckpts[u].maybe
    ensures var d' := d.(ckpts := d.ckpts[g := Created(t)]);
            CkptOk(d', h, g') && (Alive(d', h, g') <==> Alive(d, h, g')) && (Kept(d', h, g') <==> Kept(d, h, g'))
  {
    if d.ckpts[g'].now == Absent {
      var u: nat :| u > g' && u in d.ckpts && d.ckpts[u].now.Points?;
      var d' := d.(ckpts := d.ckpts[g := Created(t)]);
      assert d'.ckpts[u].now.Points?;
    }
  }

  lemma CreatedOnly(d: Disk, d': Disk, h: History, g: nat)
    requires d'.ckpts.Keys == d.ckpts.Keys + {g}
    ensures forall u :: Alive(d', h, u) ==> u == g || u in d.ckpts
    ensures forall u :: Alive(d, h, u) || Kept(d, h, u) ==> u in d.ckpts
  {
  }

  /** Once synced, the checkpoint ref keeps its promise. */
  lemma SafeSyncCkpt(d: Disk, h: History, p: int, arity: Arity, g: nat)
    requires Safe(d, h, p, arity) && g in d.ckpts && d.ckpts[g].now.Points?
    ensures var d' := d.(ckpts := d.ckpts[g := Synced(d.ckpts[g])]);
            Safe(d', h, p, arity) && Kept(d', h, g) && Alive(d, h, g)
  {
    hide HistoryOk, Reachable, NoOlder;
    var d' := d.(ckpts := d.ckpts[g := Synced(d.ckpts[g])]);
    assert CkptOk(d, h, g);
    forall g' | g' in d.ckpts
      ensures CkptOk(d', h, g') && (Alive(d', h, g') ==> Alive(d, h, g')) && (Kept(d, h, g') ==> Kept(d', h, g'))
    {
      assert CkptOk(d, h, g');
      if d.ckpts[g'].now == Absent {
        var u: nat :| u > g' && u in d.ckpts && d.ckpts[u].now.Points?;
        assert d'.ckpts[u].now.Points?;
      }
    }
  }

  /** An older checkpoint may go once a newer one is kept. */
  lemma SafeDelete(d: Disk, h: History, p: int, arity: Arity, g: nat, keep: nat)
    requires Safe(d, h, p, arity) && g in d.ckpts && g < keep && Kept(d, h, keep) && h.place[keep] >= p
    ensures var d' := d.(ckpts := d.ckpts[g := Deleted(d.ckpts[g])]);
            Safe(d', h, p, arity) && Kept(d', h, keep)
  {
    hide HistoryOk, Reachable, NoOlder;
    var d' := d.(ckpts := d.ckpts[g := Deleted(d.ckpts[g])]);
    assert CkptOk(d, h, keep) && d.ckpts[keep].now.Points?;
    forall g' | g' in d.ckpts
      ensures CkptOk(d', h, g') && (Alive(d', h, g') <==> Alive(d, h, g'))
    {
      assert CkptOk(d, h, g');
      if d'.ckpts[g'].now == Absent {
        LaterListed(d, h, g', keep, g);
        var u: nat :| u > g' && u in d.ckpts && u != g && d.ckpts[u].now.Points?;
        assert d'.ckpts[u].now.Points?;
      }
    }
    assert Kept(d', h, keep);
  }

  /** Below a listed generation, or itself listed: some other listed generation stays above. */
  lemma LaterListed(d: Disk, h: History, g': nat, keep: nat, g: nat)
    requires g in d.ckpts && g < keep && keep in d.ckpts && d.ckpts[keep].now.Points? && g' in d.ckpts
    requires g' == g || (exists u: nat :: u > g' && u in d.ckpts && d.ckpts[u].now.Points?)
    ensures exists u: nat :: u > g' && u in d.ckpts && u != g && d.ckpts[u].now.Points?
  {
    if g' != g {
      var u: nat :| u > g' && u in d.ckpts && d.ckpts[u].now.Points?;
      if u == g {
        assert keep > g';
      }
    }
  }

  lemma Promise(d: Disk, h: History, p: int, arity: Arity, g: nat, q: int)
    requires Safe(d, h, p, arity) && Kept(d, h, g) && q <= h.place[g]
    ensures Safe(d, h, q, arity)
  {
    hide HistoryOk, Reachable, NoOlder, CkptOk;
  }

  /** Every listed checkpoint reads, and the newest is at or after every one that may survive. */
  lemma ListedReads(d: Disk, h: History, p: int, arity: Arity, g: nat)
    requires Safe(d, h, p, arity) && g in d.ckpts && d.ckpts[g].now.Points?
    ensures Alive(d, h, g)
    ensures var a := h.place[g];
            d.ckpts[g].now == Points(h.trees[a]) &&
            ReadSnap(d.objects, d.ckpts[g].now, arity)
              == Good(Snap(h.trees[a], h.stores[a].count, h.stores[a].leaves != [])) &&
            Reachable(h.trees[a]) <= d.durable && h.trees[a].Tree?
  {
    hide Reachable, NoOlder, ReadSnap, TreeOk;
    assert CkptOk(d, h, g);
    var a := h.place[g];
    BuiltReads(h.stores[a], h.trees[a], arity, d.objects);
  }

  ghost predicate Listed(d: Disk, g: nat) { g in d.ckpts && d.ckpts[g].now.Points? }

  lemma NewestIsLast(d: Disk, h: History, p: int, arity: Arity, last: nat)
    requires Safe(d, h, p, arity) && Listed(d, last) && forall g: nat :: Listed(d, g) ==> g <= last
    ensures Alive(d, h, last) && forall g: nat :: Alive(d, h, g) ==> g <= last && h.place[g] <= h.place[last]
    ensures p <= h.place[last]
    ensures forall g :: g in d.ckpts && g > last ==> d.ckpts[g].now == Torn
  {
    hide Reachable, NoOlder, HistoryOk;
    assert CkptOk(d, h, last);
    forall g | g in d.ckpts
      ensures Alive(d, h, g) ==> g <= last
      ensures g > last ==> d.ckpts[g].now == Torn
    {
      assert CkptOk(d, h, g) && (Listed(d, g) <==> d.ckpts[g].now.Points?);
      if d.ckpts[g].now == Absent {
        var u: nat :| u > g && u in d.ckpts && d.ckpts[u].now.Points?;
        assert Listed(d, u);
      }
    }
    if p >= 0 {
      var g :| Kept(d, h, g) && h.place[g] >= p;
      assert Alive(d, h, g);
    }
  }

  lemma ListedAbove(d: Disk, h: History, g: nat)
    requires g in d.ckpts && CkptOk(d, h, g)
    ensures d.ckpts[g].now == Absent ==> exists u: nat :: Listed(d, u)
    ensures d.ckpts[g].now.Points? ==> Listed(d, g)
    ensures Kept(d, h, g) ==> Listed(d, g)
  {
    if d.ckpts[g].now == Absent {
      var u: nat :| u > g && u in d.ckpts && d.ckpts[u].now.Points?;
      assert Listed(d, u);
    }
  }

  lemma NoneListed(d: Disk, h: History, p: int, arity: Arity)
    requires Safe(d, h, p, arity) && forall g: nat :: !Listed(d, g)
    ensures p < 0 && (forall g :: !Alive(d, h, g)) && forall g :: g in d.ckpts ==> d.ckpts[g].now == Torn
  {
    hide Reachable, NoOlder, HistoryOk;
    forall g | g in d.ckpts
      ensures d.ckpts[g].now == Torn && !Kept(d, h, g)
    {
      assert CkptOk(d, h, g);
      ListedAbove(d, h, g);
    }
  }

  lemma AliveDelete(d: Disk, d': Disk, h: History, g: nat)
    requires g in d.ckpts && d' == d.(ckpts := d.ckpts[g := Deleted(d.ckpts[g])])
    ensures forall u: nat :: Alive(d', h, u) ==> Alive(d, h, u)
  {
  }

  lemma AlivePlace(d: Disk, h: History, g: nat, at: nat)
    requires Vacant(d, g)
    ensures forall u :: Alive(d, Placed(h, g, at), u) <==> Alive(d, h, u)
  {
  }

  lemma AtLeastPromised(d: Disk, h: History, p: int, arity: Arity, at: nat)
    requires Safe(d, h, p, arity) && forall g: nat :: Alive(d, h, g) ==> h.place[g] <= at
    ensures p <= at
  {
    hide Reachable, HistoryOk, NoOlder, CkptOk;
    if p >= 0 {
      var g :| Kept(d, h, g) && h.place[g] >= p;
      assert Alive(d, h, g);
    }
  }

  lemma AliveExtend(d: Disk, h: History, t: Object, s: Store)
    requires forall g :: g in d.ckpts ==> g in h.place && h.place[g] < |h.trees|
    ensures forall g :: Alive(d, Extend(h, t, s), g) ==> Alive(d, h, g) && Extend(h, t, s).place[g] <= |h.trees|
  {
  }

  lemma SafeBound(d: Disk, h: History, p: int, arity: Arity)
    requires Safe(d, h, p, arity)
    ensures |h.stores| == |h.trees| && forall g :: g in d.ckpts ==> g in h.place && h.place[g] < |h.trees|
  {
    hide Reachable, TreeOk, NoOlder;
    forall g | g in d.ckpts
      ensures g in h.place && h.place[g] < |h.trees|
    {
      assert CkptOk(d, h, g);
    }
  }
}
