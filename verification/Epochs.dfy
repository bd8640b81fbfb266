/**
 The activation timeline: one algorithm's half-open epochs, the questions a view asks
 of them, the snapshot committed at a size, and the append-only evolution check.
 */
module Epochs {
  import opened Base

  /** Active on `[start, end)`; `end == OPEN` means still active. */
  datatype Epoch = Epoch(start: nat, end: nat)

  const OPEN: nat := U64_MAX

  /** The timeline a resumption assumes for an algorithm the seal gives none for. */
  const FROM_GENESIS: seq<Epoch> := [Epoch(0, OPEN)]

  predicate ActiveAt(es: seq<Epoch>, i: nat) {
    exists j :: 0 <= j < |es| && es[j].start <= i < es[j].end
  }

  predicate IsActive(es: seq<Epoch>) { |es| > 0 && es[|es| - 1].end == OPEN }

  /** The algorithm's own tree size: it stops growing while frozen. */
  function TreeSize(es: seq<Epoch>, globalSize: nat): nat {
    if IsActive(es) then globalSize else if |es| == 0 then 0 else es[|es| - 1].end
  }

  function FirstActivation(es: seq<Epoch>): nat { if |es| == 0 then 0 else es[0].start }

  predicate ActiveRange(es: seq<Epoch>, lo: nat, hi: nat) {
    exists j :: 0 <= j < |es| && es[j].start < hi && es[j].end > lo
  }

  /**
   A range is met by an epoch exactly if it holds an active position, or an epoch opened and
   closed at one size strictly inside it.
   */
  lemma RangeIs(es: seq<Epoch>, lo: nat, hi: nat)
    requires lo < hi && forall j :: 0 <= j < |es| ==> es[j].start <= es[j].end
    ensures ActiveRange(es, lo, hi) <==>
            (exists i :: lo <= i < hi && ActiveAt(es, i)) ||
            exists j :: 0 <= j < |es| && es[j].start == es[j].end && lo < es[j].start < hi
  {
    if j :| 0 <= j < |es| && es[j].start < hi && es[j].end > lo && es[j].start < es[j].end {
      var i := if es[j].start < lo then lo else es[j].start;
      assert ActiveAt(es, i);
    }
  }

  predicate FullyActive(es: seq<Epoch>, lo: nat, hi: nat) {
    exists j :: 0 <= j < |es| && es[j].start <= lo && hi <= es[j].end
  }

  /** The largest epoch end below `size`, or zero. */
  function MaxEndBelow(es: seq<Epoch>, size: nat): nat {
    if |es| == 0 then 0
    else
      var rest := MaxEndBelow(es[..|es| - 1], size);
      var e := es[|es| - 1].end;
      if e < size && e > rest then e else rest
  }

  /** The tree size of the algorithm when the log had `size` entries. */
  function EffectiveSize(es: seq<Epoch>, size: nat): nat {
    if size <= FirstActivation(es) || ActiveAt(es, size - 1) then size else MaxEndBelow(es, size)
  }

  /** `e` is the latest epoch end below `size`, or 0 if there is none. */
  ghost predicate IsLastEnd(es: seq<Epoch>, size: nat, e: nat) {
    && (e == 0 || (e < size && exists j :: 0 <= j < |es| && es[j].end == e))
    && forall j :: 0 <= j < |es| && es[j].end < size ==> es[j].end <= e
  }

  lemma {:induction false} LastEndIs(es: seq<Epoch>, size: nat)
    ensures IsLastEnd(es, size, MaxEndBelow(es, size))
    ensures forall e :: IsLastEnd(es, size, e) ==> e == MaxEndBelow(es, size)
  {
    if |es| > 0 {
      var init, last := es[..|es| - 1], |es| - 1;
      LastEndIs(init, size);
      assert es == init + [es[last]];
      assert forall j :: 0 <= j < last ==> init[j] == es[j];
      var r := MaxEndBelow(init, size);
      if r > 0 {
        var j :| 0 <= j < |init| && init[j].end == r;
        assert es[j].end == r;
      }
    }
  }

  /**
   The historical size: the size asked for while the algorithm is active at its last
   position or has not begun, and else where its latest epoch before it ended.
   */
  lemma EffectiveIs(es: seq<Epoch>, size: nat)
    requires |es| > 0
    ensures size <= es[0].start || (size > 0 && ActiveAt(es, size - 1)) ==> EffectiveSize(es, size) == size
    ensures size > es[0].start && !ActiveAt(es, size - 1) ==>
              forall e :: IsLastEnd(es, size, e) <==> e == EffectiveSize(es, size)
  {
    hide ActiveAt;
    if size > es[0].start && !ActiveAt(es, size - 1) {
      LastEndIs(es, size);
      hide IsLastEnd;
    }
  }

  /** Nonempty, ordered, disjoint, and not reaching past `size` except by a last open epoch. */
  ghost predicate WellFormed(es: seq<Epoch>, size: nat) {
    && |es| > 0
    && (forall i :: 0 <= i < |es| ==> es[i].start <= es[i].end && es[i].start <= size)
    && (forall i, j :: 0 <= i < j < |es| ==> es[i].end <= es[j].start)
    && (forall i :: 0 <= i < |es| && es[i].end > size ==> es[i].end == OPEN && i == |es| - 1)
    && (forall i :: 0 <= i < |es| - 1 ==> es[i].end != OPEN)
  }

  /** The loop that validates a committed timeline. */
  method ValidateEpochs(es: seq<Epoch>, size: nat) returns (ok: bool)
    requires size <= OPEN
    requires forall i :: 0 <= i < |es| ==> es[i].end <= OPEN
    ensures ok <==> WellFormed(es, size)
  {
    if es == [] {
      return false;
    }
    var lastEnd := 0;
    for n := 0 to |es|
      invariant forall i :: 0 <= i < n ==> es[i].start <= es[i].end <= lastEnd && es[i].start <= size
      invariant forall i, j :: 0 <= i < j < n ==> es[i].end <= es[j].start
      invariant forall i :: 0 <= i < n && es[i].end > size ==> es[i].end == OPEN && i == |es| - 1
      invariant forall i :: 0 <= i < n && i < |es| - 1 ==> es[i].end != OPEN
      invariant lastEnd == if n == 0 then 0 else es[n - 1].end
    {
      var e := es[n];
      if e.start > e.end || e.start < lastEnd {
        return false;
      }
      if e.end == OPEN {
        if n != |es| - 1 || e.start > size {
          return false;
        }
      } else if e.end > size {
        return false;
      }
      lastEnd := e.end;
    }
    ok := true;
  }

  // ------------------------------------------------------------------ snapshots

  /** The timeline as it stood when the log had `size` entries. */
  function EpochsFrom(es: seq<Epoch>, size: nat): seq<Epoch> {
    if |es| == 0 || es[0].start > size then []
    else if es[0].end > size then [Epoch(es[0].start, OPEN)]
    else [es[0]] + EpochsFrom(es[1..], size)
  }

  function EpochsAt(es: seq<Epoch>, size: nat): Option<seq<Epoch>> {
    var out := EpochsFrom(es, size);
    if |out| == 0 then None else Some(out)
  }

  lemma EpochsFromAt(es: seq<Epoch>, size: nat, n: nat)
    requires n < |es|
    ensures EpochsFrom(es[n..], size) ==
            if es[n].start > size then []
            else if es[n].end > size then [Epoch(es[n].start, OPEN)]
            else [es[n]] + EpochsFrom(es[n + 1..], size)
  {
    assert es[n..][0] == es[n] && es[n..][1..] == es[n + 1..];
  }

  lemma EpochsShift(out: seq<Epoch>, e: Epoch, rest: seq<Epoch>)
    ensures out + ([e] + rest) == out + [e] + rest
  {
  }

  method CommittedEpochs(es: seq<Epoch>, size: nat) returns (r: Option<seq<Epoch>>)
    ensures r == EpochsAt(es, size)
  {
    var out: seq<Epoch> := [];
    var n := 0;
    assert es[0..] == es;
    ghost var all := EpochsFrom(es, size);
    while n < |es|
      invariant n <= |es|
      invariant all == out + EpochsFrom(es[n..], size)
    {
      EpochsFromAt(es, size, n);
      hide EpochsFrom;
      var e := es[n];
      if e.start > size {
        break;
      }
      if e.end > size {
        out := out + [Epoch(e.start, OPEN)];
        break;
      }
      EpochsShift(out, e, EpochsFrom(es[n + 1..], size));
      out := out + [e];
      n := n + 1;
    }
    assert all == out;
    r := if out == [] then None else Some(out);
  }

  /** What each snapshot entry is, by index. */
  lemma {:induction false} EpochsFromShape(es: seq<Epoch>, size: nat)
    requires forall i, j :: 0 <= i < j < |es| ==> es[i].end <= es[j].start
    requires forall i :: 0 <= i < |es| ==> es[i].start <= es[i].end
    ensures var r := EpochsFrom(es, size);
            |r| <= |es| &&
            (forall i :: 0 <= i < |r| ==>
              es[i].start <= size &&
              r[i] == (if es[i].end > size then Epoch(es[i].start, OPEN) else es[i])) &&
            (forall i :: 0 <= i < |r| && es[i].end > size ==> i == |r| - 1) &&
            (forall i :: |r| <= i < |es| ==>
              es[i].start > size || (|r| > 0 && es[|r| - 1].end > size))
  {
    if |es| > 0 && es[0].start <= size && es[0].end <= size {
      EpochsFromShape(es[1..], size);
      var t, r := EpochsFrom(es[1..], size), EpochsFrom(es, size);
      forall i | 0 <= i < |r|
        ensures es[i].start <= size
        ensures r[i] == (if es[i].end > size then Epoch(es[i].start, OPEN) else es[i])
        ensures es[i].end > size ==> i == |r| - 1
      {
        if i > 0 {
          assert r[i] == t[i - 1] && es[1..][i - 1] == es[i];
        }
      }
      forall i | |r| <= i < |es|
        ensures es[i].start > size || es[|r| - 1].end > size
      {
        assert es[1..][i - 1] == es[i];
        if |t| > 0 {
          assert es[1..][|t| - 1] == es[|r| - 1];
        }
      }
    }
  }

  /** A snapshot is well-formed at its size and has the same activity below it. */
  lemma SnapshotActivity(es: seq<Epoch>, size: nat, total: nat)
    requires WellFormed(es, total) && size <= total < OPEN
    ensures EpochsAt(es, size).Some? <==> es[0].start <= size
    ensures EpochsAt(es, size).Some? ==> WellFormed(EpochsAt(es, size).value, size)
    ensures forall i :: 0 <= i < size ==> (ActiveAt(EpochsFrom(es, size), i) <==> ActiveAt(es, i))
  {
    EpochsFromShape(es, size);
    var r := EpochsFrom(es, size);
    forall i | 0 <= i < size
      ensures ActiveAt(r, i) <==> ActiveAt(es, i)
    {
      if ActiveAt(es, i) {
        var j :| 0 <= j < |es| && es[j].start <= i < es[j].end;
        assert j < |r|;
        assert r[j].start <= i < r[j].end;
      }
    }
  }

  // ------------------------------------------------------------------ evolution

  /** One algorithm's part of the evolution check. */
  predicate Evolves(old_: seq<Epoch>, oldSize: nat, new_: seq<Epoch>)
    requires |old_| > 0
  {
    var last := |old_| - 1;
    && |new_| >= |old_|
    && new_[..last] == old_[..last]
    && new_[last].start == old_[last].start
    && (if old_[last].end == OPEN then new_[last].end == OPEN || new_[last].end >= oldSize
        else new_[last].end == old_[last].end)
    && forall i :: |old_| <= i < |new_| ==> new_[i].start >= oldSize
  }

  /** A committed timeline: algorithm ids, strictly increasing, with their epochs. */
  datatype Entry = Entry(id: nat, epochs: seq<Epoch>)
  type Timeline = seq<Entry>

  ghost predicate SortedIds(t: Timeline) {
    forall i, j :: 0 <= i < j < |t| ==> t[i].id < t[j].id
  }

  ghost predicate ValidTimeline(t: Timeline, size: nat) {
    SortedIds(t) && forall i :: 0 <= i < |t| ==> WellFormed(t[i].epochs, size)
  }

  function Lookup(t: Timeline, id: nat): Option<seq<Epoch>> {
    if |t| == 0 then None
    else if t[|t| - 1].id == id then Some(t[|t| - 1].epochs)
    else Lookup(t[..|t| - 1], id)
  }

  lemma {:induction false} LookupIs(t: Timeline, id: nat)
    requires SortedIds(t)
    ensures forall i :: 0 <= i < |t| && t[i].id == id ==> Lookup(t, id) == Some(t[i].epochs)
    ensures Lookup(t, id).Some? ==> exists i :: 0 <= i < |t| && t[i].id == id && Lookup(t, id) == Some(t[i].epochs)
  {
    if |t| > 0 {
      LookupIs(t[..|t| - 1], id);
      if t[|t| - 1].id != id && Lookup(t, id).Some? {
        var i :| 0 <= i < |t| - 1 && t[..|t| - 1][i].id == id && Lookup(t, id) == Some(t[..|t| - 1][i].epochs);
        assert t[i].id == id;
      }
      forall i | 0 <= i < |t| && t[i].id == id
        ensures Lookup(t, id) == Some(t[i].epochs)
      {
        if i < |t| - 1 {
          assert t[..|t| - 1][i].id == id;
        }
      }
    }
  }

  /** The structural check of a whole committed timeline. */
  method ValidateCommittedEpochs(t: Timeline, size: nat) returns (ok: bool)
    requires size < OPEN
    requires forall i, j :: 0 <= i < |t| && 0 <= j < |t[i].epochs| ==> t[i].epochs[j].end <= OPEN
    ensures ok <==> ValidTimeline(t, size)
  {
    hide WellFormed;
    var w := 1;
    while w < |t|
      invariant w >= 1 && forall i, j :: 0 <= i < j < w && j < |t| ==> t[i].id < t[j].id
    {
      if t[w - 1].id >= t[w].id {
        return false;
      }
      w := w + 1;
    }
    for n := 0 to |t|
      invariant forall i :: 0 <= i < n ==> WellFormed(t[i].epochs, size)
    {
      var good := ValidateEpochs(t[n].epochs, size);
      if !good {
        return false;
      }
    }
    ok := true;
  }

  /** The temporal analog of a consistency proof. */
  ghost predicate VerifyEvolution(old_: Timeline, oldSize: nat, new_: Timeline, newSize: nat) {
    && oldSize <= newSize
    && ValidTimeline(old_, oldSize) && ValidTimeline(new_, newSize)
    && (forall i :: 0 <= i < |old_| ==>
          var now := Lookup(new_, old_[i].id);
          now.Some? && Evolves(old_[i].epochs, oldSize, now.value))
    && (forall i :: 0 <= i < |new_| && Lookup(old_, new_[i].id).None? ==>
          new_[i].epochs[0].start >= oldSize)
  }

  /** The two passes of the check, over the old algorithms and over the new ones. */
  method VerifyEpochEvolution(old_: Timeline, oldSize: nat, new_: Timeline, newSize: nat) returns (ok: bool)
    requires oldSize < OPEN && newSize < OPEN
    requires forall i, j :: 0 <= i < |old_| && 0 <= j < |old_[i].epochs| ==> old_[i].epochs[j].end <= OPEN
    requires forall i, j :: 0 <= i < |new_| && 0 <= j < |new_[i].epochs| ==> new_[i].epochs[j].end <= OPEN
    ensures ok <==> VerifyEvolution(old_, oldSize, new_, newSize)
  {
    hide WellFormed, Lookup;
    if oldSize > newSize {
      return false;
    }
    var oldOk := ValidateCommittedEpochs(old_, oldSize);
    var newOk := ValidateCommittedEpochs(new_, newSize);
    if !oldOk || !newOk {
      return false;
    }
    Nonempty(old_, oldSize);
    Nonempty(new_, newSize);
    for n := 0 to |old_|
      invariant forall i :: 0 <= i < n ==>
                  var now := Lookup(new_, old_[i].id);
                  now.Some? && Evolves(old_[i].epochs, oldSize, now.value)
    {
      var now := Lookup(new_, old_[n].id);
      if now.None? {
        return false;
      }
      var good := EvolvesCheck(old_[n].epochs, oldSize, now.value);
      if !good {
        return false;
      }
    }
    for n := 0 to |new_|
      invariant forall i :: 0 <= i < n && Lookup(old_, new_[i].id).None? ==> new_[i].epochs[0].start >= oldSize
    {
      if Lookup(old_, new_[n].id).None? && new_[n].epochs[0].start < oldSize {
        return false;
      }
    }
    ok := true;
  }

  lemma Nonempty(t: Timeline, size: nat)
    requires ValidTimeline(t, size)
    ensures forall i :: 0 <= i < |t| ==> |t[i].epochs| > 0
  {
  }

  /** One algorithm's chain of early rejections. */
  method EvolvesCheck(old_: seq<Epoch>, oldSize: nat, new_: seq<Epoch>) returns (ok: bool)
    requires |old_| > 0
    ensures ok <==> Evolves(old_, oldSize, new_)
  {
    if |new_| < |old_| {
      return false;
    }
    var last := |old_| - 1;
    if new_[..last] != old_[..last] {
      return false;
    }
    var o, n := old_[last], new_[last];
    if n.start != o.start {
      return false;
    }
    if o.end == OPEN {
      if n.end != OPEN && n.end < oldSize {
        return false;
      }
    } else if n.end != o.end {
      return false;
    }
    for i := |old_| to |new_|
      invariant forall g :: |old_| <= g < i ==> new_[g].start >= oldSize
    {
      if new_[i].start < oldSize {
        return false;
      }
    }
    ok := true;
  }

  lemma EvolutionReflexive(t: Timeline, size: nat)
    requires ValidTimeline(t, size)
    ensures VerifyEvolution(t, size, t, size)
  {
    forall i | 0 <= i < |t|
      ensures Lookup(t, t[i].id) == Some(t[i].epochs)
    {
      LookupIs(t, t[i].id);
    }
  }

  lemma EvolvesTransitive(a: seq<Epoch>, m: nat, b: seq<Epoch>, n: nat, c: seq<Epoch>)
    requires |a| > 0 && |b| > 0 && m <= n && Evolves(a, m, b) && Evolves(b, n, c)
    requires WellFormed(a, m) && WellFormed(b, n)
    ensures Evolves(a, m, c)
  {
    var last := |a| - 1;
    forall i | 0 <= i < last
      ensures c[i] == a[i]
    {
      assert c[i] == c[..|b| - 1][i] == b[..|b| - 1][i] == b[i] == b[..last][i] == a[..last][i];
    }
    if |a| < |b| {
      assert c[last] == c[..|b| - 1][last] == b[..|b| - 1][last] == b[last];
    }
    forall i | |a| <= i < |c|
      ensures c[i].start >= m
    {
      if i < |b| - 1 {
        assert c[i] == c[..|b| - 1][i] == b[..|b| - 1][i];
      }
    }
  }

  lemma EvolutionTransitive(a: Timeline, m: nat, b: Timeline, n: nat, c: Timeline, p: nat)
    requires VerifyEvolution(a, m, b, n) && VerifyEvolution(b, n, c, p)
    ensures VerifyEvolution(a, m, c, p)
  {
    forall i | 0 <= i < |a|
      ensures var now := Lookup(c, a[i].id); now.Some? && Evolves(a[i].epochs, m, now.value)
    {
      LookupIs(b, a[i].id);
      var j :| 0 <= j < |b| && b[j].id == a[i].id && Lookup(b, a[i].id) == Some(b[j].epochs);
      EvolvesTransitive(a[i].epochs, m, b[j].epochs, n, Lookup(c, b[j].id).value);
    }
    forall i | 0 <= i < |c| && Lookup(a, c[i].id).None?
      ensures c[i].epochs[0].start >= m
    {
      if Lookup(b, c[i].id).Some? {
        LookupIs(b, c[i].id);
        var j :| 0 <= j < |b| && b[j].id == c[i].id && Lookup(b, c[i].id) == Some(b[j].epochs);
        LookupIs(c, c[i].id);
        assert Evolves(b[j].epochs, n, c[i].epochs);
        if |b[j].epochs| > 1 {
          assert c[i].epochs[0] == c[i].epochs[..|b[j].epochs| - 1][0] == b[j].epochs[..|b[j].epochs| - 1][0];
        }
      }
    }
  }

  /** Acceptance preserves every algorithm's activity below the old size. */
  lemma EvolvesActivity(old_: seq<Epoch>, m: nat, new_: seq<Epoch>, i: nat)
    requires |old_| > 0 && Evolves(old_, m, new_) && i < m < OPEN
    ensures ActiveAt(old_, i) <==> ActiveAt(new_, i)
  {
    var last := |old_| - 1;
    if ActiveAt(old_, i) {
      var j :| 0 <= j < |old_| && old_[j].start <= i < old_[j].end;
      if j < last {
        assert new_[j] == new_[..last][j] == old_[..last][j];
      }
      assert new_[j].start <= i < new_[j].end;
    }
    if ActiveAt(new_, i) {
      var j :| 0 <= j < |new_| && new_[j].start <= i < new_[j].end;
      if j < last {
        assert new_[j] == new_[..last][j] == old_[..last][j];
      }
      assert j < |old_| && old_[j].start <= i < old_[j].end;
    }
  }

  lemma EvolutionActivity(old_: Timeline, m: nat, new_: Timeline, n: nat, id: nat, i: nat)
    requires VerifyEvolution(old_, m, new_, n) && i < m < OPEN
    ensures Lookup(old_, id).Some? ==>
              Lookup(new_, id).Some? &&
              (ActiveAt(Lookup(old_, id).value, i) <==> ActiveAt(Lookup(new_, id).value, i))
    ensures Lookup(old_, id).None? && Lookup(new_, id).Some? ==> !ActiveAt(Lookup(new_, id).value, i)
  {
    LookupIs(old_, id);
    LookupIs(new_, id);
    if Lookup(old_, id).Some? {
      EvolvesActivity(Lookup(old_, id).value, m, Lookup(new_, id).value, i);
    } else if Lookup(new_, id).Some? {
      var j :| 0 <= j < |new_| && new_[j].id == id && Lookup(new_, id) == Some(new_[j].epochs);
      var es := new_[j].epochs;
      assert forall g :: 0 < g < |es| ==> es[0].end <= es[g].start;
    }
  }

  /** Snapshots of a timeline and of any later one evolve in order. */
  lemma SnapshotsEvolve(a: seq<Epoch>, c: nat, b: seq<Epoch>, d: nat, m: nat, n: nat)
    requires WellFormed(a, c) && WellFormed(b, d) && Evolves(a, c, b)
    requires m <= c <= d < OPEN && m <= n <= d
    requires EpochsAt(a, m).Some?
    ensures EpochsAt(b, n).Some? && Evolves(EpochsAt(a, m).value, m, EpochsAt(b, n).value)
  {
    hide EpochsFrom;
    EpochsFromShape(a, m);
    EpochsFromShape(b, n);
    var r, s := EpochsFrom(a, m), EpochsFrom(b, n);
    var last := |r| - 1;
    SamePrefix(a, c, b);
    SnapshotGrows(a, c, b, d, m, n);
    assert s[..last] == r[..last];
    forall i | |r| <= i < |s|
      ensures s[i].start >= m
    {
      if i < |a| {
        assert a[last].end <= a[i].start;
      }
    }
  }

  lemma SamePrefix(a: seq<Epoch>, c: nat, b: seq<Epoch>)
    requires |a| > 0 && Evolves(a, c, b)
    ensures forall i :: 0 <= i < |a| - 1 ==> b[i] == a[i]
    ensures forall i :: 0 <= i < |a| ==> b[i].start == a[i].start
  {
    forall i | 0 <= i < |a| - 1
      ensures b[i] == a[i]
    {
      assert b[i] == b[..|a| - 1][i] == a[..|a| - 1][i];
    }
  }

  lemma SnapshotGrows(a: seq<Epoch>, c: nat, b: seq<Epoch>, d: nat, m: nat, n: nat)
    requires WellFormed(a, c) && WellFormed(b, d) && Evolves(a, c, b)
    requires m <= c <= d < OPEN && m <= n <= d
    ensures |EpochsFrom(b, n)| >= |EpochsFrom(a, m)|
  {
    EpochsFromShape(a, m);
    EpochsFromShape(b, n);
    hide EpochsFrom;
    SamePrefix(a, c, b);
    var r, s := |EpochsFrom(a, m)|, |EpochsFrom(b, n)|;
    if s < r {
      assert false;
    }
  }

  // ------------------------------------------------------------------ freezing and reopening

  function CloseAt(es: seq<Epoch>, n: nat): seq<Epoch>
    requires |es| > 0
  {
    es[..|es| - 1] + [Epoch(es[|es| - 1].start, n)]
  }

  lemma LastOpen(es: seq<Epoch>, n: nat)
    requires WellFormed(es, n) && IsActive(es) && n < OPEN
    ensures ActiveAt(es, n)
  {
  }

  lemma ClosedBelow(es: seq<Epoch>, n: nat, i: nat)
    requires WellFormed(es, n) && !IsActive(es) && n < OPEN
    ensures TreeSize(es, n) <= n && (ActiveAt(es, i) ==> i < TreeSize(es, n))
  {
    if ActiveAt(es, i) {
      var j :| 0 <= j < |es| && es[j].start <= i < es[j].end;
      if j < |es| - 1 {
        assert es[j].end <= es[|es| - 1].start;
      }
    }
  }

  /** Closing the open epoch at `n` changes nothing below `n`. */
  lemma SameBelow(es: seq<Epoch>, es': seq<Epoch>, n: nat)
    requires WellFormed(es, n) && IsActive(es) && n < OPEN && es' == CloseAt(es, n)
    ensures WellFormed(es', n) && !IsActive(es')
    ensures forall i :: 0 <= i < n ==> (ActiveAt(es', i) <==> ActiveAt(es, i))
    ensures forall lo: nat, hi: nat :: lo < hi <= n ==> (ActiveRange(es', lo, hi) <==> ActiveRange(es, lo, hi))
    ensures Evolves(es, n, es')
  {
    var last := |es| - 1;
    assert forall i :: 0 <= i < last ==> es'[i] == es[i];
    forall i | 0 <= i < n
      ensures ActiveAt(es', i) <==> ActiveAt(es, i)
    {
      if ActiveAt(es, i) {
        var j :| 0 <= j < |es| && es[j].start <= i < es[j].end;
        assert es'[j].start <= i < es'[j].end;
      }
    }
    forall lo: nat, hi: nat | lo < hi <= n
      ensures ActiveRange(es', lo, hi) <==> ActiveRange(es, lo, hi)
    {
      if ActiveRange(es, lo, hi) {
        var j :| 0 <= j < |es| && es[j].start < hi && es[j].end > lo;
        assert es'[j].start < hi && es'[j].end > lo;
      }
    }
  }

  /** Opening an epoch at `n` changes nothing below `n`. */
  lemma ReopenBelow(es: seq<Epoch>, es': seq<Epoch>, n: nat)
    requires WellFormed(es, n) && !IsActive(es) && n < OPEN && es' == es + [Epoch(n, OPEN)]
    ensures WellFormed(es', n) && IsActive(es')
    ensures forall i :: 0 <= i < n ==> (ActiveAt(es', i) <==> ActiveAt(es, i))
    ensures forall lo: nat, hi: nat :: lo < hi <= n ==> (ActiveRange(es', lo, hi) <==> ActiveRange(es, lo, hi))
    ensures Evolves(es, n, es')
  {
    assert forall i :: 0 <= i < |es| ==> es'[i] == es[i];
    assert es'[..|es| - 1] == es[..|es| - 1];
    forall i | 0 <= i < n
      ensures ActiveAt(es', i) <==> ActiveAt(es, i)
    {
      if ActiveAt(es, i) {
        var j :| 0 <= j < |es| && es[j].start <= i < es[j].end;
        assert es'[j].start <= i < es'[j].end;
      }
    }
    forall lo: nat, hi: nat | lo < hi <= n
      ensures ActiveRange(es', lo, hi) <==> ActiveRange(es, lo, hi)
    {
      if ActiveRange(es, lo, hi) {
        var j :| 0 <= j < |es| && es[j].start < hi && es[j].end > lo;
        assert es'[j].start < hi && es'[j].end > lo;
      }
    }
  }

  /** At the present size the snapshot is the timeline itself. */
  lemma {:induction false} SnapshotNow(es: seq<Epoch>, n: nat)
    requires WellFormed(es, n) && n < OPEN
    ensures EpochsAt(es, n) == Some(es)
  {
    SnapshotAll(es, n);
  }

  lemma {:induction false} SnapshotAll(es: seq<Epoch>, n: nat)
    requires forall i :: 0 <= i < |es| ==> es[i].start <= n
    requires forall i :: 0 <= i < |es| && es[i].end > n ==> es[i].end == OPEN && i == |es| - 1
    ensures EpochsFrom(es, n) == es
  {
    if |es| > 0 && es[0].end <= n {
      SnapshotAll(es[1..], n);
      assert es == [es[0]] + es[1..];
    } else if |es| > 0 {
      assert es == [es[0]];
    }
  }

  /** A historical size is never beyond the algorithm's tree. */
  lemma EffectiveInTree(es: seq<Epoch>, size: nat, total: nat)
    requires WellFormed(es, total) && size <= total < OPEN
    ensures EffectiveSize(es, size) <= TreeSize(es, total)
  {
    hide ActiveAt;
    if !IsActive(es) {
      EndsOrdered(es);
      MaxEndTop(es, size, es[|es| - 1].end);
      if size > 0 {
        ClosedBelow(es, total, size - 1);
      }
    } else {
      MaxEndSize(es, size);
    }
  }

  lemma EndsOrdered(es: seq<Epoch>)
    requires |es| > 0 && (forall i :: 0 <= i < |es| ==> es[i].start <= es[i].end)
    requires forall i, j :: 0 <= i < j < |es| ==> es[i].end <= es[j].start
    ensures forall i :: 0 <= i < |es| ==> es[i].start <= es[i].end <= es[|es| - 1].end
  {
  }

  lemma {:induction false} MaxEndTop(es: seq<Epoch>, size: nat, top: nat)
    requires forall i :: 0 <= i < |es| ==> es[i].end <= top
    ensures MaxEndBelow(es, size) <= top
  {
    if |es| > 0 {
      MaxEndTop(es[..|es| - 1], size, top);
    }
  }

  /** Largest ends below a size are below it. */
  lemma {:induction false} MaxEndSize(es: seq<Epoch>, size: nat)
    ensures MaxEndBelow(es, size) <= size && (size > 0 ==> MaxEndBelow(es, size) < size)
  {
    if |es| > 0 {
      MaxEndSize(es[..|es| - 1], size);
    }
  }
}
