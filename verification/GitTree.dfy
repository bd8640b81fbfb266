/**
 The checkpoint tree as content: a batch is assembled by upserting each key at its own
 path, and every read of the result answers as the in-memory backend would.
 */
module GitTree {
  import opened Base
  import opened Topology
  import opened Spine
  import opened Epochs
  import opened Storage
  import opened GitLayout

  datatype Content = Raw(data: Bytes) | Hash(digest: Digest)

  /** A git object, named by what it holds: equal contents are the same object. */
  datatype Object = Blob(content: Content) | Tree(entries: map<string, Object>)

  const EmptyTree: Object := Tree(map[])

  function FindEntry(t: Object, name: string): Option<Object> {
    if t.Tree? && name in t.entries then Some(t.entries[name]) else None
  }

  function Resolve(t: Object, p: Path): Option<Object>
    decreases |p|
  {
    if |p| == 0 then Some(t)
    else
      var next := FindEntry(t, p[0]);
      if next.None? then None else Resolve(next.value, p[1..])
  }

  /** Follows named entries one segment at a time. */
  method ResolveAtPath(t: Object, segments: Path) returns (r: Option<Object>)
    ensures r == Resolve(t, segments)
  {
    var current := t;
    for n := 0 to |segments|
      invariant Resolve(t, segments) == Resolve(current, segments[n..])
    {
      assert segments[n..][0] == segments[n] && segments[n..][1..] == segments[n + 1..];
      var next := FindEntry(current, segments[n]);
      if next.None? {
        return None;
      }
      current := next.value;
    }
    r := Some(current);
  }

  function Entries(t: Object): map<string, Object> { if t.Tree? then t.entries else map[] }

  /** Places an object at a path, creating or replacing what is on the way. */
  function Upsert(t: Object, p: Path, x: Object): Object
    requires |p| > 0
    decreases |p|
  {
    var es := Entries(t);
    if |p| == 1 then Tree(es[p[0] := x])
    else Tree(es[p[0] := Upsert(if p[0] in es then es[p[0]] else EmptyTree, p[1..], x)])
  }

  function Without(t: Object, name: string): Object { Tree(Entries(t) - {name}) }

  lemma {:induction false} UpsertSame(t: Object, p: Path, x: Object)
    requires |p| > 0
    ensures Resolve(Upsert(t, p, x), p) == Some(x)
    decreases |p|
  {
    if |p| > 1 {
      var es := Entries(t);
      UpsertSame(if p[0] in es then es[p[0]] else EmptyTree, p[1..], x);
    } else {
      assert p[1..] == [];
    }
  }

  predicate Prefix(p: Path, q: Path) { |p| <= |q| && q[..|p|] == p }

  /** A write disturbs no path that neither extends nor is extended by its own. */
  lemma {:induction false} UpsertOther(t: Object, p: Path, x: Object, q: Path)
    requires |p| > 0 && |q| > 0 && !Prefix(p, q) && !Prefix(q, p)
    ensures Resolve(Upsert(t, p, x), q) == Resolve(t, q)
    decreases |p|
  {
    var es := Entries(t);
    if p[0] == q[0] {
      if |p| == 1 {
        SingleIsPrefix(p, q);
      }
      if |q| == 1 {
        SingleIsPrefix(q, p);
      }
      PrefixTail(p, q);
      PrefixTail(q, p);
      var under := if p[0] in es then es[p[0]] else EmptyTree;
      UpsertOther(under, p[1..], x, q[1..]);
    }
  }

  lemma SingleIsPrefix(p: Path, q: Path)
    requires |p| == 1 <= |q| && p[0] == q[0]
    ensures Prefix(p, q)
  {
    assert q[..1] == p;
  }

  lemma PrefixTail(p: Path, q: Path)
    requires |p| > 1 && |q| > 1 && p[0] == q[0]
    ensures Prefix(p, q) <==> Prefix(p[1..], q[1..])
  {
    if Prefix(p[1..], q[1..]) {
      assert q[..|p|] == [q[0]] + q[1..][..|p| - 1];
      assert p == [p[0]] + p[1..];
    }
    if Prefix(p, q) {
      assert q[1..][..|p| - 1] == q[..|p|][1..];
    }
  }

  // ------------------------------------------------------------------ keys

  function ReadKey(t: Object, key: Key): Option<Object>
    requires Fits(key)
  {
    Resolve(t, PathOf(key))
  }

  function PutKey(t: Object, key: Key, x: Object): Object
    requires Fits(key)
  {
    Upsert(t, PathOf(key), x)
  }

  /** The tree is a map from keys: writing one key changes what is read at that key only. */
  lemma PutReads(t: Object, key: Key, x: Object, other: Key)
    requires Fits(key) && Fits(other)
    ensures ReadKey(PutKey(t, key, x), other) == if other == key then Some(x) else ReadKey(t, other)
  {
    hide Resolve, Upsert, PathOf;
    UpsertSame(t, PathOf(key), x);
    if other != key {
      KeysNotPrefix(key, other);
      KeysNotPrefix(other, key);
      UpsertOther(t, PathOf(key), x, PathOf(other));
    }
  }

  lemma KeysNotPrefix(a: Key, b: Key)
    requires Fits(a) && Fits(b) && a != b
    ensures !Prefix(PathOf(a), PathOf(b))
  {
    hide PathOf;
    var p, q := PathOf(a), PathOf(b);
    if Prefix(p, q) {
      assert p + q[|p|..] == q;
      PathsApart(a, b, q[|p|..]);
    }
  }

  /** The names under `epochs/`. */
  function EpochNames(t: Object): set<string> {
    var dir := FindEntry(t, "epochs");
    if dir.Some? then Entries(dir.value).Keys else {}
  }

  lemma PutNames(t: Object, key: Key, x: Object)
    requires Fits(key)
    ensures EpochNames(PutKey(t, key, x)) == EpochNames(t) + (if key.EpochsOf? then {Hex(key.alg, 16)} else {})
    ensures FindEntry(PutKey(t, key, x), "roots") == FindEntry(t, "roots")
  {
    hide Hex, Trimmed;
    var p := PathOf(key);
    if key.EpochsOf? {
      var name := Hex(key.alg, 16);
      assert p[1..] == [name];
      var es := Entries(t);
      var sub := if "epochs" in es then es["epochs"] else EmptyTree;
      assert Upsert(sub, [name], x) == Tree(Entries(sub)[name := x]);
      assert FindEntry(PutKey(t, key, x), "epochs") == Some(Tree(Entries(sub)[name := x]));
    }
  }

  lemma PutLeaves(t: Object, key: Key, x: Object)
    requires Fits(key)
    ensures FindEntry(PutKey(t, key, x), "leaves").Some? <==> FindEntry(t, "leaves").Some? || key.LeafAt?
  {
    hide Hex, Trimmed;
  }

  /** Dropping an entry that is no key's first segment changes no key. */
  lemma WithoutLookup(t: Object, key: Key)
    requires Fits(key)
    ensures ReadKey(Without(t, "roots"), key) == ReadKey(t, key)
    ensures EpochNames(Without(t, "roots")) == EpochNames(t)
    ensures FindEntry(Without(t, "roots"), "leaves") == FindEntry(t, "leaves")
    ensures FindEntry(Without(t, "roots"), "roots") == None
  {
    hide Hex, Trimmed;
    assert PathOf(key)[0] != "roots";
  }

  // ------------------------------------------------------------------ the two backends

  function NodeBlob(d: Digest): Object { Blob(Hash(d)) }
  function LeafBlob(data: Bytes): Object { Blob(Raw(data)) }

  function StoredNode(s: Store, alg: nat, height: nat, left: nat): Option<Object> {
    var key := NodeKey(alg, Coord(left, height));
    if key in s.nodes then Some(NodeBlob(s.nodes[key])) else None
  }

  /** Nodes and leaves are where their keys say, and nothing else is. */
  ghost predicate DataOk(s: Store, t: Object) {
    && (forall alg: nat, height: nat, left: nat | Fits(NodeAt(alg, height, left)) ::
          ReadKey(t, NodeAt(alg, height, left)) == StoredNode(s, alg, height, left))
    && (FindEntry(t, "leaves").Some? <==> s.leaves != [])
    && (forall i: nat | Fits(LeafAt(i)) ::
          ReadKey(t, LeafAt(i)) == if i < |s.leaves| then Some(LeafBlob(s.leaves[i])) else None)
  }

  ghost predicate EpochsOk(metas: map<nat, seq<Epoch>>, t: Object) {
    && (forall alg :: alg in metas ==> alg <= U64_MAX)
    && EpochNames(t) == (set alg | alg in metas :: Hex(alg, 16))
    && forall alg: nat | Fits(EpochsOf(alg)) ::
         ReadKey(t, EpochsOf(alg)) == if alg in metas then Some(LeafBlob(EncodeEpochs(metas[alg]))) else None
  }

  /** The checkpoint tree holds exactly what the store holds. */
  ghost predicate TreeOk(s: Store, t: Object, arity: Arity) {
    && DataOk(s, t) && EpochsOk(s.metas, t)
    && ReadKey(t, MetaKey) == Some(LeafBlob(EncodeMeta(arity, s.count)))
  }

  /** Timelines that a projection to the present size leaves as they are, in 64-bit words. */
  ghost predicate MetasOk(s: Store) {
    forall alg :: alg in s.metas ==>
      EpochsAt(s.metas[alg], s.count) == Some(s.metas[alg]) && WordEpochs(s.metas[alg])
  }

  /** A log's leaves are all its items or none of them. */
  predicate SingleKind(s: Store) { |s.leaves| == 0 || |s.leaves| == s.count }

  // ------------------------------------------------------------------ reads

  method GetLeaf(t: Object, size: nat, index: nat) returns (r: Option<Bytes>)
    requires size <= U64_MAX
    ensures r == if index >= size then None
                 else match ReadKey(t, LeafAt(index)) case Some(Blob(Raw(data))) => Some(data) case _ => None
  {
    hide Trimmed, Resolve;
    if index >= size {
      return None;
    }
    ResolveUnfold(t, PathOf(LeafAt(index)));
    assert PathOf(LeafAt(index))[1..] == Trimmed(index);
    var leaves := FindEntry(t, "leaves");
    if leaves.None? {
      return None;
    }
    var segments := TrimmedKeySegments(index);
    var found := ResolveAtPath(leaves.value, segments);
    r := match found case Some(Blob(Raw(data))) => Some(data) case _ => None;
  }

  lemma ResolveNone(t: Object)
    ensures Resolve(t, []) == Some(t)
  {
  }

  lemma ResolveUnfold(t: Object, p: Path)
    requires |p| > 0
    ensures FindEntry(t, p[0]).None? ==> Resolve(t, p) == None
    ensures FindEntry(t, p[0]).Some? ==> Resolve(t, p) == Resolve(FindEntry(t, p[0]).value, p[1..])
  {
  }

  method GetNode(t: Object, alg: nat, left: nat, height: nat) returns (r: Option<Digest>)
    requires Fits(NodeAt(alg, height, left))
    ensures r == match ReadKey(t, NodeAt(alg, height, left)) case Some(Blob(Hash(d))) => Some(d) case _ => None
  {
    hide Trimmed, Resolve, Hex;
    ResolveUnfold(t, PathOf(NodeAt(alg, height, left)));
    assert PathOf(NodeAt(alg, height, left))[1..] == [Hex(alg, 16), Hex(height, 2)] + Trimmed(left);
    var nodes := FindEntry(t, "nodes");
    if nodes.None? {
      return None;
    }
    var key := TrimmedKeySegments(left);
    var found := ResolveAtPath(nodes.value, [Hex(alg, 16), Hex(height, 2)] + key);
    r := match found case Some(Blob(Hash(d))) => Some(d) case _ => None;
  }

  function DigitValue(c: char): Option<nat> {
    if '0' <= c <= '9' then Some(c as nat - '0' as nat)
    else if 'a' <= c <= 'f' then Some(c as nat - 'a' as nat + 10)
    else if 'A' <= c <= 'F' then Some(c as nat - 'A' as nat + 10)
    else None
  }

  function FromHex(s: string): Option<nat> {
    if |s| == 0 then Some(0)
    else
      var high, low := FromHex(s[..|s| - 1]), DigitValue(s[|s| - 1]);
      if high.None? || low.None? then None else Some(16 * high.value + low.value)
  }

  function ParseHex16(name: string): Option<nat> { if |name| != 16 then None else FromHex(name) }

  lemma {:induction false} HexRoundTrip(x: nat, width: nat)
    requires x < Sixteen(width)
    ensures FromHex(Hex(x, width)) == Some(x)
  {
    if width > 0 {
      HexRoundTrip(x / 16, width - 1);
      assert Hex(x, width)[..width - 1] == Hex(x / 16, width - 1);
      DigitRoundTrip(x % 16);
    }
  }

  lemma DigitRoundTrip(d: nat)
    requires d < 16
    ensures DigitValue(Digit16(d)) == Some(d)
  {
    var s := "0123456789abcdef";
    assert s[0] == '0' && s[1] == '1' && s[2] == '2' && s[3] == '3' && s[4] == '4' && s[5] == '5' && s[6] == '6' &&
           s[7] == '7';
    assert s[8] == '8' && s[9] == '9' && s[10] == 'a' && s[11] == 'b' && s[12] == 'c' && s[13] == 'd' && s[14] == 'e' &&
           s[15] == 'f';
  }

  /** A name parses exactly if every character is a hex digit of either case, and its value fits its width. */
  lemma {:induction false} HexParses(s: string)
    ensures FromHex(s).Some? <==>
            forall i :: 0 <= i < |s| ==> '0' <= s[i] <= '9' || 'a' <= s[i] <= 'f' || 'A' <= s[i] <= 'F'
    ensures FromHex(s).Some? ==> FromHex(s).value < Sixteen(|s|)
  {
    if |s| > 0 {
      var init, last := s[..|s| - 1], s[|s| - 1];
      HexParses(init);
      assert s == init + [last];
      assert forall i :: 0 <= i < |init| ==> init[i] == s[i];
    }
  }

  /** The name parses to a registered algorithm whose name it is. */
  predicate NamesOne(metas: map<nat, seq<Epoch>>, name: string) {
    ParseHex16(name).Some? && ParseHex16(name).value in metas && name == Hex(ParseHex16(name).value, 16)
  }

  lemma NamesParse(metas: map<nat, seq<Epoch>>, t: Object)
    requires EpochsOk(metas, t)
    ensures forall name :: name in EpochNames(t) ==> NamesOne(metas, name)
    ensures forall alg :: alg in metas ==> Hex(alg, 16) in EpochNames(t) && ParseHex16(Hex(alg, 16)) == Some(alg)
  {
    SixteenIsWord();
    hide Hex, FromHex, Sixteen, Resolve;
    forall alg | alg in metas
      ensures ParseHex16(Hex(alg, 16)) == Some(alg)
    {
      HexRoundTrip(alg, 16);
    }
  }

  /** What can be registered: at least one epoch, in 64-bit words. */
  predicate WordEpochs(es: seq<Epoch>) {
    |es| > 0 && forall i :: 0 <= i < |es| ==> es[i].start <= U64_MAX && es[i].end <= U64_MAX
  }

  /** Every algorithm's timeline, read from the directory listing. */
  method LoadAlgorithmMetas(t: Object, ghost metas: map<nat, seq<Epoch>>) returns (r: Option<map<nat, seq<Epoch>>>)
    requires EpochsOk(metas, t)
    requires forall alg :: alg in metas ==> WordEpochs(metas[alg])
    ensures r == Some(metas)
  {
    hide Hex, FromHex, EncodeEpochs, DecodeEpochs, ReadKey, ParseHex16;
    NamesParse(metas, t);
    var dir := FindEntry(t, "epochs");
    var out: map<nat, seq<Epoch>> := map[];
    if dir.None? {
      NamesPresent(metas, t);
      return Some(out);
    }
    var todo := EpochNames(t);
    while todo != {}
      invariant todo <= EpochNames(t)
      invariant forall alg :: alg in out <==> alg in metas && Hex(alg, 16) !in todo
      invariant forall alg :: alg in out ==> alg in metas && out[alg] == metas[alg]
      decreases |todo|
    {
      var name :| name in todo;
      todo := todo - {name};
      var alg := ParseHex16(name);
      EntryAt(metas, t, alg.value);
      EpochsRoundTrip(metas[alg.value]);
      var blob := Entries(dir.value)[name];
      var es := DecodeEpochs(blob.content.data);
      out := out[alg.value := es.value];
    }
    assert out == metas;
    r := Some(out);
  }

  lemma NamesPresent(metas: map<nat, seq<Epoch>>, t: Object)
    requires EpochsOk(metas, t)
    ensures metas != map[] ==> FindEntry(t, "epochs").Some?
  {
    hide Hex;
    if metas != map[] {
      var alg :| alg in metas;
      assert Hex(alg, 16) in EpochNames(t);
    }
  }

  lemma EntryAt(metas: map<nat, seq<Epoch>>, t: Object, alg: nat)
    requires EpochsOk(metas, t) && alg in metas && FindEntry(t, "epochs").Some?
    ensures var dir := Entries(FindEntry(t, "epochs").value);
            Hex(alg, 16) in dir && dir[Hex(alg, 16)] == LeafBlob(EncodeEpochs(metas[alg]))
  {
    hide Hex, EncodeEpochs;
    assert Fits(EpochsOf(alg));
    var p := PathOf(EpochsOf(alg));
    var dir := FindEntry(t, "epochs").value;
    assert p[1..] == [Hex(alg, 16)] && p[1..][1..] == [];
    assert ReadKey(t, EpochsOf(alg)) == Some(LeafBlob(EncodeEpochs(metas[alg])));
    ResolveUnfold(t, p);
    ResolveUnfold(dir, [Hex(alg, 16)]);
    hide Resolve;
    ResolveNone(Entries(dir)[Hex(alg, 16)]);
  }
}
