/**
 The git backend's layout: where each key lives in the checkpoint tree, and how the
 metadata blobs are encoded.  Distinct keys live at paths neither of which is a prefix
 of the other, so no write disturbs another key's entry.
 */
module GitLayout {
  import opened Base
  import opened Topology
  import opened Spine
  import opened Epochs
  import opened NullRuns

  // ------------------------------------------------------------------ names

  function Digit16(d: nat): (c: char)
    requires d < 16
    ensures if d < 10 then c as int == '0' as int + d else c as int == 'a' as int + (d - 10)
  {
    "0123456789abcdef"[d]
  }

  /** `x` in `width` lowercase hex digits. */
  function Hex(x: nat, width: nat): (s: string)
    ensures |s| == width
  {
    if width == 0 then "" else Hex(x / 16, width - 1) + [Digit16(x % 16)]
  }

  function Sixteen(width: nat): nat { if width == 0 then 1 else 16 * Sixteen(width - 1) }

  lemma Digit16Injective(a: nat, b: nat)
    requires a < 16 && b < 16 && Digit16(a) == Digit16(b)
    ensures a == b
  {
    var s := "0123456789abcdef";
    assert forall i, j :: 0 <= i < j < 16 ==> s[i] != s[j];
  }

  lemma {:induction false} HexInjective(x: nat, y: nat, width: nat)
    requires x < Sixteen(width) && y < Sixteen(width) && Hex(x, width) == Hex(y, width)
    ensures x == y
  {
    if width > 0 {
      var a, b := Hex(x, width), Hex(y, width);
      assert a[..width - 1] == Hex(x / 16, width - 1) && b[..width - 1] == Hex(y / 16, width - 1);
      assert a[width - 1] == Digit16(x % 16) && b[width - 1] == Digit16(y % 16);
      Digit16Injective(x % 16, y % 16);
      HexInjective(x / 16, y / 16, width - 1);
    }
  }

  // ------------------------------------------------------------------ trimmed keys

  /** How many bytes of a key are significant: at least one. */
  function SigBytes(key: nat): nat {
    if key < 256 then 1 else 1 + SigBytes(key / 256)
  }

  function HexBytes(bs: Bytes): (r: seq<string>)
    ensures |r| == |bs|
    ensures forall i :: 0 <= i < |bs| ==> r[i] == Hex(bs[i] as nat, 2)
  {
    seq(|bs|, i requires 0 <= i < |bs| => Hex(bs[i] as nat, 2))
  }

  /** The decimal digit that names the number of significant bytes. */
  function LengthSegment(n: nat): (s: string)
    requires n < 10
    ensures |s| == 1 && s[0] as int == '0' as int + n
  {
    ["0123456789"[n]]
  }

  /** The path segments of a key: its significant length, then each significant byte. */
  function Trimmed(key: nat): (r: seq<string>)
    requires key <= U64_MAX
    ensures |r| > 0
  {
    SigWord(key);
    [LengthSegment(SigBytes(key))] + HexBytes(BigEndian(key, SigBytes(key)))
  }

  lemma {:induction false} SigBound(key: nat, width: nat)
    requires key < Bound(width) && width > 0
    ensures SigBytes(key) <= width && key < Bound(SigBytes(key))
    decreases width
  {
    assert Bound(1) == 256;
    if key >= 256 {
      assert width > 1;
      SigBound(key / 256, width - 1);
    }
  }

  lemma SigWord(key: nat)
    requires key <= U64_MAX
    ensures 1 <= SigBytes(key) <= 8 && key < Bound(SigBytes(key)) && key < Bound(8)
  {
    BoundIsWord();
    hide Bound;
    SigBound(key, 8);
  }

  lemma HexBytesInjective(a: Bytes, b: Bytes)
    requires HexBytes(a) == HexBytes(b)
    ensures a == b
  {
    assert |a| == |HexBytes(a)| == |HexBytes(b)| == |b|;
    forall i | 0 <= i < |a|
      ensures a[i] == b[i]
    {
      assert HexBytes(a)[i] == HexBytes(b)[i];
      assert Sixteen(2) == 256;
      HexInjective(a[i] as nat, b[i] as nat, 2);
    }
  }

  lemma LengthInjective(m: nat, n: nat)
    requires m < 10 && n < 10 && LengthSegment(m) == LengthSegment(n)
    ensures m == n
  {
    var s := "0123456789";
    assert forall i, j :: 0 <= i < j < 10 ==> s[i] != s[j];
    assert s[m] == LengthSegment(m)[0] == LengthSegment(n)[0] == s[n];
  }

  /** The scheme is prefix-free: a key's path extends another's only if the keys are equal. */
  lemma TrimmedPrefixFree(x: nat, y: nat, rest: seq<string>)
    requires x <= U64_MAX && y <= U64_MAX && Trimmed(x) + rest == Trimmed(y)
    ensures x == y && rest == []
  {
    SigWord(x);
    SigWord(y);
    hide Bound, SigBytes, BigEndian;
    var m, n := SigBytes(x), SigBytes(y);
    assert Trimmed(y)[0] == (Trimmed(x) + rest)[0] == LengthSegment(m);
    LengthInjective(m, n);
    assert |Trimmed(x)| == |Trimmed(y)|;
    assert rest == [];
    assert Trimmed(x) == Trimmed(y);
    assert HexBytes(BigEndian(x, m)) == Trimmed(x)[1..] == Trimmed(y)[1..] == HexBytes(BigEndian(y, n));
    HexBytesInjective(BigEndian(x, m), BigEndian(y, n));
    BigEndianInjective(x, y, m);
  }

  /** Leading zero bytes do not change a big-endian tail. */
  lemma {:induction false} BigEndianTail(x: nat, width: nat, more: nat, all: nat)
    requires x < Bound(width) && all == width + more
    ensures BigEndian(x, all)[more..] == BigEndian(x, width)
    ensures forall i :: 0 <= i < more ==> BigEndian(x, all)[i] == 0
    decreases all
  {
    if width > 0 {
      BigEndianTail(x / 256, width - 1, more, all - 1);
      var a, b := BigEndian(x / 256, all - 1), [(x % 256) as byte];
      assert BigEndian(x, all) == a + b;
      assert (a + b)[more..] == a[more..] + b;
    } else if more > 0 {
      assert x == 0;
      BigEndianTail(0, 0, more - 1, all - 1);
    }
  }

  /** The top significant byte is not zero, unless it is the only one. */
  lemma {:induction false} TopByte(key: nat)
    ensures SigBytes(key) >= 1
    ensures BigEndian(key, SigBytes(key))[0] == 0 ==> SigBytes(key) == 1
    decreases key
  {
    if key >= 256 {
      TopByte(key / 256);
      var rest := BigEndian(key / 256, SigBytes(key / 256));
      assert BigEndian(key, SigBytes(key)) == rest + [(key % 256) as byte];
      assert rest[0] != 0 by {
        if SigBytes(key / 256) == 1 {
          assert BigEndian(key / 256, 1) == BigEndian(key / 256 / 256, 0) + [((key / 256) % 256) as byte];
        }
      }
    }
  }

  lemma WordBytes(key: nat)
    requires key <= U64_MAX
    ensures 1 <= SigBytes(key) <= 8
    ensures var skip := 8 - SigBytes(key);
            BigEndian(key, 8)[skip..] == BigEndian(key, SigBytes(key)) &&
            (forall i :: 0 <= i < skip ==> BigEndian(key, 8)[i] == 0) &&
            (skip < 7 ==> BigEndian(key, 8)[skip] != 0)
  {
    SigWord(key);
    hide Bound, SigBytes, BigEndian;
    var skip := 8 - SigBytes(key);
    BigEndianTail(key, SigBytes(key), skip, 8);
    TopByte(key);
    assert BigEndian(key, 8)[skip..][0] == BigEndian(key, 8)[skip];
  }

  /** The program's form: strip the leading zero bytes of the eight, at least one stays. */
  method TrimmedKeySegments(key: nat) returns (segs: seq<string>)
    requires key <= U64_MAX
    ensures segs == Trimmed(key)
  {
    WordBytes(key);
    TrimmedIs(key);
    hide *;
    var be := BigEndian(key, 8);
    ghost var skip := 8 - SigBytes(key);
    var first := 0;
    while first < 7 && be[first] == 0
      invariant first <= skip
    {
      first := first + 1;
    }
    assert first == skip;
    var bytes := HexSegments(be[first..]);
    segs := [LengthSegment(|be[first..]|)] + bytes;
  }

  /** One segment of two hex digits for each byte. */
  method HexSegments(bs: Bytes) returns (segs: seq<string>)
    ensures segs == HexBytes(bs)
  {
    hide Hex;
    segs := [];
    for i := 0 to |bs|
      invariant |segs| == i && forall j :: 0 <= j < i ==> segs[j] == Hex(bs[j] as nat, 2)
    {
      segs := segs + [Hex(bs[i] as nat, 2)];
    }
  }

  lemma TrimmedIs(key: nat)
    requires key <= U64_MAX
    ensures SigBytes(key) < 10
    ensures Trimmed(key) == [LengthSegment(SigBytes(key))] + HexBytes(BigEndian(key, SigBytes(key)))
  {
    SigWord(key);
  }

  // ------------------------------------------------------------------ paths

  type Path = seq<string>

  /** Everything a checkpoint tree stores. */
  datatype Key =
    | NodeAt(alg: nat, height: nat, left: nat)
    | LeafAt(index: nat)
    | EpochsOf(alg: nat)
    | MetaKey

  /** Keys as wide as the program's: words, and heights of two hex digits. */
  predicate Fits(key: Key) {
    match key
    case NodeAt(alg, height, left) => alg <= U64_MAX && height <= 255 && left <= U64_MAX
    case LeafAt(index) => index <= U64_MAX
    case EpochsOf(alg) => alg <= U64_MAX
    case MetaKey => true
  }

  function PathOf(key: Key): (p: Path)
    requires Fits(key)
    ensures |p| > 0
  {
    match key
    case NodeAt(alg, height, left) => ["nodes", Hex(alg, 16), Hex(height, 2)] + Trimmed(left)
    case LeafAt(index) => ["leaves"] + Trimmed(index)
    case EpochsOf(alg) => ["epochs", Hex(alg, 16)]
    case MetaKey => ["meta"]
  }

  lemma SixteenIsWord()
    ensures Sixteen(16) == U64_MAX + 1 && Sixteen(2) == 256
  {
    assert Sixteen(4) == 65536;
    assert Sixteen(8) == 65536 * 65536;
    assert Sixteen(12) == 65536 * 65536 * 65536;
  }

  /** No key's path is a prefix of another's: distinct keys never meet. */
  lemma PathsApart(a: Key, b: Key, rest: Path)
    requires Fits(a) && Fits(b) && PathOf(a) + rest == PathOf(b)
    ensures a == b && rest == []
  {
    SixteenIsWord();
    hide Hex, Trimmed, Sixteen;
    var p, q := PathOf(a), PathOf(b);
    assert p[0] == (p + rest)[0] == q[0];
    assert forall i :: 0 <= i < |p| ==> p[i] == q[i];
    match a
    case NodeAt(alg, height, left) =>
      assert p[1] == q[1] && p[2] == q[2];
      assert Hex(alg, 16) == Hex(b.alg, 16) && Hex(height, 2) == Hex(b.height, 2);
      HexInjective(alg, b.alg, 16);
      HexInjective(height, b.height, 2);
      assert Trimmed(left) + rest == (p + rest)[3..] == q[3..] == Trimmed(b.left);
      TrimmedPrefixFree(left, b.left, rest);
    case LeafAt(index) =>
      assert Trimmed(index) + rest == (p + rest)[1..] == q[1..] == Trimmed(b.index);
      TrimmedPrefixFree(index, b.index, rest);
    case EpochsOf(alg) =>
      assert p[1] == q[1];
      HexInjective(alg, b.alg, 16);
    case MetaKey =>
  }

  // ------------------------------------------------------------------ blobs

  /** Arity as a 16-bit word, then the count. */
  function EncodeMeta(arity: nat, count: nat): Bytes { BigEndian(arity % 65536, 2) + BigEndian(count, 8) }

  function DecodeMeta(bs: Bytes): Option<(nat, nat)> {
    if |bs| != 10 then None else Some((FromBigEndian(bs[..2]), FromBigEndian(bs[2..10])))
  }

  lemma {:induction false} BoundTwo()
    ensures Bound(2) == 65536
  {
    assert Bound(1) == 256;
  }

  lemma MetaRoundTrip(arity: nat, count: nat)
    requires arity < 65536 && count <= U64_MAX
    ensures DecodeMeta(EncodeMeta(arity, count)) == Some((arity, count))
  {
    hide BigEndian, FromBigEndian, Bound;
    BoundIsWord();
    BoundTwo();
    BigEndianRoundTrip(arity, 2);
    BigEndianRoundTrip(count, 8);
    var a, b := BigEndian(arity, 2), BigEndian(count, 8);
    assert (a + b)[..2] == a && (a + b)[2..10] == b;
  }

  /** Ten bytes decode, and only to what they encode. */
  lemma MetaDecoded(bs: Bytes)
    ensures DecodeMeta(bs).Some? <==> |bs| == 10
    ensures DecodeMeta(bs).Some? ==>
              var (arity, count) := DecodeMeta(bs).value;
              arity < 65536 && count <= U64_MAX && EncodeMeta(arity, count) == bs
  {
    hide BigEndian, FromBigEndian, Bound;
    if |bs| == 10 {
      BoundIsWord();
      BoundTwo();
      BigEndianBack(bs[..2]);
      BigEndianBack(bs[2..10]);
      assert bs == bs[..2] + bs[2..10];
    }
  }

  function EncodeEpochs(es: seq<Epoch>): (r: Bytes)
    ensures |r| == 16 * |es|
  {
    if |es| == 0 then [] else BigEndian(es[0].start, 8) + BigEndian(es[0].end, 8) + EncodeEpochs(es[1..])
  }

  /** The loop that writes a timeline, one pair of words at a time. */
  method WriteEpochs(es: seq<Epoch>) returns (out: Bytes)
    ensures out == EncodeEpochs(es)
  {
    hide BigEndian;
    out := [];
    assert es[0..] == es;
    ghost var whole := EncodeEpochs(es);
    for i := 0 to |es|
      invariant whole == out + EncodeEpochs(es[i..])
    {
      EncodeNext(es, i, out);
      hide EncodeEpochs;
      out := out + BigEndian(es[i].start, 8);
      out := out + BigEndian(es[i].end, 8);
    }
  }

  lemma EncodeNext(es: seq<Epoch>, i: nat, out: Bytes)
    requires i < |es|
    ensures out + EncodeEpochs(es[i..])
            == out + BigEndian(es[i].start, 8) + BigEndian(es[i].end, 8) + EncodeEpochs(es[i + 1..])
  {
    assert es[i..][1..] == es[i + 1..];
    hide BigEndian;
  }

  function DecodePairs(bs: Bytes): seq<Epoch>
    requires |bs| % 16 == 0
  {
    if |bs| == 0 then []
    else [Epoch(FromBigEndian(bs[..8]), FromBigEndian(bs[8..16]))] + DecodePairs(bs[16..])
  }

  /** A length that is not a positive multiple of 16 is corrupt. */
  function DecodeEpochs(bs: Bytes): Option<seq<Epoch>> {
    if |bs| == 0 || |bs| % 16 != 0 then None else Some(DecodePairs(bs))
  }

  lemma {:induction false} PairsRoundTrip(es: seq<Epoch>)
    requires forall i :: 0 <= i < |es| ==> es[i].start <= U64_MAX && es[i].end <= U64_MAX
    ensures DecodePairs(EncodeEpochs(es)) == es
  {
    hide BigEndian, FromBigEndian;
    if |es| > 0 {
      BoundIsWord();
      var a, b, rest := BigEndian(es[0].start, 8), BigEndian(es[0].end, 8), EncodeEpochs(es[1..]);
      BigEndianRoundTrip(es[0].start, 8);
      BigEndianRoundTrip(es[0].end, 8);
      PairsRoundTrip(es[1..]);
      var bs := a + b + rest;
      assert bs[..8] == a && bs[8..16] == b && bs[16..] == rest;
      assert es == [es[0]] + es[1..];
    }
  }

  /** Decoding inverts encoding on every timeline that can be registered. */
  lemma EpochsRoundTrip(es: seq<Epoch>)
    requires |es| > 0 && forall i :: 0 <= i < |es| ==> es[i].start <= U64_MAX && es[i].end <= U64_MAX
    ensures DecodeEpochs(EncodeEpochs(es)) == Some(es)
  {
    hide EncodeEpochs, DecodePairs;
    PairsRoundTrip(es);
  }

  lemma {:induction false} PairsDecoded(bs: Bytes)
    requires |bs| % 16 == 0
    ensures |DecodePairs(bs)| == |bs| / 16 && EncodeEpochs(DecodePairs(bs)) == bs
    ensures forall e :: e in DecodePairs(bs) ==> e.start <= U64_MAX && e.end <= U64_MAX
    decreases |bs|
  {
    hide BigEndian, FromBigEndian;
    if |bs| > 0 {
      BoundIsWord();
      BigEndianBack(bs[..8]);
      BigEndianBack(bs[8..16]);
      PairsDecoded(bs[16..]);
      var first, rest := Epoch(FromBigEndian(bs[..8]), FromBigEndian(bs[8..16])), DecodePairs(bs[16..]);
      assert ([first] + rest)[1..] == rest;
      assert bs == bs[..8] + bs[8..16] + bs[16..];
    }
  }

  /** What decodes is exactly what some non-empty timeline of words encodes to, and it decodes to that timeline. */
  lemma EpochsDecoded(bs: Bytes)
    ensures DecodeEpochs(bs).Some? <==> |bs| > 0 && |bs| % 16 == 0
    ensures DecodeEpochs(bs).Some? ==>
              var es := DecodeEpochs(bs).value;
              |es| > 0 && EncodeEpochs(es) == bs && forall e :: e in es ==> e.start <= U64_MAX && e.end <= U64_MAX
  {
    hide EncodeEpochs, DecodePairs;
    if |bs| > 0 && |bs| % 16 == 0 {
      PairsDecoded(bs);
    }
  }
}
