/**
  The in-memory blob store keeps its blobs under one string each: workspace, ruleset key and the
  version as a single character, separated by NUL characters.
  */
module BlobKeys {
  import opened Wrappers
  import opened CanonicalJson
  import opened Registry

  const NUL: char := 0 as char

  const REPLACEMENT: char := 0xFFFD as char

  /** Conversion to a 32-bit rune wraps around. */
  function Rune(n: nat): (r: int) {
    (n + 0x8000_0000) % 0x1_0000_0000 - 0x8000_0000
  }

  predicate IsScalar(r: int) {
    0 <= r < 0xD800 || 0xE000 <= r <= 0x10FFFF
  }

  /** A rune that is no Unicode scalar value becomes the replacement character. */
  function VersionChar(n: nat): char {
    if IsScalar(Rune(n)) then Rune(n) as char else REPLACEMENT
  }

  function KeyText(k: Key): string {
    k.workspace + [NUL] + k.name
  }

  function BlobKey(id: BlobId): string {
    id.key.workspace + [NUL] + id.key.name + [NUL] + [VersionChar(id.version)]
  }

  predicate NulFree(s: string) {
    forall i | 0 <= i < |s| :: s[i] != NUL
  }

  /** What stands before the first NUL, and what stands after it. */
  lemma FirstNul(a: string, b: string, x: string, y: string)
    requires NulFree(a) && NulFree(b) && a + [NUL] + x == b + [NUL] + y
    ensures a == b && x == y
  {
    var left, right := a + [NUL] + x, b + [NUL] + y;
    assert left[|a|] == NUL && right[|b|] == NUL;
    assert forall i | 0 <= i < |a| :: left[i] == a[i];
    assert forall i | 0 <= i < |b| :: right[i] == b[i];
    assert |a| == |b|;
    assert a == left[..|a|] == b;
    assert x == left[|a| + 1..] == y;
  }

  lemma KeyTextInjective(k: Key, l: Key)
    requires NulFree(k.workspace) && NulFree(l.workspace)
    ensures KeyText(k) == KeyText(l) <==> k == l
  {
    if KeyText(k) == KeyText(l) {
      FirstNul(k.workspace, l.workspace, k.name, l.name);
    }
  }

  /** Of names without NUL, two blob keys are equal exactly when the names are and the versions share a character. */
  lemma BlobKeysEqualIff(a: BlobId, b: BlobId)
    requires NulFree(a.key.workspace) && NulFree(a.key.name) && NulFree(b.key.workspace) && NulFree(b.key.name)
    ensures BlobKey(a) == BlobKey(b) <==> a.key == b.key && VersionChar(a.version) == VersionChar(b.version)
  {
    if BlobKey(a) == BlobKey(b) {
      var tailA, tailB := a.key.name + [NUL] + [VersionChar(a.version)], b.key.name + [NUL] + [VersionChar(b.version)];
      assert BlobKey(a) == a.key.workspace + [NUL] + tailA;
      assert BlobKey(b) == b.key.workspace + [NUL] + tailB;
      FirstNul(a.key.workspace, b.key.workspace, tailA, tailB);
      FirstNul(a.key.name, b.key.name, [VersionChar(a.version)], [VersionChar(b.version)]);
    }
  }

  const FIRST_SURROGATE := 0xD800

  ghost predicate Distinguished(n: nat) {
    forall i, j | 1 <= i < j <= n :: VersionChar(i) != VersionChar(j)
  }

  /** A ruleset's first n versions keep their blobs apart exactly up to n = 55296. */
  lemma DistinguishedIff(n: nat)
    ensures Distinguished(n) <==> n <= FIRST_SURROGATE
  {
    if n <= FIRST_SURROGATE {
      forall i: nat, j: nat | 1 <= i < j <= n ensures VersionChar(i) != VersionChar(j) {
        assert Rune(i) == i && Rune(j) == j;
      }
    } else {
      assert VersionChar(FIRST_SURROGATE) == REPLACEMENT == VersionChar(FIRST_SURROGATE + 1);
    }
  }

  /** Scalar values stand for themselves, the others share one character, and the whole wraps around at 32 bits. */
  lemma VersionChars(n: nat)
    ensures IsScalar(n) ==> VersionChar(n) as int == n
    ensures 0xD800 <= n < 0xE000 || 0x110000 <= n < 0x1_0000_0000 ==> VersionChar(n) == REPLACEMENT
    ensures VersionChar(n + 0x1_0000_0000) == VersionChar(n)
  {
    assert (n + 0x1_0000_0000 + 0x8000_0000) % 0x1_0000_0000 == (n + 0x8000_0000) % 0x1_0000_0000;
  }

  /** Names without NUL, and a version the store keeps apart from the others. */
  predicate Fit(id: BlobId) {
    NulFree(id.key.workspace) && NulFree(id.key.name) && 1 <= id.version <= FIRST_SURROGATE
  }

  lemma FitKeysDiffer(a: BlobId, b: BlobId)
    requires Fit(a) && Fit(b)
    ensures BlobKey(a) == BlobKey(b) <==> a == b
  {
    BlobKeysEqualIff(a, b);
    DistinguishedIff(FIRST_SURROGATE);
  }

  function At<T>(blobs: map<string, T>, id: BlobId): Option<T> {
    if BlobKey(id) in blobs then Some(blobs[BlobKey(id)]) else None
  }

  /** What a write changes, seen through the ids: that one blob. */
  ghost predicate OnlyAt<T>(was: map<string, T>, now: map<string, T>, id: BlobId, blob: Option<T>) {
    forall x | Fit(x) :: At(now, x) == if x == id then blob else At(was, x)
  }

  lemma PutAt<T>(blobs: map<string, T>, id: BlobId, blob: T)
    requires Fit(id)
    ensures OnlyAt(blobs, blobs[BlobKey(id) := blob], id, Some(blob))
  {
    forall x | Fit(x) ensures At(blobs[BlobKey(id) := blob], x) == if x == id then Some(blob) else At(blobs, x) {
      FitKeysDiffer(x, id);
    }
  }

  lemma DeleteAt<T>(blobs: map<string, T>, id: BlobId)
    requires Fit(id)
    ensures OnlyAt(blobs, blobs - {BlobKey(id)}, id, None)
  {
    forall x | Fit(x) ensures At(blobs - {BlobKey(id)}, x) == if x == id then None else At(blobs, x) {
      FitKeysDiffer(x, id);
    }
  }

  /** For fit ids it is the map from workspace, key and version that the service relies on. */
  class MemoryBlobs {
    var dsls: map<string, Json>
    var zips: map<string, Bundle>

    constructor ()
      ensures forall id :: At(dsls, id).None? && At(zips, id).None?
    {
      dsls, zips := map[], map[];
    }

    method PutDsl(id: BlobId, doc: Json)
      modifies this`dsls
      ensures dsls == old(dsls)[BlobKey(id) := doc]
      ensures Fit(id) ==> OnlyAt(old(dsls), dsls, id, Some(doc))
    {
      if Fit(id) {
        PutAt(dsls, id, doc);
      }
      dsls := dsls[BlobKey(id) := doc];
    }

    method GetDsl(id: BlobId) returns (r: Option<Json>)
      ensures r == At(dsls, id)
    {
      var k := BlobKey(id);
      r := if k in dsls then Some(dsls[k]) else None;
    }

    method DeleteDsl(id: BlobId)
      modifies this`dsls
      ensures dsls == old(dsls) - {BlobKey(id)}
      ensures Fit(id) ==> OnlyAt(old(dsls), dsls, id, None)
    {
      if Fit(id) {
        DeleteAt(dsls, id);
      }
      dsls := dsls - {BlobKey(id)};
    }

    method PutBundle(id: BlobId, bundle: Bundle)
      modifies this`zips
      ensures zips == old(zips)[BlobKey(id) := bundle]
      ensures Fit(id) ==> OnlyAt(old(zips), zips, id, Some(bundle))
    {
      if Fit(id) {
        PutAt(zips, id, bundle);
      }
      zips := zips[BlobKey(id) := bundle];
    }

    method GetBundle(id: BlobId) returns (r: Option<Bundle>)
      ensures r == At(zips, id)
    {
      var k := BlobKey(id);
      r := if k in zips then Some(zips[k]) else None;
    }

    method DeleteBundle(id: BlobId)
      modifies this`zips
      ensures zips == old(zips) - {BlobKey(id)}
      ensures Fit(id) ==> OnlyAt(old(zips), zips, id, None)
    {
      if Fit(id) {
        DeleteAt(zips, id);
      }
      zips := zips - {BlobKey(id)};
    }
  }
}
