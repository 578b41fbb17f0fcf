/** The lower three levels of the artifact catalog: a group of artifacts
    sharing an inode (`ArtifactInode`), the inode map of one version
    (`ArtifactVersion`) and the version map of one name (`ArtifactName`).
    Every mutating operation returns the new value; the files on disk are a
    set of paths threaded through the deleting operations. */
module Catalog {
  import opened Outcomes
  import opened Seqs
  import opened Text
  import opened Dicts
  import opened Artifacts

  /** `ArtifactInode`: the artifacts stored under one inode, in insertion order. */
  type Group = seq<Artifact>

  /** `ArtifactVersion`: inode number to group. */
  type Bucket = Dict<int, Group>

  /** `ArtifactName`: version string to bucket. */
  type NameIndex = Dict<string, Bucket>

  /** The paths present on disk. */
  type Fs = set<string>

  /** The two optional filters of `get_artifacts`: a regular expression
      searched in the path (the regex engine is abstracted to a predicate on
      paths) and a predicate on artifacts. */
  datatype Filters = Filters(regmatch: Option<string -> bool>, fmatch: Option<Artifact -> bool>)

  const NoFilters := Filters(None, None)

  /** Whether `get_artifacts` keeps an artifact: the regular expression wins
      over the predicate, and with neither everything is kept. */
  predicate Admits(f: Filters, a: Artifact) {
    match f.regmatch
    case Some(re) => re(a.path)
    case None =>
      match f.fmatch
      case Some(p) => p(a)
      case None => true
  }

  ghost predicate ValidName(n: NameIndex) {
    Valid(n) && forall v :: v in n.items ==> Valid(n.items[v])
  }

  function Paths(g: Group): set<string> {
    set a | a in g :: a.path
  }

  // ---------------------------------------------------------------- groups

  /** `ArtifactInode.delete(noop)`: every member's file is removed unless
      `noop`; a file already missing is skipped. */
  function GroupDelete(g: Group, noop: bool, fs: Fs): (r: Fs)
    ensures noop ==> r == fs
    ensures !noop ==> r == fs - Paths(g)
  {
    if |g| == 0 then fs
    else
      var next := if !noop && g[0].path in fs then fs - {g[0].path} else fs;
      assert g == [g[0]] + g[1..];
      assert Paths(g) == {g[0].path} + Paths(g[1..]);
      GroupDelete(g[1..], noop, next)
  }

  /** `ArtifactInode.get_artifacts(regmatch, fmatch)`. */
  function GroupArtifacts(g: Group, f: Filters): (r: Group)
    ensures forall a :: multiset(r)[a] == if Admits(f, a) then multiset(g)[a] else 0
    ensures forall a :: a in r <==> a in g && Admits(f, a)
    ensures f.regmatch.None? && f.fmatch.None? ==> r == g
  {
    match f.regmatch
    case Some(re) => Filter(g, (a: Artifact) => re(a.path))
    case None =>
      match f.fmatch
      case Some(p) => Filter(g, p)
      case None => g
  }

  // --------------------------------------------------------------- buckets

  /** `ArtifactVersion.add_artifact(artifact)`: create the inode's group if
      missing, append, and report success. */
  function BucketAdd(b: Bucket, a: Artifact): (r: (Bucket, bool))
    requires Valid(b)
    ensures Valid(r.0) && r.1
    ensures r.0.items.Keys == b.items.Keys + {a.inode}
    ensures r.0.items[a.inode] == (if a.inode in b.items then b.items[a.inode] else []) + [a]
    ensures forall i :: i in b.items && i != a.inode ==> r.0.items[i] == b.items[i]
  {
    var group := if a.inode in b.items then b.items[a.inode] else [];
    (Put(b, a.inode, group + [a]), true)
  }

  /** Two artifacts with the same inode end up in one group, in the order
      they were added. */
  lemma BucketAddSameInode(b: Bucket, a1: Artifact, a2: Artifact)
    requires Valid(b) && a1.inode == a2.inode
    ensures var b2 := BucketAdd(BucketAdd(b, a1).0, a2).0;
      b2.items.Keys == b.items.Keys + {a1.inode} &&
      b2.items[a1.inode] == (if a1.inode in b.items then b.items[a1.inode] else []) + [a1, a2]
  {
    var group := if a1.inode in b.items then b.items[a1.inode] else [];
    assert group + [a1] + [a2] == group + [a1, a2];
  }

  /** `ArtifactVersion.delete_inode(inode, noop)`: an absent inode is
      ignored; otherwise the group's files are deleted (unless `noop`) and
      the entry is popped, `noop` or not. */
  function BucketDeleteInode(b: Bucket, inode: int, noop: bool, fs: Fs): (r: (Bucket, Fs))
    requires Valid(b)
    ensures Valid(r.0)
    ensures r.0.items == b.items - {inode}
    ensures inode !in b.items ==> r == (b, fs)
    ensures inode in b.items && noop ==> r.1 == fs
    ensures inode in b.items && !noop ==> r.1 == fs - Paths(b.items[inode])
  {
    if inode in b.items then (Pop(b, inode), GroupDelete(b.items[inode], noop, fs))
    else (b, fs)
  }

  /** The files of the groups listed in `inodes`. */
  function PathsOf(b: Bucket, inodes: seq<int>): set<string> {
    set i, a | i in inodes && i in b.items && a in b.items[i] :: a.path
  }

  /** `for inode in bucket.keys(): bucket.delete_inode(inode, noop)`, the
      key list being a copy taken before the loop. */
  function DeleteInodes(b: Bucket, inodes: seq<int>, noop: bool, fs: Fs): (r: (Bucket, Fs))
    requires Valid(b)
    ensures Valid(r.0)
    ensures forall i :: i in r.0.items <==> i in b.items && i !in inodes
    ensures forall i :: i in r.0.items ==> r.0.items[i] == b.items[i]
    ensures noop ==> r.1 == fs
    ensures !noop ==> r.1 == fs - PathsOf(b, inodes)
    decreases |inodes|
  {
    if |inodes| == 0 then (b, fs)
    else
      var step := BucketDeleteInode(b, inodes[0], noop, fs);
      var r := DeleteInodes(step.0, inodes[1..], noop, step.1);
      assert forall i :: i in inodes <==> i == inodes[0] || i in inodes[1..];
      PathsOfStep(b, inodes, step.0);
      r
  }

  /** The files of `inodes` are those of the first inode plus those of the
      rest once the first is popped. */
  lemma PathsOfStep(b: Bucket, inodes: seq<int>, rest: Bucket)
    requires Valid(b) && |inodes| > 0 && rest.items == b.items - {inodes[0]}
    ensures PathsOf(b, inodes) ==
      (if inodes[0] in b.items then Paths(b.items[inodes[0]]) else {}) + PathsOf(rest, inodes[1..])
  {
    var first := if inodes[0] in b.items then Paths(b.items[inodes[0]]) else {};
    forall p | p in PathsOf(b, inodes)
      ensures p in first + PathsOf(rest, inodes[1..])
    {
      var i, a :| i in inodes && i in b.items && a in b.items[i] && a.path == p;
      if i != inodes[0] {
        assert i in inodes[1..];
        assert i in rest.items && a in rest.items[i];
      }
    }
    forall p | p in first + PathsOf(rest, inodes[1..])
      ensures p in PathsOf(b, inodes)
    {
      if p in first {
        assert inodes[0] in b.items;
        var a :| a in b.items[inodes[0]] && a.path == p;
        PathOfListed(b, inodes, inodes[0], a);
      } else {
        var i, a :| i in inodes[1..] && i in rest.items && a in rest.items[i] && a.path == p;
        PathOfListed(b, inodes, i, a);
      }
    }
  }

  lemma PathOfListed(b: Bucket, inodes: seq<int>, i: int, a: Artifact)
    requires i in inodes && i in b.items && a in b.items[i]
    ensures a.path in PathsOf(b, inodes)
  {
  }

  function BucketPaths(b: Bucket): set<string> {
    PathsOf(b, b.order)
  }

  /** `ArtifactVersion.get_artifacts(regmatch, fmatch)`: the filtered groups,
      one after the other. */
  function BucketArtifacts(b: Bucket, f: Filters): (r: seq<Artifact>)
    requires Valid(b)
    ensures forall a :: a in r <==> InBucket(b, a) && Admits(f, a)
    ensures forall a :: multiset(r)[a] == if Admits(f, a) then BucketBag(b)[a] else 0
  {
    var parts := seq(|b.order|, k requires 0 <= k < |b.order| => GroupArtifacts(b.items[b.order[k]], f));
    forall a ensures a in Concat(parts) <==> InBucket(b, a) && Admits(f, a) {
      BucketPartsMember(b, f, parts, a);
    }
    ConcatBag(parts);
    forall a ensures multiset(Concat(parts))[a] == if Admits(f, a) then BucketBag(b)[a] else 0 {
      SumBagsPointwise(Bags(parts), Bags(Values(b)), a, Admits(f, a));
    }
    Concat(parts)
  }

  /** The artifacts of the bucket, each counted as often as its groups
      hold it. */
  function BucketBag(b: Bucket): multiset<Artifact>
    requires Valid(b)
  {
    SumBags(Bags(Values(b)))
  }

  lemma BucketPartsMember(b: Bucket, f: Filters, parts: seq<seq<Artifact>>, a: Artifact)
    requires Valid(b) && |parts| == |b.order|
    requires forall k :: 0 <= k < |parts| ==> parts[k] == GroupArtifacts(b.items[b.order[k]], f)
    ensures a in Concat(parts) <==> InBucket(b, a) && Admits(f, a)
  {
    if a in Concat(parts) {
      var k :| 0 <= k < |parts| && a in parts[k];
      var i := b.order[k];
      assert a in GroupArtifacts(b.items[i], f);
      assert i in b.items && a in b.items[i];
    }
    if InBucket(b, a) && Admits(f, a) {
      var i :| i in b.items && a in b.items[i];
      assert i in b.order;
      var k := IndexOf(b.order, i);
      assert a in GroupArtifacts(b.items[i], f);
      assert a in parts[k];
    }
  }

  /** The artifact is stored in one of the bucket's groups. */
  predicate InBucket(b: Bucket, a: Artifact) {
    exists i :: i in b.items && a in b.items[i]
  }

  // ----------------------------------------------------------------- names

  /** The bucket of a version, or a fresh one. */
  function BucketOf(n: NameIndex, version: string): (r: Bucket)
    requires ValidName(n)
    ensures Valid(r)
  {
    if version in n.items then n.items[version] else Empty()
  }

  /** Some version already present is at least as new as `version` in
      plain string order: the corrected `onlyifnewer` refusal. */
  predicate HasAtLeast(n: NameIndex, version: string) {
    exists k :: k in n.items && StrLe(version, k)
  }

  /** `ArtifactName.add_artifact(artifact, onlyifnewer)` with the
      `onlyifnewer` gate as intended: refuse (and change nothing) when a
      version at least as new is already present; otherwise add the
      artifact to its version's bucket, creating it when missing. */
  function NameAddArtifact(n: NameIndex, a: Artifact, onlyIfNewer: bool): (r: (NameIndex, bool))
    requires ValidName(n)
    ensures ValidName(r.0)
    ensures onlyIfNewer && HasAtLeast(n, a.version) ==> r == (n, false)
    ensures !(onlyIfNewer && HasAtLeast(n, a.version)) ==>
      r.1 &&
      r.0.items.Keys == n.items.Keys + {a.version} &&
      r.0.items[a.version] == BucketAdd(BucketOf(n, a.version), a).0 &&
      forall v :: v in n.items && v != a.version ==> r.0.items[v] == n.items[v]
  {
    if onlyIfNewer && HasAtLeast(n, a.version) then (n, false)
    else
      var added := BucketAdd(BucketOf(n, a.version), a);
      (Put(n, a.version, added.0), added.1)
  }

  /** What either `onlyifnewer` gate leaves of a name: the artifact is
      refused and the name unchanged (which never happens to a name without
      versions), or it joins its version's bucket and every other version is
      untouched. */
  ghost predicate AddedOrRefused(n: NameIndex, a: Artifact, r: (NameIndex, bool)) {
    ValidName(n) && ValidName(r.0) &&
    ((r == (n, false) && |n.order| > 0) ||
     (r.1 &&
      r.0.items.Keys == n.items.Keys + {a.version} &&
      r.0.items[a.version] == BucketAdd(BucketOf(n, a.version), a).0 &&
      forall v :: v in n.items && v != a.version ==> r.0.items[v] == n.items[v]))
  }

  /** Both gates add or refuse in that sense. */
  lemma GatesAddOrRefuse(n: NameIndex, a: Artifact, onlyIfNewer: bool)
    requires ValidName(n)
    ensures AddedOrRefused(n, a, NameAddArtifact(n, a, onlyIfNewer))
    ensures AddedOrRefused(n, a, NameAddArtifactAsWritten(n, a, onlyIfNewer))
  {
    if |n.order| == 0 {
      assert n.items == map[];
      assert FirstAtMost(n.order, a.version) == None;
    }
  }

  /** With `onlyifnewer`, an artifact is accepted exactly when its version is
      newer, in plain string order, than every version present. */
  lemma OnlyIfNewerAcceptsNewest(n: NameIndex, a: Artifact)
    requires ValidName(n)
    ensures NameAddArtifact(n, a, true).1 <==> forall k :: k in n.items ==> StrLt(k, a.version)
  {
    forall k | k in n.items ensures StrLe(a.version, k) <==> !StrLt(k, a.version) {
      StrCmpAntisymmetric(k, a.version);
    }
  }

  /** `keys[i]` is the first key, in iteration order, that is `<= version`. */
  predicate FirstAtMostAt(keys: seq<string>, version: string, i: int) {
    0 <= i < |keys| && StrLe(keys[i], version) && forall j :: 0 <= j < i ==> !StrLe(keys[j], version)
  }

  /** The first key, in iteration order, that is `<= version`:
      `next((ver for ver in keys if ver <= version), None)`. */
  function FirstAtMost(keys: seq<string>, version: string): (r: Option<string>)
    ensures r.None? <==> forall i :: 0 <= i < |keys| ==> !StrLe(keys[i], version)
    ensures r.Some? ==> exists i :: FirstAtMostAt(keys, version, i) && keys[i] == r.value
  {
    if |keys| == 0 then None
    else if StrLe(keys[0], version) then Some(keys[0])
    else
      var r := FirstAtMost(keys[1..], version);
      assert r.Some? ==> exists i :: FirstAtMostAt(keys, version, i) && keys[i] == r.value by {
        if r.Some? {
          var i :| FirstAtMostAt(keys[1..], version, i) && keys[1..][i] == r.value;
          assert keys[i + 1] == r.value;
          assert forall j :: 1 <= j < i + 1 ==> keys[j] == keys[1..][j - 1];
          assert FirstAtMostAt(keys, version, i + 1);
        }
      }
      assert r.None? ==> forall i :: 1 <= i < |keys| ==> !StrLe(keys[i], version) by {
        if r.None? {
          assert forall i :: 1 <= i < |keys| ==> keys[i] == keys[1..][i - 1];
        }
      }
      r
  }

  /** The `onlyifnewer` refusal as the code writes it: the version is
      already a key, or the first key found that is `<=` the new version is
      a non-empty string (an empty key is false in Python). The code tests
      `ver_rel` for the first condition; only RPMs have one, and it is the
      version they are filed under, so the model reads `version` there. */
  predicate RefusesAsWritten(n: NameIndex, version: string) {
    version in n.items ||
    (FirstAtMost(n.order, version).Some? && FirstAtMost(n.order, version).value != "")
  }

  /** `ArtifactName.add_artifact` with the gate's comparison as written. */
  function NameAddArtifactAsWritten(n: NameIndex, a: Artifact, onlyIfNewer: bool): (r: (NameIndex, bool))
    requires ValidName(n)
    ensures ValidName(r.0)
    ensures onlyIfNewer && RefusesAsWritten(n, a.version) ==> r == (n, false)
    ensures !(onlyIfNewer && RefusesAsWritten(n, a.version)) ==>
      r.1 &&
      r.0.items.Keys == n.items.Keys + {a.version} &&
      r.0.items[a.version] == BucketAdd(BucketOf(n, a.version), a).0 &&
      forall v :: v in n.items && v != a.version ==> r.0.items[v] == n.items[v]
  {
    if onlyIfNewer && RefusesAsWritten(n, a.version) then (n, false)
    else
      var added := BucketAdd(BucketOf(n, a.version), a);
      (Put(n, a.version, added.0), added.1)
  }

  /** As written, and with no empty version key, `onlyifnewer` accepts an
      artifact exactly when its version is OLDER than every version
      present: the comparison is the wrong way round. */
  lemma AsWrittenAcceptsOnlyOlder(n: NameIndex, a: Artifact)
    requires ValidName(n) && "" !in n.items
    ensures NameAddArtifactAsWritten(n, a, true).1 <==> forall k :: k in n.items ==> StrLt(a.version, k)
  {
    var v := a.version;
    var first := FirstAtMost(n.order, v);
    forall k | k in n.items ensures StrLt(v, k) <==> k != v && !StrLe(k, v) {
      StrCmpAntisymmetric(k, v);
      StrCmpZeroIffEqual(k, v);
    }
    if first.Some? {
      var i :| FirstAtMostAt(n.order, v, i) && n.order[i] == first.value;
      assert first.value in n.items;
      assert RefusesAsWritten(n, v);
    } else {
      forall k | k in n.items ensures !StrLe(k, v) {
        var i :| 0 <= i < |n.order| && n.order[i] == k;
      }
    }
  }

  /** The inode-1 artifact of version `v` used by the example below. */
  function ExampleArtifact(v: string): Artifact {
    Artifact("/repo/pkg-" + v, 1, Some("pkg"), v, ".tar.gz", "artifact", false)
  }

  /** Versions `1.0` and `2.0` present, `3.0` offered with `onlyifnewer`:
      the code as written refuses it, the intended gate accepts it. */
  lemma AsWrittenRefusesNewerExample()
    ensures var n := Put(Put(Empty(), "1.0", Empty()), "2.0", Empty());
      var a := ExampleArtifact("3.0");
      !NameAddArtifactAsWritten(n, a, true).1 && NameAddArtifact(n, a, true).1
  {
    var n := Put(Put(Empty<string, Bucket>(), "1.0", Empty()), "2.0", Empty());
    var a := ExampleArtifact("3.0");
    assert n.order == ["1.0", "2.0"];
    assert StrLe("1.0", "3.0");
    assert FirstAtMost(n.order, "3.0") == Some("1.0");
    OnlyIfNewerAcceptsNewest(n, a);
    assert StrLt("1.0", "3.0") && StrLt("2.0", "3.0");
  }

  /** How many versions `get_latest(num)` returns out of `eligible`
      candidates in a name with `len` versions: `num == 0` means all of
      them, more than available is capped, and a negative count yields
      nothing (`xrange` of a negative number is empty). */
  function LatestCount(num: int, len: nat, eligible: nat): (r: nat)
    ensures r <= eligible
    ensures num == 0 ==> r == (if len < eligible then len else eligible)
    ensures num > 0 ==> r == (if num < eligible then num else eligible)
    ensures num < 0 ==> r == 0
  {
    var wanted := if num == 0 then len else num;
    if wanted > eligible then eligible else if wanted < 0 then 0 else wanted
  }

  /** The versions whose bucket the ranking considers. */
  function EligibleKeys(n: NameIndex, eligible: Bucket -> bool): set<string> {
    set k | k in n.items && eligible(n.items[k])
  }

  /** The ranked versions, largest first (`sorted_list.sort(reverse=True)`). */
  function Ranked(n: NameIndex, eligible: Bucket -> bool): (r: seq<string>)
    requires Valid(n)
    ensures StrictlyDescending(r) && Distinct(r)
    ensures forall k :: k in r <==> k in EligibleKeys(n, eligible)
    ensures |r| == |EligibleKeys(n, eligible)|
  {
    var p := (k: string) => k in n.items && eligible(n.items[k]);
    var candidates := Filter(n.order, p);
    FilterKeepsDistinct(n.order, p);
    assert (set k | k in candidates) == EligibleKeys(n, eligible);
    DistinctCardinality(candidates);
    var r := SortDescending(candidates);
    assert |r| == |candidates| by {
      assert |multiset(r)| == |multiset(candidates)|;
    }
    DescendingIsDistinct(r);
    assert forall k :: k in r <==> k in multiset(candidates);
    r
  }

  /** Every element of a descending list outside its first `count`
      elements is smaller than every element inside them. */
  lemma DescendingPrefixIsTop(ranked: seq<string>, count: nat, k: string, other: string)
    requires StrictlyDescending(ranked) && count <= |ranked|
    requires k in ranked[..count] && other in ranked && other !in ranked[..count]
    ensures StrLt(other, k)
  {
    var i :| 0 <= i < count && ranked[i] == k;
    var j :| 0 <= j < |ranked| && ranked[j] == other;
    assert forall t :: 0 <= t < count ==> ranked[..count][t] == ranked[t];
    assert count <= j;
  }

  /** The dictionary holding just the listed versions of a name, in the
      listed order. */
  function Restrict(n: NameIndex, keys: seq<string>): (r: NameIndex)
    requires Distinct(keys) && forall k :: k in keys ==> k in n.items
    ensures Valid(r) && r.order == keys
    ensures forall k :: k in r.items <==> k in keys
    ensures forall k :: k in r.items ==> r.items[k] == n.items[k]
  {
    Dict(keys, map k | k in keys :: n.items[k])
  }

  /** `get_latest(num)` with a pluggable test of which versions are ranked
      (all of them for `ArtifactName`, those holding a binary for
      `RPMName`): `None` for an empty name, otherwise the `num` largest
      ranked versions in plain string order, mapped to the same buckets. */
  function Latest(n: NameIndex, num: int, eligible: Bucket -> bool): (r: Option<NameIndex>)
    requires Valid(n)
    ensures r.None? <==> |n.order| == 0
    ensures r.Some? ==> Valid(r.value)
    ensures r.Some? ==> |r.value.order| == LatestCount(num, |n.order|, |EligibleKeys(n, eligible)|)
    ensures r.Some? ==> forall k :: k in r.value.items ==>
      k in n.items && eligible(n.items[k]) && r.value.items[k] == n.items[k]
    ensures r.Some? ==> forall k, other ::
      (k in r.value.items && other in EligibleKeys(n, eligible) && other !in r.value.items) ==> StrLt(other, k)
  {
    if |n.order| == 0 then None
    else
      var ranked := Ranked(n, eligible);
      Some(TopOf(n, ranked, LatestCount(num, |n.order|, |ranked|), EligibleKeys(n, eligible)))
  }

  /** The first `count` versions of a ranking of `keys`, with their buckets. */
  function TopOf(n: NameIndex, ranked: seq<string>, count: nat, keys: set<string>): (d: NameIndex)
    requires Valid(n) && StrictlyDescending(ranked) && Distinct(ranked) && count <= |ranked|
    requires forall k :: k in ranked <==> k in keys
    requires forall k :: k in keys ==> k in n.items
    ensures Valid(d) && |d.order| == count
    ensures forall k :: k in d.items ==> k in keys && d.items[k] == n.items[k]
    ensures forall k, other :: (k in d.items && other in keys && other !in d.items) ==> StrLt(other, k)
  {
    var top := ranked[..count];
    assert forall t :: 0 <= t < |top| ==> top[t] == ranked[t];
    assert forall k :: k in top ==> k in ranked;
    var d := Restrict(n, top);
    forall k, other | k in d.items && other in keys && other !in d.items
      ensures StrLt(other, k)
    {
      DescendingPrefixIsTop(ranked, count, k, other);
    }
    d
  }

  lemma DescendingIsDistinct(s: seq<string>)
    requires StrictlyDescending(s)
    ensures Distinct(s)
  {
    forall i, j | 0 <= i < j < |s| ensures s[i] != s[j] {
      StrCmpZeroIffEqual(s[j], s[i]);
    }
  }

  /** The ranking test of `ArtifactName.get_latest`: every version. */
  const AllVersions: Bucket -> bool := (b: Bucket) => true

  /** `ArtifactName.get_latest(num)`: every version is ranked. */
  function GetLatest(n: NameIndex, num: int): (r: Option<NameIndex>)
    requires Valid(n)
    ensures r.None? <==> |n.order| == 0
    ensures r.Some? ==> Valid(r.value) && |r.value.order| == LatestCount(num, |n.order|, |n.order|)
    ensures r.Some? ==> forall k :: k in r.value.items ==> k in n.items && r.value.items[k] == n.items[k]
    ensures r.Some? ==> forall k, other ::
      (k in r.value.items && other in n.items && other !in r.value.items) ==> StrLt(other, k)
  {
    var r := Latest(n, num, AllVersions);
    assert EligibleKeys(n, AllVersions) == n.items.Keys;
    LenIsCardinality(n);
    r
  }

  /** The versions that `get_artifacts(latest=...)` visits. `ranks` is the
      test of the name class's `get_latest`: `AllVersions` for
      `ArtifactName`, a binary-holding test for `RPMName`. */
  function Visited(n: NameIndex, latest: int, ranks: Bucket -> bool): (r: Option<NameIndex>)
    requires Valid(n)
  {
    if latest == 0 then Some(n) else Latest(n, latest, ranks)
  }

  /** The listing of each visited version, in iteration order. */
  function VisitedParts(d: NameIndex, f: Filters): (r: seq<seq<Artifact>>)
    requires ValidName(d)
    ensures |r| == |d.order|
    ensures forall k :: 0 <= k < |r| ==> r[k] == BucketArtifacts(d.items[d.order[k]], f)
  {
    seq(|d.order|, k requires 0 <= k < |d.order| => BucketArtifacts(d.items[d.order[k]], f))
  }

  /** An artifact is listed from the visited versions exactly when one of
      them stores it and the filters admit it. */
  lemma VisitedPartsMember(d: NameIndex, f: Filters, parts: seq<seq<Artifact>>, a: Artifact)
    requires ValidName(d) && parts == VisitedParts(d, f)
    ensures a in Concat(parts) <==> InName(d, a) && Admits(f, a)
  {
    if a in Concat(parts) {
      var k :| 0 <= k < |parts| && a in parts[k];
      VisitedPartLists(d, f, parts, k, a);
      assert InBucket(d.items[d.order[k]], a);
    }
    if InName(d, a) && Admits(f, a) {
      var v :| v in d.items && InBucket(d.items[v], a);
      assert v in d.order;
      var k := IndexOf(d.order, v);
      VisitedPartLists(d, f, parts, k, a);
      assert a in parts[k];
    }
  }

  /** The artifact is stored under one of the name's versions. */
  predicate InName(n: NameIndex, a: Artifact) {
    exists v :: v in n.items && InBucket(n.items[v], a)
  }

  /** One version's part of the listing holds what its bucket admits. */
  lemma VisitedPartLists(d: NameIndex, f: Filters, parts: seq<seq<Artifact>>, k: int, a: Artifact)
    requires ValidName(d) && parts == VisitedParts(d, f) && 0 <= k < |parts|
    ensures d.order[k] in d.items
    ensures a in parts[k] <==> InBucket(d.items[d.order[k]], a) && Admits(f, a)
  {
    assert d.order[k] in d.items;
    assert parts[k] == BucketArtifacts(d.items[d.order[k]], f);
  }

  /** `ArtifactName.get_artifacts(regmatch, fmatch, latest)`. With a
      non-zero `latest` on an empty name, `get_latest` returns `None` and the
      code fails calling `.values()` on it. `ranks` is the ranking test of
      the name class's own `get_latest` (see `Visited`). */
  function NameArtifacts(n: NameIndex, f: Filters, latest: int, ranks: Bucket -> bool): (r: Result<seq<Artifact>>)
    requires ValidName(n)
    ensures r.Err? <==> latest != 0 && |n.order| == 0
    ensures r.Err? ==> r.error == NoneHasNoValues
    ensures r.Ok? ==> forall a :: a in r.value <==> InName(Visited(n, latest, ranks).value, a) && Admits(f, a)
    ensures r.Ok? ==> forall a :: multiset(r.value)[a] == if Admits(f, a) then NameBag(Visited(n, latest, ranks).value)[a] else 0
  {
    match Visited(n, latest, ranks)
    case None => Err(NoneHasNoValues)
    case Some(d) =>
      assert ValidName(d);
      var parts := VisitedParts(d, f);
      var r := Concat(parts);
      forall a ensures a in r <==> InName(d, a) && Admits(f, a) {
        VisitedPartsMember(d, f, parts, a);
      }
      VisitedPartsBag(d, f, parts);
      Ok(r)
  }

  /** The listing holds each admitted artifact as often as the visited
      buckets do together. */
  lemma VisitedPartsBag(d: NameIndex, f: Filters, parts: seq<seq<Artifact>>)
    requires ValidName(d) && parts == VisitedParts(d, f)
    ensures forall a :: multiset(Concat(parts))[a] == if Admits(f, a) then NameBag(d)[a] else 0
  {
    ConcatBag(parts);
    forall a ensures multiset(Concat(parts))[a] == if Admits(f, a) then NameBag(d)[a] else 0 {
      var xs, ys := Bags(parts), BucketBags(d);
      forall k | 0 <= k < |xs| ensures xs[k][a] == if Admits(f, a) then ys[k][a] else 0 {
        VisitedPartBag(d, f, parts, k, a);
      }
      SumBagsPointwise(xs, ys, a, Admits(f, a));
    }
  }

  /** One version's part of the listing holds each admitted artifact as
      often as its bucket does. */
  lemma VisitedPartBag(d: NameIndex, f: Filters, parts: seq<seq<Artifact>>, k: int, a: Artifact)
    requires ValidName(d) && parts == VisitedParts(d, f) && 0 <= k < |parts|
    ensures multiset(parts[k])[a] == if Admits(f, a) then BucketBags(d)[k][a] else 0
  {
    assert d.order[k] in d.items;
    assert parts[k] == BucketArtifacts(d.items[d.order[k]], f);
  }

  /** The bag of each version's bucket, in iteration order. */
  function BucketBags(n: NameIndex): (r: seq<multiset<Artifact>>)
    requires ValidName(n)
    ensures |r| == |n.order|
    ensures forall k :: 0 <= k < |r| ==> r[k] == BucketBag(n.items[n.order[k]])
  {
    seq(|n.order|, k requires 0 <= k < |n.order| => BucketBag(n.items[n.order[k]]))
  }

  /** The artifacts of the name, each counted as often as its versions'
      groups hold it. */
  function NameBag(n: NameIndex): multiset<Artifact>
    requires ValidName(n)
  {
    SumBags(BucketBags(n))
  }

  /** `ArtifactName.delete_version(version, noop)`: an absent version is
      ignored; otherwise every group of its bucket is deleted (files kept
      under `noop`) and the version is popped, `noop` or not. */
  function NameDeleteVersion(n: NameIndex, version: string, noop: bool, fs: Fs): (r: (NameIndex, Fs))
    requires ValidName(n)
    ensures ValidName(r.0)
    ensures r.0.items == n.items - {version}
    ensures version !in n.items ==> r == (n, fs)
    ensures version in n.items && noop ==> r.1 == fs
    ensures version in n.items && !noop ==> r.1 == fs - BucketPaths(n.items[version])
  {
    if version in n.items then
      var b := n.items[version];
      (Pop(n, version), DeleteInodes(b, b.order, noop, fs).1)
    else (n, fs)
  }

  /** Every file of the bucket belongs to an artifact stored in it. */
  lemma BucketPathsAreStored(b: Bucket, p: string)
    requires Valid(b)
    ensures p in BucketPaths(b) <==> exists a :: InBucket(b, a) && a.path == p
  {
    if exists a :: InBucket(b, a) && a.path == p {
      var a :| InBucket(b, a) && a.path == p;
      var i :| i in b.items && a in b.items[i];
      assert i in b.order;
    }
  }
}
