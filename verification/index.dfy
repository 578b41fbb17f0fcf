/** `ArtifactList`: the catalog of a whole store, artifact name ->
    version -> inode -> artifacts. */
module ArtifactIndex {
  import opened Outcomes
  import opened Seqs
  import opened Dicts
  import opened Artifacts
  import opened Catalog

  type Index = Dict<string, NameIndex>

  ghost predicate ValidIndex(c: Index) {
    Valid(c) && forall m :: m in c.items ==> ValidName(c.items[m])
  }

  /** The versions of a name, or a fresh, empty name. */
  function NameOf(c: Index, name: string): (r: NameIndex)
    requires ValidIndex(c)
    ensures ValidName(r)
    ensures name !in c.items ==> r.items == map[]
  {
    if name in c.items then c.items[name] else Empty()
  }

  /** `ArtifactList.add_pkg(artifact, onlyifnewer)`: an artifact without a
      name is ignored (the call returns `None`); otherwise the name's entry
      is created when missing, before the version gate is consulted, and the
      artifact goes to its name through `add_artifact` as written. */
  function AddPkg(c: Index, a: Artifact, onlyIfNewer: bool): (r: (Index, Option<bool>))
    requires ValidIndex(c)
    ensures ValidIndex(r.0)
    ensures a.name.None? <==> r.1.None?
    ensures a.name.None? ==> r.0 == c
    ensures a.name.Some? ==>
      var m := a.name.value;
      var added := NameAddArtifactAsWritten(NameOf(c, m), a, onlyIfNewer);
      r.0.items.Keys == c.items.Keys + {m} && r.0.items[m] == added.0 && r.1 == Some(added.1)
    ensures forall m :: m in c.items && Some(m) != a.name ==> r.0.items[m] == c.items[m]
  {
    match a.name
    case None => (c, None)
    case Some(m) => StoreAdded(c, m, NameAddArtifactAsWritten(NameOf(c, m), a, onlyIfNewer))
  }

  /** `add_pkg` over the intended `onlyifnewer` gate, the one that refuses
      an artifact only when a version at least as new is present. */
  function AddPkgCorrected(c: Index, a: Artifact, onlyIfNewer: bool): (r: (Index, Option<bool>))
    requires ValidIndex(c)
    ensures ValidIndex(r.0)
    ensures a.name.None? <==> r.1.None?
    ensures a.name.None? ==> r.0 == c
    ensures a.name.Some? ==>
      var m := a.name.value;
      var added := NameAddArtifact(NameOf(c, m), a, onlyIfNewer);
      r.0.items.Keys == c.items.Keys + {m} && r.0.items[m] == added.0 && r.1 == Some(added.1)
    ensures forall m :: m in c.items && Some(m) != a.name ==> r.0.items[m] == c.items[m]
  {
    match a.name
    case None => (c, None)
    case Some(m) => StoreAdded(c, m, NameAddArtifact(NameOf(c, m), a, onlyIfNewer))
  }

  /** `self[name]` after `add_artifact` changed it in place, with the
      gate's answer as the return value of `add_pkg`. */
  function StoreAdded(c: Index, m: string, added: (NameIndex, bool)): (r: (Index, Option<bool>))
    requires ValidIndex(c) && ValidName(added.0)
    ensures ValidIndex(r.0)
    ensures r.0.items.Keys == c.items.Keys + {m} && r.0.items[m] == added.0 && r.1 == Some(added.1)
    ensures forall k :: k in c.items && k != m ==> r.0.items[k] == c.items[k]
  {
    (Put(c, m, added.0), Some(added.1))
  }

  /** `ArtifactList.delete_version(name, version)`: the version's files are
      deleted (never a dry run here) and the version is dropped; a name left
      without versions is dropped too. An unknown name changes nothing. */
  function DeleteVersion(c: Index, name: string, version: string, fs: Fs): (r: (Index, Fs))
    requires ValidIndex(c)
    ensures ValidIndex(r.0)
    ensures name !in c.items ==> r == (c, fs)
    ensures name in c.items ==>
      r.1 == fs - (if version in c.items[name].items then BucketPaths(c.items[name].items[version]) else {})
    ensures name in c.items ==>
      (name in r.0.items <==> exists v :: v in c.items[name].items && v != version)
    ensures name in r.0.items ==> r.0.items[name].items == c.items[name].items - {version}
    ensures forall m :: m in c.items && m != name ==> m in r.0.items && r.0.items[m] == c.items[m]
    ensures r.0.items.Keys <= c.items.Keys
  {
    if name in c.items then
      var n := c.items[name];
      var after := NameDeleteVersion(n, version, false, fs);
      NonEmptyIffKey(after.0);
      (SettleName(c, name, after.0), after.1)
    else (c, fs)
  }

  /** `if not self[name]: self.pop(name)`: store the name's new versions,
      dropping the name once it has none left. */
  function SettleName(c: Index, name: string, n: NameIndex): (r: Index)
    requires ValidIndex(c) && ValidName(n) && name in c.items
    ensures ValidIndex(r)
    ensures name in r.items <==> |n.order| > 0
    ensures name in r.items ==> r.items[name] == n
    ensures forall m :: m in c.items && m != name ==> m in r.items && r.items[m] == c.items[m]
    ensures r.items.Keys <= c.items.Keys
  {
    if |n.order| == 0 then
      PopKeepsValidIndex(c, name);
      Pop(c, name)
    else
      PutKeepsValidIndex(c, name, n);
      Put(c, name, n)
  }

  lemma PutKeepsValidIndex(c: Index, name: string, n: NameIndex)
    requires ValidIndex(c) && ValidName(n)
    ensures ValidIndex(Put(c, name, n))
  {
  }

  lemma PopKeepsValidIndex(c: Index, name: string)
    requires ValidIndex(c)
    ensures ValidIndex(Pop(c, name))
  {
  }

  /** The artifacts that `get_artifacts(latest=...)` shows for one name. */
  predicate Shown(n: NameIndex, latest: int, ranks: Bucket -> bool, a: Artifact)
    requires ValidName(n)
  {
    match Visited(n, latest, ranks)
    case None => false
    case Some(d) => InName(d, a)
  }

  /** Some name in `names` has no version left. */
  ghost predicate SomeEmpty(c: Index, names: seq<string>) {
    exists m :: m in names && m in c.items && |c.items[m].order| == 0
  }

  /** Some name in `names` shows the artifact. */
  ghost predicate ShownBy(c: Index, names: seq<string>, latest: int, ranks: Bucket -> bool, a: Artifact) {
    exists m :: m in names && m in c.items && ValidName(c.items[m]) && Shown(c.items[m], latest, ranks, a)
  }

  lemma SomeEmptyCons(c: Index, names: seq<string>)
    requires |names| > 0
    ensures SomeEmpty(c, names) <==>
      (names[0] in c.items && |c.items[names[0]].order| == 0) || SomeEmpty(c, names[1..])
  {
    assert forall m :: m in names <==> m == names[0] || m in names[1..];
  }

  lemma ShownByCons(c: Index, names: seq<string>, latest: int, ranks: Bucket -> bool)
    requires ValidIndex(c) && |names| > 0 && names[0] in c.items
    ensures forall a :: ShownBy(c, names, latest, ranks, a) <==>
      Shown(c.items[names[0]], latest, ranks, a) || ShownBy(c, names[1..], latest, ranks, a)
  {
    assert forall m :: m in names <==> m == names[0] || m in names[1..];
  }

  /** The listing of the names in `names`, in that order; the first name
      that fails makes the whole listing fail. */
  function ListNames(c: Index, names: seq<string>, f: Filters, latest: int, ranks: Bucket -> bool): (r: Result<seq<Artifact>>)
    requires ValidIndex(c) && forall m :: m in names ==> m in c.items
    ensures r.Err? <==> latest != 0 && SomeEmpty(c, names)
    ensures r.Err? ==> r.error == NoneHasNoValues
    ensures r.Ok? ==> forall a :: a in r.value <==> ShownBy(c, names, latest, ranks, a) && Admits(f, a)
    ensures r.Ok? ==> forall a :: multiset(r.value)[a] == if Admits(f, a) then SumBags(ShownBags(c, names, latest, ranks))[a] else 0
  {
    if |names| == 0 then Ok([])
    else
      var first := NameArtifacts(c.items[names[0]], f, latest, ranks);
      var rest := ListNames(c, names[1..], f, latest, ranks);
      SomeEmptyCons(c, names);
      ShownByCons(c, names, latest, ranks);
      if first.Err? then Err(first.error)
      else if rest.Err? then Err(rest.error)
      else
        ListedCons(c, names, f, latest, ranks, first.value, rest.value);
        Ok(first.value + rest.value)
  }

  /** The first name's listing in front of the others' counts what all of
      them show. */
  lemma ListedCons(c: Index, names: seq<string>, f: Filters, latest: int, ranks: Bucket -> bool, first: seq<Artifact>, rest: seq<Artifact>)
    requires ValidIndex(c) && (forall m :: m in names ==> m in c.items) && |names| > 0
    requires NameArtifacts(c.items[names[0]], f, latest, ranks) == Ok(first)
    requires forall a :: multiset(rest)[a] == if Admits(f, a) then SumBags(ShownBags(c, names[1..], latest, ranks))[a] else 0
    ensures forall a :: multiset(first + rest)[a] == if Admits(f, a) then SumBags(ShownBags(c, names, latest, ranks))[a] else 0
  {
    ShownBagsCons(c, names, latest, ranks);
  }

  /** What `get_artifacts` visits of one name, with multiplicity: nothing
      when `get_latest` finds no version. */
  function ShownBag(n: NameIndex, latest: int, ranks: Bucket -> bool): multiset<Artifact>
    requires ValidName(n)
  {
    match Visited(n, latest, ranks)
    case None => multiset{}
    case Some(d) => NameBag(d)
  }

  /** The bag shown for each name of `names`, in that order. */
  function ShownBags(c: Index, names: seq<string>, latest: int, ranks: Bucket -> bool): (r: seq<multiset<Artifact>>)
    requires ValidIndex(c) && forall m :: m in names ==> m in c.items
    ensures |r| == |names|
    ensures forall k :: 0 <= k < |r| ==> r[k] == ShownBag(c.items[names[k]], latest, ranks)
  {
    seq(|names|, k requires 0 <= k < |names| => ShownBag(c.items[names[k]], latest, ranks))
  }

  lemma ShownBagsCons(c: Index, names: seq<string>, latest: int, ranks: Bucket -> bool)
    requires ValidIndex(c) && (forall m :: m in names ==> m in c.items) && |names| > 0
    ensures SumBags(ShownBags(c, names, latest, ranks)) ==
      ShownBag(c.items[names[0]], latest, ranks) + SumBags(ShownBags(c, names[1..], latest, ranks))
  {
    assert ShownBags(c, names, latest, ranks)[1..] == ShownBags(c, names[1..], latest, ranks);
  }

  /** `ArtifactList.get_artifacts(regmatch, fmatch, latest)`: every name's
      listing, one after the other. Each name ranks with `ranks`, the test
      of the list's `name_class.get_latest`. */
  function ListArtifacts(c: Index, f: Filters, latest: int, ranks: Bucket -> bool): (r: Result<seq<Artifact>>)
    requires ValidIndex(c)
    ensures r.Err? <==> latest != 0 && exists m :: m in c.items && |c.items[m].order| == 0
    ensures r.Err? ==> r.error == NoneHasNoValues
    ensures r.Ok? ==> forall a :: a in r.value <==>
      (exists m :: m in c.items && Shown(c.items[m], latest, ranks, a)) && Admits(f, a)
    ensures r.Ok? ==> forall a :: multiset(r.value)[a] == if Admits(f, a) then IndexBag(c, latest, ranks)[a] else 0
  {
    var r := ListNames(c, c.order, f, latest, ranks);
    assert SomeEmpty(c, c.order) <==> exists m :: m in c.items && |c.items[m].order| == 0;
    assert forall a :: ShownBy(c, c.order, latest, ranks, a) <==> exists m :: m in c.items && Shown(c.items[m], latest, ranks, a);
    r
  }

  /** What `get_artifacts(latest=...)` visits over all names, each
      artifact counted as often as the visited groups hold it. */
  function IndexBag(c: Index, latest: int, ranks: Bucket -> bool): multiset<Artifact>
    requires ValidIndex(c)
  {
    SumBags(ShownBags(c, c.order, latest, ranks))
  }

  // ------------------------------------------------------------ invariant

  /** An artifact stored anywhere in the catalog. */
  predicate Stored(c: Index, a: Artifact) {
    exists m :: m in c.items && InName(c.items[m], a)
  }

  /** Every group of the bucket is non-empty and filed under its
      artifacts' name, version and inode. */
  ghost predicate GroupsFiled(m: string, v: string, b: Bucket) {
    Valid(b) && forall i :: i in b.items ==> |b.items[i]| > 0 && GroupFiledUnder(m, v, i, b.items[i])
  }

  ghost predicate GroupFiledUnder(m: string, v: string, i: int, g: Group) {
    forall a :: a in g ==> a.name == Some(m) && a.version == v && a.inode == i
  }

  ghost predicate BucketWellFormed(m: string, v: string, b: Bucket) {
    GroupsFiled(m, v, b) && |b.order| > 0
  }

  /** Every version of the name holds a well-formed bucket. */
  ghost predicate VersionsFiled(m: string, n: NameIndex) {
    Valid(n) && forall v :: v in n.items ==> BucketWellFormed(m, v, n.items[v])
  }

  ghost predicate NameWellFormed(m: string, n: NameIndex) {
    VersionsFiled(m, n) && |n.order| > 0
  }

  /** The shape that adding and deleting keep: every level holds something
      and every artifact sits under its own name, version and inode. */
  ghost predicate WellFormed(c: Index) {
    Valid(c) && forall m :: m in c.items ==> NameWellFormed(m, c.items[m])
  }

  lemma WellFormedIsValid(c: Index)
    requires WellFormed(c)
    ensures ValidIndex(c)
  {
  }

  /** Adding an artifact of the bucket's name and version keeps it filed. */
  lemma BucketAddFiled(m: string, v: string, b: Bucket, a: Artifact)
    requires GroupsFiled(m, v, b) && a.name == Some(m) && a.version == v
    ensures BucketWellFormed(m, v, BucketAdd(b, a).0)
  {
    var b2 := BucketAdd(b, a).0;
    assert a.inode in b2.order;
    forall i | i in b2.items
      ensures |b2.items[i]| > 0 && GroupFiledUnder(m, v, i, b2.items[i])
    {
      if i != a.inode {
        assert b2.items[i] == b.items[i];
      }
    }
  }

  /** Adding an artifact of the name keeps its versions well formed, and
      leaves the name holding a version. */
  lemma NameAddFiled(m: string, n: NameIndex, a: Artifact, added: (NameIndex, bool))
    requires VersionsFiled(m, n) && a.name == Some(m) && AddedOrRefused(n, a, added)
    ensures NameWellFormed(m, added.0)
  {
    if added.1 {
      var b := BucketOf(n, a.version);
      BucketAddFiled(m, a.version, b, a);
      assert a.version in added.0.order;
    }
  }

  /** Storing what a gate left of the artifact's name keeps the catalog
      well formed. */
  lemma StoreAddedFiled(c: Index, a: Artifact, added: (NameIndex, bool))
    requires WellFormed(c) && a.name.Some?
    requires ValidIndex(c) && AddedOrRefused(NameOf(c, a.name.value), a, added)
    ensures WellFormed(StoreAdded(c, a.name.value, added).0)
  {
    NameAddFiled(a.name.value, NameOf(c, a.name.value), a, added);
  }

  /** Adding a named artifact keeps the catalog well formed, through the
      gate as written and through the intended one. */
  lemma AddPkgPreservesWellFormed(c: Index, a: Artifact, onlyIfNewer: bool)
    requires WellFormed(c)
    ensures ValidIndex(c)
    ensures WellFormed(AddPkg(c, a, onlyIfNewer).0)
    ensures WellFormed(AddPkgCorrected(c, a, onlyIfNewer).0)
  {
    if a.name.Some? {
      var n := NameOf(c, a.name.value);
      GatesAddOrRefuse(n, a, onlyIfNewer);
      StoreAddedFiled(c, a, NameAddArtifactAsWritten(n, a, onlyIfNewer));
      StoreAddedFiled(c, a, NameAddArtifact(n, a, onlyIfNewer));
    }
  }

  /** Deleting a version keeps the catalog well formed. */
  lemma DeleteVersionPreservesWellFormed(c: Index, name: string, version: string, fs: Fs)
    requires WellFormed(c)
    ensures ValidIndex(c) && WellFormed(DeleteVersion(c, name, version, fs).0)
  {
    var r := DeleteVersion(c, name, version, fs).0;
    if name in r.items {
      var n := c.items[name];
      var v :| v in n.items && v != version;
      assert v in r.items[name].items;
      assert NameWellFormed(name, r.items[name]);
    }
  }

  /** In a well-formed catalog every name has a version, so listing the
      latest versions never fails. */
  lemma WellFormedListsOk(c: Index, f: Filters, latest: int, ranks: Bucket -> bool)
    requires WellFormed(c)
    ensures ValidIndex(c) && ListArtifacts(c, f, latest, ranks).Ok?
  {
  }

  /** Listing everything without filters shows exactly the stored artifacts. */
  lemma ListAllIsStored(c: Index, ranks: Bucket -> bool, a: Artifact)
    requires ValidIndex(c)
    ensures ListArtifacts(c, NoFilters, 0, ranks).Ok?
    ensures a in ListArtifacts(c, NoFilters, 0, ranks).value <==> Stored(c, a)
  {
    var r := ListArtifacts(c, NoFilters, 0, ranks);
    assert forall m :: m in c.items ==> Visited(c.items[m], 0, ranks) == Some(c.items[m]);
  }

  /** A bucket keeps what it stored and gains the added artifact. */
  lemma BucketAddKeeps(b: Bucket, a: Artifact, other: Artifact)
    requires Valid(b)
    ensures InBucket(BucketAdd(b, a).0, a)
    ensures InBucket(b, other) ==> InBucket(BucketAdd(b, a).0, other)
  {
    var b2 := BucketAdd(b, a).0;
    assert a in b2.items[a.inode];
    if InBucket(b, other) {
      var i :| i in b.items && other in b.items[i];
      assert other in b2.items[i];
    }
  }

  /** A name keeps what it stored, and gains the artifact when accepted. */
  lemma NameAddKeeps(n: NameIndex, a: Artifact, added: (NameIndex, bool), other: Artifact)
    requires AddedOrRefused(n, a, added)
    ensures added.1 ==> InName(added.0, a)
    ensures InName(n, other) ==> InName(added.0, other)
  {
    if added.1 {
      var b := BucketOf(n, a.version);
      BucketAddKeeps(b, a, other);
      assert InBucket(added.0.items[a.version], a);
      if InName(n, other) {
        var v :| v in n.items && InBucket(n.items[v], other);
        if v == a.version {
          assert InBucket(added.0.items[v], other);
        } else {
          assert added.0.items[v] == n.items[v];
        }
      }
    }
  }

  /** Storing what a gate left of the artifact's name stores an accepted
      artifact and loses nothing. */
  lemma StoreAddedKeeps(c: Index, a: Artifact, added: (NameIndex, bool), other: Artifact)
    requires ValidIndex(c) && a.name.Some? && AddedOrRefused(NameOf(c, a.name.value), a, added)
    ensures added.1 ==> Stored(StoreAdded(c, a.name.value, added).0, a)
    ensures Stored(c, other) ==> Stored(StoreAdded(c, a.name.value, added).0, other)
  {
    var m := a.name.value;
    var r := StoreAdded(c, m, added).0;
    NameAddKeeps(NameOf(c, m), a, added, other);
    assert InName(r.items[m], a) ==> Stored(r, a);
    if Stored(c, other) {
      var m2 :| m2 in c.items && InName(c.items[m2], other);
      if m2 == m {
        assert InName(r.items[m], other);
      } else {
        assert r.items[m2] == c.items[m2];
      }
    }
  }

  /** An accepted artifact is stored afterwards, and nothing stored before
      is lost, through the gate as written and through the intended one. */
  lemma AddPkgStores(c: Index, a: Artifact, onlyIfNewer: bool, other: Artifact)
    requires ValidIndex(c)
    ensures AddPkg(c, a, onlyIfNewer).1 == Some(true) ==> Stored(AddPkg(c, a, onlyIfNewer).0, a)
    ensures Stored(c, other) ==> Stored(AddPkg(c, a, onlyIfNewer).0, other)
    ensures AddPkgCorrected(c, a, onlyIfNewer).1 == Some(true) ==> Stored(AddPkgCorrected(c, a, onlyIfNewer).0, a)
    ensures Stored(c, other) ==> Stored(AddPkgCorrected(c, a, onlyIfNewer).0, other)
  {
    if a.name.Some? {
      var n := NameOf(c, a.name.value);
      GatesAddOrRefuse(n, a, onlyIfNewer);
      StoreAddedKeeps(c, a, NameAddArtifactAsWritten(n, a, onlyIfNewer), other);
      StoreAddedKeeps(c, a, NameAddArtifact(n, a, onlyIfNewer), other);
    }
  }

  /** After deleting a version of a name, no artifact of that name and
      version is stored, and every other stored artifact is kept. */
  lemma DeleteVersionForgets(c: Index, name: string, version: string, fs: Fs, a: Artifact)
    requires WellFormed(c)
    ensures ValidIndex(c)
    ensures Stored(DeleteVersion(c, name, version, fs).0, a) <==>
      Stored(c, a) && !(a.name == Some(name) && a.version == version)
  {
    DeletedWasStored(c, name, version, fs, a);
    OthersStayStored(c, name, version, fs, a);
  }

  /** What is stored after deleting a version was stored before, and is
      not of that name and version. */
  lemma DeletedWasStored(c: Index, name: string, version: string, fs: Fs, a: Artifact)
    requires WellFormed(c)
    ensures ValidIndex(c)
    ensures Stored(DeleteVersion(c, name, version, fs).0, a) ==>
      Stored(c, a) && !(a.name == Some(name) && a.version == version)
  {
    var r := DeleteVersion(c, name, version, fs).0;
    if Stored(r, a) {
      var m :| m in r.items && InName(r.items[m], a);
      var v :| v in r.items[m].items && InBucket(r.items[m].items[v], a);
      var i :| i in r.items[m].items[v].items && a in r.items[m].items[v].items[i];
      assert c.items[m].items[v] == r.items[m].items[v];
      assert InName(c.items[m], a);
      assert a.name == Some(m) && a.version == v;
    }
  }

  /** An artifact of another name or version stays stored. */
  lemma OthersStayStored(c: Index, name: string, version: string, fs: Fs, a: Artifact)
    requires WellFormed(c)
    ensures ValidIndex(c)
    ensures Stored(c, a) && !(a.name == Some(name) && a.version == version) ==>
      Stored(DeleteVersion(c, name, version, fs).0, a)
  {
    var r := DeleteVersion(c, name, version, fs).0;
    if Stored(c, a) && !(a.name == Some(name) && a.version == version) {
      var m :| m in c.items && InName(c.items[m], a);
      var v :| v in c.items[m].items && InBucket(c.items[m].items[v], a);
      var i :| i in c.items[m].items[v].items && a in c.items[m].items[v].items[i];
      assert a.name == Some(m) && a.version == v;
      if m == name {
        assert v != version;
        assert m in r.items;
        assert r.items[m].items[v] == c.items[m].items[v];
      }
      assert InBucket(r.items[m].items[v], a);
      assert InName(r.items[m], a);
    }
  }
}
