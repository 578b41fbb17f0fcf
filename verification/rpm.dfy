/** The RPM store's artifact: an RPM file described by its header, with the
    distribution it belongs to, its repository path and identifying
    strings, plus the RPM-specific version comparison and ranking. */
module Rpm {
  import opened Outcomes
  import opened Text
  import opened Numbers
  import opened Dicts
  import opened Artifacts
  import opened Catalog
  import ArtifactIndex
  import Versions

  /** The header fields an RPM is built from (reading the file is left
      out). `arch` is empty when the header has none; `signed` says whether
      the header carries a PGP signature. */
  datatype Header = Header(
    name: string,
    version: string,
    release: string,
    arch: string,
    isSource: bool,
    signed: bool)

  /** A loaded RPM: where it is, its header, and the fields derived from it. */
  datatype Rpm = Rpm(
    path: string,
    inode: int,
    hdr: Header,
    distro: string,
    arch: string,
    verRel: string)

  // ------------------------------------------------------------ distros

  /** The literal prefixes of the default `to_all_distros` patterns: each
      pattern is matched at the start of the name only, and a trailing
      `\d*` or `x*` allows zero repetitions, so the pattern accepts exactly
      the names that start with its prefix. */
  const AllDistroPrefixes: seq<string> := [
    "ovirt-release",
    "ovirt-guest-agent-windows",
    "ovirt-guest-tools",
    "py2ex",
    "python-window",
    "pywin3",
    "spice-qx",
    "vcredist-x8",
    "nsis-simple-service-plugi",
    "ovirt-node-ng-image-update-placeholde"
  ]

  /** The package goes to every distribution. */
  predicate ToAllDistros(name: string) {
    exists i :: 0 <= i < |AllDistroPrefixes| && StartsWith(name, AllDistroPrefixes[i])
  }

  lemma ToAllDistrosExamples()
    ensures ToAllDistros("ovirt-release43")
    ensures ToAllDistros("py2ex")
    ensures !ToAllDistros("vdsm")
  {
    assert StartsWith("ovirt-release43", AllDistroPrefixes[0]);
    assert StartsWith("py2ex", AllDistroPrefixes[3]);
    assert forall i :: 0 <= i < |AllDistroPrefixes| ==> |AllDistroPrefixes[i]| > |"vdsm"|;
  }

  /** The default `distro_reg`, `\.(fc|el)\d+`, matches at `i`. */
  predicate TagAt(release: string, i: int) {
    0 <= i && i + 3 < |release| && release[i] == '.' &&
    ((release[i + 1] == 'f' && release[i + 2] == 'c') || (release[i + 1] == 'e' && release[i + 2] == 'l')) &&
    IsDigit(release[i + 3])
  }

  /** The end of the run of digits starting at `j` (the greedy `\d+`). */
  function DigitsEnd(s: string, j: nat): (r: nat)
    requires j <= |s|
    ensures j <= r <= |s|
    ensures forall k :: j <= k < r ==> IsDigit(s[k])
    ensures r == |s| || !IsDigit(s[r])
    decreases |s| - j
  {
    if j < |s| && IsDigit(s[j]) then DigitsEnd(s, j + 1) else j
  }

  /** The leftmost match of the distribution pattern at or after `from`. */
  function FindTag(release: string, from: nat): (r: Option<nat>)
    ensures r.None? ==> forall i :: from <= i ==> !TagAt(release, i)
    ensures r.Some? ==> from <= r.value && TagAt(release, r.value)
    ensures r.Some? ==> forall i :: from <= i < r.value ==> !TagAt(release, i)
    decreases |release| - from
  {
    if from + 3 >= |release| then None
    else if TagAt(release, from) then Some(from)
    else FindTag(release, from + 1)
  }

  /** The pattern matches at `i` and nowhere before. */
  predicate LeftmostTagAt(release: string, i: int) {
    TagAt(release, i) && forall j :: 0 <= j < i ==> !TagAt(release, j)
  }

  /** `get_distro(release)`: the leftmost match of `\.(fc|el)\d+` without
      its dot, digits taken greedily, such as `el7` or `fc28`; no match is a
      `WrongDistroException`. */
  function GetDistro(release: string): (r: Result<string>)
    ensures r.Err? <==> forall i :: !TagAt(release, i)
    ensures r.Err? ==> r.error == WrongDistro(release)
    ensures r.Ok? ==> exists i :: LeftmostTagAt(release, i) && r.value == release[i + 1..DigitsEnd(release, i + 3)]
    ensures r.Ok? ==> IsDistroTag(r.value)
  {
    match FindTag(release, 0)
    case None => Err(WrongDistro(release))
    case Some(i) =>
      var d := release[i + 1..DigitsEnd(release, i + 3)];
      assert LeftmostTagAt(release, i);
      assert d[..2] == release[i + 1..i + 3];
      assert forall k :: 2 <= k < |d| ==> d[k] == release[i + 1 + k];
      Ok(d)
  }

  /** `fc` or `el` followed by one or more digits. */
  predicate IsDistroTag(d: string) {
    |d| >= 3 && (d[..2] == "fc" || d[..2] == "el") && forall k :: 2 <= k < |d| ==> IsDigit(d[k])
  }

  lemma GetDistroCentosExample()
    ensures GetDistro("1.el7.centos") == Ok("el7")
  {
    var s := "1.el7.centos";
    assert !TagAt(s, 0) && TagAt(s, 1);
    assert FindTag(s, 0) == Some(1);
    assert DigitsEnd(s, 5) == 5;
    assert DigitsEnd(s, 4) == 5;
    assert s[2..5] == "el7";
  }

  lemma GetDistroFedoraExample()
    ensures GetDistro("0.1.fc28") == Ok("fc28")
  {
    var s := "0.1.fc28";
    assert !TagAt(s, 0) && !TagAt(s, 1) && !TagAt(s, 2) && TagAt(s, 3);
    assert FindTag(s, 0) == Some(3);
    assert DigitsEnd(s, 8) == 8;
    assert DigitsEnd(s, 7) == 8;
    assert DigitsEnd(s, 6) == 8;
    assert s[4..8] == "fc28";
  }

  lemma GetDistroMissingExample()
    ensures GetDistro("1.centos") == Err(WrongDistro("1.centos"))
  {
    var s := "1.centos";
    assert forall i :: 0 <= i ==> !TagAt(s, i) by {
      forall i | 0 <= i ensures !TagAt(s, i) {
        if i + 3 < |s| {
          assert i == 0 || i == 1 || i == 2 || i == 3 || i == 4;
        }
      }
    }
  }

  /** A distribution tag is never `all`, so `all` marks exactly the packages
      that go to every distribution. */
  lemma DistroTagIsNotAll(d: string)
    requires IsDistroTag(d)
    ensures d != "all"
  {
    assert d[..2] != "al";
  }

  // ------------------------------------------------- version and release

  /** The end of the run of non-dot characters starting at `j` (`[^.]*`). */
  function NonDotEnd(s: string, j: nat): (r: nat)
    requires j <= |s|
    ensures j <= r <= |s|
    ensures forall k :: j <= k < r ==> s[k] != '.'
    ensures r == |s| || s[r] == '.'
    decreases |s| - j
  {
    if j < |s| && s[j] != '.' then NonDotEnd(s, j + 1) else j
  }

  /** `re.sub(r'\.%s[^.]*' % distro, '', release, 1)`: the leftmost
      `.<distro>` is cut out together with the rest of its dot-separated
      field; a release without it is kept. (Distribution names hold only
      letters and digits, so the pattern is the literal text.) */
  function RemoveTag(release: string, distro: string): (r: string)
    ensures !Contains(release, "." + distro) ==> r == release
    ensures Contains(release, "." + distro) ==> exists i :: (FirstOccurrence(release, "." + distro, i) &&
      r == release[..i] + release[NonDotEnd(release, i + 1 + |distro|)..])
  {
    var i := Find(release, "." + distro);
    if i == -1 then release
    else
      assert FirstOccurrence(release, "." + distro, i);
      release[..i] + release[NonDotEnd(release, i + 1 + |distro|)..]
  }

  /** `sep` occurs at `i` and nowhere before. */
  predicate FirstOccurrence(s: string, sep: string, i: int) {
    OccursAt(s, sep, i) && forall k :: 0 <= k < i ==> !OccursAt(s, sep, k)
  }

  /** Every occurrence of `.<tag>` for a distribution tag is a match of
      the distribution pattern. */
  lemma OccurrencesAreTags(release: string, d: string)
    requires IsDistroTag(d)
    ensures forall k :: OccursAt(release, "." + d, k) ==> TagAt(release, k)
  {
    forall k | OccursAt(release, "." + d, k) ensures TagAt(release, k) {
      var w := release[k..k + 1 + |d|];
      assert w == "." + d;
      assert release[k + 1] == d[0] && release[k + 2] == d[1] && release[k + 3] == d[2];
    }
  }

  /** The version string drops exactly the distribution's field: the text
      from the dot before the matched distribution tag up to the next dot. */
  lemma RemoveTagOfDistro(release: string, i: int, d: string)
    requires LeftmostTagAt(release, i) && d == release[i + 1..DigitsEnd(release, i + 3)]
    ensures DropsFieldAt(release, d, i)
  {
    MatchIsDistroTag(release, i, d);
    OccurrencesAreTags(release, d);
    assert FirstOccurrence(release, "." + d, i);
    RemoveTagAtFirst(release, d, i);
  }

  /** The text of a match, without its dot, is a distribution tag that
      occurs with its dot at the match. */
  lemma MatchIsDistroTag(release: string, i: int, d: string)
    requires TagAt(release, i) && d == release[i + 1..DigitsEnd(release, i + 3)]
    ensures IsDistroTag(d) && OccursAt(release, "." + d, i)
  {
    assert d[..2] == release[i + 1..i + 3];
    assert forall k :: 2 <= k < |d| ==> d[k] == release[i + 1 + k];
    assert release[i..i + 1 + |d|] == "." + d;
  }

  /** The cut happens at the first occurrence of the dotted tag. */
  lemma RemoveTagAtFirst(release: string, d: string, i: int)
    requires FirstOccurrence(release, "." + d, i)
    ensures i + 1 + |d| <= |release|
    ensures RemoveTag(release, d) == release[..i] + release[NonDotEnd(release, i + 1 + |d|)..]
  {
    FirstOccurrenceUnique(release, "." + d, i);
    assert Contains(release, "." + d);
  }

  /** There is only one first occurrence. */
  lemma FirstOccurrenceUnique(s: string, sep: string, i: int)
    requires FirstOccurrence(s, sep, i)
    ensures forall j :: FirstOccurrence(s, sep, j) ==> j == i
  {
  }

  /** `get_distro` and the cut agree: the release loses the field of the
      distribution that was found in it. */
  lemma VerRelDropsDistroField(release: string)
    requires GetDistro(release).Ok?
    ensures exists i :: DropsFieldAt(release, GetDistro(release).value, i)
  {
    var d := GetDistro(release).value;
    var i :| LeftmostTagAt(release, i) && d == release[i + 1..DigitsEnd(release, i + 3)];
    RemoveTagOfDistro(release, i, d);
  }

  /** Removing `d` from the release cuts out the field of the distribution
      match at `i`, up to the next dot. */
  predicate DropsFieldAt(release: string, d: string, i: int) {
    LeftmostTagAt(release, i) && i + 1 + |d| <= |release| &&
    RemoveTag(release, d) == release[..i] + release[NonDotEnd(release, i + 1 + |d|)..]
  }

  lemma FirstOccurrenceExample()
    ensures FirstOccurrence("1.el7.centos", ".el7", 1)
  {
    var s := "1.el7.centos";
    assert s[1..5] == ".el7";
    assert s[0..4][0] == '1';
  }

  lemma NonDotEndExample()
    ensures NonDotEnd("1.el7.centos", 5) == 5
  {
  }

  lemma RemoveTagExample()
    ensures RemoveTag("1.el7.centos", "el7") == "1.centos"
  {
    var s := "1.el7.centos";
    FirstOccurrenceExample();
    FirstOccurrenceUnique(s, "." + "el7", 1);
    NonDotEndExample();
    assert s[..1] + s[5..] == "1.centos";
  }

  // -------------------------------------------------------------- loading

  /** `hdr[RPMTAG_ARCH] or 'none'`. */
  function ArchOf(hdr: Header): (r: string)
    ensures r != ""
    ensures hdr.arch != "" ==> r == hdr.arch
  {
    if hdr.arch == "" then "none" else hdr.arch
  }

  /** `RPM(path, temp_dir)` once the header has been read: a URL is mapped
      into the temporary directory, the distribution is `all` for the
      special packages and otherwise taken from the release, and the
      version string is `version-release` with the distribution's field
      cut out of the release. */
  function MakeRpm(path: string, tempDir: string, inode: int, hdr: Header): (r: Result<Rpm>)
    ensures r.Err? <==> ResolvePath(path, tempDir).Err? || (!ToAllDistros(hdr.name) && GetDistro(hdr.release).Err?)
    ensures ResolvePath(path, tempDir).Err? ==> r == Err(TrailingSlash(path))
    ensures ResolvePath(path, tempDir).Ok? && r.Err? ==> r == Err(WrongDistro(hdr.release))
    ensures r.Ok? ==> r.value.path == ResolvePath(path, tempDir).value && r.value.inode == inode && r.value.hdr == hdr
    ensures r.Ok? ==> (r.value.distro == "all" <==> ToAllDistros(hdr.name))
    ensures r.Ok? && !ToAllDistros(hdr.name) ==> GetDistro(hdr.release) == Ok(r.value.distro)
    ensures r.Ok? ==> r.value.arch == ArchOf(hdr)
    ensures r.Ok? ==> r.value.verRel == hdr.version + "-" + RemoveTag(hdr.release, r.value.distro)
  {
    match ResolvePath(path, tempDir)
    case Err(e) => Err(e)
    case Ok(local) =>
      var distro :=
        if ToAllDistros(hdr.name) then Ok("all") else GetDistro(hdr.release);
      match distro
      case Err(e) => Err(e)
      case Ok(d) =>
        assert d == "all" ==> ToAllDistros(hdr.name) by {
          if !ToAllDistros(hdr.name) {
            DistroTagIsNotAll(d);
          }
        }
        Ok(Rpm(local, inode, hdr, d, ArchOf(hdr), hdr.version + "-" + RemoveTag(hdr.release, d)))
  }

  /** The `name` property: `name.distro.arch`. */
  function Name(r: Rpm): string {
    r.hdr.name + "." + r.distro + "." + r.arch
  }

  function Extension(r: Rpm): string {
    if r.hdr.isSource then ".src.rpm" else ".rpm"
  }

  /** The `type` property. */
  function Kind(r: Rpm): string {
    if r.hdr.isSource then "source_rpm" else "rpm"
  }

  function SrcOrBin(r: Rpm): string {
    if r.hdr.isSource then "src" else "bin"
  }

  /** The artifact the catalog files: keyed by the `name.distro.arch` name
      and the `version-release` string. */
  function ToArtifact(r: Rpm): (a: Artifact)
    ensures a.name == Some(Name(r)) && a.version == r.verRel
    ensures a.isSource == r.hdr.isSource
    ensures a.isSource <==> a.extension == ".src.rpm"
    ensures a.isSource <==> a.kind == "source_rpm"
  {
    Artifact(r.path, r.inode, Some(Name(r)), r.verRel, Extension(r), Kind(r), r.hdr.isSource)
  }

  // ---------------------------------------------------------- identities

  /** `full_name`: `rpm(name distro arch src|bin)`. */
  function FullName(r: Rpm): string {
    "rpm(" + Join([r.hdr.name, r.distro, r.arch, SrcOrBin(r)], " ") + ")"
  }

  /** `str(rpm)`: `rpm(name.distro.arch version release arch src|bin signed|unsigned)`. */
  function Str(r: Rpm): string {
    var signed := if r.hdr.signed then "signed" else "unsigned";
    "rpm(" + Join([Name(r), r.hdr.version, r.hdr.release, r.arch, SrcOrBin(r), signed], " ") + ")"
  }

  /** With no space inside its fields, the full name pins down the package
      name, distribution, architecture and source flag. */
  lemma FullNameIdentifies(r1: Rpm, r2: Rpm)
    requires ' ' !in r1.hdr.name && ' ' !in r1.distro && ' ' !in r1.arch
    requires ' ' !in r2.hdr.name && ' ' !in r2.distro && ' ' !in r2.arch
    requires FullName(r1) == FullName(r2)
    ensures r1.hdr.name == r2.hdr.name && r1.distro == r2.distro && r1.arch == r2.arch
    ensures r1.hdr.isSource == r2.hdr.isSource
  {
    var xs := [r1.hdr.name, r1.distro, r1.arch, SrcOrBin(r1)];
    var ys := [r2.hdr.name, r2.distro, r2.arch, SrcOrBin(r2)];
    Unwrap("rpm(", Join(xs, " "), Join(ys, " "), ")");
    JoinInjective(xs, ys, ' ');
    assert SrcOrBin(r1) == xs[3] == ys[3] == SrcOrBin(r2);
  }

  /** With no space inside its fields, the string form pins down the name,
      version, release, architecture, source flag and signature presence. */
  lemma StrIdentifies(r1: Rpm, r2: Rpm)
    requires ' ' !in Name(r1) && ' ' !in r1.hdr.version && ' ' !in r1.hdr.release && ' ' !in r1.arch
    requires ' ' !in Name(r2) && ' ' !in r2.hdr.version && ' ' !in r2.hdr.release && ' ' !in r2.arch
    requires Str(r1) == Str(r2)
    ensures Name(r1) == Name(r2) && r1.hdr.version == r2.hdr.version && r1.hdr.release == r2.hdr.release
    ensures r1.arch == r2.arch && r1.hdr.isSource == r2.hdr.isSource && r1.hdr.signed == r2.hdr.signed
  {
    var s1 := if r1.hdr.signed then "signed" else "unsigned";
    var s2 := if r2.hdr.signed then "signed" else "unsigned";
    var xs := [Name(r1), r1.hdr.version, r1.hdr.release, r1.arch, SrcOrBin(r1), s1];
    var ys := [Name(r2), r2.hdr.version, r2.hdr.release, r2.arch, SrcOrBin(r2), s2];
    Unwrap("rpm(", Join(xs, " "), Join(ys, " "), ")");
    JoinInjective(xs, ys, ' ');
    assert SrcOrBin(r1) == xs[4] == ys[4] == SrcOrBin(r2);
    assert s1 == xs[5] == ys[5] == s2;
  }

  // ---------------------------------------------------------------- paths

  /** The distribution directory: a literal `%s` placeholder for `all`. */
  function DistroDir(r: Rpm): string {
    if r.distro == "all" then "%s" else r.distro
  }

  /** The architecture directory: `SRPMS` for source packages. */
  function ArchDir(r: Rpm): string {
    if r.hdr.isSource then "SRPMS" else r.arch
  }

  /** `name-version-release.<src|arch>.rpm`. */
  function FileName(r: Rpm): string {
    var archName := if r.hdr.isSource then "src" else r.arch;
    r.hdr.name + "-" + r.hdr.version + "-" + r.hdr.release + "." + archName + ".rpm"
  }

  /** `generate_path(base_dir)`: `base_dir/distro/arch/file`, without the
      leading directory when `base_dir` is empty. */
  function GeneratePath(r: Rpm, baseDir: string): string {
    (if baseDir != "" then baseDir + "/" else "") + DistroDir(r) + "/" + ArchDir(r) + "/" + FileName(r)
  }

  /** A character of a concatenation comes from one of its parts. */
  lemma CharOfFileName(r: Rpm, c: char)
    requires c != '-' && c != '.' && c !in "rpm" && c !in "src"
    requires c !in r.hdr.name && c !in r.hdr.version && c !in r.hdr.release && c !in r.arch
    ensures c !in FileName(r)
  {
    var archName := if r.hdr.isSource then "src" else r.arch;
    var f := FileName(r);
    assert f == r.hdr.name + "-" + r.hdr.version + "-" + r.hdr.release + "." + archName + ".rpm";
    assert c !in r.hdr.name + "-" + r.hdr.version;
    assert c !in r.hdr.name + "-" + r.hdr.version + "-" + r.hdr.release;
  }

  /** Splitting a generated path at `/` gives back the base directory, the
      distribution directory, the architecture directory and the file
      name, when none of the fields holds a `/`. */
  lemma GeneratePathSplits(r: Rpm, baseDir: string)
    requires '/' !in baseDir && '/' !in r.distro && '/' !in r.arch
    requires '/' !in r.hdr.name && '/' !in r.hdr.version && '/' !in r.hdr.release
    ensures baseDir != "" ==>
      SplitMax(GeneratePath(r, baseDir), "/", -1) == [baseDir, DistroDir(r), ArchDir(r), FileName(r)]
    ensures baseDir == "" ==>
      SplitMax(GeneratePath(r, baseDir), "/", -1) == [DistroDir(r), ArchDir(r), FileName(r)]
  {
    CharOfFileName(r, '/');
    DirsJoin(r);
    if baseDir != "" {
      BaseDirJoin(r, baseDir);
      SplitOfJoin([baseDir, DistroDir(r), ArchDir(r), FileName(r)], '/', -1);
    } else {
      assert GeneratePath(r, baseDir) == Join([DistroDir(r), ArchDir(r), FileName(r)], "/");
      SplitOfJoin([DistroDir(r), ArchDir(r), FileName(r)], '/', -1);
    }
  }

  /** The three directory levels joined with `/`. */
  lemma DirsJoin(r: Rpm)
    ensures Join([DistroDir(r), ArchDir(r), FileName(r)], "/") == DistroDir(r) + "/" + ArchDir(r) + "/" + FileName(r)
  {
    var tail := [DistroDir(r), ArchDir(r), FileName(r)];
    assert tail[1..] == [ArchDir(r), FileName(r)];
    assert [ArchDir(r), FileName(r)][1..] == [FileName(r)];
    assert Join([FileName(r)], "/") == FileName(r);
    assert Join([ArchDir(r), FileName(r)], "/") == ArchDir(r) + "/" + FileName(r);
  }

  /** With a base directory, the generated path is the four levels joined with `/`. */
  lemma BaseDirJoin(r: Rpm, baseDir: string)
    requires baseDir != ""
    requires Join([DistroDir(r), ArchDir(r), FileName(r)], "/") == DistroDir(r) + "/" + ArchDir(r) + "/" + FileName(r)
    ensures GeneratePath(r, baseDir) == Join([baseDir, DistroDir(r), ArchDir(r), FileName(r)], "/")
  {
    var all := [baseDir, DistroDir(r), ArchDir(r), FileName(r)];
    assert all[1..] == [DistroDir(r), ArchDir(r), FileName(r)];
    assert Join(all, "/") == baseDir + "/" + Join(all[1..], "/");
  }

  /** The generated file name ends with the RPM's extension. */
  lemma GeneratePathEndsWithExtension(r: Rpm, baseDir: string)
    ensures var p := GeneratePath(r, baseDir);
      |Extension(r)| <= |p| && p[|p| - |Extension(r)|..] == Extension(r)
  {
    var p := GeneratePath(r, baseDir);
    var dirs := (if baseDir != "" then baseDir + "/" else "") + DistroDir(r) + "/" + ArchDir(r) + "/";
    var stem := r.hdr.name + "-" + r.hdr.version + "-" + r.hdr.release;
    var head := if r.hdr.isSource then dirs + stem else dirs + stem + "." + r.arch;
    assert p == head + Extension(r);
    assert p[|head|..] == Extension(r);
  }

  // -------------------------------------------------------------- ranking

  /** `get_artifacts(fmatch=lambda art: not art.is_source)`: binaries only. */
  const BinaryFilter := Filters(None, Some((a: Artifact) => !a.isSource))

  /** The version stores at least one binary (non-source) RPM. */
  predicate HasBinary(b: Bucket) {
    exists i :: i in b.items && exists a :: a in b.items[i] && !a.isSource
  }

  /** `RPMName.get_latest` ranks a version exactly when listing its
      binaries gives a non-empty (truthy) list. */
  lemma HasBinaryIffListed(b: Bucket)
    requires Valid(b)
    ensures HasBinary(b) <==> BucketArtifacts(b, BinaryFilter) != []
  {
    var arts := BucketArtifacts(b, BinaryFilter);
    if HasBinary(b) {
      var i :| i in b.items && exists a :: a in b.items[i] && !a.isSource;
      var a :| a in b.items[i] && !a.isSource;
      assert InBucket(b, a) && Admits(BinaryFilter, a);
      assert a in arts;
    }
    if arts != [] {
      var a := arts[0];
      assert InBucket(b, a) && Admits(BinaryFilter, a);
    }
  }

  /** `RPMName.get_latest(num)`: like the generic ranking, except that
      versions holding only source RPMs are not ranked. `None` for a name
      without versions; otherwise the `num` largest versions that hold a
      binary, in plain string order, each with its own bucket. */
  function RpmGetLatest(n: NameIndex, num: int): (r: Option<NameIndex>)
    requires Valid(n)
    ensures r.None? <==> |n.order| == 0
    ensures r.Some? ==> Valid(r.value)
    ensures r.Some? ==> |r.value.order| == LatestCount(num, |n.order|, |EligibleKeys(n, HasBinary)|)
    ensures r.Some? ==> forall k :: k in r.value.items ==>
      k in n.items && HasBinary(n.items[k]) && r.value.items[k] == n.items[k]
    ensures r.Some? ==> forall k, other ::
      (k in r.value.items && other in n.items && HasBinary(n.items[other]) && other !in r.value.items) ==> StrLt(other, k)
  {
    Latest(n, num, HasBinary)
  }

  /** The artifact is stored in a version of the name that holds a
      binary RPM. */
  predicate InBinaryVersion(n: NameIndex, a: Artifact) {
    exists v :: v in n.items && HasBinary(n.items[v]) && InBucket(n.items[v], a)
  }

  /** `RPMName.get_artifacts(regmatch, fmatch, latest)`: the inherited
      `ArtifactName.get_artifacts`, whose `get_latest` is now the RPM one.
      With a non-zero `latest`, only versions that hold a binary are
      listed; with `latest == 0`, every version is. */
  function RpmNameArtifacts(n: NameIndex, f: Filters, latest: int): (r: Result<seq<Artifact>>)
    requires ValidName(n)
    ensures r.Err? <==> latest != 0 && |n.order| == 0
    ensures latest == 0 ==> r.Ok? && forall a :: a in r.value <==> InName(n, a) && Admits(f, a)
    ensures latest != 0 && r.Ok? ==> forall a :: a in r.value ==> Admits(f, a) && InBinaryVersion(n, a)
  {
    if latest != 0 && |n.order| > 0 then
      ShownHoldsBinary(n, latest);
      NameArtifacts(n, f, latest, HasBinary)
    else
      NameArtifacts(n, f, latest, HasBinary)
  }

  /** Every artifact the RPM ranking shows sits in a version holding a
      binary. */
  lemma ShownHoldsBinary(n: NameIndex, latest: int)
    requires ValidName(n) && latest != 0 && |n.order| > 0
    ensures forall a :: InName(Visited(n, latest, HasBinary).value, a) ==> InBinaryVersion(n, a)
  {
    var d := Visited(n, latest, HasBinary).value;
    forall a | InName(d, a) ensures InBinaryVersion(n, a) {
      var v :| v in d.items && InBucket(d.items[v], a);
      assert v in n.items && HasBinary(n.items[v]) && d.items[v] == n.items[v];
    }
  }

  /** A name whose versions hold only source RPMs lists nothing when the
      latest versions are asked for, whatever the filters. */
  lemma SourceOnlyNameListsNothing(n: NameIndex, f: Filters, latest: int)
    requires ValidName(n) && latest != 0 && |n.order| > 0
    requires forall v :: v in n.items ==> !HasBinary(n.items[v])
    ensures RpmNameArtifacts(n, f, latest) == Ok([])
  {
  }

  /** `RPMList.get_artifacts(regmatch, fmatch, latest)`: the generic
      listing over every name, each an `RPMName` (`name_class`). */
  function RpmListArtifacts(c: ArtifactIndex.Index, f: Filters, latest: int): (r: Result<seq<Artifact>>)
    requires ArtifactIndex.ValidIndex(c)
    ensures r.Err? <==> latest != 0 && exists m :: m in c.items && |c.items[m].order| == 0
    ensures latest != 0 && r.Ok? ==> forall a :: a in r.value ==>
      Admits(f, a) && exists m :: m in c.items && InBinaryVersion(c.items[m], a)
  {
    if latest != 0 then
      ShownInIndexHoldsBinary(c, latest);
      ArtifactIndex.ListArtifacts(c, f, latest, HasBinary)
    else
      ArtifactIndex.ListArtifacts(c, f, latest, HasBinary)
  }

  lemma ShownInIndexHoldsBinary(c: ArtifactIndex.Index, latest: int)
    requires ArtifactIndex.ValidIndex(c) && latest != 0
    ensures forall m, a :: m in c.items && ArtifactIndex.Shown(c.items[m], latest, HasBinary, a) ==>
      InBinaryVersion(c.items[m], a)
  {
    forall m, a | m in c.items && ArtifactIndex.Shown(c.items[m], latest, HasBinary, a)
      ensures InBinaryVersion(c.items[m], a)
    {
      ShownHoldsBinary(c.items[m], latest);
    }
  }

  /** A version whose RPMs are all source packages is never among the
      latest, however many are asked for. */
  lemma SourceOnlyNeverLatest(n: NameIndex, num: int, v: string)
    requires Valid(n) && v in n.items && Valid(n.items[v])
    requires forall i, a :: i in n.items[v].items && a in n.items[v].items[i] ==> a.isSource
    ensures RpmGetLatest(n, num).Some?
    ensures v !in RpmGetLatest(n, num).value.items
  {
    assert v in n.order;
    assert !HasBinary(n.items[v]);
  }
}
