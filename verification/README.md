# repoman core, modelled in Dafny

repoman keeps repositories of build artifacts, mostly RPMs. This project
models its core:

- **Version helpers.** The helpers in `repoman/common/utils.py`: `tryint`,
  `cmpver`, `cmpfullver`, `split`, `rsplit`, `get_last`,
  `sanitize_file_name` and `to_human_size`.
- **The artifact catalog** in `repoman/common/artifact.py`. It is a
  dictionary of names. Each name maps versions to "inodes", and each inode
  holds a group of artifacts. The model covers:
  - adding artifacts, with the `onlyifnewer` gate;
  - listing them, with the regex and predicate filters and the
    `latest` count;
  - deleting inodes and versions;
  - the URL-to-local-path rule of `Artifact`, and its path and name
    renderings.
- **The RPM store** in `repoman/common/stores/RPM/RPM.py`:
  - how an RPM derives its distribution, `name` and `ver_rel`;
  - its path and string renderings;
  - the `RPMVersion` comparison operators;
  - `RPMName.get_latest`, which ranks only versions that hold a binary
    package.
- **The command-line driver** in `repoman/cmd.py`:
  - parsing `-o section.option=value` options;
  - the signing-key prompts;
  - the `add`, `remove-old` and `generate-src` commands, and the dispatch
    in `main`.

  The configuration and the repository appear only as the sequence of
  calls made on them.

**How Python is modelled.**
- Python dictionaries are `Dicts.Dict`: a map plus an iteration order.
  The order is the order of insertion. Python 2 leaves a dictionary's
  iteration order unspecified, so insertion order is one choice among
  many (see "## Left out").
- Strings are `seq<char>`, compared bytewise as Python 2 does.
- Python 2 mixed comparisons are modelled. An `int` segment of a version
  sorts below any `str` segment.
- Exceptions are `Outcomes.Result` values.
- File deletion is a set of paths present on disk, which the delete
  operations shrink.

Modules, one per file:

| module | file | covers |
|---|---|---|
| `Outcomes` | `outcomes.dfy` | Python `None`, exceptions |
| `Seqs` | `seqs.dfy` | filters and concatenation of lists |
| `Text` | `text.dfy` | `strip`, `find`, `split`, `rsplit`, `join`, string order, `sort(reverse=True)` |
| `Numbers` | `numbers.dfy` | Python 2 `int()` and `'%d' %` |
| `Utils` | `utils.dfy` | `split`, `rsplit`, `get_last`, `sanitize_file_name`, `to_human_size` |
| `Versions` | `versions.dfy` | `tryint`, `cmpver`, `cmpfullver` |
| `Dicts` | `dicts.dfy` | dictionaries with an iteration order |
| `Artifacts` | `artifact.dfy` | `Artifact` |
| `Catalog` | `catalog.dfy` | `ArtifactInode`, `ArtifactVersion`, `ArtifactName` |
| `ArtifactIndex` | `index.dfy` | `ArtifactList` and the shape it keeps |
| `Rpm` | `rpm.dfy` | `RPM`, `RPMName.get_latest` |
| `RpmVersions` | `rpmversion.dfy` | `RPMVersion` operators and the unit-test pairs |
| `Cli` | `cli.dfy` | `repoman/cmd.py` |

Where the code and its documentation or tests disagree, the model follows
the code.

**Unit-test disagreement.** The third pair of
`tests/unit/test_RPMStore.py` expects `1.0-1.el7.centos` to be below
`1.0-1.20170103101841.centos`. `cmpfullver` puts it above, because the
word `el7` sorts above any number. `RpmVersions.TestPairThreeFails` proves
this; the other seven pairs hold.

**Version ranking.** `get_latest` sorts version keys as plain strings, not
with `cmpfullver`. So `1.10-1` ranks below `1.9-1`, although `RPMVersion`
orders it above (`RpmVersions.StringRankIsNotVersionOrder`).

**Dry runs.** A dry run (`noop`) still pops the deleted entries from the
catalog. Only the files on disk are spared.

**Signing prompt.** `set_signing_key` asks for a passphrase whenever it is
`ask`, even when no key was given. The `and` in its condition binds
tighter than the `or` (`Cli.AskWithoutKeyStillAsks`).

**Options.** An option value holding a second `=` fails the two-way
unpacking with a `ValueError`.

## Model

| member | source | states |
|---|---|---|
| `Versions.TryInt` | repoman/common/utils.py:136-143 | the result is an integer exactly when Python 2 `int()` accepts the string; otherwise it is the string itself, unchanged |
| `Versions.TryIntOfIntToStr` | repoman/common/utils.py:140-141 | `tryint` reads the decimal text of any integer back as that integer |
| `Versions.TryIntEmpty` | repoman/common/utils.py:140-143 | the empty string stays a string, since `int('')` raises |
| `Versions.TryIntLeadingZero` | repoman/common/utils.py:140-141 | leading zeros are dropped: `'01'` becomes 1 |
| `Numbers.ParseIntOfIntToStr` | repoman/common/utils.py:141 | the model of `int()` inverts `'%d' %` for every integer, negatives included |
| `Numbers.ParseIntRejects` | repoman/common/utils.py:140-143 | text starting with anything but whitespace, a sign or a digit is not an integer |
| `Versions.Segments` | repoman/common/utils.py:156-159 | the segments compared are the dot-split pieces, each passed through `tryint`, one segment per piece |
| `Versions.SegmentsOfJoin` | repoman/common/utils.py:156-159 | dot-free pieces joined with dots come back as exactly those pieces after `tryint` |
| `Versions.SegCmpTransitive` | repoman/common/utils.py:160-165 | Python 2 order on `int`/`str` segments is transitive, with an int below every str |
| `Versions.SegsCmpZeroIffEqual` | repoman/common/utils.py:160-163 | list comparison is 0 exactly for equal segment lists |
| `Versions.SegsCmpTransitive` | repoman/common/utils.py:160-165 | list comparison is transitive, strictly so when either step is strict |
| `Versions.CmpVer` | repoman/common/utils.py:146-165 | the result is -1, 0 or 1, and 0 exactly when both versions have the same segments |
| `Versions.CmpVerIsSegsCmp` | repoman/common/utils.py:160-165 | `cmpver` is Python 2 list comparison of the segment lists |
| `Versions.CmpVerIsTotalPreorder` | repoman/common/utils.py:153-154 | `cmpver` behaves as `cmp()`: reflexive, sign-reversed when swapped, transitive |
| `Versions.CmpVerDecidedAt` | repoman/common/utils.py:160-165 | the first piece that differs after `tryint` decides, whatever follows |
| `Versions.CmpVerPrefixIsSmaller` | repoman/common/utils.py:160-165 | a version extended by further pieces is larger than the version itself |
| `Versions.CmpVerNumericExample` | repoman/common/utils.py:146-151 | natural order: `1.9` is below `1.10` |
| `Versions.CmpVerMixedExample` | repoman/common/utils.py:158-165 | a numeric segment is below a word segment: `1.1` is below `1.a` |
| `Versions.CmpVerLeadingZeroExample` | repoman/common/utils.py:158-163 | `1.01` and `1.1` compare equal |
| `Versions.SplitRelease` | repoman/common/utils.py:173-174 | the version part holds no `-`, and the parts rejoin to the input; with no `-`, the release is `''` |
| `Versions.SplitReleaseOf` | repoman/common/utils.py:173-174 | splitting `version-release` gives back the version and the release when the version holds no `-` |
| `Versions.CmpFullVerWithoutRelease` | repoman/common/utils.py:168-178 | a string with no `-` compares as `cmpver` against another such string, and as the empty release against a `version-release` string whose version ties; with `CmpFullVerOfParts` this covers every pair of inputs |
| `Versions.CmpFullVerIsTotalPreorder` | repoman/common/utils.py:168-178 | `cmpfullver` is also reflexive, antisymmetric in sign and transitive |
| `Versions.CmpFullVerOfParts` | repoman/common/utils.py:173-178 | on `v-r` strings with dash-free versions, the result is the version comparison, or the release comparison on a tie |
| `Text.SplitMax` | repoman/common/utils.py:429-432 | `str.split` pieces rejoin to the input, respect the limit, and only the last piece can hold the separator |
| `Text.RSplitMax` | repoman/common/utils.py:437-440 | `str.rsplit` pieces rejoin to the input, respect the limit, and only the first piece can hold the separator |
| `Text.SplitCutsLeftmost` | repoman/common/utils.py:429-432 | every cut of `str.split` is at the leftmost occurrence: each piece but the last meets the separator first right at its own end |
| `Text.RSplitCutsRightmost` | repoman/common/utils.py:437-440 | every cut of `str.rsplit` is at the rightmost occurrence: each piece but the first meets the separator last right at its own start |
| `Text.SplitOverlapExample` | repoman/common/utils.py:431 | overlapping occurrences are cut from the left: `"aaa".split("aa")` is `["", "a"]` |
| `Text.SplitOfJoin` | repoman/common/utils.py:156 | splitting at a character inverts joining pieces that do not hold it |
| `Utils.Split` | repoman/common/utils.py:429-434 | an empty separator raises; a limit `n` gives exactly `n + 1` elements: the real pieces, then `''` padding |
| `Utils.RSplit` | repoman/common/utils.py:437-442 | the same as `split`, with the pieces taken from the right |
| `Utils.SplitShape` | repoman/common/utils.py:429-434 | with a limit, the real pieces rejoin to the input, and every element after them is `''` |
| `Utils.RSplitShape` | repoman/common/utils.py:437-442 | the same for `rsplit`; no piece but the first holds the separator |
| `Utils.GetLast` | repoman/common/utils.py:445-451 | exactly `num` elements: the list's own elements, then `None` padding; a negative `num` slices from the end |
| `Utils.SanitizeFileName` | repoman/common/utils.py:454-476 | valid characters are kept and the others replaced, position by position; a valid replacement leaves only valid characters |
| `Utils.SanitizeIdempotent` | repoman/common/utils.py:472-476 | sanitizing twice equals sanitizing once, when the replacement is valid |
| `Utils.SanitizeValidIsIdentity` | repoman/common/utils.py:472-476 | an already valid name is unchanged |
| `Utils.SanitizeExamples` | repoman/common/utils.py:466-470 | the two documented examples hold |
| `Utils.ToHumanSizeReadsBack` | repoman/common/utils.py:201-211 | the unit letter is picked by the size range; the number before it parses back to the floored size in that unit |
| `Dicts.Put` | repoman/common/artifact.py:209-210 | a new key goes to the end of the iteration order; an existing key keeps its place |
| `Dicts.Pop` | repoman/common/artifact.py:217 | the key leaves both the map and the iteration order |
| `Artifacts.LastSegment` | repoman/common/artifact.py:70 | the text after the last `/`, which holds no `/` and ends the path |
| `Artifacts.ResolvePath` | repoman/common/artifact.py:69-78 | a local path is kept; a URL ending in `/` is refused; any other URL maps into the temp dir under its last segment |
| `Artifacts.NameText` | repoman/common/artifact.py:120-124 | a missing name prints as `None`, as `format` and `%s` print Python's `None` |
| `Artifacts.GeneratePath` | repoman/common/artifact.py:115-124 | `name/version/name-version` followed by the extension |
| `Artifacts.GeneratePathSplits` | repoman/common/artifact.py:115-124 | the generated path splits back into name, version and `name-version+extension` |
| `Artifacts.FullName` | repoman/common/artifact.py:85-87 | `type(name version)` |
| `Artifacts.Str` | repoman/common/artifact.py:132-141 | `type(name version extension)` |
| `Artifacts.StrExtendsFullName` | repoman/common/artifact.py:132-141 | the string form is the full name with the extension inserted before its closing parenthesis |
| `Artifacts.FullNameInjective` | repoman/common/artifact.py:85-87 | equal full names mean equal type, name and version, when the fields hold no separators |
| `Catalog.GroupDelete` | repoman/common/artifact.py:155-161 | outside a dry run, exactly the group's files leave the disk; a dry run deletes nothing |
| `Catalog.GroupArtifacts` | repoman/common/artifact.py:163-177 | the regex filter wins over the predicate; each artifact is kept with its multiplicity exactly when admitted |
| `Catalog.BucketAdd` | repoman/common/artifact.py:208-212 | the artifact is appended to its inode's group, created if missing; other inodes are untouched; the result is true |
| `Catalog.BucketAddSameInode` | repoman/common/artifact.py:208-212 | two artifacts with one inode share a group, in the order added |
| `Catalog.BucketDeleteInode` | repoman/common/artifact.py:214-217 | the inode is popped even in a dry run; files go only outside a dry run; an absent inode changes nothing |
| `Catalog.DeleteInodes` | repoman/common/artifact.py:282-283 | exactly the listed inodes leave; the rest keep their groups; the files removed are those of the listed groups |
| `Catalog.BucketArtifacts` | repoman/common/artifact.py:219-232 | an artifact is listed exactly when one of the version's groups stores it and the filters admit it, and as many times as the groups together hold it |
| `Catalog.NameAddArtifact` | repoman/common/artifact.py:247-260 | corrected gate: with `onlyifnewer`, refused unchanged when a version at least as new exists; otherwise the artifact joins its version's bucket |
| `Catalog.OnlyIfNewerAcceptsNewest` | repoman/common/artifact.py:247-257 | the corrected gate accepts exactly versions newer than every existing one |
| `Catalog.FirstAtMost` | repoman/common/artifact.py:250-255 | `next(...)` gives the first key in iteration order that is `<=` the version, or `None` when there is none |
| `Catalog.NameAddArtifactAsWritten` | repoman/common/artifact.py:247-260 | the gate as coded: refused unchanged when the version exists or the first `<=` key found is non-empty; otherwise the artifact joins its version's bucket and the other versions are unchanged |
| `Catalog.GatesAddOrRefuse` | repoman/common/artifact.py:247-260 | both gates keep the name well formed, and either refuse with the name unchanged or add the artifact to its version's bucket, leaving the other versions as they were |
| `Catalog.AsWrittenAcceptsOnlyOlder` | repoman/common/artifact.py:247-257 | when no version key is empty, the gate as coded accepts exactly the versions OLDER than every existing one |
| `Catalog.AsWrittenRefusesNewerExample` | repoman/common/artifact.py:247-257 | with `1.0` and `2.0` present, `3.0` is refused as coded and accepted by the corrected gate |
| `Catalog.LatestCount` | repoman/common/artifact.py:269-276 | `num` 0 means all; too many is capped; a negative count yields none (empty `xrange`) |
| `Text.SortDescending` | repoman/common/artifact.py:271-272 | `sort(reverse=True)` on distinct keys: a permutation in strictly descending string order |
| `Text.StrCmpTransitive` | repoman/common/artifact.py:271-272 | the string order used to rank versions is transitive |
| `Catalog.Ranked` | repoman/common/artifact.py:271-272 | the ranked keys are exactly the eligible versions, each once, in descending order |
| `Catalog.Latest` | repoman/common/artifact.py:262-278 | `None` for an empty name; otherwise `LatestCount` versions, each mapped to its own bucket, each above every unreturned eligible version |
| `Catalog.GetLatest` | repoman/common/artifact.py:262-278 | `ArtifactName.get_latest`: the top versions in string order, with their buckets |
| `Catalog.VisitedPartsMember` | repoman/common/artifact.py:301-309 | concatenating the visited versions' listings lists exactly the stored, admitted artifacts |
| `Catalog.NameArtifacts` | repoman/common/artifact.py:292-310 | a non-zero `latest` on an empty name raises; otherwise the admitted artifacts of the visited versions (all of them for `latest == 0`, else the top ones that the name class's `get_latest` ranks) are listed, each as many times as the visited buckets hold it |
| `Catalog.NameDeleteVersion` | repoman/common/artifact.py:280-284 | the version is popped even in a dry run; its files go only outside a dry run; an absent version changes nothing |
| `ArtifactIndex.AddPkg` | repoman/common/artifact.py:322-326 | a nameless artifact changes nothing and returns `None`; otherwise its name is created first and the name's gate as coded (`Catalog.NameAddArtifactAsWritten`) decides; other names are untouched |
| `ArtifactIndex.AddPkgCorrected` | repoman/common/artifact.py:322-326 | the same, with the corrected gate `Catalog.NameAddArtifact` deciding |
| `ArtifactIndex.AddPkgPreservesWellFormed` | repoman/common/artifact.py:322-326 | adding, through either gate, keeps every artifact filed under its own name, version and inode, with no empty level |
| `ArtifactIndex.AddPkgStores` | repoman/common/artifact.py:322-326 | through either gate, an accepted artifact is stored afterwards, and nothing stored before is lost |
| `ArtifactIndex.SettleName` | repoman/common/artifact.py:342-343 | a name left without versions is dropped; other names are kept |
| `ArtifactIndex.DeleteVersion` | repoman/common/artifact.py:328-343 | the version's files are deleted and the version dropped; a name with no version left is dropped; an unknown name changes nothing |
| `ArtifactIndex.DeleteVersionPreservesWellFormed` | repoman/common/artifact.py:328-343 | deleting keeps the catalog well formed |
| `ArtifactIndex.DeleteVersionForgets` | repoman/common/artifact.py:328-343 | afterwards exactly the artifacts of that name and version are gone |
| `ArtifactIndex.ListArtifacts` | repoman/common/artifact.py:354-378 | it raises exactly when `latest` is non-zero and some name is empty; otherwise it lists each name's shown, admitted artifacts, ranked by the ranking test of the list's `name_class`, each as many times as the shown buckets hold it |
| `ArtifactIndex.WellFormedListsOk` | repoman/common/artifact.py:297-298 | in a well-formed catalog, listing the latest versions never raises |
| `ArtifactIndex.ListAllIsStored` | repoman/common/artifact.py:354-378 | an unfiltered listing of all versions shows exactly the stored artifacts |
| `Rpm.ToAllDistrosExamples` | repoman/common/stores/RPM/RPM.py:78-89 | names are matched against the start-anchored patterns: `ovirt-release43` matches, `vdsm` does not |
| `Rpm.ToAllDistros` | repoman/common/stores/RPM/RPM.py:78-89 | the name starts with one of the ten patterns' literal prefixes; a trailing `\d*` or `x*` may match nothing, so a prefix is enough |
| `Rpm.GetDistro` | repoman/common/stores/RPM/RPM.py:192-197 | raises exactly when no `.fc<digits>` or `.el<digits>` occurs; otherwise the leftmost match, without its dot and with all its digits |
| `Rpm.GetDistroCentosExample` | repoman/common/stores/RPM/RPM.py:192-197 | `1.el7.centos` yields `el7` |
| `Rpm.GetDistroMissingExample` | repoman/common/stores/RPM/RPM.py:192-197 | `1.centos` raises the wrong-distribution error |
| `Rpm.DistroTagIsNotAll` | repoman/common/stores/RPM/RPM.py:133-141 | a found distribution is never `all`, so `all` marks exactly the special packages |
| `Rpm.RemoveTag` | repoman/common/stores/RPM/RPM.py:161-167 | the first `.distro` and the rest of its dot field are cut; a release without it is kept |
| `Rpm.VerRelDropsDistroField` | repoman/common/stores/RPM/RPM.py:160-170 | the cut removes exactly the field of the distribution that `get_distro` found |
| `Rpm.RemoveTagExample` | repoman/common/stores/RPM/RPM.py:160-170 | `1.el7.centos` loses `.el7` and becomes `1.centos` |
| `Rpm.MakeRpm` | repoman/common/stores/RPM/RPM.py:105-170 | fails exactly on a trailing-slash URL or on a missing distribution for a non-special package; distro is `all` iff special; `ver_rel` is `version-` plus the release with the distro cut out |
| `Rpm.ToArtifact` | repoman/common/stores/RPM/RPM.py:172-190 | filed under `name.distro.arch` and `ver_rel`; source packages are exactly those with the `.src.rpm` extension and the `source_rpm` type |
| `Rpm.Name` | repoman/common/stores/RPM/RPM.py:172-174 | the `name` property: `name.distro.arch` |
| `Rpm.Extension` | repoman/common/stores/RPM/RPM.py:180-184 | `.src.rpm` for a source package, `.rpm` otherwise |
| `Rpm.Kind` | repoman/common/stores/RPM/RPM.py:186-190 | the `type` property: `source_rpm` for a source package, `rpm` otherwise |
| `Rpm.FullName` | repoman/common/stores/RPM/RPM.py:154-159 | `rpm(name distro arch X)`, X being `src` or `bin`, from the package's own name, not the `name` property |
| `Rpm.Str` | repoman/common/stores/RPM/RPM.py:284-297 | `rpm(name.distro.arch version release arch X S)`, X being `src` or `bin` and S `signed` or `unsigned` |
| `Rpm.GeneratePath` | repoman/common/stores/RPM/RPM.py:199-221 | `base/distro/arch/name-version-release.arch.rpm`; no base directory when it is empty, `%s` for the distribution `all`, and `SRPMS` with `src` for a source package |
| `Rpm.FullNameIdentifies` | repoman/common/stores/RPM/RPM.py:154-159 | equal full names mean equal name, distro, arch and source flag, when the fields hold no spaces |
| `Rpm.StrIdentifies` | repoman/common/stores/RPM/RPM.py:284-297 | equal string forms mean equal name, version, release, arch, source flag and signature presence |
| `Rpm.GeneratePathSplits` | repoman/common/stores/RPM/RPM.py:199-221 | the path splits back into base dir (when given), distro dir (`%s` for `all`), arch dir (`SRPMS` for sources) and file name |
| `Rpm.GeneratePathEndsWithExtension` | repoman/common/stores/RPM/RPM.py:207-221 | the generated file name ends with the package's extension |
| `Rpm.HasBinaryIffListed` | repoman/common/stores/RPM/RPM.py:351-356 | a version is ranked exactly when listing its non-source artifacts gives a non-empty list |
| `Rpm.HasBinary` | repoman/common/stores/RPM/RPM.py:351-356 | the version stores at least one non-source package |
| `Rpm.RpmGetLatest` | repoman/common/stores/RPM/RPM.py:342-363 | `None` for an empty name; otherwise the top versions holding a binary, capped by `num`, each with its bucket |
| `Rpm.SourceOnlyNeverLatest` | repoman/common/stores/RPM/RPM.py:351-356 | a version holding only source packages is never returned |
| `Rpm.RpmNameArtifacts` | repoman/common/artifact.py:292-310 | an `RPMName` lists through the inherited `get_artifacts`, which calls `RPMName.get_latest` (RPM.py:342-363): it raises exactly when `latest` is non-zero and the name is empty; with `latest == 0` it lists every admitted stored artifact; with a non-zero `latest` every listed artifact is admitted and sits in a version that holds a binary |
| `Rpm.ShownHoldsBinary` | repoman/common/stores/RPM/RPM.py:351-361 | what the RPM ranking keeps of a name lies in versions holding a binary |
| `Rpm.SourceOnlyNameListsNothing` | repoman/common/artifact.py:296-310 | a name whose versions hold only source packages lists nothing for a non-zero `latest`, whatever the filters |
| `Rpm.RpmListArtifacts` | repoman/common/artifact.py:354-378 | `RPMList` (`name_class=RPMName`, RPM.py:366-373) lists through the generic listing: it raises exactly when `latest` is non-zero and some name is empty; with a non-zero `latest` every listed artifact is admitted and sits in a version that holds a binary |
| `Rpm.ShownInIndexHoldsBinary` | repoman/common/artifact.py:354-378 | what an `RPMList` shows of each name for a non-zero `latest` lies in versions holding a binary |
| `RpmVersions.OperatorsAgree` | repoman/common/stores/RPM/RPM.py:308-324 | the six operators are consistent: `<` mirrors `>`, `<=` is `<` or `==`, `!=` negates `==` |
| `RpmVersions.OperatorsTransitive` | repoman/common/stores/RPM/RPM.py:314-318 | `<=` is transitive, and `<` then `<=` gives `<` |
| `RpmVersions.SameVersion` | repoman/common/utils.py:173-178 | with equal versions, the releases decide |
| `RpmVersions.VersionDecides` | repoman/common/utils.py:173-177 | with different versions, the versions decide, whatever the releases |
| `RpmVersions.TestPairOne` | tests/unit/test_RPMStore.py:9 | `0.0-1.el7.centos` is below `0.1-1.el7.centos`, in both operator directions |
| `RpmVersions.TestPairTwo` | tests/unit/test_RPMStore.py:10 | `0.1-1.el7.centos` is below `1.0-1.el7.centos` |
| `RpmVersions.TestPairThreeFails` | tests/unit/test_RPMStore.py:11 | the expected order does not hold: the `el7` release is above the timestamped one |
| `RpmVersions.TestPairFour` | tests/unit/test_RPMStore.py:12 | a 2017 timestamp release is below a 2018 one |
| `RpmVersions.TestPairFive` | tests/unit/test_RPMStore.py:13 | `1.20180103101841.centos` is below the same stamp followed by a git field |
| `RpmVersions.TestPairSix` | tests/unit/test_RPMStore.py:14 | git-stamped releases order by their timestamps |
| `RpmVersions.TestPairSeven` | tests/unit/test_RPMStore.py:15 | version `1.0` is below `1.1` at equal releases |
| `RpmVersions.TestPairEight` | tests/unit/test_RPMStore.py:16 | version `1.1` is below `2.1` at equal releases |
| `RpmVersions.StringRankIsNotVersionOrder` | repoman/common/artifact.py:271-272 | string ranking and `cmpfullver` disagree on `1.10-1` and `1.9-1` |
| `Cli.ParseOption` | repoman/cmd.py:177-183 | no `=` raises the invalid-option error; a success has no `=` inside and no `.` in the option, and renders back to the input |
| `Cli.ParseOptionRejectsTwoSeparators` | repoman/cmd.py:180 | two or more `=` fail the two-way unpacking with `ValueError` |
| `Cli.ParseOptionOfOneSeparator` | repoman/cmd.py:178-183 | with one `=`, the option is refused exactly when its name has no `.`, and accepted exactly when it has one |
| `Cli.ParseOptionOfRender` | repoman/cmd.py:180-183 | every parsable setting, written as `section.option=value`, parses back to itself; the section may hold dots |
| `Cli.ApplyParsed` | repoman/cmd.py:177-184 | one call per parse result, in order, up to the first error, which is reported |
| `Cli.HandleCustomOptions` | repoman/cmd.py:176-186 | options are applied in order; the first bad one stops the loop with its error, and the earlier ones stay applied |
| `Cli.RenderedOptionsApply` | repoman/cmd.py:176-186 | a list of rendered parsable settings applies exactly those settings, in order, without error |
| `Cli.RepoPath` | repoman/cmd.py:250-254 | one trailing `/` is removed, and nothing else changes |
| `Cli.RepoPathStripsOne` | repoman/cmd.py:251-252 | exactly one slash goes, even when several trail |
| `Cli.SetSigningKey` | repoman/cmd.py:189-204 | an existing key is kept, a missing one typed in; the passphrase is replaced by the typed one exactly when the prompt condition holds |
| `Cli.SetSigningKeySettles` | repoman/cmd.py:196-202 | afterwards the passphrase is `ask` only if typed so; a key lacks a passphrase only if an empty one was typed |
| `Cli.HasToHandleSigningKey` | repoman/cmd.py:207-213 | the signing setup runs for a key with the `ask` passphrase, or for the `sign-rpms` command |
| `Cli.AsksPassphrase` | repoman/cmd.py:196-200 | the passphrase prompt condition, `and` binding tighter than `or`: a key without a passphrase, or the `ask` passphrase |
| `Cli.HandleSigning` | repoman/cmd.py:244-245 | prompts happen exactly for a key with `ask`, or under `sign-rpms` when the key or its passphrase is missing or `ask`; a set key is kept; outside `sign-rpms` a missing key changes nothing; afterwards a set key has `ask` only if typed; `sign-rpms` with non-empty answers leaves a key and a passphrase |
| `Cli.GetConfigSigning` | repoman/cmd.py:240-245 | a `--key` replaces the configured key and sets the `--passphrase` argument (default `ask`, cmd.py:129-132) before the signing step; with the default the user is always prompted for the passphrase, with another non-empty one outside `sign-rpms` nobody is prompted; without `--key` it is the signing step on the configured settings |
| `Cli.KeyWithoutPassphraseNotPrompted` | repoman/cmd.py:207-213 | outside `sign-rpms`, a key without a passphrase meets the prompt condition of `set_signing_key` but is never prompted for |
| `Cli.AskingKeyIsHandled` | repoman/cmd.py:207-213 | a key with the `ask` passphrase triggers the signing setup, which keeps the key and sets only the typed passphrase |
| `Cli.AskWithoutKeyStillAsks` | repoman/cmd.py:196-202 | with no key, an `ask` passphrase is still prompted for |
| `Cli.AddSources` | repoman/cmd.py:266-267 | one `add_source` per source, stripped, in order |
| `Cli.DoAdd` | repoman/cmd.py:260-285 | a negative keep count returns 1 and does nothing; otherwise it adds every source, saves last, makes one call per source plus three (with a positive count) or one, deletes old versions only for a positive count and always right after a save, then returns 0 |
| `Cli.DoAddNoopOnlyReachesDeleteOld` | repoman/cmd.py:269-279 | the dry-run flag changes only the flag passed to `delete_old` |
| `Cli.DoRemoveOld` | repoman/cmd.py:288-302 | a keep count below one returns 1 and does nothing; otherwise it deletes old versions, saves and returns `None` (exit 0) |
| `Cli.DoGenerateSrc` | repoman/cmd.py:305-308 | it turns sources on, saves and returns 0 |
| `Cli.Dispatch` | repoman/cmd.py:311-328 | unknown commands exit 0 and do nothing; the exit status is 1 exactly for a refused `add` or `remove-old`, and then nothing is done |
| `Cli.DispatchDeletesOnlyWhenAsked` | repoman/cmd.py:311-328 | old versions are removed exactly by `add` with a positive keep-latest or `remove-old` with a positive keep; any work ends with a save |

## Left out

- File I/O, downloads, md5 hashes, logging, `print_busy`, and the GPG, HTTP and symlink helpers of `repoman/common/utils.py`. They are side effects with no logic to model. A download becomes the local path it would produce.
- Reading the RPM header (`rpm.TransactionSet`, `os.fstat`). The header fields and the inode are parameters of `Rpm.MakeRpm`.
- `RPM.sign`, `Artifact.sign`. They drive external programs.
- The regular-expression engine:
  - The `regmatch` filter is a predicate on paths.
  - The default `distro_reg` and `to_all_distros` patterns are written out as their languages.
  - Custom patterns are not modelled.
- `ArtifactVersion.delete`, `ArtifactName.delete` and `ArtifactList.delete`, the whole-container deletes. Their own loops pop from the dict they iterate, and they are not among the modelled operations.
- `RPMName.add_pkg`. No caller reaches it: `ArtifactList.add_pkg` calls `add_artifact`, and versions have no `add_pkg`.
- `RPMVersion.__init__`. It forwards one argument too many to `ArtifactVersion.__init__`. The model treats a version as its `version-release` string, which is all the operators read.
- The `ArtifactVersion` comparison operators. They are the same as `RPMVersion`'s, which `RpmVersions` models.
- `get_config` apart from its signing part, which `Cli.GetConfigSigning` models; `parse_args`, the logging setup and the `Repo`/`Config` classes. The other settings `get_config` copies from the command line are not part of this model. The configuration file format and lookups are not part of this model. The effect of the driver functions on them is the `Cli.Call` trace.
- The terminal prompts (`raw_input`, `getpass`). What the user types is a parameter of `Cli.SetSigningKey`.
- `Numbers.ParseInt`: models `int()` on byte strings, which is what `tryint` receives; `unicode` input is not modelled.
- `Utils.SanitizeFileName`: the position-by-position contract is stated only for one-character replacements. Longer replacements are covered only by the valid-characters property.
- `Artifacts.FullNameInjective`, `Rpm.FullNameIdentifies`, `Rpm.StrIdentifies`: state injectivity only when the fields hold no separator characters. Otherwise the renderings are ambiguous.
- `Catalog.NameAddArtifactAsWritten`: the gate's first test reads `artifact.ver_rel`, which only the RPM class defines (there it equals the version the RPM is filed under, see `Rpm.ToArtifact`). The model reads `version` instead. For any other artifact with `onlyifnewer` the code raises `AttributeError`, and the model does not model that error.
- `Dicts.Put`: a new key goes to the end of the iteration order. Python 2 gives a dictionary no defined order, so this is one fixed choice among many. It decides which key `Catalog.FirstAtMost` finds first, hence `Catalog.RefusesAsWritten` and `ArtifactIndex.AddPkg`, and the order of every listing.
- `Catalog.Latest`, `Rpm.RpmGetLatest`: the iteration order of the returned dictionary is the ranking order; Python 2 gives no such promise.

## Findings

| source | as written | input that shows it | evidently intended | confidence | as-written member | corrected member |
|---|---|---|---|---|---|---|
| repoman/common/artifact.py:247-257 | with `onlyifnewer`, the artifact is refused when some existing version is `<=` the new one | versions `1.0` and `2.0` present, `3.0` offered with `onlyifnewer`: refused | refuse only when some existing version is at least as new, so that a newer version is accepted | high, not executed | `Catalog.NameAddArtifactAsWritten` | `Catalog.NameAddArtifact` |
