/** A single artifact of the repository: where it is stored locally, the
    path it should have inside the repository and its identifying strings. */
module Artifacts {
  import opened Outcomes
  import opened Text

  /** The attributes of an artifact that the catalog reads. `name` is
      optional because the catalog skips artifacts whose name is `None`;
      `kind` is the `type` property; `isSource` is the RPM source flag
      (false for other kinds). The hash is not modelled. */
  datatype Artifact = Artifact(
    path: string,
    inode: int,
    name: Option<string>,
    version: string,
    extension: string,
    kind: string,
    isSource: bool)

  /** `path.startswith('http:') or path.startswith('https:')`. */
  predicate IsUrl(path: string) {
    StartsWith(path, "http:") || StartsWith(path, "https:")
  }

  /** `path.rsplit('/', 1)[-1]`: the text after the last `/`, or the whole
      path when it holds none. */
  function LastSegment(path: string): (r: string)
    ensures '/' !in r
    ensures exists head :: path == head + r && (head == "" || head[|head| - 1] == '/')
  {
    var parts := RSplitMax(path, "/", 1);
    var last := parts[|parts| - 1];
    ContainsChar(last, '/');
    if |parts| == 1 then
      assert path == "" + last;
      last
    else
      assert path == parts[0] + "/" + last;
      assert (parts[0] + "/")[|parts[0] + "/"| - 1] == '/';
      last
  }

  /** The local path of a new artifact: a URL is replaced by
      `temp_dir + '/' + <last segment>` (the download itself is left out),
      and a URL whose last segment is empty is refused. */
  function ResolvePath(path: string, tempDir: string): (r: Result<string>)
    ensures !IsUrl(path) ==> r == Ok(path)
    ensures IsUrl(path) ==> (r.Err? <==> path[|path| - 1] == '/')
    ensures r.Err? ==> r.error == TrailingSlash(path)
    ensures IsUrl(path) && r.Ok? ==>
      StartsWith(r.value, tempDir + "/") &&
      var file := r.value[|tempDir| + 1..];
      file != "" && '/' !in file &&
      exists head :: path == head + file && (head == "" || head[|head| - 1] == '/')
  {
    if IsUrl(path) then
      var file := LastSegment(path);
      var head :| path == head + file && (head == "" || head[|head| - 1] == '/');
      if file == "" then
        assert path == head;
        Err(TrailingSlash(path))
      else
        assert path[|path| - 1] == file[|file| - 1];
        var r := tempDir + "/" + file;
        assert r[..|tempDir| + 1] == tempDir + "/";
        assert r[|tempDir| + 1..] == file;
        Ok(r)
    else Ok(path)
  }

  /** `str(None)`, as `%s` and `format` print a missing name. */
  function NameText(a: Artifact): string {
    match a.name
    case None => "None"
    case Some(n) => n
  }

  /** `generate_path()`: `name/version/name-version` followed by the extension. */
  function GeneratePath(a: Artifact): string {
    var n, v := NameText(a), a.version;
    n + "/" + v + "/" + n + "-" + v + a.extension
  }

  /** Splitting a generated path at `/` gives back the name, the version and
      the file name, when none of the three parts holds a `/`. */
  lemma GeneratePathSplits(a: Artifact)
    requires '/' !in NameText(a) && '/' !in a.version && '/' !in a.extension
    ensures var n, v := NameText(a), a.version;
      SplitMax(GeneratePath(a), "/", -1) == [n, v, n + "-" + v + a.extension]
  {
    var n, v := NameText(a), a.version;
    var file := n + "-" + v + a.extension;
    assert '/' !in file by {
      assert forall i :: 0 <= i < |file| ==> file[i] in n || file[i] == '-' || file[i] in v || file[i] in a.extension by {
        forall i | 0 <= i < |file|
          ensures file[i] in n || file[i] == '-' || file[i] in v || file[i] in a.extension
        {
          if i < |n| {
            assert file[i] == n[i];
          } else if i == |n| {
          } else if i < |n| + 1 + |v| {
            assert file[i] == v[i - |n| - 1];
          } else {
            assert file[i] == a.extension[i - |n| - 1 - |v|];
          }
        }
      }
    }
    assert [n, v, file][1..] == [v, file];
    assert [v, file][1..] == [file];
    assert Join([v, file], "/") == v + "/" + file;
    assert GeneratePath(a) == Join([n, v, file], "/");
    SplitOfJoin([n, v, file], '/', -1);
  }

  /** `full_name`: `type(name version)`. */
  function FullName(a: Artifact): string {
    a.kind + "(" + NameText(a) + " " + a.version + ")"
  }

  /** `str(artifact)`: `type(name version extension)`. */
  function Str(a: Artifact): string {
    a.kind + "(" + NameText(a) + " " + a.version + " " + a.extension + ")"
  }

  /** The string form extends the full name by the extension: two artifacts
      with the same string form have the same full name and extension. */
  lemma StrExtendsFullName(a: Artifact)
    ensures var f := FullName(a);
      |f| >= 1 && Str(a) == f[..|f| - 1] + " " + a.extension + ")"
  {
    var f := FullName(a);
    assert f[..|f| - 1] == a.kind + "(" + NameText(a) + " " + a.version;
  }

  /** When the type holds no `(` and name and version hold no space, the
      full name is read back unambiguously: equal full names mean equal
      type, name and version. */
  lemma FullNameInjective(a: Artifact, b: Artifact)
    requires '(' !in a.kind && '(' !in b.kind
    requires ' ' !in NameText(a) && ' ' !in NameText(b)
    requires FullName(a) == FullName(b)
    ensures a.kind == b.kind && NameText(a) == NameText(b) && a.version == b.version
  {
    var fa, fb := FullName(a), FullName(b);
    var inner_a := NameText(a) + " " + a.version;
    var inner_b := NameText(b) + " " + b.version;
    assert fa == a.kind + ['('] + (inner_a + ")");
    assert fb == b.kind + ['('] + (inner_b + ")");
    PrefixBeforeChar(a.kind, inner_a + ")", b.kind, inner_b + ")", '(');
    assert inner_a + ")" == inner_b + ")";
    assert inner_a == (inner_a + ")")[..|inner_a|];
    assert inner_b == (inner_b + ")")[..|inner_b|];
    assert inner_a == NameText(a) + [' '] + a.version;
    assert inner_b == NameText(b) + [' '] + b.version;
    PrefixBeforeChar(NameText(a), a.version, NameText(b), b.version, ' ');
  }

  /** Two strings glued by the first occurrence of a character that neither
      left part holds: equal results have equal parts. */
  lemma PrefixBeforeChar(x1: string, y1: string, x2: string, y2: string, c: char)
    requires c !in x1 && c !in x2
    requires x1 + [c] + y1 == x2 + [c] + y2
    ensures x1 == x2 && y1 == y2
  {
    var s := x1 + [c] + y1;
    var t := x2 + [c] + y2;
    assert s[|x1|] == c && t[|x2|] == c;
    assert forall i :: 0 <= i < |x1| ==> s[i] == x1[i];
    assert forall i :: 0 <= i < |x2| ==> t[i] == x2[i];
    assert |x1| == |x2|;
    assert x1 == s[..|x1|];
    assert x2 == s[..|x2|];
    assert y1 == s[|x1| + 1..];
    assert y2 == s[|x2| + 1..];
  }
}
