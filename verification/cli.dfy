/** The command-line layer: the `-o section.name=value` option parser, the
    repository directory, the signing-key decisions, the `add` and
    `remove-old` commands and the dispatch of `main`. The configuration
    and the repository are not modelled themselves: the commands return the
    trace of calls they make on them, and console input is a parameter. */
module Cli {
  import opened Outcomes
  import opened Text

  /** A call made on the configuration or on the repository. */
  datatype Call =
    | AddToSection(section: string, option: string, value: string)  // `config.add_to_section`
    | SetOption(key: string, value: string)                          // `config.set`
    | AddSource(source: string)                                      // `repo.add_source`
    | DeleteOld(keep: int, noop: bool)                               // `repo.delete_old`
    | Save                                                           // `repo.save`

  // ------------------------------------------------------------- options

  /** One parsed `-o` option. */
  datatype Setting = Setting(section: string, option: string, value: string)

  /** The option string that parses to a setting. */
  function Render(st: Setting): string {
    st.section + "." + st.option + "=" + st.value
  }

  /** A setting that some option string parses to: no `=` anywhere and no
      `.` in the option name (the section may hold dots). */
  predicate Parsable(st: Setting) {
    '=' !in st.section && '=' !in st.option && '=' !in st.value && '.' !in st.option
  }

  /** The option string holds `=` twice or more. */
  predicate TwoSeparators(s: string) {
    exists i, j :: 0 <= i < j < |s| && s[i] == '=' && s[j] == '='
  }

  /** The option string is `k=v` with no other `=`. */
  predicate OneSeparator(s: string, k: string, v: string) {
    s == k + "=" + v && '=' !in k && '=' !in v
  }

  /** One `-o` option of `handle_custom_options`: no `=` is refused, more
      than one `=` fails the two-way unpacking, a name without `.` is
      refused, and otherwise the section is the name up to its last `.`. */
  function ParseOption(optVal: string): (r: Result<Setting>)
    ensures '=' !in optVal ==> r == Err(InvalidOption(optVal))
    ensures r.Err? ==> r.error == InvalidOption(optVal) || r.error == ValueError
    ensures r.Ok? ==> Parsable(r.value) && Render(r.value) == optVal
  {
    if '=' !in optVal then Err(InvalidOption(optVal))
    else
      var pieces := SplitMax(optVal, "=", -1);
      if |pieces| != 2 then Err(ValueError)
      else
        var key, value := pieces[0], pieces[1];
        TwoPieces(optVal);
        if '.' !in key then Err(InvalidOption(optVal))
        else
          var parts := RSplitMax(key, ".", 1);
          ContainsChar(key, '.');
          ContainsChar(parts[|parts| - 1], '.');
          assert |parts| == 2;
          assert key == parts[0] + "." + parts[1];
          assert '=' !in parts[0] && '=' !in parts[1] by {
            assert forall t :: 0 <= t < |parts[0]| ==> parts[0][t] == key[t];
            assert forall t :: 0 <= t < |parts[1]| ==> parts[1][t] == key[|parts[0]| + 1 + t];
          }
          Ok(Setting(parts[0], parts[1], value))
  }

  /** No piece of an unlimited split at `=` holds `=`. */
  lemma PiecesHaveNoSeparator(s: string)
    ensures forall k :: 0 <= k < |SplitMax(s, "=", -1)| ==> '=' !in SplitMax(s, "=", -1)[k]
  {
    var pieces := SplitMax(s, "=", -1);
    forall k | 0 <= k < |pieces| ensures '=' !in pieces[k] {
      ContainsChar(pieces[k], '=');
    }
  }

  /** An unlimited split at `=` that gives two pieces found exactly one `=`. */
  lemma TwoPieces(s: string)
    requires |SplitMax(s, "=", -1)| == 2
    ensures OneSeparator(s, SplitMax(s, "=", -1)[0], SplitMax(s, "=", -1)[1])
  {
    var pieces := SplitMax(s, "=", -1);
    PiecesHaveNoSeparator(s);
    assert pieces[1..] == [pieces[1]];
  }

  /** `k=v` with no other `=` splits into `k` and `v`. */
  lemma OneSeparatorSplits(s: string, k: string, v: string)
    requires OneSeparator(s, k, v)
    ensures SplitMax(s, "=", -1) == [k, v]
  {
    assert [k, v][1..] == [v];
    assert Join([k, v], "=") == s;
    SplitOfJoin([k, v], '=', -1);
  }

  /** A string with exactly one `=` does not hold two. */
  lemma OneSeparatorIsNotTwo(s: string, k: string, v: string)
    requires OneSeparator(s, k, v)
    ensures !TwoSeparators(s)
  {
    assert forall t :: 0 <= t < |k| ==> s[t] == k[t];
    assert forall t :: |k| < t < |s| ==> s[t] == v[t - |k| - 1];
  }

  /** An option with two or more `=` fails the unpacking. */
  lemma ParseOptionRejectsTwoSeparators(optVal: string)
    requires TwoSeparators(optVal)
    ensures ParseOption(optVal) == Err(ValueError)
  {
    var i, j :| 0 <= i < j < |optVal| && optVal[i] == '=' && optVal[j] == '=';
    assert '=' in optVal;
    var pieces := SplitMax(optVal, "=", -1);
    if |pieces| == 2 {
      TwoPieces(optVal);
      OneSeparatorIsNotTwo(optVal, pieces[0], pieces[1]);
    }
  }

  /** An option with exactly one `=` is refused when its name has no `.`
      and accepted when it has one. */
  lemma ParseOptionOfOneSeparator(optVal: string, k: string, v: string)
    requires OneSeparator(optVal, k, v)
    ensures '.' !in k <==> ParseOption(optVal) == Err(InvalidOption(optVal))
    ensures '.' in k <==> ParseOption(optVal).Ok?
  {
    assert optVal[|k|] == '=';
    OneSeparatorSplits(optVal, k, v);
  }

  /** Splitting once from the right at a character the tail does not hold. */
  lemma RSplitAtLastChar(a: string, c: char, b: string)
    requires c !in b
    ensures RSplitMax(a + [c] + b, [c], 1) == [a, b]
  {
    var s := a + [c] + b;
    assert OccursAt(s, [c], |a|);
    var i := RFind(s, [c]);
    assert s[i..i + 1][0] == s[i];
    assert forall t :: |a| < t < |s| ==> s[t] == b[t - |a| - 1];
    assert i == |a|;
    assert s[..i] == a && s[i + 1..] == b;
    assert RSplitMax(a, [c], 0) == [a];
  }

  /** Every parsable setting, written out as an option, parses back to
      itself. */
  lemma ParseOptionOfRender(st: Setting)
    requires Parsable(st)
    ensures ParseOption(Render(st)) == Ok(st)
  {
    var key := st.section + "." + st.option;
    var s := Render(st);
    assert s == key + "=" + st.value;
    assert '=' !in key by {
      assert forall t :: 0 <= t < |key| ==> key[t] == '.' || key[t] in st.section || key[t] in st.option by {
        forall t | 0 <= t < |key| ensures key[t] == '.' || key[t] in st.section || key[t] in st.option {
          if t < |st.section| {
            assert key[t] == st.section[t];
          } else if t > |st.section| {
            assert key[t] == st.option[t - |st.section| - 1];
          }
        }
      }
    }
    assert '.' in key by {
      assert key[|st.section|] == '.';
    }
    assert key == st.section + ['.'] + st.option;
    RSplitAtLastChar(st.section, '.', st.option);
    OneSeparatorSplits(s, key, st.value);
  }

  /** What `handle_custom_options` did: the calls made on the
      configuration, and the exception that stopped it, if any. */
  datatype Applied = Applied(calls: seq<Call>, failure: Option<Error>)

  function ToCall(st: Setting): Call {
    AddToSection(st.section, st.option, st.value)
  }

  /** The calls for a list of parse results: one per result up to the first
      exception, which is returned alongside. */
  function ApplyParsed(parsed: seq<Result<Setting>>): (r: Applied)
    ensures |r.calls| <= |parsed|
    ensures forall i :: 0 <= i < |r.calls| ==> parsed[i].Ok? && r.calls[i] == ToCall(parsed[i].value)
    ensures r.failure.None? <==> |r.calls| == |parsed|
    ensures r.failure.Some? ==> parsed[|r.calls|] == Err(r.failure.value)
  {
    if |parsed| == 0 then Applied([], None)
    else
      match parsed[0]
      case Err(e) => Applied([], Some(e))
      case Ok(st) =>
        var rest := ApplyParsed(parsed[1..]);
        var calls := [ToCall(st)] + rest.calls;
        assert forall i :: 1 <= i < |calls| ==> calls[i] == rest.calls[i - 1] && parsed[i] == parsed[1..][i - 1];
        Applied(calls, rest.failure)
  }

  /** `handle_custom_options`: the options are parsed and applied in
      order, and the first bad one stops the loop with its exception (the
      earlier ones stay applied). */
  function HandleCustomOptions(options: seq<string>): (r: Applied)
    ensures |r.calls| <= |options|
    ensures forall i :: 0 <= i < |r.calls| ==>
      ParseOption(options[i]).Ok? && r.calls[i] == ToCall(ParseOption(options[i]).value)
    ensures r.failure.None? <==> |r.calls| == |options|
    ensures r.failure.Some? ==> ParseOption(options[|r.calls|]) == Err(r.failure.value)
  {
    ApplyParsed(ParseAll(options))
  }

  /** Every option parsed on its own. */
  function ParseAll(options: seq<string>): (r: seq<Result<Setting>>)
    ensures |r| == |options|
    ensures forall i :: 0 <= i < |options| ==> r[i] == ParseOption(options[i])
  {
    seq(|options|, i requires 0 <= i < |options| => ParseOption(options[i]))
  }

  /** Options written out from parsable settings are all applied, in order,
      with no exception. */
  lemma {:induction false} RenderedOptionsApply(settings: seq<Setting>)
    requires forall i :: 0 <= i < |settings| ==> Parsable(settings[i])
    ensures HandleCustomOptions(seq(|settings|, i requires 0 <= i < |settings| => Render(settings[i])))
         == Applied(seq(|settings|, i requires 0 <= i < |settings| => ToCall(settings[i])), None)
  {
    var options := seq(|settings|, i requires 0 <= i < |settings| => Render(settings[i]));
    var r := HandleCustomOptions(options);
    forall i | 0 <= i < |settings| ensures ParseOption(options[i]) == Ok(settings[i]) {
      ParseOptionOfRender(settings[i]);
    }
  }

  // ---------------------------------------------------------- repository

  /** `get_repo`: the repository path is the directory with one trailing
      `/` removed. */
  function RepoPath(dir: string): (r: string)
    ensures |dir| > 0 && dir[|dir| - 1] == '/' ==> r + "/" == dir
    ensures !(|dir| > 0 && dir[|dir| - 1] == '/') ==> r == dir
  {
    if |dir| > 0 && dir[|dir| - 1] == '/' then dir[..|dir| - 1] else dir
  }

  /** Exactly one slash goes: a directory given with a trailing slash
      comes back without it, even when more slashes precede it. */
  lemma RepoPathStripsOne(dir: string)
    ensures RepoPath(dir + "/") == dir
    ensures RepoPath(dir + "//") == dir + "/"
  {
    assert (dir + "/")[..|dir|] == dir;
    assert (dir + "//")[..|dir| + 1] == dir + "/";
  }

  // ------------------------------------------------------------- signing

  /** Python truthiness of an optional configuration value. */
  predicate Truthy(v: Option<string>) {
    v.Some? && v.value != ""
  }

  /** `has_to_handle_signing_key`: a key with the `ask` passphrase, or the
      `sign-rpms` command. `key` is `config.get('signing_key', '')`. */
  predicate HasToHandleSigningKey(key: string, passphrase: Option<string>, action: string) {
    (key != "" && passphrase == Some("ask")) || action == "sign-rpms"
  }

  /** The second condition of `set_signing_key`: the passphrase is asked
      for when there is a key but no passphrase, or when the passphrase is
      `ask` (the `and` binds tighter than the `or`). */
  predicate AsksPassphrase(key: string, passphrase: Option<string>) {
    (key != "" && !Truthy(passphrase)) || passphrase == Some("ask")
  }

  /** The signing settings after `set_signing_key`, with the calls made. */
  datatype Signing = Signing(key: string, passphrase: Option<string>, calls: seq<Call>)

  /** `set_signing_key`: ask for the key when there is none, then for the
      passphrase when `AsksPassphrase` holds of the resulting key. What the
      user types is a parameter; a setting reads back as last set. */
  function SetSigningKey(key: string, passphrase: Option<string>, typedKey: string, typedPassphrase: string): (r: Signing)
    ensures key != "" ==> r.key == key
    ensures key == "" ==> r.key == typedKey && |r.calls| >= 1 && r.calls[0] == SetOption("signing_key", typedKey)
    ensures AsksPassphrase(r.key, passphrase) <==> r.passphrase != passphrase || SetOption("signing_passphrase", typedPassphrase) in r.calls
    ensures AsksPassphrase(r.key, passphrase) ==> r.passphrase == Some(typedPassphrase)
    ensures !AsksPassphrase(r.key, passphrase) ==> r.passphrase == passphrase
    ensures forall c :: c in r.calls ==> c.SetOption?
  {
    var k := if key == "" then typedKey else key;
    var kcalls := if key == "" then [SetOption("signing_key", typedKey)] else [];
    if AsksPassphrase(k, passphrase) then
      Signing(k, Some(typedPassphrase), kcalls + [SetOption("signing_passphrase", typedPassphrase)])
    else
      Signing(k, passphrase, kcalls)
  }

  /** After `set_signing_key` the passphrase is `ask` only if `ask` was
      typed, and a key is left without a passphrase only if an empty one
      was typed. */
  lemma SetSigningKeySettles(key: string, passphrase: Option<string>, typedKey: string, typedPassphrase: string)
    ensures var r := SetSigningKey(key, passphrase, typedKey, typedPassphrase);
      (r.passphrase == Some("ask") ==> typedPassphrase == "ask") &&
      (r.key != "" && !Truthy(r.passphrase) ==> typedPassphrase == "")
  {
  }

  /** When a configured key has the `ask` passphrase, `get_config` calls
      `set_signing_key`, which keeps the key and asks for the passphrase. */
  lemma AskingKeyIsHandled(key: string, action: string, typedKey: string, typedPassphrase: string)
    requires key != ""
    ensures HasToHandleSigningKey(key, Some("ask"), action)
    ensures SetSigningKey(key, Some("ask"), typedKey, typedPassphrase)
         == Signing(key, Some(typedPassphrase), [SetOption("signing_passphrase", typedPassphrase)])
  {
  }

  /** The `ask` passphrase is asked for even when no key was typed: the
      condition's `or` is not guarded by the key. */
  lemma AskWithoutKeyStillAsks(typedPassphrase: string)
    ensures SetSigningKey("", Some("ask"), "", typedPassphrase).key == ""
    ensures SetSigningKey("", Some("ask"), "", typedPassphrase).passphrase == Some(typedPassphrase)
  {
  }

  /** The signing step of `get_config`: `set_signing_key` runs only when
      `has_to_handle_signing_key` holds. `key` and `passphrase` are the
      settings after the `--key` override. Prompts happen exactly for a
      key with the `ask` passphrase, or under `sign-rpms` when the key is
      missing or its passphrase is. */
  function HandleSigning(key: string, passphrase: Option<string>, action: string, typedKey: string, typedPassphrase: string): (r: Signing)
    ensures r.calls != [] <==>
      (key != "" && passphrase == Some("ask")) ||
      (action == "sign-rpms" && (key == "" || AsksPassphrase(key, passphrase)))
    ensures key != "" ==> r.key == key
    ensures action != "sign-rpms" && key == "" ==> r == Signing(key, passphrase, [])
    ensures key != "" && r.passphrase == Some("ask") ==> typedPassphrase == "ask"
    ensures action == "sign-rpms" && typedKey != "" && typedPassphrase != "" ==> r.key != "" && Truthy(r.passphrase)
  {
    if HasToHandleSigningKey(key, passphrase, action) then
      SetSigningKey(key, passphrase, typedKey, typedPassphrase)
    else
      Signing(key, passphrase, [])
  }

  /** The signing part of `get_config`: a `--key` given on the command line
      (`argKey`, empty when absent) replaces the configured key and sets
      the `--passphrase` argument, whose default is `ask`; then the signing
      step runs. */
  function GetConfigSigning(key: string, passphrase: Option<string>, argKey: string, argPassphrase: string,
                            action: string, typedKey: string, typedPassphrase: string): (r: Signing)
    ensures argKey == "" ==> r == HandleSigning(key, passphrase, action, typedKey, typedPassphrase)
    ensures argKey != "" ==> r.key == argKey
    ensures argKey != "" ==>
      |r.calls| >= 2 && r.calls[..2] == [SetOption("signing_key", argKey), SetOption("signing_passphrase", argPassphrase)]
    ensures argKey != "" && argPassphrase == "ask" ==>
      r.passphrase == Some(typedPassphrase) &&
      r.calls == [SetOption("signing_key", argKey), SetOption("signing_passphrase", "ask"),
                  SetOption("signing_passphrase", typedPassphrase)]
    ensures argKey != "" && argPassphrase != "" && argPassphrase != "ask" && action != "sign-rpms" ==>
      r == Signing(argKey, Some(argPassphrase), [SetOption("signing_key", argKey), SetOption("signing_passphrase", argPassphrase)])
  {
    if argKey != "" then
      var overridden := [SetOption("signing_key", argKey), SetOption("signing_passphrase", argPassphrase)];
      var handled := HandleSigning(argKey, Some(argPassphrase), action, typedKey, typedPassphrase);
      Signing(handled.key, handled.passphrase, overridden + handled.calls)
    else
      HandleSigning(key, passphrase, action, typedKey, typedPassphrase)
  }

  /** `has_to_handle_signing_key` fires on the `ask` passphrase only when a
      key is set, but `set_signing_key` also prompts for a key without a
      passphrase; outside `sign-rpms` such a key is left as it is. */
  lemma KeyWithoutPassphraseNotPrompted(key: string, action: string, typedKey: string, typedPassphrase: string)
    requires key != "" && action != "sign-rpms"
    ensures AsksPassphrase(key, None) && !HasToHandleSigningKey(key, None, action)
    ensures HandleSigning(key, None, action, typedKey, typedPassphrase) == Signing(key, None, [])
  {
  }

  // ------------------------------------------------------------- commands

  /** What a command did: its calls and its return value (`None` is
      Python's `None`). */
  datatype Outcome = Outcome(calls: seq<Call>, ret: Option<int>)

  /** `sys.exit(code)`: `None` exits with 0. */
  function ExitStatus(ret: Option<int>): int {
    match ret
    case None => 0
    case Some(c) => c
  }

  /** The `add_source` calls for the given sources, stripped, in order. */
  function AddSources(sources: seq<string>): (r: seq<Call>)
    ensures |r| == |sources|
    ensures forall i :: 0 <= i < |r| ==> r[i] == AddSource(Strip(sources[i]))
  {
    seq(|sources|, i requires 0 <= i < |sources| => AddSource(Strip(sources[i])))
  }

  /** Every `delete_old` call directly follows a `save`. */
  predicate SavedBeforeDelete(calls: seq<Call>) {
    forall i :: 0 <= i < |calls| && calls[i].DeleteOld? ==> 0 < i && calls[i - 1] == Save
  }

  /** `do_add`: a negative `--keep-latest` is refused before anything is
      added; otherwise every source is added, the old versions are removed
      when `--keep-latest` is positive (after a save, so that the new files
      are in place), and the repository is saved. */
  function DoAdd(keepLatest: int, sources: seq<string>, noop: bool): (r: Outcome)
    ensures r.ret == Some(1) <==> keepLatest < 0
    ensures r.ret == Some(1) ==> r.calls == []
    ensures keepLatest >= 0 ==> r.ret == Some(0)
    ensures keepLatest >= 0 ==> |r.calls| > |sources| && r.calls[..|sources|] == AddSources(sources)
    ensures keepLatest >= 0 ==> r.calls[|r.calls| - 1] == Save
    ensures keepLatest >= 0 ==> |r.calls| == |sources| + (if keepLatest > 0 then 3 else 1)
    ensures (exists c :: c in r.calls && c.DeleteOld?) <==> keepLatest > 0
    ensures forall c :: c in r.calls && c.DeleteOld? ==> c == DeleteOld(keepLatest, noop)
    ensures SavedBeforeDelete(r.calls)
  {
    if keepLatest < 0 then Outcome([], Some(1))
    else
      var adds := AddSources(sources);
      var tail := AddTail(keepLatest, noop);
      AppendTail(adds, tail);
      Outcome(adds + tail, Some(0))
  }

  /** The calls of `do_add` after the sources are added: a save, then for
      a positive count the removal of old versions and a second save. */
  function AddTail(keepLatest: nat, noop: bool): (t: seq<Call>)
    ensures |t| == (if keepLatest > 0 then 3 else 1)
    ensures t[0] == Save && t[|t| - 1] == Save
    ensures (exists c :: c in t && c.DeleteOld?) <==> keepLatest > 0
    ensures forall c :: c in t && c.DeleteOld? ==> c == DeleteOld(keepLatest, noop)
    ensures SavedBeforeDelete(t)
  {
    if keepLatest > 0 then
      var t := [Save, DeleteOld(keepLatest, noop), Save];
      assert t[1] in t;
      t
    else [Save]
  }

  /** Appending calls that start with a save after `add_source` calls keeps
      every removal right after a save, and adds no removal. */
  lemma AppendTail(adds: seq<Call>, tail: seq<Call>)
    requires forall c :: c in adds ==> c.AddSource?
    requires |tail| >= 1 && tail[0] == Save && SavedBeforeDelete(tail)
    ensures (adds + tail)[..|adds|] == adds
    ensures (adds + tail)[|adds + tail| - 1] == tail[|tail| - 1]
    ensures forall c :: c in adds + tail && c.DeleteOld? ==> c in tail
    ensures (exists c :: c in adds + tail && c.DeleteOld?) <==> (exists c :: c in tail && c.DeleteOld?)
    ensures SavedBeforeDelete(adds + tail)
  {
    var calls := adds + tail;
    forall j | 0 <= j < |adds| ensures !calls[j].DeleteOld? {
      assert calls[j] == adds[j] && adds[j] in adds;
    }
    forall i | 0 <= i < |calls| && calls[i].DeleteOld?
      ensures 0 < i && calls[i - 1] == Save
    {
      assert i >= |adds|;
      assert calls[i] == tail[i - |adds|];
    }
  }

  /** `noop` changes nothing in `do_add` but the flag passed on to
      `delete_old`: the same sources are added and the same saves made. */
  lemma DoAddNoopOnlyReachesDeleteOld(keepLatest: int, sources: seq<string>)
    ensures var dry, live := DoAdd(keepLatest, sources, true), DoAdd(keepLatest, sources, false);
      dry.ret == live.ret && |dry.calls| == |live.calls| &&
      forall i :: 0 <= i < |dry.calls| ==>
        (dry.calls[i] == live.calls[i] ||
         (dry.calls[i] == DeleteOld(keepLatest, true) && live.calls[i] == DeleteOld(keepLatest, false)))
  {
    var dry, live := DoAdd(keepLatest, sources, true), DoAdd(keepLatest, sources, false);
    if keepLatest >= 0 {
      var n := |sources|;
      assert dry.calls[..n] == live.calls[..n];
      forall i | 0 <= i < |dry.calls|
        ensures dry.calls[i] == live.calls[i] ||
          (dry.calls[i] == DeleteOld(keepLatest, true) && live.calls[i] == DeleteOld(keepLatest, false))
      {
        if i < n {
          assert dry.calls[i] == dry.calls[..n][i];
          assert live.calls[i] == live.calls[..n][i];
        }
      }
    }
  }

  /** `do_remove_old`: a `--keep` below one is refused with 1 and nothing
      done; otherwise the old versions are removed, the repository saved,
      and the function returns `None`. */
  function DoRemoveOld(keep: int, noop: bool): (r: Outcome)
    ensures keep <= 0 <==> r.ret == Some(1)
    ensures keep <= 0 ==> r.calls == []
    ensures keep > 0 ==> r.ret == None && ExitStatus(r.ret) == 0
    ensures keep > 0 ==> |r.calls| == 2 && r.calls[0] == DeleteOld(keep, noop) && r.calls[1] == Save
  {
    if keep <= 0 then Outcome([], Some(1))
    else Outcome([DeleteOld(keep, noop), Save], None)
  }

  /** `do_generate_src`: turn the sources tree on and save. */
  function DoGenerateSrc(): (r: Outcome)
    ensures r.ret == Some(0) && r.calls == [SetOption("with_sources", "true"), Save]
  {
    Outcome([SetOption("with_sources", "true"), Save], Some(0))
  }

  /** The parsed command line, as far as the dispatch reads it. */
  datatype Args = Args(action: string, keepLatest: int, keep: int, sources: seq<string>, noop: bool)

  /** The commands `main` runs; any other command exits with 0. */
  predicate Dispatched(action: string) {
    action == "add" || action == "generate-src" || action == "remove-old"
  }

  /** `main` after the configuration and repository are built: run the
      command and exit with its return value. */
  function Dispatch(args: Args): (r: (seq<Call>, int))
    ensures !Dispatched(args.action) ==> r == ([], 0)
    ensures r.1 == 1 <==> (args.action == "add" && args.keepLatest < 0) || (args.action == "remove-old" && args.keep <= 0)
    ensures r.1 == 0 || r.1 == 1
    ensures r.1 == 1 ==> r.0 == []
  {
    var out :=
      if args.action == "add" then DoAdd(args.keepLatest, args.sources, args.noop)
      else if args.action == "generate-src" then DoGenerateSrc()
      else if args.action == "remove-old" then DoRemoveOld(args.keep, args.noop)
      else Outcome([], Some(0));
    (out.calls, ExitStatus(out.ret))
  }

  /** Old versions are removed exactly by `add` with a positive
      `--keep-latest` and by `remove-old` with a positive `--keep`, and a
      command that does anything ends by saving. */
  lemma DispatchDeletesOnlyWhenAsked(args: Args)
    ensures var (calls, _) := Dispatch(args);
      ((exists c :: c in calls && c.DeleteOld?) <==>
        (args.action == "add" && args.keepLatest > 0) || (args.action == "remove-old" && args.keep > 0)) &&
      (calls != [] ==> calls[|calls| - 1] == Save)
  {
    var (calls, _) := Dispatch(args);
    if args.action == "remove-old" && args.keep > 0 {
      assert calls[0] in calls;
    }
  }
}
