/** The pure string and integer helpers of the utilities module:
    padded `split`/`rsplit`, `get_last`, `sanitize_file_name` and
    `to_human_size`. */
module Utils {
  import opened Outcomes
  import opened Seqs
  import opened Text
  import opened Numbers

  /** The `maxsplit` handed to `str.split`: none given means no limit. */
  function Limit(numResults: Option<int>): int {
    match numResults
    case None => -1
    case Some(n) => n
  }

  /** `split(what, separator, num_results)`: `str.split`, padded with `''`
      up to `num_results + 1` elements; an empty separator raises. */
  function Split(what: string, separator: string, numResults: Option<int>): (r: Result<seq<string>>)
    ensures r.Err? <==> separator == ""
    ensures r.Ok? && numResults.Some? && numResults.value >= 0 ==> |r.value| == numResults.value + 1
    ensures r.Ok? ==>
      var pieces := SplitMax(what, separator, Limit(numResults));
      |pieces| <= |r.value| && r.value[..|pieces|] == pieces &&
      (forall i :: |pieces| <= i < |r.value| ==> r.value[i] == "")
    ensures r.Ok? && numResults.None? ==> r.value == SplitMax(what, separator, -1)
  {
    if separator == "" then Err(ValueError)
    else
      var res := SplitMax(what, separator, Limit(numResults));
      match numResults
      case None => Ok(res)
      case Some(n) => Ok(Pad(res, "", n - |res| + 1))
  }

  /** `rsplit(what, separator, num_results)`: `str.rsplit`, padded at the end
      with `''` up to `num_results + 1` elements; an empty separator raises. */
  function RSplit(what: string, separator: string, numResults: Option<int>): (r: Result<seq<string>>)
    ensures r.Err? <==> separator == ""
    ensures r.Ok? && numResults.Some? && numResults.value >= 0 ==> |r.value| == numResults.value + 1
    ensures r.Ok? ==>
      var pieces := RSplitMax(what, separator, Limit(numResults));
      |pieces| <= |r.value| && r.value[..|pieces|] == pieces &&
      (forall i :: |pieces| <= i < |r.value| ==> r.value[i] == "")
    ensures r.Ok? && numResults.None? ==> r.value == RSplitMax(what, separator, -1)
  {
    if separator == "" then Err(ValueError)
    else
      var res := RSplitMax(what, separator, Limit(numResults));
      match numResults
      case None => Ok(res)
      case Some(n) => Ok(Pad(res, "", n - |res| + 1))
  }

  /** With a limit `n >= 0`, `split` yields exactly `n + 1` elements: real
      pieces that join back to the input, none of them but the last holding the
      separator, followed by `''` padding. */
  lemma SplitShape(what: string, separator: string, n: nat)
    requires separator != ""
    ensures var r := Split(what, separator, Some(n)).value;
      |r| == n + 1 &&
      exists k :: 1 <= k <= n + 1 &&
        Join(r[..k], separator) == what &&
        (forall i :: 0 <= i < k - 1 ==> !Contains(r[i], separator)) &&
        (forall i :: k <= i <= n ==> r[i] == "")
  {
    var r := Split(what, separator, Some(n)).value;
    var pieces := SplitMax(what, separator, n);
    assert r[..|pieces|] == pieces;
  }

  /** `rsplit` mirrors `split`: `n + 1` elements whose real pieces join back
      to the input, none but the first holding the separator. */
  lemma RSplitShape(what: string, separator: string, n: nat)
    requires separator != ""
    ensures var r := RSplit(what, separator, Some(n)).value;
      |r| == n + 1 &&
      exists k :: 1 <= k <= n + 1 &&
        Join(r[..k], separator) == what &&
        (forall i :: 0 < i < k ==> !Contains(r[i], separator)) &&
        (forall i :: k <= i <= n ==> r[i] == "")
  {
    var r := RSplit(what, separator, Some(n)).value;
    var pieces := RSplitMax(what, separator, n);
    assert r[..|pieces|] == pieces;
  }

  /** `get_last(what, num)`: `what[:num]` when `what` is long enough (a
      negative `num` drops elements from the end, as Python slicing does),
      otherwise a copy of `what` padded with `None` up to `num` elements. */
  function GetLast<T>(what: seq<T>, num: int): (r: seq<Option<T>>)
    ensures num >= 0 ==> |r| == num
    ensures num >= 0 ==> forall i :: 0 <= i < num ==>
      r[i] == if i < |what| then Some(what[i]) else None
    ensures num < 0 ==> |r| == (if |what| + num > 0 then |what| + num else 0)
    ensures num < 0 ==> forall i :: 0 <= i < |r| ==> r[i] == Some(what[i])
  {
    var lifted := seq(|what|, i requires 0 <= i < |what| => Some(what[i]));
    if |what| >= num then
      lifted[..if num >= 0 then num else if |what| + num > 0 then |what| + num else 0]
    else Pad(lifted, None, num - |what|)
  }

  /** The characters `sanitize_file_name` keeps: `-_.() `, ASCII letters and digits. */
  predicate IsValidFileChar(c: char) {
    || c == '-' || c == '_' || c == '.' || c == '(' || c == ')' || c == ' '
    || 'a' <= c <= 'z' || 'A' <= c <= 'Z' || '0' <= c <= '9'
  }

  /** `sanitize_file_name(file_name, replacement)`: every character outside
      the valid set is replaced by the replacement string. */
  function SanitizeFileName(fileName: string, replacement: string): (r: string)
    ensures |replacement| == 1 ==> |r| == |fileName|
    ensures |replacement| == 1 ==> forall i :: 0 <= i < |fileName| ==>
      r[i] == if IsValidFileChar(fileName[i]) then fileName[i] else replacement[0]
    ensures (forall c :: c in replacement ==> IsValidFileChar(c)) ==>
      forall c :: c in r ==> IsValidFileChar(c)
  {
    if |fileName| == 0 then ""
    else
      var head := if IsValidFileChar(fileName[0]) then [fileName[0]] else replacement;
      var r := head + SanitizeFileName(fileName[1..], replacement);
      assert |replacement| == 1 ==> forall i :: 1 <= i < |fileName| ==> r[i] == SanitizeFileName(fileName[1..], replacement)[i - 1];
      r
  }

  /** Sanitizing twice is sanitizing once, whenever the replacement is itself
      made of valid characters. */
  lemma {:induction false} SanitizeIdempotent(fileName: string, replacement: string)
    requires forall c :: c in replacement ==> IsValidFileChar(c)
    ensures SanitizeFileName(SanitizeFileName(fileName, replacement), replacement)
         == SanitizeFileName(fileName, replacement)
  {
    SanitizeValidIsIdentity(SanitizeFileName(fileName, replacement), replacement);
  }

  lemma {:induction false} SanitizeValidIsIdentity(s: string, replacement: string)
    requires forall c :: c in s ==> IsValidFileChar(c)
    ensures SanitizeFileName(s, replacement) == s
  {
    if |s| > 0 {
      assert s[0] in s;
      assert forall c :: c in s[1..] ==> c in s;
      SanitizeValidIsIdentity(s[1..], replacement);
      assert s == [s[0]] + s[1..];
    }
  }

  lemma SanitizeExample(s: string, c: char, expected: string)
    requires |expected| == |s|
    requires forall i :: 0 <= i < |s| ==>
      expected[i] == if IsValidFileChar(s[i]) then s[i] else c
    ensures SanitizeFileName(s, [c]) == expected
  {
  }

  /** The two examples of the function's documentation. */
  lemma SanitizeExamples()
    ensures SanitizeFileName("I'm an /ugly%#@!", "_") == "I_m an _ugly____"
    ensures SanitizeFileName("I'm an /ugly%#@!", "-") == "I-m an -ugly----"
  {
    var s := "I'm an /ugly%#@!";
    SanitizeExample(s, '_', "I_m an _ugly____");
    SanitizeExample(s, '-', "I-m an -ugly----");
  }

  /** `to_human_size(fsize)`: whole mebibytes, else whole kibibytes, else
      bytes, using Python 2's flooring integer division. */
  function ToHumanSize(fsize: int): string {
    var mb := fsize / 1048576;
    if mb >= 1 then IntToStr(mb) + "M"
    else
      var kb := fsize / 1024;
      if kb >= 1 then IntToStr(kb) + "K"
      else IntToStr(fsize) + "B"
  }

  lemma SuffixedReadsBack(q: int, unit: char)
    ensures var r := IntToStr(q) + [unit];
      |r| >= 2 && r[|r| - 1] == unit && ParseInt(r[..|r| - 1]) == Some(q)
  {
    ParseIntOfIntToStr(q);
    var r := IntToStr(q) + [unit];
    assert r[..|r| - 1] == IntToStr(q);
  }

  lemma QuotientAtLeastOne(x: int, d: int)
    requires d > 0
    ensures x / d >= 1 <==> x >= d
  {
    if x >= d {
      assert x == d * (x / d) + x % d;
    }
  }

  /** Reading `to_human_size` back: the unit letter is chosen by the size
      range, and the number before it parses to the size in that unit. */
  lemma ToHumanSizeReadsBack(fsize: int)
    ensures var r := ToHumanSize(fsize);
      |r| >= 2 &&
      r[|r| - 1] == (if fsize >= 1048576 then 'M' else if fsize >= 1024 then 'K' else 'B') &&
      ParseInt(r[..|r| - 1]) ==
        Some(if fsize >= 1048576 then fsize / 1048576 else if fsize >= 1024 then fsize / 1024 else fsize)
  {
    QuotientAtLeastOne(fsize, 1048576);
    QuotientAtLeastOne(fsize, 1024);
    if fsize >= 1048576 {
      assert ToHumanSize(fsize) == IntToStr(fsize / 1048576) + ['M'];
      SuffixedReadsBack(fsize / 1048576, 'M');
    } else if fsize >= 1024 {
      assert ToHumanSize(fsize) == IntToStr(fsize / 1024) + ['K'];
      SuffixedReadsBack(fsize / 1024, 'K');
    } else {
      assert ToHumanSize(fsize) == IntToStr(fsize) + ['B'];
      SuffixedReadsBack(fsize, 'B');
    }
  }
}
