/** Python 2 byte-string operations: whitespace stripping, searching,
    `split`/`rsplit`/`join`, and the bytewise ordering of `str`. */
module Text {
  import opened Seqs

  /** `isspace` in the C locale: tab, newline, vertical tab, form feed,
      carriage return and space. */
  predicate IsSpace(c: char) {
    c == ' ' || 9 <= c as int <= 13
  }

  function StripLeft(s: string): (r: string)
    ensures |r| <= |s| && r == s[|s| - |r|..]
    ensures forall i :: 0 <= i < |s| - |r| ==> IsSpace(s[i])
    ensures r == [] || !IsSpace(r[0])
  {
    if |s| > 0 && IsSpace(s[0]) then StripLeft(s[1..]) else s
  }

  function StripRight(s: string): (r: string)
    ensures |r| <= |s| && r == s[..|r|]
    ensures forall i :: |r| <= i < |s| ==> IsSpace(s[i])
    ensures r == [] || !IsSpace(r[|r| - 1])
  {
    if |s| > 0 && IsSpace(s[|s| - 1]) then StripRight(s[..|s| - 1]) else s
  }

  /** `s.strip()`: the longest infix that neither starts nor ends with whitespace. */
  function Strip(s: string): (r: string)
    ensures |r| <= |s|
    ensures r == [] || (!IsSpace(r[0]) && !IsSpace(r[|r| - 1]))
  {
    StripRight(StripLeft(s))
  }

  /** `sep` occurs in `s` starting at index `i`. */
  predicate OccursAt(s: string, sep: string, i: int) {
    0 <= i && i + |sep| <= |s| && s[i..i + |sep|] == sep
  }

  /** `s.startswith(prefix)`. */
  predicate StartsWith(s: string, prefix: string) {
    |prefix| <= |s| && s[..|prefix|] == prefix
  }

  /** Python's `sep in s`. */
  predicate Contains(s: string, sep: string) {
    exists i :: 0 <= i <= |s| && OccursAt(s, sep, i)
  }

  function FindFrom(s: string, sep: string, from: nat): (r: int)
    requires from <= |s|
    decreases |s| - from
    ensures r == -1 || (from <= r && OccursAt(s, sep, r))
    ensures forall j :: from <= j && (r == -1 || j < r) ==> !OccursAt(s, sep, j)
  {
    if OccursAt(s, sep, from) then from
    else if from == |s| then -1
    else FindFrom(s, sep, from + 1)
  }

  /** `s.find(sep)`: the leftmost occurrence, or -1. */
  function Find(s: string, sep: string): (r: int)
    ensures r == -1 <==> !Contains(s, sep)
    ensures r != -1 ==> OccursAt(s, sep, r) && forall j :: 0 <= j < r ==> !OccursAt(s, sep, j)
  {
    FindFrom(s, sep, 0)
  }

  function RFindUpTo(s: string, sep: string, upto: int): (r: int)
    requires upto <= |s|
    decreases upto + 1
    ensures r == -1 || (0 <= r <= upto && OccursAt(s, sep, r))
    ensures forall j :: r < j <= upto ==> !OccursAt(s, sep, j)
  {
    if upto < 0 then -1
    else if OccursAt(s, sep, upto) then upto
    else RFindUpTo(s, sep, upto - 1)
  }

  /** `s.rfind(sep)`: the rightmost occurrence, or -1. */
  function RFind(s: string, sep: string): (r: int)
    ensures r == -1 <==> !Contains(s, sep)
    ensures r != -1 ==> OccursAt(s, sep, r) && forall j :: r < j ==> !OccursAt(s, sep, j)
  {
    RFindUpTo(s, sep, |s|)
  }

  /** `sep.join(parts)`. */
  function Join(parts: seq<string>, sep: string): string {
    if |parts| == 0 then ""
    else if |parts| == 1 then parts[0]
    else parts[0] + sep + Join(parts[1..], sep)
  }

  lemma {:induction false} JoinSnoc(parts: seq<string>, last: string, sep: string)
    requires |parts| >= 1
    ensures Join(parts + [last], sep) == Join(parts, sep) + sep + last
  {
    if |parts| == 1 {
      assert (parts + [last])[1..] == [last];
    } else {
      assert (parts + [last])[1..] == parts[1..] + [last];
      JoinSnoc(parts[1..], last, sep);
    }
  }

  /** Joining a first piece in front of at least one more. */
  lemma JoinCons(first: string, rest: seq<string>, sep: string)
    requires |rest| >= 1
    ensures Join([first] + rest, sep) == first + sep + Join(rest, sep)
  {
    assert ([first] + rest)[1..] == rest;
  }

  lemma NoOccurrenceBefore(s: string, sep: string, i: int)
    requires 0 <= i <= |s| && sep != ""
    requires forall j :: 0 <= j < i ==> !OccursAt(s, sep, j)
    ensures !Contains(s[..i], sep)
  {
    forall j | OccursAt(s[..i], sep, j) ensures false {
      assert s[..i][j..j + |sep|] == s[j..j + |sep|];
      assert OccursAt(s, sep, j);
    }
  }

  lemma NoOccurrenceAfter(s: string, sep: string, i: int)
    requires 0 <= i <= |s|
    requires forall j :: i <= j ==> !OccursAt(s, sep, j)
    ensures !Contains(s[i..], sep)
  {
    forall j | OccursAt(s[i..], sep, j) ensures false {
      assert s[i..][j..j + |sep|] == s[i + j..i + j + |sep|];
      assert OccursAt(s, sep, i + j);
    }
  }

  lemma SplitAround(s: string, sep: string, i: int)
    requires OccursAt(s, sep, i)
    ensures s == s[..i] + sep + s[i + |sep|..]
  {
    assert s == s[..i] + s[i..i + |sep|] + s[i + |sep|..];
  }

  /** The piece followed by the separator holds the separator first at its
      end: a cut after `piece` was made at the leftmost occurrence. */
  predicate CutLeftmost(piece: string, sep: string) {
    Find(piece + sep, sep) == |piece|
  }

  /** The separator followed by the piece holds the separator last at its
      start: a cut before `piece` was made at the rightmost occurrence. */
  predicate CutRightmost(piece: string, sep: string) {
    RFind(sep + piece, sep) == 0
  }

  /** The text before the first occurrence of the separator was cut at the
      leftmost occurrence. */
  lemma FirstCutIsLeftmost(s: string, sep: string, i: int)
    requires OccursAt(s, sep, i) && forall j :: 0 <= j < i ==> !OccursAt(s, sep, j)
    ensures CutLeftmost(s[..i], sep)
  {
    var t := s[..i] + sep;
    assert t == s[..i + |sep|];
    assert OccursAt(t, sep, i);
    assert forall m :: 0 <= m < |t| ==> t[m] == s[m];
    forall j | 0 <= j < i ensures !OccursAt(t, sep, j) {
      assert t[j..j + |sep|] == s[j..j + |sep|];
      assert !OccursAt(s, sep, j);
    }
  }

  /** The text after the last occurrence of the separator was cut at the
      rightmost occurrence. */
  lemma LastCutIsRightmost(s: string, sep: string, i: int)
    requires OccursAt(s, sep, i) && forall j :: i < j ==> !OccursAt(s, sep, j)
    ensures CutRightmost(s[i + |sep|..], sep)
  {
    var t := sep + s[i + |sep|..];
    assert t == s[i..];
    assert OccursAt(t, sep, 0);
    forall j | 0 < j ensures !OccursAt(t, sep, j) {
      if j + |sep| <= |t| {
        assert t[j..j + |sep|] == s[i + j..i + j + |sep|];
        assert !OccursAt(s, sep, i + j);
      }
    }
  }

  /** `s.split(sep, maxsplit)`, splitting at leftmost occurrences; a negative
      `maxsplit` means no limit, as in `s.split(sep)`. */
  function SplitMax(s: string, sep: string, maxsplit: int): (r: seq<string>)
    requires sep != ""
    decreases |s|
    ensures 1 <= |r|
    ensures Join(r, sep) == s
    ensures maxsplit >= 0 ==> |r| <= maxsplit + 1
    ensures forall k :: 0 <= k < |r| - 1 ==> !Contains(r[k], sep)
    ensures (maxsplit < 0 || |r| <= maxsplit) ==> !Contains(r[|r| - 1], sep)
  {
    var i := Find(s, sep);
    if maxsplit == 0 || i < 0 then Unsplit(s, sep, maxsplit)
    else
      var rest := SplitMax(s[i + |sep|..], sep, maxsplit - 1);
      SplitStep(s, sep, maxsplit, i, rest)
  }

  /** The base case of `SplitMax`: no split is allowed or none is possible,
      so the text comes back as its only piece. */
  function Unsplit(s: string, sep: string, maxsplit: int): (r: seq<string>)
    requires maxsplit == 0 || !Contains(s, sep)
    ensures 1 <= |r|
    ensures Join(r, sep) == s
    ensures maxsplit >= 0 ==> |r| <= maxsplit + 1
    ensures forall k :: 0 <= k < |r| - 1 ==> !Contains(r[k], sep)
    ensures (maxsplit < 0 || |r| <= maxsplit) ==> !Contains(r[|r| - 1], sep)
  {
    [s]
  }

  /** The recursive step of `SplitMax`: the text before the first occurrence
      of the separator, in front of the pieces split from the text after it
      with one split fewer. */
  function SplitStep(s: string, sep: string, maxsplit: int, i: int, rest: seq<string>): (r: seq<string>)
    requires sep != "" && maxsplit != 0
    requires OccursAt(s, sep, i) && forall j :: 0 <= j < i ==> !OccursAt(s, sep, j)
    requires 1 <= |rest| && Join(rest, sep) == s[i + |sep|..]
    requires maxsplit - 1 >= 0 ==> |rest| <= maxsplit
    requires forall k :: 0 <= k < |rest| - 1 ==> !Contains(rest[k], sep)
    requires (maxsplit - 1 < 0 || |rest| <= maxsplit - 1) ==> !Contains(rest[|rest| - 1], sep)
    ensures 1 <= |r|
    ensures Join(r, sep) == s
    ensures maxsplit >= 0 ==> |r| <= maxsplit + 1
    ensures forall k :: 0 <= k < |r| - 1 ==> !Contains(r[k], sep)
    ensures (maxsplit < 0 || |r| <= maxsplit) ==> !Contains(r[|r| - 1], sep)
  {
    NoOccurrenceBefore(s, sep, i);
    SplitAround(s, sep, i);
    Prepend(s[..i], rest, sep, maxsplit)
  }

  /** A piece without the separator in front of the pieces split from the
      rest with one split fewer. */
  function Prepend(head: string, rest: seq<string>, sep: string, maxsplit: int): (r: seq<string>)
    requires !Contains(head, sep) && |rest| >= 1 && maxsplit != 0
    requires maxsplit - 1 >= 0 ==> |rest| <= maxsplit
    requires forall k :: 0 <= k < |rest| - 1 ==> !Contains(rest[k], sep)
    requires (maxsplit - 1 < 0 || |rest| <= maxsplit - 1) ==> !Contains(rest[|rest| - 1], sep)
    ensures 1 <= |r|
    ensures Join(r, sep) == head + sep + Join(rest, sep)
    ensures maxsplit >= 0 ==> |r| <= maxsplit + 1
    ensures forall k :: 0 <= k < |r| - 1 ==> !Contains(r[k], sep)
    ensures (maxsplit < 0 || |r| <= maxsplit) ==> !Contains(r[|r| - 1], sep)
  {
    JoinCons(head, rest, sep);
    var r := [head] + rest;
    assert forall k :: 0 < k < |r| ==> r[k] == rest[k - 1];
    r
  }

  /** `s.rsplit(sep, maxsplit)`, splitting at rightmost occurrences; a negative
      `maxsplit` means no limit, as in `s.rsplit(sep)`. */
  function RSplitMax(s: string, sep: string, maxsplit: int): (r: seq<string>)
    requires sep != ""
    decreases |s|
    ensures 1 <= |r|
    ensures Join(r, sep) == s
    ensures maxsplit >= 0 ==> |r| <= maxsplit + 1
    ensures forall k :: 0 < k < |r| ==> !Contains(r[k], sep)
    ensures (maxsplit < 0 || |r| <= maxsplit) ==> !Contains(r[0], sep)
  {
    var i := RFind(s, sep);
    if maxsplit == 0 || i < 0 then [s]
    else
      NoOccurrenceAfter(s, sep, i + |sep|);
      SplitAround(s, sep, i);
      var rest := RSplitMax(s[..i], sep, maxsplit - 1);
      JoinSnoc(rest, s[i + |sep|..], sep);
      var r := rest + [s[i + |sep|..]];
      assert forall k :: 0 <= k < |rest| ==> r[k] == rest[k];
      r
  }

  /** `split` cuts at the leftmost occurrence of the separator each time:
      every piece but the last, followed by the separator, holds the
      separator first at its end. For a separator longer than one character
      this is what tells `"aaa".split("aa")` (`["", "a"]`) from the other
      ways of cutting. */
  lemma {:induction false} SplitCutsLeftmost(s: string, sep: string, maxsplit: int)
    requires sep != ""
    decreases |s|
    ensures forall k :: 0 <= k < |SplitMax(s, sep, maxsplit)| - 1 ==> CutLeftmost(SplitMax(s, sep, maxsplit)[k], sep)
  {
    var i := Find(s, sep);
    if maxsplit != 0 && i >= 0 {
      var rest := SplitMax(s[i + |sep|..], sep, maxsplit - 1);
      SplitCutsLeftmost(s[i + |sep|..], sep, maxsplit - 1);
      FirstCutIsLeftmost(s, sep, i);
      var r := SplitMax(s, sep, maxsplit);
      assert r == [s[..i]] + rest;
      assert forall k :: 0 < k < |r| ==> r[k] == rest[k - 1];
    }
  }

  /** Overlapping occurrences: `"aaa".split("aa")` cuts at the first one. */
  lemma SplitOverlapExample()
    ensures SplitMax("aaa", "aa", -1) == ["", "a"]
  {
    assert OccursAt("aaa", "aa", 0);
    assert Find("aaa", "aa") == 0;
    assert "aaa"[2..] == "a";
    assert !OccursAt("a", "aa", 0) && !OccursAt("a", "aa", 1);
    assert Find("a", "aa") == -1;
  }

  /** `rsplit` cuts at the rightmost occurrence each time: every piece but
      the first, preceded by the separator, holds the separator last at its
      start. */
  lemma {:induction false} RSplitCutsRightmost(s: string, sep: string, maxsplit: int)
    requires sep != ""
    decreases |s|
    ensures forall k :: 0 < k < |RSplitMax(s, sep, maxsplit)| ==> CutRightmost(RSplitMax(s, sep, maxsplit)[k], sep)
  {
    var i := RFind(s, sep);
    if maxsplit != 0 && i >= 0 {
      var rest := RSplitMax(s[..i], sep, maxsplit - 1);
      RSplitCutsRightmost(s[..i], sep, maxsplit - 1);
      LastCutIsRightmost(s, sep, i);
      var r := RSplitMax(s, sep, maxsplit);
      assert r == rest + [s[i + |sep|..]];
      assert forall k :: 0 <= k < |rest| ==> r[k] == rest[k];
    }
  }

  lemma ContainsChar(s: string, c: char)
    ensures Contains(s, [c]) <==> c in s
  {
    if c in s {
      var i :| 0 <= i < |s| && s[i] == c;
      assert OccursAt(s, [c], i);
    }
    if Contains(s, [c]) {
      var i :| 0 <= i <= |s| && OccursAt(s, [c], i);
      assert s[i] == s[i..i + 1][0];
    }
  }

  /** Splitting at a one-character separator whose first occurrence follows `a`. */
  lemma SplitAtChar(a: string, c: char, b: string, maxsplit: int)
    requires c !in a && maxsplit != 0
    ensures SplitMax(a + [c] + b, [c], maxsplit) == [a] + SplitMax(b, [c], maxsplit - 1)
  {
    var s := a + [c] + b;
    assert OccursAt(s, [c], |a|);
    forall j | 0 <= j < |a| ensures !OccursAt(s, [c], j) {
      assert s[j] == a[j];
    }
    var i := Find(s, [c]);
    assert i == |a|;
    assert s[..i] == a;
    assert s[i + 1..] == b;
  }

  lemma SplitNoChar(a: string, c: char, maxsplit: int)
    requires c !in a
    ensures SplitMax(a, [c], maxsplit) == [a]
  {
    ContainsChar(a, c);
  }

  /** For a one-character separator, an unlimited `split` recovers the pieces
      that `join` glued together, provided none of them holds the separator. */
  lemma {:induction false} SplitOfJoin(pieces: seq<string>, c: char, maxsplit: int)
    requires |pieces| >= 1 && maxsplit < 0
    requires forall k :: 0 <= k < |pieces| ==> c !in pieces[k]
    ensures SplitMax(Join(pieces, [c]), [c], maxsplit) == pieces
  {
    if |pieces| == 1 {
      SplitNoChar(pieces[0], c, maxsplit);
    } else {
      var rest := pieces[1..];
      assert pieces == [pieces[0]] + rest;
      JoinCons(pieces[0], rest, [c]);
      SplitAtChar(pieces[0], c, Join(rest, [c]), maxsplit);
      SplitOfJoin(rest, c, maxsplit - 1);
    }
  }

  /** Joining at a character none of the pieces holds loses nothing: equal
      joins come from equal pieces. */
  lemma JoinInjective(xs: seq<string>, ys: seq<string>, c: char)
    requires |xs| >= 1 && |ys| >= 1
    requires forall k :: 0 <= k < |xs| ==> c !in xs[k]
    requires forall k :: 0 <= k < |ys| ==> c !in ys[k]
    requires Join(xs, [c]) == Join(ys, [c])
    ensures xs == ys
  {
    SplitOfJoin(xs, c, -1);
    SplitOfJoin(ys, c, -1);
  }

  /** Text between a fixed prefix and a fixed suffix is read back exactly. */
  lemma Unwrap(pre: string, x: string, y: string, post: string)
    requires pre + x + post == pre + y + post
    ensures x == y
  {
    var s := pre + x + post;
    assert x == s[|pre|..|s| - |post|];
    assert y == (pre + y + post)[|pre|..|s| - |post|];
  }

  /** Python 2 `cmp` of two byte strings: bytewise, a proper prefix is smaller. */
  function StrCmp(a: string, b: string): (r: int)
    ensures -1 <= r <= 1
  {
    if |a| == 0 then (if |b| == 0 then 0 else -1)
    else if |b| == 0 then 1
    else if a[0] < b[0] then -1
    else if a[0] > b[0] then 1
    else StrCmp(a[1..], b[1..])
  }

  /** Python's `a < b` on `str`. */
  predicate StrLt(a: string, b: string) { StrCmp(a, b) < 0 }

  /** Python's `a <= b` on `str`. */
  predicate StrLe(a: string, b: string) { StrCmp(a, b) <= 0 }

  lemma {:induction false} StrCmpZeroIffEqual(a: string, b: string)
    ensures StrCmp(a, b) == 0 <==> a == b
  {
    if |a| > 0 && |b| > 0 && a[0] == b[0] {
      StrCmpZeroIffEqual(a[1..], b[1..]);
      assert a == [a[0]] + a[1..] && b == [b[0]] + b[1..];
    }
  }

  lemma {:induction false} StrCmpAntisymmetric(a: string, b: string)
    ensures StrCmp(b, a) == -StrCmp(a, b)
  {
    if |a| > 0 && |b| > 0 && a[0] == b[0] {
      StrCmpAntisymmetric(a[1..], b[1..]);
    }
  }

  lemma {:induction false} StrCmpTransitive(a: string, b: string, c: string)
    requires StrCmp(a, b) <= 0 && StrCmp(b, c) <= 0
    ensures StrCmp(a, c) <= 0
    ensures StrCmp(a, b) < 0 || StrCmp(b, c) < 0 ==> StrCmp(a, c) < 0
  {
    if |a| > 0 && |b| > 0 && |c| > 0 && a[0] == b[0] && b[0] == c[0] {
      StrCmpTransitive(a[1..], b[1..], c[1..]);
    }
  }

  /** Every later element is strictly smaller: a key list sorted with
      `sort(reverse=True)` when the keys are distinct. */
  predicate StrictlyDescending(s: seq<string>) {
    forall i, j :: 0 <= i < j < |s| ==> StrLt(s[j], s[i])
  }

  lemma AboveHeadIsAboveAll(x: string, s: seq<string>)
    requires StrictlyDescending(s) && |s| > 0 && StrLt(s[0], x)
    ensures StrictlyDescending([x] + s)
  {
    forall i, j | 0 <= i < j < |[x] + s| ensures StrLt(([x] + s)[j], ([x] + s)[i]) {
      if i == 0 && j > 1 {
        StrCmpTransitive(s[j - 1], s[0], x);
      }
    }
  }

  function InsertDescending(x: string, s: seq<string>): (r: seq<string>)
    requires StrictlyDescending(s) && x !in s
    ensures StrictlyDescending(r)
    ensures multiset(r) == multiset(s) + multiset{x}
  {
    if |s| == 0 then [x]
    else if StrLt(s[0], x) then
      AboveHeadIsAboveAll(x, s);
      [x] + s
    else
      assert s == [s[0]] + s[1..];
      var t := InsertDescending(x, s[1..]);
      BelowHead(s, x, t);
      ConsDescending(s[0], t);
      [s[0]] + t
  }

  /** The elements of the rest of a descending list, plus a new element
      not above its head, all lie below the head. */
  lemma BelowHead(s: seq<string>, x: string, t: seq<string>)
    requires StrictlyDescending(s) && |s| > 0 && x !in s && !StrLt(s[0], x)
    requires multiset(t) == multiset(s[1..]) + multiset{x}
    ensures forall k :: 0 <= k < |t| ==> StrLt(t[k], s[0])
  {
    StrCmpZeroIffEqual(s[0], x);
    StrCmpAntisymmetric(s[0], x);
    forall k | 0 <= k < |t| ensures StrLt(t[k], s[0]) {
      assert t[k] in multiset(t);
      if t[k] != x {
        assert t[k] in s[1..];
      }
    }
  }

  /** A head above every element of a descending list keeps it descending. */
  lemma ConsDescending(h: string, t: seq<string>)
    requires StrictlyDescending(t) && forall k :: 0 <= k < |t| ==> StrLt(t[k], h)
    ensures StrictlyDescending([h] + t)
  {
  }

  /** `keys.sort(reverse=True)` on a list of distinct strings. */
  function SortDescending(xs: seq<string>): (r: seq<string>)
    requires Distinct(xs)
    ensures StrictlyDescending(r)
    ensures multiset(r) == multiset(xs)
  {
    if |xs| == 0 then []
    else
      assert xs == [xs[0]] + xs[1..];
      var t := SortDescending(xs[1..]);
      assert xs[0] !in xs[1..];
      assert xs[0] !in t by {
        assert multiset(xs[1..])[xs[0]] == 0;
      }
      InsertDescending(xs[0], t)
  }
}
