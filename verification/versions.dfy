/** Natural ordering of `version-release` strings: `tryint`, `cmpver` and
    `cmpfullver`, with Python 2's rule for comparing lists that mix `int`
    and `str` spelled out. */
module Versions {
  import opened Outcomes
  import opened Text
  import opened Numbers
  import Utils

  /** One dot-separated piece of a version after `tryint`: a Python `int`
      (or `long`) or a `str`. */
  datatype Segment = Int(n: int) | Str(s: string)

  /** `tryint(mayint)`: the integer when `int()` accepts the string, else
      the string itself. */
  function TryInt(mayint: string): (r: Segment)
    ensures r.Str? ==> r.s == mayint
    ensures r.Int? <==> ParseInt(mayint).Some?
  {
    match ParseInt(mayint)
    case Some(n) => Int(n)
    case None => Str(mayint)
  }

  /** `tryint` undoes `'%d' %`: the decimal form of any integer comes back as that integer. */
  lemma TryIntOfIntToStr(n: int)
    ensures TryInt(IntToStr(n)) == Int(n)
  {
    ParseIntOfIntToStr(n);
  }

  /** `tryint('')` stays a string: `int()` rejects the empty string. */
  lemma TryIntEmpty()
    ensures TryInt("") == Str("")
  {
    assert StripLeft("") == "" && StripRight("") == "";
    assert ParseDigits("") == None;
  }

  /** `tryint('el7')` stays a string. */
  lemma TryIntWord()
    ensures TryInt("el7") == Str("el7")
  {
    ParseIntRejects("el7");
  }

  /** `tryint('01') == 1`: leading zeros are dropped. */
  lemma TryIntLeadingZero()
    ensures TryInt("01") == Int(1)
  {
    assert AllDigits("01");
    TryIntOfDigits("01");
    DigitsZeroOne();
  }

  lemma DigitsZeroOne()
    ensures AllDigits("01") && DigitsValue("01") == 1
  {
    assert "01"[..1] == "0";
    assert "0"[..0] == "";
  }

  /** A single decimal digit is its value. */
  lemma TryIntDigit(d: char)
    requires IsDigit(d)
    ensures TryInt([d]) == Int(d as int - '0' as int)
  {
    assert [d][..0] == "";
    assert DigitsValue([d]) == d as int - '0' as int;
    ParseIntOfDigits([d]);
  }

  /** A run of decimal digits is read as its value. */
  lemma TryIntOfDigits(s: string)
    requires |s| > 0 && AllDigits(s)
    ensures TryInt(s) == Int(DigitsValue(s))
  {
    ParseIntOfDigits(s);
  }

  /** `tryint('10') == 10`. */
  lemma TryIntTen()
    ensures TryInt("10") == Int(10)
  {
    assert AllDigits("10");
    TryIntOfDigits("10");
    DigitsOneZero();
  }

  lemma DigitsOneZero()
    ensures AllDigits("10") && DigitsValue("10") == 10
  {
    assert "10"[..1] == "1";
    assert "1"[..0] == "";
  }

  /** Python 2 comparison of two segments: two ints numerically, two strs
      bytewise, and an int below any str (numbers sort before every other
      type in Python 2's default ordering). */
  function SegCmp(a: Segment, b: Segment): (r: int)
    ensures -1 <= r <= 1
  {
    match a
    case Int(x) =>
      (match b
       case Int(y) => if x < y then -1 else if x > y then 1 else 0
       case Str(_) => -1)
    case Str(x) =>
      (match b
       case Int(_) => 1
       case Str(y) => StrCmp(x, y))
  }

  lemma SegCmpZeroIffEqual(a: Segment, b: Segment)
    ensures SegCmp(a, b) == 0 <==> a == b
  {
    if a.Str? && b.Str? {
      StrCmpZeroIffEqual(a.s, b.s);
    }
  }

  lemma SegCmpAntisymmetric(a: Segment, b: Segment)
    ensures SegCmp(b, a) == -SegCmp(a, b)
  {
    if a.Str? && b.Str? {
      StrCmpAntisymmetric(a.s, b.s);
    }
  }

  lemma SegCmpTransitive(a: Segment, b: Segment, c: Segment)
    requires SegCmp(a, b) <= 0 && SegCmp(b, c) <= 0
    ensures SegCmp(a, c) <= 0
    ensures SegCmp(a, b) < 0 || SegCmp(b, c) < 0 ==> SegCmp(a, c) < 0
  {
    if a.Str? && b.Str? && c.Str? {
      StrCmpTransitive(a.s, b.s, c.s);
    }
  }

  /** Python 2 list comparison: the first position whose elements differ
      decides; when one list is a prefix of the other, the shorter is smaller. */
  function SegsCmp(a: seq<Segment>, b: seq<Segment>): (r: int)
    ensures -1 <= r <= 1
  {
    if |a| == 0 then (if |b| == 0 then 0 else -1)
    else if |b| == 0 then 1
    else if a[0] != b[0] then SegCmp(a[0], b[0])
    else SegsCmp(a[1..], b[1..])
  }

  lemma {:induction false} SegsCmpZeroIffEqual(a: seq<Segment>, b: seq<Segment>)
    ensures SegsCmp(a, b) == 0 <==> a == b
  {
    if |a| > 0 && |b| > 0 {
      if a[0] != b[0] {
        SegCmpZeroIffEqual(a[0], b[0]);
      } else {
        SegsCmpZeroIffEqual(a[1..], b[1..]);
        assert a == [a[0]] + a[1..] && b == [b[0]] + b[1..];
      }
    }
  }

  lemma {:induction false} SegsCmpAntisymmetric(a: seq<Segment>, b: seq<Segment>)
    ensures SegsCmp(b, a) == -SegsCmp(a, b)
  {
    if |a| > 0 && |b| > 0 {
      if a[0] != b[0] {
        SegCmpAntisymmetric(a[0], b[0]);
      } else {
        SegsCmpAntisymmetric(a[1..], b[1..]);
      }
    }
  }

  lemma {:induction false} SegsCmpTransitive(a: seq<Segment>, b: seq<Segment>, c: seq<Segment>)
    requires SegsCmp(a, b) <= 0 && SegsCmp(b, c) <= 0
    ensures SegsCmp(a, c) <= 0
    ensures SegsCmp(a, b) < 0 || SegsCmp(b, c) < 0 ==> SegsCmp(a, c) < 0
  {
    if |a| > 0 && |b| > 0 && |c| > 0 {
      SegCmpZeroIffEqual(a[0], b[0]);
      SegCmpZeroIffEqual(b[0], c[0]);
      SegCmpZeroIffEqual(a[0], c[0]);
      if a[0] == b[0] && b[0] == c[0] {
        SegsCmpTransitive(a[1..], b[1..], c[1..]);
      } else {
        SegCmpTransitive(a[0], b[0], c[0]);
      }
    }
  }

  /** The segments `cmpver` compares: the string split on every `.`, each
      piece passed through `tryint`. (`'.' in v and v.split('.') or (v,)`
      yields the same pieces as `v.split('.')`.) */
  function Segments(v: string): (r: seq<Segment>)
    ensures |r| == |SplitMax(v, ".", -1)|
    ensures forall i :: 0 <= i < |r| ==> r[i] == TryInt(SplitMax(v, ".", -1)[i])
  {
    var pieces := SplitMax(v, ".", -1);
    seq(|pieces|, i requires 0 <= i < |pieces| => TryInt(pieces[i]))
  }

  /** `cmpver(ver1, ver2)`: 1 when the segment lists compare greater, 0 when
      they are equal, -1 otherwise. */
  function CmpVer(ver1: string, ver2: string): (r: int)
    ensures r == 0 <==> Segments(ver1) == Segments(ver2)
    ensures r == 1 || r == 0 || r == -1
  {
    var s1 := Segments(ver1);
    var s2 := Segments(ver2);
    SegsCmpZeroIffEqual(s1, s2);
    if SegsCmp(s1, s2) > 0 then 1
    else if s1 == s2 then 0
    else -1
  }

  lemma CmpVerIsSegsCmp(ver1: string, ver2: string)
    ensures CmpVer(ver1, ver2) == SegsCmp(Segments(ver1), Segments(ver2))
  {
    SegsCmpZeroIffEqual(Segments(ver1), Segments(ver2));
  }

  /** The contract of Python's `cmp` that the docstring promises: a total
      preorder, equal on identical input, sign-reversed on swapped input,
      and transitive. */
  lemma CmpVerIsTotalPreorder(a: string, b: string, c: string)
    ensures CmpVer(a, a) == 0
    ensures CmpVer(b, a) == -CmpVer(a, b)
    ensures CmpVer(a, b) <= 0 && CmpVer(b, c) <= 0 ==> CmpVer(a, c) <= 0
    ensures CmpVer(a, b) < 0 && CmpVer(b, c) <= 0 ==> CmpVer(a, c) < 0
  {
    CmpVerIsSegsCmp(a, b);
    CmpVerIsSegsCmp(b, a);
    CmpVerIsSegsCmp(b, c);
    CmpVerIsSegsCmp(a, c);
    SegsCmpAntisymmetric(Segments(a), Segments(b));
    if CmpVer(a, b) <= 0 && CmpVer(b, c) <= 0 {
      SegsCmpTransitive(Segments(a), Segments(b), Segments(c));
    }
  }

  /** Every piece passed through `tryint`. */
  function TryInts(pieces: seq<string>): (r: seq<Segment>)
    ensures |r| == |pieces|
    ensures forall i :: 0 <= i < |r| ==> r[i] == TryInt(pieces[i])
  {
    seq(|pieces|, i requires 0 <= i < |pieces| => TryInt(pieces[i]))
  }

  predicate DotFree(pieces: seq<string>) {
    forall k :: 0 <= k < |pieces| ==> '.' !in pieces[k]
  }

  /** The segments of a dotted string built from dot-free pieces are the
      pieces passed through `tryint`. */
  lemma SegmentsOfJoin(pieces: seq<string>)
    requires |pieces| >= 1 && DotFree(pieces)
    ensures Segments(Join(pieces, ".")) == TryInts(pieces)
  {
    SplitOfJoin(pieces, '.', -1);
  }

  lemma TryIntsAppend(a: seq<string>, b: seq<string>)
    ensures TryInts(a + b) == TryInts(a) + TryInts(b)
  {
  }

  lemma {:induction false} SegsCmpCommonPrefix(p: seq<Segment>, a: seq<Segment>, b: seq<Segment>)
    ensures SegsCmp(p + a, p + b) == SegsCmp(a, b)
  {
    if |p| > 0 {
      var pa, pb := p + a, p + b;
      assert pa[0] == p[0] == pb[0];
      assert pa[1..] == p[1..] + a;
      assert pb[1..] == p[1..] + b;
      SegsCmpCommonPrefix(p[1..], a, b);
      assert SegsCmp(pa, pb) == SegsCmp(pa[1..], pb[1..]);
    } else {
      assert p + a == a && p + b == b;
    }
  }

  lemma SegmentsOfParts(head: seq<string>, tail: seq<string>)
    requires |head + tail| >= 1 && DotFree(head + tail)
    ensures Segments(Join(head + tail, ".")) == TryInts(head) + TryInts(tail)
  {
    SegmentsOfJoin(head + tail);
    TryIntsAppend(head, tail);
  }

  /** The first piece, after `tryint`, that differs decides `cmpver`,
      whatever follows it. */
  lemma CmpVerDecidedAt(common: seq<string>, x: string, y: string, rest1: seq<string>, rest2: seq<string>)
    requires DotFree(common + ([x] + rest1)) && DotFree(common + ([y] + rest2))
    requires TryInt(x) != TryInt(y)
    ensures CmpVer(Join(common + ([x] + rest1), "."), Join(common + ([y] + rest2), "."))
         == SegCmp(TryInt(x), TryInt(y))
  {
    var v1 := Join(common + ([x] + rest1), ".");
    var v2 := Join(common + ([y] + rest2), ".");
    var t1 := TryInts([x] + rest1);
    var t2 := TryInts([y] + rest2);
    SegmentsOfParts(common, [x] + rest1);
    SegmentsOfParts(common, [y] + rest2);
    SegsCmpCommonPrefix(TryInts(common), t1, t2);
    assert t1[0] == TryInt(x) && t2[0] == TryInt(y);
    CmpVerIsSegsCmp(v1, v2);
  }

  /** A version that extends another by further pieces is smaller than it:
      `'1.0' < '1.0.1'`. */
  lemma CmpVerPrefixIsSmaller(common: seq<string>, more: seq<string>)
    requires |common| >= 1 && |more| >= 1
    requires DotFree(common + more)
    ensures CmpVer(Join(common, "."), Join(common + more, ".")) == -1
  {
    assert DotFree(common + []) by {
      assert common + [] == common;
      forall k | 0 <= k < |common| ensures '.' !in common[k] {
        assert common[k] == (common + more)[k];
      }
    }
    SegmentsOfParts(common, []);
    SegmentsOfParts(common, more);
    var t := TryInts(common);
    SegsCmpCommonPrefix(t, [], TryInts(more));
    assert common + [] == common;
    assert t + TryInts([]) == t + [];
    CmpVerIsSegsCmp(Join(common, "."), Join(common + more, "."));
  }

  /** A version of two dot-free pieces has those two segments. */
  lemma SegmentsOfPair(a: string, b: string)
    requires '.' !in a && '.' !in b
    ensures Segments(a + "." + b) == [TryInt(a), TryInt(b)]
  {
    assert a + "." + b == Join([a, b], ".");
    SegmentsOfJoin([a, b]);
  }

  lemma SegmentsNineteenExample()
    ensures Segments("1.9") == [Int(1), Int(9)]
  {
    assert "1.9" == "1" + "." + "9";
    SegmentsOfPair("1", "9");
    TryIntDigit('1');
    TryIntDigit('9');
  }

  lemma SegmentsOneTenExample()
    ensures Segments("1.10") == [Int(1), Int(10)]
  {
    assert "1.10" == "1" + "." + "10";
    SegmentsOfPair("1", "10");
    TryIntDigit('1');
    TryIntTen();
  }

  /** Two numeric segments compare as integers: `'1.9' < '1.10'`. */
  lemma CmpVerNumericExample()
    ensures CmpVer("1.9", "1.10") == -1
  {
    SegmentsNineteenExample();
    SegmentsOneTenExample();
    CmpVerIsSegsCmp("1.9", "1.10");
  }

  /** A strict prefix is smaller: `'1.0' < '1.0.1'`. */
  lemma CmpVerPrefixExample()
    ensures CmpVer("1.0", "1.0.1") == -1
  {
    assert "1.0" == Join(["1", "0"], ".");
    assert ["1", "0"] + ["1"] == ["1", "0", "1"];
    assert "1.0.1" == Join(["1", "0", "1"], ".");
    CmpVerPrefixIsSmaller(["1", "0"], ["1"]);
  }

  lemma TryIntLetterExample()
    ensures TryInt("a") == Str("a")
  {
    ParseIntRejects("a");
  }

  lemma SegmentsOneAExample()
    ensures Segments("1.a") == [Int(1), Str("a")]
  {
    assert "1.a" == "1" + "." + "a";
    SegmentsOfPair("1", "a");
    TryIntDigit('1');
    TryIntLetterExample();
  }

  lemma SegmentsOneOneExample()
    ensures Segments("1.1") == [Int(1), Int(1)]
  {
    assert "1.1" == "1" + "." + "1";
    SegmentsOfPair("1", "1");
    TryIntDigit('1');
  }

  lemma SegsCmpIntStrExample()
    ensures SegsCmp([Int(1), Int(1)], [Int(1), Str("a")]) == -1
  {
    assert SegsCmp([Int(1)], [Str("a")]) == -1;
  }

  lemma SegsCmpMixedExample()
    ensures SegsCmp(Segments("1.1"), Segments("1.a")) == -1
  {
    SegmentsOneOneExample();
    SegmentsOneAExample();
    SegsCmpIntStrExample();
  }

  /** An integer segment sorts below any string segment: `'1.1' < '1.a'`. */
  lemma CmpVerMixedExample()
    ensures CmpVer("1.1", "1.a") == -1
  {
    SegsCmpMixedExample();
    CmpVerIsSegsCmp("1.1", "1.a");
  }

  /** Inputs equal after `tryint` compare equal: `'1.01'` and `'1.1'`. */
  lemma CmpVerLeadingZeroExample()
    ensures CmpVer("1.01", "1.1") == 0
  {
    assert "1.01" == "1" + "." + "01";
    assert "1.1" == "1" + "." + "1";
    SegmentsOfPair("1", "01");
    SegmentsOfPair("1", "1");
    TryIntLeadingZero();
    TryIntDigit('1');
  }

  /** `split(fullver, '-', 1)`: the text before the first `-` and the text
      after it, or the whole string and `''` when there is no `-`. */
  function SplitRelease(fullver: string): (r: (string, string))
    ensures !Contains(r.0, "-")
    ensures Contains(fullver, "-") ==> r.0 + "-" + r.1 == fullver
    ensures !Contains(fullver, "-") ==> r == (fullver, "")
  {
    var parts := Utils.Split(fullver, "-", Some(1)).value;
    var pieces := SplitMax(fullver, "-", 1);
    assert parts[..|pieces|] == pieces;
    if |pieces| == 2 then
      assert Join(pieces, "-") == pieces[0] + "-" + pieces[1];
      (parts[0], parts[1])
    else
      (parts[0], parts[1])
  }

  /** A `version-release` string whose version holds no `-` splits back
      into that version and release. */
  lemma SplitReleaseOf(version: string, release: string)
    requires '-' !in version
    ensures SplitRelease(version + "-" + release) == (version, release)
  {
    var s := version + "-" + release;
    SplitAtChar(version, '-', release, 1);
    var rest := SplitMax(release, "-", 0);
    assert |rest| == 1 && Join(rest, "-") == release;
    assert rest == [release];
    var parts := Utils.Split(s, "-", Some(1)).value;
    assert parts[..2] == [version, release];
  }

  /** `cmpfullver(fullver1, fullver2)`: versions first, releases on a tie. */
  function CmpFullVer(fullver1: string, fullver2: string): (r: int)
    ensures r == 1 || r == 0 || r == -1
  {
    var (ver1, rel1) := SplitRelease(fullver1);
    var (ver2, rel2) := SplitRelease(fullver2);
    var verRes := CmpVer(ver1, ver2);
    if verRes != 0 then verRes else CmpVer(rel1, rel2)
  }

  /** A string without `-` has the empty release: against a dash-free
      string it compares as `cmpver` does, and against a `version-release`
      string the versions decide and a tie falls to `''` against the
      release. */
  lemma CmpFullVerWithoutRelease(v1: string, v2: string, r2: string)
    requires '-' !in v1 && '-' !in v2
    ensures CmpFullVer(v1, v2) == CmpVer(v1, v2)
    ensures CmpFullVer(v1, v2 + "-" + r2)
         == if CmpVer(v1, v2) != 0 then CmpVer(v1, v2) else CmpVer("", r2)
  {
    NoDashNoRelease(v1);
    NoDashNoRelease(v2);
    SplitReleaseOf(v2, r2);
  }

  /** A string without the character `-` has no release to split off. */
  lemma NoDashNoRelease(v: string)
    requires '-' !in v
    ensures SplitRelease(v) == (v, "")
  {
    assert |"-"| == 1 && "-"[0] == '-';
    forall k | 0 <= k <= |v| ensures !OccursAt(v, "-", k) {
      if k + 1 <= |v| {
        assert v[k..k + 1][0] == v[k] && v[k] in v;
      }
    }
  }

  /** `cmpfullver` is a total preorder as well. */
  lemma CmpFullVerIsTotalPreorder(a: string, b: string, c: string)
    ensures CmpFullVer(a, a) == 0
    ensures CmpFullVer(b, a) == -CmpFullVer(a, b)
    ensures CmpFullVer(a, b) <= 0 && CmpFullVer(b, c) <= 0 ==> CmpFullVer(a, c) <= 0
    ensures CmpFullVer(a, b) < 0 && CmpFullVer(b, c) <= 0 ==> CmpFullVer(a, c) < 0
  {
    var (va, ra) := SplitRelease(a);
    var (vb, rb) := SplitRelease(b);
    var (vc, rc) := SplitRelease(c);
    CmpVerIsTotalPreorder(va, va, va);
    CmpVerIsTotalPreorder(ra, ra, ra);
    CmpVerIsTotalPreorder(va, vb, vc);
    CmpVerIsTotalPreorder(ra, rb, rc);
    CmpVerIsTotalPreorder(vb, vc, va);
    CmpVerIsTotalPreorder(vc, va, vb);
  }

  /** `cmpfullver` on two `version-release` strings whose versions hold no
      `-`: the versions decide, and the releases break a tie. */
  lemma CmpFullVerOfParts(v1: string, r1: string, v2: string, r2: string)
    requires '-' !in v1 && '-' !in v2
    ensures CmpFullVer(v1 + "-" + r1, v2 + "-" + r2)
         == if CmpVer(v1, v2) != 0 then CmpVer(v1, v2) else CmpVer(r1, r2)
  {
    SplitReleaseOf(v1, r1);
    SplitReleaseOf(v2, r2);
  }
}
