/** `RPMVersion`'s comparison operators, which order RPM `version-release`
    strings by `cmpfullver`, and the orderings the RPM store's unit tests
    expect of them. */
module RpmVersions {
  import opened Text
  import opened Numbers
  import opened Versions

  /** `RPMVersion.__lt__` and its siblings: `cmpfullver` of the two version
      strings, against zero. */
  predicate Lt(a: string, b: string) { CmpFullVer(a, b) < 0 }
  predicate Le(a: string, b: string) { CmpFullVer(a, b) <= 0 }
  predicate Gt(a: string, b: string) { CmpFullVer(a, b) > 0 }
  predicate Ge(a: string, b: string) { CmpFullVer(a, b) >= 0 }
  predicate Eq(a: string, b: string) { CmpFullVer(a, b) == 0 }
  predicate Ne(a: string, b: string) { CmpFullVer(a, b) != 0 }

  /** The six operators are one consistent total preorder: each is the
      mirror or the negation of another, and exactly one of `<`, `==`, `>`
      holds. */
  lemma OperatorsAgree(a: string, b: string)
    ensures Lt(a, b) <==> Gt(b, a)
    ensures Le(a, b) <==> Ge(b, a)
    ensures Le(a, b) <==> Lt(a, b) || Eq(a, b)
    ensures Ne(a, b) <==> !Eq(a, b)
    ensures Eq(a, b) <==> Eq(b, a)
    ensures Eq(a, a)
    ensures Lt(a, b) || Eq(a, b) || Gt(a, b)
    ensures !(Lt(a, b) && Eq(a, b)) && !(Lt(a, b) && Gt(a, b)) && !(Eq(a, b) && Gt(a, b))
  {
    CmpFullVerIsTotalPreorder(a, b, a);
  }

  /** `<=` is transitive, and `<` followed by `<=` is `<`. */
  lemma OperatorsTransitive(a: string, b: string, c: string)
    ensures Le(a, b) && Le(b, c) ==> Le(a, c)
    ensures Lt(a, b) && Le(b, c) ==> Lt(a, c)
  {
    CmpFullVerIsTotalPreorder(a, b, c);
  }

  // ------------------------------------------------ where two versions part

  /** Pieces listed one by one are dot-free when each of them is. */
  lemma DotFreeOf(p: seq<string>, q: seq<string>)
    requires DotFree(p) && DotFree(q)
    ensures DotFree(p + q)
  {
    forall k | 0 <= k < |p + q| ensures '.' !in (p + q)[k] {
      if k < |p| {
        assert (p + q)[k] == p[k];
      } else {
        assert (p + q)[k] == q[k - |p|];
      }
    }
  }

  /** Versions that differ in their first of two fields: that field decides. */
  lemma FirstFieldDecides(v1: string, v2: string, x: string, t1: string, y: string, t2: string)
    requires v1 == x + "." + t1 && v2 == y + "." + t2
    requires '.' !in x && '.' !in t1 && '.' !in y && '.' !in t2
    requires TryInt(x) != TryInt(y)
    ensures CmpVer(v1, v2) == SegCmp(TryInt(x), TryInt(y))
  {
    JoinCons(x, [t1], ".");
    JoinCons(y, [t2], ".");
    assert [] + ([x] + [t1]) == [x] + [t1] && [] + ([y] + [t2]) == [y] + [t2];
    DotFreeOf([x], [t1]);
    DotFreeOf([y], [t2]);
    CmpVerDecidedAt([], x, y, [t1], [t2]);
  }

  /** Versions that share their first field and differ in the last. */
  lemma LastFieldDecides(v1: string, v2: string, h: string, x: string, y: string)
    requires v1 == h + "." + x && v2 == h + "." + y
    requires '.' !in h && '.' !in x && '.' !in y
    requires TryInt(x) != TryInt(y)
    ensures CmpVer(v1, v2) == SegCmp(TryInt(x), TryInt(y))
  {
    JoinCons(h, [x], ".");
    JoinCons(h, [y], ".");
    assert [h] + ([x] + []) == [h] + [x] && [h] + ([y] + []) == [h] + [y];
    DotFreeOf([h], [x]);
    DotFreeOf([h], [y]);
    CmpVerDecidedAt([h], x, y, [], []);
  }

  /** Three-field versions that differ only in the middle field. */
  lemma MiddleFieldDecides(v1: string, v2: string, h: string, x: string, y: string, t: string)
    requires v1 == h + "." + x + "." + t && v2 == h + "." + y + "." + t
    requires '.' !in h && '.' !in x && '.' !in y && '.' !in t
    requires TryInt(x) != TryInt(y)
    ensures CmpVer(v1, v2) == SegCmp(TryInt(x), TryInt(y))
  {
    JoinOfThree(h, x, t);
    JoinOfThree(h, y, t);
    assert [h, x, t] == [h] + ([x] + [t]) && [h, y, t] == [h] + ([y] + [t]);
    CmpVerDecidedAt([h], x, y, [t], [t]);
  }

  /** A three-field version against a five-field one that shares its first
      two fields: the third field decides, whatever follows it. */
  lemma ThirdFieldDecides(v1: string, v2: string, a: string, b: string, x: string, y: string, d: string, e: string)
    requires v1 == a + "." + b + "." + x
    requires v2 == a + "." + b + "." + y + "." + d + "." + e
    requires '.' !in a && '.' !in b && '.' !in x && '.' !in y && '.' !in d && '.' !in e
    requires TryInt(x) != TryInt(y)
    ensures CmpVer(v1, v2) == SegCmp(TryInt(x), TryInt(y))
  {
    JoinOfThree(a, b, x);
    JoinOfFive(a, b, y, d, e);
    assert [a, b, x] == [a, b] + ([x] + []);
    assert [a, b, y, d, e] == [a, b] + ([y] + [d, e]);
    CmpVerDecidedAt([a, b], x, y, [], [d, e]);
  }

  /** Five-field versions that differ only in the second field. */
  lemma SecondOfFiveDecides(v1: string, v2: string, a: string, x: string, y: string, c: string, d: string, e: string)
    requires v1 == a + "." + x + "." + c + "." + d + "." + e
    requires v2 == a + "." + y + "." + c + "." + d + "." + e
    requires '.' !in a && '.' !in x && '.' !in y && '.' !in c && '.' !in d && '.' !in e
    requires TryInt(x) != TryInt(y)
    ensures CmpVer(v1, v2) == SegCmp(TryInt(x), TryInt(y))
  {
    JoinOfFive(a, x, c, d, e);
    JoinOfFive(a, y, c, d, e);
    assert [a, x, c, d, e] == [a] + ([x] + [c, d, e]);
    assert [a, y, c, d, e] == [a] + ([y] + [c, d, e]);
    CmpVerDecidedAt([a], x, y, [c, d, e], [c, d, e]);
  }

  /** Three dot-free pieces joined by dots. */
  lemma JoinOfThree(a: string, b: string, c: string)
    requires '.' !in a && '.' !in b && '.' !in c
    ensures Join([a, b, c], ".") == a + "." + b + "." + c
    ensures DotFree([a, b, c])
  {
    JoinSnoc([a], b, ".");
    JoinSnoc([a, b], c, ".");
    assert [a] + [b] == [a, b] && [a, b] + [c] == [a, b, c];
    assert DotFree([a, b, c]) by {
      var p := [a, b, c];
      assert forall k :: 0 <= k < |p| ==> p[k] == a || p[k] == b || p[k] == c;
    }
  }

  /** Five dot-free pieces joined by dots. */
  lemma JoinOfFive(a: string, b: string, c: string, d: string, e: string)
    requires '.' !in a && '.' !in b && '.' !in c && '.' !in d && '.' !in e
    ensures Join([a, b, c, d, e], ".") == a + "." + b + "." + c + "." + d + "." + e
    ensures DotFree([a, b, c, d, e])
  {
    JoinOfThree(a, b, c);
    JoinSnoc([a, b, c], d, ".");
    JoinSnoc([a, b, c, d], e, ".");
    assert [a, b, c] + [d] == [a, b, c, d] && [a, b, c, d] + [e] == [a, b, c, d, e];
    assert DotFree([a, b, c, d, e]) by {
      var p := [a, b, c, d, e];
      assert forall k :: 0 <= k < |p| ==> p[k] == a || p[k] == b || p[k] == c || p[k] == d || p[k] == e;
    }
  }

  /** `version-release` strings with the same version: the releases decide. */
  lemma SameVersion(f1: string, f2: string, v: string, r1: string, r2: string)
    requires f1 == v + "-" + r1 && f2 == v + "-" + r2 && '-' !in v
    ensures CmpFullVer(f1, f2) == CmpVer(r1, r2)
  {
    CmpFullVerOfParts(v, r1, v, r2);
    CmpVerIsTotalPreorder(v, v, v);
  }

  /** `version-release` strings with different versions: the versions
      decide, whatever the releases. */
  lemma VersionDecides(f1: string, f2: string, v1: string, r1: string, v2: string, r2: string)
    requires f1 == v1 + "-" + r1 && f2 == v2 + "-" + r2
    requires '-' !in v1 && '-' !in v2 && CmpVer(v1, v2) != 0
    ensures CmpFullVer(f1, f2) == CmpVer(v1, v2)
  {
    CmpFullVerOfParts(v1, r1, v2, r2);
  }

  // ------------------------------------------------ the unit tests' pairs

  /** The short versions of the unit test, piece by piece. */
  lemma ShortVersionPieces()
    ensures "0.0" == "0" + "." + "0" && "0.1" == "0" + "." + "1"
    ensures "1.0" == "1" + "." + "0" && "1.1" == "1" + "." + "1"
    ensures "2.1" == "2" + "." + "1"
    ensures "1.9" == "1" + "." + "9" && "1.10" == "1" + "." + "10"
    ensures '.' !in "0" && '.' !in "1" && '.' !in "2" && '.' !in "9" && '.' !in "10"
  {
  }

  /** The releases of the unit test, piece by piece. */
  lemma ReleasePieces()
    ensures "1.el7.centos" == "1" + "." + "el7" + "." + "centos"
    ensures "1.20170103101841.centos" == "1" + "." + "20170103101841" + "." + "centos"
    ensures "1.20180103101841.centos" == "1" + "." + "20180103101841" + "." + "centos"
    ensures '.' !in "el7" && '.' !in "centos" && '.' !in "git17e7bc0"
    ensures '.' !in "20170103101841" && '.' !in "20180103101841" && '.' !in "20190103101841"
  {
  }

  lemma GitReleasePiecesOld()
    ensures "1.20180103101841.git17e7bc0.el7.centos"
         == "1" + "." + "20180103101841" + "." + "git17e7bc0" + "." + "el7" + "." + "centos"
  {
  }

  lemma GitReleasePiecesNew()
    ensures "1.20190103101841.git17e7bc0.el7.centos"
         == "1" + "." + "20190103101841" + "." + "git17e7bc0" + "." + "el7" + "." + "centos"
  {
  }

  lemma DigitsCompare()
    ensures SegCmp(TryInt("0"), TryInt("1")) == -1
    ensures SegCmp(TryInt("1"), TryInt("2")) == -1
  {
    TryIntDigit('0');
    TryIntDigit('1');
    TryIntDigit('2');
  }

  lemma ZeroZeroBelowZeroOne()
    ensures CmpVer("0.0", "0.1") == -1
  {
    ShortVersionPieces();
    DigitsCompare();
    LastFieldDecides("0.0", "0.1", "0", "0", "1");
  }

  lemma ZeroOneBelowOneZero()
    ensures CmpVer("0.1", "1.0") == -1
  {
    ShortVersionPieces();
    DigitsCompare();
    FirstFieldDecides("0.1", "1.0", "0", "1", "1", "0");
  }

  lemma OneZeroBelowOneOne()
    ensures CmpVer("1.0", "1.1") == -1
  {
    ShortVersionPieces();
    DigitsCompare();
    LastFieldDecides("1.0", "1.1", "1", "0", "1");
  }

  lemma OneOneBelowTwoOne()
    ensures CmpVer("1.1", "2.1") == -1
  {
    ShortVersionPieces();
    DigitsCompare();
    FirstFieldDecides("1.1", "2.1", "1", "1", "2", "1");
  }

  /** Two timestamps of the same length: the first differing digit decides. */
  lemma StampsOrdered(p: string, a: char, b: char, rest: string)
    requires AllDigits(p) && AllDigits(rest) && IsDigit(a) && IsDigit(b) && a < b
    ensures SegCmp(TryInt(p + [a] + rest), TryInt(p + [b] + rest)) == -1
  {
    DigitsFirstDifference(p, a, b, rest, rest);
    TryIntOfDigits(p + [a] + rest);
    TryIntOfDigits(p + [b] + rest);
  }

  lemma Stamp2017Below2018()
    ensures SegCmp(TryInt("20170103101841"), TryInt("20180103101841")) == -1
  {
    assert "20170103101841" == "201" + ['7'] + "0103101841";
    assert "20180103101841" == "201" + ['8'] + "0103101841";
    StampsOrdered("201", '7', '8', "0103101841");
  }

  lemma Stamp2018Below2019()
    ensures SegCmp(TryInt("20180103101841"), TryInt("20190103101841")) == -1
  {
    assert "20180103101841" == "201" + ['8'] + "0103101841";
    assert "20190103101841" == "201" + ['9'] + "0103101841";
    StampsOrdered("201", '8', '9', "0103101841");
  }

  lemma StampIsInt()
    ensures TryInt("20170103101841").Int?
  {
    TryIntOfDigits("20170103101841");
  }

  lemma WordsStayWords()
    ensures TryInt("centos") == Str("centos")
    ensures TryInt("git17e7bc0") == Str("git17e7bc0")
  {
    ParseIntRejects("centos");
    ParseIntRejects("git17e7bc0");
  }

  lemma WordAboveStamp()
    ensures SegCmp(TryInt("el7"), TryInt("20170103101841")) == 1
  {
    TryIntWord();
    StampIsInt();
  }

  lemma CentosBelowGit()
    ensures SegCmp(TryInt("centos"), TryInt("git17e7bc0")) == -1
  {
    WordsStayWords();
    assert StrCmp("centos", "git17e7bc0") == -1;
  }

  /** A word release field sorts above a numeric one: `el7` beats a
      timestamp. */
  lemma DistroFieldAboveStamp()
    ensures CmpVer("1.el7.centos", "1.20170103101841.centos") == 1
  {
    ReleasePieces();
    WordAboveStamp();
    MiddleFieldDecides("1.el7.centos", "1.20170103101841.centos", "1", "el7", "20170103101841", "centos");
  }

  lemma ReleaseStampsOrdered()
    ensures CmpVer("1.20170103101841.centos", "1.20180103101841.centos") == -1
  {
    ReleasePieces();
    Stamp2017Below2018();
    MiddleFieldDecides("1.20170103101841.centos", "1.20180103101841.centos", "1", "20170103101841", "20180103101841", "centos");
  }

  lemma ReleaseWordsOrdered()
    ensures CmpVer("1.20180103101841.centos", "1.20180103101841.git17e7bc0.el7.centos") == -1
  {
    ReleasePieces();
    GitReleasePiecesOld();
    CentosBelowGit();
    ThirdFieldDecides("1.20180103101841.centos", "1.20180103101841.git17e7bc0.el7.centos",
      "1", "20180103101841", "centos", "git17e7bc0", "el7", "centos");
  }

  lemma ReleaseGitStampsOrdered()
    ensures CmpVer("1.20180103101841.git17e7bc0.el7.centos", "1.20190103101841.git17e7bc0.el7.centos") == -1
  {
    ReleasePieces();
    GitReleasePiecesOld();
    GitReleasePiecesNew();
    Stamp2018Below2019();
    SecondOfFiveDecides("1.20180103101841.git17e7bc0.el7.centos", "1.20190103101841.git17e7bc0.el7.centos",
      "1", "20180103101841", "20190103101841", "git17e7bc0", "el7", "centos");
  }

  // Seven of the eight ordered pairs of the RPM store's unit test hold in
  // both directions: the first is below the second and the second above
  // the first. Each string is first cut at its `-` by a lemma of its own.

  lemma TestPairOneFirstPieces()
    ensures "0.0-1.el7.centos" == "0.0" + "-" + "1.el7.centos"
  {
  }

  lemma TestPairOneSecondPieces()
    ensures "0.1-1.el7.centos" == "0.1" + "-" + "1.el7.centos"
    ensures '-' !in "0.0" && '-' !in "0.1"
  {
  }

  lemma TestPairOne()
    ensures Lt("0.0-1.el7.centos", "0.1-1.el7.centos")
    ensures Gt("0.1-1.el7.centos", "0.0-1.el7.centos")
  {
    TestPairOneFirstPieces();
    TestPairOneSecondPieces();
    ZeroZeroBelowZeroOne();
    VersionDecides("0.0-1.el7.centos", "0.1-1.el7.centos", "0.0", "1.el7.centos", "0.1", "1.el7.centos");
    OperatorsAgree("0.0-1.el7.centos", "0.1-1.el7.centos");
  }

  lemma TestPairTwoFirstPieces()
    ensures "0.1-1.el7.centos" == "0.1" + "-" + "1.el7.centos"
  {
  }

  lemma TestPairTwoSecondPieces()
    ensures "1.0-1.el7.centos" == "1.0" + "-" + "1.el7.centos"
    ensures '-' !in "0.1" && '-' !in "1.0"
  {
  }

  lemma TestPairTwo()
    ensures Lt("0.1-1.el7.centos", "1.0-1.el7.centos")
    ensures Gt("1.0-1.el7.centos", "0.1-1.el7.centos")
  {
    TestPairTwoFirstPieces();
    TestPairTwoSecondPieces();
    ZeroOneBelowOneZero();
    VersionDecides("0.1-1.el7.centos", "1.0-1.el7.centos", "0.1", "1.el7.centos", "1.0", "1.el7.centos");
    OperatorsAgree("0.1-1.el7.centos", "1.0-1.el7.centos");
  }

  lemma TestPairFourFirstPieces()
    ensures "1.0-1.20170103101841.centos" == "1.0" + "-" + "1.20170103101841.centos"
  {
  }

  lemma TestPairFourSecondPieces()
    ensures "1.0-1.20180103101841.centos" == "1.0" + "-" + "1.20180103101841.centos"
    ensures '-' !in "1.0"
  {
  }

  lemma TestPairFour()
    ensures Lt("1.0-1.20170103101841.centos", "1.0-1.20180103101841.centos")
    ensures Gt("1.0-1.20180103101841.centos", "1.0-1.20170103101841.centos")
  {
    TestPairFourFirstPieces();
    TestPairFourSecondPieces();
    ReleaseStampsOrdered();
    SameVersion("1.0-1.20170103101841.centos", "1.0-1.20180103101841.centos", "1.0", "1.20170103101841.centos", "1.20180103101841.centos");
    OperatorsAgree("1.0-1.20170103101841.centos", "1.0-1.20180103101841.centos");
  }

  lemma TestPairFiveFirstPieces()
    ensures "1.0-1.20180103101841.centos" == "1.0" + "-" + "1.20180103101841.centos"
  {
  }

  lemma TestPairFiveSecondPieces()
    ensures "1.0-1.20180103101841.git17e7bc0.el7.centos" == "1.0" + "-" + "1.20180103101841.git17e7bc0.el7.centos"
    ensures '-' !in "1.0"
  {
    assert "1.0-1.20180103101841.git17e7bc0.el7.centos" == "1.0-" + "1.20180103101841.git17e7bc0.el7.centos";
  }

  lemma TestPairFive()
    ensures Lt("1.0-1.20180103101841.centos", "1.0-1.20180103101841.git17e7bc0.el7.centos")
    ensures Gt("1.0-1.20180103101841.git17e7bc0.el7.centos", "1.0-1.20180103101841.centos")
  {
    TestPairFiveFirstPieces();
    TestPairFiveSecondPieces();
    ReleaseWordsOrdered();
    SameVersion("1.0-1.20180103101841.centos", "1.0-1.20180103101841.git17e7bc0.el7.centos", "1.0", "1.20180103101841.centos", "1.20180103101841.git17e7bc0.el7.centos");
    OperatorsAgree("1.0-1.20180103101841.centos", "1.0-1.20180103101841.git17e7bc0.el7.centos");
  }

  lemma TestPairSixFirstPieces()
    ensures "1.0-1.20180103101841.git17e7bc0.el7.centos" == "1.0" + "-" + "1.20180103101841.git17e7bc0.el7.centos"
  {
  }

  lemma TestPairSixSecondPieces()
    ensures "1.0-1.20190103101841.git17e7bc0.el7.centos" == "1.0" + "-" + "1.20190103101841.git17e7bc0.el7.centos"
    ensures '-' !in "1.0"
  {
    assert "1.0-1.20190103101841.git17e7bc0.el7.centos" == "1.0-" + "1.20190103101841.git17e7bc0.el7.centos";
  }

  lemma TestPairSix()
    ensures Lt("1.0-1.20180103101841.git17e7bc0.el7.centos", "1.0-1.20190103101841.git17e7bc0.el7.centos")
    ensures Gt("1.0-1.20190103101841.git17e7bc0.el7.centos", "1.0-1.20180103101841.git17e7bc0.el7.centos")
  {
    TestPairSixFirstPieces();
    TestPairSixSecondPieces();
    ReleaseGitStampsOrdered();
    SameVersion("1.0-1.20180103101841.git17e7bc0.el7.centos", "1.0-1.20190103101841.git17e7bc0.el7.centos", "1.0", "1.20180103101841.git17e7bc0.el7.centos", "1.20190103101841.git17e7bc0.el7.centos");
    OperatorsAgree("1.0-1.20180103101841.git17e7bc0.el7.centos", "1.0-1.20190103101841.git17e7bc0.el7.centos");
  }

  lemma TestPairSevenFirstPieces()
    ensures "1.0-1.20190103101841.git17e7bc0.el7.centos" == "1.0" + "-" + "1.20190103101841.git17e7bc0.el7.centos"
  {
  }

  lemma TestPairSevenSecondPieces()
    ensures "1.1-1.20190103101841.git17e7bc0.el7.centos" == "1.1" + "-" + "1.20190103101841.git17e7bc0.el7.centos"
    ensures '-' !in "1.0" && '-' !in "1.1"
  {
  }

  lemma TestPairSeven()
    ensures Lt("1.0-1.20190103101841.git17e7bc0.el7.centos", "1.1-1.20190103101841.git17e7bc0.el7.centos")
    ensures Gt("1.1-1.20190103101841.git17e7bc0.el7.centos", "1.0-1.20190103101841.git17e7bc0.el7.centos")
  {
    TestPairSevenFirstPieces();
    TestPairSevenSecondPieces();
    OneZeroBelowOneOne();
    VersionDecides("1.0-1.20190103101841.git17e7bc0.el7.centos", "1.1-1.20190103101841.git17e7bc0.el7.centos", "1.0", "1.20190103101841.git17e7bc0.el7.centos", "1.1", "1.20190103101841.git17e7bc0.el7.centos");
    OperatorsAgree("1.0-1.20190103101841.git17e7bc0.el7.centos", "1.1-1.20190103101841.git17e7bc0.el7.centos");
  }

  lemma TestPairEightFirstPieces()
    ensures "1.1-1.20190103101841.git17e7bc0.el7.centos" == "1.1" + "-" + "1.20190103101841.git17e7bc0.el7.centos"
  {
  }

  lemma TestPairEightSecondPieces()
    ensures "2.1-1.20190103101841.git17e7bc0.el7.centos" == "2.1" + "-" + "1.20190103101841.git17e7bc0.el7.centos"
    ensures '-' !in "1.1" && '-' !in "2.1"
  {
  }

  lemma TestPairEight()
    ensures Lt("1.1-1.20190103101841.git17e7bc0.el7.centos", "2.1-1.20190103101841.git17e7bc0.el7.centos")
    ensures Gt("2.1-1.20190103101841.git17e7bc0.el7.centos", "1.1-1.20190103101841.git17e7bc0.el7.centos")
  {
    TestPairEightFirstPieces();
    TestPairEightSecondPieces();
    OneOneBelowTwoOne();
    VersionDecides("1.1-1.20190103101841.git17e7bc0.el7.centos", "2.1-1.20190103101841.git17e7bc0.el7.centos", "1.1", "1.20190103101841.git17e7bc0.el7.centos", "2.1", "1.20190103101841.git17e7bc0.el7.centos");
    OperatorsAgree("1.1-1.20190103101841.git17e7bc0.el7.centos", "2.1-1.20190103101841.git17e7bc0.el7.centos");
  }

  lemma TestPairThreeFirstPieces()
    ensures "1.0-1.el7.centos" == "1.0" + "-" + "1.el7.centos"
  {
  }

  lemma TestPairThreeSecondPieces()
    ensures "1.0-1.20170103101841.centos" == "1.0" + "-" + "1.20170103101841.centos"
    ensures '-' !in "1.0"
  {
  }

  /** The third pair of the unit test does not hold: `cmpfullver` puts the
      `el7` release ABOVE the timestamped one, because a word segment sorts
      above a number. */
  lemma TestPairThreeFails()
    ensures Gt("1.0-1.el7.centos", "1.0-1.20170103101841.centos")
    ensures !Lt("1.0-1.el7.centos", "1.0-1.20170103101841.centos")
  {
    TestPairThreeFirstPieces();
    TestPairThreeSecondPieces();
    DistroFieldAboveStamp();
    SameVersion("1.0-1.el7.centos", "1.0-1.20170103101841.centos", "1.0", "1.el7.centos", "1.20170103101841.centos");
  }

  lemma NumericPieces()
    ensures "1.10-1" == "1.10" + "-" + "1" && "1.9-1" == "1.9" + "-" + "1"
    ensures '-' !in "1.10" && '-' !in "1.9"
  {
  }

  lemma NineBelowTen()
    ensures CmpVer("1.9", "1.10") == -1
  {
    ShortVersionPieces();
    TryIntDigit('9');
    TryIntTen();
    LastFieldDecides("1.9", "1.10", "1", "9", "10");
  }

  lemma StringRankOfNumeric()
    ensures StrLt("1.10-1", "1.9-1")
  {
  }

  /** The catalog ranks versions by plain string order, which is not
      `cmpfullver`: `1.10-1` is ranked below `1.9-1` although `RPMVersion`
      orders it above. */
  lemma StringRankIsNotVersionOrder()
    ensures StrLt("1.10-1", "1.9-1")
    ensures Gt("1.10-1", "1.9-1")
  {
    StringRankOfNumeric();
    NumericPieces();
    NineBelowTen();
    CmpVerIsTotalPreorder("1.9", "1.10", "1.9");
    VersionDecides("1.10-1", "1.9-1", "1.10", "1", "1.9", "1");
  }
}
