/** Python 2 `int(s)` on a byte string (base 10) and `'%d' % n`. */
module Numbers {
  import opened Outcomes
  import opened Text

  predicate IsDigit(c: char) { '0' <= c <= '9' }

  predicate AllDigits(s: string) {
    forall i :: 0 <= i < |s| ==> IsDigit(s[i])
  }

  /** The value of a string of decimal digits (leading zeros allowed). */
  function DigitsValue(s: string): (n: nat)
    requires AllDigits(s)
  {
    if |s| == 0 then 0
    else 10 * DigitsValue(s[..|s| - 1]) + (s[|s| - 1] as int - '0' as int)
  }

  /** Python 2 `int(s)`: optional leading whitespace, an optional sign that
      may itself be followed by whitespace, one or more ASCII digits, then
      optional trailing whitespace; anything else raises `ValueError`, shown
      here as `None`. */
  function ParseInt(s: string): Option<int> {
    var t := StripLeft(s);
    if |t| > 0 && (t[0] == '-' || t[0] == '+') then
      match ParseDigits(StripLeft(t[1..]))
      case Some(n) => Some(if t[0] == '-' then -(n as int) else n as int)
      case None => None
    else ParseDigits(t)
  }

  /** The digits of `int(s)` after the sign: one or more ASCII digits,
      optionally followed by whitespace. */
  function ParseDigits(s: string): (r: Option<nat>) {
    var body := StripRight(s);
    if |body| > 0 && AllDigits(body) then Some(DigitsValue(body)) else None
  }

  function DigitChar(d: nat): (c: char)
    requires d < 10
    ensures IsDigit(c) && c as int - '0' as int == d
  {
    ('0' as int + d) as char
  }

  /** `'%d' % n` for a non-negative `n`: its decimal digits without leading zeros. */
  function NatToStr(n: nat): (s: string)
    ensures |s| > 0 && AllDigits(s) && DigitsValue(s) == n
    ensures s[0] == '0' ==> n == 0
  {
    if n < 10 then [DigitChar(n)]
    else
      var s := NatToStr(n / 10) + [DigitChar(n % 10)];
      assert s[..|s| - 1] == NatToStr(n / 10);
      s
  }

  /** `'%d' % n`. */
  function IntToStr(n: int): (s: string)
    ensures |s| > 0
    ensures n < 0 <==> s[0] == '-'
  {
    if n < 0 then "-" + NatToStr(-n) else NatToStr(n)
  }

  lemma NoSpaceStrips(s: string)
    requires forall i :: 0 <= i < |s| ==> !IsSpace(s[i])
    ensures StripLeft(s) == s && StripRight(s) == s
  {
  }

  /** `int()` of a plain run of digits is its decimal value. */
  lemma ParseIntOfDigits(s: string)
    requires |s| > 0 && AllDigits(s)
    ensures ParseInt(s) == Some(DigitsValue(s))
  {
    NoSpaceStrips(s);
  }

  /** `int()` rejects a string that starts with anything but whitespace, a sign or a digit. */
  lemma ParseIntRejects(s: string)
    requires |s| > 0 && !IsSpace(s[0]) && !IsDigit(s[0]) && s[0] != '-' && s[0] != '+'
    ensures ParseInt(s) == None
  {
    assert StripLeft(s) == s;
    var body := StripRight(s);
    assert |body| > 0 ==> body[0] == s[0];
  }

  /** `int('%d' % n) == n`: formatting an integer and parsing it back is the identity. */
  lemma {:induction false} ParseIntOfIntToStr(n: int)
    ensures ParseInt(IntToStr(n)) == Some(n)
  {
    var s := IntToStr(n);
    NoSpaceStrips(s);
    if n < 0 {
      assert s[1..] == NatToStr(-n);
      NoSpaceStrips(s[1..]);
    } else {
      assert s == NatToStr(n);
    }
  }

  function Pow10(n: nat): (r: nat)
    ensures r >= 1
  {
    if n == 0 then 1 else 10 * Pow10(n - 1)
  }

  /** Reading `u + v` as digits shifts `u` left by the length of `v`. */
  lemma {:induction false} DigitsValueAppend(u: string, v: string)
    requires AllDigits(u) && AllDigits(v)
    ensures AllDigits(u + v)
    ensures DigitsValue(u + v) == DigitsValue(u) * Pow10(|v|) + DigitsValue(v)
  {
    if |v| == 0 {
      assert u + v == u;
    } else {
      var w := v[..|v| - 1];
      assert (u + v)[..|u + v| - 1] == u + w;
      assert (u + v)[|u + v| - 1] == v[|v| - 1];
      var c := v[|v| - 1] as int - '0' as int;
      DigitsValueAppend(u, w);
      assert DigitsValue(u + v) == 10 * DigitsValue(u + w) + c;
      assert DigitsValue(v) == 10 * DigitsValue(w) + c;
      ShiftArith(DigitsValue(u), DigitsValue(w), Pow10(|w|), c);
    }
  }

  lemma ShiftArith(du: int, dw: int, p: int, c: int)
    ensures 10 * (du * p + dw) + c == du * (10 * p) + (10 * dw + c)
  {
  }

  lemma FirstDifferenceArith(dx: nat, dy: nat, pw: nat, ds: nat, dt: nat)
    requires dx + 1 <= dy && ds < pw
    ensures dx * pw + ds < dy * pw + dt
  {
    var k := dy - dx;
    MulDistributes(dx, k, pw);
    MulAtLeast(k, pw);
  }

  lemma MulDistributes(a: int, b: int, c: int)
    ensures (a + b) * c == a * c + b * c
  {
  }

  lemma MulAtLeast(k: int, c: nat)
    requires k >= 1
    ensures k * c >= c
  {
    MulDistributes(k - 1, 1, c);
  }

  /** `n` digits read as a number stay below `10^n`. */
  lemma {:induction false} DigitsValueBelow(v: string)
    requires AllDigits(v)
    ensures DigitsValue(v) < Pow10(|v|)
  {
    if |v| > 0 {
      DigitsValueBelow(v[..|v| - 1]);
    }
  }

  /** Two digit strings of equal length that agree up to a position compare
      as their digits at that position: the first difference decides. */
  lemma DigitsFirstDifference(p: string, a: char, b: char, s: string, t: string)
    requires AllDigits(p) && IsDigit(a) && IsDigit(b) && AllDigits(s) && AllDigits(t)
    requires a < b && |s| == |t|
    ensures AllDigits(p + [a] + s) && AllDigits(p + [b] + t)
    ensures DigitsValue(p + [a] + s) < DigitsValue(p + [b] + t)
  {
    var x, y := p + [a], p + [b];
    assert x[..|x| - 1] == p && y[..|y| - 1] == p;
    assert DigitsValue(x) + 1 <= DigitsValue(y);
    DigitsValueAppend(x, s);
    DigitsValueAppend(y, t);
    DigitsValueBelow(s);
    FirstDifferenceArith(DigitsValue(x), DigitsValue(y), Pow10(|s|), DigitsValue(s), DigitsValue(t));
    assert p + [a] + s == x + s && p + [b] + t == y + t;
  }
}
