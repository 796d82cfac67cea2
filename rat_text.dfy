/** Decimal text for integers and fractions: the subset of math/big's
    Int.SetString (base 10), Rat.SetString and Rat.RatString that the
    execution segment code relies on.

    Accepted rational forms are an optionally signed integer, an optionally
    signed decimal with digits on both sides of the point, and an optionally
    signed fraction whose numerator and denominator are written without
    leading zeros (math/big would read a leading zero there as an octal
    prefix) and whose denominator is not zero. */
module RatText {
  import opened Rationals
  import opened Wrappers

  predicate IsDigit(c: char) {
    '0' <= c <= '9'
  }

  predicate AllDigits(s: string) {
    forall i :: 0 <= i < |s| ==> IsDigit(s[i])
  }

  /** One or more digits, with no leading zero unless the number is zero. */
  predicate Canonical(s: string) {
    |s| > 0 && AllDigits(s) && (s[0] == '0' ==> |s| == 1)
  }

  function DigitValue(c: char): nat
    requires IsDigit(c)
  {
    c as int - '0' as int
  }

  function DigitChar(d: nat): (c: char)
    requires d < 10
    ensures IsDigit(c) && DigitValue(c) == d
  {
    ('0' as int + d) as char
  }

  /** The number a string of decimal digits denotes, most significant first. */
  function DigitsValue(s: string): nat
    requires AllDigits(s)
  {
    if s == [] then 0 else DigitsValue(s[..|s| - 1]) * 10 + DigitValue(s[|s| - 1])
  }

  /** Decimal rendering of a natural number, as big.Int's String does it. */
  function NatDigits(n: nat): (s: string)
    ensures Canonical(s)
    ensures DigitsValue(s) == n
    ensures s[0] == '0' <==> n == 0
  {
    if n < 10 then [DigitChar(n)]
    else
      var s := NatDigits(n / 10) + [DigitChar(n % 10)];
      assert s[..|s| - 1] == NatDigits(n / 10);
      s
  }

  /** Canonical digit strings are exactly the renderings of their values. */
  lemma {:induction false} CanonicalUnique(s: string)
    requires Canonical(s)
    ensures NatDigits(DigitsValue(s)) == s
    decreases |s|
  {
    if |s| > 1 {
      var p := s[..|s| - 1];
      assert Canonical(p) by {
        assert p[0] == s[0];
      }
      CanonicalUnique(p);
      var v, d := DigitsValue(s), DigitValue(s[|s| - 1]);
      assert v == DigitsValue(p) * 10 + d && DigitsValue(p) > 0;
      assert v / 10 == DigitsValue(p) && v % 10 == d;
      assert DigitChar(d) == s[|s| - 1];
      assert s == p + [s[|s| - 1]];
    }
  }

  /** Ten to the power k. */
  function Pow10(k: nat): (r: PosInt) {
    if k == 0 then 1 else 10 * Pow10(k - 1)
  }

  /** Decimal rendering of an integer, with a leading '-' when negative. */
  function IntString(n: int): (s: string)
    ensures |s| > 0
  {
    if n < 0 then "-" + NatDigits(-n) else NatDigits(n)
  }

  /** The sign prefix of a number: its length (0 or 1) and its factor. */
  function SignOf(s: string): (r: (nat, int))
    ensures r.0 <= |s|
    ensures r.1 == 1 || r.1 == -1
  {
    if |s| > 0 && s[0] == '-' then (1, -1)
    else if |s| > 0 && s[0] == '+' then (1, 1)
    else (0, 1)
  }

  /** big.Int's SetString(s, 10): an optional sign and one or more digits. */
  function ParseInt(s: string): (r: Option<int>)
    ensures r.Some? <==> |s| > SignOf(s).0 && AllDigits(s[SignOf(s).0..])
  {
    var (k, sign) := SignOf(s);
    var digits := s[k..];
    if |digits| > 0 && AllDigits(digits) then Some(sign * DigitsValue(digits)) else None
  }

  /** The position of the first c in s, or |s| when there is none. */
  function IndexOf(s: string, c: char): (i: nat)
    ensures i <= |s|
    ensures i < |s| ==> s[i] == c
    ensures forall j :: 0 <= j < i ==> s[j] != c
  {
    if s == [] then 0
    else if s[0] == c then 0
    else 1 + IndexOf(s[1..], c)
  }

  /** big.Rat's SetString over the forms this model accepts: an integer,
      a decimal "i.f", or a fraction "n/d" split at the first '/'. Text it
      accepts holds only digits, signs, '.' and '/', and ends in a digit. */
  function ParseRat(s: string): (r: Option<Rat>)
    ensures r.Some? ==> |s| > 0 && IsDigit(s[|s| - 1])
    ensures r.Some? ==> NumberChars(s)
  {
    var slash := IndexOf(s, '/');
    var (k, sign) := SignOf(s);
    if slash < |s| then
      var n, d := s[..slash], s[slash + 1..];
      if k <= slash && Canonical(n[k..]) && Canonical(d) && DigitsValue(d) > 0 then
        SignedDigitsChars(n, k);
        SignedDigitsChars(d, 0);
        SeparatedChars(s, slash);
        Some(Rat(sign * DigitsValue(n[k..]), DigitsValue(d)))
      else None
    else
      var point := IndexOf(s, '.');
      if point < |s| then ParseDecimal(s, k, sign, point)
      else
        match ParseInt(s)
        case Some(n) =>
          SignedDigitsChars(s, k);
          Some(Rat(n, 1))
        case None => None
  }

  /** The decimal form "i.f" after a sign prefix of length k, with the
      point at index point: big.Rat reads the digits on both sides as one
      mantissa and divides it by 10 to the number of fractional digits. */
  function ParseDecimal(s: string, k: nat, sign: int, point: nat): (r: Option<Rat>)
    requires point < |s| && s[point] == '.' && k <= 1 && k <= |s| && (k == 1 ==> s[0] in "+-")
    ensures r.Some? ==> IsDigit(s[|s| - 1]) && NumberChars(s)
  {
    var i, f := s[k..point], s[point + 1..];
    if k <= point && |i| > 0 && AllDigits(i) && |f| > 0 && AllDigits(f) then
      assert s[..point][k..] == i;
      SignedDigitsChars(s[..point], k);
      SignedDigitsChars(f, 0);
      SeparatedChars(s, point);
      DigitsJoinAll(i, f);
      Some(Rat(sign * DigitsValue(i + f), Pow10(|f|)))
    else None
  }

  /** Text made of digits, signs, '.' and '/' only. */
  predicate NumberChars(s: string) {
    forall i :: 0 <= i < |s| ==> IsDigit(s[i]) || s[i] in "+-./"
  }

  /** A sign prefix of length k followed by digits. */
  lemma SignedDigitsChars(s: string, k: nat)
    requires k <= 1 && k <= |s| && (k == 1 ==> s[0] in "+-") && AllDigits(s[k..])
    ensures NumberChars(s)
  {
    forall i | 0 <= i < |s|
      ensures IsDigit(s[i]) || s[i] in "+-./"
    {
      if i >= k {
        assert s[i] == s[k..][i - k];
      } else {
        assert s[i] == '+' || s[i] == '-';
      }
    }
  }

  /** Two number texts joined by '.' or '/'. */
  lemma SeparatedChars(s: string, m: nat)
    requires m < |s| && s[m] in "./" && NumberChars(s[..m]) && NumberChars(s[m + 1..])
    ensures NumberChars(s)
  {
    forall i | 0 <= i < |s|
      ensures IsDigit(s[i]) || s[i] in "+-./"
    {
      if i < m {
        assert s[i] == s[..m][i];
      } else if i > m {
        assert s[i] == s[m + 1..][i - m - 1];
      }
    }
  }

  /** big.Rat's RatString: "a/b" in lowest terms, or "a" when b is 1. The
      text is digits with an optional '-' and a '/' exactly when the
      reduced denominator is not 1, and it ends in a digit. */
  function RatString(q: Rat): (r: string)
    ensures |r| > 0 && IsDigit(r[|r| - 1])
    ensures forall i :: 0 <= i < |r| ==> IsDigit(r[i]) || r[i] == '-' || r[i] == '/'
    ensures '/' in r <==> Reduce(q).den != 1
  {
    var t := Reduce(q);
    IntStringChars(t.num);
    if t.den == 1 then IntString(t.num) else IntString(t.num) + "/" + NatDigits(t.den)
  }

  lemma IntStringChars(n: int)
    ensures forall i :: 0 <= i < |IntString(n)| ==> IsDigit(IntString(n)[i]) || IntString(n)[i] == '-'
    ensures IntString(n)[0] == '-' <==> n < 0
  {
  }

  /** Printed integers read back as themselves. */
  lemma IntStringParses(n: int)
    ensures ParseInt(IntString(n)) == Some(n)
  {
    var s := IntString(n);
    if n < 0 {
      assert s[1..] == NatDigits(-n);
    }
  }

  /** Printing a fraction and reading it back yields its lowest-terms form. */
  lemma RatStringParses(q: Rat)
    ensures ParseRat(RatString(q)) == Some(Reduce(q))
  {
    var r := Reduce(q);
    if r.den == 1 {
      IntegerParses(r);
    } else {
      FractionParses(r);
    }
  }

  /** A whole number prints without '/' and reads back as itself over 1. */
  lemma IntegerParses(r: Rat)
    requires r.den == 1
    ensures ParseRat(IntString(r.num)) == Some(r)
  {
    var a := IntString(r.num);
    IntStringChars(r.num);
    IntStringParses(r.num);
    assert IndexOf(a, '/') == |a|;
    assert IndexOf(a, '.') == |a|;
  }

  /** "a/b" with b > 1 reads back as the fraction a/b. */
  lemma FractionParses(r: Rat)
    requires r.den != 1
    ensures ParseRat(IntString(r.num) + "/" + NatDigits(r.den)) == Some(r)
  {
    var a, d := IntString(r.num), NatDigits(r.den);
    var s := a + "/" + d;
    SlashAfterInteger(r.num, d);
    IntStringSign(r.num);
    var (k, sign) := SignOf(a);
    assert SignOf(s) == (k, sign);
    ReadFraction(s, a, d, k, sign);
    assert DigitsValue(a[k..]) == Abs(r.num) && DigitsValue(d) == r.den;
  }

  /** The first '/' of a printed integer followed by "/" is right after it. */
  lemma SlashAfterInteger(n: int, d: string)
    ensures IndexOf(IntString(n) + "/" + d, '/') == |IntString(n)|
  {
    var a := IntString(n);
    var s := a + "/" + d;
    IntStringChars(n);
    assert s[|a|] == '/';
    assert forall j :: 0 <= j < |a| ==> s[j] == a[j];
    IndexOfFirst(s, '/', |a|);
  }

  /** ParseRat on text "n/d" whose first '/' separates n and d. */
  lemma ReadFraction(s: string, n: string, d: string, k: nat, sign: int)
    requires s == n + "/" + d && IndexOf(s, '/') == |n|
    requires SignOf(s) == (k, sign) && k <= |n|
    requires Canonical(n[k..]) && Canonical(d) && DigitsValue(d) > 0
    ensures ParseRat(s) == Some(Rat(sign * DigitsValue(n[k..]), DigitsValue(d)))
  {
    assert s[..|n|] == n && s[|n| + 1..] == d;
  }

  /** The sign prefix of a printed integer and the digits after it. */
  lemma IntStringSign(n: int)
    ensures SignOf(IntString(n)).0 <= |IntString(n)|
    ensures IntString(n)[SignOf(IntString(n)).0..] == NatDigits(Abs(n))
    ensures SignOf(IntString(n)).1 * Abs(n) == n
  {
    if n < 0 {
      assert IntString(n)[1..] == NatDigits(-n);
    }
  }

  /** Digits without sign or leading zeros read as a whole number whose
      printed form is that very text. */
  lemma CanonicalIntegerPrints(t: string)
    requires Canonical(t)
    ensures ParseRat(t) == Some(Rat(DigitsValue(t), 1))
    ensures RatString(Rat(DigitsValue(t), 1)) == t
  {
    var v := DigitsValue(t);
    CanonicalUnique(t);
    assert IndexOf(t, '/') == |t| && IndexOf(t, '.') == |t|;
    assert SignOf(t) == (0, 1) && t[0..] == t;
    GcdWithOne(v);
    ReduceReduced(Rat(v, 1));
  }

  /** The factor a sign prefix stands for: -1 for "-", 1 for "+" or none. */
  function PrefixSign(sgn: string): (r: int)
    ensures r == 1 || r == -1
  {
    if sgn == "-" then -1 else 1
  }

  /** The number written as a whole part a, a decimal point and k fractional
      digits whose value is b: a + b / 10^k. */
  function DecimalNumber(a: nat, b: nat, k: nat): real {
    a as real + b as real / Pow10(k) as real
  }

  /** Decimal text "i.f" reads as its whole part plus its fractional digits
      over the matching power of ten. */
  lemma DecimalValue(i: string, f: string)
    requires |i| > 0 && AllDigits(i) && |f| > 0 && AllDigits(f)
    ensures ParseRat(i + "." + f).Some?
    ensures Val(ParseRat(i + "." + f).value) == DecimalNumber(DigitsValue(i), DigitsValue(f), |f|)
  {
    var s := i + "." + f;
    assert s == "" + s;
    DecimalLayout(s, "", s, i, f);
    ReadDecimal(s, 0, 1, i, f);
    DigitsJoin(i, f);
    ShiftDown(ParseRat(s).value, 1, DigitsValue(i + f), DigitsValue(i), DigitsValue(f), |f|);
  }

  /** With a leading '-', decimal text reads as the negated number. */
  lemma NegativeDecimalValue(i: string, f: string)
    requires |i| > 0 && AllDigits(i) && |f| > 0 && AllDigits(f)
    ensures ParseRat("-" + (i + "." + f)).Some?
    ensures Val(ParseRat("-" + (i + "." + f)).value) == -DecimalNumber(DigitsValue(i), DigitsValue(f), |f|)
  {
    var t := i + "." + f;
    var s := "-" + t;
    DecimalLayout(s, "-", t, i, f);
    ReadDecimal(s, 1, -1, i, f);
    DigitsJoin(i, f);
    ShiftDown(ParseRat(s).value, -1, DigitsValue(i + f), DigitsValue(i), DigitsValue(f), |f|);
  }

  /** An optionally signed run of digits reads as that whole number with
      the sign applied; leading zeros are allowed, as in big.Int. */
  lemma IntegerValue(sgn: string, t: string)
    requires sgn == "" || sgn == "+" || sgn == "-"
    requires |t| > 0 && AllDigits(t)
    ensures ParseRat(sgn + t) == Some(Rat(PrefixSign(sgn) * DigitsValue(t), 1))
  {
    var s := sgn + t;
    NoSeparators(s, sgn, t);
    SignLayout(s, sgn, t);
    IntegerBranch(s, |sgn|, PrefixSign(sgn));
  }

  /** A sign prefix followed by digits holds neither '/' nor '.'. */
  lemma NoSeparators(s: string, sgn: string, t: string)
    requires sgn == "" || sgn == "+" || sgn == "-"
    requires s == sgn + t && AllDigits(t)
    ensures IndexOf(s, '/') == |s| && IndexOf(s, '.') == |s|
  {
    forall j | 0 <= j < |s|
      ensures s[j] != '/' && s[j] != '.'
    {
      if j >= |sgn| {
        assert s[j] == t[j - |sgn|];
      }
    }
    NoneFound(s, '/');
    NoneFound(s, '.');
  }

  /** The sign prefix of text that starts with sgn and then a digit. */
  lemma SignLayout(s: string, sgn: string, t: string)
    requires sgn == "" || sgn == "+" || sgn == "-"
    requires s == sgn + t && |t| > 0 && IsDigit(t[0])
    ensures SignOf(s) == (|sgn|, PrefixSign(sgn)) && s[|sgn|..] == t
  {
    assert s[0] == if sgn == "" then t[0] else sgn[0];
  }

  /** Text with neither '/' nor '.' takes ParseRat's integer branch. */
  lemma IntegerBranch(s: string, k: nat, sign: int)
    requires IndexOf(s, '/') == |s| && IndexOf(s, '.') == |s|
    requires SignOf(s) == (k, sign) && k < |s| && AllDigits(s[k..])
    ensures ParseRat(s) == Some(Rat(sign * DigitsValue(s[k..]), 1))
  {
  }

  /** An optionally signed fraction "n/d" without leading zeros and with a
      nonzero denominator reads as n/d with the sign applied. */
  lemma SignedFractionValue(sgn: string, n: string, d: string)
    requires sgn == "" || sgn == "+" || sgn == "-"
    requires Canonical(n) && Canonical(d) && DigitsValue(d) > 0
    ensures ParseRat(sgn + n + "/" + d) == Some(Rat(PrefixSign(sgn) * DigitsValue(n), DigitsValue(d)))
  {
    var m := sgn + n;
    var s := m + "/" + d;
    assert s[|m|] == '/';
    forall j | 0 <= j < |m|
      ensures s[j] != '/'
    {
      assert s[j] == m[j];
      if j >= |sgn| {
        assert m[j] == n[j - |sgn|];
      }
    }
    IndexOfFirst(s, '/', |m|);
    if sgn == "" {
      assert s[0] == n[0];
    } else {
      assert s[0] == sgn[0];
    }
    assert SignOf(s) == (|sgn|, PrefixSign(sgn));
    assert m[|sgn|..] == n;
    ReadFraction(s, m, d, |sgn|, PrefixSign(sgn));
  }

  /** A '+' before decimal text leaves what it reads unchanged. */
  lemma PlusDecimalValue(i: string, f: string)
    requires |i| > 0 && AllDigits(i) && |f| > 0 && AllDigits(f)
    ensures ParseRat("+" + (i + "." + f)) == ParseRat(i + "." + f)
  {
    var t := i + "." + f;
    var s := "+" + t;
    assert t == "" + t;
    DecimalLayout(t, "", t, i, f);
    DecimalLayout(s, "+", t, i, f);
    ReadDecimal(t, 0, 1, i, f);
    ReadDecimal(s, 1, 1, i, f);
  }

  /** Where the sign, the point and the digits of "i.f" text lie. */
  lemma DecimalLayout(s: string, sgn: string, t: string, i: string, f: string)
    requires sgn == "" || sgn == "+" || sgn == "-"
    requires s == sgn + t && t == i + "." + f
    requires |i| > 0 && AllDigits(i) && AllDigits(f)
    ensures IndexOf(s, '/') == |s|
    ensures IndexOf(s, '.') == |sgn| + |i|
    ensures SignOf(s) == (|sgn|, PrefixSign(sgn))
    ensures s[|sgn|..|sgn| + |i|] == i && s[|sgn| + |i| + 1..] == f
  {
    PointLayout(t, i, f);
    if sgn == "" {
      assert s == t;
    } else {
      assert s[1..] == t && s[0] == sgn[0];
      IndexAfterPrefix(s, t, '/');
      IndexAfterPrefix(s, t, '.');
    }
    SlicesAfterPrefix(s, |sgn|, t, |i|);
  }

  lemma IndexAfterPrefix(s: string, t: string, c: char)
    requires |s| > 0 && s[0] != c && s[1..] == t
    ensures IndexOf(s, c) == 1 + IndexOf(t, c)
  {
  }

  lemma SlicesAfterPrefix(s: string, k: nat, t: string, n: nat)
    requires k <= |s| && s[k..] == t && n < |t|
    ensures s[k..k + n] == t[..n] && s[k + n + 1..] == t[n + 1..]
  {
  }

  /** Where the point of unsigned "i.f" text lies. */
  lemma PointLayout(t: string, i: string, f: string)
    requires t == i + "." + f && |i| > 0 && AllDigits(i) && AllDigits(f)
    ensures IndexOf(t, '/') == |t|
    ensures IndexOf(t, '.') == |i|
    ensures t[..|i|] == i && t[|i| + 1..] == f
    ensures |t| > 0 && IsDigit(t[0])
  {
    forall j | 0 <= j < |t| && j != |i|
      ensures IsDigit(t[j])
    {
      if j < |i| {
        assert t[j] == i[j];
      } else {
        assert t[j] == f[j - |i| - 1];
      }
    }
    IndexOfFirst(t, '.', |i|);
    NoneFound(t, '/');
    assert t[0] == i[0];
  }

  /** ParseRat on text with no '/', whose first '.' separates the digits
      i, after a sign prefix of length k, from the digits f. */
  lemma ReadDecimal(s: string, k: nat, sign: int, i: string, f: string)
    requires IndexOf(s, '/') == |s| && IndexOf(s, '.') == k + |i| < |s|
    requires SignOf(s) == (k, sign)
    requires s[k..k + |i|] == i && s[k + |i| + 1..] == f
    requires |i| > 0 && AllDigits(i) && |f| > 0 && AllDigits(f)
    ensures AllDigits(i + f)
    ensures ParseRat(s) == Some(Rat(sign * DigitsValue(i + f), Pow10(|f|)))
  {
    DecimalBranch(s, k, sign, k + |i|);
    DecimalOfParts(s, k, sign, i, f);
  }

  /** Text with no '/' and a '.' takes ParseRat's decimal branch. */
  lemma DecimalBranch(s: string, k: nat, sign: int, point: nat)
    requires IndexOf(s, '/') == |s| && IndexOf(s, '.') == point < |s|
    requires SignOf(s) == (k, sign)
    ensures s[point] == '.' && k <= 1 && (k == 1 ==> s[0] in "+-")
    ensures ParseRat(s) == ParseDecimal(s, k, sign, point)
  {
  }

  lemma DecimalOfParts(s: string, k: nat, sign: int, i: string, f: string)
    requires k + |i| < |s| && s[k + |i|] == '.' && k <= 1 && (k == 1 ==> s[0] in "+-")
    requires s[k..k + |i|] == i && s[k + |i| + 1..] == f
    requires |i| > 0 && AllDigits(i) && |f| > 0 && AllDigits(f)
    ensures AllDigits(i + f)
    ensures ParseDecimal(s, k, sign, k + |i|) == Some(Rat(sign * DigitsValue(i + f), Pow10(|f|)))
  {
    DigitsJoinAll(i, f);
  }

  /** A fraction "n/d" of digit strings without leading zeros and a nonzero
      denominator reads as n/d, whether or not it is in lowest terms. */
  lemma FractionValue(n: string, d: string)
    requires Canonical(n) && Canonical(d) && DigitsValue(d) > 0
    ensures ParseRat(n + "/" + d) == Some(Rat(DigitsValue(n), DigitsValue(d)))
    ensures Val(ParseRat(n + "/" + d).value) == DigitsValue(n) as real / DigitsValue(d) as real
  {
    var s := n + "/" + d;
    FractionLayout(s, n, d);
    ReadFraction(s, n, d, 0, 1);
  }

  /** Where the slash of "n/d" text lies, with unsigned digits n. */
  lemma FractionLayout(s: string, n: string, d: string)
    requires s == n + "/" + d && |n| > 0 && AllDigits(n)
    ensures IndexOf(s, '/') == |n|
    ensures SignOf(s) == (0, 1) && n[0..] == n
  {
    assert s[|n|] == '/';
    assert forall j :: 0 <= j < |n| ==> s[j] == n[j];
    IndexOfFirst(s, '/', |n|);
    assert s[0] == n[0];
  }

  /** Over a denominator p, shifting a*p + b down gives a plus b over p. */
  lemma ShiftDown(q: Rat, sign: int, m: nat, a: nat, b: nat, k: nat)
    requires m == a * Pow10(k) + b
    requires q == Rat(sign * m, Pow10(k))
    ensures Val(q) == sign as real * DecimalNumber(a, b, k)
  {
    DecimalTimesPower(a, b, k);
    CancelDivisor(sign, m, Pow10(k), DecimalNumber(a, b, k));
  }

  lemma DecimalTimesPower(a: nat, b: nat, k: nat)
    ensures DecimalNumber(a, b, k) * Pow10(k) as real == (a * Pow10(k) + b) as real
  {
  }

  lemma CancelDivisor(sign: int, m: int, p: PosInt, x: real)
    requires m as real == x * p as real
    ensures (sign * m) as real / p as real == sign as real * x
  {
    assert (sign * m) as real == sign as real * m as real;
  }

  lemma DigitsJoinAll(i: string, f: string)
    requires AllDigits(i) && AllDigits(f)
    ensures AllDigits(i + f)
  {
    assert forall j :: 0 <= j < |i| ==> (i + f)[j] == i[j];
    assert forall j :: |i| <= j < |i + f| ==> (i + f)[j] == f[j - |i|];
  }

  /** Digits written after other digits shift them up by a power of ten:
      the value of i + f is i's value times 10^|f| plus f's value. */
  lemma {:induction false} DigitsJoin(i: string, f: string)
    requires AllDigits(i) && AllDigits(f)
    ensures AllDigits(i + f)
    ensures DigitsValue(i + f) == DigitsValue(i) * Pow10(|f|) + DigitsValue(f)
    decreases |f|
  {
    DigitsJoinAll(i, f);
    if f == [] {
      assert i + f == i;
    } else {
      var g, d := f[..|f| - 1], f[|f| - 1];
      assert (i + f)[..|i + f| - 1] == i + g;
      assert (i + f)[|i + f| - 1] == d;
      DigitsJoin(i, g);
      assert DigitsValue(i + f) == DigitsValue(i + g) * 10 + DigitValue(d);
      assert DigitsValue(f) == DigitsValue(g) * 10 + DigitValue(d);
      ShiftOneDigit(DigitsValue(i), DigitsValue(g), Pow10(|g|), DigitValue(d));
    }
  }

  lemma ShiftOneDigit(x: int, y: int, p: int, d: int)
    ensures (x * p + y) * 10 + d == x * (10 * p) + (y * 10 + d)
  {
  }

  lemma NoneFound(s: string, c: char)
    requires forall j :: 0 <= j < |s| ==> s[j] != c
    ensures IndexOf(s, c) == |s|
  {
  }

  lemma IndexOfFirst(s: string, c: char, i: nat)
    requires i < |s| && s[i] == c
    requires forall j :: 0 <= j < i ==> s[j] != c
    ensures IndexOf(s, c) == i
  {
  }
}
