/** Fractions as numerator/denominator pairs, the form in which Go's
    math/big Rat values are written and read as text.

    Arithmetic on execution segments is done on Dafny's exact `real`; a Rat
    is the written form of such a value, Val(q) its meaning. Reduce brings a
    pair to lowest terms, the form big.Rat keeps and prints. */
module Rationals {

  type PosInt = n: int | n > 0 witness 1

  datatype Rat = Rat(num: int, den: PosInt)

  /** The exact value of a fraction. */
  function Val(q: Rat): real {
    q.num as real / q.den as real
  }

  lemma ValTimesDen(q: Rat)
    ensures Val(q) * q.den as real == q.num as real
  {
  }

  /** Two fractions are equal in value iff their cross products agree. */
  lemma {:induction false} ValEqCross(p: Rat, q: Rat)
    ensures Val(p) == Val(q) <==> p.num * q.den == q.num * p.den
  {
    ValLessCross(p, q);
    ValLessCross(q, p);
  }

  /** Ordering of fractions by cross multiplication with positive denominators. */
  lemma {:induction false} ValLessCross(p: Rat, q: Rat)
    ensures Val(p) < Val(q) <==> p.num * q.den < q.num * p.den
  {
    var a, b, c, d := p.num as real, p.den as real, q.num as real, q.den as real;
    ValTimesDen(p);
    ValTimesDen(q);
    assert (p.num * q.den) as real == a * d;
    assert (q.num * p.den) as real == c * b;
    assert a * d == Val(p) * (b * d);
    assert c * b == Val(q) * (b * d);
    assert b * d > 0.0;
  }

  /** d divides a, for a positive d. */
  predicate Divides(d: PosInt, a: int) {
    a % d == 0
  }

  lemma {:induction false} MulDiv(d: PosInt, k: int)
    ensures (d * k) / d == k && Divides(d, d * k)
  {
    var q, r := (d * k) / d, (d * k) % d;
    assert d * k == d * q + r && 0 <= r < d;
    assert d * (k - q) == r;
    MulBound(d, k - q);
  }

  lemma MulBound(d: PosInt, m: int)
    ensures m >= 1 ==> d * m >= d
    ensures m <= -1 ==> d * m + d <= 0
  {
    if m >= 1 {
      assert d * m == d + d * (m - 1);
    } else if m <= -1 {
      assert d * m + d == d * (m + 1);
    }
  }

  lemma DividesFactor(d: PosInt, a: int)
    requires Divides(d, a)
    ensures a == d * (a / d)
  {
  }

  lemma {:induction false} DividesAbs(d: PosInt, n: int)
    requires Divides(d, Abs(n))
    ensures Divides(d, n)
  {
    if n < 0 {
      DividesFactor(d, -n);
      assert n == d * -((-n) / d);
      MulDiv(d, -((-n) / d));
    }
  }

  /** Greatest common divisor by Euclid's algorithm. */
  function Gcd(a: nat, b: nat): (g: nat)
    requires a + b > 0
    ensures g > 0
    decreases a
  {
    if a == 0 then b else Gcd(b % a, a)
  }

  lemma {:induction false} GcdDivides(a: nat, b: nat)
    requires a + b > 0
    ensures Divides(Gcd(a, b), a) && Divides(Gcd(a, b), b)
    decreases a
  {
    if a == 0 {
      MulDiv(b, 0);
      MulDiv(b, 1);
    } else {
      var g := Gcd(b % a, a);
      GcdDivides(b % a, a);
      DividesFactor(g, b % a);
      DividesFactor(g, a);
      var x, y := (b % a) / g, a / g;
      assert b == (b / a) * a + b % a;
      assert b == g * ((b / a) * y + x);
      MulDiv(g, (b / a) * y + x);
    }
  }

  /** Every common divisor of a and b divides Gcd(a, b). */
  lemma {:induction false} GcdGreatest(a: nat, b: nat, d: PosInt)
    requires a + b > 0 && Divides(d, a) && Divides(d, b)
    ensures Divides(d, Gcd(a, b))
    decreases a
  {
    if a != 0 {
      DividesFactor(d, a);
      DividesFactor(d, b);
      var x, y := a / d, b / d;
      assert b % a == b - (b / a) * a;
      assert b % a == d * (y - (b / a) * x);
      MulDiv(d, y - (b / a) * x);
      GcdGreatest(b % a, a, d);
    }
  }

  /** A fraction is in lowest terms. */
  predicate Reduced(q: Rat) {
    Gcd(Abs(q.num), q.den) == 1
  }

  /** Divides numerator and denominator by their greatest common divisor. */
  function Reduce(q: Rat): (r: Rat)
    ensures Val(r) == Val(q)
    ensures Reduced(r)
  {
    var g := Gcd(Abs(q.num), q.den);
    ReducedByGcd(q.num, q.den, g);
    var r := Rat(q.num / g, q.den / g);
    CrossScaled(q.num, q.den, g, r.num, r.den);
    ValEqCross(q, r);
    r
  }

  lemma CrossScaled(n: int, d: int, g: int, x: int, y: int)
    requires n == g * x && d == g * y
    ensures n * y == x * d
  {
    assert n * y == g * (x * y);
    assert x * d == g * (x * y);
  }

  function Abs(n: int): nat {
    if n < 0 then -n else n
  }

  lemma {:induction false} MulDivides(g: PosInt, h: PosInt, x: int)
    requires Divides(h, x)
    ensures Divides(g * h, g * x)
  {
    DividesFactor(h, x);
    assert g * x == (g * h) * (x / h);
    MulDiv(g * h, x / h);
  }

  lemma {:induction false} DividesOwnMultiple(g: PosInt, h: PosInt)
    requires Divides(g * h, g)
    ensures h == 1
  {
    DividesFactor(g * h, g);
    var z := g / (g * h);
    assert g == g * (h * z);
    assert h * z == 1;
  }

  lemma {:induction false} ReducedByGcd(n: int, d: PosInt, g: PosInt)
    requires g == Gcd(Abs(n), d)
    ensures n == g * (n / g) && d == g * (d / g) && d / g > 0
    ensures Reduced(Rat(n / g, d / g))
  {
    GcdDivides(Abs(n), d);
    DividesAbs(g, n);
    DividesFactor(g, n);
    DividesFactor(g, d);
    var x, y := n / g, d / g;
    assert Abs(n) == g * Abs(x);
    var h := Gcd(Abs(x), y);
    GcdDivides(Abs(x), y);
    MulDivides(g, h, Abs(x));
    MulDivides(g, h, y);
    GcdGreatest(Abs(n), d, g * h);
    DividesOwnMultiple(g, h);
  }

  /** Reducing a fraction already in lowest terms leaves it as it is. */
  lemma ReduceReduced(q: Rat)
    requires Reduced(q)
    ensures Reduce(q) == q
  {
  }

  /** 0 in lowest terms is 0/1. */
  lemma ZeroLowestTerms(q: Rat)
    requires Reduced(q) && Val(q) == 0.0
    ensures q == Rat(0, 1)
  {
    ValEqCross(q, Rat(0, 1));
  }

  /** 1 in lowest terms is 1/1. */
  lemma OneLowestTerms(q: Rat)
    requires Reduced(q) && Val(q) == 1.0
    ensures q == Rat(1, 1)
  {
    ValEqCross(q, Rat(1, 1));
    GcdSame(q.den);
  }

  lemma GcdSame(n: PosInt)
    ensures Gcd(n, n) == n
  {
    MulDiv(n, 1);
    assert Gcd(n, n) == Gcd(0, n);
  }

  /** Division by a positive m has a unique quotient and remainder. */
  lemma {:induction false} DivModUnique(n: int, m: PosInt, q: int, r: int)
    requires n == q * m + r && 0 <= r < m
    ensures n / m == q && n % m == r
  {
    var q', r' := n / m, n % m;
    assert m * (q - q') == r' - r;
    MulBound(m, q - q');
  }

  /** Scaling both arguments scales the remainder: (k * b) % (k * a) == k * (b % a). */
  lemma {:induction false} ModOfMultiples(k: PosInt, a: PosInt, b: nat)
    ensures (k * b) % (k * a) == k * (b % a)
  {
    var q, r := b / a, b % a;
    assert k * b == q * (k * a) + k * r;
    MulBound(k, a - r);
    assert k * a - k * r == k * (a - r);
    DivModUnique(k * b, k * a, q, k * r);
  }

  /** Gcd(k * a, k * b) == k * Gcd(a, b), by following Euclid's steps. */
  lemma {:induction false} GcdOfMultiples(k: PosInt, a: nat, b: nat)
    requires a + b > 0
    ensures k * a + k * b > 0 && Gcd(k * a, k * b) == k * Gcd(a, b)
    decreases a
  {
    MulBound(k, a + b);
    assert k * a + k * b == k * (a + b);
    if a == 0 {
      assert k * a == 0;
    } else {
      MulBound(k, a);
      ModOfMultiples(k, a, b);
      GcdOfMultiples(k, b % a, a);
      assert Gcd(k * a, k * b) == Gcd((k * b) % (k * a), k * a);
    }
  }

  /** |x * y| == |x| * y for a positive y. */
  lemma AbsOfProduct(x: int, y: PosInt)
    ensures Abs(x * y) == Abs(x) * y
  {
    if x < 0 {
      MulBound(y, -x);
      assert x * y == -((-x) * y);
    }
  }

  /** Lowest terms are unique: two reduced fractions of equal value are the
      same fraction, so every rational prints one way only. */
  lemma {:induction false} ReducedUnique(p: Rat, q: Rat)
    requires Reduced(p) && Reduced(q) && Val(p) == Val(q)
    ensures p == q
  {
    ValEqCross(p, q);
    AbsOfProduct(p.num, q.den);
    AbsOfProduct(q.num, p.den);
    CoprimeCross(Abs(p.num), p.den, Abs(q.num), q.den);
    MulCancel(p.num, q.num, p.den);
  }

  /** a/b == c/d with both in lowest terms forces b == d and a == c. */
  lemma {:induction false} CoprimeCross(a: nat, b: PosInt, c: nat, d: PosInt)
    requires Gcd(a, b) == 1 && Gcd(c, d) == 1 && a * d == c * b
    ensures b == d && a == c
  {
    var x, y := d * a, d * b;
    assert x == b * c && y == b * d;
    ScaledCoprime(d, a, b, x, y);
    ScaledCoprime(b, c, d, x, y);
    MulCancel(a, c, d);
  }

  /** Multiplying a coprime pair by k makes k their greatest common divisor. */
  lemma ScaledCoprime(k: PosInt, a: nat, b: nat, x: nat, y: nat)
    requires a + b > 0 && Gcd(a, b) == 1 && x == k * a && y == k * b
    ensures x + y > 0 && Gcd(x, y) == k
  {
    GcdOfMultiples(k, a, b);
  }

  lemma MulCancel(x: int, y: int, k: PosInt)
    requires x * k == y * k
    ensures x == y
  {
    assert k * (x - y) == 0;
    MulBound(k, x - y);
  }

  /** Every whole number over 1 is in lowest terms. */
  lemma GcdWithOne(a: nat)
    ensures Gcd(a, 1) == 1
  {
    if a > 1 {
      assert 1 % a == 1 && a % 1 == 0;
      assert Gcd(a, 1) == Gcd(1, a) == Gcd(0, 1);
    }
  }

  /** x is a quotient of two integers: the values a big.Rat can hold. */
  ghost predicate IsRational(x: real) {
    exists q: Rat :: Val(q) == x
  }

  /** The lowest-terms fraction whose value is x. */
  ghost function RatOf(x: real): (q: Rat)
    requires IsRational(x)
    ensures Val(q) == x && Reduced(q)
  {
    var p :| Val(p) == x;
    Reduce(p)
  }
}
