/** Scaling by an execution segment: an integer amount of work (such as a
    number of VUs or iterations) is turned into this segment's share of it,
    and a rational amount is multiplied by the segment's length. */
module Scaling {
  import opened Segments

  /** Rounding toward zero, the quotient of big.Int's QuoRem. */
  function Trunc(x: real): (r: int)
    ensures x >= 0.0 ==> 0.0 <= r as real <= x < r as real + 1.0
    ensures x < 0.0 ==> r as real - 1.0 < x <= r as real <= 0.0
  {
    if x >= 0.0 then x.Floor else -((-x).Floor)
  }

  /** roundUp: the truncated quotient, plus one when twice the remainder
      reaches the denominator. In terms of the value, the remainder over
      the denominator is x - Trunc(x). */
  function RoundUp(x: real): (r: int)
    ensures x < 0.0 ==> r == Trunc(x)
    ensures x >= -0.5 ==> r as real - 0.5 <= x < r as real + 0.5
  {
    var quo := Trunc(x);
    if 2.0 * (x - quo as real) >= 1.0 then quo + 1 else quo
  }

  /** Rounding to the nearest integer, halves going up. */
  function Round(x: real): (r: int)
    ensures r as real - 0.5 <= x < r as real + 0.5
  {
    (x + 0.5).Floor
  }

  /** The nearest integer is unique. */
  lemma RoundUnique(x: real, k: int)
    requires k as real - 0.5 <= x < k as real + 0.5
    ensures Round(x) == k
  {
  }

  /** roundUp rounds to the nearest integer, halves up, for every x >= -1/2
      (below that it rounds toward zero instead). */
  lemma RoundUpIsRound(x: real)
    requires x >= -0.5
    ensures RoundUp(x) == Round(x)
  {
    RoundUnique(x, RoundUp(x));
  }

  /** Below -1/2 roundUp and nearest rounding part ways. */
  lemma RoundUpNegative()
    ensures RoundUp(-0.75) == 0 && Round(-0.75) == -1
  {
    RoundUnique(-0.75, -1);
  }

  lemma RoundMonotone(x: real, y: real)
    requires x <= y
    ensures Round(x) <= Round(y)
  {
  }

  lemma RoundShift(x: real, k: int)
    ensures Round(x - k as real) == Round(x) - k
  {
    RoundUnique(x - k as real, Round(x) - k);
  }

  /** Rounding up, to the least integer not below x. */
  function Ceil(x: real): (r: int)
    ensures x <= r as real < x + 1.0
  {
    -((-x).Floor)
  }

  lemma CeilUnique(x: real, k: int)
    requires x <= k as real < x + 1.0
    ensures Ceil(x) == k
  {
  }

  /** On values at or below zero roundUp is the ceiling: truncation toward
      zero rounds up there, and the remainder test never fires. */
  lemma RoundUpNonPositive(x: real)
    requires x <= 0.0
    ensures RoundUp(x) == Ceil(x)
  {
    CeilUnique(x, RoundUp(x));
  }

  lemma CeilShift(x: real, k: int)
    ensures Ceil(x - k as real) == Ceil(x) - k
  {
    CeilUnique(x - k as real, Ceil(x) - k);
  }

  /** value * x for an integer value, as repeated addition; kept apart
      from the solver's multiplication so that rounding stays linear. */
  function Times(value: int, x: real): real
    decreases if value < 0 then -value else value
  {
    if value == 0 then 0.0
    else if value < 0 then Times(value + 1, x) - x
    else Times(value - 1, x) + x
  }

  /** Times is the product. */
  lemma {:induction false} TimesIsProduct(value: int, x: real)
    ensures Times(value, x) == value as real * x
    decreases if value < 0 then -value else value
  {
    if value < 0 {
      TimesIsProduct(value + 1, x);
      assert (value + 1) as real * x - x == value as real * x;
    } else if value > 0 {
      TimesIsProduct(value - 1, x);
      assert (value - 1) as real * x + x == value as real * x;
    }
  }

  /** A non-negative multiple of 0 <= x <= y: 0 <= value * x <= value * y. */
  lemma {:induction false} TimesMonotone(value: nat, x: real, y: real)
    requires 0.0 <= x <= y
    ensures 0.0 <= Times(value, x) <= Times(value, y)
  {
    if value > 0 {
      TimesMonotone(value - 1, x, y);
    }
  }

  /** A non-positive multiple of 0 <= x <= y: value * y <= value * x <= 0. */
  lemma {:induction false} TimesAntitone(value: int, x: real, y: real)
    requires value <= 0 && 0.0 <= x <= y
    ensures Times(value, y) <= Times(value, x) <= 0.0
    decreases -value
  {
    if value < 0 {
      TimesAntitone(value + 1, x, y);
    }
  }

  /** value * 1 = value and value * 0 = 0. */
  lemma {:induction false} TimesUnitAndZero(value: int)
    ensures Times(value, 1.0) == value as real
    ensures Times(value, 0.0) == 0.0
    decreases if value < 0 then -value else value
  {
    if value < 0 {
      TimesUnitAndZero(value + 1);
    } else if value > 0 {
      TimesUnitAndZero(value - 1);
    }
  }

  /** An integer amount scaled to a segment: the nil segment keeps all of
      it; otherwise roundUp(value * to - roundUp(value * from)). This is the
      amount at the end minus the amount at the start, each rounded to the
      nearest integer for a non-negative amount and rounded up for a
      negative one. */
  function Scale(s: Segment, value: int): (r: int)
    ensures s.Whole? ==> r == value
    ensures Valid(s) && value >= 0 ==> r == Round(Times(value, Hi(s))) - Round(Times(value, Lo(s)))
    ensures Valid(s) && value < 0 ==> r == Ceil(Times(value, Hi(s))) - Ceil(Times(value, Lo(s)))
  {
    if s.Whole? then
      TimesUnitAndZero(value);
      RoundUnique(value as real, value);
      RoundUnique(0.0, 0);
      CeilUnique(value as real, value);
      CeilUnique(0.0, 0);
      value
    else
      var toValue := Times(value, s.to);
      var fromValue := Times(value, s.from);
      RoundedEnds(value, s.from, s.to);
      RoundUp(toValue - RoundUp(fromValue) as real)
  }

  /** roundUp(b - roundUp(a)) is round(b) - round(a) when 0 <= a <= b. */
  lemma RoundedDifference(a: real, b: real)
    requires 0.0 <= a <= b
    ensures RoundUp(b - RoundUp(a) as real) == Round(b) - Round(a)
  {
    var k := RoundUp(a);
    RoundUpIsRound(a);
    RoundUpIsRound(b - k as real);
    RoundShift(b, k);
  }

  /** roundUp(b - roundUp(a)) is ceil(b) - ceil(a) when b <= a <= 0. */
  lemma CeiledDifference(a: real, b: real)
    requires b <= a <= 0.0
    ensures RoundUp(b - RoundUp(a) as real) == Ceil(b) - Ceil(a)
  {
    var k := RoundUp(a);
    RoundUpNonPositive(a);
    RoundUpNonPositive(b - k as real);
    CeilShift(b, k);
  }

  /** The computation Scale does at the two ends of a segment. */
  lemma RoundedEnds(value: int, from: real, to: real)
    ensures value >= 0 && 0.0 <= from <= to ==>
      RoundUp(Times(value, to) - RoundUp(Times(value, from)) as real)
        == Round(Times(value, to)) - Round(Times(value, from))
    ensures value < 0 && 0.0 <= from <= to ==>
      RoundUp(Times(value, to) - RoundUp(Times(value, from)) as real)
        == Ceil(Times(value, to)) - Ceil(Times(value, from))
  {
    if value >= 0 && 0.0 <= from <= to {
      TimesMonotone(value, from, to);
      RoundedDifference(Times(value, from), Times(value, to));
    } else if value < 0 && 0.0 <= from <= to {
      TimesAntitone(value, from, to);
      CeiledDifference(Times(value, from), Times(value, to));
    }
  }

  /** For a non-negative amount, a segment's share is the rounded product
      at its end minus the rounded product at its start. */
  lemma ScaleRoundsEnds(s: Segment, value: int)
    requires Valid(s) && value >= 0
    ensures Scale(s, value) == Round(value as real * Hi(s)) - Round(value as real * Lo(s))
  {
    ShareOfProducts(Scale(s, value), value, Lo(s), Hi(s));
  }

  lemma ShareOfProducts(share: int, value: int, lo: real, hi: real)
    requires share == Round(Times(value, hi)) - Round(Times(value, lo))
    ensures share == Round(value as real * hi) - Round(value as real * lo)
  {
    RoundOfTimes(value, hi);
    RoundOfTimes(value, lo);
  }

  /** Rounding the repeated sum is rounding the product. */
  lemma RoundOfTimes(value: int, x: real)
    ensures Round(Times(value, x)) == Round(value as real * x)
    ensures Ceil(Times(value, x)) == Ceil(value as real * x)
  {
    TimesIsProduct(value, x);
  }

  /** For a negative amount, a segment's share is the product at its end
      rounded up minus the product at its start rounded up: both roundUp
      calls see values at or below zero, where they round up. */
  lemma ScaleCeilsEnds(s: Segment, value: int)
    requires Valid(s) && value < 0
    ensures Scale(s, value) == Ceil(value as real * Hi(s)) - Ceil(value as real * Lo(s))
  {
    CeiledShareOfProducts(Scale(s, value), value, Lo(s), Hi(s));
  }

  lemma CeiledShareOfProducts(share: int, value: int, lo: real, hi: real)
    requires share == Ceil(Times(value, hi)) - Ceil(Times(value, lo))
    ensures share == Ceil(value as real * hi) - Ceil(value as real * lo)
  {
    RoundOfTimes(value, hi);
    RoundOfTimes(value, lo);
  }

  /** A segment's share of a non-negative amount lies between none and all of it. */
  lemma ScaleBounds(s: Segment, value: int)
    requires Valid(s) && value >= 0
    ensures 0 <= Scale(s, value) <= value
  {
    TimesMonotone(value, Lo(s), Hi(s));
    TimesMonotone(value, Hi(s), 1.0);
    TimesMonotone(value, 0.0, Lo(s));
    TimesUnitAndZero(value);
    RoundMonotone(Times(value, Lo(s)), Times(value, Hi(s)));
    RoundMonotone(0.0, Times(value, Lo(s)));
    RoundMonotone(Times(value, Hi(s)), value as real);
    RoundUnique(value as real, value);
    RoundUnique(0.0, 0);
  }

  /** A segment's share of a negative amount lies between all of it and none. */
  lemma ScaleBoundsNegative(s: Segment, value: int)
    requires Valid(s) && value < 0
    ensures value <= Scale(s, value) <= 0
  {
    TimesAntitone(value, Lo(s), Hi(s));
    TimesAntitone(value, Hi(s), 1.0);
    TimesAntitone(value, 0.0, Lo(s));
    TimesUnitAndZero(value);
    CeilMonotone(Times(value, Hi(s)), Times(value, Lo(s)));
    CeilMonotone(Times(value, Lo(s)), 0.0);
    CeilMonotone(value as real, Times(value, Hi(s)));
    CeilUnique(value as real, value);
    CeilUnique(0.0, 0);
  }

  lemma CeilMonotone(x: real, y: real)
    requires x <= y
    ensures Ceil(x) <= Ceil(y)
  {
  }

  /** Segments that Equal judges equal scale every amount alike. */
  lemma ScaleRespectsEqual(a: Segment, b: Segment, value: int)
    requires Equal(a, b)
    ensures Scale(a, value) == Scale(b, value)
  {
    TimesUnitAndZero(value);
    assert RoundUp(0.0) == 0;
    assert RoundUp(value as real) == value;
  }

  /** An explicit (0, 1] keeps every amount, negative ones included, as the
      nil segment does. */
  lemma ScaleOfFullRange(value: int)
    ensures Scale(Seg(0.0, 1.0, 1.0), value) == value
  {
    ScaleRespectsEqual(Whole, Seg(0.0, 1.0, 1.0), value);
  }

  /** The shares of a run of consecutive segments, added up. */
  function ScaleSum(parts: seq<Segment>, value: int): int {
    if parts == [] then 0 else Scale(parts[0], value) + ScaleSum(parts[1..], value)
  }

  /** Conservation: over segments laid end to end from a to b, the shares
      of a non-negative amount add up to the rounded amount at b minus the
      rounded amount at a; no unit is lost or counted twice. */
  lemma ScaleSumTelescopes(parts: seq<Segment>, a: real, b: real, value: int)
    requires Chain(parts, a, b) && value >= 0
    ensures ScaleSum(parts, value) == Round(value as real * b) - Round(value as real * a)
  {
    ScaleSumOfTimes(parts, a, b, value);
    RoundOfTimes(value, a);
    RoundOfTimes(value, b);
  }

  /** The telescoping sum, with the amounts at the ends written as Times. */
  lemma {:induction false} ScaleSumOfTimes(parts: seq<Segment>, a: real, b: real, value: int)
    requires Chain(parts, a, b) && value >= 0
    ensures ScaleSum(parts, value) == Round(Times(value, b)) - Round(Times(value, a))
    decreases |parts|
  {
    if |parts| > 1 {
      var rest := parts[1..];
      assert Chain(rest, Hi(parts[0]), b) by {
        assert forall i :: 0 <= i < |rest| ==> rest[i] == parts[i + 1];
      }
      ScaleSumOfTimes(rest, Hi(parts[0]), b, value);
    }
  }

  /** Conservation for negative amounts: over segments laid end to end
      from a to b, the shares add up to the amount at b rounded up minus
      the amount at a rounded up. */
  lemma ScaleSumTelescopesNegative(parts: seq<Segment>, a: real, b: real, value: int)
    requires Chain(parts, a, b) && value < 0
    ensures ScaleSum(parts, value) == Ceil(value as real * b) - Ceil(value as real * a)
  {
    ScaleSumOfNegativeTimes(parts, a, b, value);
    RoundOfTimes(value, a);
    RoundOfTimes(value, b);
  }

  /** The telescoping sum for a negative amount, ends written as Times. */
  lemma {:induction false} ScaleSumOfNegativeTimes(parts: seq<Segment>, a: real, b: real, value: int)
    requires Chain(parts, a, b) && value < 0
    ensures ScaleSum(parts, value) == Ceil(Times(value, b)) - Ceil(Times(value, a))
    decreases |parts|
  {
    if |parts| > 1 {
      var rest := parts[1..];
      assert Chain(rest, Hi(parts[0]), b) by {
        assert forall i :: 0 <= i < |rest| ==> rest[i] == parts[i + 1];
      }
      ScaleSumOfNegativeTimes(rest, Hi(parts[0]), b, value);
    }
  }

  /** Segments covering the whole run share out every unit exactly, for
      amounts of either sign. */
  lemma ScaleSumOfWholeRun(parts: seq<Segment>, value: int)
    requires Chain(parts, 0.0, 1.0)
    ensures ScaleSum(parts, value) == value
  {
    assert Lo(Whole) == 0.0 && Hi(Whole) == 1.0;
    ScaleSumOfCover(Whole, parts, value);
  }

  /** Segments covering a segment, such as the parts Split returns, share
      out exactly that segment's share, for amounts of either sign. */
  lemma ScaleSumOfCover(s: Segment, parts: seq<Segment>, value: int)
    requires Valid(s) && Chain(parts, Lo(s), Hi(s))
    ensures ScaleSum(parts, value) == Scale(s, value)
  {
    if value >= 0 {
      ScaleSumOfTimes(parts, Lo(s), Hi(s), value);
    } else {
      ScaleSumOfNegativeTimes(parts, Lo(s), Hi(s), value);
    }
  }

  /** Thirds of ten and of minus ten: 3, 4, 3 and -3, -3, -4. */
  lemma ScaleThirdsNegativeExample()
    ensures Scale(Seg(0.0, 1.0 / 3.0, 1.0 / 3.0), -10) == -3
    ensures Scale(Seg(1.0 / 3.0, 2.0 / 3.0, 1.0 / 3.0), -10) == -3
    ensures Scale(Seg(2.0 / 3.0, 1.0, 1.0 / 3.0), -10) == -4
  {
    TimesIsProduct(-10, 1.0 / 3.0);
    TimesIsProduct(-10, 2.0 / 3.0);
    TimesUnitAndZero(-10);
    CeilUnique(-10.0 / 3.0, -3);
    CeilUnique(-20.0 / 3.0, -6);
  }

  /** Thirds of ten: 3, 4 and 3. */
  lemma ScaleThirdsExample()
    ensures Scale(Seg(0.0, 1.0 / 3.0, 1.0 / 3.0), 10) == 3
    ensures Scale(Seg(1.0 / 3.0, 2.0 / 3.0, 1.0 / 3.0), 10) == 4
    ensures Scale(Seg(2.0 / 3.0, 1.0, 1.0 / 3.0), 10) == 3
  {
    TimesIsProduct(10, 1.0 / 3.0);
    TimesIsProduct(10, 2.0 / 3.0);
    TimesUnitAndZero(10);
    RoundUnique(10.0 / 3.0, 3);
    RoundUnique(20.0 / 3.0, 7);
  }

  /** A big.Rat reached through a pointer. */
  class BigRat {
    var value: real

    constructor (value: real)
      ensures this.value == value
    {
      this.value := value;
    }
  }

  /** A rational amount scaled to a segment: multiplied by its length,
      the nil segment's length being 1. */
  function ScaleRat(s: Segment, value: real): (r: real)
    ensures s.Whole? ==> r == value
    ensures Valid(s) ==> r == (Hi(s) - Lo(s)) * value
  {
    Len(s) * value
  }

  /** Multiplies the argument by the segment's length in place and returns
      that same object; for the nil segment the object is left as it is. */
  method InPlaceScaleRat(s: Segment, x: BigRat) returns (r: BigRat)
    modifies x
    ensures r == x
    ensures x.value == ScaleRat(s, old(x.value))
    ensures s.Whole? ==> x.value == old(x.value)
  {
    if s.Whole? {
      return x;
    }
    x.value := x.value * s.length;
    return x;
  }

  /** Returns a new object holding the scaled value, leaving the argument
      untouched; for the nil segment it returns the argument itself. */
  method CopyScaleRat(s: Segment, x: BigRat) returns (r: BigRat)
    ensures s.Whole? ==> r == x
    ensures s.Seg? ==> fresh(r) && r.value == ScaleRat(s, x.value)
    ensures x.value == old(x.value)
  {
    if s.Whole? {
      return x;
    }
    r := new BigRat(x.value * s.length);
  }

  /** Scaling by a sub-segment is scaling by the child, then by the parent. */
  lemma ScaleRatComposes(parent: Segment, child: Segment, value: real)
    ensures ScaleRat(SubSegment(parent, child), value) == ScaleRat(parent, ScaleRat(child, value))
  {
    var pl, cl := Len(parent), Len(child);
    assert Len(SubSegment(parent, child)) == pl * cl;
    assert (pl * cl) * value == pl * (cl * value);
  }

  /** A valid segment's share of a non-negative amount is at most all of it. */
  lemma ScaleRatBounds(s: Segment, value: real)
    requires Valid(s) && value >= 0.0
    ensures 0.0 <= ScaleRat(s, value) <= value
  {
    var l := Len(s);
    assert 0.0 <= l <= 1.0;
    FractionOf(l, value);
    assert ScaleRat(s, value) == l * value;
  }

  lemma FractionOf(l: real, x: real)
    requires 0.0 <= l <= 1.0 && x >= 0.0
    ensures 0.0 <= l * x <= x
  {
    assert x - l * x == (1.0 - l) * x;
  }

  /** The scaled shares of a run of consecutive segments, added up. */
  function ScaleRatSum(parts: seq<Segment>, value: real): real {
    if parts == [] then 0.0 else ScaleRat(parts[0], value) + ScaleRatSum(parts[1..], value)
  }

  /** Conservation for rationals: over segments laid end to end from a to
      b, the scaled shares add up to (b - a) times the amount. */
  lemma {:induction false} ScaleRatSumTelescopes(parts: seq<Segment>, a: real, b: real, value: real)
    requires Chain(parts, a, b)
    ensures ScaleRatSum(parts, value) == (b - a) * value
    decreases |parts|
  {
    var m := Hi(parts[0]);
    if |parts| > 1 {
      var rest := parts[1..];
      assert Chain(rest, m, b) by {
        assert forall i :: 0 <= i < |rest| ==> rest[i] == parts[i + 1];
      }
      ScaleRatSumTelescopes(rest, m, b, value);
      assert (m - a) * value + (b - m) * value == (b - a) * value;
    }
  }
}
