/** Dividing an execution segment into equal consecutive parts. */
module Splitting {
  import opened Wrappers
  import opened Segments

  /** The point reached after i increments of inc from lo, added one at a
      time as the splitting loop adds them. */
  function Boundary(lo: real, inc: real, i: nat): real {
    if i == 0 then lo else Boundary(lo, inc, i - 1) + inc
  }

  /** Part i of equal parts of length inc starting at lo. */
  function Part(lo: real, inc: real, i: nat): Segment {
    Seg(Boundary(lo, inc, i), Boundary(lo, inc, i + 1), inc)
  }

  /** Splits a segment (the nil one being (0, 1]) into numParts parts of
      length (to - from) / numParts each, stepping an accumulator from the
      start; fails when numParts < 1. Neither the per-part validation nor
      the final check that the accumulator reached the end can fail. */
  method Split(s: Segment, numParts: int) returns (r: Result<seq<Segment>, Error>)
    requires Valid(s)
    ensures r.Err? <==> numParts < 1
    ensures r.Err? ==> r.error == TooFewParts(numParts)
    ensures r.Ok? ==> |r.value| == numParts
    ensures r.Ok? ==> forall i :: 0 <= i < numParts ==>
      r.value[i] == Part(Lo(s), (Hi(s) - Lo(s)) / numParts as real, i)
    ensures r.Ok? ==> Chain(r.value, Lo(s), Hi(s))
  {
    if numParts < 1 {
      return Err(TooFewParts(numParts));
    }
    var from, to := Lo(s), Hi(s);
    var increment := (to - from) / numParts as real;
    var results := new Segment[numParts];
    var i := 0;
    while i < numParts
      invariant 0 <= i <= numParts
      invariant from == Boundary(Lo(s), increment, i)
      invariant forall j :: 0 <= j < i ==> results[j] == Part(Lo(s), increment, j)
    {
      var segmentTo := from + increment;
      StepInside(Lo(s), Hi(s), numParts, increment, i);
      var segment := NewExecutionSegment(from, segmentTo);
      if segment.Err? {
        // unreachable: the part lies inside the segment being split
        assert false;
      }
      results[i] := segment.value;
      from := segmentTo;
      i := i + 1;
    }
    EndReached(Lo(s), Hi(s), numParts, increment);
    if from != to {
      // unreachable: numParts increments add up to to - from exactly
      assert false;
    }
    r := Ok(results[..]);
    PartsChain(r.value, Lo(s), Hi(s), increment);
  }

  /** The closed form of a boundary: lo + i * inc. */
  lemma {:induction false} BoundaryFormula(lo: real, inc: real, i: nat)
    ensures Boundary(lo, inc, i) == lo + i as real * inc
  {
    if i > 0 {
      BoundaryFormula(lo, inc, i - 1);
      assert (i - 1) as real * inc + inc == i as real * inc;
    }
  }

  /** Step i of the loop stays inside (lo, hi]. */
  lemma StepInside(lo: real, hi: real, n: int, inc: real, i: nat)
    requires 0.0 <= lo < hi <= 1.0 && n >= 1 && inc == (hi - lo) / n as real
    requires i < n
    ensures 0.0 <= Boundary(lo, inc, i) < Boundary(lo, inc, i + 1) <= hi
  {
    BoundaryFormula(lo, inc, i);
    StepArithmetic(lo, hi, n as real, inc, i as real, Boundary(lo, inc, i));
  }

  lemma StepArithmetic(lo: real, hi: real, n: real, inc: real, i: real, b: real)
    requires 0.0 <= lo < hi && n >= 1.0 && inc * n == hi - lo
    requires 0.0 <= i && i + 1.0 <= n && b == lo + i * inc
    ensures 0.0 < inc && 0.0 <= b && b + inc <= hi
  {
    assert 0.0 < inc;
    assert 0.0 <= i * inc;
    var gap := n - (i + 1.0);
    assert 0.0 <= gap * inc;
    assert gap * inc == n * inc - i * inc - inc;
  }

  /** n increments of (hi - lo) / n take lo to hi exactly. */
  lemma EndReached(lo: real, hi: real, n: int, inc: real)
    requires lo < hi && n >= 1 && inc == (hi - lo) / n as real
    ensures Boundary(lo, inc, n) == hi
  {
    BoundaryFormula(lo, inc, n);
  }

  /** Equal consecutive parts of (lo, hi] form a chain from lo to hi. */
  lemma PartsChain(parts: seq<Segment>, lo: real, hi: real, inc: real)
    requires 0.0 <= lo < hi <= 1.0 && |parts| >= 1 && inc == (hi - lo) / |parts| as real
    requires forall i :: 0 <= i < |parts| ==> parts[i] == Part(lo, inc, i)
    ensures Chain(parts, lo, hi)
  {
    forall i | 0 <= i < |parts|
      ensures parts[i].Seg? && Valid(parts[i])
    {
      StepInside(lo, hi, |parts|, inc, i);
    }
    EndReached(lo, hi, |parts|, inc);
  }
}
