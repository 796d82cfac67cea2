/** The execution segment value: a half-open fraction (from, to] of a
    test's total work, with 0 <= from < to <= 1, and the operations on it
    that build, compare and compose segments. Bounds are exact rationals,
    Dafny's `real`. */
module Segments {
  import opened Wrappers

  /** The failures the execution segment code reports. */
  datatype Error =
    | StartBelowZero(from: real)
    | StartNotBeforeEnd(from: real, to: real)
    | EndAboveOne(to: real)
    | InvalidPercentage(text: string)
    | InvalidValue(text: string)
    | TooFewParts(numParts: int)

  /** A pointer to an execution segment. Whole is the nil pointer, which
      stands for the entire run, (0, 1]; Seg keeps the length to - from
      alongside the bounds. */
  datatype Segment = Whole | Seg(from: real, to: real, length: real)

  /** The start of a segment; the whole run starts at 0. */
  function Lo(s: Segment): real {
    if s.Whole? then 0.0 else s.from
  }

  /** The end of a segment; the whole run ends at 1. */
  function Hi(s: Segment): real {
    if s.Whole? then 1.0 else s.to
  }

  /** The stored length of a segment; the whole run has length 1. */
  function Len(s: Segment): real {
    if s.Whole? then 1.0 else s.length
  }

  /** The invariant of every segment: 0 <= from < to <= 1 and length = to - from. */
  predicate Valid(s: Segment)
    ensures Valid(s) <==> 0.0 <= Lo(s) < Hi(s) <= 1.0 && Len(s) == Hi(s) - Lo(s)
  {
    s.Seg? ==> 0.0 <= s.from < s.to <= 1.0 && s.length == s.to - s.from
  }

  /** Validating constructor: fails when from < 0, from >= to or to > 1,
      checked in that order, and otherwise stores length = to - from. */
  function NewExecutionSegment(from: real, to: real): (r: Result<Segment, Error>)
    ensures r.Ok? <==> 0.0 <= from < to <= 1.0
    ensures r.Ok? ==> Valid(r.value) && r.value == Seg(from, to, to - from)
    ensures from < 0.0 ==> r == Err(StartBelowZero(from))
    ensures 0.0 <= from && to <= from ==> r == Err(StartNotBeforeEnd(from, to))
    ensures 0.0 <= from < to && 1.0 < to ==> r == Err(EndAboveOne(to))
  {
    if from < 0.0 then Err(StartBelowZero(from))
    else if from >= to then Err(StartNotBeforeEnd(from, to))
    else if to > 1.0 then Err(EndAboveOne(to))
    else Ok(Seg(from, to, to - from))
  }

  /** Numeric equality of the bounds, the whole run being (0, 1]. Identical
      values are equal without comparing their bounds. */
  function Equal(a: Segment, b: Segment): (r: bool)
    ensures r <==> Lo(a) == Lo(b) && Hi(a) == Hi(b)
  {
    if a == b then true
    else
      var (aFrom, aTo) := if a.Whole? then (0.0, 1.0) else (a.from, a.to);
      var (bFrom, bTo) := if b.Whole? then (0.0, 1.0) else (b.from, b.to);
      aFrom == bFrom && aTo == bTo
  }

  /** Equal is an equivalence relation, and the nil segment equals an explicit (0, 1]. */
  lemma EqualIsEquivalence(a: Segment, b: Segment, c: Segment)
    ensures Equal(a, a)
    ensures Equal(a, b) ==> Equal(b, a)
    ensures Equal(a, b) && Equal(b, c) ==> Equal(a, c)
    ensures Equal(Whole, Seg(0.0, 1.0, 1.0))
  {
  }

  /** The child segment read as a part of the parent: a nil child is the
      parent itself, and a nil parent is read as starting at 0 with length 1. */
  function SubSegment(parent: Segment, child: Segment): (r: Segment)
    ensures child.Whole? ==> r == parent
    ensures Lo(r) == Lo(parent) + Len(parent) * Lo(child)
    ensures Len(r) == Len(parent) * Len(child)
    ensures child.Seg? ==> r.Seg? && r.to == r.from + r.length
  {
    if child.Whole? then parent
    else
      var (parentFrom, parentLength) := if parent.Whole? then (0.0, 1.0) else (parent.from, parent.length);
      var from := parentLength * child.from + parentFrom;
      var length := parentLength * child.length;
      Seg(from, from + length, length)
  }

  /** A valid child of a valid parent is a valid segment inside the parent:
      the image of the child under x |-> from + length * x. */
  lemma SubSegmentValid(parent: Segment, child: Segment)
    requires Valid(parent) && Valid(child)
    ensures Valid(SubSegment(parent, child))
    ensures Hi(SubSegment(parent, child)) == Lo(parent) + Len(parent) * Hi(child)
    ensures Lo(parent) <= Lo(SubSegment(parent, child)) < Hi(SubSegment(parent, child)) <= Hi(parent)
  {
    var r := SubSegment(parent, child);
    if child.Seg? {
      AffineImage(Lo(parent), Hi(parent), Len(parent), Lo(child), Hi(child), Len(child), Lo(r), Hi(r), Len(r));
    }
  }

  /** The arithmetic behind SubSegmentValid. */
  lemma AffineImage(p0: real, p1: real, pl: real, c0: real, c1: real, cl: real, r0: real, r1: real, rl: real)
    requires 0.0 <= p0 < p1 <= 1.0 && pl == p1 - p0
    requires 0.0 <= c0 < c1 <= 1.0 && cl == c1 - c0
    requires r0 == p0 + pl * c0 && rl == pl * cl && r1 == r0 + rl
    ensures p0 <= r0 < r1 <= p1 && rl == r1 - r0
    ensures r1 == p0 + pl * c1
  {
    assert pl * c0 < pl * c1;
    assert pl * c1 <= pl * 1.0;
    assert rl == pl * c1 - pl * c0;
  }

  /** Nesting sub-segments composes their fractions directly. */
  lemma SubSegmentAssociative(a: Segment, b: Segment, c: Segment)
    ensures Equal(SubSegment(SubSegment(a, b), c), SubSegment(a, SubSegment(b, c)))
  {
    NestedStart(a, b, c);
    NestedLength(a, b, c);
  }

  /** Both groupings of a nested sub-segment start at the same point. */
  lemma NestedStart(a: Segment, b: Segment, c: Segment)
    ensures Lo(SubSegment(SubSegment(a, b), c)) == Lo(SubSegment(a, SubSegment(b, c)))
  {
    if c.Seg? {
      if a.Whole? {
        NestedInWhole(b, c);
      } else if b.Whole? {
        NestedAroundWhole(a, c);
      } else {
        NestedStartOfSegs(a, b, c);
      }
    }
  }

  /** Both groupings of a nested sub-segment have the same length. */
  lemma NestedLength(a: Segment, b: Segment, c: Segment)
    ensures Len(SubSegment(SubSegment(a, b), c)) == Len(SubSegment(a, SubSegment(b, c)))
  {
    if c.Seg? {
      if a.Whole? {
        NestedInWhole(b, c);
      } else if b.Whole? {
        NestedAroundWhole(a, c);
      } else {
        NestedLengthOfSegs(a, b, c);
      }
    }
  }

  /** Under the nil parent, nesting is the inner sub-segment itself. */
  lemma NestedInWhole(b: Segment, c: Segment)
    requires c.Seg?
    ensures Lo(SubSegment(SubSegment(Whole, b), c)) == Lo(SubSegment(Whole, SubSegment(b, c)))
    ensures Len(SubSegment(SubSegment(Whole, b), c)) == Len(SubSegment(Whole, SubSegment(b, c)))
  {
    var ab, bc := SubSegment(Whole, b), SubSegment(b, c);
    assert Lo(ab) == Lo(b) && Len(ab) == Len(b);
    assert Lo(SubSegment(Whole, bc)) == Lo(bc) && Len(SubSegment(Whole, bc)) == Len(bc);
  }

  /** Around a nil middle segment, both groupings are the sub-segment of the outer one. */
  lemma NestedAroundWhole(a: Segment, c: Segment)
    requires a.Seg? && c.Seg?
    ensures Lo(SubSegment(SubSegment(a, Whole), c)) == Lo(SubSegment(a, SubSegment(Whole, c)))
    ensures Len(SubSegment(SubSegment(a, Whole), c)) == Len(SubSegment(a, SubSegment(Whole, c)))
  {
    var bc := SubSegment(Whole, c);
    assert SubSegment(a, Whole) == a;
    assert Lo(bc) == Lo(c) && Len(bc) == Len(c);
  }

  lemma NestedStartOfSegs(a: Segment, b: Segment, c: Segment)
    requires a.Seg? && b.Seg? && c.Seg?
    ensures Lo(SubSegment(SubSegment(a, b), c)) == Lo(SubSegment(a, SubSegment(b, c)))
  {
    var ab, bc := SubSegment(a, b), SubSegment(b, c);
    var abc := ab.length * c.from + ab.from;
    var a_bc := a.length * bc.from + a.from;
    assert ab.from == a.length * b.from + a.from && ab.length == a.length * b.length;
    assert bc.from == b.length * c.from + b.from;
    assert Lo(SubSegment(ab, c)) == abc;
    assert Lo(SubSegment(a, bc)) == a_bc;
    ComposeStart(a.from, a.length, b.from, b.length, c.from, ab.from, ab.length, bc.from, abc, a_bc);
  }

  lemma NestedLengthOfSegs(a: Segment, b: Segment, c: Segment)
    requires a.Seg? && b.Seg? && c.Seg?
    ensures Len(SubSegment(SubSegment(a, b), c)) == Len(SubSegment(a, SubSegment(b, c)))
  {
    var ab, bc := SubSegment(a, b), SubSegment(b, c);
    assert ab.length == a.length * b.length && bc.length == b.length * c.length;
    MulAssociative(a.length, b.length, c.length, ab.length, bc.length,
                   ab.length * c.length, a.length * bc.length);
  }

  lemma MulAssociative(x: real, y: real, z: real, xy: real, yz: real, l: real, r: real)
    requires xy == x * y && yz == y * z && l == xy * z && r == x * yz
    ensures l == r
  {
  }

  /** Composing x |-> b0 + bl * x with x |-> a0 + al * x, in either grouping. */
  lemma ComposeStart(a0: real, al: real, b0: real, bl: real, x: real,
                      ab0: real, abl: real, bcx: real, l: real, r: real)
    requires ab0 == a0 + al * b0 && abl == al * bl && bcx == b0 + bl * x
    requires l == ab0 + abl * x && r == a0 + al * bcx
    ensures l == r
  {
  }

  /** A sub-segment of the nil parent is the child itself. */
  lemma SubSegmentOfWhole(child: Segment)
    requires Valid(child)
    ensures Equal(SubSegment(Whole, child), child)
  {
  }

  /** The worked example: (1/2, 1] with child (0, 1/2] gives (1/2, 3/4]. */
  lemma SubSegmentExample()
    ensures SubSegment(Seg(0.5, 1.0, 0.5), Seg(0.0, 0.5, 0.5)) == Seg(0.5, 0.75, 0.25)
  {
  }

  /** Segments laid end to end that cover (a, b] exactly: each is valid,
      the first starts at a, the last ends at b and each ends where the
      next one starts. */
  predicate Chain(parts: seq<Segment>, a: real, b: real) {
    && |parts| > 0
    && Lo(parts[0]) == a
    && Hi(parts[|parts| - 1]) == b
    && (forall i :: 0 <= i < |parts| ==> parts[i].Seg? && Valid(parts[i]))
    && (forall i :: 0 <= i < |parts| - 1 ==> Hi(parts[i]) == Lo(parts[i + 1]))
  }
}
