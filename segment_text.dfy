/** Execution segments as text: reading "from:to" ranges and the "to"
    shorthand (each bound a percentage, a decimal or a fraction), and
    printing a segment back as "from:to" in lowest-terms fractions. */
module SegmentText {
  import opened Wrappers
  import opened Rationals
  import opened RatText
  import opened Segments

  /** Text ending in '%'. */
  predicate IsPercent(s: string) {
    |s| > 0 && s[|s| - 1] == '%'
  }

  /** A percentage "N%" with N a decimal integer is N/100; any other text
      must be a rational. The error names the kind of value expected. */
  function StringToRat(s: string): (r: Result<real, Error>)
    ensures r.Ok? ==> IsRational(r.value)
    ensures IsPercent(s) ==> (r.Ok? <==> ParseInt(s[..|s| - 1]).Some?)
    ensures !IsPercent(s) ==> (r.Ok? <==> ParseRat(s).Some?)
    ensures r.Err? ==> r.error == (if IsPercent(s) then InvalidPercentage(s) else InvalidValue(s))
  {
    if IsPercent(s) then
      match ParseInt(s[..|s| - 1])
      case None => Err(InvalidPercentage(s))
      case Some(n) =>
        var q := Rat(n, 100);
        Ok(Val(q))
    else
      match ParseRat(s)
      case None => Err(InvalidValue(s))
      case Some(q) => Ok(Val(q))
  }

  /** "N%" reads as N/100. */
  lemma PercentIsHundredths(n: int)
    ensures StringToRat(IntString(n) + "%") == Ok(n as real / 100.0)
  {
    var s := IntString(n) + "%";
    assert s[..|s| - 1] == IntString(n);
    IntStringParses(n);
  }

  /** A non-integer before '%' is rejected. */
  lemma PercentNeedsInteger()
    ensures StringToRat("12.5%") == Err(InvalidPercentage("12.5%"))
  {
    var s := "12.5%";
    assert s[..|s| - 1] == "12.5";
    assert !IsDigit("12.5"[2]);
  }

  /** A printed fraction reads back as its value. */
  lemma StringToRatReadsRatString(q: Rat)
    ensures StringToRat(RatString(q)) == Ok(Val(q))
  {
    RatStringParses(q);
  }

  /** Decimal text "i.f" reads as i + f / 10^|f|. */
  lemma StringToRatReadsDecimal(i: string, f: string)
    requires |i| > 0 && AllDigits(i) && |f| > 0 && AllDigits(f)
    ensures StringToRat(i + "." + f) == Ok(DecimalNumber(DigitsValue(i), DigitsValue(f), |f|))
  {
    var s := i + "." + f;
    assert s[|s| - 1] == f[|f| - 1];
    DecimalValue(i, f);
  }

  /** The segment that text denotes: "A:B" is split at the first ':' and
      both bounds are read, A first; text without ':' is the end of a
      segment starting at 0. The bounds are then validated. */
  function ParseSegment(text: string): (r: Result<Segment, Error>)
    ensures r.Ok? ==> r.value.Seg? && Valid(r.value) && Printable(r.value)
  {
    var colon := IndexOf(text, ':');
    var fromText := if colon < |text| then text[..colon] else "0";
    var toText := if colon < |text| then text[colon + 1..] else text;
    match StringToRat(fromText)
    case Err(e) => Err(e)
    case Ok(from) =>
      match StringToRat(toText)
      case Err(e) => Err(e)
      case Ok(to) => NewExecutionSegment(from, to)
  }

  /** The receiver of UnmarshalText: the storage behind a segment pointer. */
  class ExecutionSegment {
    var from: real
    var to: real
    var length: real

    /** The segment the fields hold. */
    function Value(): Segment
      reads this
    {
      Seg(from, to, length)
    }

    constructor (from: real, to: real, length: real)
      ensures Value() == Seg(from, to, length)
    {
      this.from, this.to, this.length := from, to, length;
    }

    /** Reads text into the receiver. The receiver is assigned only once
        every step has succeeded; on an error it keeps its old value. */
    method UnmarshalText(text: string) returns (err: Option<Error>)
      modifies this
      ensures err.None? <==> ParseSegment(text).Ok?
      ensures err.None? ==> Value() == ParseSegment(text).value
      ensures err.Some? ==> err.value == ParseSegment(text).error && Value() == old(Value())
    {
      var from := 0.0;
      var toText := text;
      var colon := IndexOf(text, ':');
      if colon < |text| {
        toText := text[colon + 1..];
        var parsedFrom := StringToRat(text[..colon]);
        if parsedFrom.Err? {
          return Some(parsedFrom.error);
        }
        from := parsedFrom.value;
      } else {
        ReadZero();
      }
      var to := StringToRat(toText);
      if to.Err? {
        return Some(to.error);
      }
      var segment := NewExecutionSegment(from, to.value);
      if segment.Err? {
        return Some(segment.error);
      }
      this.from, this.to, this.length := segment.value.from, segment.value.to, segment.value.length;
      return None;
    }
  }

  /** Bounds that big.Rat can hold, so that the segment can be printed. */
  ghost predicate Printable(s: Segment) {
    s.Seg? ==> IsRational(s.from) && IsRational(s.to)
  }

  /** "from:to" with each bound in lowest terms, "a" or "a/b"; the nil
      segment prints as "0:1". */
  ghost function String(s: Segment): (r: string)
    requires Printable(s)
    ensures s.Whole? ==> r == "0:1"
  {
    if s.Whole? then "0:1"
    else RatString(RatOf(s.from)) + ":" + RatString(RatOf(s.to))
  }

  /** Any fraction of the right value prints as the bound does: a bound's
      printed form depends on its value alone. */
  lemma RatStringOfValue(p: Rat, x: real)
    requires Val(p) == x
    ensures IsRational(x) && RatString(p) == RatString(RatOf(x))
  {
    var r := RatOf(x);
    ReducedUnique(Reduce(p), r);
    ReduceReduced(r);
  }

  /** An explicit segment prints as the lowest-terms forms of any fractions
      holding its bounds, joined by ':'. */
  lemma StringOfFractions(s: Segment, p: Rat, q: Rat)
    requires s.Seg? && Val(p) == s.from && Val(q) == s.to
    ensures Printable(s)
    ensures String(s) == RatString(p) + ":" + RatString(q)
  {
    RatStringOfValue(p, s.from);
    RatStringOfValue(q, s.to);
  }

  /** (1/2, 3/4] prints as "1/2:3/4". */
  lemma StringExample()
    ensures Printable(Seg(0.5, 0.75, 0.25))
    ensures String(Seg(0.5, 0.75, 0.25)) == "1/2" + ":" + "3/4"
  {
    PrintOneHalf();
    PrintThreeQuarters();
    StringOfFractions(Seg(0.5, 0.75, 0.25), Rat(1, 2), Rat(3, 4));
  }

  lemma PrintOneHalf()
    ensures Val(Rat(1, 2)) == 0.5 && RatString(Rat(1, 2)) == "1/2"
  {
    assert Reduced(Rat(1, 2));
    ReduceReduced(Rat(1, 2));
  }

  lemma PrintThreeQuarters()
    ensures Val(Rat(3, 4)) == 0.75 && RatString(Rat(3, 4)) == "3/4"
  {
    assert Reduced(Rat(3, 4));
    ReduceReduced(Rat(3, 4));
  }

  /** The text encoding: the nil segment encodes as no bytes at all. */
  ghost function MarshalText(s: Segment): (r: string)
    requires Printable(s)
    ensures s.Whole? ==> r == []
    ensures s.Seg? ==> r == String(s)
  {
    if s.Whole? then [] else String(s)
  }

  /** Reading the printed form of a valid segment gives that segment back,
      the nil one as an explicit (0, 1]. */
  lemma {:induction false} StringRoundTrip(s: Segment)
    requires Valid(s) && Printable(s)
    ensures ParseSegment(String(s)).Ok?
    ensures ParseSegment(String(s)).value == if s.Whole? then Seg(0.0, 1.0, 1.0) else s
    ensures Equal(ParseSegment(String(s)).value, s)
  {
    if s.Seg? {
      var p, q := RatOf(s.from), RatOf(s.to);
      StringToRatReadsRatString(p);
      StringToRatReadsRatString(q);
      ReadRange(RatString(p), RatString(q), s.from, s.to);
    } else {
      ReadZero();
      ReadOne();
      ReadRange("0", "1", 0.0, 1.0);
      assert "0" + ":" + "1" == "0:1";
    }
  }

  /** Printing what was read and reading it again gives the same segment:
      the printed form is a normal form of the text. */
  lemma ReparsePrinted(text: string)
    requires ParseSegment(text).Ok?
    ensures ParseSegment(String(ParseSegment(text).value)) == ParseSegment(text)
  {
    StringRoundTrip(ParseSegment(text).value);
  }

  /** Formatting is stable: printing, reading and printing again gives
      the first printed text. */
  lemma FormatParseFormat(s: Segment)
    requires Valid(s) && Printable(s)
    ensures ParseSegment(String(s)).Ok?
    ensures String(ParseSegment(String(s)).value) == String(s)
  {
    StringRoundTrip(s);
    if s.Whole? {
      UnitRangePrintsAsWhole();
    }
  }

  /** An explicit (0, 1] prints as the nil segment does. */
  lemma UnitRangePrintsAsWhole()
    ensures Printable(Seg(0.0, 1.0, 1.0))
    ensures String(Seg(0.0, 1.0, 1.0)) == "0:1"
  {
    assert Val(Rat(0, 1)) == 0.0 && Val(Rat(1, 1)) == 1.0;
    ZeroLowestTerms(RatOf(0.0));
    OneLowestTerms(RatOf(1.0));
    assert RatString(Rat(0, 1)) == "0" by {
      assert Reduced(Rat(0, 1));
      ReduceReduced(Rat(0, 1));
    }
    assert RatString(Rat(1, 1)) == "1" by {
      assert Reduced(Rat(1, 1));
      ReduceReduced(Rat(1, 1));
    }
    assert "0" + ":" + "1" == "0:1";
  }

  /** A segment other than nil survives MarshalText and reading back. */
  lemma MarshalRoundTrip(s: Segment)
    requires s.Seg? && Valid(s) && Printable(s)
    ensures ParseSegment(MarshalText(s)) == Ok(s)
  {
    StringRoundTrip(s);
  }

  /** The nil segment does not: its empty encoding is not a valid segment. */
  lemma MarshalWholeIsLost()
    ensures ParseSegment(MarshalText(Whole)).Err?
    ensures ParseSegment("") == Err(InvalidValue(""))
  {
  }

  /** Text without ':' is the range from 0 to that value. */
  lemma ShorthandStartsAtZero(text: string)
    requires forall i :: 0 <= i < |text| ==> text[i] != ':'
    ensures ParseSegment(text) == ParseSegment("0:" + text)
  {
    var long := "0:" + text;
    assert IndexOf(long, ':') == 1;
    assert long[..1] == "0";
    assert long[2..] == text;
  }

  /** Reading "a:b" reads a, then b, then validates the pair. */
  lemma ReadRange(a: string, b: string, from: real, to: real)
    requires forall i :: 0 <= i < |a| ==> a[i] != ':'
    requires StringToRat(a) == Ok(from) && StringToRat(b) == Ok(to)
    ensures ParseSegment(a + ":" + b) == NewExecutionSegment(from, to)
  {
    RangeLayout(a, b);
  }

  /** A start bound that does not read fails the whole text with that
      bound's error, before the end bound is looked at. */
  lemma RangeStartFails(a: string, b: string)
    requires forall i :: 0 <= i < |a| ==> a[i] != ':'
    requires StringToRat(a).Err?
    ensures ParseSegment(a + ":" + b) == Err(StringToRat(a).error)
  {
    RangeLayout(a, b);
  }

  /** With a start bound that reads, an end bound that does not fails the
      whole text with the end bound's error. */
  lemma RangeEndFails(a: string, b: string)
    requires forall i :: 0 <= i < |a| ==> a[i] != ':'
    requires StringToRat(a).Ok? && StringToRat(b).Err?
    ensures ParseSegment(a + ":" + b) == Err(StringToRat(b).error)
  {
    RangeLayout(a, b);
  }

  /** A negative start bound is read, then refused by the range check:
      "-1/2:1" fails with the start -1/2 as the error's payload. */
  lemma NegativeStartExample()
    ensures ParseSegment("-1/2:1") == Err(StartBelowZero(-0.5))
  {
    var t := "-1/2:1";
    assert IndexOf(t, ':') == 4 && t[..4] == "-1/2" && t[5..] == "1";
    ReadMinusOneHalf();
    ReadOne();
  }

  lemma ReadMinusOneHalf()
    ensures StringToRat("-1/2") == Ok(-0.5)
  {
    var s := "-1/2";
    assert IndexOf(s, '/') == 2 && SignOf(s) == (1, -1);
    assert s[..2][1..] == "1" && s[3..] == "2";
    assert DigitsValue("1") == 1 && DigitsValue("2") == 2;
    assert ParseRat(s) == Some(Rat(-1, 2));
  }

  /** The first ':' of "A:B" separates A from B. */
  lemma RangeLayout(a: string, b: string)
    requires forall i :: 0 <= i < |a| ==> a[i] != ':'
    ensures IndexOf(a + ":" + b, ':') == |a|
    ensures (a + ":" + b)[..|a|] == a && (a + ":" + b)[|a| + 1..] == b
  {
    var text := a + ":" + b;
    assert text[|a|] == ':';
    IndexOfFirst(text, ':', |a|);
    assert text[..|a|] == a;
    assert text[|a| + 1..] == b;
  }

  /** Reading text without ':' reads it as the end of (0, to]. */
  lemma ReadShorthand(b: string, to: real)
    requires forall i :: 0 <= i < |b| ==> b[i] != ':'
    requires StringToRat(b) == Ok(to)
    ensures ParseSegment(b) == NewExecutionSegment(0.0, to)
  {
    ReadZero();
  }

  lemma ReadZero()
    ensures StringToRat("0") == Ok(0.0)
  {
    var s := "0";
    assert IndexOf(s, '/') == 1 && IndexOf(s, '.') == 1;
    assert ParseInt(s) == Some(0);
  }

  lemma ReadOne()
    ensures StringToRat("1") == Ok(1.0)
  {
    var s := "1";
    assert IndexOf(s, '/') == 1 && IndexOf(s, '.') == 1;
    assert DigitsValue(s) == 1;
    assert ParseInt(s) == Some(1);
  }

  lemma ReadOneHalf()
    ensures StringToRat("1/2") == Ok(0.5)
  {
    var s := "1/2";
    assert IndexOf(s, '/') == 1;
    assert s[..1] == "1" && s[2..] == "2";
    assert DigitsValue("1") == 1 && DigitsValue("2") == 2;
    assert ParseRat(s) == Some(Rat(1, 2));
  }

  lemma ReadTwoQuarters()
    ensures StringToRat("2/4") == Ok(0.5)
  {
    var s := "2/4";
    assert IndexOf(s, '/') == 1;
    assert s[..1] == "2" && s[2..] == "4";
    assert DigitsValue("2") == 2 && DigitsValue("4") == 4;
    assert ParseRat(s) == Some(Rat(2, 4));
  }

  lemma ReadThreeQuarters()
    ensures StringToRat("3/4") == Ok(0.75)
  {
    var s := "3/4";
    assert IndexOf(s, '/') == 1;
    assert s[..1] == "3" && s[2..] == "4";
    assert DigitsValue("3") == 3 && DigitsValue("4") == 4;
    assert ParseRat(s) == Some(Rat(3, 4));
  }

  lemma ReadOneFifth()
    ensures StringToRat("1/5") == Ok(0.2)
  {
    var s := "1/5";
    assert IndexOf(s, '/') == 1;
    assert s[..1] == "1" && s[2..] == "5";
    assert DigitsValue("1") == 1 && DigitsValue("5") == 5;
    assert ParseRat(s) == Some(Rat(1, 5));
  }

  lemma ReadPointFive()
    ensures StringToRat("0.5") == Ok(0.5)
  {
    StringToRatReadsDecimal("0", "5");
    assert "0" + "." + "5" == "0.5";
    assert DigitsValue("0") == 0 && DigitsValue("5") == 5;
    assert Pow10(1) == 10;
  }

  lemma ReadPointSevenFive()
    ensures StringToRat("0.75") == Ok(0.75)
  {
    StringToRatReadsDecimal("0", "75");
    assert "0" + "." + "75" == "0.75";
    assert DigitsValue("0") == 0 && DigitsValue("75") == 75;
    assert Pow10(2) == 100;
  }

  lemma ReadPointTwo()
    ensures StringToRat("0.2") == Ok(0.2)
  {
    StringToRatReadsDecimal("0", "2");
    assert "0" + "." + "2" == "0.2";
    assert DigitsValue("0") == 0 && DigitsValue("2") == 2;
    assert Pow10(1) == 10;
  }

  lemma ReadFiftyPercent()
    ensures StringToRat("50%") == Ok(0.5)
  {
    var s := "50%";
    assert s[..|s| - 1] == "50";
    assert DigitsValue("50") == 50;
  }

  lemma ReadSeventyFivePercent()
    ensures StringToRat("75%") == Ok(0.75)
  {
    var s := "75%";
    assert s[..|s| - 1] == "75";
    assert DigitsValue("75") == 75;
  }

  lemma ReadTwentyPercent()
    ensures StringToRat("20%") == Ok(0.2)
  {
    var s := "20%";
    assert s[..|s| - 1] == "20";
    assert DigitsValue("20") == 20;
  }

  /** The documented spellings of (1/2, 3/4]. */
  lemma RangeExamples()
    ensures ParseSegment("1/2" + ":" + "3/4") == Ok(Seg(0.5, 0.75, 0.25))
    ensures ParseSegment("0.5" + ":" + "0.75") == Ok(Seg(0.5, 0.75, 0.25))
    ensures ParseSegment("50%" + ":" + "75%") == Ok(Seg(0.5, 0.75, 0.25))
    ensures ParseSegment("2/4" + ":" + "75%") == Ok(Seg(0.5, 0.75, 0.25))
  {
    ReadFractions();
    ReadDecimals();
    ReadPercentages();
    ReadMixed();
  }

  lemma ReadFractions()
    ensures ParseSegment("1/2" + ":" + "3/4") == Ok(Seg(0.5, 0.75, 0.25))
  {
    ReadOneHalf();
    ReadThreeQuarters();
    ReadRange("1/2", "3/4", 0.5, 0.75);
  }

  lemma ReadDecimals()
    ensures ParseSegment("0.5" + ":" + "0.75") == Ok(Seg(0.5, 0.75, 0.25))
  {
    ReadPointFive();
    ReadPointSevenFive();
    ReadRange("0.5", "0.75", 0.5, 0.75);
  }

  lemma ReadPercentages()
    ensures ParseSegment("50%" + ":" + "75%") == Ok(Seg(0.5, 0.75, 0.25))
  {
    ReadFiftyPercent();
    ReadSeventyFivePercent();
    ReadRange("50%", "75%", 0.5, 0.75);
  }

  lemma ReadMixed()
    ensures ParseSegment("2/4" + ":" + "75%") == Ok(Seg(0.5, 0.75, 0.25))
  {
    ReadTwoQuarters();
    ReadSeventyFivePercent();
    ReadRange("2/4", "75%", 0.5, 0.75);
  }

  /** The documented spellings of the shorthand for (0, 1/5]. */
  lemma ShorthandExamples()
    ensures ParseSegment("20%") == Ok(Seg(0.0, 0.2, 0.2))
    ensures ParseSegment("0.2") == Ok(Seg(0.0, 0.2, 0.2))
    ensures ParseSegment("1/5") == Ok(Seg(0.0, 0.2, 0.2))
  {
    ShorthandPercent();
    ShorthandDecimal();
    ShorthandFraction();
  }

  lemma ShorthandPercent()
    ensures ParseSegment("20%") == Ok(Seg(0.0, 0.2, 0.2))
  {
    ReadTwentyPercent();
    ReadShorthand("20%", 0.2);
  }

  lemma ShorthandDecimal()
    ensures ParseSegment("0.2") == Ok(Seg(0.0, 0.2, 0.2))
  {
    ReadPointTwo();
    ReadShorthand("0.2", 0.2);
  }

  lemma ShorthandFraction()
    ensures ParseSegment("1/5") == Ok(Seg(0.0, 0.2, 0.2))
  {
    ReadOneFifth();
    ReadShorthand("1/5", 0.2);
  }
}
