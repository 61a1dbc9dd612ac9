/**
 The quantities a policy is written with: durations such as `1h30m`, byte sizes and bit
 rates such as `100Mbps`, and the printers that write them back.
 */
module Units {
  import opened Common
  import opened Chars

  const MAX_U64: nat := 0xFFFF_FFFF_FFFF_FFFF

  datatype UnitError = EmptyText | Malformed | Overflow

  predicate IsLetter(c: char) {
    'a' <= c <= 'z' || 'A' <= c <= 'Z'
  }

  lemma LetterByCode(c: char)
    ensures IsLetter(c) <==> 0x41 <= c as int <= 0x5A || 0x61 <= c as int <= 0x7A
  {
  }

  /** The length of the leading run of characters satisfying `p`. */
  function RunOf(s: string, p: char -> bool): (n: nat)
    ensures n <= |s| && (forall i :: 0 <= i < n ==> p(s[i])) && (n < |s| ==> !p(s[n]))
  {
    if s == [] || !p(s[0]) then 0 else 1 + RunOf(s[1..], p)
  }

  lemma {:induction false} RunIs(run: string, tail: string, p: char -> bool)
    requires All(run, p) && (tail == [] || !p(tail[0]))
    ensures RunOf(run + tail, p) == |run|
    ensures (run + tail)[..|run|] == run && (run + tail)[|run|..] == tail
  {
    if run == [] {
      assert run + tail == tail;
    } else {
      assert (run + tail)[1..] == run[1..] + tail;
      RunIs(run[1..], tail, p);
    }
  }

  // ---------------------------------------------------------------------------
  // Durations
  // ---------------------------------------------------------------------------

  datatype Unit = Ms | Sec | Min | Hour | Day

  function UnitText(u: Unit): (s: string)
    ensures s != [] && All(s, IsLetter)
  {
    match u
    case Ms => "ms"
    case Sec => "s"
    case Min => "m"
    case Hour => "h"
    case Day => "d"
  }

  function UnitOf(s: string): Option<Unit> {
    if s == "ms" then Some(Ms)
    else if s == "s" then Some(Sec)
    else if s == "m" then Some(Min)
    else if s == "h" then Some(Hour)
    else if s == "d" then Some(Day)
    else None
  }

  /** The milliseconds in one unit. */
  function Millis(u: Unit): nat {
    match u
    case Ms => 1
    case Sec => 1_000
    case Min => 60_000
    case Hour => 3_600_000
    case Day => 86_400_000
  }

  /** The whole seconds of a duration are held in 64 bits. */
  predicate Fits(ms: nat) {
    ms / 1_000 <= MAX_U64
  }

  /** One turn of the parsing loop: what is left to read and the new total, in milliseconds. */
  function ParseSegment(rest: string, total: nat): Result<(string, nat), UnitError> {
    var digits := RunOf(rest, IsDigit);
    if digits == |rest| || digits == 0 then Err(Malformed)
    else
      var value := ParseUnsigned(rest[..digits], MAX_U64);
      if value.None? then Err(Overflow)
      else
        var after := rest[digits..];
        var letters := RunOf(after, IsLetter);
        var unit := UnitOf(after[..letters]);
        if unit.None? then Err(Malformed)
        else
          var segment := value.value * Millis(unit.value);
          if !Fits(segment) || !Fits(total + segment) then Err(Overflow)
          else Ok((after[letters..], total + segment))
  }

  lemma SegmentShrinks(rest: string, total: nat)
    ensures ParseSegment(rest, total).Ok? ==> |ParseSegment(rest, total).value.0| < |rest|
  {
  }

  function ParseFrom(rest: string, total: nat): Result<nat, UnitError>
    decreases |rest|
  {
    if rest == [] then Ok(total)
    else
      SegmentShrinks(rest, total);
      var step := ParseSegment(rest, total);
      if step.Err? then Err(step.error) else ParseFrom(step.value.0, step.value.1)
  }

  function ParseDuration(input: string): Result<nat, UnitError> {
    var text := Trim(input);
    if text == [] then Err(EmptyText) else ParseFrom(text, 0)
  }

  method ParseDurationLoop(input: string) returns (r: Result<nat, UnitError>)
    ensures r == ParseDuration(input)
  {
    hide ParseSegment, Trim;
    var text := Trim(input);
    if text == [] {
      return Err(EmptyText);
    }
    var total, rest, sawSegment := 0, text, false;
    while rest != []
      invariant sawSegment || rest == text
      invariant ParseFrom(rest, total) == ParseDuration(input)
      decreases |rest|
    {
      SegmentShrinks(rest, total);
      var step := ParseSegment(rest, total);
      if step.Err? {
        return Err(step.error);
      }
      rest, total := step.value.0, step.value.1;
      sawSegment := true;
    }
    r := if sawSegment then Ok(total) else Err(Malformed);
  }

  /** A number as written, leading zeros and all, with its unit. */
  datatype Segment = Segment(digits: string, unit: Unit)

  predicate ValidSegment(s: Segment) {
    s.digits != [] && All(s.digits, IsDigit) && DigitsValue(s.digits) <= MAX_U64
  }

  predicate ValidSegments(segs: seq<Segment>) {
    forall i :: 0 <= i < |segs| ==> ValidSegment(segs[i])
  }

  function Render(segs: seq<Segment>): string {
    if segs == [] then [] else segs[0].digits + (UnitText(segs[0].unit) + Render(segs[1..]))
  }

  function SegmentMillis(s: Segment): nat {
    if ValidSegment(s) then DigitsValue(s.digits) * Millis(s.unit) else 0
  }

  function TotalOf(segs: seq<Segment>): nat {
    if segs == [] then 0 else SegmentMillis(segs[0]) + TotalOf(segs[1..])
  }

  lemma FitsIsDownward(a: nat, b: nat)
    requires a <= b && Fits(b)
    ensures Fits(a)
  {
  }

  lemma ParseRenderedSegment(s: Segment, tail: string, total: nat)
    requires ValidSegment(s) && (tail == [] || IsDigit(tail[0]))
    ensures ParseSegment(s.digits + (UnitText(s.unit) + tail), total) ==
            if Fits(total + SegmentMillis(s)) then Ok((tail, total + SegmentMillis(s))) else Err(Overflow)
  {
    hide DigitsValue, Fits, Millis;
    var unit := UnitText(s.unit);
    assert (unit + tail)[0] == unit[0];
    RunIs(s.digits, unit + tail, IsDigit);
    RunIs(unit, tail, IsLetter);
    assert IsDigit(s.digits[0]);
    assert ParseUnsigned(s.digits, MAX_U64) == Some(DigitsValue(s.digits));
    if Fits(total + SegmentMillis(s)) {
      FitsIsDownward(SegmentMillis(s), total + SegmentMillis(s));
    }
  }

  lemma RenderStarts(segs: seq<Segment>)
    requires ValidSegments(segs)
    ensures segs == [] <==> Render(segs) == []
    ensures segs != [] ==> IsDigit(Render(segs)[0])
  {
    if segs != [] {
      assert IsDigit(segs[0].digits[0]);
    }
  }

  lemma {:induction false} ParseRendered(segs: seq<Segment>, total: nat)
    requires ValidSegments(segs) && Fits(total)
    ensures ParseFrom(Render(segs), total) ==
            if Fits(total + TotalOf(segs)) then Ok(total + TotalOf(segs)) else Err(Overflow)
  {
    hide ParseSegment, SegmentMillis, Fits, ValidSegment;
    RenderStarts(segs);
    if segs != [] {
      RenderStarts(segs[1..]);
      ParseRenderedSegment(segs[0], Render(segs[1..]), total);
      var next := total + SegmentMillis(segs[0]);
      if Fits(next) {
        ParseRendered(segs[1..], next);
      } else if Fits(total + TotalOf(segs)) {
        FitsIsDownward(next, total + TotalOf(segs));
      }
    }
  }

  lemma UnitSpelled(s: string)
    ensures UnitOf(s).Some? ==> UnitText(UnitOf(s).value) == s
  {
  }

  lemma AcceptedSegment(rest: string, total: nat) returns (s: Segment)
    requires ParseSegment(rest, total).Ok?
    ensures ValidSegment(s)
    ensures rest == s.digits + (UnitText(s.unit) + ParseSegment(rest, total).value.0)
    ensures ParseSegment(rest, total).value.1 == total + SegmentMillis(s)
    ensures Fits(ParseSegment(rest, total).value.1)
  {
    hide DigitsValue, Fits, Millis, UnitOf, UnitText, ParseUnsigned, IsDigit, IsLetter;
    var digits := RunOf(rest, IsDigit);
    var number, after := rest[..digits], rest[digits..];
    var letters := RunOf(after, IsLetter);
    DigitsRead(number);
    UnitSpelled(after[..letters]);
    s := Segment(number, UnitOf(after[..letters]).value);
    assert rest == number + (after[..letters] + after[letters..]);
  }

  lemma DigitsRead(s: string)
    requires s != [] && All(s, IsDigit)
    ensures ParseUnsigned(s, MAX_U64) == if DigitsValue(s) <= MAX_U64 then Some(DigitsValue(s)) else None
  {
    assert IsDigit(s[0]);
  }

  lemma {:induction false} AcceptedIsRendered(rest: string, total: nat) returns (segs: seq<Segment>)
    requires ParseFrom(rest, total).Ok? && Fits(total)
    ensures ValidSegments(segs) && Render(segs) == rest
    ensures ParseFrom(rest, total).value == total + TotalOf(segs) && Fits(total + TotalOf(segs))
    decreases |rest|
  {
    hide ParseSegment, SegmentMillis, Fits, ValidSegment;
    if rest == [] {
      segs := [];
    } else {
      SegmentShrinks(rest, total);
      var s := AcceptedSegment(rest, total);
      var step := ParseSegment(rest, total).value;
      var more := AcceptedIsRendered(step.0, step.1);
      segs := [s] + more;
      assert segs[1..] == more;
    }
  }

  /** A text reads as `t` milliseconds exactly when, trimmed, it is one or more numbers
      with units whose sum is `t` and fits. */
  lemma ReadsExactlySums(input: string, t: nat)
    ensures ParseDuration(input) == Ok(t) <==>
            exists segs ::
              segs != [] && ValidSegments(segs) && Render(segs) == Trim(input) && TotalOf(segs) == t && Fits(t)
  {
    hide ParseFrom, Trim, TotalOf, ValidSegments, Render, Fits;
    assert Fits(0) by { ZeroFits(); }
    if ParseDuration(input) == Ok(t) {
      var segs := AcceptedIsRendered(Trim(input), 0);
      RenderStarts(segs);
    }
    forall segs | segs != [] && ValidSegments(segs) && Render(segs) == Trim(input) && TotalOf(segs) == t && Fits(t)
      ensures ParseDuration(input) == Ok(t)
    {
      RenderStarts(segs);
      ParseRendered(segs, 0);
    }
  }

  lemma ZeroFits()
    ensures Fits(0)
  {
  }

  // ---------------------------------------------------------------------------
  // Printing durations
  // ---------------------------------------------------------------------------

  const PRINTED: seq<Unit> := [Day, Hour, Min, Sec]

  /** What is printed for `ms` from the `i`th unit on. */
  function HumanizeFrom(i: nat, ms: nat): string
    requires i <= |PRINTED|
    decreases |PRINTED| - i
  {
    if i == |PRINTED| then (if ms > 0 then PrintNat(ms) + "ms" else [])
    else
      var u := PRINTED[i];
      if ms >= Millis(u) then PrintNat(ms / Millis(u)) + (UnitText(u) + HumanizeFrom(i + 1, ms % Millis(u)))
      else HumanizeFrom(i + 1, ms)
  }

  /** A duration in nanoseconds, printed to the millisecond. */
  function Humanize(nanos: nat): string {
    var ms := nanos / 1_000_000;
    if ms == 0 then "0s" else HumanizeFrom(0, ms)
  }

  method HumanizeLoop(nanos: nat) returns (out: string)
    ensures out == Humanize(nanos)
  {
    hide PrintNat, UnitText, Millis;
    var ms: nat := nanos / 1_000_000;
    if ms == 0 {
      return "0s";
    }
    out := [];
    for i := 0 to |PRINTED|
      invariant out + HumanizeFrom(i, ms) == Humanize(nanos)
    {
      var u := PRINTED[i];
      PrintingStep(out, i, ms);
      if ms >= Millis(u) {
        MillisPositive(u);
        out := out + PrintNat(ms / Millis(u)) + UnitText(u);
        ms := ms % Millis(u);
      }
    }
    if ms > 0 {
      ghost var was := out;
      out := out + PrintNat(ms) + "ms";
      assert out == was + (PrintNat(ms) + "ms");
    }
  }

  lemma MillisPositive(u: Unit)
    ensures Millis(u) > 0
  {
  }

  lemma PrintingStep(out: string, i: nat, ms: nat)
    requires i < |PRINTED|
    ensures var u := PRINTED[i];
            && Millis(u) > 0
            && out + HumanizeFrom(i, ms) ==
               if ms >= Millis(u) then
                 out + PrintNat(ms / Millis(u)) + UnitText(u) + HumanizeFrom(i + 1, ms % Millis(u))
               else out + HumanizeFrom(i + 1, ms)
  {
    hide PrintNat, UnitText, Millis;
    MillisPositive(PRINTED[i]);
  }

  /** A number with its unit, or nothing for none. */
  function PartText(n: nat, unit: string): string {
    if n == 0 then "" else PrintNat(n) + unit
  }

  /** A printed duration is days, hours below 24, minutes and seconds below 60 and
      milliseconds below 1000, in that order and without the zeros. */
  lemma HumanizedParts(nanos: nat)
    requires nanos >= 1_000_000
    ensures var ms := nanos / 1_000_000;
            Humanize(nanos) ==
            PartText(ms / 86_400_000, "d")
            + (PartText(ms / 3_600_000 % 24, "h")
               + (PartText(ms / 60_000 % 60, "m") + (PartText(ms / 1_000 % 60, "s") + PartText(ms % 1_000, "ms"))))
  {
    hide PrintNat, HumanizeFrom, PartText;
    var ms := nanos / 1_000_000;
    HoursOf(ms);
    MinutesOf(ms);
    SecondsOf(ms);
    PrintsUnit(0, ms, "d");
    PrintsUnit(1, ms % 86_400_000, "h");
    PrintsUnit(2, ms % 3_600_000, "m");
    PrintsUnit(3, ms % 60_000, "s");
    PrintsMillis(ms % 1_000);
  }

  lemma HoursOf(ms: nat)
    ensures ms % 86_400_000 / 3_600_000 == ms / 3_600_000 % 24 && ms % 86_400_000 % 3_600_000 == ms % 3_600_000
  {
    var q, r := ms / 86_400_000, ms % 86_400_000;
    assert ms / 3_600_000 == 24 * q + r / 3_600_000;
  }

  lemma MinutesOf(ms: nat)
    ensures ms % 3_600_000 / 60_000 == ms / 60_000 % 60 && ms % 3_600_000 % 60_000 == ms % 60_000
  {
    var q, r := ms / 3_600_000, ms % 3_600_000;
    assert ms / 60_000 == 60 * q + r / 60_000;
  }

  lemma SecondsOf(ms: nat)
    ensures ms % 60_000 / 1_000 == ms / 1_000 % 60 && ms % 60_000 % 1_000 == ms % 1_000
  {
    var q, r := ms / 60_000, ms % 60_000;
    assert ms / 1_000 == 60 * q + r / 1_000;
  }

  lemma PrintsMillis(ms: nat)
    ensures HumanizeFrom(4, ms) == PartText(ms, "ms")
  {
  }

  lemma PrintsUnit(i: nat, ms: nat, unit: string)
    requires i < 4 && unit == ["d", "h", "m", "s"][i]
    ensures var size := [86_400_000, 3_600_000, 60_000, 1_000][i];
            HumanizeFrom(i, ms) == PartText(ms / size, unit) + HumanizeFrom(i + 1, ms % size)
  {
    hide PrintNat;
  }

  function PrintedSegment(n: nat, u: Unit): (s: Segment)
    ensures n <= MAX_U64 ==> ValidSegment(s) && SegmentMillis(s) == n * Millis(u)
  {
    DigitsRoundTrip(n);
    Segment(PrintNat(n), u)
  }

  /** A bound on what is left to print at the `i`th unit. */
  predicate LeftAt(i: nat, ms: nat) {
    if i == 4 then ms < 1_000 else Fits(ms)
  }

  lemma WholeUnits(i: nat, ms: nat)
    requires i < 4 && Fits(ms)
    ensures ms == ms / Millis(PRINTED[i]) * Millis(PRINTED[i]) + ms % Millis(PRINTED[i])
    ensures ms / Millis(PRINTED[i]) <= MAX_U64
    ensures LeftAt(i + 1, ms % Millis(PRINTED[i]))
    ensures ms < Millis(PRINTED[i]) ==> LeftAt(i + 1, ms)
  {
  }

  lemma {:induction false} HumanizedIsRendered(i: nat, ms: nat) returns (segs: seq<Segment>)
    requires i <= |PRINTED| && LeftAt(i, ms)
    ensures ValidSegments(segs) && Render(segs) == HumanizeFrom(i, ms) && TotalOf(segs) == ms
    decreases |PRINTED| - i
  {
    hide PrintNat, ValidSegment, SegmentMillis;
    if i == |PRINTED| {
      segs := if ms > 0 then [PrintedSegment(ms, Ms)] else [];
      if ms > 0 {
        assert segs[1..] == [];
        assert Render([]) == [];
        assert UnitText(Ms) + [] == "ms";
      }
    } else {
      WholeUnits(i, ms);
      var u := PRINTED[i];
      if ms >= Millis(u) {
        var more := HumanizedIsRendered(i + 1, ms % Millis(u));
        segs := [PrintedSegment(ms / Millis(u), u)] + more;
        assert segs[1..] == more;
      } else {
        segs := HumanizedIsRendered(i + 1, ms);
      }
    }
  }

  lemma {:induction false} RenderEnds(segs: seq<Segment>)
    requires segs != [] && ValidSegments(segs)
    ensures Render(segs) != [] && IsLetter(Render(segs)[|Render(segs)| - 1])
  {
    var unit, tail := UnitText(segs[0].unit), Render(segs[1..]);
    assert IsLetter(unit[|unit| - 1]);
    if |segs| > 1 {
      RenderEnds(segs[1..]);
      assert (unit + tail)[|unit + tail| - 1] == tail[|tail| - 1];
    } else {
      assert tail == [];
    }
    assert Render(segs)[|Render(segs)| - 1] == (unit + tail)[|unit + tail| - 1];
  }

  /** Every duration prints as text that reads back, without overflow, as its whole
      milliseconds: the very duration exactly when it has no smaller part. */
  lemma DurationRoundTrip(nanos: nat)
    requires nanos / 1_000_000_000 <= MAX_U64
    ensures ParseDuration(Humanize(nanos)) == Ok(nanos / 1_000_000)
    ensures ParseDuration(Humanize(nanos)).value * 1_000_000 == nanos <==> nanos % 1_000_000 == 0
  {
    hide ParseFrom, Trim, TotalOf, ValidSegments, Render, HumanizeFrom;
    var ms := nanos / 1_000_000;
    var segs: seq<Segment>;
    if ms == 0 {
      segs := ZeroSegments();
    } else {
      segs := HumanizedIsRendered(0, ms);
      assert segs != [] by { NothingIsZero(); }
    }
    RenderStarts(segs);
    RenderEnds(segs);
    TrimOfUntrimmed(Render(segs));
    ReadsExactlySums(Humanize(nanos), ms);
  }

  lemma NothingIsZero()
    ensures TotalOf([]) == 0
  {
  }

  lemma ZeroSegments() returns (segs: seq<Segment>)
    ensures segs != [] && ValidSegments(segs) && Render(segs) == "0s" && TotalOf(segs) == 0
  {
    segs := [Segment("0", Sec)];
    assert segs[1..] == [];
    assert Render([]) == [];
    assert "0"[..0] == "";
    assert DigitsValue("0") == 0;
    assert UnitText(Sec) + [] == "s";
  }

  /** One number and one unit, in milliseconds. */
  lemma DurationUnits(n: nat)
    requires n * 86_400 <= MAX_U64
    ensures ParseDuration(PrintNat(n) + "ms") == Ok(n)
    ensures ParseDuration(PrintNat(n) + "s") == Ok(n * 1000)
    ensures ParseDuration(PrintNat(n) + "m") == Ok(n * 60 * 1000)
    ensures ParseDuration(PrintNat(n) + "h") == Ok(n * 60 * 60 * 1000)
    ensures ParseDuration(PrintNat(n) + "d") == Ok(n * 24 * 60 * 60 * 1000)
  {
    hide ParseDuration, PrintNat;
    OneUnitReads(n, Ms);
    OneUnitReads(n, Sec);
    OneUnitReads(n, Min);
    OneUnitReads(n, Hour);
    OneUnitReads(n, Day);
  }

  lemma OneUnitReads(n: nat, u: Unit)
    requires n <= MAX_U64 && Fits(n * Millis(u))
    ensures ParseDuration(PrintNat(n) + UnitText(u)) == Ok(n * Millis(u))
  {
    hide ParseDuration, PrintNat, Trim, ValidSegment, SegmentMillis, Millis, UnitText, Fits;
    var s := PrintedSegment(n, u);
    var segs := [s];
    assert segs[1..] == [] && Render([]) == [] && TotalOf([]) == 0;
    assert Render(segs) == PrintNat(n) + (UnitText(u) + []);
    assert UnitText(u) + [] == UnitText(u);
    RenderStarts(segs);
    RenderEnds(segs);
    TrimOfUntrimmed(Render(segs)) by { DigitsAndLettersAreNotBlank(Render(segs)); }
    ReadsExactlySums(Render(segs), n * Millis(u));
  }

  lemma DigitsAndLettersAreNotBlank(s: string)
    requires s != [] && IsDigit(s[0]) && IsLetter(s[|s| - 1])
    ensures !IsWhitespace(s[0]) && !IsWhitespace(s[|s| - 1])
  {
  }

  /** What is no duration: blank text, a number alone, a unit alone, an unknown unit. */
  lemma NoDurations(blank: string, n: nat, unit: string)
    requires Blank(blank) && unit != [] && All(unit, IsLetter)
    ensures ParseDuration(blank) == Err(EmptyText)
    ensures ParseDuration(PrintNat(n)) == Err(Malformed)
    ensures ParseDuration(unit) == Err(Malformed)
    ensures n <= MAX_U64 && unit != "ms" && unit != "s" && unit != "m" && unit != "h" && unit != "d" ==>
              ParseDuration(PrintNat(n) + unit) == Err(Malformed)
  {
    hide PrintNat, Millis, Fits;
    TrimOfBlank(blank);
    var digits := PrintNat(n);
    assert IsDigit(digits[0]) && IsDigit(digits[|digits| - 1]) && IsLetter(unit[0]) && IsLetter(unit[|unit| - 1]);
    DigitsAndLettersAreNotBlank(digits + unit) by {
      assert (digits + unit)[0] == digits[0] && (digits + unit)[|digits + unit| - 1] == unit[|unit| - 1];
    }
    TrimOfUntrimmed(digits);
    TrimOfUntrimmed(unit);
    TrimOfUntrimmed(digits + unit);
    RunIs(digits, [], IsDigit);
    assert digits + [] == digits;
    RunIs(digits, unit, IsDigit);
    RunIs(unit, [], IsLetter);
    assert unit + [] == unit && unit[..|unit|] == unit;
    DigitsRead(digits);
    DigitsRoundTrip(n);
  }

  /** The largest number of seconds there is, 2^64 - 1, reads; one more does not. */
  lemma SecondsAreBounded()
    ensures ParseDuration(PrintNat(18446744073709551615) + "s") == Ok(18446744073709551615 * 1000)
    ensures ParseDuration(PrintNat(18446744073709551616) + "s") == Err(Overflow)
  {
    hide ParseDuration, PrintNat;
    OneUnitReads(18446744073709551615, Sec);
    TooLargeANumber(18446744073709551616, Sec);
  }

  lemma TooLargeANumber(n: nat, u: Unit)
    requires n > MAX_U64
    ensures ParseDuration(PrintNat(n) + UnitText(u)) == Err(Overflow)
  {
    hide PrintNat, UnitOf, Millis, Fits;
    var digits, unit := PrintNat(n), UnitText(u);
    var text := digits + unit;
    assert IsDigit(digits[0]) && IsLetter(unit[|unit| - 1]) && text[0] == digits[0];
    assert text[|text| - 1] == unit[|unit| - 1];
    DigitsAndLettersAreNotBlank(text);
    TrimOfUntrimmed(text);
    RunIs(digits, unit, IsDigit);
    DigitsRoundTrip(n);
    assert ParseUnsigned(digits, MAX_U64) == None;
  }

  // ---------------------------------------------------------------------------
  // Byte sizes and bit rates
  // ---------------------------------------------------------------------------

  /** A double, as far as these parsers can tell; text without letters never reads as NaN. */
  datatype Float = Finite(value: real) | PosInfinite | NegInfinite

  /** The standard library's reading of a decimal number and the processor's multiplication. */
  datatype Floats = Floats(read: string -> Option<Float>, times: (Float, Float) -> Float)

  /** What is taken of them: whole numbers below 2^53 are exact, read or multiplied. */
  ghost predicate ExactBelow53(f: Floats) {
    && (forall n: nat {:trigger PrintNat(n)} :: n < 0x20_0000_0000_0000 ==>
          f.read(PrintNat(n)) == Some(Finite(n as real)))
    && (forall a: nat, b: nat {:trigger f.times(Finite(a as real), Finite(b as real))} ::
          a * b < 0x20_0000_0000_0000 ==> f.times(Finite(a as real), Finite(b as real)) == Finite((a * b) as real))
  }

  /** Exact arithmetic, as those assumptions allow. */
  function ReadDigits(s: string): Option<Float> {
    if s != [] && All(s, IsDigit) then Some(Finite(DigitsValue(s) as real)) else None
  }

  function ExactTimes(a: Float, b: Float): Float {
    if a.Finite? && b.Finite? then Finite(a.value * b.value) else PosInfinite
  }

  lemma {:induction false} ProductOfWholes(a: nat, b: nat)
    ensures (a as real) * (b as real) == (a * b) as real
  {
    if a > 0 {
      ProductOfWholes(a - 1, b);
      assert a * b == (a - 1) * b + b;
      assert (a as real) * (b as real) == ((a - 1) as real) * (b as real) + b as real;
    }
  }

  /** The assumptions can be met. */
  lemma ExactArithmeticIsExact()
    ensures ExactBelow53(Floats(ReadDigits, ExactTimes))
  {
    hide PrintNat, DigitsValue;
    forall n: nat ensures ReadDigits(PrintNat(n)) == Some(Finite(n as real)) {
      DigitsRoundTrip(n);
    }
    forall a: nat, b: nat ensures ExactTimes(Finite(a as real), Finite(b as real)) == Finite((a * b) as real) {
      ProductOfWholes(a, b);
    }
  }

  function SplitScalar(f: Floats, input: string): Result<(Float, string), UnitError> {
    var text := Trim(input);
    if text == [] then Err(EmptyText)
    else
      var split := RunOf(text, c => !IsLetter(c));
      var number := Trim(text[..split]);
      if number == [] then Err(Malformed)
      else
        var value := f.read(number);
        if value.None? || value.value.NegInfinite? || (value.value.Finite? && value.value.value < 0.0) then
          Err(Malformed)
        else Ok((value.value, Trim(text[split..])))
  }

  /** A number without letters and a unit of letters split where the letters begin, with or
      without a blank between them and around them. */
  lemma ScalarSplits(f: Floats, number: string, unit: string)
    requires number != [] && unit != [] && All(unit, IsLetter)
    requires forall i :: 0 <= i < |number| ==> !IsLetter(number[i])
    requires !IsWhitespace(number[0]) && !IsWhitespace(number[|number| - 1])
    ensures var r := f.read(number);
            var split := if r.None? || r.value.NegInfinite? || (r.value.Finite? && r.value.value < 0.0)
                         then Err(Malformed) else Ok((r.value, unit));
            SplitScalar(f, number + unit) == split && SplitScalar(f, number + " " + unit) == split
  {
    assert IsLetter(unit[0]) && IsLetter(unit[|unit| - 1]);
    var a, b := number + unit, number + " " + unit;
    assert a[0] == number[0] == b[0] && a[|a| - 1] == unit[|unit| - 1] == b[|b| - 1];
    TrimOfUntrimmed(a);
    TrimOfUntrimmed(b);
    TrimOfUntrimmed(unit);
    TrimOfUntrimmed(number);
    RunIs(number, unit, c => !IsLetter(c));
    RunIs(number + " ", unit, c => !IsLetter(c));
    assert [] + number + " " == number + " ";
    TrimIs([], number, " ");
  }

  function ByteMultiplier(unit: string): Option<nat> {
    if unit == "" || unit == "b" then Some(1)
    else if unit == "kb" then Some(1_000)
    else if unit == "mb" then Some(1_000_000)
    else if unit == "gb" then Some(1_000_000_000)
    else if unit == "tb" then Some(1_000_000_000_000)
    else if unit == "pb" then Some(1_000_000_000_000_000)
    else if unit == "kib" then Some(0x400)
    else if unit == "mib" then Some(0x10_0000)
    else if unit == "gib" then Some(0x4000_0000)
    else if unit == "tib" then Some(0x100_0000_0000)
    else if unit == "pib" then Some(0x4_0000_0000_0000)
    else None
  }

  function BitMultiplier(unit: string): Option<nat> {
    if unit == "" || unit == "bps" then Some(1)
    else if unit == "kbps" then Some(1_000)
    else if unit == "mbps" then Some(1_000_000)
    else if unit == "gbps" then Some(1_000_000_000)
    else if unit == "tbps" then Some(1_000_000_000_000)
    else None
  }

  function Scaled(f: Floats, input: string, multiplier: string -> Option<nat>): Result<nat, UnitError> {
    var scalar := SplitScalar(f, input);
    if scalar.Err? then Err(scalar.error)
    else
      var m := multiplier(Lower(scalar.value.1));
      if m.None? then Err(Malformed)
      else
        var product := f.times(scalar.value.0, Finite(m.value as real));
        if !product.Finite? || product.value < 0.0 || product.value >= 18446744073709551616.0 then Err(Overflow)
        else Ok((product.value + 0.5).Floor)
  }

  function ParseBytes(f: Floats, input: string): Result<nat, UnitError> {
    Scaled(f, input, ByteMultiplier)
  }

  function ParseBitrate(f: Floats, input: string): Result<nat, UnitError> {
    Scaled(f, input, BitMultiplier)
  }

  /** A scaled number is the nearest whole one, halves up, and refused from 2^64 on. */
  lemma ScaledIsNearest(f: Floats, input: string, multiplier: string -> Option<nat>)
    requires SplitScalar(f, input).Ok? && multiplier(Lower(SplitScalar(f, input).value.1)).Some?
    ensures var (value, unit) := SplitScalar(f, input).value;
            var product := f.times(value, Finite(multiplier(Lower(unit)).value as real));
            var r := Scaled(f, input, multiplier);
            && (r.Ok? <==> product.Finite? && 0.0 <= product.value < 18446744073709551616.0)
            && (r.Err? ==> r.error == Overflow)
            && (r.Ok? ==> r.value as real - 0.5 <= product.value < r.value as real + 0.5)
  {
    hide SplitScalar;
  }

  /** The largest decimal prefix that leaves a whole number. */
  function Prefix(value: nat): (string, nat) {
    if value >= 1_000_000_000_000 && value % 1_000_000_000_000 == 0 then ("T", 1_000_000_000_000)
    else if value >= 1_000_000_000 && value % 1_000_000_000 == 0 then ("G", 1_000_000_000)
    else if value >= 1_000_000 && value % 1_000_000 == 0 then ("M", 1_000_000)
    else if value >= 1_000 && value % 1_000 == 0 then ("k", 1_000)
    else ("", 1)
  }

  function HumanizeDecimal(value: nat, unit: string): string {
    PrintNat(value / Prefix(value).1) + (Prefix(value).0 + unit)
  }

  /** The prefix is the largest that leaves a whole number, by its usual letter. */
  lemma PrefixIsLargest(value: nat)
    requires value > 0
    ensures Prefix(value) in {("T", 1_000_000_000_000), ("G", 1_000_000_000), ("M", 1_000_000), ("k", 1_000), ("", 1)}
    ensures value % Prefix(value).1 == 0
    ensures forall size :: size in {1_000_000_000_000, 1_000_000_000, 1_000_000, 1_000, 1} && value % size == 0 ==>
              size <= Prefix(value).1
  {
  }

  lemma PrefixIsExact(value: nat)
    ensures Prefix(value).1 > 0 && value / Prefix(value).1 * Prefix(value).1 == value
    ensures All(Prefix(value).0, IsLetter)
  {
  }

  lemma WholeRound(n: nat)
    ensures ((n as real) + 0.5).Floor == n
  {
  }

  lemma SplitOfPrinted(f: Floats, n: nat, unit: string)
    requires ExactBelow53(f) && n < 0x20_0000_0000_0000 && unit != [] && All(unit, IsLetter)
    ensures SplitScalar(f, PrintNat(n) + unit) == Ok((Finite(n as real), unit))
  {
    hide PrintNat;
    var digits := PrintNat(n);
    var text := digits + unit;
    assert IsDigit(digits[0]) && IsDigit(digits[|digits| - 1]) && IsLetter(unit[0]) && IsLetter(unit[|unit| - 1]);
    assert text[0] == digits[0] && text[|text| - 1] == unit[|unit| - 1];
    TrimOfUntrimmed(text);
    TrimOfUntrimmed(digits);
    TrimOfUntrimmed(unit);
    assert forall i :: 0 <= i < |digits| ==> IsDigit(digits[i]);
    RunIs(digits, unit, c => !IsLetter(c));
  }

  /** A number and a unit read as the number times the unit. */
  lemma ScaledReads(f: Floats, n: nat, unit: string, m: nat, multiplier: string -> Option<nat>)
    requires ExactBelow53(f) && n * m < 0x20_0000_0000_0000 && m > 0
    requires unit != [] && All(unit, IsLetter) && multiplier(Lower(unit)) == Some(m)
    ensures Scaled(f, PrintNat(n) + unit, multiplier) == Ok(n * m)
  {
    hide PrintNat, SplitScalar;
    NoGreater(n, m);
    SplitOfPrinted(f, n, unit);
    assert f.times(Finite(n as real), Finite(m as real)) == Finite((n * m) as real);
    WholeRound(n * m);
  }

  lemma NoGreater(n: nat, m: nat)
    requires m > 0
    ensures n <= n * m
  {
  }

  /** A printed quantity reads back wherever its prefixed unit has the prefix's multiplier. */
  lemma ScaledRoundTrip(f: Floats, value: nat, unit: string, multiplier: string -> Option<nat>)
    requires ExactBelow53(f) && value < 0x20_0000_0000_0000 && unit != [] && All(unit, IsLetter)
    requires multiplier(Lower(Prefix(value).0 + unit)) == Some(Prefix(value).1)
    ensures Scaled(f, HumanizeDecimal(value, unit), multiplier) == Ok(value)
  {
    hide PrintNat, Prefix, Scaled;
    PrefixIsExact(value);
    var m := Prefix(value).1;
    ScaledReads(f, value / m, Prefix(value).0 + unit, m, multiplier);
  }

  /** What each byte unit is worth, in any letter case: powers of 1000, and of 1024 with an i. */
  lemma ByteUnitsAre(unit: string)
    ensures ByteMultiplier("") == Some(1) && ByteMultiplier("b") == Some(1)
    ensures ByteMultiplier("kb") == Some(1000) && ByteMultiplier("mb") == Some(1000 * 1000)
    ensures ByteMultiplier("gb") == Some(1000 * 1000 * 1000) && ByteMultiplier("tb") == Some(1000 * 1000 * 1000 * 1000)
    ensures ByteMultiplier("pb") == Some(1000 * 1000 * 1000 * 1000 * 1000)
    ensures ByteMultiplier("kib") == Some(1024) && ByteMultiplier("mib") == Some(1024 * 1024)
    ensures ByteMultiplier("gib") == Some(1024 * 1024 * 1024)
    ensures ByteMultiplier("tib") == Some(1024 * 1024 * 1024 * 1024)
    ensures ByteMultiplier("pib") == Some(1024 * 1024 * 1024 * 1024 * 1024)
    ensures ByteMultiplier(unit).Some? ==>
              || unit == "" || unit == "b"
              || unit == "kb" || unit == "mb" || unit == "gb" || unit == "tb" || unit == "pb"
              || unit == "kib" || unit == "mib" || unit == "gib" || unit == "tib" || unit == "pib"
  {
  }

  lemma BitUnitsAre(unit: string)
    ensures BitMultiplier("") == Some(1) && BitMultiplier("bps") == Some(1)
    ensures BitMultiplier("kbps") == Some(1000) && BitMultiplier("mbps") == Some(1000 * 1000)
    ensures BitMultiplier("gbps") == Some(1000 * 1000 * 1000)
    ensures BitMultiplier("tbps") == Some(1000 * 1000 * 1000 * 1000)
    ensures BitMultiplier(unit).Some? ==>
              unit == "" || unit == "bps" || unit == "kbps" || unit == "mbps" || unit == "gbps" || unit == "tbps"
  {
  }

  /** `3MiB` is three times 1024 squared, and `3Mbps` three million. */
  lemma UnitsByText(f: Floats, n: nat)
    requires ExactBelow53(f) && n < 0x200
    ensures ParseBytes(f, PrintNat(n) + "KiB") == Ok(n * 1024)
    ensures ParseBytes(f, PrintNat(n) + "MiB") == Ok(n * (1024 * 1024))
    ensures ParseBytes(f, PrintNat(n) + "MB") == Ok(n * 1_000_000)
    ensures ParseBitrate(f, PrintNat(n) + "Mbps") == Ok(n * 1_000_000)
    ensures ParseBitrate(f, PrintNat(n) + "KiB") == Err(Malformed)
  {
    hide Scaled, PrintNat, ExactBelow53, ByteMultiplier, BitMultiplier;
    ByteUnitsAre("");
    BitUnitsAre(Lower("KiB"));
    assert Lower("KiB") == "kib" && Lower("MiB") == "mib" && Lower("MB") == "mb" && Lower("Mbps") == "mbps";
    ScaledReads(f, n, "KiB", 1024, ByteMultiplier);
    ScaledReads(f, n, "MiB", 1024 * 1024, ByteMultiplier);
    ScaledReads(f, n, "MB", 1_000_000, ByteMultiplier);
    ScaledReads(f, n, "Mbps", 1_000_000, BitMultiplier);
    UnknownUnit(f, n, "KiB", BitMultiplier);
  }

  lemma UnknownUnit(f: Floats, n: nat, unit: string, multiplier: string -> Option<nat>)
    requires ExactBelow53(f) && n < 0x20_0000_0000_0000 && unit != [] && All(unit, IsLetter)
    requires multiplier(Lower(unit)).None?
    ensures Scaled(f, PrintNat(n) + unit, multiplier) == Err(Malformed)
  {
    hide PrintNat, SplitScalar;
    SplitOfPrinted(f, n, unit);
  }

  /** Every byte size below 2^53 reads back from its printed form. */
  lemma BytesRoundTrip(f: Floats, value: nat)
    requires ExactBelow53(f) && value < 0x20_0000_0000_0000
    ensures ParseBytes(f, HumanizeDecimal(value, "B")) == Ok(value)
  {
    hide Scaled, HumanizeDecimal;
    ByteUnits(value);
    ScaledRoundTrip(f, value, "B", ByteMultiplier);
  }

  /** Every bit rate below 2^53 reads back from its printed form. */
  lemma BitrateRoundTrip(f: Floats, value: nat)
    requires ExactBelow53(f) && value < 0x20_0000_0000_0000
    ensures ParseBitrate(f, HumanizeDecimal(value, "bps")) == Ok(value)
  {
    hide Scaled, HumanizeDecimal;
    BitUnits(value);
    ScaledRoundTrip(f, value, "bps", BitMultiplier);
  }

  lemma ByteUnits(value: nat)
    ensures ByteMultiplier(Lower(Prefix(value).0 + "B")) == Some(Prefix(value).1)
  {
    var unit := Prefix(value).0 + "B";
    assert unit == "TB" || unit == "GB" || unit == "MB" || unit == "kB" || unit == "B";
    assert Lower(unit) == if unit == "B" then "b" else if unit == "TB" then "tb" else if unit == "GB" then "gb"
                          else if unit == "MB" then "mb" else "kb";
  }

  lemma BitUnits(value: nat)
    ensures BitMultiplier(Lower(Prefix(value).0 + "bps")) == Some(Prefix(value).1)
  {
    var unit := Prefix(value).0 + "bps";
    assert unit == "Tbps" || unit == "Gbps" || unit == "Mbps" || unit == "kbps" || unit == "bps";
    assert Lower(unit) == if unit == "bps" then "bps" else if unit == "Tbps" then "tbps"
                          else if unit == "Gbps" then "gbps"
                          else if unit == "Mbps" then "mbps" else "kbps";
  }
}
