/**
 Durations as a settings file spells them: a whole number and a unit.

 A duration is counted in nanoseconds, as many as 64 bits of seconds and a fraction can hold.
 */
module Durations {
  import opened Arithmetic
  import opened Results
  import opened Text

  const I64_MIN := -0x8000_0000_0000_0000
  const I64_MAX := 0x7FFF_FFFF_FFFF_FFFF

  const MILLI := 1_000_000
  const SECOND := 1_000_000_000

  predicate IsI64(i: int) {
    I64_MIN <= i <= I64_MAX
  }

  predicate IsDuration(d: int) {
    IsI64(Truncated(d, SECOND))
  }

  datatype Unparsed = NoUnit | NotAWholeNumber | UnknownUnit | Overflows

  function SecondsIn(unit: string): Option<int> {
    match unit
    case "s" => Some(1)
    case "m" => Some(60)
    case "h" => Some(3_600)
    case "d" => Some(86_400)
    case "w" => Some(604_800)
    case "y" => Some(31_536_000)
    case _ => None
  }

  function Parse(text: string): Result<int, Unparsed> {
    var trimmed := Trim(text);
    var split := FirstLetter(trimmed);
    if split == |trimmed| then Failure(NoUnit)
    else
      var value := ParseInt(Trim(trimmed[..split]), I64_MIN, I64_MAX);
      var unit := Trim(trimmed[split..]);
      if value.None? then Failure(NotAWholeNumber)
      else if unit == "ms" then Success(value.value * MILLI)
      else
        var seconds := SecondsIn(unit);
        if seconds.None? then Failure(UnknownUnit)
        else if !IsI64(value.value * seconds.value) then Failure(Overflows)
        else Success(value.value * seconds.value * SECOND)
  }

  /** Largest first. */
  const UNITS: seq<string> := ["y", "w", "d", "h", "m"]

  /** The first unit of the table that divides the seconds, or seconds themselves. */
  function ExactUnit(seconds: int, units: seq<string>): string
    requires forall i :: 0 <= i < |units| ==> units[i] in UNITS
  {
    if units == [] then "s"
    else
      assert units[0] in UNITS;
      if seconds != 0 && seconds % SecondsIn(units[0]).value == 0 then units[0]
      else ExactUnit(seconds, units[1..])
  }

  function Format(d: int): string {
    var millis := Truncated(d, MILLI);
    if millis % 1_000 != 0 then PrintInt(millis) + "ms"
    else
      var seconds := Truncated(d, SECOND);
      var unit := ExactUnit(seconds, UNITS);
      PrintInt(Truncated(seconds, UnitSize(unit))) + unit
  }

  function UnitSize(unit: string): (size: int)
    ensures size > 0
  {
    if SecondsIn(unit).Some? then SecondsIn(unit).value else 1
  }

  // ---------------------------------------------------------------- the unit that is chosen

  lemma {:induction false} ExactUnitDivides(seconds: int, units: seq<string>)
    requires forall i :: 0 <= i < |units| ==> units[i] in UNITS
    ensures var unit := ExactUnit(seconds, units);
      && (unit == "s" || (unit in units && seconds != 0)) && seconds % UnitSize(unit) == 0
      && SecondsIn(unit).Some?
    ensures forall i :: 0 <= i < |units| && seconds != 0 && seconds % UnitSize(units[i]) == 0 ==>
                          UnitSize(ExactUnit(seconds, units)) == UnitSize(units[i])
                          || exists j :: 0 <= j < i && ExactUnit(seconds, units) == units[j]
    decreases |units|
  {
    if units != [] {
      assert units[0] in UNITS;
      if seconds == 0 || seconds % SecondsIn(units[0]).value != 0 {
        var rest := units[1..];
        ExactUnitDivides(seconds, rest);
        var unit := ExactUnit(seconds, rest);
        forall i | 0 <= i < |units| && seconds != 0 && seconds % UnitSize(units[i]) == 0
          ensures UnitSize(unit) == UnitSize(units[i]) || exists j :: 0 <= j < i && unit == units[j]
        {
          assert i > 0 && rest[i - 1] == units[i];
          if j :| 0 <= j < i - 1 && unit == rest[j] {
            assert unit == units[j + 1];
          }
        }
      }
    }
  }

  lemma LargestFirst()
    ensures forall i, j :: 0 <= i < j < |UNITS| ==> UnitSize(UNITS[i]) > UnitSize(UNITS[j])
  {
    assert UnitSize(UNITS[0]) > UnitSize(UNITS[1]) > UnitSize(UNITS[2]) > UnitSize(UNITS[3]) > UnitSize(UNITS[4]);
  }

  /** No larger unit would have been exact. */
  lemma LargestExactUnit(seconds: int, larger: string)
    requires larger in ["y", "w", "d", "h", "m"] && seconds != 0
    requires UnitSize(larger) > UnitSize(ExactUnit(seconds, UNITS))
    ensures seconds % UnitSize(larger) != 0
  {
    ExactUnitDivides(seconds, UNITS);
    LargestFirst();
    var i :| 0 <= i < |UNITS| && UNITS[i] == larger;
  }

  // ---------------------------------------------------------------- a printed number with a unit

  lemma TrimmedAlready(s: string)
    requires s != "" && !IsWhiteSpace(s[0]) && !IsWhiteSpace(s[|s| - 1])
    ensures Trim(s) == s
  {
  }

  lemma PrintedIsPlain(i: int)
    ensures var s := PrintInt(i);
      s != "" && Trim(s) == s && forall k :: 0 <= k < |s| ==> !IsLetter(s[k]) && !IsWhiteSpace(s[k])
  {
    var s := PrintInt(i);
    assert forall k :: 0 <= k < |s| ==> IsDigit(s[k]) || s[k] == '-';
    TrimmedAlready(s);
  }

  predicate IsWord(unit: string) {
    unit != "" && forall k :: 0 <= k < |unit| ==> IsLetter(unit[k])
  }

  /** What a printed number with a unit behind it is read as. */
  lemma PrintedIsParsed(value: int, unit: string)
    requires IsWord(unit)
    ensures Parse(PrintInt(value) + unit) ==
      if !IsI64(value) then Failure(NotAWholeNumber)
      else if unit == "ms" then Success(value * MILLI)
      else if SecondsIn(unit).None? then Failure(UnknownUnit)
      else if !IsI64(value * SecondsIn(unit).value) then Failure(Overflows)
      else Success(value * SecondsIn(unit).value * SECOND)
  {
    var number := PrintInt(value);
    var s := number + unit;
    PrintedIsPlain(value);
    TrimmedAlready(s);
    TrimmedAlready(unit);
    assert FirstLetter(s) == |number| by {
      assert IsLetter(s[|number|]);
      assert forall k :: 0 <= k < |number| ==> s[k] == number[k];
    }
    assert s[..|number|] == number && s[|number|..] == unit;
    PrintedReadsBack(value, I64_MIN, I64_MAX);
  }

  // ---------------------------------------------------------------- what the units are

  predicate In64Bits(i: int) {
    -0x8000_0000_0000_0000 <= i <= 0x7FFF_FFFF_FFFF_FFFF
  }

  /** A number of seconds is that many thousand million nanoseconds, as far as 64 bits of seconds go. */
  lemma SecondsAreRead(n: int)
    ensures Parse(PrintInt(n) + "s") == if In64Bits(n) then Success(n * 1_000_000_000) else Failure(NotAWholeNumber)
  {
    PrintedIsParsed(n, "s");
  }

  /** Each unit by the next smaller one; a year is 365 days, whatever the calendar says. */
  lemma UnitsMeasureEachOther(n: int)
    ensures In64Bits(n * 1_000) ==> Parse(PrintInt(n) + "s") == Parse(PrintInt(n * 1_000) + "ms")
    ensures In64Bits(n * 60) ==> Parse(PrintInt(n) + "m") == Parse(PrintInt(n * 60) + "s")
    ensures In64Bits(n * 60 * 60) ==> Parse(PrintInt(n) + "h") == Parse(PrintInt(n * 60) + "m")
    ensures In64Bits(n * 24 * 60 * 60) ==> Parse(PrintInt(n) + "d") == Parse(PrintInt(n * 24) + "h")
    ensures In64Bits(n * 7 * 24 * 60 * 60) ==> Parse(PrintInt(n) + "w") == Parse(PrintInt(n * 7) + "d")
    ensures In64Bits(n * 365 * 24 * 60 * 60) ==> Parse(PrintInt(n) + "y") == Parse(PrintInt(n * 365) + "d")
  {
    hide Parse, PrintInt, SecondsIn, UnitSize;
    UnitSizes();
    if In64Bits(n * 1_000) {
      PrintedIsParsed(n * 1_000, "ms");
      SecondsAreRead(n);
    }
    ReadAs(n, "m", n * 60);
    ReadAs(n * 60, "s", n * 60);
    ReadAs(n, "h", n * 60 * 60);
    ReadAs(n * 60, "m", n * 60 * 60);
    ReadAs(n, "d", n * 24 * 60 * 60);
    ReadAs(n * 24, "h", n * 24 * 60 * 60);
    ReadAs(n, "w", n * 7 * 24 * 60 * 60);
    ReadAs(n * 7, "d", n * 7 * 24 * 60 * 60);
    ReadAs(n, "y", n * 365 * 24 * 60 * 60);
    ReadAs(n * 365, "d", n * 365 * 24 * 60 * 60);
  }

  lemma UnitSizes()
    ensures UnitSize("s") == 1 && UnitSize("m") == 60 && UnitSize("h") == 3_600 && UnitSize("d") == 86_400
    ensures UnitSize("w") == 604_800 && UnitSize("y") == 31_536_000
  {
  }

  lemma ReadAs(n: int, unit: string, seconds: int)
    requires unit in ["s", "m", "h", "d", "w", "y"] && seconds == n * UnitSize(unit)
    ensures In64Bits(seconds) ==> Parse(PrintInt(n) + unit) == Success(seconds * SECOND)
    ensures In64Bits(n) && !In64Bits(seconds) ==> Parse(PrintInt(n) + unit) == Failure(Overflows)
  {
    hide Parse, PrintInt;
    Grows(n, UnitSize(unit));
    PrintedIsParsed(n, unit);
  }

  /** Beyond 64 bits of seconds a larger unit overflows, and a word that is no unit is refused. */
  lemma OtherUnitsAreRefused(n: int, unit: string)
    requires In64Bits(n) && IsWord(unit)
    ensures unit !in ["ms", "s", "m", "h", "d", "w", "y"] ==> Parse(PrintInt(n) + unit) == Failure(UnknownUnit)
    ensures !In64Bits(n * 60) ==> Parse(PrintInt(n) + "m") == Failure(Overflows)
    ensures !In64Bits(n * 60 * 60) ==> Parse(PrintInt(n) + "h") == Failure(Overflows)
    ensures !In64Bits(n * 24 * 60 * 60) ==> Parse(PrintInt(n) + "d") == Failure(Overflows)
    ensures !In64Bits(n * 7 * 24 * 60 * 60) ==> Parse(PrintInt(n) + "w") == Failure(Overflows)
    ensures !In64Bits(n * 365 * 24 * 60 * 60) ==> Parse(PrintInt(n) + "y") == Failure(Overflows)
  {
    hide Parse, PrintInt, UnitSize;
    UnitSizes();
    PrintedIsParsed(n, unit);
    ReadAs(n, "m", n * 60);
    ReadAs(n, "h", n * 60 * 60);
    ReadAs(n, "d", n * 24 * 60 * 60);
    ReadAs(n, "w", n * 7 * 24 * 60 * 60);
    ReadAs(n, "y", n * 365 * 24 * 60 * 60);
  }

  /** A text without a letter has no unit. */
  lemma NoUnitIffNoLetter(text: string)
    ensures Parse(text) == Failure(NoUnit) <==> forall k :: 0 <= k < |text| ==> !IsLetter(text[k])
  {
    assert Parse(text) == Failure(NoUnit) <==> FirstLetter(Trim(text)) == |Trim(text)| by {
      hide Trim, ParseInt, SecondsIn;
    }
    hide Parse;
    TrimIsTheMiddle(text);
    var before, after :| IsBlank(before) && IsBlank(after) && text == before + Trim(text) + after;
    NoLetterAround(before, Trim(text), after);
  }

  lemma NoLetterAround(before: string, middle: string, after: string)
    requires IsBlank(before) && IsBlank(after)
    ensures FirstLetter(middle) == |middle|
      <==> forall k :: 0 <= k < |before + middle + after| ==> !IsLetter((before + middle + after)[k])
  {
    assert forall c :: IsWhiteSpace(c) ==> !IsLetter(c);
    hide IsLetter, IsWhiteSpace;
    var text := before + middle + after;
    if FirstLetter(middle) == |middle| {
      forall k | 0 <= k < |text|
        ensures !IsLetter(text[k])
      {
        if k < |before| {
          assert text[k] == before[k];
        } else if k < |before| + |middle| {
          assert text[k] == middle[k - |before|];
        } else {
          assert text[k] == after[k - |before| - |middle|];
        }
      }
    } else {
      assert text[|before| + FirstLetter(middle)] == middle[FirstLetter(middle)];
    }
  }

  /** Blanks around the number and around the unit do not matter. */
  lemma BlanksDoNotMatter(before: string, n: int, between: string, unit: string, after: string)
    requires IsBlank(before) && IsBlank(between) && IsBlank(after) && IsWord(unit)
    ensures Parse(before + PrintInt(n) + between + unit + after) == Parse(PrintInt(n) + unit)
  {
    hide *;
    var number := PrintInt(n);
    NoBlank();
    PartsOf(before, n, between, unit, after);
    PartsOf("", n, "", unit, "");
    assert "" + number + "" + unit + "" == number + unit;
    SameParts(before + number + between + unit + after, number + unit);
  }

  lemma SameParts(s: string, s': string)
    requires FirstLetter(Trim(s)) < |Trim(s)| && FirstLetter(Trim(s')) < |Trim(s')|
    requires Trim(Trim(s)[..FirstLetter(Trim(s))]) == Trim(Trim(s')[..FirstLetter(Trim(s'))])
    requires Trim(Trim(s)[FirstLetter(Trim(s))..]) == Trim(Trim(s')[FirstLetter(Trim(s'))..])
    ensures Parse(s) == Parse(s')
  {
    hide Trim, FirstLetter, SecondsIn, ParseInt;
  }

  /** What the parser cuts a text into. */
  lemma PartsOf(before: string, n: int, between: string, unit: string, after: string)
    requires IsBlank(before) && IsBlank(between) && IsBlank(after) && IsWord(unit)
    ensures var trimmed := Trim(before + PrintInt(n) + between + unit + after);
      var split := FirstLetter(trimmed);
      split < |trimmed| && Trim(trimmed[..split]) == PrintInt(n) && Trim(trimmed[split..]) == unit
  {
    var number := PrintInt(n);
    PrintedIsPlain(n);
    NoBlank();
    BlanksHaveNoLetters(between);
    hide PrintInt, Trim, IsWhiteSpace, IsLetter, FirstLetter, IsBlank, IsWord;
    var head := number + between;
    forall k | 0 <= k < |head|
      ensures !IsLetter(head[k])
    {
      if k >= |number| {
        assert head[k] == between[k - |number|];
      }
    }
    var core := head + unit;
    assert before + number + between + unit + after == before + core + after;
    LettersAreNotBlank(unit);
    TrimDropsBlanks(before, core, after);
    assert "" + number + between == head && "" + unit + "" == unit;
    TrimDropsBlanks("", number, between);
    TrimDropsBlanks("", unit, "");
    LetterFound(head, unit);
    assert core[..|head|] == head && core[|head|..] == unit;
  }

  lemma NoBlank()
    ensures IsBlank("")
  {
  }

  lemma BlanksHaveNoLetters(s: string)
    requires IsBlank(s)
    ensures forall k :: 0 <= k < |s| ==> !IsLetter(s[k])
  {
  }

  lemma LettersAreNotBlank(unit: string)
    requires IsWord(unit)
    ensures !IsWhiteSpace(unit[0]) && !IsWhiteSpace(unit[|unit| - 1])
  {
    assert IsLetter(unit[0]) && IsLetter(unit[|unit| - 1]);
  }

  lemma LetterFound(head: string, unit: string)
    requires IsWord(unit) && forall k :: 0 <= k < |head| ==> !IsLetter(head[k])
    ensures FirstLetter(head + unit) == |head|
  {
    hide IsLetter;
    var s := head + unit;
    assert IsLetter(s[|head|]);
    assert forall k :: 0 <= k < |head| ==> s[k] == head[k];
  }

  // ---------------------------------------------------------------- reading back

  lemma WholeMillis(d: int)
    requires d % MILLI == 0
    ensures Truncated(d, MILLI) % 1_000 == 0 <==> d % SECOND == 0
  {
    var k := d / MILLI;
    MultipleIsExact(k, MILLI);
    assert d == k * MILLI;
  }

  lemma ExactQuotient(seconds: int, size: int)
    requires size > 0 && seconds % size == 0
    ensures Truncated(seconds, size) * size == seconds
    ensures IsI64(seconds) ==> IsI64(Truncated(seconds, size))
  {
    TruncationIsExact(seconds, size);
    var q := Truncated(seconds, size);
    Grows(q, size);
  }

  lemma Grows(q: int, size: int)
    requires size > 0
    ensures q >= 0 ==> 0 <= q <= q * size
    ensures q <= 0 ==> q * size <= q <= 0
  {
  }

  /** Whole seconds are printed in their largest exact unit and read back as they were. */
  lemma WholeSecondsReadBack(seconds: int)
    requires IsI64(seconds)
    ensures Parse(PrintInt(Truncated(seconds, UnitSize(ExactUnit(seconds, UNITS)))) + ExactUnit(seconds, UNITS))
         == Success(seconds * SECOND)
  {
    var unit := ExactUnit(seconds, UNITS);
    ExactUnitDivides(seconds, UNITS);
    ExactQuotient(seconds, UnitSize(unit));
    PrintedIsParsed(Truncated(seconds, UnitSize(unit)), unit);
  }

  lemma SecondsAreMillis(d: int)
    ensures d % SECOND == 0 ==> d % MILLI == 0
  {
    if d % SECOND == 0 {
      MultipleIsExact(d / SECOND * 1_000, MILLI);
      assert d == d / SECOND * 1_000 * MILLI;
    }
  }

  /**
   A duration reads back as it was exactly when it is a whole number of milliseconds, and
   a whole number of seconds unless its milliseconds fit 64 bits.
   */
  lemma FormatReadsBackIff(d: int)
    requires IsDuration(d)
    ensures Parse(Format(d)) == Success(d) <==> d % MILLI == 0 && (d % SECOND == 0 || IsI64(Truncated(d, MILLI)))
  {
    var millis := Truncated(d, MILLI);
    TruncationIsExact(d, MILLI);
    TruncationIsExact(d, SECOND);
    if d % MILLI == 0 {
      WholeMillis(d);
    }
    if millis % 1_000 != 0 {
      PrintedIsParsed(millis, "ms");
    } else {
      WholeSecondsReadBack(Truncated(d, SECOND));
      SecondsAreMillis(d);
    }
  }

  /** For every text the parser accepts: formatting the result and parsing again changes nothing. */
  lemma AcceptedTextsRoundTrip(text: string)
    requires Parse(text).Success?
    ensures IsDuration(Parse(text).value)
    ensures Parse(Format(Parse(text).value)) == Parse(text)
  {
    var d := Parse(text).value;
    var trimmed := Trim(text);
    var split := FirstLetter(trimmed);
    var value := ParseInt(Trim(trimmed[..split]), I64_MIN, I64_MAX).value;
    var unit := Trim(trimmed[split..]);
    if unit == "ms" {
      MillisOf(value);
    } else {
      SecondsOf(value * SecondsIn(unit).value);
    }
    FormatReadsBackIff(d);
  }

  lemma MillisOf(value: int)
    requires IsI64(value)
    ensures IsDuration(value * MILLI) && (value * MILLI) % MILLI == 0 && Truncated(value * MILLI, MILLI) == value
  {
    MultipleIsExact(value, MILLI);
  }

  lemma SecondsOf(value: int)
    requires IsI64(value)
    ensures IsDuration(value * SECOND) && (value * SECOND) % SECOND == 0 && (value * SECOND) % MILLI == 0
  {
    MultipleIsExact(value, SECOND);
    SecondsAreMillis(value * SECOND);
  }

  lemma MillisNeverPrintAsZero(millis: int)
    ensures PrintInt(millis) + "ms" != "0s"
  {
    PrintedIsPlain(millis);
    var s := PrintInt(millis) + "ms";
    assert s[|s| - 2] == 'm';
  }

  lemma NoSecondsIffBelowAMillisecond(d: int)
    requires Truncated(d, MILLI) % 1_000 == 0
    ensures Truncated(d, SECOND) == 0 <==> -MILLI < d < MILLI
  {
  }

  lemma MillisAreNotBelow(d: int)
    requires Truncated(d, MILLI) % 1_000 != 0
    ensures !(-MILLI < d < MILLI)
  {
  }

  /** `0s`, the spelling that disables a timeout, is printed for nothing of a millisecond or more. */
  lemma ZeroIsPrintedIffBelowAMillisecond(d: int)
    requires IsDuration(d)
    ensures Format(d) == "0s" <==> -MILLI < d < MILLI
  {
    hide Truncated, Parse;
    if Truncated(d, MILLI) % 1_000 != 0 {
      MillisNeverPrintAsZero(Truncated(d, MILLI));
      MillisAreNotBelow(d);
    } else {
      NoSecondsIffBelowAMillisecond(d);
      SecondsPrintAsZero(Truncated(d, SECOND));
    }
  }

  lemma SecondsPrintAsZero(seconds: int)
    requires IsI64(seconds)
    ensures var unit := ExactUnit(seconds, UNITS);
      PrintInt(Truncated(seconds, UnitSize(unit))) + unit == "0s" <==> seconds == 0
  {
    hide Parse;
    WholeSecondsReadBack(seconds);
    WholeSecondsReadBack(0);
    assert ExactUnit(0, UNITS) == "s";
    assert PrintInt(Truncated(0, UnitSize("s"))) + "s" == "0s" by {
      assert PrintInt(0) == "0" && Truncated(0, 1) == 0;
    }
    assert seconds * SECOND == 0 ==> seconds == 0;
  }
}
