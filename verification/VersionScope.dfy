/**
 The scope a version is comparable in: a network operator and a balancing month, stored
 as `<operator>:<YYYY-MM>`.
 */
module VersionScope {
  import opened Arithmetic
  import opened Results
  import opened Text

  const I32_MIN := -0x8000_0000
  const I32_MAX := 0x7FFF_FFFF
  const U8_MAX := 255

  datatype Refusal = NotAnOperator | MonthOutOfRange | YearOutOfRange | NotCanonical

  datatype Month = Month(year: int, month: nat)

  datatype Sparte = Strom | Gas | Other(code: nat)

  predicate IsCode(text: string) {
    |text| == 13 && AllDigits(text)
  }

  /** A Marktpartner-ID as the identifier library reads it: thirteen digits, blanks around them dropped. */
  function ParseCode(text: string): Option<string> {
    if IsCode(Trim(text)) then Some(Trim(text)) else None
  }

  function PeriodOf(year: nat, month: nat): string {
    Padded(Digits(year), 4) + "-" + Padded(Digits(month), 2)
  }

  function Make(operator: string, year: int, month: nat): Result<string, Refusal> {
    var code := ParseCode(operator);
    if code.None? then Failure(NotAnOperator)
    else if !(1 <= month <= 12) then Failure(MonthOutOfRange)
    else if !(0 <= year <= 9999) then Failure(YearOutOfRange)
    else Success(code.value + ":" + PeriodOf(year, month))
  }

  /** `VersionScope::parse`: rendered back and compared, not merely read. */
  function Parse(s: string): Result<string, Refusal> {
    var halves := SplitOnce(s, ':');
    if halves.None? then Failure(NotCanonical)
    else
      var (operator, period) := halves.value;
      var parts := SplitOnce(period, '-');
      if parts.None? then Failure(NotCanonical)
      else
        var (year, month) := parts.value;
        if || ParseCode(operator) != Some(operator)
           || |year| != 4 || !AllDigits(year)
           || |month| != 2 || !AllDigits(month)
           || (var m := ParseInt(month, 0, U8_MAX); m.None? || !(1 <= m.value <= 12))
        then Failure(NotCanonical)
        else Success(s)
  }

  /** The half before the separator. */
  function Operator(scope: string): Option<string> {
    var halves := SplitOnce(scope, ':');
    if halves.None? then None else ParseCode(halves.value.0)
  }

  /** The half after it. */
  function Period(scope: string): Option<string> {
    var halves := SplitOnce(scope, ':');
    if halves.None? then None else Some(halves.value.1)
  }

  /** `balancing` is the month an instant is settled in, which gas cuts at 06:00. */
  function ForInterval(operator: string, at: int, sparte: Sparte, balancing: (int, Sparte) -> Month)
    : Result<string, Refusal>
  {
    var month := balancing(at, sparte);
    Make(operator, month.year, month.month)
  }

  predicate Covers(scope: string, at: int, sparte: Sparte, balancing: (int, Sparte) -> Month) {
    var period := Period(scope);
    var month := balancing(at, sparte);
    period.Some? &&
    var parts := SplitOnce(period.value, '-');
    && parts.Some?
    && ParseInt(parts.value.0, I32_MIN, I32_MAX) == Some(month.year)
    && ParseInt(parts.value.1, 0, U8_MAX) == Some(month.month)
  }

  // ---------------------------------------------------------------- reading a scope

  lemma DigitsHold(s: string, c: char)
    requires AllDigits(s) && !IsDigit(c)
    ensures c !in s
  {
  }

  lemma CodeIsTrimmed(code: string)
    requires IsCode(code)
    ensures Trim(code) == code && ParseCode(code) == Some(code)
  {
    assert IsDigit(code[0]) && IsDigit(code[12]);
  }

  /** How a canonical text falls into its parts. */
  lemma CanonicalSplits(code: string, year: string, month: string)
    requires AllDigits(code) && AllDigits(year)
    ensures SplitOnce(code + ":" + (year + "-" + month), ':') == Some((code, year + "-" + month))
    ensures SplitOnce(year + "-" + month, '-') == Some((year, month))
  {
    DigitsHold(code, ':');
    DigitsHold(year, '-');
    SplitOnceFinds(code, ':', year + "-" + month);
    SplitOnceFinds(year, '-', month);
  }

  lemma PeriodParts(year: nat, month: nat)
    requires year <= 9999 && 1 <= month <= 12
    ensures var y, m := Padded(Digits(year), 4), Padded(Digits(month), 2);
      && AllDigits(y) && |y| == 4 && ValueOf(y) == year && AllDigits(m) && |m| == 2 && ValueOf(m) == month
  {
    assert Power10(4) == 10_000 && Power10(2) == 100 by {
      assert Power10(1) == 10 && Power10(2) == 100 && Power10(3) == 1_000;
    }
    FixedWidthRoundTrip(year, 4);
    FixedWidthRoundTrip(month, 2);
  }

  /** Thirteen digits, a month, and a year of at most four digits make a scope; what is wrong is named in this order. */
  lemma MadeIff(operator: string, year: int, month: nat)
    ensures var code := |Trim(operator)| == 13 && forall i :: 0 <= i < 13 ==> '0' <= Trim(operator)[i] <= '9';
      && (Make(operator, year, month).Success? <==> code && 1 <= month <= 12 && 0 <= year <= 9999)
      && (Make(operator, year, month) == Failure(NotAnOperator) <==> !code)
      && (Make(operator, year, month) == Failure(MonthOutOfRange) <==> code && !(1 <= month <= 12))
      && (Make(operator, year, month) == Failure(YearOutOfRange)
          <==> code && 1 <= month <= 12 && !(0 <= year <= 9999))
  {
  }

  /** A scope that was made parses, and gives back its operator and its period. */
  lemma MadeIsParsed(operator: string, year: int, month: nat)
    requires Make(operator, year, month).Success?
    ensures var scope := Make(operator, year, month).value;
      && Parse(scope) == Success(scope)
      && Operator(scope) == ParseCode(operator) == Some(Trim(operator))
      && Period(scope) == Some(PeriodOf(year, month))
  {
    var code := Trim(operator);
    var y, m := Padded(Digits(year), 4), Padded(Digits(month), 2);
    PeriodParts(year, month);
    CanonicalSplits(code, y, m);
    CodeIsTrimmed(code);
    UnsignedReads(m, 0, U8_MAX);
    assert Make(operator, year, month).value == code + ":" + (y + "-" + m);
  }

  /** A scope that parses is one that could have been made, from the parts it is read into. */
  lemma ParsedIsMade(s: string)
    requires Parse(s).Success?
    ensures var (operator, period) := SplitOnce(s, ':').value;
      var (year, month) := SplitOnce(period, '-').value;
      && AllDigits(year) && AllDigits(month)
      && Make(operator, ValueOf(year), ValueOf(month)) == Success(s) && Parse(s) == Success(s)
  {
    var (operator, period) := SplitOnce(s, ':').value;
    var (year, month) := SplitOnce(period, '-').value;
    hide SplitOnce;
    UnsignedReads(month, 0, U8_MAX);
    FixedWidthIsPrinted(year);
    FixedWidthIsPrinted(month);
    ValueBelowPower(year);
    assert Power10(4) == 10_000 by { assert Power10(1) == 10 && Power10(2) == 100 && Power10(3) == 1_000; }
    assert s == operator + ":" + (year + "-" + month);
  }

  /** Parsing accepts exactly the texts that making produces, and changes none of them. */
  lemma ParseAcceptsExactlyMade(s: string)
    ensures Parse(s) == Success(s) <==> exists operator, year, month :: Make(operator, year, month) == Success(s)
    ensures Parse(s).Success? ==> Parse(s) == Success(s)
  {
    if Parse(s).Success? {
      ParsedIsMade(s);
      var (operator, period) := SplitOnce(s, ':').value;
      var (year, month) := SplitOnce(period, '-').value;
      assert Make(operator, ValueOf(year), ValueOf(month)) == Success(s);
    } else if operator, year, month :| Make(operator, year, month) == Success(s) {
      MadeIsParsed(operator, year, month);
    }
  }

  /** Two scopes are one text exactly when operator, year and month are the same. */
  lemma ScopesAgreeIff(operator: string, year: int, month: nat, other: string, otherYear: int, otherMonth: nat)
    requires Make(operator, year, month).Success? && Make(other, otherYear, otherMonth).Success?
    ensures Make(operator, year, month) == Make(other, otherYear, otherMonth)
      <==> Trim(operator) == Trim(other) && year == otherYear && month == otherMonth
  {
    MadeIsParsed(operator, year, month);
    MadeIsParsed(other, otherYear, otherMonth);
    if Make(operator, year, month) == Make(other, otherYear, otherMonth) {
      PeriodParts(year, month);
      PeriodParts(otherYear, otherMonth);
      CanonicalSplits("", Padded(Digits(year), 4), Padded(Digits(month), 2));
      CanonicalSplits("", Padded(Digits(otherYear), 4), Padded(Digits(otherMonth), 2));
    }
  }

  // ---------------------------------------------------------------- scope and interval

  /** A scope covers an interval exactly when the interval is settled in the scope's own month. */
  lemma CoversIffSameMonth(operator: string, year: int, month: nat, at: int, sparte: Sparte,
                           balancing: (int, Sparte) -> Month)
    requires Make(operator, year, month).Success?
    ensures Covers(Make(operator, year, month).value, at, sparte, balancing)
            <==> balancing(at, sparte) == Month(year, month)
  {
    var y, m := Padded(Digits(year), 4), Padded(Digits(month), 2);
    MadeIsParsed(operator, year, month);
    PeriodParts(year, month);
    CanonicalSplits("", y, m);
    UnsignedReads(y, I32_MIN, I32_MAX);
    UnsignedReads(m, 0, U8_MAX);
  }

  /**
   The scope derived for an interval covers it, and covers any other interval exactly when
   both are settled in one month; there is none only for a bad operator or a year that four
   digits cannot hold.
   */
  lemma DerivedScopeCovers(operator: string, at: int, other: int, sparte: Sparte, balancing: (int, Sparte) -> Month)
    requires 1 <= balancing(at, sparte).month <= 12
    ensures var scope := ForInterval(operator, at, sparte, balancing);
      && (scope.Success? <==> IsCode(Trim(operator)) && 0 <= balancing(at, sparte).year <= 9999)
      && (scope.Success? ==> Covers(scope.value, at, sparte, balancing))
      && (scope.Success? ==> (Covers(scope.value, other, sparte, balancing)
                              <==> balancing(other, sparte) == balancing(at, sparte)))
  {
    var month := balancing(at, sparte);
    if ForInterval(operator, at, sparte, balancing).Success? {
      CoversIffSameMonth(operator, month.year, month.month, at, sparte, balancing);
      CoversIffSameMonth(operator, month.year, month.month, other, sparte, balancing);
    }
  }
}
