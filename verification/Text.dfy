/** Characters, whitespace and decimal numbers, as the standard library of the program reads and prints them. */
module Text {
  import opened Arithmetic
  import opened Results

  // ---------------------------------------------------------------- characters

  predicate IsDigit(c: char) {
    '0' <= c <= '9'
  }

  predicate IsLetter(c: char) {
    'a' <= c <= 'z' || 'A' <= c <= 'Z'
  }

  /** The Unicode property White_Space. */
  predicate IsWhiteSpace(c: char) {
    || '\U{0009}' <= c <= '\U{000D}' || c == ' ' || c == '\U{0085}' || c == '\U{00A0}' || c == '\U{1680}'
    || '\U{2000}' <= c <= '\U{200A}' || c == '\U{2028}' || c == '\U{2029}' || c == '\U{202F}'
    || c == '\U{205F}' || c == '\U{3000}'
  }

  /** The code points of that property, one by one. */
  lemma WhiteSpaceIs(c: char)
    ensures IsWhiteSpace(c) <==> c as int in {
      9, 10, 11, 12, 13, 32, 133, 160, 5760, 8192, 8193, 8194, 8195, 8196, 8197, 8198, 8199, 8200, 8201, 8202,
      8232, 8233, 8239, 8287, 12288}
  {
  }

  function TrimStart(s: string): string {
    if s != [] && IsWhiteSpace(s[0]) then TrimStart(s[1..]) else s
  }

  function TrimEnd(s: string): string {
    if s != [] && IsWhiteSpace(s[|s| - 1]) then TrimEnd(s[..|s| - 1]) else s
  }

  function Trim(s: string): string {
    TrimEnd(TrimStart(s))
  }

  predicate IsBlank(s: string) {
    forall i :: 0 <= i < |s| ==> IsWhiteSpace(s[i])
  }

  lemma {:induction false} TrimStartEmptyIffBlank(s: string)
    ensures TrimStart(s) == "" <==> IsBlank(s)
    ensures TrimStart(s) != "" ==> !IsWhiteSpace(TrimStart(s)[0])
  {
    if s != [] && IsWhiteSpace(s[0]) {
      TrimStartEmptyIffBlank(s[1..]);
      assert forall i :: 0 < i < |s| ==> s[i] == s[1..][i - 1];
      if IsBlank(s[1..]) {
        forall i | 0 <= i < |s| ensures IsWhiteSpace(s[i]) {
          if i > 0 { assert IsWhiteSpace(s[1..][i - 1]); }
        }
      }
    }
  }

  lemma {:induction false} TrimEndKeepsFirst(s: string)
    requires s != "" && !IsWhiteSpace(s[0])
    ensures TrimEnd(s) != "" && TrimEnd(s)[0] == s[0]
    decreases |s|
  {
    if IsWhiteSpace(s[|s| - 1]) {
      TrimEndKeepsFirst(s[..|s| - 1]);
    }
  }

  /** A text is blank exactly when trimming leaves nothing of it. */
  lemma TrimEmptyIffBlank(s: string)
    ensures Trim(s) == "" <==> IsBlank(s)
  {
    TrimStartEmptyIffBlank(s);
    if TrimStart(s) != "" {
      TrimEndKeepsFirst(TrimStart(s));
    }
  }

  /** Trimming takes blanks off both ends, and all of them. */
  lemma TrimIsTheMiddle(s: string)
    ensures exists before, after :: IsBlank(before) && IsBlank(after) && s == before + Trim(s) + after
    ensures Trim(s) != "" ==> !IsWhiteSpace(Trim(s)[0]) && !IsWhiteSpace(Trim(s)[|Trim(s)| - 1])
  {
    var before := TrimStartDrops(s);
    var after := TrimEndDrops(TrimStart(s));
    TrimStartEmptyIffBlank(s);
    if TrimStart(s) != "" {
      TrimEndKeepsFirst(TrimStart(s));
    }
    assert s == before + Trim(s) + after;
  }

  lemma {:induction false} TrimStartDrops(s: string) returns (before: string)
    ensures IsBlank(before) && s == before + TrimStart(s)
  {
    hide IsWhiteSpace;
    if s != [] && IsWhiteSpace(s[0]) {
      var rest := TrimStartDrops(s[1..]);
      before := [s[0]] + rest;
      assert s == [s[0]] + s[1..];
    } else {
      before := "";
    }
  }

  lemma {:induction false} TrimEndDrops(s: string) returns (after: string)
    ensures IsBlank(after) && s == TrimEnd(s) + after
    ensures TrimEnd(s) != "" ==> !IsWhiteSpace(TrimEnd(s)[|TrimEnd(s)| - 1])
  {
    hide IsWhiteSpace;
    if s != [] && IsWhiteSpace(s[|s| - 1]) {
      var front := TrimEndDrops(s[..|s| - 1]);
      after := front + [s[|s| - 1]];
      assert s == s[..|s| - 1] + [s[|s| - 1]];
    } else {
      after := "";
    }
  }

  /** What stands between blanks is what is left. */
  lemma TrimDropsBlanks(before: string, core: string, after: string)
    requires IsBlank(before) && IsBlank(after)
    requires core != "" && !IsWhiteSpace(core[0]) && !IsWhiteSpace(core[|core| - 1])
    ensures Trim(before + core + after) == core
  {
    TrimStartSkips(before, core + after);
    assert before + core + after == before + (core + after);
    TrimEndSkips(core, after);
  }

  lemma {:induction false} TrimStartSkips(before: string, rest: string)
    requires IsBlank(before) && rest != "" && !IsWhiteSpace(rest[0])
    ensures TrimStart(before + rest) == rest
  {
    hide IsWhiteSpace;
    if before == "" {
      assert before + rest == rest;
    } else {
      assert (before + rest)[1..] == before[1..] + rest && (before + rest)[0] == before[0];
      assert forall i :: 0 <= i < |before[1..]| ==> before[1..][i] == before[i + 1];
      TrimStartSkips(before[1..], rest);
    }
  }

  lemma {:induction false} TrimEndSkips(core: string, after: string)
    requires IsBlank(after) && core != "" && !IsWhiteSpace(core[|core| - 1])
    ensures TrimEnd(core + after) == core
  {
    hide IsWhiteSpace;
    if after == "" {
      assert core + after == core;
    } else {
      var front := after[..|after| - 1];
      assert (core + after)[..|core + after| - 1] == core + front;
      assert (core + after)[|core + after| - 1] == after[|after| - 1];
      TrimEndSkips(core, front);
    }
  }

  /** The first position of a letter, or the length where there is none. */
  function FirstLetter(s: string): (n: nat)
    ensures n <= |s|
    ensures forall i :: 0 <= i < n ==> !IsLetter(s[i])
    ensures n < |s| ==> IsLetter(s[n])
  {
    if s == "" || IsLetter(s[0]) then 0 else 1 + FirstLetter(s[1..])
  }

  /** The text before and after the first occurrence of a separator. */
  function SplitOnce(s: string, separator: char): (parts: Option<(string, string)>)
    ensures parts.Some? ==> s == parts.value.0 + [separator] + parts.value.1 && separator !in parts.value.0
    ensures parts.None? ==> separator !in s
  {
    if s == "" then None
    else if s[0] == separator then Some(("", s[1..]))
    else
      var rest := SplitOnce(s[1..], separator);
      if rest.None? then None else Some(([s[0]] + rest.value.0, rest.value.1))
  }

  lemma {:induction false} SplitOnceFinds(before: string, separator: char, after: string)
    requires separator !in before
    ensures SplitOnce(before + [separator] + after, separator) == Some((before, after))
  {
    var s := before + [separator] + after;
    if before == "" {
      assert s[1..] == after;
    } else {
      SplitOnceFinds(before[1..], separator, after);
      assert s[1..] == before[1..] + [separator] + after;
      assert s[0] == before[0] && before[0] in before;
      assert [before[0]] + before[1..] == before;
    }
  }

  // ---------------------------------------------------------------- decimal numbers

  predicate AllDigits(s: string) {
    forall i :: 0 <= i < |s| ==> IsDigit(s[i])
  }

  function DigitValue(c: char): (d: nat)
    requires IsDigit(c)
    ensures d < 10
  {
    c as int - '0' as int
  }

  function DigitChar(d: nat): (c: char)
    requires d < 10
    ensures IsDigit(c) && DigitValue(c) == d
  {
    (d + '0' as int) as char
  }

  function ValueOf(s: string): nat
    requires AllDigits(s)
  {
    if s == "" then 0 else ValueOf(s[..|s| - 1]) * 10 + DigitValue(s[|s| - 1])
  }

  function Digits(n: nat): (s: string)
    ensures AllDigits(s) && s != ""
  {
    if n < 10 then [DigitChar(n)] else Digits(n / 10) + [DigitChar(n % 10)]
  }

  /** No digit in front that is not needed. */
  predicate IsCanonical(s: string) {
    AllDigits(s) && s != "" && (|s| > 1 ==> s[0] != '0')
  }

  lemma {:induction false} DigitsReadBack(n: nat)
    ensures ValueOf(Digits(n)) == n && IsCanonical(Digits(n))
    ensures n > 0 ==> Digits(n)[0] != '0'
  {
    if n >= 10 {
      DigitsReadBack(n / 10);
      assert Digits(n)[..|Digits(n)| - 1] == Digits(n / 10);
    }
  }

  lemma {:induction false} CanonicalIsPrinted(s: string)
    requires IsCanonical(s)
    ensures Digits(ValueOf(s)) == s
    ensures s[0] != '0' ==> ValueOf(s) > 0
    decreases |s|
  {
    var front, last := s[..|s| - 1], DigitValue(s[|s| - 1]);
    assert s == front + [DigitChar(last)];
    if front == "" {
      assert ValueOf(front) == 0;
    } else {
      CanonicalIsPrinted(front);
      assert ValueOf(s) == ValueOf(front) * 10 + last;
    }
  }

  function PrintInt(i: int): string {
    if i < 0 then "-" + Digits(-i) else Digits(i)
  }

  /** An optional sign and at least one digit, within the bounds of the integer type. */
  function ParseInt(s: string, lo: int, hi: int): (value: Option<int>)
    ensures value.Some? ==> lo <= value.value <= hi
  {
    var digits := if s != "" && (s[0] == '-' || s[0] == '+') then s[1..] else s;
    if digits == "" || !AllDigits(digits) then None
    else
      var magnitude: int := ValueOf(digits);
      var value := if s[0] == '-' then -magnitude else magnitude;
      if lo <= value <= hi then Some(value) else None
  }

  lemma UnsignedReads(s: string, lo: int, hi: int)
    requires AllDigits(s) && s != ""
    ensures ParseInt(s, lo, hi) == if lo <= ValueOf(s) <= hi then Some(ValueOf(s)) else None
  {
    assert IsDigit(s[0]);
  }

  lemma NegativeReads(s: string, lo: int, hi: int)
    requires AllDigits(s) && s != ""
    ensures ParseInt("-" + s, lo, hi) == if lo <= 0 - ValueOf(s) <= hi then Some(0 - ValueOf(s)) else None
  {
    assert ("-" + s)[1..] == s;
  }

  lemma PrintedReadsBack(i: int, lo: int, hi: int)
    ensures ParseInt(PrintInt(i), lo, hi) == if lo <= i <= hi then Some(i) else None
  {
    hide ParseInt;
    if i < 0 {
      DigitsReadBack(-i);
      NegativeReads(Digits(-i), lo, hi);
    } else {
      DigitsReadBack(i);
      UnsignedReads(Digits(i), lo, hi);
    }
  }

  // ---------------------------------------------------------------- fixed width

  function Padded(s: string, width: nat): string
    decreases width - |s|
  {
    if |s| >= width then s else Padded("0" + s, width)
  }

  lemma {:induction false} LeadingZero(s: string)
    requires AllDigits(s)
    ensures AllDigits("0" + s) && ValueOf("0" + s) == ValueOf(s)
    decreases |s|
  {
    var z := "0" + s;
    if s == "" {
      assert z[..0] == "";
    } else {
      LeadingZero(s[..|s| - 1]);
      assert z[..|z| - 1] == "0" + s[..|s| - 1];
    }
  }

  lemma {:induction false} PaddedReadsBack(s: string, width: nat)
    requires AllDigits(s)
    ensures AllDigits(Padded(s, width)) && ValueOf(Padded(s, width)) == ValueOf(s)
    ensures |Padded(s, width)| == if |s| < width then width else |s|
    decreases width - |s|
  {
    if |s| < width {
      LeadingZero(s);
      PaddedReadsBack("0" + s, width);
    }
  }

  lemma LastDigit(a: nat, x: nat, b: nat, y: nat)
    requires x < 10 && y < 10 && a * 10 + x == b * 10 + y
    ensures a == b && x == y
  {
  }

  lemma {:induction false} SameWidthSameValue(s: string, t: string)
    requires AllDigits(s) && AllDigits(t) && |s| == |t| && ValueOf(s) == ValueOf(t)
    ensures s == t
    decreases |s|
  {
    if s != "" {
      var a, b := s[..|s| - 1], t[..|t| - 1];
      var x, y := DigitValue(s[|s| - 1]), DigitValue(t[|t| - 1]);
      LastDigit(ValueOf(a), x, ValueOf(b), y);
      SameWidthSameValue(a, b);
      assert s == a + [DigitChar(x)] && t == b + [DigitChar(y)];
    }
  }

  lemma {:induction false} ValueBelowPower(s: string)
    requires AllDigits(s)
    ensures ValueOf(s) < Power10(|s|)
    decreases |s|
  {
    if s != "" { ValueBelowPower(s[..|s| - 1]); }
  }

  lemma {:induction false} DigitsFit(n: nat, width: nat)
    requires n < Power10(width) && width > 0
    ensures |Digits(n)| <= width
  {
    if n >= 10 { DigitsFit(n / 10, width - 1); }
  }

  /** Printing at a width and reading back are inverse, both ways, for what fits the width. */
  lemma FixedWidthRoundTrip(n: nat, width: nat)
    requires n < Power10(width) && width > 0
    ensures AllDigits(Padded(Digits(n), width)) && |Padded(Digits(n), width)| == width
    ensures ValueOf(Padded(Digits(n), width)) == n
  {
    DigitsFit(n, width);
    DigitsReadBack(n);
    PaddedReadsBack(Digits(n), width);
  }

  lemma FixedWidthIsPrinted(s: string)
    requires AllDigits(s) && s != ""
    ensures ValueOf(s) < Power10(|s|) && Padded(Digits(ValueOf(s)), |s|) == s
  {
    ValueBelowPower(s);
    FixedWidthRoundTrip(ValueOf(s), |s|);
    SameWidthSameValue(s, Padded(Digits(ValueOf(s)), |s|));
  }
}
