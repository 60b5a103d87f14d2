/** How a pseudonymous reference is spelled: `s`, its retention year, `_`, and a token. */
module SubjectReference {
  import opened Results
  import opened Text

  const MIN_REFERENCE_TOKEN_CHARS := 22
  const MAX_REFERENCE_TOKEN_CHARS := 128
  const I32_MIN := -0x8000_0000
  const I32_MAX := 0x7FFF_FFFF

  datatype Malformed = Empty | NoEpoch | NotCanonical | TokenTooShort | TokenTooLong | OutsideAlphabet | IsAnIdentifier

  predicate InAlphabet(c: char) {
    IsLetter(c) || IsDigit(c) || c == '.' || c == '_' || c == '-'
  }

  predicate AllInAlphabet(token: string) {
    forall i :: 0 <= i < |token| ==> InAlphabet(token[i])
  }

  predicate GoodToken(token: string, names: string -> bool) {
    && MIN_REFERENCE_TOKEN_CHARS <= |token| <= MAX_REFERENCE_TOKEN_CHARS
    && AllInAlphabet(token)
    && !names(token)
  }

  function StripMinus(year: string): string {
    if year != "" && year[0] == '-' then year[1..] else year
  }

  /** The epoch and the token; `names` says which tokens are market identifiers. */
  function Parts(reference: string, names: string -> bool): Result<(int, string), Malformed> {
    if reference == "" || reference[0] != 's' then Failure(NoEpoch)
    else
      var split := SplitOnce(reference[1..], '_');
      if split.None? then Failure(NoEpoch)
      else
        var (year, token) := split.value;
        var digits := StripMinus(year);
        if digits == "" || !AllDigits(digits) || (|digits| > 1 && digits[0] == '0') then Failure(NotCanonical)
        else
          var value := ParseInt(year, I32_MIN, I32_MAX);
          if value.None? then Failure(NoEpoch)
          else if |token| < MIN_REFERENCE_TOKEN_CHARS then Failure(TokenTooShort)
          else if |token| > MAX_REFERENCE_TOKEN_CHARS then Failure(TokenTooLong)
          else if !AllInAlphabet(token) then Failure(OutsideAlphabet)
          else if names(token) then Failure(IsAnIdentifier)
          else Success((value.value, token))
  }

  /** `SubjectRef::new`. */
  function Accept(reference: string, names: string -> bool): Result<string, Malformed> {
    if Trim(reference) == "" then Failure(Empty)
    else
      var parts := Parts(reference, names);
      if parts.Failure? then Failure(parts.error) else Success(reference)
  }

  function Spelled(year: string, token: string): string {
    "s" + year + "_" + token
  }

  // ---------------------------------------------------------------- what is accepted

  /** A year text is a printed `i32`, or the one spelling that reads as zero without being printed. */
  lemma YearTextIsPrinted(year: string)
    requires IsCanonical(StripMinus(year))
    ensures var value := ParseInt(year, I32_MIN, I32_MAX);
      value.Some? ==> year == PrintInt(value.value) || (value.value == 0 && year == "-0")
  {
    var digits := StripMinus(year);
    CanonicalIsPrinted(digits);
    if year[0] == '-' {
      assert year == "-" + digits;
      if digits[0] == '0' {
        assert digits == "0";
      }
    }
  }

  lemma PrintedYearIsCanonical(value: int)
    ensures IsCanonical(StripMinus(PrintInt(value)))
    ensures '_' !in PrintInt(value)
  {
    DigitsReadBack(if value < 0 then -value else value);
    if value < 0 {
      assert StripMinus(PrintInt(value)) == Digits(-value);
    }
  }

  lemma SpelledSplits(year: string, token: string)
    requires '_' !in year
    ensures var s := Spelled(year, token); s != "" && s[0] == 's' && SplitOnce(s[1..], '_') == Some((year, token))
  {
    assert Spelled(year, token)[1..] == year + "_" + token;
    SplitOnceFinds(year, '_', token);
  }

  lemma MinusZeroReadsAsZero()
    ensures ParseInt("-0", I32_MIN, I32_MAX) == Some(0) && IsCanonical(StripMinus("-0")) && '_' !in "-0"
  {
    assert "-0"[1..] == "0" && "0"[..0] == "" && ValueOf("0") == 0;
  }

  lemma AcceptedIsSpelled(reference: string, names: string -> bool, year: int, token: string)
    requires Parts(reference, names) == Success((year, token))
    ensures I32_MIN <= year <= I32_MAX && GoodToken(token, names)
    ensures reference == Spelled(PrintInt(year), token) || (year == 0 && reference == Spelled("-0", token))
  {
    hide ParseInt, PrintInt, AllDigits, InAlphabet, SplitOnce;
    var (text, rest) := SplitOnce(reference[1..], '_').value;
    YearTextIsPrinted(text);
    RejoinsAs(reference, text, token);
  }

  lemma RejoinsAs(reference: string, text: string, token: string)
    requires reference != "" && reference[0] == 's' && reference[1..] == text + "_" + token
    ensures reference == Spelled(text, token)
  {
    assert reference == "s" + reference[1..];
  }

  lemma SpelledIsAccepted(text: string, names: string -> bool, year: int, token: string)
    requires IsCanonical(StripMinus(text)) && '_' !in text && ParseInt(text, I32_MIN, I32_MAX) == Some(year)
    requires GoodToken(token, names)
    ensures Parts(Spelled(text, token), names) == Success((year, token))
  {
    SpelledSplits(text, token);
  }

  /**
   A text is accepted, with this epoch and this token, exactly when it is the prefix, the
   printed year, the separator and a good token, or spells year zero as `-0`.
   */
  lemma AcceptedIffSpelled(reference: string, names: string -> bool, year: int, token: string)
    ensures Parts(reference, names) == Success((year, token))
      <==> I32_MIN <= year <= I32_MAX && GoodToken(token, names)
           && (reference == Spelled(PrintInt(year), token) || (year == 0 && reference == Spelled("-0", token)))
  {
    hide Parts, GoodToken, ParseInt, PrintInt;
    if Parts(reference, names) == Success((year, token)) {
      AcceptedIsSpelled(reference, names, year, token);
    } else if I32_MIN <= year <= I32_MAX && GoodToken(token, names) {
      PrintedYearIsCanonical(year);
      PrintedReadsBack(year, I32_MIN, I32_MAX);
      SpelledIsAccepted(PrintInt(year), names, year, token);
      MinusZeroReadsAsZero();
      SpelledIsAccepted("-0", names, 0, token);
    }
  }

  /** A token has 22 to 128 characters of `A-Z a-z 0-9 . _ -`, and is no market identifier. */
  lemma TokensAreGoodIff(token: string, names: string -> bool)
    ensures GoodToken(token, names)
      <==> && 22 <= |token| <= 128 && !names(token)
           && forall i :: 0 <= i < |token| ==>
                var c := token[i]; 'A' <= c <= 'Z' || 'a' <= c <= 'z' || '0' <= c <= '9' || c in "._-"
  {
    assert forall c: char :: c in "._-" <==> c == '.' || c == '_' || c == '-';
  }

  /** What a refusal says about the text: the year is what stands before the first `_`, the token what follows it. */
  predicate RefusedFor(reference: string, names: string -> bool, why: Malformed) {
    var split := if reference == "" then None else SplitOnce(reference[1..], '_');
    match why
    case Empty => IsBlank(reference)
    case NoEpoch =>
      reference == "" || reference[0] != 's' || split.None? || ParseInt(split.value.0, I32_MIN, I32_MAX).None?
    case NotCanonical => split.Some? && !IsCanonical(StripMinus(split.value.0))
    case TokenTooShort => split.Some? && |split.value.1| < 22
    case TokenTooLong => split.Some? && |split.value.1| > 128
    case OutsideAlphabet => split.Some? && !AllInAlphabet(split.value.1)
    case IsAnIdentifier => split.Some? && names(split.value.1)
  }

  lemma RefusalSaysWhy(reference: string, names: string -> bool)
    requires Accept(reference, names).Failure?
    ensures RefusedFor(reference, names, Accept(reference, names).error)
    ensures Accept(reference, names) == Failure(Empty) <==> IsBlank(reference)
  {
    TrimEmptyIffBlank(reference);
    hide Trim, ParseInt, SplitOnce, IsBlank;
  }

  /** A year that is not printed as an `i32` would be is refused, but for `-0`. */
  lemma OtherYearsAreRefused(year: string, token: string, names: string -> bool)
    requires '_' !in year && year != "-0"
    requires forall value :: I32_MIN <= value <= I32_MAX ==> year != PrintInt(value)
    ensures Accept(Spelled(year, token), names).Failure?
    ensures Accept(Spelled(year, token), names).error in {NoEpoch, NotCanonical}
  {
    SpelledSplits(year, token);
    var s := Spelled(year, token);
    TrimEmptyIffBlank(s);
    assert !IsWhiteSpace(s[0]);
    if IsCanonical(StripMinus(year)) {
      YearTextIsPrinted(year);
      ReadIsInRange(year);
    }
    hide ParseInt, PrintInt, SplitOnce, Trim, InAlphabet;
  }

  lemma ReadIsInRange(year: string)
    ensures ParseInt(year, I32_MIN, I32_MAX).Some? ==> I32_MIN <= ParseInt(year, I32_MIN, I32_MAX).value <= I32_MAX
  {
  }

  /** The mapping table's own check: the text starts with the prefix, the epoch as the database prints it, and `_`. */
  predicate TableAccepts(reference: string, epoch: int) {
    "s" + PrintInt(epoch) + "_" <= reference
  }

  /** The write path and the table agree on every accepted reference but those that begin `s-0_`. */
  lemma TableAgreesExceptMinusZero(reference: string, names: string -> bool)
    requires Parts(reference, names).Success?
    ensures TableAccepts(reference, Parts(reference, names).value.0) <==> !("s-0_" <= reference)
  {
    hide Parts, GoodToken;
    var (year, token) := Parts(reference, names).value;
    AcceptedIsSpelled(reference, names, year, token);
    if reference == Spelled(PrintInt(year), token) {
      assert reference == "s" + PrintInt(year) + "_" + token;
      PrintedIsNotMinusZero(year, token);
    } else {
      assert reference == "s-0_" + token;
      assert PrintInt(0) == "0";
      assert reference[1] == '-' && ("s" + PrintInt(0) + "_")[1] == '0';
    }
  }

  lemma PrintedIsNotMinusZero(year: int, token: string)
    ensures !("s-0_" <= Spelled(PrintInt(year), token))
  {
    DigitsReadBack(if year < 0 then -year else year);
    var s := Spelled(PrintInt(year), token);
    if year < 0 {
      assert s[2] == Digits(-year)[0] != '0';
    } else {
      assert s[1] == Digits(year)[0] && IsDigit(Digits(year)[0]);
    }
  }

  lemma MinusZeroIsAccepted(token: string, names: string -> bool)
    requires GoodToken(token, names)
    ensures Parts(Spelled("-0", token), names) == Success((0, token)) && !TableAccepts(Spelled("-0", token), 0)
  {
    AcceptedIffSpelled(Spelled("-0", token), names, 0, token);
    assert "s-0_" <= Spelled("-0", token);
    TableAgreesExceptMinusZero(Spelled("-0", token), names);
  }

  // ---------------------------------------------------------------- what is minted

  type Octet = b: nat | b < 256

  function HexDigit(d: nat): (c: char)
    requires d < 16
    ensures IsDigit(c) || 'a' <= c <= 'f'
  {
    if d < 10 then DigitChar(d) else (d - 10 + 'a' as int) as char
  }

  function Hex(octets: seq<Octet>): (s: string)
    ensures |s| == 2 * |octets|
    ensures forall i :: 0 <= i < |s| ==> IsDigit(s[i]) || 'a' <= s[i] <= 'f'
  {
    if octets == [] then "" else [HexDigit(octets[0] / 16), HexDigit(octets[0] % 16)] + Hex(octets[1..])
  }

  function Mint(epoch: int, octets: seq<Octet>): string {
    Spelled(PrintInt(epoch), Hex(octets))
  }

  lemma {:induction false} HexTellsApart(a: seq<Octet>, b: seq<Octet>)
    requires Hex(a) == Hex(b)
    ensures a == b
    decreases |a|
  {
    assert |a| == |b|;
    if a != [] {
      assert Hex(a)[0] == HexDigit(a[0] / 16) && Hex(a)[1] == HexDigit(a[0] % 16) && Hex(a)[2..] == Hex(a[1..]);
      assert Hex(b)[0] == HexDigit(b[0] / 16) && Hex(b)[1] == HexDigit(b[0] % 16) && Hex(b)[2..] == Hex(b[1..]);
      HexDigitTellsApart(a[0] / 16, b[0] / 16);
      HexDigitTellsApart(a[0] % 16, b[0] % 16);
      HexTellsApart(a[1..], b[1..]);
    }
  }

  lemma HexDigitTellsApart(a: nat, b: nat)
    requires a < 16 && b < 16 && HexDigit(a) == HexDigit(b)
    ensures a == b
  {
    assert DigitValue('9') == 9;
  }

  /** No market identifier is thirty-two characters long. */
  ghost predicate KnownLengths(names: string -> bool) {
    forall token :: names(token) ==> |token| in {11, 13, 16, 33}
  }

  /** What is minted for an epoch is accepted, by the table too, and names that epoch. */
  lemma MintedIsAccepted(epoch: int, octets: seq<Octet>, names: string -> bool)
    requires I32_MIN <= epoch <= I32_MAX && |octets| == 16 && KnownLengths(names)
    ensures Accept(Mint(epoch, octets), names) == Success(Mint(epoch, octets))
    ensures Parts(Mint(epoch, octets), names) == Success((epoch, Hex(octets)))
    ensures TableAccepts(Mint(epoch, octets), epoch)
  {
    var token := Hex(octets);
    assert GoodToken(token, names);
    AcceptedIffSpelled(Mint(epoch, octets), names, epoch, token);
    TrimEmptyIffBlank(Mint(epoch, octets));
    assert !IsWhiteSpace(Mint(epoch, octets)[0]);
    assert Mint(epoch, octets) == "s" + PrintInt(epoch) + "_" + token;
  }

  /** Two mints are the same text only for the same epoch and the same random octets. */
  lemma MintTellsApart(epoch: int, octets: seq<Octet>, other: int, others: seq<Octet>, names: string -> bool)
    requires I32_MIN <= epoch <= I32_MAX && I32_MIN <= other <= I32_MAX
    requires |octets| == 16 && |others| == 16 && KnownLengths(names)
    requires Mint(epoch, octets) == Mint(other, others)
    ensures epoch == other && octets == others
  {
    MintedIsAccepted(epoch, octets, names);
    MintedIsAccepted(other, others, names);
    HexTellsApart(octets, others);
  }
}
