/**
 Reading a decimal into the fixed-point value column and back.

 A decimal has 96 bits of magnitude and up to 28 places; the column holds six places and
 eighteen digits.
 */
module FixedPoint {
  import opened Arithmetic
  import opened Results

  const VALUE_SCALE := 6
  const MAX_PLACES := 28
  const LIMIT := 1_000_000_000_000_000_000
  const TWO_96 := 0x1_0000_0000_0000_0000_0000_0000

  datatype Decimal = Decimal(mantissa: int, places: nat)

  predicate Fits(mantissa: int) {
    -TWO_96 < mantissa < TWO_96
  }

  predicate Valid(d: Decimal) {
    Fits(d.mantissa) && d.places <= MAX_PLACES
  }

  datatype Refusal = TooManyPlaces | TooLarge

  /** Trailing zeros after the point are dropped; zero has no places. */
  function Normalize(d: Decimal): Decimal
    decreases d.places
  {
    if d.places > 0 && d.mantissa % 10 == 0 then Normalize(Decimal(d.mantissa / 10, d.places - 1)) else d
  }

  /** Towards more places, one factor of ten at a time, until there are enough or no more fits 96 bits. */
  function Rescale(d: Decimal, places: nat): Decimal
    requires d.places <= places
    decreases places - d.places
  {
    if d.places == places then d
    else if d.mantissa == 0 then Decimal(0, places)
    else if !Fits(d.mantissa * 10) then d
    else Rescale(Decimal(d.mantissa * 10, d.places + 1), places)
  }

  function ToScaled(d: Decimal): Result<int, Refusal> {
    var plain := Normalize(d);
    if plain.places > VALUE_SCALE then Failure(TooManyPlaces)
    else
      var scaled := Rescale(plain, VALUE_SCALE).mantissa;
      if scaled >= LIMIT || scaled <= -LIMIT then Failure(TooLarge) else Success(scaled)
  }

  function FromScaled(raw: int): Decimal {
    Decimal(raw, VALUE_SCALE)
  }

  /** The decimal is `k` units of the sixth place. */
  predicate IsMultiple(d: Decimal, k: int) {
    d.mantissa * Power10(VALUE_SCALE) == k * Power10(d.places)
  }

  predicate SameNumber(a: Decimal, b: Decimal) {
    a.mantissa * Power10(b.places) == b.mantissa * Power10(a.places)
  }

  // ---------------------------------------------------------------- arithmetic

  lemma Cancel(a: int, b: int, c: int)
    requires c > 0
    ensures a * c == b * c <==> a == b
  {
    if a * c == b * c && a != b {
      NonzeroMultiple(a - b, c);
    }
  }

  /** Dropping a zero, or adding one, leaves the number alone. */
  lemma ZeroAtTheEnd(mantissa: int, places: nat, k: int)
    ensures IsMultiple(Decimal(mantissa * 10, places + 1), k) <==> IsMultiple(Decimal(mantissa, places), k)
  {
    Cancel(mantissa * Power10(VALUE_SCALE), k * Power10(places), 10);
    assert mantissa * 10 * Power10(VALUE_SCALE) == mantissa * Power10(VALUE_SCALE) * 10;
    assert k * Power10(places + 1) == k * Power10(places) * 10;
  }

  lemma {:induction false} NormalizeKeeps(d: Decimal, k: int)
    ensures IsMultiple(Normalize(d), k) <==> IsMultiple(d, k)
    ensures Normalize(d).places == 0 || Normalize(d).mantissa % 10 != 0
    ensures Normalize(d).places <= d.places && (Fits(d.mantissa) ==> Fits(Normalize(d).mantissa))
    decreases d.places
  {
    if d.places > 0 && d.mantissa % 10 == 0 {
      NormalizeKeeps(Decimal(d.mantissa / 10, d.places - 1), k);
      ZeroAtTheEnd(d.mantissa / 10, d.places - 1, k);
      assert d.mantissa / 10 * 10 == d.mantissa;
    }
  }

  /** A rescale either arrives, or stops where one more factor of ten would not fit. */
  lemma {:induction false} RescaleKeeps(d: Decimal, places: nat, k: int)
    requires d.places <= places
    ensures IsMultiple(Rescale(d, places), k) <==> IsMultiple(d, k)
    ensures Rescale(d, places).places <= places
    ensures Rescale(d, places).places < places ==> !Fits(Rescale(d, places).mantissa * 10)
    decreases places - d.places
  {
    if d.places < places {
      if d.mantissa == 0 {
        ZeroIsZero(d.places, k);
        ZeroIsZero(places, k);
      } else if Fits(d.mantissa * 10) {
        RescaleKeeps(Decimal(d.mantissa * 10, d.places + 1), places, k);
        ZeroAtTheEnd(d.mantissa, d.places, k);
      }
    }
  }

  lemma ZeroIsZero(places: nat, k: int)
    ensures IsMultiple(Decimal(0, places), k) <==> k == 0
  {
    if k != 0 {
      NonzeroMultiple(k, Power10(places));
    }
  }

  /** At six places the mantissa is the multiple. */
  lemma AtSixPlaces(mantissa: int, k: int)
    ensures IsMultiple(Decimal(mantissa, VALUE_SCALE), k) <==> mantissa == k
  {
    Cancel(mantissa, k, Power10(VALUE_SCALE));
  }

  /** A number that needs more than six places is no multiple. */
  lemma MorePlacesIsNoMultiple(d: Decimal, k: int)
    requires d.places > VALUE_SCALE && d.mantissa % 10 != 0
    ensures !IsMultiple(d, k)
  {
    var extra := d.places - VALUE_SCALE;
    Power10Adds(VALUE_SCALE, extra);
    var q := k * Power10(extra - 1);
    assert k * Power10(d.places) == k * Power10(extra) * Power10(VALUE_SCALE);
    assert k * Power10(extra) == q * 10;
    Cancel(d.mantissa, q * 10, Power10(VALUE_SCALE));
    DivModUnique(q * 10, 10, q, 0);
  }

  /** At fewer places, a mantissa that could not be multiplied once more stands for a multiple past every limit. */
  lemma StoppedShortIsTooLarge(d: Decimal, k: int)
    requires d.places < VALUE_SCALE && !Fits(d.mantissa * 10) && IsMultiple(d, k)
    ensures !(-LIMIT < k < LIMIT) && !(-LIMIT < d.mantissa < LIMIT)
  {
    var missing := VALUE_SCALE - d.places;
    Power10Adds(d.places, missing);
    assert d.mantissa * Power10(VALUE_SCALE) == d.mantissa * Power10(missing) * Power10(d.places);
    Cancel(d.mantissa * Power10(missing), k, Power10(d.places));
    AtLeast(d.mantissa, Power10(missing));
  }

  lemma AtLeast(m: int, p: int)
    requires p >= 1
    ensures m >= 0 ==> m * p >= m
    ensures m <= 0 ==> m * p <= m
  {
    assert m >= 0 ==> m * (p - 1) >= 0;
    assert m <= 0 ==> m * (p - 1) <= 0;
  }

  // ---------------------------------------------------------------- exact, or refused

  /**
   Success with `k` on exactly the decimals that are `k` units of the sixth place with
   fewer than nineteen digits, through the dropped zeros and a rescale that may stop short.
   */
  lemma ToScaledIsExact(d: Decimal, k: int)
    requires Valid(d)
    ensures ToScaled(d) == Success(k) <==> IsMultiple(d, k) && -LIMIT < k < LIMIT
  {
    var plain := Normalize(d);
    NormalizeKeeps(d, k);
    if plain.places > VALUE_SCALE {
      MorePlacesIsNoMultiple(plain, k);
    } else {
      var scaled := Rescale(plain, VALUE_SCALE);
      RescaleKeeps(plain, VALUE_SCALE, k);
      if scaled.places == VALUE_SCALE {
        AtSixPlaces(scaled.mantissa, k);
      } else {
        StoppedShortIsTooLargeEitherWay(scaled, k);
      }
    }
  }

  /** The column in plain numbers: millionths, of fewer than nineteen digits. */
  lemma StoresMillionths(d: Decimal, k: int)
    requires Valid(d)
    ensures ToScaled(d) == Success(k)
      <==> && d.mantissa * 1_000_000 == k * Power10(d.places)
           && -1_000_000_000_000_000_000 < k < 1_000_000_000_000_000_000
    ensures FromScaled(k) == Decimal(k, 6)
  {
    assert Power10(6) == 1_000_000 by {
      assert Power10(3) == 10 * Power10(2) == 100 * Power10(1) == 1_000;
    }
    ToScaledIsExact(d, k);
  }

  /** A number is refused for its places exactly when it is no whole number of millionths. */
  lemma TooManyPlacesIff(d: Decimal)
    requires Valid(d)
    ensures ToScaled(d) == Failure(TooManyPlaces) <==> forall k :: !IsMultiple(d, k)
  {
    hide IsMultiple, Power10, Rescale, Normalize;
    var plain := Normalize(d);
    if plain.places > VALUE_SCALE {
      forall k ensures !IsMultiple(d, k) {
        NormalizeKeeps(d, k);
        MorePlacesIsNoMultiple(plain, k);
      }
    } else {
      var k := InMillionths(plain);
      NormalizeKeeps(d, k);
    }
  }

  /** With at most six places, a number is a whole number of millionths. */
  lemma InMillionths(d: Decimal) returns (k: int)
    requires d.places <= VALUE_SCALE
    ensures IsMultiple(d, k)
  {
    hide Power10;
    k := d.mantissa * Power10(VALUE_SCALE - d.places);
    Power10Adds(VALUE_SCALE - d.places, d.places);
    assert d.mantissa * (Power10(VALUE_SCALE - d.places) * Power10(d.places)) == k * Power10(d.places);
  }

  lemma StoppedShortIsTooLargeEitherWay(d: Decimal, k: int)
    requires d.places < VALUE_SCALE && !Fits(d.mantissa * 10)
    ensures !(-LIMIT < d.mantissa < LIMIT)
    ensures IsMultiple(d, k) ==> !(-LIMIT < k < LIMIT)
  {
    if IsMultiple(d, k) {
      StoppedShortIsTooLarge(d, k);
    }
  }

  /** What is refused for its places is no multiple at all; what is refused for its size is a multiple too large. */
  lemma RefusalTellsWhy(d: Decimal, k: int)
    requires Valid(d) && IsMultiple(d, k)
    ensures ToScaled(d) == if -LIMIT < k < LIMIT then Success(k) else Failure(TooLarge)
  {
    ToScaledIsExact(d, k);
    NormalizeKeeps(d, k);
    if Normalize(d).places > VALUE_SCALE {
      MorePlacesIsNoMultiple(Normalize(d), k);
    } else if ToScaled(d).Success? {
      ToScaledIsExact(d, ToScaled(d).value);
      Cancel(k, ToScaled(d).value, Power10(d.places));
    }
  }

  /** The column reads back as the number it was made from, and what is read can be written again unchanged. */
  lemma ScaledRoundTrip(d: Decimal, raw: int)
    requires Valid(d) && -LIMIT < raw < LIMIT
    ensures ToScaled(d).Success? ==> SameNumber(FromScaled(ToScaled(d).value), d)
    ensures Valid(FromScaled(raw)) && ToScaled(FromScaled(raw)) == Success(raw)
  {
    if ToScaled(d).Success? {
      ToScaledIsExact(d, ToScaled(d).value);
    }
    AtSixPlaces(raw, raw);
    ToScaledIsExact(FromScaled(raw), raw);
  }

  /** Equal numbers are stored as one value, however many zeros they were written with. */
  lemma SpellingDoesNotMatter(a: Decimal, b: Decimal)
    requires Valid(a) && Valid(b) && SameNumber(a, b) && ToScaled(a).Success?
    ensures ToScaled(b) == ToScaled(a)
  {
    var k := ToScaled(a).value;
    ToScaledIsExact(a, k);
    assert a.mantissa * Power10(VALUE_SCALE) * Power10(b.places) == k * Power10(a.places) * Power10(b.places);
    assert b.mantissa * Power10(VALUE_SCALE) * Power10(a.places)
           == a.mantissa * Power10(b.places) * Power10(VALUE_SCALE) by {
      assert b.mantissa * Power10(a.places) == a.mantissa * Power10(b.places);
      Swap(b.mantissa, Power10(VALUE_SCALE), Power10(a.places));
    }
    Swap(a.mantissa, Power10(VALUE_SCALE), Power10(b.places));
    Swap(k, Power10(a.places), Power10(b.places));
    Cancel(b.mantissa * Power10(VALUE_SCALE), k * Power10(b.places), Power10(a.places));
    ToScaledIsExact(b, k);
  }

  lemma Swap(a: int, b: int, c: int)
    ensures a * b * c == a * c * b
  {
  }
}
