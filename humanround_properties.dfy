// Properties of the whole heuristic: which units matter, how far Round moves
// its input, that rounding a rounded value changes nothing, and the shape of
// inch results.

module HumanRoundProperties {
  import opened Powers
  import opened HumanRound

  /** Only Inch triggers the unit pass; every other unit, "" included, rounds
      the same way. */
  lemma RoundedIgnoresOtherUnits(f: real, unit: Unit)
    requires unit != Inch
    ensures Rounded(f, unit) == Rounded(f, NoUnit)
  {
  }

  /** Without the inch pass the result is within half a step of f when no
      snapping can happen (precision 2 or 3), and otherwise within one plus
      half a step. */
  lemma RoundedNear(f: real, unit: Unit)
    requires unit != Inch
    ensures Precision(f) >= 2 ==>
              f - HalfStep(Precision(f)) < Rounded(f, unit) <= f + HalfStep(Precision(f))
    ensures f - 1.0 - HalfStep(Precision(f)) < Rounded(f, unit) < f + 1.0 + HalfStep(Precision(f))
  {
  }

  /** A whole number is never moved by the round-number preference. */
  lemma PreferRoundKeepsWhole(x: real, p: int)
    requires IsInteger(x)
    ensures PreferRound(x, p) == x
  {
    WholeFloorCeil(x.Floor);
  }

  /** 10^k has at most p places when k + p >= 0. */
  lemma PowerHasPlaces(k: int, p: int)
    requires k + p >= 0
    ensures HasPlaces(Pow10(k), p)
  {
    ScalePow10(k, p);
    Pow10Whole(k + p);
  }

  /** A whole number has p places for any p >= 0. */
  lemma WholeHasPlaces(x: real, p: int)
    requires IsInteger(x) && p >= 0
    ensures HasPlaces(x, p)
  {
    ScaleWhole(x, p);
  }

  /** With at most 0 places a value is whole. */
  lemma NoPlacesIsWhole(x: real, p: int)
    requires HasPlaces(x, p) && p <= 0
    ensures IsInteger(x)
  {
    HasPlacesCoarser(x, p, 0);
  }

  /** Between whole numbers, strictly less means at least one less. */
  lemma WholeOrder(x: real, y: real)
    requires IsInteger(x) && IsInteger(y) && x < y + 1.0
    ensures x <= y
  {
    assert x.Floor < y.Floor + 1;
  }

  /** A value strictly between n and n + 1 has floor n and ceiling n + 1. */
  lemma FloorCeilBetween(x: real, n: int)
    requires n as real < x < n as real + 1.0
    ensures Floor(x) == n && Ceil(x) == n + 1
  {
  }

  /** The rounded value (without the inch pass) stays within the closed band
      of its input's precision: at least 10^(2-p), at most 10^(3-p). */
  lemma RoundedStaysInBand(f: real, p: int, g: real, r: real)
    requires p == Precision(f) && g == PreferRound(f, p) && r == RoundToPrecision(g, p)
    ensures r <= Pow10(3 - p)
    ensures p <= 2 ==> Pow10(2 - p) <= r
  {
    var hi := Pow10(3 - p);
    SmallPowers();
    Pow10Whole(3 - p);
    PowerHasPlaces(3 - p, p);
    assert f < hi;
    if g != f {
      WholeOrder(g, hi);
    }
    RoundToPrecisionMonotone(g, hi, p);
    RoundToPrecisionFixes(hi, p);
    if p <= 2 {
      var lo := Pow10(2 - p);
      Pow10Whole(2 - p);
      PowerHasPlaces(2 - p, p);
      if g != f {
        WholeOrder(lo, g);
      }
      RoundToPrecisionMonotone(lo, g, p);
      RoundToPrecisionFixes(lo, p);
    }
  }

  /** A value that round-to-precision produced inside its band is not moved by
      the round-number preference at that precision. */
  lemma PreferRoundKeepsRounded(f: real, p: int, g: real, r: real)
    requires p == Precision(f) && g == PreferRound(f, p) && r == RoundToPrecision(g, p)
    ensures PreferRound(r, p) == r
  {
    if p <= 0 {
      NoPlacesIsWhole(r, p);
      PreferRoundKeepsWhole(r, p);
    } else if p == 1 {
      if IsInteger(r) {
        PreferRoundKeepsWhole(r, p);
      } else {
        if IsInteger(g) {
          WholeHasPlaces(g, 1);
          RoundToPrecisionFixes(g, 1);
          assert false;
        }
        assert g == f;
        var lo, hi := Floor(f) as real, Ceil(f) as real;
        assert lo < f;
        FloorCeilBetween(f, Floor(f));
        WholeHasPlaces(lo, 1);
        WholeHasPlaces(hi, 1);
        RoundToPrecisionMonotone(lo, f, 1);
        RoundToPrecisionFixes(lo, 1);
        RoundToPrecisionMonotone(f, hi, 1);
        RoundToPrecisionFixes(hi, 1);
        assert lo < r < hi;
        FloorCeilBetween(r, Floor(f));
      }
    }
  }

  /** Round is idempotent without the inch pass: rounding a rounded value
      gives it back. When the result reaches the top of its band it lands in
      the next band, as a power of ten, which that band keeps as it is. */
  lemma RoundedIdempotent(f: real, unit: Unit)
    requires unit != Inch
    ensures Rounded(Rounded(f, unit), unit) == Rounded(f, unit)
  {
    var p := Precision(f);
    var g := PreferRound(f, p);
    var r := RoundToPrecision(g, p);
    assert r == Rounded(f, unit);
    RoundedStaysInBand(f, p, g, r);
    if r < Pow10(3 - p) {
      RoundedKeepsInBand(f, p, g, r, unit);
    } else {
      RoundedKeepsPower(3 - p, unit);
    }
  }

  /** A rounded value below the top of its input's band is a fixed point. */
  lemma RoundedKeepsInBand(f: real, p: int, g: real, r: real, unit: Unit)
    requires unit != Inch
    requires p == Precision(f) && g == PreferRound(f, p) && r == RoundToPrecision(g, p)
    requires r < Pow10(3 - p) && (p <= 2 ==> Pow10(2 - p) <= r)
    ensures Rounded(r, unit) == r
  {
    if p <= 2 {
      PrecisionOfBand(r, p);
    } else {
      SmallPowers();
    }
    PreferRoundKeepsRounded(f, p, g, r);
    RoundToPrecisionFixes(r, p);
  }

  /** A power of ten of at least 1 is a fixed point. */
  lemma RoundedKeepsPower(k: int, unit: Unit)
    requires unit != Inch && k >= 0
    ensures Rounded(Pow10(k), unit) == Pow10(k)
  {
    var r := Pow10(k);
    Pow10Whole(k);
    Pow10Order(k, k + 1);
    PrecisionOfBand(r, 2 - k);
    PreferRoundKeepsWhole(r, 2 - k);
    PowerHasPlaces(k, 2 - k);
    RoundToPrecisionFixes(r, 2 - k);
  }

  /** floor + j/d keeps its value under rounding at the precision whose
      inch denominator is d. */
  lemma FractionHasPlaces(floor: real, j: nat, p: int)
    requires IsInteger(floor) && 0 <= p <= 3 && j <= InchDenominator(p)
    ensures HasPlaces(floor + j as real / InchDenominator(p) as real, p)
  {
    var x := j as real / InchDenominator(p) as real;
    ScaleAdd(floor, x, p);
    ScaleWhole(floor, p);
    FractionScaleWhole(j, p);
    WholeSum(Scale(floor, p), Scale(x, p));
  }

  /** j/d scaled by 10^p is a whole number when d is the inch denominator of p. */
  lemma FractionScaleWhole(j: nat, p: int)
    requires 0 <= p <= 3
    ensures IsInteger(Scale(j as real / InchDenominator(p) as real, p))
  {
    var d := InchDenominator(p);
    var x := j as real / d as real;
    var w: nat;
    SmallPowers();
    if p == 0 {
      w := j;
      FractionTimesPower(j, 1, Pow10(p), 1);
    } else if p == 1 {
      w := 5 * j;
      FractionTimesPower(j, 2, Pow10(p), 5);
    } else if p == 2 {
      w := 25 * j;
      FractionTimesPower(j, 4, Pow10(p), 25);
    } else {
      w := 125 * j;
      FractionTimesPower(j, 8, Pow10(p), 125);
    }
    ScaleIsProduct(x, p);
    assert Scale(x, p) == w as real;
  }

  lemma FractionTimesPower(j: nat, d: nat, power: real, w: nat)
    requires d > 0 && power == (d * w) as real
    ensures (j as real / d as real) * power == (j * w) as real
  {
    var x := j as real / d as real;
    assert x * d as real == j as real;
    assert x * power == (x * d as real) * w as real;
  }

  lemma WholeSum(a: real, b: real)
    requires IsInteger(a) && IsInteger(b)
    ensures IsInteger(a + b)
  {
    assert a + b == (a.Floor + b.Floor) as real;
  }

  /** Below 1000 (precision 0 to 3) an inch result is a whole, half, quarter or
      eighth above the floor of the snapped value: final rounding keeps it. */
  lemma RoundedInchIsFraction(f: real)
    requires Precision(f) >= 0
    ensures Rounded(f, Inch) in
              InchFractions(Floor(PreferRound(f, Precision(f))) as real, InchDenominator(Precision(f)))
  {
    var p := Precision(f);
    var h := RoundInches(PreferRound(f, p), p);
    RoundInchesHasPlaces(PreferRound(f, p), p);
    RoundToPrecisionFixes(h, p);
  }

  /** At precision 0 to 3 an inch-snapped value has at most that many decimal
      places. */
  lemma RoundInchesHasPlaces(g: real, p: int)
    requires 0 <= p <= 3
    ensures HasPlaces(RoundInches(g, p), p)
  {
    var h := RoundInches(g, p);
    var base := Floor(g) as real;
    var fr := InchFractions(base, InchDenominator(p));
    var j :| 0 <= j < |fr| && fr[j] == h;
    assert h == base + j as real / InchDenominator(p) as real;
    FractionHasPlaces(base, j, p);
  }
}
