// The "human" rounding heuristic of humanround.go, over exact reals.
//
// Round picks a decimal precision from the magnitude of its input, prefers a
// nearby whole number ending in 0, optionally snaps inches to halves,
// quarters or eighths, and finally rounds half up at that precision.

module HumanRound {
  import opened Powers
  import opened DecimalText

  /** A unit tag; Go's `type Unit string`, whose zero value is "". */
  type Unit = string

  const Inch: Unit := "inch"
  const NoUnit: Unit := ""

  /** The option record that Round fills in before it starts. */
  datatype Opts = Opts(unit: Unit)

  /** A functional option; WithUnit sets the unit of the record it is applied to. */
  datatype Option = WithUnit(unit: Unit) {
    function Apply(o: Opts): Opts {
      o.(unit := unit)
    }
  }

  // ---------------------------------------------------------------------------
  // Floor, ceiling and truncation (math.Floor, math.Ceil, Go's float-to-int)

  function Floor(x: real): (n: int)
    ensures n as real <= x < n as real + 1.0
  {
    x.Floor
  }

  function Ceil(x: real): (n: int)
    ensures x <= n as real < x + 1.0
  {
    -((-x).Floor)
  }

  lemma WholeFloorCeil(n: int)
    ensures Floor(n as real) == n && Ceil(n as real) == n
  {
  }

  /** Go's conversion of a float to an int, which truncates toward zero. */
  function Trunc(x: real): (n: int)
    ensures x >= 0.0 ==> n as real <= x < n as real + 1.0
    ensures x <= 0.0 ==> n as real - 1.0 < x <= n as real
  {
    if x >= 0.0 then x.Floor else -((-x).Floor)
  }

  // ---------------------------------------------------------------------------
  // Precision selection

  /** The number of decimal places Round keeps for f: 3 below 1, and for
      f >= 1 the p whose band [10^(2-p), 10^(3-p)) holds f, which is 2 - k
      for 10^k <= f < 10^(k+1). */
  function Precision(f: real): (p: int)
    ensures p <= 3
    ensures p == 3 <==> f < 1.0
    ensures p <= 2 ==> Pow10(2 - p) <= f < Pow10(3 - p)
    ensures f >= 100.0 ==> p <= 0
  {
    SmallPowers();
    if f < 1.0 then 3
    else if f < 10.0 then 2
    else if f < 100.0 then 1
    else
      var k := Log10Floor(f);
      Pow10Order(2, k + 1);
      2 - k
  }

  lemma SmallPowers()
    ensures Pow10(0) == 1.0 && Pow10(1) == 10.0 && Pow10(2) == 100.0 && Pow10(3) == 1000.0
  {
    Pow10Succ(0);
    Pow10Succ(1);
    Pow10Succ(2);
  }

  /** The source computes the last band as int(2 - math.Log10(f)). For every
      real `log` that lies where log10 f does, in [k, k+1) with
      10^k <= f < 10^(k+1), truncating 2 - log toward zero gives Precision(f). */
  lemma PrecisionMatchesLog10(f: real, log: real)
    requires f >= 100.0
    requires Log10Floor(f) as real <= log < Log10Floor(f) as real + 1.0
    ensures Trunc(2.0 - log) == Precision(f)
  {
  }

  /** Every f in the band of p gets precision p. */
  lemma PrecisionOfBand(f: real, p: int)
    requires p <= 2 && Pow10(2 - p) <= f < Pow10(3 - p)
    ensures Precision(f) == p
  {
    var q := Precision(f);
    Pow10Whole(2 - p);
    Pow10Order(2 - q, 3 - p);
    Pow10Order(2 - p, 3 - q);
  }

  /** A larger input never gets more decimal places. */
  lemma PrecisionAntitone(f: real, g: real)
    requires f <= g
    ensures Precision(g) <= Precision(f)
  {
    var p, q := Precision(f), Precision(g);
    if q > p && q <= 2 {
      Pow10Order(3 - q, 2 - p);
    }
  }

  // ---------------------------------------------------------------------------
  // Round-number preference

  /** strings.HasSuffix(strconv.Itoa(n), "0"): the decimal text of n ends in
      the digit 0, which is n being a multiple of ten. */
  predicate EndsInZero(n: int)
    ensures EndsInZero(n) <==> n % 10 == 0
  {
    ItoaEndsInZero(n);
    HasSuffix(Itoa(n), "0")
  }

  /** Below two decimal places, f becomes its floor when the floor ends in 0,
      and otherwise its ceiling when that ends in 0 (the ceiling of the value
      the floor step left). The snapped value is a multiple of ten less than
      one away from f. */
  function PreferRound(f: real, precision: int): (g: real)
    ensures precision >= 2 ==> g == f
    ensures precision < 2 && Floor(f) % 10 == 0 ==> g == Floor(f) as real
    ensures precision < 2 && Floor(f) % 10 != 0 && Ceil(f) % 10 == 0 ==> g == Ceil(f) as real
    ensures precision < 2 && Floor(f) % 10 != 0 && Ceil(f) % 10 != 0 ==> g == f
    ensures g != f ==> IsInteger(g) && g.Floor % 10 == 0
    ensures f - 1.0 < g < f + 1.0
  {
    WholeFloorCeil(Floor(f));
    var f1 := if precision < 2 && Floor(f) % 10 == 0 then Floor(f) as real else f;
    if precision < 2 && Ceil(f1) % 10 == 0 then Ceil(f1) as real else f1
  }

  // ---------------------------------------------------------------------------
  // nearest

  /** |a - b|, as math.Abs(val - t). */
  function Dist(a: real, b: real): (d: real)
    ensures d >= 0.0
    ensures d == a - b || d == b - a
  {
    if a >= b then a - b else b - a
  }

  /** The position of the first target closest to val. */
  function FirstNearestIndex(val: real, targets: seq<real>): (i: nat)
    requires |targets| > 0
    ensures i < |targets|
    ensures forall j :: 0 <= j < |targets| ==> Dist(val, targets[i]) <= Dist(val, targets[j])
    ensures forall j :: 0 <= j < i ==> Dist(val, targets[i]) < Dist(val, targets[j])
  {
    if |targets| == 1 then 0
    else
      var n := |targets| - 1;
      var i := FirstNearestIndex(val, targets[..n]);
      if Dist(val, targets[n]) < Dist(val, targets[i]) then n else i
  }

  /** Any position that is as close as every target and strictly closer than
      every earlier one is the first nearest. */
  lemma FirstNearestIndexUnique(val: real, targets: seq<real>, k: nat)
    requires k < |targets|
    requires forall j :: 0 <= j < |targets| ==> Dist(val, targets[k]) <= Dist(val, targets[j])
    requires forall j :: 0 <= j < k ==> Dist(val, targets[k]) < Dist(val, targets[j])
    ensures FirstNearestIndex(val, targets) == k
  {
  }

  /** What nearest returns: val when there are no targets, otherwise the
      first target at the least distance from val. */
  function Closest(val: real, targets: seq<real>): (r: real)
    ensures |targets| == 0 ==> r == val
    ensures |targets| > 0 ==> r in targets
    ensures forall t :: t in targets ==> Dist(val, r) <= Dist(val, t)
  {
    if |targets| == 0 then val else targets[FirstNearestIndex(val, targets)]
  }

  /** nearest: one pass over the targets keeping the closest so far; a later
      target replaces it only when strictly closer. */
  method Nearest(val: real, targets: seq<real>) returns (r: real)
    ensures r == Closest(val, targets)
  {
    if |targets| == 0 {
      return val;
    }
    var res := targets[0];
    // `seen` false stands for diff == math.MaxFloat64, above every distance.
    var diff := 0.0;
    var seen := false;
    for i := 0 to |targets|
      invariant seen <==> i > 0
      invariant i == 0 ==> res == targets[0]
      invariant i > 0 ==> res == targets[FirstNearestIndex(val, targets[..i])]
      invariant i > 0 ==> diff == Dist(val, res)
    {
      var d := Dist(val, targets[i]);
      if i > 0 {
        assert targets[..i + 1][..i] == targets[..i];
        ghost var k := FirstNearestIndex(val, targets[..i]);
        assert targets[..i][k] == targets[k];
      }
      if !seen || d < diff {
        res := targets[i];
        diff := d;
      }
      seen := true;
    }
    assert targets[..|targets|] == targets;
    r := res;
  }

  // ---------------------------------------------------------------------------
  // roundInches

  /** Halves at one place, wholes at none, quarters at two, eighths otherwise. */
  function InchDenominator(precision: int): (d: nat)
    ensures d in {1, 2, 4, 8}
  {
    if precision == 1 then 2
    else if precision == 0 then 1
    else if precision == 2 then 4
    else 8
  }

  /** The candidate lists roundInches hands to nearest, in its order. */
  function InchTargets(floor: real, precision: int): seq<real> {
    if precision == 1 then
      [floor, floor + 0.5, floor + 1.0]
    else if precision == 0 then
      [floor, floor + 1.0]
    else if precision == 2 then
      [floor, floor + 0.25, floor + 0.5, floor + 0.75, floor + 1.0]
    else
      [floor, floor + 0.125, floor + 0.25, floor + 0.375, floor + 0.5,
       floor + 0.625, floor + 0.75, floor + 0.875, floor + 1.0]
  }

  /** base + j/d for j = 0 .. d, in increasing order. */
  function InchFractions(base: real, d: nat): seq<real>
    requires d > 0
  {
    seq(d + 1, j requires 0 <= j <= d => base + j as real / d as real)
  }

  /** Each candidate list is the fractions floor + j/d, j = 0 .. d, in order. */
  lemma InchTargetsAreFractions(floor: real, precision: int)
    ensures InchTargets(floor, precision) == InchFractions(floor, InchDenominator(precision))
  {
  }

  /** The j for which base + j/d is nearest to f, rounding halves up. */
  function FractionIndex(f: real, base: real, d: nat): int
    requires d > 0
  {
    ((f - base) * d as real + 0.5).Floor
  }

  /** That fraction exists among base + 0/d .. base + d/d and lies within
      1/(2d) of any f in [base, base + 1). */
  lemma NearFraction(f: real, base: real, d: nat)
    requires d > 0 && base <= f < base + 1.0
    ensures 0 <= FractionIndex(f, base, d) <= d
    ensures Dist(f, base + FractionIndex(f, base, d) as real / d as real) <= 0.5 / d as real
  {
    var dr := d as real;
    var y := f - base;
    var x := y * dr;
    var j := FractionIndex(f, base, d);
    assert 0.0 <= x < dr by {
      MultiplyBelowOne(y, dr);
    }
    assert x - 0.5 < j as real <= x + 0.5;
    assert x / dr == y by {
      MultiplyDivide(y, dr);
    }
    DivideBounds(x, j as real, dr);
  }

  lemma MultiplyDivide(y: real, c: real)
    requires c > 0.0
    ensures (y * c) / c == y
  {
  }

  lemma MultiplyBelowOne(a: real, c: real)
    requires 0.0 <= a < 1.0 && c > 0.0
    ensures 0.0 <= a * c < c
  {
  }

  lemma DivideBounds(x: real, y: real, c: real)
    requires c > 0.0 && x - 0.5 < y <= x + 0.5
    ensures x / c - 0.5 / c < y / c <= x / c + 0.5 / c
  {
    assert (x - 0.5) / c == x / c - 0.5 / c;
    assert (x + 0.5) / c == x / c + 0.5 / c;
    DivideOrder(x - 0.5, y, c);
    DivideOrder(y, x + 0.5, c);
  }

  lemma DivideOrder(a: real, b: real, c: real)
    requires c > 0.0 && a <= b
    ensures a / c <= b / c
    ensures a < b ==> a / c < b / c
  {
  }

  /** roundInches: f snapped to the nearest of its floor plus a whole, half,
      quarter or eighth; the result is floor(f) + j/d with 0 <= j <= d and
      lies within 1/(2d) of f. */
  function RoundInches(f: real, precision: int): (r: real)
    ensures r in InchFractions(Floor(f) as real, InchDenominator(precision))
    ensures Dist(f, r) <= 0.5 / InchDenominator(precision) as real
  {
    var floor := Floor(f) as real;
    var d := InchDenominator(precision);
    InchTargetsAreFractions(floor, precision);
    NearFraction(f, floor, d);
    var j := FractionIndex(f, floor, d);
    assert InchFractions(floor, d)[j] in InchTargets(floor, precision);
    Closest(f, InchTargets(floor, precision))
  }

  // ---------------------------------------------------------------------------
  // roundToPrecision

  /** x has at most p decimal places: x * 10^p is a whole number. */
  predicate HasPlaces(x: real, p: int) {
    IsInteger(Scale(x, p))
  }

  /** Half a unit in the last of p decimal places: 0.5 * 10^-p. */
  function HalfStep(p: int): (h: real)
    ensures h > 0.0
  {
    Scale(0.5, -p)
  }

  lemma ScaleNegate(x: real, e: int)
    ensures Scale(-x, e) == -Scale(x, e)
  {
    ScaleAdd(x, -x, e);
  }

  /** roundToPrecision: floor(f * 10^p + 1/2) / 10^p. The result has at most
      p decimal places and lies in (f - h, f + h] for h = 0.5 * 10^-p, so a
      value exactly halfway goes up. */
  function RoundToPrecision(f: real, places: int): (r: real)
    ensures HasPlaces(r, places)
    ensures f - HalfStep(places) < r <= f + HalfStep(places)
  {
    var shifted := Scale(f, places);
    var n := (shifted + 0.5).Floor;
    var r := Scale(n as real, -places);
    ScaleCompose(n as real, -places, places);
    ScaleAdd(shifted, 0.5, -places);
    ScaleAdd(shifted, -0.5, -places);
    ScaleNegate(0.5, -places);
    ScaleInverse(f, places);
    ScaleOrder(n as real, shifted + 0.5, -places);
    ScaleOrder(shifted - 0.5, n as real, -places);
    r
  }

  /** The rounded value is the only value with at most p places in
      (f - h, f + h]. */
  lemma RoundToPrecisionUnique(f: real, places: int, g: real)
    requires HasPlaces(g, places)
    requires f - HalfStep(places) < g <= f + HalfStep(places)
    ensures g == RoundToPrecision(f, places)
  {
    var r := RoundToPrecision(f, places);
    var h := HalfStep(places);
    var c := Scale(f, places);
    assert Scale(f - h, places) == c - 0.5 by {
      ScaleInverse(0.5, -places);
      ScaleAdd(f, -h, places);
      ScaleNegate(h, places);
    }
    assert Scale(f + h, places) == c + 0.5 by {
      ScaleInverse(0.5, -places);
      ScaleAdd(f, h, places);
    }
    var m, n := Scale(g, places), Scale(r, places);
    assert c - 0.5 < m <= c + 0.5 by {
      ScaleOrder(f - h, g, places);
      ScaleOrder(g, f + h, places);
    }
    assert c - 0.5 < n <= c + 0.5 by {
      ScaleOrder(f - h, r, places);
      ScaleOrder(r, f + h, places);
    }
    WholeClose(m, n);
    ScaleInverse(g, places);
    ScaleInverse(r, places);
  }

  /** Two whole numbers less than one apart are equal. */
  lemma WholeClose(a: real, b: real)
    requires IsInteger(a) && IsInteger(b) && a - 1.0 < b < a + 1.0
    ensures a == b
  {
    assert a.Floor - 1 < b.Floor < a.Floor + 1;
  }

  /** A value that already has p places is left alone. */
  lemma RoundToPrecisionFixes(f: real, places: int)
    requires HasPlaces(f, places)
    ensures RoundToPrecision(f, places) == f
  {
    RoundToPrecisionUnique(f, places, f);
  }

  /** Rounding preserves order. */
  lemma RoundToPrecisionMonotone(f: real, g: real, places: int)
    requires f <= g
    ensures RoundToPrecision(f, places) <= RoundToPrecision(g, places)
  {
    ScaleOrder(f, g, places);
    var m := (Scale(f, places) + 0.5).Floor;
    var n := (Scale(g, places) + 0.5).Floor;
    assert m <= n;
    ScaleOrder(m as real, n as real, -places);
    assert RoundToPrecision(f, places) == Scale(m as real, -places);
    assert RoundToPrecision(g, places) == Scale(n as real, -places);
  }

  /** Having p places implies having any larger number of places. */
  lemma HasPlacesCoarser(x: real, p: int, q: int)
    requires HasPlaces(x, p) && p <= q
    ensures HasPlaces(x, q)
  {
    ScaleCompose(x, p, q - p);
    ScaleWhole(Scale(x, p), q - p);
  }

  // ---------------------------------------------------------------------------
  // Round

  /** The unit Round works with: the one set by the last option, or "". */
  function ChosenUnit(options: seq<Option>): Unit {
    if options == [] then NoUnit else options[|options| - 1].unit
  }

  /** The options applied one after another, first to last, to a record. */
  function ApplyAll(o: Opts, options: seq<Option>): Opts
    decreases |options|
  {
    if options == [] then o else ApplyAll(options[0].Apply(o), options[1..])
  }

  /** Applying the options in order leaves the unit of the last one; with no
      options the record is unchanged, so Round's fresh record keeps "". */
  lemma {:induction false} ApplyAllLastWins(o: Opts, options: seq<Option>)
    ensures options == [] ==> ApplyAll(o, options) == o
    ensures options != [] ==> ApplyAll(o, options).unit == options[|options| - 1].unit
    ensures ApplyAll(Opts(NoUnit), options).unit == ChosenUnit(options)
    decreases |options|
  {
    if options != [] {
      ApplyAllLastWins(options[0].Apply(o), options[1..]);
      ApplyAllLastWins(options[0].Apply(Opts(NoUnit)), options[1..]);
    }
  }

  /** What Round computes for f and a chosen unit; the result has at most
      Precision(f) decimal places. */
  function Rounded(f: real, unit: Unit): (r: real)
    ensures HasPlaces(r, Precision(f))
  {
    var precision := Precision(f);
    var g := PreferRound(f, precision);
    var h := if unit == Inch then RoundInches(g, precision) else g;
    RoundToPrecision(h, precision)
  }

  /** Round: apply the options in order, pick the precision, prefer a round
      number, snap inches, round half up. */
  method Round(f: real, options: seq<Option>) returns (r: real)
    ensures r == Rounded(f, ChosenUnit(options))
    ensures HasPlaces(r, Precision(f))
  {
    var o := Opts(NoUnit);
    for i := 0 to |options|
      invariant o.unit == ChosenUnit(options[..i])
    {
      assert options[..i + 1][i] == options[i];
      o := options[i].Apply(o);
    }
    assert options[..|options|] == options;

    var precision: int;
    if f < 1.0 {
      precision := 3;
    } else if f < 10.0 {
      precision := 2;
    } else if f < 100.0 {
      precision := 1;
    } else {
      precision := 2 - Log10Floor(f);
    }
    var x := f;
    if precision < 2 && EndsInZero(Floor(x)) {
      x := Floor(x) as real;
    }
    if precision < 2 && EndsInZero(Ceil(x)) {
      x := Ceil(x) as real;
    }
    if o.unit == Inch {
      x := RoundInches(x, precision);
    }
    r := RoundToPrecision(x, precision);
  }
}
