// The cases of humanround_test.go, as facts about the exact model: each
// states what Round returns for the input and the option list of the case.

module HumanRoundTest {
  import opened Powers
  import opened HumanRound

  lemma FiftyPointEight()
    ensures Rounded(50.8, ChosenUnit([])) == 50.0
  {
    SmallPowers();
    PrecisionOfBand(50.8, 1);
    assert PreferRound(50.8, 1) == 50.0;
  }

  lemma TwoPointTwoSeven()
    ensures Rounded(2.26796, ChosenUnit([])) == 2.27
  {
    SmallPowers();
    PrecisionOfBand(2.26796, 2);
  }

  lemma FourFiftyFour()
    ensures Rounded(453.592, ChosenUnit([])) == 454.0
  {
    SmallPowers();
    PrecisionOfBand(453.592, 0);
  }

  /** 1022 goes to 1020: neither 1022 nor 1023 ends in 0, and rounding to
      tens gives 1020. */
  lemma TenTwenty()
    ensures Rounded(1022.0, ChosenUnit([])) == 1020.0
  {
    SmallPowers();
    Pow10Succ(3);
    PrecisionOfBand(1022.0, -1);
  }

  lemma FiftyThreeEighty()
    ensures Rounded(5375.0, ChosenUnit([])) == 5380.0
  {
    SmallPowers();
    Pow10Succ(3);
    PrecisionOfBand(5375.0, -1);
  }

  lemma FiftyThreeThousandEightHundred()
    ensures Rounded(53750.0, ChosenUnit([])) == 53800.0
  {
    SmallPowers();
    Pow10Succ(3);
    Pow10Succ(4);
    PrecisionOfBand(53750.0, -2);
  }

  lemma FiftyFiveThousandSixHundred()
    ensures Rounded(55555.0, ChosenUnit([])) == 55600.0
  {
    SmallPowers();
    Pow10Succ(3);
    Pow10Succ(4);
    PrecisionOfBand(55555.0, -2);
  }

  /** 2.26796 inches: quarters, the nearest being 2.25. */
  lemma TwoAndAQuarterInches()
    ensures Rounded(2.26796, ChosenUnit([WithUnit(Inch)])) == 2.25
  {
    assert Precision(2.26796) == 2 by {
      SmallPowers();
      PrecisionOfBand(2.26796, 2);
    }
    assert RoundInches(2.26796, 2) == 2.25 by {
      assert Floor(2.26796) == 2;
      FirstNearestIndexUnique(2.26796, InchTargets(2.0, 2), 1);
    }
    assert RoundToPrecision(2.25, 2) == 2.25 by {
      SmallPowers();
      ScaleIsProduct(2.25, 2);
      RoundToPrecisionFixes(2.25, 2);
    }
  }

  /** 0.13 inches: eighths, the nearest being 0.125. */
  lemma OneEighthInch()
    ensures Rounded(0.13, ChosenUnit([WithUnit(Inch)])) == 0.125
  {
    assert RoundInches(0.13, 3) == 0.125 by {
      assert Floor(0.13) == 0;
      FirstNearestIndexUnique(0.13, InchTargets(0.0, 3), 1);
    }
    assert RoundToPrecision(0.125, 3) == 0.125 by {
      SmallPowers();
      ScaleIsProduct(0.125, 3);
      RoundToPrecisionFixes(0.125, 3);
    }
  }

  /** 32.26796 inches: halves, 32.5 being nearer than 32. */
  lemma ThirtyTwoAndAHalfInches()
    ensures Rounded(32.26796, ChosenUnit([WithUnit(Inch)])) == 32.5
  {
    assert Precision(32.26796) == 1 by {
      SmallPowers();
      PrecisionOfBand(32.26796, 1);
    }
    assert PreferRound(32.26796, 1) == 32.26796;
    assert RoundInches(32.26796, 1) == 32.5 by {
      assert Floor(32.26796) == 32;
      FirstNearestIndexUnique(32.26796, InchTargets(32.0, 1), 1);
    }
    assert RoundToPrecision(32.5, 1) == 32.5 by {
      SmallPowers();
      ScaleIsProduct(32.5, 1);
      RoundToPrecisionFixes(32.5, 1);
    }
  }

  /** A value halfway between two inch candidates goes to the earlier (lower)
      one, since nearest only replaces on a strictly smaller distance. */
  lemma {:induction false} InchHalfTieGoesDown(n: int)
    ensures RoundInches(n as real + 0.25, 1) == n as real
  {
    var f := n as real + 0.25;
    assert Floor(f) == n;
    FirstNearestIndexUnique(f, InchTargets(n as real, 1), 0);
  }

  /** The final half-up rounding does not undo the tie: Round(22.25, Inch) is
      22, where round-half-up alone at one place would give 22.3. */
  lemma InchTieSurvivesRounding()
    ensures Rounded(22.25, ChosenUnit([WithUnit(Inch)])) == 22.0
  {
    assert Precision(22.25) == 1 by {
      SmallPowers();
      PrecisionOfBand(22.25, 1);
    }
    assert PreferRound(22.25, 1) == 22.25;
    InchHalfTieGoesDown(22);
    assert RoundToPrecision(22.0, 1) == 22.0 by {
      SmallPowers();
      ScaleIsProduct(22.0, 1);
      RoundToPrecisionFixes(22.0, 1);
    }
  }
}
