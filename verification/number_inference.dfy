/** The number game's belief distributions and the worked example of the unit
    tests: divisibility by a prime. */
module NumberInference {
  import opened Distributions
  import opened Collections
  import opened NumberHypotheses

  /** Divisibility by 2, 3, 5, 7 and 11. */
  function SmallPrimes(): (hs: seq<Divisor>)
    ensures |hs| == 5 && Distinct(hs)
  {
    [DivisibilityHypothesis(2), DivisibilityHypothesis(3), DivisibilityHypothesis(5),
     DivisibilityHypothesis(7), DivisibilityHypothesis(11)]
  }

  /** The divisibility predicate on numbers. */
  function Divides(): (p: (Divisor, nat) -> bool)
    ensures forall h: Divisor, s: nat :: p(h, s) == DivisibilityPredicts(h, s)
  {
    DivisibilityPredicts
  }

  function PrimePrior(): Distribution<Divisor> {
    IgnorancePrior(SmallPrimes())
  }

  /** 15 is divisible by 3 and 5 only. */
  lemma FifteenAgreeing()
    ensures Agreeing(PrimePrior(), Divides(), 15, false)
            == {DivisibilityHypothesis(2), DivisibilityHypothesis(7), DivisibilityHypothesis(11)}
  {
    var hs := SmallPrimes();
    assert Elements(hs) == {hs[0], hs[1], hs[2], hs[3], hs[4]};
  }

  /** Before any study, 15 lacks the property with probability 3/5. */
  lemma FifteenPrediction()
    ensures Predict(PrimePrior(), Divides(), 15, false) * 5.0 == 3.0
  {
    FifteenAgreeing();
    Survivors();
    PredictIgnorancePrior(SmallPrimes(), Divides(), 15, false);
  }

  /** The beliefs after learning that 15 lacks the property. */
  ghost function FifteenPosterior(): (d: Distribution<Divisor>)
  {
    FifteenPrediction();
    Updated(PrimePrior(), Divides(), 15, false)
  }

  lemma PairSize()
    ensures |{DivisibilityHypothesis(2), DivisibilityHypothesis(7)}| == 2
  {
  }

  lemma Survivors()
    ensures |{DivisibilityHypothesis(2), DivisibilityHypothesis(7), DivisibilityHypothesis(11)}| == 3
  {
  }

  /** Learning that 15 lacks the property eliminates 3 and 5 and leaves 2, 7
      and 11 at 1/3 each. */
  lemma FifteenUpdate()
    ensures FifteenPosterior().backing.Keys ==
            {DivisibilityHypothesis(2), DivisibilityHypothesis(7), DivisibilityHypothesis(11)}
    ensures Belief(FifteenPosterior(), DivisibilityHypothesis(2)) * 3.0 == 1.0
    ensures Belief(FifteenPosterior(), DivisibilityHypothesis(7)) * 3.0 == 1.0
    ensures Belief(FifteenPosterior(), DivisibilityHypothesis(11)) * 3.0 == 1.0
    ensures Belief(FifteenPosterior(), DivisibilityHypothesis(3)) == 0.0
    ensures Belief(FifteenPosterior(), DivisibilityHypothesis(5)) == 0.0
  {
    FifteenAgreeing();
    Survivors();
    UpdatedIgnorancePrior(SmallPrimes(), Divides(), 15, false);
  }

  /** Of the survivors, 2 and 7 divide 14. */
  lemma FourteenAgreeing()
    ensures Agreeing(FifteenPosterior(), Divides(), 14, true) == {DivisibilityHypothesis(2), DivisibilityHypothesis(7)}
  {
    FifteenUpdate();
  }

  /** Afterwards 14 has the property with probability 2/3: it is divisible by
      2 and 7 but not by 11. */
  lemma FourteenPrediction()
    ensures Predict(FifteenPosterior(), Divides(), 14, true) * 3.0 == 2.0
  {
    var d := FifteenPosterior();
    FifteenUpdate();
    FourteenAgreeing();
    var a := Agreeing(d, Divides(), 14, true);
    PairSize();
    forall h | h in a ensures d.backing[h] == 1.0 / 3.0 {
      assert Belief(d, h) * 3.0 == 1.0;
    }
    PredictConstant(d, Divides(), 14, true, 1.0 / 3.0);
  }
}
