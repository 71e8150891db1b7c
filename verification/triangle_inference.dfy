/** The triangle game's belief distributions: the generic engine of
    `Distributions` instantiated with the colour hypotheses, and the worked
    example of the unit tests. */
module TriangleInference {
  import opened Distributions
  import opened TriangleStudies
  import opened TriangleHypotheses
  import opened Collections

  /** A study of one stack holding a red and then a yellow triangle. */
  function RedYellowStudy(): (s: Study)
    ensures Triangles(s) == [Triangle(One, Red), Triangle(One, Yellow)]
  {
    var stack := Push(Push(NewStack(), Triangle(One, Red)), Triangle(One, Yellow));
    TrianglesAppend(NewStudy(), stack);
    Append(NewStudy(), stack)
  }

  /** The red-yellow study has one red and one yellow triangle, and none of the
      other colours. */
  lemma RedYellowCounts()
    ensures ColorCount(RedYellowStudy(), Red) == 1
    ensures ColorCount(RedYellowStudy(), Yellow) == 1
    ensures ColorCount(RedYellowStudy(), Blue) == 0
    ensures ColorCount(RedYellowStudy(), Green) == 0
  {
    var r, y := Triangle(One, Red), Triangle(One, Yellow);
    assert [r] + [y] == Triangles(RedYellowStudy());
    assert [r][..0] == [] && [y][..0] == [];
    forall c ensures ColorCount(RedYellowStudy(), c) == CountColor([r], c) + CountColor([y], c) {
      CountColorConcat([r], [y], c);
    }
  }

  /* ---------------------------------------------------------------------- */
  /* ColorBoundednessHypothesis                                             */
  /* ---------------------------------------------------------------------- */

  /** "At least one triangle of colour c", for the four colours. */
  function AtLeastOneOfEachColor(): (hs: seq<ColorBoundednessHypothesis>)
    ensures |hs| == 4
    ensures forall i :: 0 <= i < 4 ==> hs[i].bounds.lower.Some? && hs[i].bounds.lower.value == 1
  {
    [NewLowerColorBoundedness(Red, 1), NewLowerColorBoundedness(Green, 1),
     NewLowerColorBoundedness(Blue, 1), NewLowerColorBoundedness(Yellow, 1)]
  }

  /** The colour hypotheses' predicate on studies. */
  function ColorBoundednessPredicate(): (p: (ColorBoundednessHypothesis, Study) -> bool)
    ensures forall h, s :: p(h, s) == ColorBoundednessPredicts(h, s)
  {
    (h, s) => ColorBoundednessPredicts(h, s)
  }

  /** The ignorance prior over "at least one triangle of colour c". */
  function ColorBoundednessPrior(): Distribution<ColorBoundednessHypothesis> {
    IgnorancePrior(AtLeastOneOfEachColor())
  }

  /** Blue and green are the hypotheses saying the red-yellow study lacks the
      property. */
  lemma ColorBoundednessAgreeing()
    ensures Agreeing(ColorBoundednessPrior(), ColorBoundednessPredicate(), RedYellowStudy(), false)
            == {NewLowerColorBoundedness(Blue, 1), NewLowerColorBoundedness(Green, 1)}
  {
    var hs := AtLeastOneOfEachColor();
    RedYellowCounts();
    assert Elements(hs) == {hs[0], hs[1], hs[2], hs[3]};
  }

  /** The beliefs after learning that the red-yellow study lacks the property. */
  ghost function ColorBoundednessPosterior(): (d: Distribution<ColorBoundednessHypothesis>)
  {
    ColorBoundednessPrediction();
    Updated(ColorBoundednessPrior(), ColorBoundednessPredicate(), RedYellowStudy(), false)
  }

  /** Before any study, the red-yellow study lacks the property with
      probability 1/2. */
  lemma ColorBoundednessPrediction()
    ensures Predict(ColorBoundednessPrior(), ColorBoundednessPredicate(), RedYellowStudy(), false) == 0.5
  {
    ColorBoundednessAgreeing();
    PredictIgnorancePrior(AtLeastOneOfEachColor(), ColorBoundednessPredicate(), RedYellowStudy(), false);
  }

  /** From the ignorance prior over "at least one c", learning that the
      red-yellow study lacks the property leaves blue and green at 1/2 each and
      rules out red and yellow. */
  lemma ColorBoundednessUpdate()
    ensures ColorBoundednessPosterior().backing.Keys ==
            {NewLowerColorBoundedness(Blue, 1), NewLowerColorBoundedness(Green, 1)}
    ensures Belief(ColorBoundednessPosterior(), NewLowerColorBoundedness(Blue, 1)) == 0.5
    ensures Belief(ColorBoundednessPosterior(), NewLowerColorBoundedness(Green, 1)) == 0.5
    ensures Belief(ColorBoundednessPosterior(), NewLowerColorBoundedness(Red, 1)) == 0.0
    ensures Belief(ColorBoundednessPosterior(), NewLowerColorBoundedness(Yellow, 1)) == 0.0
  {
    ColorBoundednessAgreeing();
    ColorBoundednessPrediction();
    UpdatedIgnorancePrior(AtLeastOneOfEachColor(), ColorBoundednessPredicate(), RedYellowStudy(), false);
  }

  /* ---------------------------------------------------------------------- */
  /* ColorCountBoundednessHypothesis                                        */
  /* ---------------------------------------------------------------------- */

  /** "At least one triangle of colour c" as colour-count hypotheses. */
  function AtLeastOneOfEachColorCount(): (hs: seq<ColorCountBoundednessHypothesis>)
    ensures |hs| == 4
    ensures forall i :: 0 <= i < 4 ==> hs[i].bounds.lower.Some? && hs[i].bounds.lower.value == 1
  {
    [NewLowerColorCount(Red, 1), NewLowerColorCount(Green, 1),
     NewLowerColorCount(Blue, 1), NewLowerColorCount(Yellow, 1)]
  }

  /** The colour-count hypotheses' predicate on studies. */
  function ColorCountPredicate(): (p: (ColorCountBoundednessHypothesis, Study) -> bool)
    ensures forall h, s :: p(h, s) == ColorCountPredicts(h, s)
  {
    (h, s) => ColorCountPredicts(h, s)
  }

  function ColorCountPrior(): Distribution<ColorCountBoundednessHypothesis> {
    IgnorancePrior(AtLeastOneOfEachColorCount())
  }

  lemma ColorCountAgreeing()
    ensures Agreeing(ColorCountPrior(), ColorCountPredicate(), RedYellowStudy(), false)
            == {NewLowerColorCount(Blue, 1), NewLowerColorCount(Green, 1)}
  {
    var hs := AtLeastOneOfEachColorCount();
    RedYellowCounts();
    assert Elements(hs) == {hs[0], hs[1], hs[2], hs[3]};
  }

  ghost function ColorCountPosterior(): (d: Distribution<ColorCountBoundednessHypothesis>)
  {
    ColorCountPrediction();
    Updated(ColorCountPrior(), ColorCountPredicate(), RedYellowStudy(), false)
  }

  /** Before any study, the red-yellow study lacks the property with
      probability 1/2. */
  lemma ColorCountPrediction()
    ensures Predict(ColorCountPrior(), ColorCountPredicate(), RedYellowStudy(), false) == 0.5
  {
    ColorCountAgreeing();
    PredictIgnorancePrior(AtLeastOneOfEachColorCount(), ColorCountPredicate(), RedYellowStudy(), false);
  }

  /** The same example with the colour-count hypotheses: blue and green at 1/2,
      red and yellow ruled out. */
  lemma ColorCountUpdate()
    ensures ColorCountPosterior().backing.Keys == {NewLowerColorCount(Blue, 1), NewLowerColorCount(Green, 1)}
    ensures Belief(ColorCountPosterior(), NewLowerColorCount(Blue, 1)) == 0.5
    ensures Belief(ColorCountPosterior(), NewLowerColorCount(Green, 1)) == 0.5
    ensures Belief(ColorCountPosterior(), NewLowerColorCount(Red, 1)) == 0.0
    ensures Belief(ColorCountPosterior(), NewLowerColorCount(Yellow, 1)) == 0.0
  {
    ColorCountAgreeing();
    ColorCountPrediction();
    UpdatedIgnorancePrior(AtLeastOneOfEachColorCount(), ColorCountPredicate(), RedYellowStudy(), false);
  }
}
