# Mezzanine, modelled in Dafny

Mezzanine is a guessing game about hypotheses. The player privately picks a
criterion. In the number game it is a criterion on the numbers 1..bound; in
the triangle game it is a criterion on "studies", which are sequences of
stacks of coloured, sized triangles. The program keeps a belief distribution
over a finite space of candidate criteria, the hypotheses. It starts from the
uniform "ignorance prior". Each round it asks about the study whose answer is
expected to be most informative, and it conditions its beliefs on the
player's yes/no verdict. Hypotheses that disagree with the verdict are
dropped and the survivors are renormalised. The game ends when one
hypothesis is left, or when no question is worth asking.

This project models that core:

- `Distributions` holds the belief engine. It is one generic
  `Distribution<H>`, a `map<H, real>`, with the hypothesis predicate passed
  as a function. It covers `ignorance_prior`, `belief`, `len`, `hypotheses`,
  `completely_certain`, `predict` and `updated`.
- `Search` holds the two `burning_question` searches. One is an exhaustive
  first maximum over a list. The other is an "anytime" best-of-samples
  search that stops early. The value of information is an abstract score.
- `Bounds`, `NumberHypotheses`, `TriangleHypotheses` and `StandardBasics`
  hold the hypotheses:
  - divisibility;
  - optional-lower/optional-upper bounds on a number, or on a colour, size,
    groundedness or pip count;
  - pip parity;
  - conjunction;
  - the `BasicHypothesis` dispatch;
  - the `standard_basic_hypotheses` enumeration.
- `TriangleStudies` holds stacks, studies, the flattening iterator and
  `color_count`.
- `NumberGame` holds the number game's hypothesis space: divisors, ranges,
  and the AND/OR joins deduplicated by extension.
- `Sessions` holds the game loop.
- `Display` holds the `wrapln!` word wrap at 79 columns.
- `NumberInference` and `TriangleInference` replay the unit tests' worked
  examples.

Probabilities are exact `real`s. Counts and numbers are unbounded naturals.

## Model

| member | source | states |
|---|---|---|
| Distributions.IgnorancePrior | src/inference/triangle/mod.rs:27-34 | the stored hypotheses are exactly the listed ones, each with positive mass |
| Distributions.IgnorancePriorIsUniform | src/inference.rs:114-121 | over a nonempty list of N, each listed hypothesis has belief 1/N and any other 0; the total is 1, and N are stored, exactly when the list has no repetition |
| Distributions.IgnorancePriorTotal | src/inference.rs:114-121 | total mass 1 and N stored hypotheses each hold if and only if the N listed hypotheses are pairwise distinct |
| Distributions.Belief | src/inference.rs:131-133 | an unstored hypothesis has belief 0; a stored one lies between 0 and the total mass |
| Distributions.Len | src/inference/triangle/mod.rs:44-46 | the length is zero exactly when nothing is stored |
| Distributions.Hypotheses | src/inference/triangle/mod.rs:48-50 | the list holds each stored hypothesis exactly once and nothing else, and its length is `Len` |
| Distributions.CompletelyCertain | src/inference.rs:139-145 | `Some(h)` exactly when one hypothesis is stored, and then h is that hypothesis |
| Distributions.CertaintyIsFullBelief | src/inference/triangle/mod.rs:60-66 | in a normalised distribution, the certain hypothesis has belief 1 |
| Distributions.Predict | src/inference.rs:147-157 | the agreeing mass lies between 0 and the total mass |
| Distributions.PredictComplement | src/inference.rs:147-157 | the masses agreeing with true and with false add up to the total mass |
| Distributions.Updated | src/inference.rs:159-171 | the survivors are exactly the stored hypotheses whose prediction equals the verdict; each new mass times the predicted mass is the old mass; a nonempty result sums to 1 |
| Distributions.DividedMap | src/inference/triangle/mod.rs:81-90 | each entry, multiplied back by the factor, gives the old entry, and the mass is divided by the factor |
| Distributions.UpdatedIsBayesRule | src/inference.rs:159-171 | for every hypothesis, stored or not, the new belief is the old belief over the predicted mass when it agrees, and 0 otherwise |
| Distributions.PositiveUpdatable | src/inference.rs:159-160 | with positive masses, the predicted mass is zero exactly when no hypothesis agrees, so updating never divides a present mass by zero |
| Distributions.UpdatedPositive | src/inference/triangle/mod.rs:80-92 | updating a positive distribution leaves a positive distribution |
| Distributions.UpdatedUnanimous | src/inference.rs:159-171 | when every stored hypothesis agrees with the verdict, the prediction is 1 and a normalised distribution is unchanged |
| Distributions.PredictIgnorancePrior | src/inference.rs:147-157 | under the ignorance prior over N, the prediction is k/N for k agreeing hypotheses |
| Distributions.UpdatedIgnorancePrior | src/inference.rs:159-171 | updating the ignorance prior gives each of the k agreeing hypotheses belief 1/k |
| Distributions.PredictConstant | src/inference.rs:147-157 | when the agreeing hypotheses all have mass c, the prediction is k times c |
| Distributions.UpdatedConstant | src/inference.rs:159-171 | when the agreeing hypotheses all have mass c, each survivor ends with belief 1/k |
| Search.FirstBest | src/inference/triangle.rs:168-180 | the index found scores at least as high as every candidate, and strictly higher than every earlier one |
| Search.BurningQuestion | src/inference.rs:182-195 | `None` exactly for an empty list; otherwise the first study attaining the maximum score, so earlier ties win |
| Search.AnytimeBurningQuestion | src/inference/triangle/mod.rs:103-123 | between 1 and max(1, cap) draws; the result is the first best drawn study; no earlier draw exceeded the desired bits; it stops only when the best exceeds them or the cap is reached |
| Bounds.Admits | src/inference.rs:59-71 | succeeds exactly when the number is at least the lower bound (if present) and at most the upper bound (if present) |
| Bounds.BoundClauses | src/inference.rs:73-85 | a "not less than" clause exactly for a lower bound, a "not greater than" clause exactly for an upper bound, and "and" exactly when both are present |
| Bounds.ExactAwareClauses | src/inference/triangle/hypotheses/pip_boundedness.rs:58-78 | equal bounds give the single "is exactly" clause; otherwise "and" appears exactly when both bounds are present |
| NumberHypotheses.NewDivisibility | src/inference.rs:25-33 | stores the divisor; a positive divisor accepts exactly its multiples |
| NumberHypotheses.DivisibilityPredicts | src/inference.rs:31-33 | holds exactly when the study is a multiple of the (positive) divisor |
| NumberHypotheses.DivisibilityDescription | src/inference.rs:35-37 | one clause, which names the divisor and no other number |
| NumberHypotheses.DivisibilityDescriptionInjective | src/inference.rs:35-37 | two divisibility hypotheses have the same description exactly when they are equal |
| NumberHypotheses.DivisibilityAcceptsMultiples | src/inference.rs:31-33 | every multiple of the divisor is accepted, and divisor 1 accepts everything |
| NumberHypotheses.DivisibilityRejectsSmaller | src/inference.rs:31-33 | a positive number below the divisor is rejected |
| NumberHypotheses.NewBoundedness | src/inference.rs:47-49 | both bounds are set, and the study is accepted exactly within them |
| NumberHypotheses.NewLowerBoundedness | src/inference.rs:50-52 | only the lower bound is set, and the study is accepted exactly from it up |
| NumberHypotheses.NewUpperBoundedness | src/inference.rs:53-55 | only the upper bound is set, and the study is accepted exactly up to it |
| NumberHypotheses.BoundednessPredicts | src/inference.rs:59-71 | holds exactly within the bounds present |
| NumberHypotheses.BoundednessDescription | src/inference.rs:73-85 | one clause per present bound, with "and" exactly when both are present |
| NumberHypotheses.ConjunctivePredicts | src/inference.rs:94-98 | holds exactly when both parts hold |
| NumberHypotheses.ConjunctiveDescription | src/inference.rs:100-102 | this part's description, then "and", then that part's; every clause of the parts occurs as often as in the parts together, and "and" once more |
| NumberHypotheses.ConjunctiveDescriptionSplits | src/inference.rs:100-102 | given the length of the first part, the joined description determines both parts |
| NumberHypotheses.ConjunctiveExtension | src/inference.rs:94-98 | a conjunction accepts the intersection of what its parts accept |
| NumberInference.SmallPrimes | src/inference.rs:229-231 | the five divisors of the test are pairwise distinct |
| NumberInference.FifteenAgreeing | src/inference.rs:233-236 | divisors 2, 7 and 11 are the ones that say 15 lacks the property |
| NumberInference.FifteenPrediction | src/inference.rs:231-236 | the prior predicts "15 lacks the property" with probability 3/5 |
| NumberInference.FifteenUpdate | src/inference.rs:236-248 | after the verdict, 2, 7 and 11 have belief 1/3 each and 3 and 5 have belief 0 |
| NumberInference.FourteenAgreeing | src/inference.rs:250-252 | among the survivors, 2 and 7 divide 14 |
| NumberInference.FourteenPrediction | src/inference.rs:250-252 | then the prediction that 14 has the property is 2/3 |
| TriangleStudies.NewStack | src/triangles.rs:99-101 | a new stack is empty |
| TriangleStudies.NewStudy | src/triangles.rs:151-153 | a new study has no stacks, no triangles, and a count of 0 for every colour |
| TriangleStudies.Push | src/triangles.rs:103-105 | the triangle goes on the end, and the earlier triangles are unchanged |
| TriangleStudies.Append | src/triangles.rs:155-157 | the stack goes on the end, and the earlier stacks are unchanged |
| TriangleStudies.Next | src/triangles.rs:173-190 | yields the triangle at the iterator's position in the flattening and advances by one, skipping empty stacks; yields nothing exactly at the end |
| TriangleStudies.Collect | src/triangles.rs:193-204 | iterating from the start yields exactly the concatenation of the stacks, in order |
| TriangleStudies.ColorCount | src/triangles.rs:159-161 | the count equals the number of positions in the flattened study that hold a triangle of the colour, so it never exceeds the number of triangles |
| TriangleStudies.ColorCountAppend | src/triangles.rs:155-161 | appending a stack adds that stack's count of the colour |
| TriangleStudies.ColorCountsSumToTotal | src/triangles.rs:34-40 | the counts of the four colours add up to the number of triangles |
| TriangleStudies.TwoStacksIteration | src/triangles.rs:212-223 | two stacks of two triangles iterate to four triangles |
| TriangleStudies.BlueStudyCount | src/triangles.rs:226-234 | the study with an empty middle stack has four blue triangles |
| TriangleStudies.BlueStudyTriangles | src/triangles.rs:226-234 | the empty middle stack is skipped, not the end of iteration |
| TriangleHypotheses.ColorBoundednessPredicts | src/inference/triangle.rs:52-65 | holds exactly when the colour count lies within the bounds present |
| TriangleHypotheses.NewColorBoundedness | src/inference/triangle.rs:26-32 | both bounds are set, and it holds exactly between them |
| TriangleHypotheses.NewLowerColorBoundedness | src/inference/triangle.rs:34-40 | only the lower bound is set |
| TriangleHypotheses.NewUpperColorBoundedness | src/inference/triangle.rs:42-48 | only the upper bound is set |
| TriangleHypotheses.ColorBoundednessDescription | src/inference/triangle.rs:67-80 | the colour topic, then "and" exactly when both bounds are present |
| TriangleHypotheses.ColorCountPredicts | src/inference/triangle/hypotheses/color_count_boundedness.rs:40-53 | holds exactly when the colour count lies within the bounds present, as the colour-boundedness hypothesis with the same colour and bounds does |
| TriangleHypotheses.NewColorCount | src/inference/triangle/hypotheses/color_count_boundedness.rs:13-19 | both bounds are set, and it holds exactly between them |
| TriangleHypotheses.NewLowerColorCount | src/inference/triangle/hypotheses/color_count_boundedness.rs:21-27 | only the lower bound is set, and it holds from it up |
| TriangleHypotheses.NewUpperColorCount | src/inference/triangle/hypotheses/color_count_boundedness.rs:29-35 | only the upper bound is set, and it holds up to it |
| TriangleHypotheses.ColorCountVerdictFollowsCount | src/inference/triangle/hypotheses/color_count_boundedness.rs:40-53 | two studies with equal counts of the colour get the same verdict |
| TriangleHypotheses.InvertedColorCountNeverHolds | src/inference/triangle/hypotheses/color_count_boundedness.rs:42-52 | with lower above upper, no study is accepted |
| TriangleHypotheses.ColorCountDescription | src/inference/triangle/hypotheses/color_count_boundedness.rs:55-76 | equal bounds give "is exactly n" with no "and"; otherwise "and" appears exactly when both bounds are present |
| TriangleHypotheses.SizeCountPredicts | src/inference/triangle/hypotheses/size_count_boundedness.rs:41-54 | holds exactly when the size count lies within the bounds present |
| TriangleHypotheses.NewSizeCount | src/inference/triangle/hypotheses/size_count_boundedness.rs:14-20 | both bounds are set, and it holds exactly between them |
| TriangleHypotheses.NewLowerSizeCount | src/inference/triangle/hypotheses/size_count_boundedness.rs:22-28 | only the lower bound is set |
| TriangleHypotheses.NewUpperSizeCount | src/inference/triangle/hypotheses/size_count_boundedness.rs:30-36 | only the upper bound is set |
| TriangleHypotheses.SizeCountVerdictFollowsCount | src/inference/triangle/hypotheses/size_count_boundedness.rs:41-54 | equal size counts give the same verdict |
| TriangleHypotheses.SizeCountDescription | src/inference/triangle/hypotheses/size_count_boundedness.rs:56-69 | no "is exactly" form, even for equal bounds; "and" appears exactly when both bounds are present |
| TriangleHypotheses.GroundednessCountPredicts | src/inference/triangle/hypotheses/groundedness_count_boundedness.rs:41-54 | holds exactly when the (un)grounded count lies within the bounds present |
| TriangleHypotheses.NewGroundednessCount | src/inference/triangle/hypotheses/groundedness_count_boundedness.rs:14-20 | both bounds are set |
| TriangleHypotheses.NewLowerGroundednessCount | src/inference/triangle/hypotheses/groundedness_count_boundedness.rs:22-28 | only the lower bound is set |
| TriangleHypotheses.NewUpperGroundednessCount | src/inference/triangle/hypotheses/groundedness_count_boundedness.rs:30-36 | only the upper bound is set |
| TriangleHypotheses.GroundednessCountDescription | src/inference/triangle/hypotheses/groundedness_count_boundedness.rs:56-70 | names "ungrounded" triangles exactly when `grounded` is false; "and" exactly when both bounds are present |
| TriangleHypotheses.PipBoundednessPredicts | src/inference/triangle/hypotheses/pip_boundedness.rs:43-56 | holds exactly when the pip count lies within the bounds present |
| TriangleHypotheses.NewPipBoundedness | src/inference/triangle/hypotheses/pip_boundedness.rs:12-17 | both bounds are set |
| TriangleHypotheses.ExactlyPips | src/inference/triangle/hypotheses/pip_boundedness.rs:19-24 | both bounds equal n, and it holds exactly for pip count n |
| TriangleHypotheses.AtLeastPips | src/inference/triangle/hypotheses/pip_boundedness.rs:26-31 | only the lower bound is set |
| TriangleHypotheses.AtMostPips | src/inference/triangle/hypotheses/pip_boundedness.rs:33-38 | only the upper bound is set |
| TriangleHypotheses.PipBoundednessDescription | src/inference/triangle/hypotheses/pip_boundedness.rs:58-78 | equal bounds give "is exactly n"; otherwise "and" exactly when both bounds are present |
| TriangleHypotheses.NewPipParity | src/inference/triangle/hypotheses/pip_parity.rs:10-18 | stores the modulus; a positive modulus accepts exactly the pip counts that are its multiples |
| TriangleHypotheses.PipParityPredicts | src/inference/triangle/hypotheses/pip_parity.rs:16-18 | with a positive modulus, holds exactly when the pip count is a multiple of it |
| TriangleHypotheses.PipParityFollowsPipCount | src/inference/triangle/hypotheses/pip_parity.rs:16-18 | equal pip counts get equal verdicts, and modulus 1 accepts everything |
| TriangleHypotheses.PipParityDescription | src/inference/triangle/hypotheses/pip_parity.rs:20-22 | the pips topic, then one clause naming the modulus and no other number |
| TriangleHypotheses.PipParityDescriptionInjective | src/inference/triangle/hypotheses/pip_parity.rs:20-22 | two parity hypotheses have the same description exactly when their moduli are equal |
| TriangleHypotheses.BasicPredicts | src/inference/triangle/hypotheses/mod.rs:33-40 | each variant's verdict is its wrapped hypothesis' count-within-bounds test |
| TriangleHypotheses.BasicDescription | src/inference/triangle/hypotheses/mod.rs:41-46 | the description starts with the wrapped hypothesis' own topic (its colour or its size) and has "and" by the wrapped kind's rule; `FromKeepsMeaning` gives equality with the wrapped description |
| TriangleHypotheses.FromColorCount | src/inference/triangle/hypotheses/mod.rs:16-20 | the colour-count variant wrapping the same value |
| TriangleHypotheses.FromSizeCount | src/inference/triangle/hypotheses/mod.rs:22-26 | the size-count variant wrapping the same value |
| TriangleHypotheses.FromKeepsMeaning | src/inference/triangle/hypotheses/mod.rs:29-47 | the wrapped value's verdict and description pass through the dispatch unchanged |
| TriangleHypotheses.BasicHypothesisEquality | src/inference/triangle/hypotheses/mod.rs:10-26 | two wrapped values are equal exactly when they have the same variant and equal payloads |
| TriangleInference.RedYellowCounts | src/inference/triangle/mod.rs:148-150 | the red-yellow study has one red, one yellow, no blue and no green triangle |
| TriangleInference.ColorBoundednessAgreeing | src/inference/triangle.rs:196-207 | "at least one blue" and "at least one green" are the hypotheses saying the red-yellow study lacks the property |
| TriangleInference.ColorBoundednessPrediction | src/inference/triangle.rs:200-207 | the prior predicts that verdict with probability 1/2 |
| TriangleInference.ColorBoundednessUpdate | src/inference/triangle.rs:190-216 | after the verdict, blue and green have belief 1/2 each, and red and yellow 0 |
| TriangleInference.ColorCountAgreeing | src/inference/triangle/mod.rs:139-150 | the same two hypotheses agree, for the colour-count hypotheses |
| TriangleInference.ColorCountPrediction | src/inference/triangle/mod.rs:143-150 | the prior predicts that verdict with probability 1/2 |
| TriangleInference.ColorCountUpdate | src/inference/triangle/mod.rs:133-159 | blue and green end with belief 1/2 each, and red and yellow with 0 |
| StandardBasics.Shape | src/inference/triangle/hypotheses/standard_basics.rs:12-31 | the nine shapes per colour: exactly 1..3, at least 1..3, at most 0..2 |
| StandardBasics.ShapesDistinct | src/inference/triangle/hypotheses/standard_basics.rs:12-31 | the nine shapes are pairwise different |
| StandardBasics.ColorBlock | src/inference/triangle/hypotheses/standard_basics.rs:13-30 | nine colour-count hypotheses for one colour, in loop order |
| StandardBasics.SizeBlock | src/inference/triangle/hypotheses/standard_basics.rs:34-51 | the same nine shapes as size-count hypotheses for one size |
| StandardBasics.StandardBasicHypotheses | src/inference/triangle/hypotheses/standard_basics.rs:10-52 | 9 entries per colour then 9 per size, in order; pairwise distinct when the colours and sizes are |
| NumberGame.Studies | src/play.rs:50-51 | the studies are exactly 1..bound, in increasing order |
| NumberGame.DivisorStops | src/play.rs:55-59 | one divisibility hypothesis for every d with 1 <= d < (bound+1)/2, none repeated |
| NumberGame.Pairs | src/play.rs:62-63 | every (min, max) with min <= max <= bound, from the first min up to bound-1, none repeated |
| NumberGame.BoundStops | src/play.rs:61-68 | one boundedness hypothesis for every 2 <= min < bound and min <= max <= bound |
| NumberGame.Candidates | src/play.rs:76-78 | every (divisor, min, max) the join loops visit |
| NumberGame.MultiplesChainMembers | src/play.rs:79-82 | the products i·d for i from `first` to `last`, taken while at most `limit`, are exactly the multiples of d up to `limit` whose quotient lies between `first` and `last` |
| NumberGame.MultiplesUpTo | src/play.rs:79-82 | the chain with the limit the program evidently meant, the unincremented bound, holds exactly the multiples of the divisor among the studies 1..bound |
| NumberGame.MultiplesAsWritten | src/play.rs:79-82 | the chain as the code runs it, after the bound was incremented, holds the multiples up to bound+1 whose quotient is at most bound, so bound+1 itself when d divides it |
| NumberGame.Range | src/play.rs:83 | collecting the range one number at a time from min gives exactly the numbers from min to max, none when min > max |
| NumberGame.ToHypothesisInjective | src/play.rs:102-116 | distinct joins give distinct hypotheses |
| NumberGame.Step | src/play.rs:85-118 | one candidate: AND, then OR; each admitted join's set is new, differs from both parts' sets, and is recorded as seen |
| NumberGame.FoldJoins | src/play.rs:75-121 | over all candidates: the admitted joins' sets are new and pairwise different; each differs from both parts; every candidate's AND and OR were either admitted or already seen |
| NumberGame.HypothesisSpace | src/play.rs:53-121 | pairwise distinct; contains exactly the divisors, ranges and admitted joins described above |
| NumberGame.JoinsDistinct | src/play.rs:75-121 | the admitted joins are pairwise distinct |
| NumberGame.JoinedHypotheses | src/play.rs:102-116 | the join list maps to the AND/OR hypotheses one to one |
| NumberGame.BoundStopsExactly | src/play.rs:61-68 | the boundedness entries are exactly the ranges listed |
| NumberGame.DivisorExtension | src/play.rs:55-59 | over 1..bound, a divisibility hypothesis accepts exactly the corrected multiples |
| NumberGame.RangeExtension | src/play.rs:61-68 | over 1..bound, a boundedness hypothesis accepts exactly its range |
| NumberGame.JoinExtension | src/play.rs:85-117 | with corrected multiples, a join's set is exactly what the joined hypothesis accepts over 1..bound |
| NumberGame.JoinsAreInformative | src/play.rs:99-117 | with corrected multiples, each admitted join accepts different studies than each of its parts, and no two joins accept the same studies |
| NumberGame.SpacePriorIsUniform | src/play.rs:123 | for bound >= 3 the space is nonempty, its ignorance prior sums to 1, and it stores every hypothesis |
| NumberGame.StepAdmits | src/play.rs:99-117 | a join whose set is new and differs from both parts is admitted |
| NumberGame.AdmittedWhenNew | src/play.rs:75-121 | a join whose set differs from both parts and from every earlier candidate's join sets is admitted by the fold |
| NumberGame.AsWrittenAdmitsRedundantJoin | src/play.rs:79-107 | with bound 5, the code admits "divisible by 2 and between 2 and 4", which accepts the same studies as "divisible by 2" |
| NumberGame.SameAsDivisibility | src/play.rs:79-107 | with corrected multiples, that join's set equals divisibility by 2's set |
| NumberGame.CorrectedRejectsRedundantJoin | src/play.rs:79-107 | with corrected multiples, that join is not admitted |
| Sessions.Replay | src/play.rs:166 | after a run of verdicts, the survivors are exactly the hypotheses that agree with every verdict, and they stay positive |
| Sessions.ReplayStaysUniform | src/play.rs:123-166 | from a uniform prior, after any verdicts each of the k survivors has belief 1/k |
| Sessions.Play | src/play.rs:126-171 | a session infers only a stored hypothesis; when indifferent, it names a subset of the stored ones; it has no question exactly when there are no studies and it is not certain |
| Sessions.TruthSurvives | src/play.rs:126-171 | a hypothesis that agrees with every answer is never ruled out: it is the one inferred, or among those it is indifferent between |
| Sessions.SessionEnds | src/play.rs:126-171 | for any player, whether or not their criterion is one of the hypotheses: when only separating questions have value and there are studies, a session over n hypotheses ends within n-1 questions, inferring or indifferent |
| Sessions.AskingShrinks | src/play.rs:130-166 | a round that asks a separating question goes on, one round fewer, from beliefs with fewer hypotheses |
| Sessions.AnyAnswerRulesOut | src/play.rs:166 | whatever the answer, a question separating two stored hypotheses rules out at least one of them, and at least two were stored |
| Sessions.PlayStops | src/play.rs:127-140 | a round that is certain, or whose best question is worth nothing, ends the session inferring or indifferent |
| Sessions.PlayAsks | src/play.rs:130-166 | a round that asks goes on from the beliefs updated on the answer, with one round fewer |
| Sessions.AskingRulesOut | src/play.rs:166 | a separating question answered truthfully keeps the truthful hypothesis and rules out at least one other |
| Display.LastSpace | src/display.rs:7-8 | the position of the last space, or nothing when there is no space |
| Display.SplitIndex | src/display.rs:6-10 | the cut lies just after the last space among the first 79 characters, or at 79 when there is none |
| Display.Wrapln | src/display.rs:1-16 | the emitted lines concatenate to the input, and each has at most 79 characters |
| Display.WrapRestores | src/display.rs:5-14 | concatenating the lines reproduces the input exactly |
| Display.WrapFits | src/display.rs:6-14 | every line, the last included, has at most 79 characters, and every line but the last is nonempty |
| Display.ShortMessage | src/display.rs:6-14 | an input of at most 79 characters is one line, unchanged |
| Display.FirstLine | src/display.rs:7-9 | the first line ends with the last space among the first 79 characters, or is exactly those 79 characters |

## Left out

- The entropy and the value of information are not modelled. They use
  floating-point `log2`, for which there is no exact real counterpart. The
  searches and the session take the value of information as an abstract
  score `voi`. `Sessions.SessionEnds` assumes that a question with
  nonzero value separates two stored hypotheses, as an expected entropy
  reduction does, and that there is at least one study (the `unwrap` case
  under Sessions.Play). The test comparing two values of information
  (src/inference.rs:255-262) goes with it.
- `factorize_on_system` (src/inference.rs:200-209) runs an external
  program, so it is left out.
- Floating point is modelled as exact `real`. `u16` and `usize` widths and
  overflow are not modelled. Numbers, bounds and counts are unbounded.
- Distributions.Updated: the original divides by a predicted mass of zero.
  When nothing agrees, the model gives an empty distribution, as the
  original does. The NaN case, agreeing hypotheses of total mass zero, is
  excluded by a precondition. Positive distributions never reach it.
- Distributions.IgnorancePrior over an empty list stores nothing, as the
  original does. The original's 1/0 is never stored.
- Distributions.CompletelyCertain: HashMap iteration order is not
  modelled. With one key it does not matter.
- Search.AnytimeBurningQuestion: the sampler `Study::sample` is not part of
  this model. It is a parameter `draw`, where `draw(i)` is the i-th draw.
- `Study::sample`, `size_count`, `groundedness_count`, `pip_count`,
  `Color::iter` and `Size::iter` are called but not defined in the files
  modelled. The counts are readings of a study. The colour and size lists
  are parameters of `StandardBasics.StandardBasicHypotheses`.
- StandardBasics.StandardBasicHypotheses leaves out the three pip-parity
  entries (standard_basics.rs:54-59). They call a two-argument
  `PipParityHypothesis::new` and a `BasicHypothesis::from` that the parity
  and dispatch files do not define, so the length is 9·colours + 9·sizes
  rather than that plus 3.
- NumberHypotheses.DivisibilityPredicts: takes a `Divisor`, a divisibility
  hypothesis with a positive divisor, so the `% 0` panic of
  src/inference.rs:32 is not modelled. The number game only builds
  divisors from 1.
- TriangleHypotheses.PipParityPredicts: requires a positive modulus, so the
  `% 0` panic of src/inference/triangle/hypotheses/pip_parity.rs:17 is not
  modelled.
- Descriptions are modelled as lists of clauses: the topic, "not less
  than", "not greater than", "is exactly", "divisible by" and "and". The
  `{:?}` and decimal rendering of the text is not modelled.
- `JoinedHypothesis` comes from a number-inference module that is not part
  of this model. It is modelled from its use in src/play.rs: a proposition
  that stands alone, or is joined to a second one by AND or OR.
- The number game's input loop, its prompts, argument parsing and printing
  (src/play.rs, src/play/mod.rs) are left out. The player's answers are a
  fixed criterion `truth`. The `src/play/triangle.rs` driver is a stub and
  is also left out.
- Sessions.Play: the original loop runs until it returns. The model counts
  rounds and ends with `OutOfRounds` when they run out. `Sessions.SessionEnds`
  shows that enough rounds are always available. With no studies, the
  original's `unwrap` would panic; the model returns `NoQuestion`.
- Display.Wrapln: the original slices UTF-8 bytes and would panic off a
  character boundary. Characters stand for bytes here, which matches ASCII
  input. Printing the lines is left out.
- `Display` impls, terminal colouring, shape strings and `pack_blocks` are
  left out as rendering.
- src/hypothesis_space.rs is not declared as a module of the program, so it
  is left out.

## Findings

| source | as written | input that shows it | evidently intended | confidence | as-written member | corrected member |
|---|---|---|---|---|---|---|
| src/play.rs:79-82 | after `bound += 1`, the multiples run up to the incremented bound, so bound+1 counts as a multiple when the divisor divides it | bound 5, divisor 2, range 2..4: the multiples are {2,4,6} and AND gives {2,4}, which differs from {2,4,6} and from {2,3,4}, so the join is admitted; yet over the studies 1..5 it accepts exactly what "divisible by 2" accepts | the multiples only among the studies 1..bound, so that a join is admitted only when it accepts different studies than both its parts | not executed | NumberGame.AsWrittenAdmitsRedundantJoin | NumberGame.JoinsAreInformative |
