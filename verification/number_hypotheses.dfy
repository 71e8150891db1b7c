/** The hypotheses of the number game, about a natural number (the study):
    divisibility, optional-lower/optional-upper bounds, and the conjunction of
    two hypotheses. Numbers are unbounded here; the original stores them in 16
    bits. */
module NumberHypotheses {
  import opened Wrappers
  import opened Bounds
  import opened Multiples

  /* ---------------------------------------------------------------------- */
  /* DivisibilityHypothesis                                                 */
  /* ---------------------------------------------------------------------- */

  datatype DivisibilityHypothesis = DivisibilityHypothesis(n: nat)

  /** A divisibility hypothesis that can be asked: the remainder by zero
      panics, so the divisor must be positive. */
  type Divisor = h: DivisibilityHypothesis | h.n > 0 witness DivisibilityHypothesis(1)

  /** `DivisibilityHypothesis::new`. */
  function NewDivisibility(n: nat): (h: DivisibilityHypothesis)
    ensures h.n == n
    ensures n > 0 ==> forall s: nat :: DivisibilityPredicts(h, s) <==> IsMultiple(s, n)
  {
    DivisibilityHypothesis(n)
  }

  /** The study is a multiple of the divisor. */
  function DivisibilityPredicts(h: Divisor, study: nat): (r: bool)
    ensures r <==> IsMultiple(study, h.n)
  {
    RemainderTest(study, h.n);
    study % h.n == 0
  }

  /** "it is divisible by n": one clause, naming the divisor and no other
      number. */
  function DivisibilityDescription(h: DivisibilityHypothesis): (cs: seq<Clause>)
    ensures |cs| == 1
    ensures forall k: nat :: DivisibleBy(k) in cs <==> k == h.n
  {
    [DivisibleBy(h.n)]
  }

  /** Different divisors are described differently. */
  lemma DivisibilityDescriptionInjective(a: DivisibilityHypothesis, b: DivisibilityHypothesis)
    ensures DivisibilityDescription(a) == DivisibilityDescription(b) <==> a == b
  {
    if DivisibilityDescription(a) == DivisibilityDescription(b) {
      assert DivisibleBy(a.n) in DivisibilityDescription(b);
    }
  }

  /** Every multiple of the divisor has the property, and 1 divides
      everything. */
  lemma DivisibilityAcceptsMultiples(h: Divisor, k: nat)
    ensures DivisibilityPredicts(h, k * h.n)
    ensures DivisibilityPredicts(DivisibilityHypothesis(1), k)
  {
    ScaledIsMultiple(k, h.n);
  }

  /** A positive number smaller than the divisor never has the property. */
  lemma DivisibilityRejectsSmaller(h: Divisor, study: nat)
    requires 0 < study < h.n
    ensures !DivisibilityPredicts(h, study)
  {
  }

  /* ---------------------------------------------------------------------- */
  /* BoundednessHypothesis                                                  */
  /* ---------------------------------------------------------------------- */

  datatype BoundednessHypothesis = BoundednessHypothesis(bounds: Interval)

  /** `BoundednessHypothesis::new`: both bounds. */
  function NewBoundedness(lower: nat, upper: nat): (h: BoundednessHypothesis)
    ensures h.bounds.lower == Some(lower) && h.bounds.upper == Some(upper)
    ensures forall s: nat :: BoundednessPredicts(h, s) <==> lower <= s <= upper
  {
    BoundednessHypothesis(Between(lower, upper))
  }

  /** `BoundednessHypothesis::new_lower`: no upper bound. */
  function NewLowerBoundedness(lower: nat): (h: BoundednessHypothesis)
    ensures h.bounds.lower == Some(lower) && h.bounds.upper.None?
    ensures forall s: nat :: BoundednessPredicts(h, s) <==> lower <= s
  {
    BoundednessHypothesis(AtLeast(lower))
  }

  /** `BoundednessHypothesis::new_upper`: no lower bound. */
  function NewUpperBoundedness(upper: nat): (h: BoundednessHypothesis)
    ensures h.bounds.lower.None? && h.bounds.upper == Some(upper)
    ensures forall s: nat :: BoundednessPredicts(h, s) <==> s <= upper
  {
    BoundednessHypothesis(AtMost(upper))
  }

  /** The study lies within the bounds that are present. */
  function BoundednessPredicts(h: BoundednessHypothesis, study: nat): (r: bool)
    ensures r <==> Within(h.bounds, study)
  {
    Admits(h.bounds, study)
  }

  /** "it is not less than a and it is not greater than b", with "and"
      exactly when both bounds are present. */
  function BoundednessDescription(h: BoundednessHypothesis): (cs: seq<Clause>)
    ensures Conjunction in cs <==> h.bounds.lower.Some? && h.bounds.upper.Some?
    ensures forall k: nat :: NotLessThan(k) in cs <==> h.bounds.lower == Some(k)
    ensures forall k: nat :: NotGreaterThan(k) in cs <==> h.bounds.upper == Some(k)
  {
    BoundClauses(h.bounds)
  }

  /* ---------------------------------------------------------------------- */
  /* ConjunctiveHypothesis                                                  */
  /* ---------------------------------------------------------------------- */

  /** Two hypotheses of possibly different kinds, both of which must hold. */
  datatype ConjunctiveHypothesis<H, I> = ConjunctiveHypothesis(thisPart: H, thatPart: I)

  /** The conjunction holds exactly when both parts hold; each part is judged
      by its own predicate. */
  function ConjunctivePredicts<H, I>(c: ConjunctiveHypothesis<H, I>, thisPredicts: (H, nat) -> bool,
                                     thatPredicts: (I, nat) -> bool, study: nat): (r: bool)
    ensures r ==> thisPredicts(c.thisPart, study)
    ensures r ==> thatPredicts(c.thatPart, study)
    ensures thisPredicts(c.thisPart, study) && thatPredicts(c.thatPart, study) ==> r
  {
    thisPredicts(c.thisPart, study) && thatPredicts(c.thatPart, study)
  }

  /** The two descriptions joined by "and": every clause of the parts, and
      one "and" more than the parts hold together. */
  function ConjunctiveDescription(thisDescription: seq<Clause>, thatDescription: seq<Clause>): (cs: seq<Clause>)
    ensures |cs| == |thisDescription| + 1 + |thatDescription|
    ensures cs[..|thisDescription|] == thisDescription
    ensures cs[|thisDescription|] == Conjunction
    ensures cs[|thisDescription| + 1..] == thatDescription
    ensures multiset(cs)[Conjunction] ==
            multiset(thisDescription)[Conjunction] + multiset(thatDescription)[Conjunction] + 1
    ensures forall c :: c != Conjunction ==>
            multiset(cs)[c] == multiset(thisDescription)[c] + multiset(thatDescription)[c]
  {
    var cs := thisDescription + [Conjunction] + thatDescription;
    assert multiset(cs) == multiset(thisDescription) + multiset{Conjunction} + multiset(thatDescription);
    cs
  }

  /** Knowing how long the first description is, the joined description gives
      back both parts. */
  lemma ConjunctiveDescriptionSplits(a: seq<Clause>, b: seq<Clause>, a': seq<Clause>, b': seq<Clause>)
    requires |a| == |a'|
    ensures ConjunctiveDescription(a, b) == ConjunctiveDescription(a', b') <==> a == a' && b == b'
  {
    if ConjunctiveDescription(a, b) == ConjunctiveDescription(a', b') {
      var cs := ConjunctiveDescription(a, b);
      assert a == cs[..|a|] == a';
      assert b == cs[|a| + 1..] == b';
    }
  }

  /** The numbers among `studies` that the predicate accepts. */
  ghost function Extension<H>(h: H, predicts: (H, nat) -> bool, studies: set<nat>): (e: set<nat>)
    ensures e <= studies
  {
    set s | s in studies && predicts(h, s)
  }

  /** A conjunction's extension is the intersection of its parts'. */
  lemma ConjunctiveExtension<H, I>(c: ConjunctiveHypothesis<H, I>, thisPredicts: (H, nat) -> bool,
                                   thatPredicts: (I, nat) -> bool, studies: set<nat>)
    ensures Extension(c, (c', s) => ConjunctivePredicts(c', thisPredicts, thatPredicts, s), studies)
            == Extension(c.thisPart, thisPredicts, studies) * Extension(c.thatPart, thatPredicts, studies)
  {
  }
}
