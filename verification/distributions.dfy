/** The belief engine: a finite map from hypothesis to probability, generic over
    the hypothesis type `H` and the subject type `S`. The `Hypothesis` trait of
    the original becomes a predicate `predicts: (H, S) -> bool` handed to every
    operation that needs to evaluate hypotheses. Probabilities are exact reals;
    every operation returns a new distribution and never changes its argument. */
module Distributions {
  import opened Wrappers
  import opened Collections

  /* ---------------------------------------------------------------------- */
  /* Mass of a set of keys                                                  */
  /* ---------------------------------------------------------------------- */

  /** Sum of the probabilities that `m` stores for `keys`, in no particular
      order (the sum does not depend on it, see `MassRemove`). */
  ghost function Mass<H>(m: map<H, real>, keys: set<H>): real
    requires keys <= m.Keys
    decreases keys
  {
    if keys == {} then 0.0
    else
      var h :| h in keys;
      m[h] + Mass(m, keys - {h})
  }

  /** Any key can be taken out of a mass first: the sum is order independent. */
  lemma {:induction false} MassRemove<H>(m: map<H, real>, keys: set<H>, h: H)
    requires keys <= m.Keys && h in keys
    ensures Mass(m, keys) == m[h] + Mass(m, keys - {h})
    decreases keys
  {
    var x :| x in keys && Mass(m, keys) == m[x] + Mass(m, keys - {x});
    if x != h {
      MassRemove(m, keys - {x}, h);
      MassRemove(m, keys - {h}, x);
      assert keys - {x} - {h} == keys - {h} - {x};
    }
  }

  /** Mass is additive over disjoint sets of keys. */
  lemma {:induction false} MassUnion<H>(m: map<H, real>, a: set<H>, b: set<H>)
    requires a <= m.Keys && b <= m.Keys && a !! b
    ensures Mass(m, a + b) == Mass(m, a) + Mass(m, b)
    decreases a
  {
    if a == {} {
      assert a + b == b;
    } else {
      var h :| h in a;
      MassRemove(m, a + b, h);
      MassRemove(m, a, h);
      assert (a + b) - {h} == (a - {h}) + b;
      MassUnion(m, a - {h}, b);
    }
  }

  /** Dividing every stored probability by `c` divides the mass by `c`. */
  lemma {:induction false} MassDivided<H>(m: map<H, real>, m': map<H, real>, keys: set<H>, c: real)
    requires keys <= m.Keys && keys <= m'.Keys && c != 0.0
    requires forall h :: h in keys ==> m'[h] == m[h] / c
    ensures Mass(m', keys) == Mass(m, keys) / c
    decreases keys
  {
    if keys != {} {
      var h :| h in keys;
      MassRemove(m, keys, h);
      MassRemove(m', keys, h);
      MassDivided(m, m', keys - {h}, c);
      DivisionDistributes(m[h], Mass(m, keys - {h}), c);
    }
  }

  lemma DivisionDistributes(x: real, y: real, c: real)
    requires c != 0.0
    ensures x / c + y / c == (x + y) / c
  {
  }

  /** Non-negative probabilities have a non-negative mass, and positive ones a
      positive mass as soon as there is a key. */
  lemma {:induction false} MassSign<H>(m: map<H, real>, keys: set<H>)
    requires keys <= m.Keys
    ensures (forall h :: h in keys ==> m[h] >= 0.0) ==> Mass(m, keys) >= 0.0
    ensures (forall h :: h in keys ==> m[h] > 0.0) && keys != {} ==> Mass(m, keys) > 0.0
    decreases keys
  {
    if keys != {} {
      var h :| h in keys;
      MassRemove(m, keys, h);
      MassSign(m, keys - {h});
    }
  }

  /** With non-negative probabilities, a subset never carries more mass. */
  lemma MassSubset<H>(m: map<H, real>, a: set<H>, b: set<H>)
    requires a <= b <= m.Keys
    ensures (forall h :: h in b ==> m[h] >= 0.0) ==> 0.0 <= Mass(m, a) <= Mass(m, b)
  {
    assert b == a + (b - a);
    MassUnion(m, a, b - a);
    MassSign(m, a);
    MassSign(m, b - a);
  }

  /** Equal probabilities `c` on every key give a mass of `|keys| * c`. */
  lemma {:induction false} MassConstant<H>(m: map<H, real>, keys: set<H>, c: real)
    requires keys <= m.Keys
    requires forall h :: h in keys ==> m[h] == c
    ensures Mass(m, keys) == |keys| as real * c
    decreases keys
  {
    if keys != {} {
      var h :| h in keys;
      MassRemove(m, keys, h);
      MassConstant(m, keys - {h}, c);
    }
  }

  /* ---------------------------------------------------------------------- */
  /* The distribution                                                       */
  /* ---------------------------------------------------------------------- */

  /** A belief distribution; absent hypotheses have probability 0. */
  datatype Distribution<H> = Distribution(backing: map<H, real>)

  /** The empty distribution (`Distribution::new`). */
  function Empty<H>(): (d: Distribution<H>)
    ensures |d.backing| == 0
  {
    Distribution(map[])
  }

  /** All the stored probability mass. */
  ghost function Total<H>(d: Distribution<H>): real {
    Mass(d.backing, d.backing.Keys)
  }

  ghost predicate NonNegative<H>(d: Distribution<H>) {
    forall h :: h in d.backing ==> d.backing[h] >= 0.0
  }

  /** Every stored hypothesis has a positive probability; the ignorance prior
      establishes this and updating keeps it. */
  ghost predicate Positive<H>(d: Distribution<H>) {
    forall h :: h in d.backing ==> d.backing[h] > 0.0
  }

  /** The stored probabilities form a probability distribution. */
  ghost predicate Normalised<H>(d: Distribution<H>) {
    NonNegative(d) && Total(d) == 1.0
  }

  /** Uniform prior: each listed hypothesis gets `1 / |hypotheses|`, counting
      repetitions in the length (a repeated hypothesis is stored once). An
      empty list stores nothing, so the division is never evaluated. */
  function IgnorancePrior<H>(hypotheses: seq<H>): (d: Distribution<H>)
    ensures d.backing.Keys == Elements(hypotheses)
    ensures Positive(d)
  {
    Distribution(map h | h in hypotheses :: 1.0 / |hypotheses| as real)
  }

  /** The probability of `h`, 0 when it is not stored. */
  function Belief<H>(d: Distribution<H>, h: H): (p: real)
    ensures NonNegative(d) ==> 0.0 <= p <= Total(d)
    ensures h !in d.backing ==> p == 0.0
  {
    if h in d.backing then
      MassSubset(d.backing, {h}, d.backing.Keys);
      MassRemove(d.backing, {h}, h);
      d.backing[h]
    else
      MassSign(d.backing, d.backing.Keys);
      0.0
  }

  /** Number of stored hypotheses. */
  function Len<H>(d: Distribution<H>): (n: nat)
    ensures n == 0 <==> d.backing == map[]
  {
    |d.backing|
  }

  /** The stored hypotheses, in no particular order. */
  method Hypotheses<H>(d: Distribution<H>) returns (hs: seq<H>)
    ensures |hs| == Len(d)
    ensures forall h :: h in hs <==> h in d.backing
    ensures Distinct(hs)
  {
    var rest := d.backing.Keys;
    hs := [];
    while rest != {}
      invariant rest <= d.backing.Keys
      invariant forall h :: h in hs <==> h in d.backing && h !in rest
      invariant Distinct(hs)
      decreases |rest|
    {
      var h :| h in rest;
      DistinctConcat(hs, [h]);
      hs := hs + [h];
      rest := rest - {h};
    }
    DistinctCardinality(hs);
    assert Elements(hs) == d.backing.Keys;
  }

  /** The hypothesis if exactly one is stored, otherwise none. */
  function CompletelyCertain<H>(d: Distribution<H>): (r: Option<H>)
    ensures r.Some? <==> |d.backing| == 1
    ensures r.Some? ==> d.backing.Keys == {r.value}
  {
    if |d.backing| != 1 then None
    else
      var h :| h in d.backing;
      assert d.backing.Keys == {h} by {
        assert |d.backing.Keys - {h}| == 0;
      }
      Some(h)
  }

  /** The stored hypotheses whose prediction on `s` is `verdict`. */
  ghost function Agreeing<H, S>(d: Distribution<H>, predicts: (H, S) -> bool, s: S, verdict: bool): (a: set<H>)
    ensures a <= d.backing.Keys
  {
    set h | h in d.backing && predicts(h, s) == verdict
  }

  /** The probability that `s` gets `verdict`: the mass of the agreeing
      hypotheses. */
  ghost function Predict<H, S>(d: Distribution<H>, predicts: (H, S) -> bool, s: S, verdict: bool): (p: real)
    ensures NonNegative(d) ==> 0.0 <= p <= Total(d)
  {
    var a := Agreeing(d, predicts, s, verdict);
    MassSubset(d.backing, a, d.backing.Keys);
    Mass(d.backing, a)
  }

  /** Bayesian conditioning with 0/1 likelihoods: keep the hypotheses that
      agree with `verdict` on `s` and divide each by `Predict`. When nothing
      agrees the result is empty; the original's division by a zero `Predict`
      with agreeing hypotheses of zero mass (a NaN) is excluded. */
  ghost function Updated<H, S>(d: Distribution<H>, predicts: (H, S) -> bool, s: S, verdict: bool): (r: Distribution<H>)
    requires Predict(d, predicts, s, verdict) != 0.0 || Agreeing(d, predicts, s, verdict) == {}
    ensures r.backing.Keys == Agreeing(d, predicts, s, verdict)
    ensures forall h :: h in r.backing ==> r.backing[h] * Predict(d, predicts, s, verdict) == d.backing[h]
    ensures r.backing != map[] ==> Total(r) == 1.0
  {
    var p := Predict(d, predicts, s, verdict);
    var a := Agreeing(d, predicts, s, verdict);
    if a == {} then
      Distribution(map[])
    else
      var r := Distribution(DividedMap(d.backing, a, p));
      assert Total(r) == 1.0 by {
        assert p == Mass(d.backing, a) && p != 0.0;
        SelfDivision(p);
      }
      r
  }

  /** The entries of `m` at `keys`, each divided by `c`. */
  function DividedMap<H>(m: map<H, real>, keys: set<H>, c: real): (m': map<H, real>)
    requires keys <= m.Keys && c != 0.0
    ensures m'.Keys == keys
    ensures forall h :: h in m' ==> m'[h] * c == m[h]
    ensures Mass(m', m'.Keys) == Mass(m, keys) / c
  {
    var m' := map h | h in keys :: m[h] / c;
    assert m'.Keys == keys;
    MassDivided(m, m', keys, c);
    assert forall h :: h in m' ==> m'[h] * c == m[h] by {
      forall h | h in m' ensures m'[h] * c == m[h] {
        DivideBack(m[h], c);
      }
    }
    m'
  }

  lemma SelfDivision(c: real)
    requires c != 0.0
    ensures c / c == 1.0
  {
  }

  lemma DivideBack(x: real, c: real)
    requires c != 0.0
    ensures (x / c) * c == x
  {
  }

  /* ---------------------------------------------------------------------- */
  /* Properties                                                             */
  /* ---------------------------------------------------------------------- */

  /** Over N hypotheses the ignorance prior is positive, believes each listed
      hypothesis 1/N and every other 0; it sums to 1 and stores N hypotheses
      exactly when the N are pairwise distinct. */
  lemma IgnorancePriorIsUniform<H>(hypotheses: seq<H>)
    requires |hypotheses| > 0
    ensures Positive(IgnorancePrior(hypotheses))
    ensures forall h :: Belief(IgnorancePrior(hypotheses), h) ==
                        if h in hypotheses then 1.0 / |hypotheses| as real else 0.0
    ensures Total(IgnorancePrior(hypotheses)) == 1.0 <==> Distinct(hypotheses)
    ensures Len(IgnorancePrior(hypotheses)) == |hypotheses| <==> Distinct(hypotheses)
  {
    var d := IgnorancePrior(hypotheses);
    var n := |hypotheses| as real;
    assert Positive(d) by {
      forall h | h in d.backing ensures d.backing[h] > 0.0 {
        assert d.backing[h] == 1.0 / n;
      }
    }
    forall h ensures Belief(d, h) == if h in hypotheses then 1.0 / n else 0.0 {
      if h in hypotheses {
        assert h in d.backing && d.backing[h] == 1.0 / n;
      }
    }
    IgnorancePriorTotal(hypotheses);
  }

  lemma IgnorancePriorTotal<H>(hypotheses: seq<H>)
    requires |hypotheses| > 0
    ensures Total(IgnorancePrior(hypotheses)) == 1.0 <==> Distinct(hypotheses)
    ensures Len(IgnorancePrior(hypotheses)) == |hypotheses| <==> Distinct(hypotheses)
  {
    TotalOfPrior(IgnorancePrior(hypotheses), hypotheses);
  }

  /* The lemmas about the ignorance prior are proved for a `d` known only to
     equal it, which keeps the concrete map out of the arithmetic. */

  lemma TotalOfPrior<H>(d: Distribution<H>, hypotheses: seq<H>)
    requires |hypotheses| > 0 && d == IgnorancePrior(hypotheses)
    ensures Total(d) == 1.0 <==> Distinct(hypotheses)
    ensures Len(d) == |hypotheses| <==> Distinct(hypotheses)
  {
    var c := PriorEntries(d, hypotheses);
    var k := |Elements(hypotheses)|;
    assert |d.backing.Keys| == k && Len(d) == k;
    MassConstant(d.backing, d.backing.Keys, c);
    assert Total(d) == k as real * c;
    DistinctCardinality(hypotheses);
    UnitFraction(k, |hypotheses|, c);
  }

  /** Every entry of the ignorance prior over N hypotheses is the same
      positive `c`, namely 1/N. */
  lemma PriorEntries<H>(d: Distribution<H>, hypotheses: seq<H>) returns (c: real)
    requires |hypotheses| > 0 && d == IgnorancePrior(hypotheses)
    ensures c == 1.0 / |hypotheses| as real && c > 0.0
    ensures forall h :: h in d.backing ==> d.backing[h] == c
  {
    c := 1.0 / |hypotheses| as real;
  }

  lemma UnitFraction(k: nat, n: nat, c: real)
    requires n > 0 && c == 1.0 / n as real
    ensures k as real * c == 1.0 <==> k == n
  {
    assert k as real * c == k as real / n as real;
  }

  /** The two verdicts split the stored mass. */
  lemma PredictComplement<H, S>(d: Distribution<H>, predicts: (H, S) -> bool, s: S)
    ensures Predict(d, predicts, s, true) + Predict(d, predicts, s, false) == Total(d)
  {
    var yes := Agreeing(d, predicts, s, true);
    var no := Agreeing(d, predicts, s, false);
    assert yes + no == d.backing.Keys;
    MassUnion(d.backing, yes, no);
  }

  /** A positive distribution can always be updated: `Predict` is zero only
      when no stored hypothesis agrees. */
  lemma PositiveUpdatable<H, S>(d: Distribution<H>, predicts: (H, S) -> bool, s: S, verdict: bool)
    requires Positive(d)
    ensures Predict(d, predicts, s, verdict) != 0.0 || Agreeing(d, predicts, s, verdict) == {}
    ensures Predict(d, predicts, s, verdict) == 0.0 <==> Agreeing(d, predicts, s, verdict) == {}
  {
    MassSign(d.backing, Agreeing(d, predicts, s, verdict));
  }

  /** Updating keeps every stored probability positive. */
  lemma UpdatedPositive<H, S>(d: Distribution<H>, predicts: (H, S) -> bool, s: S, verdict: bool)
    requires Positive(d)
    ensures Predict(d, predicts, s, verdict) != 0.0 || Agreeing(d, predicts, s, verdict) == {}
    ensures Positive(Updated(d, predicts, s, verdict))
  {
    PositiveUpdatable(d, predicts, s, verdict);
    var p := Predict(d, predicts, s, verdict);
    var r := Updated(d, predicts, s, verdict);
    forall h | h in r.backing ensures r.backing[h] > 0.0 {
      assert r.backing[h] * p == d.backing[h];
    }
  }

  /** `Updated` is Bayes' rule with likelihood 1 for agreeing hypotheses and
      0 for the others, for every hypothesis, stored or not. */
  lemma UpdatedIsBayesRule<H, S>(d: Distribution<H>, predicts: (H, S) -> bool, s: S, verdict: bool, h: H)
    requires Predict(d, predicts, s, verdict) != 0.0
    ensures Belief(Updated(d, predicts, s, verdict), h) ==
      Belief(d, h) * (if predicts(h, s) == verdict then 1.0 else 0.0) / Predict(d, predicts, s, verdict)
  {
    var p := Predict(d, predicts, s, verdict);
    var r := Updated(d, predicts, s, verdict);
    if h in r.backing {
      assert r.backing[h] * p == d.backing[h];
      assert r.backing[h] == d.backing[h] / p;
    }
  }

  /** Updating on a verdict every stored hypothesis already agrees with leaves a
      normalised distribution unchanged. */
  lemma UpdatedUnanimous<H, S>(d: Distribution<H>, predicts: (H, S) -> bool, s: S, verdict: bool)
    requires Normalised(d)
    requires forall h :: h in d.backing ==> predicts(h, s) == verdict
    ensures Predict(d, predicts, s, verdict) == 1.0
    ensures Updated(d, predicts, s, verdict) == d
  {
    assert Agreeing(d, predicts, s, verdict) == d.backing.Keys;
    var r := Updated(d, predicts, s, verdict);
    assert forall h :: h in r.backing ==> r.backing[h] == d.backing[h];
    assert r.backing == d.backing;
  }

  /** A completely certain normalised distribution believes its hypothesis
      with probability 1. */
  lemma CertaintyIsFullBelief<H>(d: Distribution<H>)
    requires Normalised(d) && CompletelyCertain(d).Some?
    ensures Belief(d, CompletelyCertain(d).value) == 1.0
  {
    var h := CompletelyCertain(d).value;
    MassRemove(d.backing, d.backing.Keys, h);
    assert d.backing.Keys - {h} == {};
  }

  /** Under the ignorance prior over N hypotheses, `Predict` is the fraction
      k/N of the hypotheses that agree. */
  lemma PredictIgnorancePrior<H, S>(hypotheses: seq<H>, predicts: (H, S) -> bool, s: S, verdict: bool)
    requires |hypotheses| > 0
    ensures Predict(IgnorancePrior(hypotheses), predicts, s, verdict) * |hypotheses| as real ==
            |Agreeing(IgnorancePrior(hypotheses), predicts, s, verdict)| as real
  {
    PredictOfPrior(IgnorancePrior(hypotheses), hypotheses, predicts, s, verdict);
  }

  lemma PredictOfPrior<H, S>(d: Distribution<H>, hypotheses: seq<H>, predicts: (H, S) -> bool, s: S, verdict: bool)
    requires |hypotheses| > 0 && d == IgnorancePrior(hypotheses)
    ensures Predict(d, predicts, s, verdict) * |hypotheses| as real == |Agreeing(d, predicts, s, verdict)| as real
  {
    var c := PriorEntries(d, hypotheses);
    PredictConstant(d, predicts, s, verdict, c);
    FractionTimes(Predict(d, predicts, s, verdict), |Agreeing(d, predicts, s, verdict)| as real, |hypotheses| as real);
  }

  /** Updating the ignorance prior leaves the ignorance prior over the
      agreeing hypotheses: each of the k survivors gets 1/k. */
  lemma UpdatedIgnorancePrior<H, S>(hypotheses: seq<H>, predicts: (H, S) -> bool, s: S, verdict: bool)
    requires |hypotheses| > 0
    ensures Predict(IgnorancePrior(hypotheses), predicts, s, verdict) != 0.0 ||
            Agreeing(IgnorancePrior(hypotheses), predicts, s, verdict) == {}
    ensures forall h :: h in Agreeing(IgnorancePrior(hypotheses), predicts, s, verdict) ==>
      Belief(Updated(IgnorancePrior(hypotheses), predicts, s, verdict), h)
        * |Agreeing(IgnorancePrior(hypotheses), predicts, s, verdict)| as real == 1.0
  {
    UpdatedOfPrior(IgnorancePrior(hypotheses), hypotheses, predicts, s, verdict);
  }

  lemma UpdatedOfPrior<H, S>(d: Distribution<H>, hypotheses: seq<H>, predicts: (H, S) -> bool, s: S, verdict: bool)
    requires |hypotheses| > 0 && d == IgnorancePrior(hypotheses)
    ensures Predict(d, predicts, s, verdict) != 0.0 || Agreeing(d, predicts, s, verdict) == {}
    ensures forall h :: h in Agreeing(d, predicts, s, verdict) ==>
      Belief(Updated(d, predicts, s, verdict), h) * |Agreeing(d, predicts, s, verdict)| as real == 1.0
  {
    var c := PriorEntries(d, hypotheses);
    UpdatedConstant(d, predicts, s, verdict, c);
  }

  /** When every agreeing hypothesis has the same probability c, `Predict` is
      k * c for k agreeing hypotheses. */
  lemma PredictConstant<H, S>(d: Distribution<H>, predicts: (H, S) -> bool, s: S, verdict: bool, c: real)
    requires c > 0.0
    requires forall h :: h in Agreeing(d, predicts, s, verdict) ==> d.backing[h] == c
    ensures Predict(d, predicts, s, verdict) == |Agreeing(d, predicts, s, verdict)| as real * c
    ensures Predict(d, predicts, s, verdict) != 0.0 || Agreeing(d, predicts, s, verdict) == {}
  {
    var a := Agreeing(d, predicts, s, verdict);
    MassConstant(d.backing, a, c);
    if a != {} {
      PositiveProduct(|a| as real, c);
    }
  }

  /** ... and updating then gives each of the k agreeing hypotheses 1/k. */
  lemma UpdatedConstant<H, S>(d: Distribution<H>, predicts: (H, S) -> bool, s: S, verdict: bool, c: real)
    requires c > 0.0
    requires forall h :: h in Agreeing(d, predicts, s, verdict) ==> d.backing[h] == c
    ensures Predict(d, predicts, s, verdict) != 0.0 || Agreeing(d, predicts, s, verdict) == {}
    ensures forall h :: h in Agreeing(d, predicts, s, verdict) ==>
      Belief(Updated(d, predicts, s, verdict), h) * |Agreeing(d, predicts, s, verdict)| as real == 1.0
  {
    PredictConstant(d, predicts, s, verdict, c);
    forall h | h in Agreeing(d, predicts, s, verdict)
      ensures Belief(Updated(d, predicts, s, verdict), h) * |Agreeing(d, predicts, s, verdict)| as real == 1.0
    {
      UpdatedConstantEntry(d, predicts, s, verdict, c, h);
    }
  }

  lemma UpdatedConstantEntry<H, S>(d: Distribution<H>, predicts: (H, S) -> bool, s: S, verdict: bool, c: real, h: H)
    requires c > 0.0
    requires Predict(d, predicts, s, verdict) == |Agreeing(d, predicts, s, verdict)| as real * c
    requires h in Agreeing(d, predicts, s, verdict) && d.backing[h] == c
    ensures Predict(d, predicts, s, verdict) != 0.0
    ensures Belief(Updated(d, predicts, s, verdict), h) * |Agreeing(d, predicts, s, verdict)| as real == 1.0
  {
    var k := |Agreeing(d, predicts, s, verdict)| as real;
    PositiveProduct(k, c);
    var p := Predict(d, predicts, s, verdict);
    var r := Updated(d, predicts, s, verdict);
    CancelFactor(r.backing[h], p, k, c);
  }

  lemma PositiveProduct(k: real, c: real)
    requires k > 0.0 && c > 0.0
    ensures k * c > 0.0
  {
  }

  /** x * p == c with p == k * c and c nonzero gives x * k == 1. */
  lemma CancelFactor(x: real, p: real, k: real, c: real)
    requires c != 0.0 && p == k * c && x * p == c
    ensures x * k == 1.0
  {
    assert (x * k) * c == 1.0 * c;
  }

  lemma FractionTimes(p: real, k: real, n: real)
    requires n > 0.0 && p == k * (1.0 / n)
    ensures p * n == k
  {
  }
}
