/** A game session: start from the ignorance prior over the hypothesis space,
    then, round by round, stop when one hypothesis is left, stop when the most
    informative question is worth nothing, or ask it and update on the answer.
    The player's answers come from a fixed criterion `truth`; the value of
    information is an abstract score `voi`. */
module Sessions {
  import opened Wrappers
  import opened Collections
  import opened Distributions
  import opened Search

  /** How a session ends. */
  datatype Outcome<H> =
    | Inferred(hypothesis: H)         // complete certainty
    | Indifferent(remaining: set<H>)  // the best question is worth nothing
    | NoQuestion                      // there are no studies to ask about
    | OutOfRounds                     // the rounds allowed to the model ran out

  /** `h` agrees with `truth` on every study in `ss`. */
  ghost predicate Consistent<H, S>(predicts: (H, S) -> bool, truth: S -> bool, h: H, ss: seq<S>) {
    forall i :: 0 <= i < |ss| ==> predicts(h, ss[i]) == truth(ss[i])
  }

  /** The beliefs after updating on the studies `asked`, in order, each with
      the verdict `truth` gives it. The survivors are exactly the stored
      hypotheses that agree with every verdict, and they stay positive. */
  ghost function Replay<H(!new), S>(d: Distribution<H>, predicts: (H, S) -> bool, truth: S -> bool, asked: seq<S>)
    : (r: Distribution<H>)
    requires Positive(d)
    ensures Positive(r)
    ensures forall h :: h in r.backing <==> h in d.backing && Consistent(predicts, truth, h, asked)
    decreases |asked|
  {
    if |asked| == 0 then d
    else
      var s := asked[0];
      UpdatedPositive(d, predicts, s, truth(s));
      var next := Updated(d, predicts, s, truth(s));
      var r := Replay(next, predicts, truth, asked[1..]);
      forall h ensures Consistent(predicts, truth, h, asked) <==>
                       predicts(h, s) == truth(s) && Consistent(predicts, truth, h, asked[1..])
      {
        if predicts(h, s) == truth(s) && Consistent(predicts, truth, h, asked[1..]) {
          forall i | 0 <= i < |asked| ensures predicts(h, asked[i]) == truth(asked[i]) {
            if i > 0 {
              assert asked[i] == asked[1..][i - 1];
            }
          }
        }
        if Consistent(predicts, truth, h, asked) {
          forall i | 0 <= i < |asked| - 1 ensures predicts(h, asked[1..][i]) == truth(asked[1..][i]) {
            assert asked[1..][i] == asked[i + 1];
          }
        }
      }
      r
  }

  /** Replaying a uniform distribution on at least one study leaves a
      uniform distribution: each of the k survivors is believed 1/k. */
  lemma {:induction false} ReplayStaysUniform<H(!new), S>(d: Distribution<H>, predicts: (H, S) -> bool,
                                                         truth: S -> bool, asked: seq<S>, c: real)
    requires c > 0.0
    requires forall h :: h in d.backing ==> d.backing[h] == c
    requires |asked| > 0
    ensures Positive(d)
    ensures forall h :: h in Replay(d, predicts, truth, asked).backing ==>
      Replay(d, predicts, truth, asked).backing[h] == 1.0 / |Replay(d, predicts, truth, asked).backing| as real
    decreases |asked|
  {
    var s := asked[0];
    UpdatedUniform(d, predicts, s, truth(s), c);
    var next := Updated(d, predicts, s, truth(s));
    if |asked| > 1 && next.backing != map[] {
      var c' := 1.0 / |next.backing| as real;
      ReplayStaysUniform(next, predicts, truth, asked[1..], c');
    }
  }

  /** One update of a uniform distribution is uniform over the survivors. */
  lemma UpdatedUniform<H, S>(d: Distribution<H>, predicts: (H, S) -> bool, s: S, verdict: bool, c: real)
    requires c > 0.0
    requires forall h :: h in d.backing ==> d.backing[h] == c
    ensures Predict(d, predicts, s, verdict) != 0.0 || Agreeing(d, predicts, s, verdict) == {}
    ensures forall h :: h in Updated(d, predicts, s, verdict).backing ==>
      Updated(d, predicts, s, verdict).backing[h] == 1.0 / |Updated(d, predicts, s, verdict).backing| as real
  {
    PredictConstant(d, predicts, s, verdict, c);
    forall h | h in Updated(d, predicts, s, verdict).backing
      ensures Updated(d, predicts, s, verdict).backing[h] == 1.0 / |Updated(d, predicts, s, verdict).backing| as real
    {
      UniformSurvivor(d, predicts, s, verdict, c, h);
    }
  }

  /** A survivor of the update holds 1/k for k survivors. */
  lemma UniformSurvivor<H, S>(d: Distribution<H>, predicts: (H, S) -> bool, s: S, verdict: bool, c: real, h: H)
    requires c > 0.0
    requires Predict(d, predicts, s, verdict) == |Agreeing(d, predicts, s, verdict)| as real * c
    requires h in Agreeing(d, predicts, s, verdict) && d.backing[h] == c
    ensures Predict(d, predicts, s, verdict) != 0.0
    ensures Updated(d, predicts, s, verdict).backing[h] == 1.0 / |Updated(d, predicts, s, verdict).backing| as real
  {
    UpdatedConstantEntry(d, predicts, s, verdict, c, h);
    UniformEntry(Updated(d, predicts, s, verdict), Agreeing(d, predicts, s, verdict), h);
  }

  lemma UniformEntry<H>(d: Distribution<H>, a: set<H>, h: H)
    requires d.backing.Keys == a && h in a
    requires Belief(d, h) * |a| as real == 1.0
    ensures d.backing[h] == 1.0 / |d.backing| as real
  {
    assert |d.backing| == |a|;
    Reciprocal(d.backing[h], |a|);
  }

  /** x * n == 1 means x is 1/n. */
  lemma Reciprocal(x: real, n: nat)
    requires n > 0
    ensures x * n as real == 1.0 <==> x == 1.0 / n as real
  {
  }

  /** The question `play` asks: the first study with the largest value of
      information. */
  ghost function Question<H, S>(d: Distribution<H>, studies: seq<S>, voi: (Distribution<H>, S) -> real): (q: S)
    requires |studies| > 0
    ensures q in studies
  {
    studies[FirstBest(s => voi(d, s), studies)]
  }

  /** One session of at most `rounds` questions (`play`): stop on complete
      certainty; otherwise pick the study with the largest value of
      information (the first one, as `burning_question` does) and stop if that
      value is zero; otherwise ask, and update on the answer. */
  ghost function Play<H, S>(d: Distribution<H>, predicts: (H, S) -> bool, studies: seq<S>,
                            voi: (Distribution<H>, S) -> real, truth: S -> bool, rounds: nat): (o: Outcome<H>)
    requires Positive(d)
    ensures o.Inferred? ==> o.hypothesis in d.backing
    ensures o.Indifferent? ==> o.remaining <= d.backing.Keys
    ensures o.NoQuestion? <==> |studies| == 0 && CompletelyCertain(d).None?
    decreases rounds
  {
    match CompletelyCertain(d)
    case Some(h) => Inferred(h)
    case None =>
      if |studies| == 0 then NoQuestion
      else
        var study := Question(d, studies, voi);
        if voi(d, study) == 0.0 then Indifferent(d.backing.Keys)
        else if rounds == 0 then OutOfRounds
        else
          UpdatedPositive(d, predicts, study, truth(study));
          Play(Updated(d, predicts, study, truth(study)), predicts, studies, voi, truth, rounds - 1)
  }

  /** A hypothesis that agrees with the player on every study is never ruled
      out: if the session infers a hypothesis it is this one, and if it ends
      indifferent this one is among the remaining. */
  lemma {:induction false} TruthSurvives<H, S>(d: Distribution<H>, predicts: (H, S) -> bool, studies: seq<S>,
                                               voi: (Distribution<H>, S) -> real, truth: S -> bool,
                                               rounds: nat, truthful: H)
    requires Positive(d)
    requires truthful in d.backing
    requires Consistent(predicts, truth, truthful, studies)
    ensures Play(d, predicts, studies, voi, truth, rounds).Inferred? ==>
      Play(d, predicts, studies, voi, truth, rounds).hypothesis == truthful
    ensures Play(d, predicts, studies, voi, truth, rounds).Indifferent? ==>
      truthful in Play(d, predicts, studies, voi, truth, rounds).remaining
    decreases rounds
  {
    if CompletelyCertain(d).None? && |studies| > 0 {
      var study := Question(d, studies, voi);
      if voi(d, study) != 0.0 && rounds > 0 {
        UpdatedPositive(d, predicts, study, truth(study));
        assert truthful in Agreeing(d, predicts, study, truth(study));
        TruthSurvives(Updated(d, predicts, study, truth(study)), predicts, studies, voi, truth, rounds - 1, truthful);
      }
    }
  }

  lemma StrictSubsetSmaller<T>(a: set<T>, b: set<T>)
    requires a < b
    ensures |a| < |b|
  {
    assert !(b <= a);
    assert exists x :: x in b && x !in a;
    var x :| x in b && x !in a;
    assert b == a + (b - a);
    assert |b - a| >= |{x}|;
  }

  /** The study separates two stored hypotheses. */
  ghost predicate Splits<H, S>(d: Distribution<H>, predicts: (H, S) -> bool, s: S) {
    exists h, k :: h in d.backing && k in d.backing && predicts(h, s) != predicts(k, s)
  }

  /** When a question has value only if it separates two stored hypotheses
      (as an expected entropy reduction does), every asked question rules out
      at least one hypothesis, so a session over n hypotheses ends within
      n - 1 questions, inferring or indifferent, whatever criterion the player
      answers by (one of the hypotheses or not). */
  lemma {:induction false} SessionEnds<H, S>(d: Distribution<H>, predicts: (H, S) -> bool, studies: seq<S>,
                                             voi: (Distribution<H>, S) -> real, truth: S -> bool,
                                             rounds: nat)
    requires Positive(d)
    requires |studies| > 0
    requires forall e: Distribution<H>, s {:trigger Splits(e, predicts, s)} :: voi(e, s) != 0.0 ==> Splits(e, predicts, s)
    requires rounds + 1 >= |d.backing|
    ensures !Play(d, predicts, studies, voi, truth, rounds).NoQuestion?
    ensures !Play(d, predicts, studies, voi, truth, rounds).OutOfRounds?
    decreases rounds
  {
    if CompletelyCertain(d).None? && voi(d, Question(d, studies, voi)) != 0.0 {
      var study := Question(d, studies, voi);
      assert Splits(d, predicts, study);
      var next := AskingShrinks(d, predicts, studies, voi, truth, rounds);
      SessionEnds(next, predicts, studies, voi, truth, rounds - 1);
    } else {
      PlayStops(d, predicts, studies, voi, truth, rounds);
    }
  }

  /** A round that asks a separating question continues, one round fewer,
      from beliefs with fewer hypotheses. */
  lemma AskingShrinks<H, S>(d: Distribution<H>, predicts: (H, S) -> bool, studies: seq<S>,
                            voi: (Distribution<H>, S) -> real, truth: S -> bool, rounds: nat)
    returns (next: Distribution<H>)
    requires Positive(d) && CompletelyCertain(d).None? && |studies| > 0
    requires voi(d, Question(d, studies, voi)) != 0.0
    requires Splits(d, predicts, Question(d, studies, voi))
    requires rounds + 1 >= |d.backing|
    ensures rounds > 0 && Positive(next) && rounds - 1 + 1 >= |next.backing|
    ensures Play(d, predicts, studies, voi, truth, rounds) == Play(next, predicts, studies, voi, truth, rounds - 1)
  {
    var study := Question(d, studies, voi);
    AnyAnswerRulesOut(d, predicts, study, truth(study));
    PlayAsks(d, predicts, studies, voi, truth, rounds);
    next := Updated(d, predicts, study, truth(study));
  }

  /** A round that does not ask: the session ends inferring or indifferent. */
  lemma PlayStops<H, S>(d: Distribution<H>, predicts: (H, S) -> bool, studies: seq<S>,
                        voi: (Distribution<H>, S) -> real, truth: S -> bool, rounds: nat)
    requires Positive(d) && |studies| > 0
    requires CompletelyCertain(d).Some? || voi(d, Question(d, studies, voi)) == 0.0
    ensures Play(d, predicts, studies, voi, truth, rounds).Inferred? ||
            Play(d, predicts, studies, voi, truth, rounds).Indifferent?
  {
  }

  /** A round that asks: the session goes on from the updated beliefs. */
  lemma PlayAsks<H, S>(d: Distribution<H>, predicts: (H, S) -> bool, studies: seq<S>,
                       voi: (Distribution<H>, S) -> real, truth: S -> bool, rounds: nat)
    requires Positive(d) && CompletelyCertain(d).None? && |studies| > 0 && rounds > 0
    requires voi(d, Question(d, studies, voi)) != 0.0
    ensures Predict(d, predicts, Question(d, studies, voi), truth(Question(d, studies, voi))) != 0.0 ||
            Agreeing(d, predicts, Question(d, studies, voi), truth(Question(d, studies, voi))) == {}
    ensures Positive(Updated(d, predicts, Question(d, studies, voi), truth(Question(d, studies, voi))))
    ensures Play(d, predicts, studies, voi, truth, rounds) ==
      Play(Updated(d, predicts, Question(d, studies, voi), truth(Question(d, studies, voi))),
           predicts, studies, voi, truth, rounds - 1)
  {
    UpdatedPositive(d, predicts, Question(d, studies, voi), truth(Question(d, studies, voi)));
  }

  /** Asking a question that separates two stored hypotheses, with the
      answer `truthful` gives, keeps `truthful` and rules out another. */
  lemma AskingRulesOut<H, S>(d: Distribution<H>, predicts: (H, S) -> bool, s: S, verdict: bool, truthful: H)
    requires Positive(d)
    requires truthful in d.backing && predicts(truthful, s) == verdict
    requires Splits(d, predicts, s)
    ensures Predict(d, predicts, s, verdict) != 0.0 || Agreeing(d, predicts, s, verdict) == {}
    ensures Positive(Updated(d, predicts, s, verdict))
    ensures truthful in Updated(d, predicts, s, verdict).backing
    ensures |Updated(d, predicts, s, verdict).backing| < |d.backing|
    ensures |d.backing| >= 2
  {
    AnyAnswerRulesOut(d, predicts, s, verdict);
    assert truthful in Agreeing(d, predicts, s, verdict);
  }

  /** Whatever the answer, a question that separates two stored hypotheses
      rules out at least one of them, and there were at least two. */
  lemma AnyAnswerRulesOut<H, S>(d: Distribution<H>, predicts: (H, S) -> bool, s: S, verdict: bool)
    requires Positive(d)
    requires Splits(d, predicts, s)
    ensures Predict(d, predicts, s, verdict) != 0.0 || Agreeing(d, predicts, s, verdict) == {}
    ensures Positive(Updated(d, predicts, s, verdict))
    ensures |Updated(d, predicts, s, verdict).backing| < |d.backing|
    ensures |d.backing| >= 2
  {
    UpdatedPositive(d, predicts, s, verdict);
    var a := Agreeing(d, predicts, s, verdict);
    var h: H, k: H :| h in d.backing && k in d.backing && predicts(h, s) != predicts(k, s);
    assert a < d.backing.Keys by {
      assert h !in a || k !in a;
    }
    StrictSubsetSmaller(a, d.backing.Keys);
    assert |d.backing| >= 2 by {
      var pair := {h, k};
      assert |pair| == 2;
      assert d.backing.Keys == pair + (d.backing.Keys - pair);
    }
  }
}
