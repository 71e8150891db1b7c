/** Query selection (`burning_question`): pick the study whose value of
    information is largest. The value of information is an abstract score
    `S -> real` here; how it is computed from entropies is not part of this
    model. */
module Search {
  import opened Wrappers

  /** `candidates[i]` scores highest among `candidates`, and strictly higher
      than every earlier candidate: it is the first maximum. */
  ghost predicate IsFirstArgmax<S>(score: S -> real, candidates: seq<S>, i: int) {
    && 0 <= i < |candidates|
    && (forall j :: 0 <= j < |candidates| ==> score(candidates[j]) <= score(candidates[i]))
    && (forall j :: 0 <= j < i ==> score(candidates[j]) < score(candidates[i]))
  }

  /** The position of the first maximum, found by scanning from the front. */
  function FirstBest<S>(score: S -> real, candidates: seq<S>): (i: nat)
    requires |candidates| > 0
    ensures IsFirstArgmax(score, candidates, i)
    decreases |candidates|
  {
    if |candidates| == 1 then 0
    else
      var init := candidates[..|candidates| - 1];
      var i := FirstBest(score, init);
      assert forall j :: 0 <= j < |init| ==> init[j] == candidates[j];
      if score(candidates[|candidates| - 1]) > score(candidates[i]) then |candidates| - 1 else i
  }

  /** The first `n` draws of the sampler `draw`. */
  ghost function Drawn<S>(draw: nat -> S, n: nat): (ds: seq<S>)
    ensures |ds| == n
    ensures forall i :: 0 <= i < n ==> ds[i] == draw(i)
  {
    if n == 0 then [] else Drawn(draw, n - 1) + [draw(n - 1)]
  }

  function Max(a: nat, b: nat): nat {
    if a < b then b else a
  }

  /** Exhaustive search: scan `studies` once, replacing the best study only on
      a strictly larger score, starting from negative infinity (`None`). */
  method BurningQuestion<S>(score: S -> real, studies: seq<S>) returns (best: Option<S>)
    ensures best.None? <==> |studies| == 0
    ensures best.Some? ==> exists i :: IsFirstArgmax(score, studies, i) && studies[i] == best.value
    ensures best.Some? ==> best.value == studies[FirstBest(score, studies)]
  {
    var topValue: Option<real> := None;
    best := None;
    ghost var at := 0;
    for k := 0 to |studies|
      invariant topValue.None? <==> k == 0
      invariant best.None? <==> k == 0
      invariant k > 0 ==> IsFirstArgmax(score, studies[..k], at)
      invariant k > 0 ==> best.value == studies[at] && topValue.value == score(studies[at])
      invariant k > 0 ==> at == FirstBest(score, studies[..k])
    {
      assert k > 0 ==> studies[..k + 1][..k] == studies[..k];
      var value := score(studies[k]);
      if topValue.None? || value > topValue.value {
        topValue := Some(value);
        best := Some(studies[k]);
        at := k;
      }
    }
    if best.Some? {
      assert studies[..|studies|] == studies;
    }
  }

  /** Anytime search: draw studies from `draw` (the i-th call of the sampler
      returns `draw(i)`), keep the first best one, and stop as soon as its
      score exceeds `desiredBits` or `sampleCap` studies have been drawn. At
      least one study is always drawn. Returns the chosen study and the number
      of draws. */
  method AnytimeBurningQuestion<S>(score: S -> real, draw: nat -> S, desiredBits: real, sampleCap: nat)
    returns (top: S, samples: nat)
    ensures 1 <= samples <= Max(1, sampleCap)
    ensures exists k :: IsFirstArgmax(score, Drawn(draw, samples), k) && top == draw(k)
    ensures forall i :: 0 <= i < samples - 1 ==> score(draw(i)) <= desiredBits
    ensures score(top) > desiredBits || samples >= sampleCap
  {
    var study := draw(0);
    var value := score(study);
    top := study;
    var topValue := value;
    samples := 1;
    ghost var at := 0;
    while true
      invariant 1 <= samples <= Max(1, sampleCap)
      invariant study == draw(samples - 1) && value == score(study)
      invariant IsFirstArgmax(score, Drawn(draw, Max(1, samples - 1)), at)
      invariant top == draw(at) && topValue == score(top)
      invariant forall i :: 0 <= i < samples - 1 ==> score(draw(i)) <= desiredBits
      decreases Max(1, sampleCap) - samples
    {
      if value > topValue {
        topValue := value;
        top := study;
        at := samples - 1;
      }
      assert IsFirstArgmax(score, Drawn(draw, samples), at);
      if topValue > desiredBits || samples >= sampleCap {
        break;
      }
      study := draw(samples);
      value := score(study);
      samples := samples + 1;
    }
  }
}
