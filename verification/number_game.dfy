/** The hypothesis space of the number game. The studies are the numbers
    1..bound. The space holds three groups, in this order:
    - "divisible by d" for 1 <= d < (bound+1)/2;
    - "between min and max" for 2 <= min < bound and min <= max <= bound;
    - the AND and OR joins of one divisibility and one boundedness hypothesis.
    A join is admitted only when the set of numbers it picks out differs from
    both of its parts' sets and from every set an earlier join picked out. */
module NumberGame {
  import opened Wrappers
  import opened Collections
  import opened Bounds
  import opened Multiples
  import opened NumberHypotheses
  import opened Distributions

  /** A basic number hypothesis (`to_basic`). */
  datatype NumberBasic =
    | Divisibility(divisibility: Divisor)
    | Boundedness(boundedness: BoundednessHypothesis)

  /** A basic hypothesis alone, or joined with a second one by "and" or "or". */
  datatype JoinedHypothesis =
    | FullStop(proposition: NumberBasic)
    | And(proposition: NumberBasic, other: NumberBasic)
    | Or(proposition: NumberBasic, other: NumberBasic)

  function BasicPredicts(b: NumberBasic, study: nat): bool {
    match b
    case Divisibility(d) => DivisibilityPredicts(d, study)
    case Boundedness(h) => BoundednessPredicts(h, study)
  }

  function JoinedPredicts(h: JoinedHypothesis, study: nat): bool {
    match h
    case FullStop(p) => BasicPredicts(p, study)
    case And(p, q) => BasicPredicts(p, study) && BasicPredicts(q, study)
    case Or(p, q) => BasicPredicts(p, study) || BasicPredicts(q, study)
  }

  /** The numbers the game may ask about: 1..bound, in increasing order. */
  function Studies(bound: nat): (ss: seq<nat>)
    ensures |ss| == bound
    ensures forall s :: s in ss <==> 1 <= s <= bound
    ensures forall i :: 0 <= i < |ss| - 1 ==> ss[i] < ss[i + 1]
  {
    var ss := seq(bound, i => i + 1);
    forall s | 1 <= s <= bound ensures s in ss {
      assert ss[s - 1] == s;
    }
    ss
  }

  /** The studies 1..bound on which `h` predicts the property. */
  ghost function Extension(h: JoinedHypothesis, bound: nat): (e: set<nat>)
    ensures forall s :: s in e <==> 1 <= s <= bound && JoinedPredicts(h, s)
  {
    set s | 1 <= s <= bound && JoinedPredicts(h, s)
  }

  /* ---------------------------------------------------------------------- */
  /* Enumerations                                                           */
  /* ---------------------------------------------------------------------- */

  /** The full-stop divisibility hypotheses for divisors d, d+1, ... below
      (bound+1)/2. */
  function DivisorStops(d: nat, bound: nat): (hs: seq<JoinedHypothesis>)
    requires d >= 1
    ensures forall h: JoinedHypothesis :: h in hs <==>
      h.FullStop? && h.proposition.Divisibility? && d <= h.proposition.divisibility.n < (bound + 1) / 2
    ensures forall i, j :: 0 <= i < j < |hs| ==> hs[i] != hs[j]
    decreases bound + 1 - d
  {
    if d >= (bound + 1) / 2 then []
    else
      var rest := DivisorStops(d + 1, bound);
      [FullStop(Divisibility(DivisibilityHypothesis(d)))] + rest
  }

  /** The (min, max) pairs of the boundedness loops, from `min` on: min below
      bound and max from min up to bound, in loop order. */
  function Pairs(min: nat, bound: nat): (ps: seq<(nat, nat)>)
    ensures forall p :: p in ps <==> min <= p.0 < bound && p.0 <= p.1 <= bound
    ensures forall i, j :: 0 <= i < j < |ps| ==> ps[i] != ps[j]
    decreases bound - min
  {
    if min >= bound then []
    else
      var here := seq(bound - min + 1, i => (min, min + i));
      assert forall p: (nat, nat) :: p in here <==> p.0 == min && min <= p.1 <= bound by {
        forall p: (nat, nat) | p.0 == min && min <= p.1 <= bound ensures p in here {
          assert here[p.1 - min] == p;
        }
      }
      here + Pairs(min + 1, bound)
  }

  /** The full-stop boundedness hypotheses. */
  function BoundStops(bound: nat): (hs: seq<JoinedHypothesis>)
    ensures forall h :: h in hs <==>
      (exists min: nat, max: nat :: 2 <= min < bound && min <= max <= bound
         && h == FullStop(Boundedness(NewBoundedness(min, max))))
    ensures forall i, j :: 0 <= i < j < |hs| ==> hs[i] != hs[j]
  {
    var ps := Pairs(2, bound);
    var hs := seq(|ps|, i requires 0 <= i < |ps| => FullStop(Boundedness(NewBoundedness(ps[i].0, ps[i].1))));
    forall h ensures h in hs <==> (exists min: nat, max: nat :: 2 <= min < bound && min <= max <= bound
                                    && h == FullStop(Boundedness(NewBoundedness(min, max)))) {
      if min: nat, max: nat :| (2 <= min < bound && min <= max <= bound
                                && h == FullStop(Boundedness(NewBoundedness(min, max)))) {
        var i :| 0 <= i < |ps| && ps[i] == (min, max);
        assert hs[i] == h;
      }
    }
    hs
  }

  /** One step of the join loops: a divisor and a (min, max) pair. */
  datatype Candidate = Candidate(divisor: Divisor, min: nat, max: nat)

  /** The join candidates in loop order: divisor by divisor from `d`, and for
      each divisor every boundedness pair. */
  function Candidates(d: nat, bound: nat): (cs: seq<Candidate>)
    requires d >= 1
    ensures forall c: Candidate :: c in cs <==>
      d <= c.divisor.n < (bound + 1) / 2 && 2 <= c.min < bound && c.min <= c.max <= bound
    decreases bound + 1 - d
  {
    if d >= (bound + 1) / 2 then []
    else
      var ps := Pairs(2, bound);
      var here := seq(|ps|, i requires 0 <= i < |ps| => Candidate(DivisibilityHypothesis(d), ps[i].0, ps[i].1));
      forall c: Candidate | c.divisor.n == d && 2 <= c.min < bound && c.min <= c.max <= bound ensures c in here {
        var i :| 0 <= i < |ps| && ps[i] == (c.min, c.max);
        assert here[i] == c;
      }
      here + Candidates(d + 1, bound)
  }

  /* ---------------------------------------------------------------------- */
  /* The sets a join is judged by                                           */
  /* ---------------------------------------------------------------------- */

  /** `(first..=last).map(|i| i * d).take_while(|&n| n <= limit)`, collected
      into a set: the products for i = first, first + 1, ... up to `last`,
      stopping at the first product above `limit`. */
  function MultiplesChain(d: Divisor, first: nat, last: nat, limit: nat): set<nat>
    decreases last + 1 - first
  {
    if first > last || first * d.n > limit then {}
    else {first * d.n} + MultiplesChain(d, first + 1, last, limit)
  }

  /** The chain holds exactly the multiples of d up to `limit` whose quotient
      lies between `first` and `last`: the products grow with i, so stopping
      at the first one above the limit loses none below it. */
  lemma {:induction false} MultiplesChainMembers(d: Divisor, first: nat, last: nat, limit: nat, k: nat)
    ensures k in MultiplesChain(d, first, last, limit) <==>
            k <= limit && k % d.n == 0 && first <= k / d.n <= last
    decreases last + 1 - first
  {
    var n := d.n;
    if first > last {
    } else if first * n > limit {
      if k % n == 0 && first <= k / n {
        ProductMonotone(first, k / n, n);
        assert k == k / n * n;
      }
    } else {
      MultiplesChainMembers(d, first + 1, last, limit, k);
      ProductQuotient(first, n);
      if k % n == 0 && k / n == first {
        assert k == k / n * n;
      }
    }
  }

  lemma ProductMonotone(a: nat, b: nat, n: nat)
    requires a <= b
    ensures a * n <= b * n
  {
  }

  /** A product divides back exactly. */
  lemma ProductQuotient(i: nat, n: nat)
    requires n > 0
    ensures (i * n) % n == 0 && (i * n) / n == i
  {
    RemainderUnique(i * n, n, i, 0);
    var q := (i * n) / n;
    assert q * n == i * n;
    if q < i {
      ProductMonotone(q + 1, i, n);
    } else if q > i {
      ProductMonotone(i + 1, q, n);
    }
  }

  /** The multiples as the program would collect them with the bound it
      evidently meant: `(1..=bound).map(|i| i * d).take_while(|&n| n <= bound)`.
      They are the multiples of the divisor among the studies 1..bound. */
  function MultiplesUpTo(d: Divisor, bound: nat): (m: set<nat>)
    ensures forall k :: k in m <==> 1 <= k <= bound && k % d.n == 0
  {
    var m := MultiplesChain(d, 1, bound, bound);
    forall k: nat ensures k in m <==> 1 <= k <= bound && k % d.n == 0 {
      ChainUpTo(d, bound, k);
    }
    m
  }

  /** The multiples as the program collects them. The bound has already been
      incremented, so the chain is `(1..=bound).map(|i| i * d)` taken while the
      product is at most bound + 1: it can hold bound + 1 itself. */
  function MultiplesAsWritten(d: Divisor, bound: nat): (m: set<nat>)
    ensures forall k :: k in m <==> 1 <= k <= bound + 1 && k % d.n == 0 && k / d.n <= bound
  {
    var m := MultiplesChain(d, 1, bound, bound + 1);
    forall k: nat ensures k in m <==> 1 <= k <= bound + 1 && k % d.n == 0 && k / d.n <= bound {
      ChainAsWritten(d, bound, k);
    }
    m
  }

  lemma ChainUpTo(d: Divisor, bound: nat, k: nat)
    ensures k in MultiplesChain(d, 1, bound, bound) <==> 1 <= k <= bound && k % d.n == 0
  {
    MultiplesChainMembers(d, 1, bound, bound, k);
    QuotientPositive(k, d.n);
    QuotientAtMost(k, d.n);
  }

  lemma ChainAsWritten(d: Divisor, bound: nat, k: nat)
    ensures k in MultiplesChain(d, 1, bound, bound + 1) <==>
            1 <= k <= bound + 1 && k % d.n == 0 && k / d.n <= bound
  {
    MultiplesChainMembers(d, 1, bound, bound + 1, k);
    QuotientPositive(k, d.n);
  }

  /** A multiple is positive exactly when its quotient is. */
  lemma QuotientPositive(k: nat, n: nat)
    requires n > 0
    ensures k % n == 0 ==> (1 <= k <==> 1 <= k / n)
  {
    if k % n == 0 {
      assert k == k / n * n;
      if k / n >= 1 {
        ProductMonotone(1, k / n, n);
      }
    }
  }

  lemma QuotientAtMost(k: nat, n: nat)
    requires n > 0
    ensures k / n <= k
  {
    var q := k / n;
    assert k == q * n + k % n;
    ProductMonotone(1, n, q);
    assert q * 1 <= q * n;
  }

  /** `(min..max+1).collect()`: the numbers from min to max. */
  function Range(min: nat, max: nat): (r: set<nat>)
    ensures forall k :: k in r <==> min <= k <= max
    decreases max + 1 - min
  {
    if min > max then {} else {min} + Range(min + 1, max)
  }

  /** The multiples set a variant of the construction uses. */
  function Extent(asWritten: bool, d: Divisor, bound: nat): set<nat> {
    if asWritten then MultiplesAsWritten(d, bound) else MultiplesUpTo(d, bound)
  }

  datatype Op = AndOp | OrOp

  /** An admitted join: the operator and the candidate it joins. */
  datatype Join = Join(op: Op, candidate: Candidate)

  /** The set a join is judged by: the intersection or the union of the
      multiples and the range. */
  function JoinSet(asWritten: bool, bound: nat, j: Join): set<nat> {
    var m := Extent(asWritten, j.candidate.divisor, bound);
    var r := Range(j.candidate.min, j.candidate.max);
    if j.op == AndOp then m * r else m + r
  }

  /** The hypothesis a join stands for. */
  function ToHypothesis(j: Join): JoinedHypothesis {
    var p := Divisibility(j.candidate.divisor);
    var q := Boundedness(NewBoundedness(j.candidate.min, j.candidate.max));
    if j.op == AndOp then And(p, q) else Or(p, q)
  }

  /** Distinct joins stand for distinct hypotheses. */
  lemma ToHypothesisInjective(j: Join, k: Join)
    ensures ToHypothesis(j) == ToHypothesis(k) <==> j == k
  {
    if ToHypothesis(j) == ToHypothesis(k) {
      var bj := NewBoundedness(j.candidate.min, j.candidate.max);
      var bk := NewBoundedness(k.candidate.min, k.candidate.max);
      assert bj == bk;
      assert bj.bounds.lower == Some(j.candidate.min) && bk.bounds.lower == Some(k.candidate.min);
    }
  }

  /* ---------------------------------------------------------------------- */
  /* The join loops                                                         */
  /* ---------------------------------------------------------------------- */

  /** One step of the join loops, for candidate `c`: the AND join, then the
      OR join, each admitted when its set differs from the multiples, from the
      range and from every recorded set, and then recorded. Returns the
      admitted joins and the recorded sets after the step. */
  function Step(asWritten: bool, bound: nat, c: Candidate, seen: set<set<nat>>)
    : (res: (seq<Join>, set<set<nat>>))
    ensures seen <= res.1
    ensures Settled(asWritten, bound, c, res.1)
    ensures forall j :: j in res.0 ==>
      (&& j.candidate == c
       && JoinSet(asWritten, bound, j) in res.1
       && JoinSet(asWritten, bound, j) !in seen
       && JoinSet(asWritten, bound, j) != Extent(asWritten, c.divisor, bound)
       && JoinSet(asWritten, bound, j) != Range(c.min, c.max))
    ensures forall x :: x in res.1 ==> x in seen || exists j :: j in res.0 && JoinSet(asWritten, bound, j) == x
    ensures forall i, k :: 0 <= i < k < |res.0| ==>
      JoinSet(asWritten, bound, res.0[i]) != JoinSet(asWritten, bound, res.0[k])
  {
    var m := Extent(asWritten, c.divisor, bound);
    var r := Range(c.min, c.max);
    var andJoin, orJoin := Join(AndOp, c), Join(OrOp, c);
    assert JoinSet(asWritten, bound, andJoin) == m * r && JoinSet(asWritten, bound, orJoin) == m + r;
    var andOk := m * r != m && m * r != r && m * r !in seen;
    var seen1 := if andOk then seen + {m * r} else seen;
    var orOk := m + r != m && m + r != r && m + r !in seen1;
    var seen2 := if orOk then seen1 + {m + r} else seen1;
    ((if andOk then [andJoin] else []) + (if orOk then [orJoin] else []), seen2)
  }

  /** The candidate's AND and OR sets are recorded in `seen` or equal one of
      its parts. */
  ghost predicate Settled(asWritten: bool, bound: nat, c: Candidate, seen: set<set<nat>>) {
    var m := Extent(asWritten, c.divisor, bound);
    var r := Range(c.min, c.max);
    && (m * r == m || m * r == r || m * r in seen)
    && (m + r == m || m + r == r || m + r in seen)
  }

  /** The join loops over `cands`, starting from the recorded sets `seen`.
      Returns the admitted joins in order and the final recorded sets:
      - the recorded sets are the starting ones plus those of the admitted joins;
      - admitted joins have pairwise different sets, none of them recorded at
        the start, and each differs from both of its parts' sets;
      - every candidate's AND and OR sets end up recorded unless they equal one
        of its parts. */
  function FoldJoins(asWritten: bool, bound: nat, cands: seq<Candidate>, seen: set<set<nat>>)
    : (res: (seq<Join>, set<set<nat>>))
    ensures seen <= res.1
    ensures forall j :: j in res.0 ==> JoinSet(asWritten, bound, j) in res.1 && JoinSet(asWritten, bound, j) !in seen
    ensures forall x :: x in res.1 ==> x in seen || exists j :: j in res.0 && JoinSet(asWritten, bound, j) == x
    ensures forall i, k :: 0 <= i < k < |res.0| ==>
      JoinSet(asWritten, bound, res.0[i]) != JoinSet(asWritten, bound, res.0[k])
    ensures forall j :: j in res.0 ==> j.candidate in cands && Informative(asWritten, bound, j)
    ensures forall c :: c in cands ==> Settled(asWritten, bound, c, res.1)
    decreases |cands|
  {
    if |cands| == 0 then ([], seen)
    else
      var step := Step(asWritten, bound, cands[0], seen);
      var rest := FoldJoins(asWritten, bound, cands[1..], step.1);
      Chain(asWritten, bound, seen, step.0, step.1, rest.0, rest.1);
      FromCandidates(asWritten, bound, cands, step.0, rest.0, step.1, rest.1);
      (step.0 + rest.0, rest.1)
  }

  /** The join's set differs from the sets of both of its parts. */
  predicate Informative(asWritten: bool, bound: nat, j: Join) {
    && JoinSet(asWritten, bound, j) != Extent(asWritten, j.candidate.divisor, bound)
    && JoinSet(asWritten, bound, j) != Range(j.candidate.min, j.candidate.max)
  }

  /** The first candidate's joins followed by the other candidates' joins
      come from the candidates, and every candidate stays settled. */
  lemma FromCandidates(asWritten: bool, bound: nat, cands: seq<Candidate>, first: seq<Join>, second: seq<Join>,
                       seen1: set<set<nat>>, seen2: set<set<nat>>)
    requires |cands| > 0
    requires forall j :: j in first ==> j.candidate == cands[0] && Informative(asWritten, bound, j)
    requires forall j :: j in second ==> j.candidate in cands[1..] && Informative(asWritten, bound, j)
    requires Settled(asWritten, bound, cands[0], seen1) && seen1 <= seen2
    requires forall c :: c in cands[1..] ==> Settled(asWritten, bound, c, seen2)
    ensures forall j :: j in first + second ==> j.candidate in cands && Informative(asWritten, bound, j)
    ensures forall c :: c in cands ==> Settled(asWritten, bound, c, seen2)
  {
    SettledGrows(asWritten, bound, cands[0], seen1, seen2);
    assert forall c :: c in cands ==> c == cands[0] || c in cands[1..];
  }

  lemma SettledGrows(asWritten: bool, bound: nat, c: Candidate, seen: set<set<nat>>, more: set<set<nat>>)
    requires Settled(asWritten, bound, c, seen) && seen <= more
    ensures Settled(asWritten, bound, c, more)
  {
  }

  /** Two runs of the join loops one after the other behave as one run. */
  lemma Chain(asWritten: bool, bound: nat, seen0: set<set<nat>>, first: seq<Join>, seen1: set<set<nat>>,
              second: seq<Join>, seen2: set<set<nat>>)
    requires seen0 <= seen1 <= seen2
    requires forall j :: j in first ==> JoinSet(asWritten, bound, j) in seen1 && JoinSet(asWritten, bound, j) !in seen0
    requires forall x :: x in seen1 ==> x in seen0 || exists j :: j in first && JoinSet(asWritten, bound, j) == x
    requires forall i, k :: 0 <= i < k < |first| ==>
      JoinSet(asWritten, bound, first[i]) != JoinSet(asWritten, bound, first[k])
    requires forall j :: j in second ==> JoinSet(asWritten, bound, j) in seen2 && JoinSet(asWritten, bound, j) !in seen1
    requires forall x :: x in seen2 ==> x in seen1 || exists j :: j in second && JoinSet(asWritten, bound, j) == x
    requires forall i, k :: 0 <= i < k < |second| ==>
      JoinSet(asWritten, bound, second[i]) != JoinSet(asWritten, bound, second[k])
    ensures forall j :: j in first + second ==>
      JoinSet(asWritten, bound, j) in seen2 && JoinSet(asWritten, bound, j) !in seen0
    ensures forall x :: x in seen2 ==> x in seen0 || exists j :: j in first + second && JoinSet(asWritten, bound, j) == x
    ensures forall i, k :: 0 <= i < k < |first + second| ==>
      JoinSet(asWritten, bound, (first + second)[i]) != JoinSet(asWritten, bound, (first + second)[k])
  {
    var all := first + second;
    forall x | x in seen2 ensures x in seen0 || exists j :: j in all && JoinSet(asWritten, bound, j) == x {
      if x !in seen1 {
        var j :| j in second && JoinSet(asWritten, bound, j) == x;
        assert j in all;
      } else if x !in seen0 {
        var j :| j in first && JoinSet(asWritten, bound, j) == x;
        assert j in all;
      }
    }
    forall i, k | 0 <= i < k < |all|
      ensures JoinSet(asWritten, bound, all[i]) != JoinSet(asWritten, bound, all[k])
    {
      if k < |first| {
      } else if i < |first| {
        assert all[i] in first && all[k] in second;
      } else {
        assert all[i] == second[i - |first|] && all[k] == second[k - |first|];
      }
    }
  }

  /* ---------------------------------------------------------------------- */
  /* The hypothesis space                                                   */
  /* ---------------------------------------------------------------------- */

  /** The joins the loops admit for the studies 1..bound. */
  function Joins(asWritten: bool, bound: nat): seq<Join> {
    FoldJoins(asWritten, bound, Candidates(1, bound), {}).0
  }

  /** The hypothesis space the game starts from: the divisibility full stops,
      the boundedness full stops, then the admitted joins. No hypothesis occurs
      twice. */
  function HypothesisSpace(asWritten: bool, bound: nat): (hs: seq<JoinedHypothesis>)
    ensures Distinct(hs)
    ensures forall d: Divisor :: FullStop(Divisibility(d)) in hs <==> d.n < (bound + 1) / 2
    ensures forall min: nat, max: nat :: FullStop(Boundedness(NewBoundedness(min, max))) in hs <==>
      2 <= min < bound && min <= max <= bound
    ensures forall j :: j in Joins(asWritten, bound) <==> ToHypothesis(j) in hs
    ensures forall h :: h in hs ==> h.FullStop? || exists j :: j in Joins(asWritten, bound) && ToHypothesis(j) == h
  {
    var js := Joins(asWritten, bound);
    JoinsDistinct(asWritten, bound);
    var divisors, ranges, joined := DivisorStops(1, bound), BoundStops(bound), JoinedHypotheses(js);
    BoundStopsExactly(bound);
    DistinctConcat(divisors, ranges);
    DistinctConcat(divisors + ranges, joined);
    var hs := divisors + ranges + joined;
    assert forall h :: h in hs <==> h in divisors || h in ranges || h in joined;
    forall d: Divisor ensures FullStop(Divisibility(d)) in hs <==> d.n < (bound + 1) / 2 {
      assert FullStop(Divisibility(d)) !in ranges && FullStop(Divisibility(d)) !in joined;
    }
    forall min: nat, max: nat ensures FullStop(Boundedness(NewBoundedness(min, max))) in hs <==>
      2 <= min < bound && min <= max <= bound
    {
      var h := FullStop(Boundedness(NewBoundedness(min, max)));
      assert h !in divisors && h !in joined;
    }
    forall j ensures j in js <==> ToHypothesis(j) in hs {
      assert ToHypothesis(j) !in divisors && ToHypothesis(j) !in ranges;
    }
    hs
  }

  /** Admitted joins have different sets, so no join is admitted twice. */
  lemma JoinsDistinct(asWritten: bool, bound: nat)
    ensures Distinct(Joins(asWritten, bound))
  {
    var js := Joins(asWritten, bound);
    forall i, k | 0 <= i < k < |js| ensures js[i] != js[k] {
      assert JoinSet(asWritten, bound, js[i]) != JoinSet(asWritten, bound, js[k]);
    }
  }

  /** The hypotheses the joins stand for, in order. */
  function JoinedHypotheses(js: seq<Join>): (hs: seq<JoinedHypothesis>)
    ensures Distinct(js) ==> Distinct(hs)
    ensures forall j :: j in js <==> ToHypothesis(j) in hs
    ensures forall h :: h in hs ==> !h.FullStop? && exists j :: j in js && ToHypothesis(j) == h
  {
    var hs := seq(|js|, i requires 0 <= i < |js| => ToHypothesis(js[i]));
    assert Distinct(js) ==> Distinct(hs) by {
      if Distinct(js) {
        forall i, k | 0 <= i < k < |hs| ensures hs[i] != hs[k] {
          ToHypothesisInjective(js[i], js[k]);
        }
      }
    }
    forall j | ToHypothesis(j) in hs ensures j in js {
      var i :| 0 <= i < |hs| && hs[i] == ToHypothesis(j);
      ToHypothesisInjective(js[i], j);
    }
    forall h | h in hs ensures exists j :: j in js && ToHypothesis(j) == h {
      var i :| 0 <= i < |hs| && hs[i] == h;
      assert js[i] in js;
    }
    forall j | j in js ensures ToHypothesis(j) in hs {
      var i :| 0 <= i < |js| && js[i] == j;
      assert hs[i] == ToHypothesis(j);
    }
    hs
  }

  /** A boundedness full stop is in the space exactly for the pairs of the
      loops. */
  lemma BoundStopsExactly(bound: nat)
    ensures forall h :: h in BoundStops(bound) ==> h.FullStop? && h.proposition.Boundedness?
    ensures forall min: nat, max: nat :: FullStop(Boundedness(NewBoundedness(min, max))) in BoundStops(bound) <==>
      2 <= min < bound && min <= max <= bound
  {
    forall min: nat, max: nat | FullStop(Boundedness(NewBoundedness(min, max))) in BoundStops(bound)
      ensures 2 <= min < bound && min <= max <= bound
    {
      var h := FullStop(Boundedness(NewBoundedness(min, max)));
      var min': nat, max': nat :| 2 <= min' < bound && min' <= max' <= bound
                                  && h == FullStop(Boundedness(NewBoundedness(min', max')));
      assert NewBoundedness(min, max).bounds.lower == Some(min') && NewBoundedness(min, max).bounds.upper == Some(max');
    }
  }

  /** Over the studies, "divisible by d" picks out the multiples of d. */
  lemma DivisorExtension(d: Divisor, bound: nat)
    ensures Extension(FullStop(Divisibility(d)), bound) == MultiplesUpTo(d, bound)
  {
    forall s | 1 <= s <= bound ensures JoinedPredicts(FullStop(Divisibility(d)), s) <==> s % d.n == 0 {
      RemainderTest(s, d.n);
    }
  }

  /** Over the studies, "between min and max" picks out the range, when the
      range lies among the studies. */
  lemma RangeExtension(min: nat, max: nat, bound: nat)
    requires 1 <= min && max <= bound
    ensures Extension(FullStop(Boundedness(NewBoundedness(min, max))), bound) == Range(min, max)
  {
  }

  /** Over the studies, a join picks out the set the corrected loops judge it
      by. */
  lemma JoinExtension(j: Join, bound: nat)
    requires 1 <= j.candidate.min && j.candidate.max <= bound
    ensures Extension(ToHypothesis(j), bound) == JoinSet(false, bound, j)
  {
    var d, min, max := j.candidate.divisor, j.candidate.min, j.candidate.max;
    DivisorExtension(d, bound);
    RangeExtension(min, max, bound);
    var e := Extension(ToHypothesis(j), bound);
    var p, q := FullStop(Divisibility(d)), FullStop(Boundedness(NewBoundedness(min, max)));
    forall s ensures s in e <==> s in JoinSet(false, bound, j) {
      assert s in e <==> 1 <= s <= bound && JoinedPredicts(ToHypothesis(j), s);
      assert s in Extension(p, bound) <==> 1 <= s <= bound && JoinedPredicts(p, s);
      assert s in Extension(q, bound) <==> 1 <= s <= bound && JoinedPredicts(q, s);
    }
  }

  /** With the corrected multiples every admitted join is informative: over
      the studies it picks out a set different from each of its two parts,
      and different from every other admitted join. */
  lemma JoinsAreInformative(bound: nat)
    ensures forall j :: j in Joins(false, bound) ==>
      (&& Extension(ToHypothesis(j), bound) != Extension(FullStop(Divisibility(j.candidate.divisor)), bound)
       && Extension(ToHypothesis(j), bound)
          != Extension(FullStop(Boundedness(NewBoundedness(j.candidate.min, j.candidate.max))), bound))
    ensures forall i, k :: 0 <= i < k < |Joins(false, bound)| ==>
      Extension(ToHypothesis(Joins(false, bound)[i]), bound) != Extension(ToHypothesis(Joins(false, bound)[k]), bound)
  {
    var js := Joins(false, bound);
    forall j | j in js
      ensures 1 <= j.candidate.min && j.candidate.max <= bound
      ensures Extension(ToHypothesis(j), bound) == JoinSet(false, bound, j)
    {
      JoinExtension(j, bound);
    }
    forall j | j in js
      ensures Extension(FullStop(Divisibility(j.candidate.divisor)), bound) == Extent(false, j.candidate.divisor, bound)
      ensures Extension(FullStop(Boundedness(NewBoundedness(j.candidate.min, j.candidate.max))), bound)
              == Range(j.candidate.min, j.candidate.max)
    {
      DivisorExtension(j.candidate.divisor, bound);
      RangeExtension(j.candidate.min, j.candidate.max, bound);
    }
    forall i, k | 0 <= i < k < |js|
      ensures Extension(ToHypothesis(js[i]), bound) != Extension(ToHypothesis(js[k]), bound)
    {
      assert js[i] in js && js[k] in js;
    }
  }

  /** The ignorance prior over the space is uniform: it sums to 1 and keeps
      every hypothesis. */
  lemma SpacePriorIsUniform(asWritten: bool, bound: nat)
    requires bound >= 3
    ensures |HypothesisSpace(asWritten, bound)| > 0
    ensures Total(IgnorancePrior(HypothesisSpace(asWritten, bound))) == 1.0
    ensures Len(IgnorancePrior(HypothesisSpace(asWritten, bound))) == |HypothesisSpace(asWritten, bound)|
  {
    assert FullStop(Divisibility(DivisibilityHypothesis(1))) in HypothesisSpace(asWritten, bound);
    IgnorancePriorTotal(HypothesisSpace(asWritten, bound));
  }

  /* ---------------------------------------------------------------------- */
  /* The multiples as written                                               */
  /* ---------------------------------------------------------------------- */

  /** One step admits its own join when the join's set is new (for the OR
      join, also different from the AND join's set). */
  lemma StepAdmits(asWritten: bool, bound: nat, c: Candidate, seen: set<set<nat>>, op: Op)
    requires
      var x := JoinSet(asWritten, bound, Join(op, c));
      && x != Extent(asWritten, c.divisor, bound)
      && x != Range(c.min, c.max)
      && x !in seen
      && (op == OrOp ==> JoinSet(asWritten, bound, Join(AndOp, c)) != x)
    ensures Join(op, c) in Step(asWritten, bound, c, seen).0
  {
  }

  /** One step records no set other than its own joins' sets. */
  lemma StepAvoids(asWritten: bool, bound: nat, c: Candidate, seen: set<set<nat>>, x: set<nat>)
    requires x !in seen
    requires JoinSet(asWritten, bound, Join(AndOp, c)) != x && JoinSet(asWritten, bound, Join(OrOp, c)) != x
    ensures x !in Step(asWritten, bound, c, seen).1
  {
  }

  /** A join is admitted when its set is new: it differs from its parts, was
      not recorded at the start, and no earlier step produced it. */
  lemma {:induction false} AdmittedWhenNew(asWritten: bool, bound: nat, cands: seq<Candidate>,
                                           seen: set<set<nat>>, i: nat, op: Op)
    requires i < |cands|
    requires
      var x := JoinSet(asWritten, bound, Join(op, cands[i]));
      && x != Extent(asWritten, cands[i].divisor, bound)
      && x != Range(cands[i].min, cands[i].max)
      && x !in seen
      && (op == OrOp ==> JoinSet(asWritten, bound, Join(AndOp, cands[i])) != x)
      && (forall k :: 0 <= k < i ==> Differs(asWritten, bound, cands[k], x))
    ensures Join(op, cands[i]) in FoldJoins(asWritten, bound, cands, seen).0
    decreases i
  {
    var x := JoinSet(asWritten, bound, Join(op, cands[i]));
    var step := Step(asWritten, bound, cands[0], seen);
    assert FoldJoins(asWritten, bound, cands, seen).0
           == step.0 + FoldJoins(asWritten, bound, cands[1..], step.1).0;
    if i == 0 {
      StepAdmits(asWritten, bound, cands[0], seen, op);
    } else {
      assert Differs(asWritten, bound, cands[0], x);
      StepAvoids(asWritten, bound, cands[0], seen, x);
      forall k | 0 <= k < i - 1 ensures Differs(asWritten, bound, cands[1..][k], x) {
        assert cands[1..][k] == cands[k + 1];
      }
      AdmittedWhenNew(asWritten, bound, cands[1..], step.1, i - 1, op);
    }
  }

  /** Neither join of `c` has the set `x`. */
  predicate Differs(asWritten: bool, bound: nat, c: Candidate, x: set<nat>) {
    JoinSet(asWritten, bound, Join(AndOp, c)) != x && JoinSet(asWritten, bound, Join(OrOp, c)) != x
  }

  /** The join "divisible by 2 and between 2 and 4". */
  function EvenFromTwoToFour(): Join {
    Join(AndOp, Candidate(DivisibilityHypothesis(2), 2, 4))
  }

  /** The candidates of one divisor come first, in the order of the pairs,
      followed by those of the next divisors. */
  lemma CandidatesBlock(d: nat, bound: nat)
    requires 1 <= d < (bound + 1) / 2
    ensures |Pairs(2, bound)| <= |Candidates(d, bound)|
    ensures forall k :: 0 <= k < |Pairs(2, bound)| ==>
      Candidates(d, bound)[k] == Candidate(DivisibilityHypothesis(d), Pairs(2, bound)[k].0, Pairs(2, bound)[k].1)
    ensures Candidates(d, bound)[|Pairs(2, bound)|..] == Candidates(d + 1, bound)
  {
  }

  /** The first pairs: min 2 with max 2, 3 and 4. */
  lemma FirstPairs(bound: nat)
    requires bound >= 4
    ensures 3 <= |Pairs(2, bound)|
    ensures Pairs(2, bound)[0] == (2, 2) && Pairs(2, bound)[1] == (2, 3) && Pairs(2, bound)[2] == (2, 4)
  {
    assert Pairs(2, bound) == seq(bound - 1, i => (2, 2 + i)) + Pairs(3, bound);
  }

  /** The candidates up to "divisible by d + 1 and between 2 and 4": all
      those with divisor d, then divisor d + 1 with the ranges 2..2 and 2..3. */
  lemma CandidatesBeforeEvenJoin(d: nat, bound: nat)
    requires 1 <= d && d + 1 < (bound + 1) / 2
    ensures |Pairs(2, bound)| + 2 < |Candidates(d, bound)|
    ensures Candidates(d, bound)[|Pairs(2, bound)| + 2] == Candidate(DivisibilityHypothesis(d + 1), 2, 4)
    ensures forall k :: 0 <= k < |Pairs(2, bound)| ==> Candidates(d, bound)[k].divisor.n == d
    ensures forall k :: |Pairs(2, bound)| <= k < |Pairs(2, bound)| + 2 ==>
      Candidates(d, bound)[k].divisor.n == d + 1 && Candidates(d, bound)[k].max <= 3
  {
    FirstPairs(bound);
    CandidatesBlock(d, bound);
    CandidatesBlock(d + 1, bound);
    var n, here := |Pairs(2, bound)|, Candidates(d, bound);
    TwoBlocks(Pairs(2, bound), d, here, Candidates(d + 1, bound));
    forall k | 0 <= k < n ensures here[k].divisor.n == d {
    }
    forall k | n <= k < n + 2 ensures here[k].divisor.n == d + 1 && here[k].max <= 3 {
    }
  }

  /** The same, for any two consecutive blocks of candidates over the pairs. */
  lemma TwoBlocks(ps: seq<(nat, nat)>, d: nat, here: seq<Candidate>, next: seq<Candidate>)
    requires 1 <= d && 3 <= |ps| <= |here| && |ps| <= |next|
    requires ps[0] == (2, 2) && ps[1] == (2, 3) && ps[2] == (2, 4)
    requires forall k :: 0 <= k < |ps| ==> here[k] == Candidate(DivisibilityHypothesis(d), ps[k].0, ps[k].1)
    requires forall k :: 0 <= k < |ps| ==> next[k] == Candidate(DivisibilityHypothesis(d + 1), ps[k].0, ps[k].1)
    requires here[|ps|..] == next
    ensures |ps| + 2 < |here|
    ensures here[|ps| + 2] == Candidate(DivisibilityHypothesis(d + 1), 2, 4)
    ensures forall k :: 0 <= k < |ps| ==> here[k].divisor.n == d
    ensures forall k :: |ps| <= k < |ps| + 2 ==> here[k].divisor.n == d + 1 && here[k].max <= 3
  {
    var n := |ps|;
    forall k | n <= k < n + 3 ensures here[k] == next[k - n] {
      assert here[n..][k - n] == here[k];
    }
  }

  /** What the as-written loops judge "divisible by 2 and between 2 and 4"
      by, for the studies 1..5: a set holding 2 and 4 but not 1, 3 or 6, unlike
      the multiples (which hold 6) and the range (which holds 3). */
  lemma RedundantJoinSet()
    ensures var x := JoinSet(true, 5, EvenFromTwoToFour());
      && 2 in x && 4 in x && 1 !in x && 3 !in x && 6 !in x
      && x != Extent(true, DivisibilityHypothesis(2), 5)
      && x != Range(2, 4)
  {
    var x := JoinSet(true, 5, EvenFromTwoToFour());
    assert 2 % 2 == 0 && 4 % 2 == 0 && 6 % 2 == 0 && 3 % 2 == 1 && 1 % 2 == 1;
    assert 6 in MultiplesAsWritten(DivisibilityHypothesis(2), 5);
    assert 3 in Range(2, 4);
  }

  /** No candidate before the join produces its set. */
  lemma EarlierCandidatesDiffer(c: Candidate, x: set<nat>)
    requires c.divisor.n == 1 || (c.divisor.n == 2 && c.max <= 3)
    requires 2 <= c.min && c.max <= 5
    requires 2 in x && 4 in x && 1 !in x && 3 !in x && 6 !in x
    ensures Differs(true, 5, c, x)
  {
    var m := MultiplesAsWritten(c.divisor, 5);
    if c.divisor.n == 1 {
      assert 1 in m && 3 in m;
      var a := JoinSet(true, 5, Join(AndOp, c));
      if 2 in a && 4 in a {
        assert 3 in a;
      }
    } else {
      assert 6 % 2 == 0;
      assert 6 in m;
    }
  }

  /** With the multiples as written and the studies 1..5, the loops admit
      "divisible by 2 and between 2 and 4", although over the studies it picks
      out exactly what its own part "divisible by 2" does: the multiples set
      holds 6, one past the last study, so the guard sees a difference the
      studies never show. */
  lemma AsWrittenAdmitsRedundantJoin()
    ensures EvenFromTwoToFour() in Joins(true, 5)
    ensures ToHypothesis(EvenFromTwoToFour()) in HypothesisSpace(true, 5)
    ensures FullStop(Divisibility(DivisibilityHypothesis(2))) in HypothesisSpace(true, 5)
    ensures Extension(ToHypothesis(EvenFromTwoToFour()), 5)
            == Extension(FullStop(Divisibility(DivisibilityHypothesis(2))), 5)
  {
    var j := EvenFromTwoToFour();
    var x := JoinSet(true, 5, j);
    var cands := Candidates(1, 5);
    var n := |Pairs(2, 5)|;
    CandidatesBeforeEvenJoin(1, 5);
    RedundantJoinSet();
    forall k | 0 <= k < n + 2 ensures Differs(true, 5, cands[k], x) {
      assert cands[k] in cands;
      EarlierCandidatesDiffer(cands[k], x);
    }
    AdmittedWhenNew(true, 5, cands, {}, n + 2, AndOp);
    SameAsDivisibility();
  }

  /** Over the studies 1..5, "divisible by 2 and between 2 and 4" and
      "divisible by 2" pick out the same numbers. */
  lemma SameAsDivisibility()
    ensures Extension(ToHypothesis(EvenFromTwoToFour()), 5)
            == Extension(FullStop(Divisibility(DivisibilityHypothesis(2))), 5)
    ensures JoinSet(false, 5, EvenFromTwoToFour()) == Extent(false, DivisibilityHypothesis(2), 5)
  {
    var two := DivisibilityHypothesis(2);
    JoinExtension(EvenFromTwoToFour(), 5);
    DivisorExtension(two, 5);
    assert 1 % 2 == 1 && 5 % 2 == 1;
    assert MultiplesUpTo(two, 5) <= Range(2, 4) by {
      forall k | k in MultiplesUpTo(two, 5) ensures 2 <= k <= 4 {
        assert k != 1 && k != 5;
      }
    }
  }

  /** The corrected loops reject that join. */
  lemma CorrectedRejectsRedundantJoin()
    ensures EvenFromTwoToFour() !in Joins(false, 5)
  {
    SameAsDivisibility();
  }
}
