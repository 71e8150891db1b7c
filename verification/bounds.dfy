/** What every boundedness hypothesis shares: an optional lower and an optional
    upper bound (both inclusive), the early-return check against them, and the
    clauses a description is built from. */
module Bounds {
  import opened Wrappers

  /** Inclusive bounds on a count; a missing bound does not constrain. */
  datatype Interval = Interval(lower: Option<nat>, upper: Option<nat>)

  /** Both bounds (`new`). */
  function Between(lower: nat, upper: nat): Interval {
    Interval(Some(lower), Some(upper))
  }

  /** Only a lower bound (`new_lower`, `at_least`). */
  function AtLeast(lower: nat): Interval {
    Interval(Some(lower), None)
  }

  /** Only an upper bound (`new_upper`, `at_most`). */
  function AtMost(upper: nat): Interval {
    Interval(None, Some(upper))
  }

  /** `n` satisfies every bound that is present. */
  ghost predicate Within(bounds: Interval, n: nat) {
    && (bounds.lower.Some? ==> bounds.lower.value <= n)
    && (bounds.upper.Some? ==> n <= bounds.upper.value)
  }

  /** The check every boundedness hypothesis performs: fail below the lower
      bound, fail above the upper bound, otherwise succeed. */
  function Admits(bounds: Interval, n: nat): (r: bool)
    ensures r <==> Within(bounds, n)
  {
    if bounds.lower.Some? && n < bounds.lower.value then false
    else if bounds.upper.Some? && n > bounds.upper.value then false
    else true
  }

  /** The parts a description is joined from (with single spaces). The numbers
      are kept; their decimal rendering is not modelled. */
  datatype Clause =
    | Topic(noun: string)          // "the number of <noun>"
    | NotLessThan(lower: nat)      // "is not less than <lower>"
    | Conjunction                  // "and"
    | NotGreaterThan(upper: nat)   // "is not greater than <upper>"
    | Exactly(count: nat)          // "is exactly <count>"
    | DivisibleBy(divisor: nat)    // "it is divisible by <divisor>"

  /** The bound clauses: the lower bound, "and" when both are present, then the
      upper bound. */
  function BoundClauses(bounds: Interval): (cs: seq<Clause>)
    ensures Conjunction in cs <==> bounds.lower.Some? && bounds.upper.Some?
    ensures forall k: nat :: NotLessThan(k) in cs <==> bounds.lower == Some(k)
    ensures forall k: nat :: NotGreaterThan(k) in cs <==> bounds.upper == Some(k)
    ensures forall k: nat :: Exactly(k) !in cs
    ensures |cs| <= 3
  {
    (if bounds.lower.Some? then [NotLessThan(bounds.lower.value)] else [])
    + (if bounds.lower.Some? && bounds.upper.Some? then [Conjunction] else [])
    + (if bounds.upper.Some? then [NotGreaterThan(bounds.upper.value)] else [])
  }

  /** The bound clauses with the special case for equal bounds: a single
      "is exactly" clause and no "and". */
  function ExactAwareClauses(bounds: Interval): (cs: seq<Clause>)
    ensures bounds.lower.Some? && bounds.lower == bounds.upper ==> cs == [Exactly(bounds.lower.value)]
    ensures Conjunction in cs <==>
      bounds.lower.Some? && bounds.upper.Some? && bounds.lower != bounds.upper
    ensures !(bounds.lower.Some? && bounds.lower == bounds.upper) ==> forall k: nat :: Exactly(k) !in cs
  {
    if bounds.lower.Some? && bounds.upper.Some? && bounds.lower.value == bounds.upper.value then
      [Exactly(bounds.lower.value)]
    else
      BoundClauses(bounds)
  }
}
