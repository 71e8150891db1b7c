/** The hypotheses of the triangle game. Each is a plain value; equality is
    structural, so each can key a belief distribution. The colour hypotheses read
    the study itself through `ColorCount`; the size, groundedness and pip
    hypotheses read aggregates whose definitions are not part of this model, so
    they receive those aggregates as `Readings`. */
module TriangleHypotheses {
  import opened Wrappers
  import opened TriangleStudies
  import opened Bounds
  import opened Multiples

  /** The study accessors `size_count`, `groundedness_count` and `pip_count`. */
  datatype Readings = Readings(sizeCount: Size -> nat, groundednessCount: bool -> nat, pipCount: nat)

  /** A study together with its readings. */
  datatype Subject = Subject(study: Study, readings: Readings)

  /** Debug rendering of a colour. */
  function ColorName(color: Color): string {
    match color
    case Red => "Red"
    case Blue => "Blue"
    case Green => "Green"
    case Yellow => "Yellow"
  }

  /** Debug rendering of a size. */
  function SizeName(size: Size): string {
    match size
    case One => "One"
    case Two => "Two"
    case Three => "Three"
  }

  /* ---------------------------------------------------------------------- */
  /* ColorBoundednessHypothesis (the older colour hypothesis)               */
  /* ---------------------------------------------------------------------- */

  datatype ColorBoundednessHypothesis = ColorBoundednessHypothesis(color: Color, bounds: Interval)

  /** The count of `h.color` lies within the bounds that are present. */
  function ColorBoundednessPredicts(h: ColorBoundednessHypothesis, study: Study): (r: bool)
    ensures r <==> Within(h.bounds, ColorCount(study, h.color))
  {
    Admits(h.bounds, ColorCount(study, h.color))
  }

  /** `ColorBoundednessHypothesis::new`: both bounds. */
  function NewColorBoundedness(color: Color, lower: nat, upper: nat): (h: ColorBoundednessHypothesis)
    ensures h.color == color && h.bounds.lower == Some(lower) && h.bounds.upper == Some(upper)
    ensures forall study :: ColorBoundednessPredicts(h, study) <==> lower <= ColorCount(study, color) <= upper
  {
    ColorBoundednessHypothesis(color, Between(lower, upper))
  }

  /** `ColorBoundednessHypothesis::new_lower`: no upper bound. */
  function NewLowerColorBoundedness(color: Color, lower: nat): (h: ColorBoundednessHypothesis)
    ensures h.color == color && h.bounds.lower == Some(lower) && h.bounds.upper.None?
    ensures forall study :: ColorBoundednessPredicts(h, study) <==> lower <= ColorCount(study, color)
  {
    ColorBoundednessHypothesis(color, AtLeast(lower))
  }

  /** `ColorBoundednessHypothesis::new_upper`: no lower bound. */
  function NewUpperColorBoundedness(color: Color, upper: nat): (h: ColorBoundednessHypothesis)
    ensures h.color == color && h.bounds.lower.None? && h.bounds.upper == Some(upper)
    ensures forall study :: ColorBoundednessPredicts(h, study) <==> ColorCount(study, color) <= upper
  {
    ColorBoundednessHypothesis(color, AtMost(upper))
  }

  /** The description: the colour topic, then the bound clauses, with "and"
      exactly when both bounds are present (there is no exact case here). */
  function ColorBoundednessDescription(h: ColorBoundednessHypothesis): (cs: seq<Clause>)
    ensures |cs| >= 1 && cs[0] == Topic(ColorName(h.color) + " triangles")
    ensures Conjunction in cs <==> h.bounds.lower.Some? && h.bounds.upper.Some?
  {
    [Topic(ColorName(h.color) + " triangles")] + BoundClauses(h.bounds)
  }

  /* ---------------------------------------------------------------------- */
  /* ColorCountBoundednessHypothesis                                        */
  /* ---------------------------------------------------------------------- */

  datatype ColorCountBoundednessHypothesis = ColorCountBoundednessHypothesis(color: Color, bounds: Interval)

  /** The count of `h.color` lies within the bounds that are present. */
  function ColorCountPredicts(h: ColorCountBoundednessHypothesis, study: Study): (r: bool)
    ensures r <==> Within(h.bounds, ColorCount(study, h.color))
    ensures r == ColorBoundednessPredicts(ColorBoundednessHypothesis(h.color, h.bounds), study)
  {
    Admits(h.bounds, ColorCount(study, h.color))
  }

  /** `ColorCountBoundednessHypothesis::new`: both bounds. */
  function NewColorCount(color: Color, lower: nat, upper: nat): (h: ColorCountBoundednessHypothesis)
    ensures h.color == color && h.bounds.lower == Some(lower) && h.bounds.upper == Some(upper)
    ensures forall study :: ColorCountPredicts(h, study) <==> lower <= ColorCount(study, color) <= upper
  {
    ColorCountBoundednessHypothesis(color, Between(lower, upper))
  }

  /** `ColorCountBoundednessHypothesis::new_lower`: no upper bound. */
  function NewLowerColorCount(color: Color, lower: nat): (h: ColorCountBoundednessHypothesis)
    ensures h.color == color && h.bounds.lower == Some(lower) && h.bounds.upper.None?
    ensures forall study :: ColorCountPredicts(h, study) <==> lower <= ColorCount(study, color)
  {
    ColorCountBoundednessHypothesis(color, AtLeast(lower))
  }

  /** `ColorCountBoundednessHypothesis::new_upper`: no lower bound. */
  function NewUpperColorCount(color: Color, upper: nat): (h: ColorCountBoundednessHypothesis)
    ensures h.color == color && h.bounds.lower.None? && h.bounds.upper == Some(upper)
    ensures forall study :: ColorCountPredicts(h, study) <==> ColorCount(study, color) <= upper
  {
    ColorCountBoundednessHypothesis(color, AtMost(upper))
  }

  /** The verdict depends on nothing but the count of the hypothesis' colour. */
  lemma ColorCountVerdictFollowsCount(h: ColorCountBoundednessHypothesis, a: Study, b: Study)
    requires ColorCount(a, h.color) == ColorCount(b, h.color)
    ensures ColorCountPredicts(h, a) == ColorCountPredicts(h, b)
  {
  }

  /** Bounds the wrong way round can never be met. */
  lemma InvertedColorCountNeverHolds(color: Color, lower: nat, upper: nat, study: Study)
    requires lower > upper
    ensures !ColorCountPredicts(NewColorCount(color, lower, upper), study)
  {
  }

  /** The description: the colour topic, then "is exactly n" when both bounds
      are equal, otherwise the bound clauses with "and" exactly when both are
      present. */
  function ColorCountDescription(h: ColorCountBoundednessHypothesis): (cs: seq<Clause>)
    ensures |cs| >= 1 && cs[0] == Topic(ColorName(h.color) + " triangles")
    ensures h.bounds.lower.Some? && h.bounds.lower == h.bounds.upper ==>
      cs == [Topic(ColorName(h.color) + " triangles"), Exactly(h.bounds.lower.value)]
    ensures Conjunction in cs <==>
      h.bounds.lower.Some? && h.bounds.upper.Some? && h.bounds.lower != h.bounds.upper
  {
    [Topic(ColorName(h.color) + " triangles")] + ExactAwareClauses(h.bounds)
  }

  /* ---------------------------------------------------------------------- */
  /* SizeCountBoundednessHypothesis                                         */
  /* ---------------------------------------------------------------------- */

  datatype SizeCountBoundednessHypothesis = SizeCountBoundednessHypothesis(size: Size, bounds: Interval)

  /** The count of `h.size` lies within the bounds that are present. */
  function SizeCountPredicts(h: SizeCountBoundednessHypothesis, readings: Readings): (r: bool)
    ensures r <==> Within(h.bounds, readings.sizeCount(h.size))
  {
    Admits(h.bounds, readings.sizeCount(h.size))
  }

  /** `SizeCountBoundednessHypothesis::new`: both bounds. */
  function NewSizeCount(size: Size, lower: nat, upper: nat): (h: SizeCountBoundednessHypothesis)
    ensures h.size == size && h.bounds.lower == Some(lower) && h.bounds.upper == Some(upper)
    ensures forall rs :: SizeCountPredicts(h, rs) <==> lower <= rs.sizeCount(size) <= upper
  {
    SizeCountBoundednessHypothesis(size, Between(lower, upper))
  }

  /** `SizeCountBoundednessHypothesis::new_lower`: no upper bound. */
  function NewLowerSizeCount(size: Size, lower: nat): (h: SizeCountBoundednessHypothesis)
    ensures h.size == size && h.bounds.lower == Some(lower) && h.bounds.upper.None?
    ensures forall rs :: SizeCountPredicts(h, rs) <==> lower <= rs.sizeCount(size)
  {
    SizeCountBoundednessHypothesis(size, AtLeast(lower))
  }

  /** `SizeCountBoundednessHypothesis::new_upper`: no lower bound. */
  function NewUpperSizeCount(size: Size, upper: nat): (h: SizeCountBoundednessHypothesis)
    ensures h.size == size && h.bounds.lower.None? && h.bounds.upper == Some(upper)
    ensures forall rs :: SizeCountPredicts(h, rs) <==> rs.sizeCount(size) <= upper
  {
    SizeCountBoundednessHypothesis(size, AtMost(upper))
  }

  /** The verdict depends on nothing but the count of the hypothesis' size. */
  lemma SizeCountVerdictFollowsCount(h: SizeCountBoundednessHypothesis, a: Readings, b: Readings)
    requires a.sizeCount(h.size) == b.sizeCount(h.size)
    ensures SizeCountPredicts(h, a) == SizeCountPredicts(h, b)
  {
  }

  /** The description has no exact case: "and" appears exactly when both
      bounds are present, equal or not. */
  function SizeCountDescription(h: SizeCountBoundednessHypothesis): (cs: seq<Clause>)
    ensures |cs| >= 1 && cs[0] == Topic("size-" + SizeName(h.size) + " triangles")
    ensures Conjunction in cs <==> h.bounds.lower.Some? && h.bounds.upper.Some?
    ensures forall k: nat :: Exactly(k) !in cs
  {
    [Topic("size-" + SizeName(h.size) + " triangles")] + BoundClauses(h.bounds)
  }

  /* ---------------------------------------------------------------------- */
  /* GroundednessCountBoundednessHypothesis                                 */
  /* ---------------------------------------------------------------------- */

  datatype GroundednessCountBoundednessHypothesis =
    GroundednessCountBoundednessHypothesis(grounded: bool, bounds: Interval)

  /** The number of (un)grounded triangles lies within the bounds present. */
  function GroundednessCountPredicts(h: GroundednessCountBoundednessHypothesis, readings: Readings): (r: bool)
    ensures r <==> Within(h.bounds, readings.groundednessCount(h.grounded))
  {
    Admits(h.bounds, readings.groundednessCount(h.grounded))
  }

  /** `GroundednessCountBoundednessHypothesis::new`: both bounds. */
  function NewGroundednessCount(grounded: bool, lower: nat, upper: nat): (h: GroundednessCountBoundednessHypothesis)
    ensures h.grounded == grounded && h.bounds.lower == Some(lower) && h.bounds.upper == Some(upper)
    ensures forall rs :: GroundednessCountPredicts(h, rs) <==> lower <= rs.groundednessCount(grounded) <= upper
  {
    GroundednessCountBoundednessHypothesis(grounded, Between(lower, upper))
  }

  /** `GroundednessCountBoundednessHypothesis::new_lower`: no upper bound. */
  function NewLowerGroundednessCount(grounded: bool, lower: nat): (h: GroundednessCountBoundednessHypothesis)
    ensures h.grounded == grounded && h.bounds.lower == Some(lower) && h.bounds.upper.None?
    ensures forall rs :: GroundednessCountPredicts(h, rs) <==> lower <= rs.groundednessCount(grounded)
  {
    GroundednessCountBoundednessHypothesis(grounded, AtLeast(lower))
  }

  /** `GroundednessCountBoundednessHypothesis::new_upper`: no lower bound. */
  function NewUpperGroundednessCount(grounded: bool, upper: nat): (h: GroundednessCountBoundednessHypothesis)
    ensures h.grounded == grounded && h.bounds.lower.None? && h.bounds.upper == Some(upper)
    ensures forall rs :: GroundednessCountPredicts(h, rs) <==> rs.groundednessCount(grounded) <= upper
  {
    GroundednessCountBoundednessHypothesis(grounded, AtMost(upper))
  }

  /** The description names "ungrounded" triangles exactly when `grounded` is
      false, and has "and" exactly when both bounds are present. */
  function GroundednessCountDescription(h: GroundednessCountBoundednessHypothesis): (cs: seq<Clause>)
    ensures |cs| >= 1 && cs[0].Topic?
    ensures "un" <= cs[0].noun <==> !h.grounded
    ensures Conjunction in cs <==> h.bounds.lower.Some? && h.bounds.upper.Some?
  {
    var noun := if h.grounded then "grounded triangles" else "ungrounded triangles";
    assert noun[0] == 'u' <==> !h.grounded;
    [Topic(noun)] + BoundClauses(h.bounds)
  }

  /* ---------------------------------------------------------------------- */
  /* PipBoundednessHypothesis                                               */
  /* ---------------------------------------------------------------------- */

  datatype PipBoundednessHypothesis = PipBoundednessHypothesis(bounds: Interval)

  /** The pip count lies within the bounds that are present. */
  function PipBoundednessPredicts(h: PipBoundednessHypothesis, readings: Readings): (r: bool)
    ensures r <==> Within(h.bounds, readings.pipCount)
  {
    Admits(h.bounds, readings.pipCount)
  }

  /** `PipBoundednessHypothesis::new`: both bounds. */
  function NewPipBoundedness(lower: nat, upper: nat): (h: PipBoundednessHypothesis)
    ensures h.bounds.lower == Some(lower) && h.bounds.upper == Some(upper)
    ensures forall rs :: PipBoundednessPredicts(h, rs) <==> lower <= rs.pipCount <= upper
  {
    PipBoundednessHypothesis(Between(lower, upper))
  }

  /** `PipBoundednessHypothesis::exactly`: holds for that pip count only. */
  function ExactlyPips(count: nat): (h: PipBoundednessHypothesis)
    ensures h.bounds.lower == Some(count) && h.bounds.upper == Some(count)
    ensures forall rs :: PipBoundednessPredicts(h, rs) <==> rs.pipCount == count
  {
    PipBoundednessHypothesis(Between(count, count))
  }

  /** `PipBoundednessHypothesis::at_least`: no upper bound. */
  function AtLeastPips(lower: nat): (h: PipBoundednessHypothesis)
    ensures h.bounds.lower == Some(lower) && h.bounds.upper.None?
    ensures forall rs :: PipBoundednessPredicts(h, rs) <==> lower <= rs.pipCount
  {
    PipBoundednessHypothesis(AtLeast(lower))
  }

  /** `PipBoundednessHypothesis::at_most`: no lower bound. */
  function AtMostPips(upper: nat): (h: PipBoundednessHypothesis)
    ensures h.bounds.lower.None? && h.bounds.upper == Some(upper)
    ensures forall rs :: PipBoundednessPredicts(h, rs) <==> rs.pipCount <= upper
  {
    PipBoundednessHypothesis(AtMost(upper))
  }

  /** The description: "is exactly n" for equal bounds, otherwise the bound
      clauses with "and" exactly when both bounds are present. */
  function PipBoundednessDescription(h: PipBoundednessHypothesis): (cs: seq<Clause>)
    ensures |cs| >= 1 && cs[0] == Topic("pips")
    ensures h.bounds.lower.Some? && h.bounds.lower == h.bounds.upper ==>
      cs == [Topic("pips"), Exactly(h.bounds.lower.value)]
    ensures Conjunction in cs <==>
      h.bounds.lower.Some? && h.bounds.upper.Some? && h.bounds.lower != h.bounds.upper
  {
    [Topic("pips")] + ExactAwareClauses(h.bounds)
  }

  /* ---------------------------------------------------------------------- */
  /* PipParityHypothesis                                                    */
  /* ---------------------------------------------------------------------- */

  datatype PipParityHypothesis = PipParityHypothesis(modulus: nat)

  /** `PipParityHypothesis::new`. */
  function NewPipParity(modulus: nat): (h: PipParityHypothesis)
    ensures h.modulus == modulus
    ensures modulus > 0 ==> forall rs :: PipParityPredicts(h, rs) <==> IsMultiple(rs.pipCount, modulus)
  {
    PipParityHypothesis(modulus)
  }

  /** The pip count is a multiple of the modulus. The modulus must be positive:
      a remainder by zero panics. */
  function PipParityPredicts(h: PipParityHypothesis, readings: Readings): (r: bool)
    requires h.modulus > 0
    ensures r <==> IsMultiple(readings.pipCount, h.modulus)
  {
    RemainderTest(readings.pipCount, h.modulus);
    readings.pipCount % h.modulus == 0
  }

  /** Equal pip counts get equal verdicts, and modulus 1 accepts everything. */
  lemma PipParityFollowsPipCount(h: PipParityHypothesis, a: Readings, b: Readings)
    requires h.modulus > 0
    ensures a.pipCount == b.pipCount ==> PipParityPredicts(h, a) == PipParityPredicts(h, b)
    ensures h.modulus == 1 ==> PipParityPredicts(h, a)
  {
  }

  /** "the total pip count is divisible by m": the pips topic, then one
      clause naming the modulus and no other number. */
  function PipParityDescription(h: PipParityHypothesis): (cs: seq<Clause>)
    ensures |cs| == 2 && cs[0] == Topic("pips")
    ensures forall k: nat :: DivisibleBy(k) in cs <==> k == h.modulus
  {
    [Topic("pips"), DivisibleBy(h.modulus)]
  }

  /** Different moduli are described differently. */
  lemma PipParityDescriptionInjective(a: PipParityHypothesis, b: PipParityHypothesis)
    ensures PipParityDescription(a) == PipParityDescription(b) <==> a == b
  {
    if PipParityDescription(a) == PipParityDescription(b) {
      assert DivisibleBy(a.modulus) in PipParityDescription(b);
    }
  }

  /* ---------------------------------------------------------------------- */
  /* BasicHypothesis                                                        */
  /* ---------------------------------------------------------------------- */

  /** The closed set of basic hypotheses: a colour-count or a size-count
      boundedness hypothesis. Equal exactly when the variant and the wrapped
      value are equal. */
  datatype BasicHypothesis =
    | ColorCountBoundedness(colorHypothesis: ColorCountBoundednessHypothesis)
    | SizeCountBoundedness(sizeHypothesis: SizeCountBoundednessHypothesis)

  /** Dispatch to the wrapped hypothesis. */
  function BasicPredicts(h: BasicHypothesis, subject: Subject): (r: bool)
    ensures h.ColorCountBoundedness? ==>
      (r <==> Within(h.colorHypothesis.bounds, ColorCount(subject.study, h.colorHypothesis.color)))
    ensures h.SizeCountBoundedness? ==>
      (r <==> Within(h.sizeHypothesis.bounds, subject.readings.sizeCount(h.sizeHypothesis.size)))
  {
    match h
    case ColorCountBoundedness(c) => ColorCountPredicts(c, subject.study)
    case SizeCountBoundedness(s) => SizeCountPredicts(s, subject.readings)
  }

  /** Dispatch to the wrapped hypothesis' description: its topic first, and
      its rule for "and". */
  function BasicDescription(h: BasicHypothesis): (cs: seq<Clause>)
    ensures |cs| >= 1
    ensures h.ColorCountBoundedness? ==>
      cs[0] == Topic(ColorName(h.colorHypothesis.color) + " triangles")
    ensures h.SizeCountBoundedness? ==>
      cs[0] == Topic("size-" + SizeName(h.sizeHypothesis.size) + " triangles")
    ensures h.ColorCountBoundedness? ==> var b := h.colorHypothesis.bounds;
      (Conjunction in cs <==> b.lower.Some? && b.upper.Some? && b.lower != b.upper)
    ensures h.SizeCountBoundedness? ==> var b := h.sizeHypothesis.bounds;
      (Conjunction in cs <==> b.lower.Some? && b.upper.Some?)
  {
    match h
    case ColorCountBoundedness(c) => ColorCountDescription(c)
    case SizeCountBoundedness(s) => SizeCountDescription(s)
  }

  /** `From<ColorCountBoundednessHypothesis>`. */
  function FromColorCount(h: ColorCountBoundednessHypothesis): (b: BasicHypothesis)
    ensures b.ColorCountBoundedness? && b.colorHypothesis == h
  {
    ColorCountBoundedness(h)
  }

  /** `From<SizeCountBoundednessHypothesis>`. */
  function FromSizeCount(h: SizeCountBoundednessHypothesis): (b: BasicHypothesis)
    ensures b.SizeCountBoundedness? && b.sizeHypothesis == h
  {
    SizeCountBoundedness(h)
  }

  /** A wrapped hypothesis keeps its verdict on every subject and its
      description. */
  lemma FromKeepsMeaning(c: ColorCountBoundednessHypothesis, s: SizeCountBoundednessHypothesis, subject: Subject)
    ensures BasicPredicts(FromColorCount(c), subject) == ColorCountPredicts(c, subject.study)
    ensures BasicPredicts(FromSizeCount(s), subject) == SizeCountPredicts(s, subject.readings)
    ensures BasicDescription(FromColorCount(c)) == ColorCountDescription(c)
    ensures BasicDescription(FromSizeCount(s)) == SizeCountDescription(s)
  {
  }

  /** The conversions are injective and never collide. */
  lemma BasicHypothesisEquality(a: ColorCountBoundednessHypothesis, a': ColorCountBoundednessHypothesis,
                                b: SizeCountBoundednessHypothesis, b': SizeCountBoundednessHypothesis)
    ensures FromColorCount(a) == FromColorCount(a') <==> a == a'
    ensures FromSizeCount(b) == FromSizeCount(b') <==> b == b'
    ensures FromColorCount(a) != FromSizeCount(b)
  {
  }
}
