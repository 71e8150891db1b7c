/** The standard space of basic triangle hypotheses: for every colour and then
    for every size, the nine count shapes "exactly 1, 2, 3", "at least 1, 2, 3"
    and "at most 0, 1, 2". The colours and sizes are passed in, in the order
    their enumerations yield them. */
module StandardBasics {
  import opened Wrappers
  import opened Collections
  import opened Bounds
  import opened TriangleStudies
  import opened TriangleHypotheses

  /** The k-th of the nine count shapes, in emission order. */
  function Shape(k: nat): (b: Interval)
    requires k < 9
    ensures k < 3 ==> b.lower == Some(k + 1) && b.upper == Some(k + 1)
    ensures 3 <= k < 6 ==> b.lower == Some(k - 2) && b.upper.None?
    ensures 6 <= k ==> b.lower.None? && b.upper == Some(k - 6)
  {
    if k < 3 then Between(k + 1, k + 1)
    else if k < 6 then AtLeast(k - 2)
    else AtMost(k - 6)
  }

  /** No shape is emitted twice. */
  lemma ShapesDistinct(a: nat, b: nat)
    requires a < 9 && b < 9
    ensures Shape(a) == Shape(b) <==> a == b
  {
  }

  /** Entry `9 * i + k` of the colour part. */
  function ColorEntry(color: Color, k: nat): BasicHypothesis
    requires k < 9
  {
    FromColorCount(ColorCountBoundednessHypothesis(color, Shape(k)))
  }

  /** Entry `9 * i + k` of the size part. */
  function SizeEntry(size: Size, k: nat): BasicHypothesis
    requires k < 9
  {
    FromSizeCount(SizeCountBoundednessHypothesis(size, Shape(k)))
  }

  /** The nine colour-count hypotheses of one colour, in emission order. */
  method ColorBlock(color: Color) returns (block: seq<BasicHypothesis>)
    ensures |block| == 9
    ensures forall k :: 0 <= k < 9 ==> block[k] == ColorEntry(color, k)
  {
    block := [];
    for exact := 1 to 4
      invariant |block| == exact - 1
      invariant forall k :: 0 <= k < |block| ==> block[k] == ColorEntry(color, k)
    {
      assert FromColorCount(NewColorCount(color, exact, exact)) == ColorEntry(color, exact - 1);
      block := block + [FromColorCount(NewColorCount(color, exact, exact))];
    }
    for lower := 1 to 4
      invariant |block| == 3 + lower - 1
      invariant forall k :: 0 <= k < |block| ==> block[k] == ColorEntry(color, k)
    {
      assert FromColorCount(NewLowerColorCount(color, lower)) == ColorEntry(color, 3 + lower - 1);
      block := block + [FromColorCount(NewLowerColorCount(color, lower))];
    }
    for upper := 0 to 3
      invariant |block| == 6 + upper
      invariant forall k :: 0 <= k < |block| ==> block[k] == ColorEntry(color, k)
    {
      assert FromColorCount(NewUpperColorCount(color, upper)) == ColorEntry(color, 6 + upper);
      block := block + [FromColorCount(NewUpperColorCount(color, upper))];
    }
  }

  /** The nine size-count hypotheses of one size, in emission order. */
  method SizeBlock(size: Size) returns (block: seq<BasicHypothesis>)
    ensures |block| == 9
    ensures forall k :: 0 <= k < 9 ==> block[k] == SizeEntry(size, k)
  {
    block := [];
    for exact := 1 to 4
      invariant |block| == exact - 1
      invariant forall k :: 0 <= k < |block| ==> block[k] == SizeEntry(size, k)
    {
      assert FromSizeCount(NewSizeCount(size, exact, exact)) == SizeEntry(size, exact - 1);
      block := block + [FromSizeCount(NewSizeCount(size, exact, exact))];
    }
    for lower := 1 to 4
      invariant |block| == 3 + lower - 1
      invariant forall k :: 0 <= k < |block| ==> block[k] == SizeEntry(size, k)
    {
      assert FromSizeCount(NewLowerSizeCount(size, lower)) == SizeEntry(size, 3 + lower - 1);
      block := block + [FromSizeCount(NewLowerSizeCount(size, lower))];
    }
    for upper := 0 to 3
      invariant |block| == 6 + upper
      invariant forall k :: 0 <= k < |block| ==> block[k] == SizeEntry(size, k)
    {
      assert FromSizeCount(NewUpperSizeCount(size, upper)) == SizeEntry(size, 6 + upper);
      block := block + [FromSizeCount(NewUpperSizeCount(size, upper))];
    }
  }

  /** Position `9 * i + k` is shape `k` of block `i`. */
  lemma BlockPosition(i: nat, k: nat)
    requires k < 9
    ensures (9 * i + k) / 9 == i && (9 * i + k) % 9 == k
  {
  }

  /** `standard_basic_hypotheses` without the pip parity entries: all colour
      entries, colour by colour, then all size entries, size by size; within
      each the exact, the lower-only and the upper-only shapes. Distinct colours
      and distinct sizes give distinct hypotheses. */
  method StandardBasicHypotheses(colors: seq<Color>, sizes: seq<Size>) returns (hs: seq<BasicHypothesis>)
    ensures |hs| == 9 * |colors| + 9 * |sizes|
    ensures forall j :: 0 <= j < 9 * |colors| ==> hs[j] == ColorEntry(colors[j / 9], j % 9)
    ensures forall j :: 9 * |colors| <= j < |hs| ==>
      hs[j] == SizeEntry(sizes[(j - 9 * |colors|) / 9], (j - 9 * |colors|) % 9)
    ensures Distinct(colors) && Distinct(sizes) ==> Distinct(hs)
  {
    var colorPart := [];
    for i := 0 to |colors|
      invariant |colorPart| == 9 * i
      invariant forall j :: 0 <= j < |colorPart| ==> colorPart[j] == ColorEntry(colors[j / 9], j % 9)
    {
      var block := ColorBlock(colors[i]);
      var extended := colorPart + block;
      forall j | 9 * i <= j < |extended| ensures extended[j] == ColorEntry(colors[j / 9], j % 9) {
        BlockPosition(i, j - 9 * i);
      }
      colorPart := extended;
    }
    var sizePart := [];
    for i := 0 to |sizes|
      invariant |sizePart| == 9 * i
      invariant forall j :: 0 <= j < |sizePart| ==> sizePart[j] == SizeEntry(sizes[j / 9], j % 9)
    {
      var block := SizeBlock(sizes[i]);
      var extended := sizePart + block;
      forall j | 9 * i <= j < |extended| ensures extended[j] == SizeEntry(sizes[j / 9], j % 9) {
        BlockPosition(i, j - 9 * i);
      }
      sizePart := extended;
    }
    hs := colorPart + sizePart;
    if Distinct(colors) && Distinct(sizes) {
      forall a, b | 0 <= a < b < |hs| ensures hs[a] != hs[b] {
        EntriesDiffer(colors, sizes, hs, a, b);
      }
    }
  }

  /** Two positions of the standard space hold different hypotheses. */
  lemma EntriesDiffer(colors: seq<Color>, sizes: seq<Size>, hs: seq<BasicHypothesis>, a: nat, b: nat)
    requires Distinct(colors) && Distinct(sizes)
    requires |hs| == 9 * |colors| + 9 * |sizes|
    requires forall j :: 0 <= j < 9 * |colors| ==> hs[j] == ColorEntry(colors[j / 9], j % 9)
    requires forall j :: 9 * |colors| <= j < |hs| ==>
      hs[j] == SizeEntry(sizes[(j - 9 * |colors|) / 9], (j - 9 * |colors|) % 9)
    requires a < b < |hs|
    ensures hs[a] != hs[b]
  {
    var n := 9 * |colors|;
    if b < n {
      ShapesDistinct(a % 9, b % 9);
      if colors[a / 9] == colors[b / 9] {
        assert a / 9 == b / 9;
        assert a % 9 != b % 9;
      }
    } else if n <= a {
      ShapesDistinct((a - n) % 9, (b - n) % 9);
      if sizes[(a - n) / 9] == sizes[(b - n) / 9] {
        assert (a - n) / 9 == (b - n) / 9;
        assert (a - n) % 9 != (b - n) % 9;
      }
    }
  }
}
