/** The subject domain of the triangle game: triangles in stacks, stacks in a
    study, and the in-order iteration over a study's triangles. */
module TriangleStudies {
  import opened Wrappers

  datatype Size = One | Two | Three

  datatype Color = Red | Blue | Green | Yellow

  datatype Triangle = Triangle(size: Size, color: Color)

  datatype Stack = Stack(triangles: seq<Triangle>)

  datatype Study = Study(stacks: seq<Stack>)

  /** `Stack::new`. */
  function NewStack(): (s: Stack)
    ensures |s.triangles| == 0
  {
    Stack([])
  }

  /** `Study::new`. */
  function NewStudy(): (s: Study)
    ensures |s.stacks| == 0
    ensures Triangles(s) == [] && forall color :: ColorCount(s, color) == 0
  {
    Study([])
  }

  /** `Stack::push`: the triangle goes on the end, the others stay. */
  function Push(stack: Stack, triangle: Triangle): (r: Stack)
    ensures |r.triangles| == |stack.triangles| + 1
    ensures r.triangles[..|stack.triangles|] == stack.triangles
    ensures r.triangles[|stack.triangles|] == triangle
  {
    Stack(stack.triangles + [triangle])
  }

  /** `Study::append`: the stack goes on the end, the others stay. */
  function Append(study: Study, stack: Stack): (r: Study)
    ensures |r.stacks| == |study.stacks| + 1
    ensures r.stacks[..|study.stacks|] == study.stacks
    ensures r.stacks[|study.stacks|] == stack
  {
    Study(study.stacks + [stack])
  }

  /* ---------------------------------------------------------------------- */
  /* Flattening                                                             */
  /* ---------------------------------------------------------------------- */

  /** The triangles of `stacks`, stack after stack, each front to back. */
  function Flatten(stacks: seq<Stack>): seq<Triangle> {
    if |stacks| == 0 then []
    else Flatten(stacks[..|stacks| - 1]) + stacks[|stacks| - 1].triangles
  }

  /** The triangles of a study in iteration order. */
  function Triangles(study: Study): seq<Triangle> {
    Flatten(study.stacks)
  }

  /** Number of triangles in the first `k` stacks. */
  function Offset(study: Study, k: nat): nat
    requires k <= |study.stacks|
  {
    |Flatten(study.stacks[..k])|
  }

  /** The first `k` stacks flatten to a prefix of the whole flattening. */
  lemma {:induction false} FlattenPrefix(stacks: seq<Stack>, k: nat)
    requires k <= |stacks|
    ensures Flatten(stacks[..k]) <= Flatten(stacks)
    decreases |stacks| - k
  {
    if k < |stacks| {
      FlattenPrefix(stacks, k + 1);
      assert stacks[..k + 1][..k] == stacks[..k];
      assert Flatten(stacks[..k + 1]) == Flatten(stacks[..k]) + stacks[k].triangles;
    } else {
      assert stacks[..k] == stacks;
    }
  }

  /** Triangle `j` of stack `k` sits at position `Offset(k) + j`. */
  lemma StackInFlattening(study: Study, k: nat, j: nat)
    requires k < |study.stacks| && j <= |study.stacks[k].triangles|
    ensures Offset(study, k + 1) == Offset(study, k) + |study.stacks[k].triangles|
    ensures Offset(study, k + 1) <= |Triangles(study)|
    ensures j < |study.stacks[k].triangles| ==>
      Triangles(study)[Offset(study, k) + j] == study.stacks[k].triangles[j]
  {
    var stacks := study.stacks;
    assert stacks[..k + 1][..k] == stacks[..k];
    assert Flatten(stacks[..k + 1]) == Flatten(stacks[..k]) + stacks[k].triangles;
    FlattenPrefix(stacks, k + 1);
  }

  /* ---------------------------------------------------------------------- */
  /* Iteration (`StudyIter`)                                                */
  /* ---------------------------------------------------------------------- */

  /** Iterator state: the current stack and the position inside it. */
  datatype StudyIter = StudyIter(stackIndex: nat, triangleIndex: nat)

  /** `IntoIterator for &Study`: start at the first triangle of the first stack. */
  function IntoIter(): StudyIter {
    StudyIter(0, 0)
  }

  /** The states `IntoIter` and `Next` can reach. */
  ghost predicate ValidIter(study: Study, it: StudyIter) {
    && it.stackIndex <= |study.stacks|
    && (it.stackIndex < |study.stacks| ==> it.triangleIndex <= |study.stacks[it.stackIndex].triangles|)
    && (it.stackIndex == |study.stacks| ==> it.triangleIndex == 0)
  }

  /** Number of triangles already yielded by an iterator in state `it`. */
  ghost function Position(study: Study, it: StudyIter): nat
    requires ValidIter(study, it)
  {
    Offset(study, it.stackIndex) + it.triangleIndex
  }

  /** `StudyIter::next`: yield the current triangle of the current stack, or
      move on to the start of the next stack (skipping empty stacks) and try
      again; nothing once the stacks run out. The yielded triangle is always the
      next one of the flattening, and nothing is yielded only at its end. */
  function Next(study: Study, it: StudyIter): (r: Option<(Triangle, StudyIter)>)
    requires ValidIter(study, it)
    ensures r.None? <==> Position(study, it) == |Triangles(study)|
    ensures r.Some? ==>
      && Position(study, it) < |Triangles(study)|
      && r.value.0 == Triangles(study)[Position(study, it)]
      && ValidIter(study, r.value.1)
      && Position(study, r.value.1) == Position(study, it) + 1
    decreases |study.stacks| - it.stackIndex
  {
    if it.stackIndex < |study.stacks| then
      var stack := study.stacks[it.stackIndex];
      StackInFlattening(study, it.stackIndex, it.triangleIndex);
      if it.triangleIndex < |stack.triangles| then
        Some((stack.triangles[it.triangleIndex], StudyIter(it.stackIndex, it.triangleIndex + 1)))
      else
        Next(study, StudyIter(it.stackIndex + 1, 0))
    else
      assert study.stacks[..it.stackIndex] == study.stacks;
      None
  }

  /** Drive the iterator to exhaustion, collecting what it yields: exactly the
      triangles of every stack, in stack order and front to back. */
  method Collect(study: Study) returns (items: seq<Triangle>)
    ensures items == Triangles(study)
  {
    var it := IntoIter();
    items := [];
    var next := Next(study, it);
    while next.Some?
      invariant ValidIter(study, it)
      invariant next == Next(study, it)
      invariant items == Triangles(study)[..Position(study, it)]
      decreases |Triangles(study)| - Position(study, it)
    {
      items := items + [next.value.0];
      it := next.value.1;
      next := Next(study, it);
    }
  }

  /* ---------------------------------------------------------------------- */
  /* Counting colours                                                       */
  /* ---------------------------------------------------------------------- */

  /** Number of triangles of colour `color` in `ts`. */
  function CountColor(ts: seq<Triangle>, color: Color): nat {
    if |ts| == 0 then 0
    else CountColor(ts[..|ts| - 1], color) + (if ts[|ts| - 1].color == color then 1 else 0)
  }

  lemma {:induction false} CountColorConcat(a: seq<Triangle>, b: seq<Triangle>, color: Color)
    ensures CountColor(a + b, color) == CountColor(a, color) + CountColor(b, color)
    decreases |b|
  {
    if |b| > 0 {
      assert (a + b)[..|a + b| - 1] == a + b[..|b| - 1];
      CountColorConcat(a, b[..|b| - 1], color);
    } else {
      assert a + b == a;
    }
  }

  /** The positions in `ts` of the triangles of colour `color`. */
  ghost function ColorPositions(ts: seq<Triangle>, color: Color): set<nat> {
    set i: nat | i < |ts| && ts[i].color == color
  }

  /** Counting one by one finds every position of the colour. */
  lemma {:induction false} CountColorPositions(ts: seq<Triangle>, color: Color)
    ensures CountColor(ts, color) == |ColorPositions(ts, color)|
  {
    if |ts| > 0 {
      var n := |ts| - 1;
      var init := ts[..n];
      CountColorPositions(init, color);
      if ts[n].color == color {
        assert ColorPositions(ts, color) == ColorPositions(init, color) + {n};
      } else {
        assert ColorPositions(ts, color) == ColorPositions(init, color);
      }
    } else {
      assert ColorPositions(ts, color) == {};
    }
  }

  /** `Study::color_count`: the triangles of colour `color` met by iterating
      the study, one for each position of the flattening that has it. */
  function ColorCount(study: Study, color: Color): (n: nat)
    ensures n == |ColorPositions(Triangles(study), color)|
    ensures n <= |Triangles(study)|
  {
    CountColorBound(Triangles(study), color);
    CountColorPositions(Triangles(study), color);
    CountColor(Triangles(study), color)
  }

  lemma {:induction false} CountColorBound(ts: seq<Triangle>, color: Color)
    ensures CountColor(ts, color) <= |ts|
  {
    if |ts| > 0 {
      CountColorBound(ts[..|ts| - 1], color);
    }
  }

  /** Appending a stack appends its triangles to the iteration. */
  lemma TrianglesAppend(study: Study, stack: Stack)
    ensures Triangles(Append(study, stack)) == Triangles(study) + stack.triangles
  {
    var r := Append(study, stack);
    assert r.stacks[..|r.stacks| - 1] == study.stacks;
  }

  /** Appending a stack adds exactly that stack's triangles of the colour. */
  lemma ColorCountAppend(study: Study, stack: Stack, color: Color)
    ensures ColorCount(Append(study, stack), color) ==
            ColorCount(study, color) + CountColor(stack.triangles, color)
  {
    var r := Append(study, stack);
    assert r.stacks[..|r.stacks| - 1] == study.stacks;
    CountColorConcat(Triangles(study), stack.triangles, color);
  }

  /** Every triangle has one of the four colours, so the four colour counts add
      up to the number of triangles. */
  lemma {:induction false} ColorCountsPartition(ts: seq<Triangle>)
    ensures CountColor(ts, Red) + CountColor(ts, Blue) + CountColor(ts, Green)
            + CountColor(ts, Yellow) == |ts|
  {
    if |ts| > 0 {
      ColorCountsPartition(ts[..|ts| - 1]);
    }
  }

  lemma ColorCountsSumToTotal(study: Study)
    ensures ColorCount(study, Red) + ColorCount(study, Blue) + ColorCount(study, Green)
            + ColorCount(study, Yellow) == |Triangles(study)|
  {
    ColorCountsPartition(Triangles(study));
  }

  /* ---------------------------------------------------------------------- */
  /* The studies of the unit tests                                          */
  /* ---------------------------------------------------------------------- */

  /** Two stacks of two triangles. */
  function TwoStacksStudy(): Study {
    Append(Append(NewStudy(),
                  Push(Push(NewStack(), Triangle(Three, Blue)), Triangle(One, Red))),
           Push(Push(NewStack(), Triangle(Two, Green)), Triangle(One, Yellow)))
  }

  /** Iterating the two-stacks study yields four triangles. */
  lemma TwoStacksIteration()
    ensures |Triangles(TwoStacksStudy())| == 4
  {
    var a := Push(Push(NewStack(), Triangle(Three, Blue)), Triangle(One, Red));
    var b := Push(Push(NewStack(), Triangle(Two, Green)), Triangle(One, Yellow));
    assert |a.triangles| == 2 && |b.triangles| == 2;
    var first := Append(NewStudy(), a);
    TrianglesAppend(NewStudy(), a);
    assert |Triangles(first)| == 2;
    TrianglesAppend(first, b);
  }

  /** Three blue triangles, an empty stack, then a yellow and a blue one. */
  function BlueStudy(): Study {
    Append(Append(Append(NewStudy(),
                         Push(Push(Push(NewStack(), Triangle(Three, Blue)), Triangle(Two, Blue)),
                              Triangle(One, Blue))),
                  NewStack()),
           Push(Push(NewStack(), Triangle(Three, Yellow)), Triangle(One, Blue)))
  }

  /** The empty middle stack does not end the count: four blue triangles. */
  lemma BlueStudyCount()
    ensures ColorCount(BlueStudy(), Blue) == 4
  {
    var b3, b2, b1, y3 := Triangle(Three, Blue), Triangle(Two, Blue), Triangle(One, Blue), Triangle(Three, Yellow);
    BlueStudyTriangles();
    CountColorConcat([b3, b2, b1], [y3, b1], Blue);
    CountColorConcat([b3], [b2, b1], Blue);
    CountColorConcat([b2], [b1], Blue);
    CountColorConcat([y3], [b1], Blue);
    assert [b3, b2, b1] + [y3, b1] == [b3, b2, b1, y3, b1];
    assert [b3] + [b2, b1] == [b3, b2, b1];
    assert [b2] + [b1] == [b2, b1];
    assert [y3] + [b1] == [y3, b1];
  }

  lemma BlueStudyTriangles()
    ensures Triangles(BlueStudy()) ==
      [Triangle(Three, Blue), Triangle(Two, Blue), Triangle(One, Blue), Triangle(Three, Yellow), Triangle(One, Blue)]
  {
    var s := BlueStudy();
    var first := Append(NewStudy(), s.stacks[0]);
    var second := Append(first, s.stacks[1]);
    TrianglesAppend(NewStudy(), s.stacks[0]);
    TrianglesAppend(first, s.stacks[1]);
    TrianglesAppend(second, s.stacks[2]);
  }
}
