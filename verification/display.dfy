/** `wrapln!`: print a formatted message wrapped to 79 columns, breaking
    after the last space that fits, or hard at column 79 when no space fits.
    Characters stand for the bytes of an ASCII message. */
module Display {
  import opened Wrappers

  const Width: nat := 79

  /** `rfind(' ')`: the position of the last space, if any. */
  function LastSpace(s: string): (r: Option<nat>)
    ensures r.None? <==> ' ' !in s
    ensures r.Some? ==> r.value < |s| && s[r.value] == ' '
    ensures r.Some? ==> forall j :: r.value < j < |s| ==> s[j] != ' '
  {
    if |s| == 0 then None
    else if s[|s| - 1] == ' ' then Some(|s| - 1)
    else
      var r := LastSpace(s[..|s| - 1]);
      assert ' ' in s <==> ' ' in s[..|s| - 1] by {
        assert s == s[..|s| - 1] + [s[|s| - 1]];
      }
      r
  }

  /** Where an over-long remainder is split: just after the last space among
      its first 79 characters, or at 79 when there is none. */
  function SplitIndex(rest: string): (k: nat)
    requires |rest| > Width
    ensures 1 <= k <= Width
    ensures ' ' in rest[..Width] ==> rest[k - 1] == ' ' && ' ' !in rest[k..Width]
    ensures ' ' !in rest[..Width] ==> k == Width
  {
    match LastSpace(rest[..Width])
    case Some(i) => i + 1
    case None => Width
  }

  /** The lines `wrapln!` prints for `s`, first to last. */
  function Wrap(s: string): (lines: seq<string>)
    ensures |lines| >= 1
    decreases |s|
  {
    if |s| <= Width then [s]
    else
      var k := SplitIndex(s);
      [s[..k]] + Wrap(s[k..])
  }

  /** The lines joined back together. */
  function Concat(lines: seq<string>): string {
    if |lines| == 0 then [] else lines[0] + Concat(lines[1..])
  }

  /** The splitting loop of `wrapln!`: while more than 79 characters remain,
      split them and emit the first part; then emit what remains. */
  method Wrapln(formatted: string) returns (lines: seq<string>)
    ensures lines == Wrap(formatted)
    ensures Concat(lines) == formatted
    ensures forall i :: 0 <= i < |lines| ==> |lines[i]| <= Width
  {
    var rest := formatted;
    lines := [];
    while |rest| > Width
      invariant lines + Wrap(rest) == Wrap(formatted)
      decreases |rest|
    {
      var k := SplitIndex(rest);
      WrapStep(rest);
      assert (lines + [rest[..k]]) + Wrap(rest[k..]) == lines + Wrap(rest);
      lines := lines + [rest[..k]];
      rest := rest[k..];
    }
    assert Wrap(rest) == [rest];
    lines := lines + [rest];
    WrapRestores(formatted);
    WrapFits(formatted);
  }

  /** One turn of the loop: the first line is cut off at the split index. */
  lemma WrapStep(rest: string)
    requires |rest| > Width
    ensures Wrap(rest) == [rest[..SplitIndex(rest)]] + Wrap(rest[SplitIndex(rest)..])
  {
  }

  /** Joining the printed lines gives back the message: nothing is dropped,
      added or reordered. */
  lemma {:induction false} WrapRestores(s: string)
    ensures Concat(Wrap(s)) == s
    decreases |s|
  {
    if |s| <= Width {
      ConcatCons(s, []);
    } else {
      var k := SplitIndex(s);
      WrapRestores(s[k..]);
      WrapStep(s);
      ConcatCons(s[..k], Wrap(s[k..]));
      assert s[..k] + s[k..] == s;
    }
  }

  lemma ConcatCons(line: string, lines: seq<string>)
    ensures Concat([line] + lines) == line + Concat(lines)
  {
    assert ([line] + lines)[1..] == lines;
  }

  /** Every printed line, the last included, has at most 79 characters, and
      every line but the last is non-empty. */
  lemma {:induction false} WrapFits(s: string)
    ensures forall i :: 0 <= i < |Wrap(s)| ==> |Wrap(s)[i]| <= Width
    ensures forall i :: 0 <= i < |Wrap(s)| - 1 ==> |Wrap(s)[i]| >= 1
    decreases |s|
  {
    if |s| > Width {
      var k := SplitIndex(s);
      WrapFits(s[k..]);
      forall i | 1 <= i < |Wrap(s)| ensures Wrap(s)[i] == Wrap(s[k..])[i - 1] {
      }
    }
  }

  /** A message of at most 79 characters is printed as it is, on one line. */
  lemma ShortMessage(s: string)
    requires |s| <= Width
    ensures Wrap(s) == [s]
  {
  }

  /** The first line of a longer message: it ends just after the last space
      among the first 79 characters, with no space after it among them; with
      no such space it is exactly the first 79 characters. */
  lemma FirstLine(s: string)
    requires |s| > Width
    ensures |Wrap(s)| >= 2
    ensures s == Wrap(s)[0] + Concat(Wrap(s)[1..])
    ensures ' ' in s[..Width] ==>
      && Wrap(s)[0][|Wrap(s)[0]| - 1] == ' '
      && ' ' !in s[|Wrap(s)[0]|..Width]
    ensures ' ' !in s[..Width] ==> Wrap(s)[0] == s[..Width]
  {
    var k := SplitIndex(s);
    WrapRestores(s[k..]);
    assert Wrap(s)[1..] == Wrap(s[k..]);
    assert s[..k] + s[k..] == s;
  }
}
