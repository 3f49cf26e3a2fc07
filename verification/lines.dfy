/** Python's `str.splitlines()` and `sep.join(...)`, and how the two
    undo each other. */
module Lines {
  import opened Wrappers
  import opened Strings
  import opened Seqs

  /** The characters `str.splitlines()` breaks at ("\r\n" counts once). */
  predicate IsLineBreak(c: char)
  {
    || c == '\n' || c == '\r' || c == '\U{B}' || c == '\U{C}'
    || ('\U{1C}' <= c <= '\U{1E}')
    || c == '\U{85}' || c == '\U{2028}' || c == '\U{2029}'
  }

  predicate NoBreaks(s: string)
  {
    forall i :: 0 <= i < |s| ==> !IsLineBreak(s[i])
  }

  /** Every line break is whitespace, so stripping removes them at the ends. */
  lemma BreakIsSpace(c: char)
    ensures IsLineBreak(c) ==> IsSpace(c)
  {
  }

  /** Index of the first line break in `s`. */
  function FirstBreak(s: string): (r: Option<nat>)
    ensures r.Some? ==> r.value < |s| && IsLineBreak(s[r.value]) && NoBreaks(s[..r.value])
    ensures r.None? ==> NoBreaks(s)
  {
    if |s| == 0 then None
    else if IsLineBreak(s[0]) then Some(0)
    else match FirstBreak(s[1..])
      case None => None
      case Some(i) =>
        assert s[..i + 1] == [s[0]] + s[1..][..i];
        Some(i + 1)
  }

  /** A break preceded by a break-free prefix is the first break. */
  lemma FirstBreakAt(s: string, k: nat)
    requires k < |s| && IsLineBreak(s[k]) && NoBreaks(s[..k])
    ensures FirstBreak(s) == Some(k)
  {
    assert forall i :: 0 <= i < k ==> s[..k][i] == s[i];
    var f := FirstBreak(s);
    assert f.Some? ==> forall i :: 0 <= i < f.value ==> s[..f.value][i] == s[i];
  }

  /** Python's `s.splitlines()`: the lines of `s` without their breaks;
      a final break does not open an empty last line. */
  function SplitLines(s: string): (lines: seq<string>)
    decreases |s|
    ensures forall l :: l in lines ==> NoBreaks(l)
  {
    if |s| == 0 then []
    else match FirstBreak(s)
      case None => [s]
      case Some(i) =>
        var next := if s[i] == '\r' && i + 1 < |s| && s[i + 1] == '\n' then i + 2 else i + 1;
        [s[..i]] + SplitLines(s[next..])
  }

  /** Python's `sep.join(xs)`. */
  function Join(sep: string, xs: seq<string>): string
  {
    if |xs| == 0 then ""
    else if |xs| == 1 then xs[0]
    else xs[0] + sep + Join(sep, xs[1..])
  }

  /** `xs` without a final empty line, which joining and splitting lose. */
  function DropTrailingEmpty(xs: seq<string>): seq<string>
  {
    if |xs| > 0 && xs[|xs| - 1] == "" then xs[..|xs| - 1] else xs
  }

  /** Splitting the "\n"-join of break-free lines gives the lines back,
      except that a final empty line is lost. */
  lemma {:induction false} SplitJoin(xs: seq<string>)
    requires forall l :: l in xs ==> NoBreaks(l)
    ensures SplitLines(Join("\n", xs)) == DropTrailingEmpty(xs)
  {
    if |xs| == 0 {
    } else if |xs| == 1 {
      assert xs[0] in xs;
      SplitSingleLine(xs[0]);
    } else {
      var x, rest := xs[0], xs[1..];
      assert x in xs;
      assert forall l :: l in rest ==> l in xs;
      assert Join("\n", xs) == x + "\n" + Join("\n", rest);
      SplitFirstLine(x, Join("\n", rest));
      SplitJoin(rest);
      DropTrailingEmptyCons(x, rest);
      assert xs == [x] + rest;
    }
  }

  /** Only the last line can be dropped, so a first line survives. */
  lemma DropTrailingEmptyCons(x: string, rest: seq<string>)
    requires |rest| > 0
    ensures DropTrailingEmpty([x] + rest) == [x] + DropTrailingEmpty(rest)
  {
    var xs := [x] + rest;
    assert xs[|xs| - 1] == rest[|rest| - 1];
    if rest[|rest| - 1] == "" {
      assert xs[..|xs| - 1] == [x] + rest[..|rest| - 1];
    }
  }

  /** A break-free line splits into itself, or into nothing when empty. */
  lemma SplitSingleLine(a: string)
    requires NoBreaks(a)
    ensures SplitLines(a) == if a == "" then [] else [a]
  {
  }

  /** A break-free first line followed by "\n" splits off as one line. */
  lemma SplitFirstLine(a: string, rest: string)
    requires NoBreaks(a)
    ensures SplitLines(a + "\n" + rest) == [a] + SplitLines(rest)
  {
    var s := a + "\n" + rest;
    assert s[..|a|] == a;
    FirstBreakAt(s, |a|);
    assert s[|a| + 1..] == rest;
  }

  /** Joining a selection of break-free lines and splitting the result
      gives the selection back, up to a final empty line. */
  lemma SplitJoinFilter(p: string -> bool, lines: seq<string>)
    requires forall l :: l in lines ==> NoBreaks(l)
    ensures SplitLines(Join("\n", Filter(p, lines))) == DropTrailingEmpty(Filter(p, lines))
    ensures forall l :: l in SplitLines(Join("\n", Filter(p, lines))) ==> p(l) && l in lines
  {
    var kept := Filter(p, lines);
    SplitJoin(kept);
    var d := DropTrailingEmpty(kept);
    assert forall l :: l in d ==> l in kept;
  }
}
