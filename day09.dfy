/** Mirage maintenance (src/day09.rs): each history is reduced to rows of
    differences until a row of zeros; the next value is the sum of the last
    entries of the rows, the previous value the alternating sum of their
    first entries. */
module Day09 {
  import opened Text

  // ---------------------------------------------------------------------------
  // Difference rows

  /** `tuple_windows().map(|(a, b)| b - a)`: one shorter, entry `j` being
      `s[j + 1] - s[j]`. */
  function Diffs(s: seq<int>): (r: seq<int>)
    ensures |r| == if |s| == 0 then 0 else |s| - 1
  {
    if |s| == 0 then [] else seq(|s| - 1, j requires 0 <= j < |s| - 1 => s[j + 1] - s[j])
  }

  /** `iter().any(|n| *n != 0)` */
  predicate AnyNonZero(s: seq<int>)
  {
    exists j :: 0 <= j < |s| && s[j] != 0
  }

  /** The rows the source pushes for one history: the history and each
      difference row after it, up to (not including) the first row without a
      non-zero entry. Nothing is pushed for an all-zero history; otherwise the
      first row is the history, every row has a non-zero entry, each row is
      the difference row of the one before it and one shorter, and there are
      at most as many rows as the history has entries, so the loop stops. */
  function Pyramid(s: seq<int>): (p: seq<seq<int>>)
    ensures p == [] <==> !AnyNonZero(s)
    ensures p != [] ==> p[0] == s
    ensures forall k :: 0 <= k < |p| ==> AnyNonZero(p[k])
    ensures forall k :: 0 < k < |p| ==> p[k] == Diffs(p[k - 1]) && |p[k]| == |p[k - 1]| - 1
    ensures |p| <= |s|
    decreases |s|
  {
    if AnyNonZero(s) then
      var rest := Pyramid(Diffs(s));
      assert forall k :: 1 < k < |rest| + 1 ==> ([s] + rest)[k] == rest[k - 1];
      [s] + rest
    else []
  }

  // ---------------------------------------------------------------------------
  // What the extrapolated values are

  /** The next value of a history: its last entry plus the next value of its
      difference row; a row of zeros continues with zero, and a constant row
      continues with its value. */
  function Next(s: seq<int>): (n: int)
    ensures |s| > 0 && Constant(s) ==> n == s[|s| - 1]
    decreases |s|
  {
    if AnyNonZero(s) then
      if Constant(s) then ConstantDiffs(s); s[|s| - 1] + Next(Diffs(s))
      else s[|s| - 1] + Next(Diffs(s))
    else 0
  }

  /** The previous value of a history: its first entry minus the previous
      value of its difference row; a constant row goes back to its value. */
  function Prev(s: seq<int>): (v: int)
    ensures |s| > 0 && Constant(s) ==> v == s[0]
    decreases |s|
  {
    if AnyNonZero(s) then
      if Constant(s) then ConstantDiffs(s); s[0] - Prev(Diffs(s))
      else s[0] - Prev(Diffs(s))
    else 0
  }

  /** All entries equal. */
  predicate Constant(s: seq<int>)
  {
    forall j :: 0 <= j < |s| ==> s[j] == s[0]
  }

  lemma ConstantDiffs(s: seq<int>)
    requires Constant(s)
    ensures !AnyNonZero(Diffs(s))
  {
    forall j | 0 <= j < |Diffs(s)| ensures Diffs(s)[j] == 0 {
      assert s[j] == s[0] && s[j + 1] == s[0];
    }
  }

  lemma {:induction false} DiffsZero(s: seq<int>)
    requires !AnyNonZero(s)
    ensures !AnyNonZero(Diffs(s))
  {
    forall j | 0 <= j < |Diffs(s)| ensures Diffs(s)[j] == 0 {
      assert s[j] == 0 && s[j + 1] == 0;
    }
  }

  /** The next value exceeds the last entry by the next difference. */
  lemma NextStep(s: seq<int>)
    requires |s| > 0
    ensures Next(s) - s[|s| - 1] == Next(Diffs(s))
  {
    if !AnyNonZero(s) {
      DiffsZero(s);
      assert s[|s| - 1] == 0;
    }
  }

  /** The previous value falls short of the first entry by the previous
      difference. */
  lemma PrevStep(s: seq<int>)
    requires |s| > 0
    ensures s[0] - Prev(s) == Prev(Diffs(s))
  {
    if !AnyNonZero(s) {
      DiffsZero(s);
      assert s[0] == 0;
    }
  }

  /** Appending `Next(s)` to a history appends the next value of the
      difference row to its difference row: the extrapolated pyramid stays a
      pyramid of differences. */
  lemma NextExtends(s: seq<int>)
    requires |s| > 0
    ensures Diffs(s + [Next(s)]) == Diffs(s) + [Next(Diffs(s))]
  {
    NextStep(s);
    DiffsAppend(s, Next(s), Next(Diffs(s)));
  }

  lemma DiffsAppend(s: seq<int>, x: int, y: int)
    requires |s| > 0 && x - s[|s| - 1] == y
    ensures Diffs(s + [x]) == Diffs(s) + [y]
  {
    var t := s + [x];
    var d := Diffs(s) + [y];
    forall j | 0 <= j < |s| ensures Diffs(t)[j] == d[j] {
      if j < |s| - 1 {
        assert t[j] == s[j] && t[j + 1] == s[j + 1];
      }
    }
  }

  lemma DiffsPrepend(s: seq<int>, x: int, y: int)
    requires |s| > 0 && s[0] - x == y
    ensures Diffs([x] + s) == [y] + Diffs(s)
  {
    var t := [x] + s;
    var d := [y] + Diffs(s);
    forall j | 0 <= j < |s| ensures Diffs(t)[j] == d[j] {
      if j > 0 {
        assert t[j] == s[j - 1] && t[j + 1] == s[j];
      }
    }
  }

  /** Prepending `Prev(s)` prepends the previous value of the difference
      row to its difference row. */
  lemma PrevExtends(s: seq<int>)
    requires |s| > 0
    ensures Diffs([Prev(s)] + s) == [Prev(Diffs(s))] + Diffs(s)
  {
    PrevStep(s);
    DiffsPrepend(s, Prev(s), Prev(Diffs(s)));
  }

  /** A history of zeros extrapolates to zero both ways. */
  lemma ZeroRow(s: seq<int>)
    requires forall j :: 0 <= j < |s| ==> s[j] == 0
    ensures Next(s) == 0 && Prev(s) == 0
  {
  }

  // ---------------------------------------------------------------------------
  // The folds the source runs over the pyramid

  predicate NonEmptyRows(p: seq<seq<int>>)
  {
    forall k :: 0 <= k < |p| ==> |p[k]| > 0
  }

  /** `pyramid.iter().map(|row| row.last().unwrap()).sum()` */
  function SumLasts(p: seq<seq<int>>): int
    requires NonEmptyRows(p)
  {
    if p == [] then 0 else p[0][|p[0]| - 1] + SumLasts(p[1..])
  }

  /** `pyramid.iter().rev().map(|row| *row.first().unwrap())`: the first
      entries, bottom row first. */
  function FirstsReversed(p: seq<seq<int>>): (r: seq<int>)
    requires NonEmptyRows(p)
    ensures |r| == |p|
  {
    if p == [] then [] else FirstsReversed(p[1..]) + [p[0][0]]
  }

  /** `.reduce(|a, b| b - a)`: `None` on no values; otherwise each further
      value minus everything reduced so far. */
  function ReduceMinus(xs: seq<int>): (r: Option<int>)
    ensures r.Some? <==> xs != []
  {
    if xs == [] then None
    else if |xs| == 1 then Some(xs[0])
    else Some(xs[|xs| - 1] - ReduceMinus(xs[..|xs| - 1]).value)
  }

  /** The sum of the last entries of the pushed rows is the next value. */
  lemma {:induction false} TailsAreNext(s: seq<int>)
    ensures NonEmptyRows(Pyramid(s)) && SumLasts(Pyramid(s)) == Next(s)
    decreases |s|
  {
    if AnyNonZero(s) {
      var p, d := Pyramid(s), Diffs(s);
      TailsAreNext(d);
      assert p == [s] + Pyramid(d);
      assert p[1..] == Pyramid(d);
      assert SumLasts(p) == s[|s| - 1] + SumLasts(Pyramid(d));
    }
  }

  /** Reducing the reversed first entries gives the previous value: the
      alternating sum `f0 - f1 + f2 - ...` of the first entries. */
  lemma {:induction false} HeadsArePrev(s: seq<int>)
    requires AnyNonZero(s)
    ensures NonEmptyRows(Pyramid(s)) && ReduceMinus(FirstsReversed(Pyramid(s))) == Some(Prev(s))
    decreases |s|
  {
    if AnyNonZero(Diffs(s)) {
      HeadsArePrev(Diffs(s));
      HeadsStep(s);
    } else {
      LastRow(s);
    }
  }

  /** One row more: the reduction over the difference pyramid extends to the
      row's own pyramid. */
  lemma HeadsStep(s: seq<int>)
    requires AnyNonZero(s) && AnyNonZero(Diffs(s))
    requires NonEmptyRows(Pyramid(Diffs(s)))
    requires ReduceMinus(FirstsReversed(Pyramid(Diffs(s)))) == Some(Prev(Diffs(s)))
    ensures NonEmptyRows(Pyramid(s)) && ReduceMinus(FirstsReversed(Pyramid(s))) == Some(Prev(s))
  {
    var rest := FirstsReversed(Pyramid(Diffs(s)));
    FirstsCons(s);
    ReduceSnoc(rest, s[0]);
  }

  /** A history whose difference row is all zeros has one pushed row. */
  lemma LastRow(s: seq<int>)
    requires AnyNonZero(s) && !AnyNonZero(Diffs(s))
    ensures NonEmptyRows(Pyramid(s)) && FirstsReversed(Pyramid(s)) == [s[0]]
    ensures Prev(Diffs(s)) == 0
  {
    assert Pyramid(s) == [s];
  }

  lemma FirstsCons(s: seq<int>)
    requires AnyNonZero(s)
    ensures NonEmptyRows(Pyramid(s)) && NonEmptyRows(Pyramid(Diffs(s)))
    ensures FirstsReversed(Pyramid(s)) == FirstsReversed(Pyramid(Diffs(s))) + [s[0]]
  {
    assert Pyramid(s)[1..] == Pyramid(Diffs(s));
  }

  lemma ReduceSnoc(xs: seq<int>, x: int)
    requires xs != []
    ensures ReduceMinus(xs + [x]) == Some(x - ReduceMinus(xs).value)
  {
    assert (xs + [x])[..|xs|] == xs;
  }

  // ---------------------------------------------------------------------------
  // `extrapolate`, `part_1`, `part_2`

  /** Every history has a non-zero entry: otherwise its pyramid is empty and
      the source unwraps the `None` of `reduce`. */
  predicate Extrapolable(input: seq<seq<int>>)
  {
    forall i :: 0 <= i < |input| ==> AnyNonZero(input[i])
  }

  function SumNext(input: seq<seq<int>>): int
  {
    if input == [] then 0 else SumNext(input[..|input| - 1]) + Next(input[|input| - 1])
  }

  function SumPrev(input: seq<seq<int>>): int
  {
    if input == [] then 0 else SumPrev(input[..|input| - 1]) + Prev(input[|input| - 1])
  }

  /** The `while` loop of `extrapolate` for one history: pushes the history
      and its difference rows while they have a non-zero entry. */
  method BuildPyramid(row: seq<int>) returns (pyramid: seq<seq<int>>)
    ensures pyramid == Pyramid(row)
  {
    pyramid := [];
    var pyramidRow := row;
    while AnyNonZero(pyramidRow)
      invariant pyramid + Pyramid(pyramidRow) == Pyramid(row)
      decreases |pyramidRow|
    {
      PyramidStep(pyramid, pyramidRow);
      pyramid := pyramid + [pyramidRow];
      pyramidRow := DiffRow(pyramidRow);
    }
    assert Pyramid(pyramidRow) == [];
    assert pyramid + [] == pyramid;
  }

  lemma PyramidStep(done: seq<seq<int>>, s: seq<int>)
    requires AnyNonZero(s)
    ensures done + Pyramid(s) == (done + [s]) + Pyramid(Diffs(s))
  {
  }

  /** The `tuple_windows` pass that computes one difference row. */
  method DiffRow(s: seq<int>) returns (next: seq<int>)
    requires |s| > 0
    ensures next == Diffs(s)
  {
    next := [];
    for j := 0 to |s| - 1
      invariant |next| == j
      invariant forall k :: 0 <= k < j ==> next[k] == s[k + 1] - s[k]
    {
      next := next + [s[j + 1] - s[j]];
    }
  }

  /** `extrapolate`: the sums over all histories of the previous and of the
      next values. */
  method Extrapolate(input: seq<seq<int>>) returns (r: Option<(int, int)>)
    requires Extrapolable(input)
    ensures r == Some((SumPrev(input), SumNext(input)))
  {
    var tails: seq<int> := [];
    var heads: seq<int> := [];
    for i := 0 to |input|
      invariant SumInts(tails) == SumNext(input[..i])
      invariant SumInts(heads) == SumPrev(input[..i])
    {
      var row := input[i];
      var pyramid := BuildPyramid(row);
      TailsAreNext(row);
      HeadsArePrev(row);
      assert input[..i + 1][..i] == input[..i];
      assert (tails + [SumLasts(pyramid)])[..|tails|] == tails;
      tails := tails + [SumLasts(pyramid)];
      var head := ReduceMinus(FirstsReversed(pyramid)).value;
      assert (heads + [head])[..|heads|] == heads;
      heads := heads + [head];
    }
    assert input[..|input|] == input;
    return Some((SumInts(heads), SumInts(tails)));
  }

  /** `part_1`: the sum of the next values. */
  method Part1(input: seq<seq<int>>) returns (r: Option<int>)
    requires Extrapolable(input)
    ensures r == Some(SumNext(input))
  {
    var both := Extrapolate(input);
    r := Some(both.value.1);
  }

  /** `part_2`: the sum of the previous values. */
  method Part2(input: seq<seq<int>>) returns (r: Option<int>)
    requires Extrapolable(input)
    ensures r == Some(SumPrev(input))
  {
    var both := Extrapolate(input);
    r := Some(both.value.0);
  }

  // ---------------------------------------------------------------------------
  // Parsing

  /** One line: space-separated integers, each unwrapped. */
  function ParseRow(line: string): (r: Option<seq<int>>)
    ensures r.Some? <==> forall k :: 0 <= k < |Split(line, " ")| ==> ParseInt(Split(line, " ")[k]).Some?
    ensures r.Some? ==> |r.value| == |Split(line, " ")|
    ensures r.Some? ==> forall k :: 0 <= k < |r.value| ==> ParseInt(Split(line, " ")[k]) == Some(r.value[k])
  {
    ParseEachInts(Split(line, " "));
    ParseEach(ParseInt, Split(line, " "))
  }

  /** The words of a row parse exactly when each of them does. */
  lemma ParseEachInts(words: seq<string>)
    ensures ParseEach(ParseInt, words).Some? <==> forall k :: 0 <= k < |words| ==> ParseInt(words[k]).Some?
  {
    var r := ParseEach(ParseInt, words);
    if forall k :: 0 <= k < |words| ==> ParseInt(words[k]).Some? {
      assert forall k :: 0 <= k < |words| ==> (ParseInt)(words[k]).Some?;
    }
  }

  /** `prepare`: `None` where a word does not parse and the source panics. */
  function Prepare(lines: seq<string>): (r: Option<seq<seq<int>>>)
    ensures r.Some? <==> forall i :: 0 <= i < |lines| ==> ParseRow(lines[i]).Some?
    ensures r.Some? ==> |r.value| == |lines|
    ensures r.Some? ==> forall i :: 0 <= i < |lines| ==> ParseRow(lines[i]) == Some(r.value[i])
  {
    ParseEach(ParseRow, lines)
  }

  // ---------------------------------------------------------------------------
  // Examples

  /** An arithmetic history continues its step both ways. */
  lemma ArithmeticExample()
    ensures Next([0, 3, 6, 9]) == 12 && Prev([0, 3, 6, 9]) == -3
  {
    var s := [0, 3, 6, 9];
    var d := [3, 3, 3];
    var z := [0, 0];
    assert Diffs(s) == d;
    assert Diffs(d) == z;
    assert s[1] != 0 && d[0] != 0 && !AnyNonZero(z);
  }
}
