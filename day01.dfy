/**
 * Day 1: calibration values. Part 1 joins the first and the last decimal
 * digit of each line; part 2 also accepts the spelled-out names `one` ..
 * `nine`, found by marking every match of every name in a per-line array.
 */
module Day01 {
  import opened Text

  // ---------------------------------------------------------------------------
  // Part 1

  /** The line's characters that `to_digit(10)` accepts, as values. */
  function Digits(line: string): (ds: seq<nat>)
    ensures |ds| <= |line|
    ensures forall k :: 0 <= k < |ds| ==> ds[k] <= 9
  {
    if line == [] then []
    else
      var c := line[|line| - 1];
      Digits(line[..|line| - 1]) + (if IsDigit(c) then [DigitValue(c)] else [])
  }

  lemma {:induction false} DigitsEmpty(line: string)
    ensures Digits(line) == [] <==> forall i :: 0 <= i < |line| ==> !IsDigit(line[i])
  {
    if line != [] {
      DigitsEmpty(line[..|line| - 1]);
      assert forall i :: 0 <= i < |line| - 1 ==> line[..|line| - 1][i] == line[i];
    }
  }

  /** The first digit of the line is the first entry of `Digits`. */
  lemma {:induction false} DigitsFirst(line: string, i: nat)
    requires i < |line| && IsDigit(line[i])
    requires forall j :: 0 <= j < i ==> !IsDigit(line[j])
    ensures Digits(line) != [] && Digits(line)[0] == DigitValue(line[i])
  {
    var init := line[..|line| - 1];
    if i < |line| - 1 {
      DigitsFirst(init, i);
    } else {
      DigitsEmpty(init);
    }
  }

  /** The last digit of the line is the last entry of `Digits`. */
  lemma DigitsLast(line: string, i: nat)
    requires i < |line| && IsDigit(line[i])
    requires forall j :: i < j < |line| ==> !IsDigit(line[j])
    ensures Digits(line) != [] && Digits(line)[|Digits(line)| - 1] == DigitValue(line[i])
    decreases |line|
  {
    if i < |line| - 1 {
      DigitsLast(line[..|line| - 1], i);
    }
  }

  /**
   * The line's calibration value: ten times its first digit plus its last;
   * `None` where the source's `unwrap` of a missing digit panics.
   */
  function Calibration(line: string): (r: Option<nat>)
    ensures r.None? <==> forall i :: 0 <= i < |line| ==> !IsDigit(line[i])
    ensures r.Some? ==> r.value <= 99
  {
    DigitsEmpty(line);
    var ds := Digits(line);
    if ds == [] then None else Some(10 * ds[0] + ds[|ds| - 1])
  }

  /** The sum of the per-line values, `None` as soon as one line has none. */
  function Total(values: seq<Option<nat>>): (r: Option<nat>)
    ensures r.Some? <==> forall i :: 0 <= i < |values| ==> values[i].Some?
  {
    if values == [] then Some(0)
    else
      var t := Total(values[..|values| - 1]);
      var v := values[|values| - 1];
      if t.Some? && v.Some? then Some(t.value + v.value) else None
  }

  /** The value of a total is the sum of the per-line values. */
  lemma {:induction false} TotalSum(values: seq<Option<nat>>)
    requires forall i :: 0 <= i < |values| ==> values[i].Some?
    ensures Total(values) == Some(Sum(seq(|values|, i requires 0 <= i < |values| => values[i].value)))
  {
    var vs := seq(|values|, i requires 0 <= i < |values| => values[i].value);
    if values != [] {
      var init := values[..|values| - 1];
      TotalSum(init);
      assert vs[..|vs| - 1] == seq(|init|, i requires 0 <= i < |init| => init[i].value);
    }
  }

  /** A line without a value leaves the whole total without one. */
  lemma TotalNone(values: seq<Option<nat>>, i: nat)
    requires i < |values| && values[i].None?
    ensures Total(values).None?
  {
  }

  /** One more valued line adds its value to the running total. */
  lemma TotalStep(values: seq<Option<nat>>, i: nat, t: nat)
    requires i < |values| && Total(values[..i]) == Some(t) && values[i].Some?
    ensures Total(values[..i + 1]) == Some(t + values[i].value)
  {
    assert values[..i + 1][..i] == values[..i];
  }

  /** The calibration value of every line, in order. */
  function Calibrations(lines: seq<string>): (r: seq<Option<nat>>)
    ensures |r| == |lines|
  {
    if lines == [] then [] else Calibrations(lines[..|lines| - 1]) + [Calibration(lines[|lines| - 1])]
  }

  lemma {:induction false} CalibrationsAt(lines: seq<string>, i: nat)
    requires i < |lines|
    ensures Calibrations(lines)[i] == Calibration(lines[i])
  {
    if i < |lines| - 1 {
      CalibrationsAt(lines[..|lines| - 1], i);
    }
  }

  /** Line `i` of `part_1`: keep the digits, join the first and the last. */
  method LineValue(lines: seq<string>, i: nat) returns (v: Option<nat>)
    requires i < |lines|
    ensures v == Calibrations(lines)[i]
  {
    CalibrationsAt(lines, i);
    var digits := Digits(lines[i]);
    if digits == [] {
      return None;
    }
    return Some(10 * digits[0] + digits[|digits| - 1]);
  }

  method Part1(lines: seq<string>) returns (r: Option<nat>)
    ensures r == Total(Calibrations(lines))
  {
    ghost var values := Calibrations(lines);
    var total := 0;
    for i := 0 to |lines|
      invariant Total(values[..i]) == Some(total)
    {
      var v := LineValue(lines, i);
      if v.None? {
        TotalNone(values, i);
        return None;
      }
      TotalStep(values, i, total);
      total := total + v.value;
    }
    assert values[..|lines|] == values;
    return Some(total);
  }

  // ---------------------------------------------------------------------------
  // Part 2

  /** The codes of a digit, as numerals and as English names. */
  const DigitMap: map<string, nat> := map[
    "1" := 1, "one" := 1, "2" := 2, "two" := 2, "3" := 3, "three" := 3,
    "4" := 4, "four" := 4, "5" := 5, "five" := 5, "6" := 6, "six" := 6,
    "7" := 7, "seven" := 7, "8" := 8, "eight" := 8, "9" := 9, "nine" := 9]

  /**
   * What the marking relies on in a map of codes: every code is unbordered
   * and stands for a digit 1 to 9, and no code is a prefix of another.
   */
  predicate CodeBook(book: map<string, nat>)
  {
    (forall c :: c in book ==> Unbordered(c) && 1 <= book[c] <= 9) &&
    forall a, b :: a in book && b in book && StartsWith(b, a) ==> a == b
  }

  /**
   * The entries `(code, value)` of `book` in the order the hash map yields
   * its keys: each code of the map appears, with its own value.
   */
  predicate Enumerates(entries: seq<(string, nat)>, book: map<string, nat>)
  {
    EntriesOf(entries, book) &&
    forall c :: c in book ==> exists k :: 0 <= k < |entries| && entries[k].0 == c
  }

  /** Every entry is a code of `book` with its value. */
  predicate EntriesOf(entries: seq<(string, nat)>, book: map<string, nat>)
  {
    forall k :: 0 <= k < |entries| ==> entries[k].0 in book && book[entries[k].0] == entries[k].1
  }

  lemma Initials(a: string, b: string)
    requires a in DigitMap && b in DigitMap
    requires a[0] == b[0] && (|a| >= 2 && |b| >= 2 ==> a[1] == b[1])
    ensures a == b
  {
  }

  lemma CodeValues()
    ensures forall c :: c in DigitMap ==> Unbordered(c) && 1 <= DigitMap[c] <= 9
  {
  }

  /** The digit map is a code book: in particular no digit name is a prefix of another. */
  lemma DigitBook()
    ensures CodeBook(DigitMap)
  {
    CodeValues();
    forall a, b | a in DigitMap && b in DigitMap && StartsWith(b, a)
      ensures a == b
    {
      assert a[0] == b[..|a|][0] == b[0];
      if |a| >= 2 {
        assert a[1] == b[..|a|][1] == b[1];
      }
      Initials(a, b);
    }
  }

  /** In a code book, two codes found at one index are the same code. */
  lemma CodesDetermined(book: map<string, nat>, line: string, a: string, b: string, i: nat)
    requires CodeBook(book) && a in book && b in book
    requires OccursAt(line, a, i) && OccursAt(line, b, i)
    ensures a == b
  {
    NestedMatches(line, a, b, i);
  }

  /** Two matches at one index: the shorter pattern is a prefix of the longer. */
  lemma NestedMatches(line: string, a: string, b: string, i: nat)
    requires OccursAt(line, a, i) && OccursAt(line, b, i)
    ensures StartsWith(b, a) || StartsWith(a, b)
  {
    if |a| <= |b| {
      assert b[..|a|] == line[i..i + |a|];
    } else {
      assert a[..|b|] == line[i..i + |b|];
    }
  }

  /** The mark at index `i` after visiting `entries` in order: the value of the last code found there. */
  function MarkAt(line: string, entries: seq<(string, nat)>, i: nat): nat
  {
    if entries == [] then 0
    else if OccursAt(line, entries[|entries| - 1].0, i) then entries[|entries| - 1].1
    else MarkAt(line, entries[..|entries| - 1], i)
  }

  function Marks(line: string, entries: seq<(string, nat)>): (ms: seq<nat>)
    ensures |ms| == |line|
  {
    seq(|line|, i requires 0 <= i < |line| => MarkAt(line, entries, i))
  }

  /** No match of an unbordered pattern starts inside another match. */
  lemma NoOccurrenceWithin(s: string, pat: string, i: nat)
    requires Unbordered(pat) && OccursAt(s, pat, i)
    ensures forall j: nat :: i < j < i + |pat| ==> !OccursAt(s, pat, j)
  {
    forall j: nat | i < j < i + |pat|
      ensures !OccursAt(s, pat, j)
    {
      if OccursAt(s, pat, j) {
        UnborderedApart(s, pat, i, j);
      }
    }
  }

  /**
   * `for (index, _) in line.match_indices(code) { digits[index] = value }`:
   * the matches are taken left to right without overlap, which for an
   * unbordered code is every index where the code occurs.
   */
  method MarkCode(digits: array<nat>, line: string, code: string, value: nat)
    requires digits.Length == |line| && Unbordered(code)
    modifies digits
    ensures forall j :: 0 <= j < |line| ==>
      digits[j] == if OccursAt(line, code, j) then value else old(digits[j])
  {
    var from: nat := 0;
    while from <= |line|
      invariant forall j :: 0 <= j < |line| ==>
        digits[j] == if j < from && OccursAt(line, code, j) then value else old(digits[j])
      decreases |line| + 1 - from
    {
      match FindFrom(line, code, from)
      case None =>
        from := |line| + 1;
      case Some(index) =>
        NoOccurrenceWithin(line, code, index);
        digits[index] := value;
        from := index + |code|;
    }
  }

  predicate Unbordereds(entries: seq<(string, nat)>)
  {
    forall k :: 0 <= k < |entries| ==> Unbordered(entries[k].0)
  }

  /** The marks of one line: every entry marked in turn on a zeroed array. */
  method LineMarks(line: string, entries: seq<(string, nat)>) returns (digits: array<nat>)
    requires Unbordereds(entries)
    ensures fresh(digits) && digits[..] == Marks(line, entries)
  {
    digits := new nat[|line|](_ => 0);
    for c := 0 to |entries|
      invariant digits[..] == Marks(line, entries[..c])
    {
      assert entries[..c + 1][..c] == entries[..c];
      MarkCode(digits, line, entries[c].0, entries[c].1);
    }
    assert entries[..|entries|] == entries;
  }

  /** A non-zero mark comes from a code found at its index. */
  lemma {:induction false} MarkSound(line: string, entries: seq<(string, nat)>, i: nat)
    requires MarkAt(line, entries, i) != 0
    ensures exists k :: (0 <= k < |entries| && OccursAt(line, entries[k].0, i) &&
      entries[k].1 == MarkAt(line, entries, i))
  {
    var init := entries[..|entries| - 1];
    if !OccursAt(line, entries[|entries| - 1].0, i) {
      MarkSound(line, init, i);
      var k :| 0 <= k < |init| && OccursAt(line, init[k].0, i) && init[k].1 == MarkAt(line, init, i);
      assert init[k] == entries[k];
    }
  }

  /** A code found at an index marks it with its value, whatever else is visited. */
  lemma {:induction false} MarkComplete(line: string, entries: seq<(string, nat)>, book: map<string, nat>, i: nat, k: nat)
    requires CodeBook(book) && EntriesOf(entries, book)
    requires k < |entries| && OccursAt(line, entries[k].0, i)
    ensures MarkAt(line, entries, i) == entries[k].1
  {
    var init := entries[..|entries| - 1];
    var last := entries[|entries| - 1];
    if OccursAt(line, last.0, i) {
      CodesDetermined(book, line, last.0, entries[k].0, i);
    } else {
      assert k < |init| && init[k] == entries[k];
      assert EntriesOf(init, book) by {
        assert forall j :: 0 <= j < |init| ==> init[j] == entries[j];
      }
      MarkComplete(line, init, book, i, k);
    }
  }

  /**
   * With the entries of a code book visited in any order, each index holds
   * the value of the code found there, or 0 where none is.
   */
  lemma MarksExact(line: string, entries: seq<(string, nat)>, book: map<string, nat>, i: nat)
    requires CodeBook(book) && Enumerates(entries, book) && i < |line|
    ensures forall code :: code in book && OccursAt(line, code, i) ==> Marks(line, entries)[i] == book[code]
    ensures (forall code :: code in book ==> !OccursAt(line, code, i)) <==> Marks(line, entries)[i] == 0
  {
    forall code | code in book && OccursAt(line, code, i)
      ensures Marks(line, entries)[i] == book[code]
    {
      var k :| 0 <= k < |entries| && entries[k].0 == code;
      MarkComplete(line, entries, book, i, k);
    }
    if Marks(line, entries)[i] != 0 {
      MarkSound(line, entries, i);
    }
  }

  /** The order in which the hash map yields its keys does not change the marks. */
  lemma MarksOrderFree(line: string, xs: seq<(string, nat)>, ys: seq<(string, nat)>, book: map<string, nat>)
    requires CodeBook(book) && Enumerates(xs, book) && Enumerates(ys, book)
    ensures Marks(line, xs) == Marks(line, ys)
  {
    forall i | 0 <= i < |line|
      ensures Marks(line, xs)[i] == Marks(line, ys)[i]
    {
      MarksExact(line, xs, book, i);
      MarksExact(line, ys, book, i);
      if exists code :: code in book && OccursAt(line, code, i) {
        var code :| code in book && OccursAt(line, code, i);
      }
    }
  }

  /** `iter().find(|&&n| n != 0)` */
  function FirstNonZero(s: seq<nat>): (r: Option<nat>)
    ensures r.None? <==> forall k :: 0 <= k < |s| ==> s[k] == 0
    ensures r.Some? ==> exists k :: (0 <= k < |s| && s[k] == r.value != 0 &&
      forall j :: 0 <= j < k ==> s[j] == 0)
  {
    if s == [] then None
    else if s[0] != 0 then Some(s[0])
    else
      var r := FirstNonZero(s[1..]);
      assert forall k :: 1 <= k < |s| ==> s[k] == s[1..][k - 1];
      r
  }

  /** `iter().rfind(|&&n| n != 0)` */
  function LastNonZero(s: seq<nat>): (r: Option<nat>)
    ensures r.None? <==> forall k :: 0 <= k < |s| ==> s[k] == 0
    ensures r.Some? ==> exists k :: (0 <= k < |s| && s[k] == r.value != 0 &&
      forall j :: k < j < |s| ==> s[j] == 0)
  {
    if s == [] then None
    else if s[|s| - 1] != 0 then Some(s[|s| - 1])
    else
      var r := LastNonZero(s[..|s| - 1]);
      assert forall k :: 0 <= k < |s| - 1 ==> s[k] == s[..|s| - 1][k];
      r
  }

  /** The part 2 calibration value of a line, `None` where the source panics. */
  function Calibration2(line: string, entries: seq<(string, nat)>): (r: Option<nat>)
    ensures r.Some? <==> exists k :: 0 <= k < |line| && Marks(line, entries)[k] != 0
    ensures r.Some? ==> r.value >= 11
  {
    var ms := Marks(line, entries);
    match (FirstNonZero(ms), LastNonZero(ms))
    case (Some(f), Some(l)) => Some(10 * f + l)
    case _ => None
  }

  /** A part 2 value exists exactly when some code of the book occurs in the line. */
  lemma Calibration2Exists(line: string, entries: seq<(string, nat)>, book: map<string, nat>)
    requires CodeBook(book) && Enumerates(entries, book)
    ensures Calibration2(line, entries).Some? <==>
      exists i, code :: 0 <= i < |line| && code in book && OccursAt(line, code, i)
  {
    var ms := Marks(line, entries);
    if FirstNonZero(ms).Some? {
      var i :| 0 <= i < |ms| && ms[i] != 0;
      MarksExact(line, entries, book, i);
    } else {
      forall i, code | 0 <= i < |line| && code in book
        ensures !OccursAt(line, code, i)
      {
        assert ms[i] == 0;
        MarksExact(line, entries, book, i);
      }
    }
  }

  /** A part 2 value joins two digits 1 to 9. */
  lemma Calibration2Range(line: string, entries: seq<(string, nat)>, book: map<string, nat>)
    requires CodeBook(book) && Enumerates(entries, book)
    ensures Calibration2(line, entries).Some? ==> 11 <= Calibration2(line, entries).value <= 99
  {
    var ms := Marks(line, entries);
    if Calibration2(line, entries).Some? {
      var i :| 0 <= i < |ms| && ms[i] == FirstNonZero(ms).value != 0;
      var j :| 0 <= j < |ms| && ms[j] == LastNonZero(ms).value != 0;
      MarkSound(line, entries, i);
      MarkSound(line, entries, j);
    }
  }

  /** Part 2's value of a line does not depend on the hash map's key order. */
  lemma Calibration2OrderFree(line: string, xs: seq<(string, nat)>, ys: seq<(string, nat)>, book: map<string, nat>)
    requires CodeBook(book) && Enumerates(xs, book) && Enumerates(ys, book)
    ensures Calibration2(line, xs) == Calibration2(line, ys)
  {
    MarksOrderFree(line, xs, ys, book);
  }

  function Calibrations2(lines: seq<string>, entries: seq<(string, nat)>): (r: seq<Option<nat>>)
    ensures |r| == |lines|
  {
    if lines == [] then []
    else Calibrations2(lines[..|lines| - 1], entries) + [Calibration2(lines[|lines| - 1], entries)]
  }

  lemma {:induction false} Calibrations2At(lines: seq<string>, entries: seq<(string, nat)>, i: nat)
    requires i < |lines|
    ensures Calibrations2(lines, entries)[i] == Calibration2(lines[i], entries)
  {
    if i < |lines| - 1 {
      Calibrations2At(lines[..|lines| - 1], entries, i);
    }
  }

  /** Line `i` of `part_2`: mark the codes, then join the first and last marks. */
  method LineValue2(lines: seq<string>, i: nat, entries: seq<(string, nat)>) returns (v: Option<nat>)
    requires i < |lines| && Unbordereds(entries)
    ensures v == Calibrations2(lines, entries)[i]
  {
    var digits := LineMarks(lines[i], entries);
    var first := FirstNonZero(digits[..]);
    var last := LastNonZero(digits[..]);
    Calibrations2At(lines, entries, i);
    if first.None? || last.None? {
      return None;
    }
    return Some(10 * first.value + last.value);
  }

  lemma DigitEntries(entries: seq<(string, nat)>)
    requires EntriesOf(entries, DigitMap)
    ensures Unbordereds(entries)
  {
    DigitBook();
  }

  method Part2(lines: seq<string>, entries: seq<(string, nat)>) returns (r: Option<nat>)
    requires Enumerates(entries, DigitMap)
    ensures r == Total(Calibrations2(lines, entries))
  {
    DigitEntries(entries);
    ghost var values := Calibrations2(lines, entries);
    var total := 0;
    for i := 0 to |lines|
      invariant Total(values[..i]) == Some(total)
    {
      var v := LineValue2(lines, i, entries);
      if v.None? {
        TotalNone(values, i);
        return None;
      }
      TotalStep(values, i, total);
      total := total + v.value;
    }
    assert values[..|lines|] == values;
    return Some(total);
  }
}
