/** Gear ratios (src/day03.rs).  An engine schematic is a grid of digits, `.`
    and symbols.  Each maximal run of digits on a line is a part number with a
    bounding box one cell wider than the run on every side; part 1 sums the
    parts next to any symbol, part 2 sums the products of the two parts next to
    each symbol that has exactly two. */
module Day03 {
  import opened Text

  datatype Point = Point(x: int, y: int)

  /** The inclusive box `xa..=xb` by `ya..=yb`. */
  datatype Span = Span(xa: int, ya: int, xb: int, yb: int)

  datatype Part = Part(number: nat, span: Span)

  // ---------------------------------------------------------------------------
  // Parts

  /** `Part::from_buffer`: the buffered digits' value, boxed from one column
      before the first digit to one after the last digit `x`, and one row above
      and below `y`.  Parsing an empty buffer would panic. */
  function FromBuffer(digits: string, x: int, y: int): (part: Part)
    requires |digits| > 0 && AllDigits(digits)
    ensures forall p :: AdjacentTo(part, p) <==> Touches(|digits|, x, y, p)
  {
    BoxTouches(|digits|, x, y);
    Part(DecimalValue(digits), Span(x - |digits|, y - 1, x + 1, y + 1))
  }

  /** `Part::adjacent_to`: `p` lies in the box, edges included. */
  predicate AdjacentTo(part: Part, p: Point)
  {
    p.x >= part.span.xa && p.x <= part.span.xb && p.y >= part.span.ya && p.y <= part.span.yb
  }

  /** `p` is one of the digit cells of a run of `len` digits ending at column
      `x` on row `y`, or one of their eight neighbours. */
  predicate Touches(len: nat, x: int, y: int, p: Point)
  {
    exists cx :: x - len < cx <= x && Near(Point(cx, y), p)
  }

  /** `p` is `c` or one of its eight neighbours. */
  predicate Near(c: Point, p: Point)
  {
    c.x - 1 <= p.x <= c.x + 1 && c.y - 1 <= p.y <= c.y + 1
  }

  /** The box one cell wider than a run on every side holds exactly the
      run's digit cells and their neighbours. */
  lemma BoxTouches(len: nat, x: int, y: int)
    requires len > 0
    ensures forall p: Point :: (x - len <= p.x <= x + 1 && y - 1 <= p.y <= y + 1) <==> Touches(len, x, y, p)
  {
    forall p: Point | x - len <= p.x <= x + 1 && y - 1 <= p.y <= y + 1
      ensures Touches(len, x, y, p)
    {
      var first := x - len + 1;
      var cx := if p.x < first then first else if p.x > x then x else p.x;
      assert x - len < cx <= x && Near(Point(cx, y), p);
    }
  }

  // ---------------------------------------------------------------------------
  // Digit runs

  /** `line[s..e]` is a maximal run of digits within the first `n` characters. */
  predicate MaximalRun(line: string, n: nat, s: nat, e: nat)
    requires n <= |line|
  {
    s < e <= n && (forall i :: s <= i < e ==> IsDigit(line[i])) &&
    (s == 0 || !IsDigit(line[s - 1])) && (e == n || !IsDigit(line[e]))
  }

  /** The digit runs among the first `n` characters of `line`, as a
      left-to-right scan finds them, each as its start and end column (end
      excluded). */
  function Runs(line: string, n: nat): (rs: seq<(nat, nat)>)
    requires n <= |line|
    ensures forall k :: 0 <= k < |rs| ==> rs[k].0 < rs[k].1 <= n
    ensures (n > 0 && IsDigit(line[n - 1])) <==> (|rs| > 0 && rs[|rs| - 1].1 == n)
  {
    if n == 0 then []
    else
      var rs := Runs(line, n - 1);
      if !IsDigit(line[n - 1]) then rs
      else if |rs| > 0 && rs[|rs| - 1].1 == n - 1 then rs[..|rs| - 1] + [(rs[|rs| - 1].0, n)]
      else rs + [(n - 1, n)]
  }

  /** Every run is maximal, and the runs are in strictly increasing order. */
  predicate RunsOk(line: string, n: nat, rs: seq<(nat, nat)>)
    requires n <= |line|
  {
    (forall k :: 0 <= k < |rs| ==> MaximalRun(line, n, rs[k].0, rs[k].1)) &&
    (forall j, k :: 0 <= j < k < |rs| ==> rs[j].1 < rs[k].0)
  }

  lemma RunsOkWiden(line: string, n: nat, xs: seq<(nat, nat)>)
    requires 0 < n <= |line| && RunsOk(line, n - 1, xs)
    requires forall k :: 0 <= k < |xs| ==> xs[k].1 < n - 1 || !IsDigit(line[n - 1])
    ensures RunsOk(line, n, xs)
  {
    forall k | 0 <= k < |xs| ensures MaximalRun(line, n, xs[k].0, xs[k].1) {
      assert MaximalRun(line, n - 1, xs[k].0, xs[k].1);
    }
  }

  lemma RunsOkSnoc(line: string, n: nat, xs: seq<(nat, nat)>, r: (nat, nat))
    requires n <= |line| && RunsOk(line, n, xs) && MaximalRun(line, n, r.0, r.1)
    requires forall k :: 0 <= k < |xs| ==> xs[k].1 < r.0
    ensures RunsOk(line, n, xs + [r])
  {
    var ys := xs + [r];
    forall j, k | 0 <= j < k < |ys| ensures ys[j].1 < ys[k].0 {
      if k < |xs| {
        assert ys[j] == xs[j] && ys[k] == xs[k];
      }
    }
  }

  /** A digit that continues the last run extends it. */
  lemma ExtendOk(line: string, n: nat, rs: seq<(nat, nat)>)
    requires 0 < n <= |line| && IsDigit(line[n - 1]) && RunsOk(line, n - 1, rs)
    requires |rs| > 0 && rs[|rs| - 1].1 == n - 1
    ensures RunsOk(line, n, rs[..|rs| - 1] + [(rs[|rs| - 1].0, n)])
  {
    var m := |rs| - 1;
    var init := rs[..m];
    assert RunsOk(line, n - 1, init) by {
      forall k | 0 <= k < m ensures MaximalRun(line, n - 1, init[k].0, init[k].1) {
        assert init[k] == rs[k];
      }
    }
    assert MaximalRun(line, n - 1, rs[m].0, n - 1);
    assert forall k :: 0 <= k < m ==> init[k].1 < rs[m].0;
    RunsOkWiden(line, n, init);
    assert MaximalRun(line, n, rs[m].0, n);
    RunsOkSnoc(line, n, init, (rs[m].0, n));
  }

  /** A digit after a non-digit starts a new run. */
  lemma StartOk(line: string, n: nat, rs: seq<(nat, nat)>)
    requires 0 < n <= |line| && IsDigit(line[n - 1]) && RunsOk(line, n - 1, rs)
    requires forall k :: 0 <= k < |rs| ==> rs[k].1 <= n - 1
    requires n == 1 || !IsDigit(line[n - 2])
    ensures RunsOk(line, n, rs + [(n - 1, n)])
  {
    forall k | 0 <= k < |rs| ensures rs[k].1 < n - 1 {
      assert MaximalRun(line, n - 1, rs[k].0, rs[k].1);
    }
    RunsOkWiden(line, n, rs);
    RunsOkSnoc(line, n, rs, (n - 1, n));
  }

  /** The scan finds only maximal runs, left to right. */
  lemma {:induction false} RunsMaximal(line: string, n: nat)
    requires n <= |line|
    ensures RunsOk(line, n, Runs(line, n))
  {
    if n > 0 {
      var rs := Runs(line, n - 1);
      RunsMaximal(line, n - 1);
      if !IsDigit(line[n - 1]) {
        RunsOkWiden(line, n, rs);
      } else if |rs| > 0 && rs[|rs| - 1].1 == n - 1 {
        ExtendOk(line, n, rs);
      } else {
        StartOk(line, n, rs);
      }
    }
  }

  /** A run found before the `n`-th character survives it, unless the
      character extends it. */
  lemma KeepFound(line: string, n: nat, r: (nat, nat))
    requires 0 < n <= |line| && r in Runs(line, n - 1)
    requires r.1 < n - 1 || !IsDigit(line[n - 1])
    ensures r in Runs(line, n)
  {
    var rs := Runs(line, n - 1);
    var k :| 0 <= k < |rs| && rs[k] == r;
    if IsDigit(line[n - 1]) && |rs| > 0 && rs[|rs| - 1].1 == n - 1 {
      assert k < |rs| - 1;
      assert Runs(line, n)[k] == rs[k];
    }
  }

  /** A run that the `n`-th character extends is found extended. */
  lemma ExtendFound(line: string, n: nat, s: nat)
    requires 1 < n <= |line| && IsDigit(line[n - 1])
    requires (s, n - 1) in Runs(line, n - 1)
    ensures (s, n) in Runs(line, n)
  {
    var rs := Runs(line, n - 1);
    RunsMaximal(line, n - 1);
    var k :| 0 <= k < |rs| && rs[k] == (s, n - 1);
    assert k == |rs| - 1;
  }

  /** A digit after a non-digit is found as a new run. */
  lemma StartFound(line: string, n: nat)
    requires 0 < n <= |line| && MaximalRun(line, n, n - 1, n)
    ensures (n - 1, n) in Runs(line, n)
  {
    var rs := Runs(line, n - 1);
    assert !(|rs| > 0 && rs[|rs| - 1].1 == n - 1);
    assert Runs(line, n) == rs + [(n - 1, n)];
  }

  /** Every maximal run is found. */
  lemma {:induction false} RunsComplete(line: string, n: nat, s: nat, e: nat)
    requires n <= |line| && MaximalRun(line, n, s, e)
    ensures (s, e) in Runs(line, n)
  {
    if e < n {
      assert MaximalRun(line, n - 1, s, e);
      RunsComplete(line, n - 1, s, e);
      KeepFound(line, n, (s, e));
    } else if s == n - 1 {
      StartFound(line, n);
    } else {
      assert MaximalRun(line, n - 1, s, n - 1);
      RunsComplete(line, n - 1, s, n - 1);
      ExtendFound(line, n, s);
    }
  }

  /** Every run lies within the line and holds only digits. */
  predicate DigitRuns(line: string, rs: seq<(nat, nat)>)
  {
    forall k :: 0 <= k < |rs| ==> rs[k].0 < rs[k].1 <= |line| && AllDigits(line[rs[k].0..rs[k].1])
  }

  lemma RunsDigits(line: string, n: nat)
    requires n <= |line|
    ensures DigitRuns(line, Runs(line, n))
  {
    var rs := Runs(line, n);
    RunsMaximal(line, n);
    forall k | 0 <= k < |rs| ensures AllDigits(line[rs[k].0..rs[k].1]) {
      assert MaximalRun(line, n, rs[k].0, rs[k].1);
    }
  }

  // ---------------------------------------------------------------------------
  // Scanning the schematic

  /** The part of the run `r`, built as the scan builds it when the run ends. */
  function PartOf(line: string, r: (nat, nat), y: int): Part
    requires r.0 < r.1 <= |line| && AllDigits(line[r.0..r.1])
  {
    FromBuffer(line[r.0..r.1], r.1 - 1, y)
  }

  function PartsOf(line: string, rs: seq<(nat, nat)>, y: int): (ps: seq<Part>)
    requires DigitRuns(line, rs)
    ensures |ps| == |rs|
  {
    seq(|rs|, k requires 0 <= k < |rs| => PartOf(line, rs[k], y))
  }

  /** The parts of line `y`: one per maximal digit run, left to right. */
  function LineParts(line: string, y: int): seq<Part>
  {
    RunsDigits(line, |line|);
    PartsOf(line, Runs(line, |line|), y)
  }

  /** The parts of the first `n` lines, line by line. */
  function AllParts(lines: seq<string>, n: nat): seq<Part>
    requires n <= |lines|
  {
    if n == 0 then [] else AllParts(lines, n - 1) + LineParts(lines[n - 1], n - 1)
  }

  /** Anything but a digit or `.` is a symbol. */
  predicate IsSymbol(c: char)
  {
    !IsDigit(c) && c != '.'
  }

  /** The symbols among the first `x` characters of line `y`, left to right. */
  function LineSymbols(line: string, x: nat, y: nat): seq<(char, Point)>
    requires x <= |line|
  {
    if x == 0 then []
    else LineSymbols(line, x - 1, y) + (if IsSymbol(line[x - 1]) then [(line[x - 1], Point(x - 1, y))] else [])
  }

  lemma {:induction false} LineSymbolsSound(line: string, x: nat, y: nat, k: nat)
    requires x <= |line| && k < |LineSymbols(line, x, y)|
    ensures var e := LineSymbols(line, x, y)[k];
      IsSymbol(e.0) && e.1.y == y && 0 <= e.1.x < x && line[e.1.x] == e.0
  {
    var init := LineSymbols(line, x - 1, y);
    if k < |init| {
      LineSymbolsSound(line, x - 1, y, k);
      assert LineSymbols(line, x, y)[k] == init[k];
    }
  }

  lemma {:induction false} LineSymbolsComplete(line: string, x: nat, y: nat, j: nat)
    requires j < x <= |line| && IsSymbol(line[j])
    ensures (line[j], Point(j, y)) in LineSymbols(line, x, y)
  {
    var init := LineSymbols(line, x - 1, y);
    if j < x - 1 {
      LineSymbolsComplete(line, x - 1, y, j);
      assert init <= LineSymbols(line, x, y);
    }
  }

  /** The symbols of the first `n` lines, row by row. */
  function Entries(lines: seq<string>, n: nat): seq<(char, Point)>
    requires n <= |lines|
  {
    if n == 0 then [] else Entries(lines, n - 1) + LineSymbols(lines[n - 1], |lines[n - 1]|, n - 1)
  }

  /** Every entry is a symbol at its coordinates. */
  lemma {:induction false} EntriesSound(lines: seq<string>, n: nat, k: nat)
    requires n <= |lines| && k < |Entries(lines, n)|
    ensures var e := Entries(lines, n)[k]; var p := e.1;
      IsSymbol(e.0) && 0 <= p.y < n && 0 <= p.x < |lines[p.y]| && lines[p.y][p.x] == e.0
  {
    var init := Entries(lines, n - 1);
    if k < |init| {
      EntriesSound(lines, n - 1, k);
      assert Entries(lines, n)[k] == init[k];
    } else {
      var line := LineSymbols(lines[n - 1], |lines[n - 1]|, n - 1);
      LineSymbolsSound(lines[n - 1], |lines[n - 1]|, n - 1, k - |init|);
      assert Entries(lines, n)[k] == line[k - |init|];
    }
  }

  /** Every symbol is an entry. */
  lemma {:induction false} EntriesComplete(lines: seq<string>, n: nat, y: nat, x: nat)
    requires n <= |lines| && y < n && x < |lines[y]| && IsSymbol(lines[y][x])
    ensures (lines[y][x], Point(x, y)) in Entries(lines, n)
  {
    var init := Entries(lines, n - 1);
    var line := LineSymbols(lines[n - 1], |lines[n - 1]|, n - 1);
    if y < n - 1 {
      EntriesComplete(lines, n - 1, y, x);
      assert init <= Entries(lines, n);
    } else {
      LineSymbolsComplete(lines[y], |lines[y]|, y, x);
      assert line <= Entries(lines, n)[|init|..];
    }
  }

  /** `symbol_map.entry(c).push(p)`: a key's first point creates its list. */
  function Record(m: map<char, seq<Point>>, c: char, p: Point): map<char, seq<Point>>
  {
    m[c := (if c in m then m[c] else []) + [p]]
  }

  /** The map the scan builds from its symbol entries, in order. */
  function Group(es: seq<(char, Point)>): map<char, seq<Point>>
  {
    if es == [] then map[]
    else Record(Group(es[..|es| - 1]), es[|es| - 1].0, es[|es| - 1].1)
  }

  /** Every recorded point comes from an entry with its key. */
  lemma {:induction false} GroupSound(es: seq<(char, Point)>, c: char, i: nat)
    requires c in Group(es) && i < |Group(es)[c]|
    ensures (c, Group(es)[c][i]) in es
  {
    var init := es[..|es| - 1];
    var last := es[|es| - 1];
    var g := Group(init);
    if c == last.0 && i == |Group(es)[c]| - 1 {
      assert Group(es)[c][i] == last.1;
    } else {
      assert c in g && i < |g[c]| && Group(es)[c][i] == g[c][i];
      GroupSound(init, c, i);
      assert init <= es;
    }
  }

  /** Every entry is recorded under its key. */
  lemma {:induction false} GroupComplete(es: seq<(char, Point)>, k: nat)
    requires k < |es|
    ensures es[k].0 in Group(es) && es[k].1 in Group(es)[es[k].0]
  {
    var init := es[..|es| - 1];
    var g := Group(init);
    if k < |es| - 1 {
      GroupComplete(init, k);
      assert es[k] == init[k];
      var c := es[k].0;
      assert g[c] <= Group(es)[c];
    }
  }

  /** `prepare`'s symbol map over the whole schematic. */
  function SymbolMap(lines: seq<string>): map<char, seq<Point>>
  {
    Group(Entries(lines, |lines|))
  }

  /** The symbol map records exactly the symbols, each under its own character
      with its coordinates; `.` and digits are never recorded. */
  lemma SymbolMapExact(lines: seq<string>, c: char, p: Point)
    ensures (c in SymbolMap(lines) && p in SymbolMap(lines)[c]) <==>
      (IsSymbol(c) && 0 <= p.y < |lines| && 0 <= p.x < |lines[p.y]| && lines[p.y][p.x] == c)
  {
    var es := Entries(lines, |lines|);
    var m := Group(es);
    if c in m && p in m[c] {
      var i :| 0 <= i < |m[c]| && m[c][i] == p;
      GroupSound(es, c, i);
      var k :| 0 <= k < |es| && es[k] == (c, p);
      EntriesSound(lines, |lines|, k);
    }
    if IsSymbol(c) && 0 <= p.y < |lines| && 0 <= p.x < |lines[p.y]| && lines[p.y][p.x] == c {
      EntriesComplete(lines, |lines|, p.y, p.x);
      var k :| 0 <= k < |es| && es[k] == (c, p);
      GroupComplete(es, k);
    }
  }

  /** The parts of a line are exactly those of its maximal digit runs, in
      order: one part per run, including a run that ends the line. */
  lemma LinePartsExact(line: string, y: int, s: nat, e: nat)
    requires MaximalRun(line, |line|, s, e)
    ensures AllDigits(line[s..e]) && PartOf(line, (s, e), y) in LineParts(line, y)
  {
    RunsComplete(line, |line|, s, e);
    RunsDigits(line, |line|);
    var rs := Runs(line, |line|);
    var k :| 0 <= k < |rs| && rs[k] == (s, e);
    assert LineParts(line, y)[k] == PartOf(line, (s, e), y);
  }

  /** The scan is inside a digit run after `x` characters. */
  predicate Open(line: string, x: nat)
    requires x <= |line|
  {
    x > 0 && IsDigit(line[x - 1])
  }

  /** A digit after a digit extends the open run. */
  lemma RunsExtend(line: string, x: nat, closed: seq<(nat, nat)>, start: nat)
    requires x < |line| && IsDigit(line[x]) && Open(line, x)
    requires Runs(line, x) == closed + [(start, x)]
    ensures Runs(line, x + 1) == closed + [(start, x + 1)]
  {
    var rs := Runs(line, x);
    assert rs[..|rs| - 1] == closed;
  }

  /** A digit after a non-digit starts a run. */
  lemma RunsStart(line: string, x: nat)
    requires x < |line| && IsDigit(line[x]) && !Open(line, x)
    ensures Runs(line, x + 1) == Runs(line, x) + [(x, x + 1)]
  {
  }

  /** A non-digit adds no run. */
  lemma RunsSkip(line: string, x: nat)
    requires x < |line| && !IsDigit(line[x])
    ensures Runs(line, x + 1) == Runs(line, x)
  {
  }

  lemma PartsOfAppend(line: string, rs: seq<(nat, nat)>, r: (nat, nat), y: int)
    requires DigitRuns(line, rs) && r.0 < r.1 <= |line| && AllDigits(line[r.0..r.1])
    ensures DigitRuns(line, rs + [r])
    ensures PartsOf(line, rs + [r], y) == PartsOf(line, rs, y) + [PartOf(line, r, y)]
  {
    var xs := rs + [r];
    assert forall k :: 0 <= k < |rs| ==> xs[k] == rs[k];
  }

  /** Recording the `x`-th character if it is a symbol. */
  lemma SymbolStep(es0: seq<(char, Point)>, line: string, x: nat, y: nat)
    requires x < |line|
    ensures Group(es0 + LineSymbols(line, x + 1, y)) ==
      if IsSymbol(line[x]) then Record(Group(es0 + LineSymbols(line, x, y)), line[x], Point(x, y))
      else Group(es0 + LineSymbols(line, x, y))
  {
    var es := es0 + LineSymbols(line, x, y);
    if IsSymbol(line[x]) {
      assert es0 + LineSymbols(line, x + 1, y) == es + [(line[x], Point(x, y))];
      assert (es + [(line[x], Point(x, y))])[..|es|] == es;
    } else {
      assert es0 + LineSymbols(line, x + 1, y) == es;
    }
  }

  /** The scan state after the first `x` characters of a line: `closed` are
      the runs already pushed as parts, and while a run is open the buffer
      holds its digits and `bufferEnd` its last column. */
  ghost predicate Scanned(line: string, x: nat, y: int, parts0: seq<Part>, parts: seq<Part>,
                          buffer: string, bufferEnd: int, closed: seq<(nat, nat)>, start: nat)
  {
    x <= |line| && DigitRuns(line, closed) && AllDigits(buffer) &&
    parts == parts0 + PartsOf(line, closed, y) &&
    if Open(line, x) then
      Runs(line, x) == closed + [(start, x)] && start < x && buffer == line[start..x] && bufferEnd == x - 1
    else
      Runs(line, x) == closed && buffer == []
  }

  /** Pushes the buffered part, if any. */
  method Flush(line: string, x: nat, y: int, ghost parts0: seq<Part>, parts: seq<Part>,
               buffer: string, bufferEnd: int, ghost closed: seq<(nat, nat)>, ghost start: nat)
    returns (parts': seq<Part>, ghost closed': seq<(nat, nat)>)
    requires Scanned(line, x, y, parts0, parts, buffer, bufferEnd, closed, start)
    ensures DigitRuns(line, closed') && parts' == parts0 + PartsOf(line, closed', y)
    ensures closed' == if Open(line, x) then Runs(line, x) else closed
    ensures !Open(line, x) ==> closed == Runs(line, x)
    ensures !Open(line, x) ==> parts' == parts
    ensures buffer == [] ==> parts' == parts
    ensures buffer != [] ==> parts' == parts + [FromBuffer(buffer, bufferEnd, y)]
  {
    parts', closed' := parts, closed;
    if |buffer| > 0 {
      PartsOfAppend(line, closed, (start, x), y);
      parts' := parts + [FromBuffer(buffer, bufferEnd, y)];
      closed' := closed + [(start, x)];
    }
  }

  /** A digit after a digit extends the buffer. */
  lemma ScannedExtend(line: string, x: nat, y: int, parts0: seq<Part>, parts: seq<Part>,
                      buffer: string, bufferEnd: int, closed: seq<(nat, nat)>, start: nat)
    requires x < |line| && IsDigit(line[x]) && Open(line, x)
    requires Scanned(line, x, y, parts0, parts, buffer, bufferEnd, closed, start)
    ensures Scanned(line, x + 1, y, parts0, parts, buffer + [line[x]], x, closed, start)
  {
    RunsExtend(line, x, closed, start);
    assert buffer + [line[x]] == line[start..x + 1];
  }

  /** A digit after a non-digit starts a buffer. */
  lemma ScannedStart(line: string, x: nat, y: int, parts0: seq<Part>, parts: seq<Part>,
                     buffer: string, bufferEnd: int, closed: seq<(nat, nat)>, start: nat)
    requires x < |line| && IsDigit(line[x]) && !Open(line, x)
    requires Scanned(line, x, y, parts0, parts, buffer, bufferEnd, closed, start)
    ensures Scanned(line, x + 1, y, parts0, parts, buffer + [line[x]], x, closed, x)
  {
    RunsStart(line, x);
    assert buffer + [line[x]] == line[x..x + 1];
  }

  /** A non-digit after the buffered run has been flushed. */
  lemma ScannedSkip(line: string, x: nat, y: int, parts0: seq<Part>, parts: seq<Part>,
                    bufferEnd: int, closed: seq<(nat, nat)>, start: nat)
    requires x < |line| && !IsDigit(line[x])
    requires DigitRuns(line, closed) && parts == parts0 + PartsOf(line, closed, y)
    requires closed == Runs(line, x)
    ensures Scanned(line, x + 1, y, parts0, parts, [], bufferEnd, closed, start)
  {
    RunsSkip(line, x);
  }

  /** One character of the digit scan. */
  method ScanDigit(line: string, x: nat, y: int, ghost parts0: seq<Part>, parts: seq<Part>,
                   buffer: string, bufferEnd: int, ghost closed: seq<(nat, nat)>, ghost start: nat)
    returns (parts': seq<Part>, buffer': string, bufferEnd': int, ghost closed': seq<(nat, nat)>, ghost start': nat)
    requires x < |line| && Scanned(line, x, y, parts0, parts, buffer, bufferEnd, closed, start)
    ensures Scanned(line, x + 1, y, parts0, parts', buffer', bufferEnd', closed', start')
    ensures IsDigit(line[x]) ==> parts' == parts && buffer' == buffer + [line[x]] && bufferEnd' == x
    ensures !IsDigit(line[x]) ==> buffer' == [] && bufferEnd' == bufferEnd
    ensures !IsDigit(line[x]) && buffer == [] ==> parts' == parts
    ensures !IsDigit(line[x]) && buffer != [] ==> parts' == parts + [FromBuffer(buffer, bufferEnd, y)]
  {
    var ch := line[x];
    if IsDigit(ch) {
      parts', closed' := parts, closed;
      if Open(line, x) {
        ScannedExtend(line, x, y, parts0, parts, buffer, bufferEnd, closed, start);
        start' := start;
      } else {
        ScannedStart(line, x, y, parts0, parts, buffer, bufferEnd, closed, start);
        start' := x;
      }
      buffer' := buffer + [ch];
      bufferEnd' := x;
    } else {
      parts', closed' := Flush(line, x, y, parts0, parts, buffer, bufferEnd, closed, start);
      ScannedSkip(line, x, y, parts0, parts', bufferEnd, closed', start);
      buffer', bufferEnd', start' := [], bufferEnd, start;
    }
  }

  /** The body of `prepare`'s line loop: scan one line, pushing a part when a
      digit run ends (at a non-digit or at the end of the line) and recording
      every symbol.  The digit buffer is empty between lines, so it is local
      here. */
  method ScanLine(line: string, y: nat, parts0: seq<Part>, symbols0: map<char, seq<Point>>, ghost es0: seq<(char, Point)>)
    returns (parts: seq<Part>, symbols: map<char, seq<Point>>)
    requires symbols0 == Group(es0)
    ensures parts == parts0 + LineParts(line, y)
    ensures symbols == Group(es0 + LineSymbols(line, |line|, y))
  {
    parts, symbols := parts0, symbols0;
    var buffer: string := [];
    var bufferEnd: int := 0;
    ghost var closed: seq<(nat, nat)> := [];
    ghost var start: nat := 0;
    assert es0 + [] == es0;
    for x := 0 to |line|
      invariant Scanned(line, x, y, parts0, parts, buffer, bufferEnd, closed, start)
      invariant symbols == Group(es0 + LineSymbols(line, x, y))
    {
      var ch := line[x];
      SymbolStep(es0, line, x, y);
      parts, buffer, bufferEnd, closed, start := ScanDigit(line, x, y, parts0, parts, buffer, bufferEnd, closed, start);
      if !IsDigit(ch) && ch != '.' {
        symbols := Record(symbols, ch, Point(x, y));
      }
    }
    parts, closed := Flush(line, |line|, y, parts0, parts, buffer, bufferEnd, closed, start);
    RunsDigits(line, |line|);
  }

  /** `prepare`: the parts and the symbol map of the whole schematic. */
  method Prepare(lines: seq<string>) returns (parts: seq<Part>, symbols: map<char, seq<Point>>)
    ensures parts == AllParts(lines, |lines|)
    ensures symbols == SymbolMap(lines)
  {
    parts, symbols := [], map[];
    for y := 0 to |lines|
      invariant parts == AllParts(lines, y)
      invariant symbols == Group(Entries(lines, y))
    {
      parts, symbols := ScanLine(lines[y], y, parts, symbols, Entries(lines, y));
    }
  }

  // ---------------------------------------------------------------------------
  // Part 1

  /** Some recorded symbol lies in the part's box. */
  predicate NextToSymbol(part: Part, symbols: map<char, seq<Point>>)
  {
    exists c, k :: c in symbols && 0 <= k < |symbols[c]| && AdjacentTo(part, symbols[c][k])
  }

  /** The numbers of the parts next to a symbol, in order, each once. */
  function Valid(parts: seq<Part>, symbols: map<char, seq<Point>>): seq<nat>
  {
    if parts == [] then []
    else
      var last := parts[|parts| - 1];
      Valid(parts[..|parts| - 1], symbols) + if NextToSymbol(last, symbols) then [last.number] else []
  }

  /** The numbers of all parts, in order. */
  function Numbers(parts: seq<Part>): seq<nat>
  {
    if parts == [] then [] else Numbers(parts[..|parts| - 1]) + [parts[|parts| - 1].number]
  }

  /** Each part counts at most once however many symbols touch it: the total
      is at most the total of all parts. */
  lemma {:induction false} ValidAtMostOnce(parts: seq<Part>, symbols: map<char, seq<Point>>)
    ensures |Valid(parts, symbols)| <= |parts|
    ensures Sum(Valid(parts, symbols)) <= Sum(Numbers(parts))
  {
    if parts != [] {
      var init := parts[..|parts| - 1];
      var last := parts[|parts| - 1];
      ValidAtMostOnce(init, symbols);
      var tail := if NextToSymbol(last, symbols) then [last.number] else [];
      SumAppend(Valid(init, symbols), tail);
      SumAppend(Numbers(init), [last.number]);
      assert Sum([last.number]) == last.number by {
        assert [last.number][..0] == [];
      }
      assert Sum(tail) <= last.number by {
        if tail == [] {
        } else {
          assert tail == [last.number];
        }
      }
    }
  }

  /** When every part touches a symbol, every number is counted. */
  lemma {:induction false} ValidAll(parts: seq<Part>, symbols: map<char, seq<Point>>)
    requires forall i :: 0 <= i < |parts| ==> NextToSymbol(parts[i], symbols)
    ensures Valid(parts, symbols) == Numbers(parts)
  {
    if parts != [] {
      var init := parts[..|parts| - 1];
      assert forall i :: 0 <= i < |init| ==> init[i] == parts[i];
      ValidAll(init, symbols);
      assert NextToSymbol(parts[|parts| - 1], symbols);
    }
  }

  /** A number is counted exactly when some part with that number touches a
      symbol. */
  lemma {:induction false} ValidMembers(parts: seq<Part>, symbols: map<char, seq<Point>>, n: nat)
    ensures n in Valid(parts, symbols) <==>
      exists i :: 0 <= i < |parts| && parts[i].number == n && NextToSymbol(parts[i], symbols)
  {
    if parts != [] {
      var init := parts[..|parts| - 1];
      ValidMembers(init, symbols, n);
      if exists i :: 0 <= i < |parts| && parts[i].number == n && NextToSymbol(parts[i], symbols) {
        var i :| 0 <= i < |parts| && parts[i].number == n && NextToSymbol(parts[i], symbols);
        if i < |init| {
          assert init[i] == parts[i];
        }
      }
      if n in Valid(init, symbols) {
        var i :| 0 <= i < |init| && init[i].number == n && NextToSymbol(init[i], symbols);
        assert parts[i] == init[i];
      }
    }
  }

  /** The inner two loops of `part_1`: whether any point of any symbol, taken
      in the map's iteration order `keys`, lies in the part's box.  The first
      hit ends the search, as the labelled `continue` does. */
  method AdjacentToAny(part: Part, symbols: map<char, seq<Point>>, keys: seq<char>) returns (hit: bool)
    requires Lists(keys, symbols.Keys)
    ensures hit == NextToSymbol(part, symbols)
  {
    for i := 0 to |keys|
      invariant forall j, k :: 0 <= j < i && 0 <= k < |symbols[keys[j]]| ==> !AdjacentTo(part, symbols[keys[j]][k])
    {
      var value := symbols[keys[i]];
      for k := 0 to |value|
        invariant forall k' :: 0 <= k' < k ==> !AdjacentTo(part, value[k'])
      {
        if AdjacentTo(part, value[k]) {
          return true;
        }
      }
    }
    hit := false;
  }

  /** `part_1`: the sum of the numbers of the parts next to a symbol, the
      symbol map visited in the iteration order `keys`. */
  method Part1(parts: seq<Part>, symbols: map<char, seq<Point>>, keys: seq<char>) returns (r: Option<nat>)
    requires Lists(keys, symbols.Keys)
    ensures r == Some(Sum(Valid(parts, symbols)))
  {
    var validParts: seq<nat> := [];
    for i := 0 to |parts|
      invariant validParts == Valid(parts[..i], symbols)
    {
      assert parts[..i + 1][..i] == parts[..i];
      var hit := AdjacentToAny(parts[i], symbols, keys);
      if hit {
        validParts := validParts + [parts[i].number];
      }
    }
    assert parts[..|parts|] == parts;
    r := Some(Sum(validParts));
  }

  // ---------------------------------------------------------------------------
  // Part 2

  /** The numbers of the parts whose box holds `p`, in order. */
  function Gears(parts: seq<Part>, p: Point): (g: seq<nat>)
    ensures |g| <= |parts|
  {
    if parts == [] then []
    else
      var last := parts[|parts| - 1];
      Gears(parts[..|parts| - 1], p) + if AdjacentTo(last, p) then [last.number] else []
  }

  /** A number is a gear of `p` exactly when some part with that number has
      `p` in its box. */
  lemma {:induction false} GearsMembers(parts: seq<Part>, p: Point, n: nat)
    ensures n in Gears(parts, p) <==>
      exists i :: 0 <= i < |parts| && parts[i].number == n && AdjacentTo(parts[i], p)
  {
    if parts != [] {
      var init := parts[..|parts| - 1];
      GearsMembers(init, p, n);
      if exists i :: 0 <= i < |parts| && parts[i].number == n && AdjacentTo(parts[i], p) {
        var i :| 0 <= i < |parts| && parts[i].number == n && AdjacentTo(parts[i], p);
        if i < |init| {
          assert init[i] == parts[i];
        }
      }
      if n in Gears(init, p) {
        var i :| 0 <= i < |init| && init[i].number == n && AdjacentTo(init[i], p);
        assert parts[i] == init[i];
      }
    }
  }

  /** The ratios pushed for the symbol points `ps`, in order: a point adds the
      product of its gears when it has exactly two, and nothing otherwise. */
  function Ratios(parts: seq<Part>, ps: seq<Point>): (r: seq<nat>)
    ensures |r| <= |ps|
  {
    if ps == [] then []
    else
      var g := Gears(parts, ps[|ps| - 1]);
      Ratios(parts, ps[..|ps| - 1]) + if |g| == 2 then [g[0] * g[1]] else []
  }

  /** All symbol points, key by key in the order `keys`, each key's points in
      the order they were recorded. */
  function Points(symbols: map<char, seq<Point>>, keys: seq<char>): seq<Point>
    requires forall i :: 0 <= i < |keys| ==> keys[i] in symbols
  {
    if keys == [] then [] else Points(symbols, keys[..|keys| - 1]) + symbols[keys[|keys| - 1]]
  }

  lemma {:induction false} RatiosAppend(parts: seq<Part>, ps: seq<Point>, qs: seq<Point>)
    ensures Ratios(parts, ps + qs) == Ratios(parts, ps) + Ratios(parts, qs)
    decreases |qs|
  {
    if qs == [] {
      assert ps + qs == ps;
    } else {
      assert (ps + qs)[..|ps + qs| - 1] == ps + qs[..|qs| - 1];
      RatiosAppend(parts, ps, qs[..|qs| - 1]);
    }
  }

  lemma {:induction false} PointsAppend(symbols: map<char, seq<Point>>, xs: seq<char>, ys: seq<char>)
    requires forall i :: 0 <= i < |xs| ==> xs[i] in symbols
    requires forall i :: 0 <= i < |ys| ==> ys[i] in symbols
    ensures forall i :: 0 <= i < |xs + ys| ==> (xs + ys)[i] in symbols
    ensures Points(symbols, xs + ys) == Points(symbols, xs) + Points(symbols, ys)
    decreases |ys|
  {
    forall i | 0 <= i < |xs + ys| ensures (xs + ys)[i] in symbols {
      if i < |xs| {
        assert (xs + ys)[i] == xs[i];
      } else {
        assert (xs + ys)[i] == ys[i - |xs|];
      }
    }
    if ys == [] {
      assert xs + ys == xs;
    } else {
      var init := ys[..|ys| - 1];
      assert forall i :: 0 <= i < |init| ==> init[i] == ys[i];
      assert (xs + ys)[..|xs + ys| - 1] == xs + init;
      PointsAppend(symbols, xs, init);
    }
  }

  /** The total of the ratios does not depend on the order of the points. */
  lemma {:induction false} RatioSumPermutation(parts: seq<Part>, ps: seq<Point>, qs: seq<Point>)
    requires multiset(ps) == multiset(qs)
    ensures Sum(Ratios(parts, ps)) == Sum(Ratios(parts, qs))
    decreases |ps|
  {
    if ps == [] {
      assert |qs| == |multiset(qs)| == 0;
    } else {
      var p := ps[|ps| - 1];
      var init := ps[..|ps| - 1];
      var k := PermutationLast(ps, qs);
      RatioSumPermutation(parts, init, qs[..k] + qs[k + 1..]);
      assert ps == init + [p];
      RatiosAppend(parts, init, [p]);
      RatiosAppend(parts, qs[..k] + [p], qs[k + 1..]);
      RatiosAppend(parts, qs[..k], [p]);
      RatiosAppend(parts, qs[..k], qs[k + 1..]);
      var a, b, c := Ratios(parts, qs[..k]), Ratios(parts, [p]), Ratios(parts, qs[k + 1..]);
      SumAppend(Ratios(parts, init), b);
      SumAppend(a + b, c);
      SumAppend(a, b);
      SumAppend(a, c);
    }
  }

  /** Reordering the keys reorders the points. */
  lemma {:induction false} PointsPermutation(symbols: map<char, seq<Point>>, xs: seq<char>, ys: seq<char>)
    requires forall i :: 0 <= i < |xs| ==> xs[i] in symbols
    requires forall i :: 0 <= i < |ys| ==> ys[i] in symbols
    requires multiset(xs) == multiset(ys)
    ensures multiset(Points(symbols, xs)) == multiset(Points(symbols, ys))
    decreases |xs|
  {
    if xs == [] {
      assert |ys| == |multiset(ys)| == 0;
    } else {
      var c := xs[|xs| - 1];
      var init := xs[..|xs| - 1];
      var k := PermutationLast(xs, ys);
      var before, after := ys[..k], ys[k + 1..];
      assert forall i :: 0 <= i < |before| ==> before[i] == ys[i];
      assert forall i :: 0 <= i < |after| ==> after[i] == ys[k + 1 + i];
      PointsAppend(symbols, before, after);
      PointsPermutation(symbols, init, before + after);
      assert xs == init + [c];
      assert Points(symbols, [c]) == symbols[c] by {
        assert [c][..0] == [];
      }
      PointsAppend(symbols, init, [c]);
      PointsAppend(symbols, before + [c], after);
      PointsAppend(symbols, before, [c]);
    }
  }

  /** `part_2` gives the same total whatever order the symbol map is
      iterated in. */
  lemma RatiosOrderFree(parts: seq<Part>, symbols: map<char, seq<Point>>, xs: seq<char>, ys: seq<char>)
    requires Lists(xs, symbols.Keys) && Lists(ys, symbols.Keys)
    ensures Sum(Ratios(parts, Points(symbols, xs))) == Sum(Ratios(parts, Points(symbols, ys)))
  {
    ListsPermutation(xs, ys, symbols.Keys);
    PointsPermutation(symbols, xs, ys);
    RatioSumPermutation(parts, Points(symbols, xs), Points(symbols, ys));
  }

  /** The innermost loop of `part_2`: push the number of every part whose
      box holds `p` onto the (cleared) gear list. */
  method CollectGears(parts: seq<Part>, p: Point, gears0: seq<nat>) returns (gears: seq<nat>)
    ensures gears == gears0 + Gears(parts, p)
  {
    gears := gears0;
    for j := 0 to |parts|
      invariant gears == gears0 + Gears(parts[..j], p)
    {
      assert parts[..j + 1][..j] == parts[..j];
      if AdjacentTo(parts[j], p) {
        gears := gears + [parts[j].number];
      }
    }
    assert parts[..|parts|] == parts;
  }

  /** `part_2`: for every point of every symbol (any symbol, not only `*`),
      collect the numbers of the parts around it and add their product when
      there are exactly two; the symbol map is visited in the order `keys`. */
  method Part2(parts: seq<Part>, symbols: map<char, seq<Point>>, keys: seq<char>) returns (r: Option<nat>)
    requires Lists(keys, symbols.Keys)
    ensures r == Some(Sum(Ratios(parts, Points(symbols, keys))))
  {
    var ratios: seq<nat> := [];
    for i := 0 to |keys|
      invariant ratios == Ratios(parts, Points(symbols, keys[..i]))
    {
      RatiosStep(parts, symbols, keys, i);
      ratios := SymbolRatios(parts, symbols[keys[i]], ratios);
    }
    assert keys[..|keys|] == keys;
    r := Some(Sum(ratios));
  }

  /** One key more adds the ratios of that key's points. */
  lemma RatiosStep(parts: seq<Part>, symbols: map<char, seq<Point>>, keys: seq<char>, i: nat)
    requires forall k :: 0 <= k < |keys| ==> keys[k] in symbols
    requires i < |keys|
    ensures Ratios(parts, Points(symbols, keys[..i + 1])) ==
      Ratios(parts, Points(symbols, keys[..i])) + Ratios(parts, symbols[keys[i]])
  {
    assert keys[..i + 1][..i] == keys[..i];
    RatiosAppend(parts, Points(symbols, keys[..i]), symbols[keys[i]]);
  }

  /** The middle loop of `part_2`, over the points of one symbol; the gear
      list is cleared after each point. */
  method SymbolRatios(parts: seq<Part>, value: seq<Point>, ratios0: seq<nat>) returns (ratios: seq<nat>)
    ensures ratios == ratios0 + Ratios(parts, value)
  {
    ratios := ratios0;
    var gears: seq<nat> := [];
    for k := 0 to |value|
      invariant gears == []
      invariant ratios == ratios0 + Ratios(parts, value[..k])
    {
      assert value[..k + 1][..k] == value[..k];
      gears := CollectGears(parts, value[k], gears);
      if |gears| == 2 {
        ratios := ratios + [gears[0] * gears[1]];
      }
      gears := [];
    }
    assert value[..|value|] == value;
  }
}
