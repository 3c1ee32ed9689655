/** Tilting, rotating and weighing the rock platform (src/day14.rs).  A grid is
    a sequence of columns, each read from the top; `O` is a rolling rock, `#`
    a fixed one and `.` empty ground. */
module Day14 {
  import opened Text

  type Grid = seq<seq<char>>

  // ---------------------------------------------------------------------------
  // Sorting a segment

  predicate SortedDescending(s: seq<char>)
  {
    forall i, j :: 0 <= i < j < |s| ==> s[i] >= s[j]
  }

  /** Inserts `c` before the first character it is not below. */
  function InsertDescending(c: char, s: seq<char>): (r: seq<char>)
    ensures |r| == |s| + 1
  {
    if s == [] || c >= s[0] then [c] + s
    else [s[0]] + InsertDescending(c, s[1..])
  }

  /** Inserting into a descending sequence keeps it descending. */
  lemma {:induction false} InsertSorted(c: char, s: seq<char>)
    requires SortedDescending(s)
    ensures SortedDescending(InsertDescending(c, s))
  {
    if s != [] && c < s[0] {
      var tail := s[1..];
      var rest := InsertDescending(c, tail);
      InsertSorted(c, tail);
      InsertBelow(c, tail, s[0]);
      var r := [s[0]] + rest;
      forall i, j | 0 <= i < j < |r| ensures r[i] >= r[j] {
        assert r[j] == rest[j - 1];
        if i > 0 {
          assert r[i] == rest[i - 1];
        }
      }
    }
  }

  /** A bound on `c` and on every character of `s` bounds the insertion. */
  lemma {:induction false} InsertBelow(c: char, s: seq<char>, b: char)
    requires b >= c && forall i :: 0 <= i < |s| ==> b >= s[i]
    ensures forall i :: 0 <= i < |s| + 1 ==> b >= InsertDescending(c, s)[i]
  {
    if s != [] && c < s[0] {
      InsertBelow(c, s[1..], b);
      var rest := InsertDescending(c, s[1..]);
      assert forall i :: 1 <= i < |s| + 1 ==> InsertDescending(c, s)[i] == rest[i - 1];
    }
  }

  /** `sort_by(|a, b| b.cmp(a))`: the segment in descending order. */
  function SortDescending(s: seq<char>): (r: seq<char>)
    ensures |r| == |s|
  {
    if s == [] then [] else InsertDescending(s[0], SortDescending(s[1..]))
  }

  lemma {:induction false} SortIsSorted(s: seq<char>)
    ensures SortedDescending(SortDescending(s))
  {
    if s != [] {
      SortIsSorted(s[1..]);
      InsertSorted(s[0], SortDescending(s[1..]));
    }
  }

  lemma {:induction false} InsertPermutes(c: char, s: seq<char>)
    ensures multiset(InsertDescending(c, s)) == multiset([c] + s)
  {
    if s != [] && c < s[0] {
      InsertPermutes(c, s[1..]);
      assert s == [s[0]] + s[1..];
    }
  }

  /** Sorting only reorders: the segment keeps every character and its count. */
  lemma {:induction false} SortPermutes(s: seq<char>)
    ensures multiset(SortDescending(s)) == multiset(s)
  {
    if s != [] {
      SortPermutes(s[1..]);
      InsertPermutes(s[0], SortDescending(s[1..]));
      assert s == [s[0]] + s[1..];
    }
  }

  /** Sorting a sorted segment changes nothing. */
  lemma {:induction false} SortSorted(s: seq<char>)
    requires SortedDescending(s)
    ensures SortDescending(s) == s
  {
    if s != [] {
      SortSorted(s[1..]);
      assert s == [s[0]] + s[1..];
    }
  }

  // ---------------------------------------------------------------------------
  // Tilting a column

  /** The index of the first `#`, or the length when there is none. */
  function FirstRock(col: seq<char>): (k: nat)
    ensures k <= |col| && forall i :: 0 <= i < k ==> col[i] != '#'
    ensures k < |col| ==> col[k] == '#'
  {
    if col == [] || col[0] == '#' then 0
    else 1 + FirstRock(col[1..])
  }

  /** The first `#` is the only index with no `#` before it and `#` at it. */
  lemma {:induction false} FirstRockUnique(col: seq<char>, k: nat)
    requires k <= |col| && forall i :: 0 <= i < k ==> col[i] != '#'
    requires k < |col| ==> col[k] == '#'
    ensures FirstRock(col) == k
  {
  }

  /** `split_mut(|ch| ch == '#')` and a descending sort of every piece: each
      `#`-free segment sorted in place, the `#`s left where they are. */
  function SettleColumn(col: seq<char>): (r: seq<char>)
    ensures |r| == |col|
    decreases |col|
  {
    var k := FirstRock(col);
    if k == |col| then SortDescending(col[..k])
    else SortDescending(col[..k]) + ['#'] + SettleColumn(col[k + 1..])
  }

  /** A tilted column is the sorted first segment, then the first `#` and the
      rest of the column tilted. */
  lemma SettleColumnParts(col: seq<char>)
    ensures var k := FirstRock(col);
      SettleColumn(col)[..k] == SortDescending(col[..k]) &&
      (k < |col| ==> SettleColumn(col)[k] == '#' && SettleColumn(col)[k + 1..] == SettleColumn(col[k + 1..]))
  {
    var k := FirstRock(col);
    var segment := SortDescending(col[..k]);
    if k < |col| {
      SettleColumnSplit(col);
      SliceAround(segment, SettleColumn(col[k + 1..]));
    } else {
      SettleColumnWhole(col);
      assert col[..k] == col;
      assert segment[..k] == segment;
    }
  }

  lemma SettleColumnSplit(col: seq<char>)
    requires FirstRock(col) < |col|
    ensures var k := FirstRock(col);
      SettleColumn(col) == SortDescending(col[..k]) + ['#'] + SettleColumn(col[k + 1..])
  {
  }

  lemma SettleColumnWhole(col: seq<char>)
    requires FirstRock(col) == |col|
    ensures SettleColumn(col) == SortDescending(col)
  {
    assert col[..|col|] == col;
  }

  lemma SliceAround(a: seq<char>, b: seq<char>)
    ensures var r := a + ['#'] + b;
      r[..|a|] == a && r[|a|] == '#' && r[|a| + 1..] == b
  {
  }

  /** Tilting keeps every character of the column and its count. */
  lemma {:induction false} SettleColumnPermutes(col: seq<char>)
    ensures multiset(SettleColumn(col)) == multiset(col)
    decreases |col|
  {
    var k := FirstRock(col);
    SortPermutes(col[..k]);
    if k == |col| {
      SettleColumnWhole(col);
      assert col[..k] == col;
    } else {
      SettleColumnSplit(col);
      SettleColumnPermutes(col[k + 1..]);
      assert col == col[..k] + ['#'] + col[k + 1..];
      SamePartsAround(col[..k], SortDescending(col[..k]), col[k + 1..], SettleColumn(col[k + 1..]));
    }
  }

  lemma SamePartsAround(a: seq<char>, a': seq<char>, b: seq<char>, b': seq<char>)
    requires multiset(a) == multiset(a') && multiset(b) == multiset(b')
    ensures multiset(a + ['#'] + b) == multiset(a' + ['#'] + b')
  {
  }

  /** Tilting leaves every `#` where it is and puts none anywhere else. */
  lemma {:induction false} SettleColumnRocks(col: seq<char>)
    ensures forall i :: 0 <= i < |col| ==> (SettleColumn(col)[i] == '#' <==> col[i] == '#')
    decreases |col|
  {
    var k := FirstRock(col);
    var segment := SortDescending(col[..k]);
    SortKeepsNoRock(col[..k]);
    if k < |col| {
      var tail := col[k + 1..];
      SettleColumnRocks(tail);
      assert col == col[..k] + ['#'] + tail;
      assert SettleColumn(col) == segment + ['#'] + SettleColumn(tail);
      RocksAround(col[..k], segment, tail, SettleColumn(tail));
    } else {
      assert col[..k] == col;
      assert SettleColumn(col) == segment;
    }
  }

  /** Sorting a segment without `#` puts none in it. */
  lemma SortKeepsNoRock(s: seq<char>)
    requires '#' !in s
    ensures '#' !in SortDescending(s)
  {
    SortPermutes(s);
    assert '#' !in multiset(s);
  }

  /** Two columns with a `#` at the same index and `#`s at the same indices
      after it, and none before it, have their `#`s at the same indices. */
  lemma RocksAround(a: seq<char>, a': seq<char>, b: seq<char>, b': seq<char>)
    requires |a| == |a'| && '#' !in a && '#' !in a'
    requires |b| == |b'| && forall i :: 0 <= i < |b| ==> (b'[i] == '#' <==> b[i] == '#')
    ensures var x, y := a + ['#'] + b, a' + ['#'] + b';
      forall i :: 0 <= i < |x| ==> (y[i] == '#' <==> x[i] == '#')
  {
    var x, y := a + ['#'] + b, a' + ['#'] + b';
    forall i | 0 <= i < |x| ensures y[i] == '#' <==> x[i] == '#' {
      if i < |a| {
        assert x[i] == a[i] && y[i] == a'[i];
      } else if i > |a| {
        assert x[i] == b[i - |a| - 1] && y[i] == b'[i - |a| - 1];
      }
    }
  }

  /** Within a segment a tilted column never has a smaller character before a
      larger one: every `O` lies before every `.`. */
  lemma {:induction false} SettleColumnOrdered(col: seq<char>, i: nat, j: nat)
    requires i < j < |col|
    requires forall m :: i <= m <= j ==> SettleColumn(col)[m] != '#'
    ensures SettleColumn(col)[i] >= SettleColumn(col)[j]
    decreases |col|
  {
    var r := SettleColumn(col);
    var k := FirstRock(col);
    SettleColumnParts(col);
    var segment := SortDescending(col[..k]);
    if j < k {
      SortIsSorted(col[..k]);
      assert r[i] == segment[i] && r[j] == segment[j];
    } else {
      assert r[k] == '#';
      assert k < i;
      var tail := col[k + 1..];
      var rest := SettleColumn(tail);
      assert r[k + 1..] == rest;
      var i', j' := i - k - 1, j - k - 1;
      assert r[i] == rest[i'] && r[j] == rest[j'];
      assert forall m :: i' <= m <= j' ==> rest[m] == r[m + k + 1];
      SettleColumnOrdered(tail, i', j');
    }
  }

  /** Tilting twice is tilting once. */
  lemma {:induction false} SettleColumnIdempotent(col: seq<char>)
    ensures SettleColumn(SettleColumn(col)) == SettleColumn(col)
    decreases |col|
  {
    var r := SettleColumn(col);
    var k := FirstRock(col);
    var segment := SortDescending(col[..k]);
    SettleColumnParts(col);
    SettleColumnRocks(col);
    forall i | 0 <= i < k ensures r[..k][i] != '#' {
      assert col[i] == col[..k][i];
    }
    FirstRockUnique(r, k);
    SortIsSorted(col[..k]);
    SortSorted(segment);
    SettleColumnParts(r);
    if k < |col| {
      SettleColumnIdempotent(col[k + 1..]);
      assert SettleColumn(r) == SettleColumn(r)[..k] + [SettleColumn(r)[k]] + SettleColumn(r)[k + 1..];
      assert r == r[..k] + [r[k]] + r[k + 1..];
    } else {
      assert r[..k] == r && SettleColumn(r)[..k] == SettleColumn(r);
    }
  }

  // ---------------------------------------------------------------------------
  // Grids

  predicate Rectangular(g: Grid, m: nat)
  {
    forall x :: 0 <= x < |g| ==> |g[x]| == m
  }

  predicate IsSquare(g: Grid)
  {
    Rectangular(g, |g|)
  }

  /** `settle_map`: every column tilted towards its top. */
  function Settle(g: Grid): (r: Grid)
    ensures |r| == |g| && forall x :: 0 <= x < |g| ==> |r[x]| == |g[x]|
  {
    seq(|g|, x requires 0 <= x < |g| => SettleColumn(g[x]))
  }

  /** `settle_map`: the loop over the columns, each tilted in place. */
  method SettleMap(grid: Grid) returns (settled: Grid)
    ensures settled == Settle(grid)
  {
    settled := grid;
    for x := 0 to |settled|
      invariant |settled| == |grid|
      invariant forall k :: 0 <= k < |grid| ==> settled[k] == if k < x then SettleColumn(grid[k]) else grid[k]
    {
      settled := settled[x := SettleColumn(settled[x])];
    }
  }

  /** Tilting keeps the shape, every `#`, and the characters of every column. */
  lemma SettleShape(g: Grid)
    ensures forall x, y :: 0 <= x < |g| && 0 <= y < |g[x]| ==> (Settle(g)[x][y] == '#' <==> g[x][y] == '#')
    ensures forall x :: 0 <= x < |g| ==> multiset(Settle(g)[x]) == multiset(g[x])
  {
    forall x | 0 <= x < |g|
      ensures forall y :: 0 <= y < |g[x]| ==> (Settle(g)[x][y] == '#' <==> g[x][y] == '#')
      ensures multiset(Settle(g)[x]) == multiset(g[x])
    {
      SettleColumnRocks(g[x]);
      SettleColumnPermutes(g[x]);
    }
  }

  /** Tilting a tilted grid changes nothing. */
  lemma SettleIdempotent(g: Grid)
    ensures Settle(Settle(g)) == Settle(g)
  {
    forall x | 0 <= x < |g| ensures Settle(Settle(g))[x] == Settle(g)[x] {
      SettleColumnIdempotent(g[x]);
    }
  }

  /** The cells of a grid, column after column. */
  function Cells(g: Grid): multiset<char>
  {
    if g == [] then multiset{} else multiset(g[0]) + Cells(g[1..])
  }

  lemma {:induction false} SettleCells(g: Grid)
    ensures Cells(Settle(g)) == Cells(g)
  {
    if g != [] {
      SettleColumnPermutes(g[0]);
      SettleCells(g[1..]);
      assert Settle(g)[1..] == Settle(g[1..]);
    }
  }

  /** `grid[x][y]` of the transposed grid is `g[y][x]`. */
  function Transpose(g: Grid, m: nat): (r: Grid)
    requires Rectangular(g, m)
    ensures |r| == m && Rectangular(r, |g|)
  {
    seq(m, j requires 0 <= j < m => seq(|g|, i requires 0 <= i < |g| => g[i][j]))
  }

  function Reverse(g: Grid): (r: Grid)
    ensures |r| == |g| && forall x :: 0 <= x < |g| ==> r[x] == g[|g| - 1 - x]
  {
    if g == [] then [] else Reverse(g[1..]) + [g[0]]
  }

  /** The rotated grid: `out[n - 1 - y][x] = in[x][y]`. */
  function Rotate(g: Grid): (r: Grid)
    requires IsSquare(g)
    ensures IsSquare(r) && |r| == |g|
  {
    var n := |g|;
    seq(n, a requires 0 <= a < n => seq(n, b requires 0 <= b < n => g[b][n - 1 - a]))
  }

  /** Rotation moves the cell at column x, row y to column n - 1 - y, row x. */
  lemma RotateCell(g: Grid, x: nat, y: nat)
    requires IsSquare(g) && x < |g| && y < |g|
    ensures Rotate(g)[|g| - 1 - y][x] == g[x][y]
  {
  }

  /** Rotating four times gives the grid back. */
  lemma RotateFour(g: Grid)
    requires IsSquare(g)
    ensures Rotate(Rotate(Rotate(Rotate(g)))) == g
  {
    var n := |g|;
    var r1 := Rotate(g);
    var r2 := Rotate(r1);
    var r3 := Rotate(r2);
    var r4 := Rotate(r3);
    assert forall a, b :: 0 <= a < n && 0 <= b < n ==> r2[a][b] == g[n - 1 - a][n - 1 - b];
    assert forall a, b :: 0 <= a < n && 0 <= b < n ==> r4[a][b] == r2[n - 1 - a][n - 1 - b];
    assert forall a :: 0 <= a < n ==> r4[a] == g[a];
  }

  /** Rotation is reversing the transposed grid. */
  lemma RotateTranspose(g: Grid)
    requires IsSquare(g)
    ensures Rotate(g) == Reverse(Transpose(g, |g|))
  {
    var n := |g|;
    var t := Transpose(g, n);
    assert forall a :: 0 <= a < n ==> Rotate(g)[a] == t[n - 1 - a];
  }

  lemma {:induction false} ReverseCells(g: Grid)
    ensures Cells(Reverse(g)) == Cells(g)
  {
    if g != [] {
      ReverseCells(g[1..]);
      CellsAppend(Reverse(g[1..]), [g[0]]);
      assert [g[0]][1..] == [];
    }
  }

  lemma {:induction false} CellsAppend(a: Grid, b: Grid)
    ensures Cells(a + b) == Cells(a) + Cells(b)
  {
    if a != [] {
      assert (a + b)[1..] == a[1..] + b;
      CellsAppend(a[1..], b);
    } else {
      assert a + b == b;
    }
  }

  /** Putting one cell in front of every column adds those cells. */
  lemma {:induction false} CellsPrepend(cols: Grid, front: seq<char>)
    requires |cols| == |front|
    ensures Cells(seq(|cols|, j requires 0 <= j < |cols| => [front[j]] + cols[j])) == multiset(front) + Cells(cols)
  {
    var fronted := seq(|cols|, j requires 0 <= j < |cols| => [front[j]] + cols[j]);
    if cols != [] {
      CellsPrepend(cols[1..], front[1..]);
      assert fronted[1..] == seq(|cols[1..]|, j requires 0 <= j < |cols[1..]| => [front[1..][j]] + cols[1..][j]);
      assert front == [front[0]] + front[1..];
    }
  }

  lemma {:induction false} CellsEmpty(g: Grid)
    requires forall x :: 0 <= x < |g| ==> g[x] == []
    ensures Cells(g) == multiset{}
  {
    if g != [] {
      CellsEmpty(g[1..]);
    }
  }

  lemma {:induction false} TransposeCells(g: Grid, m: nat)
    requires Rectangular(g, m)
    ensures Cells(Transpose(g, m)) == Cells(g)
  {
    if g == [] {
      CellsEmpty(Transpose(g, m));
    } else {
      var t := Transpose(g[1..], m);
      TransposeCells(g[1..], m);
      var whole := Transpose(g, m);
      var fronted := seq(|t|, j requires 0 <= j < |t| => [g[0][j]] + t[j]);
      forall j | 0 <= j < m ensures whole[j] == fronted[j] {
        assert forall i :: 0 <= i < |g| - 1 ==> t[j][i] == g[i + 1][j];
        assert whole[j] == [g[0][j]] + t[j];
      }
      assert whole == fronted;
      CellsPrepend(t, g[0]);
    }
  }

  /** Rotation keeps every character and its count. */
  lemma RotateCells(g: Grid)
    requires IsSquare(g)
    ensures Cells(Rotate(g)) == Cells(g)
  {
    RotateTranspose(g);
    ReverseCells(Transpose(g, |g|));
    TransposeCells(g, |g|);
  }

  // ---------------------------------------------------------------------------
  // Reading, rotating and weighing with loops

  /** The character `prepare` stores at column x, row y: character x of line y,
      or `.` where the line is too short. */
  function Cell(lines: seq<string>, x: nat, y: nat): char
  {
    if y < |lines| && x < |lines[y]| then lines[y][x] else '.'
  }

  /** `prepare`: `grid[x][y]` is character x of line y.  The grid gets as many
      columns as there are lines and columns as long as the first line, so an
      index panics unless no line is longer than the line count and every
      non-empty line `y` has `y` below the first line's length; empty lines
      past that length write nothing. */
  method Prepare(lines: seq<string>) returns (grid: Grid)
    requires forall y :: 0 <= y < |lines| ==> |lines[y]| <= |lines| && (|lines[y]| > 0 ==> y < |lines[0]|)
    ensures |lines| == 0 ==> grid == []
    ensures |lines| > 0 ==> |grid| == |lines| && Rectangular(grid, |lines[0]|)
    ensures forall x, y :: 0 <= x < |grid| && 0 <= y < |grid[x]| ==> grid[x][y] == Cell(lines, x, y)
    ensures IsSquare(lines) ==> grid == Transpose(lines, |lines|)
  {
    grid := [];
    for y := 0 to |lines|
      invariant y == 0 ==> grid == []
      invariant y > 0 ==> |grid| == |lines| && Rectangular(grid, |lines[0]|)
      invariant forall x, y' :: 0 <= x < |grid| && 0 <= y' < |grid[x]| ==>
                  grid[x][y'] == if y' < y then Cell(lines, x, y') else '.'
    {
      var line := lines[y];
      if |grid| == 0 {
        grid := seq(|lines|, _ => seq(|line|, _ => '.'));
      }
      for x := 0 to |line|
        invariant |grid| == |lines| && Rectangular(grid, |lines[0]|)
        invariant forall x', y' :: 0 <= x' < |grid| && 0 <= y' < |grid[x']| ==>
                    grid[x'][y'] == if y' < y || (y' == y && x' < x) then Cell(lines, x', y') else '.'
      {
        grid := grid[x := grid[x][y := line[x]]];
      }
    }
    if IsSquare(lines) {
      var t := Transpose(lines, |lines|);
      assert forall x :: 0 <= x < |grid| ==> grid[x] == t[x];
    }
  }

  /** `rotate_map`: `out[h - 1 - y][x] = in[x][y]`, into a grid of `h` columns
      as long as the first column; an index panics unless no column is longer
      than `h` and every non-empty column `x` has `x` below the first column's
      length; empty columns write nothing. */
  method RotateMap(m: Grid) returns (grid: Grid)
    requires forall x :: 0 <= x < |m| ==> |m[x]| <= |m| && (|m[x]| > 0 ==> x < |m[0]|)
    ensures |m| == 0 ==> grid == []
    ensures |m| > 0 ==> |grid| == |m| && Rectangular(grid, |m[0]|)
    ensures forall a, b :: 0 <= a < |grid| && 0 <= b < |grid[a]| ==>
              grid[a][b] == if b < |m| && |m| - 1 - a < |m[b]| then m[b][|m| - 1 - a] else '.'
    ensures IsSquare(m) ==> grid == Rotate(m)
  {
    var h := |m|;
    grid := [];
    for x := 0 to |m|
      invariant x == 0 ==> grid == []
      invariant x > 0 ==> |grid| == h && Rectangular(grid, |m[0]|)
      invariant forall a, b {:trigger grid[a][b]} :: 0 <= a < |grid| && 0 <= b < |grid[a]| ==>
                  grid[a][b] == if b < x && h - 1 - a < |m[b]| then m[b][h - 1 - a] else '.'
    {
      var line := m[x];
      if |grid| == 0 {
        grid := seq(h, _ => seq(|line|, _ => '.'));
      }
      for y := 0 to |line|
        invariant |grid| == h && Rectangular(grid, |m[0]|)
        invariant forall a, b {:trigger grid[a][b]} :: 0 <= a < |grid| && 0 <= b < |grid[a]| ==>
                    grid[a][b] == if (b < x || (b == x && h - 1 - a < y)) && h - 1 - a < |m[b]| then m[b][h - 1 - a] else '.'
      {
        var a0 := h - (y + 1);
        grid := grid[a0 := grid[a0][x := line[y]]];
      }
    }
    if IsSquare(m) {
      var r := Rotate(m);
      assert forall a :: 0 <= a < |grid| ==> grid[a] == r[a];
    }
  }

  /** The load of the first `k` cells of a column: each `O` at index i weighs
      the column length minus i, so no `O` weighs more than the length. */
  function Load(col: seq<char>, k: nat): (w: nat)
    requires k <= |col|
    ensures w <= |col| * Rounded(col, k)
  {
    if k == 0 then 0
    else
      var m := Rounded(col, k - 1);
      assert |col| * (m + 1) == |col| * m + |col|;
      Load(col, k - 1) + (if col[k - 1] == 'O' then |col| - (k - 1) else 0)
  }

  /** The total load on the north beams: the loads of the columns added up. */
  function Weight(g: Grid): nat
  {
    if g == [] then 0 else Weight(g[..|g| - 1]) + Load(g[|g| - 1], |g[|g| - 1]|)
  }

  /** The number of `O`s among the first `k` cells. */
  function Rounded(col: seq<char>, k: nat): nat
    requires k <= |col|
  {
    if k == 0 then 0 else Rounded(col, k - 1) + (if col[k - 1] == 'O' then 1 else 0)
  }

  lemma {:induction false} RoundedCounts(col: seq<char>, k: nat)
    requires k <= |col|
    ensures Rounded(col, k) == multiset(col[..k])['O']
  {
    if k > 0 {
      RoundedCounts(col, k - 1);
      assert col[..k] == col[..k - 1] + [col[k - 1]];
    }
  }

  /** A column weighs at most its length for each of its `O`s. */
  lemma LoadBound(col: seq<char>, k: nat)
    requires k <= |col|
    ensures Load(col, k) <= |col| * multiset(col[..k])['O']
  {
    RoundedCounts(col, k);
  }

  /** `weigh_map` */
  method WeighMap(grid: Grid) returns (count: nat)
    ensures count == Weight(grid)
  {
    count := 0;
    for x := 0 to |grid|
      invariant count == Weight(grid[..x])
    {
      var col := grid[x];
      for i := 0 to |col|
        invariant count == Weight(grid[..x]) + Load(col, i)
      {
        if col[i] == 'O' {
          count := count + |col| - i;
        }
      }
      assert grid[..x + 1][..x] == grid[..x];
    }
    assert grid[..|grid|] == grid;
  }

  // ---------------------------------------------------------------------------
  // Spin cycles

  /** `n` rounds of a tilt towards the top followed by a clockwise turn. */
  function Tilts(g: Grid, n: nat): (r: Grid)
    requires IsSquare(g)
    ensures IsSquare(r) && |r| == |g|
    decreases n
  {
    if n == 0 then g else Tilts(Rotate(Settle(g)), n - 1)
  }

  /** `cycle_map`: tilt and rotate four times, so that the rocks roll north,
      west, south and east in turn and the grid ends the right way up. */
  function Cycle(g: Grid): (r: Grid)
    requires IsSquare(g)
    ensures IsSquare(r) && |r| == |g|
  {
    Tilts(g, 4)
  }

  /** Tilting and turning keep every character and its count. */
  lemma {:induction false} TiltsCells(g: Grid, n: nat)
    requires IsSquare(g)
    ensures Cells(Tilts(g, n)) == Cells(g)
    decreases n
  {
    if n > 0 {
      TurnCells(g);
      TiltsCells(Rotate(Settle(g)), n - 1);
    }
  }

  lemma TurnCells(g: Grid)
    requires IsSquare(g)
    ensures IsSquare(Rotate(Settle(g))) && Cells(Rotate(Settle(g))) == Cells(g)
  {
    TiltOnce(g, 0);
    SettleCells(g);
    RotateCells(Settle(g));
  }

  /** A spin cycle keeps every character and its count: as many `O`s and
      `#`s as before. */
  lemma CycleCells(g: Grid)
    requires IsSquare(g)
    ensures Cells(Cycle(g)) == Cells(g)
  {
    TiltsCells(g, 4);
  }

  /** `cycle_map` as the source runs it, through the loops above. */
  method CycleMap(g: Grid) returns (r: Grid)
    requires IsSquare(g) || Rectangular(g, 0)
    ensures IsSquare(g) ==> r == Cycle(g)
    ensures r == Spin(g)
  {
    r := g;
    for k := 0 to 4
      invariant IsSquare(g) ==> IsSquare(r) && |r| == |g| && Tilts(g, 4) == Tilts(r, 4 - k)
      invariant !IsSquare(g) ==> r == g
    {
      var settled := SettleMap(r);
      if IsSquare(g) {
        TiltOnce(r, 3 - k);
        r := RotateMap(settled);
      } else {
        assert settled == r by {
          assert forall x :: 0 <= x < |r| ==> settled[x] == [] == r[x];
        }
        var rotated := RotateMap(settled);
        assert rotated == g by {
          assert forall x :: 0 <= x < |g| ==> rotated[x] == [] == g[x];
        }
        r := rotated;
      }
    }
  }

  /** One round of tilting and turning. */
  lemma TiltOnce(g: Grid, n: nat)
    requires IsSquare(g)
    ensures IsSquare(Settle(g)) && Tilts(g, n + 1) == Tilts(Rotate(Settle(g)), n)
  {
  }

  /** `part_1`: the load after one tilt towards the top. */
  method Part1(input: Grid) returns (count: nat)
    ensures count == Weight(Settle(input))
  {
    var grid := SettleMap(input);
    count := WeighMap(grid);
  }

  // ---------------------------------------------------------------------------
  // Finding the period

  /** A spin cycle on any grid; grids that are not square stay as they are. */
  function Spin(g: Grid): Grid
  {
    if IsSquare(g) then Cycle(g) else g
  }

  /** The state after `k` steps of `f` from `x`. */
  function Iter<T>(f: T -> T, x: T, k: nat): T
  {
    if k == 0 then x else f(Iter(f, x, k - 1))
  }

  /** The grid after `k` spin cycles. */
  function Iterate(g: Grid, k: nat): Grid
  {
    Iter(Spin, g, k)
  }

  /** Spin cycles keep a grid square. */
  lemma {:induction false} IterateSquare(g: Grid, k: nat)
    requires IsSquare(g)
    ensures IsSquare(Iterate(g, k)) && |Iterate(g, k)| == |g|
  {
    if k > 0 {
      IterateSquare(g, k - 1);
    }
  }

  /** Equal states stay equal: the next state depends on the current one only. */
  lemma {:induction false} Shift<T>(f: T -> T, x: T, a: nat, b: nat, d: nat)
    requires Iter(f, x, a) == Iter(f, x, b)
    ensures Iter(f, x, a + d) == Iter(f, x, b + d)
  {
    if d > 0 {
      Shift(f, x, a, b, d - 1);
    }
  }

  /** A state that returns after `p` steps returns after any multiple of `p`. */
  lemma {:induction false} Multiple<T>(f: T -> T, x: T, a: nat, p: nat, t: nat)
    requires Iter(f, x, a) == Iter(f, x, a + p)
    ensures Iter(f, x, a + t * p) == Iter(f, x, a)
  {
    if t > 0 {
      Multiple(f, x, a, p, t - 1);
      Shift(f, x, a, a + p, (t - 1) * p);
      assert a + p + (t - 1) * p == a + t * p;
    }
  }

  /** A period that holds from `c` holds from any point after an earlier
      repetition at `j`. */
  lemma Transfer<T>(f: T -> T, x: T, j: nat, q: nat, c: nat, p: nat, n: nat)
    requires q > 0 && j <= n
    requires Iter(f, x, j) == Iter(f, x, j + q) && Iter(f, x, c) == Iter(f, x, c + p)
    ensures Iter(f, x, n) == Iter(f, x, n + p)
  {
    var far := n + c * q;
    assert far >= c by {
      assert c * q >= c;
    }
    Shift(f, x, j, j + q, n - j);
    Multiple(f, x, n, q, c);
    Shift(f, x, c, c + p, far - c);
    Shift(f, x, j, j + q, n + p - j);
    Multiple(f, x, n + p, q, c);
    assert far + p == n + p + c * q;
  }

  /** The states after `lo`, …, `hi` steps. */
  function Window<T>(f: T -> T, x: T, lo: nat, hi: nat): set<T>
  {
    set k | lo <= k <= hi :: Iter(f, x, k)
  }

  predicate Distinct<T(==)>(f: T -> T, x: T, lo: nat, hi: nat)
  {
    forall a, b :: lo <= a < b <= hi ==> Iter(f, x, a) != Iter(f, x, b)
  }

  /** The state after `start + 1` steps was seen before, at `j`, and the
      states after `start + 1`, …, `i` steps are all different. */
  predicate Second<T(==)>(f: T -> T, x: T, start: nat, i: nat, j: nat)
  {
    j <= start < i && Iter(f, x, j) == Iter(f, x, start + 1) && Distinct(f, x, start + 1, i)
  }

  /** In the second phase a state repeats at the latest one full period after
      `start + 1`, where the period is at most `start + 1`. */
  lemma SecondBound<T>(f: T -> T, x: T, start: nat, i: nat, j: nat)
    requires Second(f, x, start, i, j)
    ensures i < 2 * start + 2 - j
  {
    var q := start + 1 - j;
    Shift(f, x, j, start + 1, q);
  }

  /** When the state after `i + 1` steps is the one after `k` steps, with `k`
      in the second window, then `k` is `start + 1`: the window holds exactly
      one period. */
  lemma FirstOfWindow<T>(f: T -> T, x: T, start: nat, i: nat, j: nat, k: nat)
    requires Second(f, x, start, i, j)
    requires start + 1 <= k <= i && Iter(f, x, k) == Iter(f, x, i + 1)
    ensures k == start + 1
  {
    if k > start + 1 {
      var q := i + 1 - k;
      Transfer(f, x, j, start + 1 - j, k, q, start + 1);
    }
  }

  /** Once the period is known, the state after `cycles` steps is the state
      after `start + (cycles - start) % period` steps. */
  lemma Replay<T>(f: T -> T, x: T, start: nat, period: nat, j: nat, cycles: nat)
    requires period > 0 && j <= start <= cycles
    requires Iter(f, x, j) == Iter(f, x, start + 1)
    requires Iter(f, x, start + 1) == Iter(f, x, start + 1 + period)
    ensures Iter(f, x, start + (cycles - start) % period) == Iter(f, x, cycles)
  {
    var r := start + (cycles - start) % period;
    var t := (cycles - start) / period;
    Transfer(f, x, j, start + 1 - j, start + 1, period, r);
    Multiple(f, x, r, period, t);
    assert r + t * period == cycles;
  }

  /** What the search for the period knows after `i` cycles: in the first
      phase `seen` holds every state so far and they are all different; in the
      second phase it holds the states since the first repeat. */
  ghost predicate Searching<T>(f: T -> T, x: T, second: bool, start: nat, j: nat, i: nat, seen: set<T>)
  {
    (!second ==> start == 0 && seen == Window(f, x, 0, i) && Distinct(f, x, 0, i))
    && (second ==> seen == Window(f, x, start + 1, i) && Second(f, x, start, i, j))
  }

  /** The search begins with only the initial state seen. */
  lemma SearchBegins<T>(f: T -> T, x: T)
    ensures Searching(f, x, false, 0, 0, 0, {x})
  {
    assert Iter(f, x, 0) == x;
    assert forall y :: y in Window(f, x, 0, 0) ==> y == x;
  }

  /** A state already seen was reached after some number of steps in the
      current window. */
  lemma Seen<T>(f: T -> T, x: T, second: bool, start: nat, j: nat, i: nat, seen: set<T>) returns (k: nat)
    requires Searching(f, x, second, start, j, i, seen) && Iter(f, x, i + 1) in seen
    ensures (if second then start + 1 else 0) <= k <= i && Iter(f, x, k) == Iter(f, x, i + 1)
  {
    k :| (if second then start + 1 else 0) <= k <= i && Iter(f, x, k) == Iter(f, x, i + 1);
  }

  /** A new state joins the seen ones and keeps them all different. */
  lemma SeeNew<T>(f: T -> T, x: T, second: bool, start: nat, j: nat, i: nat, seen: set<T>)
    requires Searching(f, x, second, start, j, i, seen) && Iter(f, x, i + 1) !in seen
    ensures Searching(f, x, second, start, j, i + 1, seen + {Iter(f, x, i + 1)})
  {
    var lo := if second then start + 1 else 0;
    assert Window(f, x, lo, i + 1) == Window(f, x, lo, i) + {Iter(f, x, i + 1)};
  }

  /** The first repeat, or a repeat in the second phase that is not kept,
      starts the second phase over from `i`. */
  lemma Restart<T>(f: T -> T, x: T, i: nat, k: nat)
    requires k <= i && Iter(f, x, k) == Iter(f, x, i + 1)
    ensures Searching(f, x, true, i, k, i + 1, {Iter(f, x, i + 1)})
  {
    assert forall k :: i + 1 <= k <= i + 1 ==> Iter(f, x, k) == Iter(f, x, i + 1);
  }

  /** A grid of empty columns that is not square (some blank lines read by
      `prepare`) is left as it is by every spin cycle. */
  lemma {:induction false} IterateBlank(g: Grid, k: nat)
    requires Rectangular(g, 0) && !IsSquare(g)
    ensures Iterate(g, k) == g
  {
    if k > 0 {
      IterateBlank(g, k - 1);
    }
  }

  /** On such a grid a state repeats at once, so `part_2` finds a period,
      and the load after all the cycles is 0. */
  lemma BlankPart2(g: Grid)
    requires Rectangular(g, 0) && !IsSquare(g)
    ensures RepeatsWithin(Spin, g, Cycles) && Weight(Iterate(g, Cycles)) == 0
  {
    IterateBlank(g, 0);
    IterateBlank(g, 1);
    IterateBlank(g, Cycles);
    BlankWeight(g);
  }

  lemma {:induction false} BlankWeight(g: Grid)
    requires Rectangular(g, 0)
    ensures Weight(g) == 0
  {
    if g != [] {
      BlankWeight(g[..|g| - 1]);
    }
  }

  /** One more spin cycle on a square grid. */
  lemma IterateStep(g: Grid, k: nat)
    requires IsSquare(g)
    ensures IsSquare(Iterate(g, k)) && Iterate(g, k + 1) == Cycle(Iterate(g, k))
  {
    IterateSquare(g, k);
  }

  /** The second repeat: the state after `i + 1` steps was seen in the
      second phase, so the period is `i - start`, and `cycles` steps end in
      the same state as the shorter replay. */
  lemma PeriodFound<T>(f: T -> T, x: T, start: nat, j: nat, i: nat, seen: set<T>, cycles: nat)
    requires Searching(f, x, true, start, j, i, seen) && Iter(f, x, i + 1) in seen
    requires i < cycles
    ensures start < i
    ensures Iter(f, x, start + (cycles - start) % (i - start)) == Iter(f, x, cycles)
  {
    var k := Seen(f, x, true, start, j, i, seen);
    FirstOfWindow(f, x, start, i, j, k);
    Replay(f, x, start, i - start, j, cycles);
  }

  /** Some state repeats within the first `n / 2` steps. */
  ghost predicate RepeatsWithin<T>(f: T -> T, x: T, n: nat)
  {
    exists a: nat, b: nat :: a < b && 2 * b <= n && Iter(f, x, a) == Iter(f, x, b)
  }

  /** A search that ran all `n` steps without finding the period saw no
      repeat in the first `n / 2` steps. */
  lemma NoRepeat<T>(f: T -> T, x: T, second: bool, start: nat, j: nat, n: nat, seen: set<T>)
    requires Searching(f, x, second, start, j, n, seen)
    requires second ==> start <= 1 || Distinct(f, x, 0, start)
    requires n >= 4
    ensures !RepeatsWithin(f, x, n)
  {
    if second {
      SecondBound(f, x, start, n, j);
    }
    forall a: nat, b: nat | a < b && 2 * b <= n
      ensures Iter(f, x, a) != Iter(f, x, b)
    {
      if second && start > 1 && b <= start {
        assert Iter(f, x, a) != Iter(f, x, b);
      }
    }
  }

  const Cycles: nat := 1_000_000_000

  /** The first loop of `part_2`, for any step `f`: run steps until a state
      repeats for the second time, which gives where the period starts and
      its length.  A period of zero means that no second repeat came within
      `cycles` steps, which the source then divides by. */
  method FindPeriod<T(==)>(f: T -> T, x: T, cycles: nat) returns (start: nat, period: nat)
    requires cycles >= 4
    ensures period > 0 ==> 0 < start < cycles
    ensures period > 0 ==> Iter(f, x, start + (cycles - start) % period) == Iter(f, x, cycles)
    ensures period == 0 ==> !RepeatsWithin(f, x, cycles)
  {
    var state := x;
    var seen: set<T> := {state};
    start := 0;
    period := 0;
    ghost var second := false;
    ghost var j: nat := 0;
    SearchBegins(f, x);
    for i := 0 to cycles
      invariant state == Iter(f, x, i) && period == 0
      invariant Searching(f, x, second, start, j, i, seen)
      invariant second ==> start <= 1 || Distinct(f, x, 0, start)
    {
      state := f(state);
      if state in seen {
        if start > 0 {
          PeriodFound(f, x, start, j, i, seen, cycles);
          assert Iter(f, x, start + (cycles - start) % (i - start)) == Iter(f, x, cycles);
          period := i - start;
          return;
        }
        ghost var k := Seen(f, x, second, start, j, i, seen);
        if second {
          SecondBound(f, x, start, i, j);
        }
        Restart(f, x, i, k);
        seen := {};
        start := i;
        j := k;
        second := true;
      } else {
        SeeNew(f, x, second, start, j, i, seen);
      }
      seen := seen + {state};
    }
    NoRepeat(f, x, second, start, j, cycles, seen);
  }

  /** `part_2`: the load after `Cycles` spin cycles, found by replaying only
      as many cycles as reach the same state.  `None` where the source would
      divide by a zero period. */
  method Part2(input: Grid) returns (result: Option<nat>)
    requires IsSquare(input) || Rectangular(input, 0)
    ensures result.Some? ==> result.value == Weight(Iterate(input, Cycles))
    ensures RepeatsWithin(Spin, input, Cycles) ==> result.Some?
  {
    var start, period := FindPeriod(Spin, input, Cycles);
    if period == 0 {
      return None;
    }
    var grid := input;
    var count := 0;
    for k := 0 to start + (Cycles - start) % period
      invariant grid == Iterate(input, k)
      invariant k > 0 ==> count == Weight(grid)
    {
      if IsSquare(input) {
        IterateStep(input, k);
      } else {
        IterateBlank(input, k);
      }
      grid := CycleMap(grid);
      count := WeighMap(grid);
    }
    return Some(count);
  }
}
