/** Cosmic expansion (src/day11.rs): every row and every column without a
    galaxy grows, and the answer is the sum of the Manhattan distances
    between every pair of galaxies after the growth.  `prepare` records for
    each galaxy how many empty columns lie to its left and how many empty
    rows lie above it; `expand` moves each galaxy by those counts times the
    growth, and `count_distances` sums over the pairs. */
module Day11 {
  import opened Text

  type Pos = (int, int)

  // ---------------------------------------------------------------------------
  // The image

  /** The width of the image: the length of its first line. */
  function Width(lines: seq<string>): nat
  {
    if lines == [] then 0 else |lines[0]|
  }

  /** No galaxy lies at or past the width of the first line; otherwise
      `x_empty[x] = 0` is out of bounds. */
  predicate Bounded(lines: seq<string>)
  {
    forall y, x :: 0 <= y < |lines| && 0 <= x < |lines[y]| && lines[y][x] == '#' ==> x < Width(lines)
  }

  /** The galaxies of the image, as `(column, row)`. */
  function GalaxySet(lines: seq<string>): set<Pos>
  {
    set y, x | 0 <= y < |lines| && 0 <= x < |lines[y]| && lines[y][x] == '#' :: (x, y)
  }

  /** No galaxy in column `x`. */
  predicate ColumnClear(lines: seq<string>, x: int)
  {
    forall y :: 0 <= y < |lines| && 0 <= x < |lines[y]| ==> lines[y][x] != '#'
  }

  /** The number of empty columns strictly left of column `x`. */
  function ColsClear(lines: seq<string>, x: int): (n: nat)
    ensures n <= if x < 0 then 0 else x
    decreases x
  {
    if x <= 0 then 0 else ColsClear(lines, x - 1) + (if ColumnClear(lines, x - 1) then 1 else 0)
  }

  /** The number of empty rows strictly above row `y`. */
  function RowsClear(lines: seq<string>, y: int): (n: nat)
    ensures n <= if y < 0 then 0 else y
    decreases y
  {
    if y <= 0 then 0
    else RowsClear(lines, y - 1) + (if y - 1 < |lines| && '#' !in lines[y - 1] then 1 else 0)
  }

  /** What `prepare` computes: every galaxy with the number of empty columns to
      its left and of empty rows above it. */
  function Offsets(lines: seq<string>): (g: map<Pos, Pos>)
    ensures forall p :: p in g ==> 0 <= g[p].0 <= p.0 && 0 <= g[p].1 <= p.1
  {
    map p | p in GalaxySet(lines) :: (ColsClear(lines, p.0), RowsClear(lines, p.1))
  }

  /** Offsets never decrease with position: further right means at least as
      many empty columns to the left, further down at least as many empty rows
      above. */
  predicate Monotone(g: map<Pos, Pos>)
  {
    forall p, q :: p in g && q in g ==>
      (p.0 <= q.0 ==> g[p].0 <= g[q].0) && (p.1 <= q.1 ==> g[p].1 <= g[q].1)
  }

  lemma {:induction false} ColsClearMonotone(lines: seq<string>, a: int, b: int)
    requires a <= b
    ensures ColsClear(lines, a) <= ColsClear(lines, b)
    decreases b - a
  {
    if a < b {
      ColsClearMonotone(lines, a, b - 1);
    }
  }

  lemma {:induction false} RowsClearMonotone(lines: seq<string>, a: int, b: int)
    requires a <= b
    ensures RowsClear(lines, a) <= RowsClear(lines, b)
    decreases b - a
  {
    if a < b {
      RowsClearMonotone(lines, a, b - 1);
    }
  }

  /** The offsets `prepare` produces are monotone. */
  lemma OffsetsMonotone(lines: seq<string>)
    ensures Monotone(Offsets(lines))
  {
    var g := Offsets(lines);
    forall p, q | p in g && q in g
      ensures (p.0 <= q.0 ==> g[p].0 <= g[q].0) && (p.1 <= q.1 ==> g[p].1 <= g[q].1)
    {
      if p.0 <= q.0 {
        ColsClearMonotone(lines, p.0, q.0);
      }
      if p.1 <= q.1 {
        RowsClearMonotone(lines, p.1, q.1);
      }
    }
  }

  // ---------------------------------------------------------------------------
  // `prepare`

  /** The galaxies met before column `x` of row `y` in reading order. */
  function Before(lines: seq<string>, y: int, x: int): set<Pos>
  {
    set y', x' | 0 <= y' < |lines| && 0 <= x' < |lines[y']| && lines[y'][x'] == '#' &&
                 (y' < y || (y' == y && x' < x)) :: (x', y')
  }

  /** The map `prepare` holds after reading up to column `x` of row `y`:
      the column offset still a placeholder 0. */
  function Found(lines: seq<string>, y: int, x: int): map<Pos, Pos>
  {
    map p | p in Before(lines, y, x) :: (0, RowsClear(lines, p.1))
  }

  lemma BeforeNext(lines: seq<string>, y: nat, x: nat)
    requires y < |lines| && x < |lines[y]|
    ensures Before(lines, y, x + 1) ==
              Before(lines, y, x) + (if lines[y][x] == '#' then {(x, y)} else {})
  {
  }

  lemma BeforeRow(lines: seq<string>, y: nat)
    requires y < |lines|
    ensures Before(lines, y + 1, 0) == Before(lines, y, |lines[y]|)
  {
  }

  lemma BeforeAll(lines: seq<string>)
    ensures Before(lines, |lines|, 0) == GalaxySet(lines)
  {
  }

  lemma FoundNext(lines: seq<string>, y: nat, x: nat)
    requires y < |lines| && x < |lines[y]|
    ensures Found(lines, y, x + 1) ==
              if lines[y][x] == '#' then Found(lines, y, x)[(x, y) := (0, RowsClear(lines, y))]
              else Found(lines, y, x)
  {
    BeforeNext(lines, y, x);
  }

  lemma FoundRow(lines: seq<string>, y: nat)
    requires y < |lines|
    ensures Found(lines, y + 1, 0) == Found(lines, y, |lines[y]|)
  {
    BeforeRow(lines, y);
  }

  /** Column `x` holds no galaxy in the rows above `y`. */
  predicate ClearAbove(lines: seq<string>, y: int, x: int)
  {
    forall y' :: 0 <= y' < y && y' < |lines| && 0 <= x < |lines[y']| ==> lines[y'][x] != '#'
  }

  lemma ClearAboveNext(lines: seq<string>, y: nat, x: int)
    requires y < |lines|
    ensures ClearAbove(lines, y + 1, x) <==>
              ClearAbove(lines, y, x) && !(0 <= x < |lines[y]| && lines[y][x] == '#')
  {
  }

  lemma RowsClearNext(lines: seq<string>, y: nat)
    requires y < |lines|
    ensures RowsClear(lines, y + 1) == RowsClear(lines, y) + (if '#' in lines[y] then 0 else 1)
  {
  }

  /** The running sum of the empty-column flags counts the empty columns. */
  lemma {:induction false} FlagsCount(lines: seq<string>, flags: seq<int>, i: nat)
    requires i <= |flags|
    requires forall x :: 0 <= x < |flags| ==> flags[x] == if ColumnClear(lines, x) then 1 else 0
    ensures SumInts(flags[..i]) == ColsClear(lines, i)
  {
    if i > 0 {
      FlagsCount(lines, flags, i - 1);
      assert flags[..i][..i - 1] == flags[..i - 1];
    }
  }

  /** One row of the scan: marks the columns of its galaxies as not empty
      and records each galaxy with the current row offset. */
  method ScanRow(lines: seq<string>, y: nat, xEmpty: seq<int>, galaxies: map<Pos, Pos>, yOffset: nat)
    returns (xEmpty': seq<int>, galaxies': map<Pos, Pos>, yIncrement: nat)
    requires Bounded(lines) && y < |lines| && |xEmpty| == Width(lines)
    requires forall x :: 0 <= x < |xEmpty| ==> xEmpty[x] == if ClearAbove(lines, y, x) then 1 else 0
    requires galaxies == Found(lines, y, 0) && yOffset == RowsClear(lines, y)
    ensures |xEmpty'| == Width(lines)
    ensures forall x :: 0 <= x < |xEmpty'| ==> xEmpty'[x] == if ClearAbove(lines, y + 1, x) then 1 else 0
    ensures galaxies' == Found(lines, y + 1, 0)
    ensures yOffset + yIncrement == RowsClear(lines, y + 1)
  {
    var line := lines[y];
    xEmpty', galaxies', yIncrement := xEmpty, galaxies, 1;
    for x := 0 to |line|
      invariant |xEmpty'| == Width(lines)
      invariant yIncrement == if '#' in line[..x] then 0 else 1
      invariant forall x' :: 0 <= x' < |xEmpty'| ==>
                  xEmpty'[x'] == if ClearAbove(lines, y, x') && !(x' < x && line[x'] == '#') then 1 else 0
      invariant galaxies' == Found(lines, y, x)
    {
      FoundNext(lines, y, x);
      assert line[..x + 1] == line[..x] + [line[x]];
      if line[x] == '#' {
        yIncrement := 0;
        xEmpty' := xEmpty'[x := 0];
        galaxies' := galaxies'[(x, y) := (0, yOffset)];
      }
    }
    assert line[..|line|] == line;
    FoundRow(lines, y);
    RowsClearNext(lines, y);
    forall x' | 0 <= x' < |xEmpty'|
      ensures xEmpty'[x'] == if ClearAbove(lines, y + 1, x') then 1 else 0
    {
      ClearAboveNext(lines, y, x');
    }
  }

  /** The last loop of `prepare`: the placeholder column offsets replaced by
      the counted ones. */
  lemma Remap(lines: seq<string>, galaxies: map<Pos, Pos>, xOffsets: seq<int>)
    requires Bounded(lines) && galaxies == Found(lines, |lines|, 0)
    requires |xOffsets| == Width(lines)
    requires forall i :: 0 <= i < |xOffsets| ==> xOffsets[i] == ColsClear(lines, i)
    ensures forall p :: p in galaxies ==> 0 <= p.0 < |xOffsets|
    ensures (map p | p in galaxies :: (xOffsets[p.0], galaxies[p].1)) == Offsets(lines)
  {
    BeforeAll(lines);
  }

  /** `prepare`, after reading the lines. */
  method Prepare(lines: seq<string>) returns (galaxyMap: map<Pos, Pos>)
    requires Bounded(lines)
    ensures galaxyMap == Offsets(lines)
  {
    var yOffset: nat := 0;
    var xEmpty: seq<int> := [];
    var galaxies: map<Pos, Pos> := map[];
    assert Before(lines, 0, 0) == {};
    for y := 0 to |lines|
      invariant |xEmpty| == if y == 0 then 0 else Width(lines)
      invariant forall x :: 0 <= x < |xEmpty| ==> xEmpty[x] == if ClearAbove(lines, y, x) then 1 else 0
      invariant galaxies == Found(lines, y, 0)
      invariant yOffset == RowsClear(lines, y)
    {
      if y == 0 {
        xEmpty := seq(|lines[y]|, _ => 1);
      }
      var yIncrement;
      xEmpty, galaxies, yIncrement := ScanRow(lines, y, xEmpty, galaxies, yOffset);
      yOffset := yOffset + yIncrement;
    }
    // `|xEmpty|` is the width also when there are no lines.
    forall x | 0 <= x < |xEmpty|
      ensures xEmpty[x] == if ColumnClear(lines, x) then 1 else 0
    {
      assert ClearAbove(lines, |lines|, x) == ColumnClear(lines, x);
    }
    var xOffsets := seq(|xEmpty|, i requires 0 <= i < |xEmpty| => SumInts(xEmpty[..i]));
    forall i | 0 <= i < |xOffsets| ensures xOffsets[i] == ColsClear(lines, i) {
      FlagsCount(lines, xEmpty, i);
    }
    Remap(lines, galaxies, xOffsets);
    galaxyMap := map p | p in galaxies :: (xOffsets[p.0], galaxies[p].1);
  }

  // ---------------------------------------------------------------------------
  // `expand` and `count_distances`

  function Abs(n: int): nat
  {
    if n < 0 then -n else n
  }

  /** The Manhattan distance. */
  function Dist(p: Pos, q: Pos): (d: nat)
    ensures d == 0 <==> p == q
  {
    Abs(p.0 - q.0) + Abs(p.1 - q.1)
  }

  /** One galaxy moved: each offset grows `expand_by - 1` times, since the
      empty row or column is already there once. */
  function Move(p: Pos, offsets: Pos, expandBy: int): Pos
  {
    (p.0 + offsets.0 * (expandBy - 1), p.1 + offsets.1 * (expandBy - 1))
  }

  /** `order` lists every galaxy of the map exactly once: the order in which
      the map happens to be iterated. */
  predicate Enumerates(order: seq<Pos>, g: map<Pos, Pos>)
  {
    (forall i :: 0 <= i < |order| ==> order[i] in g) &&
    (forall p :: p in g ==> p in order) &&
    (forall i, j :: 0 <= i < j < |order| ==> order[i] != order[j])
  }

  /** `expand`: every galaxy moved, in iteration order. */
  function Expand(g: map<Pos, Pos>, order: seq<Pos>, expandBy: int): (r: seq<Pos>)
    requires forall i :: 0 <= i < |order| ==> order[i] in g
    ensures |r| == |order|
  {
    seq(|order|, i requires 0 <= i < |order| => Move(order[i], g[order[i]], expandBy))
  }

  /** The offsets, in iteration order. */
  function OffsetsOf(g: map<Pos, Pos>, order: seq<Pos>): (r: seq<Pos>)
    requires forall i :: 0 <= i < |order| ==> order[i] in g
    ensures |r| == |order|
  {
    seq(|order|, i requires 0 <= i < |order| => g[order[i]])
  }

  /** The distances from `p` to every position of `s`. */
  function DistTo(p: Pos, s: seq<Pos>): nat
  {
    if s == [] then 0 else DistTo(p, s[..|s| - 1]) + Dist(p, s[|s| - 1])
  }

  /** `count_distances`: the distance of every pair `i < j` (`combinations(2)`),
      summed. */
  function CountDistances(s: seq<Pos>): nat
  {
    if s == [] then 0 else CountDistances(s[..|s| - 1]) + DistTo(s[|s| - 1], s[..|s| - 1])
  }

  /** With `expand_by` 1 no galaxy moves and none is lost. */
  lemma ExpandByOne(g: map<Pos, Pos>, order: seq<Pos>)
    requires forall i :: 0 <= i < |order| ==> order[i] in g
    ensures Expand(g, order, 1) == order
  {
  }

  // ---------------------------------------------------------------------------
  // The total does not depend on the iteration order

  function Remove(s: seq<Pos>, k: nat): seq<Pos>
    requires k < |s|
  {
    s[..k] + s[k + 1..]
  }

  lemma RemoveSnoc(t: seq<Pos>, y: Pos, k: nat)
    requires k < |t|
    ensures Remove(t + [y], k) == Remove(t, k) + [y]
    ensures (t + [y])[k] == t[k]
  {
    assert (t + [y])[..k] == t[..k];
    assert (t + [y])[k + 1..] == t[k + 1..] + [y];
  }

  lemma RemoveMultiset(s: seq<Pos>, k: nat)
    requires k < |s|
    ensures multiset(s) == multiset(Remove(s, k)) + multiset{s[k]}
  {
    assert s == s[..k] + [s[k]] + s[k + 1..];
  }

  lemma Cancel(a: multiset<Pos>, b: multiset<Pos>, x: Pos)
    requires a + multiset{x} == b + multiset{x}
    ensures a == b
  {
    assert a == (a + multiset{x}) - multiset{x};
    assert b == (b + multiset{x}) - multiset{x};
  }

  lemma {:induction false} DistToRemove(p: Pos, s: seq<Pos>, k: nat)
    requires k < |s|
    ensures DistTo(p, s) == DistTo(p, Remove(s, k)) + Dist(p, s[k])
    decreases |s|
  {
    var t, y := s[..|s| - 1], s[|s| - 1];
    if k == |s| - 1 {
      assert Remove(s, k) == t;
    } else {
      assert s == t + [y];
      DistToRemove(p, t, k);
      RemoveSnoc(t, y, k);
      assert Remove(s, k)[..|Remove(s, k)| - 1] == Remove(t, k);
    }
  }

  lemma {:induction false} DistToPermutation(p: Pos, a: seq<Pos>, b: seq<Pos>)
    requires multiset(a) == multiset(b)
    ensures DistTo(p, a) == DistTo(p, b)
    decreases |a|
  {
    if a == [] {
      assert |b| == |multiset(b)| == 0;
    } else {
      var a', x := a[..|a| - 1], a[|a| - 1];
      assert a == a' + [x];
      assert x in multiset(b);
      var k :| 0 <= k < |b| && b[k] == x;
      RemoveMultiset(b, k);
      Cancel(multiset(a'), multiset(Remove(b, k)), x);
      DistToPermutation(p, a', Remove(b, k));
      DistToRemove(p, b, k);
    }
  }

  lemma CountSnoc(r: seq<Pos>, y: Pos)
    ensures CountDistances(r + [y]) == CountDistances(r) + DistTo(y, r)
  {
    assert (r + [y])[..|r|] == r;
  }

  lemma DistToSnoc(p: Pos, r: seq<Pos>, y: Pos)
    ensures DistTo(p, r + [y]) == DistTo(p, r) + Dist(p, y)
  {
    assert (r + [y])[..|r|] == r;
  }

  lemma {:induction false} CountRemove(s: seq<Pos>, k: nat)
    requires k < |s|
    ensures CountDistances(s) == CountDistances(Remove(s, k)) + DistTo(s[k], Remove(s, k))
    decreases |s|
  {
    var t, y := s[..|s| - 1], s[|s| - 1];
    if k == |s| - 1 {
      assert Remove(s, k) == t;
    } else {
      assert s == t + [y];
      CountRemove(t, k);
      DistToRemove(y, t, k);
      RemoveSnoc(t, y, k);
      var r := Remove(t, k);
      CountSnoc(r, y);
      DistToSnoc(t[k], r, y);
      CountSnoc(t, y);
    }
  }

  /** Summing over the pairs does not depend on the order of the positions. */
  lemma {:induction false} CountPermutation(a: seq<Pos>, b: seq<Pos>)
    requires multiset(a) == multiset(b)
    ensures CountDistances(a) == CountDistances(b)
    decreases |a|
  {
    if a == [] {
      assert |b| == |multiset(b)| == 0;
    } else {
      var a', x := a[..|a| - 1], a[|a| - 1];
      assert a == a' + [x];
      assert x in multiset(b);
      var k :| 0 <= k < |b| && b[k] == x;
      RemoveMultiset(b, k);
      Cancel(multiset(a'), multiset(Remove(b, k)), x);
      CountPermutation(a', Remove(b, k));
      DistToPermutation(x, a', Remove(b, k));
      CountRemove(b, k);
    }
  }

  lemma {:induction false} DistinctCount(s: seq<Pos>, p: Pos)
    requires forall i, j :: 0 <= i < j < |s| ==> s[i] != s[j]
    ensures multiset(s)[p] == if p in s then 1 else 0
    decreases |s|
  {
    if s != [] {
      var t := s[..|s| - 1];
      assert s == t + [s[|s| - 1]];
      DistinctCount(t, p);
    }
  }

  /** Two iteration orders of the same map list the same galaxies. */
  lemma OrdersPermute(g: map<Pos, Pos>, o1: seq<Pos>, o2: seq<Pos>)
    requires Enumerates(o1, g) && Enumerates(o2, g)
    ensures multiset(o1) == multiset(o2)
  {
    forall p ensures multiset(o1)[p] == multiset(o2)[p] {
      DistinctCount(o1, p);
      DistinctCount(o2, p);
    }
  }

  lemma ExpandSnoc(g: map<Pos, Pos>, o: seq<Pos>, x: Pos, e: int)
    requires forall i :: 0 <= i < |o| ==> o[i] in g
    requires x in g
    ensures Expand(g, o + [x], e) == Expand(g, o, e) + [Move(x, g[x], e)]
  {
  }

  lemma ExpandRemove(g: map<Pos, Pos>, o: seq<Pos>, k: nat, e: int)
    requires forall i :: 0 <= i < |o| ==> o[i] in g
    requires k < |o|
    ensures forall i :: 0 <= i < |Remove(o, k)| ==> Remove(o, k)[i] in g
    ensures Expand(g, Remove(o, k), e) == Remove(Expand(g, o, e), k)
  {
  }

  lemma {:induction false} ExpandPermutes(g: map<Pos, Pos>, a: seq<Pos>, b: seq<Pos>, e: int)
    requires forall i :: 0 <= i < |a| ==> a[i] in g
    requires forall i :: 0 <= i < |b| ==> b[i] in g
    requires multiset(a) == multiset(b)
    ensures multiset(Expand(g, a, e)) == multiset(Expand(g, b, e))
    decreases |a|
  {
    if a == [] {
      assert |b| == |multiset(b)| == 0;
    } else {
      var a', x := a[..|a| - 1], a[|a| - 1];
      assert a == a' + [x];
      assert x in multiset(b);
      var k :| 0 <= k < |b| && b[k] == x;
      RemoveMultiset(b, k);
      Cancel(multiset(a'), multiset(Remove(b, k)), x);
      ExpandRemove(g, b, k, 0);
      ExpandRemove(g, b, k, e);
      ExpandPermutes(g, a', Remove(b, k), e);
      ExpandSnoc(g, a', x, e);
      RemoveMultiset(Expand(g, b, e), k);
    }
  }

  /** The total is the same whatever order the map is iterated in. */
  lemma OrderIndependent(g: map<Pos, Pos>, o1: seq<Pos>, o2: seq<Pos>, e: int)
    requires Enumerates(o1, g) && Enumerates(o2, g)
    ensures CountDistances(Expand(g, o1, e)) == CountDistances(Expand(g, o2, e))
  {
    OrdersPermute(g, o1, o2);
    ExpandPermutes(g, o1, o2, e);
    CountPermutation(Expand(g, o1, e), Expand(g, o2, e));
  }

  // ---------------------------------------------------------------------------
  // The total is affine in the growth

  /** Two galaxies whose offsets are ordered like their positions. */
  predicate Aligned(p: Pos, op: Pos, q: Pos, oq: Pos)
  {
    (p.0 <= q.0 ==> op.0 <= oq.0) && (q.0 <= p.0 ==> oq.0 <= op.0) &&
    (p.1 <= q.1 ==> op.1 <= oq.1) && (q.1 <= p.1 ==> oq.1 <= op.1)
  }

  /** Along one axis, moving two aligned points apart by `k` times their
      offsets adds `k` times the offset difference to their distance. */
  lemma AxisGrows(a: int, oa: int, b: int, ob: int, k: nat)
    requires (a <= b ==> oa <= ob) && (b <= a ==> ob <= oa)
    ensures Abs((a + oa * k) - (b + ob * k)) == Abs(a - b) + k * Abs(oa - ob)
  {
    if a <= b {
      assert (ob - oa) * k >= 0;
      assert (b + ob * k) - (a + oa * k) == (b - a) + k * (ob - oa);
    } else {
      assert (oa - ob) * k >= 0;
      assert (a + oa * k) - (b + ob * k) == (a - b) + k * (oa - ob);
    }
  }

  lemma Distribute(k: int, a: int, b: int)
    ensures k * (a + b) == k * a + k * b
  {
  }

  lemma MoveDist(p: Pos, op: Pos, q: Pos, oq: Pos, e: int)
    requires e >= 1 && Aligned(p, op, q, oq)
    ensures Dist(Move(p, op, e), Move(q, oq, e)) == Dist(p, q) + (e - 1) * Dist(op, oq)
  {
    var k: nat := e - 1;
    AxisGrows(p.0, op.0, q.0, oq.0, k);
    AxisGrows(p.1, op.1, q.1, oq.1, k);
    Distribute(k, Abs(op.0 - oq.0), Abs(op.1 - oq.1));
  }

  /** Every two galaxies of `order` are aligned. */
  predicate AllAligned(g: map<Pos, Pos>, order: seq<Pos>)
    requires forall i :: 0 <= i < |order| ==> order[i] in g
  {
    forall i, j :: 0 <= i < |order| && 0 <= j < |order| ==> Aligned(order[i], g[order[i]], order[j], g[order[j]])
  }

  lemma MonotoneAligned(g: map<Pos, Pos>, order: seq<Pos>)
    requires forall i :: 0 <= i < |order| ==> order[i] in g
    requires Monotone(g)
    ensures AllAligned(g, order)
  {
  }

  lemma {:induction false} DistToGrows(g: map<Pos, Pos>, x: Pos, o: seq<Pos>, e: int)
    requires forall i :: 0 <= i < |o| ==> o[i] in g
    requires x in g && e >= 1
    requires forall i :: 0 <= i < |o| ==> Aligned(x, g[x], o[i], g[o[i]])
    ensures DistTo(Move(x, g[x], e), Expand(g, o, e)) == DistTo(x, o) + (e - 1) * DistTo(g[x], OffsetsOf(g, o))
    decreases |o|
  {
    if o != [] {
      var o', y := o[..|o| - 1], o[|o| - 1];
      DistToGrows(g, x, o', e);
      assert Expand(g, o, e)[..|o| - 1] == Expand(g, o', e);
      assert OffsetsOf(g, o)[..|o| - 1] == OffsetsOf(g, o');
      MoveDist(x, g[x], y, g[y], e);
      var k := e - 1;
      Distribute(k, DistTo(g[x], OffsetsOf(g, o')), Dist(g[x], g[y]));
    }
  }

  /** With offsets ordered like the positions, the total at growth `e` is
      the total without growth plus `e - 1` times the total over the
      offsets. */
  lemma ExpandLast(g: map<Pos, Pos>, o: seq<Pos>, e: int)
    requires forall i :: 0 <= i < |o| ==> o[i] in g
    requires o != []
    ensures var o', x := o[..|o| - 1], o[|o| - 1];
      Expand(g, o, e) == Expand(g, o', e) + [Move(x, g[x], e)] &&
      OffsetsOf(g, o) == OffsetsOf(g, o') + [g[x]]
  {
  }

  lemma AlignedLast(g: map<Pos, Pos>, o: seq<Pos>)
    requires forall i :: 0 <= i < |o| ==> o[i] in g
    requires o != [] && AllAligned(g, o)
    ensures var o', x := o[..|o| - 1], o[|o| - 1];
      AllAligned(g, o') && forall i :: 0 <= i < |o'| ==> Aligned(x, g[x], o'[i], g[o'[i]])
  {
    var o' := o[..|o| - 1];
    forall i, j | 0 <= i < |o'| && 0 <= j < |o'|
      ensures Aligned(o'[i], g[o'[i]], o'[j], g[o'[j]])
    {
      assert o'[i] == o[i] && o'[j] == o[j];
    }
    forall i | 0 <= i < |o'| ensures Aligned(o[|o| - 1], g[o[|o| - 1]], o'[i], g[o'[i]]) {
      assert o'[i] == o[i];
    }
  }

  /** With offsets ordered like the positions, the total at growth `e` is
      the total without growth plus `e - 1` times the total over the
      offsets. */
  lemma {:induction false} CountGrows(g: map<Pos, Pos>, o: seq<Pos>, e: int)
    requires forall i :: 0 <= i < |o| ==> o[i] in g
    requires e >= 1 && AllAligned(g, o)
    ensures CountDistances(Expand(g, o, e)) == CountDistances(o) + (e - 1) * CountDistances(OffsetsOf(g, o))
    decreases |o|
  {
    if o != [] {
      var o', x := o[..|o| - 1], o[|o| - 1];
      AlignedLast(g, o);
      ExpandLast(g, o, e);
      CountGrows(g, o', e);
      DistToGrows(g, x, o', e);
      var moved, offsets := Expand(g, o, e), OffsetsOf(g, o);
      assert moved[..|o| - 1] == Expand(g, o', e) && moved[|o| - 1] == Move(x, g[x], e);
      assert offsets[..|o| - 1] == OffsetsOf(g, o') && offsets[|o| - 1] == g[x];
      Distribute(e - 1, CountDistances(OffsetsOf(g, o')), DistTo(g[x], OffsetsOf(g, o')));
    }
  }

  // ---------------------------------------------------------------------------
  // The two parts

  /** The total at growth `expandBy`, for a map iterated in `order`. */
  function Total(g: map<Pos, Pos>, order: seq<Pos>, expandBy: int): (r: nat)
    requires Enumerates(order, g)
    ensures Monotone(g) && expandBy >= 1 ==>
              r == CountDistances(order) + (expandBy - 1) * CountDistances(OffsetsOf(g, order))
  {
    var total := CountDistances(Expand(g, order, expandBy));
    if Monotone(g) && expandBy >= 1 then
      MonotoneAligned(g, order);
      CountGrows(g, order, expandBy);
      total
    else total
  }

  /** `part_1`: every empty row and column doubles. */
  function Part1(g: map<Pos, Pos>, order: seq<Pos>): (r: Option<int>)
    requires Enumerates(order, g)
    ensures Monotone(g) ==> r == Some(CountDistances(order) + CountDistances(OffsetsOf(g, order)))
  {
    Some(Total(g, order, 2))
  }

  /** `part_2`: every empty row and column becomes a million. */
  function Part2(g: map<Pos, Pos>, order: seq<Pos>): (r: Option<int>)
    requires Enumerates(order, g)
    ensures Monotone(g) ==> r == Some(CountDistances(order) + 999_999 * CountDistances(OffsetsOf(g, order)))
  {
    Some(Total(g, order, 1_000_000))
  }
}
