/**
 * Day 10: a loop of pipes on a grid. Each pipe tile links two orthogonal
 * neighbours; the start tile `S` links to the neighbours that link back to
 * it. The route follows the links from the start until every link of the
 * current tile has been visited; part 1 is half its length. Part 2 builds
 * an open polygon from the route's corners and counts the tiles off the
 * route from which a ray to the left crosses that polygon's sides an odd
 * number of times.
 */
module Day10 {
  import opened Text

  /** A tile `(x, y)`: column, then row, with `y` growing downwards. */
  type Tile = (int, int)

  function North(t: Tile): Tile { (t.0, t.1 - 1) }
  function South(t: Tile): Tile { (t.0, t.1 + 1) }
  function West(t: Tile): Tile { (t.0 - 1, t.1) }
  function East(t: Tile): Tile { (t.0 + 1, t.1) }

  /** `q` is one of the four orthogonal neighbours of `t`. */
  predicate Adjacent(t: Tile, q: Tile)
  {
    (t.0 == q.0 && (t.1 - q.1 == 1 || q.1 - t.1 == 1)) ||
    (t.1 == q.1 && (t.0 - q.0 == 1 || q.0 - t.0 == 1))
  }

  /** The links of the pipe character `c` at `t`: a pipe links two distinct
      orthogonal neighbours, any other character links nothing. */
  function Links(c: char, t: Tile): (r: seq<Tile>)
    ensures IsPipe(c) ==> |r| == 2 && r[0] != r[1]
    ensures !IsPipe(c) ==> r == []
    ensures forall q :: q in r ==> Adjacent(t, q)
  {
    match c
    case '-' => [East(t), West(t)]
    case '|' => [North(t), South(t)]
    case '7' => [West(t), South(t)]
    case 'J' => [North(t), West(t)]
    case 'F' => [South(t), East(t)]
    case 'L' => [North(t), East(t)]
    case _ => []
  }

  predicate IsPipe(c: char) { c == '-' || c == '|' || c == '7' || c == 'J' || c == 'F' || c == 'L' }

  // ---------------------------------------------------------------------------
  // prepare

  /** `(m, n)` is a point of the row-major scan: row `m`, column `n`. */
  predicate ScanPoint(lines: seq<string>, m: nat, n: nat)
  {
    m <= |lines| && (m < |lines| ==> n <= |lines[m]|) && (m == |lines| ==> n == 0)
  }

  /** Tile `(x, y)` is on the grid and scanned before point `(m, n)`. */
  predicate ScannedBefore(lines: seq<string>, m: nat, n: nat, x: int, y: int)
  {
    0 <= y < |lines| && 0 <= x < |lines[y]| && (y < m || (y == m && x < n))
  }

  /** The map of links after inserting every tile scanned before `(m, n)`. */
  function GridUpTo(lines: seq<string>, m: nat, n: nat): map<Tile, seq<Tile>>
    requires ScanPoint(lines, m, n)
    decreases m, n
  {
    if n > 0 then GridUpTo(lines, m, n - 1)[(n - 1, m) := Links(lines[m][n - 1], (n - 1, m))]
    else if m > 0 then GridUpTo(lines, m - 1, |lines[m - 1]|)
    else map[]
  }

  /** The last `S` scanned before `(m, n)`. */
  function StartUpTo(lines: seq<string>, m: nat, n: nat): Option<Tile>
    requires ScanPoint(lines, m, n)
    decreases m, n
  {
    if n > 0 then
      if lines[m][n - 1] == 'S' then Some((n - 1, m)) else StartUpTo(lines, m, n - 1)
    else if m > 0 then StartUpTo(lines, m - 1, |lines[m - 1]|)
    else None
  }

  /** The scanned part of the map holds exactly the scanned tiles, each with its pipe's links. */
  lemma {:induction false} GridUpToAt(lines: seq<string>, m: nat, n: nat, x: int, y: int)
    requires ScanPoint(lines, m, n)
    ensures (x, y) in GridUpTo(lines, m, n) <==> ScannedBefore(lines, m, n, x, y)
    ensures ScannedBefore(lines, m, n, x, y) ==> GridUpTo(lines, m, n)[(x, y)] == Links(lines[y][x], (x, y))
    decreases m, n
  {
    if n > 0 {
      GridUpToAt(lines, m, n - 1, x, y);
    } else if m > 0 {
      GridUpToAt(lines, m - 1, |lines[m - 1]|, x, y);
    }
  }

  /** The start found is an `S`, and no `S` is scanned after it. */
  lemma {:induction false} StartUpToLast(lines: seq<string>, m: nat, n: nat)
    requires ScanPoint(lines, m, n)
    ensures match StartUpTo(lines, m, n)
      case None => forall x, y :: ScannedBefore(lines, m, n, x, y) ==> lines[y][x] != 'S'
      case Some(s) =>
        ScannedBefore(lines, m, n, s.0, s.1) && lines[s.1][s.0] == 'S' &&
        forall x, y :: ScannedBefore(lines, m, n, x, y) && lines[y][x] == 'S' ==> y < s.1 || (y == s.1 && x <= s.0)
    decreases m, n
  {
    if n > 0 {
      StartUpToLast(lines, m, n - 1);
    } else if m > 0 {
      StartUpToLast(lines, m - 1, |lines[m - 1]|);
    }
  }

  /** The map of every tile's links, before the start's are filled in. */
  function Grid(lines: seq<string>): map<Tile, seq<Tile>>
  {
    GridUpTo(lines, |lines|, 0)
  }

  /** The start tile: the last `S`, or `(0, 0)` where there is none. */
  function Start(lines: seq<string>): Tile
  {
    match StartUpTo(lines, |lines|, 0)
    case Some(s) => s
    case None => (0, 0)
  }

  /** The candidates of `cands` whose own links include `start`, in order. */
  function LinkedBack(cands: seq<Tile>, grid: map<Tile, seq<Tile>>, start: Tile): (r: seq<Tile>)
    ensures forall q :: q in r <==> q in cands && q in grid && start in grid[q]
  {
    if cands == [] then []
    else
      var q := cands[|cands| - 1];
      LinkedBack(cands[..|cands| - 1], grid, start) + (if q in grid && start in grid[q] then [q] else [])
  }

  /** The start's links: its north, south, west and east neighbours that link back to it. */
  function StartLinks(start: Tile, grid: map<Tile, seq<Tile>>): seq<Tile>
  {
    LinkedBack([North(start), South(start), West(start), East(start)], grid, start)
  }

  /** The start links exactly the neighbours that link back to it. */
  lemma StartLinksBack(start: Tile, grid: map<Tile, seq<Tile>>)
    ensures forall q :: q in StartLinks(start, grid) <==> Adjacent(start, q) && q in grid && start in grid[q]
  {
    forall q
      ensures q in StartLinks(start, grid) <==> Adjacent(start, q) && q in grid && start in grid[q]
    {
      assert Adjacent(start, q) <==> q in [North(start), South(start), West(start), East(start)];
    }
  }

  /** The map `prepare` returns: every scanned tile with its links, the start
      linked to exactly the neighbours whose pipes link back to it. */
  function Segments(lines: seq<string>): (r: map<Tile, seq<Tile>>)
    ensures forall t :: t in r <==> t in Grid(lines) || t == Start(lines)
    ensures forall t :: t in r && t != Start(lines) ==> r[t] == Grid(lines)[t]
    ensures forall q :: q in r[Start(lines)] <==>
      Adjacent(Start(lines), q) && q in Grid(lines) && Start(lines) in Grid(lines)[q]
  {
    StartLinksBack(Start(lines), Grid(lines));
    Grid(lines)[Start(lines) := StartLinks(Start(lines), Grid(lines))]
  }

  method Prepare(lines: seq<string>) returns (start: Tile, segments: map<Tile, seq<Tile>>)
    ensures start == Start(lines) && segments == Segments(lines)
  {
    start := (0, 0);
    segments := map[];
    for m := 0 to |lines|
      invariant segments == GridUpTo(lines, m, 0)
      invariant start == match StartUpTo(lines, m, 0) case Some(s) => s case None => (0, 0)
    {
      for n := 0 to |lines[m]|
        invariant segments == GridUpTo(lines, m, n)
        invariant start == match StartUpTo(lines, m, n) case Some(s) => s case None => (0, 0)
      {
        var c := lines[m][n];
        segments := segments[(n, m) := Links(c, (n, m))];
        if c == 'S' {
          start := (n, m);
        }
      }
    }
    var links := StartLinks(start, segments);
    segments := segments[start := links];
  }

  /** Every link of the map joins a tile to one of its orthogonal neighbours. */
  predicate AdjacentLinks(segments: map<Tile, seq<Tile>>)
  {
    forall t, q :: t in segments && q in segments[t] ==> Adjacent(t, q)
  }

  /** The prepared map only links neighbours. */
  lemma SegmentsAdjacent(lines: seq<string>)
    ensures AdjacentLinks(Segments(lines))
  {
    var grid := Grid(lines);
    var start := Start(lines);
    forall t, q | t in Segments(lines) && q in Segments(lines)[t]
      ensures Adjacent(t, q)
    {
      if t == start {
        StartLinksBack(start, grid);
      } else {
        GridUpToAt(lines, |lines|, 0, t.0, t.1);
      }
    }
  }

  // ---------------------------------------------------------------------------
  // find_route

  function Elems(route: seq<Tile>): set<Tile>
  {
    set t | t in route
  }

  /** `links.iter().filter(|link| !route.contains(link))`: the links not yet visited, in order. */
  function Options(links: seq<Tile>, route: seq<Tile>): (r: seq<Tile>)
    ensures forall q :: q in r <==> q in links && q !in route
  {
    if links == [] then []
    else
      var q := links[|links| - 1];
      Options(links[..|links| - 1], route) + (if q !in route then [q] else [])
  }

  /** The tiles of the map the route has not reached, plus one while `next` is already on it. */
  function Remaining(segments: map<Tile, seq<Tile>>, route: seq<Tile>, next: Tile): nat
  {
    |segments.Keys - Elems(route)| + (if next in route then 1 else 0)
  }

  /** Pushing a tile of the map that the route has not reached leaves fewer unreached. */
  lemma RemainingShrinks(segments: map<Tile, seq<Tile>>, route: seq<Tile>, next: Tile, after: Tile)
    requires next in segments && after !in route + [next]
    ensures Remaining(segments, route + [next], after) < Remaining(segments, route, next)
  {
    var before := segments.Keys - Elems(route);
    var now := segments.Keys - Elems(route + [next]);
    if next !in route {
      assert before == now + {next};
    } else {
      assert before == now;
    }
  }

  /**
   * The loop of `find_route` from `route` with `next` about to be pushed:
   * `None` where the lookup of a tile missing from the map panics.
   */
  function Walk(segments: map<Tile, seq<Tile>>, route: seq<Tile>, next: Tile): Option<seq<Tile>>
    decreases Remaining(segments, route, next)
  {
    var route' := route + [next];
    if next !in segments then None
    else
      var options := Options(segments[next], route');
      if options == [] then Some(route')
      else
        RemainingShrinks(segments, route, next, options[0]);
        Walk(segments, route', options[0])
  }

  /**
   * `find_route`: `None` where the start is missing or has no link, or where
   * the lookup of a tile missing from the map panics.  A route starts at the
   * start, moves to the start's first link, follows links, repeats no tile
   * after the start (nor the start, when its first link is not itself), and
   * stops at a tile whose links are all on it.
   */
  function Route(start: Tile, segments: map<Tile, seq<Tile>>): (r: Option<seq<Tile>>)
    ensures r.Some? ==>
      start in segments && segments[start] != [] &&
      |r.value| >= 2 && r.value[0] == start && r.value[1] == segments[start][0] &&
      Linked(segments, r.value) && Distinct(r.value[1..]) &&
      (segments[start][0] != start ==> Distinct(r.value)) &&
      r.value[|r.value| - 1] in segments && forall q :: q in segments[r.value[|r.value| - 1]] ==> q in r.value
  {
    if start !in segments || segments[start] == [] then None
    else
      var next := segments[start][0];
      var w := Walk(segments, [start], next);
      if w.None? then None
      else
        WalkExtends(segments, [start], next);
        assert w.value[..2][0] == w.value[0] && w.value[..2][1] == w.value[1];
        WalkStops(segments, [start], next);
        WalkLinked(segments, [start], next);
        WalkDistinct(segments, [start], next, 1);
        if next != start then
          WalkDistinct(segments, [start], next, 0);
          w
        else w
  }

  /** Consecutive tiles of `route` are linked in the map. */
  predicate Linked(segments: map<Tile, seq<Tile>>, route: seq<Tile>)
  {
    forall i :: 0 <= i < |route| - 1 ==> route[i] in segments && route[i + 1] in segments[route[i]]
  }

  predicate Distinct(route: seq<Tile>)
  {
    forall i, j :: 0 <= i < j < |route| ==> route[i] != route[j]
  }

  /** The walk extends the route it starts from, beginning with `next`. */
  lemma {:induction false} WalkExtends(segments: map<Tile, seq<Tile>>, route: seq<Tile>, next: Tile)
    requires Walk(segments, route, next).Some?
    ensures var r := Walk(segments, route, next).value;
      |r| > |route| && r[..|route| + 1] == route + [next]
    decreases Remaining(segments, route, next)
  {
    var route' := route + [next];
    var options := Options(segments[next], route');
    if options != [] {
      RemainingShrinks(segments, route, next, options[0]);
      WalkExtends(segments, route', options[0]);
      var r := Walk(segments, route', options[0]).value;
      assert r[..|route'|] == r[..|route'| + 1][..|route'|];
    }
  }

  /** The walk ends at a tile of the map whose links are all on the route. */
  lemma {:induction false} WalkStops(segments: map<Tile, seq<Tile>>, route: seq<Tile>, next: Tile)
    requires Walk(segments, route, next).Some?
    ensures var r := Walk(segments, route, next).value;
      |r| > 0 && r[|r| - 1] in segments && forall q :: q in segments[r[|r| - 1]] ==> q in r
    decreases Remaining(segments, route, next)
  {
    var route' := route + [next];
    var options := Options(segments[next], route');
    if options != [] {
      RemainingShrinks(segments, route, next, options[0]);
      WalkStops(segments, route', options[0]);
    }
  }

  /** Each step of the walk follows a link. */
  lemma {:induction false} WalkLinked(segments: map<Tile, seq<Tile>>, route: seq<Tile>, next: Tile)
    requires |route| > 0 && route[|route| - 1] in segments && next in segments[route[|route| - 1]]
    requires Linked(segments, route) && Walk(segments, route, next).Some?
    ensures Linked(segments, Walk(segments, route, next).value)
    decreases Remaining(segments, route, next)
  {
    var route' := route + [next];
    var options := Options(segments[next], route');
    assert Linked(segments, route') by {
      forall i | 0 <= i < |route'| - 1
        ensures route'[i] in segments && route'[i + 1] in segments[route'[i]]
      {
        if i < |route| - 1 {
          assert route'[i] == route[i] && route'[i + 1] == route[i + 1];
        }
      }
    }
    if options != [] {
      RemainingShrinks(segments, route, next, options[0]);
      WalkLinked(segments, route', options[0]);
    }
  }

  /** The walk only pushes tiles it has not visited yet. */
  lemma {:induction false} WalkDistinct(segments: map<Tile, seq<Tile>>, route: seq<Tile>, next: Tile, from: nat)
    requires from <= |route| && Distinct(route[from..]) && next !in route[from..]
    requires Walk(segments, route, next).Some?
    ensures var r := Walk(segments, route, next).value; from <= |r| && Distinct(r[from..])
    decreases Remaining(segments, route, next)
  {
    var route' := route + [next];
    var options := Options(segments[next], route');
    assert route'[from..] == route[from..] + [next];
    if options != [] {
      RemainingShrinks(segments, route, next, options[0]);
      assert options[0] !in route'[from..];
      WalkDistinct(segments, route', options[0], from);
    }
  }

  /** `find_route`, with the panics as `None`. */
  method FindRoute(start: Tile, segments: map<Tile, seq<Tile>>) returns (r: Option<seq<Tile>>)
    ensures r == Route(start, segments)
  {
    if start !in segments || segments[start] == [] {
      return None;
    }
    var route := [start];
    var next := segments[start][0];
    while true
      invariant Walk(segments, route, next) == Route(start, segments)
      decreases Remaining(segments, route, next)
    {
      route := route + [next];
      if next !in segments {
        return None;
      }
      var options := Options(segments[next], route);
      if |options| == 0 {
        return Some(route);
      }
      RemainingShrinks(segments, route[..|route| - 1], next, options[0]);
      assert route[..|route| - 1] + [next] == route;
      next := options[0];
    }
  }

  /** The map only links neighbours, so each step of the route moves to a neighbour. */
  lemma RouteAdjacent(start: Tile, segments: map<Tile, seq<Tile>>)
    requires AdjacentLinks(segments) && Route(start, segments).Some?
    ensures var r := Route(start, segments).value;
      forall i :: 0 <= i < |r| - 1 ==> Adjacent(r[i], r[i + 1])
  {
    var r := Route(start, segments).value;
    forall i | 0 <= i < |r| - 1
      ensures Adjacent(r[i], r[i + 1])
    {
      assert r[i] in segments && r[i + 1] in segments[r[i]];
    }
  }

  // ---------------------------------------------------------------------------
  // to_polygon

  /** A step from `a` to `b` keeps the column. */
  predicate Vertical(a: Tile, b: Tile) { a.0 == b.0 }

  /**
   * The corners pushed and the direction held after the loop of
   * `to_polygon` has visited `route[1..k + 1]`.
   */
  function Turns(route: seq<Tile>, k: nat): (seq<Tile>, bool)
    requires 2 <= |route| && k < |route|
  {
    if k == 0 then ([route[0]], Vertical(route[0], route[1]))
    else
      var (corners, vertical) := Turns(route, k - 1);
      var prev := route[k - 1];
      var curr := route[k];
      if vertical != Vertical(prev, curr) then (corners + [prev], Vertical(prev, curr))
      else (corners, vertical)
  }

  /** The first tile, every tile where the direction changes, and the last tile. */
  function Corners(route: seq<Tile>): seq<Tile>
    requires 2 <= |route|
  {
    Turns(route, |route| - 1).0 + [route[|route| - 1]]
  }

  /** `tuple_windows`: each element paired with the next. */
  function Windows(corners: seq<Tile>): (r: seq<(Tile, Tile)>)
    ensures |corners| > 0 ==> |r| == |corners| - 1
  {
    if |corners| < 2 then []
    else seq(|corners| - 1, i requires 0 <= i < |corners| - 1 => (corners[i], corners[i + 1]))
  }

  /** The sides of `to_polygon`: they run between tiles of the route, each
      from where the previous one ends, from the route's first tile to its
      last. */
  function Polygon(route: seq<Tile>): (r: seq<(Tile, Tile)>)
    requires 2 <= |route|
    ensures |r| >= 1 && r[0].0 == route[0] && r[|r| - 1].1 == route[|route| - 1]
    ensures forall k :: 0 <= k < |r| - 1 ==> r[k].1 == r[k + 1].0
    ensures forall k :: 0 <= k < |r| ==> r[k].0 in route && r[k].1 in route
  {
    CornersEnds(route);
    Windows(Corners(route))
  }

  /** The corners so far start at the first tile and are tiles of the route. */
  lemma {:induction false} TurnsOnRoute(route: seq<Tile>, k: nat)
    requires 2 <= |route| && k < |route|
    ensures var corners := Turns(route, k).0;
      |corners| > 0 && corners[0] == route[0] && forall c :: c in corners ==> c in route[..k + 1]
  {
    if k > 0 {
      TurnsOnRoute(route, k - 1);
      assert route[..k][..k] == route[..k] && route[..k + 1] == route[..k] + [route[k]];
    }
  }

  /** The polygon runs from the route's first tile to its last, through tiles of the route. */
  lemma CornersEnds(route: seq<Tile>)
    requires 2 <= |route|
    ensures var corners := Corners(route);
      |corners| >= 2 && corners[0] == route[0] && corners[|corners| - 1] == route[|route| - 1] &&
      forall c :: c in corners ==> c in route
  {
    TurnsOnRoute(route, |route| - 1);
    assert route[..|route|] == route;
  }

  predicate Aligned(a: Tile, b: Tile) { a.0 == b.0 || a.1 == b.1 }

  /**
   * With every step to a neighbour, consecutive corners are aligned, and the
   * last corner is aligned with the current tile along the held direction.
   */
  lemma {:induction false} TurnsAligned(route: seq<Tile>, k: nat)
    requires 2 <= |route| && k < |route|
    requires forall i :: 0 <= i < |route| - 1 ==> Adjacent(route[i], route[i + 1])
    ensures var (corners, vertical) := Turns(route, k);
      |corners| > 0 &&
      (forall j :: 0 <= j < |corners| - 1 ==> Aligned(corners[j], corners[j + 1])) &&
      (vertical ==> corners[|corners| - 1].0 == route[k].0) &&
      (!vertical ==> corners[|corners| - 1].1 == route[k].1)
  {
    if k > 0 {
      TurnsAligned(route, k - 1);
      assert Adjacent(route[k - 1], route[k]);
    }
  }

  /** Every side of the polygon of a route of neighbour steps is axis-aligned. */
  lemma PolygonAxisAligned(route: seq<Tile>)
    requires 2 <= |route|
    requires forall i :: 0 <= i < |route| - 1 ==> Adjacent(route[i], route[i + 1])
    ensures forall side :: side in Polygon(route) ==> Aligned(side.0, side.1)
  {
    TurnsAligned(route, |route| - 1);
    var corners := Corners(route);
    forall j | 0 <= j < |corners| - 1
      ensures Aligned(corners[j], corners[j + 1])
    {
    }
  }

  /** `to_polygon` */
  method ToPolygon(route: seq<Tile>) returns (polygon: seq<(Tile, Tile)>)
    requires 2 <= |route|
    ensures polygon == Polygon(route)
  {
    var corners := [route[0]];
    var prev := route[0];
    var vertical := Vertical(route[0], route[1]);
    for k := 1 to |route|
      invariant (corners, vertical) == Turns(route, k - 1) && prev == route[k - 1]
    {
      var curr := route[k];
      if vertical != Vertical(prev, curr) {
        vertical := Vertical(prev, curr);
        corners := corners + [prev];
      }
      prev := curr;
    }
    corners := corners + [route[|route| - 1]];
    polygon := Windows(corners);
  }

  /**
   * On a prepared map the route never repeats a tile, and every side of its
   * polygon is horizontal or vertical.
   */
  lemma PreparedRoute(lines: seq<string>)
    requires Route(Start(lines), Segments(lines)).Some?
    ensures var route := Route(Start(lines), Segments(lines)).value;
      2 <= |route| && Distinct(route) && forall side :: side in Polygon(route) ==> Aligned(side.0, side.1)
  {
    var start := Start(lines);
    var segments := Segments(lines);
    SegmentsAdjacent(lines);
    assert Adjacent(start, segments[start][0]);
    RouteAdjacent(start, segments);
    PolygonAxisAligned(Route(start, segments).value);
  }

  // ---------------------------------------------------------------------------
  // ray_crosses, part_1, part_2

  /**
   * A ray from `p` to the left crosses `side`: the side is vertical, lies
   * strictly left of `p`, and spans `p`'s row, with the side's smaller `y`
   * excluded and its larger `y` included (`y` grows downwards).
   */
  predicate RayCrosses(p: Tile, side: (Tile, Tile))
  {
    var (a, b) := side;
    var lo := if a.1 < b.1 then a.1 else b.1;
    var hi := if a.1 < b.1 then b.1 else a.1;
    a.0 == b.0 && p.0 > a.0 && lo < p.1 <= hi
  }

  /** The direction of a side does not matter. */
  lemma CrossesReversed(p: Tile, a: Tile, b: Tile)
    ensures RayCrosses(p, (a, b)) == RayCrosses(p, (b, a))
  {
  }

  /**
   * Splitting a vertical side at an inner tile neither loses nor doubles a
   * crossing: exactly one half is crossed where the whole is.
   */
  lemma CrossesSplit(p: Tile, a: Tile, b: Tile, c: Tile)
    requires a.0 == b.0 == c.0 && a.1 <= b.1 <= c.1
    ensures RayCrosses(p, (a, c)) <==> RayCrosses(p, (a, b)) || RayCrosses(p, (b, c))
    ensures !(RayCrosses(p, (a, b)) && RayCrosses(p, (b, c)))
  {
  }

  /** `polygon.iter().filter(|seg| ray_crosses(p, seg)).count()` */
  function Crossings(p: Tile, polygon: seq<(Tile, Tile)>): (n: nat)
    ensures n <= |polygon|
  {
    if polygon == [] then 0
    else Crossings(p, polygon[..|polygon| - 1]) + (if RayCrosses(p, polygon[|polygon| - 1]) then 1 else 0)
  }

  /** `part_1`: half the length of the route. */
  method Part1(start: Tile, segments: map<Tile, seq<Tile>>) returns (r: Option<nat>)
    ensures r == match Route(start, segments) case None => None case Some(route) => Some(|route| / 2)
  {
    var route := FindRoute(start, segments);
    if route.None? {
      return None;
    }
    return Some(|route.value| / 2);
  }

  /** A tile off the route that the ray from it crosses the polygon an odd number of times to reach. */
  predicate Inside(t: Tile, route: seq<Tile>, polygon: seq<(Tile, Tile)>)
  {
    t !in route && Crossings(t, polygon) % 2 != 0
  }

  /** The tiles of the map inside the route's polygon. */
  function Enclosed(segments: map<Tile, seq<Tile>>, route: seq<Tile>): (r: set<Tile>)
    requires 2 <= |route|
    ensures forall t :: t in r ==> t in segments && t !in route
  {
    set t | t in segments && Inside(t, route, Polygon(route))
  }

  /** The listed tiles inside the polygon. */
  function InsideOf(keys: seq<Tile>, route: seq<Tile>, polygon: seq<(Tile, Tile)>): set<Tile>
  {
    set t | t in keys && Inside(t, route, polygon)
  }

  /** One more listed tile, not listed before, adds itself when it is inside. */
  lemma InsideOfStep(keys: seq<Tile>, i: nat, route: seq<Tile>, polygon: seq<(Tile, Tile)>)
    requires i < |keys| && forall j :: 0 <= j < i ==> keys[j] != keys[i]
    ensures keys[i] !in InsideOf(keys[..i], route, polygon)
    ensures InsideOf(keys[..i + 1], route, polygon) ==
      InsideOf(keys[..i], route, polygon) + (if Inside(keys[i], route, polygon) then {keys[i]} else {})
  {
    assert keys[..i + 1] == keys[..i] + [keys[i]];
  }

  /** The count of `part_2`'s loop over the listed tiles. */
  method CountInside(keys: seq<Tile>, route: seq<Tile>, polygon: seq<(Tile, Tile)>) returns (count: nat)
    requires forall i, j :: 0 <= i < j < |keys| ==> keys[i] != keys[j]
    ensures count == |InsideOf(keys, route, polygon)|
  {
    count := 0;
    for i := 0 to |keys|
      invariant count == |InsideOf(keys[..i], route, polygon)|
    {
      var t := keys[i];
      InsideOfStep(keys, i, route, polygon);
      if t !in route {
        var crossCount := Crossings(t, polygon);
        if crossCount % 2 != 0 {
          count := count + 1;
        }
      }
    }
    assert keys[..|keys|] == keys;
  }

  /** `part_2`, with the hash map's key order as the parameter `keys`. */
  method Part2(start: Tile, segments: map<Tile, seq<Tile>>, keys: seq<Tile>) returns (r: Option<nat>)
    requires Lists(keys, segments.Keys)
    ensures Route(start, segments).None? ==> r.None?
    ensures Route(start, segments).Some? ==>
      2 <= |Route(start, segments).value| && r == Some(|Enclosed(segments, Route(start, segments).value)|)
  {
    var route := FindRoute(start, segments);
    if route.None? {
      return None;
    }
    var polygon := ToPolygon(route.value);
    var count := CountInside(keys, route.value, polygon);
    assert InsideOf(keys, route.value, polygon) == Enclosed(segments, route.value);
    return Some(count);
  }
}
