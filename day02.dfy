/** Cube conundrum (src/day02.rs).  A game is a list of draws of red, green
    and blue cubes; part 1 sums the ids of the games possible with 12 red, 13
    green and 14 blue cubes, part 2 sums the powers of the fewest cubes each
    game needs. */
module Day02 {
  import opened Text

  datatype Draw = Draw(reds: nat, greens: nat, blues: nat)

  datatype Game = Game(id: nat, draws: seq<Draw>)

  datatype Colour = Red | Green | Blue

  function Amount(d: Draw, c: Colour): nat
  {
    match c
    case Red => d.reds
    case Green => d.greens
    case Blue => d.blues
  }

  function WithAmount(d: Draw, c: Colour, n: nat): (e: Draw)
    ensures Amount(e, c) == n
    ensures forall c' :: c' != c ==> Amount(e, c') == Amount(d, c')
  {
    match c
    case Red => d.(reds := n)
    case Green => d.(greens := n)
    case Blue => d.(blues := n)
  }

  /** `d` has at most as many cubes of each colour as `b`. */
  predicate Within(d: Draw, b: Draw)
  {
    forall c :: Amount(d, c) <= Amount(b, c)
  }

  // ---------------------------------------------------------------------------
  // The fewest cubes

  /** The largest number of each colour over `draws`, zero for none. */
  function MostDrawn(draws: seq<Draw>): (r: Draw)
    ensures forall i :: 0 <= i < |draws| ==> Within(draws[i], r)
  {
    if draws == [] then Draw(0, 0, 0)
    else
      var m := MostDrawn(draws[..|draws| - 1]);
      var d := draws[|draws| - 1];
      var r := Draw(Max(m.reds, d.reds), Max(m.greens, d.greens), Max(m.blues, d.blues));
      assert Within(m, r) && Within(d, r);
      assert forall i :: 0 <= i < |draws| - 1 ==> draws[i] == draws[..|draws| - 1][i];
      r
  }

  /** Each component of `MostDrawn` is one of the draws' (or zero when no
      draw has that colour). */
  lemma {:induction false} MostDrawnAttained(draws: seq<Draw>, c: Colour)
    ensures Amount(MostDrawn(draws), c) == 0 ||
      exists i :: 0 <= i < |draws| && Amount(draws[i], c) == Amount(MostDrawn(draws), c)
  {
    if draws != [] {
      var init := draws[..|draws| - 1];
      MostDrawnAttained(init, c);
      if Amount(MostDrawn(draws), c) != Amount(draws[|draws| - 1], c) && Amount(MostDrawn(draws), c) != 0 {
        var i :| 0 <= i < |init| && Amount(init[i], c) == Amount(MostDrawn(init), c);
        assert draws[i] == init[i];
      }
    }
  }

  /** A bag holds every draw exactly when it holds `MostDrawn`: the maximum is
      the least upper bound of the draws. */
  lemma {:induction false} MostDrawnLeast(draws: seq<Draw>, b: Draw)
    ensures (forall i :: 0 <= i < |draws| ==> Within(draws[i], b)) <==> Within(MostDrawn(draws), b)
  {
    if draws != [] {
      var init := draws[..|draws| - 1];
      MostDrawnLeast(init, b);
      assert forall i :: 0 <= i < |init| ==> init[i] == draws[i];
      if Within(MostDrawn(draws), b) {
        assert Within(MostDrawn(init), b) by {
          forall c ensures Amount(MostDrawn(init), c) <= Amount(b, c) {
            assert Amount(MostDrawn(init), c) <= Amount(MostDrawn(draws), c) by {
              match c
              case Red =>
              case Green =>
              case Blue =>
            }
          }
        }
      }
    }
  }

  /** `Game::max_drawn`: the component-wise maximum of the draws. */
  method MaxDrawn(game: Game) returns (out: Draw)
    ensures out == MostDrawn(game.draws)
  {
    out := Draw(0, 0, 0);
    for i := 0 to |game.draws|
      invariant out == MostDrawn(game.draws[..i])
    {
      assert game.draws[..i + 1][..i] == game.draws[..i];
      var draw := game.draws[i];
      out := out.(reds := Max(out.reds, draw.reds));
      out := out.(greens := Max(out.greens, draw.greens));
      out := out.(blues := Max(out.blues, draw.blues));
    }
    assert game.draws[..|game.draws|] == game.draws;
  }

  /** `Game::power`: the product of the three maxima, zero exactly when some
      colour is never drawn. */
  function Power(game: Game): (p: nat)
    ensures p == 0 <==> exists c :: Missing(game.draws, c)
  {
    var m := MostDrawn(game.draws);
    ProductZero(m.reds, m.greens, m.blues);
    MissingIff(game.draws, Red);
    MissingIff(game.draws, Green);
    MissingIff(game.draws, Blue);
    MissingSome(game.draws);
    m.reds * m.greens * m.blues
  }

  lemma MulLe(a: nat, x: nat, k: nat)
    requires a <= x
    ensures a * k <= x * k && k * a <= k * x
  {
    assert x * k == a * k + (x - a) * k;
  }

  lemma MulMonotone(a: nat, b: nat, c: nat, x: nat, y: nat, z: nat)
    requires a <= x && b <= y && c <= z
    ensures a * b * c <= x * y * z
  {
    MulLe(a, x, b);
    MulLe(b, y, x);
    MulLe(a * b, x * y, c);
    MulLe(c, z, x * y);
  }

  /** The power is the least product over all bags that hold every draw. */
  lemma PowerLeast(game: Game, b: Draw)
    requires forall i :: 0 <= i < |game.draws| ==> Within(game.draws[i], b)
    ensures Power(game) <= b.reds * b.greens * b.blues
  {
    MostDrawnLeast(game.draws, b);
    var m := MostDrawn(game.draws);
    assert Amount(m, Red) <= Amount(b, Red);
    assert Amount(m, Green) <= Amount(b, Green);
    assert Amount(m, Blue) <= Amount(b, Blue);
    MulMonotone(m.reds, m.greens, m.blues, b.reds, b.greens, b.blues);
  }

  /** No draw has a cube of colour `c`. */
  predicate Missing(draws: seq<Draw>, c: Colour)
  {
    forall i :: 0 <= i < |draws| ==> Amount(draws[i], c) == 0
  }

  lemma ProductZero(a: nat, b: nat, c: nat)
    ensures a * b * c == 0 <==> a == 0 || b == 0 || c == 0
  {
    if a > 0 && b > 0 && c > 0 {
      MulLe(1, a, b);
      MulLe(1, a * b, c);
    }
  }

  /** A colour is never drawn exactly when its maximum is zero. */
  lemma MissingIff(draws: seq<Draw>, c: Colour)
    ensures Amount(MostDrawn(draws), c) == 0 <==> Missing(draws, c)
  {
    MostDrawnAttained(draws, c);
    if Amount(MostDrawn(draws), c) == 0 {
      forall i | 0 <= i < |draws| ensures Amount(draws[i], c) == 0 {
        assert Within(draws[i], MostDrawn(draws));
      }
    }
  }

  lemma MissingSome(draws: seq<Draw>)
    ensures (exists c :: Missing(draws, c)) <==> Missing(draws, Red) || Missing(draws, Green) || Missing(draws, Blue)
  {
    if exists c :: Missing(draws, c) {
      var c :| Missing(draws, c);
      match c
      case Red =>
      case Green =>
      case Blue =>
    }
  }

  // ---------------------------------------------------------------------------
  // Parsing

  function Name(c: Colour): string
  {
    match c
    case Red => "red"
    case Green => "green"
    case Blue => "blue"
  }

  /** `sscanf!(cubes, "{usize} <colour>")`: a count, one space and the colour's
      name, and nothing else. */
  function CubeCount(cubes: string, c: Colour): Option<nat>
  {
    var tail := " " + Name(c);
    if EndsWith(cubes, tail) then ParseNat(cubes[..|cubes| - |tail|]) else None
  }

  /** One `if let Ok(..) = sscanf!(..)` of the cube loop: a piece that parses
      as a count of `c` sets that colour. */
  function Update(d: Draw, piece: string, c: Colour): (e: Draw)
    ensures Amount(e, c) == match CubeCount(piece, c) case Some(n) => n case None => Amount(d, c)
    ensures forall c' :: c' != c ==> Amount(e, c') == Amount(d, c')
  {
    match CubeCount(piece, c)
    case Some(n) => WithAmount(d, c, n)
    case None => d
  }

  /** The three tests of the cube loop on one piece, red, green, then blue. */
  function Apply(d: Draw, piece: string): Draw
  {
    Update(Update(Update(d, piece, Red), piece, Green), piece, Blue)
  }

  /** The draw described by the `", "`-separated `cubes`: each colour takes
      the count of the last piece that names it, and zero if none does. */
  function DrawOf(cubes: seq<string>): Draw
  {
    if cubes == [] then Draw(0, 0, 0) else Apply(DrawOf(cubes[..|cubes| - 1]), cubes[|cubes| - 1])
  }

  /** The piece read last decides a colour's count when it names that colour. */
  lemma DrawOfLast(cubes: seq<string>, c: Colour)
    requires cubes != []
    ensures Amount(DrawOf(cubes), c) ==
      match CubeCount(cubes[|cubes| - 1], c)
      case Some(n) => n
      case None => Amount(DrawOf(cubes[..|cubes| - 1]), c)
  {
    var d := DrawOf(cubes[..|cubes| - 1]);
    var piece := cubes[|cubes| - 1];
    var d1 := Update(d, piece, Red);
    var d2 := Update(d1, piece, Green);
    assert DrawOf(cubes) == Update(d2, piece, Blue);
  }

  /** The value of the last `Some` of `counts`, and zero if there is none. */
  function Latest(counts: seq<Option<nat>>): nat
  {
    if counts == [] then 0
    else
      match counts[|counts| - 1]
      case Some(n) => n
      case None => Latest(counts[..|counts| - 1])
  }

  lemma {:induction false} LatestAbsent(counts: seq<Option<nat>>)
    requires forall j :: 0 <= j < |counts| ==> counts[j].None?
    ensures Latest(counts) == 0
  {
    if counts != [] {
      var init := counts[..|counts| - 1];
      assert forall j :: 0 <= j < |init| ==> init[j] == counts[j];
      LatestAbsent(init);
    }
  }

  lemma {:induction false} LatestAt(counts: seq<Option<nat>>, i: nat, n: nat)
    requires i < |counts| && counts[i] == Some(n)
    requires forall j :: i < j < |counts| ==> counts[j].None?
    ensures Latest(counts) == n
  {
    var init := counts[..|counts| - 1];
    if i < |init| {
      assert init[i] == counts[i];
      assert forall j :: i < j < |init| ==> init[j] == counts[j];
      LatestAt(init, i, n);
    }
  }

  /** What each piece says about colour `c`. */
  function CountsOf(cubes: seq<string>, c: Colour): (r: seq<Option<nat>>)
    ensures |r| == |cubes|
    ensures forall j :: 0 <= j < |cubes| ==> r[j] == CubeCount(cubes[j], c)
  {
    seq(|cubes|, j requires 0 <= j < |cubes| => CubeCount(cubes[j], c))
  }

  /** A colour's count in the draw is what the last piece naming it says. */
  lemma {:induction false} DrawOfCounts(cubes: seq<string>, c: Colour)
    ensures Amount(DrawOf(cubes), c) == Latest(CountsOf(cubes, c))
  {
    if cubes != [] {
      var init := cubes[..|cubes| - 1];
      DrawOfCounts(init, c);
      DrawOfLast(cubes, c);
      var counts := CountsOf(cubes, c);
      assert counts[..|counts| - 1] == CountsOf(init, c);
    }
  }

  /** A colour no piece names counts zero. */
  lemma DrawOfAbsent(cubes: seq<string>, c: Colour)
    requires forall j :: 0 <= j < |cubes| ==> CubeCount(cubes[j], c).None?
    ensures Amount(DrawOf(cubes), c) == 0
  {
    DrawOfCounts(cubes, c);
    LatestAbsent(CountsOf(cubes, c));
  }

  /** A colour takes the count of the last piece that names it. */
  lemma DrawOfLatest(cubes: seq<string>, c: Colour, i: nat, n: nat)
    requires i < |cubes| && CubeCount(cubes[i], c) == Some(n)
    requires forall j :: i < j < |cubes| ==> CubeCount(cubes[j], c).None?
    ensures Amount(DrawOf(cubes), c) == n
  {
    DrawOfCounts(cubes, c);
    LatestAt(CountsOf(cubes, c), i, n);
  }

  /** The draw written as `draw`: its pieces are separated by `", "`. */
  function DrawText(draw: string): Draw
  {
    DrawOf(Split(draw, ", "))
  }

  /** One draw of `prepare`: start from zero of each colour and let every
      `", "`-separated piece that parses as a count of a colour set it. */
  method ParseDraw(draw: string) returns (d: Draw)
    ensures d == DrawText(draw)
  {
    var pieces := Split(draw, ", ");
    var reds, greens, blues := 0, 0, 0;
    for k := 0 to |pieces|
      invariant Draw(reds, greens, blues) == DrawOf(pieces[..k])
    {
      assert pieces[..k + 1][..k] == pieces[..k];
      var cubes := pieces[k];
      ghost var d := Draw(reds, greens, blues);
      var r := CubeCount(cubes, Red);
      if r.Some? { reds := r.value; }
      var g := CubeCount(cubes, Green);
      if g.Some? { greens := g.value; }
      var b := CubeCount(cubes, Blue);
      if b.Some? { blues := b.value; }
      assert Draw(reds, greens, blues) == Apply(d, cubes) by {
        var d1 := Update(d, cubes, Red);
        var d2 := Update(d1, cubes, Green);
        assert Draw(reds, greens, blues) == Update(d2, cubes, Blue);
      }
    }
    assert pieces[..|pieces|] == pieces;
    d := Draw(reds, greens, blues);
  }

  /** The draws of a game's text after `": "`: one per `"; "`-separated chunk. */
  function DrawsOf(suffix: string): (ds: seq<Draw>)
    ensures |ds| == |Split(suffix, "; ")|
  {
    var chunks := Split(suffix, "; ");
    seq(|chunks|, i requires 0 <= i < |chunks| => DrawText(chunks[i]))
  }

  /** `sscanf!(line, "Game {usize}: {str}")`: the id and the non-empty text
      after the first `": "`; `None` where the source's `unwrap` panics. */
  function ParseGame(line: string): Option<Game>
  {
    match SplitOnce(line, ": ")
    case None => None
    case Some((head, suffix)) =>
      if !StartsWith(head, "Game ") || suffix == [] then None
      else
        match ParseNat(head[5..])
        case None => None
        case Some(id) => Some(Game(id, DrawsOf(suffix)))
  }

  /** A well-formed game line reads back its id and one draw per chunk. */
  lemma ParseGameLine(id: nat, suffix: string)
    requires suffix != []
    ensures ParseGame("Game " + ShowNat(id) + ": " + suffix) == Some(Game(id, DrawsOf(suffix)))
  {
    var digits := ShowNat(id);
    var head := "Game " + digits;
    assert ':' !in digits by {
      forall i | 0 <= i < |digits| ensures digits[i] != ':' {
        assert IsDigit(digits[i]);
      }
    }
    assert ':' !in "Game ";
    SplitOnceAtPattern(head, ": ", suffix);
    assert StartsWith(head, "Game ") && head[5..] == digits;
    ParseShowNat(id);
  }

  /** The draw loop of `prepare`: one draw pushed per `"; "`-separated chunk. */
  method ParseDraws(suffix: string) returns (draws: seq<Draw>)
    ensures draws == DrawsOf(suffix)
  {
    var chunks := Split(suffix, "; ");
    draws := [];
    for k := 0 to |chunks|
      invariant |draws| == k
      invariant forall j :: 0 <= j < k ==> draws[j] == DrawText(chunks[j])
    {
      var draw := ParseDraw(chunks[k]);
      draws := draws + [draw];
    }
    assert draws == DrawsOf(suffix);
  }

  /** `prepare`: every line parsed into a game, or `None` if a line does not
      match (where the source panics). */
  method Prepare(lines: seq<string>) returns (r: Option<seq<Game>>)
    ensures r == ParseEach(ParseGame, lines)
  {
    var output: seq<Game> := [];
    for y := 0 to |lines|
      invariant |output| == y && forall j :: 0 <= j < y ==> ParseGame(lines[j]) == Some(output[j])
    {
      var line := lines[y];
      var header := ParseGame(line);
      if header.None? {
        return None;
      }
      var draws := ParseDraws(SplitOnce(line, ": ").value.1);
      output := output + [Game(header.value.id, draws)];
    }
    ParseEachExact(lines, output);
    r := Some(output);
  }

  lemma ParseEachExact(lines: seq<string>, output: seq<Game>)
    requires |output| == |lines| && forall j :: 0 <= j < |lines| ==> ParseGame(lines[j]) == Some(output[j])
    ensures ParseEach(ParseGame, lines) == Some(output)
  {
    var r := ParseEach(ParseGame, lines);
    assert r.Some?;
    assert r.value == output;
  }

  // ---------------------------------------------------------------------------
  // Answers

  /** Whether the game could be played with 12 red, 13 green and 14 blue cubes. */
  predicate Possible(game: Game)
  {
    var m := MostDrawn(game.draws);
    m.reds <= 12 && m.greens <= 13 && m.blues <= 14
  }

  /** A game is possible exactly when every one of its draws fits in the bag. */
  lemma PossibleIff(game: Game)
    ensures Possible(game) <==> forall i :: 0 <= i < |game.draws| ==> Within(game.draws[i], Draw(12, 13, 14))
  {
    MostDrawnLeast(game.draws, Draw(12, 13, 14));
    var m := MostDrawn(game.draws);
    assert Within(m, Draw(12, 13, 14)) <==> Amount(m, Red) <= 12 && Amount(m, Green) <= 13 && Amount(m, Blue) <= 14;
  }

  /** The ids of the possible games, in order. */
  function Qualified(games: seq<Game>): seq<nat>
  {
    if games == [] then []
    else
      var g := games[|games| - 1];
      Qualified(games[..|games| - 1]) + if Possible(g) then [g.id] else []
  }

  lemma {:induction false} QualifiedSound(games: seq<Game>, id: nat)
    requires id in Qualified(games)
    ensures exists i :: 0 <= i < |games| && games[i].id == id && Possible(games[i])
  {
    var init := games[..|games| - 1];
    var last := games[|games| - 1];
    if id in Qualified(init) {
      QualifiedSound(init, id);
      var i :| 0 <= i < |init| && init[i].id == id && Possible(init[i]);
      assert games[i] == init[i];
    } else {
      assert games[|games| - 1].id == id && Possible(games[|games| - 1]);
    }
  }

  lemma {:induction false} QualifiedComplete(games: seq<Game>, i: nat)
    requires i < |games| && Possible(games[i])
    ensures games[i].id in Qualified(games)
  {
    var init := games[..|games| - 1];
    if i < |init| {
      assert init[i] == games[i];
      QualifiedComplete(init, i);
    }
  }

  /** An id is summed exactly when some possible game has it. */
  lemma QualifiedMembers(games: seq<Game>, id: nat)
    ensures id in Qualified(games) <==> exists i :: 0 <= i < |games| && games[i].id == id && Possible(games[i])
  {
    if id in Qualified(games) {
      QualifiedSound(games, id);
    }
    if exists i :: 0 <= i < |games| && games[i].id == id && Possible(games[i]) {
      var i :| 0 <= i < |games| && games[i].id == id && Possible(games[i]);
      QualifiedComplete(games, i);
    }
  }

  /** `part_1`: the sum of the ids of the possible games. */
  method Part1(games: seq<Game>) returns (r: Option<nat>)
    ensures r == Some(Sum(Qualified(games)))
  {
    var qualifiedGames: seq<nat> := [];
    for i := 0 to |games|
      invariant qualifiedGames == Qualified(games[..i])
    {
      assert games[..i + 1][..i] == games[..i];
      var m := MaxDrawn(games[i]);
      if m.reds <= 12 && m.greens <= 13 && m.blues <= 14 {
        qualifiedGames := qualifiedGames + [games[i].id];
      }
    }
    assert games[..|games|] == games;
    r := Some(Sum(qualifiedGames));
  }

  /** The power of every game, in order. */
  function Powers(games: seq<Game>): (ps: seq<nat>)
    ensures |ps| == |games| && forall i :: 0 <= i < |games| ==> ps[i] == Power(games[i])
  {
    seq(|games|, i requires 0 <= i < |games| => Power(games[i]))
  }

  /** `part_2`: the sum of the games' powers. */
  method Part2(games: seq<Game>) returns (r: Option<nat>)
    ensures r == Some(Sum(Powers(games)))
  {
    var gamePowers: seq<nat> := [];
    for i := 0 to |games|
      invariant gamePowers == Powers(games[..i])
    {
      var m := MaxDrawn(games[i]);
      gamePowers := gamePowers + [m.reds * m.greens * m.blues];
    }
    assert games[..|games|] == games;
    r := Some(Sum(gamePowers));
  }
}
