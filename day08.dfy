/** Haunted wasteland (src/day08.rs).  A network of nodes, each naming a left
    and a right successor, is walked by repeating a list of `L`/`R`
    instructions.  Part 1 counts the moves from `AAA` to `ZZZ`; part 2 walks
    from every node ending in `A` to a node ending in `Z` and folds the path
    lengths with the least common multiple. */
module Day08 {
  import opened Text

  datatype Node = Node(id: string, left: string, right: string)

  // ---------------------------------------------------------------------------
  // Parsing

  /** `Node::from_str`: drop every `)`, split once on ` = (` and then once on
      `, `.  `None` stands for the panicking `unwrap`. */
  function ParseNode(s: string): Option<Node>
  {
    var shorter := RemoveAll(s, ')');
    match SplitOnce(shorter, " = (")
    case None => None
    case Some((id, tail)) =>
      match SplitOnce(tail, ", ")
      case None => None
      case Some((left, right)) => Some(Node(id, left, right))
  }

  /** The puzzle's line format `ID = (LEFT, RIGHT)`. */
  function ShowNode(n: Node): string
  {
    n.id + " = (" + n.left + ", " + n.right + ")"
  }

  /** Labels that survive the round trip: no `)` anywhere, no space in the id
      and no comma in the left label. */
  predicate Printable(n: Node)
  {
    ')' !in n.id && ')' !in n.left && ')' !in n.right && ' ' !in n.id && ',' !in n.left
  }

  /** Removing `)` from a printed node leaves only the closing parenthesis out. */
  lemma StripClose(n: Node)
    requires Printable(n)
    ensures RemoveAll(ShowNode(n), ')') == n.id + " = (" + n.left + ", " + n.right
  {
    var x1 := n.id + " = (";
    var x2 := x1 + n.left;
    var x3 := x2 + ", ";
    var x4 := x3 + n.right;
    RemoveAllAbsent(n.id, ')');
    RemoveAllAbsent(" = (", ')');
    RemoveAllAbsent(n.left, ')');
    RemoveAllAbsent(", ", ')');
    RemoveAllAbsent(n.right, ')');
    assert RemoveAll(")", ')') == [];
    RemoveAllAppend(n.id, " = (", ')');
    RemoveAllAppend(x1, n.left, ')');
    RemoveAllAppend(x2, ", ", ')');
    RemoveAllAppend(x3, n.right, ')');
    RemoveAllAppend(x4, ")", ')');
    assert x4 + [] == x4;
  }

  /** Parsing a printed node gives the node back. */
  lemma ParseShowNode(n: Node)
    requires Printable(n)
    ensures ParseNode(ShowNode(n)) == Some(n)
  {
    var tail := n.left + ", " + n.right;
    StripClose(n);
    assert n.id + " = (" + n.left + ", " + n.right == n.id + " = (" + tail;
    SplitOnceAtPattern(n.id, " = (", tail);
    SplitOnceAtPattern(n.left, ", ", n.right);
  }

  /** The network as `prepare` collects it: each node under its id, a later
      line with the same id replacing an earlier one. */
  function NodeMap(ns: seq<Node>): (m: map<string, Node>)
    ensures forall k :: k in m ==> m[k].id == k
    ensures forall i :: 0 <= i < |ns| ==> ns[i].id in m
    ensures forall k :: k in m ==> exists i :: 0 <= i < |ns| && ns[i] == m[k]
  {
    if ns == [] then map[]
    else
      var last := ns[|ns| - 1];
      var m := NodeMap(ns[..|ns| - 1])[last.id := last];
      assert forall k :: k in m && k != last.id ==> exists i :: 0 <= i < |ns| - 1 && ns[i] == m[k] by {
        forall k | k in m && k != last.id ensures exists i :: 0 <= i < |ns| - 1 && ns[i] == m[k] {
          var i :| 0 <= i < |ns| - 1 && ns[..|ns| - 1][i] == m[k];
          assert ns[i] == m[k];
        }
      }
      m
  }

  /** The last line with a given id is the one kept. */
  lemma {:induction false} LastInsertWins(ns: seq<Node>, i: nat)
    requires i < |ns|
    requires forall j :: i < j < |ns| ==> ns[j].id != ns[i].id
    ensures NodeMap(ns)[ns[i].id] == ns[i]
  {
    if i < |ns| - 1 {
      LastInsertWins(ns[..|ns| - 1], i);
    }
  }

  /** `prepare`: the trimmed first line is the instruction list, every line
      from the third on is a node.  `None` stands for a panic: no first line,
      or a node line without ` = (` or `, `. */
  function Prepare(lines: seq<string>): (r: Option<(string, map<string, Node>)>)
    ensures r.Some? ==> |lines| > 0 && r.value.0 == Trim(lines[0])
    ensures r.Some? <==> |lines| > 0 && forall i :: 2 <= i < |lines| ==> ParseNode(lines[i]).Some?
    ensures r.Some? ==> forall k :: k in r.value.1 ==>
      r.value.1[k].id == k && exists i :: 2 <= i < |lines| && ParseNode(lines[i]) == Some(r.value.1[k])
    ensures r.Some? ==> forall i :: 2 <= i < |lines| ==> ParseNode(lines[i]).value.id in r.value.1
  {
    if |lines| == 0 then None
    else
      var rest := if |lines| <= 2 then [] else lines[2..];
      match ParseEach(ParseNode, rest)
      case None => None
      case Some(ns) =>
        assert forall i :: 2 <= i < |lines| ==> ParseNode(lines[i]) == Some(ns[i - 2]) by {
          forall i | 2 <= i < |lines| ensures ParseNode(lines[i]) == Some(ns[i - 2]) {
            assert rest[i - 2] == lines[i];
          }
        }
        var m := NodeMap(ns);
        assert forall k :: k in m ==> exists i :: 2 <= i < |lines| && ParseNode(lines[i]) == Some(m[k]) by {
          forall k | k in m ensures exists i :: 2 <= i < |lines| && ParseNode(lines[i]) == Some(m[k]) {
            var j :| 0 <= j < |ns| && ns[j] == m[k];
            assert ParseNode(lines[j + 2]) == Some(ns[j]);
          }
        }
        Some((Trim(lines[0]), m))
  }

  // ---------------------------------------------------------------------------
  // The walk

  predicate Turns(instructions: string)
  {
    forall i :: 0 <= i < |instructions| ==> instructions[i] == 'L' || instructions[i] == 'R'
  }

  /** The id reached after `k` moves from `start`: move `j` follows instruction
      `j mod len`, to `left` on `L` and `right` on `R`.  A walk that reaches an
      id missing from the network stays there. */
  function Walk(instructions: string, nodes: map<string, Node>, start: string, k: nat): string
    requires |instructions| > 0
  {
    if k == 0 then start
    else
      var here := Walk(instructions, nodes, start, k - 1);
      if here !in nodes then here
      else if instructions[(k - 1) % |instructions|] == 'L' then nodes[here].left
      else nodes[here].right
  }

  /** The loop of `steps_from` stops after `k` moves when it stands on an id
      missing from the network, or when move `k` has just reached an id ending
      with `end`. */
  predicate Stops(instructions: string, nodes: map<string, Node>, start: string, end: string, k: nat)
    requires |instructions| > 0
  {
    var here := Walk(instructions, nodes, start, k);
    here !in nodes || (k > 0 && EndsWith(here, end))
  }

  /** `steps_from` returns the least `k` at which the walk stops.  The source
      loops forever when no such `k` exists. */
  predicate FirstStop(instructions: string, nodes: map<string, Node>, start: string, end: string, k: nat)
    requires |instructions| > 0
  {
    Stops(instructions, nodes, start, end, k) &&
    forall j :: 0 <= j < k ==> !Stops(instructions, nodes, start, end, j)
  }

  /** There is at most one first stop. */
  lemma FirstStopUnique(instructions: string, nodes: map<string, Node>, start: string, end: string, a: nat, b: nat)
    requires |instructions| > 0
    requires FirstStop(instructions, nodes, start, end, a) && FirstStop(instructions, nodes, start, end, b)
    ensures a == b
  {
  }

  lemma ModShift(a: nat, b: nat, j: nat, n: nat)
    requires n > 0 && a % n == b % n
    ensures (a + j) % n == (b + j) % n
  {
    var r := a % n;
    assert a == (a / n) * n + r && b == (b / n) * n + r;
    AddMultiple(a / n, n, r + j);
    AddMultiple(b / n, n, r + j);
  }

  /** The walk depends only on the current id and the position in the
      instruction list: two moments that agree on both agree from then on. */
  lemma {:induction false} WalkShift(instructions: string, nodes: map<string, Node>, start: string, a: nat, b: nat, j: nat)
    requires |instructions| > 0
    requires a % |instructions| == b % |instructions|
    requires Walk(instructions, nodes, start, a) == Walk(instructions, nodes, start, b)
    ensures Walk(instructions, nodes, start, a + j) == Walk(instructions, nodes, start, b + j)
  {
    if j > 0 {
      WalkShift(instructions, nodes, start, a, b, j - 1);
      ModShift(a, b, j - 1, |instructions|);
      assert a + j - 1 == a + (j - 1) && b + j - 1 == b + (j - 1);
    }
  }

  /** `steps_from`: the number of moves until the first stop.  The result is
      always `Some`. */
  method StepsFrom(instructions: string, nodes: map<string, Node>, start: string, end: string) returns (r: Option<nat>)
    requires |instructions| > 0 && Turns(instructions)
    requires exists k: nat :: Stops(instructions, nodes, start, end, k)
    ensures r.Some? && FirstStop(instructions, nodes, start, end, r.value)
  {
    ghost var bound: nat :| Stops(instructions, nodes, start, end, bound);
    var repeat := |instructions|;
    var step: nat := 0;
    var next := start;
    while next in nodes
      invariant next == Walk(instructions, nodes, start, step)
      invariant forall j :: 0 <= j < step ==> !Stops(instructions, nodes, start, end, j)
      invariant step > 0 ==> !EndsWith(next, end)
      invariant step <= bound
      decreases bound - step
    {
      assert !Stops(instructions, nodes, start, end, step);
      var node := nodes[next];
      var instruction := instructions[step % repeat];
      if instruction == 'L' {
        next := node.left;
      } else {
        next := node.right;
      }
      step := step + 1;
      if EndsWith(next, end) {
        return Some(step);
      }
    }
    return Some(step);
  }

  /** `part_1`: from `AAA` to an id ending with `ZZZ`. */
  method Part1(instructions: string, nodes: map<string, Node>) returns (r: Option<nat>)
    requires |instructions| > 0 && Turns(instructions)
    requires exists k: nat :: Stops(instructions, nodes, "AAA", "ZZZ", k)
    ensures r.Some? && FirstStop(instructions, nodes, "AAA", "ZZZ", r.value)
  {
    r := StepsFrom(instructions, nodes, "AAA", "ZZZ");
  }

  // ---------------------------------------------------------------------------
  // Greatest common divisor and least common multiple

  lemma MulAtLeast(k: int, d: int)
    requires k >= 1 && d > 0
    ensures k * d >= d
  {
  }

  /** Euclidean division has one quotient and one remainder. */
  lemma ModUnique(z: int, d: int, q: int, r: int)
    requires d > 0 && 0 <= r < d && z == q * d + r
    ensures z % d == r && z / d == q
  {
    var q', r' := z / d, z % d;
    assert z == q' * d + r';
    assert (q - q') * d == r' - r;
    if q > q' {
      MulAtLeast(q - q', d);
    } else if q < q' {
      MulAtLeast(q' - q, d);
    }
  }

  lemma AddMultiple(k: int, d: int, r: int)
    requires d > 0
    ensures (k * d + r) % d == r % d
  {
    var q, s := r / d, r % d;
    assert r == q * d + s;
    assert k * d + r == (k + q) * d + s;
    ModUnique(k * d + r, d, k + q, s);
  }

  predicate CommonDivisor(d: nat, a: nat, b: nat)
  {
    d > 0 && a % d == 0 && b % d == 0
  }

  /** `g` is the greatest common divisor of `a` and `b`: a common divisor that
      every common divisor divides. */
  ghost predicate IsGcd(a: nat, b: nat, g: nat)
  {
    CommonDivisor(g, a, b) && forall d :: CommonDivisor(d, a, b) ==> g % d == 0
  }

  /** Replacing `m` by `m % n` keeps the common divisors. */
  lemma ModStep(m: nat, n: nat, d: nat)
    requires n > 0 && d > 0
    ensures CommonDivisor(d, m, n) <==> CommonDivisor(d, m % n, n)
  {
    if n % d == 0 {
      var q, r := m / n, m % n;
      assert m == q * n + r;
      var t := n / d;
      assert n == t * d;
      assert q * n == (q * t) * d;
      AddMultiple(q * t, d, r);
    }
  }

  lemma DividesLe(d: nat, x: nat)
    requires d > 0 && x > 0 && x % d == 0
    ensures d <= x
  {
    var t := x / d;
    assert x == t * d;
    MulAtLeast(t, d);
  }

  /** Two greatest common divisors of the same pair are equal. */
  lemma IsGcdUnique(a: nat, b: nat, g: nat, h: nat)
    requires IsGcd(a, b, g) && IsGcd(a, b, h)
    ensures g == h
  {
    assert g % h == 0 && h % g == 0;
    DividesLe(h, g);
    DividesLe(g, h);
  }

  /** Replacing `a` by `a % b` keeps the common divisors of the pair. */
  lemma ModStepAll(a: nat, b: nat)
    requires b > 0
    ensures forall d :: d > 0 ==> (CommonDivisor(d, a, b) <==> CommonDivisor(d, b, a % b))
  {
    forall d | d > 0 ensures CommonDivisor(d, a, b) <==> CommonDivisor(d, b, a % b) {
      ModStep(a, b, d);
    }
  }

  /** Euclid's algorithm as a recursive reference definition: it computes the
      greatest common divisor. */
  function GcdOf(a: nat, b: nat): (g: nat)
    ensures a > 0 || b > 0 ==> g > 0
    ensures a > 0 ==> IsGcd(a, b, g)
    decreases b
  {
    if b == 0 then a
    else
      ModStepAll(a, b);
      var g := GcdOf(b, a % b);
      assert CommonDivisor(g, b, a % b);
      g
  }

  lemma IsGcdSwap(a: nat, b: nat, g: nat)
    requires IsGcd(b, a, g)
    ensures IsGcd(a, b, g)
  {
    forall d | CommonDivisor(d, a, b) ensures g % d == 0 {
      assert CommonDivisor(d, b, a);
    }
  }

  /** The greatest common divisor does not depend on the argument order. */
  lemma GcdSymmetric(a: nat, b: nat)
    requires a > 0 && b > 0
    ensures GcdOf(a, b) == GcdOf(b, a)
  {
    IsGcdSwap(a, b, GcdOf(b, a));
    IsGcdUnique(a, b, GcdOf(a, b), GcdOf(b, a));
  }

  /** `gcd`: start from the larger and the smaller argument and replace the
      larger by its remainder modulo the smaller until it is zero.  With
      exactly one argument zero the source divides by zero. */
  method Gcd(a: nat, b: nat) returns (n: nat)
    requires (a == 0) == (b == 0)
    ensures a > 0 ==> IsGcd(a, b, n)
    ensures n == GcdOf(a, b)
  {
    var m: nat := if a >= b then a else b;
    n := if a >= b then b else a;
    while m != 0
      invariant a == 0 ==> m == 0 && n == 0
      invariant a > 0 ==> n > 0
      invariant forall d :: d > 0 ==> (CommonDivisor(d, m, n) <==> CommonDivisor(d, a, b))
      decreases m + n
    {
      if m < n {
        m, n := n, m;
      }
      forall d | d > 0 ensures CommonDivisor(d, m, n) <==> CommonDivisor(d, m % n, n) {
        ModStep(m, n, d);
      }
      m := m % n;
    }
    if a > 0 {
      assert CommonDivisor(n, m, n);
      IsGcdUnique(a, b, n, GcdOf(a, b));
    }
  }

  /** `lcm(a, b) = a * b / gcd(a, b)`: a positive common multiple. */
  function LcmOf(a: nat, b: nat): (l: nat)
    requires a > 0 && b > 0
    ensures l > 0 && l % a == 0 && l % b == 0
  {
    var g := GcdOf(a, b);
    var a', b' := a / g, b / g;
    assert a == a' * g && b == b' * g;
    assert a * b == (a' * b) * g;
    DivExact(a * b, g, a' * b);
    assert a' * b == (a' * b') * g == (a' * g) * b';
    assert a' * b == b' * a;
    DivExact(a' * b, b, a');
    DivExact(b' * a, a, b');
    MulAtLeast(a', b);
    a * b / g
  }

  lemma DivExact(x: int, d: int, q: int)
    requires d > 0 && x == q * d
    ensures x / d == q && x % d == 0
  {
    ModUnique(x, d, q, 0);
  }

  /** `lcm`, calling `gcd`. */
  method Lcm(a: nat, b: nat) returns (l: nat)
    requires a > 0 && b > 0
    ensures l == LcmOf(a, b)
    ensures l > 0 && l % a == 0 && l % b == 0
  {
    var g := Gcd(a, b);
    l := a * b / g;
  }

  /** The fold of `part_2`: the first path length, then `lcm` with each
      following one; a positive multiple of every path length. */
  function LcmFold(paths: seq<nat>): (l: nat)
    requires |paths| > 0 && forall i :: 0 <= i < |paths| ==> paths[i] > 0
    ensures l > 0
    ensures forall i :: 0 <= i < |paths| ==> l % paths[i] == 0
  {
    if |paths| == 1 then
      DivExact(paths[0], paths[0], 1);
      paths[0]
    else
      var init := paths[..|paths| - 1];
      var last := paths[|paths| - 1];
      var m := LcmFold(init);
      var l := LcmOf(m, last);
      MultiplesOf(paths, m, l);
      l
  }

  /** A multiple of a common multiple of the first paths and of the last one
      is a multiple of every path. */
  lemma MultiplesOf(paths: seq<nat>, m: nat, l: nat)
    requires |paths| > 1 && forall i :: 0 <= i < |paths| ==> paths[i] > 0
    requires m > 0 && forall i :: 0 <= i < |paths| - 1 ==> m % paths[i] == 0
    requires l > 0 && l % m == 0 && l % paths[|paths| - 1] == 0
    ensures forall i :: 0 <= i < |paths| ==> l % paths[i] == 0
  {
    forall i | 0 <= i < |paths| - 1 ensures l % paths[i] == 0 {
      DividesTrans(paths[i], m, l);
    }
  }

  lemma DividesTrans(d: nat, x: nat, y: nat)
    requires d > 0 && x > 0 && x % d == 0 && y % x == 0
    ensures y % d == 0
  {
    var s, t := x / d, y / x;
    assert x == s * d && y == t * x;
    assert y == (t * s) * d;
    DivExact(y, d, t * s);
  }

  /** The loop of `part_2`: `lcm` of the running value with each further path. */
  method FoldLcm(paths: seq<nat>) returns (steps: nat)
    requires |paths| > 0 && forall i :: 0 <= i < |paths| ==> paths[i] > 0
    ensures steps == LcmFold(paths)
  {
    steps := paths[0];
    for i := 1 to |paths|
      invariant steps == LcmFold(paths[..i])
    {
      steps := Lcm(steps, paths[i]);
      assert paths[..i + 1][..i] == paths[..i];
    }
    assert paths[..|paths|] == paths;
  }

  /** Every node is stored under its own id, as `prepare` builds the map. */
  predicate KeyedById(nodes: map<string, Node>)
  {
    forall k :: k in nodes ==> nodes[k].id == k
  }

  /** The ids of the start nodes: those ending with `A`. */
  function StartIds(nodes: map<string, Node>): set<string>
  {
    set k | k in nodes && EndsWith(nodes[k].id, "A")
  }

  /** `paths[i]` is the first stop of the walk from `starts[i]` to an id
      ending with `Z`. */
  predicate IsPaths(instructions: string, nodes: map<string, Node>, starts: seq<string>, paths: seq<nat>)
    requires |instructions| > 0
  {
    |paths| == |starts| &&
    forall i :: 0 <= i < |starts| ==> FirstStop(instructions, nodes, starts[i], "Z", paths[i])
  }

  /** `part_2`.  `starts` lists the start ids in the network's iteration
      order, which the source leaves to the hash map; the source indexes the
      first path, so there is at least one start. */
  method Part2(instructions: string, nodes: map<string, Node>, starts: seq<string>) returns (r: Option<nat>)
    requires |instructions| > 0 && Turns(instructions)
    requires KeyedById(nodes) && Lists(starts, StartIds(nodes)) && |starts| > 0
    requires forall i :: 0 <= i < |starts| ==> exists k: nat :: Stops(instructions, nodes, starts[i], "Z", k)
    ensures exists paths ::
      IsPaths(instructions, nodes, starts, paths) &&
      (forall i :: 0 <= i < |paths| ==> paths[i] > 0) &&
      r == Some(LcmFold(paths))
  {
    var paths: seq<nat> := [];
    for i := 0 to |starts|
      invariant IsPaths(instructions, nodes, starts[..i], paths)
      invariant forall j :: 0 <= j < |paths| ==> paths[j] > 0
    {
      var p := StepsFrom(instructions, nodes, starts[i], "Z");
      assert starts[i] in nodes;
      assert !Stops(instructions, nodes, starts[i], "Z", 0);
      paths := paths + [p.value];
    }
    assert starts[..|starts|] == starts;
    var steps := FoldLcm(paths);
    return Some(steps);
  }
}
