/** Hot-spring condition records (src/day12.rs).  A record is a pattern over
    `.` (operational), `#` (damaged) and `?` (unknown) and the required lengths
    of the damaged blocks, left to right.  The solution enumerates every way of
    filling the unknowns, pruning prefixes whose blocks are already too long,
    and counts the complete fillings whose blocks match the requirement. */
module Day12 {
  import opened Text

  datatype Record = Record(pattern: string, sequence: seq<nat>)

  predicate IsPatternChar(c: char) { c == '.' || c == '#' || c == '?' }

  /** The pattern alphabet; any other character reaches `unreachable!()`. */
  predicate WellFormed(p: string) { forall i :: 0 <= i < |p| ==> IsPatternChar(p[i]) }

  // ---------------------------------------------------------------------------
  // Block lengths

  /** The lengths of the non-empty pieces, in order
      (`.filter_map(|s| if s.is_empty() { None } else { Some(s.len()) })`). */
  function NonEmptyLengths(pieces: seq<string>): (r: seq<nat>)
    ensures forall i :: 0 <= i < |r| ==> r[i] > 0
  {
    if pieces == [] then []
    else
      var last := pieces[|pieces| - 1];
      NonEmptyLengths(pieces[..|pieces| - 1]) + (if |last| == 0 then [] else [|last|])
  }

  /** The block lengths exactly as the source computes them:
      split on `.`, drop the empty pieces, take the lengths. */
  function SplitBlocks(s: string): seq<nat>
  {
    NonEmptyLengths(SplitChar(s, '.'))
  }

  /** A left-to-right scan: the lengths of the blocks already closed by a `.`,
      and the length of the run still open at the end of `s`. */
  function Scan(s: string): (st: (seq<nat>, nat))
  {
    if s == [] then ([], 0)
    else
      var (closed, run) := Scan(s[..|s| - 1]);
      if s[|s| - 1] == '.' then
        if run > 0 then (closed + [run], 0) else (closed, 0)
      else (closed, run + 1)
  }

  /** The lengths of the maximal runs without `.`, from the scan: exactly the
      block lengths the source computes by splitting. */
  function Blocks(s: string): (r: seq<nat>)
    ensures r == SplitBlocks(s)
  {
    ScanIsSplit(s);
    var p := SplitChar(s, '.');
    assert p[..|p| - 1] + [p[|p| - 1]] == p;
    var (closed, run) := Scan(s);
    if run > 0 then closed + [run] else closed
  }

  /** The scan agrees with splitting: the closed blocks are the non-empty pieces
      before the last `.`, and the open run is the last piece. */
  lemma {:induction false} ScanIsSplit(s: string)
    ensures var p := SplitChar(s, '.');
      Scan(s) == (NonEmptyLengths(p[..|p| - 1]), |p[|p| - 1]|)
    decreases |s|
  {
    if s != [] {
      var s', x := s[..|s| - 1], s[|s| - 1];
      ScanIsSplit(s');
      var p', p := SplitChar(s', '.'), SplitChar(s, '.');
      var (closed, run) := Scan(s');
      if x == '.' {
        assert p[..|p| - 1] == p';
        assert closed + [] == closed;
      } else {
        assert p[..|p| - 1] == p'[..|p'| - 1];
      }
    }
  }

  /** `a` is dominated by `b`: no longer, and no larger at any index. */
  predicate Dominated(a: seq<nat>, b: seq<nat>)
  {
    |a| <= |b| && forall i :: 0 <= i < |a| ==> a[i] <= b[i]
  }

  /** One more character either closes the open block, leaving the blocks as
      they were, or lengthens the last block by one. */
  lemma {:induction false} BlocksSnoc(t: string, x: char)
    ensures Dominated(Blocks(t), Blocks(t + [x]))
  {
    var (closed, run) := Scan(t);
    assert (t + [x])[..|t|] == t;
    if x != '.' {
      var b, b' := Blocks(t), Blocks(t + [x]);
      assert b' == closed + [run + 1];
      assert forall i :: 0 <= i < |b| ==> b[i] <= b'[i];
    } else {
      assert closed + [] == closed;
    }
  }

  /** Extending a text can only close or lengthen blocks, never shorten one. */
  lemma {:induction false} BlocksGrow(s: string, k: nat)
    requires k <= |s|
    ensures Dominated(Blocks(s[..k]), Blocks(s))
    decreases |s| - k
  {
    if k < |s| {
      BlocksGrow(s, k + 1);
      assert s[..k + 1] == s[..k] + [s[k]];
      BlocksSnoc(s[..k], s[k]);
    } else {
      assert s[..k] == s;
    }
  }

  // ---------------------------------------------------------------------------
  // The checks

  /** No block is longer than the requirement at its index; blocks past the end
      of the requirement are never rejected. */
  predicate Admissible(r: Record, permutation: string)
  {
    var blocks := SplitBlocks(permutation);
    forall i :: 0 <= i < |blocks| && i < |r.sequence| ==> blocks[i] <= r.sequence[i]
  }

  /** `Record::check_partial`: walks the blocks and the requirement together and
      gives up at the first block longer than its requirement. */
  method CheckPartial(r: Record, permutation: string) returns (res: Option<string>)
    ensures res == if Admissible(r, permutation) then Some(permutation) else None
  {
    var sequence := SplitBlocks(permutation);
    for i := 0 to |sequence|
      invariant forall k :: 0 <= k < i && k < |r.sequence| ==> sequence[k] <= r.sequence[k]
    {
      if i < |r.sequence| {
        if sequence[i] > r.sequence[i] {
          return None;
        }
      }
    }
    return Some(permutation);
  }

  /** `Record::check_permutation` */
  predicate CheckPermutation(r: Record, permutation: string)
  {
    SplitBlocks(permutation) == r.sequence
  }

  /** A prefix that `check_partial` rejects never extends to a filling that
      `check_permutation` accepts, so pruning loses no arrangement. */
  lemma {:induction false} PruneSound(r: Record, f: string, k: nat)
    requires CheckPermutation(r, f) && k <= |f|
    ensures Admissible(r, f[..k])
  {
    BlocksGrow(f, k);
  }

  // ---------------------------------------------------------------------------
  // Enumeration

  /** A `.` or `#` in the pattern is appended to every option. */
  function Extend(opts: seq<string>, c: char): seq<string>
  {
    seq(|opts|, i requires 0 <= i < |opts| => opts[i] + [c])
  }

  /** A `?` forks every option, in order, into its `.` and `#` extensions,
      each kept only if `check_partial` accepts it. */
  function Fork(r: Record, opts: seq<string>): seq<string>
  {
    if opts == [] then []
    else
      Fork(r, opts[..|opts| - 1]) + Branch(r, opts[|opts| - 1])
  }

  /** The extensions of one option that survive at a `?`. */
  function Branch(r: Record, opt: string): seq<string>
  {
    (if Admissible(r, opt + ".") then [opt + "."] else [])
    + (if Admissible(r, opt + "#") then [opt + "#"] else [])
  }

  /** The options after reading the pattern `p`. */
  function Options(r: Record, p: string): seq<string>
    requires WellFormed(p)
  {
    if p == [] then [""]
    else
      var c := p[|p| - 1];
      var prev := Options(r, p[..|p| - 1]);
      if c == '?' then Fork(r, prev) else Extend(prev, c)
  }

  /** The fold `collect_permutations` runs at a `?`: each option, in order,
      contributes its `.` and then its `#` extension if `check_partial` keeps it. */
  method ForkOptions(r: Record, options: seq<string>) returns (opts: seq<string>)
    ensures opts == Fork(r, options)
  {
    opts := [];
    for j := 0 to |options|
      invariant opts == Fork(r, options[..j])
    {
      var opt := options[j];
      assert options[..j + 1][..j] == options[..j];
      var dot := CheckPartial(r, opt + ".");
      if dot.Some? {
        opts := opts + [dot.value];
      }
      var hash := CheckPartial(r, opt + "#");
      if hash.Some? {
        opts := opts + [hash.value];
      }
    }
    assert options[..|options|] == options;
  }

  /** `Record::collect_permutations` */
  method CollectPermutations(r: Record) returns (options: seq<string>)
    requires WellFormed(r.pattern)
    ensures options == Options(r, r.pattern)
  {
    var p := r.pattern;
    options := [""];
    for i := 0 to |p|
      invariant options == Options(r, p[..i])
    {
      var ch := p[i];
      assert p[..i + 1][..i] == p[..i];
      if ch == '?' {
        options := ForkOptions(r, options);
      } else {
        options := Extend(options, ch);
      }
    }
    assert p[..|p|] == p;
  }

  // ---------------------------------------------------------------------------
  // What the options are

  /** `f` fills `p`: same length, equal at `.`/`#`, and `.` or `#` at each `?`. */
  predicate Fits(f: string, p: string)
  {
    |f| == |p| &&
    forall i :: 0 <= i < |p| ==> if p[i] == '?' then f[i] == '.' || f[i] == '#' else f[i] == p[i]
  }

  /** Every prefix of `f` ending at a `?` of `p` passed `check_partial`. */
  predicate Survives(r: Record, f: string, p: string)
    requires |f| == |p|
  {
    forall i :: 0 <= i < |p| && p[i] == '?' ==> Admissible(r, f[..i + 1])
  }

  lemma {:induction false} ExtendMembers(opts: seq<string>, c: char, f: string)
    ensures f in Extend(opts, c) <==> |f| > 0 && f[..|f| - 1] in opts && f[|f| - 1] == c
  {
    if |f| > 0 && f[..|f| - 1] in opts && f[|f| - 1] == c {
      var i :| 0 <= i < |opts| && opts[i] == f[..|f| - 1];
      assert Extend(opts, c)[i] == f;
    }
  }

  lemma BranchMembers(r: Record, opt: string, f: string)
    ensures f in Branch(r, opt) <==>
              |f| > 0 && f[..|f| - 1] == opt && (f[|f| - 1] == '.' || f[|f| - 1] == '#') &&
              Admissible(r, f)
  {
    if |f| > 0 && f[..|f| - 1] == opt {
      assert f == opt + [f[|f| - 1]];
    }
    if f == opt + "." || f == opt + "#" {
      assert f[..|f| - 1] == opt;
    }
  }

  lemma ForkSnoc(r: Record, init: seq<string>, opt: string, f: string)
    ensures f in Fork(r, init + [opt]) <==> f in Fork(r, init) || f in Branch(r, opt)
  {
    assert (init + [opt])[..|init|] == init;
    assert Fork(r, init + [opt]) == Fork(r, init) + Branch(r, opt);
  }

  lemma InSnoc(init: seq<string>, last: string, x: string)
    ensures x in init + [last] <==> x in init || x == last
  {
  }

  lemma {:induction false} ForkMembers(r: Record, opts: seq<string>, f: string)
    ensures f in Fork(r, opts) <==>
              |f| > 0 && f[..|f| - 1] in opts && (f[|f| - 1] == '.' || f[|f| - 1] == '#') &&
              Admissible(r, f)
  {
    if opts != [] {
      var opt := opts[|opts| - 1];
      var init := opts[..|opts| - 1];
      assert opts == init + [opt];
      ForkSnoc(r, init, opt, f);
      if |f| > 0 {
        var parent := f[..|f| - 1];
        var shape := (f[|f| - 1] == '.' || f[|f| - 1] == '#') && Admissible(r, f);
        ForkMembers(r, init, f);
        assert f in Fork(r, init) <==> parent in init && shape;
        BranchMembers(r, opt, f);
        assert f in Branch(r, opt) <==> parent == opt && shape;
        InSnoc(init, opt, parent);
        assert parent in opts <==> parent in init || parent == opt;
      } else {
        ForkMembers(r, init, f);
        BranchMembers(r, opt, f);
      }
    }
  }

  /** The character a filling may hold where the pattern holds `c`. */
  predicate FillsChar(x: char, c: char)
  {
    if c == '?' then x == '.' || x == '#' else x == c
  }

  lemma {:induction false} FitsSnoc(f: string, p: string)
    requires |f| > 0 && |p| > 0
    ensures Fits(f, p) <==>
              Fits(f[..|f| - 1], p[..|p| - 1]) && FillsChar(f[|f| - 1], p[|p| - 1])
  {
  }

  lemma {:induction false} SurvivesSnoc(r: Record, f: string, p: string)
    requires |f| == |p| > 0
    ensures Survives(r, f, p) <==>
              Survives(r, f[..|f| - 1], p[..|p| - 1]) && (p[|p| - 1] == '?' ==> Admissible(r, f))
  {
    var g, q := f[..|f| - 1], p[..|p| - 1];
    assert f[..|p|] == f;
    forall i | 0 <= i < |q|
      ensures q[i] == '?' ==> Admissible(r, f[..i + 1]) == Admissible(r, g[..i + 1])
    {
      assert f[..i + 1] == g[..i + 1];
    }
  }

  /** The options are exactly the fillings of the pattern whose every prefix
      ending at a `?` survived pruning. */
  lemma {:induction false} OptionsExactly(r: Record, p: string, f: string)
    requires WellFormed(p)
    ensures f in Options(r, p) <==> Fits(f, p) && Survives(r, f, p)
    decreases |p|
  {
    if p == [] {
      assert Fits(f, p) ==> f == "";
    } else {
      var q, c := p[..|p| - 1], p[|p| - 1];
      var prev := Options(r, q);
      if c == '?' {
        ForkMembers(r, prev, f);
      } else {
        ExtendMembers(prev, c, f);
      }
      if |f| > 0 {
        var g := f[..|f| - 1];
        OptionsExactly(r, q, g);
        FitsSnoc(f, p);
        if |f| == |p| {
          SurvivesSnoc(r, f, p);
        }
      }
    }
  }

  predicate Distinct(s: seq<string>)
  {
    forall i, j :: 0 <= i < j < |s| ==> s[i] != s[j]
  }

  /** Each `?` extends one option with two different characters, so no filling
      is produced twice. */
  lemma {:induction false} OptionsDistinct(r: Record, p: string)
    requires WellFormed(p)
    ensures Distinct(Options(r, p))
    decreases |p|
  {
    if p != [] {
      var q, c := p[..|p| - 1], p[|p| - 1];
      OptionsDistinct(r, q);
      var prev := Options(r, q);
      if c == '?' {
        ForkDistinct(r, prev);
      } else {
        var ext := Extend(prev, c);
        forall i, j | 0 <= i < j < |ext| ensures ext[i] != ext[j] {
          assert ext[i] == prev[i] + [c] && ext[j] == prev[j] + [c];
          assert ext[i][..|prev[i]|] == prev[i];
        }
      }
    }
  }

  lemma {:induction false} ForkDistinct(r: Record, opts: seq<string>)
    requires Distinct(opts)
    ensures Distinct(Fork(r, opts))
  {
    if opts != [] {
      var opt := opts[|opts| - 1];
      var init := opts[..|opts| - 1];
      ForkDistinct(r, init);
      var head := Fork(r, init);
      var tail := Branch(r, opt);
      assert opt !in init;
      forall f | f in tail ensures f !in head {
        assert f[..|f| - 1] == opt;
        ForkMembers(r, init, f);
      }
      assert Distinct(tail) by {
        if |tail| == 2 {
          assert tail[0][|opt|] == '.' && tail[1][|opt|] == '#';
        }
      }
      var all := head + tail;
      assert all == Fork(r, opts);
      forall i, j | 0 <= i < j < |all| ensures all[i] != all[j] {
        if j < |head| {
          assert all[i] == head[i] && all[j] == head[j];
        } else if i >= |head| {
          assert all[i] == tail[i - |head|] && all[j] == tail[j - |head|];
        } else {
          assert all[i] == head[i] && all[j] == tail[j - |head|];
          assert tail[j - |head|] in tail && tail[j - |head|] !in head;
        }
      }
    }
  }

  // ---------------------------------------------------------------------------
  // The specification: all fillings, counted

  function Choices(c: char): set<char>
  {
    if c == '?' then {'.', '#'} else {c}
  }

  /** Every way of filling the unknowns of `p`, with no pruning. */
  function Fillings(p: string): set<string>
  {
    if p == [] then {[]}
    else set f, x | f in Fillings(p[..|p| - 1]) && x in Choices(p[|p| - 1]) :: f + [x]
  }

  lemma {:induction false} FillingsExactly(p: string, f: string)
    ensures f in Fillings(p) <==> Fits(f, p)
    decreases |p|
  {
    if p == [] {
      assert Fits(f, p) ==> f == [];
    } else {
      var q, c := p[..|p| - 1], p[|p| - 1];
      if |f| > 0 {
        var g, x := f[..|f| - 1], f[|f| - 1];
        FillingsExactly(q, g);
        assert f == g + [x];
        assert Fits(f, p) ==> Fits(g, q);
      }
      if f in Fillings(p) {
        var g, x :| g in Fillings(q) && x in Choices(c) && f == g + [x];
        FillingsExactly(q, g);
        assert f[..|f| - 1] == g;
      }
    }
  }

  /** The number of arrangements of a record: the fillings of its pattern whose
      block lengths equal its requirement. */
  function Arrangements(r: Record): nat
  {
    |Solutions(r)|
  }

  /** The fillings of the pattern whose block lengths equal the requirement. */
  function Solutions(r: Record): set<string>
  {
    set f | f in Fillings(r.pattern) && CheckPermutation(r, f)
  }

  /** `.filter(|perm| record.check_permutation(perm)).count()` */
  function CountValid(r: Record, opts: seq<string>): nat
  {
    if opts == [] then 0
    else CountValid(r, opts[..|opts| - 1]) + (if CheckPermutation(r, opts[|opts| - 1]) then 1 else 0)
  }

  /** The options that `check_permutation` accepts, as a set. */
  function Accepted(r: Record, opts: seq<string>): set<string>
  {
    set f | f in opts && CheckPermutation(r, f)
  }

  lemma AcceptedSnoc(r: Record, init: seq<string>, last: string)
    ensures Accepted(r, init + [last]) ==
              Accepted(r, init) + (if CheckPermutation(r, last) then {last} else {})
  {
  }

  lemma {:induction false} CountDistinct(r: Record, opts: seq<string>)
    requires Distinct(opts)
    ensures CountValid(r, opts) == |Accepted(r, opts)|
  {
    if opts != [] {
      var init, last := opts[..|opts| - 1], opts[|opts| - 1];
      CountDistinct(r, init);
      assert opts == init + [last];
      AcceptedSnoc(r, init, last);
      assert last !in Accepted(r, init);
    }
  }

  /** The enumeration with pruning, filtered by `check_permutation`, counts
      exactly the arrangements of the record. */
  lemma {:induction false} OptionsCountArrangements(r: Record)
    requires WellFormed(r.pattern)
    ensures CountValid(r, Options(r, r.pattern)) == Arrangements(r)
  {
    OptionsDistinct(r, r.pattern);
    CountDistinct(r, Options(r, r.pattern));
    forall f ensures f in Accepted(r, Options(r, r.pattern)) <==> f in Solutions(r) {
      AcceptedIsSolution(r, f);
    }
    assert Accepted(r, Options(r, r.pattern)) == Solutions(r);
  }

  /** An option passes `check_permutation` exactly when it is a solution:
      pruning drops no solution and the options hold nothing else. */
  lemma AcceptedIsSolution(r: Record, f: string)
    requires WellFormed(r.pattern)
    ensures f in Accepted(r, Options(r, r.pattern)) <==> f in Solutions(r)
  {
    var p := r.pattern;
    OptionsExactly(r, p, f);
    FillingsExactly(p, f);
    if CheckPermutation(r, f) && Fits(f, p) {
      forall i | 0 <= i < |p| && p[i] == '?' ensures Admissible(r, f[..i + 1]) {
        PruneSound(r, f, i + 1);
      }
    }
  }

  /** A pattern with no `?` has exactly one option: itself. */
  lemma {:induction false} NoUnknownsSingleOption(r: Record, p: string)
    requires WellFormed(p) && '?' !in p
    ensures Options(r, p) == [p]
    decreases |p|
  {
    if p != [] {
      var q := p[..|p| - 1];
      assert p == q + [p[|p| - 1]];
      NoUnknownsSingleOption(r, q);
    }
  }

  /** A record without unknowns has one arrangement if its blocks already match
      and none otherwise. */
  lemma {:induction false} NoUnknownsArrangements(r: Record)
    requires WellFormed(r.pattern) && '?' !in r.pattern
    ensures Arrangements(r) == if CheckPermutation(r, r.pattern) then 1 else 0
  {
    NoUnknownsSingleOption(r, r.pattern);
    OptionsCountArrangements(r);
    assert [r.pattern][..0] == [];
  }

  // ---------------------------------------------------------------------------
  // Unfolding and the two parts

  /** `Record::to_long`: five copies of the pattern joined by `?`, and five
      copies of the requirement. */
  function ToLong(r: Record): (l: Record)
    ensures |l.pattern| == 5 * |r.pattern| + 4
    ensures Sum(l.sequence) == 5 * Sum(r.sequence)
    ensures WellFormed(r.pattern) ==> WellFormed(l.pattern)
  {
    var p, s := r.pattern, r.sequence;
    var l := Record(Join([p, p, p, p, p], "?"), Concat([s, s, s, s, s]));
    assert l.pattern == p + "?" + p + "?" + p + "?" + p + "?" + p by {
      assert [p, p][1..] == [p];
      assert Join([p, p], "?") == p + "?" + p;
      assert [p, p, p][1..] == [p, p];
      assert Join([p, p, p], "?") == p + "?" + p + "?" + p;
      assert [p, p, p, p][1..] == [p, p, p];
      assert Join([p, p, p, p], "?") == p + "?" + p + "?" + p + "?" + p;
      assert [p, p, p, p, p][1..] == [p, p, p, p];
    }
    assert l.sequence == s + s + s + s + s by {
      assert [s][1..] == [];
      assert Concat([s]) == s;
      assert [s, s][1..] == [s];
      assert Concat([s, s]) == s + s;
      assert [s, s, s][1..] == [s, s];
      assert Concat([s, s, s]) == s + s + s;
      assert [s, s, s, s][1..] == [s, s, s];
      assert Concat([s, s, s, s]) == s + s + s + s;
      assert [s, s, s, s, s][1..] == [s, s, s, s];
    }
    SumAppend(s, s);
    SumAppend(s + s, s);
    SumAppend(s + s + s, s);
    SumAppend(s + s + s + s, s);
    l
  }

  /** The sum of the arrangements of every record. */
  function TotalArrangements(rs: seq<Record>): nat
  {
    if rs == [] then 0 else TotalArrangements(rs[..|rs| - 1]) + Arrangements(rs[|rs| - 1])
  }

  /** The sum of the arrangements of every unfolded record. */
  function TotalLongArrangements(rs: seq<Record>): nat
  {
    if rs == [] then 0 else TotalLongArrangements(rs[..|rs| - 1]) + Arrangements(ToLong(rs[|rs| - 1]))
  }

  /** Counts the options that pass `check_permutation`. */
  method CountPermutations(r: Record, options: seq<string>) returns (valid: nat)
    ensures valid == CountValid(r, options)
  {
    valid := 0;
    for j := 0 to |options|
      invariant valid == CountValid(r, options[..j])
    {
      assert options[..j + 1][..j] == options[..j];
      if CheckPermutation(r, options[j]) {
        valid := valid + 1;
      }
    }
    assert options[..|options|] == options;
  }

  /** `part_1`: the total number of arrangements over all records. */
  method Part1(input: seq<Record>) returns (count: nat)
    requires forall i :: 0 <= i < |input| ==> WellFormed(input[i].pattern)
    ensures count == TotalArrangements(input)
  {
    count := 0;
    for i := 0 to |input|
      invariant count == TotalArrangements(input[..i])
    {
      var record := input[i];
      var options := CollectPermutations(record);
      var valid := CountPermutations(record, options);
      OptionsCountArrangements(record);
      assert input[..i + 1][..i] == input[..i];
      count := count + valid;
    }
    assert input[..|input|] == input;
  }

  /** `part_2`: the total number of arrangements over all unfolded records. */
  method Part2(input: seq<Record>) returns (count: nat)
    requires forall i :: 0 <= i < |input| ==> WellFormed(input[i].pattern)
    ensures count == TotalLongArrangements(input)
  {
    count := 0;
    for i := 0 to |input|
      invariant count == TotalLongArrangements(input[..i])
    {
      var longRecord := ToLong(input[i]);
      var options := CollectPermutations(longRecord);
      var valid := CountPermutations(longRecord, options);
      OptionsCountArrangements(longRecord);
      assert input[..i + 1][..i] == input[..i];
      count := count + valid;
    }
    assert input[..|input|] == input;
  }

  // ---------------------------------------------------------------------------
  // Parsing

  /** One line of input: the pattern, a space, and comma-separated lengths. */
  function ParseRecord(line: string): (r: Option<Record>)
    ensures r.Some? ==> Contains(line, " ") && !Contains(r.value.pattern, " ")
    ensures r.None? <==> SplitOnce(line, " ").None? || ParseAllNats(Split(SplitOnce(line, " ").value.1, ",")).None?
    ensures r.Some? ==> exists rest :: SplitOnce(line, " ") == Some((r.value.pattern, rest)) && ParseAllNats(Split(rest, ",")) == Some(r.value.sequence)
  {
    match SplitOnce(line, " ")
    case None => None
    case Some((pattern, rest)) =>
      match ParseAllNats(Split(rest, ","))
      case None => None
      case Some(sequence) => Some(Record(pattern, sequence))
  }

  /** How a record is written in the input. */
  function ShowRecord(r: Record): string
  {
    r.pattern + " " + Join(Shown(r.sequence), ",")
  }

  /** The comma-separated lengths read back. */
  lemma ParseShownLengths(ns: seq<nat>)
    requires |ns| > 0
    ensures ParseAllNats(Split(Join(Shown(ns), ","), ",")) == Some(ns)
  {
    var shown := Shown(ns);
    forall k | 0 <= k < |shown| ensures ',' !in shown[k] {
      assert AllDigits(shown[k]);
    }
    SplitJoin(shown, ',');
    forall i | 0 <= i < |shown| ensures ParseNat(shown[i]) == Some(ns[i]) {
      ParseShowNat(ns[i]);
    }
    var parsed := ParseAllNats(shown);
    assert parsed.Some?;
    assert parsed.value == ns;
  }

  /** Parsing reads back a written record whose pattern has no space and whose
      requirement is not empty. */
  lemma ParseShowRecord(r: Record)
    requires |r.sequence| > 0 && ' ' !in r.pattern
    ensures ParseRecord(ShowRecord(r)) == Some(r)
  {
    SplitOnceAt(r.pattern, ' ', Join(Shown(r.sequence), ","));
    ParseShownLengths(r.sequence);
  }

  /** `prepare`, after reading the lines: every line must parse. */
  function Prepare(lines: seq<string>): (r: Option<seq<Record>>)
    ensures r.Some? <==> forall i :: 0 <= i < |lines| ==> ParseRecord(lines[i]).Some?
    ensures r.Some? ==>
              |r.value| == |lines| &&
              forall i :: 0 <= i < |lines| ==> ParseRecord(lines[i]) == Some(r.value[i])
  {
    ParseEach(ParseRecord, lines)
  }
}
