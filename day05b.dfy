/** The almanac again, read into an ordered list of named tables
    (src/day05b.rs).  A range maps `[input.0, input.1)` onto
    `[output.0, output.1)` by offset; a table applies its first range that
    covers the value. */
module Day05b {
  import opened Text
  import Day05

  datatype ConversionRange = ConversionRange(input: (nat, nat), output: (nat, nat))

  datatype ConversionTable = ConversionTable(id: string, conversions: seq<ConversionRange>)

  /** `from_str`: destination, source and length; `None` where the source
      panics on a line with fewer than three numbers. */
  function FromStr(s: string): (r: Option<ConversionRange>)
    ensures var values := ParsedNats(Words(s));
      r.Some? <==> |values| >= 3
    ensures r.Some? ==> r.value.input.1 - r.value.input.0 == r.value.output.1 - r.value.output.0 >= 0
  {
    var values := ParsedNats(Words(s));
    if |values| < 3 then None
    else Some(ConversionRange((values[1], values[1] + values[2]), (values[0], values[0] + values[2])))
  }

  /** The range a `(destination, source, length)` triple describes. */
  function FromTriple(t: Day05.Triple): ConversionRange
  {
    ConversionRange((t.1, t.1 + t.2), (t.0, t.0 + t.2))
  }

  /** `ConversionRange::convert` */
  function RangeConvert(c: ConversionRange, value: nat): (r: Option<nat>)
    ensures r.Some? <==> c.input.0 <= value < c.input.1
    ensures r.Some? ==> r.value - c.output.0 == value - c.input.0
  {
    if c.input.0 <= value && value < c.input.1 then Some(value - c.input.0 + c.output.0) else None
  }

  /** A range agrees with the triple it was read from. */
  lemma RangeAgrees(t: Day05.Triple, value: nat)
    ensures RangeConvert(FromTriple(t), value) == Day05.Convert(t, value)
  {
  }

  /** The first range that covers the value decides; otherwise the value is kept. */
  function FirstMatch(conversions: seq<ConversionRange>, value: nat): nat
  {
    if conversions == [] then value
    else
      match RangeConvert(conversions[0], value)
      case Some(v) => v
      case None => FirstMatch(conversions[1..], value)
  }

  /** `ConversionTable::convert`: the loop with an early exit; it never
      returns `None`. */
  method TableConvert(t: ConversionTable, value: nat) returns (r: Option<nat>)
    ensures r == Some(FirstMatch(t.conversions, value))
  {
    for i := 0 to |t.conversions|
      invariant FirstMatch(t.conversions, value) == FirstMatch(t.conversions[i..], value)
    {
      assert t.conversions[i..][1..] == t.conversions[i + 1..];
      var converted := RangeConvert(t.conversions[i], value);
      if converted.Some? {
        return Some(converted.value);
      }
    }
    return Some(value);
  }

  /** A table built from a chain of triples converts exactly as the chain. */
  lemma {:induction false} FirstMatchAgrees(chain: seq<Day05.Triple>, value: nat)
    ensures FirstMatch(seq(|chain|, k requires 0 <= k < |chain| => FromTriple(chain[k])), value) ==
            Day05.ConvertChain(chain, value)
  {
    if chain != [] {
      var ranges := seq(|chain|, k requires 0 <= k < |chain| => FromTriple(chain[k]));
      assert ranges[1..] == seq(|chain[1..]|, k requires 0 <= k < |chain[1..]| => FromTriple(chain[1..][k]));
      RangeAgrees(chain[0], value);
      FirstMatchAgrees(chain[1..], value);
    }
  }

  /** The fold of `part_1` and `part_2`: every table in order. */
  function Pipeline(tables: seq<ConversionTable>, seed: nat): nat
  {
    if tables == [] then seed else Pipeline(tables[1..], FirstMatch(tables[0].conversions, seed))
  }

  /** Tables read from the same triples as the chains compute the same
      location as the chains. */
  lemma {:induction false} PipelineAgrees(tables: seq<ConversionTable>, chains: seq<seq<Day05.Triple>>, seed: nat)
    requires |tables| == |chains|
    requires forall k :: 0 <= k < |tables| ==>
      tables[k].conversions == seq(|chains[k]|, j requires 0 <= j < |chains[k]| => FromTriple(chains[k][j]))
    ensures Pipeline(tables, seed) == Day05.Compose(chains, seed)
  {
    if tables != [] {
      FirstMatchAgrees(chains[0], seed);
      PipelineAgrees(tables[1..], chains[1..], FirstMatch(tables[0].conversions, seed));
    }
  }

  // ---------------------------------------------------------------------------
  // Reading the almanac

  /** The state of the `prepare` loop: the seeds, the finished tables and the
      table being filled, which starts as a placeholder with an empty id. */
  datatype Builder = Builder(seeds: seq<nat>, tables: seq<ConversionTable>, current: ConversionTable)

  const Start := Builder([], [], ConversionTable("", []))

  predicate IsHeader(line: string)
  {
    |line| > 0 && !StartsWith(line, "seeds:") && Contains(line, ":")
  }

  /** One pass of the loop; `None` where the source panics: a header with no
      space, or a conversion line with fewer than three numbers.  A table
      whose id is empty is not kept when the next header arrives. */
  function ReadLine(b: Builder, line: string): Option<Builder>
  {
    if |line| == 0 then Some(b)
    else if StartsWith(line, "seeds:") then
      match SplitOnce(line, ":")
      case None => None
      case Some((_, seedText)) => Some(b.(seeds := ParsedNats(Words(Trim(seedText)))))
    else if Contains(line, ":") then
      match SplitOnce(line, " ")
      case None => None
      case Some((header, _)) =>
        var tables := if b.current.id != "" then b.tables + [b.current] else b.tables;
        Some(b.(tables := tables, current := ConversionTable(header, [])))
    else
      match FromStr(line)
      case None => None
      case Some(range) => Some(b.(current := b.current.(conversions := b.current.conversions + [range])))
  }

  function ReadLines(lines: seq<string>): Option<Builder>
  {
    if lines == [] then Some(Start)
    else
      match ReadLines(lines[..|lines| - 1])
      case None => None
      case Some(b) => ReadLine(b, lines[|lines| - 1])
  }

  /** `prepare`: the seeds and the tables, the last one pushed after the loop. */
  method Prepare(lines: seq<string>) returns (r: Option<(seq<nat>, seq<ConversionTable>)>)
    ensures r == match ReadLines(lines)
                 case None => None
                 case Some(b) => Some((b.seeds, b.tables + [b.current]))
  {
    var seeds: seq<nat> := [];
    var tables: seq<ConversionTable> := [];
    var current := ConversionTable("", []);
    for i := 0 to |lines|
      invariant ReadLines(lines[..i]) == Some(Builder(seeds, tables, current))
    {
      var line := lines[i];
      assert lines[..i + 1][..i] == lines[..i];
      if |line| == 0 {
        continue;
      }
      if StartsWith(line, "seeds:") {
        var split := SplitOnce(line, ":");
        if split.None? {
          PrefixFails(lines, i + 1);
          return None;
        }
        seeds := ParsedNats(Words(Trim(split.value.1)));
        continue;
      }
      if Contains(line, ":") {
        if current.id != "" {
          tables := tables + [current];
        }
        var split := SplitOnce(line, " ");
        if split.None? {
          PrefixFails(lines, i + 1);
          return None;
        }
        current := ConversionTable(split.value.0, []);
        continue;
      }
      var range := FromStr(line);
      if range.None? {
        PrefixFails(lines, i + 1);
        return None;
      }
      current := current.(conversions := current.conversions + [range.value]);
    }
    assert lines[..|lines|] == lines;
    return Some((seeds, tables + [current]));
  }

  lemma {:induction false} PrefixFails(lines: seq<string>, n: nat)
    requires n <= |lines| && ReadLines(lines[..n]) == None
    ensures ReadLines(lines) == None
    decreases |lines| - n
  {
    if n < |lines| {
      assert lines[..n + 1][..n] == lines[..n];
      PrefixFails(lines, n + 1);
    } else {
      assert lines[..n] == lines;
    }
  }

  /** The id each header line gives its table, in input order. */
  function HeaderIds(lines: seq<string>): seq<string>
  {
    if lines == [] then []
    else
      var line := lines[|lines| - 1];
      HeaderIds(lines[..|lines| - 1]) +
        (if IsHeader(line) && SplitOnce(line, " ").Some? then [SplitOnce(line, " ").value.0] else [])
  }

  function Ids(tables: seq<ConversionTable>): (r: seq<string>)
    ensures |r| == |tables| && forall k :: 0 <= k < |tables| ==> r[k] == tables[k].id
  {
    if tables == [] then [] else Ids(tables[..|tables| - 1]) + [tables[|tables| - 1].id]
  }

  /** While reading, the kept tables and the current one carry the header ids
      in order, provided no header id is empty. */
  lemma {:induction false} BuilderIds(lines: seq<string>)
    requires ReadLines(lines).Some?
    requires forall id :: id in HeaderIds(lines) ==> id != ""
    ensures var b := ReadLines(lines).value;
      if HeaderIds(lines) == [] then b.tables == [] && b.current.id == ""
      else Ids(b.tables) + [b.current.id] == HeaderIds(lines)
  {
    if lines != [] {
      var init := lines[..|lines| - 1];
      var line := lines[|lines| - 1];
      assert ReadLines(init).Some?;
      assert HeaderIds(init) <= HeaderIds(lines);
      forall id | id in HeaderIds(init) ensures id != "" {
        assert id in HeaderIds(lines);
      }
      BuilderIds(init);
      var b := ReadLines(init).value;
      var b' := ReadLines(lines).value;
      assert ReadLine(b, line) == Some(b');
      if IsHeader(line) {
        HeaderLineIds(b, line, HeaderIds(init));
        assert HeaderIds(lines) == HeaderIds(init) + [SplitOnce(line, " ").value.0];
      } else {
        assert HeaderIds(lines) == HeaderIds(init);
        assert b'.tables == b.tables && b'.current.id == b.current.id;
      }
    }
  }

  /** A header line closes the current table, unless it is the placeholder,
      and opens one under the header's first word. */
  lemma HeaderLineIds(b: Builder, line: string, ids: seq<string>)
    requires IsHeader(line) && ReadLine(b, line).Some?
    requires if ids == [] then b.tables == [] && b.current.id == "" else Ids(b.tables) + [b.current.id] == ids
    requires forall id :: id in ids ==> id != ""
    ensures Ids(ReadLine(b, line).value.tables) + [ReadLine(b, line).value.current.id] ==
            ids + [SplitOnce(line, " ").value.0]
  {
    if ids != [] {
      assert b.current.id in ids;
      assert Ids(b.tables + [b.current]) == Ids(b.tables) + [b.current.id];
    }
  }

  /** With at least one header and no empty header id, `prepare` returns one
      table per header, in input order, under the header's first word. */
  lemma PrepareIds(lines: seq<string>)
    requires ReadLines(lines).Some?
    requires HeaderIds(lines) != [] && forall id :: id in HeaderIds(lines) ==> id != ""
    ensures var b := ReadLines(lines).value;
      Ids(b.tables + [b.current]) == HeaderIds(lines)
  {
    BuilderIds(lines);
    var b := ReadLines(lines).value;
    assert Ids(b.tables + [b.current]) == Ids(b.tables) + [b.current.id];
  }

  /** A line `from_str` parses as a range, outside any header or seeds line. */
  predicate RangeLine(line: string)
  {
    |line| > 0 && !StartsWith(line, "seeds:") && !Contains(line, ":") && FromStr(line).Some?
  }

  /** Range lines before any header all go into the placeholder table, whose
      id is empty. */
  lemma {:induction false} PlaceholderRun(pre: seq<string>)
    requires forall k :: 0 <= k < |pre| ==> RangeLine(pre[k])
    ensures ReadLines(pre).Some?
    ensures var b := ReadLines(pre).value;
      b.seeds == [] && b.tables == [] && b.current.id == "" && |b.current.conversions| == |pre|
  {
    if pre != [] {
      PlaceholderRun(pre[..|pre| - 1]);
    }
  }

  /** Any run of range lines before the first header goes into the
      placeholder, which that header then drops: no table is kept and the new
      current table starts empty under the header's id. */
  lemma PlaceholderDropped(pre: seq<string>, header: string)
    requires forall k :: 0 <= k < |pre| ==> RangeLine(pre[k])
    requires IsHeader(header) && SplitOnce(header, " ").Some?
    ensures ReadLines(pre + [header]).Some?
    ensures var b := ReadLines(pre + [header]).value;
      b.tables == [] && b.current == ConversionTable(SplitOnce(header, " ").value.0, [])
  {
    PlaceholderRun(pre);
    assert (pre + [header])[..|pre|] == pre;
  }

  // ---------------------------------------------------------------------------
  // The two parts

  /** `part_1`: the lowest location of any seed; `min().unwrap()` needs a seed. */
  method Part1(seeds: seq<nat>, tables: seq<ConversionTable>) returns (lowest: nat)
    requires |seeds| > 0
    ensures exists i :: 0 <= i < |seeds| && lowest == Pipeline(tables, seeds[i])
    ensures forall i :: 0 <= i < |seeds| ==> lowest <= Pipeline(tables, seeds[i])
  {
    var locations: seq<nat> := [];
    for i := 0 to |seeds|
      invariant |locations| == i
      invariant forall k :: 0 <= k < i ==> locations[k] == Pipeline(tables, seeds[k])
    {
      locations := locations + [Pipeline(tables, seeds[i])];
    }
    lowest := Minimum(locations);
  }

  /** The locations of the seeds `start`, …, `start + len - 1`. */
  function RangeLocations(tables: seq<ConversionTable>, start: nat, len: nat): (r: seq<nat>)
    ensures |r| == len && forall k :: 0 <= k < len ==> r[k] == Pipeline(tables, start + k)
  {
    if len == 0 then [] else RangeLocations(tables, start, len - 1) + [Pipeline(tables, start + len - 1)]
  }

  /** The values of every seed of every `(start, length)` pair, pair by
      pair: one per seed the pairs name. */
  function PairLocations(tables: seq<ConversionTable>, seeds: seq<nat>): (r: seq<nat>)
    requires |seeds| % 2 == 0
    ensures |r| == Day05.RangeTotal(seeds)
  {
    if seeds == [] then []
    else
      var n := |seeds|;
      PairLocations(tables, seeds[..n - 2]) + RangeLocations(tables, seeds[n - 2], seeds[n - 1])
  }

  /** Every pair location is the location of a seed in some pair's range. */
  lemma {:induction false} PairLocationsSound(tables: seq<ConversionTable>, seeds: seq<nat>, x: nat)
    requires |seeds| % 2 == 0 && x in PairLocations(tables, seeds)
    ensures exists c, seed :: 0 <= c < |seeds| / 2 && seeds[2 * c] <= seed < seeds[2 * c] + seeds[2 * c + 1] &&
                              x == Pipeline(tables, seed)
  {
    var n := |seeds|;
    var init := seeds[..n - 2];
    var range := RangeLocations(tables, seeds[n - 2], seeds[n - 1]);
    if x in range {
      var k :| 0 <= k < |range| && range[k] == x;
      var c, seed := n / 2 - 1, seeds[n - 2] + k;
      assert 2 * c == n - 2;
      assert seeds[2 * c] <= seed < seeds[2 * c] + seeds[2 * c + 1] && x == Pipeline(tables, seed);
    } else {
      PairLocationsSound(tables, init, x);
      var c, seed :| 0 <= c < |init| / 2 && init[2 * c] <= seed < init[2 * c] + init[2 * c + 1] &&
                     x == Pipeline(tables, seed);
      assert init[2 * c] == seeds[2 * c] && init[2 * c + 1] == seeds[2 * c + 1];
    }
  }

  /** The location of every seed in every pair's range is a pair location. */
  lemma {:induction false} PairLocationsComplete(tables: seq<ConversionTable>, seeds: seq<nat>, c: nat, seed: nat)
    requires |seeds| % 2 == 0
    requires c < |seeds| / 2 && seeds[2 * c] <= seed < seeds[2 * c] + seeds[2 * c + 1]
    ensures Pipeline(tables, seed) in PairLocations(tables, seeds)
  {
    var n := |seeds|;
    var init := seeds[..n - 2];
    if 2 * c == n - 2 {
      var range := RangeLocations(tables, seeds[n - 2], seeds[n - 1]);
      assert range[seed - seeds[n - 2]] == Pipeline(tables, seed);
    } else {
      assert init[2 * c] == seeds[2 * c] && init[2 * c + 1] == seeds[2 * c + 1];
      PairLocationsComplete(tables, init, c, seed);
    }
  }

  /** The loops of `part_2`: the value of every seed of every pair, pair by
      pair. */
  method CollectLocations(seeds: seq<nat>, tables: seq<ConversionTable>) returns (locations: seq<nat>)
    requires |seeds| % 2 == 0
    ensures locations == PairLocations(tables, seeds)
  {
    locations := [];
    for c := 0 to |seeds| / 2
      invariant locations == PairLocations(tables, seeds[..2 * c])
    {
      var start, len := seeds[2 * c], seeds[2 * c + 1];
      for seed := start to start + len
        invariant locations == PairLocations(tables, seeds[..2 * c]) + RangeLocations(tables, start, seed - start)
      {
        locations := locations + [Pipeline(tables, seed)];
      }
      assert seeds[..2 * c + 2][..2 * c] == seeds[..2 * c];
    }
    assert seeds[..|seeds|] == seeds;
  }

  method Part2(seeds: seq<nat>, tables: seq<ConversionTable>) returns (lowest: nat)
    requires |seeds| % 2 == 0
    requires exists c :: 0 <= c < |seeds| / 2 && seeds[2 * c + 1] > 0
    ensures exists c, seed :: 0 <= c < |seeds| / 2 && seeds[2 * c] <= seed < seeds[2 * c] + seeds[2 * c + 1] &&
                              lowest == Pipeline(tables, seed)
    ensures forall c, seed :: 0 <= c < |seeds| / 2 && seeds[2 * c] <= seed < seeds[2 * c] + seeds[2 * c + 1] ==>
                              lowest <= Pipeline(tables, seed)
  {
    var locations := CollectLocations(seeds, tables);
    var c :| 0 <= c < |seeds| / 2 && seeds[2 * c + 1] > 0;
    PairLocationsComplete(tables, seeds, c, seeds[2 * c]);
    lowest := Minimum(locations);
    PairLocationsSound(tables, seeds, lowest);
    forall c, seed | 0 <= c < |seeds| / 2 && seeds[2 * c] <= seed < seeds[2 * c] + seeds[2 * c + 1]
      ensures lowest <= Pipeline(tables, seed)
    {
      PairLocationsComplete(tables, seeds, c, seed);
    }
  }

  /** The literal cases of the conversion test. */
  lemma ConvertExamples()
    ensures FirstMatch([ConversionRange((98, 100), (50, 52)), ConversionRange((50, 98), (52, 100))], 98) == 50
    ensures FirstMatch([ConversionRange((98, 100), (50, 52)), ConversionRange((50, 98), (52, 100))], 53) == 55
    ensures FirstMatch([ConversionRange((53, 61), (49, 57)), ConversionRange((11, 53), (0, 42)),
                        ConversionRange((0, 7), (42, 49)), ConversionRange((7, 11), (57, 61))], 53) == 49
  {
  }
}
