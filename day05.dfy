/** Seed almanac with first-match range remapping (src/day05.rs).  A conversion
    `(d, s, l)` sends `s + k` to `d + k` for `k < l`; a chain applies its first
    conversion that covers the value and leaves other values alone. */
module Day05 {
  import opened Text

  /** `(destination start, source start, length)` */
  type Triple = (nat, nat, nat)

  /** `convert`: the remapped value when `x` is in the source range. */
  function Convert(c: Triple, x: nat): (r: Option<nat>)
    ensures r.Some? <==> c.1 <= x < c.1 + c.2
    ensures r.Some? ==> c.0 <= r.value < c.0 + c.2 && r.value - c.0 == x - c.1
  {
    if c.1 <= x < c.1 + c.2 then Some(x - c.1 + c.0) else None
  }

  /** A conversion read backwards undoes it. */
  lemma ConvertInverse(c: Triple, x: nat)
    requires Convert(c, x).Some?
    ensures Convert((c.1, c.0, c.2), Convert(c, x).value) == Some(x)
  {
  }

  /** `convert_chain`: the output of the first conversion, in list order, that
      covers `x`, or `x` itself when none does. */
  function ConvertChain(chain: seq<Triple>, x: nat): nat
  {
    if chain == [] then x
    else
      match Convert(chain[0], x)
      case Some(output) => output
      case None => ConvertChain(chain[1..], x)
  }

  /** A value no conversion covers passes through unchanged. */
  lemma {:induction false} ConvertChainUncovered(chain: seq<Triple>, x: nat)
    requires forall k :: 0 <= k < |chain| ==> Convert(chain[k], x).None?
    ensures ConvertChain(chain, x) == x
  {
    if chain != [] {
      ConvertChainUncovered(chain[1..], x);
    }
  }

  /** Otherwise the first covering conversion decides the output. */
  lemma {:induction false} ConvertChainFirstMatch(chain: seq<Triple>, x: nat, k: nat)
    requires k < |chain| && Convert(chain[k], x).Some?
    requires forall j :: 0 <= j < k ==> Convert(chain[j], x).None?
    ensures ConvertChain(chain, x) == Convert(chain[k], x).value
  {
    if k > 0 {
      ConvertChainFirstMatch(chain[1..], x, k - 1);
    }
  }

  // ---------------------------------------------------------------------------
  // Reading the almanac

  /** The seeds and the conversion lists in the order their headers appear. */
  datatype Almanac = Almanac(seeds: seq<nat>, conversions: seq<seq<Triple>>)

  /** A header line other than the seed line: it holds a `:`. */
  predicate IsHeader(line: string)
  {
    |line| > 0 && !StartsWith(line, "seeds:") && Contains(line, ":")
  }

  /** One pass of the `prepare` loop; `None` where the source panics (a
      conversion line before any header, or with fewer than three numbers). */
  function ReadLine(a: Almanac, line: string): Option<Almanac>
  {
    if |line| == 0 then Some(a)
    else if StartsWith(line, "seeds:") then
      match SplitOnce(line, ":")
      case None => None
      case Some((_, seedText)) => Some(a.(seeds := ParsedNats(Words(Trim(seedText)))))
    else if Contains(line, ":") then Some(a.(conversions := a.conversions + [[]]))
    else
      var values := ParsedNats(Words(Trim(line)));
      var cs := a.conversions;
      if |cs| == 0 || |values| < 3 then None
      else Some(a.(conversions := cs[..|cs| - 1] + [cs[|cs| - 1] + [(values[0], values[1], values[2])]]))
  }

  /** The `prepare` loop over all lines, from no seeds and no lists. */
  function ReadLines(lines: seq<string>): Option<Almanac>
  {
    if lines == [] then Some(Almanac([], []))
    else
      match ReadLines(lines[..|lines| - 1])
      case None => None
      case Some(a) => ReadLine(a, lines[|lines| - 1])
  }

  /** The number of header lines. */
  function Headers(lines: seq<string>): nat
  {
    if lines == [] then 0
    else Headers(lines[..|lines| - 1]) + (if IsHeader(lines[|lines| - 1]) then 1 else 0)
  }

  /** Every header starts one new list, so there is one list per header. */
  lemma {:induction false} OneListPerHeader(lines: seq<string>)
    requires ReadLines(lines).Some?
    ensures |ReadLines(lines).value.conversions| == Headers(lines)
  {
    if lines != [] {
      OneListPerHeader(lines[..|lines| - 1]);
    }
  }

  /** A conversion line appends its triple to the latest list and leaves the
      earlier lists alone. */
  lemma ConversionLineAppends(a: Almanac, line: string, d: nat, s: nat, l: nat)
    requires |line| > 0 && !StartsWith(line, "seeds:") && !Contains(line, ":")
    requires ParsedNats(Words(Trim(line))) == [d, s, l]
    requires |a.conversions| > 0
    ensures var cs := a.conversions;
      ReadLine(a, line) == Some(a.(conversions := cs[..|cs| - 1] + [cs[|cs| - 1] + [(d, s, l)]]))
  {
  }

  /** The names under which `prepare` files the first seven lists. */
  const Stages: seq<string> := ["seed-to-soil", "soil-to-fertilizer", "fertilizer-to-water",
    "water-to-light", "light-to-temperature", "temperature-to-humidity", "humidity-to-location"]

  predicate HasStages(converters: map<string, seq<Triple>>)
  {
    forall k :: 0 <= k < |Stages| ==> Stages[k] in converters
  }

  /** The converter map: the first seven lists under the seven stage names. */
  function Converters(cs: seq<seq<Triple>>): (m: map<string, seq<Triple>>)
    requires |cs| >= 7
    ensures HasStages(m) && forall k :: 0 <= k < 7 ==> m[Stages[k]] == cs[k]
  {
    map[Stages[0] := cs[0], Stages[1] := cs[1], Stages[2] := cs[2], Stages[3] := cs[3],
        Stages[4] := cs[4], Stages[5] := cs[5], Stages[6] := cs[6]]
  }

  /** `prepare` after reading the lines; `None` where the source panics,
      including when there are fewer than seven lists. */
  method Prepare(lines: seq<string>) returns (r: Option<(seq<nat>, map<string, seq<Triple>>)>)
    ensures r == match ReadLines(lines)
                 case None => None
                 case Some(a) => if |a.conversions| < 7 then None else Some((a.seeds, Converters(a.conversions)))
  {
    var seeds: seq<nat> := [];
    var conversions: seq<seq<Triple>> := [];
    for i := 0 to |lines|
      invariant ReadLines(lines[..i]) == Some(Almanac(seeds, conversions))
    {
      var line := lines[i];
      assert lines[..i + 1][..i] == lines[..i];
      if |line| == 0 {
        continue;
      }
      if StartsWith(line, "seeds:") {
        var split := SplitOnce(line, ":");
        if split.None? {
          assert ReadLines(lines[..i + 1]) == None;
          PrefixFails(lines, i + 1);
          return None;
        }
        seeds := ParsedNats(Words(Trim(split.value.1)));
        continue;
      }
      if Contains(line, ":") {
        conversions := conversions + [[]];
        continue;
      }
      var values := ParsedNats(Words(Trim(line)));
      if |conversions| == 0 || |values| < 3 {
        PrefixFails(lines, i + 1);
        return None;
      }
      var current := conversions[|conversions| - 1];
      conversions := conversions[..|conversions| - 1] + [current + [(values[0], values[1], values[2])]];
    }
    assert lines[..|lines|] == lines;
    if |conversions| < 7 {
      return None;
    }
    return Some((seeds, Converters(conversions)));
  }

  /** Once a prefix of the lines panics, the whole input does. */
  lemma {:induction false} PrefixFails(lines: seq<string>, n: nat)
    requires n <= |lines| && ReadLines(lines[..n]) == None
    ensures ReadLines(lines) == None
    decreases |lines| - n
  {
    if n < |lines| {
      assert lines[..n + 1][..n] == lines[..n];
      PrefixFails(lines, n + 1);
    } else {
      assert lines[..n] == lines;
    }
  }

  // ---------------------------------------------------------------------------
  // The two parts

  /** The chains applied one after another. */
  function Compose(chains: seq<seq<Triple>>, x: nat): nat
  {
    if chains == [] then x else Compose(chains[1..], ConvertChain(chains[0], x))
  }

  /** The seven chains in stage order, from seed to location. */
  function Location(converters: map<string, seq<Triple>>, seed: nat): nat
    requires HasStages(converters)
  {
    Compose(seq(7, k requires 0 <= k < 7 => converters[Stages[k]]), seed)
  }

  /** `part_1`: the lowest location of any seed; `min().unwrap()` needs a seed. */
  method Part1(seeds: seq<nat>, converters: map<string, seq<Triple>>) returns (lowest: nat)
    requires HasStages(converters) && |seeds| > 0
    ensures exists i :: 0 <= i < |seeds| && lowest == Location(converters, seeds[i])
    ensures forall i :: 0 <= i < |seeds| ==> lowest <= Location(converters, seeds[i])
  {
    var locations: seq<nat> := [];
    for i := 0 to |seeds|
      invariant |locations| == i
      invariant forall k :: 0 <= k < i ==> locations[k] == Location(converters, seeds[k])
    {
      locations := locations + [Location(converters, seeds[i])];
    }
    lowest := Minimum(locations);
  }

  /** The locations of the seeds `start`, …, `start + len - 1`. */
  function RangeLocations(converters: map<string, seq<Triple>>, start: nat, len: nat): (r: seq<nat>)
    requires HasStages(converters)
    ensures |r| == len && forall k :: 0 <= k < len ==> r[k] == Location(converters, start + k)
  {
    if len == 0 then [] else RangeLocations(converters, start, len - 1) + [Location(converters, start + len - 1)]
  }

  /** The number of seeds the `(start, length)` pairs name: the sum of the
      lengths. */
  function RangeTotal(seeds: seq<nat>): nat
    requires |seeds| % 2 == 0
  {
    if seeds == [] then 0 else RangeTotal(seeds[..|seeds| - 2]) + seeds[|seeds| - 1]
  }

  /** The locations of every seed of every `(start, length)` pair, pair by
      pair: one per seed the pairs name. */
  function PairLocations(converters: map<string, seq<Triple>>, seeds: seq<nat>): (r: seq<nat>)
    requires HasStages(converters) && |seeds| % 2 == 0
    ensures |r| == RangeTotal(seeds)
  {
    if seeds == [] then []
    else
      var n := |seeds|;
      PairLocations(converters, seeds[..n - 2]) + RangeLocations(converters, seeds[n - 2], seeds[n - 1])
  }

  /** Every pair location is the location of a seed in some pair's range. */
  lemma {:induction false} PairLocationsSound(converters: map<string, seq<Triple>>, seeds: seq<nat>, x: nat)
    requires HasStages(converters) && |seeds| % 2 == 0 && x in PairLocations(converters, seeds)
    ensures exists c, seed :: 0 <= c < |seeds| / 2 && seeds[2 * c] <= seed < seeds[2 * c] + seeds[2 * c + 1] &&
                              x == Location(converters, seed)
  {
    var n := |seeds|;
    var init := seeds[..n - 2];
    var range := RangeLocations(converters, seeds[n - 2], seeds[n - 1]);
    if x in range {
      var k :| 0 <= k < |range| && range[k] == x;
      var c, seed := n / 2 - 1, seeds[n - 2] + k;
      assert 2 * c == n - 2;
      assert seeds[2 * c] <= seed < seeds[2 * c] + seeds[2 * c + 1] && x == Location(converters, seed);
    } else {
      PairLocationsSound(converters, init, x);
      var c, seed :| 0 <= c < |init| / 2 && init[2 * c] <= seed < init[2 * c] + init[2 * c + 1] &&
                     x == Location(converters, seed);
      assert init[2 * c] == seeds[2 * c] && init[2 * c + 1] == seeds[2 * c + 1];
    }
  }

  /** The location of every seed in every pair's range is a pair location. */
  lemma {:induction false} PairLocationsComplete(converters: map<string, seq<Triple>>, seeds: seq<nat>, c: nat, seed: nat)
    requires HasStages(converters) && |seeds| % 2 == 0
    requires c < |seeds| / 2 && seeds[2 * c] <= seed < seeds[2 * c] + seeds[2 * c + 1]
    ensures Location(converters, seed) in PairLocations(converters, seeds)
  {
    var n := |seeds|;
    var init := seeds[..n - 2];
    if 2 * c == n - 2 {
      var range := RangeLocations(converters, seeds[n - 2], seeds[n - 1]);
      assert range[seed - seeds[n - 2]] == Location(converters, seed);
    } else {
      assert init[2 * c] == seeds[2 * c] && init[2 * c + 1] == seeds[2 * c + 1];
      PairLocationsComplete(converters, init, c, seed);
    }
  }

  /** The loops of `part_2`: the location of every seed of every pair, pair
      by pair. */
  method CollectLocations(seeds: seq<nat>, converters: map<string, seq<Triple>>) returns (locations: seq<nat>)
    requires HasStages(converters) && |seeds| % 2 == 0
    ensures locations == PairLocations(converters, seeds)
  {
    locations := [];
    for c := 0 to |seeds| / 2
      invariant locations == PairLocations(converters, seeds[..2 * c])
    {
      var start, len := seeds[2 * c], seeds[2 * c + 1];
      for seed := start to start + len
        invariant locations == PairLocations(converters, seeds[..2 * c]) + RangeLocations(converters, start, seed - start)
      {
        locations := locations + [Location(converters, seed)];
      }
      assert seeds[..2 * c + 2][..2 * c] == seeds[..2 * c];
    }
    assert seeds[..|seeds|] == seeds;
  }

  /** `part_2`: the seeds are `(start, length)` pairs and every seed of every
      range is tried.  An odd count panics on `seed_span[1]`, and `min().unwrap()`
      needs at least one seed. */
  method Part2(seeds: seq<nat>, converters: map<string, seq<Triple>>) returns (lowest: nat)
    requires HasStages(converters) && |seeds| % 2 == 0
    requires exists c :: 0 <= c < |seeds| / 2 && seeds[2 * c + 1] > 0
    ensures exists c, seed :: 0 <= c < |seeds| / 2 && seeds[2 * c] <= seed < seeds[2 * c] + seeds[2 * c + 1] &&
                              lowest == Location(converters, seed)
    ensures forall c, seed :: 0 <= c < |seeds| / 2 && seeds[2 * c] <= seed < seeds[2 * c] + seeds[2 * c + 1] ==>
                              lowest <= Location(converters, seed)
  {
    var locations := CollectLocations(seeds, converters);
    var c :| 0 <= c < |seeds| / 2 && seeds[2 * c + 1] > 0;
    PairLocationsComplete(converters, seeds, c, seeds[2 * c]);
    lowest := Minimum(locations);
    PairLocationsSound(converters, seeds, lowest);
    forall c, seed | 0 <= c < |seeds| / 2 && seeds[2 * c] <= seed < seeds[2 * c] + seeds[2 * c + 1]
      ensures lowest <= Location(converters, seed)
    {
      PairLocationsComplete(converters, seeds, c, seed);
    }
  }

  /** The literal cases of the conversion test. */
  lemma ConvertExamples()
    ensures Convert((50, 98, 2), 98) == Some(50)
    ensures Convert((52, 50, 48), 53) == Some(55)
    ensures ConvertChain([(50, 98, 2), (52, 50, 48)], 53) == 55
    ensures ConvertChain([(49, 53, 8), (0, 11, 42), (42, 0, 7), (57, 7, 4)], 53) == 49
  {
  }
}
