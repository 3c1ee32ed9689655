/** Wait for it (src/day06.rs).  Holding the button of a toy boat for `p`
    milliseconds of a `time`-millisecond race makes it travel `p * (time - p)`;
    a race is won by beating the record distance.  Part 1 multiplies the
    numbers of winning presses of several races, part 2 counts them for the one
    race whose numbers are read with the spaces between digit groups
    removed. */
module Day06 {
  import opened Text

  datatype Race = Race(time: nat, record: nat)

  /** `Race::run`: the distance after holding the button for `pressed`. */
  function Run(race: Race, pressed: nat): (d: nat)
    ensures d > 0 <==> 0 < pressed < race.time
  {
    if pressed >= race.time then 0
    else
      MulZero(pressed, race.time - pressed);
      pressed * (race.time - pressed)
  }

  /** Pressing for `p` or for `time - p` goes equally far, and the two ends
      go nowhere. */
  lemma RunSymmetric(race: Race, p: nat)
    requires p <= race.time
    ensures Run(race, p) == Run(race, race.time - p)
    ensures Run(race, 0) == 0 && Run(race, race.time) == 0
  {
    var q := race.time - p;
    if 0 < p < race.time {
      assert Run(race, q) == q * (race.time - q);
    }
  }

  /** No press goes further than a quarter of `time` squared, the distance of
      pressing for half the race. */
  lemma RunBound(race: Race, p: nat)
    ensures 4 * Run(race, p) <= race.time * race.time
  {
    if p < race.time {
      var t, d := race.time as int, race.time as int - 2 * p;
      assert d * d >= 0;
      assert t * t - 4 * (p * (t - p)) == d * d;
    }
  }

  // ---------------------------------------------------------------------------
  // Wins

  /** The distances of the presses `0..n` that beat the record, in press order. */
  function Wins(race: Race, n: nat): seq<nat>
  {
    if n == 0 then []
    else Wins(race, n - 1) + if Run(race, n - 1) > race.record then [Run(race, n - 1)] else []
  }

  /** `Race::find_wins`: the winning distances over the presses `0..=time`. */
  function FindWins(race: Race): (r: seq<nat>)
    ensures |r| == |Winners(race, race.time + 1)|
    ensures forall k :: 0 <= k < |r| ==> r[k] > race.record
  {
    WinsCount(race, race.time + 1);
    Wins(race, race.time + 1)
  }

  /** Pressing for `p` beats the record. */
  predicate Beats(race: Race, p: nat)
  {
    Run(race, p) > race.record
  }

  /** The presses below `n` that beat the record. */
  function Winners(race: Race, n: nat): set<nat>
  {
    set p: nat | p < n && Beats(race, p)
  }

  /** `Wins` has one distance, above the record, for each winning press. */
  lemma {:induction false} WinsCount(race: Race, n: nat)
    ensures |Wins(race, n)| == |Winners(race, n)|
    ensures forall k :: 0 <= k < |Wins(race, n)| ==> Wins(race, n)[k] > race.record
  {
    if n > 0 {
      WinsCount(race, n - 1);
      var before := Winners(race, n - 1);
      assert n - 1 !in before;
      if Run(race, n - 1) > race.record {
        assert Winners(race, n) == before + {n - 1};
      } else {
        assert Winners(race, n) == before;
      }
    }
  }

  /** `find_wins` has one distance, above the record, for each press in
      `0..=time` that beats the record, and a press wins exactly when its
      mirror `time - p` does. */
  lemma FindWinsExact(race: Race)
    ensures |FindWins(race)| == |Winners(race, race.time + 1)|
    ensures forall k :: 0 <= k < |FindWins(race)| ==> FindWins(race)[k] > race.record
    ensures forall p: nat :: p <= race.time ==> (Beats(race, p) <==> Beats(race, race.time - p))
  {
    WinsCount(race, race.time + 1);
    forall p: nat | p <= race.time ensures Beats(race, p) <==> Beats(race, race.time - p) {
      RunSymmetric(race, p);
    }
  }

  // ---------------------------------------------------------------------------
  // Answers

  function Product(xs: seq<nat>): nat
  {
    if xs == [] then 1 else Product(xs[..|xs| - 1]) * xs[|xs| - 1]
  }

  /** The number of winning presses of each race. */
  function WinCounts(races: seq<Race>): (ws: seq<nat>)
    ensures |ws| == |races| && forall i :: 0 <= i < |races| ==> ws[i] == |FindWins(races[i])|
  {
    seq(|races|, i requires 0 <= i < |races| => |FindWins(races[i])|)
  }

  /** `part_1`: the product of the races' numbers of winning presses. */
  function Part1(races: seq<Race>): (r: Option<nat>)
    ensures r.Some?
    ensures r.value == 0 <==> exists i :: 0 <= i < |races| && |Winners(races[i], races[i].time + 1)| == 0
  {
    ProductZero(races);
    Some(Product(WinCounts(races)))
  }

  /** `part_2`: the number of winning presses of the one race. */
  function Part2(race: Race): (r: Option<nat>)
    ensures r == Some(|Winners(race, race.time + 1)|)
  {
    Some(|FindWins(race)|)
  }

  lemma MulZero(a: nat, b: nat)
    ensures a * b == 0 <==> a == 0 || b == 0
  {
    if a > 0 && b > 0 {
      assert a * b >= 1 * b;
    }
  }

  lemma {:induction false} ProductAppend(xs: seq<nat>, ys: seq<nat>)
    ensures Product(xs + ys) == Product(xs) * Product(ys)
    decreases |ys|
  {
    if ys == [] {
      assert xs + ys == xs;
    } else {
      var init, y := ys[..|ys| - 1], ys[|ys| - 1];
      assert (xs + ys)[..|xs + ys| - 1] == xs + init;
      ProductAppend(xs, init);
      var a, b := Product(xs), Product(init);
      assert Product(xs + ys) == (a * b) * y;
      assert (a * b) * y == a * (b * y);
    }
  }

  /** Part 1 of races run one after another is the product of the parts. */
  lemma Part1Append(a: seq<Race>, b: seq<Race>)
    ensures Part1(a + b).value == Part1(a).value * Part1(b).value
  {
    assert WinCounts(a + b) == WinCounts(a) + WinCounts(b);
    ProductAppend(WinCounts(a), WinCounts(b));
  }

  /** Part 1 of a single race is its part 2. */
  lemma Part1Single(race: Race)
    ensures Part1([race]) == Part2(race)
  {
    var ws := WinCounts([race]);
    assert ws == [|FindWins(race)|];
    assert ws[..0] == [];
    assert Product(ws) == Product([]) * ws[0];
  }

  /** The product of the win counts is zero exactly when some race cannot
      be won. */
  lemma {:induction false} ProductZero(races: seq<Race>)
    ensures Product(WinCounts(races)) == 0 <==> exists i :: 0 <= i < |races| && |FindWins(races[i])| == 0
  {
    if races != [] {
      var init := races[..|races| - 1];
      ProductZero(init);
      assert WinCounts(races)[..|races| - 1] == WinCounts(init);
      MulZero(Product(WinCounts(init)), |FindWins(races[|races| - 1])|);
      if exists i :: 0 <= i < |init| && |FindWins(init[i])| == 0 {
        var i :| 0 <= i < |init| && |FindWins(init[i])| == 0;
        assert races[i] == init[i];
      }
      if exists i :: 0 <= i < |races| && |FindWins(races[i])| == 0 {
        var i :| 0 <= i < |races| && |FindWins(races[i])| == 0;
        if i < |init| {
          assert init[i] == races[i];
        }
      }
    }
  }

  // ---------------------------------------------------------------------------
  // Parsing

  /** The numbers after the first `:` of a line, read as `prepare_1` reads
      them (whitespace-separated, the unparsable pieces dropped). */
  function Numbers(line: string): Option<seq<nat>>
  {
    match SplitOnce(line, ":")
    case None => None
    case Some((_, suffix)) => Some(ParsedNats(Words(suffix)))
  }

  /** Each time paired with the record at the same position. */
  function Pair(times: seq<nat>, records: seq<nat>): (races: seq<Race>)
    requires |times| <= |records|
    ensures |races| == |times| && forall i :: 0 <= i < |times| ==> races[i] == Race(times[i], records[i])
  {
    seq(|times|, i requires 0 <= i < |times| => Race(times[i], records[i]))
  }

  /** `prepare_1`: the races pairing each time with the record at the same
      position; `None` where the source panics (fewer than two lines, a line
      without `:`, fewer records than times). */
  function Prepare1(lines: seq<string>): (r: Option<seq<Race>>)
    ensures r.Some? <==> |lines| >= 2 && Numbers(lines[0]).Some? && Numbers(lines[1]).Some? &&
                         |Numbers(lines[0]).value| <= |Numbers(lines[1]).value|
    ensures r.Some? ==> |r.value| == |Numbers(lines[0]).value|
    ensures r.Some? ==> forall i :: 0 <= i < |r.value| ==>
      r.value[i].time == Numbers(lines[0]).value[i] && r.value[i].record == Numbers(lines[1]).value[i]
  {
    if |lines| < 2 then None
    else
      var times, records := Numbers(lines[0]), Numbers(lines[1]);
      if times.None? || records.None? || |records.value| < |times.value| then None
      else Some(Pair(times.value, records.value))
  }

  /** Reading the numbers of a line written as a name, `:`, a space and the
      numbers gives them back. */
  lemma NumbersShown(name: string, ns: seq<nat>)
    requires ':' !in name
    ensures Numbers(name + ":" + " " + ShowNats(ns)) == Some(ns)
  {
    var text := ShowNats(ns);
    var suffix := [' '] + text;
    assert name + ":" + " " + text == name + [':'] + suffix;
    SplitOnceAt(name, ':', suffix);
    WordsSpace(' ', text);
    ShowNatsWords(ns, []);
    assert text + [] == text;
    assert Words(suffix) == Shown(ns);
    ParsedShown(ns);
  }

  /** `prepare_1` on two lines whose numbers read as `times` and `records`. */
  lemma Prepare1Lines(l0: string, l1: string, times: seq<nat>, records: seq<nat>)
    requires Numbers(l0) == Some(times) && Numbers(l1) == Some(records) && |times| <= |records|
    ensures Prepare1([l0, l1]) == Some(Pair(times, records))
  {
    var lines := [l0, l1];
    assert lines[0] == l0 && lines[1] == l1;
  }

  /** `prepare_1` reads back races written out as a line of times and a
      line of records, each after a name such as `Time` and `Distance`. */
  lemma Prepare1Shown(timeName: string, recordName: string, times: seq<nat>, records: seq<nat>)
    requires ':' !in timeName && ':' !in recordName && |times| <= |records|
    ensures Prepare1([timeName + ":" + " " + ShowNats(times), recordName + ":" + " " + ShowNats(records)]) ==
      Some(Pair(times, records))
  {
    NumbersShown(timeName, times);
    NumbersShown(recordName, records);
    Prepare1Lines(timeName + ":" + " " + ShowNats(times), recordName + ":" + " " + ShowNats(records), times, records);
  }

  function Pow10(n: nat): (p: nat)
    ensures p > 0
  {
    if n == 0 then 1 else 10 * Pow10(n - 1)
  }

  /** Writing the digits of `y` after those of `x` shifts `x` left by `|y|`
      decimal places. */
  lemma {:induction false} DecimalAppend(x: string, y: string)
    requires AllDigits(x) && AllDigits(y)
    ensures AllDigits(x + y)
    ensures DecimalValue(x + y) == DecimalValue(x) * Pow10(|y|) + DecimalValue(y)
    decreases |y|
  {
    assert AllDigits(x + y) by {
      forall i | 0 <= i < |x + y| ensures IsDigit((x + y)[i]) {
        if i < |x| {
          assert (x + y)[i] == x[i];
        } else {
          assert (x + y)[i] == y[i - |x|];
        }
      }
    }
    if y == [] {
      assert x + y == x;
    } else {
      var init, d := y[..|y| - 1], DigitValue(y[|y| - 1]);
      assert AllDigits(init) by {
        forall i | 0 <= i < |init| ensures IsDigit(init[i]) {
          assert init[i] == y[i];
        }
      }
      assert (x + y)[..|x + y| - 1] == x + init;
      assert (x + y)[|x + y| - 1] == y[|y| - 1];
      DecimalAppend(x, init);
      var dx, p, di := DecimalValue(x), Pow10(|init|), DecimalValue(init);
      assert DecimalValue(x + y) == 10 * (dx * p + di) + d;
      assert DecimalValue(y) == 10 * di + d;
      ShiftDigit(dx, p, di);
    }
  }

  lemma ShiftDigit(a: nat, p: nat, b: nat)
    ensures 10 * (a * p + b) == a * (10 * p) + 10 * b
  {
  }

  /** The number written by the digit groups `ws` one after another. */
  function Kerned(ws: seq<string>): nat
    requires forall k :: 0 <= k < |ws| ==> AllDigits(ws[k])
  {
    if ws == [] then 0 else Kerned(ws[..|ws| - 1]) * Pow10(|ws[|ws| - 1]|) + DecimalValue(ws[|ws| - 1])
  }

  /** Concatenating digit groups and reading the result is `Kerned`. */
  lemma {:induction false} ConcatKerned(ws: seq<string>)
    requires forall k :: 0 <= k < |ws| ==> AllDigits(ws[k])
    ensures AllDigits(Concat(ws)) && DecimalValue(Concat(ws)) == Kerned(ws)
  {
    if ws != [] {
      var init := ws[..|ws| - 1];
      var last := ws[|ws| - 1];
      assert forall k :: 0 <= k < |init| ==> init[k] == ws[k];
      ConcatKerned(init);
      ConcatSnoc(init, last);
      assert init + [last] == ws;
      DecimalAppend(Concat(init), last);
    }
  }

  lemma {:induction false} ConcatSnoc<T>(ps: seq<seq<T>>, q: seq<T>)
    ensures Concat(ps + [q]) == Concat(ps) + q
  {
    if ps == [] {
      assert Concat([q]) == q + Concat([q][1..]);
    } else {
      assert (ps + [q])[1..] == ps[1..] + [q];
      ConcatSnoc(ps[1..], q);
    }
  }

  /** The number after the first `:` of a line, read as `prepare_2` reads it
      (the whitespace-separated pieces joined and parsed). */
  function Kerning(line: string): (r: Option<nat>)
    ensures ':' !in line ==> r.None?
  {
    match SplitOnce(line, ":")
    case None => None
    case Some((_, suffix)) => ParseNat(Concat(Words(suffix)))
  }

  /** `prepare_2`: the one race; `None` where the source panics. */
  function Prepare2(lines: seq<string>): (r: Option<Race>)
    ensures r.Some? <==> |lines| >= 2 && Kerning(lines[0]).Some? && Kerning(lines[1]).Some?
    ensures r.Some? ==> r.value.time == Kerning(lines[0]).value && r.value.record == Kerning(lines[1]).value
  {
    if |lines| < 2 then None
    else
      match (Kerning(lines[0]), Kerning(lines[1]))
      case (Some(time), Some(record)) => Some(Race(time, record))
      case _ => None
  }

  /** When the pieces after `:` are digit groups, `prepare_2` reads the number
      they write side by side. */
  lemma KerningDigits(name: string, suffix: string)
    requires ':' !in name
    requires Words(suffix) != [] && forall k :: 0 <= k < |Words(suffix)| ==> AllDigits(Words(suffix)[k])
    ensures Kerning(name + ":" + suffix) == Some(Kerned(Words(suffix)))
  {
    var ws := Words(suffix);
    SplitOnceAt(name, ':', suffix);
    assert name + ":" + suffix == name + [':'] + suffix;
    ConcatKerned(ws);
    assert Concat(ws) == ws[0] + Concat(ws[1..]);
    assert |Concat(ws)| > 0;
    assert Unsigned(Concat(ws)) == Concat(ws);
  }
}
