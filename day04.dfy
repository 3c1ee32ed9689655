/** Scratchcards: each card lists winning numbers and numbers held; part 1
    scores each card by its matches, part 2 lets each card win copies of the
    cards that follow it. */
module Day04 {
  import opened Text

  /** A card as parsed: its card number dropped, duplicates collapsed. */
  datatype Card = Card(winners: set<nat>, held: set<nat>)

  // ---------------------------------------------------------------------------
  // Matches and score

  /** `Card::matches`: how many held numbers are winners. */
  function Matches(c: Card): (n: nat)
    ensures n <= |c.winners| && n <= |c.held|
  {
    IntersectionBound(c.winners, c.held);
    |c.winners * c.held|
  }

  lemma IntersectionBound(a: set<nat>, b: set<nat>)
    ensures |a * b| <= |a| && |a * b| <= |b|
  {
    assert a * b <= a && a * b <= b;
    SubsetCard(a * b, a);
    SubsetCard(a * b, b);
  }

  lemma {:induction false} SubsetCard(a: set<nat>, b: set<nat>)
    requires a <= b
    ensures |a| <= |b|
    decreases |b|
  {
    if a != {} {
      var x :| x in a;
      SubsetCard(a - {x}, b - {x});
    }
  }

  /** Every held number that is a winner adds a match. */
  lemma MatchesMonotone(w: set<nat>, h: set<nat>, x: nat)
    requires x in w && x !in h
    ensures Matches(Card(w, h + {x})) == Matches(Card(w, h)) + 1
  {
    assert w * (h + {x}) == (w * h) + {x};
  }

  function Pow2(n: nat): (r: nat)
    ensures r >= 1
  {
    if n == 0 then 1 else 2 * Pow2(n - 1)
  }

  /** `Card::score` for a given number of matches. */
  function ScoreOf(m: nat): (r: nat)
    ensures r == 0 <==> m == 0
  {
    if m > 0 then Pow2(m - 1) else 0
  }

  /** `Card::score`: 0 without a match, then 1 for the first match, doubled
      for each further one. */
  function Score(c: Card): (r: nat)
    ensures r == 0 <==> c.winners * c.held == {}
  {
    ScoreOf(Matches(c))
  }

  lemma ScoreDoubles(m: nat)
    ensures ScoreOf(1) == 1
    ensures m > 0 ==> ScoreOf(m + 1) == 2 * ScoreOf(m)
  {
  }

  /** The score of a card with `m` matches is below `2^m`. */
  lemma {:induction false} ScoreBound(m: nat)
    ensures ScoreOf(m) < Pow2(m)
    ensures 2 * ScoreOf(m) >= Pow2(m) - 1
  {
    if m > 1 {
      ScoreBound(m - 1);
    }
  }

  // ---------------------------------------------------------------------------
  // Parsing

  /** The numbers of a whitespace-separated list that parse, as a set. */
  function NumberSet(s: string): set<nat>
  {
    Elements(ParsedNats(Words(s)))
  }

  /** The elements of `ns`, duplicates collapsed (`.collect::<HashSet<_>>()`). */
  function Elements(ns: seq<nat>): (r: set<nat>)
    ensures forall n :: n in r <==> n in ns
  {
    set n | n in ns
  }

  /** `Card::from_str`: the text after the first `:` and around the first `|`;
      `None` where an `unwrap` of the source panics. */
  function ParseCard(line: string): (r: Option<Card>)
    ensures r.Some? <==> Contains(Trim(line), ":") && Contains(SplitOnce(Trim(line), ":").value.1, "|")
  {
    match SplitOnce(Trim(line), ":")
    case None => None
    case Some((_, values)) =>
      match SplitOnce(values, "|")
      case None => None
      case Some((w, h)) => Some(Card(NumberSet(w), NumberSet(h)))
  }

  /** A card as the puzzle writes it, with single spaces. */
  function ShowCard(id: nat, winners: seq<nat>, held: seq<nat>): string
  {
    "Card " + ShowNat(id) + ":" + " " + ShowNats(winners) + " | " + ShowNats(held)
  }

  /** Parsing a written card drops its number and keeps each list as a set. */
  lemma ParseShowCard(id: nat, winners: seq<nat>, held: seq<nat>)
    requires |held| > 0
    ensures ParseCard(ShowCard(id, winners, held)) == Some(Card(Elements(winners), Elements(held)))
  {
    ParseShowCardSets(id, winners, held);
    NumberSetShown(winners, " ");
    NumberSetShown(held, "");
    assert " " + ShowNats(held) + "" == " " + ShowNats(held);
  }

  lemma ParseShowCardSets(id: nat, winners: seq<nat>, held: seq<nat>)
    requires |held| > 0
    ensures ParseCard(ShowCard(id, winners, held))
         == Some(Card(NumberSet(" " + ShowNats(winners) + " "), NumberSet(" " + ShowNats(held))))
  {
    CardShape(id, winners, held);
    ParseCardOf(ShowCard(id, winners, held), "Card " + ShowNat(id), " " + ShowNats(winners) + " ", " " + ShowNats(held));
  }

  /** A trimmed line `head:left|right` with no `:` in `head` and no `|` in
      `left` parses to the number sets of `left` and `right`. */
  lemma ParseCardOf(line: string, head: string, left: string, right: string)
    requires Trim(line) == head + [':'] + (left + ['|'] + right)
    requires ':' !in head && '|' !in left
    ensures ParseCard(line) == Some(Card(NumberSet(left), NumberSet(right)))
  {
    SplitOnceAt(head, ':', left + ['|'] + right);
    SplitOnceAt(left, '|', right);
  }

  lemma CardShape(id: nat, winners: seq<nat>, held: seq<nat>)
    requires |held| > 0
    ensures var head, left, right := "Card " + ShowNat(id), " " + ShowNats(winners) + " ", " " + ShowNats(held);
      Trim(ShowCard(id, winners, held)) == head + [':'] + (left + ['|'] + right)
      && ':' !in head && '|' !in left
  {
    var line := ShowCard(id, winners, held);
    var head := "Card " + ShowNat(id);
    var left := " " + ShowNats(winners) + " ";
    var right := " " + ShowNats(held);
    assert line == head + [':'] + (left + ['|'] + right);
    ShowNatsLast(held);
    assert line[|line| - 1] == ShowNats(held)[|ShowNats(held)| - 1];
    assert Trim(line) == line;
    assert ':' !in head by {
      var d := ShowNat(id);
      assert forall i :: 0 <= i < |d| ==> IsDigit(d[i]);
      assert head == "Card " + d;
    }
    ShowNatsChars(winners);
  }

  /** The numbers between spaces read back as their set. */
  lemma NumberSetShown(ns: seq<nat>, tail: string)
    requires tail == "" || tail == " "
    ensures NumberSet(" " + ShowNats(ns) + tail) == Elements(ns)
  {
    ShowNatsWords(ns, tail);
    WordsSpace(' ', ShowNats(ns) + tail);
    assert " " + ShowNats(ns) + tail == [' '] + (ShowNats(ns) + tail);
    assert Words(tail) == [] by {
      if tail == " " {
        WordsSpace(' ', []);
      }
    }
    assert Shown(ns) + [] == Shown(ns);
    ParsedShown(ns);
  }

  function ParseCards(lines: seq<string>): (r: Option<seq<Card>>)
    ensures r.Some? <==> forall i :: 0 <= i < |lines| ==> ParseCard(lines[i]).Some?
    ensures r.Some? ==> |r.value| == |lines| && forall i :: 0 <= i < |lines| ==> ParseCard(lines[i]) == Some(r.value[i])
  {
    ParseEach(ParseCard, lines)
  }

  // ---------------------------------------------------------------------------
  // Part 1

  function Scores(cards: seq<Card>): (r: seq<nat>)
    ensures |r| == |cards| && forall i :: 0 <= i < |cards| ==> r[i] == Score(cards[i])
  {
    seq(|cards|, i requires 0 <= i < |cards| => Score(cards[i]))
  }

  /** `part_1`: the sum of the scores, which is zero exactly when no card has
      a match. */
  function Part1(cards: seq<Card>): (total: nat)
    ensures total == 0 <==> forall i :: 0 <= i < |cards| ==> Matches(cards[i]) == 0
  {
    SumZero(Scores(cards));
    Sum(Scores(cards))
  }

  lemma {:induction false} SumZero(s: seq<nat>)
    ensures Sum(s) == 0 <==> forall i :: 0 <= i < |s| ==> s[i] == 0
  {
    if s != [] {
      SumZero(s[..|s| - 1]);
      assert forall i :: 0 <= i < |s| - 1 ==> s[..|s| - 1][i] == s[i];
    }
  }

  // ---------------------------------------------------------------------------
  // Part 2

  /** The number of copies card `j` ends with, given the match counts `ms`:
      the original plus one per copy of each earlier card whose wins reach it. */
  function Won(ms: seq<nat>, j: nat): (w: nat)
    requires j < |ms|
    ensures w >= 1
    ensures j == 0 ==> w == 1
    decreases j, 1
  {
    1 + Reached(ms, j, j)
  }

  /** The copies of card `j` won from cards `0..i`. */
  function Reached(ms: seq<nat>, j: nat, i: nat): nat
    requires i <= j < |ms|
    decreases i, 0
  {
    if i == 0 then 0
    else Reached(ms, j, i - 1) + (if j <= i - 1 + ms[i - 1] then Won(ms, i - 1) else 0)
  }

  /** The final copy counts of all cards. */
  function Copies(ms: seq<nat>): (r: seq<nat>)
    ensures |r| == |ms| && forall j :: 0 <= j < |ms| ==> r[j] == Won(ms, j)
  {
    seq(|ms|, j requires 0 <= j < |ms| => Won(ms, j))
  }

  function MatchCounts(cards: seq<Card>): (r: seq<nat>)
    ensures |r| == |cards| && forall i :: 0 <= i < |cards| ==> r[i] == Matches(cards[i])
  {
    seq(|cards|, i requires 0 <= i < |cards| => Matches(cards[i]))
  }

  /** The wins of card `i` stay on the table: `won_cards[j]` for `j` up to
      `i + matches` must exist. */
  predicate InBounds(cards: seq<Card>)
  {
    forall i :: 0 <= i < |cards| ==> i + Matches(cards[i]) < |cards|
  }

  /** `part_2`: every card starts with one copy; card `i`, in order, adds its
      copies to each of the next `matches` cards.  A card is only ever added
      to by earlier cards, so its count is final when the loop reaches it. */
  method Part2(cards: seq<Card>) returns (total: nat)
    requires InBounds(cards)
    ensures total == Sum(Copies(MatchCounts(cards)))
  {
    var ms := MatchCounts(cards);
    var won := new nat[|cards|](_ => 1);
    for i := 0 to |cards|
      invariant forall j :: 0 <= j < i ==> won[j] == Won(ms, j)
      invariant forall j :: i <= j < |cards| ==> won[j] == 1 + Reached(ms, j, i)
    {
      Distribute(won, ms, i);
    }
    assert won[..] == Copies(ms);
    total := 0;
    for i := 0 to |cards|
      invariant total == Sum(won[..i])
    {
      assert won[..i + 1][..i] == won[..i];
      total := total + won[i];
    }
    assert won[..|cards|] == won[..];
  }

  /** The inner loop of `part_2` for card `i`, whose count is final: each of
      the next `ms[i]` cards gains that many copies. */
  method Distribute(won: array<nat>, ms: seq<nat>, i: nat)
    requires won.Length == |ms| && i < |ms| && i + ms[i] < |ms|
    requires forall j :: 0 <= j < i ==> won[j] == Won(ms, j)
    requires forall j :: i <= j < |ms| ==> won[j] == 1 + Reached(ms, j, i)
    modifies won
    ensures forall j :: 0 <= j <= i ==> won[j] == Won(ms, j)
    ensures forall j :: i < j < |ms| ==> won[j] == 1 + Reached(ms, j, i + 1)
  {
    var bound := i + ms[i];
    assert won[i] == Won(ms, i);
    for j := i + 1 to bound + 1
      invariant forall k :: 0 <= k <= i ==> won[k] == Won(ms, k)
      invariant forall k :: i < k < j ==> won[k] == 1 + Reached(ms, k, i + 1)
      invariant forall k :: j <= k < |ms| ==> won[k] == 1 + Reached(ms, k, i)
    {
      won[j] := won[j] + won[i];
    }
    assert forall k :: bound < k < |ms| ==> Reached(ms, k, i + 1) == Reached(ms, k, i);
  }

  /** Every card keeps its original, so there are at least as many cards in
      the end as at the start. */
  lemma {:induction false} CopiesAtLeastCards(ms: seq<nat>)
    ensures Sum(Copies(ms)) >= |ms|
    decreases |ms|
  {
    if ms != [] {
      var c := Copies(ms);
      var n := |ms| - 1;
      var ms' := ms[..n];
      CopiesPrefix(ms', ms);
      CopiesAtLeastCards(ms');
      assert c[..n] == Copies(ms');
    }
  }

  /** A card's copies depend only on the cards up to it. */
  lemma CopiesPrefix(a: seq<nat>, b: seq<nat>)
    requires |a| <= |b| && a == b[..|a|]
    ensures forall j :: 0 <= j < |a| ==> Won(a, j) == Won(b, j)
  {
    forall j | 0 <= j < |a| ensures Won(a, j) == Won(b, j) {
      WonPrefix(a, b, j);
    }
  }

  lemma {:induction false} WonPrefix(a: seq<nat>, b: seq<nat>, j: nat)
    requires j < |a| <= |b| && a == b[..|a|]
    ensures Won(a, j) == Won(b, j)
    decreases j, 1
  {
    ReachedPrefix(a, b, j, j);
  }

  lemma {:induction false} ReachedPrefix(a: seq<nat>, b: seq<nat>, j: nat, i: nat)
    requires i <= j < |a| <= |b| && a == b[..|a|]
    ensures Reached(a, j, i) == Reached(b, j, i)
    decreases i, 0
  {
    if i > 0 {
      ReachedPrefix(a, b, j, i - 1);
      WonPrefix(a, b, i - 1);
      assert a[i - 1] == b[i - 1];
    }
  }

  /** With no match anywhere, nothing is copied. */
  lemma NoMatchesNoCopies(ms: seq<nat>)
    requires forall i :: 0 <= i < |ms| ==> ms[i] == 0
    ensures Copies(ms) == seq(|ms|, _ => 1)
  {
    forall j | 0 <= j < |ms| ensures Won(ms, j) == 1 {
      NoReach(ms, j, j);
    }
  }

  lemma {:induction false} NoReach(ms: seq<nat>, j: nat, i: nat)
    requires i <= j < |ms|
    requires forall k :: 0 <= k < |ms| ==> ms[k] == 0
    ensures Reached(ms, j, i) == 0
  {
    if i > 0 {
      NoReach(ms, j, i - 1);
    }
  }
}
