/** Day 7: Camel Cards.  Each hand of five cards gets a key made of its
    multiplicities (the hand type) and its card values (the tie break); hands
    are sorted by that key and each wager is weighted by its rank.  In the
    second part jokers join the most common other card and count lowest. */
module Day07 {
  import opened Text

  // ---------------------------------------------------------------------------
  // Cards

  /** The characters `from_str` accepts as cards: the face letters and the
      decimal digits (`to_digit(10)` accepts `0` and `1` too). */
  predicate IsCard(c: char)
  {
    c == 'A' || c == 'K' || c == 'Q' || c == 'J' || c == 'T' || IsDigit(c)
  }

  predicate AllCards(s: string)
  {
    forall i :: 0 <= i < |s| ==> IsCard(s[i])
  }

  /** The value of a card: A 14, K 13, Q 12, J 11, T 10, a digit its value. */
  function CardValue(c: char): (v: nat)
    requires IsCard(c)
    ensures v <= 14
    ensures IsDigit(c) <==> v < 10
  {
    match c
    case 'A' => 14
    case 'K' => 13
    case 'Q' => 12
    case 'J' => 11
    case 'T' => 10
    case _ => DigitValue(c)
  }

  /** Different cards have different values, so the card priority of a hand
      identifies it. */
  lemma CardValueInjective(c: char, d: char)
    requires IsCard(c) && IsCard(d) && CardValue(c) == CardValue(d)
    ensures c == d
  {
    if IsDigit(c) {
      assert DigitChar(CardValue(c)) == c;
      assert DigitChar(CardValue(d)) == d;
    }
  }

  /** The card priority: the values of the cards in hand order. */
  function CardPriority(s: string): (p: seq<nat>)
    requires AllCards(s)
    ensures |p| == |s|
  {
    seq(|s|, i requires 0 <= i < |s| => CardValue(s[i]))
  }

  /** The wild card priority: every 11 (a jack) becomes 1. */
  function WildCards(p: seq<nat>): (w: seq<nat>)
    ensures |w| == |p|
  {
    seq(|p|, i requires 0 <= i < |p| => if p[i] == 11 then 1 else p[i])
  }

  /** With jokers wild, a joker is worth less than every card from 2 up, and
      every other card keeps its value. */
  lemma WildCardsJoker(s: string, i: nat)
    requires AllCards(s) && i < |s|
    ensures s[i] == 'J' ==> WildCards(CardPriority(s))[i] == 1
    ensures s[i] != 'J' ==> WildCards(CardPriority(s))[i] == CardValue(s[i])
  {
  }

  // ---------------------------------------------------------------------------
  // Counting cards

  /** The distinct cards of `s` in order of first appearance: the keys of
      the `Counter` built from the hand. */
  function Kinds(s: string): (k: seq<char>)
    ensures |k| <= |s|
  {
    if s == [] then []
    else
      var front := Kinds(s[..|s| - 1]);
      if s[|s| - 1] in front then front else front + [s[|s| - 1]]
  }

  predicate Distinct(k: seq<char>)
  {
    forall i, j :: 0 <= i < j < |k| ==> k[i] != k[j]
  }

  /** Every card appears once among the kinds, and nothing else does. */
  lemma {:induction false} KindsFacts(s: string)
    ensures Distinct(Kinds(s))
    ensures forall c :: c in Kinds(s) <==> c in s
  {
    if s != [] {
      var front := s[..|s| - 1];
      KindsFacts(front);
      assert s == front + [s[|s| - 1]];
    }
  }

  /** The multiplicities in `m` of the cards `k`, in order. */
  function Mults(k: seq<char>, m: multiset<char>): (r: seq<nat>)
    ensures |r| == |k|
  {
    if k == [] then [] else Mults(k[..|k| - 1], m) + [m[k[|k| - 1]]]
  }

  /** The cards of `k` other than `c`, in order (`filter(|(a, _)| a != c)`). */
  function Without(k: seq<char>, c: char): (r: seq<char>)
    ensures |r| <= |k|
  {
    if k == [] then []
    else
      var front := Without(k[..|k| - 1], c);
      if k[|k| - 1] == c then front else front + [k[|k| - 1]]
  }

  /** `Without` keeps exactly the cards other than `c`. */
  lemma {:induction false} WithoutMembers(k: seq<char>, c: char)
    ensures forall d :: d in Without(k, c) <==> d in k && d != c
  {
    if k != [] {
      WithoutMembers(k[..|k| - 1], c);
      assert forall d :: d in k <==> d in k[..|k| - 1] || d == k[|k| - 1];
    }
  }

  /** One more card `c` adds one to the total over distinct cards `k` if `c`
      is among them. */
  lemma {:induction false} MultsAdd(k: seq<char>, m: multiset<char>, c: char)
    requires Distinct(k)
    ensures Sum(Mults(k, m + multiset{c})) == Sum(Mults(k, m)) + (if c in k then 1 else 0)
  {
    if k != [] {
      var front := k[..|k| - 1];
      assert forall d :: d in k <==> d in front || d == k[|k| - 1];
      MultsAdd(front, m, c);
    }
  }

  /** The multiplicities of the distinct cards add up to the hand size. */
  lemma {:induction false} MultsTotal(s: string)
    ensures Sum(Mults(Kinds(s), multiset(s))) == |s|
  {
    if s != [] {
      var front := s[..|s| - 1];
      var c := s[|s| - 1];
      assert s == front + [c];
      assert multiset(s) == multiset(front) + multiset{c};
      MultsTotal(front);
      KindsFacts(front);
      MultsAdd(Kinds(front), multiset(front), c);
      if c !in Kinds(front) {
        var k := Kinds(front) + [c];
        assert k[..|k| - 1] == Kinds(front);
        assert Mults(k, multiset(s)) == Mults(Kinds(front), multiset(s)) + [multiset(s)[c]];
        SumAppend(Mults(Kinds(front), multiset(s)), [multiset(s)[c]]);
        assert Sum([multiset(s)[c]]) == multiset(s)[c] by {
          assert [multiset(s)[c]][..0] == [];
        }
        assert multiset(front)[c] == 0;
      }
    }
  }

  /** Dropping card `c` from the distinct cards drops its multiplicity from
      the total. */
  lemma {:induction false} MultsWithout(k: seq<char>, m: multiset<char>, c: char)
    requires Distinct(k)
    ensures Sum(Mults(k, m)) == Sum(Mults(Without(k, c), m)) + (if c in k then m[c] else 0)
  {
    if k != [] {
      var front := k[..|k| - 1];
      var d := k[|k| - 1];
      assert forall e :: e in k <==> e in front || e == d;
      MultsWithout(front, m, c);
      SumAppend(Mults(front, m), [m[d]]);
      assert Sum([m[d]]) == m[d] by {
        assert [m[d]][..0] == [];
      }
      if d != c {
        var w := Without(front, c) + [d];
        assert w[..|w| - 1] == Without(front, c);
        SumAppend(Mults(Without(front, c), m), [m[d]]);
      }
    }
  }

  // ---------------------------------------------------------------------------
  // Hand priority

  predicate SortedDescending(s: seq<nat>)
  {
    forall i, j :: 0 <= i < j < |s| ==> s[i] >= s[j]
  }

  function InsertDescending(x: nat, s: seq<nat>): (r: seq<nat>)
    requires SortedDescending(s)
    ensures SortedDescending(r) && |r| == |s| + 1
    ensures forall y :: y in r <==> y == x || y in s
  {
    if s == [] || x >= s[0] then [x] + s
    else
      var rest := InsertDescending(x, s[1..]);
      assert forall y :: y in s <==> y == s[0] || y in s[1..];
      forall y | y in s[1..] ensures y <= s[0] {
        var m :| 0 <= m < |s[1..]| && s[1..][m] == y;
        assert s[m + 1] == y;
      }
      assert forall m :: 0 <= m < |rest| ==> rest[m] in rest;
      [s[0]] + rest
  }

  /** `most_common_ordered` as far as the counts go: largest first. */
  function SortDescending(s: seq<nat>): (r: seq<nat>)
    ensures SortedDescending(r) && |r| == |s|
  {
    if s == [] then [] else InsertDescending(s[0], SortDescending(s[1..]))
  }

  lemma {:induction false} InsertPermutes(x: nat, s: seq<nat>)
    requires SortedDescending(s)
    ensures multiset(InsertDescending(x, s)) == multiset([x] + s)
  {
    if s != [] && x < s[0] {
      InsertPermutes(x, s[1..]);
      assert s == [s[0]] + s[1..];
    }
  }

  /** Sorting only reorders the counts. */
  lemma {:induction false} SortPermutes(s: seq<nat>)
    ensures multiset(SortDescending(s)) == multiset(s)
  {
    if s != [] {
      SortPermutes(s[1..]);
      InsertPermutes(s[0], SortDescending(s[1..]));
      assert s == [s[0]] + s[1..];
    }
  }

  /** `Vec::resize(n, 0)`: cut to `n` entries or pad with zeros. */
  function Resize(s: seq<nat>, n: nat): (r: seq<nat>)
    ensures |r| == n
  {
    if |s| >= n then s[..n] else s + seq(n - |s|, _ => 0)
  }

  lemma ResizeSorted(s: seq<nat>, n: nat)
    requires SortedDescending(s)
    ensures SortedDescending(Resize(s, n))
  {
  }

  /** Padding with zeros leaves the total alone. */
  lemma {:induction false} ResizeSum(s: seq<nat>, n: nat)
    requires |s| <= n
    ensures Sum(Resize(s, n)) == Sum(s)
    decreases n
  {
    if |s| < n {
      ResizeSum(s, n - 1);
      var r := Resize(s, n);
      assert r[..|r| - 1] == Resize(s, n - 1);
    } else {
      assert Resize(s, n) == s;
    }
  }

  /** The hand priority: the multiplicities of the distinct cards, largest
      first, padded with zeros to five entries. */
  function HandPriority(s: string): (p: seq<nat>)
    ensures |p| == 5
  {
    Resize(SortDescending(Mults(Kinds(s), multiset(s))), 5)
  }

  /** The number of jokers (`counter[&'J']`, 0 when there are none). */
  function Jokers(s: string): nat
  {
    multiset(s)['J']
  }

  /** The wild hand priority: the multiplicities of the cards other than
      jokers, largest first and padded to five, with the jokers added to the
      first (largest) entry. */
  function WildPriority(s: string): (p: seq<nat>)
    ensures |p| == 5
  {
    var rest := Resize(SortDescending(Mults(Without(Kinds(s), 'J'), multiset(s))), 5);
    rest[0 := rest[0] + Jokers(s)]
  }

  /** The hand priority lists the multiplicity of every distinct card, in
      non-increasing order; for a five-card hand they add up to 5. */
  lemma HandPriorityShape(s: string)
    requires |s| == 5
    ensures SortedDescending(HandPriority(s))
    ensures Sum(HandPriority(s)) == 5
    ensures forall c :: c in s ==> multiset(s)[c] in HandPriority(s)
  {
    var m := Mults(Kinds(s), multiset(s));
    MultsTotal(s);
    SortPermutes(m);
    SumPermutation(SortDescending(m), m);
    ResizeSum(SortDescending(m), 5);
    ResizeSorted(SortDescending(m), 5);
    KindsFacts(s);
    forall c | c in s
      ensures multiset(s)[c] in HandPriority(s)
    {
      MultsMember(Kinds(s), multiset(s), c);
      assert multiset(s)[c] in multiset(SortDescending(m));
      assert multiset(s)[c] in SortDescending(m);
    }
  }

  lemma {:induction false} MultsMember(k: seq<char>, m: multiset<char>, c: char)
    requires c in k
    ensures m[c] in Mults(k, m)
  {
    if k[|k| - 1] != c {
      MultsMember(k[..|k| - 1], m, c);
    }
  }

  /** The multiplicities of the cards other than jokers, largest first and
      padded to five: they add up to the number of other cards. */
  lemma WildRest(s: string)
    requires |s| == 5
    ensures var rest := Resize(SortDescending(Mults(Without(Kinds(s), 'J'), multiset(s))), 5);
            SortedDescending(rest) && Sum(rest) + Jokers(s) == 5
  {
    var m := Mults(Without(Kinds(s), 'J'), multiset(s));
    var sorted := SortDescending(m);
    MultsTotal(s);
    KindsFacts(s);
    MultsWithout(Kinds(s), multiset(s), 'J');
    SortPermutes(m);
    SumPermutation(sorted, m);
    ResizeSum(sorted, 5);
    ResizeSorted(sorted, 5);
  }

  /** With jokers wild the entries still add up to 5, the first entry is the
      largest, and it holds every joker. */
  lemma WildPriorityShape(s: string)
    requires |s| == 5
    ensures SortedDescending(WildPriority(s))
    ensures Sum(WildPriority(s)) == 5
    ensures WildPriority(s)[0] >= Jokers(s)
  {
    var rest := Resize(SortDescending(Mults(Without(Kinds(s), 'J'), multiset(s))), 5);
    WildRest(s);
    var p := rest[0 := rest[0] + Jokers(s)];
    assert p == WildPriority(s);
    assert p[1..] == rest[1..];
    SumFront(rest);
    SumFront(p);
  }

  lemma SumFront(s: seq<nat>)
    requires |s| > 0
    ensures Sum(s) == s[0] + Sum(s[1..])
  {
    SumAppend([s[0]], s[1..]);
    assert [s[0]] + s[1..] == s;
    assert Sum([s[0]]) == s[0] by {
      assert [s[0]][..0] == [];
    }
  }

  // ---------------------------------------------------------------------------
  // Hands

  /** A priority: the hand priority, then the card priority. */
  type Key = (seq<nat>, seq<nat>)

  datatype Hand = Hand(code: string, priority: Key, priorityWild: Key, wager: nat)

  /** The hand `from_str` builds from a valid five-card code and a wager. */
  function MakeHand(code: string, wager: nat): (h: Hand)
    requires |code| == 5 && AllCards(code)
    ensures |h.priority.0| == |h.priority.1| == |h.priorityWild.0| == |h.priorityWild.1| == 5
  {
    var cards := CardPriority(code);
    Hand(code, (HandPriority(code), cards), (WildPriority(code), WildCards(cards)), wager)
  }

  /** `Hand::from_str`: `None` where the source panics, that is when there is
      no space, when the code is not five cards (the fixed-size arrays and
      `to_digit` unwrap) or when the wager is not a number. */
  function ParseHand(line: string): (r: Option<Hand>)
    ensures r.Some? ==> |r.value.code| == 5 && AllCards(r.value.code) && Contains(line, " ")
  {
    match SplitOnce(line, " ")
    case None => None
    case Some((code, wager)) =>
      if |code| != 5 || !AllCards(code) then None
      else
        match ParseNat(wager)
        case None => None
        case Some(w) => Some(MakeHand(code, w))
  }

  /** Printing a hand as its code, a space and its wager reads it back. */
  lemma ParseShowHand(code: string, wager: nat)
    requires |code| == 5 && AllCards(code)
    ensures ParseHand(code + " " + ShowNat(wager)) == Some(MakeHand(code, wager))
  {
    var line := code + " " + ShowNat(wager);
    assert OccursAt(line, " ", 5);
    forall j: nat | j < 5
      ensures !OccursAt(line, " ", j)
    {
      assert line[j] == code[j];
    }
    assert Find(line, " ") == Some(5);
    assert line[..5] == code && line[6..] == ShowNat(wager);
    ParseShowNat(wager);
  }

  /** `prepare`: a hand per line; `None` where a line makes the source
      panic (`from_str` never returns an error, so the `ok()` filter drops
      nothing). */
  function Prepare(lines: seq<string>): (r: Option<seq<Hand>>)
    ensures r.Some? <==> forall i :: 0 <= i < |lines| ==> ParseHand(lines[i]).Some?
    ensures r.Some? ==> |r.value| == |lines| && forall i :: 0 <= i < |lines| ==> ParseHand(lines[i]) == Some(r.value[i])
  {
    ParseEach(ParseHand, lines)
  }

  lemma KindsSnoc(s: string, c: char)
    ensures Kinds(s + [c]) == if c in Kinds(s) then Kinds(s) else Kinds(s) + [c]
  {
    assert (s + [c])[..|s|] == s;
  }

  lemma MultsSnoc(k: seq<char>, c: char, m: multiset<char>)
    ensures Mults(k + [c], m) == Mults(k, m) + [m[c]]
  {
    assert (k + [c])[..|k|] == k;
  }

  /** A hand of different cards: every card is its own kind, once. */
  lemma {:induction false} AllDifferent(s: string)
    requires Distinct(s)
    ensures Kinds(s) == s
  {
    if s != [] {
      var front := s[..|s| - 1];
      var c := s[|s| - 1];
      assert s == front + [c];
      AllDifferent(front);
      KindsSnoc(front, c);
    }
  }

  /** In a hand of different cards every card appears once. */
  lemma {:induction false} AllSingles(s: string)
    requires Distinct(s)
    ensures Mults(s, multiset(s)) == seq(|s|, _ => 1)
  {
    if s != [] {
      var front := s[..|s| - 1];
      var c := s[|s| - 1];
      assert s == front + [c];
      AllSingles(front);
      assert c !in front;
      MultsSnoc(front, c, multiset(s));
      MultsIgnore(front, multiset(front), c);
      assert multiset(s) == multiset(front) + multiset{c};
    }
  }

  /** Adding a card not among `k` leaves their multiplicities alone. */
  lemma {:induction false} MultsIgnore(k: seq<char>, m: multiset<char>, c: char)
    requires c !in k
    ensures Mults(k, m + multiset{c}) == Mults(k, m)
  {
    if k != [] {
      MultsIgnore(k[..|k| - 1], m, c);
    }
  }

  /** Without `c`, nothing changes for cards other than `c`. */
  lemma {:induction false} WithoutAbsent(k: seq<char>, c: char)
    requires c !in k
    ensures Without(k, c) == k
  {
    if k != [] {
      WithoutAbsent(k[..|k| - 1], c);
    }
  }

  lemma {:induction false} WithoutAppend(a: seq<char>, b: seq<char>, c: char)
    ensures Without(a + b, c) == Without(a, c) + Without(b, c)
    decreases |b|
  {
    if b == [] {
      assert a + b == a;
    } else {
      assert (a + b)[..|a + b| - 1] == a + b[..|b| - 1];
      WithoutAppend(a, b[..|b| - 1], c);
    }
  }

  /** The distinct cards of a two pair with jokers as one pair, shaped like
      `KTJJT`. */
  lemma TwoPairKinds(k: char, t: char)
    requires k != t && k != 'J' && t != 'J'
    ensures Kinds([k, t, 'J', 'J', t]) == [k, t, 'J']
  {
    var j := 'J';
    var s0: string := [];
    var s1 := s0 + [k];
    var s2 := s1 + [t];
    var s3 := s2 + [j];
    var s4 := s3 + [j];
    var s5 := s4 + [t];
    KindsNew(s0, k, []);
    KindsNew(s1, t, [k]);
    KindsNew(s2, j, [k, t]);
    KindsOld(s3, j, [k, t, j]);
    KindsOld(s4, t, [k, t, j]);
    assert s5 == [k, t, j, j, t];
  }

  /** A card not among the kinds so far becomes the next kind. */
  lemma KindsNew(s: string, c: char, ks: seq<char>)
    requires Kinds(s) == ks && c !in ks
    ensures Kinds(s + [c]) == ks + [c]
  {
    KindsSnoc(s, c);
  }

  /** A card already among the kinds adds none. */
  lemma KindsOld(s: string, c: char, ks: seq<char>)
    requires Kinds(s) == ks && c in ks
    ensures Kinds(s + [c]) == ks
  {
    KindsSnoc(s, c);
  }

  /** The multiplicities of that two pair, with and without the jokers. */
  lemma TwoPairCounts(k: char, t: char)
    requires k != t && k != 'J' && t != 'J'
    ensures Mults([k, t, 'J'], multiset([k, t, 'J', 'J', t])) == [1, 2, 2]
    ensures Mults([k, t], multiset([k, t, 'J', 'J', t])) == [1, 2]
    ensures multiset([k, t, 'J', 'J', t])['J'] == 2
  {
    var j := 'J';
    var m := multiset([k, t, j, j, t]);
    TwoPairMultiset(k, t);
    var s0: seq<char> := [];
    MultsSnoc(s0, k, m);
    MultsSnoc(s0 + [k], t, m);
    MultsSnoc(s0 + [k] + [t], j, m);
    assert s0 + [k] + [t] == [k, t];
    assert s0 + [k] + [t] + [j] == [k, t, j];
  }

  lemma TwoPairMultiset(k: char, t: char)
    requires k != t && k != 'J' && t != 'J'
    ensures var m := multiset([k, t, 'J', 'J', t]); m[k] == 1 && m[t] == 2 && m['J'] == 2
  {
    var j := 'J';
    assert [k, t, j, j, t] == [k] + [t] + [j] + [j] + [t];
  }

  /** Dropping the jokers from the kinds of that two pair. */
  lemma TwoPairRest(k: char, t: char)
    requires k != t && k != 'J' && t != 'J'
    ensures Without([k, t, 'J'], 'J') == [k, t]
  {
    var j := 'J';
    assert [k, t] + [j] == [k, t, j];
    WithoutAppend([k, t], [j], j);
    WithoutAbsent([k, t], j);
    assert Without([j], j) == [] by {
      assert [j][..0] == [];
    }
  }

  /** The first example of `test_wild` (`KTJJT`, and every hand shaped like
      it): a two pair becomes four of a kind with jokers wild. */
  lemma TwoPairExample(k: char, t: char)
    requires k != t && k != 'J' && t != 'J'
    ensures HandPriority([k, t, 'J', 'J', t]) == [2, 2, 1, 0, 0]
    ensures WildPriority([k, t, 'J', 'J', t]) == [4, 1, 0, 0, 0]
  {
    var h := [k, t, 'J', 'J', t];
    TwoPairKinds(k, t);
    TwoPairCounts(k, t);
    TwoPairRest(k, t);
    TwoPairSorted();
    PlainFrom(h, [k, t, 'J'], [1, 2, 2], [2, 2, 1]);
    WildFrom(h, [k, t], [1, 2], [2, 1]);
    PadExamples();
  }

  /** The hand priority from the kinds and their counts. */
  lemma PlainFrom(h: string, ks: seq<char>, counts: seq<nat>, sorted: seq<nat>)
    requires Kinds(h) == ks && Mults(ks, multiset(h)) == counts && SortDescending(counts) == sorted
    ensures HandPriority(h) == Resize(sorted, 5)
  {
  }

  /** The wild priority from the kinds other than jokers and their counts. */
  lemma WildFrom(h: string, ks: seq<char>, counts: seq<nat>, sorted: seq<nat>)
    requires Without(Kinds(h), 'J') == ks && Mults(ks, multiset(h)) == counts
    requires SortDescending(counts) == sorted
    ensures WildPriority(h) == Resize(sorted, 5)[0 := Resize(sorted, 5)[0] + Jokers(h)]
  {
  }

  lemma PadExamples()
    ensures Resize([2, 2, 1], 5) == [2, 2, 1, 0, 0]
    ensures Resize([2, 1], 5) == [2, 1, 0, 0, 0]
  {
  }

  /** The counts of that two pair, sorted. */
  lemma TwoPairSorted()
    ensures SortDescending([1, 2, 2]) == [2, 2, 1]
    ensures SortDescending([1, 2]) == [2, 1]
  {
    var a: seq<nat> := [2];
    assert SortDescending(a) == [2];
    var b: seq<nat> := [2, 2];
    assert b[1..] == a;
    assert SortDescending(b) == [2, 2];
    var c: seq<nat> := [1, 2, 2];
    assert c[1..] == b;
    var d: seq<nat> := [1, 2];
    assert d[1..] == a;
  }

  /** Sorting equal counts changes nothing. */
  lemma SortOnesExample(s: seq<nat>)
    requires s == [1, 1, 1, 1, 1]
    ensures SortDescending(s) == s && SortDescending(s[1..]) == s[1..]
  {
    assert SortDescending(s[4..]) == s[4..];
    assert s[3..][1..] == s[4..];
    assert SortDescending(s[3..]) == s[3..];
    assert s[2..][1..] == s[3..];
    assert SortDescending(s[2..]) == s[2..];
    assert s[1..][1..] == s[2..];
    assert SortDescending(s[1..]) == s[1..];
  }

  /** A hand of five different cards is a high card. */
  lemma HighCard(h: string)
    requires |h| == 5 && Distinct(h)
    ensures HandPriority(h) == [1, 1, 1, 1, 1]
  {
    AllDifferent(h);
    AllSingles(h);
    var s: seq<nat> := [1, 1, 1, 1, 1];
    SortOnesExample(s);
    assert seq(5, _ => 1) == s;
    assert Resize(s, 5) == s;
  }

  /** The second example of `test_wild` (`JA234`, and every hand of a joker
      and four other different cards): a high card becomes one pair with
      jokers wild. */
  lemma HighCardExample(h: string)
    requires |h| == 5 && Distinct(h) && h[0] == 'J'
    ensures HandPriority(h) == [1, 1, 1, 1, 1]
    ensures WildPriority(h) == [2, 1, 1, 1, 0]
  {
    HighCard(h);
    HighCardRest(h);
    var s: seq<nat> := [1, 1, 1, 1, 1];
    SortOnesExample(s);
    var ones := s[1..];
    assert seq(4, _ => 1) == ones;
    assert Resize(ones, 5) == [1, 1, 1, 1, 0];
  }

  /** Without its joker, a hand of five different cards has four single
      cards. */
  lemma HighCardRest(h: string)
    requires |h| == 5 && Distinct(h) && h[0] == 'J'
    ensures Without(Kinds(h), 'J') == h[1..]
    ensures Mults(h[1..], multiset(h)) == seq(4, _ => 1)
    ensures Jokers(h) == 1
  {
    AllDifferent(h);
    var rest := h[1..];
    assert h == [h[0]] + rest;
    assert Distinct(rest);
    AllSingles(rest);
    WithoutAppend([h[0]], rest, 'J');
    WithoutAbsent(rest, 'J');
    assert Without([h[0]], 'J') == [] by {
      assert [h[0]][..0] == [];
    }
    assert Without(Kinds(h), 'J') == rest;
    assert multiset(h) == multiset(rest) + multiset{'J'};
    assert multiset(rest)['J'] == 0;
    assert Jokers(h) == 1;
    MultsIgnore(rest, multiset(rest), 'J');
  }

  /** The card priorities of `test_wild`: jacks count 11, and 1 when wild. */
  lemma CardExamples()
    ensures CardPriority("KTJJT") == [13, 10, 11, 11, 10]
    ensures WildCards([13, 10, 11, 11, 10]) == [13, 10, 1, 1, 10]
    ensures CardPriority("JA234") == [11, 14, 2, 3, 4]
    ensures WildCards([11, 14, 2, 3, 4]) == [1, 14, 2, 3, 4]
  {
  }

  /** Five jokers are five of a kind with jokers wild too. */
  lemma FiveJokers()
    ensures WildPriority(['J', 'J', 'J', 'J', 'J']) == [5, 0, 0, 0, 0]
  {
    var j := 'J';
    FiveJokersKinds();
    assert Without([j], j) == [] by {
      assert [j][..0] == [];
    }
    assert multiset([j, j, j, j, j])[j] == 5;
  }

  lemma FiveJokersKinds()
    ensures Kinds(['J', 'J', 'J', 'J', 'J']) == ['J']
  {
    var j := 'J';
    var s0: string := [];
    var s1 := s0 + [j];
    var s2 := s1 + [j];
    var s3 := s2 + [j];
    var s4 := s3 + [j];
    KindsNew(s0, j, []);
    KindsOld(s1, j, [j]);
    KindsOld(s2, j, [j]);
    KindsOld(s3, j, [j]);
    KindsOld(s4, j, [j]);
    assert s4 + [j] == [j, j, j, j, j];
  }

  // ---------------------------------------------------------------------------
  // Ordering hands

  /** Rust's order on arrays and slices: the first difference decides, and a
      proper prefix comes first. */
  predicate LexLess(a: seq<nat>, b: seq<nat>)
  {
    b != [] && (a == [] || a[0] < b[0] || (a[0] == b[0] && LexLess(a[1..], b[1..])))
  }

  lemma {:induction false} LexIrreflexive(a: seq<nat>)
    ensures !LexLess(a, a)
  {
    if a != [] {
      LexIrreflexive(a[1..]);
    }
  }

  lemma {:induction false} LexTransitive(a: seq<nat>, b: seq<nat>, c: seq<nat>)
    requires LexLess(a, b) && LexLess(b, c)
    ensures LexLess(a, c)
  {
    if a != [] && a[0] == b[0] && b[0] == c[0] {
      LexTransitive(a[1..], b[1..], c[1..]);
    }
  }

  lemma {:induction false} LexTotal(a: seq<nat>, b: seq<nat>)
    ensures a == b || LexLess(a, b) || LexLess(b, a)
  {
    if a != [] && b != [] && a[0] == b[0] {
      LexTotal(a[1..], b[1..]);
      if a[1..] == b[1..] {
        assert a == [a[0]] + a[1..] && b == [b[0]] + b[1..];
      }
    }
  }

  /** The derived order on priorities: hand priority first, card priority to
      break ties. */
  predicate KeyLess(x: Key, y: Key)
  {
    LexLess(x.0, y.0) || (x.0 == y.0 && LexLess(x.1, y.1))
  }

  /** `KeyLess` is a strict total order. */
  lemma KeyOrder(x: Key, y: Key, z: Key)
    ensures !KeyLess(x, x)
    ensures KeyLess(x, y) && KeyLess(y, z) ==> KeyLess(x, z)
    ensures x == y || KeyLess(x, y) || KeyLess(y, x)
  {
    LexIrreflexive(x.0);
    LexIrreflexive(x.1);
    LexTotal(x.0, y.0);
    LexTotal(x.1, y.1);
    if KeyLess(x, y) && KeyLess(y, z) {
      if LexLess(x.0, y.0) && LexLess(y.0, z.0) {
        LexTransitive(x.0, y.0, z.0);
      } else if x.0 == y.0 && y.0 == z.0 {
        LexTransitive(x.1, y.1, z.1);
      }
    }
  }

  /** The key a part sorts by: plain in part 1, with jokers wild in part 2. */
  function KeyOf(h: Hand, wild: bool): Key
  {
    if wild then h.priorityWild else h.priority
  }

  /** `a` may come before `b`: it does not have a greater key. */
  predicate InOrder(a: Hand, b: Hand, wild: bool)
  {
    !KeyLess(KeyOf(b, wild), KeyOf(a, wild))
  }

  predicate Sorted(hs: seq<Hand>, wild: bool)
  {
    forall i, j :: 0 <= i < j < |hs| ==> InOrder(hs[i], hs[j], wild)
  }

  /** Midway through inserting `s[i]`: it has moved left to `j`, the other
      hands of `s[..i+1]` are still in order, and it is below each hand it has
      passed. */
  predicate Shifting(s: seq<Hand>, i: nat, j: nat, wild: bool)
  {
    j <= i < |s|
    && (forall k, l :: 0 <= k < l <= i && k != j && l != j ==> InOrder(s[k], s[l], wild))
    && (forall l :: j < l <= i ==> KeyLess(KeyOf(s[j], wild), KeyOf(s[l], wild)))
  }

  lemma ShiftStart(s: seq<Hand>, i: nat, wild: bool)
    requires i < |s| && Sorted(s[..i], wild)
    ensures Shifting(s, i, i, wild)
  {
    forall k, l | 0 <= k < l <= i && k != i && l != i
      ensures InOrder(s[k], s[l], wild)
    {
      assert s[k] == s[..i][k] && s[l] == s[..i][l];
    }
  }

  /** Swapping the moving hand with a greater neighbour keeps `Shifting`. */
  lemma ShiftStep(s: seq<Hand>, i: nat, j: nat, wild: bool)
    requires Shifting(s, i, j, wild) && j > 0
    requires KeyLess(KeyOf(s[j], wild), KeyOf(s[j - 1], wild))
    ensures Shifting(s[j - 1 := s[j]][j := s[j - 1]], i, j - 1, wild)
  {
    var t := s[j - 1 := s[j]][j := s[j - 1]];
    forall l | j - 1 < l <= i
      ensures KeyLess(KeyOf(t[j - 1], wild), KeyOf(t[l], wild))
    {
    }
    forall k, l | 0 <= k < l <= i && k != j - 1 && l != j - 1
      ensures InOrder(t[k], t[l], wild)
    {
      if l == j {
        var x, y, z := KeyOf(s[k], wild), KeyOf(s[j - 1], wild), KeyOf(s[j], wild);
        KeyOrder(y, z, x);
        KeyOrder(z, x, z);
        KeyOrder(x, z, x);
        assert !KeyLess(y, x);
        KeyOrder(y, x, y);
      } else if k == j {
        var x, y, z := KeyOf(s[l], wild), KeyOf(s[j - 1], wild), KeyOf(s[j], wild);
        KeyOrder(x, y, y);
        KeyOrder(z, x, y);
      }
    }
  }

  /** When the moving hand meets no greater left neighbour, the prefix
      `s[..i+1]` is sorted. */
  lemma ShiftDone(s: seq<Hand>, i: nat, j: nat, wild: bool)
    requires Shifting(s, i, j, wild)
    requires j > 0 ==> !KeyLess(KeyOf(s[j], wild), KeyOf(s[j - 1], wild))
    ensures Sorted(s[..i + 1], wild)
  {
    forall k, l | 0 <= k < l <= i
      ensures InOrder(s[k], s[l], wild)
    {
      var x, y, z := KeyOf(s[k], wild), KeyOf(s[l], wild), KeyOf(s[j], wild);
      if k == j {
        KeyOrder(x, y, x);
      } else if l == j && k < j - 1 {
        var w := KeyOf(s[j - 1], wild);
        assert !KeyLess(w, x);
        KeyOrder(z, x, w);
        KeyOrder(w, x, w);
      }
    }
  }

  /** One step of the insertion sort: `a[i]` joins the sorted prefix. */
  method Insert(a: array<Hand>, i: nat, wild: bool)
    requires i < a.Length && Sorted(a[..i], wild)
    modifies a
    ensures Sorted(a[..i + 1], wild)
    ensures multiset(a[..]) == multiset(old(a[..]))
    ensures Stable(old(a[..]), a[..], wild)
  {
    ShiftStart(a[..], i, wild);
    var j: nat := i;
    while j > 0 && KeyLess(KeyOf(a[j], wild), KeyOf(a[j - 1], wild))
      invariant Shifting(a[..], i, j, wild)
      invariant multiset(a[..]) == multiset(old(a[..]))
      invariant Stable(old(a[..]), a[..], wild)
    {
      ShiftStep(a[..], i, j, wild);
      SwapStable(a[..], j, wild);
      a[j - 1], a[j] := a[j], a[j - 1];
      j := j - 1;
    }
    ShiftDone(a[..], i, j, wild);
  }

  /** `sort_by(|a, b| a.priority.cmp(&b.priority))` (or `priority_wild`): an
      insertion sort, stable like the source's: hands with equal keys keep
      their input order. */
  method SortHands(a: array<Hand>, wild: bool)
    modifies a
    ensures Sorted(a[..], wild)
    ensures multiset(a[..]) == multiset(old(a[..]))
    ensures Stable(old(a[..]), a[..], wild)
  {
    for i := 0 to a.Length
      invariant Sorted(a[..i], wild)
      invariant multiset(a[..]) == multiset(old(a[..]))
      invariant Stable(old(a[..]), a[..], wild)
    {
      Insert(a, i, wild);
    }
    assert a[..a.Length] == a[..];
  }

  // ---------------------------------------------------------------------------
  // Stability

  /** The hands of `s` whose key is `k`, in their order in `s`. */
  function Tied(s: seq<Hand>, k: Key, wild: bool): seq<Hand>
  {
    if s == [] then []
    else Tied(s[..|s| - 1], k, wild) + if KeyOf(s[|s| - 1], wild) == k then [s[|s| - 1]] else []
  }

  /** `t` keeps the hands of `s` of each key in the order `s` has them: what a
      stable sort promises about hands that tie. */
  ghost predicate Stable(s: seq<Hand>, t: seq<Hand>, wild: bool)
  {
    forall k :: Tied(t, k, wild) == Tied(s, k, wild)
  }

  lemma {:induction false} TiedAppend(a: seq<Hand>, b: seq<Hand>, k: Key, wild: bool)
    ensures Tied(a + b, k, wild) == Tied(a, k, wild) + Tied(b, k, wild)
    decreases |b|
  {
    if b == [] {
      assert a + b == a;
    } else {
      var b' := b[..|b| - 1];
      TiedAppend(a, b', k, wild);
      assert (a + b)[..|a + b| - 1] == a + b';
    }
  }

  lemma {:induction false} TiedMember(s: seq<Hand>, h: Hand, k: Key, wild: bool)
    ensures h in Tied(s, k, wild) <==> h in s && KeyOf(h, wild) == k
  {
    if s != [] {
      var s' := s[..|s| - 1];
      TiedMember(s', h, k, wild);
      assert s == s' + [s[|s| - 1]];
    }
  }

  /** Swapping neighbours with different keys keeps the order within every key. */
  lemma SwapStable(s: seq<Hand>, j: nat, wild: bool)
    requires 0 < j < |s| && KeyLess(KeyOf(s[j], wild), KeyOf(s[j - 1], wild))
    ensures Stable(s, s[j - 1 := s[j]][j := s[j - 1]], wild)
  {
    KeyOrder(KeyOf(s[j], wild), KeyOf(s[j], wild), KeyOf(s[j], wild));
    var t := s[j - 1 := s[j]][j := s[j - 1]];
    var a, x, y, b := s[..j - 1], s[j - 1], s[j], s[j + 1..];
    assert s == a + [x, y] + b;
    assert t == a + [y, x] + b;
    forall k
      ensures Tied(t, k, wild) == Tied(s, k, wild)
    {
      TiedAppend(a + [x, y], b, k, wild);
      TiedAppend(a, [x, y], k, wild);
      TiedAppend(a + [y, x], b, k, wild);
      TiedAppend(a, [y, x], k, wild);
      assert [x, y][..1] == [x] && [y, x][..1] == [y];
    }
  }

  /** Two sorted sequences that agree on the order within every key are
      equal. */
  lemma {:induction false} TiedUnique(s: seq<Hand>, t: seq<Hand>, wild: bool)
    requires Sorted(s, wild) && Sorted(t, wild) && Stable(s, t, wild)
    ensures s == t
    decreases |s| + |t|
  {
    if s == [] || t == [] {
      StableEmpty(s, t, wild);
    } else {
      var s', x, t', y := s[..|s| - 1], s[|s| - 1], t[..|t| - 1], t[|t| - 1];
      LastKeysAgree(s, t, wild);
      StableDropLast(s, t, wild);
      SortedPrefix(s, wild);
      SortedPrefix(t, wild);
      TiedUnique(s', t', wild);
      SameInitLast(s, t);
    }
  }

  lemma SortedPrefix(s: seq<Hand>, wild: bool)
    requires s != [] && Sorted(s, wild)
    ensures Sorted(s[..|s| - 1], wild)
  {
  }

  lemma SameInitLast<T>(s: seq<T>, t: seq<T>)
    requires s != [] && t != []
    requires s[..|s| - 1] == t[..|t| - 1] && s[|s| - 1] == t[|t| - 1]
    ensures s == t
  {
    assert s == s[..|s| - 1] + [s[|s| - 1]];
    assert t == t[..|t| - 1] + [t[|t| - 1]];
  }

  /** Only the empty sequence is stable with the empty sequence. */
  lemma StableEmpty(s: seq<Hand>, t: seq<Hand>, wild: bool)
    requires Stable(s, t, wild)
    ensures s == [] <==> t == []
  {
    if s != [] {
      TiedMember(s, s[0], KeyOf(s[0], wild), wild);
    }
    if t != [] {
      TiedMember(t, t[0], KeyOf(t[0], wild), wild);
    }
  }

  /** Sorted stable arrangements end in hands with the same key. */
  lemma LastKeysAgree(s: seq<Hand>, t: seq<Hand>, wild: bool)
    requires s != [] && t != []
    requires Sorted(s, wild) && Sorted(t, wild) && Stable(s, t, wild)
    ensures KeyOf(s[|s| - 1], wild) == KeyOf(t[|t| - 1], wild)
  {
    var x, y := s[|s| - 1], t[|t| - 1];
    var kx, ky := KeyOf(x, wild), KeyOf(y, wild);
    TiedMember(s, x, kx, wild);
    TiedMember(t, x, kx, wild);
    TiedMember(t, y, ky, wild);
    TiedMember(s, y, ky, wild);
    SortedLast(t, x, wild);
    SortedLast(s, y, wild);
    KeyOrder(kx, ky, kx);
  }

  /** Stable arrangements whose last hands share a key end in the same hand,
      and stay stable once that hand is dropped. */
  lemma StableDropLast(s: seq<Hand>, t: seq<Hand>, wild: bool)
    requires s != [] && t != [] && Stable(s, t, wild)
    requires KeyOf(s[|s| - 1], wild) == KeyOf(t[|t| - 1], wild)
    ensures s[|s| - 1] == t[|t| - 1]
    ensures Stable(s[..|s| - 1], t[..|t| - 1], wild)
  {
    var s', x, t', y := s[..|s| - 1], s[|s| - 1], t[..|t| - 1], t[|t| - 1];
    var kx := KeyOf(x, wild);
    var p, q := Tied(s', kx, wild), Tied(t', kx, wild);
    assert Tied(t, kx, wild) == Tied(s, kx, wild);
    assert p + [x] == q + [y];
    assert |p| == |q|;
    assert (p + [x])[|p|] == x;
    assert p == (p + [x])[..|p|] && q == (q + [y])[..|q|];
    assert p == q;
    forall k
      ensures Tied(t', k, wild) == Tied(s', k, wild)
    {
      if k != kx {
        assert Tied(s, k, wild) == Tied(s', k, wild);
        assert Tied(t, k, wild) == Tied(t', k, wild);
      }
    }
  }

  /** A stable sort leaves no choice: any two stable sorted arrangements of
      the same hands are equal, so the winnings are fixed by the input. */
  lemma StableSortUnique(u: seq<Hand>, s: seq<Hand>, t: seq<Hand>, wild: bool)
    requires Sorted(s, wild) && Sorted(t, wild)
    requires Stable(u, s, wild) && Stable(u, t, wild)
    ensures s == t && Winnings(s) == Winnings(t)
  {
    TiedUnique(s, t, wild);
  }

  /** Hands that tie on their key are the same hand. */
  predicate KeysDistinct(hs: seq<Hand>, wild: bool)
  {
    forall i, j :: 0 <= i < |hs| && 0 <= j < |hs| && KeyOf(hs[i], wild) == KeyOf(hs[j], wild) ==> hs[i] == hs[j]
  }

  /** The largest hand of a sorted sequence is its last. */
  lemma SortedLast(s: seq<Hand>, h: Hand, wild: bool)
    requires Sorted(s, wild) && h in s
    ensures InOrder(h, s[|s| - 1], wild)
  {
    var k :| 0 <= k < |s| && s[k] == h;
    if k == |s| - 1 {
      KeyOrder(KeyOf(h, wild), KeyOf(h, wild), KeyOf(h, wild));
    }
  }

  lemma DropLast(s: seq<Hand>, wild: bool)
    requires s != []
    ensures Sorted(s, wild) ==> Sorted(s[..|s| - 1], wild)
    ensures KeysDistinct(s, wild) ==> KeysDistinct(s[..|s| - 1], wild)
    ensures multiset(s) == multiset(s[..|s| - 1]) + multiset{s[|s| - 1]}
  {
    assert s == s[..|s| - 1] + [s[|s| - 1]];
  }

  /** Two sorted arrangements of the same hands without ties end alike. */
  lemma SameLast(s: seq<Hand>, t: seq<Hand>, wild: bool)
    requires Sorted(s, wild) && Sorted(t, wild) && s != []
    requires multiset(s) == multiset(t) && KeysDistinct(s, wild)
    ensures |t| == |s| && t[|t| - 1] == s[|s| - 1]
  {
    assert |s| == |multiset(s)| == |multiset(t)| == |t|;
    var n := |s|;
    var x, y := s[n - 1], t[n - 1];
    assert y in multiset(s) && x in multiset(t);
    SortedLast(s, y, wild);
    SortedLast(t, x, wild);
    KeyOrder(KeyOf(x, wild), KeyOf(y, wild), KeyOf(x, wild));
    var k :| 0 <= k < n && s[k] == y;
  }

  /** With no ties, sorting leaves no choice: two sorted arrangements of the
      same hands are equal, whatever order the hands came in. */
  lemma {:induction false} SortedUnique(s: seq<Hand>, t: seq<Hand>, wild: bool)
    requires Sorted(s, wild) && Sorted(t, wild)
    requires multiset(s) == multiset(t) && KeysDistinct(s, wild)
    ensures s == t
    decreases |s|
  {
    if s == [] {
      assert |t| == |multiset(t)| == 0;
    } else {
      SameLast(s, t, wild);
      var s', t' := s[..|s| - 1], t[..|t| - 1];
      DropLast(s, wild);
      DropLast(t, wild);
      Cancel(multiset(s'), multiset(t'), s[|s| - 1]);
      SortedUnique(s', t', wild);
      assert s == s' + [s[|s| - 1]] && t == t' + [t[|t| - 1]];
    }
  }

  lemma Cancel(a: multiset<Hand>, b: multiset<Hand>, x: Hand)
    requires a + multiset{x} == b + multiset{x}
    ensures a == b
  {
    assert a == (a + multiset{x}) - multiset{x};
    assert b == (b + multiset{x}) - multiset{x};
  }

  /** The total winnings: each wager times its 1-based rank. */
  function Winnings(hs: seq<Hand>): nat
  {
    if hs == [] then 0 else Winnings(hs[..|hs| - 1]) + hs[|hs| - 1].wager * |hs|
  }

  /** `part_1`: sort by plain priority, then weigh each wager by its rank. */
  method Part1(hands: array<Hand>) returns (total: nat)
    modifies hands
    ensures Sorted(hands[..], false) && multiset(hands[..]) == multiset(old(hands[..]))
    ensures Stable(old(hands[..]), hands[..], false)
    ensures total == Winnings(hands[..])
  {
    SortHands(hands, false);
    total := Winnings(hands[..]);
  }

  /** `part_2`: the same with jokers wild. */
  method Part2(hands: array<Hand>) returns (total: nat)
    modifies hands
    ensures Sorted(hands[..], true) && multiset(hands[..]) == multiset(old(hands[..]))
    ensures Stable(old(hands[..]), hands[..], true)
    ensures total == Winnings(hands[..])
  {
    SortHands(hands, true);
    total := Winnings(hands[..]);
  }

  /** The answer does not depend on the order of the input lines when no two
      hands tie. */
  lemma WinningsOrderFree(s: seq<Hand>, t: seq<Hand>, wild: bool)
    requires Sorted(s, wild) && Sorted(t, wild)
    requires multiset(s) == multiset(t) && KeysDistinct(s, wild)
    ensures Winnings(s) == Winnings(t)
  {
    SortedUnique(s, t, wild);
  }
}
