/** String and number helpers standing in for the parts of Rust's `str`, `char`
    and integer parsing that the puzzle solutions use.  Strings are sequences of
    characters; every input is assumed to be ASCII, so a byte index and a
    character index coincide. */
module Text {

  datatype Option<+T> = None | Some(value: T)

  // ---------------------------------------------------------------------------
  // Digits and numbers

  /** `char::is_digit(10)` / `to_digit(10).is_some()` */
  predicate IsDigit(c: char) { '0' <= c <= '9' }

  function DigitChar(d: nat): (c: char)
    requires d < 10
    ensures IsDigit(c)
  {
    (d + '0' as int) as char
  }

  /** `char::to_digit(10).unwrap()` */
  function DigitValue(c: char): (d: nat)
    requires IsDigit(c)
    ensures d < 10 && DigitChar(d) == c
  {
    c as int - '0' as int
  }

  predicate AllDigits(s: string) { forall i :: 0 <= i < |s| ==> IsDigit(s[i]) }

  /** The value of a string of decimal digits, most significant digit first. */
  function DecimalValue(s: string): nat
    requires AllDigits(s)
  {
    if s == [] then 0 else 10 * DecimalValue(s[..|s| - 1]) + DigitValue(s[|s| - 1])
  }

  /** The shortest decimal rendering of `n`; `DecimalValue` reads it back. */
  function ShowNat(n: nat): (s: string)
    ensures |s| > 0 && AllDigits(s)
    ensures DecimalValue(s) == n
  {
    if n < 10 then [DigitChar(n)]
    else
      var front := ShowNat(n / 10);
      var s := front + [DigitChar(n % 10)];
      assert s[..|s| - 1] == front;
      s
  }

  /** The digits of an unsigned literal, after an optional leading `+`. */
  function Unsigned(s: string): string
  {
    if |s| > 0 && s[0] == '+' then s[1..] else s
  }

  /** `str::parse::<usize>()`: an optional `+`, then one or more decimal digits.
      Overflow past the machine width is not modelled. */
  function ParseNat(s: string): (r: Option<nat>)
    ensures r.Some? ==> |Unsigned(s)| > 0 && AllDigits(Unsigned(s)) && r.value == DecimalValue(Unsigned(s))
    ensures r.None? ==> |Unsigned(s)| == 0 || !AllDigits(Unsigned(s))
  {
    var d := Unsigned(s);
    if |d| > 0 && AllDigits(d) then Some(DecimalValue(d)) else None
  }

  lemma {:induction false} ParseShowNat(n: nat)
    ensures ParseNat(ShowNat(n)) == Some(n)
  {
    var s := ShowNat(n);
    assert IsDigit(s[0]);
    assert Unsigned(s) == s;
  }

  /** `str::parse::<isize>()`: an optional sign, then one or more decimal digits. */
  function ParseInt(s: string): (r: Option<int>)
    ensures |s| > 0 && s[0] == '-' ==>
              r == (if |s| > 1 && AllDigits(s[1..]) then Some(-(DecimalValue(s[1..]) as int)) else None)
    ensures !(|s| > 0 && s[0] == '-') ==> r == (match ParseNat(s) case Some(n) => Some(n as int) case None => None)
  {
    if |s| > 0 && s[0] == '-' then
      if |s| > 1 && AllDigits(s[1..]) then Some(-(DecimalValue(s[1..]) as int)) else None
    else
      match ParseNat(s)
      case Some(n) => Some(n as int)
      case None => None
  }

  /** Every element of `ps` parsed by `ParseNat`, or `None` as soon as one fails
      (`.map(|s| s.parse().unwrap())`). */
  function ParseAllNats(ps: seq<string>): (r: Option<seq<nat>>)
    ensures r.Some? <==> forall i :: 0 <= i < |ps| ==> ParseNat(ps[i]).Some?
    ensures r.Some? ==> |r.value| == |ps| && forall i :: 0 <= i < |ps| ==> ParseNat(ps[i]) == Some(r.value[i])
  {
    if ps == [] then Some([])
    else
      match ParseNat(ps[0])
      case None => None
      case Some(n) =>
        match ParseAllNats(ps[1..])
        case None => None
        case Some(rest) => Some([n] + rest)
  }

  /** Every line parsed by `parse`, or `None` as soon as one fails: a
      `prepare` whose per-line parser unwraps. */
  function ParseEach<T>(parse: string -> Option<T>, lines: seq<string>): (r: Option<seq<T>>)
    ensures r.Some? <==> forall i :: 0 <= i < |lines| ==> parse(lines[i]).Some?
    ensures r.Some? ==> |r.value| == |lines| && forall i :: 0 <= i < |lines| ==> parse(lines[i]) == Some(r.value[i])
  {
    if lines == [] then Some([])
    else
      match parse(lines[0])
      case None => None
      case Some(x) =>
        match ParseEach(parse, lines[1..])
        case None => None
        case Some(rest) => Some([x] + rest)
  }

  /** The elements of `ps` that parse, in order (`.filter_map(|n| n.parse().ok())`). */
  function ParsedNats(ps: seq<string>): (r: seq<nat>)
    ensures |r| <= |ps|
    ensures (forall i :: 0 <= i < |ps| ==> ParseNat(ps[i]).Some?) ==> ParseAllNats(ps) == Some(r)
  {
    if ps == [] then []
    else
      match ParseNat(ps[0])
      case None => ParsedNats(ps[1..])
      case Some(n) => [n] + ParsedNats(ps[1..])
  }

  // ---------------------------------------------------------------------------
  // Searching

  predicate OccursAt(s: string, pat: string, i: nat)
  {
    i + |pat| <= |s| && s[i..i + |pat|] == pat
  }

  predicate Contains(s: string, pat: string)
  {
    exists i: nat | i <= |s| :: OccursAt(s, pat, i)
  }

  function FindFrom(s: string, pat: string, i: nat): (r: Option<nat>)
    requires i <= |s| + 1
    ensures r.Some? ==> i <= r.value && OccursAt(s, pat, r.value)
    ensures r.Some? ==> forall j: nat :: i <= j < r.value ==> !OccursAt(s, pat, j)
    ensures r.None? ==> forall j: nat :: i <= j ==> !OccursAt(s, pat, j)
    decreases |s| + 1 - i
  {
    if i + |pat| > |s| then None
    else if s[i..i + |pat|] == pat then Some(i)
    else FindFrom(s, pat, i + 1)
  }

  /** `str::find`: the index of the first occurrence of `pat` in `s`. */
  function Find(s: string, pat: string): (r: Option<nat>)
    ensures r.Some? ==> OccursAt(s, pat, r.value) && forall j: nat :: j < r.value ==> !OccursAt(s, pat, j)
    ensures r.None? <==> !Contains(s, pat)
  {
    FindFrom(s, pat, 0)
  }

  /** `pat` cannot overlap itself: its first character does not recur, or
      its last character does not occur earlier. */
  predicate Unbordered(pat: string)
  {
    |pat| > 0 && (pat[0] !in pat[1..] || pat[|pat| - 1] !in pat[..|pat| - 1])
  }

  /** Two occurrences of an unbordered pattern do not overlap. */
  lemma UnborderedApart(s: string, pat: string, i: nat, j: nat)
    requires Unbordered(pat) && OccursAt(s, pat, i) && OccursAt(s, pat, j) && i < j
    ensures i + |pat| <= j
  {
    if j < i + |pat| {
      OccursOverlap(s, pat, i, j);
    }
  }

  /** Two occurrences `k = j - i` apart match `pat` against itself shifted by `k`. */
  lemma OccursOverlap(s: string, pat: string, i: nat, j: nat)
    requires OccursAt(s, pat, i) && OccursAt(s, pat, j) && i < j < i + |pat|
    ensures pat[j - i] == pat[0] && pat[|pat| - 1 - (j - i)] == pat[|pat| - 1]
  {
    var n := |pat|;
    assert s[j] == s[i..i + n][j - i] && s[j] == s[j..j + n][0];
    assert s[i + n - 1] == s[i..i + n][n - 1] && s[i + n - 1] == s[j..j + n][i + n - 1 - j];
  }

  /** `str::split_once`: the text before and after the first occurrence of `pat`. */
  function SplitOnce(s: string, pat: string): (r: Option<(string, string)>)
    ensures r.Some? <==> Contains(s, pat)
    ensures r.Some? ==> r.value.0 + pat + r.value.1 == s
    ensures r.Some? && |pat| > 0 ==> !Contains(r.value.0, pat)
  {
    match Find(s, pat)
    case None => None
    case Some(i) =>
      var (a, b) := (s[..i], s[i + |pat|..]);
      assert a + pat + b == s by {
        assert s == s[..i] + s[i..i + |pat|] + s[i + |pat|..];
      }
      assert |pat| > 0 ==> !Contains(a, pat) by {
        forall j: nat | |pat| > 0 && j <= |a| ensures !OccursAt(a, pat, j) {
          if j + |pat| <= |a| {
            assert a[j..j + |pat|] == s[j..j + |pat|];
            assert !OccursAt(s, pat, j);
          }
        }
      }
      Some((a, b))
  }

  /** Joins `parts` with `sep` between neighbours (`[..].join(sep)`). */
  function Join<T>(parts: seq<seq<T>>, sep: seq<T>): seq<T>
  {
    if parts == [] then []
    else if |parts| == 1 then parts[0]
    else parts[0] + sep + Join(parts[1..], sep)
  }

  /** `str::split`: the pieces between occurrences of `pat`, empty pieces included. */
  function Split(s: string, pat: string): (r: seq<string>)
    requires |pat| > 0
    ensures |r| > 0 && Join(r, pat) == s
    decreases |s|
  {
    match SplitOnce(s, pat)
    case None => [s]
    case Some((a, b)) =>
      var rest := Split(b, pat);
      assert ([a] + rest)[1..] == rest;
      [a] + rest
  }

  lemma {:induction false} OccursAtChar(t: string, c: char, j: nat)
    ensures OccursAt(t, [c], j) <==> j < |t| && t[j] == c
  {
    if j < |t| {
      assert t[j..j + 1] == [t[j]];
    }
  }

  /** Appending `x` to `s` keeps the first occurrence of `c` in `s`; without one,
      `x` is the first occurrence exactly when it is `c`. */
  lemma {:induction false} FindSnoc(s: string, c: char, x: char)
    ensures Find(s + [x], [c]) ==
              if Find(s, [c]).Some? then Find(s, [c]) else if x == c then Some(|s|) else None
  {
    var t := s + [x];
    var r, r' := Find(s, [c]), Find(t, [c]);
    match r
    case Some(i) =>
      OccursAtChar(s, c, i);
      OccursAtChar(t, c, i);
      assert r'.Some?;
      var i' := r'.value;
      OccursAtChar(t, c, i');
      if i' < i {
        OccursAtChar(s, c, i');
      }
    case None =>
      if x == c {
        OccursAtChar(t, c, |s|);
        assert r'.Some?;
        var i' := r'.value;
        OccursAtChar(t, c, i');
        if i' < |s| {
          OccursAtChar(s, c, i');
        }
      } else if r'.Some? {
        var i' := r'.value;
        OccursAtChar(t, c, i');
        OccursAtChar(s, c, i');
      }
  }

  /** Splitting on one character after appending `x`: `x` either opens a new,
      empty last piece or extends the last piece. */
  lemma {:induction false} SplitSnoc(s: string, c: char, x: char)
    ensures var p := Split(s, [c]);
      Split(s + [x], [c]) == if x == c then p + [[]] else p[..|p| - 1] + [p[|p| - 1] + [x]]
    decreases |s|
  {
    FindSnoc(s, c, x);
    match Find(s, [c])
    case Some(i) =>
      var rest := s[i + 1..];
      SplitSnoc(rest, c, x);
      SplitSnocFound(s, c, x, i);
    case None =>
      SplitSnocNone(s, c, x);
  }

  /** `SplitSnoc` where `s` holds a `c`: the first piece stays, the rest grows. */
  lemma SplitSnocFound(s: string, c: char, x: char, i: nat)
    requires Find(s, [c]) == Some(i) && Find(s + [x], [c]) == Some(i)
    requires var p := Split(s[i + 1..], [c]);
      Split(s[i + 1..] + [x], [c]) == if x == c then p + [[]] else p[..|p| - 1] + [p[|p| - 1] + [x]]
    ensures var p := Split(s, [c]);
      Split(s + [x], [c]) == if x == c then p + [[]] else p[..|p| - 1] + [p[|p| - 1] + [x]]
  {
    var t := s + [x];
    var rest := s[i + 1..];
    assert t[..i] == s[..i];
    assert t[i + 1..] == rest + [x];
    SplitAtFirst(s, c, i);
    SplitAtFirst(t, c, i);
    ConsGrow(s[..i], Split(rest, [c]), Split(rest + [x], [c]), x, x == c);
  }

  /** Putting a piece in front commutes with growing the last piece. */
  lemma ConsGrow(a: string, p: seq<string>, q: seq<string>, y: char, close: bool)
    requires |p| > 0
    requires q == if close then p + [[]] else p[..|p| - 1] + [p[|p| - 1] + [y]]
    ensures var p' := [a] + p;
      [a] + q == if close then p' + [[]] else p'[..|p'| - 1] + [p'[|p'| - 1] + [y]]
  {
    if !close {
      assert ([a] + p)[..|p|] == [a] + p[..|p| - 1];
    }
  }

  /** `SplitSnoc` where `s` holds no `c`: `s` is the one piece. */
  lemma SplitSnocNone(s: string, c: char, x: char)
    requires Find(s, [c]).None?
    requires Find(s + [x], [c]) == if x == c then Some(|s|) else None
    ensures var p := Split(s, [c]);
      Split(s + [x], [c]) == if x == c then p + [[]] else p[..|p| - 1] + [p[|p| - 1] + [x]]
  {
    var t := s + [x];
    SplitNoOccurrence(s, c);
    if x == c {
      SplitAtFirst(t, c, |s|);
      assert t[..|s|] == s;
      assert t[|s| + 1..] == [];
      assert Find([], [c]) == None;
      SplitNoOccurrence([], c);
    } else {
      SplitNoOccurrence(t, c);
    }
  }

  /** The split of `s` whose first `c` is at `i`. */
  lemma SplitAtFirst(s: string, c: char, i: nat)
    requires Find(s, [c]) == Some(i)
    ensures Split(s, [c]) == [s[..i]] + Split(s[i + 1..], [c])
  {
  }

  lemma SplitNoOccurrence(s: string, c: char)
    requires Find(s, [c]).None?
    ensures Split(s, [c]) == [s]
  {
  }

  /** `str::split` on one character, read left to right: each `c` closes the
      current piece and opens an empty one; any other character extends it. */
  function SplitChar(s: string, c: char): (r: seq<string>)
    ensures |r| > 0
  {
    if s == [] then [[]]
    else
      var p := SplitChar(s[..|s| - 1], c);
      var x := s[|s| - 1];
      if x == c then p + [[]] else p[..|p| - 1] + [p[|p| - 1] + [x]]
  }

  /** The left-to-right split is the general split on that one character. */
  lemma {:induction false} SplitCharAgrees(s: string, c: char)
    ensures SplitChar(s, c) == Split(s, [c])
    decreases |s|
  {
    if s == [] {
      assert Find([], [c]) == None;
    } else {
      var s' := s[..|s| - 1];
      assert s == s' + [s[|s| - 1]];
      SplitCharAgrees(s', c);
      SplitSnoc(s', c, s[|s| - 1]);
    }
  }

  /** No piece of a split on `c` contains `c`. */
  lemma {:induction false} SplitCharPieces(s: string, c: char)
    ensures forall k :: 0 <= k < |SplitChar(s, c)| ==> c !in SplitChar(s, c)[k]
    decreases |s|
  {
    if s != [] {
      SplitCharPieces(s[..|s| - 1], c);
    }
  }

  /** Splitting a join on a separator that no part contains gives the parts back. */
  lemma {:induction false} SplitJoin(parts: seq<string>, c: char)
    requires |parts| > 0
    requires forall k :: 0 <= k < |parts| ==> c !in parts[k]
    ensures Split(Join(parts, [c]), [c]) == parts
  {
    var p0 := parts[0];
    if |parts| == 1 {
      if Contains(p0, [c]) {
        var j: nat :| j <= |p0| && OccursAt(p0, [c], j);
        OccursAtChar(p0, c, j);
      }
    } else {
      var rest := Join(parts[1..], [c]);
      var s := p0 + [c] + rest;
      OccursAtChar(s, c, |p0|);
      var r := Find(s, [c]);
      assert r.Some?;
      OccursAtChar(s, c, r.value);
      assert r.value == |p0|;
      assert s[..|p0|] == p0 && s[|p0| + 1..] == rest;
      SplitJoin(parts[1..], c);
      assert [p0] + parts[1..] == parts;
    }
  }

  /** Splitting once on a character that `a` does not contain cuts just after `a`. */
  lemma SplitOnceAt(a: string, c: char, b: string)
    requires c !in a
    ensures SplitOnce(a + [c] + b, [c]) == Some((a, b))
  {
    var s := a + [c] + b;
    OccursAtChar(s, c, |a|);
    var r := Find(s, [c]);
    OccursAtChar(s, c, r.value);
    assert s[..|a|] == a && s[|a| + 1..] == b;
  }

  /** Splitting once on a pattern whose first character `a` does not contain
      cuts just after `a`. */
  lemma SplitOnceAtPattern(a: string, pat: string, b: string)
    requires |pat| > 0 && pat[0] !in a
    ensures SplitOnce(a + pat + b, pat) == Some((a, b))
  {
    var s := a + pat + b;
    assert s[|a|..|a| + |pat|] == pat;
    assert OccursAt(s, pat, |a|);
    var r := Find(s, pat).value;
    if r < |a| {
      assert false;
    }
    assert s[..|a|] == a && s[|a| + |pat|..] == b;
  }

  predicate StartsWith(s: string, prefix: string)
  {
    |prefix| <= |s| && s[..|prefix|] == prefix
  }

  predicate EndsWith(s: string, suffix: string)
  {
    |suffix| <= |s| && s[|s| - |suffix|..] == suffix
  }

  /** `str::replace(c, "")`: `s` with every `c` removed. */
  function RemoveAll(s: string, c: char): (r: string)
    ensures |r| <= |s|
    ensures forall x :: x in r <==> x in s && x != c
  {
    if s == [] then []
    else (if s[0] == c then [] else [s[0]]) + RemoveAll(s[1..], c)
  }

  lemma {:induction false} RemoveAllAppend(x: string, y: string, c: char)
    ensures RemoveAll(x + y, c) == RemoveAll(x, c) + RemoveAll(y, c)
  {
    if x == [] {
      assert x + y == y;
    } else {
      assert (x + y)[0] == x[0] && (x + y)[1..] == x[1..] + y;
      RemoveAllAppend(x[1..], y, c);
    }
  }

  lemma {:induction false} RemoveAllAbsent(s: string, c: char)
    requires c !in s
    ensures RemoveAll(s, c) == s
  {
    if s != [] {
      RemoveAllAbsent(s[1..], c);
    }
  }

  // ---------------------------------------------------------------------------
  // Whitespace

  /** ASCII whitespace; Rust's `char::is_whitespace` also accepts other Unicode spaces. */
  predicate IsWhitespace(c: char)
  {
    c == ' ' || c == '\t' || c == '\n' || c == '\r' || c == '\U{0B}' || c == '\U{0C}'
  }

  predicate HasWhitespace(s: string)
  {
    exists i :: 0 <= i < |s| && IsWhitespace(s[i])
  }

  /** The length of the longest prefix of `s` without whitespace. */
  function WordLength(s: string): (n: nat)
    ensures n <= |s| && !HasWhitespace(s[..n])
    ensures n < |s| ==> IsWhitespace(s[n])
  {
    if s == [] || IsWhitespace(s[0]) then 0
    else
      var n := 1 + WordLength(s[1..]);
      assert s[..n] == [s[0]] + s[1..][..n - 1];
      n
  }

  /** `str::split_whitespace`: the maximal runs of non-whitespace characters, in order. */
  function Words(s: string): (r: seq<string>)
    ensures forall k :: 0 <= k < |r| ==> |r[k]| > 0 && !HasWhitespace(r[k])
    decreases |s|
  {
    if s == [] then []
    else if IsWhitespace(s[0]) then Words(s[1..])
    else
      var n := WordLength(s);
      [s[..n]] + Words(s[n..])
  }

  /** Words of text without whitespace is that text alone. */
  lemma {:induction false} WordsOfWord(s: string)
    requires |s| > 0 && !HasWhitespace(s)
    ensures Words(s) == [s]
  {
    WordLengthOfWord(s);
    assert s[..|s|] == s;
    assert s[|s|..] == [];
  }

  lemma {:induction false} WordLengthOfWord(s: string)
    requires !HasWhitespace(s)
    ensures WordLength(s) == |s|
  {
    if s != [] {
      assert !IsWhitespace(s[0]);
      assert !HasWhitespace(s[1..]) by {
        forall i | 0 <= i < |s[1..]| ensures !IsWhitespace(s[1..][i]) {
          assert s[1..][i] == s[i + 1];
        }
      }
      WordLengthOfWord(s[1..]);
    }
  }

  /** Leading whitespace does not change the words. */
  lemma WordsSpace(x: char, s: string)
    requires IsWhitespace(x)
    ensures Words([x] + s) == Words(s)
  {
    assert ([x] + s)[1..] == s;
  }

  /** The words of a word followed by whitespace and more text. */
  lemma WordsCons(w: string, x: char, s: string)
    requires |w| > 0 && !HasWhitespace(w) && IsWhitespace(x)
    ensures Words(w + [x] + s) == [w] + Words(s)
  {
    var t := w + ([x] + s);
    assert t == w + [x] + s;
    WordLengthPrefix(w, [x] + s);
    assert t[0] == w[0];
    assert !IsWhitespace(t[0]);
    assert Words(t) == [t[..|w|]] + Words(t[|w|..]);
    assert t[..|w|] == w && t[|w|..] == [x] + s;
    WordsSpace(x, s);
  }

  /** A word followed by text that starts with whitespace ends where the word does. */
  lemma {:induction false} WordLengthPrefix(w: string, s: string)
    requires !HasWhitespace(w) && |s| > 0 && IsWhitespace(s[0])
    ensures WordLength(w + s) == |w|
  {
    if w != [] {
      assert (w + s)[0] == w[0] && (w + s)[1..] == w[1..] + s;
      assert !HasWhitespace(w[1..]) by {
        forall i | 0 <= i < |w[1..]| ensures !IsWhitespace(w[1..][i]) {
          assert w[1..][i] == w[i + 1];
        }
      }
      WordLengthPrefix(w[1..], s);
    } else {
      assert w + s == s;
    }
  }

  /** Words without whitespace, joined by spaces and followed by text that is
      empty or starts with whitespace, split back into the same words. */
  lemma {:induction false} WordsJoin(ws: seq<string>, s: string)
    requires forall k :: 0 <= k < |ws| ==> |ws[k]| > 0 && !HasWhitespace(ws[k])
    requires s == [] || IsWhitespace(s[0])
    ensures Words(Join(ws, " ") + s) == ws + Words(s)
  {
    if ws == [] {
      assert Join(ws, " ") + s == s;
    } else if |ws| == 1 {
      WordsJoinOne(ws[0], s);
      assert Join(ws, " ") == ws[0];
    } else {
      var tail := ws[1..];
      assert forall k :: 0 <= k < |tail| ==> tail[k] == ws[k + 1];
      WordsJoin(tail, s);
      WordsJoinCons(ws[0], tail, s);
      assert [ws[0]] + tail == ws;
    }
  }

  lemma WordsJoinCons(w: string, tail: seq<string>, s: string)
    requires |w| > 0 && !HasWhitespace(w) && |tail| > 0 && |tail[0]| > 0
    requires Words(Join(tail, " ") + s) == tail + Words(s)
    ensures Words(Join([w] + tail, " ") + s) == [w] + tail + Words(s)
  {
    var rest := Join(tail, " ") + s;
    assert ([w] + tail)[1..] == tail;
    assert Join([w] + tail, " ") + s == w + [' '] + rest;
    WordsCons(w, ' ', rest);
  }

  lemma WordsJoinOne(w: string, s: string)
    requires |w| > 0 && !HasWhitespace(w)
    requires s == [] || IsWhitespace(s[0])
    ensures Words(w + s) == [w] + Words(s)
  {
    if s == [] {
      WordsOfWord(w);
      assert w + s == w;
    } else {
      assert w + s == w + [s[0]] + s[1..];
      WordsCons(w, s[0], s[1..]);
      WordsSpace(s[0], s[1..]);
      assert [s[0]] + s[1..] == s;
    }
  }

  /** A join is at least as long as its first part. */
  lemma JoinLength<T>(parts: seq<seq<T>>, sep: seq<T>)
    requires |parts| > 0
    ensures |Join(parts, sep)| >= |parts[0]|
  {
  }

  /** The decimal renderings of `ns`, one per number. */
  function Shown(ns: seq<nat>): (r: seq<string>)
    ensures |r| == |ns|
    ensures forall k :: 0 <= k < |r| ==> r[k] == ShowNat(ns[k])
  {
    seq(|ns|, k requires 0 <= k < |ns| => ShowNat(ns[k]))
  }

  /** `ns` written out in decimal, separated by single spaces. */
  function ShowNats(ns: seq<nat>): string
  {
    Join(Shown(ns), " ")
  }

  lemma ShownWords(ns: seq<nat>)
    ensures forall k :: 0 <= k < |ns| ==> |Shown(ns)[k]| > 0 && !HasWhitespace(Shown(ns)[k])
  {
    forall k | 0 <= k < |ns|
      ensures !HasWhitespace(Shown(ns)[k])
    {
      var w := ShowNat(ns[k]);
      assert forall i :: 0 <= i < |w| ==> IsDigit(w[i]);
    }
  }

  /** Reading numbers written out by `ShowNats` gives them back. */
  lemma ShowNatsWords(ns: seq<nat>, s: string)
    requires s == [] || IsWhitespace(s[0])
    ensures Words(ShowNats(ns) + s) == Shown(ns) + Words(s)
  {
    ShownWords(ns);
    WordsJoin(Shown(ns), s);
  }

  lemma ParsedShown(ns: seq<nat>)
    ensures ParsedNats(Shown(ns)) == ns
  {
    var ps := Shown(ns);
    forall k | 0 <= k < |ps| ensures ParseNat(ps[k]) == Some(ns[k]) {
      ParseShowNat(ns[k]);
    }
  }

  /** `ShowNats` writes only digits and spaces. */
  lemma {:induction false} ShowNatsChars(ns: seq<nat>)
    ensures forall c :: c in ShowNats(ns) ==> c == ' ' || IsDigit(c)
  {
    if |ns| > 1 {
      ShowNatsChars(ns[1..]);
      assert Shown(ns)[1..] == Shown(ns[1..]);
      assert ShowNats(ns) == ShowNat(ns[0]) + " " + ShowNats(ns[1..]);
    } else if |ns| == 1 {
      assert ShowNats(ns) == ShowNat(ns[0]);
    }
  }

  /** The last character of `ShowNats` of a non-empty sequence is a digit. */
  lemma {:induction false} ShowNatsLast(ns: seq<nat>)
    requires |ns| > 0
    ensures |ShowNats(ns)| > 0 && IsDigit(ShowNats(ns)[|ShowNats(ns)| - 1])
  {
    if |ns| > 1 {
      ShowNatsLast(ns[1..]);
      assert Shown(ns)[1..] == Shown(ns[1..]);
      assert ShowNats(ns) == ShowNat(ns[0]) + " " + ShowNats(ns[1..]);
    } else {
      assert ShowNats(ns) == ShowNat(ns[0]);
    }
  }

  /** `str::trim`: `s` without leading and trailing whitespace. */
  function Trim(s: string): (r: string)
    ensures |r| <= |s|
    ensures |r| > 0 ==> !IsWhitespace(r[0]) && !IsWhitespace(r[|r| - 1])
    decreases |s|
  {
    if s == [] then []
    else if IsWhitespace(s[0]) then Trim(s[1..])
    else if IsWhitespace(s[|s| - 1]) then Trim(s[..|s| - 1])
    else s
  }

  /** The concatenation of `parts` (`.join("")`). */
  function Concat<T>(parts: seq<seq<T>>): seq<T>
  {
    if parts == [] then [] else parts[0] + Concat(parts[1..])
  }

  // ---------------------------------------------------------------------------
  // Enumerations

  /** `xs` lists the members of `s`, each once: an iteration order of `s`. */
  predicate Lists<T(==)>(xs: seq<T>, s: set<T>)
  {
    (forall k :: k in s ==> k in xs) &&
    (forall i :: 0 <= i < |xs| ==> xs[i] in s) &&
    forall i, j :: 0 <= i < j < |xs| ==> xs[i] != xs[j]
  }

  /** A sequence without repetitions holds each of its members once. */
  lemma {:induction false} DistinctMultiset<T>(xs: seq<T>)
    requires forall i, j :: 0 <= i < j < |xs| ==> xs[i] != xs[j]
    ensures forall x :: multiset(xs)[x] == if x in xs then 1 else 0
  {
    if xs != [] {
      var init := xs[..|xs| - 1];
      var last := xs[|xs| - 1];
      DistinctMultiset(init);
      assert xs == init + [last];
      assert last !in init;
      forall x ensures multiset(xs)[x] == if x in xs then 1 else 0 {
        assert multiset(xs)[x] == multiset(init)[x] + multiset([last])[x];
        assert x in xs <==> x in init || x == last;
      }
    }
  }

  /** Two iteration orders of the same set are permutations of each other. */
  lemma ListsPermutation<T>(xs: seq<T>, ys: seq<T>, s: set<T>)
    requires Lists(xs, s) && Lists(ys, s)
    ensures multiset(xs) == multiset(ys)
  {
    DistinctMultiset(xs);
    DistinctMultiset(ys);
    forall x ensures multiset(xs)[x] == multiset(ys)[x] {
      assert x in xs <==> x in ys by {
        assert x in xs <==> x in s;
        assert x in ys <==> x in s;
      }
    }
  }

  // ---------------------------------------------------------------------------
  // Sums

  /** `cmp::max` and `cmp::min`. */
  function Max(a: nat, b: nat): nat { if a < b then b else a }
  function Min(a: nat, b: nat): nat { if a < b then a else b }

  function Sum(s: seq<nat>): nat
  {
    if s == [] then 0 else Sum(s[..|s| - 1]) + s[|s| - 1]
  }

  /** `iter().sum()` over signed integers. */
  function SumInts(xs: seq<int>): int
  {
    if xs == [] then 0 else SumInts(xs[..|xs| - 1]) + xs[|xs| - 1]
  }

  /** `iter().min().unwrap()`: the least element of a non-empty sequence. */
  function Minimum(xs: seq<nat>): (m: nat)
    requires |xs| > 0
    ensures m in xs
    ensures forall k :: 0 <= k < |xs| ==> m <= xs[k]
  {
    if |xs| == 1 then xs[0]
    else
      var rest := Minimum(xs[1..]);
      assert forall k :: 1 <= k < |xs| ==> xs[k] == xs[1..][k - 1];
      if xs[0] <= rest then xs[0] else rest
  }

  lemma {:induction false} SumAppend(a: seq<nat>, b: seq<nat>)
    ensures Sum(a + b) == Sum(a) + Sum(b)
    decreases |b|
  {
    if b != [] {
      assert (a + b)[..|a + b| - 1] == a + b[..|b| - 1];
      SumAppend(a, b[..|b| - 1]);
    } else {
      assert a + b == a;
    }
  }

  /** The last element of `a` sits somewhere in a permutation `b`, and what
      remains on both sides is again a permutation. */
  lemma PermutationLast<T>(a: seq<T>, b: seq<T>) returns (k: nat)
    requires multiset(a) == multiset(b) && |a| > 0
    ensures k < |b| && b[k] == a[|a| - 1]
    ensures b == b[..k] + [a[|a| - 1]] + b[k + 1..]
    ensures multiset(a[..|a| - 1]) == multiset(b[..k] + b[k + 1..])
  {
    var x := a[|a| - 1];
    assert x in multiset(b);
    k :| 0 <= k < |b| && b[k] == x;
    var rest := b[..k] + b[k + 1..];
    assert b == b[..k] + [x] + b[k + 1..];
    assert a == a[..|a| - 1] + [x];
    assert multiset(b) == multiset(b[..k]) + multiset{x} + multiset(b[k + 1..]);
    assert multiset(rest) == multiset(b[..k]) + multiset(b[k + 1..]);
    assert multiset(a) == multiset(a[..|a| - 1]) + multiset{x};
    forall y ensures multiset(a[..|a| - 1])[y] == multiset(rest)[y] {
      assert multiset(a)[y] == multiset(b)[y];
    }
  }

  /** A sum does not depend on the order of its terms. */
  lemma {:induction false} SumPermutation(a: seq<nat>, b: seq<nat>)
    requires multiset(a) == multiset(b)
    ensures Sum(a) == Sum(b)
    decreases |a|
  {
    if a != [] {
      var x := a[|a| - 1];
      var k := PermutationLast(a, b);
      SumPermutation(a[..|a| - 1], b[..k] + b[k + 1..]);
      assert a == a[..|a| - 1] + [x];
      SumAppend(a[..|a| - 1], [x]);
      SumAppend(b[..k] + [x], b[k + 1..]);
      SumAppend(b[..k], [x]);
      SumAppend(b[..k], b[k + 1..]);
      assert Sum([x]) == x by {
        assert [x][..0] == [];
      }
    } else {
      assert |b| == |multiset(b)| == 0;
    }
  }
}
