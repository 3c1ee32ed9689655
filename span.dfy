/** Half-open intervals of natural numbers with set operations (src/util/span.rs).
    A span covers the values `start <= v < end`. */
module Span {
  import opened Text

  datatype Span = Span(start: nat, end: nat)

  /** A span whose ends are in ascending order, as `Span::new` builds them. */
  predicate Valid(s: Span) { s.start <= s.end }

  /** `Span::new`: the two values in ascending order. */
  function New(a: nat, b: nat): (s: Span)
    ensures Valid(s)
    ensures (s.start == a && s.end == b) || (s.start == b && s.end == a)
  {
    if a < b then Span(a, b) else Span(b, a)
  }

  /** `Span::len`; subtracting past zero would panic, so the span must be valid. */
  function Len(s: Span): (n: nat)
    requires Valid(s)
    ensures s.start + n == s.end
  {
    s.end - s.start
  }

  /** `Span::intersects`: neither span ends at or before the other starts. */
  predicate Intersects(s: Span, other: Span)
  {
    !(s.end <= other.start || s.start >= other.end)
  }

  /** `Span::contains`: `other` lies within the bounds of `s`. */
  predicate Contains(s: Span, other: Span)
  {
    s.start <= other.start && other.end <= s.end
  }

  /** `Span::contains_value`: the start is included, the end is not. */
  predicate ContainsValue(s: Span, v: nat)
  {
    s.start <= v && v < s.end
  }

  /** `Span::intersection`: the values in both spans, if they intersect. */
  function Intersection(s: Span, other: Span): (r: Option<Span>)
    ensures r.Some? <==> Intersects(s, other)
    ensures r.Some? ==> Contains(s, r.value) && Contains(other, r.value)
    ensures r.Some? && Valid(s) && Valid(other) ==> Valid(r.value)
  {
    if Intersects(s, other) then Some(Span(Max(s.start, other.start), Min(s.end, other.end))) else None
  }

  /** `Span::union`: the smallest span covering both, if they intersect. */
  function Union(s: Span, other: Span): (r: Option<Span>)
    ensures r.Some? <==> Intersects(s, other)
    ensures r.Some? ==> Contains(r.value, s) && Contains(r.value, other)
  {
    if Intersects(s, other) then Some(Span(Min(s.start, other.start), Max(s.end, other.end))) else None
  }

  // ---------------------------------------------------------------------------
  // Sorting the boundary values

  predicate SortedNats(s: seq<nat>)
  {
    forall i, j :: 0 <= i < j < |s| ==> s[i] <= s[j]
  }

  function InsertNat(x: nat, s: seq<nat>): (r: seq<nat>)
    requires SortedNats(s)
    ensures SortedNats(r) && |r| == |s| + 1
    ensures forall y :: y in r <==> y == x || y in s
  {
    if s == [] then [x]
    else if x <= s[0] then [x] + s
    else
      var rest := InsertNat(x, s[1..]);
      assert s == [s[0]] + s[1..];
      var r := [s[0]] + rest;
      assert forall y :: y in s[1..] ==> s[0] <= y;
      forall i, j | 0 <= i < j < |r| ensures r[i] <= r[j] {
        if i > 0 {
          assert r[i] == rest[i - 1] && r[j] == rest[j - 1];
        } else {
          assert r[j] == rest[j - 1] && r[j] in rest;
        }
      }
      r
  }

  /** `Vec::sort` on numbers. */
  function SortNats(s: seq<nat>): (r: seq<nat>)
    ensures SortedNats(r) && |r| == |s|
  {
    if s == [] then []
    else InsertNat(s[0], SortNats(s[1..]))
  }

  /** The sort only reorders: it keeps every value as many times as it occurs. */
  lemma {:induction false} SortNatsPermutes(s: seq<nat>)
    ensures multiset(SortNats(s)) == multiset(s)
  {
    if s != [] {
      SortNatsPermutes(s[1..]);
      InsertNatPermutes(s[0], SortNats(s[1..]));
      assert s == [s[0]] + s[1..];
    }
  }

  lemma {:induction false} InsertNatPermutes(x: nat, s: seq<nat>)
    requires SortedNats(s)
    ensures multiset(InsertNat(x, s)) == multiset(s) + multiset{x}
  {
    if s != [] && x > s[0] {
      InsertNatPermutes(x, s[1..]);
      assert s == [s[0]] + s[1..];
    }
  }

  // ---------------------------------------------------------------------------
  // Subtraction and division

  /** The pieces of length above zero, in order. */
  function NonEmpty(pieces: seq<Span>): (r: seq<Span>)
    ensures |r| <= |pieces|
    ensures forall x :: x in r <==> x in pieces && x.start < x.end
  {
    if pieces == [] then []
    else (if pieces[0].start < pieces[0].end then [pieces[0]] else []) + NonEmpty(pieces[1..])
  }

  /** `Span::subtraction`: the values of `s` outside `other`, as up to two spans. */
  function Subtraction(s: Span, other: Span): (r: Option<seq<Span>>)
    ensures r.None? <==> Contains(other, s)
  {
    if Contains(other, s) then None
    else if !Intersects(s, other) then Some([s])
    else
      var i := Intersection(s, other).value;
      var values := SortNats([s.start, s.end, i.start, i.end]);
      Some(NonEmpty([Span(values[0], values[1]), Span(values[2], values[3])]))
  }

  /** Inserts `x` after every piece whose start is not greater (`sort_by` is stable). */
  function InsertByStart(x: Span, s: seq<Span>): seq<Span>
  {
    if s == [] then [x]
    else if x.start < s[0].start then [x] + s
    else [s[0]] + InsertByStart(x, s[1..])
  }

  /** `sort_by(|a, b| a.start.cmp(&b.start))`, a stable sort by start. */
  function SortByStart(s: seq<Span>): seq<Span>
    decreases |s|
  {
    if s == [] then []
    else InsertByStart(s[|s| - 1], SortByStart(s[..|s| - 1]))
  }

  /** `Span::division`: `s` cut at the boundaries of its intersection with `other`. */
  function Division(s: Span, other: Span): (r: Option<seq<Span>>)
    ensures r.Some?
    ensures Contains(other, s) || !Intersects(s, other) ==> r == Some([s])
  {
    if Contains(other, s) then Some([s])
    else
      match Subtraction(s, other)
      case None => None
      case Some(output) =>
        var output' := match Intersection(s, other) case Some(i) => output + [i] case None => output;
        assert !Intersects(s, other) ==> output' == [s] && SortByStart([s]) == InsertByStart(s, SortByStart([])) == [s];
        Some(SortByStart(output'))
  }

  // ---------------------------------------------------------------------------
  // Properties

  /** `new` does not depend on argument order. */
  lemma NewSymmetric(a: nat, b: nat)
    ensures New(a, b) == New(b, a)
  {
  }

  /** The values a span holds. */
  function Values(s: Span): (vs: set<nat>)
    ensures forall v: nat :: v in vs <==> ContainsValue(s, v)
  {
    set v: nat | v < s.end && ContainsValue(s, v)
  }

  /** A valid span holds exactly `len` values. */
  lemma {:induction false} LenCountsValues(s: Span)
    requires Valid(s)
    ensures |Values(s)| == Len(s)
    decreases Len(s)
  {
    if s.start == s.end {
      assert Values(s) == {};
    } else {
      var t := Span(s.start, s.end - 1);
      LenCountsValues(t);
      assert Values(s) == Values(t) + {s.end - 1};
      assert s.end - 1 !in Values(t);
    }
  }

  /** Intersection is symmetric, and spans that only touch do not intersect. */
  lemma IntersectsSymmetric(a: Span, b: Span)
    ensures Intersects(a, b) == Intersects(b, a)
    ensures a.end == b.start ==> !Intersects(a, b)
  {
  }

  /** Two non-empty spans intersect exactly when some value lies in both. */
  lemma IntersectsIffCommonValue(a: Span, b: Span)
    requires a.start < a.end && b.start < b.end
    ensures Intersects(a, b) <==> exists v: nat :: ContainsValue(a, v) && ContainsValue(b, v)
  {
    if Intersects(a, b) {
      var v := Max(a.start, b.start);
      assert ContainsValue(a, v) && ContainsValue(b, v);
    }
  }

  /** A non-empty span is contained in `a` exactly when every value it holds
      is a value of `a`. */
  lemma ContainsIffValues(a: Span, b: Span)
    requires b.start < b.end
    ensures Contains(a, b) <==> forall v: nat :: ContainsValue(b, v) ==> ContainsValue(a, v)
  {
    if forall v: nat :: ContainsValue(b, v) ==> ContainsValue(a, v) {
      assert ContainsValue(b, b.start);
      assert ContainsValue(b, b.end - 1);
    }
  }

  /** The intersection holds exactly the values both spans hold. */
  lemma IntersectionValues(a: Span, b: Span, v: nat)
    requires Intersects(a, b)
    ensures ContainsValue(Intersection(a, b).value, v) <==> ContainsValue(a, v) && ContainsValue(b, v)
  {
  }

  /** The union of two intersecting valid spans holds exactly the values either holds. */
  lemma UnionValues(a: Span, b: Span, v: nat)
    requires Valid(a) && Valid(b) && Intersects(a, b)
    ensures ContainsValue(Union(a, b).value, v) <==> ContainsValue(a, v) || ContainsValue(b, v)
  {
  }

  /** When the spans overlap without `other` covering `s`, the boundary values
      sort to `s.start`, the intersection's ends, then `s.end`. */
  lemma {:induction false} SubtractionBoundaries(s: Span, other: Span)
    requires Valid(s) && Valid(other) && Intersects(s, other) && !Contains(other, s)
    ensures var i := Intersection(s, other).value;
      SortNats([s.start, s.end, i.start, i.end]) == [s.start, i.start, i.end, s.end]
  {
    var i := Intersection(s, other).value;
    SortFour(s.start, s.end, i.start, i.end);
  }

  /** Four values with `a <= c <= d <= b` sort to `[a, c, d, b]`. */
  lemma SortFour(a: nat, b: nat, c: nat, d: nat)
    requires a <= c <= d <= b
    ensures SortNats([a, b, c, d]) == [a, c, d, b]
  {
    assert [a, b, c, d][1..] == [b, c, d] && [b, c, d][1..] == [c, d] && [c, d][1..] == [d];
    assert SortNats([d]) == [d] by { assert [d][1..] == []; }
    assert SortNats([c, d]) == [c, d];
    assert SortNats([b, c, d]) == [c, d, b] by {
      if b > c {
        assert InsertNat(b, [c, d]) == [c] + InsertNat(b, [d]) by { assert [c, d][1..] == [d]; }
        assert InsertNat(b, [d]) == [d, b] by { assert [d][1..] == []; }
      }
    }
  }

  /** The pieces of an overlapping subtraction: the part of `s` before the
      intersection and the part after it, each kept only if non-empty. */
  lemma {:induction false} SubtractionClosedForm(s: Span, other: Span)
    requires Valid(s) && Valid(other) && Intersects(s, other) && !Contains(other, s)
    ensures var i := Intersection(s, other).value;
      var lo, hi := Span(s.start, i.start), Span(i.end, s.end);
      Subtraction(s, other) ==
        Some((if lo.start < lo.end then [lo] else []) + (if hi.start < hi.end then [hi] else []))
  {
    SubtractionBoundaries(s, other);
    var i := Intersection(s, other).value;
    var lo, hi := Span(s.start, i.start), Span(i.end, s.end);
    assert [lo, hi][1..] == [hi] && [hi][1..] == [];
    assert NonEmpty([hi]) == if hi.start < hi.end then [hi] else [];
  }

  /** Subtraction: `[s]` for disjoint spans; otherwise at most two non-empty pieces
      inside `s`, holding exactly the values of `s` outside `other`, whose lengths
      add up to `len(s) - len(intersection)`. */
  lemma {:induction false} SubtractionPieces(s: Span, other: Span)
    requires Valid(s) && Valid(other) && !Contains(other, s)
    ensures !Intersects(s, other) ==> Subtraction(s, other) == Some([s])
    ensures Intersects(s, other) ==>
              var pieces := Subtraction(s, other).value;
              var i := Intersection(s, other).value;
              |pieces| <= 2 &&
              (forall k :: 0 <= k < |pieces| ==>
                 pieces[k].start < pieces[k].end && Contains(s, pieces[k]) && !Intersects(pieces[k], other)) &&
              (forall v: nat :: (exists k :: 0 <= k < |pieces| && ContainsValue(pieces[k], v)) <==>
                                 ContainsValue(s, v) && !ContainsValue(other, v)) &&
              TotalLen(pieces) + Len(i) == Len(s)
  {
    if Intersects(s, other) {
      SubtractionClosedForm(s, other);
      var i := Intersection(s, other).value;
      var lo, hi := Span(s.start, i.start), Span(i.end, s.end);
      var pieces := Subtraction(s, other).value;
      forall v: nat ensures (exists k :: 0 <= k < |pieces| && ContainsValue(pieces[k], v)) <==>
                            ContainsValue(s, v) && !ContainsValue(other, v)
      {
        SubtractionValue(s, other, v);
      }
      assert TotalLen([]) == 0;
      assert TotalLen([hi]) == Len(hi);
      assert [lo, hi][1..] == [hi];
    }
  }

  /** A value lies in some piece of an overlapping subtraction exactly when
      `s` holds it and `other` does not. */
  lemma SubtractionValue(s: Span, other: Span, v: nat)
    requires Valid(s) && Valid(other) && Intersects(s, other) && !Contains(other, s)
    ensures var pieces := Subtraction(s, other).value;
      (exists k :: 0 <= k < |pieces| && ContainsValue(pieces[k], v)) <==> ContainsValue(s, v) && !ContainsValue(other, v)
  {
    SubtractionClosedForm(s, other);
    var i := Intersection(s, other).value;
    var pieces := Subtraction(s, other).value;
    if ContainsValue(s, v) && !ContainsValue(other, v) {
      if v < i.start {
        assert ContainsValue(pieces[0], v);
      } else {
        assert ContainsValue(pieces[|pieces| - 1], v);
      }
    }
  }

  /** The total length of a list of spans. */
  function TotalLen(pieces: seq<Span>): nat
    requires forall k :: 0 <= k < |pieces| ==> Valid(pieces[k])
  {
    if pieces == [] then 0 else Len(pieces[0]) + TotalLen(pieces[1..])
  }

  /** The pieces follow each other: each ends where the next starts. */
  predicate Contiguous(pieces: seq<Span>)
  {
    forall k :: 0 <= k < |pieces| - 1 ==> pieces[k].end == pieces[k + 1].start
  }

  /** Division of overlapping spans: the part of `s` before the intersection,
      the intersection, and the part after it, dropping empty outer parts. */
  lemma {:induction false} DivisionClosedForm(s: Span, other: Span)
    requires Valid(s) && other.start < other.end && Intersects(s, other) && !Contains(other, s)
    ensures var i := Intersection(s, other).value;
      var lo, hi := Span(s.start, i.start), Span(i.end, s.end);
      i.start < i.end &&
      Division(s, other) ==
        Some((if lo.start < lo.end then [lo] else []) + [i] + (if hi.start < hi.end then [hi] else []))
  {
    SubtractionClosedForm(s, other);
    DivisionOverlap(s, other);
    var i := Intersection(s, other).value;
    SortPieces(Span(s.start, i.start), i, Span(i.end, s.end));
  }

  /** The pieces before and after a non-empty middle span, at least one of
      them non-empty, sort around it. */
  lemma SortPieces(lo: Span, i: Span, hi: Span)
    requires lo.start <= lo.end == i.start < i.end == hi.start <= hi.end
    requires lo.start < lo.end || hi.start < hi.end
    ensures var outer := (if lo.start < lo.end then [lo] else []) + (if hi.start < hi.end then [hi] else []);
      SortByStart(outer + [i]) == (if lo.start < lo.end then [lo] else []) + [i] + (if hi.start < hi.end then [hi] else [])
  {
    if lo.start < lo.end && hi.start < hi.end {
      assert [lo] + [hi] + [i] == [lo, hi, i];
      SortThree(lo, hi, i);
      assert [lo] + [i] + [hi] == [lo, i, hi];
    } else if lo.start < lo.end {
      assert [lo] + [] + [i] == [lo, i];
      SortTwo(lo, i);
      assert [lo] + [i] + [] == [lo, i];
    } else {
      assert [] + [hi] + [i] == [hi, i];
      SortTwo(hi, i);
      assert [] + [i] + [hi] == [i, hi];
    }
  }

  /** Division of overlapping spans sorts the subtraction's pieces with the
      intersection appended. */
  lemma DivisionOverlap(s: Span, other: Span)
    requires Intersects(s, other) && !Contains(other, s)
    ensures Division(s, other) == Some(SortByStart(Subtraction(s, other).value + [Intersection(s, other).value]))
  {
  }

  /** Sorting two spans by start; ties keep their order. */
  lemma SortTwo(a: Span, b: Span)
    ensures SortByStart([a, b]) == if b.start < a.start then [b, a] else [a, b]
  {
    assert [a, b][..1] == [a] && [a][..0] == [];
    assert SortByStart([a]) == [a];
    assert InsertByStart(b, [a]) == if b.start < a.start then [b, a] else [a] + InsertByStart(b, []) by {
      assert [a][1..] == [];
    }
  }

  /** Division never fails, returns `[s]` when `other` covers `s` or misses it,
      and otherwise cuts `s` into valid pieces, sorted by start, each ending where
      the next begins, running from `s.start` to `s.end`. */
  lemma {:induction false} DivisionCovers(s: Span, other: Span)
    requires Valid(s) && other.start < other.end
    ensures var pieces := Division(s, other).value;
      |pieces| > 0 && pieces[0].start == s.start && pieces[|pieces| - 1].end == s.end &&
      Contiguous(pieces) &&
      (forall k :: 0 <= k < |pieces| ==> Valid(pieces[k])) &&
      (forall k, l :: 0 <= k < l < |pieces| ==> pieces[k].start < pieces[l].start)
  {
    if !Contains(other, s) && Intersects(s, other) {
      DivisionClosedForm(s, other);
    }
  }

  lemma {:induction false} SortThree(lo: Span, hi: Span, i: Span)
    requires lo.start < i.start < hi.start
    ensures SortByStart([lo, hi, i]) == [lo, i, hi]
  {
    assert [lo, hi, i][..2] == [lo, hi] && [lo, hi][..1] == [lo] && [lo][..0] == [];
    assert SortByStart([lo]) == [lo];
    assert InsertByStart(hi, [lo]) == [lo, hi] by { assert [lo][1..] == []; }
    assert SortByStart([lo, hi]) == [lo, hi];
    assert InsertByStart(i, [lo, hi]) == [lo] + InsertByStart(i, [hi]) by { assert [lo, hi][1..] == [hi]; }
  }

  /** Dividing by an empty span strictly inside `s` leaves the empty
      intersection after the piece that starts at the same value, so the pieces
      are not contiguous. */
  lemma EmptyDivisor()
    ensures Division(Span(0, 10), Span(5, 5)) == Some([Span(0, 5), Span(5, 10), Span(5, 5)])
    ensures !Contiguous(Division(Span(0, 10), Span(5, 5)).value)
  {
    SubtractionClosedForm(Span(0, 10), Span(5, 5));
    var lo, hi, i := Span(0, 5), Span(5, 10), Span(5, 5);
    assert Intersection(Span(0, 10), Span(5, 5)) == Some(i);
    assert [lo] + [hi] == [lo, hi];
    assert Subtraction(Span(0, 10), Span(5, 5)) == Some([lo, hi]);
    assert Division(Span(0, 10), Span(5, 5)) == Some(SortByStart([lo, hi] + [i]));
    assert [lo, hi] + [i] == [lo, hi, i];
    assert [lo, hi, i][..2] == [lo, hi] && [lo, hi][..1] == [lo] && [lo][..0] == [];
    assert SortByStart([lo]) == [lo];
    assert InsertByStart(hi, [lo]) == [lo, hi] by { assert [lo][1..] == []; }
    assert SortByStart([lo, hi]) == [lo, hi];
    assert InsertByStart(i, [lo, hi]) == [lo, hi, i] by {
      assert [lo, hi][1..] == [hi] && [hi][1..] == [];
      assert InsertByStart(i, [hi]) == [hi, i];
    }
  }

  /** The literal cases of the span tests. */
  lemma Examples()
    ensures New(3, 5) == Span(3, 5) && New(5, 3) == Span(3, 5)
    ensures Len(Span(7, 16)) == 9
    ensures ContainsValue(Span(7, 16), 7) && ContainsValue(Span(7, 16), 10) && !ContainsValue(Span(7, 16), 16)
    ensures Contains(Span(7, 16), Span(7, 10)) && Contains(Span(7, 16), Span(10, 13))
    ensures !Contains(Span(7, 16), Span(4, 7)) && !Contains(Span(7, 16), Span(16, 19))
    ensures Contains(Span(5, 18), Span(7, 16))
    ensures Intersection(Span(7, 16), Span(4, 7)) == None
    ensures Intersection(Span(7, 16), Span(7, 10)) == Some(Span(7, 10))
    ensures Intersection(Span(7, 16), Span(10, 13)) == Some(Span(10, 13))
    ensures Intersection(Span(7, 16), Span(16, 19)) == None
    ensures Intersection(Span(7, 16), Span(18, 21)) == None
    ensures Intersection(Span(7, 16), Span(5, 18)) == Some(Span(7, 16))
    ensures Union(Span(7, 16), Span(4, 7)) == None
    ensures Union(Span(7, 16), Span(18, 21)) == None
    ensures Union(Span(7, 16), Span(7, 10)) == Some(Span(7, 16))
    ensures Union(Span(7, 16), Span(10, 13)) == Some(Span(7, 16))
    ensures Union(Span(7, 16), Span(16, 19)) == None
    ensures Union(Span(7, 16), Span(5, 18)) == Some(Span(5, 18))
    ensures Subtraction(Span(7, 16), Span(5, 18)) == None
  {
  }

  /** The literal cases of the subtraction test where `other` misses `s` or
      lies strictly inside it. */
  lemma {:induction false} SubtractionExamples()
    ensures Subtraction(Span(7, 16), Span(4, 7)) == Some([Span(7, 16)])
    ensures Subtraction(Span(7, 16), Span(10, 13)) == Some([Span(7, 10), Span(13, 16)])
  {
    var a := Span(7, 16);
    assert Intersection(a, Span(10, 13)) == Some(Span(10, 13));
    SubtractionClosedForm(a, Span(10, 13));
    assert [Span(7, 10)] + [Span(13, 16)] == [Span(7, 10), Span(13, 16)];
  }

  /** The literal cases of the subtraction test where `other` covers one end of `s`. */
  lemma {:induction false} SubtractionEdgeExamples()
    ensures Subtraction(Span(7, 16), Span(7, 10)) == Some([Span(10, 16)])
    ensures Subtraction(Span(7, 16), Span(10, 21)) == Some([Span(7, 10)])
  {
    var a := Span(7, 16);
    assert Intersection(a, Span(7, 10)) == Some(Span(7, 10));
    SubtractionClosedForm(a, Span(7, 10));
    assert [] + [Span(10, 16)] == [Span(10, 16)];
    assert Intersection(a, Span(10, 21)) == Some(Span(10, 16));
    SubtractionClosedForm(a, Span(10, 21));
    assert [Span(7, 10)] + [] == [Span(7, 10)];
  }

  /** The literal cases of the division test where `other` misses, covers or
      lies strictly inside `s`. */
  lemma {:induction false} DivisionExamples()
    ensures Division(Span(7, 16), Span(4, 7)) == Some([Span(7, 16)])
    ensures Division(Span(7, 16), Span(5, 18)) == Some([Span(7, 16)])
    ensures Division(Span(7, 16), Span(10, 13)) == Some([Span(7, 10), Span(10, 13), Span(13, 16)])
  {
    var a := Span(7, 16);
    DivisionCovers(a, Span(4, 7));
    assert Intersection(a, Span(10, 13)) == Some(Span(10, 13));
    DivisionClosedForm(a, Span(10, 13));
    assert [Span(7, 10)] + [Span(10, 13)] + [Span(13, 16)] == [Span(7, 10), Span(10, 13), Span(13, 16)];
  }

  /** The literal cases of the division test where `other` covers one end of `s`. */
  lemma DivisionEdgeExamples()
    ensures Division(Span(7, 16), Span(7, 10)) == Some([Span(7, 10), Span(10, 16)])
    ensures Division(Span(7, 16), Span(10, 21)) == Some([Span(7, 10), Span(10, 16)])
  {
    DivisionLowEdge();
    DivisionHighEdge();
  }

  lemma {:induction false} DivisionLowEdge()
    ensures Division(Span(7, 16), Span(7, 10)) == Some([Span(7, 10), Span(10, 16)])
  {
    assert Intersection(Span(7, 16), Span(7, 10)) == Some(Span(7, 10));
    DivisionClosedForm(Span(7, 16), Span(7, 10));
    assert [] + [Span(7, 10)] + [Span(10, 16)] == [Span(7, 10), Span(10, 16)];
  }

  lemma {:induction false} DivisionHighEdge()
    ensures Division(Span(7, 16), Span(10, 21)) == Some([Span(7, 10), Span(10, 16)])
  {
    assert Intersection(Span(7, 16), Span(10, 21)) == Some(Span(10, 16));
    DivisionClosedForm(Span(7, 16), Span(10, 21));
    assert [Span(7, 10)] + [Span(10, 16)] + [] == [Span(7, 10), Span(10, 16)];
  }
}
