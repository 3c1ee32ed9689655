/** The HASH algorithm and the lens boxes (src/day15.rs).  A box holds its
    lenses in insertion order, at most one per label. */
module Day15 {
  import opened Text

  // ---------------------------------------------------------------------------
  // HASH

  /** `char::to_ascii_lowercase`, as a character code. */
  function LowerCode(c: char): (n: nat)
    ensures 'A' <= c <= 'Z' ==> n == c as nat + 32
    ensures !('A' <= c <= 'Z') ==> n == c as nat
  {
    if 'A' <= c <= 'Z' then c as nat + 32 else c as nat
  }

  /** One step of the fold: add the code, multiply by 17, keep the remainder modulo 256. */
  function HashStep(acc: nat, c: char): (r: nat)
    ensures r < 256
  {
    ((LowerCode(c) + acc) * 17) % 256
  }

  /** `hash_seq`: the fold over the characters from 0. */
  function HashSeq(s: string): (r: nat)
    ensures r < 256
    ensures s == [] ==> r == 0
  {
    if s == [] then 0 else HashStep(HashSeq(s[..|s| - 1]), s[|s| - 1])
  }

  /** The hash of a longer string continues from the hash of its prefix. */
  lemma {:induction false} HashAppend(s: string, t: string)
    ensures HashSeq(s + t) == HashFrom(HashSeq(s), t)
    decreases |t|
  {
    if t == [] {
      assert s + t == s;
    } else {
      assert (s + t)[..|s + t| - 1] == s + t[..|t| - 1];
      assert (s + t)[|s + t| - 1] == t[|t| - 1];
      HashAppend(s, t[..|t| - 1]);
    }
  }

  /** The fold started from `acc` instead of 0. */
  function HashFrom(acc: nat, t: string): nat
  {
    if t == [] then acc else HashStep(HashFrom(acc, t[..|t| - 1]), t[|t| - 1])
  }

  /** Upper and lower case letters hash alike. */
  lemma {:induction false} HashIgnoresCase(s: string, t: string)
    requires |s| == |t|
    requires forall i :: 0 <= i < |s| ==> LowerCode(s[i]) == LowerCode(t[i])
    ensures HashSeq(s) == HashSeq(t)
  {
    if s != [] {
      HashIgnoresCase(s[..|s| - 1], t[..|t| - 1]);
    }
  }

  lemma HashExample1()
    ensures HashSeq("rn=1") == 30
  {
    assert "r"[..0] == "";
    assert HashSeq("r") == 146;
    assert "rn"[..1] == "r";
    assert HashSeq("rn") == 0;
    assert "rn="[..2] == "rn";
    assert HashSeq("rn=") == 13;
    assert "rn=1"[..3] == "rn=";
  }

  lemma HashExample2()
    ensures HashSeq("ab=5") == 197
  {
    assert "a"[..0] == "";
    assert HashSeq("a") == 113;
    assert "ab"[..1] == "a";
    assert HashSeq("ab") == 3;
    assert "ab="[..2] == "ab";
    assert HashSeq("ab=") == 64;
    assert "ab=5"[..3] == "ab=";
  }

  lemma HashExample3()
    ensures HashSeq("qp-") == 14
  {
    assert "q"[..0] == "";
    assert HashSeq("q") == 129;
    assert "qp"[..1] == "q";
    assert HashSeq("qp") == 1;
    assert "qp-"[..2] == "qp";
  }

  // ---------------------------------------------------------------------------
  // Part 1

  /** `prepare`: the first line split on commas; `first().unwrap()` needs a line. */
  function Prepare(lines: seq<string>): (r: Option<seq<string>>)
    ensures r.Some? <==> |lines| > 0
    ensures r.Some? ==> |r.value| > 0 && Join(r.value, ",") == lines[0]
    ensures r.Some? ==> forall k :: 0 <= k < |r.value| ==> ',' !in r.value[k]
    ensures r.Some? ==> r.value == Split(lines[0], ",")
  {
    if |lines| == 0 then None
    else
      var steps := SplitChar(lines[0], ',');
      SplitCharAgrees(lines[0], ',');
      SplitCharPieces(lines[0], ',');
      Some(steps)
  }

  function HashSum(steps: seq<string>): nat
  {
    if steps == [] then 0 else HashSum(steps[..|steps| - 1]) + HashSeq(steps[|steps| - 1])
  }

  /** `part_1`: the fold adding each step's hash. */
  function Part1(steps: seq<string>): (total: nat)
    ensures total == HashSum(steps)
    ensures total <= 255 * |steps|
  {
    HashSumBound(steps);
    HashSum(steps)
  }

  lemma {:induction false} HashSumBound(steps: seq<string>)
    ensures HashSum(steps) <= 255 * |steps|
  {
    if steps != [] {
      HashSumBound(steps[..|steps| - 1]);
    }
  }

  // ---------------------------------------------------------------------------
  // Lens operations

  datatype LensOp = Remove(id: nat, name: string) | Insert(id: nat, name: string, focal: nat)

  /** A step becomes an insertion when it holds `=` and a removal otherwise;
      `None` where the source panics on a focal length that does not parse. */
  function ParseStep(step: string): (r: Option<LensOp>)
    ensures r.Some? ==> r.value.id == HashSeq(r.value.name)
  {
    match SplitOnce(step, "=")
    case Some((name, focal)) =>
      (match ParseNat(focal)
       case None => None
       case Some(f) => Some(Insert(HashSeq(name), name, f)))
    case None =>
      var name := RemoveAll(step, '-');
      Some(Remove(HashSeq(name), name))
  }

  /** A step with `=` splits at its first `=` into label and focal length; any
      other step is a removal of the step with its dashes dropped. */
  lemma ParseStepCases(step: string)
    ensures SplitOnce(step, "=").Some? ==>
              var (name, focal) := SplitOnce(step, "=").value;
              ParseStep(step) == (if ParseNat(focal).Some? then Some(Insert(HashSeq(name), name, ParseNat(focal).value)) else None)
    ensures !Contains(step, "=") ==> ParseStep(step) == Some(Remove(HashSeq(RemoveAll(step, '-')), RemoveAll(step, '-')))
  {
  }

  /** A lens is a label and a focal length. */
  type Lens = (string, nat)

  type Boxes = map<nat, seq<Lens>>

  /** The slot holding `label`, if any. */
  function Slot(lenses: seq<Lens>, name: string): (r: Option<nat>)
    ensures r.Some? ==> r.value < |lenses| && lenses[r.value].0 == name &&
                        forall j :: 0 <= j < r.value ==> lenses[j].0 != name
    ensures r.None? ==> forall j :: 0 <= j < |lenses| ==> lenses[j].0 != name
  {
    if lenses == [] then None
    else if lenses[0].0 == name then Some(0)
    else
      match Slot(lenses[1..], name)
      case None => None
      case Some(k) => Some(k + 1)
  }

  predicate UniqueLabels(lenses: seq<Lens>)
  {
    forall i, j :: 0 <= i < j < |lenses| ==> lenses[i].0 != lenses[j].0
  }

  /** `shift_remove`: drop the lens with that label and close the gap. */
  function RemoveLens(lenses: seq<Lens>, name: string): (r: seq<Lens>)
    ensures Slot(lenses, name).None? ==> r == lenses
    ensures Slot(lenses, name).Some? ==>
              var k := Slot(lenses, name).value; r == lenses[..k] + lenses[k + 1..]
  {
    if lenses == [] then []
    else if lenses[0].0 == name then lenses[1..]
    else [lenses[0]] + RemoveLens(lenses[1..], name)
  }

  /** `IndexMap::insert`: replace the focal length in place, or append. */
  function InsertLens(lenses: seq<Lens>, name: string, focal: nat): (r: seq<Lens>)
    ensures Slot(lenses, name).None? ==> r == lenses + [(name, focal)]
    ensures Slot(lenses, name).Some? ==> r == lenses[Slot(lenses, name).value := (name, focal)]
  {
    if lenses == [] then [(name, focal)]
    else if lenses[0].0 == name then [(name, focal)] + lenses[1..]
    else [lenses[0]] + InsertLens(lenses[1..], name, focal)
  }

  /** One operation on the boxes: removal touches an existing box only; an
      insertion into a missing box creates it with that lens alone. */
  function Apply(boxes: Boxes, op: LensOp): (r: Boxes)
    ensures forall id :: id != op.id ==> (id in r <==> id in boxes) && (id in r ==> r[id] == boxes[id])
    ensures op.Insert? ==> op.id in r
    ensures op.Remove? ==> (op.id in r <==> op.id in boxes)
  {
    match op
    case Remove(id, name) =>
      if id in boxes then boxes[id := RemoveLens(boxes[id], name)] else boxes
    case Insert(id, name, focal) =>
      if id in boxes then boxes[id := InsertLens(boxes[id], name, focal)] else boxes[id := [(name, focal)]]
  }

  /** The steps in order.  A box, once created, is never taken away: every
      box there was and every box an insertion names is there at the end. */
  function ApplyAll(boxes: Boxes, ops: seq<LensOp>): (r: Boxes)
    ensures forall id :: id in boxes ==> id in r
    ensures forall k :: 0 <= k < |ops| && ops[k].Insert? ==> ops[k].id in r
  {
    if ops == [] then boxes
    else
      var init := ops[..|ops| - 1];
      var before := ApplyAll(boxes, init);
      assert forall k :: 0 <= k < |init| ==> ops[k] == init[k];
      Apply(before, ops[|ops| - 1])
  }

  /** The invariant of the boxes: ids below 256, labels unique in a box, and
      each label in the box its hash names. */
  predicate Valid(boxes: Boxes)
  {
    forall id :: id in boxes ==>
      id < 256 && UniqueLabels(boxes[id]) &&
      forall k :: 0 <= k < |boxes[id]| ==> HashSeq(boxes[id][k].0) == id
  }

  predicate WellFormed(op: LensOp)
  {
    op.id == HashSeq(op.name)
  }

  lemma RemovePreserves(lenses: seq<Lens>, name: string, id: nat)
    requires UniqueLabels(lenses) && forall k :: 0 <= k < |lenses| ==> HashSeq(lenses[k].0) == id
    ensures var r := RemoveLens(lenses, name);
      UniqueLabels(r) && (forall k :: 0 <= k < |r| ==> HashSeq(r[k].0) == id && r[k].0 != name)
  {
    var r := RemoveLens(lenses, name);
    var s := Slot(lenses, name);
    if s.Some? {
      var k := s.value;
      forall i | 0 <= i < |r| ensures r[i] == (if i < k then lenses[i] else lenses[i + 1]) {
      }
    }
  }

  lemma InsertPreserves(lenses: seq<Lens>, name: string, focal: nat, id: nat)
    requires UniqueLabels(lenses) && forall k :: 0 <= k < |lenses| ==> HashSeq(lenses[k].0) == id
    requires HashSeq(name) == id
    ensures var r := InsertLens(lenses, name, focal);
      UniqueLabels(r) && forall k :: 0 <= k < |r| ==> HashSeq(r[k].0) == id
  {
  }

  /** Every well-formed operation keeps the invariant. */
  lemma ApplyValid(boxes: Boxes, op: LensOp)
    requires Valid(boxes) && WellFormed(op)
    ensures Valid(Apply(boxes, op))
  {
    if op.id in boxes {
      match op
      case Remove(id, name) => RemovePreserves(boxes[id], name, id);
      case Insert(id, name, focal) => InsertPreserves(boxes[id], name, focal, id);
    }
  }

  lemma {:induction false} ApplyAllValid(boxes: Boxes, ops: seq<LensOp>)
    requires Valid(boxes) && forall k :: 0 <= k < |ops| ==> WellFormed(ops[k])
    ensures Valid(ApplyAll(boxes, ops))
  {
    if ops != [] {
      ApplyAllValid(boxes, ops[..|ops| - 1]);
      ApplyValid(ApplyAll(boxes, ops[..|ops| - 1]), ops[|ops| - 1]);
    }
  }

  /** After inserting a label its box holds it with the new focal length, and
      every other box is untouched. */
  lemma InsertSets(boxes: Boxes, id: nat, name: string, focal: nat)
    ensures var b := Apply(boxes, Insert(id, name, focal));
      id in b && Slot(b[id], name).Some? && b[id][Slot(b[id], name).value] == (name, focal) &&
      forall other :: other != id ==> (other in b <==> other in boxes) && (other in b ==> b[other] == boxes[other])
  {
    var b: Boxes := Apply(boxes, Insert(id, name, focal));
    if id in boxes {
      var lenses := boxes[id];
      var s := Slot(lenses, name);
      if s.Some? {
        assert b[id][s.value].0 == name;
        assert Slot(b[id], name) == s;
      } else {
        assert b[id][|lenses|].0 == name;
        assert Slot(b[id], name) == Some(|lenses|);
      }
    } else {
      assert Slot(b[id], name) == Some(0);
    }
  }

  /** After removing a label no lens of its box carries it. */
  lemma RemoveClears(boxes: Boxes, id: nat, name: string)
    requires Valid(boxes)
    ensures var b := Apply(boxes, Remove(id, name));
      (id in b ==> Slot(b[id], name).None?) &&
      forall other :: other != id ==> (other in b <==> other in boxes) && (other in b ==> b[other] == boxes[other])
  {
    if id in boxes {
      RemovePreserves(boxes[id], name, id);
    }
  }

  // ---------------------------------------------------------------------------
  // Focusing power

  /** The power of one box: (box + 1) × (slot + 1) × focal over its lenses. */
  function BoxPower(id: nat, lenses: seq<Lens>): nat
  {
    if lenses == [] then 0
    else BoxPower(id, lenses[..|lenses| - 1]) + (id + 1) * |lenses| * lenses[|lenses| - 1].1
  }

  /** The power of boxes `0 .. n - 1`; a sum, so box order does not matter. */
  function PowerBelow(boxes: Boxes, n: nat): nat
  {
    if n == 0 then 0 else PowerBelow(boxes, n - 1) + (if n - 1 in boxes then BoxPower(n - 1, boxes[n - 1]) else 0)
  }

  /** The focusing power of the boxes with ids below 256, summed by box id. */
  function Power(boxes: Boxes): nat
  {
    PowerBelow(boxes, 256)
  }

  /** Every step parsed, or `None` as soon as one fails. */
  function ParseAll(steps: seq<string>): (r: Option<seq<LensOp>>)
    ensures r.Some? ==> |r.value| == |steps| && forall k :: 0 <= k < |steps| ==> ParseStep(steps[k]) == Some(r.value[k])
  {
    if steps == [] then Some([])
    else
      match ParseAll(steps[..|steps| - 1])
      case None => None
      case Some(ops) =>
        match ParseStep(steps[|steps| - 1])
        case None => None
        case Some(op) => Some(ops + [op])
  }

  /** The boxes built from parsed steps keep the invariant. */
  lemma ParsedBoxesValid(steps: seq<string>)
    requires ParseAll(steps).Some?
    ensures Valid(ApplyAll(map[], ParseAll(steps).value))
  {
    ApplyAllValid(map[], ParseAll(steps).value);
  }

  /** `part_2`: parse every step, run them over the boxes from empty, and sum
      the focusing power; `None` where a focal length does not parse. */
  method Part2(steps: seq<string>) returns (total: Option<nat>)
    ensures total == match ParseAll(steps)
                     case None => None
                     case Some(ops) => Some(Power(ApplyAll(map[], ops)))
  {
    var ops := ParseSteps(steps);
    if ops.None? {
      return None;
    }
    var boxes := RunSteps(ops.value);
    total := Some(Power(boxes));
  }

  /** The `map` over the steps that builds the operations. */
  method ParseSteps(steps: seq<string>) returns (r: Option<seq<LensOp>>)
    ensures r == ParseAll(steps)
  {
    var ops: seq<LensOp> := [];
    for i := 0 to |steps|
      invariant ParseAll(steps[..i]) == Some(ops)
    {
      assert steps[..i + 1][..i] == steps[..i];
      var op := ParseStep(steps[i]);
      if op.None? {
        ParseAllPrefix(steps, i + 1);
        return None;
      }
      ops := ops + [op.value];
    }
    assert steps[..|steps|] == steps;
    return Some(ops);
  }

  /** The loop over the operations, updating the boxes in place. */
  method RunSteps(ops: seq<LensOp>) returns (boxes: Boxes)
    ensures boxes == ApplyAll(map[], ops)
  {
    boxes := map[];
    for i := 0 to |ops|
      invariant boxes == ApplyAll(map[], ops[..i])
    {
      assert ops[..i + 1][..i] == ops[..i];
      match ops[i]
      case Remove(id, name) =>
        if id in boxes {
          boxes := boxes[id := RemoveLens(boxes[id], name)];
        }
      case Insert(id, name, focal) =>
        if id in boxes {
          boxes := boxes[id := InsertLens(boxes[id], name, focal)];
        } else {
          boxes := boxes[id := [(name, focal)]];
        }
    }
    assert ops[..|ops|] == ops;
  }

  lemma {:induction false} ParseAllPrefix(steps: seq<string>, n: nat)
    requires n <= |steps| && ParseAll(steps[..n]).None?
    ensures ParseAll(steps).None?
    decreases |steps| - n
  {
    if n < |steps| {
      assert steps[..n + 1][..n] == steps[..n];
      ParseAllPrefix(steps, n + 1);
    } else {
      assert steps[..n] == steps;
    }
  }

  /** Parsing fails exactly when some step's focal length does not parse. */
  lemma {:induction false} ParseAllFails(steps: seq<string>)
    ensures ParseAll(steps).None? <==> exists k :: 0 <= k < |steps| && ParseStep(steps[k]).None?
  {
    if steps != [] {
      var init := steps[..|steps| - 1];
      ParseAllFails(init);
      if ParseAll(init).None? {
        var k :| 0 <= k < |init| && ParseStep(init[k]).None?;
        assert steps[k] == init[k];
      } else if exists k :: 0 <= k < |steps| && ParseStep(steps[k]).None? {
        var k :| 0 <= k < |steps| && ParseStep(steps[k]).None?;
      }
    }
  }
}
