/**
 How each sent unit has fared over any number of alignments. Word spaces are
 not tracked.
 */
module CharStats {
  import opened Wrappers
  import opened Codec
  import opened Alignment
  import Unordered

  datatype CharTally = CharTally(sent: nat, correct: nat, missed: nat, insertedNear: nat, confusedAs: map<Unit, nat>)

  const NEVER := CharTally(0, 0, 0, 0, map[])

  // -------------------------------------------------------------------------
  // Adding counts
  // -------------------------------------------------------------------------

  function CountOf(m: map<Unit, nat>, u: Unit): nat {
    if u in m then m[u] else 0
  }

  function AddCounts(a: map<Unit, nat>, b: map<Unit, nat>): map<Unit, nat> {
    map u | u in a.Keys + b.Keys :: CountOf(a, u) + CountOf(b, u)
  }

  function AddTally(a: CharTally, b: CharTally): CharTally {
    CharTally(a.sent + b.sent, a.correct + b.correct, a.missed + b.missed, a.insertedNear + b.insertedNear,
              AddCounts(a.confusedAs, b.confusedAs))
  }

  type Stats = map<Unit, CharTally>

  function TallyOf(s: Stats, u: Unit): CharTally {
    if u in s then s[u] else NEVER
  }

  function Merged(a: Stats, b: Stats): Stats {
    map u | u in a.Keys + b.Keys :: AddTally(TallyOf(a, u), TallyOf(b, u))
  }

  lemma CountOfAdded(a: map<Unit, nat>, b: map<Unit, nat>, u: Unit)
    ensures CountOf(AddCounts(a, b), u) == CountOf(a, u) + CountOf(b, u)
    ensures AddCounts(a, b).Keys == a.Keys + b.Keys
  {
  }

  lemma SameCounts(a: map<Unit, nat>, b: map<Unit, nat>)
    requires a.Keys == b.Keys && forall u :: u in a ==> CountOf(a, u) == CountOf(b, u)
    ensures a == b
  {
    forall u | u in a ensures u in b && a[u] == b[u] {
      assert CountOf(a, u) == CountOf(b, u);
      assert u in b.Keys;
    }
  }

  lemma AddCountsCommutes(a: map<Unit, nat>, b: map<Unit, nat>)
    ensures AddCounts(a, b) == AddCounts(b, a)
  {
    SameCounts(AddCounts(a, b), AddCounts(b, a));
  }

  lemma AddCountsAssociates(a: map<Unit, nat>, b: map<Unit, nat>, c: map<Unit, nat>)
    ensures AddCounts(AddCounts(a, b), c) == AddCounts(a, AddCounts(b, c))
  {
    hide AddCounts, CountOf;
    var left, right := AddCounts(AddCounts(a, b), c), AddCounts(a, AddCounts(b, c));
    forall u ensures CountOf(left, u) == CountOf(right, u) && left.Keys == right.Keys {
      CountOfAdded(a, b, u);
      CountOfAdded(b, c, u);
      CountOfAdded(AddCounts(a, b), c, u);
      CountOfAdded(a, AddCounts(b, c), u);
    }
    var u: Unit := WordSpace;
    assert CountOf(left, u) == CountOf(right, u);
    SameCounts(left, right);
  }

  lemma AddNoCounts(a: map<Unit, nat>)
    ensures AddCounts(a, map[]) == a && AddCounts(map[], a) == a
  {
    SameCounts(AddCounts(a, map[]), a);
    SameCounts(AddCounts(map[], a), a);
  }

  lemma AddTallyLaws(a: CharTally, b: CharTally, c: CharTally)
    ensures AddTally(a, b) == AddTally(b, a)
    ensures AddTally(AddTally(a, b), c) == AddTally(a, AddTally(b, c))
    ensures AddTally(a, NEVER) == a && AddTally(NEVER, a) == a
  {
    hide AddCounts;
    AddCountsCommutes(a.confusedAs, b.confusedAs);
    AddCountsAssociates(a.confusedAs, b.confusedAs, c.confusedAs);
    AddNoCounts(a.confusedAs);
  }

  lemma TallyOfMerged(a: Stats, b: Stats, u: Unit)
    ensures TallyOf(Merged(a, b), u) == AddTally(TallyOf(a, u), TallyOf(b, u))
  {
    hide AddTally;
    AddTallyLaws(NEVER, NEVER, NEVER);
  }

  /** Two sets of stats are the same when they track the same units with the same tallies. */
  lemma SameStats(a: Stats, b: Stats)
    requires a.Keys == b.Keys && forall u :: u in a ==> TallyOf(a, u) == TallyOf(b, u)
    ensures a == b
  {
    forall u | u in a ensures u in b && a[u] == b[u] {
      assert TallyOf(a, u) == TallyOf(b, u);
      assert u in b.Keys;
    }
  }

  lemma MergeCommutes(a: Stats, b: Stats)
    ensures Merged(a, b) == Merged(b, a)
  {
    hide AddTally;
    forall u | u in Merged(a, b) ensures TallyOf(Merged(a, b), u) == TallyOf(Merged(b, a), u) {
      AddTallyLaws(TallyOf(a, u), TallyOf(b, u), NEVER);
    }
    SameStats(Merged(a, b), Merged(b, a));
  }

  lemma MergeAssociates(a: Stats, b: Stats, c: Stats)
    ensures Merged(Merged(a, b), c) == Merged(a, Merged(b, c))
  {
    hide Merged, AddTally, TallyOf;
    var left, right := Merged(Merged(a, b), c), Merged(a, Merged(b, c));
    KeysOfMerged(a, b);
    KeysOfMerged(b, c);
    KeysOfMerged(Merged(a, b), c);
    KeysOfMerged(a, Merged(b, c));
    assert left.Keys == right.Keys;
    forall u | u in left ensures TallyOf(left, u) == TallyOf(right, u) {
      TallyOfMerged(a, b, u);
      TallyOfMerged(b, c, u);
      TallyOfMerged(Merged(a, b), c, u);
      TallyOfMerged(a, Merged(b, c), u);
      AddTallyLaws(TallyOf(a, u), TallyOf(b, u), TallyOf(c, u));
    }
    SameStats(left, right);
  }

  lemma KeysOfMerged(a: Stats, b: Stats)
    ensures Merged(a, b).Keys == a.Keys + b.Keys
  {
  }

  lemma MergeNothing(a: Stats)
    ensures Merged(a, map[]) == a && Merged(map[], a) == a
  {
    forall u | u in a ensures AddTally(TallyOf(a, u), NEVER) == a[u] && AddTally(NEVER, TallyOf(a, u)) == a[u] {
      AddTallyLaws(a[u], NEVER, NEVER);
    }
  }

  // -------------------------------------------------------------------------
  // What one step and one alignment add
  // -------------------------------------------------------------------------

  /** The unit a step tells about, if it is one that is tracked. */
  function UnitOf(expected: seq<Unit>, op: AlignOp): Option<Unit> {
    var u := if !op.Insertion? then Some(op.expected)
             else if op.attributedTo.Some? && op.attributedTo.value < |expected|
             then Some(expected[op.attributedTo.value])
             else None;
    if u == Some(WordSpace) then None else u
  }

  function TallyOfStep(op: AlignOp): CharTally {
    match op
    case Match(_) => CharTally(1, 1, 0, 0, map[])
    case Deletion(_) => CharTally(1, 0, 1, 0, map[])
    case Substitution(_, y) => CharTally(1, 0, 0, 0, map[y := 1])
    case Insertion(_, _) => CharTally(0, 0, 0, 1, map[])
  }

  function StatsOfStep(expected: seq<Unit>, op: AlignOp): Stats {
    match UnitOf(expected, op)
    case None => map[]
    case Some(u) => map[u := TallyOfStep(op)]
  }

  function StatsOf(expected: seq<Unit>, ops: seq<AlignOp>): Stats {
    if ops == [] then map[]
    else Merged(StatsOf(expected, ops[..|ops| - 1]), StatsOfStep(expected, ops[|ops| - 1]))
  }

  /** The stats of many alignments. */
  function StatsOfAll(all: seq<Alignment>): Stats {
    if all == [] then map[]
    else Merged(StatsOfAll(all[..|all| - 1]), StatsOf(all[|all| - 1].expected, all[|all| - 1].ops))
  }

  // -------------------------------------------------------------------------
  // The running stats
  // -------------------------------------------------------------------------

  class CharStats {
    var units: Stats

    constructor ()
      ensures units == map[]
    {
      units := map[];
    }

    /** One step's counts, added to the unit's entry or to a new one. */
    method Count(u: Unit, t: CharTally)
      modifies this
      ensures units == Merged(old(units), map[u := t])
    {
      var was := TallyOf(units, u);
      ghost var before := units;
      units := units[u := AddTally(was, t)];
      EntryMerged(before, u, t);
    }

    method Record(a: Alignment)
      modifies this
      ensures units == Merged(old(units), StatsOf(a.expected, a.ops))
    {
      hide Merged;
      MergeNothing(units);
      for i := 0 to |a.ops|
        invariant units == Merged(old(units), StatsOf(a.expected, a.ops[..i]))
      {
        var op := a.ops[i];
        ghost var before := units;
        var unit := if op.Insertion? then
                      if op.attributedTo.Some? && op.attributedTo.value < |a.expected|
                      then Some(a.expected[op.attributedTo.value])
                      else None
                    else Some(op.expected);
        if unit.Some? && unit.value != WordSpace {
          match op {
            case Match(_) => Count(unit.value, CharTally(1, 1, 0, 0, map[]));
            case Deletion(_) => Count(unit.value, CharTally(1, 0, 1, 0, map[]));
            case Substitution(_, copied) => Count(unit.value, CharTally(1, 0, 0, 0, map[copied := 1]));
            case Insertion(_, _) => Count(unit.value, CharTally(0, 0, 0, 1, map[]));
          }
        } else {
          MergeNothing(units);
        }
        assert a.ops[..i + 1][..i] == a.ops[..i];
        MergeAssociates(old(units), StatsOf(a.expected, a.ops[..i]), StatsOfStep(a.expected, op));
      }
      assert a.ops[..|a.ops|] == a.ops;
    }

    method RecordUnordered(u: Unordered.UnorderedAlignment)
      modifies this
      ensures units == Merged(old(units), StatsOfAll(u.items + u.extras))
    {
      hide Merged, StatsOf;
      var all := u.items + u.extras;
      MergeNothing(units);
      for i := 0 to |all|
        invariant units == Merged(old(units), StatsOfAll(all[..i]))
      {
        Record(all[i]);
        assert all[..i + 1][..i] == all[..i];
        MergeAssociates(old(units), StatsOfAll(all[..i]), StatsOf(all[i].expected, all[i].ops));
      }
      assert all[..|all|] == all;
    }

    method Merge(other: CharStats)
      requires other != this
      modifies this
      ensures units == Merged(old(units), other.units)
    {
      hide Merged;
      var left := other.units;
      MergeNothing(units);
      Restricted(other.units, left);
      while left != map[]
        invariant left.Keys <= other.units.Keys && (forall u :: u in left ==> left[u] == other.units[u])
        invariant other.units == old(other.units)
        invariant units == Merged(old(units), other.units - left.Keys)
        decreases |left|
      {
        var u :| u in left;
        ghost var done := other.units - left.Keys;
        Count(u, left[u]);
        MergeAssociates(old(units), done, map[u := left[u]]);
        OneMore(other.units, left, u);
        left := left - {u};
      }
      assert other.units - left.Keys == other.units;
    }
  }

  lemma EntryMerged(s: Stats, u: Unit, t: CharTally)
    ensures s[u := AddTally(TallyOf(s, u), t)] == Merged(s, map[u := t])
  {
    hide AddTally;
    var after := s[u := AddTally(TallyOf(s, u), t)];
    forall v | v in after ensures TallyOf(after, v) == TallyOf(Merged(s, map[u := t]), v) {
      AddTallyLaws(TallyOf(s, v), NEVER, NEVER);
    }
    SameStats(after, Merged(s, map[u := t]));
  }

  lemma Restricted(s: Stats, left: Stats)
    requires s == left
    ensures s - left.Keys == map[]
  {
  }

  lemma OneMore(s: Stats, left: Stats, u: Unit)
    requires u in left && u in s && left[u] == s[u]
    ensures Merged(s - left.Keys, map[u := left[u]]) == s - (left - {u}).Keys
  {
    hide AddTally;
    var done, more := s - left.Keys, s - (left - {u}).Keys;
    assert more.Keys == done.Keys + {u};
    forall v | v in more ensures TallyOf(Merged(done, map[u := left[u]]), v) == TallyOf(more, v) {
      AddTallyLaws(TallyOf(more, v), NEVER, NEVER);
    }
    SameStats(Merged(done, map[u := left[u]]), more);
  }

  // -------------------------------------------------------------------------
  // What the stats say
  // -------------------------------------------------------------------------

  /** Recording a run of alignments is merging the stats of its two parts, wherever it is split. */
  lemma {:induction false} SplitAnywhere(front: seq<Alignment>, back: seq<Alignment>)
    ensures StatsOfAll(front + back) == Merged(StatsOfAll(front), StatsOfAll(back))
  {
    hide Merged, StatsOf;
    if back == [] {
      assert front + back == front;
      MergeNothing(StatsOfAll(front));
    } else {
      var last := back[|back| - 1];
      SplitAnywhere(front, back[..|back| - 1]);
      assert (front + back)[..|front + back| - 1] == front + back[..|back| - 1];
      MergeAssociates(StatsOfAll(front), StatsOfAll(back[..|back| - 1]), StatsOf(last.expected, last.ops));
    }
  }

  lemma MoveToEnd(front: seq<Alignment>, one: Alignment, back: seq<Alignment>)
    ensures StatsOfAll(front + [one] + back) == StatsOfAll(front + back + [one])
  {
    hide Merged, StatsOfAll;
    var f, o, b := StatsOfAll(front), StatsOfAll([one]), StatsOfAll(back);
    SplitAnywhere(front, [one]);
    SplitAnywhere(front + [one], back);
    SplitAnywhere(front, back);
    SplitAnywhere(front + back, [one]);
    MergeAssociates(f, o, b);
    MergeCommutes(o, b);
    MergeAssociates(f, b, o);
  }

  /** Some other list with the same alignments holds `one`, with the same others around it. */
  lemma TakeOut(front: seq<Alignment>, one: Alignment, other: seq<Alignment>) returns (before: seq<Alignment>, after: seq<Alignment>)
    requires multiset(front + [one]) == multiset(other)
    ensures other == before + [one] + after && multiset(front) == multiset(before + after) && |front| < |other|
  {
    assert one in multiset(front + [one]);
    var i :| 0 <= i < |other| && other[i] == one;
    before, after := other[..i], other[i + 1..];
    assert other == before + [one] + after;
    assert multiset(other) == multiset(before + after) + multiset{one};
    assert multiset(front + [one]) == multiset(front) + multiset{one};
    assert multiset(front) == multiset(front + [one]) - multiset{one};
    assert |front + [one]| == |multiset(front + [one])| == |other|;
  }

  lemma StatsOfPush(all: seq<Alignment>, one: Alignment)
    ensures StatsOfAll(all + [one]) == Merged(StatsOfAll(all), StatsOf(one.expected, one.ops))
  {
    hide Merged, StatsOf;
    assert (all + [one])[..|all|] == all;
  }

  /** The order the alignments were recorded in makes no difference. */
  lemma {:induction false} OrderDoesNotMatter(all: seq<Alignment>, other: seq<Alignment>)
    requires multiset(all) == multiset(other)
    ensures StatsOfAll(all) == StatsOfAll(other)
  {
    hide Merged, StatsOf, StatsOfAll;
    if all == [] {
      assert |other| == |multiset(other)| == 0;
    } else {
      var front, last := all[..|all| - 1], all[|all| - 1];
      assert all == front + [last];
      var before, after := TakeOut(front, last, other);
      OrderDoesNotMatter(front, before + after);
      MoveToEnd(before, last, after);
      StatsOfPush(front, last);
      StatsOfPush(before + after, last);
    }
  }

  /** The counts of a map, added up. */
  ghost function CountTotal(m: map<Unit, nat>): nat
  {
    if m == map[] then 0
    else
      var u :| u in m;
      m[u] + CountTotal(m - {u})
  }

  lemma {:induction false} SumWithout(m: map<Unit, nat>, u: Unit)
    requires u in m
    ensures CountTotal(m) == m[u] + CountTotal(m - {u})
  {
    assert m != map[];
    var v :| v in m && CountTotal(m) == m[v] + CountTotal(m - {v});
    if u != v {
      SumWithout(m - {v}, u);
      SumWithout(m - {u}, v);
      assert m - {u} - {v} == m - {v} - {u};
    }
  }

  lemma {:induction false} SumOfCounts(a: map<Unit, nat>, b: map<Unit, nat>)
    ensures CountTotal(AddCounts(a, b)) == CountTotal(a) + CountTotal(b)
    decreases |b|
  {
    hide AddCounts, CountTotal;
    if b == map[] {
      AddNoCounts(a);
      NoSum(b);
    } else {
      var u :| u in b;
      SumWithout(b, u);
      SumOfCounts(a - {u}, b - {u});
      AddedWithout(a, b, u);
      SumWithout(AddCounts(a, b), u);
      if u in a {
        SumWithout(a, u);
      } else {
        assert a - {u} == a;
      }
    }
  }

  lemma NoSum(m: map<Unit, nat>)
    requires m == map[]
    ensures CountTotal(m) == 0
  {
  }

  lemma AddedWithout(a: map<Unit, nat>, b: map<Unit, nat>, u: Unit)
    requires u in b
    ensures u in AddCounts(a, b) && AddCounts(a, b)[u] == CountOf(a, u) + b[u]
    ensures AddCounts(a, b) - {u} == AddCounts(a - {u}, b - {u})
  {
    SameCounts(AddCounts(a, b) - {u}, AddCounts(a - {u}, b - {u}));
  }

  /** Every time a unit was sent it was copied right, missed, or taken for another. */
  ghost predicate Balanced(t: CharTally) {
    t.sent == t.correct + t.missed + CountTotal(t.confusedAs)
  }

  ghost predicate Sound(s: Stats) {
    WordSpace !in s && forall u :: u in s ==> Balanced(s[u])
  }

  lemma AddBalanced(a: CharTally, b: CharTally)
    requires Balanced(a) && Balanced(b)
    ensures Balanced(AddTally(a, b))
  {
    hide CountTotal, AddCounts;
    SumOfCounts(a.confusedAs, b.confusedAs);
  }

  lemma MergeKeepsSound(a: Stats, b: Stats)
    requires Sound(a) && Sound(b)
    ensures Sound(Merged(a, b))
  {
    hide AddTally, Balanced;
    NeverIsBalanced();
    forall u | u in Merged(a, b) ensures Balanced(Merged(a, b)[u]) {
      AddBalanced(TallyOf(a, u), TallyOf(b, u));
    }
  }

  lemma NeverIsBalanced()
    ensures Balanced(NEVER)
  {
  }

  lemma StepIsSound(expected: seq<Unit>, op: AlignOp)
    ensures Sound(StatsOfStep(expected, op))
  {
    NoSum(map[]);
    if op.Substitution? {
      var one := map[op.copied := 1];
      SumWithout(one, op.copied);
      assert one - {op.copied} == map[];
    }
  }

  lemma {:induction false} RecordedIsSound(expected: seq<Unit>, ops: seq<AlignOp>)
    ensures Sound(StatsOf(expected, ops))
  {
    hide Merged, StatsOfStep;
    if ops != [] {
      RecordedIsSound(expected, ops[..|ops| - 1]);
      StepIsSound(expected, ops[|ops| - 1]);
      MergeKeepsSound(StatsOf(expected, ops[..|ops| - 1]), StatsOfStep(expected, ops[|ops| - 1]));
    }
  }

  /** Whatever has been recorded, no word space is tracked and every tally balances. */
  lemma {:induction false} AllRecordedIsSound(all: seq<Alignment>)
    ensures Sound(StatsOfAll(all))
  {
    hide Merged, StatsOf;
    if all != [] {
      var last := all[|all| - 1];
      AllRecordedIsSound(all[..|all| - 1]);
      RecordedIsSound(last.expected, last.ops);
      MergeKeepsSound(StatsOfAll(all[..|all| - 1]), StatsOf(last.expected, last.ops));
    }
  }

  /** Whether a step charges an extra unit to `u`. */
  function ExtraNear(expected: seq<Unit>, op: AlignOp, u: Unit): nat {
    if op.Insertion? && UnitOf(expected, op) == Some(u) then 1 else 0
  }

  /** How many extra units were charged next to a unit. */
  function ExtrasNear(expected: seq<Unit>, ops: seq<AlignOp>, u: Unit): nat {
    if ops == [] then 0
    else ExtrasNear(expected, ops[..|ops| - 1], u) + ExtraNear(expected, ops[|ops| - 1], u)
  }

  /** An insertion charged to a place where the expected text holds `u`. */
  ghost predicate ChargedTo(expected: seq<Unit>, op: AlignOp, u: Unit) {
    op.Insertion? && exists i :: 0 <= i < |expected| && op.attributedTo == Some(i) && expected[i] == u
  }

  lemma ExtraIsCharged(expected: seq<Unit>, op: AlignOp, u: Unit)
    requires u != WordSpace
    ensures ExtraNear(expected, op, u) == if ChargedTo(expected, op, u) then 1 else 0
  {
    if op.Insertion? && op.attributedTo.Some? && op.attributedTo.value < |expected| {
      var i := op.attributedTo.value;
      assert ChargedTo(expected, op, u) <==> expected[i] == u;
    }
  }

  ghost function ChargedSteps(expected: seq<Unit>, ops: seq<AlignOp>, u: Unit): set<nat> {
    set p: nat | p < |ops| && ChargedTo(expected, ops[p], u)
  }

  /** The extras near a unit are the insertions charged to it. */
  lemma {:induction false} ExtrasAreCharged(expected: seq<Unit>, ops: seq<AlignOp>, u: Unit)
    requires u != WordSpace
    ensures ExtrasNear(expected, ops, u) == |ChargedSteps(expected, ops, u)|
  {
    hide ChargedTo, ExtraNear;
    if ops == [] {
      assert ChargedSteps(expected, ops, u) == {};
    } else {
      var k := |ops| - 1;
      ExtrasAreCharged(expected, ops[..k], u);
      ExtraIsCharged(expected, ops[k], u);
      var before, now := ChargedSteps(expected, ops[..k], u), ChargedSteps(expected, ops, u);
      if ChargedTo(expected, ops[k], u) {
        assert now == before + {k};
      } else {
        assert now == before;
      }
    }
  }

  /** A tally of `u` holds what counting the sent units and the steps by hand gives. */
  ghost predicate Reads(t: CharTally, sent: multiset<Unit>, steps: multiset<AlignOp>, extras: nat, u: Unit) {
    && t.sent == sent[u]
    && t.correct == steps[Match(u)]
    && t.missed == steps[Deletion(u)]
    && t.insertedNear == extras
    && forall y :: CountOf(t.confusedAs, y) == steps[Substitution(u, y)]
  }

  lemma ReadsAdd(a: CharTally, b: CharTally, sent: multiset<Unit>, sent': multiset<Unit>,
                 steps: multiset<AlignOp>, steps': multiset<AlignOp>, extras: nat, extras': nat, u: Unit)
    requires Reads(a, sent, steps, extras, u) && Reads(b, sent', steps', extras', u)
    ensures Reads(AddTally(a, b), sent + sent', steps + steps', extras + extras', u)
  {
    hide AddCounts, CountOf;
    forall y ensures CountOf(AddTally(a, b).confusedAs, y) == (steps + steps')[Substitution(u, y)] {
      CountOfAdded(a.confusedAs, b.confusedAs, y);
    }
  }

  lemma StepReads(expected: seq<Unit>, op: AlignOp, u: Unit)
    requires u != WordSpace
    ensures Reads(TallyOf(StatsOfStep(expected, op), u), multiset(SentBy(op)), multiset{op},
                  ExtraNear(expected, op, u), u)
  {
  }

  lemma NeverTallied(u: Unit)
    ensures TallyOf(map[], u) == NEVER
  {
  }

  lemma NothingReads(u: Unit)
    ensures Reads(NEVER, multiset{}, multiset{}, 0, u)
  {
  }

  /** After recording an alignment, each unit's tally is exactly what its steps say. */
  lemma {:induction false} TalliesReadSteps(expected: seq<Unit>, ops: seq<AlignOp>, u: Unit)
    requires u != WordSpace
    ensures Reads(TallyOf(StatsOf(expected, ops), u), multiset(Sent(ops)), multiset(ops), ExtrasNear(expected, ops, u), u)
  {
    hide Merged, StatsOfStep, Reads, AddTally, TallyOf, ExtraNear, SentBy;
    if ops == [] {
      NothingReads(u);
      assert TallyOf(map[], u) == NEVER by { NeverTallied(u); }
    } else {
      var front, last := ops[..|ops| - 1], ops[|ops| - 1];
      assert ops == front + [last];
      TalliesReadSteps(expected, front, u);
      StepReads(expected, last, u);
      TallyOfMerged(StatsOf(expected, front), StatsOfStep(expected, last), u);
      ReadsAdd(TallyOf(StatsOf(expected, front), u), TallyOf(StatsOfStep(expected, last), u),
               multiset(Sent(front)), multiset(SentBy(last)), multiset(front), multiset{last},
               ExtrasNear(expected, front, u), ExtraNear(expected, last, u), u);
    }
  }

  // -------------------------------------------------------------------------
  // What they say of a whole history
  // -------------------------------------------------------------------------

  /** Everything sent, over all the alignments recorded. */
  function AllSent(all: seq<Alignment>): seq<Unit> {
    if all == [] then [] else AllSent(all[..|all| - 1]) + Sent(all[|all| - 1].ops)
  }

  function AllSteps(all: seq<Alignment>): seq<AlignOp> {
    if all == [] then [] else AllSteps(all[..|all| - 1]) + all[|all| - 1].ops
  }

  function AllExtrasNear(all: seq<Alignment>, u: Unit): nat {
    if all == [] then 0
    else AllExtrasNear(all[..|all| - 1], u) + ExtrasNear(all[|all| - 1].expected, all[|all| - 1].ops, u)
  }

  /** Whatever was recorded, each unit's tally is exactly what all the steps together say. */
  lemma {:induction false} AllTalliesReadSteps(all: seq<Alignment>, u: Unit)
    requires u != WordSpace
    ensures Reads(TallyOf(StatsOfAll(all), u), multiset(AllSent(all)), multiset(AllSteps(all)), AllExtrasNear(all, u), u)
  {
    hide Merged, StatsOf, Reads, AddTally, Sent, ExtrasNear;
    if all == [] {
      NothingReads(u);
    } else {
      var front, last := all[..|all| - 1], all[|all| - 1];
      AllTalliesReadSteps(front, u);
      TalliesReadSteps(last.expected, last.ops, u);
      TallyOfMerged(StatsOfAll(front), StatsOf(last.expected, last.ops), u);
      ReadsAdd(TallyOf(StatsOfAll(front), u), TallyOf(StatsOf(last.expected, last.ops), u),
               multiset(AllSent(front)), multiset(Sent(last.ops)), multiset(AllSteps(front)), multiset(last.ops),
               AllExtrasNear(front, u), ExtrasNear(last.expected, last.ops, u), u);
    }
  }

  /** How often each tracked unit was sent. */
  function SentCounts(s: Stats): map<Unit, nat> {
    map u | u in s :: s[u].sent
  }

  lemma SentCountOf(s: Stats, u: Unit)
    ensures CountOf(SentCounts(s), u) == TallyOf(s, u).sent && SentCounts(s).Keys == s.Keys
  {
  }

  lemma SentCountsMerged(a: Stats, b: Stats)
    ensures SentCounts(Merged(a, b)) == AddCounts(SentCounts(a), SentCounts(b))
  {
    hide AddCounts, CountOf, SentCounts, Merged, TallyOf;
    var counts, added := SentCounts(Merged(a, b)), AddCounts(SentCounts(a), SentCounts(b));
    forall u ensures CountOf(counts, u) == CountOf(added, u) && counts.Keys == added.Keys {
      SentCountOf(a, u);
      SentCountOf(b, u);
      SentCountOf(Merged(a, b), u);
      TallyOfMerged(a, b, u);
      CountOfAdded(SentCounts(a), SentCounts(b), u);
      KeysOfMerged(a, b);
    }
    assert CountOf(counts, WordSpace) == CountOf(added, WordSpace);
    SameCounts(counts, added);
  }

  /** Every unit sent is counted once, but for the word spaces. */
  ghost predicate Accounts(s: Stats, sent: seq<Unit>) {
    CountTotal(SentCounts(s)) + multiset(sent)[WordSpace] == |sent|
  }

  lemma AccountsAdd(a: Stats, b: Stats, sent: seq<Unit>, sent': seq<Unit>)
    requires Accounts(a, sent) && Accounts(b, sent')
    ensures Accounts(Merged(a, b), sent + sent')
  {
    hide CountTotal, Merged, SentCounts, AddCounts;
    SentCountsMerged(a, b);
    SumOfCounts(SentCounts(a), SentCounts(b));
    assert multiset(sent + sent') == multiset(sent) + multiset(sent');
  }

  lemma NothingAccounts()
    ensures Accounts(map[], [])
  {
    NoSum(SentCounts(map[]));
  }

  lemma StepAccounts(expected: seq<Unit>, op: AlignOp)
    ensures Accounts(StatsOfStep(expected, op), SentBy(op))
  {
    hide CountTotal;
    var counts := SentCounts(StatsOfStep(expected, op));
    var unit := UnitOf(expected, op);
    match unit {
      case None => NoSum(counts);
      case Some(u) =>
        SumWithout(counts, u);
        NoSum(counts - {u});
    }
  }

  lemma {:induction false} StepsAccount(expected: seq<Unit>, ops: seq<AlignOp>)
    ensures Accounts(StatsOf(expected, ops), Sent(ops))
  {
    hide Merged, StatsOfStep, Accounts;
    if ops == [] {
      NothingAccounts();
    } else {
      var front, last := ops[..|ops| - 1], ops[|ops| - 1];
      StepsAccount(expected, front);
      StepAccounts(expected, last);
      AccountsAdd(StatsOf(expected, front), StatsOfStep(expected, last), Sent(front), SentBy(last));
    }
  }

  /** Over all units, the sent counts add up to everything sent but the word spaces. */
  lemma {:induction false} AllSentAccounted(all: seq<Alignment>)
    ensures Accounts(StatsOfAll(all), AllSent(all))
  {
    hide Merged, StatsOf, Sent, Accounts;
    if all == [] {
      NothingAccounts();
    } else {
      var front, last := all[..|all| - 1], all[|all| - 1];
      AllSentAccounted(front);
      StepsAccount(last.expected, last.ops);
      AccountsAdd(StatsOfAll(front), StatsOf(last.expected, last.ops), AllSent(front), Sent(last.ops));
    }
  }

  /** The expected texts, one after the other. */
  function AllExpected(all: seq<Alignment>): seq<Unit> {
    if all == [] then [] else AllExpected(all[..|all| - 1]) + all[|all| - 1].expected
  }

  /** For alignments whose steps replay what was expected, as every alignment made does, that is what was expected. */
  lemma {:induction false} AllExpectedAccounted(all: seq<Alignment>)
    requires forall i :: 0 <= i < |all| ==> Sent(all[i].ops) == all[i].expected
    ensures AllSent(all) == AllExpected(all) && Accounts(StatsOfAll(all), AllExpected(all))
  {
    hide Accounts, StatsOfAll;
    AllSentAccounted(all);
    if all != [] {
      AllExpectedAccounted(all[..|all| - 1]);
    }
  }
}
