/**
 Scoring copy: a minimum-edit alignment of what was sent with what was copied,
 every difference labelled, every extra unit charged to a sent one.
 */
module Alignment {
  import opened Wrappers
  import opened Codec

  type Unit = Token

  datatype SpacePolicy = ScoreSpaces | IgnoreSpaces

  datatype ScoreOptions = ScoreOptions(spaces: SpacePolicy, foldEquivalents: bool)

  datatype AlignOp =
    | Match(expected: Unit)
    | Substitution(expected: Unit, copied: Unit)
    | Deletion(expected: Unit)
    | Insertion(copied: Unit, attributedTo: Option<nat>)

  datatype Alignment = Alignment(expected: seq<Unit>, ops: seq<AlignOp>)

  datatype Score = Score(expected: nat, matches: nat, substitutions: nat, deletions: nat, insertions: nat)

  // -------------------------------------------------------------------------
  // Edit scripts
  // -------------------------------------------------------------------------

  function SentBy(op: AlignOp): seq<Unit> {
    if op.Insertion? then [] else [op.expected]
  }

  function ReceivedBy(op: AlignOp): seq<Unit> {
    match op
    case Match(x) => [x]
    case Substitution(_, y) => [y]
    case Deletion(_) => []
    case Insertion(y, _) => [y]
  }

  function ErrorsOf(op: AlignOp): nat {
    if op.Match? then 0 else 1
  }

  /** What a script says was sent: its steps without the insertions. */
  function Sent(ops: seq<AlignOp>): seq<Unit> {
    if ops == [] then [] else Sent(ops[..|ops| - 1]) + SentBy(ops[|ops| - 1])
  }

  /** What a script says was copied: its steps without the deletions. */
  function Received(ops: seq<AlignOp>): seq<Unit> {
    if ops == [] then [] else Received(ops[..|ops| - 1]) + ReceivedBy(ops[|ops| - 1])
  }

  function Errors(ops: seq<AlignOp>): nat {
    if ops == [] then 0 else Errors(ops[..|ops| - 1]) + ErrorsOf(ops[|ops| - 1])
  }

  lemma ScriptOfPush(ops: seq<AlignOp>, op: AlignOp)
    ensures Sent(ops + [op]) == Sent(ops) + SentBy(op)
    ensures Received(ops + [op]) == Received(ops) + ReceivedBy(op)
    ensures Errors(ops + [op]) == Errors(ops) + ErrorsOf(op)
  {
    assert (ops + [op])[..|ops|] == ops;
  }

  // -------------------------------------------------------------------------
  // The distance, and the script the traceback picks
  // -------------------------------------------------------------------------

  function Min3(a: nat, b: nat, c: nat): nat {
    var ab := if b < a then b else a;
    if c < ab then c else ab
  }

  function Differ(x: Unit, y: Unit): nat {
    if x == y then 0 else 1
  }

  function Distance(e: seq<Unit>, c: seq<Unit>): nat
    decreases |e| + |c|
  {
    if e == [] then |c|
    else if c == [] then |e|
    else
      var (n, m) := (|e| - 1, |c| - 1);
      Min3(Distance(e[..n], c[..m]) + Differ(e[n], c[m]), Distance(e[..n], c) + 1, Distance(e, c[..m]) + 1)
  }

  function Aligned(x: Unit, y: Unit): AlignOp {
    if x == y then Match(x) else Substitution(x, y)
  }

  datatype Move = Diagonal | Delete | Insert

  /** The traceback's step at the end of both texts: diagonal first, then deletion, then insertion. */
  function BestMove(e: seq<Unit>, c: seq<Unit>): (r: Move)
    requires e != [] || c != []
    ensures match r
            case Diagonal => e != [] && c != [] &&
              Distance(e, c) == Distance(e[..|e| - 1], c[..|c| - 1]) + Differ(e[|e| - 1], c[|c| - 1])
            case Delete => e != [] && Distance(e, c) == Distance(e[..|e| - 1], c) + 1
            case Insert => c != [] && Distance(e, c) == Distance(e, c[..|c| - 1]) + 1
  {
    var (n, m) := (|e| - 1, |c| - 1);
    if e != [] && c != [] && Distance(e, c) == Distance(e[..n], c[..m]) + Differ(e[n], c[m]) then Diagonal
    else if e != [] && Distance(e, c) == Distance(e[..n], c) + 1 then Delete
    else
      DistanceToNothing(e);
      Insert
  }

  /** The script the traceback writes. */
  function Trace(e: seq<Unit>, c: seq<Unit>): seq<AlignOp>
    decreases |e| + |c|
  {
    if e == [] && c == [] then []
    else
      var (n, m) := (|e| - 1, |c| - 1);
      match BestMove(e, c)
      case Diagonal => Trace(e[..n], c[..m]) + [Aligned(e[n], c[m])]
      case Delete => Trace(e[..n], c) + [Deletion(e[n])]
      case Insert => Trace(e, c[..m]) + [Insertion(c[m], None)]
  }

  /** One step back from the end of `e` and `c`. */
  lemma TraceUnfolds(e: seq<Unit>, c: seq<Unit>)
    requires e != [] || c != []
    ensures match BestMove(e, c)
            case Diagonal =>
              Trace(e, c) == Trace(e[..|e| - 1], c[..|c| - 1]) + [Aligned(e[|e| - 1], c[|c| - 1])]
            case Delete => Trace(e, c) == Trace(e[..|e| - 1], c) + [Deletion(e[|e| - 1])]
            case Insert => Trace(e, c) == Trace(e, c[..|c| - 1]) + [Insertion(c[|c| - 1], None)]
  {
  }

  /** The traced script replays both texts exactly and has as many errors as the distance. */
  lemma {:induction false} TraceReplays(e: seq<Unit>, c: seq<Unit>)
    ensures Sent(Trace(e, c)) == e && Received(Trace(e, c)) == c
    ensures Errors(Trace(e, c)) == Distance(e, c)
    decreases |e| + |c|
  {
    hide Sent, Received, Errors, Distance, Trace;
    if e == [] && c == [] {
      NothingReplays();
    } else {
      var (n, m) := (|e| - 1, |c| - 1);
      TraceUnfolds(e, c);
      match BestMove(e, c)
      case Diagonal =>
        TraceReplays(e[..n], c[..m]);
        ScriptOfPush(Trace(e[..n], c[..m]), Aligned(e[n], c[m]));
      case Delete =>
        TraceReplays(e[..n], c);
        ScriptOfPush(Trace(e[..n], c), Deletion(e[n]));
      case Insert =>
        TraceReplays(e, c[..m]);
        ScriptOfPush(Trace(e, c[..m]), Insertion(c[m], None));
    }
  }

  lemma NothingReplays()
    ensures Trace([], []) == [] && Distance([], []) == 0
    ensures Sent([]) == [] && Received([]) == [] && Errors([]) == 0
  {
  }

  lemma DistanceToNothing(e: seq<Unit>)
    ensures Distance(e, []) == |e|
  {
  }

  /** No script with the same two texts has fewer errors than the distance. */
  lemma {:induction false} DistanceIsLeast(ops: seq<AlignOp>)
    ensures Distance(Sent(ops), Received(ops)) <= Errors(ops)
  {
    if ops != [] {
      var k := |ops| - 1;
      DistanceIsLeast(ops[..k]);
      DistanceStep(Sent(ops[..k]), Received(ops[..k]), ops[k]);
    }
  }

  lemma DistanceStep(e: seq<Unit>, c: seq<Unit>, op: AlignOp)
    ensures Distance(e + SentBy(op), c + ReceivedBy(op)) <= Distance(e, c) + ErrorsOf(op)
  {
    match op
    case Match(x) => assert (e + [x])[..|e|] == e && (c + [x])[..|c|] == c;
    case Substitution(x, y) => assert (e + [x])[..|e|] == e && (c + [y])[..|c|] == c;
    case Deletion(x) =>
      assert (e + [x])[..|e|] == e && c + [] == c;
      DistanceToNothing(e);
    case Insertion(y, _) =>
      assert (c + [y])[..|c|] == c && e + [] == e;
  }

  /** A text aligned with itself has no errors. */
  lemma {:induction false} DistanceToSelf(e: seq<Unit>)
    ensures Distance(e, e) == 0
  {
    if e != [] {
      DistanceToSelf(e[..|e| - 1]);
    }
  }

  /** The distance is at least the difference of the lengths and at most the longer one. */
  lemma {:induction false} DistanceBounds(e: seq<Unit>, c: seq<Unit>)
    ensures Distance(e, c) <= |e| + |c|
    ensures Distance(e, c) >= |e| - |c| && Distance(e, c) >= |c| - |e|
    ensures Distance(e, c) <= |e| || Distance(e, c) <= |c|
    decreases |e| + |c|
  {
    if e != [] && c != [] {
      DistanceBounds(e[..|e| - 1], c[..|c| - 1]);
      DistanceBounds(e[..|e| - 1], c);
      DistanceBounds(e, c[..|c| - 1]);
    }
  }

  // -------------------------------------------------------------------------
  // Which of the least scripts it is
  // -------------------------------------------------------------------------

  ghost predicate SameTexts(a: seq<AlignOp>, b: seq<AlignOp>) {
    Sent(a) == Sent(b) && Received(a) == Received(b)
  }

  /** No script for the same two texts has fewer errors. */
  ghost predicate IsLeast(ops: seq<AlignOp>) {
    forall other :: SameTexts(other, ops) ==> Errors(ops) <= Errors(other)
  }

  /** A match or substitution is preferred to a deletion, and that to an insertion. */
  function Rank(op: AlignOp): nat {
    match op
    case Match(_) => 0
    case Substitution(_, _) => 0
    case Deletion(_) => 1
    case Insertion(_, _) => 2
  }

  /** No script for the same two texts with as few errors ends in a step preferred to this script's last. */
  ghost predicate PrefersLast(ops: seq<AlignOp>) {
    ops != [] ==>
      forall other :: SameTexts(other, ops) && Errors(other) <= Errors(ops) && other != [] ==>
                        Rank(ops[|ops| - 1]) <= Rank(other[|other| - 1])
  }

  /** A least script that, read backwards, takes the preferred step whenever a least script could. */
  ghost predicate Preferred(ops: seq<AlignOp>) {
    IsLeast(ops) && forall p :: 0 <= p <= |ops| ==> PrefersLast(ops[..p])
  }

  /** The same steps, whatever insertions are charged to. */
  ghost predicate SameSteps(a: seq<AlignOp>, b: seq<AlignOp>) {
    |a| == |b| && forall p :: 0 <= p < |a| ==>
                     if a[p].Insertion? then b[p].Insertion? && b[p].copied == a[p].copied else b[p] == a[p]
  }

  lemma SplitLast(ops: seq<AlignOp>)
    requires ops != []
    ensures var (front, last) := (ops[..|ops| - 1], ops[|ops| - 1]);
            && Sent(ops) == Sent(front) + SentBy(last) && Received(ops) == Received(front) + ReceivedBy(last)
            && Errors(ops) == Errors(front) + ErrorsOf(last)
  {
  }

  lemma WithoutLast(text: seq<Unit>, x: Unit)
    ensures (text + [x])[..|text + [x]| - 1] == text && (text + [x])[|text + [x]| - 1] == x
  {
  }

  /** What the distance says of ending in a diagonal step, a deletion and an insertion. */
  ghost function DiagonalCost(e: seq<Unit>, c: seq<Unit>): nat
    requires e != [] && c != []
  {
    Distance(e[..|e| - 1], c[..|c| - 1]) + Differ(e[|e| - 1], c[|c| - 1])
  }

  ghost function DeletionCost(e: seq<Unit>, c: seq<Unit>): nat
    requires e != []
  {
    Distance(e[..|e| - 1], c) + 1
  }

  lemma {:induction false} AlignedLastCosts(ops: seq<AlignOp>)
    requires ops != [] && Rank(ops[|ops| - 1]) == 0
    ensures Sent(ops) != [] && Received(ops) != [] && DiagonalCost(Sent(ops), Received(ops)) <= Errors(ops)
  {
    hide Distance, Sent, Received, Errors;
    var (front, last) := (ops[..|ops| - 1], ops[|ops| - 1]);
    SplitLast(ops);
    DistanceIsLeast(front);
    WithoutLast(Sent(front), last.expected);
    WithoutLast(Received(front), if last.Match? then last.expected else last.copied);
  }

  lemma {:induction false} DeletedLastCosts(ops: seq<AlignOp>)
    requires ops != [] && Rank(ops[|ops| - 1]) == 1
    ensures Sent(ops) != [] && DeletionCost(Sent(ops), Received(ops)) <= Errors(ops)
  {
    hide Distance, Sent, Received, Errors;
    var (front, last) := (ops[..|ops| - 1], ops[|ops| - 1]);
    SplitLast(ops);
    DistanceIsLeast(front);
    WithoutLast(Sent(front), last.expected);
    assert Received(front) + [] == Received(front);
  }

  function RankOfMove(m: Move): nat {
    match m
    case Diagonal => 0
    case Delete => 1
    case Insert => 2
  }

  lemma {:induction false} DistanceAtMost(e: seq<Unit>, c: seq<Unit>)
    ensures e != [] && c != [] ==> Distance(e, c) <= DiagonalCost(e, c)
    ensures e != [] ==> Distance(e, c) <= DeletionCost(e, c)
  {
    hide Distance;
    if e != [] && c != [] {
      DistanceUnfolds(e, c);
    } else if e != [] {
      DistanceToNothing(e);
      DistanceToNothing(e[..|e| - 1]);
    }
  }

  lemma {:induction false} DistanceUnfolds(e: seq<Unit>, c: seq<Unit>)
    requires e != [] && c != []
    ensures Distance(e, c) == Min3(Distance(e[..|e| - 1], c[..|c| - 1]) + Differ(e[|e| - 1], c[|c| - 1]),
                                   Distance(e[..|e| - 1], c) + 1, Distance(e, c[..|c| - 1]) + 1)
  {
  }

  lemma {:induction false} BestMoveTakesFirst(e: seq<Unit>, c: seq<Unit>)
    requires e != [] || c != []
    ensures e != [] && c != [] && DiagonalCost(e, c) == Distance(e, c) ==> BestMove(e, c) == Diagonal
    ensures e != [] && DeletionCost(e, c) == Distance(e, c) ==> BestMove(e, c) != Insert
  {
    hide Distance;
  }

  /** No least script ends in a step preferred to the traceback's. */
  lemma {:induction false} BestMoveIsPreferred(ops: seq<AlignOp>)
    requires ops != [] && Errors(ops) <= Distance(Sent(ops), Received(ops))
    ensures (Sent(ops) != [] || Received(ops) != []) &&
            RankOfMove(BestMove(Sent(ops), Received(ops))) <= Rank(ops[|ops| - 1])
  {
    hide Distance, Sent, Received, Errors, BestMove, DiagonalCost, DeletionCost;
    EmptyScript(ops);
    DistanceAtMost(Sent(ops), Received(ops));
    BestMoveTakesFirst(Sent(ops), Received(ops));
    if Rank(ops[|ops| - 1]) == 0 {
      AlignedLastCosts(ops);
    } else if Rank(ops[|ops| - 1]) == 1 {
      DeletedLastCosts(ops);
    }
  }

  lemma {:induction false} TraceEndsInMove(e: seq<Unit>, c: seq<Unit>)
    requires e != [] || c != []
    ensures Trace(e, c) != [] && Rank(Trace(e, c)[|Trace(e, c)| - 1]) == RankOfMove(BestMove(e, c))
  {
    hide Distance, BestMove;
    TraceUnfolds(e, c);
  }

  lemma {:induction false} TracePrefersLast(e: seq<Unit>, c: seq<Unit>)
    ensures PrefersLast(Trace(e, c))
  {
    hide Distance, Trace, BestMove, Sent, Received, Errors, Rank, RankOfMove;
    var ops := Trace(e, c);
    TraceReplays(e, c);
    forall other | ops != [] && SameTexts(other, ops) && Errors(other) <= Errors(ops) && other != []
      ensures Rank(ops[|ops| - 1]) <= Rank(other[|other| - 1])
    {
      BestMoveIsPreferred(other);
      TraceEndsInMove(e, c);
    }
  }

  /** Every prefix of a traced script is the traced script of what it replays. */
  lemma {:induction false} PrefixIsTraced(e: seq<Unit>, c: seq<Unit>, p: nat) returns (i: nat, j: nat)
    requires p <= |Trace(e, c)|
    ensures i <= |e| && j <= |c| && Trace(e, c)[..p] == Trace(e[..i], c[..j])
    decreases |e| + |c|
  {
    hide Distance, Trace, BestMove;
    if p == |Trace(e, c)| {
      i, j := |e|, |c|;
      assert e[..i] == e && c[..j] == c && Trace(e, c)[..p] == Trace(e, c);
    } else {
      NothingReplays();
      var (n, m) := (|e| - 1, |c| - 1);
      TraceUnfolds(e, c);
      match BestMove(e, c) {
        case Diagonal =>
          i, j := PrefixIsTraced(e[..n], c[..m], p);
          assert e[..n][..i] == e[..i] && c[..m][..j] == c[..j];
        case Delete =>
          i, j := PrefixIsTraced(e[..n], c, p);
          assert e[..n][..i] == e[..i];
        case Insert =>
          i, j := PrefixIsTraced(e, c[..m], p);
          assert c[..m][..j] == c[..j];
      }
    }
  }

  /** The traced script is a preferred one. */
  lemma TraceIsPreferred(e: seq<Unit>, c: seq<Unit>)
    ensures Preferred(Trace(e, c))
  {
    hide Distance, Trace, Sent, Received, Errors, PrefersLast;
    var ops := Trace(e, c);
    TraceReplays(e, c);
    forall other | SameTexts(other, ops) ensures Errors(ops) <= Errors(other) {
      DistanceIsLeast(other);
    }
    forall p | 0 <= p <= |ops| ensures PrefersLast(ops[..p]) {
      var i, j := PrefixIsTraced(e, c, p);
      TracePrefersLast(e[..i], c[..j]);
    }
  }

  /** A least script's front is least for what it replays. */
  lemma FrontIsLeast(ops: seq<AlignOp>)
    requires ops != [] && IsLeast(ops)
    ensures IsLeast(ops[..|ops| - 1])
  {
    hide Sent, Received, Errors;
    var (front, last) := (ops[..|ops| - 1], ops[|ops| - 1]);
    SplitLast(ops);
    forall other | SameTexts(other, front) ensures Errors(front) <= Errors(other) {
      ScriptOfPush(other, last);
      assert SameTexts(other + [last], ops);
    }
  }

  lemma FrontIsPreferred(ops: seq<AlignOp>)
    requires ops != [] && Preferred(ops)
    ensures Preferred(ops[..|ops| - 1])
  {
    hide IsLeast, PrefersLast;
    var front := ops[..|ops| - 1];
    FrontIsLeast(ops);
    forall p | 0 <= p <= |front| ensures PrefersLast(front[..p]) {
      assert front[..p] == ops[..p];
    }
  }

  /** A least script calls a unit substituted only when it was copied as something else. */
  lemma LeastLabels(ops: seq<AlignOp>)
    requires ops != [] && IsLeast(ops)
    ensures ops[|ops| - 1].Substitution? ==> ops[|ops| - 1].expected != ops[|ops| - 1].copied
  {
    hide Sent, Received, Errors;
    var (front, last) := (ops[..|ops| - 1], ops[|ops| - 1]);
    SplitLast(ops);
    if last.Substitution? {
      ScriptOfPush(front, Match(last.expected));
      assert last.expected == last.copied ==> SameTexts(front + [Match(last.expected)], ops);
    }
  }

  lemma EmptyScript(ops: seq<AlignOp>)
    ensures Sent(ops) == [] && Received(ops) == [] <==> ops == []
  {
    if ops != [] {
      SplitLast(ops);
    }
  }

  /** Two scripts with the same preference and the same texts end in the same step, and their fronts share texts. */
  lemma SameLastStep(a: seq<AlignOp>, b: seq<AlignOp>)
    requires a != [] && b != [] && SameTexts(a, b) && IsLeast(a) && IsLeast(b)
    requires Rank(a[|a| - 1]) == Rank(b[|b| - 1])
    ensures var (x, y) := (a[|a| - 1], b[|b| - 1]);
            if x.Insertion? then y.Insertion? && y.copied == x.copied else y == x
    ensures SameTexts(a[..|a| - 1], b[..|b| - 1])
  {
    hide Sent, Received, Errors, IsLeast;
    SplitLast(a);
    SplitLast(b);
    LeastLabels(a);
    LeastLabels(b);
    var (x, y) := (a[|a| - 1], b[|b| - 1]);
    SameEnds(Sent(a[..|a| - 1]), SentBy(x), Sent(b[..|b| - 1]), SentBy(y));
    SameEnds(Received(a[..|a| - 1]), ReceivedBy(x), Received(b[..|b| - 1]), ReceivedBy(y));
  }

  lemma SameEnds(a: seq<Unit>, x: seq<Unit>, b: seq<Unit>, y: seq<Unit>)
    requires a + x == b + y && |x| == |y|
    ensures a == b && x == y
  {
    assert a == (a + x)[..|a|] && b == (b + y)[..|b|];
    assert x == (a + x)[|a|..] && y == (b + y)[|b|..];
  }

  /** Only one script for two texts is preferred, whatever its insertions are charged to. */
  lemma {:induction false} PreferredIsUnique(a: seq<AlignOp>, b: seq<AlignOp>)
    requires Preferred(a) && Preferred(b) && SameTexts(a, b)
    ensures SameSteps(a, b)
    decreases |a|
  {
    hide Sent, Received, Errors, Rank, IsLeast, PrefersLast;
    EmptyScript(a);
    EmptyScript(b);
    if a != [] {
      LastRanksAgree(a, b);
      SameLastStep(a, b);
      FrontIsPreferred(a);
      FrontIsPreferred(b);
      PreferredIsUnique(a[..|a| - 1], b[..|b| - 1]);
    }
  }

  lemma LastRanksAgree(a: seq<AlignOp>, b: seq<AlignOp>)
    requires Preferred(a) && Preferred(b) && SameTexts(a, b) && a != [] && b != []
    ensures Rank(a[|a| - 1]) == Rank(b[|b| - 1])
  {
    hide Sent, Received, Errors, Rank;
    assert SameTexts(b, a);
    assert a[..|a|] == a && b[..|b|] == b;
    assert PrefersLast(a[..|a|]) && PrefersLast(b[..|b|]);
  }

  // -------------------------------------------------------------------------
  // Charging insertions
  // -------------------------------------------------------------------------

  /** The last step before `p` that accounts for a sent unit. */
  function StepBefore(ops: seq<AlignOp>, p: nat): (r: Option<nat>)
    requires p <= |ops|
    ensures r.Some? ==> r.value < p && !ops[r.value].Insertion?
  {
    if p == 0 then None else if !ops[p - 1].Insertion? then Some(p - 1) else StepBefore(ops, p - 1)
  }

  /** The first step at or after `p` that accounts for a sent unit. */
  function StepAfter(ops: seq<AlignOp>, p: nat): (r: Option<nat>)
    requires p <= |ops|
    ensures r.Some? ==> p <= r.value < |ops| && !ops[r.value].Insertion?
    decreases |ops| - p
  {
    if p == |ops| then None else if !ops[p].Insertion? then Some(p) else StepAfter(ops, p + 1)
  }

  /** How many sent units the steps before `p` account for. */
  function UnitsBefore(ops: seq<AlignOp>, p: nat): nat
    requires p <= |ops|
  {
    |Sent(ops[..p])|
  }

  /** The sent unit an insertion at `p` is charged to: a neighbouring substitution, else the one before, else after. */
  function Target(ops: seq<AlignOp>, p: nat): Option<nat>
    requires p < |ops|
  {
    var (prev, next) := (StepBefore(ops, p), StepAfter(ops, p + 1));
    if prev.Some? && ops[prev.value].Substitution? then Some(UnitsBefore(ops, prev.value))
    else if next.Some? && ops[next.value].Substitution? then Some(UnitsBefore(ops, next.value))
    else if prev.Some? then Some(UnitsBefore(ops, prev.value))
    else if next.Some? then Some(UnitsBefore(ops, next.value))
    else None
  }

  function ChargedAt(ops: seq<AlignOp>, p: nat): AlignOp
    requires p < |ops|
  {
    if ops[p].Insertion? then Insertion(ops[p].copied, Target(ops, p)) else ops[p]
  }

  function Charged(ops: seq<AlignOp>): seq<AlignOp> {
    seq(|ops|, p requires 0 <= p < |ops| => ChargedAt(ops, p))
  }

  lemma UnitsAfterStep(ops: seq<AlignOp>, p: nat)
    requires p < |ops|
    ensures UnitsBefore(ops, p + 1) == UnitsBefore(ops, p) + if ops[p].Insertion? then 0 else 1
  {
    assert ops[..p + 1][..p] == ops[..p];
  }

  lemma {:induction false} UnitsOfStepBefore(ops: seq<AlignOp>, p: nat)
    requires p <= |ops|
    ensures match StepBefore(ops, p)
            case Some(q) => UnitsBefore(ops, q) + 1 == UnitsBefore(ops, p)
            case None => UnitsBefore(ops, p) == 0
  {
    if p > 0 {
      UnitsAfterStep(ops, p - 1);
      if ops[p - 1].Insertion? {
        UnitsOfStepBefore(ops, p - 1);
      }
    }
  }

  lemma {:induction false} UnitsOfStepAfter(ops: seq<AlignOp>, p: nat)
    requires p <= |ops|
    ensures match StepAfter(ops, p)
            case Some(q) => UnitsBefore(ops, q) == UnitsBefore(ops, p) < |Sent(ops)|
            case None => UnitsBefore(ops, p) == |Sent(ops)|
    decreases |ops| - p
  {
    if p == |ops| {
      assert ops[..p] == ops;
    } else {
      UnitsAfterStep(ops, p);
      UnitsOfStepAfter(ops, p + 1);
    }
  }

  /** The step that accounts for sent unit `t`. */
  ghost predicate AccountsFor(ops: seq<AlignOp>, q: int, t: nat) {
    0 <= q < |ops| && !ops[q].Insertion? && UnitsBefore(ops, q) == t
  }

  /**
   An insertion is charged to one of the two sent units it stands between: the
   earlier one, unless there is none or only the later one was substituted. It
   is charged to nothing only when nothing was sent.
   */
  lemma {:induction false} ChargedToNeighbour(ops: seq<AlignOp>, p: nat)
    requires p < |ops| && ops[p].Insertion?
    ensures var (k, n) := (UnitsBefore(ops, p), |Sent(ops)|);
            match Target(ops, p)
            case None => n == 0
            case Some(t) =>
              && t < n && (t + 1 == k || t == k)
              && (t == k <==>
                    k < n && (k == 0 || exists a, b :: AccountsFor(ops, a, k - 1) && !ops[a].Substitution? &&
                                                       AccountsFor(ops, b, k) && ops[b].Substitution?))
  {
    hide Sent, StepBefore, StepAfter;
    var (k, n) := (UnitsBefore(ops, p), |Sent(ops)|);
    UnitsAfterStep(ops, p);
    UnitsOfStepBefore(ops, p);
    UnitsOfStepAfter(ops, p + 1);
    UnitsGrow(ops, p, |ops|);
    assert ops[..|ops|] == ops;
    if StepBefore(ops, p).Some? {
      assert AccountsFor(ops, StepBefore(ops, p).value, k - 1);
    }
    if StepAfter(ops, p + 1).Some? {
      assert AccountsFor(ops, StepAfter(ops, p + 1).value, k);
    }
    OneStepPerUnit(ops);
  }

  lemma {:induction false} UnitsGrow(ops: seq<AlignOp>, p: nat, q: nat)
    requires p <= q <= |ops|
    ensures UnitsBefore(ops, p) <= UnitsBefore(ops, q)
    ensures p < q && !ops[p].Insertion? ==> UnitsBefore(ops, p) < UnitsBefore(ops, q)
    decreases q - p
  {
    if p < q {
      UnitsAfterStep(ops, p);
      UnitsGrow(ops, p + 1, q);
    }
  }

  lemma OneStepPerUnit(ops: seq<AlignOp>)
    ensures forall a, b, t :: AccountsFor(ops, a, t) && AccountsFor(ops, b, t) ==> a == b
  {
    forall a, b, t | AccountsFor(ops, a, t) && AccountsFor(ops, b, t) ensures a == b {
      if a < b {
        UnitsGrow(ops, a, b);
      } else if b < a {
        UnitsGrow(ops, b, a);
      }
    }
  }

  /** Charging changes nothing a script says about either text. */
  lemma {:induction false} ChargingKeepsScript(a: seq<AlignOp>, b: seq<AlignOp>)
    requires SameSteps(a, b)
    ensures Sent(b) == Sent(a) && Received(b) == Received(a) && Errors(b) == Errors(a)
  {
    if a != [] {
      ChargingKeepsScript(a[..|a| - 1], b[..|a| - 1]);
    }
  }

  /** Nor which script is preferred. */
  lemma ChargingKeepsPreference(a: seq<AlignOp>, b: seq<AlignOp>)
    requires SameSteps(a, b) && Preferred(a)
    ensures Preferred(b)
  {
    hide Sent, Received, Errors;
    ChargingKeepsScript(a, b);
    assert forall other :: SameTexts(other, b) <==> SameTexts(other, a);
    forall p | 0 <= p <= |b| ensures PrefersLast(b[..p]) {
      ChargingKeepsScript(a[..p], b[..p]);
      assert PrefersLast(a[..p]);
      assert forall other :: SameTexts(other, b[..p]) <==> SameTexts(other, a[..p]);
    }
  }

  // -------------------------------------------------------------------------
  // Preparing the texts
  // -------------------------------------------------------------------------

  function PreparedUnit(u: Unit, opts: ScoreOptions): seq<Unit> {
    if opts.spaces == IgnoreSpaces && u == WordSpace then []
    else if opts.foldEquivalents then [Canonical(u)] else [u]
  }

  function Prepared(units: seq<Unit>, opts: ScoreOptions): seq<Unit> {
    if units == [] then []
    else Prepared(units[..|units| - 1], opts) + PreparedUnit(units[|units| - 1], opts)
  }

  lemma PreparedPush(front: seq<Unit>, last: seq<Unit>, opts: ScoreOptions)
    requires |last| <= 1
    ensures Prepared(front + last, opts) ==
            Prepared(front, opts) + if last == [] then [] else PreparedUnit(last[0], opts)
  {
    if last == [] {
      assert front + last == front;
    } else {
      assert (front + last)[..|front|] == front;
    }
  }

  /** Preparing a prepared text changes nothing. */
  lemma {:induction false} PreparedTwice(units: seq<Unit>, opts: ScoreOptions)
    ensures Prepared(Prepared(units, opts), opts) == Prepared(units, opts)
  {
    if units != [] {
      var k := |units| - 1;
      PreparedTwice(units[..k], opts);
      PreparedPush(Prepared(units[..k], opts), PreparedUnit(units[k], opts), opts);
      PreparedUnitTwice(units[k], opts);
    }
  }

  lemma PreparedUnitTwice(u: Unit, opts: ScoreOptions)
    ensures |PreparedUnit(u, opts)| <= 1
    ensures PreparedUnit(u, opts) != [] ==> PreparedUnit(PreparedUnit(u, opts)[0], opts) == PreparedUnit(u, opts)
  {
  }

  lemma {:induction false} PreparedInParts(a: seq<Unit>, b: seq<Unit>, opts: ScoreOptions)
    ensures Prepared(a + b, opts) == Prepared(a, opts) + Prepared(b, opts)
    decreases |b|
  {
    hide PreparedUnit;
    if b == [] {
      assert a + b == a && Prepared(a, opts) + [] == Prepared(a, opts);
    } else {
      var (front, last) := (b[..|b| - 1], b[|b| - 1]);
      PreparedInParts(a, front, opts);
      assert (a + b)[..|a + b| - 1] == a + front && (a + b)[|a + b| - 1] == last;
      var p := PreparedUnit(last, opts);
      assert Prepared(a, opts) + Prepared(front, opts) + p == Prepared(a, opts) + (Prepared(front, opts) + p);
    }
  }

  /** Two letters that differ only in case. */
  predicate CaseOf(x: Unit, y: Unit) {
    x.Char? && y.Char? && 'a' <= x.c <= 'z' && x.c as int - 'a' as int == y.c as int - 'A' as int
  }

  /** A character keyed as a prosign is. */
  predicate KeyedAs(x: Unit, y: Unit) {
    || (x == Char('=') && y == Sign(Bt))
    || (x == Char('+') && y == Sign(Ar))
    || (x == Char('(') && y == Sign(Kn))
    || (x == Char('&') && y == Sign(As))
  }

  predicate Equivalent(x: Unit, y: Unit) {
    x == y || CaseOf(x, y) || CaseOf(y, x) || KeyedAs(x, y) || KeyedAs(y, x)
  }

  /**
   Preparing drops exactly the word spaces, where those are ignored, and takes
   two other units to the same one exactly when they are equal or, where
   folding, equivalent; the one it takes them to is equivalent to both.
   */
  lemma PreparedUnits(u: Unit, w: Unit, opts: ScoreOptions)
    ensures Prepared([u], opts) == [] <==> u == WordSpace && opts.spaces == IgnoreSpaces
    ensures |Prepared([u], opts)| <= 1
    ensures !opts.foldEquivalents && Prepared([u], opts) != [] ==> Prepared([u], opts) == [u]
    ensures opts.foldEquivalents && Prepared([u], opts) != [] ==> Equivalent(u, Prepared([u], opts)[0])
    ensures opts.foldEquivalents ==> (Prepared([u], opts) == Prepared([w], opts) <==> Equivalent(u, w))
  {
    assert [u][..0] == [] && [w][..0] == [];
    assert Prepared([u], opts) == PreparedUnit(u, opts) && Prepared([w], opts) == PreparedUnit(w, opts);
  }

  // -------------------------------------------------------------------------
  // The loops
  // -------------------------------------------------------------------------

  /** Where cell `(i, j)` sits in a table of rows `w` wide. */
  function Cell(i: nat, j: nat, w: nat): nat {
    i * w + j
  }

  lemma CellInRange(i: nat, j: nat, n: nat, w: nat)
    requires i <= n && j < w
    ensures Cell(i, j, w) < (n + 1) * w
  {
    assert (i + 1) * w <= (n + 1) * w;
  }

  lemma CellsDiffer(i: nat, j: nat, i': nat, j': nat, w: nat)
    requires j < w && j' < w && (i != i' || j != j')
    ensures Cell(i, j, w) != Cell(i', j', w)
  {
    if i < i' {
      assert (i + 1) * w <= i' * w;
    } else if i' < i {
      assert (i' + 1) * w <= i * w;
    }
  }

  /** Cells before `(i, j)` in reading order, and the borders, hold the distances of the prefixes. */
  ghost predicate Filled(d: seq<nat>, e: seq<Unit>, c: seq<Unit>, i: nat, j: nat) {
    var w := |c| + 1;
    && |d| == (|e| + 1) * w
    && forall a: nat, b: nat :: a <= |e| && b < w && (a < i || (a == i && b < j) || a == 0 || b == 0) ==>
         Cell(a, b, w) < |d| && d[Cell(a, b, w)] == Distance(e[..a], c[..b])
  }

  /** Writing the right value at `(i, j)` fills one more cell. */
  lemma FillOne(d: seq<nat>, e: seq<Unit>, c: seq<Unit>, i: nat, j: nat, x: nat)
    requires 1 <= i <= |e| && 1 <= j <= |c| && Filled(d, e, c, i, j)
    requires x == Distance(e[..i], c[..j])
    ensures Cell(i, j, |c| + 1) < |d| && Filled(d[Cell(i, j, |c| + 1) := x], e, c, i, j + 1)
  {
    hide Distance, Cell;
    var w := |c| + 1;
    CellInRange(i, j, |e|, w);
    forall a: nat, b: nat | a <= |e| && b < w && (a < i || (a == i && b <= j) || a == 0 || b == 0)
      ensures Cell(a, b, w) < |d| && d[Cell(i, j, w) := x][Cell(a, b, w)] == Distance(e[..a], c[..b])
    {
      if a != i || b != j {
        CellsDiffer(i, j, a, b, w);
      }
    }
  }

  lemma DistanceOfPrefixes(e: seq<Unit>, c: seq<Unit>, i: nat, j: nat)
    requires i <= |e| && j <= |c|
    ensures i == 0 ==> Distance(e[..i], c[..j]) == j
    ensures j == 0 ==> Distance(e[..i], c[..j]) == i
    ensures i > 0 && j > 0 ==>
              (Distance(e[..i], c[..j]) ==
               Min3(Distance(e[..i - 1], c[..j - 1]) + Differ(e[i - 1], c[j - 1]),
                    Distance(e[..i - 1], c[..j]) + 1, Distance(e[..i], c[..j - 1]) + 1))
  {
    if i > 0 && j > 0 {
      assert e[..i][..i - 1] == e[..i - 1] && c[..j][..j - 1] == c[..j - 1];
    }
  }

  method FillTable(e: seq<Unit>, c: seq<Unit>) returns (d: array<nat>)
    ensures Filled(d[..], e, c, |e| + 1, 0)
  {
    hide Distance;
    var n, m := |e|, |c|;
    var w := m + 1;
    d := new nat[(n + 1) * w](_ => 0);
    FillBorders(e, c, d);
    for i := 1 to n + 1
      invariant Filled(d[..], e, c, i, 0)
    {
      for j := 1 to m + 1
        invariant Filled(d[..], e, c, i, j)
      {
        CellInRange(i, j, n, w);
        ghost var was := d[..];
        DistanceOfPrefixes(e, c, i, j);
        assert was[Cell(i - 1, j - 1, w)] == Distance(e[..i - 1], c[..j - 1]);
        assert was[Cell(i - 1, j, w)] == Distance(e[..i - 1], c[..j]);
        assert was[Cell(i, j - 1, w)] == Distance(e[..i], c[..j - 1]);
        var sub := d[(i - 1) * w + j - 1] + if e[i - 1] != c[j - 1] then 1 else 0;
        var del := d[(i - 1) * w + j] + 1;
        var ins := d[i * w + j - 1] + 1;
        d[i * w + j] := Min3(sub, del, ins);
        FillOne(was, e, c, i, j, Min3(sub, del, ins));
        assert d[..] == was[Cell(i, j, w) := Min3(sub, del, ins)];
      }
    }
  }

  method FillBorders(e: seq<Unit>, c: seq<Unit>, d: array<nat>)
    requires d.Length == (|e| + 1) * (|c| + 1)
    modifies d
    ensures Filled(d[..], e, c, 0, 0)
  {
    hide Distance;
    var n, w := |e|, |c| + 1;
    for i := 0 to n + 1
      invariant forall a: nat :: a < i ==> Cell(a, 0, w) < d.Length && d[Cell(a, 0, w)] == a
    {
      CellInRange(i, 0, n, w);
      forall a: nat | a < i ensures Cell(a, 0, w) != Cell(i, 0, w) {
        CellsDiffer(a, 0, i, 0, w);
      }
      assert Cell(i, 0, w) == i * w;
      d[i * w] := i;
    }
    CellInRange(0, w - 1, n, w);
    for j := 0 to w
      invariant forall a: nat :: a <= n ==> Cell(a, 0, w) < d.Length && d[Cell(a, 0, w)] == a
      invariant forall b: nat :: b < j ==> d[b] == b
    {
      forall a: nat | 0 < a <= n ensures Cell(a, 0, w) != j {
        CellsDiffer(a, 0, 0, j, w);
      }
      d[j] := j;
    }
    forall a: nat, b: nat | a <= n && b < w && (a == 0 || b == 0)
      ensures Cell(a, b, w) < d.Length && d[Cell(a, b, w)] == Distance(e[..a], c[..b])
    {
      CellInRange(a, b, n, w);
      DistanceOfPrefixes(e, c, a, b);
    }
  }

  lemma ReversedPush(ops: seq<AlignOp>, op: AlignOp, front: seq<AlignOp>)
    ensures front + Reversed(ops + [op]) == front + [op] + Reversed(ops)
  {
  }

  /** The step the table's cells show at `(i, j)`. */
  method ReadMove(d: array<nat>, e: seq<Unit>, c: seq<Unit>, i: nat, j: nat) returns (r: Move)
    requires Filled(d[..], e, c, |e| + 1, 0)
    requires i <= |e| && j <= |c| && (i > 0 || j > 0)
    ensures r == BestMove(e[..i], c[..j])
  {
    hide Distance;
    var w := |c| + 1;
    CellInRange(i, j, |e|, w);
    assert d[..][Cell(i, j, w)] == Distance(e[..i], c[..j]);
    if i > 0 && j > 0 {
      assert d[..][Cell(i - 1, j - 1, w)] == Distance(e[..i - 1], c[..j - 1]);
      assert e[..i][..i - 1] == e[..i - 1] && c[..j][..j - 1] == c[..j - 1];
      if d[i * w + j] == d[(i - 1) * w + j - 1] + if e[i - 1] == c[j - 1] then 0 else 1 {
        return Diagonal;
      }
    }
    if i > 0 {
      assert d[..][Cell(i - 1, j, w)] == Distance(e[..i - 1], c[..j]);
      assert e[..i][..i - 1] == e[..i - 1];
      if d[i * w + j] == d[(i - 1) * w + j] + 1 {
        return Delete;
      }
    }
    return Insert;
  }

  method TraceBack(d: array<nat>, e: seq<Unit>, c: seq<Unit>) returns (ops: seq<AlignOp>)
    requires Filled(d[..], e, c, |e| + 1, 0)
    ensures ops == Trace(e, c)
  {
    hide Distance, BestMove, Filled, Trace;
    var i: nat, j: nat := |e|, |c|;
    ops := [];
    assert e[..i] == e && c[..j] == c && Trace(e, c) == Trace(e, c) + Reversed([]);
    while i > 0 || j > 0
      invariant i <= |e| && j <= |c|
      invariant Trace(e, c) == Trace(e[..i], c[..j]) + Reversed(ops)
      decreases i + j
    {
      var move := ReadMove(d, e, c, i, j);
      TraceUnfolds(e[..i], c[..j]);
      ghost var was := ops;
      match move {
        case Diagonal =>
          i, j := i - 1, j - 1;
          ops := ops + [Aligned(e[i], c[j])];
          assert e[..i + 1][..i] == e[..i] && c[..j + 1][..j] == c[..j];
          ReversedPush(was, Aligned(e[i], c[j]), Trace(e[..i], c[..j]));
        case Delete =>
          i := i - 1;
          ops := ops + [Deletion(e[i])];
          assert e[..i + 1][..i] == e[..i];
          ReversedPush(was, Deletion(e[i]), Trace(e[..i], c[..j]));
        case Insert =>
          j := j - 1;
          ops := ops + [Insertion(c[j], None)];
          assert c[..j + 1][..j] == c[..j];
          ReversedPush(was, Insertion(c[j], None), Trace(e[..i], c[..j]));
      }
    }
    NothingReplays();
    assert e[..0] == [] && c[..0] == [];
    ops := Reversed(ops);
  }

  /** For each step, the index of the sent unit it accounts for. */
  ghost predicate Indexed(ops: seq<AlignOp>, indexOf: seq<Option<nat>>, p: nat)
    requires p <= |ops| == |indexOf|
  {
    forall q :: 0 <= q < |ops| ==>
      indexOf[q] == if q >= p || ops[q].Insertion? then None else Some(UnitsBefore(ops, q))
  }

  method IndexSteps(ops: seq<AlignOp>) returns (indexOf: seq<Option<nat>>)
    ensures |indexOf| == |ops| && Indexed(ops, indexOf, |ops|)
  {
    var index := new Option<nat>[|ops|](_ => None);
    var k := 0;
    for p := 0 to |ops|
      invariant k == UnitsBefore(ops, p)
      invariant Indexed(ops, index[..], p)
    {
      UnitsAfterStep(ops, p);
      if !ops[p].Insertion? {
        index[p] := Some(k);
        k := k + 1;
      }
    }
    return index[..];
  }

  method ChargeFor(ops: seq<AlignOp>, indexOf: seq<Option<nat>>, p: nat, n: nat) returns (target: Option<nat>)
    requires |indexOf| == |ops| && Indexed(ops, indexOf, |ops|)
    requires p < |ops| && ops[p].Insertion? && n == |Sent(ops)|
    ensures target == Target(ops, p)
  {
    hide Sent, StepBefore, StepAfter;
    var prev := LastStep(ops, p);
    var next := FirstStep(ops, p + 1);
    target :=
      if prev.Some? && ops[prev.value].Substitution? then indexOf[prev.value]
      else if next.Some? && ops[next.value].Substitution? then indexOf[next.value]
      else if prev.Some? then indexOf[prev.value]
      else if next.Some? then indexOf[next.value]
      else None;
    ChargedToNeighbour(ops, p);
    assert target == Target(ops, p);
    if target.Some? && target.value >= n {
      target := None;
    }
  }

  /** Charges each insertion, in place. `n` is the number of sent units. */
  method AttributeInsertions(ops: array<AlignOp>, n: nat)
    requires n == |Sent(ops[..])|
    modifies ops
    ensures ops[..] == Charged(old(ops[..]))
  {
    hide Sent, StepBefore, StepAfter, Target;
    var snapshot := ops[..];
    var indexOf := IndexSteps(snapshot);
    for p := 0 to ops.Length
      invariant forall q :: 0 <= q < p ==> ops[q] == ChargedAt(snapshot, q)
      invariant forall q :: p <= q < ops.Length ==> ops[q] == snapshot[q]
    {
      if snapshot[p].Insertion? {
        var target := ChargeFor(snapshot, indexOf, p, n);
        ops[p] := Insertion(snapshot[p].copied, target);
      }
    }
  }

  method LastStep(ops: seq<AlignOp>, p: nat) returns (r: Option<nat>)
    requires p <= |ops|
    ensures r == StepBefore(ops, p)
  {
    var q: nat := p;
    while q > 0
      invariant q <= p && StepBefore(ops, p) == StepBefore(ops, q)
    {
      q := q - 1;
      if !ops[q].Insertion? {
        return Some(q);
      }
    }
    return None;
  }

  method FirstStep(ops: seq<AlignOp>, p: nat) returns (r: Option<nat>)
    requires p <= |ops|
    ensures r == StepAfter(ops, p)
  {
    for q := p to |ops|
      invariant StepAfter(ops, p) == StepAfter(ops, q)
    {
      if !ops[q].Insertion? {
        return Some(q);
      }
    }
    return None;
  }

  /** The alignment of two texts: the traced script, its insertions charged. */
  function Aligning(expected: seq<Unit>, copied: seq<Unit>, opts: ScoreOptions): Alignment {
    var (e, c) := (Prepared(expected, opts), Prepared(copied, opts));
    Alignment(e, Charged(Trace(e, c)))
  }

  /**
   Aligns already-tokenized text. Its script replays both prepared texts, has
   the fewest errors any script with those texts can have, is the one of those
   that prefers aligning to deleting and deleting to inserting from the end
   backwards, and calls a unit substituted only when it was copied as something
   else.
   */
  method AlignUnits(expected: seq<Unit>, copied: seq<Unit>, opts: ScoreOptions) returns (a: Alignment)
    ensures a == Aligning(expected, copied, opts)
    ensures a.expected == Sent(a.ops) == Prepared(expected, opts)
    ensures Received(a.ops) == Prepared(copied, opts)
    ensures Errors(a.ops) == Distance(Prepared(expected, opts), Prepared(copied, opts))
    ensures forall other :: Sent(other) == Sent(a.ops) && Received(other) == Received(a.ops) ==>
                              Errors(a.ops) <= Errors(other)
    ensures Preferred(a.ops)
    ensures forall p :: 0 <= p < |a.ops| ==> HonestStep(a, a.ops[p])
  {
    hide Preferred, Distance, Filled, Trace, Prepared, Sent, Received, Errors, Charged, HonestStep;
    var e, c := Prepared(expected, opts), Prepared(copied, opts);
    var d := FillTable(e, c);
    var ops := TraceBack(d, e, c);
    AlignmentReplays(e, c);
    StepsAreHonest(e, c);
    AlignmentIsPreferred(e, c);
    var steps := new AlignOp[|ops|](i requires 0 <= i < |ops| => ops[i]);
    assert steps[..] == ops;
    AttributeInsertions(steps, |e|);
    a := Alignment(e, steps[..]);
    forall other | Sent(other) == e && Received(other) == c ensures Errors(a.ops) <= Errors(other) {
      DistanceIsLeast(other);
    }
  }

  /** Substituted units differ, and an insertion is charged to a unit that was sent, if any was. */
  ghost predicate HonestStep(a: Alignment, op: AlignOp) {
    && (op.Substitution? ==> op.expected != op.copied)
    && (op.Insertion? ==> if a.expected == [] then op.attributedTo.None?
                          else op.attributedTo.Some? && op.attributedTo.value < |a.expected|)
  }

  lemma {:induction false} TraceLabels(e: seq<Unit>, c: seq<Unit>)
    ensures forall p :: 0 <= p < |Trace(e, c)| && Trace(e, c)[p].Substitution? ==>
                          Trace(e, c)[p].expected != Trace(e, c)[p].copied
    decreases |e| + |c|
  {
    hide Distance, BestMove;
    if e != [] && c != [] {
      TraceLabels(e[..|e| - 1], c[..|c| - 1]);
    }
    if e != [] {
      TraceLabels(e[..|e| - 1], c);
    }
    if c != [] {
      TraceLabels(e, c[..|c| - 1]);
    }
  }

  lemma StepsAreHonest(e: seq<Unit>, c: seq<Unit>)
    ensures var a := Alignment(e, Charged(Trace(e, c)));
            forall p :: 0 <= p < |a.ops| ==> HonestStep(a, a.ops[p])
  {
    hide Distance, Trace, Sent, Target;
    var ops := Trace(e, c);
    TraceLabels(e, c);
    TraceReplays(e, c);
    forall p | 0 <= p < |ops| ensures HonestStep(Alignment(e, Charged(ops)), Charged(ops)[p]) {
      if ops[p].Insertion? {
        ChargedToNeighbour(ops, p);
      }
    }
  }

  lemma AlignmentReplays(e: seq<Unit>, c: seq<Unit>)
    ensures Sent(Trace(e, c)) == e
    ensures var ops := Charged(Trace(e, c));
            Sent(ops) == e && Received(ops) == c && Errors(ops) == Distance(e, c)
  {
    hide Sent, Received, Errors, Distance, Trace, Target, BestMove;
    TraceReplays(e, c);
    ChargingKeepsScript(Trace(e, c), Charged(Trace(e, c)));
  }

  lemma AlignmentIsPreferred(e: seq<Unit>, c: seq<Unit>)
    ensures Preferred(Charged(Trace(e, c)))
  {
    hide Trace, Target, Preferred;
    TraceIsPreferred(e, c);
    ChargingKeepsPreference(Trace(e, c), Charged(Trace(e, c)));
  }

  /** Aligns a copy, whatever it holds, against a text that must encode. */
  method Align(expected: string, copied: string, opts: ScoreOptions) returns (r: Result<Alignment, CodecError>)
    ensures match Tokens(expected)
            case Err(e) => r == Err(e)
            case Ok(sent) => r == Ok(Aligning(sent, TypedTokens(copied), opts))
  {
    hide Preferred, HonestStep, Prepared, Sent, Received, Errors, Distance;
    var e := Tokenize(expected);
    if e.Err? {
      return Err(e.error);
    }
    var c := TokenizeCopy(copied);
    var a := AlignUnits(e.value, c, opts);
    return Ok(a);
  }

  /** A text that encodes, copied exactly, scores no errors under any options. */
  lemma PerfectCopy(text: string, opts: ScoreOptions)
    requires Tokens(text).Ok?
    ensures Errors(Aligning(Tokens(text).value, TypedTokens(text), opts).ops) == 0
  {
    hide Distance, Trace, Charged, Errors, Sent, Received;
    var e := Prepared(Tokens(text).value, opts);
    TypedAgrees(text);
    AlignmentReplays(e, e);
    DistanceToSelf(e);
  }

  // -------------------------------------------------------------------------
  // Totals
  // -------------------------------------------------------------------------

  function AddOp(s: Score, op: AlignOp): Score {
    match op
    case Match(_) => s.(matches := s.matches + 1)
    case Substitution(_, _) => s.(substitutions := s.substitutions + 1)
    case Deletion(_) => s.(deletions := s.deletions + 1)
    case Insertion(_, _) => s.(insertions := s.insertions + 1)
  }

  function Totals(n: nat, ops: seq<AlignOp>): Score {
    if ops == [] then Score(n, 0, 0, 0, 0) else AddOp(Totals(n, ops[..|ops| - 1]), ops[|ops| - 1])
  }

  /** The counts add up to both texts and to the errors. */
  lemma {:induction false} TotalsAddUp(n: nat, ops: seq<AlignOp>)
    ensures var s := Totals(n, ops);
            && s.expected == n
            && s.matches + s.substitutions + s.deletions == |Sent(ops)|
            && s.matches + s.substitutions + s.insertions == |Received(ops)|
            && s.substitutions + s.deletions + s.insertions == Errors(ops)
  {
    if ops != [] {
      TotalsAddUp(n, ops[..|ops| - 1]);
    }
  }

  /** What kind of step each is: matched, substituted, deleted, inserted. */
  function KindOfStep(op: AlignOp): nat {
    match op
    case Match(_) => 0
    case Substitution(_, _) => 1
    case Deletion(_) => 2
    case Insertion(_, _) => 3
  }

  function KindsOfSteps(ops: seq<AlignOp>): seq<nat> {
    seq(|ops|, p requires 0 <= p < |ops| => KindOfStep(ops[p]))
  }

  /** Each count is the number of steps of its kind. */
  lemma {:induction false} TotalsCount(n: nat, ops: seq<AlignOp>)
    ensures var (s, kinds) := (Totals(n, ops), multiset(KindsOfSteps(ops)));
            s.matches == kinds[0] && s.substitutions == kinds[1] && s.deletions == kinds[2] && s.insertions == kinds[3]
  {
    if ops != [] {
      var k := |ops| - 1;
      TotalsCount(n, ops[..k]);
      assert KindsOfSteps(ops) == KindsOfSteps(ops[..k]) + [KindOfStep(ops[k])];
    }
  }

  method ScoreOf(a: Alignment) returns (s: Score)
    ensures s == Totals(|a.expected|, a.ops)
  {
    s := Score(|a.expected|, 0, 0, 0, 0);
    for p := 0 to |a.ops|
      invariant s == Totals(|a.expected|, a.ops[..p])
    {
      assert a.ops[..p + 1][..p] == a.ops[..p];
      s := AddOp(s, a.ops[p]);
    }
    assert a.ops[..|a.ops|] == a.ops;
  }
}
