/**
 The console layout solver: an integer length shared out by size and weight,
 and a tree of splits placed on an area.
 */
module Layout {
  import opened Wrappers
  import opened Sums

  type u16 = n: nat | n < 0x1_0000

  type u32 = n: nat | n < 0x1_0000_0000

  datatype PanelKind =
    | Readout | MeterRail | BandBar | ModeBar | QuickBar | LevelsRail | Workspace
    | Spectrum | AfScope | AfFft | Status | CommandLine | Blank | Custom(name: string)

  datatype Direction = Rows | Columns

  datatype Size = Fixed(n: u16) | Min(least: u16) | Fill(share: u16) | Natural

  datatype Node = Panel(kind: PanelKind) | Split(direction: Direction, children: seq<Child>)

  datatype Child = Child(size: Size, node: Node)

  datatype Area = Area(x: nat, y: nat, width: u16, height: u16)

  datatype Placement = Placement(kind: PanelKind, area: Area)

  // -------------------------------------------------------------------------
  // Sharing out a length
  // -------------------------------------------------------------------------

  function Want(s: Size): nat {
    match s
    case Fixed(n) => n
    case Min(n) => n
    case Fill(_) => 0
    case Natural => 0
  }

  function Weight(s: Size): u16 {
    match s
    case Fill(w) => w
    case Min(_) => 1
    case Natural => 1
    case Fixed(_) => 0
  }

  function Weights(sizes: seq<Size>): (ws: seq<int>)
    ensures |ws| == |sizes| && forall i :: 0 <= i < |sizes| ==> ws[i] == Weight(sizes[i])
  {
    seq(|sizes|, i requires 0 <= i < |sizes| => Weight(sizes[i]))
  }

  /** First pass: each stated size in order, whole or not at all, and what is left. */
  function FirstPass(sizes: seq<Size>, total: nat): (r: (seq<int>, nat))
    ensures |r.0| == |sizes| && Sum(r.0) + r.1 == total
    ensures forall i :: 0 <= i < |sizes| ==> r.0[i] == Want(sizes[i]) || r.0[i] == 0
  {
    if sizes == [] then ([], total)
    else
      var k := |sizes| - 1;
      var (given, left) := FirstPass(sizes[..k], total);
      var got := if Want(sizes[k]) <= left then Want(sizes[k]) else 0;
      assert (given + [got])[..k] == given;
      (given + [got], left - got)
  }

  /** What a weight earns of the remainder, rounded down. */
  function Share(left: nat, w: nat, weight: nat): nat
    requires weight > 0
  {
    left * w / weight
  }

  function Shares(sizes: seq<Size>, left: nat, weight: nat): (r: seq<int>)
    requires weight > 0
    ensures |r| == |sizes| && forall i :: 0 <= i < |sizes| ==> r[i] == Share(left, Weight(sizes[i]), weight)
  {
    seq(|sizes|, i requires 0 <= i < |sizes| => Share(left, Weight(sizes[i]), weight))
  }

  /** The last child with a weight. */
  function LastFlexible(sizes: seq<Size>): (r: Option<nat>)
    ensures r.Some? ==> r.value < |sizes| && Weight(sizes[r.value]) > 0
    ensures r.Some? ==> forall i :: r.value < i < |sizes| ==> Weight(sizes[i]) == 0
    ensures r.None? ==> forall i :: 0 <= i < |sizes| ==> Weight(sizes[i]) == 0
  {
    if sizes == [] then None
    else if Weight(sizes[|sizes| - 1]) > 0 then Some(|sizes| - 1)
    else LastFlexible(sizes[..|sizes| - 1])
  }

  function Flexible(sizes: seq<Size>): nat {
    if sizes == [] then 0
    else Flexible(sizes[..|sizes| - 1]) + if Weight(sizes[|sizes| - 1]) > 0 then 1 else 0
  }

  function Added(a: seq<int>, b: seq<int>): (r: seq<int>)
    requires |a| == |b|
    ensures |r| == |a| && forall i :: 0 <= i < |a| ==> r[i] == a[i] + b[i]
  {
    seq(|a|, i requires 0 <= i < |a| => a[i] + b[i])
  }

  /** The lengths handed out: the first pass, the shares, and the rounding to the last flexible child. */
  function Solved(sizes: seq<Size>, total: nat): (r: seq<int>)
    ensures |r| == |sizes|
  {
    var (given, left) := FirstPass(sizes, total);
    var weight := Sum(Weights(sizes));
    if weight > 0 && left > 0 then
      var shared := Added(given, Shares(sizes, left, weight));
      match LastFlexible(sizes)
      case Some(i) => shared[i := shared[i] + left - Sum(Shares(sizes, left, weight))]
      case None => shared
    else given
  }

  lemma {:induction false} WeightsAddUp(sizes: seq<Size>)
    ensures Sum(Weights(sizes)) >= 0
    ensures Sum(Weights(sizes)) > 0 <==> exists i :: 0 <= i < |sizes| && Weight(sizes[i]) > 0
    ensures Sum(Weights(sizes)) <= 65535 * |sizes|
  {
    if sizes != [] {
      var k := |sizes| - 1;
      WeightsAddUp(sizes[..k]);
      assert Weights(sizes)[..k] == Weights(sizes[..k]);
      assert Sum(Weights(sizes)) == Sum(Weights(sizes[..k])) + Weight(sizes[k]);
    }
  }

  lemma LossesAdd(left: int, a: int, b: int, w: int, s: int, weight: int, f: int)
    requires 0 <= left * a - weight * b <= (weight - 1) * f && 0 <= left * w - weight * s <= weight - 1
    ensures 0 <= left * (a + w) - weight * (b + s) <= (weight - 1) * (f + 1)
  {
    assert left * (a + w) == left * a + left * w && weight * (b + s) == weight * b + weight * s;
    assert (weight - 1) * (f + 1) == (weight - 1) * f + (weight - 1);
  }

  /** Rounding down loses less than one unit for each flexible child. */
  lemma {:induction false} SharesLose(sizes: seq<Size>, left: nat, weight: nat)
    requires weight > 0
    ensures 0 <= left * Sum(Weights(sizes)) - weight * Sum(Shares(sizes, left, weight)) <= (weight - 1) * Flexible(sizes)
  {
    hide Share;
    if sizes != [] {
      var k := |sizes| - 1;
      SharesLose(sizes[..k], left, weight);
      assert Weights(sizes)[..k] == Weights(sizes[..k]);
      assert Shares(sizes, left, weight)[..k] == Shares(sizes[..k], left, weight);
      ShareLoses(left, Weight(sizes[k]), weight);
      if Weight(sizes[k]) > 0 {
        LossesAdd(left, Sum(Weights(sizes[..k])), Sum(Shares(sizes[..k], left, weight)),
                  Weight(sizes[k]), Share(left, Weight(sizes[k]), weight), weight, Flexible(sizes[..k]));
      }
    }
  }

  lemma ShareLoses(left: nat, w: nat, weight: nat)
    requires weight > 0
    ensures 0 <= left * w - weight * Share(left, w, weight) <= weight - 1
    ensures w == 0 ==> Share(left, w, weight) == 0
  {
    var x := left * w;
    assert x == weight * (x / weight) + x % weight;
  }

  lemma LossBound(weight: int, loss: int, f: int)
    requires weight > 0 && f > 0 && 0 <= weight * loss <= (weight - 1) * f
    ensures 0 <= loss < f
  {
    assert (weight - 1) * f == weight * f - f;
    if loss < 0 {
      MulMonotone(loss, -1, weight);
    } else if loss >= f {
      MulMonotone(f, loss, weight);
    }
  }

  /** The whole loss is less than the number of flexible children. */
  lemma RoundingLoss(sizes: seq<Size>, left: nat)
    requires Sum(Weights(sizes)) > 0
    ensures 0 <= left - Sum(Shares(sizes, left, Sum(Weights(sizes)))) < Flexible(sizes)
  {
    hide Sum, Flexible;
    var weight := Sum(Weights(sizes));
    var handed := Sum(Shares(sizes, left, weight));
    SharesLose(sizes, left, weight);
    SomeFlexible(sizes);
    Factor(left, weight, handed);
    LossBound(weight, left - handed, Flexible(sizes));
  }

  lemma Factor(left: int, weight: int, handed: int)
    ensures left * weight - weight * handed == weight * (left - handed)
  {
  }

  lemma {:induction false} SomeFlexible(sizes: seq<Size>)
    ensures Flexible(sizes) == 0 ==> Sum(Weights(sizes)) == 0
  {
    if sizes != [] {
      assert Weights(sizes)[..|sizes| - 1] == Weights(sizes[..|sizes| - 1]);
      SomeFlexible(sizes[..|sizes| - 1]);
    }
  }

  // -------------------------------------------------------------------------
  // What the solver promises
  // -------------------------------------------------------------------------

  lemma SumOfAdded(a: seq<int>, b: seq<int>)
    requires |a| == |b|
    ensures Sum(Added(a, b)) == Sum(a) + Sum(b)
  {
    SumOfPointwise(a, b, Added(a, b));
  }

  /**
   The lengths add up to the total when some child has a weight or the stated
   sizes use everything up, and otherwise fall short by exactly what the first
   pass left.
   */
  lemma SolvedAddsUp(sizes: seq<Size>, total: nat)
    ensures Sum(Solved(sizes, total)) ==
            if Sum(Weights(sizes)) > 0 then total else total - FirstPass(sizes, total).1
    ensures Sum(Solved(sizes, total)) <= total
  {
    hide Sum, FirstPass, Shares, LastFlexible;
    var (given, left) := FirstPass(sizes, total);
    var weight := Sum(Weights(sizes));
    WeightsAddUp(sizes);
    if weight > 0 && left > 0 {
      var shared := Added(given, Shares(sizes, left, weight));
      SumOfAdded(given, Shares(sizes, left, weight));
      var i := LastFlexible(sizes).value;
      SumOfUpdate(shared, i, shared[i] + left - Sum(Shares(sizes, left, weight)));
    }
  }

  /** Every length is at least what the first pass gave and never negative; a child with no weight gets no more. */
  lemma SolvedBounds(sizes: seq<Size>, total: nat, i: nat)
    requires i < |sizes|
    ensures 0 <= FirstPass(sizes, total).0[i] <= Solved(sizes, total)[i]
    ensures Weight(sizes[i]) == 0 ==> Solved(sizes, total)[i] == FirstPass(sizes, total).0[i]
  {
    hide Sum, FirstPass;
    var (given, left) := FirstPass(sizes, total);
    var weight := Sum(Weights(sizes));
    if weight > 0 && left > 0 {
      RoundingLoss(sizes, left);
      ShareLoses(left, Weight(sizes[i]), weight);
    }
  }

  /** A fixed size is given whole or not at all. */
  lemma FixedAllOrNothing(sizes: seq<Size>, total: nat, i: nat)
    requires i < |sizes| && sizes[i].Fixed?
    ensures Solved(sizes, total)[i] == sizes[i].n || Solved(sizes, total)[i] == 0
  {
    SolvedBounds(sizes, total, i);
  }

  /** Whether the first pass has room for child `i` when its turn comes. */
  predicate Granted(sizes: seq<Size>, total: nat, i: nat)
    requires i < |sizes|
  {
    Want(sizes[i]) <= FirstPass(sizes[..i], total).1
  }

  lemma FirstPassStep(sizes: seq<Size>, total: nat)
    requires sizes != []
    ensures var k := |sizes| - 1;
            var (front, want) := (FirstPass(sizes[..k], total), Want(sizes[k]));
            var got := if want <= front.1 then want else 0;
            FirstPass(sizes, total) == (front.0 + [got], front.1 - got)
  {
    hide Sum, Want;
  }

  lemma {:induction false} FirstPassAt(sizes: seq<Size>, total: nat, i: nat)
    requires i < |sizes|
    ensures FirstPass(sizes, total).0[i] == if Granted(sizes, total, i) then Want(sizes[i]) else 0
    ensures FirstPass(sizes, total).1 <= FirstPass(sizes[..i], total).1
  {
    hide FirstPass;
    var k := |sizes| - 1;
    FirstPassStep(sizes, total);
    if i < k {
      FirstPassAt(sizes[..k], total, i);
      assert sizes[..k][..i] == sizes[..i];
    }
  }

  /**
   A `Min` that found room gets at least its minimum. One that did not still
   takes a share of what is left, so it gets nothing exactly when its share
   rounds down to nothing and it is not handed the rounding either.
   */
  lemma MinExactly(sizes: seq<Size>, total: nat, i: nat)
    requires i < |sizes| && sizes[i].Min? && sizes[i].least > 0
    ensures var (left, weight) := (FirstPass(sizes, total).1, Sum(Weights(sizes)));
            && weight > 0
            && (Solved(sizes, total)[i] >= sizes[i].least <==> Granted(sizes, total, i))
            && (Solved(sizes, total)[i] == 0 <==>
                  !Granted(sizes, total, i) && left < weight &&
                  (LastFlexible(sizes) == Some(i) ==> left == Sum(Shares(sizes, left, weight))))
  {
    hide Sum, FirstPass, LastFlexible;
    var (left, weight) := (FirstPass(sizes, total).1, Sum(Weights(sizes)));
    WeightsAddUp(sizes);
    assert Weight(sizes[i]) > 0;
    FirstPassAt(sizes, total, i);
    SolvedBounds(sizes, total, i);
    var shares := Shares(sizes, left, weight);
    RoundingLoss(sizes, left);
    forall k | 0 <= k < |sizes| ensures shares[k] >= 0 {
      ShareLoses(left, Weight(sizes[k]), weight);
    }
    PartOfSum(shares, i);
    assert shares[i] == left / weight;
    NothingShared(sizes, left, weight);
  }

  lemma NothingShared(sizes: seq<Size>, left: nat, weight: nat)
    requires weight > 0
    ensures left == 0 ==> Sum(Shares(sizes, left, weight)) == 0
    ensures (left / weight == 0) <==> left < weight
  {
    if left == 0 {
      forall k | 0 <= k < |sizes| ensures Shares(sizes, left, weight)[k] == 0 {
        ShareOfNothing(Weight(sizes[k]), weight);
      }
      SumOfZeros(Shares(sizes, left, weight));
    }
  }

  lemma ShareOfNothing(w: nat, weight: nat)
    requires weight > 0
    ensures Share(0, w, weight) == 0
  {
  }

  /** So a minimum can be half kept: five units between `Min(10)` and `Fill(1)` leave the `Min` with some and not ten. */
  lemma MinHalfKept()
    ensures var sizes := [Min(10), Fill(1)]; 0 < Solved(sizes, 5)[0] < 10
  {
    hide FirstPass, Solved, Shares;
    var sizes := [Min(10), Fill(1)];
    assert sizes[..0] == [] && sizes[..1] == [Min(10)];
    FirstPassStep(sizes, 5);
    FirstPassStep(sizes[..1], 5);
    FirstPassOfNothing(5);
    assert Weights(sizes) == [1, 1];
    SumOfPrefix([1, 1], 0);
    SumOfPrefix([1, 1], 1);
    assert [1, 1][..2] == [1, 1] && Sum([1, 1][..0]) == 0;
    MinExactly(sizes, 5, 0);
    SolvedBounds(sizes, 5, 0);
  }

  lemma FirstPassOfNothing(total: nat)
    ensures FirstPass([], total) == ([], total)
  {
  }

  // -------------------------------------------------------------------------
  // Who gets what
  // -------------------------------------------------------------------------

  /** Children that share what the stated sizes leave. */
  predicate Grows(s: Size) {
    s.Min? || s.Natural? || (s.Fill? && s.share > 0)
  }

  /** A growing child's claim on it: a fill's own number, and one for the others. */
  predicate Claims(s: Size, a: nat) {
    a > 0 && (if s.Fill? then s.share == a else a == 1 && (s.Min? || s.Natural?))
  }

  /** What a child gets beyond its stated size. */
  function Grown(sizes: seq<Size>, total: nat, i: nat): int
    requires i < |sizes|
  {
    Solved(sizes, total)[i] - FirstPass(sizes, total).0[i]
  }

  lemma ClaimIsWeight(s: Size, a: nat)
    ensures Claims(s, a) <==> a > 0 && Weight(s) == a
    ensures Grows(s) <==> Weight(s) > 0
  {
  }

  /** Stated sizes are met in order, each whole if it fits what those before it left, and else not at all. */
  lemma StatedInOrder(sizes: seq<Size>, total: nat, i: nat)
    requires i < |sizes|
    ensures var given := FirstPass(sizes, total).0;
            var room := total - Sum(given[..i]);
            match sizes[i]
            case Fixed(n) => given[i] == if n <= room then n else 0
            case Min(n) => given[i] == if n <= room then n else 0
            case _ => given[i] == 0
  {
    hide Sum, FirstPass;
    FirstPassAt(sizes, total, i);
    FirstPassPrefix(sizes, total, i);
  }

  lemma {:induction false} FirstPassPrefix(sizes: seq<Size>, total: nat, i: nat)
    requires i <= |sizes|
    ensures FirstPass(sizes, total).0[..i] == FirstPass(sizes[..i], total).0
    ensures Sum(FirstPass(sizes, total).0[..i]) + FirstPass(sizes[..i], total).1 == total
  {
    hide Sum, FirstPass;
    if i == |sizes| {
      assert sizes[..i] == sizes && FirstPass(sizes, total).0[..i] == FirstPass(sizes, total).0;
    } else {
      var k := |sizes| - 1;
      FirstPassStep(sizes, total);
      FirstPassPrefix(sizes[..k], total, i);
      assert sizes[..k][..i] == sizes[..i];
    }
  }

  /** Only growing children get more than their stated size, and if there is one they take all that is left. */
  lemma GrowersTakeTheRest(sizes: seq<Size>, total: nat)
    ensures forall i :: 0 <= i < |sizes| ==> Grown(sizes, total, i) >= 0
    ensures forall i :: 0 <= i < |sizes| && !Grows(sizes[i]) ==> Grown(sizes, total, i) == 0
    ensures (exists i :: 0 <= i < |sizes| && Grows(sizes[i])) ==> Sum(Solved(sizes, total)) == total
  {
    hide Sum, FirstPass, Solved, Weight;
    forall i: nat | i < |sizes| ensures Grown(sizes, total, i) >= 0 && (!Grows(sizes[i]) ==> Grown(sizes, total, i) == 0) {
      SolvedBounds(sizes, total, i);
      ClaimIsWeight(sizes[i], 1);
    }
    if i: nat :| i < |sizes| && Grows(sizes[i]) {
      ClaimIsWeight(sizes[i], 1);
      WeightsAddUp(sizes);
      SolvedAddsUp(sizes, total);
    }
  }

  /** Shares of one remainder are in proportion, to within the rounding. */
  lemma ShareRatio(left: nat, a: nat, b: nat, weight: nat)
    requires weight > 0 && a > 0
    ensures Share(left, a, weight) * b < (Share(left, b, weight) + 1) * a
  {
    var (s, t) := (Share(left, a, weight), Share(left, b, weight));
    ShareLoses(left, a, weight);
    ShareLoses(left, b, weight);
    RatioFromProducts(left, a, b, weight, s, t);
  }

  lemma RatioFromProducts(left: int, a: int, b: int, w: int, s: int, t: int)
    requires w > 0 && a > 0 && b >= 0 && w * s <= left * a && left * b < w * (t + 1)
    ensures s * b < (t + 1) * a
  {
    MulMonotone(w * s, left * a, b);
    MulMonotone(left * b + 1, w * (t + 1), a);
    assert w * s * b == w * (s * b) && left * a * b == left * b * a && w * (t + 1) * a == w * ((t + 1) * a);
    assert w * (s * b) < w * ((t + 1) * a);
    if s * b >= (t + 1) * a {
      MulMonotone((t + 1) * a, s * b, w);
    }
  }

  /** What each growing child gets: its share, and the rounding only for the last of them. */
  lemma GrownIs(sizes: seq<Size>, total: nat, i: nat)
    requires i < |sizes| && Weight(sizes[i]) > 0
    ensures var (left, weight) := (FirstPass(sizes, total).1, Sum(Weights(sizes)));
            && weight > 0
            && Share(left, Weight(sizes[i]), weight) <= Grown(sizes, total, i)
            && ((exists k :: i < k < |sizes| && Weight(sizes[k]) > 0) ==>
                  Grown(sizes, total, i) == Share(left, Weight(sizes[i]), weight))
  {
    hide Sum, FirstPass, Share, Weight, LastFlexible;
    var (left, weight) := (FirstPass(sizes, total).1, Sum(Weights(sizes)));
    WeightsAddUp(sizes);
    if left > 0 {
      RoundingLoss(sizes, left);
    } else {
      ShareOfNothing(Weight(sizes[i]), weight);
    }
  }

  /**
   Growing children grow in proportion to their claims, to within the rounding:
   none but the last of them gets more than its part beside any other, so the
   last gets at least its own.
   */
  lemma GrowInProportion(sizes: seq<Size>, total: nat, i: nat, j: nat, a: nat, b: nat)
    requires i < |sizes| && j < |sizes| && Claims(sizes[i], a) && Claims(sizes[j], b)
    requires exists k :: i < k < |sizes| && Grows(sizes[k])
    ensures Grown(sizes, total, i) * b < (Grown(sizes, total, j) + 1) * a
  {
    hide Sum, FirstPass, Solved, Share, Weight, Grown;
    ClaimIsWeight(sizes[i], a);
    ClaimIsWeight(sizes[j], b);
    var k :| i < k < |sizes| && Grows(sizes[k]);
    ClaimIsWeight(sizes[k], 1);
    GrownIs(sizes, total, i);
    GrownIs(sizes, total, j);
    var (left, weight) := (FirstPass(sizes, total).1, Sum(Weights(sizes)));
    ShareRatio(left, a, b, weight);
    MulMonotone(Share(left, b, weight) + 1, Grown(sizes, total, j) + 1, a);
  }

  /** The product the code forms before dividing fits in 32 bits, and so do the shares in 16. */
  lemma NoOverflow(left: u16, w: u16, weight: nat)
    requires w <= weight && weight > 0
    ensures 0 <= left * w < 0x1_0000_0000 && left * w / weight == Share(left, w, weight) <= left
  {
    MulMonotone(left, 0xFFFF, w);
    MulMonotone(w, weight, left);
    ShareLoses(left, w, weight);
    var share := Share(left, w, weight);
    if share > left {
      MulMonotone(left + 1, share, weight);
    }
  }

  /** Hands out `total`: the stated sizes first, then the rest by weight. */
  method Solve(sizes: seq<Size>, total: u16) returns (given: seq<int>)
    ensures given == Solved(sizes, total)
    ensures Sum(given) <= total && forall i :: 0 <= i < |given| ==> 0 <= given[i]
  {
    hide Sum, FirstPass, Share, LastFlexible;
    var left: u16;
    given, left := TakeStated(sizes, total);
    var weight := SumWeights(sizes);
    if weight > 0 && left > 0 {
      given := ShareOut(sizes, given, left, weight);
    }
    SolvedAddsUp(sizes, total);
    forall i | 0 <= i < |sizes| ensures 0 <= given[i] {
      SolvedBounds(sizes, total, i);
    }
  }

  method TakeStated(sizes: seq<Size>, total: u16) returns (given: seq<int>, left: u16)
    ensures (given, left) == FirstPass(sizes, total)
  {
    given, left := [], total;
    for i := 0 to |sizes|
      invariant (given, left) == FirstPass(sizes[..i], total) && left <= total
    {
      assert sizes[..i + 1][..i] == sizes[..i];
      var want := Want(sizes[i]);
      var got := if want <= left then want else 0;
      given := given + [got];
      left := left - got;
    }
    assert sizes[..|sizes|] == sizes;
  }

  method SumWeights(sizes: seq<Size>) returns (weight: nat)
    ensures weight == Sum(Weights(sizes))
  {
    weight := 0;
    for i := 0 to |sizes|
      invariant weight == Sum(Weights(sizes)[..i])
    {
      assert Weights(sizes)[..i + 1][..i] == Weights(sizes)[..i];
      weight := weight + Weight(sizes[i]);
    }
    assert Weights(sizes)[..|sizes|] == Weights(sizes);
  }

  /** The second pass: each weight's share, and the rounding to the last flexible child. */
  method ShareOut(sizes: seq<Size>, stated: seq<int>, left: u16, weight: nat) returns (given: seq<int>)
    requires |stated| == |sizes| && weight == Sum(Weights(sizes)) && weight > 0
    ensures LastFlexible(sizes).Some?
    ensures var shared := Added(stated, Shares(sizes, left, weight));
            var i := LastFlexible(sizes).value;
            given == shared[i := shared[i] + left - Sum(Shares(sizes, left, weight))]
  {
    hide Share, Sum, Weight;
    given := stated;
    var handed := 0;
    var lastFlexible: Option<nat> := None;
    var shares := Shares(sizes, left, weight);
    WeightsAddUp(sizes);
    NothingSummed();
    for i := 0 to |sizes|
      invariant |given| == |sizes|
      invariant forall k :: 0 <= k < |sizes| ==> given[k] == stated[k] + if k < i then shares[k] else 0
      invariant handed == Sum(shares[..i])
      invariant lastFlexible == LastFlexible(sizes[..i])
    {
      assert sizes[..i + 1][..i] == sizes[..i];
      SumOfPrefix(shares, i);
      var w := Weight(sizes[i]);
      ShareLoses(left, w, weight);
      if w == 0 {
        continue;
      }
      lastFlexible := Some(i);
      PartOfSum(Weights(sizes), i);
      NoOverflow(left, w, weight);
      var product: u32 := left * w;
      var share: u16 := product / weight;
      given := given[i := given[i] + share];
      handed := handed + share;
    }
    assert sizes[..|sizes|] == sizes && shares[..|sizes|] == shares;
    assert given == Added(stated, shares);
    if lastFlexible.Some? {
      var i := lastFlexible.value;
      given := given[i := given[i] + (left - handed)];
    }
  }

  lemma NothingSummed()
    ensures Sum([]) == 0
  {
  }

  // -------------------------------------------------------------------------
  // Placing a tree
  // -------------------------------------------------------------------------

  type NaturalFn = (PanelKind, Direction) -> u16

  function Concrete(c: Child, d: Direction, natural: NaturalFn): Size {
    if !c.size.Natural? then c.size
    else if c.node.Panel? then Fixed(natural(c.node.kind, d))
    else Fill(1)
  }

  function Sizes(children: seq<Child>, d: Direction, natural: NaturalFn): (r: seq<Size>)
    ensures |r| == |children|
  {
    seq(|children|, i requires 0 <= i < |children| => Concrete(children[i], d, natural))
  }

  predicate IsEmpty(a: Area) {
    a.width == 0 || a.height == 0
  }

  function Length(a: Area, d: Direction): u16 {
    if d.Rows? then a.height else a.width
  }

  /** The strip of `area` from `offset`, `span` long. */
  function Strip(area: Area, d: Direction, offset: nat, span: u16): Area {
    if d.Rows? then Area(area.x, area.y + offset, area.width, span)
    else Area(area.x + offset, area.y, span, area.height)
  }

  predicate Spans(spans: seq<int>, room: int) {
    (forall i :: 0 <= i < |spans| ==> 0 <= spans[i]) && Sum(spans) <= room
  }

  function SpansOf(node: Node, area: Area, natural: NaturalFn): (r: seq<int>)
    requires node.Split?
    ensures |r| == |node.children| && Spans(r, Length(area, node.direction))
  {
    var sizes := Sizes(node.children, node.direction, natural);
    var total := Length(area, node.direction);
    SolvedAddsUp(sizes, total);
    assert forall i :: 0 <= i < |sizes| ==> 0 <= Solved(sizes, total)[i] by {
      forall i | 0 <= i < |sizes| ensures 0 <= Solved(sizes, total)[i] {
        SolvedBounds(sizes, total, i);
      }
    }
    Solved(sizes, total)
  }

  lemma HeadOfSpans(spans: seq<int>, room: int)
    requires Spans(spans, room) && spans != []
    ensures Sum(spans) == spans[0] + Sum(spans[1..]) && 0 <= spans[0] <= room && Spans(spans[1..], room - spans[0])
    ensures 0 <= Sum(spans[1..])
  {
    assert spans == [spans[0]] + spans[1..];
    SumOfConcat([spans[0]], spans[1..]);
    assert [spans[0]][..0] == [];
    SumMonotone(seq(|spans| - 1, _ => 0), spans[1..]);
    SumOfZeros(seq(|spans| - 1, _ => 0));
  }

  /** Every panel and where it goes, in tree order. */
  function Place(node: Node, area: Area, natural: NaturalFn): seq<Placement>
    decreases node, 1
  {
    if IsEmpty(area) then []
    else match node
      case Panel(kind) => [Placement(kind, area)]
      case Split(d, children) => PlaceAll(children, SpansOf(node, area, natural), area, d, 0, natural)
  }

  function PlaceAll(children: seq<Child>, spans: seq<int>, area: Area, d: Direction, offset: nat, natural: NaturalFn): seq<Placement>
    requires |spans| == |children| && Spans(spans, Length(area, d) - offset)
    decreases children, 0
  {
    if children == [] then []
    else
      HeadOfSpans(spans, Length(area, d) - offset);
      PlaceChild(children[0], Strip(area, d, offset, spans[0]), natural)
      + PlaceAll(children[1..], spans[1..], area, d, offset + spans[0], natural)
  }

  function PlaceChild(c: Child, area: Area, natural: NaturalFn): seq<Placement>
    decreases c, 0
  {
    Place(c.node, area, natural)
  }

  // -------------------------------------------------------------------------
  // What a placement promises
  // -------------------------------------------------------------------------

  /** The sizes the solver is given: as stated, a natural panel at what its renderer needs, a natural split a share. */
  ghost predicate Stated(sizes: seq<Size>, children: seq<Child>, d: Direction, natural: NaturalFn) {
    |sizes| == |children| && forall i :: 0 <= i < |children| ==>
      match children[i].size
      case Natural => sizes[i] == (match children[i].node
                                   case Panel(kind) => Fixed(natural(kind, d))
                                   case Split(_, _) => Fill(1))
      case _ => sizes[i] == children[i].size
  }

  lemma StatedIs(sizes: seq<Size>, children: seq<Child>, d: Direction, natural: NaturalFn)
    requires Stated(sizes, children, d, natural)
    ensures sizes == Sizes(children, d, natural)
  {
  }

  lemma {:induction false} SpansFit(spans: seq<int>, room: int, i: nat)
    requires Spans(spans, room) && i < |spans|
    ensures 0 <= Sum(spans[..i]) && 0 <= spans[i] && Sum(spans[..i]) + spans[i] <= room
    decreases |spans|
  {
    hide Sum;
    var k := |spans| - 1;
    SumOfPrefix(spans, k);
    assert spans[..|spans|] == spans;
    if i < k {
      SpansFit(spans[..k], room, i);
      assert spans[..k][..i] == spans[..i];
    } else {
      SumMonotone(seq(k, _ => 0), spans[..k]);
      SumOfZeros(seq(k, _ => 0));
    }
  }

  lemma {:induction false} PlaceAllOne(children: seq<Child>, spans: seq<int>, area: Area, d: Direction, offset: nat,
                                      natural: NaturalFn, i: nat)
    returns (before: seq<Placement>, after: seq<Placement>)
    requires |spans| == |children| && Spans(spans, Length(area, d) - offset) && i < |children|
    ensures 0 <= Sum(spans[..i]) && 0 <= spans[i] < 0x1_0000
    ensures PlaceAll(children, spans, area, d, offset, natural) ==
            before + Place(children[i].node, Strip(area, d, offset + Sum(spans[..i]), spans[i]), natural) + after
    decreases i
  {
    hide Sum, Place, Strip;
    HeadOfSpans(spans, Length(area, d) - offset);
    SpansFit(spans, Length(area, d) - offset, i);
    var head := PlaceChild(children[0], Strip(area, d, offset, spans[0]), natural);
    if i == 0 {
      NothingSummed();
      before, after := [], PlaceAll(children[1..], spans[1..], area, d, offset + spans[0], natural);
      assert spans[..0] == [] && [] + head == head;
    } else {
      var inner;
      inner, after := PlaceAllOne(children[1..], spans[1..], area, d, offset + spans[0], natural, i - 1);
      before := head + inner;
      assert spans[..i] == [spans[0]] + spans[1..][..i - 1];
      SumOfConcat([spans[0]], spans[1..][..i - 1]);
      SumOfOne(spans[0]);
      var mine := Place(children[i].node, Strip(area, d, offset + Sum(spans[..i]), spans[i]), natural);
      assert head + (inner + mine + after) == before + mine + after;
    }
  }

  lemma SumOfOne(x: int)
    ensures Sum([x]) == x
  {
    assert [x][..0] == [];
  }

  /**
   A split's children are placed in order, one below the other for rows and one
   beside the other for columns, each as long as the solver says and as wide as
   the split.
   */
  lemma ChildrenInOrder(node: Node, area: Area, natural: NaturalFn, sizes: seq<Size>, i: nat)
    returns (before: seq<Placement>, after: seq<Placement>)
    requires node.Split? && !IsEmpty(area) && i < |node.children|
    requires Stated(sizes, node.children, node.direction, natural)
    ensures var spans := Solved(sizes, if node.direction.Rows? then area.height else area.width);
            && 0 <= Sum(spans[..i]) && 0 <= spans[i] < 0x1_0000
            && var mine := if node.direction.Rows?
                           then Area(area.x, area.y + Sum(spans[..i]), area.width, spans[i])
                           else Area(area.x + Sum(spans[..i]), area.y, spans[i], area.height);
               Place(node, area, natural) == before + Place(node.children[i].node, mine, natural) + after
  {
    hide Sum, Solved;
    StatedIs(sizes, node.children, node.direction, natural);
    before, after := PlaceAllOne(node.children, SpansOf(node, area, natural), area, node.direction, 0, natural, i);
  }

  ghost predicate Covers(a: Area, cx: int, cy: int) {
    a.x <= cx < a.x + a.width && a.y <= cy < a.y + a.height
  }

  ghost predicate Within(a: Area, b: Area) {
    b.x <= a.x && a.x + a.width <= b.x + b.width && b.y <= a.y && a.y + a.height <= b.y + b.height
  }

  ghost predicate Apart(a: Area, b: Area) {
    a.x + a.width <= b.x || b.x + b.width <= a.x || a.y + a.height <= b.y || b.y + b.height <= a.y
  }

  /** `a` lies in the band of `area` from `lo` to `hi` along the split. */
  ghost predicate InBand(a: Area, area: Area, d: Direction, lo: int, hi: int) {
    && Within(a, area)
    && if d.Rows? then area.y + lo <= a.y && a.y + a.height <= area.y + hi
       else area.x + lo <= a.x && a.x + a.width <= area.x + hi
  }

  ghost predicate AllWithin(ps: seq<Placement>, area: Area) {
    forall i :: 0 <= i < |ps| ==> !IsEmpty(ps[i].area) && Within(ps[i].area, area)
  }

  ghost predicate AllInBand(ps: seq<Placement>, area: Area, d: Direction, lo: int, hi: int) {
    forall i :: 0 <= i < |ps| ==> !IsEmpty(ps[i].area) && InBand(ps[i].area, area, d, lo, hi)
  }

  ghost predicate PairwiseApart(ps: seq<Placement>) {
    forall i, j :: 0 <= i < j < |ps| ==> Apart(ps[i].area, ps[j].area)
  }

  lemma {:induction false} PlaceInside(node: Node, area: Area, natural: NaturalFn)
    ensures AllWithin(Place(node, area, natural), area)
    decreases node, 1
  {
    hide Sum, SpansOf;
    if !IsEmpty(area) && node.Split? {
      PlaceAllInBand(node.children, SpansOf(node, area, natural), area, node.direction, 0, natural);
    }
  }

  lemma {:induction false} PlaceChildInside(c: Child, area: Area, natural: NaturalFn)
    ensures AllWithin(PlaceChild(c, area, natural), area)
    decreases c, 0
  {
    PlaceInside(c.node, area, natural);
  }

  lemma {:induction false} PlaceAllInBand(children: seq<Child>, spans: seq<int>, area: Area, d: Direction, offset: nat, natural: NaturalFn)
    requires |spans| == |children| && Spans(spans, Length(area, d) - offset)
    ensures AllInBand(PlaceAll(children, spans, area, d, offset, natural), area, d, offset, offset + Sum(spans))
    decreases children, 0
  {
    hide Sum, PlaceChild;
    if children != [] {
      HeadOfSpans(spans, Length(area, d) - offset);
      PlaceChildInside(children[0], Strip(area, d, offset, spans[0]), natural);
      PlaceAllInBand(children[1..], spans[1..], area, d, offset + spans[0], natural);
    }
  }

  lemma {:induction false} PlaceApart(node: Node, area: Area, natural: NaturalFn)
    ensures PairwiseApart(Place(node, area, natural))
    decreases node, 1
  {
    hide Sum, SpansOf;
    if !IsEmpty(area) && node.Split? {
      PlaceAllApart(node.children, SpansOf(node, area, natural), area, node.direction, 0, natural);
    }
  }

  lemma {:induction false} PlaceChildApart(c: Child, area: Area, natural: NaturalFn)
    ensures PairwiseApart(PlaceChild(c, area, natural))
    decreases c, 0
  {
    PlaceApart(c.node, area, natural);
  }

  lemma {:induction false} PlaceAllApart(children: seq<Child>, spans: seq<int>, area: Area, d: Direction, offset: nat, natural: NaturalFn)
    requires |spans| == |children| && Spans(spans, Length(area, d) - offset)
    ensures PairwiseApart(PlaceAll(children, spans, area, d, offset, natural))
    decreases children, 0
  {
    hide Sum, PlaceChild;
    if children != [] {
      HeadOfSpans(spans, Length(area, d) - offset);
      var strip := Strip(area, d, offset, spans[0]);
      PlaceChildApart(children[0], strip, natural);
      PlaceChildInside(children[0], strip, natural);
      PlaceAllApart(children[1..], spans[1..], area, d, offset + spans[0], natural);
      PlaceAllInBand(children[1..], spans[1..], area, d, offset + spans[0], natural);
    }
  }

  // -------------------------------------------------------------------------
  // Tree order
  // -------------------------------------------------------------------------

  function Panels(node: Node): seq<PanelKind>
    decreases node, 1
  {
    match node
    case Panel(kind) => [kind]
    case Split(_, children) => PanelsOfAll(children)
  }

  function PanelsOfAll(children: seq<Child>): seq<PanelKind>
    decreases children, 0
  {
    if children == [] then [] else PanelsOfChild(children[0]) + PanelsOfAll(children[1..])
  }

  function PanelsOfChild(c: Child): seq<PanelKind>
    decreases c, 0
  {
    Panels(c.node)
  }

  function Kinds(ps: seq<Placement>): seq<PanelKind> {
    seq(|ps|, i requires 0 <= i < |ps| => ps[i].kind)
  }

  /** `a` is `b` with some elements left out. */
  predicate Subsequence(a: seq<PanelKind>, b: seq<PanelKind>) {
    if a == [] then true
    else if b == [] then false
    else (a[0] == b[0] && Subsequence(a[1..], b[1..])) || Subsequence(a, b[1..])
  }

  lemma {:induction false} SubsequenceOfConcat(a: seq<PanelKind>, b: seq<PanelKind>, a': seq<PanelKind>, b': seq<PanelKind>)
    requires Subsequence(a, b) && Subsequence(a', b')
    ensures Subsequence(a + a', b + b')
    decreases |b|
  {
    if b == [] {
      assert a + a' == a' && b + b' == b';
    } else {
      assert (b + b')[1..] == b[1..] + b';
      if a == [] {
        SubsequenceOfConcat(a, b[1..], a', b');
      } else if a[0] == b[0] && Subsequence(a[1..], b[1..]) {
        SubsequenceOfConcat(a[1..], b[1..], a', b');
        assert (a + a')[1..] == a[1..] + a';
      } else {
        SubsequenceOfConcat(a, b[1..], a', b');
      }
    }
  }

  lemma {:induction false} PlaceInTreeOrder(node: Node, area: Area, natural: NaturalFn)
    ensures Subsequence(Kinds(Place(node, area, natural)), Panels(node))
    decreases node, 1
  {
    hide SpansOf;
    if !IsEmpty(area) && node.Split? {
      PlaceAllInTreeOrder(node.children, SpansOf(node, area, natural), area, node.direction, 0, natural);
    }
  }

  lemma {:induction false} PlaceChildInTreeOrder(c: Child, area: Area, natural: NaturalFn)
    ensures Subsequence(Kinds(PlaceChild(c, area, natural)), PanelsOfChild(c))
    decreases c, 0
  {
    PlaceInTreeOrder(c.node, area, natural);
  }

  lemma {:induction false} PlaceAllInTreeOrder(children: seq<Child>, spans: seq<int>, area: Area, d: Direction, offset: nat, natural: NaturalFn)
    requires |spans| == |children| && Spans(spans, Length(area, d) - offset)
    ensures Subsequence(Kinds(PlaceAll(children, spans, area, d, offset, natural)), PanelsOfAll(children))
    decreases children, 0
  {
    hide Sum, PlaceChild, PanelsOfChild;
    if children != [] {
      HeadOfSpans(spans, Length(area, d) - offset);
      var head := PlaceChild(children[0], Strip(area, d, offset, spans[0]), natural);
      var tail := PlaceAll(children[1..], spans[1..], area, d, offset + spans[0], natural);
      PlaceChildInTreeOrder(children[0], Strip(area, d, offset, spans[0]), natural);
      PlaceAllInTreeOrder(children[1..], spans[1..], area, d, offset + spans[0], natural);
      SubsequenceOfConcat(Kinds(head), PanelsOfChild(children[0]), Kinds(tail), PanelsOfAll(children[1..]));
      assert Kinds(head + tail) == Kinds(head) + Kinds(tail);
    }
  }

  // -------------------------------------------------------------------------
  // Covering the area
  // -------------------------------------------------------------------------

  ghost predicate Covered(ps: seq<Placement>, cx: int, cy: int) {
    exists i :: 0 <= i < |ps| && Covers(ps[i].area, cx, cy)
  }

  /** Every split the placement reaches hands out its whole length. */
  ghost predicate Fills(node: Node, area: Area, natural: NaturalFn)
    decreases node, 1
  {
    IsEmpty(area) || node.Panel? ||
    (var spans := SpansOf(node, area, natural);
     Sum(spans) == Length(area, node.direction) && AllFill(node.children, spans, area, node.direction, 0, natural))
  }

  ghost predicate AllFill(children: seq<Child>, spans: seq<int>, area: Area, d: Direction, offset: nat, natural: NaturalFn)
    requires |spans| == |children| && Spans(spans, Length(area, d) - offset)
    decreases children, 0
  {
    children == [] ||
    (HeadOfSpans(spans, Length(area, d) - offset);
     ChildFills(children[0], Strip(area, d, offset, spans[0]), natural)
     && AllFill(children[1..], spans[1..], area, d, offset + spans[0], natural))
  }

  ghost predicate ChildFills(c: Child, area: Area, natural: NaturalFn)
    decreases c, 0
  {
    Fills(c.node, area, natural)
  }

  /** How far along the split a cell is. */
  function Along(area: Area, d: Direction, cx: int, cy: int): int {
    if d.Rows? then cy - area.y else cx - area.x
  }

  lemma StripCovers(area: Area, d: Direction, offset: nat, span: u16, cx: int, cy: int)
    requires offset + span <= Length(area, d)
    ensures Covers(Strip(area, d, offset, span), cx, cy) <==>
              Covers(area, cx, cy) && offset <= Along(area, d, cx, cy) < offset + span
  {
  }

  lemma CoveredByConcat(a: seq<Placement>, b: seq<Placement>, cx: int, cy: int)
    ensures Covered(a + b, cx, cy) <==> Covered(a, cx, cy) || Covered(b, cx, cy)
  {
    if Covered(a, cx, cy) {
      var i :| 0 <= i < |a| && Covers(a[i].area, cx, cy);
      assert (a + b)[i] == a[i];
    }
    if Covered(b, cx, cy) {
      var i :| 0 <= i < |b| && Covers(b[i].area, cx, cy);
      assert (a + b)[|a| + i] == b[i];
    }
  }

  lemma {:induction false} FilledIsCovered(node: Node, area: Area, natural: NaturalFn, cx: int, cy: int)
    requires Fills(node, area, natural) && Covers(area, cx, cy)
    ensures Covered(Place(node, area, natural), cx, cy)
    decreases node, 1
  {
    hide SpansOf, Sum;
    if node.Panel? {
      assert Covers(Place(node, area, natural)[0].area, cx, cy);
    } else {
      AllFilledIsCovered(node.children, SpansOf(node, area, natural), area, node.direction, 0, natural, cx, cy);
    }
  }

  lemma {:induction false} ChildFilledIsCovered(c: Child, area: Area, natural: NaturalFn, cx: int, cy: int)
    requires ChildFills(c, area, natural) && Covers(area, cx, cy)
    ensures Covered(PlaceChild(c, area, natural), cx, cy)
    decreases c, 0
  {
    FilledIsCovered(c.node, area, natural, cx, cy);
  }

  lemma {:induction false} AllFilledIsCovered(children: seq<Child>, spans: seq<int>, area: Area, d: Direction, offset: nat,
                                             natural: NaturalFn, cx: int, cy: int)
    requires |spans| == |children| && Spans(spans, Length(area, d) - offset)
    requires AllFill(children, spans, area, d, offset, natural)
    requires Covers(area, cx, cy) && offset <= Along(area, d, cx, cy) < offset + Sum(spans)
    ensures Covered(PlaceAll(children, spans, area, d, offset, natural), cx, cy)
    decreases children, 0
  {
    hide PlaceChild, ChildFills, Covered, Covers, Strip, Along;
    NothingSummed();
    if children != [] {
      HeadOfSpans(spans, Length(area, d) - offset);
      var strip := Strip(area, d, offset, spans[0]);
      var head := PlaceChild(children[0], strip, natural);
      var tail := PlaceAll(children[1..], spans[1..], area, d, offset + spans[0], natural);
      StripCovers(area, d, offset, spans[0], cx, cy);
      CoveredByConcat(head, tail, cx, cy);
      if Along(area, d, cx, cy) < offset + spans[0] {
        ChildFilledIsCovered(children[0], strip, natural, cx, cy);
      } else {
        AllFilledIsCovered(children[1..], spans[1..], area, d, offset + spans[0], natural, cx, cy);
      }
    }
  }

  lemma OutsideBand(ps: seq<Placement>, area: Area, d: Direction, lo: int, hi: int, cx: int, cy: int)
    requires AllInBand(ps, area, d, lo, hi) && !(lo <= Along(area, d, cx, cy) < hi)
    ensures !Covered(ps, cx, cy)
  {
  }

  /** A placement that does not fill leaves a cell of the area bare. */
  lemma {:induction false} UnfilledHasGap(node: Node, area: Area, natural: NaturalFn) returns (cx: int, cy: int)
    requires !Fills(node, area, natural)
    ensures Covers(area, cx, cy) && !Covered(Place(node, area, natural), cx, cy)
    decreases node, 1
  {
    hide SpansOf, PlaceAll, AllFill;
    var (spans, d) := (SpansOf(node, area, natural), node.direction);
    PlaceAllInBand(node.children, spans, area, d, 0, natural);
    if Sum(spans) < Length(area, d) {
      SpansNotNegative(spans, Length(area, d));
      cx, cy := if d.Rows? then area.x else area.x + Sum(spans), if d.Rows? then area.y + Sum(spans) else area.y;
      OutsideBand(PlaceAll(node.children, spans, area, d, 0, natural), area, d, 0, Sum(spans), cx, cy);
    } else {
      cx, cy := SomeUnfilledHasGap(node.children, spans, area, d, 0, natural);
    }
  }

  lemma SpansNotNegative(spans: seq<int>, room: int)
    requires Spans(spans, room)
    ensures 0 <= Sum(spans)
  {
    SumMonotone(seq(|spans|, _ => 0), spans);
    SumOfZeros(seq(|spans|, _ => 0));
  }

  lemma {:induction false} ChildUnfilledHasGap(c: Child, area: Area, natural: NaturalFn) returns (cx: int, cy: int)
    requires !ChildFills(c, area, natural)
    ensures Covers(area, cx, cy) && !Covered(PlaceChild(c, area, natural), cx, cy)
    decreases c, 0
  {
    cx, cy := UnfilledHasGap(c.node, area, natural);
  }

  lemma {:induction false} SomeUnfilledHasGap(children: seq<Child>, spans: seq<int>, area: Area, d: Direction, offset: nat, natural: NaturalFn)
    returns (cx: int, cy: int)
    requires |spans| == |children| && Spans(spans, Length(area, d) - offset)
    requires !AllFill(children, spans, area, d, offset, natural)
    ensures Covers(area, cx, cy) && offset <= Along(area, d, cx, cy)
    ensures !Covered(PlaceAll(children, spans, area, d, offset, natural), cx, cy)
    decreases children, 0
  {
    hide PlaceChild, ChildFills, Covered, Sum;
    HeadOfSpans(spans, Length(area, d) - offset);
    var next := offset + spans[0];
    var strip := Strip(area, d, offset, spans[0]);
    var head := PlaceChild(children[0], strip, natural);
    var tail := PlaceAll(children[1..], spans[1..], area, d, next, natural);
    if !ChildFills(children[0], strip, natural) {
      cx, cy := ChildUnfilledHasGap(children[0], strip, natural);
      StripCovers(area, d, offset, spans[0], cx, cy);
      PlaceAllInBand(children[1..], spans[1..], area, d, next, natural);
      OutsideBand(tail, area, d, next, next + Sum(spans[1..]), cx, cy);
    } else {
      cx, cy := SomeUnfilledHasGap(children[1..], spans[1..], area, d, next, natural);
      PlaceChildInside(children[0], strip, natural);
      OutsideBand(head, area, d, offset, next, cx, cy);
    }
    CoveredByConcat(head, tail, cx, cy);
  }

  /** Every cell of the area is placed on exactly when every split reached hands out its whole length. */
  lemma CoveredExactlyWhenFilled(node: Node, area: Area, natural: NaturalFn)
    ensures (forall cx, cy :: Covers(area, cx, cy) ==> Covered(Place(node, area, natural), cx, cy))
              <==> Fills(node, area, natural)
  {
    hide Fills, Place, Covered;
    if Fills(node, area, natural) {
      forall cx, cy | Covers(area, cx, cy) ensures Covered(Place(node, area, natural), cx, cy) {
        FilledIsCovered(node, area, natural, cx, cy);
      }
    } else {
      var cx, cy := UnfilledHasGap(node, area, natural);
    }
  }

  /** Every split, however deep, has a child with a weight. */
  ghost predicate Elastic(node: Node, natural: NaturalFn)
    decreases node, 1
  {
    node.Panel? || (Sum(Weights(Sizes(node.children, node.direction, natural))) > 0 && AllElastic(node.children, natural))
  }

  ghost predicate AllElastic(children: seq<Child>, natural: NaturalFn)
    decreases children, 0
  {
    children == [] || (ChildElastic(children[0], natural) && AllElastic(children[1..], natural))
  }

  ghost predicate ChildElastic(c: Child, natural: NaturalFn)
    decreases c, 0
  {
    Elastic(c.node, natural)
  }

  lemma {:induction false} ElasticFills(node: Node, area: Area, natural: NaturalFn)
    requires Elastic(node, natural)
    ensures Fills(node, area, natural)
    decreases node, 1
  {
    hide Solved;
    if node.Split? && !IsEmpty(area) {
      SolvedAddsUp(Sizes(node.children, node.direction, natural), Length(area, node.direction));
      AllElasticFill(node.children, SpansOf(node, area, natural), area, node.direction, 0, natural);
    }
  }

  lemma {:induction false} ChildElasticFills(c: Child, area: Area, natural: NaturalFn)
    requires ChildElastic(c, natural)
    ensures ChildFills(c, area, natural)
    decreases c, 0
  {
    ElasticFills(c.node, area, natural);
  }

  lemma {:induction false} AllElasticFill(children: seq<Child>, spans: seq<int>, area: Area, d: Direction, offset: nat, natural: NaturalFn)
    requires |spans| == |children| && Spans(spans, Length(area, d) - offset)
    requires AllElastic(children, natural)
    ensures AllFill(children, spans, area, d, offset, natural)
    decreases children, 0
  {
    hide ChildElastic, ChildFills;
    if children != [] {
      HeadOfSpans(spans, Length(area, d) - offset);
      ChildElasticFills(children[0], Strip(area, d, offset, spans[0]), natural);
      AllElasticFill(children[1..], spans[1..], area, d, offset + spans[0], natural);
    }
  }

  lemma CoveredOnce(ps: seq<Placement>, i: nat, j: nat, cx: int, cy: int)
    requires PairwiseApart(ps) && i < j < |ps|
    ensures !(Covers(ps[i].area, cx, cy) && Covers(ps[j].area, cx, cy))
  {
    assert Apart(ps[i].area, ps[j].area);
  }

  /** A layout whose every split has a weighted child tiles the area: each cell is on exactly one panel. */
  lemma ElasticTiles(node: Node, area: Area, natural: NaturalFn, cx: int, cy: int)
    requires Elastic(node, natural) && Covers(area, cx, cy)
    ensures var ps := Place(node, area, natural);
            exists i :: 0 <= i < |ps| && Covers(ps[i].area, cx, cy) &&
                        forall j :: 0 <= j < |ps| && Covers(ps[j].area, cx, cy) ==> j == i
  {
    hide Fills, Place, Elastic, PairwiseApart, Covers;
    var ps := Place(node, area, natural);
    ElasticFills(node, area, natural);
    FilledIsCovered(node, area, natural, cx, cy);
    PlaceApart(node, area, natural);
    var i :| 0 <= i < |ps| && Covers(ps[i].area, cx, cy);
    forall j | 0 <= j < |ps| ensures Covers(ps[j].area, cx, cy) ==> j == i {
      if j < i {
        CoveredOnce(ps, j, i, cx, cy);
      } else if i < j {
        CoveredOnce(ps, i, j, cx, cy);
      }
    }
  }

  // -------------------------------------------------------------------------
  // The recursion with its output list
  // -------------------------------------------------------------------------

  /** Resolves a tree against an area: non-empty panels, inside it, pairwise apart, in tree order. */
  method Resolve(root: Node, area: Area, natural: NaturalFn) returns (out: seq<Placement>)
    ensures out == Place(root, area, natural)
    ensures AllWithin(out, area) && PairwiseApart(out) && Subsequence(Kinds(out), Panels(root))
  {
    out := PlaceInto(root, area, natural, []);
    PlaceInside(root, area, natural);
    PlaceApart(root, area, natural);
    PlaceInTreeOrder(root, area, natural);
  }

  method PlaceInto(node: Node, area: Area, natural: NaturalFn, out: seq<Placement>) returns (out': seq<Placement>)
    ensures out' == out + Place(node, area, natural)
    decreases node, 1
  {
    hide Sum, Solved;
    out' := out;
    if IsEmpty(area) {
      return;
    }
    match node {
      case Panel(kind) => out' := out' + [Placement(kind, area)];
      case Split(d, children) =>
        var spans := Solve(Sizes(children, d, natural), Length(area, d));
        var offset: nat := 0;
        assert children[0..] == children && spans[0..] == spans;
        for i := 0 to |children|
          invariant Spans(spans[i..], Length(area, d) - offset)
          invariant out' + PlaceAll(children[i..], spans[i..], area, d, offset, natural) == out + Place(node, area, natural)
        {
          HeadOfSpans(spans[i..], Length(area, d) - offset);
          PlacedOne(out', children[i..], spans[i..], area, d, offset, natural);
          assert children[i..][1..] == children[i + 1..] && spans[i..][1..] == spans[i + 1..];
          out' := PlaceOne(children[i], Strip(area, d, offset, spans[i]), natural, out');
          offset := offset + spans[i];
        }
    }
  }

  lemma PlacedOne(out: seq<Placement>, children: seq<Child>, spans: seq<int>, area: Area, d: Direction, offset: nat, natural: NaturalFn)
    requires |spans| == |children| && children != [] && Spans(spans, Length(area, d) - offset)
    requires 0 <= spans[0] <= Length(area, d) && Spans(spans[1..], Length(area, d) - (offset + spans[0]))
    ensures out + PlaceAll(children, spans, area, d, offset, natural)
         == out + PlaceChild(children[0], Strip(area, d, offset, spans[0]), natural)
            + PlaceAll(children[1..], spans[1..], area, d, offset + spans[0], natural)
  {
  }

  method PlaceOne(c: Child, area: Area, natural: NaturalFn, out: seq<Placement>) returns (out': seq<Placement>)
    ensures out' == out + PlaceChild(c, area, natural)
    decreases c, 0
  {
    out' := PlaceInto(c.node, area, natural, out);
  }
}
