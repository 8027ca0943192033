/**
 The minimum-cost assignment behind order-free scoring: shortest augmenting
 paths with row and column potentials.

 Rows and columns are numbered from 1, as in the source; index 0 of `p` and
 `way` is the virtual column from which a row's search starts.
 */
module Hungarian {
  import opened Sums

  type Matrix = seq<seq<int>>

  /** The "not reached yet" mark, a quarter of the largest 64-bit integer. */
  const INF: int := 0x7FFF_FFFF_FFFF_FFFF / 4

  ghost predicate Square(cost: Matrix) {
    forall i :: 0 <= i < |cost| ==> |cost[i]| == |cost|
  }

  /** Entries between 0 and `most`, below `INF`. */
  ghost predicate Bounded(cost: Matrix, most: nat) {
    && Square(cost)
    && most < INF
    && forall i, j :: 0 <= i < |cost| && 0 <= j < |cost| ==> 0 <= cost[i][j] <= most
  }

  ghost function AssignmentCost(cost: Matrix, a: seq<nat>): int
    requires |a| == |cost| && Square(cost)
    requires forall i :: 0 <= i < |a| ==> a[i] < |a|
  {
    Sum(seq(|a|, i requires 0 <= i < |a| => cost[i][a[i]]))
  }

  /** The cost of row `r` in column `j`, both counted from 1. */
  function At(cost: Matrix, r: int, j: int): int
    requires Square(cost) && 1 <= r <= |cost| && 1 <= j <= |cost|
  {
    cost[r - 1][j - 1]
  }

  function Slack(cost: Matrix, u: seq<int>, v: seq<int>, r: int, j: int): int
    requires Square(cost) && |u| == |v| == |cost| + 1
    requires 1 <= r <= |cost| && 1 <= j <= |cost|
  {
    At(cost, r, j) - u[r] - v[j]
  }

  // -------------------------------------------------------------------------
  // What holds between rows
  // -------------------------------------------------------------------------

  ghost function Free(p: seq<nat>): set<nat> {
    set j | 0 <= j < |p| && j >= 1 && p[j] == 0
  }

  /** Potentials that underestimate every cost, never negative for rows nor positive for columns, and 0 where nothing happened yet. */
  ghost predicate Prices(cost: Matrix, i: nat, u: seq<int>, v: seq<int>, p: seq<nat>) {
    var n := |cost|;
    && Square(cost)
    && |u| == |v| == |p| == n + 1
    && (forall r, j :: 1 <= r <= n && 1 <= j <= n ==> Slack(cost, u, v, r, j) >= 0)
    && (forall r :: 1 <= r <= n ==> u[r] >= 0 && (r > i ==> u[r] == 0))
    && (forall j :: 1 <= j <= n ==> v[j] <= 0 && (p[j] == 0 ==> v[j] == 0))
  }

  /** What the rows gained the columns lost, column 0 included. */
  ghost predicate Balanced(u: seq<int>, v: seq<int>) {
    |u| == |v| > 0 && u[0] == 0 && Sum(u) + Sum(v) == 0
  }

  /** Every potential but column 0's stays within `most` of 0. */
  ghost predicate Within(most: nat, u: seq<int>, v: seq<int>) {
    |u| == |v| && forall k :: 1 <= k < |u| ==> 0 <= u[k] <= most && 0 <= v[k] + most <= most
  }

  /** Rows `1..i` each hold one column, and every held pair is tight. */
  ghost predicate Matching(cost: Matrix, i: nat, u: seq<int>, v: seq<int>, p: seq<nat>) {
    var n := |cost|;
    && Square(cost)
    && i <= n
    && |u| == |v| == |p| == n + 1
    && (forall j :: 1 <= j <= n ==> p[j] <= i)
    && (forall j, k :: 1 <= j < k <= n && p[j] == p[k] ==> p[j] == 0)
    && (forall j :: 1 <= j <= n && p[j] != 0 ==> Slack(cost, u, v, p[j], j) == 0)
    && |Free(p)| == n - i
  }

  // -------------------------------------------------------------------------
  // The search tree of one row
  // -------------------------------------------------------------------------

  /**
   Every used column hangs from an earlier used one by a tight edge, and `minv`
   is at most the least slack from the used rows, `open` being not yet scanned.
   A `minv` short of `far`, where the "not reached" mark has got to, is a slack.
   */
  ghost predicate Tree(cost: Matrix, u: seq<int>, v: seq<int>, p: seq<nat>, way: seq<nat>, minv: seq<int>,
                       used: seq<bool>, rank: seq<nat>, count: nat, far: int, open: int) {
    var n := |cost|;
    && Square(cost)
    && |u| == |v| == |p| == |way| == |minv| == |used| == |rank| == n + 1
    && (forall j :: 0 <= j <= n && used[j] ==> 1 <= p[j] <= n && rank[j] < count)
    && (forall j :: 1 <= j <= n && used[j] ==> Hangs(cost, u, v, p, way, used, rank, j))
    && (forall j :: 1 <= j <= n && !used[j] && minv[j] < far ==>
          way[j] <= n && used[way[j]] && 1 <= p[way[j]] <= n && minv[j] == Slack(cost, u, v, p[way[j]], j))
    && (forall j, k :: 1 <= j <= n && !used[j] && 0 <= k <= n && used[k] && k != open ==>
          minv[j] <= Slack(cost, u, v, p[k], j))
  }

  ghost predicate Hangs(cost: Matrix, u: seq<int>, v: seq<int>, p: seq<nat>, way: seq<nat>,
                        used: seq<bool>, rank: seq<nat>, j: int)
    requires Square(cost) && |u| == |v| == |p| == |way| == |used| == |rank| == |cost| + 1
    requires 1 <= j <= |cost|
  {
    && way[j] <= |cost| && used[way[j]] && rank[way[j]] < rank[j]
    && 1 <= p[way[j]] <= |cost| && Slack(cost, u, v, p[way[j]], j) == 0
  }

  /** What the scan does at one column: a smaller slack replaces the distance and says where it came from. */
  ghost predicate ScannedAt(skip: bool, slack: int, j0: nat, m: int, w: nat, m': int, w': nat) {
    if !skip && slack < m then m' == slack && w' == j0 else m' == m && w' == w
  }

  /** One pass over the columns from row `i0` through column `j0`. */
  ghost predicate Scanned(cost: Matrix, u: seq<int>, v: seq<int>, used: seq<bool>, i0: nat, j0: nat,
                          minv: seq<int>, way: seq<nat>, minv': seq<int>, way': seq<nat>)
  {
    var n := |cost|;
    && Square(cost) && 1 <= i0 <= n
    && |u| == |v| == |used| == |minv| == |way| == |minv'| == |way'| == n + 1
    && minv'[0] == minv[0] && way'[0] == way[0]
    && forall j :: 1 <= j <= n ==>
         ScannedAt(used[j], Slack(cost, u, v, i0, j), j0, minv[j], way[j], minv'[j], way'[j])
  }

  /** `delta` is the least `minv` among the unused columns below `n`, held by column `j1`. */
  ghost predicate Least(used: seq<bool>, minv: seq<int>, n: nat, delta: int, j1: nat)
    requires |used| == |minv| && n <= |used|
  {
    && (forall j :: 1 <= j < n && !used[j] ==> delta <= minv[j])
    && (delta < INF ==> 1 <= j1 < n && !used[j1] && delta == minv[j1])
  }

  ghost predicate InTree(used: seq<bool>, p: seq<nat>, n: nat, r: int)
    requires n <= |used| == |p|
  {
    exists k :: 0 <= k < n && used[k] && p[k] == r
  }

  /** Tree rows rise by `delta`, tree columns fall by it, and every other distance shrinks by it. */
  ghost predicate Shifted(p: seq<nat>, used: seq<bool>, delta: int, n: nat,
                          u: seq<int>, v: seq<int>, minv: seq<int>, u': seq<int>, v': seq<int>, minv': seq<int>)
  {
    && |p| == |used| == |u| == |v| == |minv| == |u'| == |v'| == |minv'| && n <= |p|
    && (forall r :: 0 <= r < |u| ==> u'[r] == u[r] + if InTree(used, p, n, r) then delta else 0)
    && (forall j :: 0 <= j < |v| ==> v'[j] == v[j] - if j < n && used[j] then delta else 0)
    && (forall j :: 0 <= j < |minv| ==> minv'[j] == minv[j] - if j < n && !used[j] then delta else 0)
  }

  method ScanColumns(cost: Matrix, u: array<int>, v: array<int>, minv: array<int>, way: array<nat>,
                     used: array<bool>, i0: nat, j0: nat) returns (delta: int, j1: nat)
    requires Square(cost) && 1 <= i0 <= |cost|
    requires u.Length == v.Length == minv.Length == way.Length == used.Length == |cost| + 1
    requires minv != u && minv != v
    modifies minv, way
    ensures Scanned(cost, u[..], v[..], used[..], i0, j0, old(minv[..]), old(way[..]), minv[..], way[..])
    ensures Least(used[..], minv[..], used.Length, delta, j1)
  {
    hide Square;
    var n := |cost|;
    ghost var u0, v0, minv0, way0 := u[..], v[..], minv[..], way[..];
    delta, j1 := INF, 0;
    for j := 1 to n + 1
      invariant u[..] == u0 && v[..] == v0 && minv[0] == minv0[0] && way[0] == way0[0]
      invariant forall k :: 1 <= k < j ==>
                  ScannedAt(used[k], Slack(cost, u0, v0, i0, k), j0, minv0[k], way0[k], minv[k], way[k])
      invariant Least(used[..], minv[..], j, delta, j1)
      invariant forall k :: j <= k <= n ==> minv[k] == minv0[k] && way[k] == way0[k]
    {
      RowIsLong(cost, i0);
      if !used[j] {
        var cur := cost[i0 - 1][j - 1] - u[i0] - v[j];
        assert cur == Slack(cost, u0, v0, i0, j);
        if cur < minv[j] {
          minv[j] := cur;
          way[j] := j0;
        }
        if minv[j] < delta {
          delta := minv[j];
          j1 := j;
        }
      }
    }
  }

  /** From a row whose entries all reach `INF` the first scan reaches no column, free or not. */
  lemma RowBeyondReach(cost: Matrix, u: seq<int>, v: seq<int>, used: seq<bool>, i0: nat, minv: seq<int>, way: seq<nat>,
                       minv': seq<int>, way': seq<nat>, delta: int, j1: nat)
    requires Scanned(cost, u, v, used, i0, 0, minv, way, minv', way') && Least(used, minv', |used|, delta, j1)
    requires forall j :: 1 <= j <= |cost| ==> At(cost, i0, j) >= INF && v[j] == 0 && minv[j] == INF && !used[j]
    requires u[i0] == 0
    ensures delta == INF && forall j :: 1 <= j <= |cost| ==> minv'[j] == INF && way'[j] == way[j]
  {
    forall j | 1 <= j <= |cost| ensures minv'[j] == INF && way'[j] == way[j] {
      assert ScannedAt(used[j], Slack(cost, u, v, i0, j), 0, minv[j], way[j], minv'[j], way'[j]);
    }
    assert delta <= minv'[1];
  }

  lemma RowIsLong(cost: Matrix, i0: nat)
    requires Square(cost) && 1 <= i0 <= |cost|
    ensures |cost[i0 - 1]| == |cost|
  {
  }

  /** One column's turn: a used one moves `delta` from its price to its row's, and the potentials' total stays. */
  lemma ShiftOneColumn(p: seq<nat>, used: seq<bool>, delta: int, j: nat,
                       u0: seq<int>, v0: seq<int>, minv0: seq<int>, u: seq<int>, v: seq<int>, minv: seq<int>)
    requires Shifted(p, used, delta, j, u0, v0, minv0, u, v, minv) && j < |p| && p[j] < |u|
    requires used[j] ==> forall k :: 0 <= k < j && used[k] ==> p[k] != p[j]
    ensures var u' := if used[j] then u[p[j] := u[p[j]] + delta] else u;
            var v' := if used[j] then v[j := v[j] - delta] else v;
            var minv' := if used[j] then minv else minv[j := minv[j] - delta];
            Shifted(p, used, delta, j + 1, u0, v0, minv0, u', v', minv') && Sum(u') + Sum(v') == Sum(u) + Sum(v)
  {
    hide Sum;
    var u' := if used[j] then u[p[j] := u[p[j]] + delta] else u;
    if used[j] {
      SumOfUpdate(u, p[j], u[p[j]] + delta);
      SumOfUpdate(v, j, v[j] - delta);
      assert InTree(used, p, j + 1, p[j]);
      assert !InTree(used, p, j, p[j]);
    }
    forall r | 0 <= r < |u| ensures u'[r] == u0[r] + if InTree(used, p, j + 1, r) then delta else 0 {
      InTreeGrows(used, p, j, r);
    }
  }

  lemma InTreeGrows(used: seq<bool>, p: seq<nat>, j: nat, r: int)
    requires j < |used| == |p|
    ensures InTree(used, p, j + 1, r) <==> InTree(used, p, j, r) || (used[j] && p[j] == r)
  {
  }

  method ShiftPotentials(u: array<int>, v: array<int>, p: array<nat>, minv: array<int>, used: array<bool>, delta: int)
    requires u.Length == v.Length == p.Length == minv.Length == used.Length
    requires u != v && u != minv && v != minv
    requires forall j :: 0 <= j < p.Length ==> p[j] < u.Length
    requires forall j, k :: 0 <= j < k < p.Length && used[j] && used[k] ==> p[j] != p[k]
    modifies u, v, minv
    ensures Shifted(p[..], used[..], delta, p.Length, old(u[..]), old(v[..]), old(minv[..]), u[..], v[..], minv[..])
    ensures Sum(u[..]) + Sum(v[..]) == old(Sum(u[..]) + Sum(v[..]))
  {
    hide Shifted, Sum;
    ghost var u0, v0, minv0 := u[..], v[..], minv[..];
    NothingShifted(p[..], used[..], delta, u0, v0, minv0);
    for j := 0 to u.Length
      invariant Shifted(p[..], used[..], delta, j, u0, v0, minv0, u[..], v[..], minv[..])
      invariant Sum(u[..]) + Sum(v[..]) == Sum(u0) + Sum(v0)
    {
      ghost var u1, v1, minv1 := u[..], v[..], minv[..];
      ShiftOneColumn(p[..], used[..], delta, j, u0, v0, minv0, u1, v1, minv1);
      if used[j] {
        u[p[j]] := u[p[j]] + delta;
        v[j] := v[j] - delta;
        assert u[..] == u1[p[j] := u1[p[j]] + delta] && v[..] == v1[j := v1[j] - delta] && minv[..] == minv1;
      } else {
        minv[j] := minv[j] - delta;
        assert u[..] == u1 && v[..] == v1 && minv[..] == minv1[j := minv1[j] - delta];
      }
    }
  }

  lemma NothingShifted(p: seq<nat>, used: seq<bool>, delta: int, u: seq<int>, v: seq<int>, minv: seq<int>)
    requires |p| == |used| == |u| == |v| == |minv|
    ensures Shifted(p, used, delta, 0, u, v, minv, u, v, minv)
  {
  }

  // -------------------------------------------------------------------------
  // The steps of one row's search
  // -------------------------------------------------------------------------

  lemma TreeAfterMark(cost: Matrix, u: seq<int>, v: seq<int>, p: seq<nat>, way: seq<nat>, minv: seq<int>,
                      used: seq<bool>, rank: seq<nat>, count: nat, far: int, j0: nat)
    requires Tree(cost, u, v, p, way, minv, used, rank, count, far, -1)
    requires j0 <= |cost| && !used[j0] && 1 <= p[j0] <= |cost|
    requires j0 >= 1 ==> minv[j0] == 0 < far
    ensures Tree(cost, u, v, p, way, minv, used[j0 := true], rank[j0 := count], count + 1, far, j0)
  {
    var used', rank' := used[j0 := true], rank[j0 := count];
    forall j | 1 <= j <= |cost| && used'[j] ensures Hangs(cost, u, v, p, way, used', rank', j) {
      if j != j0 {
        assert Hangs(cost, u, v, p, way, used, rank, j);
      }
    }
  }

  lemma TreeAfterScan(cost: Matrix, u: seq<int>, v: seq<int>, p: seq<nat>, way: seq<nat>, minv: seq<int>,
                      used: seq<bool>, rank: seq<nat>, count: nat, far: int, j0: nat, way': seq<nat>, minv': seq<int>)
    requires Tree(cost, u, v, p, way, minv, used, rank, count, far, j0)
    requires j0 <= |cost| && used[j0]
    requires Scanned(cost, u, v, used, p[j0], j0, minv, way, minv', way')
    ensures Tree(cost, u, v, p, way', minv', used, rank, count, far, -1)
  {
    forall j | 1 <= j <= |cost| && used[j] ensures Hangs(cost, u, v, p, way', used, rank, j) {
      assert Hangs(cost, u, v, p, way, used, rank, j);
    }
  }

  lemma TreeAfterShift(cost: Matrix, u: seq<int>, v: seq<int>, p: seq<nat>, way: seq<nat>, minv: seq<int>,
                       used: seq<bool>, rank: seq<nat>, count: nat, far: int, delta: int,
                       u': seq<int>, v': seq<int>, minv': seq<int>)
    requires Tree(cost, u, v, p, way, minv, used, rank, count, far, -1)
    requires Shifted(p, used, delta, |p|, u, v, minv, u', v', minv')
    ensures Tree(cost, u', v', p, way, minv', used, rank, count, far - delta, -1)
  {
    forall j, k | 1 <= j <= |cost| && 0 <= k <= |cost| && used[k]
      ensures Slack(cost, u', v', p[k], j) == Slack(cost, u, v, p[k], j) - if used[j] then 0 else delta
    {
      assert InTree(used, p, |p|, p[k]);
    }
    forall j | 1 <= j <= |cost| && used[j] ensures Hangs(cost, u', v', p, way, used, rank, j) {
      assert Hangs(cost, u, v, p, way, used, rank, j);
    }
  }

  /** Only a tree row's slack to an unused column shrinks, and by no more than that column's distance. */
  lemma SlackAfterShift(cost: Matrix, u: seq<int>, v: seq<int>, p: seq<nat>, way: seq<nat>,
                        minv: seq<int>, used: seq<bool>, rank: seq<nat>, count: nat, far: int, delta: int,
                        u': seq<int>, v': seq<int>, minv': seq<int>, r: int, j: int)
    requires Tree(cost, u, v, p, way, minv, used, rank, count, far, -1)
    requires 1 <= r <= |cost| && 1 <= j <= |cost| && Slack(cost, u, v, r, j) >= 0
    requires delta >= 0 && (!used[j] ==> delta <= minv[j])
    requires Shifted(p, used, delta, |p|, u, v, minv, u', v', minv')
    ensures Slack(cost, u', v', r, j) >= 0
  {
    hide Hangs;
    if InTree(used, p, |p|, r) && !used[j] {
      var k :| 0 <= k < |p| && used[k] && p[k] == r;
      assert minv[j] <= Slack(cost, u, v, p[k], j);
    }
  }

  /** Raising tree rows and lowering tree columns keeps the prices feasible. */
  lemma PricesAfterShift(cost: Matrix, i: nat, u: seq<int>, v: seq<int>, p: seq<nat>, way: seq<nat>,
                         minv: seq<int>, used: seq<bool>, rank: seq<nat>, count: nat, far: int, delta: int,
                         u': seq<int>, v': seq<int>, minv': seq<int>)
    requires Tree(cost, u, v, p, way, minv, used, rank, count, far, -1)
    requires 1 <= i <= |cost| && p[0] == i && used[0]
    requires Prices(cost, i, u, v, p) && forall j :: 1 <= j <= |cost| ==> p[j] < i
    requires delta >= 0 && forall j :: 1 <= j <= |cost| && !used[j] ==> delta <= minv[j]
    requires Shifted(p, used, delta, |p|, u, v, minv, u', v', minv')
    ensures Prices(cost, i, u', v', p)
  {
    hide Hangs, Slack;
    var n := |cost|;
    forall r, j | 1 <= r <= n && 1 <= j <= n ensures Slack(cost, u', v', r, j) >= 0 {
      assert Slack(cost, u, v, r, j) >= 0;
      SlackAfterShift(cost, u, v, p, way, minv, used, rank, count, far, delta, u', v', minv', r, j);
    }
    forall r | 1 <= r <= n ensures u'[r] >= 0 && (r > i ==> u'[r] == 0) {
      if InTree(used, p, |p|, r) {
        var k :| 0 <= k < |p| && used[k] && p[k] == r;
      }
    }
  }

  /** A matched pair is in the tree together or not at all, so the shift keeps it tight. */
  lemma MatchingAfterShift(cost: Matrix, i: nat, u: seq<int>, v: seq<int>, p: seq<nat>, used: seq<bool>,
                           minv: seq<int>, delta: int, u': seq<int>, v': seq<int>, minv': seq<int>)
    requires 1 <= i <= |cost| && Matching(cost, i - 1, u, v, p) && p[0] == i
    requires |used| == |p| && forall j :: 0 <= j < |p| && used[j] ==> p[j] != 0
    requires Shifted(p, used, delta, |p|, u, v, minv, u', v', minv')
    ensures Matching(cost, i - 1, u', v', p)
  {
    forall j | 1 <= j <= |cost| && p[j] != 0 ensures Slack(cost, u', v', p[j], j) == 0 {
      assert Slack(cost, u, v, p[j], j) == 0;
      assert InTree(used, p, |p|, p[j]) <==> used[j];
    }
  }

  /** While some column is free the row being placed cannot be priced above any entry. */
  lemma PriceOfRow(cost: Matrix, most: nat, i: nat, u: seq<int>, v: seq<int>, p: seq<nat>)
    requires Bounded(cost, most) && 1 <= i <= |cost|
    requires Prices(cost, i, u, v, p) && Matching(cost, i - 1, u, v, p)
    ensures 0 <= u[i] <= most
    ensures exists j :: 1 <= j <= |cost| && p[j] == 0
  {
    assert Free(p) != {};
    var j :| j in Free(p);
    assert Slack(cost, u, v, i, j) >= 0;
  }

  /** While some column is free every row's price is within the largest entry, and so is every column's. */
  lemma PotentialsWithin(cost: Matrix, most: nat, i: nat, u: seq<int>, v: seq<int>, p: seq<nat>)
    requires Bounded(cost, most) && 1 <= i <= |cost|
    requires Prices(cost, i, u, v, p) && Matching(cost, i - 1, u, v, p)
    ensures Within(most, u, v)
  {
    assert Free(p) != {};
    var f :| f in Free(p);
    forall r | 1 <= r <= |cost| ensures 0 <= u[r] <= most {
      assert Slack(cost, u, v, r, f) >= 0;
    }
    forall j | 1 <= j <= |cost| ensures 0 <= v[j] + most <= most {
      if p[j] != 0 {
        assert Slack(cost, u, v, p[j], j) == 0 && At(cost, p[j], j) >= 0;
      }
    }
  }

  ghost function Unused(used: seq<bool>): set<nat> {
    set j | 0 <= j < |used| && !used[j]
  }

  lemma UnusedShrinks(used: seq<bool>, j: nat)
    requires j < |used| && !used[j]
    ensures Unused(used[j := true]) < Unused(used)
  {
    assert j in Unused(used);
  }

  /** Every marked column can be followed back to column 0 along tight edges. */
  ghost predicate Reached(cost: Matrix, u: seq<int>, v: seq<int>, p: seq<nat>, way: seq<nat>,
                          used: seq<bool>, rank: seq<nat>) {
    && Square(cost)
    && |u| == |v| == |p| == |way| == |used| == |rank| == |cost| + 1
    && forall j :: 1 <= j <= |cost| && used[j] ==> Hangs(cost, u, v, p, way, used, rank, j)
  }

  /** Between passes: feasible prices, a tight matching, and a tree whose next column `j0` is at distance 0. */
  ghost predicate Searching(cost: Matrix, i: nat, u: seq<int>, v: seq<int>, p: seq<nat>, way: seq<nat>,
                            minv: seq<int>, used: seq<bool>, rank: seq<nat>, count: nat, j0: nat) {
    && 1 <= i <= |cost|
    && |u| == |v| == |p| == |way| == |minv| == |used| == |rank| == |cost| + 1
    && Tree(cost, u, v, p, way, minv, used, rank, count, INF - u[i], -1)
    && Prices(cost, i, u, v, p)
    && Matching(cost, i - 1, u, v, p)
    && p[0] == i
    && j0 <= |cost| && !used[j0]
    && (j0 == 0 || (used[0] && minv[j0] == 0))
  }

  /** One pass: mark column `j0`, scan from its row, and shift by the least distance found. */
  method Pass(cost: Matrix, ghost most: nat, i: nat, u: array<int>, v: array<int>, p: array<nat>, way: array<nat>,
              minv: array<int>, used: array<bool>, j0: nat, ghost rank: seq<nat>, ghost count: nat)
    returns (j1: nat)
    requires Bounded(cost, most)
    requires u.Length == v.Length == minv.Length && u != v && u != minv && v != minv && p != way
    requires Searching(cost, i, u[..], v[..], p[..], way[..], minv[..], used[..], rank, count, j0)
    requires p[j0] != 0 && Balanced(u[..], v[..])
    modifies u, v, way, minv, used
    ensures Balanced(u[..], v[..]) && v[0] <= old(v[0])
    ensures used[..] == old(used[..])[j0 := true]
    ensures Searching(cost, i, u[..], v[..], p[..], way[..], minv[..], used[..],
                      rank[j0 := count], count + 1, j1)
    ensures j1 != 0
  {
    hide Tree, Prices, Matching, Sum, Shifted;
    UsedRowsDiffer(cost, i, u[..], v[..], p[..], way[..], minv[..], used[..], rank, count, j0);
    ghost var u0, v0, minv0, way0, used0 := u[..], v[..], minv[..], way[..], used[..];
    used[j0] := true;
    assert used[..] == used0[j0 := true];
    var delta;
    delta, j1 := ScanColumns(cost, u, v, minv, way, used, p[j0], j0);
    ghost var minv1 := minv[..];
    ShiftPotentials(u, v, p, minv, used, delta);
    ScanKeepsTree(cost, most, i, u0, v0, p[..], way0, minv0, used0, rank, count, j0, used[..], way[..], minv1);
    ShiftKeepsSearching(cost, most, i, u0, v0, p[..], way[..], minv1, used[..], rank[j0 := count], count + 1,
                        delta, j1, u[..], v[..], minv[..]);
    ColumnZero(p[..], used[..], delta, u0, v0, minv1, u[..], v[..], minv[..]);
  }

  /** Column 0 is always in the tree and row 0 never is. */
  lemma ColumnZero(p: seq<nat>, used: seq<bool>, delta: int, u: seq<int>, v: seq<int>, minv: seq<int>,
                   u': seq<int>, v': seq<int>, minv': seq<int>)
    requires Shifted(p, used, delta, |p|, u, v, minv, u', v', minv') && |p| > 0 && used[0]
    requires forall j :: 0 <= j < |p| && used[j] ==> p[j] != 0
    ensures u'[0] == u[0] && v'[0] == v[0] - delta
  {
  }

  lemma UsedRowsDiffer(cost: Matrix, i: nat, u: seq<int>, v: seq<int>, p: seq<nat>, way: seq<nat>,
                       minv: seq<int>, used: seq<bool>, rank: seq<nat>, count: nat, j0: nat)
    requires Searching(cost, i, u, v, p, way, minv, used, rank, count, j0) && p[j0] != 0
    ensures 1 <= p[j0] <= |cost| && |u| == |cost| + 1
    ensures used[j0 := true][0] && forall j :: 0 <= j < |p| && used[j0 := true][j] ==> p[j] != 0
    ensures forall j :: 0 <= j < |p| ==> p[j] < |u|
    ensures forall j, k :: 0 <= j < k < |p| && used[j0 := true][j] && used[j0 := true][k] ==> p[j] != p[k]
  {
  }

  /** Marking and scanning leave a tree. */
  lemma ScanKeepsTree(cost: Matrix, most: nat, i: nat, u: seq<int>, v: seq<int>, p: seq<nat>, way: seq<nat>,
                      minv: seq<int>, used: seq<bool>, rank: seq<nat>, count: nat, j0: nat,
                      used': seq<bool>, way': seq<nat>, minv': seq<int>)
    requires Bounded(cost, most)
    requires Searching(cost, i, u, v, p, way, minv, used, rank, count, j0) && p[j0] != 0
    requires used' == used[j0 := true]
    requires Scanned(cost, u, v, used', p[j0], j0, minv, way, minv', way')
    ensures Tree(cost, u, v, p, way', minv', used', rank[j0 := count], count + 1, INF - u[i], -1)
  {
    PriceOfRow(cost, most, i, u, v, p);
    TreeAfterMark(cost, u, v, p, way, minv, used, rank, count, INF - u[i], j0);
    TreeAfterScan(cost, u, v, p, way, minv, used', rank[j0 := count], count + 1, INF - u[i], j0, way', minv');
  }

  /** Shifting by the least distance brings a new column to distance 0. */
  lemma ShiftKeepsSearching(cost: Matrix, most: nat, i: nat, u: seq<int>, v: seq<int>, p: seq<nat>, way: seq<nat>,
                            minv: seq<int>, used: seq<bool>, rank: seq<nat>, count: nat, delta: int, j1: nat,
                            u': seq<int>, v': seq<int>, minv': seq<int>)
    requires Bounded(cost, most) && 1 <= i <= |cost|
    requires |u| == |cost| + 1 && Tree(cost, u, v, p, way, minv, used, rank, count, INF - u[i], -1)
    requires Prices(cost, i, u, v, p) && Matching(cost, i - 1, u, v, p)
    requires p[0] == i && used[0]
    requires Least(used, minv, |used|, delta, j1)
    requires Shifted(p, used, delta, |p|, u, v, minv, u', v', minv')
    ensures delta >= 0 && Searching(cost, i, u', v', p, way, minv', used, rank, count, j1) && j1 != 0
  {
    hide Tree, Prices, Matching, Shifted, Bounded, Least, InTree;
    LeastIsReal(cost, most, i, u, v, p, way, minv, used, rank, count, delta, j1);
    TreeRows(cost, i, u, v, p, way, minv, used, rank, count);
    ShiftedAt(cost, i, p, used, minv, delta, j1, u, v, u', v', minv');
    LeastMeans(used, minv, delta, j1);
    TreeAfterShift(cost, u, v, p, way, minv, used, rank, count, INF - u[i], delta, u', v', minv');
    PricesAfterShift(cost, i, u, v, p, way, minv, used, rank, count, INF - u[i], delta, u', v', minv');
    MatchingAfterShift(cost, i, u, v, p, used, minv, delta, u', v', minv');
  }

  lemma TreeRows(cost: Matrix, i: nat, u: seq<int>, v: seq<int>, p: seq<nat>, way: seq<nat>, minv: seq<int>,
                 used: seq<bool>, rank: seq<nat>, count: nat)
    requires 1 <= i <= |cost| && |u| == |cost| + 1 && Tree(cost, u, v, p, way, minv, used, rank, count, INF - u[i], -1)
    requires Matching(cost, i - 1, u, v, p)
    ensures |v| == |p| == |way| == |minv| == |used| == |rank| == |cost| + 1
    ensures forall j :: 0 <= j < |p| && used[j] ==> p[j] != 0
    ensures forall j :: 1 <= j <= |cost| ==> p[j] < i
  {
  }

  lemma ShiftedAt(cost: Matrix, i: nat, p: seq<nat>, used: seq<bool>, minv: seq<int>, delta: int, j1: nat,
                  u: seq<int>, v: seq<int>, u': seq<int>, v': seq<int>, minv': seq<int>)
    requires Shifted(p, used, delta, |p|, u, v, minv, u', v', minv') && |p| == |cost| + 1
    requires 1 <= i <= |cost| && p[0] == i && used[0] && 1 <= j1 <= |cost| && !used[j1]
    ensures |u'| == |v'| == |minv'| == |p| && u'[i] == u[i] + delta && minv'[j1] == minv[j1] - delta
  {
    assert InTree(used, p, |p|, i);
  }

  lemma LeastMeans(used: seq<bool>, minv: seq<int>, delta: int, j1: nat)
    requires |used| == |minv| && Least(used, minv, |used|, delta, j1)
    ensures forall j :: 1 <= j < |used| && !used[j] ==> delta <= minv[j]
  {
  }

  /** A free column is never used and is nearer than the "not reached" mark, so the least distance is a real slack. */
  lemma LeastIsReal(cost: Matrix, most: nat, i: nat, u: seq<int>, v: seq<int>, p: seq<nat>, way: seq<nat>,
                    minv: seq<int>, used: seq<bool>, rank: seq<nat>, count: nat, delta: int, j1: nat)
    requires Bounded(cost, most) && 1 <= i <= |cost| && |u| == |cost| + 1
    requires Tree(cost, u, v, p, way, minv, used, rank, count, INF - u[i], -1)
    requires Prices(cost, i, u, v, p) && Matching(cost, i - 1, u, v, p) && p[0] == i && used[0]
    requires Least(used, minv, |used|, delta, j1)
    ensures 0 <= delta < INF - u[i] && 1 <= j1 <= |cost| && !used[j1] && delta == minv[j1]
  {
    PriceOfRow(cost, most, i, u, v, p);
    var f :| 1 <= f <= |cost| && p[f] == 0;
    assert delta <= minv[f] <= Slack(cost, u, v, p[0], f) <= most - u[i];
    assert Slack(cost, u, v, p[way[j1]], j1) >= 0;
  }

  lemma SearchStarts(cost: Matrix, i: nat, u: seq<int>, v: seq<int>, p: seq<nat>, way: seq<nat>,
                     minv: seq<int>, used: seq<bool>, rank: seq<nat>)
    requires 1 <= i <= |cost| && |way| == |minv| == |used| == |rank| == |cost| + 1
    requires Prices(cost, i - 1, u, v, p) && Matching(cost, i - 1, u, v, p) && p[0] == i
    requires forall j :: 0 <= j <= |cost| ==> minv[j] == INF && !used[j]
    ensures Searching(cost, i, u, v, p, way, minv, used, rank, 0, 0)
  {
  }

  /** Grows the tree of row `i` until it reaches a free column. */
  method GrowTree(cost: Matrix, ghost most: nat, i: nat, u: array<int>, v: array<int>, p: array<nat>, way: array<nat>)
    returns (j0: nat, ghost seen: seq<bool>, ghost rank: seq<nat>)
    requires Bounded(cost, most) && 1 <= i <= |cost|
    requires u.Length == v.Length == p.Length == way.Length == |cost| + 1 && u != v && p != way
    requires p[0] == i && Balanced(u[..], v[..])
    requires Prices(cost, i - 1, u[..], v[..], p[..]) && Matching(cost, i - 1, u[..], v[..], p[..])
    modifies u, v, way
    ensures Balanced(u[..], v[..]) && Within(most, u[..], v[..]) && v[0] <= old(v[0])
    ensures Prices(cost, i, u[..], v[..], p[..]) && Matching(cost, i - 1, u[..], v[..], p[..])
    ensures 1 <= j0 <= |cost| && p[j0] == 0
    ensures Reached(cost, u[..], v[..], p[..], way[..], seen, rank) && seen[j0]
  {
    hide Tree, Prices, Matching, Balanced;
    var n := |cost|;
    j0 := 0;
    var minv := new int[n + 1](_ => INF);
    var used := new bool[n + 1](_ => false);
    rank := seq(n + 1, _ => 0);
    ghost var count := 0;
    SearchStarts(cost, i, u[..], v[..], p[..], way[..], minv[..], used[..], rank);
    while true
      invariant Searching(cost, i, u[..], v[..], p[..], way[..], minv[..], used[..], rank, count, j0)
      invariant p[j0] != 0 && Balanced(u[..], v[..]) && v[0] <= old(v[0])
      decreases Unused(used[..])
    {
      ghost var used0 := used[..];
      var j1 := Pass(cost, most, i, u, v, p, way, minv, used, j0, rank, count);
      UnusedShrinks(used0, j0);
      rank, count := rank[j0 := count], count + 1;
      j0 := j1;
      if p[j0] == 0 {
        break;
      }
    }
    seen := used[..][j0 := true];
    PotentialsWithin(cost, most, i, u[..], v[..], p[..]);
    PriceOfRow(cost, most, i, u[..], v[..], p[..]);
    ReachedFromTree(cost, u[..], v[..], p[..], way[..], minv[..], used[..], rank, count, INF - u[i], j0);
    rank := rank[j0 := count];
  }

  lemma ReachedFromTree(cost: Matrix, u: seq<int>, v: seq<int>, p: seq<nat>, way: seq<nat>, minv: seq<int>,
                        used: seq<bool>, rank: seq<nat>, count: nat, far: int, j0: nat)
    requires Tree(cost, u, v, p, way, minv, used, rank, count, far, -1)
    requires 1 <= j0 <= |cost| && !used[j0] && minv[j0] == 0 < far
    ensures Reached(cost, u, v, p, way, used[j0 := true], rank[j0 := count])
  {
    var seen, rank' := used[j0 := true], rank[j0 := count];
    forall j | 1 <= j <= |cost| && seen[j] ensures Hangs(cost, u, v, p, way, seen, rank', j) {
      assert j != j0 ==> Hangs(cost, u, v, p, way, used, rank, j);
    }
  }

  /** The matching while the path is being shifted: column `hole` is about to be overwritten. */
  ghost predicate Shifting(cost: Matrix, i: nat, u: seq<int>, v: seq<int>, p0: seq<nat>, p: seq<nat>,
                           seen: seq<bool>, rank: seq<nat>, start: nat, hole: nat) {
    var n := |cost|;
    && Square(cost) && i <= n && |u| == |v| == |p0| == |p| == |seen| == |rank| == n + 1
    && hole <= n && seen[hole]
    && (forall j :: 0 <= j <= n && seen[j] && rank[j] <= rank[hole] ==> p[j] == p0[j])
    && (forall j :: 0 <= j <= n && j != hole ==> p[j] <= i)
    && (forall j :: 1 <= j <= n && j != hole && p[j] != 0 ==> Slack(cost, u, v, p[j], j) == 0)
    && (forall j, k :: 0 <= j < k <= n && j != hole && k != hole && p[j] == p[k] ==> p[j] == 0)
    && Free(p) - {hole} == Free(p0) - {start}
  }

  lemma ShiftOne(cost: Matrix, i: nat, u: seq<int>, v: seq<int>, p0: seq<nat>, p: seq<nat>, way: seq<nat>,
                 seen: seq<bool>, rank: seq<nat>, start: nat, hole: nat)
    requires Shifting(cost, i, u, v, p0, p, seen, rank, start, hole) && hole != 0
    requires Reached(cost, u, v, p0, way, seen, rank)
    ensures way[hole] <= |cost| && rank[way[hole]] < rank[hole]
    ensures Shifting(cost, i, u, v, p0, p[hole := p[way[hole]]], seen, rank, start, way[hole])
  {
    assert Hangs(cost, u, v, p0, way, seen, rank, hole);
    var next := way[hole];
    var q := p[hole := p[next]];
    assert p[next] == p0[next];
    assert Free(q) == Free(p) - {hole};
  }

  /** Shifts the matching along the path from `start` back to column 0. */
  method Augment(cost: Matrix, i: nat, p: array<nat>, way: array<nat>, start: nat,
                 ghost u: seq<int>, ghost v: seq<int>, ghost seen: seq<bool>, ghost rank: seq<nat>)
    requires 1 <= i <= |cost| && p.Length == way.Length == |cost| + 1 && p != way
    requires Matching(cost, i - 1, u, v, p[..]) && p[0] == i
    requires Reached(cost, u, v, p[..], way[..], seen, rank)
    requires 1 <= start <= |cost| && p[start] == 0 && seen[start]
    modifies p
    ensures Matching(cost, i, u, v, p[..])
    ensures Free(p[..]) == Free(old(p[..])) - {start}
  {
    hide Shifting, Matching, Hangs, Free;
    ghost var p0 := p[..];
    var j0 := start;
    ShiftStarts(cost, i, u, v, p0, seen, rank, start);
    while j0 != 0
      invariant Shifting(cost, i, u, v, p0, p[..], seen, rank, start, j0) && j0 <= |cost| && |rank| == |cost| + 1
      decreases rank[j0]
    {
      ShiftOne(cost, i, u, v, p0, p[..], way[..], seen, rank, start, j0);
      var j1 := way[j0];
      ghost var p1 := p[..];
      p[j0] := p[j1];
      assert p[..] == p1[j0 := p1[j1]];
      j0 := j1;
    }
    ShiftEnds(cost, i, u, v, p0, p[..], seen, rank, start);
  }

  lemma ShiftStarts(cost: Matrix, i: nat, u: seq<int>, v: seq<int>, p: seq<nat>, seen: seq<bool>, rank: seq<nat>, start: nat)
    requires 1 <= i <= |cost| && Matching(cost, i - 1, u, v, p) && p[0] == i && |seen| == |rank| == |cost| + 1
    requires 1 <= start <= |cost| && seen[start]
    ensures Shifting(cost, i, u, v, p, p, seen, rank, start, start)
  {
  }

  lemma ShiftEnds(cost: Matrix, i: nat, u: seq<int>, v: seq<int>, p0: seq<nat>, p: seq<nat>,
                  seen: seq<bool>, rank: seq<nat>, start: nat)
    requires 1 <= i <= |cost| && Matching(cost, i - 1, u, v, p0) && 1 <= start <= |cost| && p0[start] == 0
    requires Shifting(cost, i, u, v, p0, p, seen, rank, start, 0)
    ensures Matching(cost, i, u, v, p) && Free(p) == Free(p0) - {start}
  {
    assert Free(p) == Free(p) - {0};
    assert start in Free(p0);
  }

  lemma RowStarts(cost: Matrix, i: nat, u: seq<int>, v: seq<int>, q: seq<nat>, p: seq<nat>)
    requires i >= 1 && Prices(cost, i - 1, u, v, q) && Matching(cost, i - 1, u, v, q) && p == q[0 := i]
    ensures Prices(cost, i - 1, u, v, p) && Matching(cost, i - 1, u, v, p)
  {
    assert Free(p) == Free(q);
  }

  lemma PricesAfterAugment(cost: Matrix, i: nat, u: seq<int>, v: seq<int>, q: seq<nat>, p: seq<nat>, start: nat)
    requires Prices(cost, i, u, v, q) && |p| == |q| && Free(p) == Free(q) - {start}
    ensures Prices(cost, i, u, v, p)
  {
    forall j | 1 <= j <= |cost| && p[j] == 0 ensures q[j] == 0 {
      assert j in Free(p);
    }
  }

  /** Adds row `i` to the matching, keeping the prices feasible and every held pair tight. */
  method AddRow(cost: Matrix, ghost most: nat, i: nat, u: array<int>, v: array<int>, p: array<nat>, way: array<nat>)
    requires Bounded(cost, most) && 1 <= i <= |cost|
    requires u.Length == v.Length == p.Length == way.Length == |cost| + 1 && u != v && p != way
    requires Prices(cost, i - 1, u[..], v[..], p[..]) && Matching(cost, i - 1, u[..], v[..], p[..])
    requires Balanced(u[..], v[..])
    modifies u, v, p, way
    ensures Prices(cost, i, u[..], v[..], p[..]) && Matching(cost, i, u[..], v[..], p[..])
    ensures Balanced(u[..], v[..]) && Within(most, u[..], v[..]) && v[0] <= old(v[0])
  {
    hide Prices, Matching, Reached, Balanced, Within, Free;
    ghost var q := p[..];
    p[0] := i;
    assert p[..] == q[0 := i];
    RowStarts(cost, i, u[..], v[..], q, p[..]);
    var j0, seen, rank := GrowTree(cost, most, i, u, v, p, way);
    ghost var p0 := p[..];
    Augment(cost, i, p, way, j0, u[..], v[..], seen, rank);
    PricesAfterAugment(cost, i, u[..], v[..], p0, p[..], j0);
  }

  // -------------------------------------------------------------------------
  // Optimality
  // -------------------------------------------------------------------------

  /** The sum of all potentials, as any assignment `a` collects them. */
  lemma PotentialsAlong(u: seq<int>, v: seq<int>, a: seq<nat>) returns (c: seq<int>)
    requires |u| == |v| == |a| && IsPermutation(a)
    ensures |c| == |a| && forall i :: 0 <= i < |a| ==> c[i] == u[i] + v[a[i]]
    ensures Sum(c) == Sum(u) + Sum(v)
  {
    var b := Gather(v, a);
    c := seq(|a|, i requires 0 <= i < |a| => u[i] + b[i]);
    SumOfPointwise(u, b, c);
    SumOfPermuted(v, a);
  }

  /** Feasible potentials together underestimate every assignment. */
  lemma CostAtLeast(cost: Matrix, u: seq<int>, v: seq<int>, a: seq<nat>)
    requires Square(cost) && |u| == |v| == |cost| == |a| && IsPermutation(a)
    requires forall i, j :: 0 <= i < |cost| && 0 <= j < |cost| ==> u[i] + v[j] <= cost[i][j]
    ensures Sum(u) + Sum(v) <= AssignmentCost(cost, a)
  {
    hide Sum;
    var c := PotentialsAlong(u, v, a);
    SumMonotone(c, seq(|a|, i requires 0 <= i < |a| => cost[i][a[i]]));
  }

  /** Potentials tight on an assignment are together its cost. */
  lemma CostOfTight(cost: Matrix, u: seq<int>, v: seq<int>, a: seq<nat>)
    requires Square(cost) && |u| == |v| == |cost| == |a| && IsPermutation(a)
    requires forall i :: 0 <= i < |cost| ==> u[i] + v[a[i]] == cost[i][a[i]]
    ensures AssignmentCost(cost, a) == Sum(u) + Sum(v)
  {
    hide Sum;
    var c := PotentialsAlong(u, v, a);
    assert c == seq(|a|, i requires 0 <= i < |a| => cost[i][a[i]]);
  }

  /** Feasible potentials that are tight on `best` make it no dearer than any other assignment. */
  lemma TightIsOptimal(cost: Matrix, u: seq<int>, v: seq<int>, best: seq<nat>, other: seq<nat>)
    requires Square(cost) && |u| == |v| == |cost| == |best| == |other|
    requires IsPermutation(best) && IsPermutation(other)
    requires forall i, j :: 0 <= i < |cost| && 0 <= j < |cost| ==> u[i] + v[j] <= cost[i][j]
    requires forall i :: 0 <= i < |cost| ==> u[i] + v[best[i]] == cost[i][best[i]]
    ensures AssignmentCost(cost, best) <= AssignmentCost(cost, other)
  {
    hide Sum, AssignmentCost;
    CostOfTight(cost, u, v, best);
    CostAtLeast(cost, u, v, other);
  }

  /** A full matching holds every row once. */
  lemma EveryColumnHeld(cost: Matrix, u: seq<int>, v: seq<int>, p: seq<nat>)
    requires Matching(cost, |cost|, u, v, p)
    ensures |p| == |cost| + 1 && forall j :: 1 <= j <= |cost| ==> 1 <= p[j] <= |cost|
    ensures forall j, k :: 1 <= j < k <= |cost| ==> p[j] != p[k]
  {
    forall j | 1 <= j <= |cost| ensures p[j] != 0 {
      assert j !in Free(p);
    }
  }

  /** The rows the columns hold, both counted from 0. */
  ghost function RowsHeld(n: nat, p: seq<nat>): (rows: seq<nat>)
    requires |p| == n + 1 && forall j :: 1 <= j <= n ==> 1 <= p[j] <= n
    ensures |rows| == n && forall k :: 0 <= k < n ==> rows[k] == p[k + 1] - 1
  {
    seq(n, k requires 0 <= k < n => p[k + 1] - 1)
  }

  lemma RowsHeldOnce(n: nat, p: seq<nat>)
    requires |p| == n + 1 && forall j :: 1 <= j <= n ==> 1 <= p[j] <= n
    requires forall j, k :: 1 <= j < k <= n ==> p[j] != p[k]
    ensures IsPermutation(RowsHeld(n, p))
  {
    var rows := RowsHeld(n, p);
    forall j, k | 0 <= j < k < n ensures rows[j] != rows[k] {
      assert p[j + 1] != p[k + 1];
    }
  }

  lemma InverseIsPermutation(rows: seq<nat>, ans: seq<nat>)
    requires |ans| == |rows| && forall r :: 0 <= r < |ans| ==> ans[r] < |rows| && rows[ans[r]] == r
    ensures IsPermutation(ans)
  {
    forall r, t | 0 <= r < t < |ans| ensures ans[r] != ans[t] {
      assert rows[ans[r]] == r && rows[ans[t]] == t;
    }
  }

  /** Reading columns that hold every row once by rows gives a permutation. */
  lemma RowsOfColumns(n: nat, p: seq<nat>, ans: seq<nat>)
    requires |p| == n + 1 && |ans| == n
    requires forall j :: 1 <= j <= n ==> 1 <= p[j] <= n
    requires forall j, k :: 1 <= j < k <= n ==> p[j] != p[k]
    requires forall j :: 1 <= j <= n && p[j] > 0 ==> ans[p[j] - 1] == j - 1
    ensures IsPermutation(ans)
    ensures forall r :: 0 <= r < n ==> p[ans[r] + 1] == r + 1
  {
    hide IsPermutation, RowsHeld;
    var rows := RowsHeld(n, p);
    RowsHeldOnce(n, p);
    forall r | 0 <= r < n ensures ans[r] < n && rows[ans[r]] == r {
      var k := PermutationReaches(rows, r);
      assert p[k + 1] == r + 1 && ans[p[k + 1] - 1] == k;
    }
    InverseIsPermutation(rows, ans);
    forall r | 0 <= r < n ensures p[ans[r] + 1] == r + 1 {
      assert rows[ans[r]] == r;
    }
  }

  method ReadRows(p: array<nat>) returns (ans: seq<nat>)
    requires p.Length > 0 && forall j :: 1 <= j < p.Length ==> p[j] < p.Length
    requires forall j, k :: 1 <= j < k < p.Length && p[j] == p[k] ==> p[j] == 0
    ensures |ans| == p.Length - 1
    ensures forall j :: 1 <= j < p.Length && p[j] > 0 ==> ans[p[j] - 1] == j - 1
  {
    var n := p.Length - 1;
    var rows := new nat[n](_ => 0);
    for j := 1 to n + 1
      invariant forall k :: 1 <= k < j && p[k] > 0 ==> rows[p[k] - 1] == k - 1
      modifies rows
    {
      if p[j] > 0 {
        rows[p[j] - 1] := j - 1;
      }
    }
    ans := rows[..];
  }

  /**
   Returns, for each row, its column: an assignment no other assignment
   undercuts. The potential of column 0, which the code never reads, falls with
   every row and ends, `low`, at minus the cost.
   */
  method Assign(cost: Matrix, ghost most: nat) returns (ans: seq<nat>, ghost low: int)
    requires Bounded(cost, most)
    ensures |ans| == |cost| && IsPermutation(ans)
    ensures forall other :: |other| == |cost| && IsPermutation(other) ==>
                              AssignmentCost(cost, ans) <= AssignmentCost(cost, other)
    ensures low == -AssignmentCost(cost, ans)
  {
    hide Prices, Matching, Balanced, Within, IsPermutation, AssignmentCost, Sum;
    var n := |cost|;
    var u := new int[n + 1](_ => 0);
    var v := new int[n + 1](_ => 0);
    var p := new nat[n + 1](_ => 0);
    var way := new nat[n + 1](_ => 0);
    NothingMatched(cost, most, u[..], v[..], p[..]);
    for i := 1 to n + 1
      invariant Prices(cost, i - 1, u[..], v[..], p[..]) && Matching(cost, i - 1, u[..], v[..], p[..])
      invariant Balanced(u[..], v[..])
    {
      AddRow(cost, most, i, u, v, p, way);
    }
    EveryColumnHeld(cost, u[..], v[..], p[..]);
    ans := ReadRows(p);
    low := v[0];
    RowsOfColumns(n, p[..], ans);
    OptimalFromMatching(cost, u[..], v[..], p[..], ans);
  }

  lemma AllFree(n: nat, p: seq<nat>)
    requires |p| == n + 1 && forall j :: 0 <= j <= n ==> p[j] == 0
    ensures |Free(p)| == n
  {
    SizeOfBelow(n + 1);
    assert Below(n + 1) == Free(p) + {0};
  }

  lemma NothingMatched(cost: Matrix, most: nat, u: seq<int>, v: seq<int>, p: seq<nat>)
    requires Bounded(cost, most) && |u| == |v| == |p| == |cost| + 1
    requires forall j :: 0 <= j <= |cost| ==> u[j] == 0 && v[j] == 0 && p[j] == 0
    ensures Prices(cost, 0, u, v, p) && Matching(cost, 0, u, v, p) && Balanced(u, v)
  {
    hide Free;
    SumOfZeros(u);
    SumOfZeros(v);
    AllFree(|cost|, p);
    forall r, j | 1 <= r <= |cost| && 1 <= j <= |cost| ensures Slack(cost, u, v, r, j) >= 0 {
      assert 0 <= cost[r - 1][j - 1];
    }
  }

  lemma OptimalFromMatching(cost: Matrix, u: seq<int>, v: seq<int>, p: seq<nat>, ans: seq<nat>)
    requires Prices(cost, |cost|, u, v, p) && Matching(cost, |cost|, u, v, p) && Balanced(u, v)
    requires |ans| == |cost| && IsPermutation(ans)
    requires forall r :: 0 <= r < |cost| ==> p[ans[r] + 1] == r + 1
    ensures forall other :: |other| == |cost| && IsPermutation(other) ==>
                              AssignmentCost(cost, ans) <= AssignmentCost(cost, other)
    ensures v[0] == -AssignmentCost(cost, ans)
  {
    hide Sum, AssignmentCost;
    forall i, j | 0 <= i < |cost| && 0 <= j < |cost| ensures u[1..][i] + v[1..][j] <= cost[i][j] {
      assert Slack(cost, u, v, i + 1, j + 1) >= 0;
    }
    forall i | 0 <= i < |cost| ensures u[1..][i] + v[1..][ans[i]] == cost[i][ans[i]] {
      assert Slack(cost, u, v, p[ans[i] + 1], ans[i] + 1) == 0;
    }
    forall other | |other| == |cost| && IsPermutation(other)
      ensures AssignmentCost(cost, ans) <= AssignmentCost(cost, other)
    {
      TightIsOptimal(cost, u[1..], v[1..], ans, other);
    }
    CostOfTight(cost, u[1..], v[1..], ans);
    FirstOfSum(u);
    FirstOfSum(v);
  }

  lemma FirstOfSum(s: seq<int>)
    requires s != []
    ensures Sum(s) == s[0] + Sum(s[1..])
  {
    SumOfConcat([s[0]], s[1..]);
    assert s == [s[0]] + s[1..];
    assert [s[0]][..0] == [];
  }
}
