/**
 Order-free scoring: each expected item is matched with at most one copied
 word, by an optimal assignment on a padded cost matrix, or greedily when the
 input is large.
 */
module Unordered {
  import opened Wrappers
  import opened Sums
  import opened Codec
  import opened Alignment
  import opened Hungarian

  /** Items paired with words: entry `i` is the word item `i` takes, if any. */
  type Pairing = seq<Option<nat>>

  // -------------------------------------------------------------------------
  // Pairings and what they cost
  // -------------------------------------------------------------------------

  /** A word is a copy of an item only if at most half the item is wrong. */
  predicate Plausible(e: seq<Unit>, w: seq<Unit>) {
    2 * Distance(e, w) <= |e|
  }

  /** That is, some account of it as a copy of the item has at most half as many errors as the item has units. */
  lemma PlausibleExactly(e: seq<Unit>, w: seq<Unit>)
    ensures Plausible(e, w) <==> exists ops :: Sent(ops) == e && Received(ops) == w && Errors(ops) + Errors(ops) <= |e|
  {
    hide Distance, Sent, Received, Errors;
    if Plausible(e, w) {
      TraceReplays(e, w);
      assert Errors(Trace(e, w)) + Errors(Trace(e, w)) <= |e|;
    }
    if ops :| Sent(ops) == e && Received(ops) == w && Errors(ops) + Errors(ops) <= |e| {
      DistanceIsLeast(ops);
    }
  }

  ghost predicate ValidPairing(exp: seq<seq<Unit>>, words: seq<seq<Unit>>, q: Pairing) {
    && |q| == |exp|
    && (forall i :: 0 <= i < |q| && q[i].Some? ==> q[i].value < |words| && Plausible(exp[i], words[q[i].value]))
    && (forall i, k :: 0 <= i < k < |q| && q[i].Some? ==> q[i] != q[k])
  }

  function ItemCost(exp: seq<seq<Unit>>, words: seq<seq<Unit>>, q: Pairing, i: nat): nat
    requires |q| == |exp| && i < |exp|
  {
    if q[i].Some? && q[i].value < |words| then Distance(exp[i], words[q[i].value]) else |exp[i]|
  }

  function WordCost(words: seq<seq<Unit>>, q: Pairing, j: nat): nat
    requires j < |words|
  {
    if Some(j) in q then 0 else |words[j]|
  }

  ghost function ItemCosts(exp: seq<seq<Unit>>, words: seq<seq<Unit>>, q: Pairing): seq<int>
    requires |q| == |exp|
  {
    seq(|exp|, i requires 0 <= i < |exp| => ItemCost(exp, words, q, i))
  }

  ghost function WordCosts(words: seq<seq<Unit>>, q: Pairing): seq<int> {
    seq(|words|, j requires 0 <= j < |words| => WordCost(words, q, j))
  }

  /** Paired items cost their errors; unpaired items and words cost their whole length. */
  ghost function PairingCost(exp: seq<seq<Unit>>, words: seq<seq<Unit>>, q: Pairing): int
    requires |q| == |exp|
  {
    Sum(ItemCosts(exp, words, q)) + Sum(WordCosts(words, q))
  }

  /** Nothing paired. */
  ghost function Unpaired(n: nat): Pairing {
    seq(n, _ => None)
  }

  // -------------------------------------------------------------------------
  // The padded matrix
  // -------------------------------------------------------------------------

  function Entry(exp: seq<seq<Unit>>, words: seq<seq<Unit>>, i: nat, j: nat): nat {
    if i < |exp| then
      if j < |words| then
        if Plausible(exp[i], words[j]) then Distance(exp[i], words[j]) else |exp[i]| + |words[j]|
      else |exp[i]|
    else if j < |words| then |words[j]|
    else 0
  }

  ghost predicate Padded(exp: seq<seq<Unit>>, words: seq<seq<Unit>>, cost: Matrix) {
    && Square(cost) && |cost| == |exp| + |words|
    && forall i: nat, j: nat :: i < |cost| && j < |cost| ==> cost[i][j] == Entry(exp, words, i, j)
  }

  /** The pairing an assignment stands for: its plausible pairs. */
  function PairingOf(exp: seq<seq<Unit>>, words: seq<seq<Unit>>, a: seq<nat>): (q: Pairing)
    requires |a| >= |exp|
    ensures |q| == |exp|
  {
    seq(|exp|, i requires 0 <= i < |exp| =>
      if a[i] < |words| && Plausible(exp[i], words[a[i]]) then Some(a[i]) else None)
  }

  lemma PairingOfIsValid(exp: seq<seq<Unit>>, words: seq<seq<Unit>>, a: seq<nat>)
    requires |a| >= |exp| && forall i, k :: 0 <= i < k < |exp| ==> a[i] != a[k]
    ensures ValidPairing(exp, words, PairingOf(exp, words, a))
  {
    hide Plausible;
  }

  /** Each entry an assignment picks splits into what its row and its column cost the pairing. */
  lemma EntrySplits(exp: seq<seq<Unit>>, words: seq<seq<Unit>>, a: seq<nat>, i: nat)
    requires |a| == |exp| + |words| && IsPermutation(a) && i < |a|
    ensures var q := PairingOf(exp, words, a);
            Entry(exp, words, i, a[i]) ==
            (if i < |exp| then ItemCost(exp, words, q, i) else 0) + (if a[i] < |words| then WordCost(words, q, a[i]) else 0)
  {
    hide Distance, Plausible;
    var q := PairingOf(exp, words, a);
    if a[i] < |words| && Some(a[i]) in q {
      var k :| 0 <= k < |q| && q[k] == Some(a[i]);
      assert k == i;
    }
  }

  /** An assignment of the padded matrix costs what its pairing costs. */
  lemma AssignmentCostsPairing(exp: seq<seq<Unit>>, words: seq<seq<Unit>>, cost: Matrix, a: seq<nat>)
    requires Padded(exp, words, cost) && |a| == |cost| && IsPermutation(a)
    ensures AssignmentCost(cost, a) == PairingCost(exp, words, PairingOf(exp, words, a))
  {
    hide Distance, Plausible, Entry, ItemCost, WordCost, PairingOf;
    var (n, m, q) := (|exp|, |words|, PairingOf(exp, words, a));
    var rows := ItemCosts(exp, words, q) + seq(m, _ => 0);
    var columns := WordCosts(words, q) + seq(n, _ => 0);
    var picked := seq(|a|, i requires 0 <= i < |a| => cost[i][a[i]]);
    forall i | 0 <= i < |a| ensures picked[i] == rows[i] + Gather(columns, a)[i] {
      EntrySplits(exp, words, a, i);
      assert cost[i][a[i]] == Entry(exp, words, i, a[i]);
    }
    SumOfPointwise(rows, Gather(columns, a), picked);
    SumOfPermuted(columns, a);
    SumOfZeros(seq(m, _ => 0));
    SumOfZeros(seq(n, _ => 0));
    SumOfConcat(ItemCosts(exp, words, q), seq(m, _ => 0));
    SumOfConcat(WordCosts(words, q), seq(n, _ => 0));
  }

  /** The item that takes word `j`. */
  ghost function Owner(q: Pairing, j: nat): (i: nat)
    requires Some(j) in q
    ensures i < |q| && q[i] == Some(j)
  {
    var i :| 0 <= i < |q| && q[i] == Some(j);
    i
  }

  ghost function ColumnOf(n: nat, m: nat, q: Pairing, k: nat): nat
    requires |q| == n && k < n + m
  {
    if k < n then if q[k].Some? then q[k].value else m + k
    else if Some(k - n) in q then m + Owner(q, k - n) else k - n
  }

  /** An assignment for any pairing: unpaired items and words take dummies, and freed dummies pair off. */
  ghost function AssignmentOf(exp: seq<seq<Unit>>, words: seq<seq<Unit>>, q: Pairing): seq<nat>
    requires |q| == |exp|
  {
    seq(|exp| + |words|, k requires 0 <= k < |exp| + |words| => ColumnOf(|exp|, |words|, q, k))
  }

  lemma AssignmentOfIsPermutation(exp: seq<seq<Unit>>, words: seq<seq<Unit>>, q: Pairing)
    requires ValidPairing(exp, words, q)
    ensures IsPermutation(AssignmentOf(exp, words, q))
    ensures PairingOf(exp, words, AssignmentOf(exp, words, q)) == q
  {
    hide Plausible;
    var (n, m, a) := (|exp|, |words|, AssignmentOf(exp, words, q));
    forall i | 0 <= i < n && q[i].Some? ensures Some(q[i].value) in q && Owner(q, q[i].value) == i {
      assert q[i] in q;
    }
    forall i, k | 0 <= i < k < |a| ensures a[i] != a[k] {
    }
  }

  /** No plausible pairing is cheaper than the one an optimal assignment stands for. */
  lemma OptimalPairing(exp: seq<seq<Unit>>, words: seq<seq<Unit>>, cost: Matrix, a: seq<nat>, q: Pairing)
    requires Padded(exp, words, cost) && |a| == |cost| && IsPermutation(a)
    requires forall other :: |other| == |cost| && IsPermutation(other) ==>
                               AssignmentCost(cost, a) <= AssignmentCost(cost, other)
    requires ValidPairing(exp, words, q)
    ensures PairingCost(exp, words, PairingOf(exp, words, a)) <= PairingCost(exp, words, q)
  {
    hide Plausible, PairingOf, PairingCost, AssignmentOf;
    AssignmentCostsPairing(exp, words, cost, a);
    AssignmentOfIsPermutation(exp, words, q);
    AssignmentLength(exp, words, q);
    AssignmentCostsPairing(exp, words, cost, AssignmentOf(exp, words, q));
  }

  lemma OptimalAmongAll(exp: seq<seq<Unit>>, words: seq<seq<Unit>>, cost: Matrix, a: seq<nat>)
    requires Padded(exp, words, cost) && |a| == |cost| && IsPermutation(a)
    requires forall other :: |other| == |cost| && IsPermutation(other) ==>
                               AssignmentCost(cost, a) <= AssignmentCost(cost, other)
    ensures forall q :: ValidPairing(exp, words, q) ==>
              PairingCost(exp, words, PairingOf(exp, words, a)) <= PairingCost(exp, words, q)
  {
    forall q | ValidPairing(exp, words, q)
      ensures PairingCost(exp, words, PairingOf(exp, words, a)) <= PairingCost(exp, words, q)
    {
      OptimalPairing(exp, words, cost, a, q);
    }
  }

  lemma AssignmentLength(exp: seq<seq<Unit>>, words: seq<seq<Unit>>, q: Pairing)
    requires |q| == |exp|
    ensures |AssignmentOf(exp, words, q)| == |exp| + |words|
  {
  }

  // -------------------------------------------------------------------------
  // The greedy stand-in
  // -------------------------------------------------------------------------

  datatype Candidate = Candidate(cost: int, item: nat, word: nat)

  predicate Precedes(a: Candidate, b: Candidate) {
    || a.cost < b.cost
    || (a.cost == b.cost && (a.item < b.item || (a.item == b.item && a.word <= b.word)))
  }

  predicate Ordered(s: seq<Candidate>) {
    forall i, j :: 0 <= i < j < |s| ==> Precedes(s[i], s[j])
  }

  lemma OrderedPush(s: seq<Candidate>, y: Candidate)
    requires Ordered(s) && forall c :: c in s ==> Precedes(c, y)
    ensures Ordered(s + [y])
  {
  }

  function Inserted(s: seq<Candidate>, x: Candidate): (r: seq<Candidate>)
    requires Ordered(s)
    ensures Ordered(r) && |r| == |s| + 1
    ensures forall c :: c in r <==> c in s || c == x
  {
    var k := |s| - 1;
    if s == [] || Precedes(s[k], x) then OrderedPush(s, x); s + [x]
    else
      OrderedPush(Inserted(s[..k], x), s[k]);
      Inserted(s[..k], x) + [s[k]]
  }

  /** The candidates in order of cost, then item, then word. */
  function Sorted(s: seq<Candidate>): (r: seq<Candidate>)
    ensures Ordered(r) && |r| == |s|
    ensures forall c :: c in r <==> c in s
  {
    if s == [] then [] else Inserted(Sorted(s[..|s| - 1]), s[|s| - 1])
  }

  /** A pair cheaper than leaving both unmatched. */
  ghost predicate Worthwhile(cost: Matrix, n: nat, m: nat, i: int, j: int)
    requires Square(cost) && |cost| == n + m
  {
    0 <= i < n && 0 <= j < m && cost[i][j] < cost[i][m] + cost[n][j]
  }

  /** `i` holds `j`, or a cheaper (or equal and earlier) chosen pair holds one of them. */
  ghost predicate Settled(cost: Matrix, n: nat, m: nat, a: seq<nat>, i: nat, j: nat)
    requires Square(cost) && |cost| == n + m && |a| == n && i < n && j < m
  {
    exists k :: 0 <= k < n && a[k] < m && (k == i || a[k] == j) &&
                Precedes(Candidate(cost[k][a[k]], k, a[k]), Candidate(cost[i][j], i, j))
  }

  /** Every worthwhile pair was chosen, or lost to a chosen pair that comes before it. */
  ghost predicate CheapestFirst(cost: Matrix, n: nat, m: nat, a: seq<nat>)
    requires Square(cost) && |cost| == n + m
  {
    && |a| == n
    && (forall i :: 0 <= i < n ==> Worthwhile(cost, n, m, i, a[i]) || a[i] == m + i)
    && (forall i, k :: 0 <= i < k < n ==> a[i] != a[k])
    && (forall i, j :: Worthwhile(cost, n, m, i, j) ==> Settled(cost, n, m, a, i, j))
  }

  method Candidates(cost: Matrix, n: nat, m: nat) returns (pairs: seq<Candidate>)
    requires Square(cost) && |cost| == n + m
    ensures ListsWorthwhile(cost, n, m, pairs)
  {
    pairs := [];
    for i := 0 to n
      invariant forall c :: c in pairs <==>
                  c.item < i && Worthwhile(cost, n, m, c.item, c.word) && c.cost == cost[c.item][c.word]
    {
      for j := 0 to m
        invariant forall c :: c in pairs <==>
                    (c.item < i || (c.item == i && c.word < j)) &&
                    Worthwhile(cost, n, m, c.item, c.word) && c.cost == cost[c.item][c.word]
      {
        var c := cost[i][j];
        if c < cost[i][m] + cost[n][j] {
          pairs := pairs + [Candidate(c, i, j)];
        }
      }
    }
  }

  /** Candidate `s`, or one before it, was chosen and holds its item or its word. */
  ghost predicate Blocked(pairs: seq<Candidate>, rowOf: seq<Option<nat>>, at: seq<nat>, s: nat)
    requires s < |pairs| && |at| == |rowOf|
  {
    exists k :: 0 <= k < |rowOf| && rowOf[k].Some? && at[k] <= s &&
                (k == pairs[s].item || rowOf[k] == Some(pairs[s].word))
  }

  /** What has been chosen from the first `t` candidates; item `i` was chosen as candidate `at[i]`. */
  ghost predicate Choosing(pairs: seq<Candidate>, t: nat, rowOf: seq<Option<nat>>, used: seq<bool>, at: seq<nat>) {
    && t <= |pairs| && |at| == |rowOf|
    && (forall i :: 0 <= i < |rowOf| && rowOf[i].Some? ==>
          at[i] < t && pairs[at[i]].item == i && rowOf[i] == Some(pairs[at[i]].word))
    && (forall i :: 0 <= i < |rowOf| && rowOf[i].Some? ==> rowOf[i].value < |used| && used[rowOf[i].value])
    && (forall i, k :: 0 <= i < k < |rowOf| && rowOf[i].Some? ==> rowOf[i] != rowOf[k])
    && (forall j :: 0 <= j < |used| && used[j] ==> Some(j) in rowOf)
    && (forall s :: 0 <= s < t ==> Blocked(pairs, rowOf, at, s))
  }

  /** Taking a free item and word keeps every earlier candidate settled, and settles this one. */
  lemma TakeBlocks(pairs: seq<Candidate>, t: nat, rowOf: seq<Option<nat>>, at: seq<nat>, s: nat)
    requires s <= t < |pairs| && |at| == |rowOf| && pairs[t].item < |rowOf| && rowOf[pairs[t].item].None?
    requires s < t ==> Blocked(pairs, rowOf, at, s)
    ensures Blocked(pairs, rowOf[pairs[t].item := Some(pairs[t].word)], at[pairs[t].item := t], s)
  {
    var c := pairs[t];
    var rowOf', at' := rowOf[c.item := Some(c.word)], at[c.item := t];
    if s == t {
      assert rowOf'[c.item].Some? && at'[c.item] <= s;
    } else {
      var k :| 0 <= k < |rowOf| && rowOf[k].Some? && at[k] <= s &&
        (k == pairs[s].item || rowOf[k] == Some(pairs[s].word));
      assert rowOf'[k] == rowOf[k] && at'[k] == at[k];
    }
  }

  lemma TakeCandidate(pairs: seq<Candidate>, t: nat, rowOf: seq<Option<nat>>, used: seq<bool>, at: seq<nat>)
    requires Choosing(pairs, t, rowOf, used, at) && t < |pairs|
    requires pairs[t].item < |rowOf| && pairs[t].word < |used|
    requires rowOf[pairs[t].item].None? && !used[pairs[t].word]
    ensures Choosing(pairs, t + 1, rowOf[pairs[t].item := Some(pairs[t].word)], used[pairs[t].word := true],
                     at[pairs[t].item := t])
  {
    hide Blocked;
    var c := pairs[t];
    var rowOf', used', at' := rowOf[c.item := Some(c.word)], used[c.word := true], at[c.item := t];
    forall j | 0 <= j < |used| && used'[j] ensures Some(j) in rowOf' {
      if j == c.word {
        assert rowOf'[c.item] == Some(j);
      } else {
        var k :| 0 <= k < |rowOf| && rowOf[k] == Some(j);
        assert rowOf'[k] == Some(j);
      }
    }
    forall s | 0 <= s <= t ensures Blocked(pairs, rowOf', at', s) {
      TakeBlocks(pairs, t, rowOf, at, s);
    }
  }

  lemma SkipCandidate(pairs: seq<Candidate>, t: nat, rowOf: seq<Option<nat>>, used: seq<bool>, at: seq<nat>)
    requires Choosing(pairs, t, rowOf, used, at) && t < |pairs|
    requires pairs[t].item < |rowOf| && pairs[t].word < |used|
    requires rowOf[pairs[t].item].Some? || used[pairs[t].word]
    ensures Choosing(pairs, t + 1, rowOf, used, at)
  {
    if used[pairs[t].word] {
      var k :| 0 <= k < |rowOf| && rowOf[k] == Some(pairs[t].word);
      assert rowOf[k].Some?;
    }
    assert Blocked(pairs, rowOf, at, t);
  }

  /** Real pairs cheaper than leaving both unmatched, cheapest first; rows left over get a dummy column. */
  method GreedyAssign(cost: Matrix, n: nat, m: nat) returns (a: seq<nat>)
    requires Square(cost) && |cost| == n + m
    ensures CheapestFirst(cost, n, m, a)
  {
    hide Choosing, Blocked, Ordered, CheapestFirst;
    var found := Candidates(cost, n, m);
    var pairs := Sorted(found);
    var rowOf: seq<Option<nat>>, used := seq(n, _ => None), seq(m, _ => false);
    ghost var at: seq<nat> := seq(n, _ => 0);
    ChoosingStarts(pairs, rowOf, used, at);
    for t := 0 to |pairs|
      invariant |rowOf| == n && |used| == m && |at| == n && Choosing(pairs, t, rowOf, used, at)
    {
      var c := pairs[t];
      assert c in found;
      if rowOf[c.item].None? && !used[c.word] {
        TakeCandidate(pairs, t, rowOf, used, at);
        rowOf := rowOf[c.item := Some(c.word)];
        used := used[c.word := true];
        at := at[c.item := t];
      } else {
        SkipCandidate(pairs, t, rowOf, used, at);
      }
    }
    a := seq(n, i requires 0 <= i < n => if rowOf[i].None? then m + i else rowOf[i].value);
    ChosenIsCheapestFirst(cost, n, m, pairs, rowOf, used, at, a);
  }

  lemma ChoosingStarts(pairs: seq<Candidate>, rowOf: seq<Option<nat>>, used: seq<bool>, at: seq<nat>)
    requires |at| == |rowOf|
    requires (forall i :: 0 <= i < |rowOf| ==> rowOf[i].None?) && (forall j :: 0 <= j < |used| ==> !used[j])
    ensures Choosing(pairs, 0, rowOf, used, at)
  {
  }

  ghost predicate ListsWorthwhile(cost: Matrix, n: nat, m: nat, pairs: seq<Candidate>)
    requires Square(cost) && |cost| == n + m
  {
    forall c :: c in pairs <==> Worthwhile(cost, n, m, c.item, c.word) && c.cost == cost[c.item][c.word]
  }

  lemma ChosenIsWorthwhile(cost: Matrix, n: nat, m: nat, pairs: seq<Candidate>, rowOf: seq<Option<nat>>,
                           used: seq<bool>, at: seq<nat>, k: nat)
    requires Square(cost) && |cost| == n + m && |rowOf| == n && ListsWorthwhile(cost, n, m, pairs)
    requires Choosing(pairs, |pairs|, rowOf, used, at) && k < n && rowOf[k].Some?
    ensures Worthwhile(cost, n, m, k, rowOf[k].value)
    ensures at[k] < |pairs| && pairs[at[k]] == Candidate(cost[k][rowOf[k].value], k, rowOf[k].value)
  {
    hide Blocked, Worthwhile;
    assert pairs[at[k]] in pairs;
  }

  lemma IndexOfCandidate(cost: Matrix, n: nat, m: nat, pairs: seq<Candidate>, i: nat, j: nat) returns (s: nat)
    requires Square(cost) && |cost| == n + m && ListsWorthwhile(cost, n, m, pairs) && Worthwhile(cost, n, m, i, j)
    ensures s < |pairs| && pairs[s] == Candidate(cost[i][j], i, j)
  {
    assert Candidate(cost[i][j], i, j) in pairs;
    s :| 0 <= s < |pairs| && pairs[s] == Candidate(cost[i][j], i, j);
  }

  lemma BlockerOf(pairs: seq<Candidate>, rowOf: seq<Option<nat>>, used: seq<bool>, at: seq<nat>, s: nat) returns (k: nat)
    requires Choosing(pairs, |pairs|, rowOf, used, at) && s < |pairs|
    ensures k < |rowOf| == |at| && rowOf[k].Some? && at[k] <= s && (k == pairs[s].item || rowOf[k] == Some(pairs[s].word))
  {
    assert Blocked(pairs, rowOf, at, s);
    k :| 0 <= k < |rowOf| && rowOf[k].Some? && at[k] <= s && (k == pairs[s].item || rowOf[k] == Some(pairs[s].word));
  }

  lemma PrecedesItself(c: Candidate)
    ensures Precedes(c, c)
  {
  }

  lemma WorthwhileIsSettled(cost: Matrix, n: nat, m: nat, pairs: seq<Candidate>, rowOf: seq<Option<nat>>,
                            used: seq<bool>, at: seq<nat>, a: seq<nat>, i: nat, j: nat)
    requires Square(cost) && |cost| == n + m && |rowOf| == n
    requires Choosing(pairs, |pairs|, rowOf, used, at)
    requires ListsWorthwhile(cost, n, m, pairs) && Ordered(pairs)
    requires |a| == n && forall i :: 0 <= i < n ==> a[i] == if rowOf[i].None? then m + i else rowOf[i].value
    requires Worthwhile(cost, n, m, i, j)
    ensures Settled(cost, n, m, a, i, j)
  {
    hide Choosing, ListsWorthwhile, Blocked, Precedes;
    var s := IndexOfCandidate(cost, n, m, pairs, i, j);
    var k := BlockerOf(pairs, rowOf, used, at, s);
    ChosenIsWorthwhile(cost, n, m, pairs, rowOf, used, at, k);
    PrecedesItself(pairs[s]);
    assert Precedes(pairs[at[k]], pairs[s]);
    assert a[k] == rowOf[k].value < m;
    assert Precedes(Candidate(cost[k][a[k]], k, a[k]), Candidate(cost[i][j], i, j));
  }

  lemma ChosenIsCheapestFirst(cost: Matrix, n: nat, m: nat, pairs: seq<Candidate>, rowOf: seq<Option<nat>>,
                              used: seq<bool>, at: seq<nat>, a: seq<nat>)
    requires Square(cost) && |cost| == n + m && |rowOf| == n
    requires Choosing(pairs, |pairs|, rowOf, used, at)
    requires ListsWorthwhile(cost, n, m, pairs) && Ordered(pairs)
    requires |a| == n && forall i :: 0 <= i < n ==> a[i] == if rowOf[i].None? then m + i else rowOf[i].value
    ensures CheapestFirst(cost, n, m, a)
  {
    hide Blocked, Settled, Ordered, ListsWorthwhile;
    forall i: int, j: int | Worthwhile(cost, n, m, i, j) ensures Settled(cost, n, m, a, i, j) {
      WorthwhileIsSettled(cost, n, m, pairs, rowOf, used, at, a, i, j);
    }
    forall i | 0 <= i < n && rowOf[i].Some? ensures Worthwhile(cost, n, m, i, a[i]) {
      ChosenIsWorthwhile(cost, n, m, pairs, rowOf, used, at, i);
    }
  }

  /** Cheapest-first choosing has only one outcome. */
  lemma {:induction false} OneOutcome(cost: Matrix, n: nat, m: nat, a: seq<nat>, b: seq<nat>, i: nat)
    requires Square(cost) && |cost| == n + m
    requires forall i, j :: 0 <= i < n + m && 0 <= j < n + m ==> cost[i][j] >= 0
    requires CheapestFirst(cost, n, m, a) && CheapestFirst(cost, n, m, b)
    requires i < n && a[i] < m
    ensures b[i] == a[i]
    decreases cost[i][a[i]], i, a[i]
  {
    assert Settled(cost, n, m, b, i, a[i]);
    var k :| 0 <= k < n && b[k] < m && (k == i || b[k] == a[i]) &&
      Precedes(Candidate(cost[k][b[k]], k, b[k]), Candidate(cost[i][a[i]], i, a[i]));
    if k != i || b[k] != a[i] {
      OneOutcome(cost, n, m, b, a, k);
    }
  }

  lemma SameOutcome(cost: Matrix, n: nat, m: nat, a: seq<nat>, b: seq<nat>)
    requires Square(cost) && |cost| == n + m
    requires forall i, j :: 0 <= i < n + m && 0 <= j < n + m ==> cost[i][j] >= 0
    requires CheapestFirst(cost, n, m, a) && CheapestFirst(cost, n, m, b)
    ensures a == b
  {
    forall i | 0 <= i < n ensures a[i] == b[i] {
      if a[i] < m {
        OneOutcome(cost, n, m, a, b, i);
      } else if b[i] < m {
        OneOutcome(cost, n, m, b, a, i);
      }
    }
  }

  lemma WorthwhileIsPlausible(exp: seq<seq<Unit>>, words: seq<seq<Unit>>, cost: Matrix, i: nat, j: nat)
    requires Padded(exp, words, cost) && i < |exp| && j < |words| && words[j] != []
    ensures Worthwhile(cost, |exp|, |words|, i, j) <==> Plausible(exp[i], words[j])
  {
    hide Distance;
    var (n, m) := (|exp|, |words|);
    assert cost[i][m] == Entry(exp, words, i, m) && cost[n][j] == Entry(exp, words, n, j);
  }

  /** Undoing one pairing that is cheaper than leaving both raises the cost. */
  lemma UnpairOne(exp: seq<seq<Unit>>, words: seq<seq<Unit>>, q: Pairing, i: nat)
    requires ValidPairing(exp, words, q) && i < |q| && q[i].Some?
    ensures ValidPairing(exp, words, q[i := None])
    ensures PairingCost(exp, words, q) <= PairingCost(exp, words, q[i := None])
  {
    var (j, r) := (q[i].value, q[i := None]);
    assert q[i] in q;
    assert Some(j) !in r;
    forall x | 0 <= x < |words| && x != j ensures WordCost(words, r, x) == WordCost(words, q, x) {
      if Some(x) in q {
        var k :| 0 <= k < |q| && q[k] == Some(x);
        assert r[k] == Some(x);
      }
    }
    assert ItemCosts(exp, words, r) == ItemCosts(exp, words, q)[i := |exp[i]|];
    assert WordCosts(words, r) == WordCosts(words, q)[j := |words[j]|];
    SumOfUpdate(ItemCosts(exp, words, q), i, |exp[i]|);
    SumOfUpdate(WordCosts(words, q), j, |words[j]|);
  }

  lemma {:induction false} CheaperThanNothing(exp: seq<seq<Unit>>, words: seq<seq<Unit>>, q: Pairing, k: nat)
    requires ValidPairing(exp, words, q) && k <= |q| && forall i :: k <= i < |q| ==> q[i].None?
    ensures PairingCost(exp, words, q) <= PairingCost(exp, words, Unpaired(|exp|))
    decreases k
  {
    hide PairingCost;
    if k == 0 {
      assert q == Unpaired(|exp|);
    } else {
      if q[k - 1].Some? {
        UnpairOne(exp, words, q, k - 1);
      } else {
        assert q[k - 1 := None] == q;
      }
      CheaperThanNothing(exp, words, q[k - 1 := None], k - 1);
    }
  }

  /**
   The greedy pairing is plausible throughout, never dearer than pairing
   nothing, and leaves no item and word that are plausibly each other's.
   */
  lemma GreedyPairing(exp: seq<seq<Unit>>, words: seq<seq<Unit>>, cost: Matrix, a: seq<nat>)
    requires Padded(exp, words, cost) && CheapestFirst(cost, |exp|, |words|, a)
    requires forall j :: 0 <= j < |words| ==> words[j] != []
    ensures var q := PairingOf(exp, words, a);
            && ValidPairing(exp, words, q)
            && (forall i :: 0 <= i < |exp| ==> (q[i] == Some(a[i]) <==> a[i] < |words|))
            && PairingCost(exp, words, q) <= PairingCost(exp, words, Unpaired(|exp|))
            && (forall i, j :: 0 <= i < |exp| && 0 <= j < |words| && q[i].None? && Some(j) !in q ==>
                  !Plausible(exp[i], words[j]))
  {
    hide Distance, Plausible, PairingCost, Entry;
    var (n, m, q) := (|exp|, |words|, PairingOf(exp, words, a));
    forall i | 0 <= i < n && a[i] < m ensures Plausible(exp[i], words[a[i]]) {
      WorthwhileIsPlausible(exp, words, cost, i, a[i]);
    }
    PairingOfIsValid(exp, words, a);
    CheaperThanNothing(exp, words, q, n);
    forall i, j | 0 <= i < n && 0 <= j < m && q[i].None? && Plausible(exp[i], words[j]) ensures Some(j) in q {
      WorthwhileIsPlausible(exp, words, cost, i, j);
      assert Settled(cost, n, m, a, i, j);
      var k :| 0 <= k < n && a[k] < m && (k == i || a[k] == j);
      assert q[k] == Some(a[k]);
    }
  }

  // -------------------------------------------------------------------------
  // The texts
  // -------------------------------------------------------------------------

  /** The expected items as prepared units; the first that does not encode is the error. */
  function ItemsOf(expected: seq<string>, opts: ScoreOptions): Result<seq<seq<Unit>>, CodecError> {
    if expected == [] then Ok([])
    else
      var k := |expected| - 1;
      match ItemsOf(expected[..k], opts)
      case Err(e) => Err(e)
      case Ok(items) =>
        match Tokens(expected[k])
        case Err(e) => Err(e)
        case Ok(ts) => Ok(items + [Prepared(ts, opts)])
  }

  /** The items are read exactly when they all encode; otherwise the error is the first one's that does not. */
  lemma {:induction false} ItemsExactly(expected: seq<string>, opts: ScoreOptions)
    ensures match ItemsOf(expected, opts)
            case Ok(items) =>
              && |items| == |expected|
              && forall i :: 0 <= i < |expected| ==> Tokens(expected[i]).Ok? && items[i] == Prepared(Tokens(expected[i]).value, opts)
            case Err(e) =>
              exists k :: 0 <= k < |expected| && Tokens(expected[k]) == Err(e) && forall i :: 0 <= i < k ==> Tokens(expected[i]).Ok?
  {
    hide Tokens, Prepared;
    if expected != [] {
      var k := |expected| - 1;
      ItemsExactly(expected[..k], opts);
      if ItemsOf(expected[..k], opts).Err? {
        var e := ItemsOf(expected[..k], opts).error;
        var j :| 0 <= j < k && Tokens(expected[..k][j]) == Err(e) && forall i :: 0 <= i < j ==> Tokens(expected[..k][i]).Ok?;
        assert Tokens(expected[j]) == Err(e);
        forall i | 0 <= i < j ensures Tokens(expected[i]).Ok? {
          assert Tokens(expected[..k][i]).Ok?;
        }
      }
    }
  }

  /**
   In a cheapest-first pairing every plausible pair that is not taken lost its
   item or its word to a taken pair with fewer errors, or as many and an
   earlier item, or the same item and an earlier word.
   */
  lemma GreedyLosesOnlyToBetter(exp: seq<seq<Unit>>, words: seq<seq<Unit>>, q: Pairing, i: nat, j: nat)
    requires IsGreedy(exp, words, q) && i < |exp| && j < |words| && |q| == |exp|
    requires Plausible(exp[i], words[j]) && q[i] != Some(j) && forall t :: 0 <= t < |words| ==> words[t] != []
    ensures exists k :: 0 <= k < |exp| && q[k].Some? && q[k].value < |words| && (k == i || q[k] == Some(j)) &&
              var (mine, other) := (Distance(exp[i], words[j]), Distance(exp[k], words[q[k].value]));
              other < mine || (other == mine && (k < i || (k == i && q[k].value < j)))
  {
    hide Distance, PairingOf, Plausible, Entry, Settled, Worthwhile;
    var cost, a :| Padded(exp, words, cost) && CheapestFirst(cost, |exp|, |words|, a) && q == PairingOf(exp, words, a);
    PairCosts(exp, words, cost, a, i, j);
    var k := SettledBy(exp, words, cost, a, i, j);
    PairCosts(exp, words, cost, a, k, a[k]);
  }

  /** The taken pair a plausible pair was lost to, or the pair itself. */
  lemma SettledBy(exp: seq<seq<Unit>>, words: seq<seq<Unit>>, cost: Matrix, a: seq<nat>, i: nat, j: nat) returns (k: nat)
    requires Padded(exp, words, cost) && CheapestFirst(cost, |exp|, |words|, a)
    requires i < |exp| && j < |words| && words[j] != [] && Plausible(exp[i], words[j])
    ensures k < |exp| && a[k] < |words| && (k == i || a[k] == j) && Worthwhile(cost, |exp|, |words|, k, a[k])
    ensures cost[k][a[k]] < cost[i][j] || (cost[k][a[k]] == cost[i][j] && (k < i || (k == i && a[k] <= j)))
  {
    hide Entry, Plausible;
    WorthwhileIsPlausible(exp, words, cost, i, j);
    assert Settled(cost, |exp|, |words|, a, i, j);
    k :| 0 <= k < |exp| && a[k] < |words| && (k == i || a[k] == j) &&
      Precedes(Candidate(cost[k][a[k]], k, a[k]), Candidate(cost[i][j], i, j));
  }

  lemma PairCosts(exp: seq<seq<Unit>>, words: seq<seq<Unit>>, cost: Matrix, a: seq<nat>, i: nat, j: nat)
    requires Padded(exp, words, cost) && CheapestFirst(cost, |exp|, |words|, a)
    requires i < |exp| && j < |words| && words[j] != []
    ensures |cost| == |exp| + |words| && Square(cost) && |a| == |exp|
    ensures Worthwhile(cost, |exp|, |words|, i, j) || Plausible(exp[i], words[j]) ==> cost[i][j] == Distance(exp[i], words[j])
    ensures Worthwhile(cost, |exp|, |words|, i, j) && a[i] == j ==> PairingOf(exp, words, a)[i] == Some(j)
    ensures a[i] != j || !Plausible(exp[i], words[j]) ==> PairingOf(exp, words, a)[i] != Some(j)
  {
    hide Distance, Settled;
    WorthwhileIsPlausible(exp, words, cost, i, j);
    assert cost[i][j] == Entry(exp, words, i, j);
  }

  /** The runs between word spaces, empty ones included. */
  function Runs(ts: seq<Unit>): (r: seq<seq<Unit>>)
    ensures r != []
  {
    if ts == [] then [[]]
    else
      var (front, u) := (Runs(ts[..|ts| - 1]), ts[|ts| - 1]);
      if u == WordSpace then front + [[]]
      else front[..|front| - 1] + [front[|front| - 1] + [u]]
  }

  function NonEmpty(runs: seq<seq<Unit>>): seq<seq<Unit>> {
    if runs == [] then []
    else NonEmpty(runs[..|runs| - 1]) + if runs[|runs| - 1] == [] then [] else [runs[|runs| - 1]]
  }

  function PreparedAll(ws: seq<seq<Unit>>, opts: ScoreOptions): seq<seq<Unit>> {
    seq(|ws|, i requires 0 <= i < |ws| => Prepared(ws[i], opts))
  }

  /** The copied text as the words that are scored. */
  function WordsOf(copied: string, opts: ScoreOptions): seq<seq<Unit>> {
    PreparedAll(NonEmpty(Runs(TypedTokens(copied))), opts)
  }

  function Joined(runs: seq<seq<Unit>>): seq<Unit>
    requires runs != []
  {
    if |runs| == 1 then runs[0] else Joined(runs[..|runs| - 1]) + [WordSpace] + runs[|runs| - 1]
  }

  lemma JoinedPush(front: seq<seq<Unit>>, last: seq<Unit>, u: Unit)
    ensures Joined(front + [last + [u]]) == Joined(front + [last]) + [u]
    ensures Joined(front + [last] + [[]]) == Joined(front + [last]) + [WordSpace]
  {
    assert (front + [last + [u]])[..|front|] == front && (front + [last])[..|front|] == front;
    assert (front + [last] + [[]])[..|front| + 1] == front + [last];
    if front != [] {
      var j := Joined(front) + [WordSpace];
      assert j + (last + [u]) == j + last + [u];
    }
  }

  /** The runs, joined by word spaces, are the text. */
  lemma {:induction false} RunsJoin(ts: seq<Unit>)
    ensures Joined(Runs(ts)) == ts
  {
    if ts == [] {
    } else {
      var k := |ts| - 1;
      RunsJoin(ts[..k]);
      var front := Runs(ts[..k]);
      var n := |front| - 1;
      JoinedPush(front[..n], front[n], ts[k]);
      assert front == front[..n] + [front[n]];
      assert ts == ts[..k] + [ts[k]];
    }
  }

  lemma {:induction false} RunsHoldNoSpace(ts: seq<Unit>)
    ensures forall i :: 0 <= i < |Runs(ts)| ==> WordSpace !in Runs(ts)[i]
  {
    if ts != [] {
      RunsHoldNoSpace(ts[..|ts| - 1]);
    }
  }

  lemma {:induction false} PreparedWord(w: seq<Unit>, opts: ScoreOptions)
    requires WordSpace !in w
    ensures |Prepared(w, opts)| == |w| && WordSpace !in Prepared(w, opts)
  {
    if w != [] {
      PreparedWord(w[..|w| - 1], opts);
    }
  }

  lemma {:induction false} NonEmptyKeeps(runs: seq<seq<Unit>>)
    ensures forall i :: 0 <= i < |NonEmpty(runs)| ==> NonEmpty(runs)[i] != [] && NonEmpty(runs)[i] in runs
  {
    if runs != [] {
      NonEmptyKeeps(runs[..|runs| - 1]);
    }
  }

  lemma NoRuns(ts: seq<Unit>)
    requires ts == []
    ensures Runs(ts) == [[]]
  {
  }

  lemma RunsPush(ts: seq<Unit>, u: Unit)
    ensures var front := Runs(ts);
            Runs(ts + [u]) == if u == WordSpace then front + [[]]
                              else front[..|front| - 1] + [front[|front| - 1] + [u]]
  {
    assert (ts + [u])[..|ts|] == ts;
  }

  /** Reading as far as `k`, no run but perhaps the last is empty, and that one only just after a word space. */
  lemma {:induction false} RunsAreFilled(ts: seq<Unit>, k: nat)
    requires k <= |ts| && ts != [] && ts[0] != WordSpace && Spaced(ts)
    ensures var runs := Runs(ts[..k]);
            && (forall i :: 0 <= i < |runs| - 1 ==> runs[i] != [])
            && (runs[|runs| - 1] == [] <==> k == 0 || ts[k - 1] == WordSpace)
  {
    hide Runs;
    if k == 0 {
      NoRuns(ts[..0]);
    } else {
      RunsAreFilled(ts, k - 1);
      assert ts[..k] == ts[..k - 1] + [ts[k - 1]];
      RunsPush(ts[..k - 1], ts[k - 1]);
    }
  }

  lemma {:induction false} NothingDropped(runs: seq<seq<Unit>>)
    requires forall i :: 0 <= i < |runs| ==> runs[i] != []
    ensures NonEmpty(runs) == runs
  {
    if runs != [] {
      NothingDropped(runs[..|runs| - 1]);
    }
  }

  /** The copied words as they were typed. */
  function TypedWords(copied: string): seq<seq<Unit>> {
    NonEmpty(Runs(TypedTokens(copied)))
  }

  /** Words: none empty, none with a space in it. */
  ghost predicate AreWords(ws: seq<seq<Unit>>) {
    forall j :: 0 <= j < |ws| ==> ws[j] != [] && WordSpace !in ws[j]
  }

  /** The typed words are all of the copy, in order: joined by single spaces they are its tokens. */
  lemma WordsAreAllTheCopy(copied: string)
    ensures AreWords(TypedWords(copied))
    ensures TypedTokens(copied) == [] <==> TypedWords(copied) == []
    ensures TypedTokens(copied) != [] ==> Joined(TypedWords(copied)) == TypedTokens(copied)
  {
    var ts := TypedTokens(copied);
    var runs := Runs(ts);
    NonEmptyKeeps(runs);
    RunsHoldNoSpace(ts);
    if ts == [] {
      assert runs[..0] == [];
    } else {
      TypedSpacing(copied, false, false);
      RunsAreFilled(ts, |ts|);
      assert ts[..|ts|] == ts;
      NothingDropped(runs);
      RunsJoin(ts);
    }
  }

  /** A text's last word is no longer cut one way than another. */
  lemma LastWordNoLonger(a: seq<seq<Unit>>, b: seq<seq<Unit>>)
    requires a != [] && b != [] && AreWords(a) && AreWords(b) && Joined(a) == Joined(b)
    ensures |b[|b| - 1]| <= |a[|a| - 1]|
  {
    var (text, x, y) := (Joined(a), a[|a| - 1], b[|b| - 1]);
    EndsInLastWord(a);
    EndsInLastWord(b);
    InSuffix(text, y, |text| - |x| - 1);
  }

  lemma InSuffix(text: seq<Unit>, end: seq<Unit>, k: int)
    requires |end| <= |text| && text[|text| - |end|..] == end
    ensures |text| - |end| <= k < |text| ==> text[k] in end
  {
    if |text| - |end| <= k < |text| {
      assert text[|text| - |end|..][k - (|text| - |end|)] == text[k];
    }
  }

  lemma EndsInLastWord(a: seq<seq<Unit>>)
    requires a != []
    ensures var (text, x) := (Joined(a), a[|a| - 1]);
            && |x| <= |text| && text[|text| - |x|..] == x
            && (if |a| == 1 then text == x
                else |x| < |text| && text[|text| - |x| - 1] == WordSpace && text[..|text| - |x| - 1] == Joined(a[..|a| - 1]))
  {
    if |a| > 1 {
      var (front, x) := (Joined(a[..|a| - 1]), a[|a| - 1]);
      var text := front + [WordSpace] + x;
      assert text == Joined(a) && text[|front|] == WordSpace;
      assert text[..|front|] == front && text[|front| + 1..] == x;
    } else {
      assert a[0][0..] == a[0];
    }
  }

  /** A text is cut into words one way only. */
  lemma {:induction false} WordsAreUnique(a: seq<seq<Unit>>, b: seq<seq<Unit>>)
    requires a != [] && b != [] && AreWords(a) && AreWords(b) && Joined(a) == Joined(b)
    ensures a == b
    decreases |a|
  {
    hide Joined;
    LastWordNoLonger(a, b);
    LastWordNoLonger(b, a);
    EndsInLastWord(a);
    EndsInLastWord(b);
    if |a| > 1 && |b| > 1 {
      WordsAreUnique(a[..|a| - 1], b[..|b| - 1]);
    }
    assert a == a[..|a| - 1] + [a[|a| - 1]] && b == b[..|b| - 1] + [b[|b| - 1]];
  }

  /** Each scored word is a typed word, prepared, and every typed word is scored, in order. */
  lemma EveryWordIsScored(copied: string, opts: ScoreOptions)
    ensures |WordsOf(copied, opts)| == |TypedWords(copied)|
    ensures forall j :: 0 <= j < |TypedWords(copied)| ==>
              && WordsOf(copied, opts)[j] == Prepared(TypedWords(copied)[j], opts)
              && |WordsOf(copied, opts)[j]| == |TypedWords(copied)[j]|
  {
    WordsAreAllTheCopy(copied);
    forall j | 0 <= j < |TypedWords(copied)| ensures |WordsOf(copied, opts)[j]| == |TypedWords(copied)[j]| {
      PreparedWord(TypedWords(copied)[j], opts);
    }
  }

  /** Every scored word is there, is prepared, and holds no word space. */
  lemma WordsAreWords(copied: string, opts: ScoreOptions)
    ensures forall j :: 0 <= j < |WordsOf(copied, opts)| ==>
              var w := WordsOf(copied, opts)[j]; w != [] && WordSpace !in w && Prepared(w, opts) == w
  {
    var runs := Runs(TypedTokens(copied));
    RunsHoldNoSpace(TypedTokens(copied));
    NonEmptyKeeps(runs);
    forall j | 0 <= j < |WordsOf(copied, opts)|
      ensures var w := WordsOf(copied, opts)[j]; w != [] && WordSpace !in w && Prepared(w, opts) == w
    {
      PreparedWord(NonEmpty(runs)[j], opts);
      PreparedTwice(NonEmpty(runs)[j], opts);
    }
  }

  lemma {:induction false} ItemsArePrepared(expected: seq<string>, opts: ScoreOptions)
    requires ItemsOf(expected, opts).Ok?
    ensures var exp := ItemsOf(expected, opts).value;
            |exp| == |expected| && forall i :: 0 <= i < |exp| ==> Prepared(exp[i], opts) == exp[i]
  {
    if expected != [] {
      var k := |expected| - 1;
      ItemsArePrepared(expected[..k], opts);
      PreparedTwice(Tokens(expected[k]).value, opts);
    }
  }

  method ReadItems(expected: seq<string>, opts: ScoreOptions) returns (r: Result<seq<seq<Unit>>, CodecError>)
    ensures r == ItemsOf(expected, opts)
  {
    var items := [];
    for k := 0 to |expected|
      invariant ItemsOf(expected[..k], opts) == Ok(items)
    {
      assert expected[..k + 1][..k] == expected[..k];
      var ts := Tokenize(expected[k]);
      if ts.Err? {
        FirstErrorStays(expected, opts, k + 1);
        return Err(ts.error);
      }
      items := items + [Prepared(ts.value, opts)];
    }
    assert expected[..|expected|] == expected;
    return Ok(items);
  }

  lemma {:induction false} FirstErrorStays(expected: seq<string>, opts: ScoreOptions, k: nat)
    requires k <= |expected| && ItemsOf(expected[..k], opts).Err?
    ensures ItemsOf(expected, opts) == ItemsOf(expected[..k], opts)
  {
    if k == |expected| {
      assert expected[..k] == expected;
    } else {
      var n := |expected| - 1;
      assert expected[..n][..k] == expected[..k];
      FirstErrorStays(expected[..n], opts, k);
    }
  }

  method ReadWords(copied: string, opts: ScoreOptions) returns (words: seq<seq<Unit>>)
    ensures words == WordsOf(copied, opts)
  {
    var ts := TokenizeCopy(copied);
    var runs: seq<seq<Unit>> := [[]];
    for k := 0 to |ts|
      invariant runs == Runs(ts[..k])
    {
      assert ts[..k + 1][..k] == ts[..k];
      if ts[k] == WordSpace {
        runs := runs + [[]];
      } else {
        runs := runs[..|runs| - 1] + [runs[|runs| - 1] + [ts[k]]];
      }
    }
    assert ts[..|ts|] == ts;
    words := PreparedAll(NonEmpty(runs), opts);
  }

  // -------------------------------------------------------------------------
  // The whole scoring
  // -------------------------------------------------------------------------

  /** Above this many items and words together the assignment is greedy. */
  const UNORDERED_OPTIMAL_MAX: nat := 128

  datatype UnorderedAlignment = UnorderedAlignment(
    items: seq<Alignment>, matched: Pairing, copiedWords: seq<string>, extras: seq<Alignment>)

  function CopyOf(words: seq<seq<Unit>>, q: Pairing, i: nat): seq<Unit>
    requires i < |q|
  {
    if q[i].Some? && q[i].value < |words| then words[q[i].value] else []
  }

  /** Each item against its word, or against nothing. */
  function ItemAlignments(exp: seq<seq<Unit>>, words: seq<seq<Unit>>, q: Pairing, opts: ScoreOptions, k: nat): seq<Alignment>
    requires k <= |exp| == |q|
  {
    if k == 0 then []
    else ItemAlignments(exp, words, q, opts, k - 1) + [Aligning(exp[k - 1], CopyOf(words, q, k - 1), opts)]
  }

  /** The words nobody took, in copied order, each as pure insertions. */
  function Extras(words: seq<seq<Unit>>, q: Pairing, opts: ScoreOptions, k: nat): seq<Alignment>
    requires k <= |words|
  {
    if k == 0 then []
    else Extras(words, q, opts, k - 1) + if Some(k - 1) in q then [] else [Aligning([], words[k - 1], opts)]
  }

  function ErrorTotal(all: seq<Alignment>): nat {
    if all == [] then 0 else ErrorTotal(all[..|all| - 1]) + Errors(all[|all| - 1].ops)
  }

  lemma ErrorTotalPush(all: seq<Alignment>, a: Alignment)
    ensures ErrorTotal(all + [a]) == ErrorTotal(all) + Errors(a.ops)
  {
    assert (all + [a])[..|all|] == all;
  }

  lemma ErrorsOfAligning(e: seq<Unit>, c: seq<Unit>, opts: ScoreOptions)
    requires Prepared(e, opts) == e && Prepared(c, opts) == c
    ensures Errors(Aligning(e, c, opts).ops) == Distance(e, c)
  {
    AlignmentReplays(e, c);
  }

  ghost predicate AllPrepared(texts: seq<seq<Unit>>, opts: ScoreOptions) {
    forall i :: 0 <= i < |texts| ==> Prepared(texts[i], opts) == texts[i]
  }

  lemma NoErrors()
    ensures ErrorTotal([]) == 0 && Sum([]) == 0
  {
  }

  lemma {:induction false} ItemErrors(exp: seq<seq<Unit>>, words: seq<seq<Unit>>, q: Pairing, opts: ScoreOptions, k: nat)
    requires AllPrepared(exp, opts) && AllPrepared(words, opts) && k <= |exp| == |q|
    ensures ErrorTotal(ItemAlignments(exp, words, q, opts, k)) == Sum(ItemCosts(exp, words, q)[..k])
  {
    hide Distance, Aligning, Prepared, Errors, ErrorTotal, Sum;
    if k == 0 {
      NoErrors();
    } else {
      ItemErrors(exp, words, q, opts, k - 1);
      var e, c := exp[k - 1], CopyOf(words, q, k - 1);
      NothingPrepared(opts);
      ErrorsOfAligning(e, c, opts);
      DistanceFromNothing(e);
      ErrorTotalPush(ItemAlignments(exp, words, q, opts, k - 1), Aligning(e, c, opts));
      SumOfPrefix(ItemCosts(exp, words, q), k - 1);
    }
  }

  lemma {:induction false} ExtraErrors(words: seq<seq<Unit>>, q: Pairing, opts: ScoreOptions, k: nat)
    requires AllPrepared(words, opts) && k <= |words|
    ensures ErrorTotal(Extras(words, q, opts, k)) == Sum(WordCosts(words, q)[..k])
  {
    hide Distance, Aligning, Prepared, Errors, ErrorTotal, Sum;
    if k == 0 {
      NoErrors();
    } else {
      ExtraErrors(words, q, opts, k - 1);
      var w := words[k - 1];
      NothingPrepared(opts);
      ErrorsOfAligning([], w, opts);
      DistanceFromNothing(w);
      ErrorTotalPush(Extras(words, q, opts, k - 1), Aligning([], w, opts));
      assert Extras(words, q, opts, k - 1) + [] == Extras(words, q, opts, k - 1);
      SumOfPrefix(WordCosts(words, q), k - 1);
    }
  }

  lemma NothingPrepared(opts: ScoreOptions)
    ensures Prepared([], opts) == []
  {
  }

  lemma DistanceFromNothing(w: seq<Unit>)
    ensures Distance(w, []) == |w| && Distance([], w) == |w|
  {
    DistanceToNothing(w);
  }

  /** The reported errors are exactly what the pairing costs. */
  lemma ReportedErrors(exp: seq<seq<Unit>>, words: seq<seq<Unit>>, q: Pairing, opts: ScoreOptions)
    requires AllPrepared(exp, opts) && AllPrepared(words, opts) && |q| == |exp|
    ensures ErrorTotal(ItemAlignments(exp, words, q, opts, |exp|)) + ErrorTotal(Extras(words, q, opts, |words|))
         == PairingCost(exp, words, q)
  {
    ItemErrors(exp, words, q, opts, |exp|);
    ExtraErrors(words, q, opts, |words|);
    assert ItemCosts(exp, words, q)[..|exp|] == ItemCosts(exp, words, q);
    assert WordCosts(words, q)[..|words|] == WordCosts(words, q);
  }

  /** One cell of the padded matrix, with the alignment when the pair is plausible. */
  method CostCell(exp: seq<seq<Unit>>, words: seq<seq<Unit>>, opts: ScoreOptions, i: nat, j: nat)
    returns (c: int, a: Option<Alignment>)
    requires AllPrepared(exp, opts) && AllPrepared(words, opts)
    ensures c == Entry(exp, words, i, j)
    ensures a == if i < |exp| && j < |words| && Plausible(exp[i], words[j])
                 then Some(Aligning(exp[i], words[j], opts)) else None
  {
    hide Preferred, HonestStep, Distance, Aligning, Prepared, Errors, Sent, Received;
    a := None;
    if i < |exp| && j < |words| {
      var pair := AlignUnits(exp[i], words[j], opts);
      var sc := ScoreOf(pair);
      TotalsAddUp(|pair.expected|, pair.ops);
      var errors := sc.substitutions + sc.deletions + sc.insertions;
      if 2 * errors <= |exp[i]| {
        return errors, Some(pair);
      }
      return |exp[i]| + |words[j]|, None;
    }
    c := if i < |exp| then |exp[i]| else if j < |words| then |words[j]| else 0;
  }

  method BuildRow(exp: seq<seq<Unit>>, words: seq<seq<Unit>>, opts: ScoreOptions, i: nat)
    returns (row: seq<int>, aligned: seq<Option<Alignment>>)
    requires AllPrepared(exp, opts) && AllPrepared(words, opts)
    ensures |row| == |aligned| == |exp| + |words|
    ensures forall j: nat :: j < |row| ==> row[j] == Entry(exp, words, i, j)
    ensures forall j: nat :: j < |row| ==>
              aligned[j] == if i < |exp| && j < |words| && Plausible(exp[i], words[j])
                            then Some(Aligning(exp[i], words[j], opts)) else None
  {
    hide Entry, Plausible, Aligning, AllPrepared;
    row, aligned := [], [];
    for j := 0 to |exp| + |words|
      invariant |row| == |aligned| == j
      invariant forall k: nat :: k < j ==> row[k] == Entry(exp, words, i, k)
      invariant forall k: nat :: k < j ==>
                  aligned[k] == if i < |exp| && k < |words| && Plausible(exp[i], words[k])
                                then Some(Aligning(exp[i], words[k], opts)) else None
    {
      var c, a := CostCell(exp, words, opts, i, j);
      row, aligned := row + [c], aligned + [a];
    }
  }

  /** Row `i` of the alignments kept beside the matrix. */
  ghost predicate KeepsAlignments(exp: seq<seq<Unit>>, words: seq<seq<Unit>>, opts: ScoreOptions,
                                  kept: seq<seq<Option<Alignment>>>) {
    && |kept| >= |exp|
    && forall i, j :: 0 <= i < |exp| && 0 <= j < |words| ==>
         |kept[i]| >= |words| &&
         kept[i][j] == if Plausible(exp[i], words[j]) then Some(Aligning(exp[i], words[j], opts)) else None
  }

  method BuildCost(exp: seq<seq<Unit>>, words: seq<seq<Unit>>, opts: ScoreOptions)
    returns (cost: Matrix, kept: seq<seq<Option<Alignment>>>)
    requires AllPrepared(exp, opts) && AllPrepared(words, opts)
    ensures Padded(exp, words, cost) && KeepsAlignments(exp, words, opts, kept)
  {
    hide Entry, Plausible, Aligning, AllPrepared;
    cost, kept := [], [];
    var size := |exp| + |words|;
    for i := 0 to size
      invariant |cost| == |kept| == i
      invariant forall k :: 0 <= k < i ==> |cost[k]| == |kept[k]| == size
      invariant forall k: nat, j: nat :: k < i && j < size ==> cost[k][j] == Entry(exp, words, k, j)
      invariant forall k: nat, j: nat :: k < i && j < size ==>
                  kept[k][j] == if k < |exp| && j < |words| && Plausible(exp[k], words[j])
                                then Some(Aligning(exp[k], words[j], opts)) else None
    {
      var row, aligned := BuildRow(exp, words, opts, i);
      cost, kept := cost + [row], kept + [aligned];
    }
  }

  /** Reads the pairing and its alignments off an assignment. */
  method AssembleItems(exp: seq<seq<Unit>>, words: seq<seq<Unit>>, opts: ScoreOptions, assign: seq<nat>,
                       kept: seq<seq<Option<Alignment>>>)
    returns (items: seq<Alignment>, matched: Pairing, used: seq<bool>)
    requires KeepsAlignments(exp, words, opts, kept) && |assign| >= |exp|
    ensures matched == PairingOf(exp, words, assign)
    ensures items == ItemAlignments(exp, words, matched, opts, |exp|)
    ensures |used| == |words| && forall j :: 0 <= j < |words| ==> (used[j] <==> Some(j) in matched)
  {
    hide Preferred, HonestStep, Prepared, ItemAlignments, Plausible, Aligning, Sent, Received, Errors, Distance;
    var (n, m) := (|exp|, |words|);
    items, matched, used := [], [], seq(m, _ => false);
    ghost var q := PairingOf(exp, words, assign);
    NoItems(exp, words, q, opts);
    for i := 0 to n
      invariant matched == q[..i]
      invariant items == ItemAlignments(exp, words, q, opts, i)
      invariant |used| == m && forall j :: 0 <= j < m ==> (used[j] <==> Some(j) in matched)
    {
      var j := assign[i];
      assert q[..i + 1] == q[..i] + [q[i]];
      OneItemMore(exp, words, q, opts, i);
      if j < m && kept[i][j].Some? {
        matched := matched + [Some(j)];
        used := used[j := true];
        items := items + [kept[i][j].value];
      } else {
        matched := matched + [None];
        var a := AlignUnits(exp[i], [], opts);
        items := items + [a];
      }
    }
    assert q[..n] == q;
  }

  /** Item `i` is reported against the word it was paired with, or against nothing. */
  lemma {:induction false} ItemReported(exp: seq<seq<Unit>>, words: seq<seq<Unit>>, q: Pairing, opts: ScoreOptions, k: nat, i: nat)
    requires ValidPairing(exp, words, q) && i < k <= |exp|
    ensures |ItemAlignments(exp, words, q, opts, k)| == k
    ensures ItemAlignments(exp, words, q, opts, k)[i] == Aligning(exp[i], if q[i].Some? then words[q[i].value] else [], opts)
  {
    hide Aligning, Plausible;
    if i < k - 1 {
      ItemReported(exp, words, q, opts, k - 1, i);
    } else if k > 1 {
      ItemReported(exp, words, q, opts, k - 1, 0);
    }
  }

  /** Exactly the words no item was paired with are reported as extra, in order. */
  lemma {:induction false} ExtrasInOrder(words: seq<seq<Unit>>, q: Pairing, opts: ScoreOptions, k: nat) returns (places: seq<nat>)
    requires k <= |words|
    ensures |places| == |Extras(words, q, opts, k)|
    ensures forall t :: 0 <= t < |places| ==>
              places[t] < k && Some(places[t]) !in q && Extras(words, q, opts, k)[t] == Aligning([], words[places[t]], opts)
    ensures forall t, s :: 0 <= t < s < |places| ==> places[t] < places[s]
    ensures forall j :: 0 <= j < k && Some(j) !in q ==> j in places
  {
    hide Aligning;
    if k == 0 {
      places := [];
    } else {
      places := ExtrasInOrder(words, q, opts, k - 1);
      if Some(k - 1) !in q {
        places := places + [k - 1];
      }
    }
  }

  lemma NoItems(exp: seq<seq<Unit>>, words: seq<seq<Unit>>, q: Pairing, opts: ScoreOptions)
    requires |exp| == |q|
    ensures ItemAlignments(exp, words, q, opts, 0) == []
  {
  }

  lemma OneItemMore(exp: seq<seq<Unit>>, words: seq<seq<Unit>>, q: Pairing, opts: ScoreOptions, i: nat)
    requires i < |exp| == |q|
    ensures ItemAlignments(exp, words, q, opts, i + 1) ==
            ItemAlignments(exp, words, q, opts, i) + [Aligning(exp[i], CopyOf(words, q, i), opts)]
  {
  }

  method AssembleExtras(words: seq<seq<Unit>>, opts: ScoreOptions, used: seq<bool>, ghost q: Pairing)
    returns (extras: seq<Alignment>)
    requires |used| == |words| && forall j :: 0 <= j < |words| ==> (used[j] <==> Some(j) in q)
    ensures extras == Extras(words, q, opts, |words|)
  {
    hide Preferred, HonestStep, Prepared, Aligning, Sent, Received, Errors, Distance;
    extras := [];
    for j := 0 to |words|
      invariant extras == Extras(words, q, opts, j)
    {
      if !used[j] {
        var a := AlignUnits([], words[j], opts);
        extras := extras + [a];
      }
    }
  }

  ghost function Lengths(texts: seq<seq<Unit>>): seq<int> {
    seq(|texts|, i requires 0 <= i < |texts| => |texts[i]|)
  }

  /** All the units on both sides. */
  ghost function Units(exp: seq<seq<Unit>>, words: seq<seq<Unit>>): int {
    Sum(Lengths(exp)) + Sum(Lengths(words))
  }

  lemma EntryWithinUnits(exp: seq<seq<Unit>>, words: seq<seq<Unit>>, i: nat, j: nat)
    ensures 0 <= Entry(exp, words, i, j) <= Units(exp, words)
  {
    hide Distance, Plausible;
    LengthsAddUp(exp, i);
    LengthsAddUp(words, j);
    if i < |exp| && j < |words| {
      DistanceBounds(exp[i], words[j]);
    }
  }

  lemma LengthsAddUp(texts: seq<seq<Unit>>, k: nat)
    ensures Sum(Lengths(texts)) >= 0
    ensures k < |texts| ==> |texts[k]| <= Sum(Lengths(texts))
  {
    SumMonotone(seq(|texts|, _ => 0), Lengths(texts));
    SumOfZeros(seq(|texts|, _ => 0));
    if k < |texts| {
      PartOfSum(Lengths(texts), k);
    }
  }

  /** No entry exceeds the number of units, so the optimal search never meets its sentinel. */
  lemma PaddedIsBounded(exp: seq<seq<Unit>>, words: seq<seq<Unit>>, cost: Matrix)
    requires Padded(exp, words, cost) && Units(exp, words) < INF
    ensures Units(exp, words) >= 0 && Bounded(cost, Units(exp, words))
  {
    hide Entry, Units;
    var most := Units(exp, words);
    EntryWithinUnits(exp, words, 0, 0);
    forall i: nat, j: nat | i < |cost| && j < |cost| ensures 0 <= cost[i][j] <= most {
      EntryWithinUnits(exp, words, i, j);
      assert cost[i][j] == Entry(exp, words, i, j);
    }
  }

  /** What the scoring reports: which words were paired, each alignment, and how many errors that makes. */
  ghost predicate Reports(exp: seq<seq<Unit>>, words: seq<seq<Unit>>, opts: ScoreOptions, r: UnorderedAlignment) {
    && ValidPairing(exp, words, r.matched)
    && r.items == ItemAlignments(exp, words, r.matched, opts, |exp|)
    && r.extras == Extras(words, r.matched, opts, |words|)
    && r.copiedWords == seq(|words|, j requires 0 <= j < |words| => TokensToText(words[j]))
    && ErrorTotal(r.items) + ErrorTotal(r.extras) == PairingCost(exp, words, r.matched)
  }

  /** The greedy choice of the padded matrix. */
  ghost predicate IsGreedy(exp: seq<seq<Unit>>, words: seq<seq<Unit>>, q: Pairing) {
    exists cost, a :: Padded(exp, words, cost) && CheapestFirst(cost, |exp|, |words|, a) && q == PairingOf(exp, words, a)
  }

  /** The pairing of a matrix: no plausible pairing is cheaper, or, for large input, the greedy one. */
  method Pair(exp: seq<seq<Unit>>, words: seq<seq<Unit>>, cost: Matrix) returns (assign: seq<nat>)
    requires Padded(exp, words, cost)
    requires |exp| + |words| <= UNORDERED_OPTIMAL_MAX ==> Units(exp, words) < INF
    ensures |assign| >= |exp| && ValidPairing(exp, words, PairingOf(exp, words, assign))
    ensures |exp| + |words| <= UNORDERED_OPTIMAL_MAX ==>
              forall q :: ValidPairing(exp, words, q) ==>
                PairingCost(exp, words, PairingOf(exp, words, assign)) <= PairingCost(exp, words, q)
    ensures |exp| + |words| > UNORDERED_OPTIMAL_MAX ==> IsGreedy(exp, words, PairingOf(exp, words, assign))
  {
    hide ValidPairing, PairingCost, Units, Distance, Plausible;
    if |exp| + |words| <= UNORDERED_OPTIMAL_MAX {
      PaddedIsBounded(exp, words, cost);
      ghost var low;
      assign, low := Assign(cost, Units(exp, words));
      OptimalAmongAll(exp, words, cost, assign);
    } else {
      assign := GreedyAssign(cost, |exp|, |words|);
    }
    PairingOfIsValid(exp, words, assign);
  }

  /**
   Order-free scoring. Fails with the first item that does not encode;
   otherwise reports a plausible pairing whose cost is the error total, and up
   to 128 items and words no plausible pairing is cheaper.
   */
  method AlignUnordered(expected: seq<string>, copied: string, opts: ScoreOptions)
    returns (r: Result<UnorderedAlignment, CodecError>)
    requires var items := ItemsOf(expected, opts);
             items.Ok? && |items.value| + |WordsOf(copied, opts)| <= UNORDERED_OPTIMAL_MAX ==>
               Units(items.value, WordsOf(copied, opts)) < INF
    ensures ItemsOf(expected, opts).Err? ==> r == Err(ItemsOf(expected, opts).error)
    ensures ItemsOf(expected, opts).Ok? ==> (
              var (exp, words) := (ItemsOf(expected, opts).value, WordsOf(copied, opts));
              && r.Ok? && Reports(exp, words, opts, r.value)
              && (|exp| + |words| <= UNORDERED_OPTIMAL_MAX ==>
                    forall q :: ValidPairing(exp, words, q) ==>
                      PairingCost(exp, words, r.value.matched) <= PairingCost(exp, words, q))
              && (|exp| + |words| > UNORDERED_OPTIMAL_MAX ==> IsGreedy(exp, words, r.value.matched)))
  {
    hide ItemsOf, WordsOf, ValidPairing, PairingCost, Units, IsGreedy, PairingOf, ErrorTotal, ItemAlignments, Extras;
    var items := ReadItems(expected, opts);
    if items.Err? {
      return Err(items.error);
    }
    var exp := items.value;
    var words := ReadWords(copied, opts);
    ItemsArePrepared(expected, opts);
    WordsAreWords(copied, opts);
    var cost, kept := BuildCost(exp, words, opts);
    var assign := Pair(exp, words, cost);
    var aligned, matched, used := AssembleItems(exp, words, opts, assign, kept);
    var extras := AssembleExtras(words, opts, used, matched);
    var texts := seq(|words|, j requires 0 <= j < |words| => TokensToText(words[j]));
    ReportedErrors(exp, words, matched, opts);
    r := Ok(UnorderedAlignment(aligned, matched, texts, extras));
  }

  // -------------------------------------------------------------------------
  // Totals
  // -------------------------------------------------------------------------

  function Plus(a: Score, b: Score): Score {
    Score(a.expected + b.expected, a.matches + b.matches, a.substitutions + b.substitutions,
          a.deletions + b.deletions, a.insertions + b.insertions)
  }

  function TotalOf(all: seq<Alignment>): Score {
    if all == [] then Score(0, 0, 0, 0, 0)
    else Plus(TotalOf(all[..|all| - 1]), Totals(|all[|all| - 1].expected|, all[|all| - 1].ops))
  }

  lemma {:induction false} TotalCountsErrors(all: seq<Alignment>)
    ensures var s := TotalOf(all); s.substitutions + s.deletions + s.insertions == ErrorTotal(all)
  {
    if all != [] {
      var k := |all| - 1;
      TotalCountsErrors(all[..k]);
      TotalsAddUp(|all[k].expected|, all[k].ops);
    }
  }

  lemma {:induction false} ErrorTotalOfConcat(a: seq<Alignment>, b: seq<Alignment>)
    ensures ErrorTotal(a + b) == ErrorTotal(a) + ErrorTotal(b)
    decreases |b|
  {
    if b == [] {
      assert a + b == a;
    } else {
      assert (a + b)[..|a + b| - 1] == a + b[..|b| - 1];
      ErrorTotalOfConcat(a, b[..|b| - 1]);
    }
  }

  /** The totals over every item and extra word: their S + D + I is the error total. */
  method UnorderedScore(r: UnorderedAlignment) returns (total: Score)
    ensures total == TotalOf(r.items + r.extras)
    ensures total.substitutions + total.deletions + total.insertions == ErrorTotal(r.items) + ErrorTotal(r.extras)
  {
    var all := r.items + r.extras;
    total := Score(0, 0, 0, 0, 0);
    for k := 0 to |all|
      invariant total == TotalOf(all[..k])
    {
      assert all[..k + 1][..k] == all[..k];
      var s := ScoreOf(all[k]);
      total := Plus(total, s);
    }
    assert all[..|all|] == all;
    TotalCountsErrors(all);
    ErrorTotalOfConcat(r.items, r.extras);
  }
}
