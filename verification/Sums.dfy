/** Finite sums and permutations, as the scoring modules use them. */
module Sums {

  function Sum(s: seq<int>): int {
    if s == [] then 0 else Sum(s[..|s| - 1]) + s[|s| - 1]
  }

  /** `p` is a permutation of `0 .. |p|-1`. */
  ghost predicate IsPermutation(p: seq<nat>) {
    && (forall i :: 0 <= i < |p| ==> p[i] < |p|)
    && (forall i, j :: 0 <= i < j < |p| ==> p[i] != p[j])
  }

  /** `f` read in the order `p` gives. */
  ghost function Gather(f: seq<int>, p: seq<nat>): (g: seq<int>)
    requires forall i :: 0 <= i < |p| ==> p[i] < |f|
    ensures |g| == |p| && forall i :: 0 <= i < |p| ==> g[i] == f[p[i]]
  {
    seq(|p|, i requires 0 <= i < |p| => f[p[i]])
  }

  lemma {:induction false} SumOfConcat(a: seq<int>, b: seq<int>)
    ensures Sum(a + b) == Sum(a) + Sum(b)
    decreases |b|
  {
    if b == [] {
      assert a + b == a;
    } else {
      SumOfConcat(a, b[..|b| - 1]);
      assert (a + b)[..|a + b| - 1] == a + b[..|b| - 1];
    }
  }

  lemma {:induction false} SumOfUpdate(s: seq<int>, k: nat, x: int)
    requires k < |s|
    ensures Sum(s[k := x]) == Sum(s) - s[k] + x
  {
    var n := |s| - 1;
    if k < n {
      SumOfUpdate(s[..n], k, x);
      assert s[k := x][..n] == s[..n][k := x];
    } else {
      assert s[k := x][..n] == s[..n];
    }
  }

  lemma {:induction false} SumOfPointwise(a: seq<int>, b: seq<int>, c: seq<int>)
    requires |a| == |b| == |c|
    requires forall i :: 0 <= i < |a| ==> c[i] == a[i] + b[i]
    ensures Sum(c) == Sum(a) + Sum(b)
  {
    if a != [] {
      var n := |a| - 1;
      SumOfPointwise(a[..n], b[..n], c[..n]);
    }
  }

  lemma {:induction false} SumMonotone(a: seq<int>, b: seq<int>)
    requires |a| == |b|
    requires forall i :: 0 <= i < |a| ==> a[i] <= b[i]
    ensures Sum(a) <= Sum(b)
  {
    if a != [] {
      var n := |a| - 1;
      SumMonotone(a[..n], b[..n]);
    }
  }

  lemma {:induction false} SumOfZeros(s: seq<int>)
    requires forall i :: 0 <= i < |s| ==> s[i] == 0
    ensures Sum(s) == 0
  {
    if s != [] {
      SumOfZeros(s[..|s| - 1]);
    }
  }

  ghost function Below(n: nat): (s: set<nat>)
    ensures forall x: nat :: x in s <==> x < n
  {
    if n == 0 then {} else Below(n - 1) + {n - 1}
  }

  ghost function Values(p: seq<nat>): set<nat> {
    set x | x in p
  }

  lemma {:induction false} SizeOfBelow(n: nat)
    ensures |Below(n)| == n
  {
    if n > 0 {
      SizeOfBelow(n - 1);
    }
  }

  /** A set of numbers below `n` with `n` members is all of them. */
  lemma FullSubset(s: set<nat>, n: nat)
    requires s <= Below(n) && |s| >= n
    ensures s == Below(n)
  {
    SizeOfBelow(n);
    assert |Below(n) - s| == |Below(n)| - |s|;
  }

  lemma {:induction false} SizeOfInjectiveImage(p: seq<nat>)
    requires forall i, j :: 0 <= i < j < |p| ==> p[i] != p[j]
    ensures |Values(p)| == |p|
  {
    if p != [] {
      var n := |p| - 1;
      SizeOfInjectiveImage(p[..n]);
      assert Values(p) == Values(p[..n]) + {p[n]};
    }
  }

  /** A permutation reaches every value. */
  lemma PermutationReaches(p: seq<nat>, x: nat) returns (k: nat)
    requires IsPermutation(p) && x < |p|
    ensures k < |p| && p[k] == x
  {
    SizeOfInjectiveImage(p);
    FullSubset(Values(p), |p|);
    assert x in Values(p);
    k :| 0 <= k < |p| && p[k] == x;
  }

  /** Reading a sequence in permuted order does not change its sum. */
  lemma {:induction false} SumOfPermuted(f: seq<int>, p: seq<nat>)
    requires |f| == |p| && IsPermutation(p)
    ensures Sum(Gather(f, p)) == Sum(f)
    decreases |p|
  {
    hide Sum;
    if p == [] {
      assert Gather(f, p) == f;
    } else {
      var n := |p| - 1;
      var k := PermutationReaches(p, n);
      var g := Gather(f, p);
      var q := p[k := p[n]][..n];
      forall i, j | 0 <= i < j < n ensures q[i] != q[j] {}
      SumOfPermuted(f[..n], q);
      var swapped := g[k := g[n]];
      assert swapped[..n] == Gather(f[..n], q);
      SumOfUpdate(g, k, g[n]);
      SumOfPrefix(swapped, n);
      SumOfPrefix(f, n);
      assert swapped[..n + 1] == swapped && f[..n + 1] == f;
    }
  }

  lemma MulMonotone(a: int, b: int, c: int)
    requires a <= b && 0 <= c
    ensures a * c <= b * c
  {
  }

  lemma SumOfPrefix(s: seq<int>, i: nat)
    requires i < |s|
    ensures Sum(s[..i + 1]) == Sum(s[..i]) + s[i]
  {
    assert s[..i + 1][..i] == s[..i];
  }

  lemma {:induction false} PartOfSum(s: seq<int>, k: nat)
    requires k < |s| && forall i :: 0 <= i < |s| ==> s[i] >= 0
    ensures 0 <= s[k] <= Sum(s)
  {
    var n := |s| - 1;
    if k < n {
      PartOfSum(s[..n], k);
    } else {
      SumMonotone(seq(n, _ => 0), s[..n]);
      SumOfZeros(seq(n, _ => 0));
    }
  }
}
