/**
 The seeded generator: its four-word state, which is never all zero, and the
 uniform integer drawn from it by rejection.
 */
module Rng {
  import opened Wrappers
  import opened Sums

  // -------------------------------------------------------------------------
  // The generator
  // -------------------------------------------------------------------------

  datatype State = State(a: bv64, b: bv64, c: bv64, d: bv64)

  const ZERO := State(0, 0, 0, 0)

  function Advance(s: State): State {
    State(s.a ^ (s.d ^ s.b), s.b ^ (s.c ^ s.a), (s.c ^ s.a) ^ (s.b << 17), (s.d ^ s.b).RotateLeft(45))
  }

  /** SplitMix64's finaliser. */
  function Mix(z: bv64): bv64 {
    var x := (z ^ (z >> 30)) * 0xBF58_476D_1CE4_E5B9;
    var y := (x ^ (x >> 27)) * 0x94D0_49BB_1331_11EB;
    y ^ (y >> 31)
  }

  const GAMMA: bv64 := 0x9E37_79B9_7F4A_7C15

  function Seeded(seed: bv64): State {
    State(Mix(seed + GAMMA), Mix(seed + GAMMA + GAMMA), Mix(seed + GAMMA + GAMMA + GAMMA),
          Mix(seed + GAMMA + GAMMA + GAMMA + GAMMA))
  }

  function After(s: State, n: nat): State {
    if n == 0 then s else Advance(After(s, n - 1))
  }

  /** The word a state gives. */
  function Output(s: State): bv64 {
    (s.b * 5).RotateLeft(7) * 9
  }

  lemma SeededFromZero()
    ensures Seeded(0) == State(0xE220_A839_7B1D_CDAF, 0x6E78_9E6A_A1B9_65F4, 0x06C4_5D18_8009_454F, 0xF88B_B8A8_724C_81EC)
  {
  }

  /** The words seed 0 gives: the first is the one pinned for all time, the next two follow from the state's steps. */
  lemma PinnedWords()
    ensures Output(Seeded(0)) == 0x99EC_5F36_CB75_F2B4
    ensures Output(After(Seeded(0), 1)) == 0xBF6E_1F78_4956_452A
    ensures Output(After(Seeded(0), 2)) == 0x1A5F_849D_4933_E6E0
  {
    hide Seeded, Mix;
    SeededFromZero();
    assert After(Seeded(0), 0) == Seeded(0);
    assert After(Seeded(0), 1) == Advance(Seeded(0));
    assert After(Seeded(0), 2) == Advance(Advance(Seeded(0)));
  }

  lemma XorIsZero(x: bv64, y: bv64)
    ensures x ^ y == 0 <==> x == y
  {
  }

  lemma ShiftedIsZero(x: bv64)
    ensures x == x << 17 ==> x == 0
    ensures x.RotateLeft(45) == 0 ==> x == 0
  {
  }

  /** Only the all-zero state leads to the all-zero state. */
  lemma ZeroOnlyFromZero(a: bv64, b: bv64, c: bv64, d: bv64)
    requires Advance(State(a, b, c, d)) == ZERO
    ensures a == 0 && b == 0 && c == 0 && d == 0
  {
    ShiftedIsZero(d ^ b);
    XorIsZero(d, b);
    XorIsZero(a, d ^ b);
    XorIsZero(b, c ^ a);
    XorIsZero(c ^ a, b << 17);
    ShiftedIsZero(b);
    XorIsZero(c, a);
  }

  lemma OddTimes(x: bv64)
    ensures x * 0xBF58_476D_1CE4_E5B9 == 0 ==> x == 0
    ensures x * 0x94D0_49BB_1331_11EB == 0 ==> x == 0
  {
    assert (x * 0xBF58_476D_1CE4_E5B9) * 0x96DE_1B17_3F11_9089 == x;
    assert (x * 0x94D0_49BB_1331_11EB) * 0x3196_42B2_D24D_8EC3 == x;
  }

  lemma ShiftXor(x: bv64)
    ensures x ^ (x >> 30) == 0 ==> x == 0
    ensures x ^ (x >> 27) == 0 ==> x == 0
    ensures x ^ (x >> 31) == 0 ==> x == 0
  {
  }

  lemma MixIsZeroOnlyAtZero(z: bv64)
    ensures Mix(z) == 0 ==> z == 0
  {
    var x := (z ^ (z >> 30)) * 0xBF58_476D_1CE4_E5B9;
    var y := (x ^ (x >> 27)) * 0x94D0_49BB_1331_11EB;
    ShiftXor(y);
    OddTimes(x ^ (x >> 27));
    ShiftXor(x);
    OddTimes(z ^ (z >> 30));
    ShiftXor(z);
  }

  /** From any seed, however many values are drawn, the state is never the one the generator cannot leave. */
  lemma {:induction false} NeverZero(seed: bv64, n: nat)
    ensures After(Seeded(seed), n) != ZERO
  {
    if n == 0 {
      MixIsZeroOnlyAtZero(seed + GAMMA);
      MixIsZeroOnlyAtZero(seed + GAMMA + GAMMA);
    } else {
      NeverZero(seed, n - 1);
      if After(Seeded(seed), n) == ZERO {
        var s := After(Seeded(seed), n - 1);
        ZeroOnlyFromZero(s.a, s.b, s.c, s.d);
      }
    }
  }

  // -------------------------------------------------------------------------
  // A uniform integer by rejection
  // -------------------------------------------------------------------------

  const WORD: nat := 0x1_0000_0000

  /** Whether a draw is kept: its product's low part is not in the short leftover. */
  predicate Accepted(x: nat, span: nat, word: nat)
    requires 0 < span && 0 < word
  {
    x * span % word >= word % span
  }

  function Pick(x: nat, span: nat, word: nat): nat
    requires 0 < word
  {
    x * span / word
  }

  /** The draws below `word` that are kept and give `v`. */
  ghost function DrawsFor(v: nat, span: nat, word: nat): set<nat>
    requires 0 < span && 0 < word
  {
    set x | x in Below(word) && Accepted(x, span, word) && Pick(x, span, word) == v
  }

  function CeilDiv(a: nat, s: nat): nat
    requires 0 < s
  {
    (a + s - 1) / s
  }

  lemma CeilDivMeans(a: nat, s: nat, x: nat)
    requires 0 < s
    ensures CeilDiv(a, s) <= x <==> a <= x * s
  {
    var q := CeilDiv(a, s);
    assert q * s <= a + s - 1 < q * s + s by {
      assert a + s - 1 == s * ((a + s - 1) / s) + (a + s - 1) % s;
    }
    if q <= x {
      MulMonotone(q, x, s);
    } else {
      MulMonotone(x, q - 1, s);
      assert (q - 1) * s == q * s - s;
    }
  }

  lemma CeilDivShifts(a: nat, s: nat, q: nat)
    requires 0 < s
    ensures CeilDiv(a + q * s, s) == CeilDiv(a, s) + q
  {
    var (c, d) := (CeilDiv(a, s), CeilDiv(a + q * s, s));
    CeilDivMeans(a, s, c);
    CeilDivMeans(a + q * s, s, c + q);
    assert (c + q) * s == c * s + q * s;
    assert d <= c + q;
    CeilDivMeans(a + q * s, s, d);
    assert (d - q) * s == d * s - q * s && (d + 1) * s == d * s + s;
    if d >= q {
      CeilDivMeans(a, s, d - q);
    } else {
      MulMonotone(d + 1, q, s);
    }
  }

  /** Kept draws for `v` are those whose product lands in `v`'s window past the leftover. */
  lemma DrawWindow(x: nat, v: nat, span: nat, word: nat)
    requires 0 < span < word
    ensures Accepted(x, span, word) && Pick(x, span, word) == v <==>
              v * word + word % span <= x * span < (v + 1) * word
  {
    var p := x * span;
    assert p == word * (p / word) + p % word;
    assert (v + 1) * word == v * word + word;
    if v * word <= p < (v + 1) * word {
      QuotientIs(p, word, v);
    }
    if p / word == v {
      assert word * v == v * word;
    }
  }

  lemma QuotientIs(p: nat, word: nat, v: nat)
    requires 0 < word && v * word <= p < v * word + word
    ensures p / word == v
  {
    var q := p / word;
    assert p == word * q + p % word;
    assert (q + 1) * word == q * word + word && (v + 1) * word == v * word + word;
    if q < v {
      MulMonotone(q + 1, v, word);
    } else if q > v {
      MulMonotone(v + 1, q, word);
    }
  }

  ghost function Interval(lo: nat, hi: nat): (s: set<nat>)
    requires lo <= hi
    ensures forall x: nat :: x in s <==> lo <= x < hi
    ensures |s| == hi - lo
    decreases hi - lo
  {
    if lo == hi then {} else Interval(lo, hi - 1) + {hi - 1}
  }

  lemma DrawIsBetween(x: nat, v: nat, span: nat, word: nat, from: nat, to: nat)
    requires 0 < span < word && from == v * word + word % span && to == (v + 1) * word
    ensures Accepted(x, span, word) && Pick(x, span, word) == v <==> CeilDiv(from, span) <= x < CeilDiv(to, span)
  {
    hide Accepted, Pick, CeilDiv;
    DrawWindow(x, v, span, word);
    CeilDivMeans(from, span, x);
    CeilDivMeans(to, span, x);
  }

  lemma DrawsAreConsecutive(v: nat, span: nat, word: nat, from: nat, to: nat)
    requires 0 < span < word && from == v * word + word % span && to == (v + 1) * word
    requires CeilDiv(from, span) <= CeilDiv(to, span) <= word
    ensures DrawsFor(v, span, word) == Interval(CeilDiv(from, span), CeilDiv(to, span))
  {
    hide Accepted, Pick, CeilDiv;
    var (lo, hi, draws) := (CeilDiv(from, span), CeilDiv(to, span), DrawsFor(v, span, word));
    forall x: nat ensures x in draws <==> x in Interval(lo, hi) {
      DrawIsBetween(x, v, span, word, from, to);
    }
  }

  lemma WindowLength(v: nat, span: nat, word: nat)
    requires 0 < span
    ensures (v + 1) * word == v * word + word % span + (word / span) * span
  {
    assert word == span * (word / span) + word % span;
  }

  /** Every value in the span is given by exactly the same number of kept draws. */
  lemma UniformDraws(v: nat, span: nat, word: nat)
    requires 0 < span < word && v < span
    ensures |DrawsFor(v, span, word)| == word / span
  {
    hide CeilDiv, DrawsFor;
    var from := v * word + word % span;
    WindowLength(v, span, word);
    CeilDivShifts(from, span, word / span);
    MulMonotone(v + 1, span, word);
    CeilDivMeans((v + 1) * word, span, word);
    DrawsAreConsecutive(v, span, word, from, (v + 1) * word);
  }

  /** A kept draw always gives a value in the span. */
  lemma PickInSpan(x: nat, span: nat, word: nat)
    requires 0 < span && x < word
    ensures Pick(x, span, word) < span
  {
    var p := x * span;
    assert p == word * (p / word) + p % word;
    MulMonotone(x + 1, word, span);
    assert (x + 1) * span == p + span;
    if p / word >= span {
      MulMonotone(span, p / word, word);
    }
  }

  /** The 32-bit draw a 64-bit word gives: its high half. */
  function High(word: nat): nat {
    word / WORD
  }

  function Least(lo: nat, hi: nat): nat {
    if hi < lo then hi else lo
  }

  function Most(lo: nat, hi: nat): nat {
    if hi < lo then lo else hi
  }

  /** The size of the inclusive range. */
  function SpanOf(lo: nat, hi: nat): (r: nat)
    ensures r > 0
  {
    Most(lo, hi) - Least(lo, hi) + 1
  }

  /**
   A value in `lo..=hi` from a stream of 64-bit words: the first word kept gives
   it, and there is none only if the stream ends with every word rejected.
   */
  method RangeU32(words: seq<nat>, lo: nat, hi: nat) returns (r: Option<nat>, used: nat)
    requires lo < WORD && hi < WORD
    requires forall k :: 0 <= k < |words| ==> words[k] < WORD * WORD
    ensures r.Some? ==> Least(lo, hi) <= r.value <= Most(lo, hi)
    ensures SpanOf(lo, hi) < WORD ==>
              && used <= |words|
              && (forall k :: 0 <= k < used - 1 ==> !Accepted(High(words[k]), SpanOf(lo, hi), WORD))
              && (r.None? ==> used == |words| && (used > 0 ==> !Accepted(High(words[used - 1]), SpanOf(lo, hi), WORD)))
              && (r.Some? ==> used > 0 && Accepted(High(words[used - 1]), SpanOf(lo, hi), WORD) &&
                              r.value == Least(lo, hi) + Pick(High(words[used - 1]), SpanOf(lo, hi), WORD))
    ensures SpanOf(lo, hi) == WORD ==> r == if words == [] then None else Some(words[0] % WORD)
  {
    used := 0;
    var least, span := Least(lo, hi), SpanOf(lo, hi);
    if span > 0xFFFF_FFFF {
      if words == [] {
        return None, 0;
      }
      return Some(words[0] % WORD), 1;
    }
    var threshold := WORD % span;
    while used < |words|
      invariant used <= |words|
      invariant forall k :: 0 <= k < used ==> !Accepted(High(words[k]), span, WORD)
    {
      var x := words[used] / WORD;
      HighHalf(words[used]);
      var m := x * span;
      used := used + 1;
      if m % WORD >= threshold {
        PickInSpan(x, span, WORD);
        return Some(least + m / WORD), used;
      }
    }
    return None, used;
  }

  lemma HighHalf(w: nat)
    requires w < WORD * WORD
    ensures High(w) < WORD
  {
  }

  /** Over all 2^32 draws each value of the range is given equally often, so the kept draws are exactly uniform. */
  lemma RangeIsUniform(lo: nat, hi: nat, value: nat)
    requires SpanOf(lo, hi) < WORD && Least(lo, hi) <= value <= Most(lo, hi)
    ensures |DrawsFor(value - Least(lo, hi), SpanOf(lo, hi), WORD)| == WORD / SpanOf(lo, hi)
  {
    UniformDraws(value - Least(lo, hi), SpanOf(lo, hi), WORD);
  }
}
