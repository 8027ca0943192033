/**
 Keying: the state of a Morse key over time, kept as a run-length list of
 key-down and key-up stretches. Durations are whole nanoseconds.
 */
module Keying {
  datatype Segment = Segment(keyDown: bool, duration: nat)

  function Total(s: seq<Segment>): nat {
    if s == [] then 0 else Total(s[..|s| - 1]) + s[|s| - 1].duration
  }

  /** The signal the list stands for: whether the key is down at an instant; after the end it is up. */
  predicate DownAt(s: seq<Segment>, t: nat) {
    if s == [] then false
    else if t < Total(s[..|s| - 1]) then DownAt(s[..|s| - 1], t)
    else t < Total(s) && s[|s| - 1].keyDown
  }

  /** No stretch is empty, and neighbours differ in state. */
  ghost predicate Canonical(s: seq<Segment>) {
    && (forall i :: 0 <= i < |s| ==> s[i].duration > 0)
    && (forall i :: 0 < i < |s| ==> s[i - 1].keyDown != s[i].keyDown)
  }

  predicate EndsDown(s: seq<Segment>) {
    s == [] || s[|s| - 1].keyDown
  }

  ghost predicate SameSignal(a: seq<Segment>, b: seq<Segment>) {
    forall t: nat :: DownAt(a, t) == DownAt(b, t)
  }

  lemma AtEnd(front: seq<Segment>, last: Segment)
    ensures Total(front + [last]) == Total(front) + last.duration
    ensures forall t: nat :: DownAt(front + [last], t) ==
                             if t < Total(front) then DownAt(front, t) else t < Total(front) + last.duration && last.keyDown
  {
    assert (front + [last])[..|front|] == front;
  }

  lemma UpAfterEnd(s: seq<Segment>)
    ensures forall t: nat :: t >= Total(s) ==> !DownAt(s, t)
  {
  }

  // -------------------------------------------------------------------------
  // The list is the signal's only canonical form
  // -------------------------------------------------------------------------

  /** The last stretch starts no later in one list than in the other. */
  lemma LastStartsNoLater(a: seq<Segment>, b: seq<Segment>)
    requires Canonical(a) && Canonical(b) && a != [] && b != []
    requires SameSignal(a, b) && a[|a| - 1].keyDown == b[|b| - 1].keyDown && Total(a) == Total(b)
    ensures Total(b[..|b| - 1]) <= Total(a[..|a| - 1])
  {
    var front := b[..|b| - 1];
    var start, start' := Total(a[..|a| - 1]), Total(front);
    if start < start' {
      assert front[|front| - 1].keyDown != b[|b| - 1].keyDown;
      assert front == front[..|front| - 1] + [front[|front| - 1]];
      AtEnd(front[..|front| - 1], front[|front| - 1]);
      SameAt(a, b, start' - 1);
    }
  }

  lemma LastState(s: seq<Segment>)
    requires Canonical(s) && s != []
    ensures Total(s) > 0 && DownAt(s, Total(s) - 1) == s[|s| - 1].keyDown
  {
  }

  lemma FrontCanonical(s: seq<Segment>)
    requires Canonical(s) && s != []
    ensures Canonical(s[..|s| - 1])
  {
    var front := s[..|s| - 1];
    forall i | 0 < i < |front| ensures front[i - 1].keyDown != front[i].keyDown {
      assert s[i - 1].keyDown != s[i].keyDown;
    }
  }

  lemma FrontsAgree(a: seq<Segment>, b: seq<Segment>)
    requires a != [] && b != [] && SameSignal(a, b) && Total(a[..|a| - 1]) == Total(b[..|b| - 1])
    ensures SameSignal(a[..|a| - 1], b[..|b| - 1])
  {
    var front, front' := a[..|a| - 1], b[..|b| - 1];
    UpAfterEnd(front);
    UpAfterEnd(front');
    forall t: nat ensures DownAt(front, t) == DownAt(front', t) {
      assert DownAt(a, t) == DownAt(b, t);
    }
  }

  /** Two canonical lists of the same length in time that key the same signal are the same list. */
  lemma {:induction false} CanonicalIsUnique(a: seq<Segment>, b: seq<Segment>)
    requires Canonical(a) && Canonical(b) && SameSignal(a, b) && Total(a) == Total(b)
    ensures a == b
  {
    hide Total, DownAt, SameSignal, Canonical;
    if a == [] || b == [] {
      EmptyIsZero(a);
      EmptyIsZero(b);
    } else {
      var front, front' := a[..|a| - 1], b[..|b| - 1];
      LastState(a);
      LastState(b);
      SameAt(a, b, Total(a) - 1);
      LastStartsNoLater(a, b);
      SameSignalBack(a, b);
      LastStartsNoLater(b, a);
      FrontCanonical(a);
      FrontCanonical(b);
      FrontsAgree(a, b);
      CanonicalIsUnique(front, front');
      assert a == front + [a[|a| - 1]] && b == front' + [b[|b| - 1]];
      AtEnd(front, a[|a| - 1]);
      AtEnd(front', b[|b| - 1]);
    }
  }

  lemma EmptyIsZero(s: seq<Segment>)
    requires Canonical(s)
    ensures Total(s) == 0 <==> s == []
  {
  }

  lemma SameAt(a: seq<Segment>, b: seq<Segment>, t: nat)
    requires SameSignal(a, b)
    ensures DownAt(a, t) == DownAt(b, t)
  {
  }

  lemma SameSignalBack(a: seq<Segment>, b: seq<Segment>)
    requires SameSignal(a, b)
    ensures SameSignal(b, a)
  {
  }

  /** Lists without trailing key-up are determined by the signal alone. */
  lemma SignalDetermines(a: seq<Segment>, b: seq<Segment>)
    requires Canonical(a) && Canonical(b) && EndsDown(a) && EndsDown(b) && SameSignal(a, b)
    ensures a == b
  {
    NoLongerThan(a, b);
    NoLongerThan(b, a);
    CanonicalIsUnique(a, b);
  }

  lemma NoLongerThan(a: seq<Segment>, b: seq<Segment>)
    requires Canonical(a) && EndsDown(a) && SameSignal(a, b)
    ensures Total(a) <= Total(b)
  {
    if a != [] {
      LastState(a);
      UpAfterEnd(b);
      SameAt(a, b, Total(a) - 1);
    }
  }

  // -------------------------------------------------------------------------
  // Building
  // -------------------------------------------------------------------------

  /** A list grown by one stretch: a zero one is nothing, a like one lengthens the last. */
  function Pushed(s: seq<Segment>, keyDown: bool, duration: nat): seq<Segment> {
    if duration == 0 then s
    else if s != [] && s[|s| - 1].keyDown == keyDown
    then s[|s| - 1 := Segment(keyDown, s[|s| - 1].duration + duration)]
    else s + [Segment(keyDown, duration)]
  }

  lemma PushedCanonical(s: seq<Segment>, keyDown: bool, duration: nat)
    requires Canonical(s)
    ensures Canonical(Pushed(s, keyDown, duration))
  {
  }

  /** Lengthening the last stretch appends to the signal. */
  lemma Lengthened(front: seq<Segment>, last: Segment, duration: nat)
    ensures var longer := Segment(last.keyDown, last.duration + duration);
            && Total(front + [longer]) == Total(front + [last]) + duration
            && forall t: nat :: DownAt(front + [longer], t) ==
                                if t < Total(front + [last]) then DownAt(front + [last], t)
                                else t < Total(front + [last]) + duration && last.keyDown
  {
    hide DownAt, Total;
    AtEnd(front, last);
    AtEnd(front, Segment(last.keyDown, last.duration + duration));
  }

  /** Pushing appends the stretch to the signal. */
  lemma PushedMeans(s: seq<Segment>, keyDown: bool, duration: nat)
    ensures Total(Pushed(s, keyDown, duration)) == Total(s) + duration
    ensures forall t: nat :: DownAt(Pushed(s, keyDown, duration), t) ==
                             if t < Total(s) then DownAt(s, t) else t < Total(s) + duration && keyDown
  {
    hide DownAt, Total;
    if duration == 0 {
      UpAfterEnd(s);
    } else if s != [] && s[|s| - 1].keyDown == keyDown {
      var front := s[..|s| - 1];
      var last := s[|s| - 1];
      Lengthened(front, last, duration);
      assert s == front + [last];
      assert Pushed(s, keyDown, duration) == front + [Segment(keyDown, last.duration + duration)];
    } else {
      AtEnd(s, Segment(keyDown, duration));
    }
  }

  /** `out` is what `s` keys before `max`: the same signal up to there, silence after, nothing trailing. */
  ghost predicate IsTruncation(s: seq<Segment>, max: nat, out: seq<Segment>) {
    && Canonical(out) && EndsDown(out)
    && forall t: nat :: DownAt(out, t) == (t < max && DownAt(s, t))
  }

  /** Only one list is the truncation. */
  lemma TruncationIsUnique(s: seq<Segment>, max: nat, a: seq<Segment>, b: seq<Segment>)
    requires IsTruncation(s, max, a) && IsTruncation(s, max, b)
    ensures a == b
  {
    hide Canonical;
    assert SameSignal(a, b);
    SignalDetermines(a, b);
  }

  /** Truncating twice is truncating once at the earlier instant. */
  lemma TruncatedTwice(s: seq<Segment>, early: nat, late: nat, a: seq<Segment>, b: seq<Segment>, c: seq<Segment>)
    requires IsTruncation(s, late, a) && IsTruncation(a, early, b)
    requires IsTruncation(s, if early < late then early else late, c)
    ensures b == c
  {
    hide Canonical;
    assert SameSignal(b, c);
    SignalDetermines(b, c);
  }

  /** Truncating past the end changes nothing but a trailing key-up. */
  lemma TruncatedPastEnd(s: seq<Segment>, max: nat, out: seq<Segment>)
    requires IsTruncation(s, max, out) && Canonical(s) && Total(s) <= max
    ensures out == s <==> EndsDown(s)
  {
    hide Canonical;
    UpAfterEnd(s);
    if EndsDown(s) {
      assert SameSignal(out, s);
      SignalDetermines(out, s);
    }
  }

  /** What has been kept of the stretches seen so far. */
  ghost predicate KeptBefore(out: seq<Segment>, done: seq<Segment>, max: nat) {
    && Canonical(out) && Total(out) == (if Total(done) < max then Total(done) else max)
    && forall t: nat :: DownAt(out, t) == (t < max && DownAt(done, t))
  }

  lemma KeepOne(out: seq<Segment>, done: seq<Segment>, next: Segment, max: nat)
    requires KeptBefore(out, done, max) && Total(done) < max
    ensures var left := max - Total(done);
            KeptBefore(Pushed(out, next.keyDown, if next.duration < left then next.duration else left), done + [next], max)
  {
    hide Canonical, DownAt, Pushed;
    var left := max - Total(done);
    PushedCanonical(out, next.keyDown, if next.duration < left then next.duration else left);
    PushedMeans(out, next.keyDown, if next.duration < left then next.duration else left);
    AtEnd(done, next);
  }

  /** Stretches from `i` on key nothing before the ones in front of them end. */
  lemma {:induction false} LaterOnly(s: seq<Segment>, i: nat)
    requires i <= |s|
    ensures Total(s[..i]) <= Total(s)
    ensures forall t: nat :: t < Total(s[..i]) ==> DownAt(s, t) == DownAt(s[..i], t)
  {
    if i < |s| {
      var front := s[..|s| - 1];
      LaterOnly(front, i);
      assert front[..i] == s[..i];
    } else {
      assert s[..i] == s;
    }
  }

  lemma DropTrailingUp(out: seq<Segment>)
    requires Canonical(out) && out != [] && !out[|out| - 1].keyDown
    ensures Canonical(out[..|out| - 1]) && EndsDown(out[..|out| - 1]) && SameSignal(out, out[..|out| - 1])
  {
    FrontCanonical(out);
    UpAfterEnd(out[..|out| - 1]);
    if |out| > 1 {
      assert out[(|out| - 1) - 1].keyDown != out[|out| - 1].keyDown;
    }
  }

  /** What the loop has kept when it stops at `max` is all there is before `max`. */
  lemma KeptIsAll(out: seq<Segment>, s: seq<Segment>, i: nat, max: nat)
    requires i <= |s| && KeptBefore(out, s[..i], max) && (i == |s| || Total(s[..i]) >= max)
    ensures forall t: nat :: DownAt(out, t) == (t < max && DownAt(s, t))
  {
    hide Canonical;
    LaterOnly(s, i);
    assert i == |s| ==> s[..i] == s;
  }

  class Keying {
    var segments: seq<Segment>

    ghost predicate Valid()
      reads this
    {
      Canonical(segments)
    }

    constructor ()
      ensures Valid() && segments == []
    {
      segments := [];
    }

    method Push(keyDown: bool, duration: nat)
      requires Valid()
      modifies this
      ensures Valid() && segments == Pushed(old(segments), keyDown, duration)
    {
      PushedCanonical(segments, keyDown, duration);
      if duration == 0 {
        return;
      }
      if segments != [] && segments[|segments| - 1].keyDown == keyDown {
        var last := segments[|segments| - 1];
        segments := segments[|segments| - 1 := Segment(keyDown, last.duration + duration)];
      } else {
        segments := segments + [Segment(keyDown, duration)];
      }
    }

    method Truncated(max: nat) returns (out: Keying)
      ensures fresh(out) && IsTruncation(segments, max, out.segments)
    {
      hide Canonical, DownAt, Pushed, KeptBefore, Total;
      out := new Keying();
      var t := 0;
      var i := 0;
      NothingKept(segments[..0], max);
      while i < |segments|
        invariant 0 <= i <= |segments| && fresh(out) && out.Valid()
        invariant t == Total(segments[..i]) && KeptBefore(out.segments, segments[..i], max)
      {
        if t >= max {
          break;
        }
        var s := segments[i];
        var d := if s.duration < max - t then s.duration else max - t;
        KeepOne(out.segments, segments[..i], s, max);
        assert segments[..i] + [s] == segments[..i + 1];
        AtEnd(segments[..i], s);
        out.Push(s.keyDown, d);
        t := t + s.duration;
        i := i + 1;
      }
      KeptIsAll(out.segments, segments, i, max);
      if out.segments != [] && !out.segments[|out.segments| - 1].keyDown {
        DropTrailingUp(out.segments);
        out.segments := out.segments[..|out.segments| - 1];
      }
    }

    method Append(other: Keying, gap: nat)
      requires Valid() && other != this
      modifies this
      ensures Valid() && Total(segments) == old(Total(segments)) + gap + Total(other.segments)
      ensures forall t: nat :: DownAt(segments, t) == AppendedAt(old(segments), gap, other.segments, t)
    {
      hide Canonical, DownAt, Pushed;
      ghost var was := segments;
      Push(false, gap);
      var i := 0;
      GapThenNothing(was, gap, segments, other.segments[..0]);
      while i < |other.segments|
        invariant 0 <= i <= |other.segments| && Valid() && other.segments == old(other.segments)
        invariant AppendedSoFar(was, gap, other.segments[..i], segments)
      {
        var s := other.segments[i];
        AppendOne(was, gap, other.segments[..i], s, segments);
        assert other.segments[..i] + [s] == other.segments[..i + 1];
        Push(s.keyDown, s.duration);
        i := i + 1;
      }
      assert other.segments[..i] == other.segments;
    }
  }

  lemma NothingKept(done: seq<Segment>, max: nat)
    requires done == []
    ensures Total(done) == 0 && KeptBefore([], done, max)
  {
  }

  /** The original, then the gap, then the other shifted in time. */
  predicate AppendedAt(s: seq<Segment>, gap: nat, other: seq<Segment>, t: nat) {
    if t < Total(s) then DownAt(s, t)
    else if t < Total(s) + gap then false
    else DownAt(other, t - Total(s) - gap)
  }

  ghost predicate AppendedSoFar(s: seq<Segment>, gap: nat, other: seq<Segment>, out: seq<Segment>) {
    && Total(out) == Total(s) + gap + Total(other)
    && forall t: nat :: DownAt(out, t) == AppendedAt(s, gap, other, t)
  }

  lemma GapThenNothing(s: seq<Segment>, gap: nat, out: seq<Segment>, nothing: seq<Segment>)
    requires out == Pushed(s, false, gap) && nothing == []
    ensures AppendedSoFar(s, gap, nothing, out)
  {
    hide Pushed;
    PushedMeans(s, false, gap);
  }

  lemma AppendOne(s: seq<Segment>, gap: nat, other: seq<Segment>, next: Segment, out: seq<Segment>)
    requires AppendedSoFar(s, gap, other, out)
    ensures AppendedSoFar(s, gap, other + [next], Pushed(out, next.keyDown, next.duration))
  {
    hide Pushed, DownAt, Canonical;
    PushedMeans(out, next.keyDown, next.duration);
    AtEnd(other, next);
  }
}
