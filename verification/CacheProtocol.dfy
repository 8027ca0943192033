/**
 Every interleaving of one poller with any number of connections on the shared
 cache, as a state machine whose log records what happened and when.
 */
module CacheProtocol {
  import opened Wrappers
  import opened RadioCache

  /** What a step leaves in the log. Indices point at earlier entries. */
  datatype Event =
    | PollBegan
    | PollStamped
    | ReadFrequency(hz: nat)
    | ReadMode(mode: nat)
    | ReadFlags(split: bool, transmitting: bool)
    | Filed(begun: nat, stamped: nat, freqAt: nat, modeAt: nat, flagsAt: nat)
    | PollDropped
    | Wrote(conn: nat, change: Change)
    | PatchedCache(change: Change, wroteAt: nat)
    | Skipped(wanted: nat)
    | ServedFrequency(served: nat)
    | ServedMode(servedId: nat)
    | ServedSplit(servedSplit: bool)
    | WentToWire

  datatype Entry = Entry(event: Event, at: nat)

  type Log = seq<Entry>

  /** How far the poller has got; reads are log indices. */
  datatype Poll =
    | Idle
    | Polling(generation: nat, begun: nat, stamped: Option<nat>, freqAt: Option<nat>, modeAt: Option<nat>, flagsAt: Option<nat>)

  /** A set that passed its freshness check: not yet on the wire, or written and not yet patched. */
  datatype Pending = Writing(change: Change) | Written(change: Change, wroteAt: nat)

  datatype World = World(now: nat, radio: RadioState, cache: Cache, poll: Poll, pending: map<nat, Pending>, log: Log)

  datatype Action =
    | Tick(ms: nat)
    | PanelMove(radio: RadioState)
    | PollSnapshot
    | PollStamp
    | PollFrequency
    | PollMode
    | PollFlags
    | PollPublish
    | PollFail
    | BeginSet(conn: nat, change: Change)
    | WireWrite(conn: nat, taken: bool)
    | WireFail(conn: nat)
    | FinishSet(conn: nat)
    | GetFrequency
    | GetMode(modes: map<nat, nat>)
    | GetSplit

  function Start(radio: RadioState): World {
    World(0, radio, Cache(None, None, false, 0), Idle, map[], [])
  }

  function Noted(w: World, e: Event): World {
    w.(log := w.log + [Entry(e, w.now)])
  }

  /** The reading a finished poll carries: each field as it stood when it was read. */
  function Reading(log: Log, p: Poll): Option<RadioState> {
    if p.Polling? && p.freqAt.Some? && p.modeAt.Some? && p.flagsAt.Some? &&
       p.freqAt.value < |log| && p.modeAt.value < |log| && p.flagsAt.value < |log| &&
       log[p.freqAt.value].event.ReadFrequency? && log[p.modeAt.value].event.ReadMode? &&
       log[p.flagsAt.value].event.ReadFlags?
    then
      var flags := log[p.flagsAt.value].event;
      Some(RadioState(log[p.freqAt.value].event.hz, log[p.modeAt.value].event.mode, flags.split, flags.transmitting))
    else None
  }

  /** One step. An action that is not possible now changes nothing. */
  function Step(w: World, a: Action): World {
    match a
    case Tick(ms) => w.(now := w.now + ms)
    case PanelMove(radio) => w.(radio := radio)
    case PollSnapshot =>
      if w.poll.Idle?
      then Noted(w, PollBegan).(poll := Polling(w.cache.generation, |w.log|, None, None, None, None))
      else w
    case PollStamp =>
      if w.poll.Polling? && w.poll.stamped.None?
      then Noted(w, PollStamped).(poll := w.poll.(stamped := Some(|w.log|)))
      else w
    case PollFrequency =>
      if w.poll.Polling? && w.poll.stamped.Some? && w.poll.freqAt.None?
      then Noted(w, ReadFrequency(w.radio.vfoAHz)).(poll := w.poll.(freqAt := Some(|w.log|)))
      else w
    case PollMode =>
      if w.poll.Polling? && w.poll.stamped.Some? && w.poll.modeAt.None?
      then Noted(w, ReadMode(w.radio.mode)).(poll := w.poll.(modeAt := Some(|w.log|)))
      else w
    case PollFlags =>
      if w.poll.Polling? && w.poll.stamped.Some? && w.poll.flagsAt.None?
      then Noted(w, ReadFlags(w.radio.split, w.radio.transmitting)).(poll := w.poll.(flagsAt := Some(|w.log|)))
      else w
    case PollPublish =>
      var reading := Reading(w.log, w.poll);
      if reading.None? || w.poll.stamped.None? || w.poll.stamped.value >= |w.log| then w
      else
        var cache := Published(w.cache, reading, w.log[w.poll.stamped.value].at, w.poll.generation);
        var filed := w.cache.generation == w.poll.generation;
        var e := if filed
                 then Filed(w.poll.begun, w.poll.stamped.value, w.poll.freqAt.value, w.poll.modeAt.value, w.poll.flagsAt.value)
                 else PollDropped;
        Noted(w, e).(cache := cache, poll := Idle)
    case PollFail =>
      if w.poll.Polling? then Noted(w, PollDropped).(poll := Idle) else w
    case BeginSet(conn, change) =>
      if conn in w.pending then w
      else if change.SetFrequency? && MaySkip(w.cache, w.now, change.hz) then Noted(w, Skipped(change.hz))
      else w.(pending := w.pending[conn := Writing(change)])
    case WireWrite(conn, taken) =>
      if conn in w.pending && w.pending[conn].Writing? then
        var change := w.pending[conn].change;
        Noted(w, Wrote(conn, change)).(
          radio := if taken then Apply(change, w.radio) else w.radio,
          pending := w.pending[conn := Written(change, |w.log|)])
      else w
    case WireFail(conn) =>
      if conn in w.pending && w.pending[conn].Writing? then w.(pending := w.pending - {conn}) else w
    case FinishSet(conn) =>
      if conn in w.pending && w.pending[conn].Written? then
        Noted(w, PatchedCache(w.pending[conn].change, w.pending[conn].wroteAt)).(
          cache := Patched(w.cache, w.pending[conn].change),
          pending := w.pending - {conn})
      else w
    case GetFrequency =>
      var s := Recent(w.cache, w.now, MAX_READ_AGE);
      Noted(w, if s.Some? then ServedFrequency(s.value.vfoAHz) else WentToWire)
    case GetMode(modes) =>
      var s := Measured(w.cache, w.now, MAX_READ_AGE);
      Noted(w, if s.Some? && s.value.mode in modes then ServedMode(s.value.mode) else WentToWire)
    case GetSplit =>
      var s := Recent(w.cache, w.now, MAX_READ_AGE);
      Noted(w, if s.Some? then ServedSplit(s.value.split) else WentToWire)
  }

  function Run(radio: RadioState, actions: seq<Action>): World {
    if actions == [] then Start(radio)
    else Step(Run(radio, actions[..|actions| - 1]), actions[|actions| - 1])
  }

  // -------------------------------------------------------------------------
  // What a log says
  // -------------------------------------------------------------------------

  function Patches(log: Log): nat {
    if log == [] then 0
    else Patches(log[..|log| - 1]) + if log[|log| - 1].event.PatchedCache? then 1 else 0
  }

  /** No patch at or after `from`. */
  ghost predicate Quiet(log: Log, from: nat) {
    forall k :: from <= k < |log| ==> !log[k].event.PatchedCache?
  }

  /** Entry `q` files a poll: stamped after it began, read after that, and overtaken by no patch. */
  ghost predicate WellFiled(log: Log, q: int) {
    && 0 <= q < |log| && log[q].event.Filed?
    && var f := log[q].event;
       && f.begun < f.stamped < q && log[f.begun].event.PollBegan? && log[f.stamped].event.PollStamped?
       && f.stamped < f.freqAt < q && log[f.freqAt].event.ReadFrequency?
       && f.stamped < f.modeAt < q && log[f.modeAt].event.ReadMode?
       && f.stamped < f.flagsAt < q && log[f.flagsAt].event.ReadFlags?
       && Quiet(log[..q], f.begun)
  }

  /** The last filing in `log`. */
  function LastFiling(log: Log): (r: Option<nat>)
    ensures r.Some? ==> r.value < |log| && log[r.value].event.Filed?
    ensures forall k :: 0 <= k < |log| && log[k].event.Filed? ==> r.Some? && k <= r.value
  {
    if log == [] then None
    else if log[|log| - 1].event.Filed? then Some(|log| - 1)
    else LastFiling(log[..|log| - 1])
  }

  /** The frequency the cache holds after `log`, its last filing being `q`: the last patched one since, or the one read. */
  function FrequencySince(log: Log, q: nat): nat
    requires q < |log|
  {
    var e := log[|log| - 1].event;
    if |log| - 1 == q then if e.Filed? && e.freqAt < |log| && log[e.freqAt].event.ReadFrequency? then log[e.freqAt].event.hz else 0
    else if e.PatchedCache? && e.change.SetFrequency? then e.change.hz
    else FrequencySince(log[..|log| - 1], q)
  }

  function SplitSince(log: Log, q: nat): bool
    requires q < |log|
  {
    var e := log[|log| - 1].event;
    if |log| - 1 == q then e.Filed? && e.flagsAt < |log| && log[e.flagsAt].event.ReadFlags? && log[e.flagsAt].event.split
    else if e.PatchedCache? && e.change.SetSplit? then e.change.on
    else SplitSince(log[..|log| - 1], q)
  }

  function TransmittingSince(log: Log, q: nat): bool
    requires q < |log|
  {
    var e := log[|log| - 1].event;
    if |log| - 1 == q then e.Filed? && e.flagsAt < |log| && log[e.flagsAt].event.ReadFlags? && log[e.flagsAt].event.transmitting
    else if e.PatchedCache? && e.change.SetTransmitting? then e.change.tx
    else TransmittingSince(log[..|log| - 1], q)
  }

  /** The reading filed at `q` is at most `age` old at time `at`, counted from when the radio was asked. */
  ghost predicate Young(log: Log, q: nat, at: nat, age: nat)
    requires WellFiled(log, q)
  {
    at <= log[log[q].event.stamped].at + age
  }

  /** The poll filed at `q` began after every patch in `log`. */
  ghost predicate AfterEveryPatch(log: Log, q: nat)
    requires WellFiled(log, q)
  {
    Quiet(log, log[q].event.begun)
  }

  /** What an answer from the cache is entitled to say, given the log before it. */
  ghost predicate Honest(before: Log, e: Entry) {
    var last := LastFiling(before);
    match e.event
    case Skipped(hz) =>
      && last.Some? && WellFiled(before, last.value) && AfterEveryPatch(before, last.value)
      && Young(before, last.value, e.at, FRESH_ENOUGH_TO_SKIP)
      && before[before[last.value].event.freqAt].event == ReadFrequency(hz)
    case ServedFrequency(hz) =>
      && last.Some? && WellFiled(before, last.value) && Young(before, last.value, e.at, MAX_READ_AGE)
      && hz == FrequencySince(before, last.value)
    case ServedMode(mode) =>
      && last.Some? && WellFiled(before, last.value) && AfterEveryPatch(before, last.value)
      && Young(before, last.value, e.at, MAX_READ_AGE)
      && before[before[last.value].event.modeAt].event == ReadMode(mode)
    case ServedSplit(on) =>
      && last.Some? && WellFiled(before, last.value) && Young(before, last.value, e.at, MAX_READ_AGE)
      && on == SplitSince(before, last.value)
    case PatchedCache(change, wroteAt) =>
      wroteAt < |before| && before[wroteAt].event.Wrote? && before[wroteAt].event.change == change
    case _ => true
  }

  // -------------------------------------------------------------------------
  // The invariant
  // -------------------------------------------------------------------------

  ghost predicate LogInv(log: Log, now: nat) {
    && (forall i, j :: 0 <= i < j < |log| ==> log[i].at <= log[j].at)
    && (forall i :: 0 <= i < |log| ==> log[i].at <= now)
    && (forall q :: 0 <= q < |log| && log[q].event.Filed? ==> WellFiled(log, q))
    && (forall r :: 0 <= r < |log| ==> Honest(log[..r], log[r]))
  }

  ghost predicate PollInv(log: Log, p: Poll) {
    p.Polling? ==>
      && p.begun < |log| && log[p.begun].event.PollBegan? && p.generation == Patches(log[..p.begun])
      && (p.stamped.Some? ==> p.begun < p.stamped.value < |log| && log[p.stamped.value].event.PollStamped?)
      && (p.stamped.None? ==> p.freqAt.None? && p.modeAt.None? && p.flagsAt.None?)
      && (p.freqAt.Some? ==> p.stamped.value < p.freqAt.value < |log| && log[p.freqAt.value].event.ReadFrequency?)
      && (p.modeAt.Some? ==> p.stamped.value < p.modeAt.value < |log| && log[p.modeAt.value].event.ReadMode?)
      && (p.flagsAt.Some? ==> p.stamped.value < p.flagsAt.value < |log| && log[p.flagsAt.value].event.ReadFlags?)
  }

  ghost predicate PendingInv(log: Log, pending: map<nat, Pending>) {
    forall conn :: conn in pending && pending[conn].Written? ==>
      pending[conn].wroteAt < |log| && log[pending[conn].wroteAt].event == Wrote(conn, pending[conn].change)
  }

  /** The cache holds its last filing, corrected by the patches since, and knows whether there were any. */
  ghost predicate CacheInv(log: Log, c: Cache) {
    && c.generation == Patches(log)
    && match LastFiling(log)
       case None => c.state.None? && c.taken.None?
       case Some(q) =>
         && WellFiled(log, q)
         && c.state.Some? && c.taken == Some(log[log[q].event.stamped].at)
         && c.state.value.vfoAHz == FrequencySince(log, q)
         && log[log[q].event.modeAt].event == ReadMode(c.state.value.mode)
         && c.state.value.split == SplitSince(log, q) && c.state.value.transmitting == TransmittingSince(log, q)
         && (c.assumed <==> !AfterEveryPatch(log, q))
  }

  ghost predicate Inv(w: World) {
    LogInv(w.log, w.now) && PollInv(w.log, w.poll) && PendingInv(w.log, w.pending) && CacheInv(w.log, w.cache)
  }

  // -------------------------------------------------------------------------
  // Appending an entry
  // -------------------------------------------------------------------------

  lemma WellFiledStays(log: Log, e: Entry, q: nat)
    requires WellFiled(log, q)
    ensures WellFiled(log + [e], q)
  {
    assert (log + [e])[..q] == log[..q];
  }

  lemma {:induction false} PatchesSince(log: Log, from: nat)
    requires from <= |log|
    ensures Patches(log[..from]) <= Patches(log)
    ensures Patches(log[..from]) == Patches(log) <==> Quiet(log, from)
  {
    if from == |log| {
      assert log[..from] == log;
    } else {
      var k := |log| - 1;
      PatchesSince(log[..k], from);
      assert log[..k][..from] == log[..from];
      assert Quiet(log, from) <==> Quiet(log[..k], from) && !log[k].event.PatchedCache?;
    }
  }

  lemma LogGrows(log: Log, now: nat, e: Entry)
    requires LogInv(log, now) && e.at == now && Honest(log, e)
    requires e.event.Filed? ==> WellFiled(log + [e], |log|)
    ensures LogInv(log + [e], now)
  {
    hide Honest, WellFiled;
    var l := log + [e];
    forall q | 0 <= q < |l| && l[q].event.Filed? ensures WellFiled(l, q) {
      if q < |log| {
        WellFiledStays(log, e, q);
      }
    }
    forall r | 0 <= r < |l| ensures Honest(l[..r], l[r]) {
      assert r < |log| ==> l[..r] == log[..r];
      assert l[..|log|] == log;
    }
  }

  lemma PollStays(log: Log, p: Poll, e: Entry)
    requires PollInv(log, p)
    ensures PollInv(log + [e], p)
  {
    if p.Polling? {
      assert (log + [e])[..p.begun] == log[..p.begun];
    }
  }

  /** An entry that neither files nor patches leaves what the cache may hold alone. */
  lemma CacheStays(log: Log, c: Cache, e: Entry)
    requires CacheInv(log, c) && !e.event.Filed? && !e.event.PatchedCache?
    ensures CacheInv(log + [e], c)
  {
    var l := log + [e];
    assert l[..|log|] == log;
    if LastFiling(log).Some? {
      var q := LastFiling(log).value;
      WellFiledStays(log, e, q);
      assert Quiet(l, log[q].event.begun) <==> Quiet(log, log[q].event.begun);
    }
  }

  lemma CacheAfterPatch(log: Log, c: Cache, e: Entry)
    requires CacheInv(log, c) && e.event.PatchedCache?
    ensures CacheInv(log + [e], Patched(c, e.event.change))
  {
    var l := log + [e];
    assert l[..|log|] == log;
    if LastFiling(log).Some? {
      var q := LastFiling(log).value;
      WellFiledStays(log, e, q);
      assert l[|log|].event.PatchedCache?;
    }
  }

  /** Noting an event that the log before it entitles to keeps the invariant. */
  lemma NoteKeepsInv(w: World, e: Event)
    requires Inv(w) && Honest(w.log, Entry(e, w.now)) && !e.Filed? && !e.PatchedCache?
    ensures Inv(Noted(w, e))
  {
    hide LogInv, PollInv, CacheInv, Honest;
    LogGrows(w.log, w.now, Entry(e, w.now));
    PollStays(w.log, w.poll, Entry(e, w.now));
    CacheStays(w.log, w.cache, Entry(e, w.now));
  }

  lemma TimePasses(w: World, ms: nat)
    requires Inv(w)
    ensures Inv(w.(now := w.now + ms))
  {
    hide PollInv, CacheInv, PendingInv, Honest, WellFiled;
  }

  lemma PollStepKeepsInv(w: World, a: Action)
    requires Inv(w)
    requires a in {PollSnapshot, PollStamp, PollFrequency, PollMode, PollFlags, PollFail}
    ensures Inv(Step(w, a))
  {
    hide LogInv, CacheInv, PendingInv;
    var e := match a
      case PollSnapshot => PollBegan
      case PollStamp => PollStamped
      case PollFrequency => ReadFrequency(w.radio.vfoAHz)
      case PollMode => ReadMode(w.radio.mode)
      case PollFlags => ReadFlags(w.radio.split, w.radio.transmitting)
      case _ => PollDropped;
    NoteKeepsInv(w, e);
    assert (w.log + [Entry(e, w.now)])[..|w.log|] == w.log;
    GenerationCounts(w);
  }

  lemma GenerationCounts(w: World)
    requires Inv(w)
    ensures w.cache.generation == Patches(w.log)
  {
  }

  function FilingOf(p: Poll): Event
    requires p.Polling? && p.stamped.Some? && p.freqAt.Some? && p.modeAt.Some? && p.flagsAt.Some?
  {
    Filed(p.begun, p.stamped.value, p.freqAt.value, p.modeAt.value, p.flagsAt.value)
  }

  lemma FilingIsWell(log: Log, p: Poll, now: nat)
    requires PollInv(log, p) && Reading(log, p).Some? && p.stamped.Some? && Quiet(log, p.begun)
    ensures WellFiled(log + [Entry(FilingOf(p), now)], |log|)
  {
    assert (log + [Entry(FilingOf(p), now)])[..|log|] == log;
  }

  lemma FiledCache(log: Log, c: Cache, p: Poll, now: nat)
    requires CacheInv(log, c) && PollInv(log, p) && Reading(log, p).Some? && p.stamped.Some?
    requires c.generation == p.generation && Quiet(log, p.begun)
    ensures CacheInv(log + [Entry(FilingOf(p), now)], Published(c, Reading(log, p), log[p.stamped.value].at, p.generation))
  {
    var l := log + [Entry(FilingOf(p), now)];
    assert l[..|log|] == log;
    FilingIsWell(log, p, now);
    assert Quiet(l, p.begun);
  }

  lemma FilingKeepsInv(w: World)
    requires Inv(w) && Reading(w.log, w.poll).Some? && w.poll.stamped.Some? && w.poll.stamped.value < |w.log|
    requires w.cache.generation == w.poll.generation && Quiet(w.log, w.poll.begun)
    ensures Inv(Step(w, PollPublish))
  {
    hide LogInv, CacheInv, WellFiled;
    FilingIsWell(w.log, w.poll, w.now);
    LogGrows(w.log, w.now, Entry(FilingOf(w.poll), w.now));
    FiledCache(w.log, w.cache, w.poll, w.now);
  }

  /** A poll is filed exactly when no patch came after its snapshot. */
  lemma PublishKeepsInv(w: World)
    requires Inv(w)
    ensures Inv(Step(w, PollPublish))
  {
    hide LogInv, CacheInv, PendingInv, Quiet;
    var w' := Step(w, PollPublish);
    if w' != w {
      PatchesSince(w.log, w.poll.begun);
      GenerationCounts(w);
      if w.cache.generation == w.poll.generation {
        FilingKeepsInv(w);
      } else {
        NoteKeepsInv(w, PollDropped);
      }
    }
  }

  lemma FinishKeepsInv(w: World, conn: nat)
    requires Inv(w)
    ensures Inv(Step(w, FinishSet(conn)))
  {
    hide LogInv, PollInv, CacheInv;
    if conn in w.pending && w.pending[conn].Written? {
      var e := Entry(PatchedCache(w.pending[conn].change, w.pending[conn].wroteAt), w.now);
      LogGrows(w.log, w.now, e);
      PollStays(w.log, w.poll, e);
      CacheAfterPatch(w.log, w.cache, e);
    }
  }

  lemma WriteKeepsInv(w: World, conn: nat, taken: bool)
    requires Inv(w)
    ensures Inv(Step(w, WireWrite(conn, taken)))
  {
    hide LogInv, PollInv, CacheInv;
    if conn in w.pending && w.pending[conn].Writing? {
      NoteKeepsInv(w, Wrote(conn, w.pending[conn].change));
    }
  }

  /** With no patch since the poll began, the cached frequency is the one the poll read. */
  lemma {:induction false} QuietFrequency(log: Log, q: nat)
    requires q < |log| && WellFiled(log, q) && Quiet(log, q)
    ensures log[log[q].event.freqAt].event == ReadFrequency(FrequencySince(log, q))
    decreases |log|
  {
    var k := |log| - 1;
    if q < k {
      assert log[..k][..q] == log[..q];
      QuietFrequency(log[..k], q);
    }
  }

  /** And so are the flags. */
  lemma {:induction false} QuietFlags(log: Log, q: nat)
    requires q < |log| && WellFiled(log, q) && Quiet(log, q)
    ensures log[log[q].event.flagsAt].event == ReadFlags(SplitSince(log, q), TransmittingSince(log, q))
    decreases |log|
  {
    var k := |log| - 1;
    if q < k {
      assert log[..k][..q] == log[..q];
      QuietFlags(log[..k], q);
    }
  }

  lemma SkipIsHonest(w: World, hz: nat)
    requires Inv(w) && MaySkip(w.cache, w.now, hz)
    ensures Honest(w.log, Entry(Skipped(hz), w.now))
  {
    var q := LastFiling(w.log).value;
    QuietFrequency(w.log, q);
  }

  /** What a read notes. */
  function Answer(w: World, a: Action): Event {
    var last := if a.GetMode? then Measured(w.cache, w.now, MAX_READ_AGE) else Recent(w.cache, w.now, MAX_READ_AGE);
    if last.None? || (a.GetMode? && last.value.mode !in a.modes) then WentToWire
    else if a.GetFrequency? then ServedFrequency(last.value.vfoAHz)
    else if a.GetMode? then ServedMode(last.value.mode)
    else ServedSplit(last.value.split)
  }

  lemma AnswerIsHonest(w: World, a: Action)
    requires CacheInv(w.log, w.cache)
    ensures Honest(w.log, Entry(Answer(w, a), w.now))
  {
    hide WellFiled, FrequencySince, SplitSince, TransmittingSince, Quiet;
  }

  lemma GetKeepsInv(w: World, a: Action)
    requires Inv(w) && (a.GetFrequency? || a.GetMode? || a.GetSplit?)
    ensures Inv(Step(w, a))
  {
    hide LogInv, PollInv, PendingInv, CacheInv, Honest;
    AnswerIsHonest(w, a);
    NoteKeepsInv(w, Answer(w, a));
  }

  /** Every step keeps the invariant. */
  lemma StepKeepsInv(w: World, a: Action)
    requires Inv(w)
    ensures Inv(Step(w, a))
  {
    hide LogInv, PollInv, CacheInv, Honest;
    match a
    case Tick(ms) => TimePasses(w, ms);
    case PanelMove(_) =>
    case PollPublish => PublishKeepsInv(w);
    case BeginSet(conn, change) =>
      if conn !in w.pending && change.SetFrequency? && MaySkip(w.cache, w.now, change.hz) {
        SkipIsHonest(w, change.hz);
        NoteKeepsInv(w, Skipped(change.hz));
      }
    case WireWrite(conn, taken) => WriteKeepsInv(w, conn, taken);
    case WireFail(_) =>
    case FinishSet(conn) => FinishKeepsInv(w, conn);
    case GetFrequency => GetKeepsInv(w, a);
    case GetMode(_) => GetKeepsInv(w, a);
    case GetSplit => GetKeepsInv(w, a);
    case _ => PollStepKeepsInv(w, a);
  }

  lemma {:induction false} RunKeepsInv(radio: RadioState, actions: seq<Action>)
    ensures Inv(Run(radio, actions))
  {
    hide Step;
    if actions == [] {
      assert Start(radio).log == [];
    } else {
      RunKeepsInv(radio, actions[..|actions| - 1]);
      StepKeepsInv(Run(radio, actions[..|actions| - 1]), actions[|actions| - 1]);
    }
  }

  // -------------------------------------------------------------------------
  // What holds in every run
  // -------------------------------------------------------------------------

  /** Entry `k` of a run's log is a patch, and the wire write it stands for is earlier. */
  ghost predicate PatchAt(log: Log, k: int) {
    0 <= k < |log| && log[k].event.PatchedCache?
  }

  /**
   No poll overwrites a patch it did not see: the poll behind any filing began
   after every patch before it, and so after the wire write behind each.
   */
  lemma FilingFollowsPatches(radio: RadioState, actions: seq<Action>, q: nat, k: nat)
    requires var log := Run(radio, actions).log; q < |log| && log[q].event.Filed? && k < q && PatchAt(log, k)
    ensures var log := Run(radio, actions).log;
            && WellFiled(log, q)
            && log[k].event.wroteAt < k < log[q].event.begun
            && log[log[k].event.wroteAt].event.Wrote?
            && log[log[k].event.wroteAt].event.change == log[k].event.change
  {
    hide Run;
    RunKeepsInv(radio, actions);
    var log := Run(radio, actions).log;
    assert WellFiled(log, q);
    assert Honest(log[..k], log[k]);
    assert log[..q][k] == log[k];
  }

  /**
   While nothing is assumed, the cached reading was taken, field by field, by a
   poll that began after every patch and after every patched set's wire write.
   */
  lemma UnassumedIsMeasured(radio: RadioState, actions: seq<Action>)
    requires var c := Run(radio, actions).cache; c.state.Some? && !c.assumed
    ensures var (log, c) := (Run(radio, actions).log, Run(radio, actions).cache);
            exists q :: WellFiled(log, q) && c.taken == Some(log[log[q].event.stamped].at) &&
              log[log[q].event.freqAt].event == ReadFrequency(c.state.value.vfoAHz) &&
              log[log[q].event.modeAt].event == ReadMode(c.state.value.mode) &&
              log[log[q].event.flagsAt].event == ReadFlags(c.state.value.split, c.state.value.transmitting) &&
              forall k :: PatchAt(log, k) ==> log[k].event.wroteAt < k < log[q].event.begun
  {
    hide Run;
    RunKeepsInv(radio, actions);
    var (log, c) := (Run(radio, actions).log, Run(radio, actions).cache);
    var q := LastFiling(log).value;
    QuietFrequency(log, q);
    QuietFlags(log, q);
    forall k | PatchAt(log, k) ensures log[k].event.wroteAt < k < log[q].event.begun {
      assert Honest(log[..k], log[k]);
    }
  }

  lemma ServedEntryIsHonest(radio: RadioState, actions: seq<Action>, r: nat)
    requires r < |Run(radio, actions).log|
    ensures var log := Run(radio, actions).log;
            && Honest(log[..r], log[r])
            && (forall q :: 0 <= q < r && log[q].event.Filed? ==> WellFiled(log[..r], q))
            && (forall i :: 0 <= i < r ==> log[i].at <= log[r].at)
            && (forall i, j :: 0 <= i < j < r ==> log[i].at <= log[j].at)
  {
    hide Run, Honest;
    RunKeepsInv(radio, actions);
    var log := Run(radio, actions).log;
    forall q | 0 <= q < r && log[q].event.Filed? ensures WellFiled(log[..r], q) {
      assert WellFiled(log, q);
      assert log[..r][..q] == log[..q];
    }
  }

  /** The poll filed at `q` began after every patch before entry `r`. */
  ghost predicate SawEveryPatch(log: Log, q: nat, r: nat)
    requires q < r <= |log| && log[q].event.Filed?
  {
    forall k :: PatchAt(log, k) && k < r ==> k < log[q].event.begun
  }

  /**
   A frequency set is skipped only when a poll that began after every earlier
   patch read that very frequency within the freshness window.
   */
  lemma SkipIsJustified(radio: RadioState, actions: seq<Action>, r: nat)
    requires var log := Run(radio, actions).log; r < |log| && log[r].event.Skipped?
    ensures var log := Run(radio, actions).log;
            exists q :: 0 <= q < r && WellFiled(log[..r], q) && SawEveryPatch(log, q, r) &&
              log[log[q].event.freqAt].event == ReadFrequency(log[r].event.wanted) &&
              log[r].at - FRESH_ENOUGH_TO_SKIP <= log[log[q].event.stamped].at <= log[log[q].event.freqAt].at <= log[r].at
  {
    hide Run;
    var log := Run(radio, actions).log;
    ServedEntryIsHonest(radio, actions, r);
    var q := LastFiling(log[..r]).value;
    assert Quiet(log[..r], log[q].event.begun);
    forall k | PatchAt(log, k) && k < r ensures k < log[q].event.begun {
      assert log[..r][k] == log[k];
    }
  }

  /**
   After any set's patch, a mode served from the cache was read by a poll that
   began after the patch.
   */
  lemma ModeFollowsPatches(radio: RadioState, actions: seq<Action>, r: nat)
    requires var log := Run(radio, actions).log; r < |log| && log[r].event.ServedMode?
    ensures var log := Run(radio, actions).log;
            exists q :: 0 <= q < r && WellFiled(log[..r], q) && SawEveryPatch(log, q, r) &&
              log[log[q].event.modeAt].event == ReadMode(log[r].event.servedId) &&
              log[r].at - MAX_READ_AGE <= log[log[q].event.stamped].at
  {
    hide Run;
    var log := Run(radio, actions).log;
    ServedEntryIsHonest(radio, actions, r);
    var q := LastFiling(log[..r]).value;
    assert Quiet(log[..r], log[q].event.begun);
    forall k | PatchAt(log, k) && k < r ensures k < log[q].event.begun {
      assert log[..r][k] == log[k];
    }
  }

  ghost predicate FrequencyPatch(log: Log, k: int) {
    PatchAt(log, k) && log[k].event.change.SetFrequency?
  }

  lemma {:induction false} LastPatchWins(log: Log, q: nat, k: nat)
    requires q < k < |log| && FrequencyPatch(log, k) && forall j :: k < j < |log| ==> !FrequencyPatch(log, j)
    ensures FrequencySince(log, q) == log[k].event.change.hz
  {
    var n := |log| - 1;
    if k < n {
      assert !FrequencyPatch(log, n);
      forall j | k < j < n ensures !FrequencyPatch(log[..n], j) {
        assert !FrequencyPatch(log, j);
      }
      LastPatchWins(log[..n], q, k);
    }
  }

  /**
   A set that was written and patched is what the cache serves, until another
   frequency patch or the filing of a poll that began after it.
   */
  lemma SetIsServed(radio: RadioState, actions: seq<Action>, k: nat, r: nat)
    requires var log := Run(radio, actions).log;
             && k < r < |log| && FrequencyPatch(log, k) && log[r].event.ServedFrequency?
             && (forall j :: k < j < r ==> !FrequencyPatch(log, j))
             && (forall q :: k < q < r && log[q].event.Filed? ==> log[q].event.begun < k)
    ensures var log := Run(radio, actions).log; log[r].event.served == log[k].event.change.hz
  {
    hide Run;
    var log := Run(radio, actions).log;
    ServedEntryIsHonest(radio, actions, r);
    var q := LastFiling(log[..r]).value;
    if k < q {
      FilingFollowsPatches(radio, actions, q, k);
      assert false;
    }
    forall j | k < j < r ensures !FrequencyPatch(log[..r], j) {
      assert !FrequencyPatch(log, j);
    }
    LastPatchWins(log[..r], q, k);
  }

  /** A frequency is served only from a poll begun within the read window. */
  lemma ServedIsRecent(radio: RadioState, actions: seq<Action>, r: nat)
    requires var log := Run(radio, actions).log; r < |log| && log[r].event.ServedFrequency?
    ensures var log := Run(radio, actions).log;
            exists q :: 0 <= q < r && WellFiled(log[..r], q) && log[r].at - MAX_READ_AGE <= log[log[q].event.stamped].at
  {
    hide Run;
    ServedEntryIsHonest(radio, actions, r);
    var q := LastFiling(Run(radio, actions).log[..r]).value;
  }

  // -------------------------------------------------------------------------
  // When the cache answers
  // -------------------------------------------------------------------------

  /** The last reading filed was asked for at most `age` before `now`. */
  ghost predicate Fresh(log: Log, now: nat, age: nat) {
    var last := LastFiling(log);
    last.Some? && WellFiled(log, last.value) && Young(log, last.value, now, age)
  }

  /** And no patch came since its poll began. */
  ghost predicate FreshAndUnpatched(log: Log, now: nat, age: nat) {
    Fresh(log, now, age) && AfterEveryPatch(log, LastFiling(log).value)
  }

  lemma RecentExactly(log: Log, c: Cache, now: nat, age: nat)
    requires CacheInv(log, c)
    ensures Recent(c, now, age).Some? <==> Fresh(log, now, age)
    ensures Measured(c, now, age).Some? <==> FreshAndUnpatched(log, now, age)
    ensures Recent(c, now, age).Some? ==> Recent(c, now, age) == c.state
    ensures Measured(c, now, age).Some? ==> Measured(c, now, age) == c.state
  {
    hide Quiet, FrequencySince, SplitSince, TransmittingSince;
  }

  /**
   A frequency or split read is answered from the cache exactly when the last
   reading filed was asked for within twelve seconds; otherwise it goes to the
   wire.
   */
  lemma ReadsExactly(radio: RadioState, actions: seq<Action>)
    ensures var w := Run(radio, actions);
            Step(w, GetFrequency).log == w.log + [Entry(
              if Fresh(w.log, w.now, 12_000) then ServedFrequency(FrequencySince(w.log, LastFiling(w.log).value))
              else WentToWire, w.now)]
    ensures var w := Run(radio, actions);
            Step(w, GetSplit).log == w.log + [Entry(
              if Fresh(w.log, w.now, 12_000) then ServedSplit(SplitSince(w.log, LastFiling(w.log).value))
              else WentToWire, w.now)]
  {
    hide Run, Fresh, Recent, Measured, FrequencySince, SplitSince, TransmittingSince;
    var w := Run(radio, actions);
    RunKeepsInv(radio, actions);
    RecentExactly(w.log, w.cache, w.now, 12_000);
    FreshMeans(w.log, w.now, 12_000);
  }

  lemma FreshMeans(log: Log, now: nat, age: nat)
    ensures Fresh(log, now, age) ==> LastFiling(log).Some? && WellFiled(log, LastFiling(log).value)
  {
  }

  /** A mode read, the same, if also no patch came since the reading's poll began and its mode has a name. */
  lemma ModeReadsExactly(radio: RadioState, actions: seq<Action>, modes: map<nat, nat>)
    ensures var w := Run(radio, actions);
            var last := LastFiling(w.log);
            Step(w, GetMode(modes)).log == w.log + [Entry(
              if FreshAndUnpatched(w.log, w.now, 12_000) && w.log[w.log[last.value].event.modeAt].event.mode in modes
              then ServedMode(w.log[w.log[last.value].event.modeAt].event.mode)
              else WentToWire, w.now)]
  {
    hide Run, Recent, Measured, FrequencySince, SplitSince, TransmittingSince;
    var w := Run(radio, actions);
    RunKeepsInv(radio, actions);
    RecentExactly(w.log, w.cache, w.now, 12_000);
  }

  /**
   A frequency set is skipped exactly when the last reading filed was asked for
   within 600 ms, no patch came since its poll began, and it read that very
   frequency; otherwise it goes on to the wire.
   */
  lemma SkipsExactly(radio: RadioState, actions: seq<Action>, conn: nat, hz: nat)
    requires conn !in Run(radio, actions).pending
    ensures var w := Run(radio, actions);
            var w' := Step(w, BeginSet(conn, SetFrequency(hz)));
            if FreshAndUnpatched(w.log, w.now, 600) &&
               w.log[w.log[LastFiling(w.log).value].event.freqAt].event == ReadFrequency(hz)
            then w' == Noted(w, Skipped(hz))
            else w' == w.(pending := w.pending[conn := Writing(SetFrequency(hz))])
  {
    hide Run, Recent, Measured, FrequencySince, SplitSince, TransmittingSince;
    var w := Run(radio, actions);
    RunKeepsInv(radio, actions);
    RecentExactly(w.log, w.cache, w.now, 600);
    if FreshAndUnpatched(w.log, w.now, 600) {
      QuietFrequency(w.log, LastFiling(w.log).value);
    }
  }

  /** A finished poll is filed exactly when no patch came since it began, and then it is what the cache holds. */
  lemma FilesExactly(radio: RadioState, actions: seq<Action>)
    requires var p := Run(radio, actions).poll;
             p.Polling? && p.stamped.Some? && p.freqAt.Some? && p.modeAt.Some? && p.flagsAt.Some?
    ensures var w := Run(radio, actions);
            var w' := Step(w, PollPublish);
            && w'.poll.Idle?
            && if Quiet(w.log, w.poll.begun)
               then w'.log == w.log + [Entry(FilingOf(w.poll), w.now)] && !w'.cache.assumed
               else w'.log == w.log + [Entry(PollDropped, w.now)] && w'.cache == w.cache
  {
    hide Run;
    var w := Run(radio, actions);
    RunKeepsInv(radio, actions);
    PatchesSince(w.log, w.poll.begun);
    GenerationCounts(w);
  }
}
