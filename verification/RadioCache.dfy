/**
 The cached radio reading: filed by one poller that needs several exchanges to
 read the radio, patched by any number of connections after their wire writes,
 and read by connections that want to avoid the wire.
 */
module RadioCache {
  import opened Wrappers

  /** How old, in milliseconds, a measurement may be and still justify skipping a write. */
  const FRESH_ENOUGH_TO_SKIP: nat := 600
  /** How old the cache may be and still answer a read. */
  const MAX_READ_AGE: nat := 12_000

  datatype RadioState = RadioState(vfoAHz: nat, mode: nat, split: bool, transmitting: bool)

  /** The cache as a value: the reading, when the radio was asked, whether a set was assumed, and the patch count. */
  datatype Cache = Cache(state: Option<RadioState>, taken: Option<nat>, assumed: bool, generation: nat)

  /** What a set does to the cached reading once the radio accepted it. */
  datatype Change = SetFrequency(hz: nat) | InvalidateMode | SetSplit(on: bool) | SetTransmitting(tx: bool)

  function Apply(change: Change, s: RadioState): RadioState {
    match change
    case SetFrequency(hz) => s.(vfoAHz := hz)
    case InvalidateMode => s
    case SetSplit(on) => s.(split := on)
    case SetTransmitting(tx) => s.(transmitting := tx)
  }

  // -------------------------------------------------------------------------
  // The operations on the cache
  // -------------------------------------------------------------------------

  /** Files a reading, unless it failed or a patch overtook it. */
  function Published(c: Cache, state: Option<RadioState>, takenAt: nat, generation: nat): Cache {
    if state.None? || c.generation != generation then c
    else c.(state := state, taken := Some(takenAt), assumed := false)
  }

  function Patched(c: Cache, change: Change): Cache {
    Cache(if c.state.Some? then Some(Apply(change, c.state.value)) else None, c.taken, true, c.generation + 1)
  }

  function Recent(c: Cache, now: nat, maxAge: nat): Option<RadioState> {
    if c.taken.Some? && now <= c.taken.value + maxAge then c.state else None
  }

  function Measured(c: Cache, now: nat, maxAge: nat): Option<RadioState> {
    if c.assumed then None else Recent(c, now, maxAge)
  }

  /** Whether a frequency set may be answered without writing. */
  predicate MaySkip(c: Cache, now: nat, hz: nat) {
    var measured := Measured(c, now, FRESH_ENOUGH_TO_SKIP);
    measured.Some? && measured.value.vfoAHz == hz
  }

  /** The shared cache the threads lock, one operation at a time. */
  class NativeShared {
    var state: Option<RadioState>
    var taken: Option<nat>
    var assumed: bool
    var generation: nat

    function Value(): Cache
      reads this
    {
      Cache(state, taken, assumed, generation)
    }

    constructor ()
      ensures Value() == Cache(None, None, false, 0)
    {
      state, taken, assumed, generation := None, None, false, 0;
    }

    method PublishState(reading: Option<RadioState>, takenAt: nat, quoted: nat)
      modifies this
      ensures Value() == Published(old(Value()), reading, takenAt, quoted)
    {
      if reading.None? {
        return;
      }
      if generation != quoted {
        return;
      }
      state := reading;
      taken := Some(takenAt);
      assumed := false;
    }

    method PatchState(change: Change)
      modifies this
      ensures Value() == Patched(old(Value()), change)
    {
      generation := generation + 1;
      assumed := true;
      if state.Some? {
        state := Some(Apply(change, state.value));
      }
    }

    method RecentState(now: nat, maxAge: nat) returns (r: Option<RadioState>)
      ensures r == Recent(Value(), now, maxAge)
    {
      match taken {
        case Some(t) => r := if now - t <= maxAge then state else None;
        case None => r := None;
      }
    }

    method MeasuredState(now: nat, maxAge: nat) returns (r: Option<RadioState>)
      ensures r == Measured(Value(), now, maxAge)
    {
      if assumed {
        return None;
      }
      r := RecentState(now, maxAge);
    }
  }

  /**
   A radio that answers reads from the cache; each method is one side of an
   await on the wire. `modes` maps the mode ids the radio has names for.
   */
  class Cached {
    const shared: NativeShared
    const modes: map<nat, nat>

    constructor (shared: NativeShared, modes: map<nat, nat>)
      ensures this.shared == shared && this.modes == modes
    {
      this.shared, this.modes := shared, modes;
    }

    /** Before the wire: `Some` answers the read. */
    method GetVfoA(now: nat) returns (r: Option<nat>)
      ensures r == match Recent(shared.Value(), now, MAX_READ_AGE) case Some(s) => Some(s.vfoAHz) case None => None
    {
      var s := shared.RecentState(now, MAX_READ_AGE);
      r := match s case Some(x) => Some(x.vfoAHz) case None => None;
    }

    method GetSplit(now: nat) returns (r: Option<bool>)
      ensures r == match Recent(shared.Value(), now, MAX_READ_AGE) case Some(s) => Some(s.split) case None => None
    {
      var s := shared.RecentState(now, MAX_READ_AGE);
      r := match s case Some(x) => Some(x.split) case None => None;
    }

    /** A measured mode, if it has a name; anything else goes to the wire. */
    method GetMode(now: nat) returns (r: Option<nat>)
      ensures var measured := Measured(shared.Value(), now, MAX_READ_AGE);
              r == if measured.Some? && measured.value.mode in modes then Some(modes[measured.value.mode]) else None
    {
      var s := shared.MeasuredState(now, MAX_READ_AGE);
      if s.Some? {
        if s.value.mode in modes {
          return Some(modes[s.value.mode]);
        }
      }
      r := None;
    }

    /** Before the wire: whether the write is skipped. */
    method SetVfoA(now: nat, hz: nat) returns (skip: bool)
      ensures skip == MaySkip(shared.Value(), now, hz)
    {
      var measured := shared.MeasuredState(now, FRESH_ENOUGH_TO_SKIP);
      skip := measured.Some? && measured.value.vfoAHz == hz;
    }

    /** After the wire accepted a set. */
    method SetDone(change: Change)
      modifies shared
      ensures shared.Value() == Patched(old(shared.Value()), change)
    {
      shared.PatchState(change);
    }
  }
}
