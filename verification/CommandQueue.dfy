/**
 The queue between consoles and the radio: a set still waiting is replaced by a
 newer set for the same control, and its sender is told so.
 */
module CommandQueue {
  import opened Wrappers
  import opened Commands

  /** What a queued command contends for. */
  datatype Slot =
    | FrequencySlot(vfo: nat)
    | ModeSlot
    | SplitSlot
    | MemoryChannelSlot
    | FilterWidthSlot
    | IfShiftSlot
    | RetuneSlot
    | KeyerSpeedSlot

  function SlotOf(c: Command): Option<Slot> {
    match c
    case SetFrequency(vfo, _) => Some(FrequencySlot(vfo))
    case SetMode(_) => Some(ModeSlot)
    case SetSplit(_) => Some(SplitSlot)
    case SetMemoryChannel(_) => Some(MemoryChannelSlot)
    case SetFilterWidth(_) => Some(FilterWidthSlot)
    case SetIfShift(_) => Some(IfShiftSlot)
    case Retune(_) => Some(RetuneSlot)
    case SetKeyerSpeed(_) => Some(KeyerSpeedSlot)
    case _ => None
  }

  /** A command and the ticket its sender waits on. */
  datatype Pending = Pending(command: Command, ticket: nat)

  predicate Contends(p: Pending, c: Command) {
    SlotOf(c).Some? && SlotOf(p.command) == SlotOf(c)
  }

  /** Both set the same control of the radio. */
  predicate SameControl(c: Command, d: Command) {
    || (c.SetFrequency? && d.SetFrequency? && c.vfo == d.vfo)
    || (c.SetMode? && d.SetMode?)
    || (c.SetSplit? && d.SetSplit?)
    || (c.SetMemoryChannel? && d.SetMemoryChannel?)
    || (c.SetFilterWidth? && d.SetFilterWidth?)
    || (c.SetIfShift? && d.SetIfShift?)
    || (c.Retune? && d.Retune?)
    || (c.SetKeyerSpeed? && d.SetKeyerSpeed?)
  }

  /** Commands contend for a slot exactly when they set the same control; reads, devices and CW sending never do. */
  lemma ContendsExactly(p: Pending, c: Command)
    ensures Contends(p, c) <==> SameControl(p.command, c)
  {
  }

  /** The waiting commands a new command leaves alone. */
  function Kept(queue: seq<Pending>, c: Command): seq<Pending> {
    if queue == [] then []
    else Kept(queue[..|queue| - 1], c) + if Contends(queue[|queue| - 1], c) then [] else [queue[|queue| - 1]]
  }

  /** The waiting commands a new command replaces. */
  function Replaced(queue: seq<Pending>, c: Command): seq<Pending> {
    if queue == [] then []
    else Replaced(queue[..|queue| - 1], c) + if Contends(queue[|queue| - 1], c) then [queue[|queue| - 1]] else []
  }

  class Queue {
    var queue: seq<Pending>
    /** Tickets told they were superseded, in order. */
    var superseded: seq<Pending>
    var tickets: nat

    constructor ()
      ensures queue == [] && superseded == [] && tickets == 0
    {
      queue, superseded, tickets := [], [], 0;
    }

    method Enqueue(c: Command) returns (ticket: nat)
      modifies this
      ensures ticket == old(tickets) && tickets == ticket + 1
      ensures queue == Kept(old(queue), c) + [Pending(c, ticket)]
      ensures superseded == old(superseded) + Replaced(old(queue), c)
    {
      hide Kept, Replaced, SlotOf;
      ticket := tickets;
      tickets := tickets + 1;
      NothingKept(c);
      if SlotOf(c).Some? {
        var waiting, kept := queue, [];
        for i := 0 to |waiting|
          invariant kept == Kept(waiting[..i], c)
          invariant superseded == old(superseded) + Replaced(waiting[..i], c)
          invariant queue == waiting && tickets == ticket + 1
        {
          KeptPush(waiting[..i], waiting[i], c);
          assert waiting[..i] + [waiting[i]] == waiting[..i + 1];
          if SlotOf(waiting[i].command) == SlotOf(c) {
            superseded := superseded + [waiting[i]];
          } else {
            kept := kept + [waiting[i]];
          }
        }
        assert waiting[..|waiting|] == waiting;
        queue := kept;
      } else {
        NothingContends(queue, c);
      }
      queue := queue + [Pending(c, ticket)];
    }

    method TakeQueued() returns (taken: seq<Pending>)
      modifies this`queue
      ensures taken == old(queue) && queue == []
    {
      taken := queue;
      queue := [];
    }
  }

  lemma NothingKept(c: Command)
    ensures Kept([], c) == [] && Replaced([], c) == []
  {
  }

  lemma KeptPush(queue: seq<Pending>, p: Pending, c: Command)
    ensures Kept(queue + [p], c) == if Contends(p, c) then Kept(queue, c) else Kept(queue, c) + [p]
    ensures Replaced(queue + [p], c) == if Contends(p, c) then Replaced(queue, c) + [p] else Replaced(queue, c)
  {
    assert (queue + [p])[..|queue|] == queue;
  }

  lemma {:induction false} NothingContends(queue: seq<Pending>, c: Command)
    requires SlotOf(c).None?
    ensures Kept(queue, c) == queue && Replaced(queue, c) == []
  {
    if queue != [] {
      NothingContends(queue[..|queue| - 1], c);
    }
  }

  // -------------------------------------------------------------------------
  // Runs
  // -------------------------------------------------------------------------

  datatype Action = Put(command: Command) | Take

  /** The queue with its whole history. */
  datatype History = History(enqueued: seq<Pending>, queue: seq<Pending>, superseded: seq<Pending>, taken: seq<Pending>)

  function Next(h: History, a: Action): History {
    match a
    case Put(c) =>
      var p := Pending(c, |h.enqueued|);
      History(h.enqueued + [p], Kept(h.queue, c) + [p], h.superseded + Replaced(h.queue, c), h.taken)
    case Take => History(h.enqueued, [], h.superseded, h.taken + h.queue)
  }

  function Run(actions: seq<Action>): History {
    if actions == [] then History([], [], [], [])
    else Next(Run(actions[..|actions| - 1]), actions[|actions| - 1])
  }

  /** Commands that went, or will go, to the radio. */
  function Survivors(h: History): seq<Pending> {
    h.taken + h.queue
  }

  ghost predicate OnePerSlot(queue: seq<Pending>) {
    forall i, j :: 0 <= i < j < |queue| ==> !Contends(queue[i], queue[j].command)
  }

  /** At most one command waits for each control. */
  ghost predicate OnePerControl(queue: seq<Pending>) {
    forall i, j :: 0 <= i < j < |queue| ==> !SameControl(queue[i].command, queue[j].command)
  }

  /** In the order they were enqueued. */
  ghost predicate InOrder(s: seq<Pending>) {
    forall i, j :: 0 <= i < j < |s| ==> s[i].ticket < s[j].ticket
  }

  ghost predicate Inv(h: History) {
    && (forall i :: 0 <= i < |h.enqueued| ==> h.enqueued[i].ticket == i)
    && OnePerSlot(h.queue)
    && InOrder(Survivors(h))
    && multiset(h.enqueued) == multiset(Survivors(h)) + multiset(h.superseded)
  }

  lemma {:induction false} KeptAndReplaced(queue: seq<Pending>, c: Command)
    ensures multiset(Kept(queue, c)) + multiset(Replaced(queue, c)) == multiset(queue)
  {
    hide Contends;
    if queue != [] {
      var k := |queue| - 1;
      KeptAndReplaced(queue[..k], c);
      assert queue == queue[..k] + [queue[k]];
      var kept, replaced := Kept(queue[..k], c), Replaced(queue[..k], c);
      if Contends(queue[k], c) {
        assert Kept(queue, c) == kept && Replaced(queue, c) == replaced + [queue[k]];
      } else {
        assert Kept(queue, c) == kept + [queue[k]] && Replaced(queue, c) == replaced;
      }
    }
  }

  lemma {:induction false} KeptMeans(queue: seq<Pending>, c: Command)
    ensures forall p :: p in Kept(queue, c) <==> p in queue && !Contends(p, c)
  {
    hide Contends;
    if queue != [] {
      KeptMeans(queue[..|queue| - 1], c);
    }
  }

  lemma InOrderPush(s: seq<Pending>, p: Pending)
    requires InOrder(s) && forall x :: x in s ==> x.ticket < p.ticket
    ensures InOrder(s + [p])
  {
  }

  lemma InOrderPop(s: seq<Pending>, p: Pending)
    requires InOrder(s + [p])
    ensures InOrder(s) && forall x :: x in s ==> x.ticket < p.ticket
  {
    var t := s + [p];
    assert forall i :: 0 <= i < |s| ==> s[i] == t[i] && t[i].ticket < t[|s|].ticket;
  }

  lemma {:induction false} KeptInOrder(front: seq<Pending>, queue: seq<Pending>, c: Command)
    requires InOrder(front + queue)
    ensures InOrder(front + Kept(queue, c))
  {
    hide Contends, InOrder;
    if queue != [] {
      var k := |queue| - 1;
      assert front + queue == front + queue[..k] + [queue[k]];
      InOrderPop(front + queue[..k], queue[k]);
      KeptInOrder(front, queue[..k], c);
      KeptMeans(queue[..k], c);
      var kept := front + Kept(queue[..k], c);
      if Contends(queue[k], c) {
        assert front + Kept(queue, c) == kept;
      } else {
        assert front + Kept(queue, c) == kept + [queue[k]];
        InOrderPush(kept, queue[k]);
      }
    }
  }

  lemma OnePerSlotPop(s: seq<Pending>, p: Pending)
    requires OnePerSlot(s + [p])
    ensures OnePerSlot(s) && forall x :: x in s ==> !Contends(x, p.command)
  {
    hide Contends;
    var t := s + [p];
    assert forall i :: 0 <= i < |s| ==> s[i] == t[i] && !Contends(t[i], t[|s|].command);
  }

  lemma {:induction false} KeptOnePerSlot(queue: seq<Pending>, c: Command)
    requires OnePerSlot(queue)
    ensures OnePerSlot(Kept(queue, c))
  {
    hide Contends;
    if queue != [] {
      var k := |queue| - 1;
      assert queue == queue[..k] + [queue[k]];
      OnePerSlotPop(queue[..k], queue[k]);
      KeptOnePerSlot(queue[..k], c);
      KeptMeans(queue[..k], c);
    }
  }

  lemma PutKeepsInv(h: History, c: Command)
    requires Inv(h)
    ensures Inv(Next(h, Put(c)))
  {
    hide Contends, OnePerSlot, InOrder, Kept, Replaced;
    var p := Pending(c, |h.enqueued|);
    KeptAndReplaced(h.queue, c);
    KeptInOrder(h.taken, h.queue, c);
    assert h.taken + (Kept(h.queue, c) + [p]) == h.taken + Kept(h.queue, c) + [p];
    forall x | x in h.taken + Kept(h.queue, c) ensures x.ticket < p.ticket {
      assert x in multiset(Survivors(h)) by { KeptMeans(h.queue, c); }
      assert x in multiset(h.enqueued);
    }
    InOrderPush(h.taken + Kept(h.queue, c), p);
    PutKeepsOnePerSlot(h.queue, p);
  }

  lemma PutKeepsOnePerSlot(queue: seq<Pending>, p: Pending)
    requires OnePerSlot(queue)
    ensures OnePerSlot(Kept(queue, p.command) + [p])
  {
    KeptOnePerSlot(queue, p.command);
    KeptMeans(queue, p.command);
  }

  lemma {:induction false} RunKeepsInv(actions: seq<Action>)
    ensures Inv(Run(actions))
  {
    hide Contends, Kept, Replaced;
    if actions != [] {
      var k := |actions| - 1;
      RunKeepsInv(actions[..k]);
      var h := Run(actions[..k]);
      match actions[k]
      case Put(c) => PutKeepsInv(h, c);
      case Take => assert h.taken + h.queue + [] == h.taken + h.queue;
    }
  }

  /**
   In every run: at most one command waits per control, survivors keep the order
   they were enqueued in, and each command is in exactly one of waiting, taken
   and superseded, and there once.
   */
  lemma EveryCommandOnce(actions: seq<Action>, p: Pending)
    requires p in Run(actions).enqueued
    ensures var h := Run(actions);
            && OnePerControl(h.queue) && InOrder(Survivors(h))
            && multiset(h.queue)[p] + multiset(h.taken)[p] + multiset(h.superseded)[p] == 1
  {
    RunKeepsInv(actions);
    var h := Run(actions);
    hide Run;
    OnceInTickets(h.enqueued, p);
    forall i, j | 0 <= i < j < |h.queue| ensures !SameControl(h.queue[i].command, h.queue[j].command) {
      ContendsExactly(h.queue[i], h.queue[j].command);
    }
    assert multiset(Survivors(h)) == multiset(h.taken) + multiset(h.queue);
  }

  lemma {:induction false} OnceInTickets(s: seq<Pending>, p: Pending)
    requires forall i :: 0 <= i < |s| ==> s[i].ticket == i
    ensures multiset(s)[p] == if p in s then 1 else 0
  {
    if s != [] {
      var k := |s| - 1;
      OnceInTickets(s[..k], p);
      assert s == s[..k] + [s[k]];
      assert s[k] !in s[..k];
    }
  }

  /** Action `k` put a command for the same control as `p`, enqueued later, while `p` was still waiting. */
  ghost predicate Overtaken(actions: seq<Action>, p: Pending, k: int) {
    && 0 <= k < |actions| && actions[k].Put?
    && var before := Run(actions[..k]);
       && p in before.queue && SameControl(p.command, actions[k].command) && p.ticket < |before.enqueued|
       && Pending(actions[k].command, |before.enqueued|) in Run(actions).enqueued
  }

  lemma {:induction false} ReplacedMeans(queue: seq<Pending>, c: Command)
    ensures forall p :: p in Replaced(queue, c) <==> p in queue && Contends(p, c)
  {
    hide Contends;
    if queue != [] {
      ReplacedMeans(queue[..|queue| - 1], c);
    }
  }

  lemma {:induction false} HistoryGrows(actions: seq<Action>, k: nat)
    requires k <= |actions|
    ensures Run(actions[..k]).enqueued <= Run(actions).enqueued
    ensures Run(actions[..k]).superseded <= Run(actions).superseded
  {
    hide Kept, Replaced;
    if k == |actions| {
      assert actions[..k] == actions;
    } else {
      var n := |actions| - 1;
      HistoryGrows(actions[..n], k);
      assert actions[..n][..k] == actions[..k];
    }
  }

  /** A waiting command's ticket is one already given out. */
  lemma WaitingIsEnqueued(actions: seq<Action>, p: Pending)
    requires p in Run(actions).queue
    ensures p.ticket < |Run(actions).enqueued|
  {
    RunKeepsInv(actions);
    hide Run;
    var h := Run(actions);
    assert p in multiset(h.taken + h.queue);
    assert p in multiset(h.enqueued);
  }

  /** What a put does, seen from the whole run. */
  lemma PutOvertakes(actions: seq<Action>, p: Pending, k: nat)
    requires k < |actions| && actions[k].Put?
    requires p in Run(actions[..k]).queue && SameControl(p.command, actions[k].command)
    ensures Overtaken(actions, p, k) && p in Run(actions).superseded
  {
    hide Kept, Replaced, Contends, SameControl;
    ContendsExactly(p, actions[k].command);
    assert actions[..k + 1][..k] == actions[..k];
    var before, after := Run(actions[..k]), Run(actions[..k + 1]);
    assert after == Next(before, actions[k]);
    ReplacedMeans(before.queue, actions[k].command);
    WaitingIsEnqueued(actions[..k], p);
    HistoryGrows(actions, k + 1);
    assert p in after.superseded && Pending(actions[k].command, |before.enqueued|) in after.enqueued;
  }

  /**
   A command is superseded exactly when one for its control was put after it
   while it was still waiting, so no command is dropped for any other reason.
   */
  lemma {:induction false} SupersededExactly(actions: seq<Action>, p: Pending)
    ensures p in Run(actions).superseded <==> exists k :: Overtaken(actions, p, k)
  {
    hide Kept, Replaced, Contends, SameControl;
    if exists k :: Overtaken(actions, p, k) {
      var k :| Overtaken(actions, p, k);
      PutOvertakes(actions, p, k);
    }
    if p in Run(actions).superseded {
      var n := |actions| - 1;
      var before := Run(actions[..n]);
      if p in before.superseded {
        SupersededExactly(actions[..n], p);
        var k :| Overtaken(actions[..n], p, k);
        assert actions[..n][..k] == actions[..k];
        PutOvertakes(actions, p, k);
      } else {
        ReplacedMeans(before.queue, actions[n].command);
        ContendsExactly(p, actions[n].command);
        PutOvertakes(actions, p, n);
      }
    }
  }

  // -------------------------------------------------------------------------
  // What the radio ends up holding
  // -------------------------------------------------------------------------

  /** Registers and their values. */
  type Store = map<nat, int>

  /** What each command writes. Two for one control write the same registers; controls may overlap otherwise. */
  ghost predicate ControlsFixRegisters(writes: Command -> Store) {
    forall c, d :: SameControl(c, d) ==> writes(c).Keys == writes(d).Keys
  }

  function ApplyAll(store: Store, s: seq<Pending>, writes: Command -> Store): Store {
    if s == [] then store
    else ApplyAll(store, s[..|s| - 1], writes) + writes(s[|s| - 1].command)
  }

  ghost predicate AgreeOutside(a: Store, b: Store, regs: set<nat>) {
    forall x :: x !in regs ==> (x in a <==> x in b) && (x in a && x in b ==> a[x] == b[x])
  }

  lemma ApplyPush(store: Store, s: seq<Pending>, p: Pending, writes: Command -> Store)
    ensures ApplyAll(store, s + [p], writes) == ApplyAll(store, s, writes) + writes(p.command)
  {
    assert (s + [p])[..|s|] == s;
  }

  lemma AgreeWithSelf(a: Store, regs: set<nat>)
    ensures AgreeOutside(a, a, regs)
  {
  }

  lemma AgreeAfterInside(a: Store, b: Store, regs: set<nat>, w: Store)
    requires AgreeOutside(a, b, regs) && w.Keys == regs
    ensures AgreeOutside(a + w, b, regs)
  {
  }

  lemma AgreeAfterBoth(a: Store, b: Store, regs: set<nat>, w: Store)
    requires AgreeOutside(a, b, regs)
    ensures AgreeOutside(a + w, b + w, regs)
  {
  }

  /** Dropping the commands a new one replaces matters only to the registers the new one writes. */
  lemma {:induction false} DroppedOnlyTouch(store: Store, front: seq<Pending>, queue: seq<Pending>, c: Command,
                                           writes: Command -> Store)
    requires ControlsFixRegisters(writes)
    ensures AgreeOutside(ApplyAll(store, front + queue, writes), ApplyAll(store, front + Kept(queue, c), writes),
                         writes(c).Keys)
  {
    hide ApplyAll, AgreeOutside;
    if queue == [] {
      assert front + queue == front + Kept(queue, c);
      AgreeWithSelf(ApplyAll(store, front, writes), writes(c).Keys);
      assert front + [] == front;
    } else {
      var k := |queue| - 1;
      var (all, kept) := (ApplyAll(store, front + queue[..k], writes), ApplyAll(store, front + Kept(queue[..k], c), writes));
      DroppedOnlyTouch(store, front, queue[..k], c, writes);
      assert front + queue == front + queue[..k] + [queue[k]];
      ApplyPush(store, front + queue[..k], queue[k], writes);
      ContendsExactly(queue[k], c);
      if Contends(queue[k], c) {
        assert front + Kept(queue, c) == front + Kept(queue[..k], c);
        AgreeAfterInside(all, kept, writes(c).Keys, writes(queue[k].command));
      } else {
        assert front + Kept(queue, c) == front + Kept(queue[..k], c) + [queue[k]];
        ApplyPush(store, front + Kept(queue[..k], c), queue[k], writes);
        AgreeAfterBoth(all, kept, writes(c).Keys, writes(queue[k].command));
      }
    }
  }

  /**
   Sending only the survivors leaves every register as sending every command
   ever enqueued would have.
   */
  lemma {:induction false} SurvivorsSuffice(actions: seq<Action>, store: Store, writes: Command -> Store)
    requires ControlsFixRegisters(writes)
    ensures ApplyAll(store, Survivors(Run(actions)), writes) == ApplyAll(store, Run(actions).enqueued, writes)
  {
    if actions != [] {
      var k := |actions| - 1;
      SurvivorsSuffice(actions[..k], store, writes);
      var h := Run(actions[..k]);
      match actions[k]
      case Take => assert h.taken + h.queue + [] == h.taken + h.queue;
      case Put(c) => PutSuffices(h, c, store, writes);
    }
  }

  lemma PutSuffices(h: History, c: Command, store: Store, writes: Command -> Store)
    requires ControlsFixRegisters(writes)
    requires ApplyAll(store, Survivors(h), writes) == ApplyAll(store, h.enqueued, writes)
    ensures var h' := Next(h, Put(c)); ApplyAll(store, Survivors(h'), writes) == ApplyAll(store, h'.enqueued, writes)
  {
    hide ApplyAll, ControlsFixRegisters;
    var p := Pending(c, |h.enqueued|);
    ApplyPush(store, h.enqueued, p, writes);
    ApplyPush(store, h.taken + Kept(h.queue, c), p, writes);
    assert h.taken + (Kept(h.queue, c) + [p]) == h.taken + Kept(h.queue, c) + [p];
    DroppedOnlyTouch(store, h.taken, h.queue, c, writes);
  }

  // -------------------------------------------------------------------------
  // A radio with one register for each control
  // -------------------------------------------------------------------------

  /** The registers of the controls; VFO `n` is register `7 + n`. */
  function Settings(c: Command): Store {
    match c
    case SetMode(mode) => map[0 := mode]
    case SetSplit(on) => map[1 := if on then 1 else 0]
    case SetMemoryChannel(channel) => map[2 := channel]
    case SetFilterWidth(width) => map[3 := width]
    case SetIfShift(shift) => map[4 := shift]
    case Retune(dial) => map[5 := dial]
    case SetKeyerSpeed(wpm) => map[6 := wpm]
    case SetFrequency(vfo, hz) => map[7 + vfo := hz]
    case _ => map[]
  }

  /** On it, two commands share a register exactly when they set the same control. */
  lemma OneRegisterEach(c: Command, d: Command)
    ensures Settings(c).Keys * Settings(d).Keys != {} <==> SameControl(c, d)
    ensures SameControl(c, d) ==> Settings(c).Keys == Settings(d).Keys
  {
    assert forall x :: x in Settings(c).Keys * Settings(d).Keys <==> x in Settings(c) && x in Settings(d);
    var r := RegisterOf(c);
    assert Settings(c).Keys == (if r.Some? then {r.value} else {});
  }

  function RegisterOf(c: Command): (r: Option<nat>)
    ensures Settings(c).Keys == if r.Some? then {r.value} else {}
  {
    match c
    case SetMode(_) => Some(0)
    case SetSplit(_) => Some(1)
    case SetMemoryChannel(_) => Some(2)
    case SetFilterWidth(_) => Some(3)
    case SetIfShift(_) => Some(4)
    case Retune(_) => Some(5)
    case SetKeyerSpeed(_) => Some(6)
    case SetFrequency(vfo, _) => Some(7 + vfo)
    case _ => None
  }

  /** So every control ends up as if every command had been sent. */
  lemma SettingsSurvive(actions: seq<Action>, store: Store)
    ensures ApplyAll(store, Survivors(Run(actions)), Settings) == ApplyAll(store, Run(actions).enqueued, Settings)
  {
    forall c, d | SameControl(c, d) ensures Settings(c).Keys == Settings(d).Keys {
      OneRegisterEach(c, d);
    }
    SurvivorsSuffice(actions, store, Settings);
  }
}
