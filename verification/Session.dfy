/**
 One console connection: the handshake, the capability checks, what reaches
 the radio host, and which picture frames go out.
 */
module Session {
  import opened Wrappers
  import opened Commands
  import Codec

  const PROTOCOL_VERSION: nat := 2
  const MAX_CW_TEXT_CHARS: nat := 256

  datatype Range = Range(min: nat, max: nat)

  predicate Contains(r: Range, x: nat) {
    r.min <= x <= r.max
  }

  /** What a radio's CW control can do; `charset` is the keyer's upper-case characters. */
  datatype CwCapability = CwCapability(keyerWpm: Option<Range>, keyerWpmWritable: bool, sendText: Option<set<char>>)

  /** What a console is told beside the radio's abilities; fixed when the connection opens. */
  datatype Bench = Bench(layout: Option<nat>, theme: Option<nat>, installation: nat)

  datatype Capabilities = Capabilities(
    bench: Bench,
    vfoCount: nat, split: bool, rxRange: Range, modes: set<nat>, memory: Option<Range>,
    filterWidths: Option<set<nat>>, ifShift: Option<int>, meters: set<nat>, cw: Option<CwCapability>)

  datatype ErrorCode = NotReady | VersionMismatch | Unsupported | OutOfRange | Malformed | Forbidden

  datatype ClientMessage =
    | Hello(version: nat, spectrum: bool, audio: bool, maxFps: Option<nat>)
    | Ask(command: Command)
    | Ping

  /** The state a host publishes: its meters by kind. */
  type RadioInfo = map<nat, nat>

  datatype ServerMessage =
    | Welcome(version: nat, offered: Capabilities)
    | Ack
    | Pong
    | StateIs(info: RadioInfo)
    | MeterIs(kind: nat, raw: nat)
    | DevicesAre(lists: nat)
    | Refused(code: ErrorCode)

  // -------------------------------------------------------------------------
  // Validation
  // -------------------------------------------------------------------------

  predicate AsciiLetter(c: char) {
    'A' <= c <= 'Z' || 'a' <= c <= 'z'
  }

  predicate AsciiDigit(c: char) {
    '0' <= c <= '9'
  }

  predicate IsCallsign(call: string) {
    && 3 <= |call| <= 10
    && (forall i :: 0 <= i < |call| ==> AsciiLetter(call[i]) || AsciiDigit(call[i]) || call[i] == '/')
    && (exists i :: 0 <= i < |call| && AsciiLetter(call[i]))
    && (exists i :: 0 <= i < |call| && AsciiDigit(call[i]))
  }

  /** Every character but the space is one the keyer has. */
  predicate Sendable(charset: set<char>, text: string) {
    forall i :: 0 <= i < |text| && text[i] != ' ' ==> Codec.AsciiUpper(text[i]) in charset
  }

  predicate Blank(text: string) {
    forall i :: 0 <= i < |text| ==> Codec.IsWhitespace(text[i])
  }

  function Abs(x: int): nat {
    if x < 0 then -x else x
  }

  /** Why a command is refused, or `None`. */
  function Validate(caps: Capabilities, servesCw: bool, c: Command): Option<ErrorCode> {
    match c
    case SetFrequency(vfo, hz) =>
      if vfo >= caps.vfoCount then Some(Unsupported)
      else if !Contains(caps.rxRange, hz) then Some(OutOfRange)
      else None
    case Retune(hz) => if Contains(caps.rxRange, hz) then None else Some(OutOfRange)
    case SetMode(mode) => if mode in caps.modes then None else Some(Unsupported)
    case SetSplit(_) => if caps.split then None else Some(Unsupported)
    case SetMemoryChannel(channel) =>
      if caps.memory.None? then Some(Unsupported)
      else if Contains(caps.memory.value, channel) then None
      else Some(OutOfRange)
    case SetFilterWidth(hz) =>
      if caps.filterWidths.None? then Some(Unsupported)
      else if hz in caps.filterWidths.value then None
      else Some(OutOfRange)
    case SetIfShift(hz) =>
      if caps.ifShift.None? then Some(Unsupported)
      else if Abs(hz) > caps.ifShift.value then Some(OutOfRange)
      else None
    case ReadMeter(kind) => if kind in caps.meters then None else Some(Unsupported)
    case ReadState => None
    case ReadDevices => None
    case AttachDevice(_, _) => None
    case AbortCw => None
    case _ => ValidateCw(caps, servesCw, c)
  }

  function ValidateCw(caps: Capabilities, servesCw: bool, c: Command): Option<ErrorCode> {
    if caps.cw.None? || !servesCw then Some(Unsupported)
    else if c.SetKeyerSpeed? then
      if caps.cw.value.keyerWpm.None? || !caps.cw.value.keyerWpmWritable then Some(Unsupported)
      else if Contains(caps.cw.value.keyerWpm.value, c.wpm) then None
      else Some(OutOfRange)
    else if caps.cw.value.sendText.None? then Some(Unsupported)
    else
      var charset := caps.cw.value.sendText.value;
      match c
      case ArmCwTransmit(callsign, acknowledged, cap) =>
        if !acknowledged then Some(Forbidden)
        else if !IsCallsign(callsign) then Some(Forbidden)
        else if !Sendable(charset, callsign) then Some(Forbidden)
        else if cap == Some(0) then Some(OutOfRange)
        else None
      case SendCwText(text) =>
        if Blank(text) then Some(OutOfRange)
        else if |text| > MAX_CW_TEXT_CHARS then Some(OutOfRange)
        else if !Sendable(charset, text) then Some(OutOfRange)
        else None
      case _ => None
  }

  /** Whether an accepted command is handed to the host. */
  predicate ReachesHost(caps: Capabilities, servesCw: bool, c: Command) {
    c.AbortCw? ==> servesCw && caps.cw.Some?
  }

  // -------------------------------------------------------------------------
  // The session
  // -------------------------------------------------------------------------

  datatype State = State(handshaken: bool, spectrum: bool, audio: bool, maxFps: Option<nat>,
                         info: Option<RadioInfo>, devices: Option<nat>, servesCw: bool)

  const FRESH := State(false, false, false, None, None, None, false)

  predicate WantsSpectrum(s: State) {
    s.handshaken && s.spectrum
  }

  predicate WantsAudio(s: State) {
    s.audio
  }

  /** What the radio can do behind this host: no CW without a supervisor. */
  function Offered(caps: Capabilities, servesCw: bool): Capabilities {
    if servesCw then caps else caps.(cw := None)
  }

  function Greeted(s: State, m: ClientMessage): State
    requires m.Hello?
  {
    if m.version != PROTOCOL_VERSION then s
    else s.(handshaken := true, spectrum := m.spectrum, audio := m.audio, maxFps := m.maxFps)
  }

  function Answer(caps: Capabilities, s: State, c: Command): ServerMessage {
    match c
    case ReadState => if s.info.Some? then StateIs(s.info.value) else Refused(NotReady)
    case ReadMeter(kind) =>
      if s.info.Some? && kind in s.info.value then MeterIs(kind, s.info.value[kind]) else Refused(NotReady)
    case ReadDevices => if s.devices.Some? then DevicesAre(s.devices.value) else Refused(Unsupported)
    case _ => Ack
  }

  function Handled(caps: Capabilities, s: State, m: ClientMessage): (State, ServerMessage) {
    match m
    case Hello(version, _, _, _) =>
      if version != PROTOCOL_VERSION then (s, Refused(VersionMismatch))
      else (Greeted(s, m), Welcome(PROTOCOL_VERSION, Offered(caps, s.servesCw)))
    case Ping => (s, if s.handshaken then Pong else Refused(NotReady))
    case Ask(c) =>
      if !s.handshaken then (s, Refused(NotReady))
      else
        match Validate(caps, s.servesCw, c)
        case Some(code) => (s, Refused(code))
        case None => (s, Answer(caps, s, c))
  }

  class NativeSession {
    const caps: Capabilities
    var handshaken: bool
    var spectrum: bool
    var audio: bool
    var maxFps: Option<nat>
    var info: Option<RadioInfo>
    var devices: Option<nat>
    var servesCw: bool

    constructor (caps: Capabilities)
      ensures this.caps == caps && Value() == FRESH
    {
      this.caps := caps;
      handshaken, spectrum, audio, maxFps := false, false, false, None;
      info, devices, servesCw := None, None, false;
    }

    function Value(): State
      reads this
    {
      State(handshaken, spectrum, audio, maxFps, info, devices, servesCw)
    }

    method Publish(info: RadioInfo, devices: Option<nat>, servesCw: bool)
      modifies this
      ensures Value() == Refreshed(old(Value()), info, devices, servesCw)
    {
      this.info := Some(info);
      if devices.Some? {
        this.devices := devices;
      }
      this.servesCw := servesCw;
    }

    method Handle(m: ClientMessage) returns (reply: ServerMessage)
      modifies this
      ensures (Value(), reply) == Handled(caps, old(Value()), m)
    {
      match m {
        case Hello(version, wantsSpectrum, wantsAudio, fps) =>
          if version != PROTOCOL_VERSION {
            return Refused(VersionMismatch);
          }
          handshaken := true;
          spectrum := wantsSpectrum;
          audio := wantsAudio;
          maxFps := fps;
          return Welcome(PROTOCOL_VERSION, Offered(caps, servesCw));
        case Ping =>
          return if handshaken then Pong else Refused(NotReady);
        case Ask(command) =>
          if !handshaken {
            return Refused(NotReady);
          }
          var refusal := Validate(caps, servesCw, command);
          if refusal.Some? {
            return Refused(refusal.value);
          }
          return Answer(caps, Value(), command);
      }
    }
  }

  /** What the host is asked afresh before every message. */
  function Refreshed(s: State, info: RadioInfo, devices: Option<nat>, servesCw: bool): State {
    s.(info := Some(info), devices := if devices.Some? then devices else s.devices, servesCw := servesCw)
  }

  // -------------------------------------------------------------------------
  // A connection's run
  // -------------------------------------------------------------------------

  /** One turn of the connection loop: a message with what the host says then, or the frame pump's turn. */
  datatype Input =
    | Incoming(message: ClientMessage, info: RadioInfo, devices: Option<nat>, servesCw: bool, hostTakes: Result<(), ErrorCode>)
    | Undecodable
    | Pump(audioFrame: Option<nat>, spectrumFrame: Option<nat>)

  datatype Event =
    | Got(message: ClientMessage, servesCw: bool)
    | Garbled
    | Applied(command: Command)
    | Replied(reply: ServerMessage)
    | SentAudio(sequence: nat)
    | SentSpectrum(sequence: nat)

  datatype Connection = Connection(session: State, lastSpectrum: Option<nat>, lastAudio: Option<nat>, log: seq<Event>)

  /** The command a message hands to the host, if it does. */
  function Applies(caps: Capabilities, s: State, m: ClientMessage, reply: ServerMessage): Option<Command> {
    if m.Ask? && reply.Ack? && ReachesHost(caps, s.servesCw, m.command) then Some(m.command) else None
  }

  function Serve(caps: Capabilities, c: Connection, m: Input): Connection
    requires m.Incoming?
  {
    var before := Refreshed(c.session, m.info, m.devices, m.servesCw);
    var (after, reply) := Handled(caps, before, m.message);
    var applies := Applies(caps, after, m.message, reply);
    var log := c.log + [Got(m.message, m.servesCw)];
    if applies.Some? then
      var answer := if m.hostTakes.Ok? then reply else Refused(m.hostTakes.error);
      c.(session := after, log := log + [Applied(applies.value), Replied(answer)])
    else c.(session := after, log := log + [Replied(reply)])
  }

  function PumpAudio(c: Connection, frame: Option<nat>): Connection {
    if WantsAudio(c.session) && frame.Some? && c.lastAudio != frame
    then c.(lastAudio := frame, log := c.log + [SentAudio(frame.value)])
    else c
  }

  function PumpSpectrum(c: Connection, frame: Option<nat>): Connection {
    if WantsSpectrum(c.session) && frame.Some? && c.lastSpectrum != frame
    then c.(lastSpectrum := frame, log := c.log + [SentSpectrum(frame.value)])
    else c
  }

  function Turn(caps: Capabilities, c: Connection, i: Input): Connection {
    match i
    case Incoming(_, _, _, _, _) => Serve(caps, c, i)
    case Undecodable => c.(log := c.log + [Garbled, Replied(Refused(Malformed))])
    case Pump(audio, spectrum) => PumpSpectrum(PumpAudio(c, audio), spectrum)
  }

  function Run(caps: Capabilities, servesCw: bool, inputs: seq<Input>): Connection {
    if inputs == [] then Connection(FRESH.(servesCw := servesCw), None, None, [])
    else Turn(caps, Run(caps, servesCw, inputs[..|inputs| - 1]), inputs[|inputs| - 1])
  }

  // -------------------------------------------------------------------------
  // What a log entitles to
  // -------------------------------------------------------------------------

  /** The last hello whose version matched. */
  function LatestHello(log: seq<Event>): (r: Option<ClientMessage>)
    ensures r.Some? ==> r.value.Hello? && r.value.version == PROTOCOL_VERSION
    ensures r.Some? ==> exists k :: 0 <= k < |log| && log[k].Got? && log[k].message == r.value
  {
    if log == [] then None
    else
      var e := log[|log| - 1];
      if e.Got? && e.message.Hello? && e.message.version == PROTOCOL_VERSION then Some(e.message)
      else LatestHello(log[..|log| - 1])
  }

  function LastSpectrum(log: seq<Event>): Option<nat> {
    if log == [] then None
    else if log[|log| - 1].SentSpectrum? then Some(log[|log| - 1].sequence)
    else LastSpectrum(log[..|log| - 1])
  }

  function LastAudio(log: seq<Event>): Option<nat> {
    if log == [] then None
    else if log[|log| - 1].SentAudio? then Some(log[|log| - 1].sequence)
    else LastAudio(log[..|log| - 1])
  }

  /** The radio, and for CW the server beside it, can do what the command asks. */
  predicate Able(caps: Capabilities, servesCw: bool, c: Command) {
    var offersCw := servesCw && caps.cw.Some?;
    var keys := offersCw && caps.cw.value.sendText.Some?;
    match c
    case SetFrequency(vfo, hz) => vfo < caps.vfoCount && caps.rxRange.min <= hz <= caps.rxRange.max
    case Retune(hz) => caps.rxRange.min <= hz <= caps.rxRange.max
    case SetMode(mode) => mode in caps.modes
    case SetSplit(_) => caps.split
    case SetMemoryChannel(n) => caps.memory.Some? && caps.memory.value.min <= n <= caps.memory.value.max
    case SetFilterWidth(hz) => caps.filterWidths.Some? && hz in caps.filterWidths.value
    case SetIfShift(hz) => caps.ifShift.Some? && -caps.ifShift.value <= hz <= caps.ifShift.value
    case AttachDevice(_, _) => true
    case SetKeyerSpeed(wpm) =>
      && offersCw && caps.cw.value.keyerWpmWritable && caps.cw.value.keyerWpm.Some?
      && caps.cw.value.keyerWpm.value.min <= wpm <= caps.cw.value.keyerWpm.value.max
    case ArmCwTransmit(callsign, acknowledged, cap) =>
      && keys && acknowledged && cap != Some(0)
      && IsCallsign(callsign) && Sendable(caps.cw.value.sendText.value, callsign)
    case SendCwText(text) =>
      && keys && |text| <= MAX_CW_TEXT_CHARS
      && !Blank(text) && Sendable(caps.cw.value.sendText.value, text)
    case DisarmCw => keys
    case AbortCw => offersCw
    case ReadMeter(_) => false
    case ReadState => false
    case ReadDevices => false
  }

  /** When a command may be handed to the host, given the log before it arrived. */
  predicate MayApply(caps: Capabilities, before: seq<Event>, servesCw: bool, c: Command) {
    LatestHello(before).Some? && Able(caps, servesCw, c)
  }

  predicate IsRequest(e: Event) {
    e.Got? || e.Garbled?
  }

  /** Requests are answered before anything else happens, and nothing else is. */
  predicate InTurn(log: seq<Event>, k: nat)
    requires k < |log|
  {
    match log[k]
    case Got(_, _) => k + 1 < |log| && (log[k + 1].Replied? || log[k + 1].Applied?)
    case Garbled => k + 1 < |log| && log[k + 1] == Replied(Refused(Malformed))
    case Applied(_) => k > 0 && log[k - 1].Got? && k + 1 < |log| && log[k + 1].Replied?
    case Replied(_) => k > 0 && (IsRequest(log[k - 1]) || log[k - 1].Applied?)
    case SentSpectrum(_) => true
    case SentAudio(_) => true
  }

  /** What event `k` of a log may say. */
  ghost predicate Entitled(caps: Capabilities, log: seq<Event>, k: nat)
    requires k < |log|
  {
    InTurn(log, k) &&
    match log[k]
    case Got(m, servesCw) =>
      m.Ask? ==> k + 1 < |log| &&
                 (MayApply(caps, log[..k], servesCw, m.command) <==> log[k + 1].Applied?) &&
                 (log[k + 1].Applied? ==> log[k + 1].command == m.command)
    case Applied(c) => k > 0 && log[k - 1].Got? && log[k - 1].message == Ask(c)
    case SentSpectrum(n) =>
      && LatestHello(log[..k]).Some? && LatestHello(log[..k]).value.spectrum && LastSpectrum(log[..k]) != Some(n)
    case SentAudio(n) =>
      && LatestHello(log[..k]).Some? && LatestHello(log[..k]).value.audio && LastAudio(log[..k]) != Some(n)
    case Garbled => true
    case Replied(_) => true
  }

  /** The session remembers the latest accepted hello; in particular `audio` is set only once handshaken. */
  ghost predicate SessionMatches(c: Connection) {
    && c.lastSpectrum == LastSpectrum(c.log) && c.lastAudio == LastAudio(c.log)
    && match LatestHello(c.log)
       case None => !c.session.handshaken && !c.session.spectrum && !c.session.audio
       case Some(h) => c.session.handshaken && c.session.spectrum == h.spectrum && c.session.audio == h.audio
  }

  ghost predicate Inv(caps: Capabilities, c: Connection) {
    SessionMatches(c) && forall k :: 0 <= k < |c.log| ==> Entitled(caps, c.log, k)
  }

  lemma PushKeepsLatest(log: seq<Event>, e: Event)
    ensures LatestHello(log + [e]) ==
            if e.Got? && e.message.Hello? && e.message.version == PROTOCOL_VERSION then Some(e.message) else LatestHello(log)
    ensures LastSpectrum(log + [e]) == if e.SentSpectrum? then Some(e.sequence) else LastSpectrum(log)
    ensures LastAudio(log + [e]) == if e.SentAudio? then Some(e.sequence) else LastAudio(log)
  {
    assert (log + [e])[..|log|] == log;
  }

  lemma EntitledStays(caps: Capabilities, log: seq<Event>, more: seq<Event>, k: nat)
    requires k < |log| && Entitled(caps, log, k)
    ensures Entitled(caps, log + more, k)
  {
    hide MayApply, LatestHello, LastSpectrum, LastAudio;
    assert (log + more)[..k] == log[..k];
  }

  /** The session answers `Ack` and passes a command on exactly when it may be applied. */
  lemma AppliesExactly(caps: Capabilities, s: State, log: seq<Event>, c: Command)
    requires s.handshaken <==> LatestHello(log).Some?
    ensures var (after, reply) := Handled(caps, s, Ask(c));
            after == s && (Applies(caps, after, Ask(c), reply) == Some(c) <==> MayApply(caps, log, s.servesCw, c))
  {
    hide LatestHello, IsCallsign, Sendable, Blank;
  }

  /** Everything serving a message logs after the message itself. */
  function Outcome(caps: Capabilities, c: Connection, m: Input): seq<Event>
    requires m.Incoming?
  {
    var before := Refreshed(c.session, m.info, m.devices, m.servesCw);
    var (after, reply) := Handled(caps, before, m.message);
    var applies := Applies(caps, after, m.message, reply);
    if applies.Some?
    then [Applied(applies.value), Replied(if m.hostTakes.Ok? then reply else Refused(m.hostTakes.error))]
    else [Replied(reply)]
  }

  lemma ServeLogs(caps: Capabilities, c: Connection, m: Input)
    requires m.Incoming?
    ensures Serve(caps, c, m).log == c.log + [Got(m.message, m.servesCw)] + Outcome(caps, c, m)
  {
    hide Handled, Applies, Refreshed;
  }

  lemma OutcomeChangesNothing(caps: Capabilities, c: Connection, m: Input, log: seq<Event>)
    requires m.Incoming?
    ensures LatestHello(log + Outcome(caps, c, m)) == LatestHello(log)
    ensures LastSpectrum(log + Outcome(caps, c, m)) == LastSpectrum(log)
    ensures LastAudio(log + Outcome(caps, c, m)) == LastAudio(log)
  {
    hide Handled, Applies, Refreshed, LatestHello, LastSpectrum, LastAudio;
    var out := Outcome(caps, c, m);
    PushKeepsLatest(log, out[0]);
    if |out| == 2 {
      PushKeepsLatest(log + [out[0]], out[1]);
      assert log + out == log + [out[0]] + [out[1]];
    } else {
      assert log + out == log + [out[0]];
    }
  }

  lemma ServeMatches(caps: Capabilities, c: Connection, m: Input)
    requires SessionMatches(c) && m.Incoming?
    ensures SessionMatches(Serve(caps, c, m))
  {
    hide Outcome, Validate, LatestHello, LastSpectrum, LastAudio, Answer;
    var got := Got(m.message, m.servesCw);
    ServeLogs(caps, c, m);
    PushKeepsLatest(c.log, got);
    OutcomeChangesNothing(caps, c, m, c.log + [got]);
  }

  lemma ServeEntitles(caps: Capabilities, c: Connection, m: Input, log: seq<Event>, k: nat)
    requires SessionMatches(c) && m.Incoming?
    requires log == c.log + [Got(m.message, m.servesCw)] + Outcome(caps, c, m) && |c.log| <= k < |log|
    ensures Entitled(caps, log, k)
  {
    hide Handled, Validate, MayApply, LatestHello, LastSpectrum, LastAudio;
    assert log[..|c.log|] == c.log;
    if m.message.Ask? {
      AppliesExactly(caps, Refreshed(c.session, m.info, m.devices, m.servesCw), c.log, m.message.command);
    }
  }

  lemma ServeKeepsInv(caps: Capabilities, c: Connection, m: Input)
    requires Inv(caps, c) && m.Incoming?
    ensures Inv(caps, Serve(caps, c, m))
  {
    hide Entitled, SessionMatches, Serve, Outcome;
    ServeMatches(caps, c, m);
    ServeLogs(caps, c, m);
    var log := Serve(caps, c, m).log;
    forall k | 0 <= k < |log| ensures Entitled(caps, log, k) {
      if k < |c.log| {
        assert log == c.log + ([Got(m.message, m.servesCw)] + Outcome(caps, c, m));
        EntitledStays(caps, c.log, [Got(m.message, m.servesCw)] + Outcome(caps, c, m), k);
      } else {
        ServeEntitles(caps, c, m, log, k);
      }
    }
  }

  lemma PushKeepsInv(caps: Capabilities, c: Connection, e: Event, c': Connection)
    requires Inv(caps, c) && !e.Got? && !e.Applied?
    requires c'.log == c.log + [e] && c'.session == c.session && Entitled(caps, c'.log, |c.log|)
    requires c'.lastSpectrum == (if e.SentSpectrum? then Some(e.sequence) else c.lastSpectrum)
    requires c'.lastAudio == (if e.SentAudio? then Some(e.sequence) else c.lastAudio)
    ensures Inv(caps, c')
  {
    hide LatestHello, LastSpectrum, LastAudio, Entitled;
    PushKeepsLatest(c.log, e);
    forall k | 0 <= k < |c'.log| ensures Entitled(caps, c'.log, k) {
      if k < |c.log| {
        EntitledStays(caps, c.log, [e], k);
      }
    }
  }

  lemma PumpKeepsInv(caps: Capabilities, c: Connection, audio: Option<nat>, spectrum: Option<nat>)
    requires Inv(caps, c)
    ensures Inv(caps, PumpSpectrum(PumpAudio(c, audio), spectrum))
  {
    hide LatestHello, LastSpectrum, LastAudio, MayApply;
    var mid := PumpAudio(c, audio);
    if mid != c {
      assert mid.log[..|c.log|] == c.log;
      PushKeepsInv(caps, c, SentAudio(audio.value), mid);
    }
    var end := PumpSpectrum(mid, spectrum);
    if end != mid {
      assert end.log[..|mid.log|] == mid.log;
      PushKeepsInv(caps, mid, SentSpectrum(spectrum.value), end);
    }
  }

  lemma {:induction false} RunKeepsInv(caps: Capabilities, servesCw: bool, inputs: seq<Input>)
    ensures Inv(caps, Run(caps, servesCw, inputs))
  {
    hide Serve, PumpAudio, PumpSpectrum, Inv;
    if inputs == [] {
      StartHolds(caps, servesCw);
    } else {
      var k := |inputs| - 1;
      RunKeepsInv(caps, servesCw, inputs[..k]);
      var c := Run(caps, servesCw, inputs[..k]);
      match inputs[k]
      case Incoming(_, _, _, _, _) => ServeKeepsInv(caps, c, inputs[k]);
      case Pump(audio, spectrum) => PumpKeepsInv(caps, c, audio, spectrum);
      case Undecodable => RefusalKeepsInv(caps, c);
    }
  }

  lemma StartHolds(caps: Capabilities, servesCw: bool)
    ensures Inv(caps, Connection(FRESH.(servesCw := servesCw), None, None, []))
  {
  }

  lemma RefusalKeepsInv(caps: Capabilities, c: Connection)
    requires Inv(caps, c)
    ensures Inv(caps, c.(log := c.log + [Garbled, Replied(Refused(Malformed))]))
  {
    hide LatestHello, LastSpectrum, LastAudio, MayApply;
    var refusal := [Garbled, Replied(Refused(Malformed))];
    var log := c.log + refusal;
    assert log == c.log + [Garbled] + [Replied(Refused(Malformed))];
    PushKeepsLatest(c.log, Garbled);
    PushKeepsLatest(c.log + [Garbled], Replied(Refused(Malformed)));
    forall k | 0 <= k < |log| ensures Entitled(caps, log, k) {
      if k < |c.log| {
        EntitledStays(caps, c.log, refusal, k);
      }
    }
  }

  // -------------------------------------------------------------------------
  // What holds in every run
  // -------------------------------------------------------------------------

  /**
   A command reaches the host exactly when it arrives after a hello whose
   version matched and the radio is able to do it; a CW command, only while CW
   is served and the radio has it; a read, never.
   */
  lemma OnlyPermittedReachHost(caps: Capabilities, servesCw: bool, inputs: seq<Input>, k: nat)
    requires k < |Run(caps, servesCw, inputs).log|
    ensures var log := Run(caps, servesCw, inputs).log;
            log[k].Applied? ==>
              k > 0 && log[k - 1].Got? && log[k - 1].message == Ask(log[k].command) &&
              MayApply(caps, log[..k - 1], log[k - 1].servesCw, log[k].command)
    ensures var log := Run(caps, servesCw, inputs).log;
            log[k].Got? && log[k].message.Ask? && MayApply(caps, log[..k], log[k].servesCw, log[k].message.command) ==>
              k + 1 < |log| && log[k + 1] == Applied(log[k].message.command)
  {
    hide MayApply, Run;
    RunKeepsInv(caps, servesCw, inputs);
    var log := Run(caps, servesCw, inputs).log;
    assert Entitled(caps, log, k);
    if k > 0 {
      assert Entitled(caps, log, k - 1);
    }
  }

  /** No picture goes out unless the latest accepted hello asked for it, and never the same one twice running. */
  lemma OnlyWantedFramesSent(caps: Capabilities, servesCw: bool, inputs: seq<Input>, k: nat)
    requires k < |Run(caps, servesCw, inputs).log|
    ensures var log := Run(caps, servesCw, inputs).log;
            log[k].SentSpectrum? ==>
              LatestHello(log[..k]).Some? && LatestHello(log[..k]).value.spectrum &&
              LastSpectrum(log[..k]) != Some(log[k].sequence)
    ensures var log := Run(caps, servesCw, inputs).log;
            log[k].SentAudio? ==>
              LatestHello(log[..k]).Some? && LatestHello(log[..k]).value.audio &&
              LastAudio(log[..k]) != Some(log[k].sequence)
  {
    hide Run;
    RunKeepsInv(caps, servesCw, inputs);
    assert Entitled(caps, Run(caps, servesCw, inputs).log, k);
  }

  /** Entry `r` answers the request at `k`, with nothing but a command handed to the host in between. */
  ghost predicate Answers(log: seq<Event>, k: int, r: int) {
    && 0 <= k < r < |log| && IsRequest(log[k]) && log[r].Replied?
    && r <= k + 2 && forall m :: k < m < r ==> log[m].Applied?
  }

  /**
   Every message gets exactly one reply, the first thing sent after it, and
   every reply answers a message: the next reply to come is always the answer
   to the one message outstanding.
   */
  lemma OneReplyEach(caps: Capabilities, servesCw: bool, inputs: seq<Input>, k: nat)
    requires k < |Run(caps, servesCw, inputs).log|
    ensures var log := Run(caps, servesCw, inputs).log;
            IsRequest(log[k]) ==>
              exists r :: Answers(log, k, r) && forall r' :: Answers(log, k, r') ==> r' == r
    ensures var log := Run(caps, servesCw, inputs).log;
            log[k].Replied? ==>
              exists q :: Answers(log, q, k) && forall q' :: Answers(log, q', k) ==> q' == q
  {
    hide Run, Entitled, Inv;
    var log := Run(caps, servesCw, inputs).log;
    RunKeepsTurns(caps, servesCw, inputs);
    if IsRequest(log[k]) {
      assert InTurn(log, k) && InTurn(log, k + 1);
      var r := if log[k + 1].Replied? then k + 1 else k + 2;
      assert Answers(log, k, r);
    }
    if log[k].Replied? {
      assert InTurn(log, k) && InTurn(log, k - 1);
      var q := if IsRequest(log[k - 1]) then k - 1 else k - 2;
      assert Answers(log, q, k);
    }
  }

  lemma RunKeepsTurns(caps: Capabilities, servesCw: bool, inputs: seq<Input>)
    ensures var log := Run(caps, servesCw, inputs).log; forall k :: 0 <= k < |log| ==> InTurn(log, k)
  {
    hide Run;
    RunKeepsInv(caps, servesCw, inputs);
    var log := Run(caps, servesCw, inputs).log;
    forall k | 0 <= k < |log| ensures InTurn(log, k) {
      assert Entitled(caps, log, k);
    }
  }

  /** Whether the latest accepted hello asked for a picture that is not the last one sent. */
  ghost predicate Due(asked: bool, last: Option<nat>, frame: Option<nat>) {
    asked && frame.Some? && frame != last
  }

  /** When its turn comes a picture goes out exactly when it was asked for and is a new one. */
  lemma PumpsExactly(caps: Capabilities, servesCw: bool, inputs: seq<Input>, audio: Option<nat>, spectrum: Option<nat>)
    ensures var before := Run(caps, servesCw, inputs).log;
            var hello := LatestHello(before);
            Run(caps, servesCw, inputs + [Pump(audio, spectrum)]).log ==
            before
            + (if Due(hello.Some? && hello.value.audio, LastAudio(before), audio) then [SentAudio(audio.value)] else [])
            + (if Due(hello.Some? && hello.value.spectrum, LastSpectrum(before), spectrum) then [SentSpectrum(spectrum.value)] else [])
  {
    hide LatestHello, LastAudio, LastSpectrum, Entitled, Serve;
    assert (inputs + [Pump(audio, spectrum)])[..|inputs|] == inputs;
    RunKeepsInv(caps, servesCw, inputs);
    var c := Run(caps, servesCw, inputs);
    assert c.log + [] == c.log;
    var mid := PumpAudio(c, audio);
    assert mid.log + [] == mid.log;
  }

  // -------------------------------------------------------------------------
  // What replies say
  // -------------------------------------------------------------------------

  /** The devices last published among the messages. */
  function LatestDevices(inputs: seq<Input>): Option<nat> {
    if inputs == [] then None
    else
      var last := inputs[|inputs| - 1];
      if last.Incoming? && last.devices.Some? then last.devices else LatestDevices(inputs[..|inputs| - 1])
  }

  /** The radio, or the server for CW, has nothing of the kind the command is about. */
  predicate Missing(caps: Capabilities, servesCw: bool, c: Command) {
    match c
    case SetFrequency(vfo, _) => vfo >= caps.vfoCount
    case Retune(_) => false
    case SetMode(mode) => mode !in caps.modes
    case SetSplit(_) => !caps.split
    case SetMemoryChannel(_) => caps.memory.None?
    case SetFilterWidth(_) => caps.filterWidths.None?
    case SetIfShift(_) => caps.ifShift.None?
    case ReadMeter(kind) => kind !in caps.meters
    case ReadState => false
    case ReadDevices => false
    case AttachDevice(_, _) => false
    case AbortCw => false
    case SetKeyerSpeed(_) =>
      !servesCw || caps.cw.None? || caps.cw.value.keyerWpm.None? || !caps.cw.value.keyerWpmWritable
    case _ => !servesCw || caps.cw.None? || caps.cw.value.sendText.None?
  }

  /** An arming that would put an unidentified or unacknowledged signal on the air. */
  predicate Unsafe(caps: Capabilities, c: Command) {
    c.ArmCwTransmit? && (
      || !c.dummyLoadAcknowledged || !IsCallsign(c.callsign)
      || (caps.cw.Some? && caps.cw.value.sendText.Some? && !Sendable(caps.cw.value.sendText.value, c.callsign)))
  }

  /** What a command that is no read is answered, if the host takes it or says why not. */
  function ExpectedAnswer(caps: Capabilities, servesCw: bool, c: Command, host: Result<(), ErrorCode>): ServerMessage {
    if Missing(caps, servesCw, c) then Refused(Unsupported)
    else if Unsafe(caps, c) then Refused(Forbidden)
    else if c.AbortCw? && !(servesCw && caps.cw.Some?) then Ack
    else if !Able(caps, servesCw, c) then Refused(OutOfRange)
    else match host
      case Ok(_) => Ack
      case Err(code) => Refused(code)
  }

  /** What the reply to a message says, given the log and the devices published before it is answered. */
  ghost predicate Says(caps: Capabilities, before: seq<Event>, devices: Option<nat>, m: Input, reply: ServerMessage)
    requires m.Incoming?
  {
    var greeted := LatestHello(before).Some?;
    match m.message
    case Hello(version, _, _, _) =>
      if version != 2 then reply == Refused(VersionMismatch)
      else
        && reply.Welcome? && reply.version == 2 && reply.offered.(cw := caps.cw) == caps
        && reply.offered.cw == if m.servesCw then caps.cw else None
    case Ping => reply == if greeted then Pong else Refused(NotReady)
    case Ask(c) =>
      reply ==
      if !greeted then Refused(NotReady)
      else match c
        case ReadState => StateIs(m.info)
        case ReadMeter(kind) =>
          if kind !in caps.meters then Refused(Unsupported)
          else if kind in m.info then MeterIs(kind, m.info[kind]) else Refused(NotReady)
        case ReadDevices => if devices.Some? then DevicesAre(devices.value) else Refused(Unsupported)
        case _ => ExpectedAnswer(caps, m.servesCw, c, m.hostTakes)
  }

  lemma {:induction false} DevicesAreLatest(caps: Capabilities, servesCw: bool, inputs: seq<Input>)
    ensures Run(caps, servesCw, inputs).session.devices == LatestDevices(inputs)
  {
    hide Validate, Answer;
    if inputs != [] {
      DevicesAreLatest(caps, servesCw, inputs[..|inputs| - 1]);
    }
  }

  predicate IsRead(c: Command) {
    c.ReadState? || c.ReadMeter? || c.ReadDevices?
  }

  /** Why a command is refused. */
  lemma RefusedExactly(caps: Capabilities, servesCw: bool, c: Command)
    ensures Validate(caps, servesCw, c) ==
            if Missing(caps, servesCw, c) then Some(Unsupported)
            else if Unsafe(caps, c) then Some(Forbidden)
            else if IsRead(c) || c.AbortCw? || Able(caps, servesCw, c) then None
            else Some(OutOfRange)
  {
    hide IsCallsign, Sendable, Blank;
  }

  lemma ReadsAndAborts(caps: Capabilities, servesCw: bool, c: Command)
    ensures IsRead(c) ==> !Unsafe(caps, c) && (Missing(caps, servesCw, c) <==> c.ReadMeter? && c.meter !in caps.meters)
    ensures c.AbortCw? ==> !Unsafe(caps, c) && !Missing(caps, servesCw, c) &&
                           (Able(caps, servesCw, c) <==> servesCw && caps.cw.Some?)
  {
  }

  /** The session's answer to a command, before the host has had its say. */
  lemma HandledSays(caps: Capabilities, s: State, c: Command)
    requires s.handshaken && s.info.Some?
    ensures var reply := Handled(caps, s, Ask(c)).1;
            match c
            case ReadState => reply == StateIs(s.info.value)
            case ReadMeter(kind) =>
              reply == (if kind !in caps.meters then Refused(Unsupported)
                        else if kind in s.info.value then MeterIs(kind, s.info.value[kind]) else Refused(NotReady))
            case ReadDevices => reply == if s.devices.Some? then DevicesAre(s.devices.value) else Refused(Unsupported)
            case _ =>
              reply == (if Missing(caps, s.servesCw, c) then Refused(Unsupported)
                        else if Unsafe(caps, c) then Refused(Forbidden)
                        else if c.AbortCw? || Able(caps, s.servesCw, c) then Ack else Refused(OutOfRange))
  {
    hide Validate, Missing, Unsafe, Able;
    RefusedExactly(caps, s.servesCw, c);
    ReadsAndAborts(caps, s.servesCw, c);
  }

  lemma ServeSays(caps: Capabilities, c: Connection, m: Input)
    requires m.Incoming? && SessionMatches(c)
    ensures var log := Serve(caps, c, m).log;
            && |log| > 0 && log[|log| - 1].Replied?
            && Says(caps, c.log, if m.devices.Some? then m.devices else c.session.devices, m, log[|log| - 1].reply)
  {
    hide Validate, Missing, Unsafe, Able, Answer, LatestHello, LastSpectrum, LastAudio;
    if m.message.Ask? {
      var s := Refreshed(c.session, m.info, m.devices, m.servesCw);
      ReadsAndAborts(caps, m.servesCw, m.message.command);
      if s.handshaken {
        HandledSays(caps, s, m.message.command);
      }
    }
  }

  /**
   Every reply says what its message asks for: a welcome offers CW exactly when
   it is served and the radio has it, reads give what was last published, and a
   command is acknowledged or refused for the reason there is.
   */
  lemma RepliesSay(caps: Capabilities, servesCw: bool, inputs: seq<Input>, m: Input)
    requires m.Incoming?
    ensures var before := Run(caps, servesCw, inputs).log;
            var log := Run(caps, servesCw, inputs + [m]).log;
            && |log| > 0 && log[|log| - 1].Replied?
            && Says(caps, before, LatestDevices(inputs + [m]), m, log[|log| - 1].reply)
  {
    hide Serve, Says, SessionMatches, Entitled;
    assert (inputs + [m])[..|inputs|] == inputs;
    RunKeepsInv(caps, servesCw, inputs);
    DevicesAreLatest(caps, servesCw, inputs);
    ServeSays(caps, Run(caps, servesCw, inputs), m);
  }
}
