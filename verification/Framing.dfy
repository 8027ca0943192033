/**
 Length-prefixed frames over a byte stream, and the client's decoder that
 drains whatever has arrived, however the stream was cut into reads.
 */
module Framing {
  import opened Wrappers

  datatype FrameKind = Control | Spectrum | Audio

  datatype FrameError = Incomplete | UnknownKind(kind: byte) | TooLarge(len: nat)

  /** Largest control payload accepted. */
  const MAX_CONTROL_BYTES: nat := 0x10_0000

  datatype Frame = Frame(kind: FrameKind, payload: seq<byte>)

  function KindByte(k: FrameKind): byte {
    match k
    case Control => 1
    case Spectrum => 2
    case Audio => 3
  }

  function KindOf(b: byte): Option<FrameKind> {
    if b == 1 then Some(Control) else if b == 2 then Some(Spectrum) else if b == 3 then Some(Audio) else None
  }

  /** A length as four bytes, most significant first, keeping only its low 32 bits. */
  function LengthBytes(n: nat): seq<byte> {
    [n / 0x100_0000 % 256, n / 0x1_0000 % 256, n / 0x100 % 256, n % 256]
  }

  function LengthOf(b: seq<byte>): nat
    requires |b| >= 4
  {
    b[0] as int * 0x100_0000 + b[1] as int * 0x1_0000 + b[2] as int * 0x100 + b[3] as int
  }

  function EncodeFrame(f: Frame): seq<byte> {
    [KindByte(f.kind)] + LengthBytes(|f.payload|) + f.payload
  }

  /** Frames the decoder can carry: a length that fits, and control payloads within the limit. */
  predicate WellFormed(f: Frame) {
    |f.payload| < 0x1_0000_0000 && (f.kind.Control? ==> |f.payload| <= MAX_CONTROL_BYTES)
  }

  /** The first frame in `buf` and how many bytes it took. */
  function DecodeFrame(buf: seq<byte>): (r: Result<(Frame, nat), FrameError>)
    ensures r.Ok? ==> 5 <= r.value.1 <= |buf| && r.value.1 == 5 + |r.value.0.payload|
  {
    if |buf| < 5 then Err(Incomplete)
    else
      match KindOf(buf[0])
      case None => Err(UnknownKind(buf[0]))
      case Some(kind) =>
        var len := LengthOf(buf[1..5]);
        if kind.Control? && len > MAX_CONTROL_BYTES then Err(TooLarge(len))
        else if |buf| < 5 + len then Err(Incomplete)
        else Ok((Frame(kind, buf[5..5 + len]), 5 + len))
  }

  lemma OneByteDown(n: nat)
    ensures n / 0x100 / 0x100 == n / 0x1_0000 && n / 0x1_0000 / 0x100 == n / 0x100_0000
  {
  }

  lemma FourDigits(n: nat)
    requires n < 0x1_0000_0000
    ensures n / 0x100_0000 % 256 * 0x100_0000 + n / 0x1_0000 % 256 * 0x1_0000 + n / 0x100 % 256 * 0x100 + n % 256 == n
  {
    OneByteDown(n);
    var q, r, t := n / 0x100, n / 0x1_0000, n / 0x100_0000;
    assert n == q * 0x100 + n % 256;
    assert q == r * 0x100 + q % 256;
    assert r == t * 0x100 + r % 256;
    assert t % 256 == t;
  }

  lemma LengthRoundTrip(n: nat)
    requires n < 0x1_0000_0000
    ensures LengthOf(LengthBytes(n)) == n
  {
    FourDigits(n);
  }

  /** A well-formed frame is read back, whatever follows it. */
  lemma FrameRoundTrip(f: Frame, rest: seq<byte>)
    requires WellFormed(f)
    ensures DecodeFrame(EncodeFrame(f) + rest) == Ok((f, |EncodeFrame(f)|))
  {
    hide LengthOf, LengthBytes;
    var buf := EncodeFrame(f) + rest;
    LengthRoundTrip(|f.payload|);
    FourBytes(|f.payload|);
    assert buf[1..5] == LengthBytes(|f.payload|);
    assert buf[5..5 + |f.payload|] == f.payload;
  }

  lemma FourBytes(n: nat)
    ensures |LengthBytes(n)| == 4
  {
  }

  /** The parts of an encoded frame. */
  lemma EncodedParts(f: Frame)
    requires |f.payload| < 0x1_0000_0000
    ensures |EncodeFrame(f)| == 5 + |f.payload| && KindOf(EncodeFrame(f)[0]) == Some(f.kind)
    ensures EncodeFrame(f)[1..5] == LengthBytes(|f.payload|) && LengthOf(EncodeFrame(f)[1..5]) == |f.payload|
  {
    hide LengthOf, LengthBytes;
    FourBytes(|f.payload|);
    LengthRoundTrip(|f.payload|);
    assert EncodeFrame(f)[1..5] == LengthBytes(|f.payload|);
  }

  /** On the wire: the kind as one, two or three, the length in four bytes, highest first, and the payload. */
  lemma EncodedLayout(f: Frame)
    requires |f.payload| < 0x1_0000_0000
    ensures var bytes := EncodeFrame(f);
            && |bytes| == 5 + |f.payload| && bytes[5..] == f.payload
            && bytes[0] == (match f.kind case Control => 1 case Spectrum => 2 case Audio => 3)
            && bytes[1] as int * 0x100_0000 + bytes[2] as int * 0x1_0000 + bytes[3] as int * 0x100 + bytes[4] as int == |f.payload|
  {
    EncodedParts(f);
    hide LengthBytes;
    var bytes := EncodeFrame(f);
    assert bytes[1..5][0] == bytes[1] && bytes[1..5][1] == bytes[2] && bytes[1..5][2] == bytes[3] && bytes[1..5][3] == bytes[4];
  }

  /** The length a header states. */
  function StatedLength(buf: seq<byte>): nat
    requires |buf| >= 5
  {
    buf[1] as int * 0x100_0000 + buf[2] as int * 0x1_0000 + buf[3] as int * 0x100 + buf[4] as int
  }

  /** When decoding waits, and when it refuses: an unknown kind, or a control length past the limit before its payload. */
  lemma DecodesExactly(buf: seq<byte>)
    ensures DecodeFrame(buf) == Err(Incomplete) <==>
              || |buf| < 5
              || (1 <= buf[0] <= 3 && !(buf[0] == 1 && StatedLength(buf) > 0x10_0000) && |buf| < 5 + StatedLength(buf))
    ensures forall n :: DecodeFrame(buf) == Err(TooLarge(n)) <==>
              |buf| >= 5 && buf[0] == 1 && n == StatedLength(buf) > 0x10_0000
    ensures forall b :: DecodeFrame(buf) == Err(UnknownKind(b)) <==> |buf| >= 5 && b == buf[0] && !(1 <= b <= 3)
    ensures DecodeFrame(buf).Ok? ==>
              var (f, used) := DecodeFrame(buf).value;
              used == 5 + StatedLength(buf) <= |buf| && f.payload == buf[5..used] && buf[0] == KindByte(f.kind)
  {
    if |buf| >= 5 {
      assert LengthOf(buf[1..5]) == StatedLength(buf);
    }
  }

  /** Until its last byte arrives, a well-formed frame is merely incomplete. */
  lemma FramePrefixIncomplete(f: Frame, k: nat)
    requires WellFormed(f) && k < |EncodeFrame(f)|
    ensures DecodeFrame(EncodeFrame(f)[..k]) == Err(Incomplete)
  {
    hide LengthOf, LengthBytes, EncodeFrame, KindOf;
    EncodedParts(f);
    var buf := EncodeFrame(f)[..k];
    if k >= 5 {
      assert buf[1..5] == EncodeFrame(f)[1..5];
    }
  }

  /** More bytes never change a decision already made. */
  lemma DecodeIsStable(a: seq<byte>, b: seq<byte>)
    requires DecodeFrame(a) != Err(Incomplete)
    ensures DecodeFrame(a + b) == DecodeFrame(a)
  {
    hide LengthOf;
    if |a| >= 5 {
      assert (a + b)[1..5] == a[1..5];
      if DecodeFrame(a).Ok? {
        var n := DecodeFrame(a).value.1;
        assert (a + b)[5..n] == a[5..n];
      }
    }
  }

  // -------------------------------------------------------------------------
  // Parsing a whole buffer
  // -------------------------------------------------------------------------

  /** The frames at the front of a buffer, what is left undecoded, and the framing error that stopped it, if any. */
  datatype Parsed = Parsed(frames: seq<Frame>, rest: seq<byte>, error: Option<FrameError>)

  function Parse(buf: seq<byte>): Parsed {
    match DecodeFrame(buf)
    case Err(Incomplete) => Parsed([], buf, None)
    case Err(e) => Parsed([], [], Some(e))
    case Ok((f, n)) =>
      var p := Parse(buf[n..]);
      Parsed([f] + p.frames, p.rest, p.error)
  }

  lemma {:induction false} ParseInTwo(a: seq<byte>, b: seq<byte>)
    ensures Parse(a).error.Some? ==> Parse(a + b).error.Some? && Parse(a + b).frames == Parse(a).frames
    ensures Parse(a).error.None? ==>
              var q := Parse(Parse(a).rest + b);
              Parse(a + b) == Parsed(Parse(a).frames + q.frames, q.rest, q.error)
    decreases |a|
  {
    hide DecodeFrame;
    var d := DecodeFrame(a);
    if d == Err(Incomplete) {
      var q := Parse(a + b);
      assert [] + q.frames == q.frames;
    } else {
      DecodeIsStable(a, b);
      if d.Ok? {
        var n := d.value.1;
        DecodedLength(a);
        assert (a + b)[n..] == a[n..] + b;
        ParseInTwo(a[n..], b);
        if Parse(a).error.None? {
          var q := Parse(Parse(a).rest + b);
          assert [d.value.0] + (Parse(a[n..]).frames + q.frames) == [d.value.0] + Parse(a[n..]).frames + q.frames;
        }
      }
    }
  }

  lemma DecodedLength(a: seq<byte>)
    requires DecodeFrame(a).Ok?
    ensures 5 <= DecodeFrame(a).value.1 <= |a|
  {
  }

  function EncodeAll(fs: seq<Frame>): seq<byte> {
    if fs == [] then [] else EncodeFrame(fs[0]) + EncodeAll(fs[1..])
  }

  /** A well-formed frame at the front is parsed first. */
  lemma ParseFrame(f: Frame, more: seq<byte>)
    requires WellFormed(f)
    ensures Parse(EncodeFrame(f) + more) == Parsed([f] + Parse(more).frames, Parse(more).rest, Parse(more).error)
  {
    hide DecodeFrame, EncodeFrame, WellFormed;
    FrameRoundTrip(f, more);
    assert (EncodeFrame(f) + more)[|EncodeFrame(f)|..] == more;
  }

  /** A stream of well-formed frames parses to exactly those frames, then whatever follows parses on. */
  lemma {:induction false} ParseOfEncoded(fs: seq<Frame>, tail: seq<byte>)
    requires forall i :: 0 <= i < |fs| ==> WellFormed(fs[i])
    ensures Parse(EncodeAll(fs) + tail) == Parsed(fs + Parse(tail).frames, Parse(tail).rest, Parse(tail).error)
    decreases |fs|
  {
    hide Parse, EncodeFrame, WellFormed;
    if fs == [] {
      assert EncodeAll(fs) + tail == tail && fs + Parse(tail).frames == Parse(tail).frames;
    } else {
      var (head, more) := (EncodeFrame(fs[0]), EncodeAll(fs[1..]) + tail);
      assert EncodeAll(fs) + tail == head + more;
      ParseFrame(fs[0], more);
      ParseOfEncoded(fs[1..], tail);
      assert [fs[0]] + (fs[1..] + Parse(tail).frames) == fs + Parse(tail).frames;
    }
  }

  // -------------------------------------------------------------------------
  // The client's state
  // -------------------------------------------------------------------------

  /** A control payload that decodes, one that does not, or the framing error that ended the stream. */
  datatype Item = Message(payload: seq<byte>) | Undecoded(text: seq<byte>) | Broken(error: FrameError)

  /** What has been received: undecoded bytes, queued control messages, and the newest pictures. */
  datatype Inbox = Inbox(pending: seq<byte>, items: seq<Item>, spectrum: Option<seq<byte>>, audio: Option<seq<byte>>)

  /** Which payloads of each kind decode. */
  datatype Decoders = Decoders(control: seq<byte> -> bool, spectrum: seq<byte> -> bool, audio: seq<byte> -> bool)

  function ItemOf(payload: seq<byte>, d: Decoders): Item {
    if d.control(payload) then Message(payload) else Undecoded(payload)
  }

  function Absorb(c: Inbox, f: Frame, d: Decoders): Inbox {
    match f.kind
    case Control => c.(items := c.items + [ItemOf(f.payload, d)])
    case Spectrum => if d.spectrum(f.payload) then c.(spectrum := Some(f.payload)) else c
    case Audio => if d.audio(f.payload) then c.(audio := Some(f.payload)) else c
  }

  function AbsorbAll(c: Inbox, fs: seq<Frame>, d: Decoders): Inbox
    decreases |fs|
  {
    if fs == [] then c else AbsorbAll(Absorb(c, fs[0], d), fs[1..], d)
  }

  /** A state with the frames of a parse absorbed, its tail pending, and its error queued. */
  function Settled(c: Inbox, p: Parsed, d: Decoders): Inbox {
    var c' := AbsorbAll(c, p.frames, d).(pending := p.rest);
    if p.error.Some? then c'.(items := c'.items + [Broken(p.error.value)]) else c'
  }

  /** The state after everything decodable in `pending` has been taken. */
  function Drained(c: Inbox, d: Decoders): Inbox {
    Settled(c, Parse(c.pending), d)
  }

  /** One read from the socket, then a drain. */
  function Received(c: Inbox, chunk: seq<byte>, d: Decoders): Inbox {
    Drained(c.(pending := c.pending + chunk), d)
  }

  function ReceivedAll(c: Inbox, chunks: seq<seq<byte>>, d: Decoders): Inbox {
    if chunks == [] then c else Received(ReceivedAll(c, chunks[..|chunks| - 1], d), chunks[|chunks| - 1], d)
  }

  function Joined(chunks: seq<seq<byte>>): seq<byte> {
    if chunks == [] then [] else Joined(chunks[..|chunks| - 1]) + chunks[|chunks| - 1]
  }

  class Connection {
    var pending: seq<byte>
    var items: seq<Item>
    var latestSpectrum: Option<seq<byte>>
    var latestAudio: Option<seq<byte>>
    const decoders: Decoders

    constructor (decoders: Decoders)
      ensures Value() == Inbox([], [], None, None) && this.decoders == decoders
    {
      pending, items, latestSpectrum, latestAudio := [], [], None, None;
      this.decoders := decoders;
    }

    function Value(): Inbox
      reads this
    {
      Inbox(pending, items, latestSpectrum, latestAudio)
    }

    method Take(f: Frame)
      modifies this`items, this`latestSpectrum, this`latestAudio
      ensures Value() == Absorb(old(Value()), f, decoders)
    {
      match f.kind {
        case Control =>
          if decoders.control(f.payload) {
            items := items + [Message(f.payload)];
          } else {
            items := items + [Undecoded(f.payload)];
          }
        case Spectrum =>
          if decoders.spectrum(f.payload) {
            latestSpectrum := Some(f.payload);
          }
        case Audio =>
          if decoders.audio(f.payload) {
            latestAudio := Some(f.payload);
          }
      }
    }

    /** Decodes every complete frame in `pending`. */
    method DrainFrames()
      modifies this
      ensures Value() == Drained(old(Value()), decoders)
    {
      hide DecodeFrame, Absorb;
      ghost var start := Value();
      ghost var whole := Parse(pending);
      var consumed := 0;
      assert pending[0..] == pending;
      while true
        invariant 0 <= consumed <= |pending| && pending == start.pending
        invariant Rest(start, whole, Value(), pending[consumed..], decoders)
        decreases |pending| - consumed
      {
        var next := DecodeFrame(pending[consumed..]);
        if next.Err? {
          if next.error != Incomplete {
            items := items + [Broken(next.error)];
            consumed := |pending|;
          }
          break;
        }
        DecodedLength(pending[consumed..]);
        ghost var here := pending[consumed..];
        Take(next.value.0);
        consumed := consumed + next.value.1;
        assert here[next.value.1..] == pending[consumed..];
      }
      pending := pending[consumed..];
    }
  }

  /** Absorbing the frames still in `rest` into `now` ends where absorbing all of `whole` into `start` ends. */
  ghost predicate Rest(start: Inbox, whole: Parsed, now: Inbox, rest: seq<byte>, d: Decoders) {
    && now.pending == start.pending
    && AbsorbAll(now, Parse(rest).frames, d) == AbsorbAll(start, whole.frames, d)
    && Parse(rest).rest == whole.rest && Parse(rest).error == whole.error
  }

  // -------------------------------------------------------------------------
  // Chunking
  // -------------------------------------------------------------------------

  lemma {:induction false} AbsorbInTwo(c: Inbox, a: seq<Frame>, b: seq<Frame>, d: Decoders)
    ensures AbsorbAll(c, a + b, d) == AbsorbAll(AbsorbAll(c, a, d), b, d)
    decreases |a|
  {
    if a == [] {
      assert a + b == b;
    } else {
      assert (a + b)[1..] == a[1..] + b;
      AbsorbInTwo(Absorb(c, a[0], d), a[1..], b, d);
    }
  }

  lemma {:induction false} AbsorbKeepsPending(c: Inbox, fs: seq<Frame>, d: Decoders, pending: seq<byte>)
    ensures AbsorbAll(c.(pending := pending), fs, d) == AbsorbAll(c, fs, d).(pending := pending)
    decreases |fs|
  {
    if fs != [] {
      AbsorbKeepsPending(Absorb(c, fs[0], d), fs[1..], d, pending);
    }
  }

  /** The state after one read of all the bytes at once. */
  function AtOnce(c: Inbox, bytes: seq<byte>, d: Decoders): Inbox {
    ReceivedAll(c, [bytes], d)
  }

  lemma AtOnceIs(c: Inbox, bytes: seq<byte>, d: Decoders)
    ensures AtOnce(c, bytes, d) == Received(c, bytes, d)
  {
    hide Received;
    var one: seq<seq<byte>> := [bytes];
    assert one[..|one| - 1] == [];
    assert ReceivedAll(c, one[..|one| - 1], d) == c;
  }

  /** What was pending matters to a read only through the bytes it parses. */
  lemma ReceivedIs(c: Inbox, chunk: seq<byte>, d: Decoders)
    ensures Received(c, chunk, d) == Settled(c, Parse(c.pending + chunk), d)
  {
    hide DecodeFrame, Absorb, Parse;
    AbsorbKeepsPending(c, Parse(c.pending + chunk).frames, d, c.pending + chunk);
  }

  /** One more read after a clean start is one read of everything. */
  lemma OneMoreRead(c: Inbox, front: seq<byte>, last: seq<byte>, d: Decoders)
    requires c.pending == [] && Parse(front).error.None?
    ensures Received(Received(c, front, d), last, d) == Received(c, front + last, d)
  {
    hide Received, AbsorbAll, Parse;
    var p := Parse(front);
    var q := Parse(p.rest + last);
    var mid := AbsorbAll(c, p.frames, d);
    assert c.pending + front == front && c.pending + (front + last) == front + last;
    ReceivedIs(c, front, d);
    ReceivedIs(mid.(pending := p.rest), last, d);
    ReceivedIs(c, front + last, d);
    ParseInTwo(front, last);
    AbsorbInTwo(c, p.frames, q.frames, d);
    AbsorbKeepsPending(mid, q.frames, d, p.rest);
  }

  /** Reads that hold no framing error before the last one end where one read of all their bytes does. */
  lemma {:induction false} CleanReads(c: Inbox, chunks: seq<seq<byte>>, d: Decoders)
    requires c.pending == [] && (chunks != [] ==> Parse(Joined(chunks[..|chunks| - 1])).error.None?)
    ensures ReceivedAll(c, chunks, d) == Received(c, Joined(chunks), d)
  {
    hide Received, Parse;
    if chunks == [] {
      NothingReceived(c, d);
    } else {
      var front := chunks[..|chunks| - 1];
      if front != [] {
        var before := Joined(front[..|front| - 1]);
        ParseInTwo(before, front[|front| - 1]);
      }
      CleanReads(c, front, d);
      OneMoreRead(c, Joined(front), chunks[|chunks| - 1], d);
    }
  }

  lemma NothingReceived(c: Inbox, d: Decoders)
    requires c.pending == []
    ensures Received(c, [], d) == c
  {
    NothingParsed();
    assert c.pending + [] == [];
  }

  /**
   As long as the bytes hold no framing error, the state after any number of
   reads depends only on the bytes: the frames in order, and the undecoded tail.
   */
  lemma ChunksDoNotMatter(c: Inbox, chunks: seq<seq<byte>>, d: Decoders)
    requires c.pending == [] && Parse(Joined(chunks)).error.None?
    ensures var p := Parse(Joined(chunks));
            ReceivedAll(c, chunks, d) == AbsorbAll(c, p.frames, d).(pending := p.rest)
  {
    hide DecodeFrame, Absorb, Parse;
    if chunks != [] {
      ParseInTwo(Joined(chunks[..|chunks| - 1]), chunks[|chunks| - 1]);
    }
    CleanReads(c, chunks, d);
    assert [] + Joined(chunks) == Joined(chunks);
    AbsorbKeepsPending(c, Parse(Joined(chunks)).frames, d, Joined(chunks));
  }

  /** A framing error leaves nothing pending. */
  lemma {:induction false} ErrorLeavesNothing(bytes: seq<byte>)
    requires Parse(bytes).error.Some?
    ensures Parse(bytes).rest == []
    decreases |bytes|
  {
    if DecodeFrame(bytes).Ok? {
      ErrorLeavesNothing(bytes[DecodeFrame(bytes).value.1..]);
    }
  }

  /** Every cut ends as one read does when no error shows before the last byte. */
  lemma {:induction false} LateErrorHidesCuts(c: Inbox, chunks: seq<seq<byte>>, bytes: seq<byte>, d: Decoders)
    requires c.pending == [] && Joined(chunks) == bytes
    requires bytes == [] || Parse(bytes[..|bytes| - 1]).error.None?
    ensures ReceivedAll(c, chunks, d) == Received(c, bytes, d)
  {
    hide Received, Parse;
    if chunks == [] {
      CleanReads(c, chunks, d);
    } else {
      var (front, last) := (chunks[..|chunks| - 1], chunks[|chunks| - 1]);
      if last == [] {
        assert Joined(front) == bytes;
        LateErrorHidesCuts(c, front, bytes, d);
        EmptyReadAfter(c, bytes, d);
      } else {
        var before := Joined(front);
        assert bytes[..|bytes| - 1] == before + last[..|last| - 1];
        ParseInTwo(before, last[..|last| - 1]);
        CleanReads(c, chunks, d);
      }
    }
  }

  /** A read of nothing changes nothing. */
  lemma EmptyReadAfter(c: Inbox, bytes: seq<byte>, d: Decoders)
    requires c.pending == []
    ensures Received(Received(c, bytes, d), [], d) == Received(c, bytes, d)
  {
    hide DecodeFrame, Absorb;
    if Parse(bytes).error.None? {
      OneMoreRead(c, bytes, [], d);
      assert bytes + [] == bytes;
    } else {
      ErrorLeavesNothing(bytes);
      assert [] + bytes == bytes;
      NothingReceived(Received(c, bytes, d), d);
    }
  }

  /** A byte that comes after an error stays pending if read on its own, and is lost if read with it. */
  lemma EarlyErrorShowsCut(c: Inbox, front: seq<byte>, last: byte, d: Decoders)
    requires c.pending == [] && Parse(front).error.Some?
    ensures Received(c, front + [last], d).pending == []
    ensures Received(Received(c, front, d), [last], d).pending == [last]
  {
    hide Absorb, AbsorbAll;
    ParseInTwo(front, [last]);
    ErrorLeavesNothing(front);
    ErrorLeavesNothing(front + [last]);
    assert [] + front == front && [] + (front + [last]) == front + [last] && [] + [last] == [last];
  }

  lemma TwoReads(c: Inbox, a: seq<byte>, b: seq<byte>, d: Decoders)
    ensures Joined([a, b]) == a + b
    ensures ReceivedAll(c, [a, b], d) == Received(Received(c, a, d), b, d)
  {
    hide Received;
    var one: seq<seq<byte>> := [a];
    var two := [a, b];
    assert two[..1] == one && one[..0] == [];
    assert Joined(one[..0]) == [] && [] + a == a;
    assert Joined(one) == a;
    AtOnceIs(c, a, d);
  }

  /** How a stream is cut into reads makes no difference exactly when no framing error shows before its last byte. */
  lemma CutsMatterExactly(c: Inbox, bytes: seq<byte>, d: Decoders)
    requires c.pending == []
    ensures (forall chunks :: Joined(chunks) == bytes ==> ReceivedAll(c, chunks, d) == AtOnce(c, bytes, d))
              <==> bytes == [] || Parse(bytes[..|bytes| - 1]).error.None?
  {
    hide Received, Parse, ReceivedAll, Joined, AtOnce;
    AtOnceIs(c, bytes, d);
    if bytes == [] || Parse(bytes[..|bytes| - 1]).error.None? {
      forall chunks | Joined(chunks) == bytes ensures ReceivedAll(c, chunks, d) == AtOnce(c, bytes, d) {
        LateErrorHidesCuts(c, chunks, bytes, d);
      }
    } else {
      var (front, last) := (bytes[..|bytes| - 1], bytes[|bytes| - 1]);
      EarlyErrorShowsCut(c, front, last, d);
      TwoReads(c, front, [last], d);
      assert front + [last] == bytes;
      assert Joined([front, [last]]) == bytes;
    }
  }

  lemma NothingParsed()
    ensures Parse([]) == Parsed([], [], None)
  {
  }

  /** What the control payloads among `fs` queue, in order. */
  function Messages(fs: seq<Frame>, d: Decoders): seq<Item>
    decreases |fs|
  {
    if fs == [] then [] else (if fs[0].kind.Control? then [ItemOf(fs[0].payload, d)] else []) + Messages(fs[1..], d)
  }

  /** The newest payload of one kind that decodes, or `was`. */
  function Newest(fs: seq<Frame>, kind: FrameKind, decodes: seq<byte> -> bool, was: Option<seq<byte>>): Option<seq<byte>> {
    if fs == [] then was
    else
      var last := fs[|fs| - 1];
      if last.kind == kind && decodes(last.payload) then Some(last.payload)
      else Newest(fs[..|fs| - 1], kind, decodes, was)
  }

  /** The newest is the last of its kind that decodes; with none there is what there was. */
  lemma {:induction false} NewestIsLast(fs: seq<Frame>, kind: FrameKind, decodes: seq<byte> -> bool, was: Option<seq<byte>>, i: int)
    requires -1 <= i < |fs|
    requires forall k :: i < k < |fs| ==> fs[k].kind != kind || !decodes(fs[k].payload)
    ensures i == -1 ==> Newest(fs, kind, decodes, was) == was
    ensures i >= 0 && fs[i].kind == kind && decodes(fs[i].payload) ==> Newest(fs, kind, decodes, was) == Some(fs[i].payload)
    decreases |fs|
  {
    if fs != [] && i < |fs| - 1 {
      NewestIsLast(fs[..|fs| - 1], kind, decodes, was, i);
    }
  }

  /** Exactly the control frames are queued, in order. */
  lemma {:induction false} MessagesInOrder(fs: seq<Frame>, d: Decoders) returns (places: seq<nat>)
    ensures |places| == |Messages(fs, d)|
    ensures forall t :: 0 <= t < |places| ==>
              places[t] < |fs| && fs[places[t]].kind.Control? &&
              Messages(fs, d)[t] == if d.control(fs[places[t]].payload) then Message(fs[places[t]].payload)
                                    else Undecoded(fs[places[t]].payload)
    ensures forall t, s :: 0 <= t < s < |places| ==> places[t] < places[s]
    ensures forall i :: 0 <= i < |fs| && fs[i].kind.Control? ==> i in places
    decreases |fs|
  {
    hide Messages;
    if fs == [] {
      NoMessages(d);
      places := [];
    } else {
      var (front, last) := (fs[..|fs| - 1], fs[|fs| - 1]);
      places := MessagesInOrder(front, d);
      MessagesPush(front, last, d);
      assert fs == front + [last];
      if last.kind.Control? {
        places := places + [|fs| - 1];
      }
    }
  }

  lemma NoMessages(d: Decoders)
    ensures Messages([], d) == []
  {
  }

  lemma {:induction false} MessagesPush(fs: seq<Frame>, f: Frame, d: Decoders)
    ensures Messages(fs + [f], d) == Messages(fs, d) + if f.kind.Control? then [ItemOf(f.payload, d)] else []
    decreases |fs|
  {
    hide ItemOf;
    if fs == [] {
      assert fs + [f] == [f] && [f][1..] == [];
    } else {
      assert (fs + [f])[1..] == fs[1..] + [f] && (fs + [f])[0] == fs[0];
      MessagesPush(fs[1..], f, d);
    }
  }

  lemma {:induction false} NewestFromFront(fs: seq<Frame>, kind: FrameKind, decodes: seq<byte> -> bool, was: Option<seq<byte>>)
    requires fs != []
    ensures Newest(fs, kind, decodes, was) ==
            Newest(fs[1..], kind, decodes,
                   if fs[0].kind == kind && decodes(fs[0].payload) then Some(fs[0].payload) else was)
    decreases |fs|
  {
    var k := |fs| - 1;
    if k > 0 {
      NewestFromFront(fs[..k], kind, decodes, was);
      assert fs[1..][..k - 1] == fs[..k][1..];
    }
  }

  /** Absorbing frames queues every control payload in order and keeps only the newest decodable picture of each kind. */
  lemma {:induction false} AbsorbMeans(c: Inbox, fs: seq<Frame>, d: Decoders)
    ensures AbsorbAll(c, fs, d) == Inbox(c.pending, c.items + Messages(fs, d), Newest(fs, Spectrum, d.spectrum, c.spectrum),
                                         Newest(fs, Audio, d.audio, c.audio))
    decreases |fs|
  {
    if fs == [] {
      assert c.items + [] == c.items;
    } else {
      var c' := Absorb(c, fs[0], d);
      AbsorbMeans(c', fs[1..], d);
      NewestFromFront(fs, Spectrum, d.spectrum, c.spectrum);
      NewestFromFront(fs, Audio, d.audio, c.audio);
      assert c'.items + Messages(fs[1..], d) == c.items + Messages(fs, d);
    }
  }

  /** Any cut of a stream of well-formed frames parses to the whole frames before the cut and the tail after them. */
  lemma {:induction false} ParseOfPrefix(fs: seq<Frame>, k: nat) returns (n: nat)
    requires (forall i :: 0 <= i < |fs| ==> WellFormed(fs[i])) && k <= |EncodeAll(fs)|
    ensures n <= |fs| && |EncodeAll(fs[..n])| <= k
    ensures EncodeAll(fs)[..|EncodeAll(fs[..n])|] == EncodeAll(fs[..n])
    ensures Parse(EncodeAll(fs)[..k]) == Parsed(fs[..n], EncodeAll(fs)[|EncodeAll(fs[..n])|..k], None)
    ensures n < |fs| ==> k < |EncodeAll(fs[..n])| + |EncodeFrame(fs[n])|
    decreases |fs|
  {
    hide Parse, EncodeFrame, WellFormed;
    if fs == [] {
      NothingParsed();
      n := 0;
    } else {
      var (head, all) := (EncodeFrame(fs[0]), EncodeAll(fs));
      if k < |head| {
        assert all[..k] == head[..k];
        ParsePartial(fs[0], k);
        n := 0;
        assert fs[..0] == [] && EncodeAll([]) == [] && all[0..k] == all[..k];
      } else {
        var m := ParseOfPrefix(fs[1..], k - |head|);
        n := m + 1;
        var (tail, more) := (EncodeAll(fs[1..]), EncodeAll(fs[1..])[..k - |head|]);
        assert all[..k] == head + more;
        ParseFrame(fs[0], more);
        assert fs[..n][1..] == fs[1..][..m] && [fs[0]] + fs[1..][..m] == fs[..n];
        var part := EncodeAll(fs[1..][..m]);
        assert EncodeAll(fs[..n]) == head + part;
        assert all[|head| + |part|..k] == tail[|part|..k - |head|];
        assert all[..|head| + |part|] == head + tail[..|part|];
      }
    }
  }

  lemma ParsePartial(f: Frame, k: nat)
    requires WellFormed(f) && k < |EncodeFrame(f)|
    ensures Parse(EncodeFrame(f)[..k]) == Parsed([], EncodeFrame(f)[..k], None)
  {
    hide DecodeFrame, EncodeFrame, WellFormed;
    FramePrefixIncomplete(f, k);
  }

  ghost predicate ReportsError(items: seq<Item>) {
    exists i :: 0 <= i < |items| && items[i].Broken?
  }

  /**
   However a stream of well-formed frames is cut into reads, and wherever it
   stops, the client holds every whole control payload in order, the newest
   decodable picture of each kind, and exactly the undecoded tail, and reports
   no error.
   */
  lemma StreamIsRead(fs: seq<Frame>, k: nat, chunks: seq<seq<byte>>, d: Decoders) returns (n: nat)
    requires (forall i :: 0 <= i < |fs| ==> WellFormed(fs[i])) && k <= |EncodeAll(fs)|
    requires Joined(chunks) == EncodeAll(fs)[..k]
    ensures n <= |fs| && |EncodeAll(fs[..n])| <= k
    ensures n < |fs| ==> k < |EncodeAll(fs[..n])| + |EncodeFrame(fs[n])|
    ensures ReceivedAll(Inbox([], [], None, None), chunks, d) ==
            Inbox(EncodeAll(fs)[|EncodeAll(fs[..n])|..k], Messages(fs[..n], d),
                  Newest(fs[..n], Spectrum, d.spectrum, None), Newest(fs[..n], Audio, d.audio, None))
    ensures !ReportsError(Messages(fs[..n], d))
  {
    hide DecodeFrame, EncodeFrame, WellFormed, AbsorbAll, Received, Newest;
    n := ParseOfPrefix(fs, k);
    var start := Inbox([], [], None, None);
    ChunksDoNotMatter(start, chunks, d);
    AbsorbMeans(start, fs[..n], d);
    assert [] + Messages(fs[..n], d) == Messages(fs[..n], d);
    MessagesAreNotErrors(fs[..n], d);
  }

  lemma {:induction false} MessagesAreNotErrors(fs: seq<Frame>, d: Decoders)
    ensures !ReportsError(Messages(fs, d))
    decreases |fs|
  {
    if fs != [] {
      MessagesAreNotErrors(fs[1..], d);
    }
  }

  lemma {:induction false} ErrorsStay(c: Inbox, fs: seq<Frame>, d: Decoders)
    requires ReportsError(c.items)
    ensures ReportsError(AbsorbAll(c, fs, d).items)
  {
    AbsorbMeans(c, fs, d);
    var i :| 0 <= i < |c.items| && c.items[i].Broken?;
    assert (c.items + Messages(fs, d))[i].Broken?;
  }

  /** A framing error is reported exactly when the bytes, taken together, hold one, however they are cut. */
  lemma {:induction false} ErrorIsReported(chunks: seq<seq<byte>>, d: Decoders)
    ensures ReportsError(ReceivedAll(Inbox([], [], None, None), chunks, d).items) <==> Parse(Joined(chunks)).error.Some?
  {
    hide DecodeFrame, Parse, AbsorbAll;
    var start := Inbox([], [], None, None);
    if Parse(Joined(chunks)).error.None? {
      var fs := Parse(Joined(chunks)).frames;
      ChunksDoNotMatter(start, chunks, d);
      AbsorbMeans(start, fs, d);
      assert [] + Messages(fs, d) == Messages(fs, d);
      MessagesAreNotErrors(fs, d);
    } else if chunks == [] {
      NothingParsed();
    } else {
      var (front, last) := (chunks[..|chunks| - 1], chunks[|chunks| - 1]);
      ErrorIsReported(front, d);
      ParseInTwo(Joined(front), last);
      var c := ReceivedAll(start, front, d);
      var mid := c.(pending := c.pending + last);
      if Parse(Joined(front)).error.Some? {
        ErrorsStay(mid, Parse(mid.pending).frames, d);
        ErrorsPush(AbsorbAll(mid, Parse(mid.pending).frames, d).items, Parse(mid.pending).error);
      } else {
        ChunksDoNotMatter(start, front, d);
        ErrorsPush(AbsorbAll(mid, Parse(mid.pending).frames, d).items, Parse(mid.pending).error);
      }
    }
  }

  lemma ErrorsPush(items: seq<Item>, e: Option<FrameError>)
    ensures ReportsError(items) && e.Some? ==> ReportsError(items + [Broken(e.value)])
    ensures e.Some? ==> ReportsError(items + [Broken(e.value)])
  {
    if e.Some? {
      assert (items + [Broken(e.value)])[|items|].Broken?;
    }
  }

  lemma ReceivesGarbage(c: Inbox, bad: seq<byte>, d: Decoders)
    requires c.pending == [] && |bad| >= 5 && KindOf(bad[0]).None?
    ensures Received(c, bad, d) == c.(items := c.items + [Broken(UnknownKind(bad[0]))])
  {
    assert [] + bad == bad;
  }

  lemma ReceivesMessage(c: Inbox, f: Frame, d: Decoders)
    requires c.pending == [] && WellFormed(f) && f.kind.Control?
    ensures Received(c, EncodeFrame(f), d) == c.(items := c.items + [ItemOf(f.payload, d)])
  {
    hide DecodeFrame, EncodeFrame, Parse;
    ParseOfEncoded([f], []);
    NothingParsed();
    assert [f][1..] == [] && EncodeAll([]) == [];
    assert EncodeAll([f]) + [] == EncodeFrame(f) == [] + EncodeFrame(f);
    assert [f] + [] == [f];
    assert c.pending + EncodeFrame(f) == EncodeFrame(f);
    var c' := c.(pending := EncodeFrame(f));
    assert AbsorbAll(c', [f], d) == AbsorbAll(Absorb(c', f, d), [], d) == Absorb(c', f, d);
  }

  /** After an error the cuts do matter: bytes read along with the bad frame are dropped, later ones are not. */
  lemma BrokenStreamDependsOnCuts(bad: seq<byte>, f: Frame, d: Decoders)
    requires |bad| >= 5 && KindOf(bad[0]).None? && WellFormed(f) && f.kind.Control?
    ensures var (start, good) := (Inbox([], [], None, None), EncodeFrame(f));
            && ReceivedAll(start, [bad + good], d).items == [Broken(UnknownKind(bad[0]))]
            && ReceivedAll(start, [bad, good], d).items == [Broken(UnknownKind(bad[0])), ItemOf(f.payload, d)]
  {
    hide Received, EncodeFrame;
    var (start, good) := (Inbox([], [], None, None), EncodeFrame(f));
    ReceivesGarbage(start, bad + good, d);
    ReceivesGarbage(start, bad, d);
    ReceivesMessage(Received(start, bad, d), f, d);
    assert [bad + good][..0] == [] && [bad, good][..1] == [bad] && [bad][..0] == [];
    assert ReceivedAll(start, [], d) == start;
    assert ReceivedAll(start, [bad], d) == Received(start, bad, d);
  }
}
