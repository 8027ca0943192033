/**
 CI-V: packed BCD in both byte orders, framing and addressing on the bus, the
 command table, and where a reader finds the end of a frame.
 */
module Civ {
  import opened Wrappers
  import Sums

  const PREAMBLE: byte := 0xFE
  const END_OF_MESSAGE: byte := 0xFD
  const MAX_FRAME_LEN: nat := 64
  const U64: nat := 0x1_0000_0000_0000_0000

  // -------------------------------------------------------------------------
  // Packed BCD
  // -------------------------------------------------------------------------

  predicate IsPair(b: byte) {
    b / 16 <= 9 && b % 16 <= 9
  }

  predicate IsBcd(bytes: seq<byte>) {
    forall i :: 0 <= i < |bytes| ==> IsPair(bytes[i])
  }

  function Pair(digits: nat): (b: byte)
    requires digits < 100
    ensures IsPair(b)
  {
    digits / 10 * 16 + digits % 10
  }

  function PairValue(b: byte): (v: nat)
    requires IsPair(b)
    ensures v < 100 && Pair(v) == b
  {
    b / 16 * 10 + b % 16
  }

  function Power100(k: nat): (p: nat)
    ensures p > 0
  {
    if k == 0 then 1 else 100 * Power100(k - 1)
  }

  /** The last `k` pairs of decimal digits, least significant pair first. */
  function Bcd(value: nat, k: nat): (bytes: seq<byte>)
    ensures |bytes| == k && IsBcd(bytes)
  {
    if k == 0 then [] else [Pair(value % 100)] + Bcd(value / 100, k - 1)
  }

  /** The number a sequence of digit pairs spells, least significant pair first. */
  function Spelled(bytes: seq<byte>): (v: nat)
    requires IsBcd(bytes)
    ensures v < Power100(|bytes|)
  {
    if bytes == [] then 0 else PairValue(bytes[0]) + 100 * Spelled(bytes[1..])
  }

  /** What decoding yields: a refusal for a nibble above nine, else the number in 64 bits. */
  function Decoded(bytes: seq<byte>): Option<nat> {
    if IsBcd(bytes) then Some(Spelled(bytes) % U64) else None
  }

  method EncodeBcd(value: nat, bytes: nat) returns (out: seq<byte>)
    ensures out == Bcd(value, bytes)
  {
    hide Bcd;
    out := [];
    var v := value;
    assert out + Bcd(v, bytes) == Bcd(v, bytes);
    for i := 0 to bytes
      invariant out + Bcd(v, bytes - i) == Bcd(value, bytes)
    {
      ghost var rest := FirstPair(v, bytes - i);
      var low := v % 10;
      v := v / 10;
      var high := v % 10;
      v := v / 10;
      assert out + ([high * 16 + low] + rest) == out + [high * 16 + low] + rest;
      out := out + [high * 16 + low];
    }
    assert Bcd(v, 0) == [];
  }

  /** The first pair as its two digits, and the pairs after it. */
  lemma FirstPair(v: nat, k: nat) returns (rest: seq<byte>)
    requires k > 0
    ensures rest == Bcd(v / 10 / 10, k - 1) && Bcd(v, k) == [v / 10 % 10 * 16 + v % 10] + rest
  {
    DigitsOfPair(v);
    rest := Bcd(v / 100, k - 1);
  }

  lemma DigitsOfPair(v: nat)
    ensures v / 10 / 10 == v / 100
    ensures v % 100 / 10 == v / 10 % 10 && v % 100 % 10 == v % 10
    ensures Pair(v % 100) == v / 10 % 10 * 16 + v % 10
  {
  }

  method EncodeBcdBe(value: nat, bytes: nat) returns (out: seq<byte>)
    ensures out == Reversed(Bcd(value, bytes))
  {
    out := EncodeBcd(value, bytes);
    out := Reversed(out);
  }

  lemma WrapStep(value: nat, digits: nat)
    ensures (value % U64 * 100 + digits) % U64 == (digits + 100 * value) % U64
  {
    var q, r := value / U64, value % U64;
    assert digits + 100 * value == r * 100 + digits + 100 * q * U64;
    WrapAdds(r * 100 + digits, 100 * q);
  }

  lemma {:induction false} WrapAdds(x: nat, k: nat)
    ensures (x + k * U64) % U64 == x % U64
  {
    if k > 0 {
      WrapAdds(x, k - 1);
      assert x + k * U64 == x + (k - 1) * U64 + U64;
    }
  }

  lemma NothingSpelled(bytes: seq<byte>)
    requires bytes == []
    ensures Spelled(bytes) == 0
  {
  }

  lemma SpelledInFront(b: byte, later: seq<byte>)
    requires IsPair(b) && IsBcd(later)
    ensures IsBcd([b] + later) && Spelled([b] + later) == (b / 16 * 10 + b % 16) + 100 * Spelled(later)
  {
    assert ([b] + later)[1..] == later;
  }

  /** One more digit pair in front, in 64 bits. */
  lemma SpellOneMore(b: byte, later: seq<byte>)
    requires IsPair(b) && IsBcd(later)
    ensures IsBcd([b] + later)
    ensures Spelled([b] + later) % U64 == (Spelled(later) % U64 * 100 + b / 16 * 10 + b % 16) % U64
  {
    hide Spelled, IsPair, IsBcd;
    var s := Spelled(later);
    SpelledInFront(b, later);
    WrapStep(s, b / 16 * 10 + b % 16);
    assert s % U64 * 100 + b / 16 * 10 + b % 16 == s % U64 * 100 + (b / 16 * 10 + b % 16);
  }

  method DecodeBcd(bytes: seq<byte>) returns (r: Option<nat>)
    ensures r == Decoded(bytes)
  {
    hide Spelled;
    var value := 0;
    var i := |bytes|;
    NothingSpelled(bytes[i..]);
    while i > 0
      invariant 0 <= i <= |bytes|
      invariant IsBcd(bytes[i..]) && value == Spelled(bytes[i..]) % U64
    {
      i := i - 1;
      var high, low := bytes[i] / 16, bytes[i] % 16;
      if high > 9 || low > 9 {
        assert !IsPair(bytes[i]);
        return None;
      }
      assert bytes[i..] == [bytes[i]] + bytes[i + 1..];
      SpellOneMore(bytes[i], bytes[i + 1..]);
      value := (value * 100 + high * 10 + low) % U64;
    }
    assert bytes[0..] == bytes;
    r := Some(value);
  }

  method DecodeBcdBe(bytes: seq<byte>) returns (r: Option<nat>)
    ensures r == Decoded(Reversed(bytes))
  {
    hide Spelled;
    var value := 0;
    NothingSpelled(Reversed(bytes[..0]));
    for i := 0 to |bytes|
      invariant IsBcd(Reversed(bytes[..i])) && value == Spelled(Reversed(bytes[..i])) % U64
    {
      var high, low := bytes[i] / 16, bytes[i] % 16;
      if high > 9 || low > 9 {
        assert Reversed(bytes)[|bytes| - 1 - i] == bytes[i] && !IsPair(bytes[i]);
        return None;
      }
      assert Reversed(bytes[..i + 1]) == [bytes[i]] + Reversed(bytes[..i]);
      SpellOneMore(bytes[i], Reversed(bytes[..i]));
      value := (value * 100 + high * 10 + low) % U64;
    }
    assert bytes[..|bytes|] == bytes;
    r := Some(value);
  }

  lemma ReversedTwice(bytes: seq<byte>)
    ensures Reversed(Reversed(bytes)) == bytes
    ensures IsBcd(bytes) ==> IsBcd(Reversed(bytes))
  {
  }

  lemma SplitMod(value: nat, p: nat)
    requires p > 0
    ensures value % (100 * p) == value % 100 + 100 * (value / 100 % p)
  {
    var q, r := value / 100, value % 100;
    var a, b := q / p, q % p;
    assert value == a * (100 * p) + (r + 100 * b) by {
      assert q == a * p + b;
      assert a * (100 * p) == 100 * (a * p);
    }
    assert r + 100 * b < 100 * p;
    RemainderIs(value, 100 * p, a, r + 100 * b);
  }

  lemma RemainderIs(x: nat, d: nat, q: nat, r: nat)
    requires r < d && x == q * d + r
    ensures x % d == r
  {
    var q', r' := x / d, x % d;
    assert x == q' * d + r';
    assert (q' - q) * d == q' * d - q * d;
    AtLeastOnce(q' - q, d);
  }

  lemma AtLeastOnce(k: int, d: int)
    requires d > 0
    ensures k > 0 ==> k * d >= d
    ensures k < 0 ==> k * d <= -d
  {
    if k > 0 {
      Sums.MulMonotone(1, k, d);
    } else if k < 0 {
      Sums.MulMonotone(1, -k, d);
    }
  }

  lemma PairReadBack(digits: nat)
    requires digits < 100
    ensures PairValue(Pair(digits)) == digits
  {
    var high, low := digits / 10, digits % 10;
    assert (high * 16 + low) / 16 == high && (high * 16 + low) % 16 == low;
  }

  lemma LowPair(p: nat, rest: nat)
    requires p < 100
    ensures (p + 100 * rest) % 100 == p && (p + 100 * rest) / 100 == rest
  {
  }

  /** The digits spell the value's low digits: a value too large loses its top, and nothing else. */
  lemma {:induction false} SpelledBack(value: nat, k: nat)
    ensures Spelled(Bcd(value, k)) == value % Power100(k)
  {
    hide Pair, PairValue;
    if k > 0 {
      SpelledBack(value / 100, k - 1);
      SplitMod(value, Power100(k - 1));
      assert Bcd(value, k)[1..] == Bcd(value / 100, k - 1);
      PairReadBack(value % 100);
    }
  }

  lemma {:induction false} RespelledBack(bytes: seq<byte>)
    requires IsBcd(bytes)
    ensures Bcd(Spelled(bytes), |bytes|) == bytes
  {
    hide Pair, PairValue;
    if bytes != [] {
      RespelledBack(bytes[1..]);
      LowPair(PairValue(bytes[0]), Spelled(bytes[1..]));
      assert bytes == [bytes[0]] + bytes[1..];
    }
  }

  lemma ModAtMost(x: nat, d: nat)
    requires d > 0
    ensures x % d <= x
  {
    assert x == x / d * d + x % d;
    assert x / d >= 0 && d > 0 ==> x / d * d >= 0;
  }

  /** Decoding an encoded 64-bit value gives its last `2k` decimal digits, in either byte order. */
  lemma DecodeOfEncode(value: nat, k: nat)
    requires value < U64
    ensures Decoded(Bcd(value, k)) == Some(value % Power100(k))
    ensures Decoded(Reversed(Reversed(Bcd(value, k)))) == Some(value % Power100(k))
  {
    hide Spelled, Bcd, Power100, IsPair;
    SpelledBack(value, k);
    ModAtMost(value, Power100(k));
    ReversedTwice(Bcd(value, k));
  }

  /** A value survives its bytes exactly when it is not too large for them. */
  lemma SentWholeExactly(value: nat, k: nat)
    requires value < U64
    ensures Decoded(Bcd(value, k)) == Some(value) <==> value < Power100(k)
  {
    hide Decoded, Bcd, Power100;
    DecodeOfEncode(value, k);
    if value < Power100(k) {
      RemainderIs(value, Power100(k), 0, value);
    }
  }

  /** The bytes carry a frequency of the band `lo..hi`. */
  predicate InBand(bytes: seq<byte>, lo: nat, hi: nat) {
    var v := Decoded(bytes);
    v.Some? && lo <= v.value <= hi
  }

  /** A value goes out in a band exactly when its remainder is in it, too large for its bytes or not. */
  lemma SentInBandExactly(value: nat, k: nat, lo: nat, hi: nat)
    requires value < U64
    ensures InBand(Bcd(value, k), lo, hi) <==> lo <= value % Power100(k) <= hi
  {
    hide Decoded, Bcd, Power100;
    DecodeOfEncode(value, k);
  }

  /**
   Every value too large for its `k` bytes goes out of the band exactly when
   the band is empty, or lies beyond what `k` bytes can say, or there is no
   such 64-bit value.
   */
  lemma OverlongOutOfBandExactly(k: nat, lo: nat, hi: nat)
    ensures (forall value :: Power100(k) <= value < U64 ==> !InBand(Bcd(value, k), lo, hi))
              <==> k >= 10 || hi < lo || Power100(k) <= lo
  {
    hide Bcd, InBand, Power100;
    var p := Power100(k);
    if k >= 10 {
      Power100Grows(10, k);
      TenPairs();
    } else if hi < lo || p <= lo {
      forall value | p <= value < U64 ensures !InBand(Bcd(value, k), lo, hi) {
        SentInBandExactly(value, k, lo, hi);
      }
    } else {
      Power100Grows(k, 9);
      RemainderIs(p + lo, p, 1, lo);
      SentInBandExactly(p + lo, k, lo, hi);
    }
  }

  lemma TenPairs()
    ensures Power100(10) > U64
  {
    Power100Grows(9, 10);
  }

  /** So a five-byte frequency past ten gigahertz can go out inside the 20 m band. */
  lemma OverlongFrequency()
    ensures 10_014_074_000 >= Power100(5) && InBand(Bcd(10_014_074_000, 5), 14_000_000, 14_350_000)
  {
    hide Bcd, InBand;
    SentInBandExactly(10_014_074_000, 5, 14_000_000, 14_350_000);
    assert Power100(2) == 10_000;
  }

  /** Re-encoding what was decoded gives the bytes back exactly when the number fits 64 bits. */
  lemma EncodeOfDecode(bytes: seq<byte>)
    requires Decoded(bytes).Some?
    ensures Bcd(Decoded(bytes).value, |bytes|) == bytes <==> Spelled(bytes) < U64
    ensures |bytes| <= 9 ==> Spelled(bytes) < U64
  {
    hide Spelled, Bcd, Power100, IsPair;
    var v := Spelled(bytes);
    RespelledBack(bytes);
    SpelledBack(v % U64, |bytes|);
    if v >= U64 {
      ModAtMost(v % U64, Power100(|bytes|));
    }
    if |bytes| <= 9 {
      Power100Grows(|bytes|, 9);
    }
  }

  lemma EncodeOfDecodeBe(bytes: seq<byte>)
    requires Decoded(Reversed(bytes)).Some?
    ensures Reversed(Bcd(Decoded(Reversed(bytes)).value, |bytes|)) == bytes <==> Spelled(Reversed(bytes)) < U64
    ensures |bytes| <= 9 ==> Spelled(Reversed(bytes)) < U64
  {
    EncodeOfDecode(Reversed(bytes));
    ReversedTwice(bytes);
    ReversedTwice(Bcd(Decoded(Reversed(bytes)).value, |bytes|));
  }

  lemma {:induction false} Power100Grows(j: nat, k: nat)
    requires j <= k
    ensures Power100(j) <= Power100(k)
    ensures Power100(9) == 1_000_000_000_000_000_000
  {
    assert Power100(5) == 10_000_000_000;
    if j < k {
      Power100Grows(j, k - 1);
    }
  }

  // -------------------------------------------------------------------------
  // Frames
  // -------------------------------------------------------------------------

  datatype Code = Code(command: byte, sub: Option<byte>)

  datatype Envelope = Envelope(to: byte, sender: byte, payload: seq<byte>)

  datatype Format = Format(radio: byte, controller: byte)

  function Payload(code: Code, params: seq<byte>): seq<byte> {
    [code.command] + (if code.sub.Some? then [code.sub.value] else []) + params
  }

  function Framed(e: Envelope): seq<byte> {
    [PREAMBLE, PREAMBLE, e.to, e.sender] + e.payload + [END_OF_MESSAGE]
  }

  method Frame(to: byte, sender: byte, code: Code, params: seq<byte>) returns (out: seq<byte>)
    ensures out == Framed(Envelope(to, sender, Payload(code, params)))
  {
    out := [PREAMBLE];
    out := out + [PREAMBLE];
    out := out + [to];
    out := out + [sender];
    out := out + [code.command];
    if code.sub.Some? {
      out := out + [code.sub.value];
    }
    out := out + params;
    out := out + [END_OF_MESSAGE];
    assert out == Framed(Envelope(to, sender, Payload(code, params)));
  }

  function Request(f: Format, code: Code, params: seq<byte>): seq<byte> {
    Framed(Envelope(f.radio, f.controller, Payload(code, params)))
  }

  function Response(f: Format, code: Code, params: seq<byte>): seq<byte> {
    Framed(Envelope(f.controller, f.radio, Payload(code, params)))
  }

  method EncodeRequest(f: Format, code: Code, params: seq<byte>) returns (out: seq<byte>)
    ensures out == Request(f, code, params)
  {
    out := Frame(f.radio, f.controller, code, params);
  }

  method EncodeResponse(f: Format, code: Code, params: seq<byte>) returns (out: seq<byte>)
    ensures out == Response(f, code, params)
  {
    out := Frame(f.controller, f.radio, code, params);
  }

  function ParseEnvelope(frame: seq<byte>): Option<Envelope> {
    if |frame| < 6 then None
    else if frame[0] != PREAMBLE || frame[1] != PREAMBLE then None
    else if frame[|frame| - 1] != END_OF_MESSAGE then None
    else Some(Envelope(frame[2], frame[3], frame[4..|frame| - 1]))
  }

  /** Parsing accepts exactly the frames with a payload, and undoes framing both ways. */
  lemma EnvelopeRoundTrip(frame: seq<byte>, e: Envelope)
    ensures ParseEnvelope(frame) == Some(e) <==> frame == Framed(e) && e.payload != []
  {
    if ParseEnvelope(frame) == Some(e) {
      assert frame == Framed(e);
    }
    if frame == Framed(e) && e.payload != [] {
      assert frame[4..|frame| - 1] == e.payload;
    }
  }

  predicate IsForUs(f: Format, frame: seq<byte>) {
    var e := ParseEnvelope(frame);
    e.Some? && e.value.to == f.controller && e.value.sender == f.radio
  }

  predicate IsEcho(f: Format, frame: seq<byte>) {
    var e := ParseEnvelope(frame);
    e.Some? && e.value.to == f.radio && e.value.sender == f.controller
  }

  /** A controller knows its own echo from the radio's answer exactly when the two addresses differ. */
  lemma EchoIsNotAnswer(f: Format, code: Code, params: seq<byte>)
    ensures IsEcho(f, Request(f, code, params)) && IsForUs(f, Response(f, code, params))
    ensures IsForUs(f, Request(f, code, params)) <==> f.radio == f.controller
    ensures IsEcho(f, Response(f, code, params)) <==> f.radio == f.controller
    ensures forall g: Format :: IsForUs(g, Response(f, code, params)) <==> g == f
  {
    EnvelopeRoundTrip(Request(f, code, params), Envelope(f.radio, f.controller, Payload(code, params)));
    EnvelopeRoundTrip(Response(f, code, params), Envelope(f.controller, f.radio, Payload(code, params)));
  }

  // -------------------------------------------------------------------------
  // The command table
  // -------------------------------------------------------------------------

  datatype Definition = Definition(code: Code, id: nat)

  datatype ParseError = InvalidSyntax | UnknownCommand

  /** The first definition with a code. */
  function Find(table: seq<Definition>, code: Code): (r: Option<Definition>)
    ensures r.Some? ==> r.value in table && r.value.code == code
    ensures r.None? ==> forall i :: 0 <= i < |table| ==> table[i].code != code
  {
    if table == [] then None
    else if table[0].code == code then Some(table[0])
    else Find(table[1..], code)
  }

  function FindCommand(table: seq<Definition>, frame: seq<byte>): Result<(Definition, seq<byte>), ParseError> {
    match ParseEnvelope(frame)
    case None => Err(InvalidSyntax)
    case Some(e) =>
      EnvelopeRoundTrip(frame, e);
      var command, rest := e.payload[0], e.payload[1..];
      var sub := if rest == [] then None else Find(table, Code(command, Some(rest[0])));
      if sub.Some? then Ok((sub.value, rest[1..]))
      else
        match Find(table, Code(command, None))
        case Some(d) => Ok((d, rest))
        case None => Err(UnknownCommand)
  }

  /** A bare command's first parameter reads as a sub-command some entry has. */
  predicate Shadowed(table: seq<Definition>, code: Code, params: seq<byte>) {
    code.sub.None? && params != [] && Find(table, Code(code.command, Some(params[0]))).Some?
  }

  /**
   A framed command in the table is found again with its parameters exactly
   when no sub-commanded entry shadows its first parameter; when one does, that
   entry is found and the parameter is lost to it.
   */
  lemma CommandFoundAgain(table: seq<Definition>, to: byte, sender: byte, code: Code, params: seq<byte>)
    requires Find(table, code).Some?
    ensures var found := FindCommand(table, Framed(Envelope(to, sender, Payload(code, params))));
            && (found == Ok((Find(table, code).value, params)) <==> !Shadowed(table, code, params))
            && (Shadowed(table, code, params) ==>
                  found == Ok((Find(table, Code(code.command, Some(params[0]))).value, params[1..])))
  {
    var payload := Payload(code, params);
    EnvelopeRoundTrip(Framed(Envelope(to, sender, payload)), Envelope(to, sender, payload));
    var tail := if code.sub.Some? then [code.sub.value] + params else params;
    assert payload[1..] == tail;
    assert code.sub.Some? ==> tail[1..] == params;
  }

  // -------------------------------------------------------------------------
  // Finding the end of a frame
  // -------------------------------------------------------------------------

  predicate FrameComplete(buffer: seq<byte>) {
    buffer != [] && buffer[|buffer| - 1] == END_OF_MESSAGE
  }

  /** Every byte between the preamble and the terminator. */
  function Inner(e: Envelope): seq<byte> {
    [e.to, e.sender] + e.payload
  }

  /** Digit pairs never hold the terminator, so only addresses and code bytes can. */
  lemma BcdHasNoEnd(f: Format, code: Code, params: seq<byte>)
    requires IsBcd(params)
    ensures END_OF_MESSAGE in Inner(Envelope(f.radio, f.controller, Payload(code, params))) <==>
            END_OF_MESSAGE in [f.radio, f.controller, code.command] || code.sub == Some(END_OF_MESSAGE)
  {
    assert !IsPair(END_OF_MESSAGE);
    assert forall i :: 0 <= i < |params| ==> params[i] != END_OF_MESSAGE;
  }

  /** A frame's proper prefixes are all incomplete exactly when the terminator is not among its inner bytes. */
  lemma CompleteOnlyAtEnd(e: Envelope)
    ensures FrameComplete(Framed(e))
    ensures (forall k :: 0 <= k < |Framed(e)| ==> !FrameComplete(Framed(e)[..k])) <==> END_OF_MESSAGE !in Inner(e)
  {
    var frame, inner := Framed(e), Inner(e);
    assert frame == [PREAMBLE, PREAMBLE] + inner + [END_OF_MESSAGE];
    if END_OF_MESSAGE in inner {
      var i :| 0 <= i < |inner| && inner[i] == END_OF_MESSAGE;
      assert frame[..i + 3][i + 2] == END_OF_MESSAGE;
      assert FrameComplete(frame[..i + 3]);
    } else {
      forall k | 0 <= k < |frame| ensures !FrameComplete(frame[..k]) {
        if k >= 3 {
          assert frame[..k][k - 1] == inner[k - 3];
        }
      }
    }
  }

  /** With the terminator for a radio address every request reads as complete at its third byte. */
  lemma TerminatorAddressEndsEarly(controller: byte, code: Code, params: seq<byte>)
    ensures var request := Request(Format(END_OF_MESSAGE, controller), code, params);
            |request| > 3 && FrameComplete(request[..3])
  {
  }

  // -------------------------------------------------------------------------
  // Reading a frame off the line
  // -------------------------------------------------------------------------

  /** What the line does after its bytes: end, fail a read, or say nothing until the deadline. */
  datatype Ending = Eof | Failing | Silent

  datatype ReadError = ReadFailed | ReadTimeout | TooLong

  /** What reading a line gives: its shortest complete prefix, or why there is none within the limit. */
  ghost predicate IsRead(line: seq<byte>, ending: Ending, r: Result<seq<byte>, ReadError>, taken: nat) {
    && taken <= |line| && taken <= MAX_FRAME_LEN
    && (forall k :: 0 <= k < taken ==> !FrameComplete(line[..k]))
    && if FrameComplete(line[..taken]) then r == Ok(line[..taken])
       else if taken == MAX_FRAME_LEN then r == Err(TooLong)
       else taken == |line| && match ending
            case Eof => r == Ok(line)
            case Failing => r == Err(ReadFailed)
            case Silent => r == Err(ReadTimeout)
  }

  /** One byte at a time until a frame is complete, the line stops, or nothing plausible has come. */
  method ReadFrame(line: seq<byte>, ending: Ending) returns (r: Result<seq<byte>, ReadError>, taken: nat)
    ensures IsRead(line, ending, r, taken)
  {
    var response := [];
    taken := 0;
    while taken < |line|
      invariant taken <= |line| && response == line[..taken] && taken < MAX_FRAME_LEN
      invariant forall k :: 0 <= k <= taken ==> !FrameComplete(line[..k])
    {
      response := response + [line[taken]];
      taken := taken + 1;
      assert response == line[..taken];
      if FrameComplete(response) {
        return Ok(response), taken;
      }
      if |response| >= MAX_FRAME_LEN {
        return Err(TooLong), taken;
      }
    }
    assert line[..taken] == line;
    match ending {
      case Eof => r := Ok(response);
      case Failing => r := Err(ReadFailed);
      case Silent => r := Err(ReadTimeout);
    }
  }

  /** A line is read one way only. */
  lemma ReadOneWay(line: seq<byte>, ending: Ending, r: Result<seq<byte>, ReadError>, taken: nat,
                   r': Result<seq<byte>, ReadError>, taken': nat)
    requires IsRead(line, ending, r, taken) && IsRead(line, ending, r', taken')
    ensures r == r' && taken == taken'
  {
    hide FrameComplete;
    assert line[..|line|] == line;
  }

  /** A line that starts with a frame is read as that frame exactly when no inner byte ends it early and it is not too long. */
  lemma FrameReadWhole(e: Envelope, rest: seq<byte>, ending: Ending, r: Result<seq<byte>, ReadError>, taken: nat)
    requires IsRead(Framed(e) + rest, ending, r, taken)
    ensures r == Ok(Framed(e)) <==> END_OF_MESSAGE !in Inner(e) && |Framed(e)| <= MAX_FRAME_LEN
  {
    hide Framed, Inner;
    var frame := Framed(e);
    var line := frame + rest;
    CompleteOnlyAtEnd(e);
    assert line[..|frame|] == frame;
    assert forall k :: 0 <= k <= |frame| ==> line[..k] == frame[..k];
    if END_OF_MESSAGE !in Inner(e) && |frame| <= MAX_FRAME_LEN {
      assert taken <= |frame|;
    }
  }
}
