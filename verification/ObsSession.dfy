/** The WebSocket session of the OBS bridge on top of a socket whose `recv` hands out chunks of
    any size: exact reads, the handshake read, frames, and the loop that answers pings.
 */
module ObsSession {
  import opened WebSocketCodec

  datatype Error =
    | NotConnected
    | EndedUnexpectedly
    | HandshakeTooLarge
    | NoReply           // splitlines()[0] of an empty reply
    | HandshakeRefused
    | FrameTooLong
    | Closed
    | InvalidJson
    | NotAnObject

  datatype Result<+T> = Ok(value: T) | Err(error: Error)

  /** What decoding a payload as JSON yields. */
  datatype Json = Object | OtherValue | Invalid

  /** `incoming` is everything the peer will still send before it closes; `sent` everything sent so far. */
  class Socket {
    var incoming: bytes
    var sent: bytes

    constructor (incoming: bytes)
      ensures this.incoming == incoming && sent == []
    {
      this.incoming, sent := incoming, [];
    }

    /** Between 1 and `n` of the pending bytes, however many the transport delivers; none after the end. */
    method Recv(n: nat) returns (chunk: bytes)
      requires n > 0
      modifies this`incoming
      ensures old(incoming) == chunk + incoming && |chunk| <= n
      ensures chunk == [] ==> old(incoming) == []
    {
      if incoming == [] {
        chunk := [];
      } else {
        var k: nat :| 1 <= k <= n && k <= |incoming|;
        chunk := incoming[..k];
        incoming := incoming[k..];
      }
    }

    method SendAll(data: bytes)
      modifies this`sent
      ensures sent == old(sent) + data
    {
      sent := sent + data;
    }
  }

  // ---------------------------------------------------------------- reading up to a marker

  predicate OccursAt(data: bytes, marker: bytes, i: nat) {
    i + |marker| <= |data| && data[i..i + |marker|] == marker
  }

  /** Python's `marker in data`. */
  predicate Contains(data: bytes, marker: bytes) {
    exists i :: 0 <= i <= |data| && OccursAt(data, marker, i)
  }

  /** The first of the lines that Python's `splitlines` returns for bytes. */
  function FirstLine(data: bytes): (line: bytes)
    ensures line <= data && 10 !in line && 13 !in line
    ensures |line| < |data| ==> data[|line|] == 10 || data[|line|] == 13
  {
    if data == [] || data[0] == 10 || data[0] == 13 then []
    else
      var rest := FirstLine(data[1..]);
      [data[0]] + rest
  }

  /** The length of the shortest prefix of `bs`, of length `from` or more, that contains the marker, or
      |bs| if none does. */
  ghost function Until(bs: bytes, marker: bytes, from: nat): (k: nat)
    requires from <= |bs|
    ensures from <= k <= |bs|
    ensures forall j :: from <= j < k ==> !Contains(bs[..j], marker)
    ensures k < |bs| ==> Contains(bs[..k], marker)
    decreases |bs| - from
  {
    if from == |bs| || Contains(bs[..from], marker) then from else Until(bs, marker, from + 1)
  }

  lemma ContainsMonotone(data: bytes, more: bytes, marker: bytes)
    requires Contains(data, marker) && data <= more
    ensures Contains(more, marker)
  {
    var i :| 0 <= i <= |data| && OccursAt(data, marker, i);
    assert more[i..i + |marker|] == data[i..i + |marker|];
    assert OccursAt(more, marker, i);
  }

  /** A reply that holds the marker only at its very end is what the handshake read consumes,
      whatever follows it. */
  lemma UntilStopsAtReply(reply: bytes, rest: bytes, marker: bytes)
    requires |marker| > 0 && Contains(reply, marker) && !Contains(reply[..|reply| - 1], marker)
    ensures Until(reply + rest, marker, 0) == |reply|
  {
    var bs := reply + rest;
    var k := Until(bs, marker, 0);
    assert bs[..|reply|] == reply;
    if k < |reply| {
      assert bs[..k] <= reply[..|reply| - 1];
      ContainsMonotone(bs[..k], reply[..|reply| - 1], marker);
    }
  }

  // ---------------------------------------------------------------- what _recv_json does with a stream

  datatype Received = Received(result: Result<bytes>, pongs: seq<bytes>, rest: bytes)

  function Receive(bs: bytes, parse: bytes -> Json): Received
    decreases |bs|
  {
    match Decode(bs)
    case None => Received(Err(EndedUnexpectedly), [], [])
    case Some(p) =>
      DecodedPayloadFits(bs);
      var rest := bs[p.used..];
      var f := p.frame;
      if f.opcode == 9 then
        var r := Receive(rest, parse);
        r.(pongs := [f.payload] + r.pongs)
      else if f.opcode == 8 then
        Received(Err(Closed), [], rest)
      else if f.opcode != 1 && f.opcode != 2 then
        Receive(rest, parse)
      else
        match parse(f.payload)
        case Object => Received(Ok(f.payload), [], rest)
        case OtherValue => Received(Err(NotAnObject), [], rest)
        case Invalid => Received(Err(InvalidJson), [], rest)
  }

  /** What is still to be done after one frame that is not the end. */
  lemma ReceiveStep(bs: bytes, parse: bytes -> Json)
    requires Decode(bs).Some?
    ensures var p := Decode(bs).value;
            && 0 < p.used <= |bs| && |p.frame.payload| < MAX_PAYLOAD
            && var r, next := Receive(bs, parse), Receive(bs[p.used..], parse);
               if p.frame.opcode == 9 then r == Received(next.result, [p.frame.payload] + next.pongs, next.rest)
               else if p.frame.opcode !in {1, 2, 8} then r == next
               else r.pongs == [] && r.rest == bs[p.used..] && r.result == DataResult(p.frame, parse)
  {
    hide Decode;
    DecodedPayloadFits(bs);
  }

  function DataResult(f: Frame, parse: bytes -> Json): Result<bytes> {
    if f.opcode == 8 then Err(Closed) else
    match parse(f.payload)
    case Object => Ok(f.payload)
    case OtherValue => Err(NotAnObject)
    case Invalid => Err(InvalidJson)
  }

  /** After answering `pongs`, what is left to do on `bs` completes `spec`. */
  ghost predicate Completes(spec: Received, pongs: seq<bytes>, bs: bytes, parse: bytes -> Json) {
    var r := Receive(bs, parse);
    spec == Received(r.result, pongs + r.pongs, r.rest)
  }

  lemma AnswerPing(spec: Received, pongs: seq<bytes>, bs: bytes, parse: bytes -> Json)
    requires Completes(spec, pongs, bs, parse) && Decode(bs).Some? && Decode(bs).value.frame.opcode == 9
    ensures Decode(bs).value.used <= |bs|
    ensures Completes(spec, pongs + [Decode(bs).value.frame.payload], bs[Decode(bs).value.used..], parse)
  {
    hide Decode, Receive;
    ReceiveStep(bs, parse);
    var p, next := Decode(bs).value, Receive(bs[Decode(bs).value.used..], parse);
    assert pongs + ([p.frame.payload] + next.pongs) == pongs + [p.frame.payload] + next.pongs;
  }

  lemma StreamEnds(bs: bytes, parse: bytes -> Json)
    requires Decode(bs).None?
    ensures Receive(bs, parse) == Received(Err(EndedUnexpectedly), [], [])
  {
    hide Decode;
  }

  /** The frames at the front of `bs`, one after the other, take `used` bytes. */
  ghost predicate Reads(bs: bytes, frames: seq<Frame>, used: nat)
    decreases |frames|
  {
    && used <= |bs|
    && if frames == [] then used == 0
       else
         && Decode(bs).Some? && Decode(bs).value.frame == frames[0]
         && Decode(bs).value.used <= used && Decode(bs).value.used <= |bs|
         && Reads(bs[Decode(bs).value.used..], frames[1..], used - Decode(bs).value.used)
  }

  ghost function PingsIn(frames: seq<Frame>): seq<bytes> {
    if frames == [] then [] else (if frames[0].opcode == 9 then [frames[0].payload] else []) + PingsIn(frames[1..])
  }

  /** How receiving ends on a stream that is not begun by a frame to be passed over: at its end, or on a close frame or
      a message.  Each but an object is an error of its own, and nothing behind the frame is consumed. */
  ghost predicate Concludes(tail: bytes, parse: bytes -> Json, result: Result<bytes>, rest: bytes) {
    match Decode(tail)
    case None => result == Err(EndedUnexpectedly) && rest == []
    case Some(last) =>
      && var payload := last.frame.payload;
      && (last.frame.opcode == 1 || last.frame.opcode == 2 || last.frame.opcode == 8)
      && last.used <= |tail| && rest == tail[last.used..]
      && (result == Err(Closed) <==> last.frame.opcode == 8)
      && (last.frame.opcode != 8 ==>
            && (parse(payload).Object? ==> result == Ok(payload))
            && (parse(payload).OtherValue? ==> result == Err(NotAnObject))
            && (parse(payload).Invalid? ==> result == Err(InvalidJson)))
  }

  /** What `_recv_json` makes of any stream: it passes over frames that are neither text, binary nor close, answering
      exactly the pings among them, up to the end of the stream or the first frame that is. */
  lemma {:induction false} ReceivesEveryStream(bs: bytes, parse: bytes -> Json)
      returns (others: seq<Frame>, used: nat)
    ensures Reads(bs, others, used)
    ensures forall i :: 0 <= i < |others| ==> IsControl(others[i])
    ensures var r := Receive(bs, parse);
            r.pongs == PingsIn(others) && Concludes(bs[used..], parse, r.result, r.rest)
    decreases |bs|
  {
    others, used := [], 0;
    hide Decode, Receive, Concludes;
    assert bs[0..] == bs;
    if Decode(bs).Some? && IsControl(Decode(bs).value.frame) {
      var p := Decode(bs).value;
      DecodedPayloadFits(bs);
      ReceiveStep(bs, parse);
      var tail := bs[p.used..];
      var more, n := ReceivesEveryStream(tail, parse);
      others, used := [p.frame] + more, p.used + n;
      assert others[1..] == more && tail[n..] == bs[used..];
    } else {
      ConcludesHere(bs, parse);
    }
  }

  lemma ConcludesHere(bs: bytes, parse: bytes -> Json)
    requires Decode(bs).Some? ==> !IsControl(Decode(bs).value.frame)
    ensures var r := Receive(bs, parse);
            r.pongs == [] && Concludes(bs, parse, r.result, r.rest)
  {
    hide Decode, Receive;
    if Decode(bs).None? {
      StreamEnds(bs, parse);
    } else {
      ReceiveStep(bs, parse);
    }
  }

  ghost predicate IsControl(f: Frame) { f.opcode !in {1, 2, 8} }

  ghost function PingPayloads(stream: seq<Sent>): seq<bytes> {
    if stream == [] then []
    else (if stream[0].frame.opcode == 9 then [stream[0].frame.payload] else []) + PingPayloads(stream[1..])
  }

  /** Frames that are neither text, binary nor close are passed over; exactly the pings among them are answered. */
  lemma {:induction false} PassesOver(before: seq<Sent>, tail: bytes, parse: bytes -> Json)
    requires Sendable(before) && forall i :: 0 <= i < |before| ==> IsControl(before[i].frame)
    ensures var r := Receive(tail, parse);
            Receive(Wire(before) + tail, parse) == Received(r.result, PingPayloads(before) + r.pongs, r.rest)
  {
    hide Encode, Decode;
    if before == [] {
      assert Wire(before) + tail == tail && [] + Receive(tail, parse).pongs == Receive(tail, parse).pongs;
    } else {
      var first := Encode(before[0].frame, before[0].key);
      var others := Wire(before[1..]) + tail;
      FrameRoundTrip(before[0], others);
      DecodedPayloadFits(first + others);
      assert Wire(before) + tail == first + others;
      assert (first + others)[|first|..] == others;
      PassesOver(before[1..], tail, parse);
      var ping := if before[0].frame.opcode == 9 then [before[0].frame.payload] else [];
      assert ping + (PingPayloads(before[1..]) + Receive(tail, parse).pongs)
          == ping + PingPayloads(before[1..]) + Receive(tail, parse).pongs;
    }
  }

  /** Any number of such frames, then one that is text, binary or close: what is returned, exactly the pings
      before it are answered, each once and in order, and nothing after it is consumed. */
  lemma ReceivesFirst(before: seq<Sent>, last: Sent, rest: bytes, parse: bytes -> Json)
    requires Sendable(before) && last.Valid() && last.frame.opcode in {1, 2, 8}
    requires forall i :: 0 <= i < |before| ==> IsControl(before[i].frame)
    ensures var r, payload := Receive(Wire(before) + (Encode(last.frame, last.key) + rest), parse), last.frame.payload;
            && r.pongs == PingPayloads(before) && r.rest == rest
            && (last.frame.opcode == 8 ==> r.result == Err(Closed))
            && (last.frame.opcode != 8 && parse(payload).Object? ==> r.result == Ok(payload))
            && (last.frame.opcode != 8 && parse(payload).OtherValue? ==> r.result == Err(NotAnObject))
            && (last.frame.opcode != 8 && parse(payload).Invalid? ==> r.result == Err(InvalidJson))
  {
    hide Encode, Decode;
    var first := Encode(last.frame, last.key);
    PassesOver(before, first + rest, parse);
    FrameRoundTrip(last, rest);
    DecodedPayloadFits(first + rest);
    assert (first + rest)[|first|..] == rest;
    assert PingPayloads(before) + [] == PingPayloads(before);
  }

  /** A stream that ends before such a frame, or inside it or any other, ends in an error; the pings are answered. */
  lemma EndsUnexpectedly(before: seq<Sent>, cut: Sent, n: nat, parse: bytes -> Json)
    requires Sendable(before) && cut.Valid() && n < |Encode(cut.frame, cut.key)|
    requires forall i :: 0 <= i < |before| ==> IsControl(before[i].frame)
    ensures Receive(Wire(before) + Encode(cut.frame, cut.key)[..n], parse)
         == Received(Err(EndedUnexpectedly), PingPayloads(before), [])
  {
    hide Encode, Decode;
    CutFrame(cut, n);
    PassesOver(before, Encode(cut.frame, cut.key)[..n], parse);
    assert PingPayloads(before) + [] == PingPayloads(before);
  }

  /** `frames` were sent after what `before` records, each under a mask, as a client must (RFC 6455, section 5.3). */
  ghost predicate AddedMasked(before: seq<Sent>, log: seq<Sent>, frames: seq<Frame>) {
    && before <= log && Frames(log) == Frames(before) + frames
    && forall i :: |before| <= i < |log| ==> log[i].key.Masked?
  }

  /** What was sent since `before`: for each payload one pong, a masked frame of opcode 10 that carries it. */
  ghost predicate Answered(before: seq<Sent>, log: seq<Sent>, payloads: seq<bytes>) {
    && before <= log && |log| == |before| + |payloads|
    && forall i :: 0 <= i < |payloads| ==>
         log[|before| + i].frame == Frame(10, payloads[i]) && log[|before| + i].key.Masked?
  }

  lemma AnswerOneMore(before: seq<Sent>, log: seq<Sent>, later: seq<Sent>, payloads: seq<bytes>, payload: bytes)
    requires Answered(before, log, payloads) && AddedMasked(log, later, [Frame(10, payload)])
    ensures Answered(before, later, payloads + [payload])
  {
    assert |Frames(later)| == |log| + 1 && later[|log|].frame == Frames(later)[|log|] == Frame(10, payload);
    assert later[|log|].key.Masked?;
    var more := payloads + [payload];
    forall i | 0 <= i < |more|
      ensures later[|before| + i].frame == Frame(10, more[i]) && later[|before| + i].key.Masked?
    {
      if i < |payloads| { assert later[|before| + i] == log[|before| + i]; }
    }
  }

  // ---------------------------------------------------------------- the session

  /** Reading on from position `n` of a stream. */
  lemma Advance(bs: bytes, n: nat, chunk: bytes, rest: bytes)
    requires n <= |bs| && bs[n..] == chunk + rest
    ensures n + |chunk| <= |bs| && bs[..n] + chunk == bs[..n + |chunk|] && rest == bs[n + |chunk|..]
  {
    assert bs == bs[..n] + chunk + rest;
  }

  lemma Split(bs: bytes, n: nat, k: nat)
    requires n + k <= |bs|
    ensures bs[n..][..k] == bs[n..n + k] && bs[n..][k..] == bs[n + k..]
  {
  }

  /** `log` records the frames sent and their keys; `preamble` what was sent before them. */
  class Session {
    var sock: Socket?
    const parse: bytes -> Json
    ghost var preamble: bytes
    ghost var log: seq<Sent>

    ghost predicate Valid()
      reads this, sock
    {
      sock != null ==> Sendable(log) && sock.sent == preamble + Wire(log)
    }

    constructor (sock: Socket?, parse: bytes -> Json)
      ensures this.sock == sock && this.parse == parse && Valid() && log == []
    {
      this.sock, this.parse := sock, parse;
      log := [];
      preamble := if sock == null then [] else sock.sent;
      new;
      assert sock != null ==> sock.sent == sock.sent + Wire([]);
    }

    /** `_read_exact`: exactly `length` bytes, or an error once the stream ends short of them. */
    method ReadExact(length: nat) returns (r: Result<bytes>)
      modifies sock
      ensures sock == null ==> r == Err(NotConnected)
      ensures sock != null ==> sock.sent == old(sock.sent)
      ensures sock != null && length <= |old(sock.incoming)| ==>
                r == Ok(old(sock.incoming)[..length]) && sock.incoming == old(sock.incoming)[length..]
      ensures sock != null && length > |old(sock.incoming)| ==> r == Err(EndedUnexpectedly) && sock.incoming == []
    {
      if sock == null { return Err(NotConnected); }
      var data: bytes := [];
      var remaining := length;
      while remaining > 0
        invariant 0 <= remaining == length - |data| && old(sock.incoming) == data + sock.incoming
        invariant sock.sent == old(sock.sent)
      {
        var chunk := sock.Recv(remaining);
        if chunk == [] { return Err(EndedUnexpectedly); }
        data := data + chunk;
        remaining := remaining - |chunk|;
      }
      assert old(sock.incoming)[..length] == data;
      return Ok(data);
    }

    /** `_read_until`: consumes the shortest prefix that contains the marker when that has at most
        `maxBytes` bytes (all of a shorter stream without one), and fails after `maxBytes` + 1 bytes otherwise. */
    method ReadUntil(marker: bytes, maxBytes: nat) returns (r: Result<bytes>)
      modifies sock
      ensures sock == null ==> r == Err(NotConnected)
      ensures sock != null ==> sock.sent == old(sock.sent)
      ensures sock != null ==>
                var bs := old(sock.incoming);
                var k := Until(bs, marker, 0);
                if k <= maxBytes then r == Ok(bs[..k]) && sock.incoming == bs[k..]
                else r == Err(HandshakeTooLarge) && sock.incoming == bs[maxBytes + 1..]
    {
      if sock == null { return Err(NotConnected); }
      hide OccursAt, Contains;
      ghost var bs := sock.incoming;
      var data: bytes := [];
      while !Contains(data, marker)
        invariant |data| <= maxBytes && |data| <= |bs| && data == bs[..|data|] && sock.incoming == bs[|data|..]
        invariant Until(bs, marker, |data|) == Until(bs, marker, 0)
        invariant sock.sent == old(sock.sent)
        decreases |sock.incoming|
      {
        var chunk := sock.Recv(1);
        if chunk == [] { break; }
        Advance(bs, |data|, chunk, sock.incoming);
        data := data + chunk;
        if |data| > maxBytes { return Err(HandshakeTooLarge); }
      }
      return Ok(data);
    }

    /** The extended length that the second header byte announces, as raw bytes, from position `from` of `bs`. */
    method ReadWidth(second: byte, ghost bs: bytes, ghost from: nat) returns (r: Result<bytes>)
      requires sock != null && from <= |bs| && sock.incoming == bs[from..]
      modifies sock
      ensures sock.sent == old(sock.sent)
      ensures var to := from + ExtensionWidth(LengthBits(second));
              if to <= |bs| then r == Ok(bs[from..to]) && sock.incoming == bs[to..]
              else r == Err(EndedUnexpectedly) && sock.incoming == []
    {
      var ext := ExtensionWidth(LengthBits(second));
      if ext == 0 {
        r := Ok([]);
      } else {
        r := ReadExact(ext);
      }
      if from + ext <= |bs| { Split(bs, from, ext); }
    }

    /** The masking key that the second header byte announces. */
    method ReadKey(second: byte, ghost bs: bytes, ghost from: nat) returns (r: Result<Key>)
      requires sock != null && from <= |bs| && sock.incoming == bs[from..]
      modifies sock
      ensures sock.sent == old(sock.sent)
      ensures var to := from + if MaskBit(second) then 4 else 0;
              if to <= |bs| then
                && r.Ok? && r.value.Valid() && (r.value.Masked? <==> MaskBit(second))
                && |r.value.Bytes()| == to - from && r.value.Bytes() == bs[from..to] && sock.incoming == bs[to..]
              else
                r == Err(EndedUnexpectedly) && sock.incoming == []
    {
      if MaskBit(second) {
        var mask := ReadExact(4);
        if mask.Err? { return Err(mask.error); }
        Split(bs, from, 4);
        r := Ok(Masked(mask.value));
      } else {
        r := Ok(Clear);
      }
    }

    /** The reads of `_recv_frame` before the payload. */
    method ReadHeader() returns (r: Result<Header>)
      requires sock != null
      modifies sock
      ensures sock.sent == old(sock.sent)
      ensures match DecodeHeader(old(sock.incoming))
              case None => r == Err(EndedUnexpectedly) && sock.incoming == []
              case Some(h) => r == Ok(h) && sock.incoming == old(sock.incoming)[h.size..]
    {
      hide *;
      ghost var bs := sock.incoming;
      HeaderShort(bs);
      var header := ReadExact(2);
      if header.Err? { return Err(header.error); }
      r := ReadExtension(header.value[0], header.value[1], bs);
    }

    /** The rest of a header after its first two bytes. */
    method ReadExtension(first: byte, second: byte, ghost bs: bytes) returns (r: Result<Header>)
      requires sock != null && |bs| >= 2 && bs[0] == first && bs[1] == second && sock.incoming == bs[2..]
      modifies sock
      ensures sock.sent == old(sock.sent)
      ensures match DecodeHeader(bs)
              case None => r == Err(EndedUnexpectedly) && sock.incoming == []
              case Some(h) => r == Ok(h) && sock.incoming == bs[h.size..]
    {
      hide *;
      HeaderShort(bs);
      var width := ReadWidth(second, bs, 2);
      if width.Err? { return Err(width.error); }
      var length := Announced(second, width.value);
      var key := ReadKey(second, bs, 2 + |width.value|);
      if key.Err? { return Err(key.error); }
      DecodeParts(bs, width.value, key.value);
      return Ok(Header(OpcodeBits(first), key.value, length, 2 + |width.value| + |key.value.Bytes()|));
    }

    /** `_recv_frame`: the frame at the front of the stream, and not one byte more. */
    method RecvFrame() returns (r: Result<Frame>)
      modifies sock
      ensures sock == null ==> r == Err(NotConnected)
      ensures sock != null ==> sock.sent == old(sock.sent)
      ensures sock != null ==>
                match Decode(old(sock.incoming))
                case None => r == Err(EndedUnexpectedly) && sock.incoming == []
                case Some(p) => r == Ok(p.frame) && p.used <= |old(sock.incoming)|
                                && sock.incoming == old(sock.incoming)[p.used..]
    {
      hide DecodeHeader, Apply;
      if sock == null { return Err(NotConnected); }
      ghost var bs := sock.incoming;
      var header := ReadHeader();
      if header.Err? { return Err(header.error); }
      var h := header.value;
      var payload := ReadExact(h.length);
      if payload.Err? { return Err(payload.error); }
      assert payload.value == bs[h.size..h.size + h.length];
      return Ok(Frame(h.opcode, Apply(h.key, payload.value)));
    }

    /** `_send_frame` under a key the caller cannot choose. Opcodes have four bits; the bridge sends 1 and 10. */
    method SendFrame(payload: bytes, opcode: byte) returns (r: Result<()>)
      requires Valid() && opcode < 16
      modifies this`log, sock
      ensures Valid()
      ensures sock == null ==> r == Err(NotConnected)
      ensures sock != null ==> sock.incoming == old(sock.incoming)
      ensures sock != null && |payload| >= MAX_PAYLOAD ==> r == Err(FrameTooLong) && log == old(log)
      ensures sock != null && |payload| < MAX_PAYLOAD ==>
                r == Ok(()) && AddedMasked(old(log), log, [Frame(opcode, payload)])
    {
      if sock == null { return Err(NotConnected); }
      if |payload| >= MAX_PAYLOAD { return Err(FrameTooLong); }
      var b0: byte, b1: byte, b2: byte, b3: byte := *, *, *, *;
      Transmit(Sent(Frame(opcode, payload), Masked([b0, b1, b2, b3])));
      assert Frames(log) == Frames(old(log)) + [Frame(opcode, payload)];
      return Ok(());
    }

    method Transmit(s: Sent)
      requires Valid() && sock != null && s.Valid()
      modifies this`log, sock
      ensures Valid() && sock.incoming == old(sock.incoming)
      ensures log == old(log) + [s]
    {
      hide Encode, Wire;
      sock.SendAll(Encode(s.frame, s.key));
      WireSnoc(log, s);
      assert sock.sent == preamble + (Wire(log) + Encode(s.frame, s.key));
      log := log + [s];
    }

    /** `_recv_json`: the first data frame of the stream, answering every ping before it with a pong. */
    method RecvJson() returns (r: Result<bytes>)
      requires Valid()
      modifies this`log, sock
      ensures Valid()
      ensures sock == null ==> r == Err(NotConnected)
      ensures sock != null ==>
                var spec := Receive(old(sock.incoming), parse);
                && r == spec.result
                && sock.incoming == spec.rest
                && Answered(old(log), log, spec.pongs)
    {
      hide Decode, Wire, Sendable, AddedMasked, Receive;
      if sock == null { return Err(NotConnected); }
      ghost var spec := Receive(sock.incoming, parse);
      ghost var pongs: seq<bytes> := [];
      while true
        invariant Valid()
        invariant Answered(old(log), log, pongs)
        invariant Completes(spec, pongs, sock.incoming, parse)
        decreases |sock.incoming|
      {
        ghost var bs := sock.incoming;
        assert pongs + [] == pongs;
        if Decode(bs).Some? { ReceiveStep(bs, parse); } else { StreamEnds(bs, parse); }
        var frame := RecvFrame();
        if frame.Err? { return Err(frame.error); }
        var Frame(opcode, payload) := frame.value;
        if opcode == 9 {
          AnswerPing(spec, pongs, bs, parse);
          ghost var before := log;
          var _ := SendFrame(payload, 10);
          AnswerOneMore(old(log), before, log, pongs, payload);
          pongs := pongs + [payload];
          continue;
        }
        if opcode == 8 { return Err(Closed); }
        if opcode != 1 && opcode != 2 { continue; }
        match parse(payload) {
          case Object => return Ok(payload);
          case OtherValue => return Err(NotAnObject);
          case Invalid => return Err(InvalidJson);
        }
      }
    }

    /** `_handshake`: the request goes out as it is, and the reply up to the empty line must name status 101
        on its first line. */
    method Handshake(request: bytes) returns (r: Result<bytes>)
      requires Valid() && log == []
      modifies this`preamble, sock
      ensures Valid()
      ensures sock == null ==> r == Err(NotConnected)
      ensures sock != null ==> sock.sent == old(sock.sent) + request
      ensures sock != null ==>
                var bs := old(sock.incoming);
                var k := Until(bs, CRLF_CRLF, 0);
                if k > 8192 then r == Err(HandshakeTooLarge) && sock.incoming == bs[8193..]
                else
                  && sock.incoming == bs[k..]
                  && r == if k == 0 then Err(NoReply)
                          else if Contains(FirstLine(bs[..k]), STATUS_101) then Ok(bs[..k])
                          else Err(HandshakeRefused)
    {
      if sock == null { return Err(NotConnected); }
      sock.SendAll(request);
      preamble := preamble + request;
      assert sock.sent == preamble + Wire([]);
      r := ReadUntil(CRLF_CRLF, 8192);
      if r.Err? { return; }
      if r.value == [] { return Err(NoReply); }
      if !Contains(FirstLine(r.value), STATUS_101) { return Err(HandshakeRefused); }
    }

    /** A whole connection, over any chunking: the handshake, then `count` frames.  A reply without
        status 101 ends it before the first frame. */
    method ReadConnection(request: bytes, ghost reply: bytes, ghost stream: seq<Sent>, count: nat)
        returns (r: Result<seq<Frame>>)
      requires Valid() && log == []
      requires sock != null && Sendable(stream) && count == |stream|
      requires |reply| <= 8192 && Contains(reply, CRLF_CRLF) && !Contains(reply[..|reply| - 1], CRLF_CRLF)
      requires sock.incoming == reply + Wire(stream)
      modifies this`preamble, sock
      ensures Valid() && sock.sent == old(sock.sent) + request
      ensures if Contains(FirstLine(reply), STATUS_101) then r == Ok(Frames(stream)) && sock.incoming == []
              else r == Err(HandshakeRefused) && sock.incoming == Wire(stream)
    {
      ReplyAlone(reply, Wire(stream));
      hide Encode, Decode, OccursAt, Contains, FirstLine, Until, Wire;
      var first := Handshake(request);
      if first.Err? { return Err(first.error); }
      var frames := ReadFrames(stream, count);
      r := Ok(frames);
    }

    method ReadFrames(ghost stream: seq<Sent>, count: nat) returns (frames: seq<Frame>)
      requires sock != null && Sendable(stream) && count == |stream| && sock.incoming == Wire(stream)
      modifies sock
      ensures sock.sent == old(sock.sent) && sock.incoming == [] && frames == Frames(stream)
    {
      hide Encode, Decode;
      frames := [];
      assert stream[0..] == stream;
      while |frames| < count
        invariant |frames| <= count && frames == Frames(stream)[..|frames|]
        invariant sock.incoming == Wire(stream[|frames|..]) && sock.sent == old(sock.sent)
      {
        ghost var s := stream[|frames|];
        assert stream[|frames|..][1..] == stream[|frames| + 1..];
        FrameRoundTrip(s, Wire(stream[|frames| + 1..]));
        var frame := RecvFrame();
        frames := frames + [frame.value];
      }
    }
  }

  lemma ReplyAlone(reply: bytes, rest: bytes)
    requires Contains(reply, CRLF_CRLF) && !Contains(reply[..|reply| - 1], CRLF_CRLF)
    ensures var k := Until(reply + rest, CRLF_CRLF, 0);
            k == |reply| > 0 && (reply + rest)[..k] == reply && (reply + rest)[k..] == rest
  {
    UntilStopsAtReply(reply, rest, CRLF_CRLF);
    var i :| 0 <= i <= |reply| && OccursAt(reply, CRLF_CRLF, i);
  }

  const CRLF_CRLF: bytes := [13, 10, 13, 10]

  /** " 101 " in ASCII. */
  const STATUS_101: bytes := [32, 49, 48, 49, 32]

  /** Every reply of more than 8192 bytes makes the handshake fail, whatever its first line and whatever follows. */
  method LongReplyFails(session: Session, request: bytes, ghost reply: bytes, ghost rest: bytes)
      returns (r: Result<bytes>)
    requires session.Valid() && session.log == []
    requires session.sock != null && session.sock.incoming == reply + rest
    requires |reply| > 8192 && Contains(reply, CRLF_CRLF) && !Contains(reply[..|reply| - 1], CRLF_CRLF)
    modifies session`preamble, session.sock
    ensures r == Err(HandshakeTooLarge)
  {
    UntilStopsAtReply(reply, rest, CRLF_CRLF);
    hide Until, Contains;
    r := session.Handshake(request);
  }
}
