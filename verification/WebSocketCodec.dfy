/** WebSocket frames on the wire (RFC 6455, section 5.2): what the client sends and how it reads
    what it receives, as a printer and a parser over byte strings.
 */
module WebSocketCodec {
  import opened Basics

  type byte = bv8
  type bytes = seq<byte>

  datatype Frame = Frame(opcode: byte, payload: bytes)

  /** A frame together with the key it travels under. */
  datatype Sent = Sent(frame: Frame, key: Key)
  {
    ghost predicate Valid() { key.Valid() && frame.opcode < 16 && |frame.payload| < MAX_PAYLOAD }
  }

  /** A parsed frame and the number of bytes it took. */
  datatype Parsed = Parsed(frame: Frame, used: nat)

  const MAX_PAYLOAD: nat := 0x1_0000_0000_0000_0000

  // ---------------------------------------------------------------- struct.pack("!H") and ("!Q")

  /** The byte of a number below 256. */
  function ByteOf(n: nat): byte
    requires n < 256
  {
    if n == 0 then 0 else ByteOf(n - 1) + 1
  }

  lemma NextByte(b: byte)
    requires b != 255
    ensures (b + 1) as int == b as int + 1
  {
  }

  lemma {:induction false} ByteRoundTrip(n: nat)
    requires n < 256
    ensures ByteOf(n) as int == n
  {
    if n > 0 {
      ByteRoundTrip(n - 1);
      NextByte(ByteOf(n - 1));
    }
  }

  function Pow256(width: nat): (power: nat)
    ensures power > 0
  {
    if width == 0 then 1 else 256 * Pow256(width - 1)
  }

  function BigEndian(n: nat, width: nat): (bs: bytes)
    ensures |bs| == width
  {
    if width == 0 then [] else BigEndian(n / 256, width - 1) + [ByteOf(n % 256)]
  }

  function FromBigEndian(bs: bytes): nat {
    if bs == [] then 0 else FromBigEndian(bs[..|bs| - 1]) * 256 + bs[|bs| - 1] as int
  }

  lemma {:induction false} BigEndianRoundTrip(n: nat, width: nat)
    requires n < Pow256(width)
    ensures FromBigEndian(BigEndian(n, width)) == n
  {
    hide ByteOf;
    if width > 0 {
      var high := BigEndian(n / 256, width - 1);
      assert (high + [ByteOf(n % 256)])[..width - 1] == high;
      ByteRoundTrip(n % 256);
      BigEndianRoundTrip(n / 256, width - 1);
    }
  }

  lemma {:induction false} FromBigEndianBound(bs: bytes)
    ensures FromBigEndian(bs) < Pow256(|bs|)
  {
    if bs != [] { FromBigEndianBound(bs[..|bs| - 1]); }
  }

  /** The digits stand in network order, the most significant first. */
  lemma {:induction false} BigEndianDigit(n: nat, width: nat, i: nat)
    requires i < width
    ensures BigEndian(n, width)[i] as int == n / Pow256(width - 1 - i) % 256
  {
    hide ByteOf;
    if i == width - 1 {
      ByteRoundTrip(n % 256);
    } else {
      BigEndianDigit(n / 256, width - 1, i);
      DivideTwice(n, Pow256(width - 2 - i));
    }
  }

  lemma DivideTwice(n: nat, power: nat)
    requires power > 0
    ensures n / 256 / power == n / (256 * power)
  {
    var q := n / 256 / power;
    assert q * power <= n / 256 < q * power + power;
    assert 256 * (q * power) == q * (256 * power);
    assert q * (256 * power) <= n < (q + 1) * (256 * power);
    QuotientUnique(n, 256 * power, q);
  }

  lemma QuotientUnique(n: int, d: int, q: int)
    requires d > 0 && q * d <= n < (q + 1) * d
    ensures n / d == q
  {
    var p, r := n / d, n % d;
    assert n == p * d + r;
    TimesMonotone(p + 1, q, d);
    TimesMonotone(q + 1, p, d);
  }

  lemma TimesMonotone(a: int, b: int, d: int)
    requires d > 0
    ensures a <= b ==> a * d <= b * d
  {
  }

  lemma Widths()
    ensures Pow256(2) == 0x1_0000 && Pow256(8) == MAX_PAYLOAD
  {
    assert Pow256(4) == 256 * 256 * 256 * 256;
    assert Pow256(8) == 256 * 256 * 256 * 256 * Pow256(4);
  }

  // ---------------------------------------------------------------- masking (RFC 6455, section 5.3)

  /** A frame is sent in the clear, or masked under a four-byte key. */
  datatype Key = Clear | Masked(mask: bytes)
  {
    ghost predicate Valid() { Masked? ==> |mask| == 4 }
    function Bytes(): bytes { if Masked? then mask else [] }
    function Bit(): byte { if Masked? then 0x80 else 0 }
  }

  function Mask(payload: bytes, mask: bytes): (masked: bytes)
    requires |mask| == 4
    ensures |masked| == |payload|
    ensures forall i :: 0 <= i < |payload| ==> masked[i] == payload[i] ^ mask[i % 4]
  {
    seq(|payload|, i requires 0 <= i < |payload| => payload[i] ^ mask[i % 4])
  }

  function Apply(key: Key, payload: bytes): (masked: bytes)
    requires key.Valid()
    ensures |masked| == |payload|
  {
    if key.Masked? then Mask(payload, key.mask) else payload
  }

  lemma XorTwice(a: byte, b: byte)
    ensures (a ^ b) ^ b == a
  {
  }

  lemma ApplyTwice(key: Key, payload: bytes)
    requires key.Valid()
    ensures Apply(key, Apply(key, payload)) == payload
  {
    if key.Masked? {
      forall i | 0 <= i < |payload| ensures Mask(Mask(payload, key.mask), key.mask)[i] == payload[i] {
        XorTwice(payload[i], key.mask[i % 4]);
      }
    }
  }

  // ---------------------------------------------------------------- the printer

  /** The seven-bit length field for a payload of `n` bytes. */
  function LengthField(n: nat): byte {
    if n < 126 then ByteOf(n) else if n <= 0xFFFF then 126 else 127
  }

  function ExtensionWidth(field: byte): nat {
    if field == 126 then 2 else if field == 127 then 8 else 0
  }

  function Head(f: Frame, key: Key): bytes
    requires |f.payload| < MAX_PAYLOAD
  {
    [0x80 | f.opcode, key.Bit() | LengthField(|f.payload|)]
  }

  /** The header and body of one frame. The client sends with a fresh `Masked` key; servers send `Clear`. */
  function Encode(f: Frame, key: Key): bytes
    requires key.Valid() && |f.payload| < MAX_PAYLOAD
  {
    var n := |f.payload|;
    Head(f, key) + BigEndian(n, ExtensionWidth(LengthField(n))) + key.Bytes() + Apply(key, f.payload)
  }

  // ---------------------------------------------------------------- the parser

  function OpcodeBits(first: byte): byte { first & 0x0F }
  function LengthBits(second: byte): byte { second & 0x7F }
  function MaskBit(second: byte): bool { second & 0x80 != 0 }

  /** The payload length announced by the second byte, or by the extended length behind it. */
  function Announced(second: byte, width: bytes): nat {
    if width == [] then LengthBits(second) as nat else FromBigEndian(width)
  }

  /** `size` is the length of the header itself, `length` that of the payload behind it. */
  datatype Header = Header(opcode: byte, key: Key, length: nat, size: nat)

  /** Reads the header at the front of `bs`; None when `bs` ends before it does. */
  function DecodeHeader(bs: bytes): (r: Option<Header>)
    ensures r.Some? ==> r.value.key.Valid() && 2 <= r.value.size <= |bs|
  {
    if |bs| < 2 then None else
    var field := LengthBits(bs[1]);
    var from := 2 + ExtensionWidth(field);
    if |bs| < from then None else
    var length := Announced(bs[1], bs[2..from]);
    var size := from + if MaskBit(bs[1]) then 4 else 0;
    if |bs| < size then None else
    Some(Header(OpcodeBits(bs[0]), if MaskBit(bs[1]) then Masked(bs[from..size]) else Clear, length, size))
  }

  /** Reads one frame from the front of `bs`; None when `bs` ends before the frame does. */
  function Decode(bs: bytes): Option<Parsed> {
    match DecodeHeader(bs)
    case None => None
    case Some(h) =>
      if |bs| < h.size + h.length then None
      else Some(Parsed(Frame(h.opcode, Apply(h.key, bs[h.size..h.size + h.length])), h.size + h.length))
  }

  // ---------------------------------------------------------------- one frame

  lemma HeaderBits(opcode: byte, field: byte, key: Key)
    requires opcode < 16 && field < 128
    ensures OpcodeBits(0x80 | opcode) == opcode
    ensures LengthBits(key.Bit() | field) == field
    ensures MaskBit(key.Bit() | field) <==> key.Masked?
  {
  }

  lemma LengthFieldFits(n: nat)
    requires n < MAX_PAYLOAD
    ensures LengthField(n) < 128
    ensures ExtensionWidth(LengthField(n)) == 0 ==> n < 126 && LengthField(n) as int == n
    ensures ExtensionWidth(LengthField(n)) != 0 ==> FromBigEndian(BigEndian(n, ExtensionWidth(LengthField(n)))) == n
  {
    hide ByteOf, BigEndian, FromBigEndian, Pow256;
    Widths();
    if n < 126 {
      ByteRoundTrip(n);
    } else {
      BigEndianRoundTrip(n, ExtensionWidth(LengthField(n)));
    }
  }

  lemma Cut(a: bytes, b: bytes, c: bytes)
    ensures (a + b + c)[|a|..|a| + |b|] == b
  {
  }

  /** What the parser makes of a stream whose parts are known. */
  lemma DecodeParts(bs: bytes, width: bytes, key: Key)
    requires |bs| >= 2 + |width| + |key.Bytes()|
    requires |width| == ExtensionWidth(LengthBits(bs[1]))
    requires key.Valid() && (key.Masked? <==> MaskBit(bs[1]))
    requires bs[2..2 + |width|] == width
    requires bs[2 + |width|..2 + |width| + |key.Bytes()|] == key.Bytes()
    ensures DecodeHeader(bs)
         == Some(Header(OpcodeBits(bs[0]), key, Announced(bs[1], width), 2 + |width| + |key.Bytes()|))
  {
    hide FromBigEndian, ExtensionWidth, OpcodeBits, LengthBits, MaskBit;
  }

  lemma Layout(head: bytes, width: bytes, keyBytes: bytes, body: bytes, rest: bytes)
    ensures var bs := head + width + keyBytes + body + rest;
            var from := |head| + |width|;
            var to := from + |keyBytes|;
            && bs[|head|..from] == width && bs[from..to] == keyBytes && bs[to..to + |body|] == body
            && |bs| >= to + |body| && forall i :: 0 <= i < |head| ==> bs[i] == head[i]
  {
    Associate(head + width + keyBytes, body, rest);
    Associate(head + width, keyBytes, body + rest);
    Cut(head, width, keyBytes + (body + rest));
    Cut(head + width, keyBytes, body + rest);
    Cut(head + width + keyBytes, body, rest);
  }

  lemma Associate(a: bytes, b: bytes, c: bytes)
    ensures a + b + c == a + (b + c)
  {
  }

  lemma DecodeBody(bs: bytes, h: Header, body: bytes)
    requires DecodeHeader(bs) == Some(h) && |bs| >= h.size + h.length
    requires bs[h.size..h.size + h.length] == body
    ensures Decode(bs) == Some(Parsed(Frame(h.opcode, Apply(h.key, body)), h.size + h.length))
  {
    hide DecodeHeader, Apply;
  }

  /** What the parser makes of a header of either width, masked or not, and a body of the length it announces. */
  lemma DecodeLayout(head: bytes, width: bytes, key: Key, body: bytes, rest: bytes)
    requires |head| == 2 && |width| == ExtensionWidth(LengthBits(head[1]))
    requires |body| == Announced(head[1], width)
    requires key.Valid() && (key.Masked? <==> MaskBit(head[1]))
    ensures Decode(head + width + key.Bytes() + body + rest)
         == Some(Parsed(Frame(OpcodeBits(head[0]), Apply(key, body)), 2 + |width| + |key.Bytes()| + |body|))
  {
    hide *;
    var bs := head + width + key.Bytes() + body + rest;
    Layout(head, width, key.Bytes(), body, rest);
    assert bs[0] == head[0] && bs[1] == head[1];
    DecodeParts(bs, width, key);
    DecodeBody(bs, Header(OpcodeBits(head[0]), key, |body|, 2 + |width| + |key.Bytes()|), body);
  }

  /** The ways a stream can end inside a header. */
  lemma HeaderShort(bs: bytes)
    ensures DecodeHeader(bs).None? <==>
              || |bs| < 2
              || |bs| < 2 + ExtensionWidth(LengthBits(bs[1])) + if MaskBit(bs[1]) then 4 else 0
  {
    hide FromBigEndian, ExtensionWidth, OpcodeBits, LengthBits, MaskBit;
  }

  /** The size of a printed frame, and of its extended length. */
  lemma EncodeLength(f: Frame, key: Key)
    requires key.Valid() && |f.payload| < MAX_PAYLOAD
    ensures |Encode(f, key)| == 2 + ExtensionWidth(LengthField(|f.payload|)) + |key.Bytes()| + |f.payload|
  {
    hide BigEndian, Apply, LengthField, ExtensionWidth;
  }

  /** The layout of a frame on the wire (RFC 6455, section 5.2): final, its opcode; the mask bit and the length in
      seven bits, or 126 and two bytes, or 127 and eight; the key; the masked payload. */
  lemma FrameLayout(f: Frame, key: Key)
    requires key.Valid() && |f.payload| < MAX_PAYLOAD
    ensures var bs, n := Encode(f, key), |f.payload|;
            var ext := if n < 126 then 0 else if n <= 0xFFFF then 2 else 8;
            var body := 2 + ext + |key.Bytes()|;
            && |bs| == body + n
            && bs[0] == 0x80 | f.opcode
            && bs[1] & 0x80 == (if key.Masked? then 0x80 else 0)
            && (bs[1] & 0x7F) as int == (if n < 126 then n else if n <= 0xFFFF then 126 else 127)
            && bs[2..2 + ext] == BigEndian(n, ext)
            && bs[2 + ext..body] == key.Bytes()
            && bs[body..] == Apply(key, f.payload)
  {
    hide *;
    var n := |f.payload|;
    FieldOfLength(n);
    EncodeParts(f, key);
    HeadBytes(f, key);
    Parts(Head(f, key), BigEndian(n, ExtensionWidth(LengthField(n))), key.Bytes(), Apply(key, f.payload));
  }

  lemma HeadBytes(f: Frame, key: Key)
    requires |f.payload| < MAX_PAYLOAD
    ensures var head, field := Head(f, key), LengthField(|f.payload|);
            && |head| == 2 && head[0] == 0x80 | f.opcode
            && head[1] & 0x80 == (if key.Masked? then 0x80 else 0) && head[1] & 0x7F == field
  {
    FieldOfLength(|f.payload|);
    SecondByte(LengthField(|f.payload|), key);
  }

  lemma FieldOfLength(n: nat)
    requires n < MAX_PAYLOAD
    ensures LengthField(n) < 128
    ensures LengthField(n) as int == if n < 126 then n else if n <= 0xFFFF then 126 else 127
    ensures ExtensionWidth(LengthField(n)) == if n < 126 then 0 else if n <= 0xFFFF then 2 else 8
  {
    if n < 126 { ByteRoundTrip(n); }
  }

  lemma Parts(head: bytes, width: bytes, keyBytes: bytes, body: bytes)
    ensures var bs := head + width + keyBytes + body;
            var from := |head| + |width|;
            var to := from + |keyBytes|;
            && |bs| == to + |body| && (forall i :: 0 <= i < |head| ==> bs[i] == head[i])
            && bs[|head|..from] == width && bs[from..to] == keyBytes && bs[to..] == body
  {
    var bs := head + width + keyBytes + body;
    Layout(head, width, keyBytes, body, []);
    assert bs + [] == bs;
  }

  lemma EncodeParts(f: Frame, key: Key)
    requires key.Valid() && |f.payload| < MAX_PAYLOAD
    ensures var n := |f.payload|;
            Encode(f, key) == Head(f, key) + BigEndian(n, ExtensionWidth(LengthField(n))) + key.Bytes()
                              + Apply(key, f.payload)
  {
    hide BigEndian, ExtensionWidth, LengthField, Apply, Head;
  }

  /** Each byte of a masked payload is xored with one of the four of the key, in turn. */
  lemma AppliedBytes(key: Key, payload: bytes)
    requires key.Valid()
    ensures forall i :: 0 <= i < |payload| ==>
              Apply(key, payload)[i] == if key.Masked? then payload[i] ^ key.mask[i % 4] else payload[i]
    ensures key.Masked? ==> key.Bytes() == key.mask
    ensures |key.Bytes()| == if key.Masked? then 4 else 0
  {
  }

  lemma SecondByte(field: byte, key: Key)
    requires field < 128
    ensures (key.Bit() | field) & 0x80 == (if key.Masked? then 0x80 else 0)
    ensures (key.Bit() | field) & 0x7F == field
  {
  }

  lemma WidthOfLength(n: nat)
    requires n < MAX_PAYLOAD
    ensures ExtensionWidth(LengthField(n)) == if n < 126 then 0 else if n <= 0xFFFF then 2 else 8
  {
    if n < 126 { ByteRoundTrip(n); }
  }

  /** Parsing undoes printing, whatever follows on the stream and whatever the key. */
  lemma FrameRoundTrip(s: Sent, rest: bytes)
    requires s.Valid()
    ensures Decode(Encode(s.frame, s.key) + rest) == Some(Parsed(s.frame, |Encode(s.frame, s.key)|))
  {
    var f, key := s.frame, s.key;
    var n := |f.payload|;
    hide *;
    SentValid(s);
    HeadBits(f, key);
    EncodeLength(f, key);
    EncodeParts(f, key);
    LengthFieldFits(n);
    ApplyTwice(key, f.payload);
    DecodeLayout(Head(f, key), BigEndian(n, ExtensionWidth(LengthField(n))), key, Apply(key, f.payload), rest);
  }

  lemma SentValid(s: Sent)
    requires s.Valid()
    ensures s.key.Valid() && s.frame.opcode < 16 && |s.frame.payload| < MAX_PAYLOAD
  {
  }

  lemma HeadBits(f: Frame, key: Key)
    requires f.opcode < 16 && |f.payload| < MAX_PAYLOAD
    ensures var head := Head(f, key);
            && |head| == 2 && OpcodeBits(head[0]) == f.opcode
            && LengthBits(head[1]) == LengthField(|f.payload|) && (MaskBit(head[1]) <==> key.Masked?)
            && Announced(head[1], BigEndian(|f.payload|, ExtensionWidth(LengthField(|f.payload|)))) == |f.payload|
  {
    LengthFieldFits(|f.payload|);
    HeaderBits(f.opcode, LengthField(|f.payload|), key);
    hide LengthField, OpcodeBits, LengthBits, MaskBit, BigEndian, FromBigEndian;
  }

  lemma DecodedPayloadFits(bs: bytes)
    requires Decode(bs).Some?
    ensures |Decode(bs).value.frame.payload| < MAX_PAYLOAD && Decode(bs).value.frame.opcode < 16
    ensures 2 <= Decode(bs).value.used <= |bs|
  {
    var field := LengthBits(bs[1]);
    var ext := ExtensionWidth(field);
    FromBigEndianBound(bs[2..2 + ext]);
    Widths();
  }

  lemma HeaderExtends(bs: bytes, more: bytes)
    requires DecodeHeader(bs).Some?
    ensures DecodeHeader(bs + more) == DecodeHeader(bs)
  {
    hide FromBigEndian, ExtensionWidth, OpcodeBits, LengthBits, MaskBit;
    var from := 2 + ExtensionWidth(LengthBits(bs[1]));
    var size := from + if MaskBit(bs[1]) then 4 else 0;
    assert (bs + more)[2..from] == bs[2..from] && (bs + more)[from..size] == bs[from..size];
  }

  /** What follows a frame does not change how it is read. */
  lemma DecodeExtends(bs: bytes, more: bytes)
    requires Decode(bs).Some?
    ensures Decode(bs + more) == Decode(bs)
  {
    hide DecodeHeader, Apply;
    HeaderExtends(bs, more);
    var h := DecodeHeader(bs).value;
    assert (bs + more)[h.size..h.size + h.length] == bs[h.size..h.size + h.length];
  }

  /** A frame cut short anywhere is not read at all. */
  lemma CutFrame(s: Sent, n: nat)
    requires s.Valid() && n < |Encode(s.frame, s.key)|
    ensures Decode(Encode(s.frame, s.key)[..n]).None?
  {
    hide Decode, Encode;
    var whole := Encode(s.frame, s.key);
    FrameRoundTrip(s, []);
    assert whole[..n] + whole[n..] == whole == whole + [];
    if Decode(whole[..n]).Some? {
      DecodedPayloadFits(whole[..n]);
      DecodeExtends(whole[..n], whole[n..]);
    }
  }

  /** The printer uses the shortest length form: nothing that parses to a masked frame with this
      payload is shorter. */
  lemma ShortestForm(f: Frame, key: Key, bs: bytes)
    requires key.Valid() && key.Masked? && |f.payload| < MAX_PAYLOAD
    requires Decode(bs).Some? && MaskBit(bs[1]) && Decode(bs).value.frame.payload == f.payload
    ensures |Encode(f, key)| <= Decode(bs).value.used
  {
    hide Encode, BigEndian, FromBigEndian, Pow256, LengthField, Apply;
    var field := LengthBits(bs[1]);
    var ext := ExtensionWidth(field);
    FromBigEndianBound(bs[2..2 + ext]);
    Widths();
    EncodeLength(f, key);
    WidthOfLength(|f.payload|);
    assert field < 128;
    assert ext == 0 ==> field as int < 126;
  }

  // ---------------------------------------------------------------- a whole stream

  ghost predicate Sendable(stream: seq<Sent>) {
    forall i :: 0 <= i < |stream| ==> stream[i].Valid()
  }

  ghost function Wire(stream: seq<Sent>): bytes
    requires Sendable(stream)
  {
    if stream == [] then [] else Encode(stream[0].frame, stream[0].key) + Wire(stream[1..])
  }

  ghost function Frames(stream: seq<Sent>): seq<Frame> {
    seq(|stream|, i requires 0 <= i < |stream| => stream[i].frame)
  }

  /** The frames read by repeatedly parsing until the stream is used up; None if it ends inside a frame. */
  ghost function DecodeAll(bs: bytes): Option<seq<Frame>>
    decreases |bs|
  {
    if bs == [] then Some([]) else
    match Decode(bs)
    case None => None
    case Some(p) =>
      DecodedPayloadFits(bs);
      match DecodeAll(bs[p.used..])
      case None => None
      case Some(tail) => Some([p.frame] + tail)
  }

  /** Every sequence of frames, under any keys, is read back exactly, with no byte lost or left over. */
  lemma {:induction false} StreamRoundTrip(stream: seq<Sent>)
    requires Sendable(stream)
    ensures DecodeAll(Wire(stream)) == Some(Frames(stream))
  {
    hide Encode, Decode;
    if stream == [] {
      assert Frames(stream) == [];
    } else {
      var first := Encode(stream[0].frame, stream[0].key);
      var rest := Wire(stream[1..]);
      FrameRoundTrip(stream[0], rest);
      DecodedPayloadFits(first + rest);
      assert (first + rest)[|first|..] == rest;
      StreamRoundTrip(stream[1..]);
      assert Frames(stream) == [stream[0].frame] + Frames(stream[1..]);
    }
  }

  lemma {:induction false} WireSnoc(stream: seq<Sent>, s: Sent)
    requires Sendable(stream) && s.Valid()
    ensures Wire(stream + [s]) == Wire(stream) + Encode(s.frame, s.key)
  {
    hide Encode;
    if stream == [] {
      assert [s][1..] == [];
    } else {
      WireSnoc(stream[1..], s);
      assert (stream + [s])[1..] == stream[1..] + [s];
    }
  }
}
