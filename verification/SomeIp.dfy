/** The SOME/IP message codec (AUTOSAR PRS_SOMEIPProtocol, section 4.1.2). */
module SomeIp {
  import opened Bytes

  const SOMEIP_PROTOCOL_VERSION: byte := 1
  const SOMEIP_HEADER_LEN := 16
  const SOMEIP_MAX_PAYLOAD := 1024

  type u16 = v: int | 0 <= v < 0x1_0000
  type u32 = v: int | 0 <= v < 0x1_0000_0000

  datatype MessageType = Request | RequestNoReturn | Notification | Response | Error {
    function ToByte(): byte {
      match this
      case Request => 0x00
      case RequestNoReturn => 0x01
      case Notification => 0x02
      case Response => 0x80
      case Error => 0x81
    }
  }

  function TypeFromByte(v: byte): Option<MessageType> {
    if v == 0x00 then Some(Request)
    else if v == 0x01 then Some(RequestNoReturn)
    else if v == 0x02 then Some(Notification)
    else if v == 0x80 then Some(Response)
    else if v == 0x81 then Some(Error)
    else None
  }

  datatype ReturnCode = CodeOk | NotOk | WrongProtocolVersion {
    function ToByte(): byte {
      match this
      case CodeOk => 0x00
      case NotOk => 0x01
      case WrongProtocolVersion => 0x02
    }
  }

  function CodeFromByte(v: byte): Option<ReturnCode> {
    if v == 0x00 then Some(CodeOk)
    else if v == 0x01 then Some(NotOk)
    else if v == 0x02 then Some(WrongProtocolVersion)
    else None
  }

  /** A message id (service and method) or a request id (client and session). */
  datatype IdPair = IdPair(high: u16, low: u16) {
    function ToU32(): u32 { high * 0x1_0000 + low }
  }

  function PairFromU32(v: u32): IdPair { IdPair(v / 0x1_0000, v % 0x1_0000) }

  datatype Header = Header(
    messageId: IdPair,
    requestId: IdPair,
    interfaceVersion: byte,
    messageType: MessageType,
    returnCode: ReturnCode
  )

  datatype MessageFields = MessageFields(header: Header, payload: seq<byte>)

  /** What `SomeIpMessage::new` lets through. */
  type Message = m: MessageFields | |m.payload| <= SOMEIP_MAX_PAYLOAD
    witness MessageFields(Header(IdPair(0, 0), IdPair(0, 0), 0, Request, CodeOk), [])

  function NewMessage(header: Header, payload: seq<byte>): Option<Message> {
    if |payload| > SOMEIP_MAX_PAYLOAD then None else Some(MessageFields(header, payload))
  }

  /** The request id, the four bytes after it, and the payload. */
  function LengthField(payloadLen: nat): nat { 4 + 4 + payloadLen }

  function HeaderTail(h: Header): (s: seq<byte>)
    ensures |s| == 8
  {
    ToBe32(h.requestId.ToU32()) +
    [SOMEIP_PROTOCOL_VERSION, h.interfaceVersion, h.messageType.ToByte(), h.returnCode.ToByte()]
  }

  /** The bytes of a message on the wire. */
  function Encode(m: Message): (s: seq<byte>)
    ensures |s| == SOMEIP_HEADER_LEN + |m.payload|
  {
    ToBe32(m.header.messageId.ToU32()) + ToBe32(LengthField(|m.payload|)) + HeaderTail(m.header) + m.payload
  }

  /** `ids` is `s` with the two ids of the header in place; the four single bytes complete it. */
  lemma HeaderBytes(h: Header, s: seq<byte>, ids: seq<byte>)
    requires |s| >= SOMEIP_HEADER_LEN
    requires ids == Overwrite(Overwrite(s, 0, ToBe32(h.messageId.ToU32())), 8, ToBe32(h.requestId.ToU32()))
    ensures ids[12 := 1][13 := h.interfaceVersion][14 := h.messageType.ToByte()][15 := h.returnCode.ToByte()] ==
            ToBe32(h.messageId.ToU32()) + s[4..8] + HeaderTail(h) + s[16..]
  {
  }

  /** Writes everything but the length, bytes 4 to 7, which it leaves alone. */
  method EncodeHeader(h: Header, out: array<byte>) returns (r: Option<()>)
    modifies out
    ensures r.None? <==> out.Length < SOMEIP_HEADER_LEN
    ensures out[..] == if r.None? then old(out[..])
                       else ToBe32(h.messageId.ToU32()) + old(out[4..8]) + HeaderTail(h) + old(out[16..])
  {
    if out.Length < SOMEIP_HEADER_LEN {
      return None;
    }
    CopyFromSlice(out, 0, ToBe32(h.messageId.ToU32()));
    CopyFromSlice(out, 8, ToBe32(h.requestId.ToU32()));
    HeaderBytes(h, old(out[..]), out[..]);
    ghost var ids: seq<byte> := out[..];
    out[12] := SOMEIP_PROTOCOL_VERSION;
    out[13] := h.interfaceVersion;
    out[14] := h.messageType.ToByte();
    out[15] := h.returnCode.ToByte();
    assert out[..] == ids[12 := 1][13 := h.interfaceVersion][14 := h.messageType.ToByte()][15 := h.returnCode.ToByte()];
    assert old(out[..])[4..8] == old(out[4..8]) && old(out[..])[16..] == old(out[16..]);
    r := Some(());
  }

  /** The length, the header and the payload written one after the other over `s` make the encoding. */
  lemma MessageBytes(m: Message, s: seq<byte>, first: seq<byte>, second: seq<byte>)
    requires |s| >= |Encode(m)|
    requires first == Overwrite(s, 4, ToBe32(LengthField(|m.payload|)))
    requires second == ToBe32(m.header.messageId.ToU32()) + first[4..8] + HeaderTail(m.header) + first[16..]
    ensures |second| == |s|
    ensures Overwrite(second, SOMEIP_HEADER_LEN, m.payload) == Encode(m) + s[|Encode(m)|..]
  {
    assert first[4..8] == ToBe32(LengthField(|m.payload|));
    assert second[..16] == ToBe32(m.header.messageId.ToU32()) + first[4..8] + HeaderTail(m.header);
    assert second[16 + |m.payload|..] == s[16 + |m.payload|..];
  }

  method EncodeMessage(m: Message, out: array<byte>) returns (r: Option<nat>)
    modifies out
    ensures r == if out.Length < |Encode(m)| then None else Some(|Encode(m)|)
    ensures out[..] == if r.None? then old(out[..]) else Encode(m) + old(out[|Encode(m)|..])
  {
    var total := SOMEIP_HEADER_LEN + |m.payload|;
    if out.Length < total {
      return None;
    }
    CopyFromSlice(out, 4, ToBe32(LengthField(|m.payload|)));
    ghost var first: seq<byte> := out[..];
    var _ := EncodeHeader(m.header, out);
    ghost var second: seq<byte> := out[..];
    CopyFromSlice(out, SOMEIP_HEADER_LEN, m.payload);
    MessageBytes(m, old(out[..]), first, second);
    r := Some(total);
  }

  function DecodeHeader(s: seq<byte>): Option<Header> {
    if |s| < SOMEIP_HEADER_LEN then None
    else
      var messageType, code := TypeFromByte(s[14]), CodeFromByte(s[15]);
      if messageType.None? || code.None? then None
      else Some(Header(PairFromU32(FromBe32(s[0..4])), PairFromU32(FromBe32(s[8..12])), s[13],
                       messageType.value, code.value))
  }

  /** The length that a buffer declares for the message at its front. */
  function DeclaredTotal(s: seq<byte>): nat
    requires |s| >= SOMEIP_HEADER_LEN
  {
    8 + FromBe32(s[4..8])
  }

  function Decode(s: seq<byte>): (r: Option<Message>)
    ensures r.Some? ==> |s| >= SOMEIP_HEADER_LEN && SOMEIP_HEADER_LEN <= DeclaredTotal(s) <= |s|
                        && |Encode(r.value)| == DeclaredTotal(s)
  {
    var header := DecodeHeader(s);
    if header.None? then None
    else if FromBe32(s[4..8]) < 8 then None
    else if |s| < DeclaredTotal(s) then None
    else if header.value.messageType == Request && s[12] != SOMEIP_PROTOCOL_VERSION then None
    else NewMessage(header.value, s[SOMEIP_HEADER_LEN..DeclaredTotal(s)])
  }

  // ---------------------------------------------------------------------------
  // Round trips
  // ---------------------------------------------------------------------------

  lemma PairRoundTrip(p: IdPair, v: u32)
    ensures PairFromU32(p.ToU32()) == p && PairFromU32(v).ToU32() == v
  {
  }

  lemma CodesRoundTrip(t: MessageType, c: ReturnCode, v: byte)
    ensures TypeFromByte(t.ToByte()) == Some(t) && CodeFromByte(c.ToByte()) == Some(c)
    ensures TypeFromByte(v).Some? ==> TypeFromByte(v).value.ToByte() == v
    ensures CodeFromByte(v).Some? ==> CodeFromByte(v).value.ToByte() == v
  {
  }

  lemma EncodedFields(m: Message, rest: seq<byte>)
    ensures var s := Encode(m) + rest;
            && s[0..4] == ToBe32(m.header.messageId.ToU32())
            && s[4..8] == ToBe32(LengthField(|m.payload|))
            && s[8..12] == ToBe32(m.header.requestId.ToU32())
            && s[12] == SOMEIP_PROTOCOL_VERSION && s[13] == m.header.interfaceVersion
            && s[14] == m.header.messageType.ToByte() && s[15] == m.header.returnCode.ToByte()
            && s[16..16 + |m.payload|] == m.payload
  {
    var s := Encode(m) + rest;
    var tail := HeaderTail(m.header);
    assert s[8..16] == tail;
    assert s[8..12] == tail[0..4];
    assert s[12] == s[8..16][4] && s[13] == s[8..16][5] && s[14] == s[8..16][6] && s[15] == s[8..16][7];
  }

  lemma IdRoundTrip(p: IdPair)
    ensures PairFromU32(FromBe32(ToBe32(p.ToU32()))) == p
  {
    ToThenFromBe32(p.ToU32());
    PairRoundTrip(p, 0);
  }

  lemma DecodeEncodedHeader(m: Message, rest: seq<byte>)
    ensures DecodeHeader(Encode(m) + rest) == Some(m.header)
  {
    EncodedFields(m, rest);
    IdRoundTrip(m.header.messageId);
    IdRoundTrip(m.header.requestId);
    CodesRoundTrip(m.header.messageType, m.header.returnCode, 0);
  }

  lemma EncodedLength(m: Message, rest: seq<byte>)
    ensures FromBe32((Encode(m) + rest)[4..8]) == 8 + |m.payload|
    ensures DeclaredTotal(Encode(m) + rest) == |Encode(m)|
  {
    EncodedFields(m, rest);
    ToThenFromBe32(LengthField(|m.payload|));
  }

  /** A message decodes to itself, whatever follows it in the buffer. */
  lemma DecodeEncoded(m: Message, rest: seq<byte>)
    ensures Decode(Encode(m) + rest) == Some(m)
    ensures DeclaredTotal(Encode(m) + rest) == |Encode(m)|
  {
    DecodeEncodedHeader(m, rest);
    EncodedLength(m, rest);
    EncodedFields(m, rest);
  }

  /** The number that two bytes denote, the more significant one first. */
  function Be16(high: byte, low: byte): nat { high as int * 256 + low }

  lemma IdBytes(p: IdPair)
    ensures var s := ToBe32(p.ToU32()); Be16(s[0], s[1]) == p.high && Be16(s[2], s[3]) == p.low
  {
    var v := p.ToU32();
    assert v / 0x1_0000 == p.high && v % 0x1_0000 == p.low;
    assert v / 256 / 256 == v / 0x1_0000 && v / 256 % 256 * 256 + v % 256 == v % 0x1_0000;
  }

  /** Where everything is on the wire, byte by byte. */
  lemma WireLayout(m: Message)
    ensures var s, h := Encode(m), m.header;
            && Be16(s[0], s[1]) == h.messageId.high && Be16(s[2], s[3]) == h.messageId.low
            && (Be16(s[4], s[5]) * 0x1_0000 + Be16(s[6], s[7]) == 8 + |m.payload|)
            && Be16(s[8], s[9]) == h.requestId.high && Be16(s[10], s[11]) == h.requestId.low
            && s[12] == 1 && s[13] == h.interfaceVersion && s[16..] == m.payload
  {
    var s := Encode(m);
    EncodedFields(m, []);
    assert s + [] == s;
    IdBytes(m.header.messageId);
    IdBytes(m.header.requestId);
    LengthBytes(LengthField(|m.payload|));
    assert s[0..4][0] == s[0] && s[0..4][1] == s[1] && s[0..4][2] == s[2] && s[0..4][3] == s[3];
    assert s[4..8][0] == s[4] && s[4..8][1] == s[5] && s[4..8][2] == s[6] && s[4..8][3] == s[7];
    assert s[8..12][0] == s[8] && s[8..12][1] == s[9] && s[8..12][2] == s[10] && s[8..12][3] == s[11];
  }

  lemma LengthBytes(v: nat)
    requires v < 0x1_0000_0000
    ensures var s := ToBe32(v); Be16(s[0], s[1]) * 0x1_0000 + Be16(s[2], s[3]) == v
  {
    ToThenFromBe32(v);
  }

  /** The codes of message types and results, in bytes 14 and 15. */
  lemma WireCodes(m: Message)
    ensures var kind, byte14 := m.header.messageType, Encode(m)[14];
            && (kind.Request? <==> byte14 == 0x00) && (kind.RequestNoReturn? <==> byte14 == 0x01)
            && (kind.Notification? <==> byte14 == 0x02)
            && (kind.Response? <==> byte14 == 0x80) && (kind.Error? <==> byte14 == 0x81)
    ensures var code, byte15 := m.header.returnCode, Encode(m)[15];
            && (code.CodeOk? <==> byte15 == 0) && (code.NotOk? <==> byte15 == 1)
            && (code.WrongProtocolVersion? <==> byte15 == 2)
  {
    EncodedFields(m, []);
    assert Encode(m) + [] == Encode(m);
  }

  /** A message is refused exactly if its payload is longer than 1024 bytes. */
  lemma NewMessageExactly(header: Header, payload: seq<byte>)
    ensures NewMessage(header, payload).Some? <==> |payload| <= 1024
    ensures |payload| <= 1024 ==> NewMessage(header, payload).value == MessageFields(header, payload)
  {
  }

  /** No encoding is the beginning of another. */
  lemma EncodingsArePrefixFree(m: Message, k: Message)
    requires Encode(m) <= Encode(k)
    ensures m == k
  {
    var rest := Encode(k)[|Encode(m)|..];
    assert Encode(k) == Encode(m) + rest;
    DecodeEncoded(m, rest);
    DecodeEncoded(k, []);
    assert Encode(k) + [] == Encode(k);
  }

  function EncodeAll(ms: seq<Message>): seq<byte> {
    if ms == [] then [] else Encode(ms[0]) + EncodeAll(ms[1..])
  }

  /** The messages at the front of a stream, each cut off at the length it declares. */
  function DecodeAll(s: seq<byte>): seq<Message>
    decreases |s|
  {
    var m := Decode(s);
    if m.None? then [] else [m.value] + DecodeAll(s[DeclaredTotal(s)..])
  }

  lemma DecodeFront(m: Message, rest: seq<byte>)
    ensures DecodeAll(Encode(m) + rest) == [m] + DecodeAll(rest)
  {
    var s := Encode(m) + rest;
    DecodeEncoded(m, rest);
    assert s[|Encode(m)|..] == rest;
  }

  /** A stream of messages splits back into just those messages. */
  lemma {:induction false} StreamRoundTrip(ms: seq<Message>)
    ensures DecodeAll(EncodeAll(ms)) == ms
    decreases |ms|
  {
    if ms == [] {
      assert Decode([]).None?;
    } else {
      StreamRoundTrip(ms[1..]);
      DecodeFront(ms[0], EncodeAll(ms[1..]));
    }
  }

  /** Decoding accepts a version other than 1 in messages that are not requests, and forgets it. */
  lemma EncodeDecoded(s: seq<byte>)
    requires Decode(s).Some?
    ensures Encode(Decode(s).value) == s[..DeclaredTotal(s)][12 := SOMEIP_PROTOCOL_VERSION]
  {
    var m := Decode(s).value;
    FromThenToBe32(s[0..4]);
    FromThenToBe32(s[4..8]);
    FromThenToBe32(s[8..12]);
    PairRoundTrip(m.header.messageId, FromBe32(s[0..4]));
    PairRoundTrip(m.header.requestId, FromBe32(s[8..12]));
    CodesRoundTrip(m.header.messageType, m.header.returnCode, s[14]);
    CodesRoundTrip(m.header.messageType, m.header.returnCode, s[15]);
    var t := s[..DeclaredTotal(s)][12 := SOMEIP_PROTOCOL_VERSION];
    assert t == s[0..4] + s[4..8] + (s[8..12] + [1, s[13], s[14], s[15]]) + s[16..DeclaredTotal(s)];
  }

  /** An accepted buffer is reproduced exactly when it carries the protocol version, as every accepted request does. */
  lemma ReencodesExactly(s: seq<byte>)
    requires Decode(s).Some?
    ensures Encode(Decode(s).value) == s[..DeclaredTotal(s)] <==> s[12] == SOMEIP_PROTOCOL_VERSION
    ensures Decode(s).value.header.messageType == Request ==> s[12] == SOMEIP_PROTOCOL_VERSION
  {
    EncodeDecoded(s);
    var t := s[..DeclaredTotal(s)];
    assert t[12] == s[12];
    if s[12] == SOMEIP_PROTOCOL_VERSION {
      assert t[12 := SOMEIP_PROTOCOL_VERSION] == t;
    } else {
      assert t[12 := SOMEIP_PROTOCOL_VERSION][12] != t[12];
    }
  }

  /** Buffers that agree on what they declare and differ in the version byte at most decode alike. */
  lemma VersionByteOnly(s: seq<byte>, t: seq<byte>, m: Message)
    requires |s| == |t| >= SOMEIP_HEADER_LEN && t == s[12 := SOMEIP_PROTOCOL_VERSION]
    requires Decode(t) == Some(m) && (m.header.messageType == Request ==> s[12] == SOMEIP_PROTOCOL_VERSION)
    ensures Decode(s) == Some(m)
  {
    assert s[0..4] == t[0..4] && s[4..8] == t[4..8] && s[8..12] == t[8..12];
    assert s[SOMEIP_HEADER_LEN..DeclaredTotal(s)] == t[SOMEIP_HEADER_LEN..DeclaredTotal(t)];
  }

  /** A buffer decodes to `m` exactly when it begins with `m`'s encoding, the version of a non-request aside. */
  lemma DecodesExactly(s: seq<byte>, m: Message)
    ensures var n := |Encode(m)|;
            Decode(s) == Some(m) <==>
            && n <= |s| && s[..n][12 := SOMEIP_PROTOCOL_VERSION] == Encode(m)
            && (m.header.messageType == Request ==> s[12] == SOMEIP_PROTOCOL_VERSION)
  {
    var n := |Encode(m)|;
    if Decode(s) == Some(m) {
      EncodeDecoded(s);
      ReencodesExactly(s);
    }
    if n <= |s| && s[..n][12 := SOMEIP_PROTOCOL_VERSION] == Encode(m)
       && (m.header.messageType == Request ==> s[12] == SOMEIP_PROTOCOL_VERSION) {
      var t := s[12 := SOMEIP_PROTOCOL_VERSION];
      assert t == Encode(m) + s[n..];
      DecodeEncoded(m, s[n..]);
      VersionByteOnly(s, t, m);
    }
  }
}
