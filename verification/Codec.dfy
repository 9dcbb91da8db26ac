/** Message/BaseMessage.* and the four message classes as values: the bytes of a frame, the header
    decoder as a total function of the readable bytes, and the body decoder. */
module Codec {
  import opened Bytes

  const MAGIC: u32 := 0x11000011
  const MAX_PACK_SIZE: nat := 4096
  const LENGTH_SIZE: nat := 4
  const HEADER_SIZE_NO_LENGTH: nat := 17
  const FULL_HEADER: nat := 21

  const TYPE_MIN: byte := 0
  const DEFAULT: byte := 1
  const CONTROL: byte := 2
  const PING: byte := 3
  const ENTER_ROOM: byte := 4
  const GAME_START: byte := 5
  const TYPE_MAX: byte := 6

  datatype Header = Header(uniqueId: u32, roleId: i32, version: byte, messageType: byte)

  datatype Body =
    | NoBody
    | Control(tick: u32, direction: byte)
    | Ping(pingTime: u64)
    | EnterRoom(roomId: u32, result: i32)
    | GameStart(startTime: u64)

  datatype Message = Message(header: Header, body: Body) {
    /** The tag a message of this class is constructed with. */
    predicate WellTyped() { header.messageType == TypeOf(body) }
  }

  function TypeOf(body: Body): byte {
    match body
    case NoBody => DEFAULT
    case Control(_, _) => CONTROL
    case Ping(_) => PING
    case EnterRoom(_, _) => ENTER_ROOM
    case GameStart(_) => GAME_START
  }

  function BodyBytes(body: Body): (s: seq<byte>)
    ensures |s| == BodySize(TypeOf(body))
  {
    match body
    case NoBody => []
    case Control(tick, direction) => BigEndian(4, tick) + BigEndian(4, direction)
    case Ping(t) => BigEndian(8, t)
    case EnterRoom(roomId, result) => BigEndian(4, roomId) + BigEndian(4, ToU32(result))
    case GameStart(t) => BigEndian(8, t)
  }

  function BodySize(messageType: byte): nat {
    if messageType in {CONTROL, PING, ENTER_ROOM, GAME_START} then 8 else 0
  }

  /** The 17 header bytes, with the type tag as the 4-byte integer put on the wire. */
  function HeaderBytesOf(magic: u32, h: Header, wireType: u32): (s: seq<byte>)
    ensures |s| == HEADER_SIZE_NO_LENGTH
  {
    BigEndian(4, magic) + BigEndian(4, h.uniqueId) + BigEndian(4, ToU32(h.roleId)) +
    BigEndian(1, h.version) + BigEndian(4, wireType)
  }

  function HeaderBytes(h: Header, wireType: u32): (s: seq<byte>)
    ensures |s| == HEADER_SIZE_NO_LENGTH
  {
    HeaderBytesOf(MAGIC, h, wireType)
  }

  function RawFrame(h: Header, wireType: u32, body: seq<byte>): (s: seq<byte>)
    ensures |s| == FULL_HEADER + |body|
  {
    BigEndian(4, HEADER_SIZE_NO_LENGTH + |body|) + HeaderBytes(h, wireType) + body
  }

  function Encode(m: Message): seq<byte> {
    RawFrame(m.header, m.header.messageType, BodyBytes(m.body))
  }

  datatype HeaderResult =
    | NeedMore
    | BadSize
    | BadMagic
    | BadType
    | Accepted(header: Header, bodySize: u32)
    | Aborted  // a failed assertion

  function HeaderAt(b: seq<byte>): Header
    requires FULL_HEADER <= |b|
  {
    Header(U32At(b, 8), ToI32(U32At(b, 12)), b[16], U32At(b, 17) % 256)
  }

  function DecodeHeader(b: seq<byte>): HeaderResult {
    if |b| < LENGTH_SIZE then NeedMore
    else if U32At(b, 0) > MAX_PACK_SIZE then BadSize
    else if |b| < U32At(b, 0) + LENGTH_SIZE then NeedMore
    else DecodeBehindLength(b)
  }

  function DecodeBehindLength(b: seq<byte>): HeaderResult
    requires LENGTH_SIZE <= |b|
  {
    if |b| < 8 then Aborted
    else if U32At(b, 4) != MAGIC then BadMagic
    else if |b| < FULL_HEADER then Aborted
    else if HeaderAt(b).messageType <= TYPE_MIN || HeaderAt(b).messageType >= TYPE_MAX then BadType
    else Accepted(HeaderAt(b), (U32At(b, 0) - HEADER_SIZE_NO_LENGTH) % U32_MODULUS)
  }

  /** Bytes the header decoder takes off the buffer when it returns. */
  function HeaderConsumed(r: HeaderResult): nat {
    match r
    case BadMagic => LENGTH_SIZE
    case BadType => FULL_HEADER
    case Accepted(_, _) => FULL_HEADER
    case _ => 0
  }

  function Consumed(b: seq<byte>): (k: nat)
    ensures k <= |b|
  {
    HeaderConsumed(DecodeHeader(b))
  }

  lemma U32AtSlice(b: seq<byte>, i: nat, v: u32)
    requires i + 4 <= |b| && b[i..i + 4] == BigEndian(4, v)
    ensures U32At(b, i) == v
  {
    WidthValues();
    FromBigEndianOfBigEndian(4, v);
  }

  lemma RawFrameFields(h: Header, wireType: u32, body: seq<byte>, rest: seq<byte>)
    requires |body| <= MAX_PACK_SIZE - HEADER_SIZE_NO_LENGTH
    ensures var b := RawFrame(h, wireType, body) + rest;
            && U32At(b, 0) == HEADER_SIZE_NO_LENGTH + |body|
            && U32At(b, 4) == MAGIC
            && U32At(b, 17) == wireType
            && HeaderAt(b) == h.(messageType := wireType % 256)
            && b[FULL_HEADER..FULL_HEADER + |body|] == body
            && b[FULL_HEADER + |body|..] == rest
  {
    var b := RawFrame(h, wireType, body) + rest;
    assert b[0..4] == BigEndian(4, HEADER_SIZE_NO_LENGTH + |body|);
    assert b[4..8] == BigEndian(4, MAGIC);
    assert b[8..12] == BigEndian(4, h.uniqueId);
    assert b[12..16] == BigEndian(4, ToU32(h.roleId));
    assert b[16..17] == BigEndian(1, h.version);
    assert BigEndian(1, h.version)[0] == h.version;
    assert b[16] == b[16..17][0];
    assert b[17..21] == BigEndian(4, wireType);
    U32AtSlice(b, 0, HEADER_SIZE_NO_LENGTH + |body|);
    U32AtSlice(b, 4, MAGIC);
    U32AtSlice(b, 8, h.uniqueId);
    U32AtSlice(b, 12, ToU32(h.roleId));
    U32AtSlice(b, 17, wireType);
  }

  /** A frame followed by anything is accepted, with its own header and exactly its body, if and only if
      its tag, cut down to a byte, lies strictly between the two bounds. */
  lemma DecodeOfRawFrame(h: Header, wireType: u32, body: seq<byte>, rest: seq<byte>)
    requires |body| <= MAX_PACK_SIZE - HEADER_SIZE_NO_LENGTH
    ensures var b := RawFrame(h, wireType, body) + rest;
            DecodeHeader(b) == if TYPE_MIN < wireType % 256 < TYPE_MAX
                               then Accepted(h.(messageType := wireType % 256), |body|) else BadType
    ensures var b := RawFrame(h, wireType, body) + rest;
            b[FULL_HEADER..FULL_HEADER + |body|] == body && b[FULL_HEADER + |body|..] == rest
  {
    RawFrameFields(h, wireType, body, rest);
  }

  lemma CutAtFields(b: seq<byte>, n: nat)
    requires FULL_HEADER + n <= |b|
    ensures b == b[0..4] + (b[4..8] + b[8..12] + b[12..16] + b[16..17] + b[17..21]) +
                 b[FULL_HEADER..FULL_HEADER + n] + b[FULL_HEADER + n..]
  {
  }

  lemma FieldBytes(b: seq<byte>, i: nat)
    requires i + 4 <= |b|
    ensures b[i..i + 4] == BigEndian(4, U32At(b, i))
  {
    BigEndianOfFromBigEndian(b[i..i + 4]);
  }

  lemma OneByte(v: byte)
    ensures BigEndian(1, v) == [v]
  {
    assert BigEndian(1, v) == BigEndian(0, v / 256) + [v % 256];
  }

  lemma FrameFromFields(b: seq<byte>, h: Header, wireType: u32, n: nat)
    requires FULL_HEADER + n <= |b| && U32At(b, 0) == HEADER_SIZE_NO_LENGTH + n && U32At(b, 4) == MAGIC
    requires U32At(b, 8) == h.uniqueId && U32At(b, 12) == ToU32(h.roleId) && b[16] == h.version
    requires U32At(b, 17) == wireType
    ensures b == RawFrame(h, wireType, b[FULL_HEADER..FULL_HEADER + n]) + b[FULL_HEADER + n..]
  {
    hide U32At, BigEndian;
    CutAtFields(b, n);
    FieldBytes(b, 0);
    FieldBytes(b, 4);
    FieldBytes(b, 8);
    FieldBytes(b, 12);
    FieldBytes(b, 17);
    OneByte(b[16]);
    assert b[16..17] == [b[16]];
  }

  /** The converse: accepted bytes with a complete body are a frame with that header and body, up to
      the three high bytes of the tag, which the decoder drops. */
  lemma AcceptedIsRawFrame(b: seq<byte>) returns (wireType: u32)
    requires DecodeHeader(b).Accepted? && U32At(b, 0) >= HEADER_SIZE_NO_LENGTH
    ensures var Accepted(h, n) := DecodeHeader(b);
            && wireType % 256 == h.messageType
            && b == RawFrame(h, wireType, b[FULL_HEADER..FULL_HEADER + n]) + b[FULL_HEADER + n..]
  {
    hide RawFrame;
    var Accepted(h, n) := DecodeHeader(b);
    wireType := U32At(b, 17);
    FrameFromFields(b, h, wireType, n);
  }

  lemma U32AtPrefix(b: seq<byte>, c: seq<byte>, i: nat)
    requires i + 4 <= |b|
    ensures U32At(b + c, i) == U32At(b, i)
  {
    assert (b + c)[i..i + 4] == b[i..i + 4];
  }

  /** More bytes behind a complete frame of announced length at least 17 change no decision, and the
      part taken off is the same; a decision to wait took nothing. */
  lemma DecisionIsPrefixStable(b: seq<byte>, c: seq<byte>)
    ensures HeaderConsumed(NeedMore) == 0 && HeaderConsumed(BadSize) == 0
    ensures |b| >= 4 && U32At(b, 0) >= HEADER_SIZE_NO_LENGTH && !DecodeHeader(b).NeedMore? ==>
              !DecodeHeader(b).Aborted? && DecodeHeader(b + c) == DecodeHeader(b)
    ensures DecodeHeader(b).Accepted? && |b| < U32_MODULUS ==>
              (FULL_HEADER + DecodeHeader(b).bodySize <= |b| <==> U32At(b, 0) >= HEADER_SIZE_NO_LENGTH)
    ensures DecodeHeader(b).Accepted? && U32At(b, 0) >= HEADER_SIZE_NO_LENGTH ==>
              FULL_HEADER + DecodeHeader(b).bodySize == U32At(b, 0) + LENGTH_SIZE
  {
    if |b| >= 4 {
      U32AtPrefix(b, c, 0);
    }
    if |b| >= 8 {
      U32AtPrefix(b, c, 4);
    }
    if |b| >= 21 {
      U32AtPrefix(b, c, 8);
      U32AtPrefix(b, c, 12);
      U32AtPrefix(b, c, 17);
    }
  }

  datatype Typed =
    | Null            // the class is not registered
    | TypedMessage(message: Message)
    | BodyAborted     // a failed assertion on a body that is too short

  function BodyAt(messageType: byte, b: seq<byte>): Body
    requires BodySize(messageType) <= |b|
  {
    if messageType == CONTROL then Control(U32At(b, 0), U32At(b, 4) % 256)
    else if messageType == PING then Ping(U64At(b))
    else if messageType == ENTER_ROOM then EnterRoom(U32At(b, 0), ToI32(U32At(b, 4)))
    else if messageType == GAME_START then GameStart(U64At(b))
    else NoBody
  }

  function U64At(b: seq<byte>): u64
    requires 8 <= |b|
  {
    BigEndianOfFromBigEndian(b[..8]);
    WidthValues();
    FromBigEndian(b[..8])
  }

  function Transmit(h: Header, body: seq<byte>): Typed {
    if h.messageType !in {CONTROL, PING, ENTER_ROOM, GAME_START} then Null
    else if |body| < BodySize(h.messageType) then BodyAborted
    else TypedMessage(Message(h, BodyAt(h.messageType, body)))
  }

  lemma BodyRoundTrip(body: Body, rest: seq<byte>)
    ensures BodyAt(TypeOf(body), BodyBytes(body) + rest) == body
  {
    var b := BodyBytes(body) + rest;
    match body
    case NoBody =>
    case Control(tick, direction) =>
      assert b[0..4] == BigEndian(4, tick);
      assert b[4..8] == BigEndian(4, direction);
      U32AtSlice(b, 0, tick);
      U32AtSlice(b, 4, direction);
    case EnterRoom(roomId, result) =>
      assert b[0..4] == BigEndian(4, roomId);
      assert b[4..8] == BigEndian(4, ToU32(result));
      U32AtSlice(b, 0, roomId);
      U32AtSlice(b, 4, ToU32(result));
    case Ping(t) =>
      assert b[..8] == BigEndian(8, t);
      WidthValues();
      FromBigEndianOfBigEndian(8, t);
    case GameStart(t) =>
      assert b[..8] == BigEndian(8, t);
      WidthValues();
      FromBigEndianOfBigEndian(8, t);
  }

  /** Encoding, decoding the header, cutting out the body and transmitting gives the message back, with
      nothing left of the frame and the bytes behind it untouched. */
  lemma CodecRoundTrip(m: Message, rest: seq<byte>)
    requires m.WellTyped() && m.body != NoBody
    ensures var b := Encode(m) + rest;
            && DecodeHeader(b) == Accepted(m.header, |BodyBytes(m.body)|)
            && b[FULL_HEADER..FULL_HEADER + |BodyBytes(m.body)|] == BodyBytes(m.body)
            && b[FULL_HEADER + |BodyBytes(m.body)|..] == rest
            && Transmit(m.header, BodyBytes(m.body)) == TypedMessage(m)
  {
    hide RawFrame, DecodeHeader, BodyAt;
    DecodeOfRawFrame(m.header, m.header.messageType, BodyBytes(m.body), rest);
    BodyRoundTrip(m.body, []);
    assert BodyBytes(m.body) + [] == BodyBytes(m.body);
  }

  /** Which accepted frames reach a handler: the tag must be registered (DEFAULT is accepted by the header
      decoder but is not) and the body must be long enough; surplus body bytes are ignored. */
  lemma TransmitSucceedsIff(h: Header, body: seq<byte>)
    ensures Transmit(h, body).TypedMessage? <==> CONTROL <= h.messageType <= GAME_START && |body| >= 8
    ensures Transmit(h, body).TypedMessage? ==>
              && Transmit(h, body).message.WellTyped()
              && forall surplus :: Transmit(h, body + surplus) == Transmit(h, body)
  {
    if Transmit(h, body).TypedMessage? {
      forall surplus
        ensures Transmit(h, body + surplus) == Transmit(h, body)
      {
        U32AtPrefix(body, surplus, 0);
        U32AtPrefix(body, surplus, 4);
        assert (body + surplus)[..8] == body[..8];
      }
    }
  }
}
