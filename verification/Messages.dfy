/** Message/BaseMessage.* and Message/Messages.cpp as objects: encoding into a Buffer, decoding a header
    out of one, and turning a received header and body into a typed message. */
module Messages {
  import opened Bytes
  import opened BufferDeque
  import opened Codec

  /** READ_NUMBER of a field at a known place of the bytes b that were readable at first. */
  method ReadField(buffer: Buffer, ghost b: seq<byte>, ghost at: nat, n: nat) returns (v: nat)
    requires buffer.Valid() && at + n <= |b| && buffer.State().bytes == b[at..]
    modifies buffer`readIdx
    ensures v == FromBigEndian(b[at..at + n]) && v < Pow256(n)
    ensures buffer.Valid() && buffer.State().bytes == b[at + n..]
    ensures buffer.readIdx == old(buffer.readIdx) + n
  {
    v := buffer.ReadNumber(n);
    assert b[at..][..n] == b[at..at + n];
    assert b[at..][n..] == b[at + n..];
  }

  /** APPEND_NUMBER behind the bytes `done` that were appended to `was`. */
  method AppendField(buffer: Buffer, n: nat, v: nat, ghost was: seq<byte>, ghost done: seq<byte>)
    requires buffer.Valid() && buffer.readIdx >= IDX_BEGIN && v < Pow256(n)
    requires buffer.State().bytes == was + done
    modifies buffer, buffer.data
    ensures buffer.Valid() && (buffer.data == old(buffer.data) || fresh(buffer.data))
    ensures buffer.readIdx == IDX_BEGIN
    ensures buffer.State().bytes == was + (done + BigEndian(n, v))
  {
    buffer.AppendNumber(n, v);
    assert was + done + BigEndian(n, v) == was + (done + BigEndian(n, v));
  }

  /** The returned pair and body size that stand for a decision of the header decoder. */
  predicate Returned(r: HeaderResult, aborted: bool, ok: bool, length: nat, bodySize: u32) {
    && (aborted <==> r == Aborted)
    && (!aborted ==> (ok <==> r.NeedMore? || r.Accepted?))
    && (!aborted ==> length == (if r.Accepted? then FULL_HEADER else 0))
    && (r.Accepted? ==> bodySize == r.bodySize)
  }

  /** The pairs in numbers: {true, 0} to wait, {false, 0} to reject, {true, 21} for a header. */
  lemma AnswerOf(r: HeaderResult, ok: bool, length: nat, bodySize: u32)
    requires r != Aborted && Returned(r, false, ok, length, bodySize)
    ensures ok <==> r == NeedMore || r.Accepted?
    ensures length == if r.Accepted? then 21 else 0
  {
  }

  /** What EncodeMessage makes of the bytes that were already readable. */
  function Encoded(magic: u32, was: seq<byte>, m: Message): seq<byte> {
    BigEndian(4, HEADER_SIZE_NO_LENGTH + |BodyBytes(m.body)|) +
    (was + HeaderBytesOf(magic, m.header, m.header.messageType) + BodyBytes(m.body))
  }

  /** Encoding into an empty buffer gives the frame of the message. Behind old bytes the length comes first
      and announces too little: the old bytes take the place of the header. */
  lemma EncodedIntoEmpty(magic: u32, was: seq<byte>, m: Message)
    ensures Encoded(MAGIC, [], m) == Encode(m)
    ensures U32At(Encoded(magic, was, m), 0) == |Encoded(magic, was, m)| - LENGTH_SIZE <==> was == []
    ensures |was| >= 4 && U32At(was, 0) != MAGIC ==> !DecodeHeader(Encoded(magic, was, m)).Accepted?
  {
    hide BodyBytes;
    var length := HEADER_SIZE_NO_LENGTH + |BodyBytes(m.body)|;
    var payload := HeaderBytes(m.header, m.header.messageType) + BodyBytes(m.body);
    assert [] + HeaderBytes(m.header, m.header.messageType) + BodyBytes(m.body) == payload;
    assert BigEndian(4, length) + payload == Encode(m);
    var b := Encoded(magic, was, m);
    EncodedLength(magic, was, m);
    if |was| >= 4 {
      assert b[4..8] == was[0..4];
    }
  }

  lemma EncodedLength(magic: u32, was: seq<byte>, m: Message)
    ensures |Encoded(magic, was, m)| == LENGTH_SIZE + |was| + HEADER_SIZE_NO_LENGTH + |BodyBytes(m.body)|
    ensures U32At(Encoded(magic, was, m), 0) == HEADER_SIZE_NO_LENGTH + |BodyBytes(m.body)|
  {
    hide HeaderBytesOf;
    var length := HEADER_SIZE_NO_LENGTH + |BodyBytes(m.body)|;
    assert Encoded(magic, was, m)[0..4] == BigEndian(4, length);
    U32AtSlice(Encoded(magic, was, m), 0, length);
  }

  /** A message whose magic number was changed is encoded all the same, and rejected by every receiver. */
  lemma OnlyMagicIsAccepted(magic: u32, m: Message)
    requires m.WellTyped()
    ensures DecodeHeader(Encoded(magic, [], m)).BadMagic? <==> magic != MAGIC
  {
    hide BodyBytes;
    var b := Encoded(magic, [], m);
    EncodedLength(magic, [], m);
    assert b[4..8] == BigEndian(4, magic);
    U32AtSlice(b, 4, magic);
  }

  class BaseMessage {
    var magic: u32
    var uniqueId: u32
    var roleId: i32
    var version: byte
    var messageType: byte
    var body: Body  // the fields of the derived class

    function HeaderValue(): Header
      reads this
    {
      Header(uniqueId, roleId, version, messageType)
    }

    function Value(): Message
      reads this
    {
      Message(HeaderValue(), body)
    }

    constructor ()
      ensures magic == MAGIC && Value() == Message(Header(0, 0, 0, DEFAULT), NoBody)
    {
      magic := MAGIC;
      uniqueId, roleId, version, messageType := 0, 0, 0, DEFAULT;
      body := NoBody;
    }

    /** Construction of a derived class from a decoded base message; the body is read afterwards. */
    constructor FromBase(base: BaseMessage)
      ensures magic == base.magic && HeaderValue() == base.HeaderValue() && body == NoBody
    {
      magic := base.magic;
      uniqueId, roleId := base.uniqueId, base.roleId;
      version, messageType := base.version, base.messageType;
      body := NoBody;
    }

    /** EncodeData of the four classes. */
    method EncodeData(buffer: Buffer)
      requires buffer.Valid() && buffer.readIdx == IDX_BEGIN
      modifies buffer, buffer.data
      ensures buffer.Valid() && (buffer.data == old(buffer.data) || fresh(buffer.data))
      ensures buffer.readIdx == IDX_BEGIN
      ensures buffer.State().bytes == old(buffer.State()).bytes + BodyBytes(body)
    {
      hide Buffer.State;
      WidthValues();
      ghost var was := buffer.State().bytes;
      assert was + [] == was;
      match body {
        case NoBody =>
        case Control(tick, direction) =>
          AppendField(buffer, 4, tick, was, []);
          AppendField(buffer, 4, direction, was, [] + BigEndian(4, tick));
          assert [] + BigEndian(4, tick) == BigEndian(4, tick);
        case Ping(t) =>
          AppendField(buffer, 8, t, was, []);
          assert [] + BigEndian(8, t) == BigEndian(8, t);
        case EnterRoom(roomId, result) =>
          AppendField(buffer, 4, roomId, was, []);
          AppendField(buffer, 4, ToU32(result), was, [] + BigEndian(4, roomId));
          assert [] + BigEndian(4, roomId) == BigEndian(4, roomId);
        case GameStart(t) =>
          AppendField(buffer, 8, t, was, []);
          assert [] + BigEndian(8, t) == BigEndian(8, t);
      }
    }

    method EncodeHeader(buffer: Buffer)
      requires buffer.Valid() && buffer.readIdx >= IDX_BEGIN
      modifies buffer, buffer.data
      ensures buffer.Valid() && (buffer.data == old(buffer.data) || fresh(buffer.data))
      ensures buffer.readIdx == IDX_BEGIN
      ensures buffer.State().bytes == old(buffer.State()).bytes + HeaderBytesOf(magic, HeaderValue(), messageType)
    {
      hide Buffer.State;
      WidthValues();
      ghost var was, done := buffer.State().bytes, [];
      assert was + done == was;
      AppendField(buffer, 4, magic, was, done);
      done := done + BigEndian(4, magic);
      assert done == BigEndian(4, magic);
      AppendField(buffer, 4, uniqueId, was, done);
      done := done + BigEndian(4, uniqueId);
      AppendField(buffer, 4, ToU32(roleId), was, done);
      done := done + BigEndian(4, ToU32(roleId));
      AppendField(buffer, 1, version, was, done);
      done := done + BigEndian(1, version);
      AppendField(buffer, 4, messageType, was, done);
    }

    /** The length goes in front of everything readable, so the result is a frame only if nothing was. */
    method EncodeMessage(buffer: Buffer)
      requires buffer.Valid() && buffer.readIdx >= IDX_BEGIN
      modifies buffer, buffer.data
      ensures buffer.Valid() && (buffer.data == old(buffer.data) || fresh(buffer.data))
      ensures buffer.readIdx == IDX_BEGIN - LENGTH_SIZE
      ensures buffer.State().bytes == Encoded(magic, old(buffer.State()).bytes, Value())
    {
      hide Buffer.State, Buffer.ReadableSize, HeaderBytesOf, BodyBytes;
      WidthValues();
      var oldSize := buffer.ReadableSize();
      EncodeHeader(buffer);
      EncodeData(buffer);
      var packSize := buffer.ReadableSize() - oldSize;
      assert packSize == HEADER_SIZE_NO_LENGTH + |BodyBytes(body)|;
      buffer.PreAppendNumber(4, packSize);
    }

    /** ok and length are the returned pair; aborted stands for a failed assertion. */
    method DecodeMessageHeader(buffer: Buffer) returns (aborted: bool, ok: bool, length: nat, bodySize: u32)
      requires buffer.Valid()
      modifies this, buffer`readIdx
      ensures buffer.Valid() && body == old(body)
      ensures Returned(DecodeHeader(old(buffer.State()).bytes), aborted, ok, length, bodySize)
      ensures DecodeHeader(old(buffer.State()).bytes).Accepted? ==>
                HeaderValue() == DecodeHeader(old(buffer.State()).bytes).header && magic == MAGIC
      ensures aborted || buffer.State().bytes == old(buffer.State()).bytes[Consumed(old(buffer.State()).bytes)..]
    {
      hide Buffer.State, Buffer.ReadableSize;
      ghost var b := buffer.State().bytes;
      aborted, ok, length, bodySize := false, true, 0, 0;
      var oldSize := buffer.ReadableSize();
      if oldSize < LENGTH_SIZE {
        return;
      }
      var packSize := buffer.PeekNumber(4);
      assert packSize == U32At(b, 0) by {
        assert b[..4] == b[0..4];
      }
      if packSize > MAX_PACK_SIZE {
        ok := false;
        return;
      }
      if buffer.ReadableSize() < packSize + LENGTH_SIZE {
        return;
      }
      buffer.AddReadIndex(LENGTH_SIZE);
      aborted, ok := DecodeChecked(buffer, b);
      if ok {
        bodySize := (packSize - HEADER_SIZE_NO_LENGTH) % U32_MODULUS;
        length := oldSize - buffer.ReadableSize();
      }
    }

    /** The part behind the length: magic number, fields, tag. */
    method DecodeChecked(buffer: Buffer, ghost b: seq<byte>) returns (aborted: bool, ok: bool)
      requires buffer.Valid() && LENGTH_SIZE <= |b| && buffer.State().bytes == b[LENGTH_SIZE..]
      modifies this`magic, this`uniqueId, this`roleId, this`version, this`messageType, buffer`readIdx
      ensures buffer.Valid()
      ensures aborted <==> DecodeBehindLength(b) == Aborted
      ensures ok <==> DecodeBehindLength(b).Accepted?
      ensures ok ==> HeaderValue() == HeaderAt(b) && magic == MAGIC
      ensures aborted || buffer.State().bytes == b[HeaderConsumed(DecodeBehindLength(b))..]
    {
      hide Buffer.State, Buffer.ReadableSize;
      aborted, ok := false, false;
      if buffer.ReadableSize() < 4 {
        aborted := true;
        return;
      }
      WidthValues();
      magic := buffer.PeekNumber(4);
      assert b[LENGTH_SIZE..][..4] == b[4..8];
      if magic != MAGIC {
        return;
      }
      buffer.AddReadIndex(4);
      if buffer.ReadableSize() < 13 {
        aborted := true;
        return;
      }
      assert b[LENGTH_SIZE..][4..] == b[8..];
      ok := DecodeFields(buffer, b);
    }

    /** The four fields behind the magic number. */
    method DecodeFields(buffer: Buffer, ghost b: seq<byte>) returns (ok: bool)
      requires buffer.Valid() && FULL_HEADER <= |b| && buffer.State().bytes == b[8..]
      modifies this`uniqueId, this`roleId, this`version, this`messageType, buffer`readIdx
      ensures buffer.Valid() && HeaderValue() == HeaderAt(b)
      ensures buffer.State().bytes == b[FULL_HEADER..] && buffer.readIdx == old(buffer.readIdx) + 13
      ensures ok <==> TYPE_MIN < messageType < TYPE_MAX
    {
      hide Buffer.State;
      WidthValues();
      uniqueId := ReadField(buffer, b, 8, 4);
      var role := ReadField(buffer, b, 12, 4);
      roleId := ToI32(role);
      version := ReadField(buffer, b, 16, 1);
      assert b[16..17] == [b[16]];
      var tag := ReadField(buffer, b, 17, 4);
      messageType := tag % 256;
      ok := TYPE_MIN < messageType < TYPE_MAX;
    }

    /** DecodeMessageBody of the class the tag stands for; false is a failed assertion. */
    method DecodeMessageBody(buffer: Buffer) returns (ok: bool)
      requires buffer.Valid() && messageType in {CONTROL, PING, ENTER_ROOM, GAME_START}
      modifies this`body, buffer`readIdx
      ensures buffer.Valid()
      ensures ok <==> |old(buffer.State()).bytes| >= BodySize(messageType)
      ensures ok ==> body == BodyAt(messageType, old(buffer.State()).bytes)
      ensures ok ==> buffer.State() == Apply(old(buffer.State()), Drop(8))
    {
      hide Buffer.State, Buffer.ReadableSize;
      ok := buffer.ReadableSize() >= 8;
      if !ok {
        return;
      }
      WidthValues();
      ghost var b := buffer.State().bytes;
      if messageType == PING || messageType == GAME_START {
        var t := buffer.ReadNumber(8);
        body := if messageType == PING then Ping(t) else GameStart(t);
      } else {
        var first := buffer.ReadNumber(4);
        assert b[..4] == b[0..4];
        var second := buffer.ReadNumber(4);
        assert b[4..][..4] == b[4..8];
        body := if messageType == CONTROL then Control(first, second % 256) else EnterRoom(first, ToI32(second));
      }
    }
  }

  /** A null result is the null pointer returned for a tag without a class. */
  method TransmitMessage(base: BaseMessage, bodyBuffer: Buffer) returns (aborted: bool, msg: BaseMessage?)
    requires bodyBuffer.Valid()
    modifies bodyBuffer`readIdx
    ensures bodyBuffer.Valid()
    ensures var t := Transmit(base.HeaderValue(), old(bodyBuffer.State()).bytes);
            && (aborted <==> t == BodyAborted)
            && (!aborted ==> (msg == null <==> t == Null))
            && (t.TypedMessage? ==> msg != null && fresh(msg) && msg.Value() == t.message && msg.magic == base.magic
                                    && bodyBuffer.State() == Apply(old(bodyBuffer.State()), Drop(8)))
  {
    aborted, msg := false, null;
    if base.messageType in {CONTROL, PING, ENTER_ROOM, GAME_START} {
      var typed := new BaseMessage.FromBase(base);
      var ok := typed.DecodeMessageBody(bodyBuffer);
      aborted, msg := !ok, typed;
    }
  }
}
