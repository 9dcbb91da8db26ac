/** One pass of the parse loop of Network/GameConnection.cpp: header, body copy, consumption. */
module Reception {
  import opened Bytes
  import opened BufferDeque
  import opened Codec
  import opened Messages
  import opened FrameSplitter

  /** What the pass answers for a buffer holding b: failed assertion, the decoder's pair. */
  predicate PassAnswer(b: seq<byte>, aborted: bool, ok: bool, length: nat) {
    if HasFrame(b) then !aborted && ok && length == FULL_HEADER
    else
      && (aborted <==> Halt(b).end == Stuck)
      && (!aborted ==> length == 0 && (ok <==> Halt(b).end == Waiting))
  }

  function PassRest(b: seq<byte>): seq<byte> {
    if HasFrame(b) then AfterFirst(b) else Halt(b).rest
  }

  /** The pass that returned without a header to accept: waiting, rejected or aborted. */
  lemma PassWithoutHeader(b: seq<byte>, aborted: bool, ok: bool, length: nat, bodySize: u32)
    requires Returned(DecodeHeader(b), aborted, ok, length, bodySize) && (aborted || length == 0)
    ensures !HasFrame(b) && PassAnswer(b, aborted, ok, length)
    ensures aborted || PassRest(b) == b[Consumed(b)..]
  {
    DecisionIsPrefixStable(b, []);
  }

  /** The pass that accepted a header: the body is complete exactly if b starts with a frame. */
  lemma PassWithHeader(b: seq<byte>, ok: bool, length: nat, bodySize: u32)
    requires Returned(DecodeHeader(b), false, ok, length, bodySize) && length != 0 && |b| < U32_MODULUS
    ensures DecodeHeader(b).Accepted?
    ensures if bodySize <= |b[Consumed(b)..]|
            then
              && HasFrame(b) && PassAnswer(b, false, ok, length)
              && FirstFrame(b) == Frame(DecodeHeader(b).header, b[Consumed(b)..][..bodySize])
              && PassRest(b) == b[Consumed(b)..][bodySize..]
            else !HasFrame(b) && PassAnswer(b, true, ok, length)
  {
    DecisionIsPrefixStable(b, []);
    if HasFrame(b) {
      assert b[FULL_HEADER..][..bodySize] == b[FULL_HEADER..FULL_HEADER + bodySize];
    }
  }

  method ReadMessage(buffer: Buffer) returns (aborted: bool, ok: bool, length: nat, msg: BaseMessage, body: Buffer)
    requires buffer.Valid() && buffer.data.Length < U32_MODULUS
    modifies buffer`readIdx
    ensures buffer.Valid() && body.Valid() && body.little == buffer.little
    ensures fresh(msg) && fresh(body) && fresh(body.data)
    ensures PassAnswer(old(buffer.State()).bytes, aborted, ok, length)
    ensures aborted || buffer.State().bytes == PassRest(old(buffer.State()).bytes)
    ensures HasFrame(old(buffer.State()).bytes) ==>
              Frame(msg.HeaderValue(), body.State().bytes) == FirstFrame(old(buffer.State()).bytes)
  {
    hide Halt, HasFrame, FirstFrame, AfterFirst, DecodeHeader, PassAnswer, PassRest;
    hide Buffer.State, Buffer.ReadableSize, Buffer.ReadBegin;
    ghost var b := buffer.State().bytes;
    msg := new BaseMessage();
    body := new Buffer(buffer.little, TINY_BUFFER_SIZE);
    var bodySize;
    aborted, ok, length, bodySize := msg.DecodeMessageHeader(buffer);
    if aborted || length == 0 {
      PassWithoutHeader(b, aborted, ok, length, bodySize);
    } else {
      PassWithHeader(b, ok, length, bodySize);
      if buffer.ReadableSize() < bodySize {
        aborted := true;
      } else {
        body.AppendData(buffer.ReadBegin(bodySize));
        buffer.AddReadIndex(bodySize);
      }
    }
  }

  /** A buffer holding exactly the frame of m gives m back and is left empty, as is the body buffer. */
  method Receive(received: Buffer, ghost m: Message) returns (copy: BaseMessage?, leftInBody: nat)
    requires received.Valid() && received.data.Length < U32_MODULUS && received.State().bytes == Encode(m)
    requires m.WellTyped() && m.body != NoBody
    modifies received`readIdx
    ensures received.Valid() && received.State().bytes == [] && leftInBody == 0
    ensures copy != null && fresh(copy) && copy.Value() == m
  {
    hide HasFrame, FirstFrame, AfterFirst, Halt, BodyAt, RawFrame;
    hide Buffer.State, Buffer.ReadableSize, Buffer.ReadBegin;
    assert WireOf(m).Bytes() + [] == Encode(m);
    FirstFrameOfBytes(WireOf(m), []);
    BodyRoundTrip(m.body, []);
    assert BodyBytes(m.body) + [] == BodyBytes(m.body);
    var aborted, ok, length, msg, body := ReadMessage(received);
    aborted, copy := TransmitMessage(msg, body);
    leftInBody := body.ReadableSize();
  }

  /** Encoding and reception are inverse on objects: every field comes back, whatever the byte order of
      either host, and nothing is left in the stream buffer or in the body buffer. */
  method RoundTrip(original: BaseMessage, senderLittle: bool, receiverLittle: bool)
    returns (copy: BaseMessage?, leftInStream: nat, leftInBody: nat)
    requires original.magic == MAGIC && original.Value().WellTyped() && original.body != NoBody
    ensures copy != null && fresh(copy) && copy.Value() == original.Value()
    ensures leftInStream == 0 && leftInBody == 0
  {
    hide Buffer.State, Buffer.ReadableSize, Buffer.ReadBegin;
    hide Encode, Encoded;
    var sent := new Buffer(senderLittle, TINY_BUFFER_SIZE);
    EncodedIntoEmpty(MAGIC, [], original.Value());
    original.EncodeMessage(sent);
    var received := new Buffer(receiverLittle, DEFAULT_BUFFER_SIZE);
    received.AppendData(sent.ReadBegin(sent.ReadableSize()));
    assert received.State().bytes == Encode(original.Value());
    assert |Encode(original.Value())| <= FULL_HEADER + 8 by {
      EncodeSize(original.Value());
    }
    copy, leftInBody := Receive(received, original.Value());
    leftInStream := received.ReadableSize();
  }

  lemma EncodeSize(m: Message)
    ensures |Encode(m)| <= FULL_HEADER + 8
  {
  }
}
