/** The frames of Message/BaseMessage.cpp and the four message classes byte by byte: every offset, number and tag is
    written out, so this module is the format that a peer in another language has to meet. */
module WireFormat {
  import opened Bytes
  import opened Codec

  /** Four bytes, most significant first. */
  function Word(b: seq<byte>, i: nat): int
    requires i + 4 <= |b|
  {
    0x100_0000 * (b[i] as int) + 0x1_0000 * (b[i + 1] as int) + 0x100 * (b[i + 2] as int) + b[i + 3] as int
  }

  function LongWord(b: seq<byte>, i: nat): int
    requires i + 8 <= |b|
  {
    Word(b, i) * 0x1_0000_0000 + Word(b, i + 4)
  }

  /** Two's complement. */
  function SignedWord(b: seq<byte>, i: nat): int
    requires i + 4 <= |b|
  {
    if Word(b, i) < 0x8000_0000 then Word(b, i) else Word(b, i) - 0x1_0000_0000
  }

  lemma FromBigEndianOfTwo(s: seq<byte>, t: seq<byte>)
    requires |t| == 4
    ensures FromBigEndian(s + t) == FromBigEndian(s) * 0x1_0000_0000 + Word(t, 0)
  {
    var u := s + t;
    var u1, u2, u3, u4 := u[..|u| - 1], u[..|u| - 2], u[..|u| - 3], u[..|u| - 4];
    assert u1[..|u1| - 1] == u2 && u2[..|u2| - 1] == u3 && u3[..|u3| - 1] == u4 == s;
    assert u[|u| - 1] == t[3] && u1[|u1| - 1] == t[2] && u2[|u2| - 1] == t[1] && u3[|u3| - 1] == t[0];
    assert FromBigEndian(u) == 256 * FromBigEndian(u1) + t[3];
    assert FromBigEndian(u1) == 256 * FromBigEndian(u2) + t[2];
    assert FromBigEndian(u2) == 256 * FromBigEndian(u3) + t[1];
    assert FromBigEndian(u3) == 256 * FromBigEndian(s) + t[0];
  }

  lemma U32IsWord(b: seq<byte>, i: nat)
    requires i + 4 <= |b|
    ensures U32At(b, i) == Word(b, i)
  {
    assert [] + b[i..i + 4] == b[i..i + 4];
    FromBigEndianOfTwo([], b[i..i + 4]);
  }

  lemma U64IsLongWord(b: seq<byte>)
    requires 8 <= |b|
    ensures U64At(b) == LongWord(b, 0)
  {
    assert b[..8] == b[..4] + b[4..8] && [] + b[..4] == b[..4];
    FromBigEndianOfTwo(b[..4], b[4..8]);
    FromBigEndianOfTwo([], b[..4]);
  }

  lemma WordWithin(b: seq<byte>, from: nat, to: nat, i: nat)
    requires from + i + 4 <= to <= |b|
    ensures Word(b[from..to], i) == Word(b, from + i)
  {
  }

  /** What every message of the four classes is on the wire. */
  lemma EncodedBytes(m: Message)
    requires m.WellTyped() && m.body != NoBody
    ensures var b := Encode(m);
            && |b| == 29 && Word(b, 0) == 25 && Word(b, 4) == 0x1100_0011
            && Word(b, 8) == m.header.uniqueId && SignedWord(b, 12) == m.header.roleId && b[16] == m.header.version
            && match m.body
               case Control(tick, direction) => Word(b, 17) == 2 && Word(b, 21) == tick && Word(b, 25) == direction
               case Ping(time) => Word(b, 17) == 3 && LongWord(b, 21) == time
               case EnterRoom(room, result) => Word(b, 17) == 4 && Word(b, 21) == room && SignedWord(b, 25) == result
               case GameStart(time) => Word(b, 17) == 5 && LongWord(b, 21) == time
               case NoBody => true
  {
    var body, b := BodyBytes(m.body), Encode(m);
    EncodedHeader(m);
    EncodedBody(m.body);
    assert b[21..29] == body;
    WordWithin(b, 21, 29, 0);
    WordWithin(b, 21, 29, 4);
  }

  lemma EncodedHeader(m: Message)
    requires |BodyBytes(m.body)| == 8
    ensures var b := Encode(m);
            && |b| == 29 && Word(b, 0) == 25 && Word(b, 4) == 0x1100_0011 && Word(b, 17) == m.header.messageType
            && Word(b, 8) == m.header.uniqueId && SignedWord(b, 12) == m.header.roleId && b[16] == m.header.version
            && b[21..29] == BodyBytes(m.body)
  {
    hide RawFrame;
    var body, b := BodyBytes(m.body), Encode(m);
    assert b + [] == b;
    RawFrameFields(m.header, m.header.messageType, body, []);
    U32IsWord(b, 0);
    U32IsWord(b, 4);
    U32IsWord(b, 8);
    U32IsWord(b, 12);
    U32IsWord(b, 17);
  }

  lemma EncodedBody(body: Body)
    requires body != NoBody
    ensures var b := BodyBytes(body);
            && |b| == 8
            && match body
               case Control(tick, direction) => Word(b, 0) == tick && Word(b, 4) == direction
               case Ping(time) => LongWord(b, 0) == time
               case EnterRoom(room, result) => Word(b, 0) == room && SignedWord(b, 4) == result
               case GameStart(time) => LongWord(b, 0) == time
               case NoBody => true
  {
    var b := BodyBytes(body);
    if body.Control? {
      assert b[4..8] == BigEndian(4, body.direction);
      U32AtSlice(b, 4, body.direction);
    }
    BodyRoundTrip(body, []);
    assert b + [] == b;
    U32IsWord(b, 0);
    U32IsWord(b, 4);
    U64IsLongWord(b);
  }

  /** Every decision of the header decoder, for arbitrary bytes. */
  lemma DecodedHeader(b: seq<byte>)
    ensures |b| < 4 ==> DecodeHeader(b) == NeedMore
    ensures |b| >= 4 ==>
              var length := Word(b, 0);
              if length > 4096 then DecodeHeader(b) == BadSize
              else if |b| < 4 + length then DecodeHeader(b) == NeedMore
              else if |b| < 8 then DecodeHeader(b) == Aborted
              else if Word(b, 4) != 0x1100_0011 then DecodeHeader(b) == BadMagic
              else if |b| < 21 then DecodeHeader(b) == Aborted
              else
                var tag := Word(b, 17) % 256;
                if tag < 1 || tag > 5 then DecodeHeader(b) == BadType
                else
                  && DecodeHeader(b).Accepted?
                  && DecodeHeader(b).header == Header(Word(b, 8), SignedWord(b, 12), b[16], tag)
                  && (length >= 17 ==> DecodeHeader(b).bodySize == length - 17)
                  && (length < 17 ==> DecodeHeader(b).bodySize == 0x1_0000_0000 + length - 17)
  {
    if |b| >= 4 {
      U32IsWord(b, 0);
    }
    if |b| >= 8 {
      U32IsWord(b, 4);
    }
    if |b| >= 21 {
      U32IsWord(b, 8);
      U32IsWord(b, 12);
      U32IsWord(b, 17);
    }
  }

  /** Every class the typed message can get, for arbitrary bodies. */
  lemma TypedBody(h: Header, body: seq<byte>)
    ensures h.messageType < 2 || h.messageType > 5 ==> Transmit(h, body) == Null
    ensures 2 <= h.messageType <= 5 && |body| < 8 ==> Transmit(h, body) == BodyAborted
    ensures |body| >= 8 && h.messageType == 2 ==>
              Transmit(h, body) == TypedMessage(Message(h, Control(Word(body, 0), Word(body, 4) % 256)))
    ensures |body| >= 8 && h.messageType == 3 ==> Transmit(h, body) == TypedMessage(Message(h, Ping(LongWord(body, 0))))
    ensures |body| >= 8 && h.messageType == 4 ==>
              Transmit(h, body) == TypedMessage(Message(h, EnterRoom(Word(body, 0), SignedWord(body, 4))))
    ensures |body| >= 8 && h.messageType == 5 ==>
              Transmit(h, body) == TypedMessage(Message(h, GameStart(LongWord(body, 0))))
  {
    if |body| >= 8 {
      U32IsWord(body, 0);
      U32IsWord(body, 4);
      U64IsLongWord(body);
    }
  }

  /** From the bytes of a complete frame to the message a handler gets. */
  lemma ReceivedBytes(b: seq<byte>)
    requires |b| >= 4 && 25 <= Word(b, 0) <= 4096 && |b| >= 4 + Word(b, 0) && Word(b, 4) == 0x1100_0011
    requires 2 <= Word(b, 17) % 256 <= 5
    ensures DecodeHeader(b).Accepted?
    ensures var tag := Word(b, 17) % 256; var h := Header(Word(b, 8), SignedWord(b, 12), b[16], tag);
            Transmit(DecodeHeader(b).header, b[21..4 + Word(b, 0)]) == TypedMessage(Message(h,
              if tag == 2 then Control(Word(b, 21), Word(b, 25) % 256)
              else if tag == 3 then Ping(LongWord(b, 21))
              else if tag == 4 then EnterRoom(Word(b, 21), SignedWord(b, 25))
              else GameStart(LongWord(b, 21))))
  {
    hide DecodeHeader, Transmit;
    var body := b[21..4 + Word(b, 0)];
    DecodedHeader(b);
    TypedBody(DecodeHeader(b).header, body);
    WordWithin(b, 21, 4 + Word(b, 0), 0);
    WordWithin(b, 21, 4 + Word(b, 0), 4);
  }
}
