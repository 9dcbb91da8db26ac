/** Network/TcpConnection.cpp and Network/GameConnection.cpp as a state machine: one step is the completion
    of one read. Whatever the reads look like, the messages delivered are those of the byte stream. */
module ReadTurns {
  import opened Bytes
  import opened Sequences
  import opened Chunks
  import opened BufferDeque
  import opened Codec
  import opened FrameSplitter

  const CAPACITY: nat := DEFAULT_BUFFER_SIZE + IDX_BEGIN
  const MAX_DELIVERABLE: nat := DEFAULT_BUFFER_SIZE - LENGTH_SIZE  // 4092

  datatype Status =
    | Reading
    | Stopped(closeNotified: bool)  // no further read is posted
    | Crashed                       // an assertion failed

  datatype ConnState = ConnState(
    bytes: seq<byte>, readIdx: nat, roleId: i32,
    registered: seq<i32>, delivered: seq<Frame>, status: Status)
  {
    ghost predicate InBounds() {
      IDX_BEGIN <= readIdx && readIdx + |bytes| <= CAPACITY
    }

    /** The size of the read that is posted. */
    function Writable(): nat
      requires InBounds()
    {
      CAPACITY - readIdx - |bytes|
    }
  }

  const Fresh: ConnState := ConnState([], IDX_BEGIN, 0, [], [], Reading)

  datatype ReadResult = Data(chunk: seq<byte>) | Eof | ConnectionReset | OtherError

  /** The role id of the connection after the frames fs: it is set by each frame while it is zero. */
  function RoleAfter(role: i32, fs: seq<Frame>): i32
    decreases |fs|
  {
    if role != 0 || fs == [] then role else RoleAfter(fs[0].header.roleId, fs[1..])
  }

  /** The role ids the registration callback is called with. */
  function Registrations(role: i32, fs: seq<Frame>): seq<i32>
    decreases |fs|
  {
    if role != 0 || fs == [] then []
    else [fs[0].header.roleId] + Registrations(fs[0].header.roleId, fs[1..])
  }

  /** Where reading starts after the bytes of a turn are in: compaction only when the array is full. */
  function Compacted(s: ConnState, chunk: seq<byte>): nat {
    if s.readIdx + |s.bytes| + |chunk| == CAPACITY then IDX_BEGIN else s.readIdx
  }

  function Turn(s: ConnState, chunk: seq<byte>): (t: ConnState)
    requires s.InBounds() && |chunk| <= s.Writable() && s.status == Reading
    ensures t.status == Reading ==> t.InBounds()
  {
    var b := s.bytes + chunk;
    var r := Split(b);
    if r.end == Stuck then s.(delivered := s.delivered + r.frames, status := Crashed)
    else s.(bytes := r.rest,
            readIdx := Compacted(s, chunk) + |b| - |r.rest|,
            roleId := RoleAfter(s.roleId, r.frames),
            registered := s.registered + Registrations(s.roleId, r.frames),
            delivered := s.delivered + r.frames)
  }

  /** The completion handler of a posted read. */
  function Complete(s: ConnState, r: ReadResult): ConnState
    requires s.InBounds() && s.status == Reading
    requires r.Data? ==> |r.chunk| <= s.Writable()
  {
    match r
    case Data(chunk) => Turn(s, chunk)
    case Eof => s.(status := Stopped(true))
    case ConnectionReset => s.(status := Stopped(true))
    case OtherError => s.(status := Stopped(false))
  }

  /** Every chunk fits into what is writable when its turn comes. */
  ghost predicate Fits(s: ConnState, chunks: seq<seq<byte>>)
    requires s.status == Reading ==> s.InBounds()
    decreases |chunks|
  {
    chunks == [] ||
    (s.status == Reading && |chunks[0]| <= s.Writable() && Fits(Turn(s, chunks[0]), chunks[1..]))
  }

  function Run(s: ConnState, chunks: seq<seq<byte>>): (t: ConnState)
    requires s.status == Reading ==> s.InBounds()
    requires Fits(s, chunks)
    ensures t.status == Reading ==> t.InBounds()
    decreases |chunks|
  {
    if chunks == [] then s else Run(Turn(s, chunks[0]), chunks[1..])
  }

  lemma {:induction false} RunAppend(s: ConnState, a: seq<seq<byte>>, b: seq<seq<byte>>)
    requires s.status == Reading ==> s.InBounds()
    requires Fits(s, a) && Fits(Run(s, a), b)
    ensures Fits(s, a + b) && Run(s, a + b) == Run(Run(s, a), b)
    decreases |a|
  {
    hide Turn;
    if a == [] {
      assert a + b == b;
    } else {
      RunAppend(Turn(s, a[0]), a[1..], b);
      assert (a + b)[1..] == a[1..] + b;
    }
  }

  lemma {:induction false} RoleAfterAppend(role: i32, a: seq<Frame>, b: seq<Frame>)
    ensures RoleAfter(role, a + b) == RoleAfter(RoleAfter(role, a), b)
    ensures Registrations(role, a + b) == Registrations(role, a) + Registrations(RoleAfter(role, a), b)
    decreases |a|
  {
    if a == [] {
      assert a + b == b;
    } else if role == 0 {
      RoleAfterAppend(a[0].header.roleId, a[1..], b);
      assert (a + b)[1..] == a[1..] + b;
    }
  }

  /** With nonzero role ids on the wire a connection registers exactly once, under its first one. */
  lemma {:induction false} RegistersOnce(fs: seq<Frame>)
    requires fs != [] && fs[0].header.roleId != 0
    ensures Registrations(0, fs) == [fs[0].header.roleId] && RoleAfter(0, fs) == fs[0].header.roleId
  {
  }

  /** The state a connection is in after the byte stream b, as far as it does not depend on the turns. */
  ghost predicate Mirrors(s: ConnState, b: seq<byte>) {
    && s.status == Reading && s.InBounds()
    && Split(b).end == Waiting
    && s.bytes == Split(b).rest
    && s.delivered == Split(b).frames
    && s.roleId == RoleAfter(0, s.delivered)
    && s.registered == Registrations(0, s.delivered)
  }

  lemma TurnMirrors(s: ConnState, b: seq<byte>, chunk: seq<byte>)
    requires Mirrors(s, b) && |chunk| <= s.Writable() && Split(b + chunk).end == Waiting
    ensures Mirrors(Turn(s, chunk), b + chunk)
  {
    hide Split;
    SplitAppend(b, chunk);
    RoleAfterAppend(0, s.delivered, Split(s.bytes + chunk).frames);
  }

  lemma {:induction false} RunMirrors(s: ConnState, b: seq<byte>, chunks: seq<seq<byte>>)
    requires Mirrors(s, b) && Fits(s, chunks) && Split(b + Flatten(chunks)).end == Waiting
    ensures Mirrors(Run(s, chunks), b + Flatten(chunks))
    decreases |chunks|
  {
    hide Split, Turn;
    if chunks == [] {
      assert b + Flatten(chunks) == b;
    } else {
      var c := b + chunks[0];
      Assoc(b, chunks[0], Flatten(chunks[1..]));
      if Split(c).end != Waiting {
        FailureIsPermanent(c, Flatten(chunks[1..]));
      }
      TurnMirrors(s, b, chunks[0]);
      RunMirrors(Turn(s, chunks[0]), c, chunks[1..]);
    }
  }

  lemma FreshMirrors()
    ensures Mirrors(Fresh, [])
  {
  }

  /** Chunking is invisible: after any reads of any sizes, what was delivered, registered and is left over
      are functions of the bytes alone, for every stream the splitter does not reject. */
  lemma ChunkingIsInvisible(chunks: seq<seq<byte>>)
    requires Fits(Fresh, chunks) && Split(Flatten(chunks)).end == Waiting
    ensures var t, r := Run(Fresh, chunks), Split(Flatten(chunks));
            && t.status == Reading && t.delivered == r.frames && t.bytes == r.rest
            && t.registered == Registrations(0, r.frames) && t.roleId == RoleAfter(0, r.frames)
  {
    FreshMirrors();
    assert [] + Flatten(chunks) == Flatten(chunks);
    RunMirrors(Fresh, [], chunks);
  }

  /** Reads that carry the first bytes of a stream of frames: exactly the frames complete so far have been
      delivered, in order and unchanged, and what is left is a proper prefix of the next one. */
  lemma DeliversCompleteFrames(fs: seq<WireFrame>, chunks: seq<seq<byte>>)
    requires AllValid(fs) && Fits(Fresh, chunks) && Flatten(chunks) <= Flatten(WireAll(fs))
    ensures var t, n := Run(Fresh, chunks), CompleteWithin(WireAll(fs), |Flatten(chunks)|);
            && t.status == Reading
            && t.delivered == DecodedAll(fs[..n])
            && Flatten(chunks) == Flatten(WireAll(fs[..n])) + t.bytes
            && (n == |fs| ==> t.bytes == [])
            && (n < |fs| ==> t.bytes < fs[n].Bytes())
  {
    hide Split, Flatten, CompleteWithin;
    SplitOfStreamPrefix(fs, Flatten(chunks));
    ChunkingIsInvisible(chunks);
  }

  // The fixed buffer: what can and what cannot ever be delivered.

  lemma {:induction false} FramesFitTheBytes(b: seq<byte>)
    ensures forall f :: f in Split(b).frames ==> FULL_HEADER + |f.body| <= |b|
    decreases |b|
  {
    if HasFrame(b) {
      FramesFitTheBytes(AfterFirst(b));
    }
  }

  ghost predicate AllFit(fs: seq<Frame>) {
    forall f :: f in fs ==> FULL_HEADER + |f.body| <= DEFAULT_BUFFER_SIZE
  }

  /** No run, on any bytes whatever, delivers a frame of announced length above 4092. */
  lemma {:induction false} DeliveredFramesFit(s: ConnState, chunks: seq<seq<byte>>)
    requires s.status == Reading ==> s.InBounds()
    requires Fits(s, chunks) && AllFit(s.delivered)
    ensures AllFit(Run(s, chunks).delivered)
    decreases |chunks|
  {
    if chunks != [] {
      FramesFitTheBytes(s.bytes + chunks[0]);
      DeliveredFramesFit(Turn(s, chunks[0]), chunks[1..]);
    }
  }

  /** A buffer filled to its end while it waits: the posted read has size zero, and its completion moves the
      bytes to the front. The next read has room unless a whole buffer is still waiting, which only a
      frame of announced length above 4092 can cause. */
  lemma FullBufferRecoversIff(s: ConnState)
    requires s.status == Reading && s.InBounds() && DecodeHeader(s.bytes) == NeedMore && s.Writable() == 0
    ensures Turn(s, []) == s.(readIdx := IDX_BEGIN)
    ensures Turn(s, []).Writable() >= 1 <==> |s.bytes| < DEFAULT_BUFFER_SIZE
    ensures |s.bytes| == DEFAULT_BUFFER_SIZE ==> U32At(s.bytes, 0) > MAX_DELIVERABLE
  {
    assert s.bytes + [] == s.bytes;
    assert s.delivered + [] == s.delivered;
    assert s.registered + [] == s.registered;
  }

  /** A frame announced longer than 4092 wedges the connection: nothing is delivered ever again and its first
      bytes stay where they are. Between 4093 and 4096 it waits, above 4096 it is rejected each turn. */
  lemma {:induction false} OversizeWedges(s: ConnState, chunks: seq<seq<byte>>)
    requires s.status == Reading && s.InBounds() && Fits(s, chunks)
    requires |s.bytes| >= 4 && U32At(s.bytes, 0) > MAX_DELIVERABLE
    ensures var t := Run(s, chunks);
            t.status == Reading && t.delivered == s.delivered && s.bytes <= t.bytes
    decreases |chunks|
  {
    if chunks != [] {
      var b := s.bytes + chunks[0];
      U32AtPrefix(s.bytes, chunks[0], 0);
      assert Split(b) == SplitResult([], b, Split(b).end) && Split(b).end != Stuck;
      var t := Turn(s, chunks[0]);
      assert t.delivered == s.delivered && t.bytes == b;
      OversizeWedges(t, chunks[1..]);
    }
  }

  ghost predicate AllDeliverable(fs: seq<WireFrame>) {
    forall f :: f in fs ==> HEADER_SIZE_NO_LENGTH + |f.body| <= MAX_DELIVERABLE
  }

  /** The reads of a peer that always sends as much as fits, with the zero-sized reads between. */
  ghost function Feed(s: ConnState, stream: seq<byte>): seq<seq<byte>>
    requires s.status == Reading && s.InBounds()
    decreases |stream|, if s.Writable() == 0 then 1 else 0
  {
    var k := if |stream| < s.Writable() then |stream| else s.Writable();
    var t := Turn(s, stream[..k]);
    if stream == [] then []
    else if t.status != Reading || (k == 0 && t.Writable() == 0) then [stream[..k]]
    else [stream[..k]] + Feed(t, stream[k..])
  }

  lemma {:induction false} FeedSendsAll(fs: seq<WireFrame>, s: ConnState, b: seq<byte>, stream: seq<byte>)
    requires AllValid(fs) && AllDeliverable(fs)
    requires Mirrors(s, b) && b + stream == Flatten(WireAll(fs))
    ensures Fits(s, Feed(s, stream)) && Flatten(Feed(s, stream)) == stream
    decreases |stream|, if s.Writable() == 0 then 1 else 0
  {
    hide Split, Turn, HasFrame, CompleteWithin, TailOf, WireAll, RoleAfter, Registrations, AllValid, AllDeliverable;
    if stream != [] {
      var k := if |stream| < s.Writable() then |stream| else s.Writable();
      var chunk, later := stream[..k], stream[k..];
      assert b + stream == b + chunk + later;
      SplitOfStreamPrefix(fs, b + chunk);
      TurnMirrors(s, b, chunk);
      if k == 0 {
        RoomAfterZeroRead(fs, s, b);
        assert chunk == [];
      }
      FeedSendsAll(fs, Turn(s, chunk), b + chunk, later);
      assert chunk + later == stream;
    }
  }

  lemma RoomAfterZeroRead(fs: seq<WireFrame>, s: ConnState, b: seq<byte>)
    requires AllValid(fs) && AllDeliverable(fs)
    requires Mirrors(s, b) && b <= Flatten(WireAll(fs)) && s.Writable() == 0
    ensures Turn(s, []) == s.(readIdx := IDX_BEGIN) && Turn(s, []).Writable() >= 1
  {
    SplitOfStreamPrefix(fs, b);
    var n := CompleteWithin(WireAll(fs), |b|);
    assert n < |fs| ==> |s.bytes| < |fs[n].Bytes()| <= DEFAULT_BUFFER_SIZE;
    if n < |fs| {
      WaitsForRestOfFrame(fs[n], s.bytes);
    }
    FullBufferRecoversIff(s);
  }

  /** The fixed buffer never wedges on deliverable frames: at any point of any run, a read posted with no room
      is followed by one with room. */
  lemma NeverWedges(fs: seq<WireFrame>, chunks: seq<seq<byte>>)
    requires AllValid(fs) && AllDeliverable(fs) && Fits(Fresh, chunks) && Flatten(chunks) <= Flatten(WireAll(fs))
    ensures var t := Run(Fresh, chunks);
            && t.status == Reading && t.InBounds()
            && (t.Writable() == 0 ==> Turn(t, []).status == Reading && Turn(t, []).Writable() >= 1)
  {
    hide Split, Turn, Flatten;
    SplitOfStreamPrefix(fs, Flatten(chunks));
    FreshMirrors();
    assert [] + Flatten(chunks) == Flatten(chunks);
    RunMirrors(Fresh, [], chunks);
    var t := Run(Fresh, chunks);
    if t.Writable() == 0 {
      RoomAfterZeroRead(fs, t, Flatten(chunks));
    }
  }

  /** Exactly which streams of frames some sequence of reads can carry through the connection: those whose
      announced lengths are all at most 4092. */
  lemma DeliverableIff(fs: seq<WireFrame>)
    requires AllValid(fs)
    ensures AllDeliverable(fs) <==>
            exists chunks :: Fits(Fresh, chunks) && Flatten(chunks) == Flatten(WireAll(fs)) &&
                             Run(Fresh, chunks).delivered == DecodedAll(fs)
  {
    hide Split, Turn, Flatten;
    var stream := Flatten(WireAll(fs));
    if AllDeliverable(fs) {
      FreshMirrors();
      assert [] + stream == stream;
      FeedSendsAll(fs, Fresh, [], stream);
      SplitOfStream(fs);
      ChunkingIsInvisible(Feed(Fresh, stream));
    }
    if chunks :| Fits(Fresh, chunks) && Run(Fresh, chunks).delivered == DecodedAll(fs) {
      DeliveredFramesFit(Fresh, chunks);
      forall f | f in fs
        ensures HEADER_SIZE_NO_LENGTH + |f.body| <= MAX_DELIVERABLE
      {
        var i :| 0 <= i < |fs| && fs[i] == f;
        assert DecodedAll(fs)[i] in DecodedAll(fs);
      }
    }
  }

  /** Outside well-formed streams chunking does show: a rejected tag is skipped without its body, and what
      follows is looked at only when the next read completes. */
  lemma ChunkingShowsAfterRejection(h: Header, wireType: u32, f: WireFrame, g: WireFrame)
    requires wireType % 256 == 0 || wireType % 256 >= TYPE_MAX
    requires f.Valid() && g.Valid() && |f.body| + |g.body| <= 1000
    ensures var x, y := RawFrame(h, wireType, f.Bytes()), g.Bytes();
            && Fits(Fresh, [x + y]) && Run(Fresh, [x + y]).delivered == []
            && Fits(Fresh, [x, y]) && Run(Fresh, [x, y]).delivered == [f.Decoded(), g.Decoded()]
  {
    hide Split, Fits, Run, RawFrame;
    var x, y := RawFrame(h, wireType, f.Bytes()), g.Bytes();
    assert |x| == FULL_HEADER + |f.Bytes()| && |f.Bytes()| == FULL_HEADER + |f.body|;
    RejectedFrame(h, wireType, f.Bytes(), y);
    RejectedFrame(h, wireType, f.Bytes(), []);
    hide WireFrame.Bytes;
    assert x + [] == x && f.Bytes() + [] == f.Bytes();
    assert Fresh.bytes + (x + y) == x + y && Fresh.bytes + x == x;
    TwoFrames(f, g);
    OneTurn(Fresh, x + y);
    OneTurn(Fresh, x);
    OneTurn(Turn(Fresh, x), y);
    RunAppend(Fresh, [x], [y]);
    assert [x] + [y] == [x, y];
  }

  lemma OneTurn(s: ConnState, chunk: seq<byte>)
    requires s.status == Reading && s.InBounds() && |chunk| <= s.Writable()
    ensures Fits(s, [chunk]) && Run(s, [chunk]) == Turn(s, chunk)
  {
    hide Turn;
    var chunks, none := [chunk], [];
    assert chunks[1..] == none;
    assert Run(s, chunks) == Run(Turn(s, chunk), none);
  }

  lemma RejectedFrame(h: Header, wireType: u32, body: seq<byte>, rest: seq<byte>)
    requires wireType % 256 == 0 || wireType % 256 >= TYPE_MAX
    requires |body| <= MAX_PACK_SIZE - HEADER_SIZE_NO_LENGTH
    ensures Split(RawFrame(h, wireType, body) + rest) == SplitResult([], body + rest, Rejected)
  {
    DecodeOfRawFrame(h, wireType, body, rest);
    var b := RawFrame(h, wireType, body) + rest;
    assert b[FULL_HEADER..] == body + rest;
  }

  lemma TwoFrames(f: WireFrame, g: WireFrame)
    requires f.Valid() && g.Valid()
    ensures Split(f.Bytes() + g.Bytes()) == SplitResult([f.Decoded(), g.Decoded()], [], Waiting)
  {
    hide WireFrame.Bytes;
    FirstFrameOfBytes(f, g.Bytes());
    FirstFrameOfBytes(g, []);
    assert g.Bytes() + [] == g.Bytes();
    assert Split([]) == SplitResult([], [], Waiting);
    assert Split(g.Bytes()).frames == [g.Decoded()];
  }
}
