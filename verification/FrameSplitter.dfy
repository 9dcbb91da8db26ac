/** The reference meaning of the parse loop: a byte stream cut into frames, independently of any buffer. */
module FrameSplitter {
  import opened Bytes
  import opened Sequences
  import opened Chunks
  import opened Codec

  datatype Frame = Frame(header: Header, body: seq<byte>)

  datatype SplitEnd = Waiting | Rejected | Stuck  // Stuck: an assertion failed

  datatype SplitResult = SplitResult(frames: seq<Frame>, rest: seq<byte>, end: SplitEnd)

  /** The first frame of b is complete. */
  predicate HasFrame(b: seq<byte>) {
    DecodeHeader(b).Accepted? && U32At(b, 0) >= HEADER_SIZE_NO_LENGTH
  }

  function FirstFrame(b: seq<byte>): Frame
    requires HasFrame(b)
  {
    Frame(DecodeHeader(b).header, b[FULL_HEADER..FULL_HEADER + DecodeHeader(b).bodySize])
  }

  function AfterFirst(b: seq<byte>): (r: seq<byte>)
    requires HasFrame(b)
    ensures |r| < |b|
  {
    b[FULL_HEADER + DecodeHeader(b).bodySize..]
  }

  /** How a pass over b ends when no complete frame comes first. */
  function Halt(b: seq<byte>): (r: SplitResult)
    requires !HasFrame(b)
    ensures r.frames == [] && |r.rest| <= |b|
    ensures r.end == Waiting <==> DecodeHeader(b) == NeedMore
    ensures r.end == Waiting ==> r.rest == b
  {
    match DecodeHeader(b)
    case NeedMore => SplitResult([], b, Waiting)
    case BadSize => SplitResult([], b, Rejected)
    case BadMagic => SplitResult([], b[LENGTH_SIZE..], Rejected)
    case BadType => SplitResult([], b[FULL_HEADER..], Rejected)
    case _ => SplitResult([], [], Stuck)
  }

  /** A pass that continued where another one stopped. */
  function Then(s: SplitResult, t: SplitResult): SplitResult {
    SplitResult(s.frames + t.frames, t.rest, t.end)
  }

  function Cons(f: Frame, s: SplitResult): SplitResult {
    s.(frames := [f] + s.frames)
  }

  lemma ConsThen(f: Frame, s: SplitResult, t: SplitResult)
    ensures Then(Cons(f, s), t) == Cons(f, Then(s, t))
  {
    Assoc([f], s.frames, t.frames);
  }

  function Split(b: seq<byte>): (r: SplitResult)
    ensures |r.rest| <= |b|
    decreases |b|
  {
    if HasFrame(b) then Cons(FirstFrame(b), Split(AfterFirst(b))) else Halt(b)
  }

  lemma FirstFrameStable(a: seq<byte>, c: seq<byte>)
    requires HasFrame(a)
    ensures HasFrame(a + c) && FirstFrame(a + c) == FirstFrame(a)
    ensures AfterFirst(a + c) == AfterFirst(a) + c
  {
    DecisionIsPrefixStable(a, c);
    U32AtPrefix(a, c, 0);
    var n := FULL_HEADER + DecodeHeader(a).bodySize;
    assert (a + c)[n..] == a[n..] + c;
    assert (a + c)[FULL_HEADER..n] == a[FULL_HEADER..n];
  }

  /** Splitting what is left together with what comes next continues the split: where the stream was cut
      between two reads cannot be seen. */
  lemma {:induction false} SplitAppend(a: seq<byte>, c: seq<byte>)
    requires Split(a).end == Waiting
    ensures Split(a + c) == Then(Split(a), Split(Split(a).rest + c))
    decreases |a|
  {
    if HasFrame(a) {
      FirstFrameStable(a, c);
      SplitAppend(AfterFirst(a), c);
      ConsThen(FirstFrame(a), Split(AfterFirst(a)), Split(Split(a).rest + c));
    }
  }

  /** A stream that was rejected or failed an assertion is never accepted again by adding bytes. */
  lemma {:induction false} FailureIsPermanent(a: seq<byte>, c: seq<byte>)
    requires Split(a).end != Waiting
    ensures Split(a + c).end != Waiting
    decreases |a|
  {
    if HasFrame(a) {
      FirstFrameStable(a, c);
      FailureIsPermanent(AfterFirst(a), c);
    } else {
      U32AtPrefix(a, c, 0);
      if U32At(a, 0) >= HEADER_SIZE_NO_LENGTH {
        DecisionIsPrefixStable(a, c);
      }
    }
  }

  /** What one peer puts on the wire for one message; the tag may carry any three high bytes. */
  datatype WireFrame = WireFrame(header: Header, wireType: u32, body: seq<byte>) {
    predicate Valid() {
      |body| <= MAX_PACK_SIZE - HEADER_SIZE_NO_LENGTH && TYPE_MIN < wireType % 256 < TYPE_MAX
    }

    function Bytes(): (s: seq<byte>)
      ensures |s| == FULL_HEADER + |body|
    {
      RawFrame(header, wireType, body)
    }

    function Decoded(): Frame { Frame(header.(messageType := wireType % 256), body) }
  }

  function WireOf(m: Message): WireFrame {
    WireFrame(m.header, m.header.messageType, BodyBytes(m.body))
  }

  function WireAll(fs: seq<WireFrame>): (cs: seq<seq<byte>>)
    ensures |cs| == |fs|
  {
    seq(|fs|, i requires 0 <= i < |fs| => fs[i].Bytes())
  }

  ghost predicate AllValid(fs: seq<WireFrame>) {
    forall f :: f in fs ==> f.Valid()
  }

  function DecodedAll(fs: seq<WireFrame>): (r: seq<Frame>)
    ensures |r| == |fs|
  {
    seq(|fs|, i requires 0 <= i < |fs| => fs[i].Decoded())
  }

  lemma WaitsForRestOfFrame(f: WireFrame, p: seq<byte>)
    requires f.Valid() && p < f.Bytes()
    ensures DecodeHeader(p) == NeedMore
  {
    if |p| >= 4 {
      RawFrameFields(f.header, f.wireType, f.body, []);
      assert f.Bytes() + [] == f.Bytes();
      assert f.Bytes() == p + f.Bytes()[|p|..];
      U32AtPrefix(p, f.Bytes()[|p|..], 0);
    }
  }

  lemma FirstFrameOfBytes(f: WireFrame, q: seq<byte>)
    requires f.Valid()
    ensures HasFrame(f.Bytes() + q) && FirstFrame(f.Bytes() + q) == f.Decoded()
    ensures AfterFirst(f.Bytes() + q) == q
  {
    DecodeOfRawFrame(f.header, f.wireType, f.body, q);
    RawFrameFields(f.header, f.wireType, f.body, q);
  }

  lemma SplitOfFrameThen(f: WireFrame, q: seq<byte>)
    requires f.Valid()
    ensures Split(f.Bytes() + q) == Cons(f.Decoded(), Split(q))
  {
    hide WireFrame.Bytes, HasFrame, FirstFrame, AfterFirst, Halt;
    FirstFrameOfBytes(f, q);
  }

  lemma {:induction false} SplitOfFramesThen(fs: seq<WireFrame>, tail: seq<byte>)
    requires AllValid(fs)
    ensures Split(Flatten(WireAll(fs)) + tail) == Then(SplitResult(DecodedAll(fs), [], Waiting), Split(tail))
  {
    hide WireFrame.Bytes, Split;
    if fs == [] {
      assert Flatten(WireAll(fs)) + tail == tail;
      assert [] + Split(tail).frames == Split(tail).frames;
    } else {
      var f, later := fs[0], Flatten(WireAll(fs[1..]));
      assert WireAll(fs)[1..] == WireAll(fs[1..]);
      Assoc(f.Bytes(), later, tail);
      SplitOfFrameThen(f, later + tail);
      SplitOfFramesThen(fs[1..], tail);
      ConsThen(f.Decoded(), SplitResult(DecodedAll(fs[1..]), [], Waiting), Split(tail));
      assert DecodedAll(fs) == [f.Decoded()] + DecodedAll(fs[1..]);
    }
  }

  lemma SplitOfFramesAndTail(fs: seq<WireFrame>, n: nat, tail: seq<byte>)
    requires AllValid(fs) && n <= |fs|
    requires if n == |fs| then tail == [] else tail < fs[n].Bytes()
    ensures Split(Flatten(WireAll(fs[..n])) + tail) == SplitResult(DecodedAll(fs[..n]), tail, Waiting)
  {
    SplitOfFramesThen(fs[..n], tail);
    if n < |fs| {
      WaitsForRestOfFrame(fs[n], tail);
    }
    assert DecodedAll(fs[..n]) + [] == DecodedAll(fs[..n]);
  }

  /** Any prefix of a stream of frames splits into exactly the frames complete within it, in order, and the
      bytes left are a proper prefix of the next frame. */
  lemma SplitOfStreamPrefix(fs: seq<WireFrame>, p: seq<byte>)
    requires AllValid(fs) && p <= Flatten(WireAll(fs))
    ensures var n, tail := CompleteWithin(WireAll(fs), |p|), TailOf(WireAll(fs), p);
            && Split(p) == SplitResult(DecodedAll(fs[..n]), tail, Waiting)
            && p == Flatten(WireAll(fs[..n])) + tail
            && (n == |fs| ==> tail == [])
            && (n < |fs| ==> tail < fs[n].Bytes())
  {
    hide Split, Flatten, CompleteWithin, TailOf, RawFrame, DecodedAll, WireFrame.Bytes;
    var n, tail := CompleteWithin(WireAll(fs), |p|), TailOf(WireAll(fs), p);
    PrefixIsPiecesAndTail(WireAll(fs), p);
    assert WireAll(fs)[..n] == WireAll(fs[..n]);
    SplitOfFramesAndTail(fs, n, tail);
  }

  /** The whole stream splits into all its frames with nothing left over. */
  lemma SplitOfStream(fs: seq<WireFrame>)
    requires AllValid(fs)
    ensures Split(Flatten(WireAll(fs))) == SplitResult(DecodedAll(fs), [], Waiting)
  {
    CompleteWithinAll(WireAll(fs));
    SplitOfStreamPrefix(fs, Flatten(WireAll(fs)));
    assert fs[..|fs|] == fs;
  }
}
