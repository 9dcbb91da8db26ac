/** Byte streams the parse loop does not accept: where a pass over them stops, and what a further pass makes of what is
    left. */
module RejectedStreams {
  import opened Bytes
  import opened Codec
  import opened FrameSplitter

  /** Bytes that a further pass over them leaves as they are. */
  predicate Quiet(x: seq<byte>) {
    DecodeHeader(x).NeedMore? || DecodeHeader(x).BadSize?
  }

  /** The bytes in front of which a pass over b stops to deliver. */
  function HaltsAt(b: seq<byte>): (x: seq<byte>)
    ensures |x| <= |b| && !HasFrame(x)
    decreases |b|
  {
    if HasFrame(b) then HaltsAt(AfterFirst(b)) else b
  }

  /** The frame at which a pass stops is complete when the pass takes something off it, and a further pass over what is
      left behind it takes nothing. */
  predicate ChunkSafe(b: seq<byte>) {
    var x := HaltsAt(b);
    match DecodeHeader(x)
    case BadMagic => U32At(x, 0) >= LENGTH_SIZE && Quiet(x[LENGTH_SIZE..])
    case BadType => U32At(x, 0) >= HEADER_SIZE_NO_LENGTH && Quiet(x[FULL_HEADER..])
    case _ => true
  }

  lemma {:induction false} SplitHalts(b: seq<byte>)
    ensures Split(b).end == Halt(HaltsAt(b)).end && Split(b).rest == Halt(HaltsAt(b)).rest
    decreases |b|
  {
    hide Halt, HasFrame, FirstFrame, AfterFirst;
    if HasFrame(b) {
      SplitHalts(AfterFirst(b));
    }
  }

  /** What more bytes make of a header decision that is not to wait. */
  lemma DecisionGrows(x: seq<byte>, d: seq<byte>)
    requires !DecodeHeader(x).NeedMore?
    ensures |x| >= 4 && U32At(x + d, 0) == U32At(x, 0)
    ensures !DecodeHeader(x).Aborted? ==> DecodeHeader(x + d) == DecodeHeader(x)
    ensures DecodeHeader(x).Aborted? ==>
              match DecodeHeader(x + d)
              case BadMagic => U32At(x, 0) < LENGTH_SIZE
              case BadType => U32At(x, 0) < HEADER_SIZE_NO_LENGTH
              case Accepted(_, _) => U32At(x, 0) < HEADER_SIZE_NO_LENGTH
              case other => other == Aborted
  {
    U32AtPrefix(x, d, 0);
    if |x| >= 8 {
      U32AtPrefix(x, d, 4);
    }
    if |x| >= 21 {
      U32AtPrefix(x, d, 8);
      U32AtPrefix(x, d, 12);
      U32AtPrefix(x, d, 17);
    }
  }

  lemma QuietPrefix(x: seq<byte>, d: seq<byte>)
    requires Quiet(x + d)
    ensures Quiet(x)
  {
    if !DecodeHeader(x).NeedMore? {
      DecisionGrows(x, d);
    }
  }

  lemma QuietSplit(x: seq<byte>)
    ensures Quiet(x) ==> Split(x).frames == [] && Split(x).rest == x && Split(x).end != Stuck
    ensures !Quiet(x) ==> |Split(x).rest| < |x| || Split(x).end == Stuck
  {
  }

  /** Both results stand for the same behaviour: it does not matter why a pass stopped, unless an assertion failed. */
  ghost predicate SameOutcome(r: SplitResult, q: SplitResult) {
    r.frames == q.frames && (r.end == Stuck <==> q.end == Stuck) && (r.end != Stuck ==> r.rest == q.rest)
  }

  ghost predicate Continues(b: seq<byte>, d: seq<byte>) {
    && ChunkSafe(b)
    && SameOutcome(Split(b + d), if Split(b).end == Stuck then Split(b) else Then(Split(b), Split(Split(b).rest + d)))
  }

  lemma HaltContinues(x: seq<byte>, d: seq<byte>)
    requires !HasFrame(x) && ChunkSafe(x + d)
    ensures Continues(x, d)
  {
    if DecodeHeader(x).NeedMore? {
      assert [] + Split(x + d).frames == Split(x + d).frames;
    } else {
      DecisionGrows(x, d);
      assert !HasFrame(x + d);
      match DecodeHeader(x) {
        case BadSize =>
          QuietSplit(x + d);
        case BadMagic =>
          RestContinues(x, d, LENGTH_SIZE);
        case BadType =>
          RestContinues(x, d, FULL_HEADER);
        case _ =>
      }
    }
  }

  lemma RestContinues(x: seq<byte>, d: seq<byte>, k: nat)
    requires k <= |x| && Quiet((x + d)[k..])
    ensures Quiet(x[k..]) && (x + d)[k..] == x[k..] + d
    ensures Split(x[k..] + d).frames == [] && Split(x[k..] + d).rest == (x + d)[k..]
    ensures Split(x[k..] + d).end != Stuck
  {
    assert (x + d)[k..] == x[k..] + d;
    QuietPrefix(x[k..], d);
    QuietSplit(x[k..] + d);
  }

  /** On a safe stream, a pass that was interrupted anywhere ends as one pass over everything. */
  lemma {:induction false} SafeContinues(b: seq<byte>, d: seq<byte>)
    requires ChunkSafe(b + d)
    ensures Continues(b, d)
    decreases |b|
  {
    hide HasFrame, FirstFrame, AfterFirst, Halt, DecodeHeader, Quiet;
    if HasFrame(b) {
      FirstFrameStable(b, d);
      SafeContinues(AfterFirst(b), d);
      ConsThen(FirstFrame(b), Split(AfterFirst(b)), Split(Split(b).rest + d));
    } else {
      HaltContinues(b, d);
    }
  }

  /** Streams that are accepted as far as they go are safe, whatever their bytes. */
  lemma AcceptedIsSafe(b: seq<byte>)
    requires Split(b).end == Waiting
    ensures ChunkSafe(b)
  {
    SplitHalts(b);
  }

  // The bad frame at which a pass stops.

  /** The stream ends exactly with the bad frame at which a pass stops. */
  predicate EndsWithBadFrame(b: seq<byte>) {
    var x := HaltsAt(b);
    match DecodeHeader(x)
    case BadMagic => |x| == LENGTH_SIZE + U32At(x, 0) && U32At(x, 0) >= LENGTH_SIZE
    case BadType => |x| == LENGTH_SIZE + U32At(x, 0) && U32At(x, 0) >= HEADER_SIZE_NO_LENGTH
    case _ => false
  }

  /** At the head of x, such a frame, not looked at before more had come. */
  predicate ShortFrame(x: seq<byte>) {
    match DecodeHeader(x)
    case BadMagic => U32At(x, 0) < LENGTH_SIZE
    case BadType => U32At(x, 0) < HEADER_SIZE_NO_LENGTH
    case _ => false
  }

  /** A bad frame that is long enough for its rejection, with bytes behind it. */
  predicate BytesBehindBadFrame(x: seq<byte>) {
    && (DecodeHeader(x).BadMagic? || DecodeHeader(x).BadType?) && !ShortFrame(x)
    && LENGTH_SIZE + U32At(x, 0) < |x|
  }

  /** What makes a stream unsafe. */
  lemma UnsafeIs(b: seq<byte>)
    requires !ChunkSafe(b)
    ensures Split(b).end == Rejected
    ensures ShortFrame(HaltsAt(b)) ||
            (!Quiet(Split(b).rest) && (EndsWithBadFrame(b) || BytesBehindBadFrame(HaltsAt(b))))
  {
    hide HasFrame, Split;
    SplitHalts(b);
  }

  // What more bytes make of a pass that stopped.

  /** A pass that stopped stays where it stopped. */
  lemma {:induction false} HaltGrows(b: seq<byte>, d: seq<byte>)
    requires Split(b).end != Waiting
    ensures HaltsAt(b + d) == HaltsAt(b) + d || Split(b).end == Stuck
    ensures Split(b).end == Rejected ==>
              && Split(b + d).end == Rejected && Split(b + d).rest == Split(b).rest + d
              && DecodeHeader(HaltsAt(b + d)) == DecodeHeader(HaltsAt(b))
    ensures Split(b).end == Stuck ==>
              Split(b + d).end == Stuck || (HaltsAt(b + d) == HaltsAt(b) + d && ShortFrame(HaltsAt(b + d)))
    decreases |b|
  {
    hide FirstFrame, AfterFirst, DecodeHeader, HasFrame, Halt;
    if HasFrame(b) {
      FirstFrameStable(b, d);
      HaltGrows(AfterFirst(b), d);
    } else {
      StopGrows(b, d);
    }
  }

  lemma StopGrows(b: seq<byte>, d: seq<byte>)
    requires !HasFrame(b) && Halt(b).end != Waiting
    ensures !HasFrame(b + d)
    ensures Halt(b).end == Rejected ==>
              && Halt(b + d).end == Rejected && Halt(b + d).rest == Halt(b).rest + d
              && DecodeHeader(b + d) == DecodeHeader(b)
    ensures Halt(b).end == Stuck ==> Halt(b + d).end == Stuck || ShortFrame(b + d)
  {
    DecisionGrows(b, d);
    RestGrows(b, d, LENGTH_SIZE);
    RestGrows(b, d, FULL_HEADER);
  }

  lemma RestGrows(b: seq<byte>, d: seq<byte>, k: nat)
    ensures k <= |b| ==> (b + d)[k..] == b[k..] + d
  {
  }

  /** Before the last byte of the bad frame nothing is decided. */
  lemma FrontWaits(q: seq<byte>, e: seq<byte>)
    requires EndsWithBadFrame(q + e) && e != []
    ensures Split(q).end == Waiting
  {
    if Split(q).end != Waiting {
      HaltGrows(q, e);
      SplitHalts(q);
      SplitHalts(q + e);
      DecidedIsComplete(HaltsAt(q), e);
    }
  }

  lemma DecidedIsComplete(x: seq<byte>, e: seq<byte>)
    requires e != [] && !DecodeHeader(x).NeedMore?
    ensures |x| >= 4 && U32At(x + e, 0) == U32At(x, 0)
    ensures DecodeHeader(x) == BadSize || LENGTH_SIZE + U32At(x + e, 0) < |x + e|
  {
    DecisionGrows(x, e);
  }

  lemma StartWaits(a: seq<byte>, c: seq<byte>)
    requires Quiet(a) && EndsWithBadFrame(a + c)
    ensures Split(a).end == Waiting
  {
    if DecodeHeader(a).BadSize? {
      DecisionGrows(a, c);
    }
  }

  // Streams cut inside the bad frame.

  lemma FrameInFront(b: seq<byte>) returns (f: WireFrame)
    requires HasFrame(b)
    ensures f.Valid() && b == f.Bytes() + AfterFirst(b) && |f.Bytes()| == |b| - |AfterFirst(b)|
  {
    var wireType := AcceptedIsRawFrame(b);
    var Accepted(h, n) := DecodeHeader(b);
    f := WireFrame(h, wireType, b[FULL_HEADER..FULL_HEADER + n]);
  }

  lemma CutBehind(f: seq<byte>, later: seq<byte>, n: nat, y: seq<byte>)
    requires n <= |later|
    ensures (f + later)[..|f| + n] + y == f + (later[..n] + y)
    ensures f + later == (f + later)[..|f| + n] + later[n..]
  {
  }

  /** The bytes behind the delivered frames may be exchanged. */
  lemma {:induction false} TailExchanged(b: seq<byte>, y: seq<byte>)
    ensures HaltsAt(b[..|b| - |HaltsAt(b)|] + y) == HaltsAt(y)
    ensures b == b[..|b| - |HaltsAt(b)|] + HaltsAt(b)
    decreases |b|
  {
    hide HasFrame, AfterFirst, WireFrame.Bytes, WireFrame.Valid;
    if HasFrame(b) {
      var f := FrameInFront(b);
      var later := AfterFirst(b);
      var n := |later| - |HaltsAt(later)|;
      TailExchanged(later, y);
      SuffixAt(later, HaltsAt(later));
      CutBehind(f.Bytes(), later, n, y);
      FirstFrameOfBytes(f, later[..n] + y);
    } else {
      assert b[..0] + y == y;
    }
  }

  lemma SuffixAt(b: seq<byte>, x: seq<byte>)
    requires |x| <= |b| && b == b[..|b| - |x|] + x
    ensures b[|b| - |x|..] == x
  {
  }

  /** It fails as soon as it is complete, if it is looked at then. */
  lemma ShortFrameFails(x: seq<byte>) returns (k: nat)
    requires ShortFrame(x)
    ensures k <= |x| && DecodeHeader(x[..k]) == Aborted
  {
    k := LENGTH_SIZE + U32At(x, 0);
    var y := x[..k];
    assert x == y + x[k..];
    U32AtPrefix(y, x[k..], 0);
    if k >= 8 {
      U32AtPrefix(y, x[k..], 4);
    }
  }

  lemma ShortFrameCanFail(b: seq<byte>) returns (q: seq<byte>)
    requires ShortFrame(HaltsAt(b))
    ensures q <= b && Split(q).end == Stuck
  {
    hide Split, HaltsAt, Halt, HasFrame, DecodeHeader, ShortFrame;
    var x := HaltsAt(b);
    var k := ShortFrameFails(x);
    TailExchanged(b, x[..k]);
    q := b[..|b| - |x|] + x[..k];
    SplitHalts(q);
    HaltsAtItself(x[..k]);
    assert q == b[..|q|];
  }

  lemma HaltsAtItself(y: seq<byte>)
    requires DecodeHeader(y) == Aborted
    ensures HaltsAt(y) == y && Halt(y).end == Stuck
  {
  }

  lemma FailsBehindStart(a: seq<byte>, c: seq<byte>, q: seq<byte>)
    requires Quiet(a) && q <= a + c && Split(q).end == Stuck && ShortFrame(HaltsAt(a + c))
    ensures |a| <= |q| && a == q[..|a|]
  {
    hide Split, ShortFrame, Quiet, DecodeHeader;
    if |q| < |a| {
      var later := a[|q|..];
      assert a == q + later;
      FailureIsPermanent(q, later);
      OversizeStays(a, c);
    }
  }

  lemma OversizeStays(a: seq<byte>, c: seq<byte>)
    requires Quiet(a) && Split(a).end != Waiting
    ensures !ShortFrame(HaltsAt(a + c))
  {
    DecisionGrows(a, c);
    assert HaltsAt(a + c) == a + c;
  }

  lemma CutIsRejected(x: seq<byte>)
    requires BytesBehindBadFrame(x)
    ensures DecodeHeader(x[..|x| - 1]) == DecodeHeader(x)
  {
    var y, last := x[..|x| - 1], x[|x| - 1..];
    assert x == y + last;
    U32AtPrefix(y, last, 0);
    U32AtPrefix(y, last, 4);
    if |y| >= FULL_HEADER {
      DecisionGrows(y, last);
    }
  }

  lemma FrontIsRejected(b: seq<byte>)
    requires BytesBehindBadFrame(HaltsAt(b))
    ensures b != [] && Split(b[..|b| - 1]).end == Rejected
  {
    hide Split, HasFrame, HaltsAt, Halt, DecodeHeader;
    var x := HaltsAt(b);
    var y := x[..|x| - 1];
    CutIsRejected(x);
    TailExchanged(b, y);
    assert b[..|b| - 1] == b[..|b| - |x|] + y;
    SplitHalts(b[..|b| - 1]);
    RejectedIsNoFrame(y);
  }

  lemma RejectedIsNoFrame(y: seq<byte>)
    requires DecodeHeader(y).BadMagic? || DecodeHeader(y).BadType?
    ensures HaltsAt(y) == y && Halt(y).end == Rejected
  {
  }

  lemma RejectedIsNew(a: seq<byte>, c: seq<byte>)
    requires Quiet(a) && BytesBehindBadFrame(HaltsAt(a + c))
    ensures c != [] && Halt(HaltsAt(a + c)).end == Rejected
  {
    assert c == [] ==> a + c == a;
  }

  // What is left is a suffix.

  predicate IsSuffix(x: seq<byte>, b: seq<byte>) {
    |x| <= |b| && x == b[|b| - |x|..]
  }

  lemma SuffixesOfSameSize(x: seq<byte>, y: seq<byte>, b: seq<byte>)
    requires IsSuffix(x, b) && IsSuffix(y, b) && |x| == |y|
    ensures x == y
  {
  }

  lemma SuffixOfSuffix(x: seq<byte>, y: seq<byte>, b: seq<byte>)
    requires IsSuffix(x, y) && IsSuffix(y, b)
    ensures IsSuffix(x, b)
  {
  }

  lemma SuffixGrows(x: seq<byte>, b: seq<byte>, d: seq<byte>)
    requires IsSuffix(x, b)
    ensures IsSuffix(x + d, b + d)
  {
  }

  lemma TailsAreSuffixes(b: seq<byte>)
    ensures HasFrame(b) ==> IsSuffix(AfterFirst(b), b)
    ensures !HasFrame(b) ==> IsSuffix(Halt(b).rest, b)
  {
  }

  lemma {:induction false} RestIsSuffix(b: seq<byte>)
    ensures IsSuffix(Split(b).rest, b)
    decreases |b|
  {
    hide HasFrame, AfterFirst, FirstFrame, Halt, IsSuffix;
    TailsAreSuffixes(b);
    if HasFrame(b) {
      RestIsSuffix(AfterFirst(b));
      SuffixOfSuffix(Split(b).rest, AfterFirst(b), b);
    }
  }

  /** Another pass over what lies behind the bad frame, or over less of it, does not leave it as it is. */
  lemma AnotherPassShows(held: seq<byte>, front: seq<byte>, rest: seq<byte>, last: seq<byte>)
    requires |held| <= |rest| && !Quiet(rest + last) && IsSuffix(held, front) && IsSuffix(rest, front)
    ensures Split(held + last).end == Stuck || Split(held + last).rest != rest + last
  {
    hide Split, Quiet, IsSuffix;
    if Split(held + last).rest == rest + last {
      assert |held| == |rest|;
      SuffixesOfSameSize(held, rest, front);
      QuietSplit(rest + last);
    }
  }
}
