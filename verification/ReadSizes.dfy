/** Exactly when the sizes of the reads can be seen, for arbitrary bytes. */
module ReadSizes {
  import opened Bytes
  import opened Sequences
  import opened Chunks
  import BufferDeque
  import opened Codec
  import opened FrameSplitter
  import opened ReadTurns
  import opened RejectedStreams

  /** The state t is what the connection in state s becomes by one pass over everything, with result r. */
  ghost predicate Agrees(s: ConnState, t: ConnState, r: SplitResult) {
    && t.delivered == s.delivered + r.frames
    && if r.end == Stuck then t.status == Crashed
       else
         && t.status == Reading && t.bytes == r.rest
         && t.roleId == RoleAfter(s.roleId, r.frames)
         && t.registered == s.registered + Registrations(s.roleId, r.frames)
  }

  /** A read that has room brings at least one byte: a stream socket reports an empty one as end of file. Only a read
      of size zero, posted when the array is full, completes with nothing. */
  ghost predicate NoIdleRead(s: ConnState, cs: seq<seq<byte>>)
    requires s.status == Reading ==> s.InBounds()
    requires Fits(s, cs)
    decreases |cs|
  {
    cs == [] || ((cs[0] == [] ==> s.Writable() == 0) && NoIdleRead(Turn(s, cs[0]), cs[1..]))
  }

  /** The reads cs bring the bytes c; after a failed assertion nothing more is read. */
  ghost predicate Carries(s: ConnState, cs: seq<seq<byte>>, c: seq<byte>)
    requires s.status == Reading && s.InBounds()
  {
    && Fits(s, cs) && NoIdleRead(s, cs)
    && (Flatten(cs) == c || (Run(s, cs).status == Crashed && Flatten(cs) <= c))
  }

  lemma {:induction false} NoIdleReadAppend(s: ConnState, a: seq<seq<byte>>, b: seq<seq<byte>>)
    requires s.status == Reading ==> s.InBounds()
    requires Fits(s, a) && NoIdleRead(s, a) && Fits(Run(s, a), b) && NoIdleRead(Run(s, a), b)
    ensures Fits(s, a + b) && NoIdleRead(s, a + b)
    decreases |a|
  {
    hide Turn;
    RunAppend(s, a, b);
    if a == [] {
      assert a + b == b;
    } else {
      NoIdleReadAppend(Turn(s, a[0]), a[1..], b);
      assert (a + b)[1..] == a[1..] + b;
    }
  }

  lemma OneRead(u: ConnState, p: seq<byte>)
    requires u.status == Reading && u.InBounds() && |p| <= u.Writable() && (p == [] ==> u.Writable() == 0)
    ensures Fits(u, [p]) && NoIdleRead(u, [p]) && Run(u, [p]) == Turn(u, p) && Flatten([p]) == p
  {
    hide Turn;
    OneTurn(u, p);
    assert [p][1..] == [] && Flatten([p]) == p + Flatten([p][1..]);
    assert NoIdleRead(Turn(u, p), []);
  }

  lemma TurnAgrees(s: ConnState, u: ConnState, b: seq<byte>, chunk: seq<byte>)
    requires u.status == Reading && u.InBounds() && Agrees(s, u, Split(b)) && |chunk| <= u.Writable()
    requires Split(b).end == Waiting || ChunkSafe(b + chunk)
    ensures Agrees(s, Turn(u, chunk), Split(b + chunk))
  {
    hide Split, ChunkSafe;
    if Split(b).end == Waiting {
      SplitAppend(b, chunk);
    } else {
      SafeContinues(b, chunk);
    }
    var r := Split(u.bytes + chunk);
    Assoc(s.delivered, Split(b).frames, r.frames);
    RoleAfterAppend(s.roleId, Split(b).frames, r.frames);
    Assoc(s.registered, Registrations(s.roleId, Split(b).frames), Registrations(u.roleId, r.frames));
  }

  lemma {:induction false} RunAgrees(s: ConnState, u: ConnState, b: seq<byte>, cs: seq<seq<byte>>)
    requires u.status == Reading && u.InBounds() && Agrees(s, u, Split(b))
    requires Fits(u, cs) && ChunkSafe(b + Flatten(cs))
    ensures Agrees(s, Run(u, cs), Split(b + Flatten(cs)))
    decreases |cs|
  {
    hide Split, ChunkSafe, Turn, Agrees;
    if cs == [] {
      assert b + Flatten(cs) == b;
    } else {
      Assoc(b, cs[0], Flatten(cs[1..]));
      SafeContinues(b + cs[0], Flatten(cs[1..]));
      TurnAgrees(s, u, b, cs[0]);
      if cs[1..] == [] {
        assert b + cs[0] + Flatten(cs[1..]) == b + cs[0];
      } else {
        RunAgrees(s, Turn(u, cs[0]), b + cs[0], cs[1..]);
      }
    }
  }

  lemma StartAgrees(s: ConnState)
    requires s.status == Reading && Quiet(s.bytes)
    ensures Agrees(s, s, Split(s.bytes))
  {
    hide Split;
    QuietSplit(s.bytes);
    assert s.delivered + [] == s.delivered && s.registered + [] == s.registered;
  }

  lemma SafeRunsAgree(s: ConnState, c: seq<byte>, cs: seq<seq<byte>>)
    requires s.status == Reading && s.InBounds() && Quiet(s.bytes)
    requires ChunkSafe(s.bytes + c) && Carries(s, cs, c)
    ensures Agrees(s, Run(s, cs), Split(s.bytes + c))
  {
    hide Split, ChunkSafe, Turn, Run, Fits;
    StartAgrees(s);
    var read, unread := Flatten(cs), c[|Flatten(cs)|..];
    assert read + unread == c;
    Assoc(s.bytes, read, unread);
    SafeContinues(s.bytes + read, unread);
    RunAgrees(s, s, s.bytes, cs);
    if read != c {
      assert Split(s.bytes + read).end == Stuck;
    } else {
      assert unread == [];
      assert s.bytes + read + unread == s.bytes + c;
    }
  }

  // A bad frame at the very end of the stream: there is no further pass, unless the array is full.

  /** The reads bring c and leave the array full, so that one of size zero is next. */
  ghost predicate Fills(s: ConnState, cs: seq<seq<byte>>, c: seq<byte>)
    requires s.status == Reading && s.InBounds()
  {
    && Fits(s, cs) && NoIdleRead(s, cs) && Flatten(cs) == c
    && Run(s, cs).status == Reading && Run(s, cs).Writable() == 0
  }

  ghost predicate CanFill(s: ConnState, c: seq<byte>)
    requires s.status == Reading && s.InBounds()
  {
    exists cs :: Fills(s, cs, c)
  }

  /** The array is left full only by a pass over a whole array of bytes. */
  lemma {:induction false} FullMeansWholeArray(u: ConnState, cs: seq<seq<byte>>)
    requires u.status == Reading && u.InBounds() && Fits(u, cs) && cs != []
    requires Run(u, cs).status == Reading && Run(u, cs).Writable() == 0
    ensures |u.bytes| + |Flatten(cs)| >= BufferDeque.DEFAULT_BUFFER_SIZE
    decreases |cs|
  {
    hide Split;
    if cs[1..] != [] {
      FullMeansWholeArray(Turn(u, cs[0]), cs[1..]);
    }
  }

  lemma FillTakesWholeArray(s: ConnState, c: seq<byte>)
    requires s.status == Reading && s.InBounds() && c != [] && CanFill(s, c)
    ensures |s.bytes| + |c| >= BufferDeque.DEFAULT_BUFFER_SIZE
  {
    hide Run, Fits;
    var cs :| Fills(s, cs, c);
    assert cs != [];
    FullMeansWholeArray(s, cs);
  }

  lemma CanFillAfter(u: ConnState, chunk: seq<byte>, later: seq<byte>)
    requires u.status == Reading && u.InBounds() && |chunk| <= u.Writable() && (chunk == [] ==> u.Writable() == 0)
    requires Turn(u, chunk).status == Reading && CanFill(Turn(u, chunk), later)
    ensures CanFill(u, chunk + later)
  {
    hide Turn;
    var cs :| Fills(Turn(u, chunk), cs, later);
    var ds := [chunk] + cs;
    assert ds[1..] == cs;
    assert Fills(u, ds, chunk + later);
  }

  lemma {:induction false} EndRunAgrees(s: ConnState, u: ConnState, b: seq<byte>, cs: seq<seq<byte>>)
    requires u.status == Reading && u.InBounds() && Agrees(s, u, Split(b)) && Split(b).end == Waiting
    requires Fits(u, cs) && NoIdleRead(u, cs) && EndsWithBadFrame(b + Flatten(cs)) && !CanFill(u, Flatten(cs))
    ensures Agrees(s, Run(u, cs), Split(b + Flatten(cs)))
    decreases |cs|
  {
    hide Split, Turn, Agrees, EndsWithBadFrame, CanFill;
    if cs == [] {
      assert b + Flatten(cs) == b;
    } else {
      var chunk, later := cs[0], Flatten(cs[1..]);
      Assoc(b, chunk, later);
      TurnAgrees(s, u, b, chunk);
      if later != [] {
        FrontWaits(b + chunk, later);
        TurnReads(s, Turn(u, chunk), b + chunk);
        if CanFill(Turn(u, chunk), later) {
          CanFillAfter(u, chunk, later);
        }
        EndRunAgrees(s, Turn(u, chunk), b + chunk, cs[1..]);
      } else {
        assert b + chunk + later == b + chunk && chunk + later == chunk;
        NothingFollows(u, cs);
      }
    }
  }

  lemma TurnReads(s: ConnState, t: ConnState, b: seq<byte>)
    requires Agrees(s, t, Split(b)) && Split(b).end == Waiting
    ensures t.status == Reading
  {
  }

  lemma NothingFollows(u: ConnState, cs: seq<seq<byte>>)
    requires u.status == Reading && u.InBounds() && Fits(u, cs) && NoIdleRead(u, cs)
    requires cs != [] && Flatten(cs[1..]) == [] && !CanFill(u, cs[0])
    ensures cs[1..] == []
  {
    hide Turn, CanFill;
    if cs[1..] != [] {
      assert cs[1..][0] == [];
      FillsNow(u, cs[0]);
    }
  }

  lemma FillsNow(u: ConnState, chunk: seq<byte>)
    requires u.status == Reading && u.InBounds() && |chunk| <= u.Writable() && (chunk == [] ==> u.Writable() == 0)
    requires Turn(u, chunk).status == Reading && Turn(u, chunk).Writable() == 0
    ensures CanFill(u, chunk)
  {
    OneRead(u, chunk);
    assert Fills(u, [chunk], chunk);
  }

  lemma EndRunsAgree(s: ConnState, c: seq<byte>, cs: seq<seq<byte>>)
    requires s.status == Reading && s.InBounds() && Quiet(s.bytes)
    requires EndsWithBadFrame(s.bytes + c) && !CanFill(s, c) && Carries(s, cs, c)
    ensures Agrees(s, Run(s, cs), Split(s.bytes + c))
  {
    StartAgrees(s);
    StartWaits(s.bytes, c);
    hide Split, Turn, Run, Fits, Agrees, EndsWithBadFrame, CanFill, Quiet;
    if Flatten(cs) == c {
      EndRunAgrees(s, s, s.bytes, cs);
    } else {
      var read, unread := Flatten(cs), c[|Flatten(cs)|..];
      assert read + unread == c && unread != [];
      Assoc(s.bytes, read, unread);
      FrontWaits(s.bytes + read, unread);
      AcceptedIsSafe(s.bytes + read);
      RunAgrees(s, s, s.bytes, cs);
      TurnReads(s, Run(s, cs), s.bytes + read);
    }
  }

  // A frame too short for its own header: a read that ends behind it fails.

  lemma FailureIsAhead(u: ConnState, chunk: seq<byte>, later: seq<byte>)
    requires u.status == Reading && u.InBounds() && |chunk| <= u.Writable() && Turn(u, chunk).status == Reading
    requires Split(u.bytes + (chunk + later)).end == Stuck
    ensures Split(Turn(u, chunk).bytes + later).end == Stuck && Split(Turn(u, chunk).bytes).end == Waiting
  {
    hide Split;
    var b := u.bytes + chunk;
    Assoc(u.bytes, chunk, later);
    if Split(b).end == Rejected {
      HaltGrows(b, later);
    }
    SplitAppend(b, later);
    SplitAppend(b, []);
    assert b + [] == b && Split(b).rest + [] == Split(b).rest;
  }

  /** Reads can be cut so that the connection sees exactly p first, and fails if p makes it fail. */
  lemma {:induction false} CutReads(u: ConnState, cs: seq<seq<byte>>, p: seq<byte>) returns (ds: seq<seq<byte>>)
    requires u.status == Reading && u.InBounds() && Fits(u, cs) && NoIdleRead(u, cs) && p <= Flatten(cs)
    requires Split(u.bytes + p).end == Stuck && Split(u.bytes).end != Stuck
    ensures Fits(u, ds) && NoIdleRead(u, ds) && Run(u, ds).status == Crashed && Flatten(ds) <= p
    decreases |cs|
  {
    assert p != [] by {
      assert u.bytes + [] == u.bytes;
    }
    if |p| <= |cs[0]| {
      ds := [p];
      OneRead(u, p);
    } else {
      hide Split, Turn;
      var chunk, later := cs[0], p[|cs[0]|..];
      PrefixOfSum(p, chunk, Flatten(cs[1..]));
      assert later != [] && Turn(u, chunk).status == Reading;
      FailureIsAhead(u, chunk, later);
      var rest := CutReads(Turn(u, chunk), cs[1..], later);
      ds := [chunk] + rest;
      assert ds[1..] == rest;
    }
  }

  lemma ShortFrameShows(s: ConnState, c: seq<byte>, cs: seq<seq<byte>>) returns (ds: seq<seq<byte>>)
    requires s.status == Reading && s.InBounds() && Quiet(s.bytes)
    requires ShortFrame(HaltsAt(s.bytes + c)) && Carries(s, cs, c) && Flatten(cs) == c
    ensures Carries(s, ds, c) && Run(s, ds).status == Crashed
  {
    QuietSplit(s.bytes);
    hide Split, Run, Fits, Turn, ShortFrame, Quiet;
    var q := ShortFrameCanFail(s.bytes + c);
    FailsBehindStart(s.bytes, c, q);
    var p := q[|s.bytes|..];
    assert q == s.bytes + p && p == c[..|p|];
    ds := CutReads(s, cs, p);
  }

  // A bad frame with bytes behind it: the last byte brings another pass.

  /** While the connection reads: it holds what one pass leaves as long as that waits, and at most that afterwards. */
  ghost predicate KeepsUp(u: ConnState, b: seq<byte>) {
    && u.status == Reading && u.InBounds()
    && (Split(b).end == Waiting ==> u.bytes == Split(b).rest)
    && |u.bytes| <= |Split(b).rest| && Split(b).end != Stuck
    && IsSuffix(u.bytes, b)
  }

  lemma PassOfTurn(v: ConnState, d: seq<byte>)
    requires v.status == Reading && v.InBounds() && |d| <= v.Writable() && Turn(v, d).status == Reading
    ensures Split(v.bytes + d).end != Stuck && Turn(v, d).bytes == Split(v.bytes + d).rest && Turn(v, d).InBounds()
  {
    hide Split;
  }

  lemma TurnKeepsUp(u: ConnState, b: seq<byte>, d: seq<byte>)
    requires KeepsUp(u, b) && |d| <= u.Writable() && Turn(u, d).status == Reading
    ensures KeepsUp(Turn(u, d), b + d)
  {
    hide Split, Turn, IsSuffix, HaltsAt, DecodeHeader, ShortFrame;
    PassOfTurn(u, d);
    if Split(b).end == Waiting {
      SplitAppend(b, d);
    } else {
      HaltGrows(b, d);
    }
    RestIsSuffix(u.bytes + d);
    SuffixGrows(u.bytes, b, d);
    SuffixOfSuffix(Turn(u, d).bytes, u.bytes + d, b + d);
  }

  lemma {:induction false} RunKeepsUp(u: ConnState, b: seq<byte>, cs: seq<seq<byte>>)
    requires KeepsUp(u, b) && Fits(u, cs) && Run(u, cs).status == Reading
    ensures KeepsUp(Run(u, cs), b + Flatten(cs))
    decreases |cs|
  {
    hide Split, Turn;
    if cs == [] {
      assert b + Flatten(cs) == b;
    } else {
      Assoc(b, cs[0], Flatten(cs[1..]));
      assert Turn(u, cs[0]).status == Reading;
      TurnKeepsUp(u, b, cs[0]);
      hide KeepsUp;
      RunKeepsUp(Turn(u, cs[0]), b + cs[0], cs[1..]);
    }
  }

  lemma RoomIsLeft(u: ConnState, p: seq<byte>)
    requires u.status == Reading && u.InBounds() && |p| < u.Writable() && Turn(u, p).status == Reading
    ensures Turn(u, p).Writable() == u.Writable() - |p|
  {
    hide Split;
  }

  /** The same reads up to the last byte, for which there is room then. */
  lemma {:induction false} CutBeforeLast(u: ConnState, cs: seq<seq<byte>>) returns (ds: seq<seq<byte>>)
    requires u.status == Reading && u.InBounds() && Fits(u, cs) && NoIdleRead(u, cs) && Flatten(cs) != []
    ensures Fits(u, ds) && NoIdleRead(u, ds)
    ensures var v, c := Run(u, ds), Flatten(cs);
            if v.status == Reading then Flatten(ds) == c[..|c| - 1] && v.Writable() >= 1
            else v.status == Crashed && Flatten(ds) <= c[..|c| - 1]
    decreases |cs|
  {
    hide Split;
    var chunk, later := cs[0], Flatten(cs[1..]);
    if later == [] {
      assert Flatten(cs) == chunk;
      if |chunk| == 1 {
        ds := [];
      } else {
        var p := chunk[..|chunk| - 1];
        OneRead(u, p);
        ds := [p];
        if Turn(u, p).status == Reading {
          RoomIsLeft(u, p);
        }
      }
    } else {
      hide Turn;
      assert Turn(u, chunk).status == Reading;
      var rest := CutBeforeLast(Turn(u, chunk), cs[1..]);
      ds := [chunk] + rest;
      assert ds[1..] == rest;
      assert Flatten(cs)[..|Flatten(cs)| - 1] == chunk + later[..|later| - 1];
    }
  }

  lemma FrontAndLast(b: seq<byte>)
    requires b != []
    ensures b == b[..|b| - 1] + [b[|b| - 1]]
  {
  }

  /** The last byte alone brings another pass. */
  lemma LastByteShows(s: ConnState, v: ConnState, front: seq<byte>, last: seq<byte>)
    requires KeepsUp(v, front) && |last| <= v.Writable()
    requires Split(front).end == Rejected && !Quiet(Split(front + last).rest)
    ensures !Agrees(s, Turn(v, last), Split(front + last))
  {
    hide Split, Quiet, Turn, Agrees, IsSuffix, HaltsAt, DecodeHeader, ShortFrame;
    HaltGrows(front, last);
    RestIsSuffix(front);
    AnotherPassShows(v.bytes, front, Split(front).rest, last);
    if Agrees(s, Turn(v, last), Split(front + last)) {
      AgreesOnBytes(s, Turn(v, last), Split(front + last));
      PassOfTurn(v, last);
    }
  }

  lemma AgreesOnBytes(s: ConnState, t: ConnState, r: SplitResult)
    requires Agrees(s, t, r) && r.end != Stuck
    ensures t.status == Reading && t.bytes == r.rest
  {
  }

  lemma ReadsThenLast(s: ConnState, front: seq<seq<byte>>, c: seq<byte>)
    requires s.status == Reading && s.InBounds() && c != []
    requires Fits(s, front) && NoIdleRead(s, front) && Flatten(front) == c[..|c| - 1]
    requires Run(s, front).status == Reading && Run(s, front).Writable() >= 1
    ensures var ds := front + [[c[|c| - 1]]];
            Carries(s, ds, c) && Run(s, ds) == Turn(Run(s, front), [c[|c| - 1]])
  {
    hide Run, Fits, Turn;
    var v, last := Run(s, front), [c[|c| - 1]];
    OneRead(v, last);
    NoIdleReadAppend(s, front, [last]);
    RunAppend(s, front, [last]);
    FlattenAppend(front, [last]);
    assert c == c[..|c| - 1] + last;
  }

  lemma CutShows(s: ConnState, c: seq<byte>, cs: seq<seq<byte>>) returns (ds: seq<seq<byte>>)
    requires s.status == Reading && s.InBounds() && Quiet(s.bytes)
    requires BytesBehindBadFrame(HaltsAt(s.bytes + c)) && !Quiet(Split(s.bytes + c).rest)
    requires Carries(s, cs, c) && Flatten(cs) == c
    ensures Carries(s, ds, c) && !Agrees(s, Run(s, ds), Split(s.bytes + c))
  {
    hide Split, Run, Fits, Turn, KeepsUp, Quiet, HaltsAt, BytesBehindBadFrame, NoIdleRead, Halt, Flatten, Agrees;
    var b := s.bytes + c;
    StartKeepsUp(s);
    SplitHalts(b);
    RejectedIsNew(s.bytes, c);
    FrontIsRejected(b);
    ds := CutBeforeLast(s, cs);
    assert s.bytes + c[..|c| - 1] == b[..|b| - 1] && c[|c| - 1] == b[|b| - 1];
    var v := Run(s, ds);
    if v.status == Reading {
      RunKeepsUp(s, s.bytes, ds);
      FrontAndLast(b);
      LastByteShows(s, v, b[..|b| - 1], [b[|b| - 1]]);
      ReadsThenLast(s, ds, c);
      ds := ds + [[c[|c| - 1]]];
    } else {
      FailureDisagrees(s, v, Split(b));
    }
  }

  lemma FailureDisagrees(s: ConnState, t: ConnState, r: SplitResult)
    requires t.status == Crashed && r.end != Stuck
    ensures !Agrees(s, t, r)
  {
  }

  lemma StartKeepsUp(s: ConnState)
    requires s.status == Reading && s.InBounds() && Quiet(s.bytes)
    ensures KeepsUp(s, s.bytes)
  {
    hide Split;
    QuietSplit(s.bytes);
  }

  // A bad frame at the end that leaves work behind, and a full array.

  lemma EmptyReadShows(s: ConnState, cs: seq<seq<byte>>, r: SplitResult)
    requires s.status == Reading && s.InBounds() && Fills(s, cs, Flatten(cs))
    requires Agrees(s, Run(s, cs), r) && r.end != Stuck && !Quiet(r.rest)
    ensures Carries(s, cs + [[]], Flatten(cs)) && !Agrees(s, Run(s, cs + [[]]), r)
  {
    hide Split, Run, Fits, Quiet;
    var t, none: seq<seq<byte>> := Run(s, cs), [[]];
    OneRead(t, []);
    RunAppend(s, cs, none);
    NoIdleReadAppend(s, cs, none);
    FlattenAppend(cs, none);
    assert none[1..] == [] && Flatten(none) == [];
    assert Flatten(cs) + [] == Flatten(cs);
    assert t.bytes + [] == r.rest;
    QuietSplit(r.rest);
  }

  // The exact condition.

  /** The sizes of the reads cannot be seen: the stream is safe, or it ends with its first bad frame and no reads
      leave the array full. */
  ghost predicate Unseen(s: ConnState, c: seq<byte>)
    requires s.status == Reading && s.InBounds()
  {
    ChunkSafe(s.bytes + c) || (EndsWithBadFrame(s.bytes + c) && !CanFill(s, c))
  }

  lemma UnsafeShows(s: ConnState, c: seq<byte>, cs: seq<seq<byte>>) returns (ds: seq<seq<byte>>)
    requires s.status == Reading && s.InBounds() && Quiet(s.bytes)
    requires !Unseen(s, c) && Carries(s, cs, c)
    ensures Carries(s, ds, c) && !Agrees(s, Run(s, ds), Split(s.bytes + c))
  {
    var b, r := s.bytes + c, Split(s.bytes + c);
    UnsafeIs(b);
    hide Split, Run, Fits, Turn, ShortFrame, BytesBehindBadFrame, EndsWithBadFrame, ChunkSafe, Quiet;
    ds := cs;
    if Agrees(s, Run(s, cs), r) {
      assert Flatten(cs) == c;
      if ShortFrame(HaltsAt(b)) {
        ds := ShortFrameShows(s, c, cs);
      } else if BytesBehindBadFrame(HaltsAt(b)) {
        ds := CutShows(s, c, cs);
      } else {
        var filling :| Fills(s, filling, c);
        ds := filling;
        if Agrees(s, Run(s, filling), r) {
          EmptyReadShows(s, filling, r);
          ds := filling + [[]];
        }
      }
    }
  }

  /** Exactly when the sizes of the reads cannot be seen. From any state in which nothing is left to do, for arbitrary
      bytes c: every way to receive them ends as one pass over all of them would, if and only if the stream is accepted
      as far as it goes or stops at an oversize or failing frame; or it stops at a bad frame that is long enough for
      its rejection, behind which a further pass finds nothing to take, or which ends the stream without any reads
      leaving the array full. For that the pending bytes must be as many as the array holds. */
  lemma ChunkingIsInvisibleIff(s: ConnState, c: seq<byte>)
    requires s.status == Reading && s.InBounds() && Quiet(s.bytes)
    ensures (exists cs :: Carries(s, cs, c)) ==>
              (Unseen(s, c) <==> forall cs :: Carries(s, cs, c) ==> Agrees(s, Run(s, cs), Split(s.bytes + c)))
    ensures c != [] && |c| <= s.Writable() ==> Carries(s, [c], c)
    ensures c != [] && |s.bytes| + |c| < BufferDeque.DEFAULT_BUFFER_SIZE ==> !CanFill(s, c)
  {
    hide ChunkSafe, EndsWithBadFrame, Agrees, Split, Run, Fits, Quiet, Turn;
    if Unseen(s, c) {
      forall cs | Carries(s, cs, c)
        ensures Agrees(s, Run(s, cs), Split(s.bytes + c))
      {
        if ChunkSafe(s.bytes + c) {
          SafeRunsAgree(s, c, cs);
        } else {
          EndRunsAgree(s, c, cs);
        }
      }
    } else if cs :| Carries(s, cs, c) {
      var ds := UnsafeShows(s, c, cs);
    }
    if c != [] && |c| <= s.Writable() {
      OneRead(s, c);
    }
    if c != [] && CanFill(s, c) {
      FillTakesWholeArray(s, c);
    }
  }
}
