/** Network/TcpConnection.cpp and Network/GameConnection.cpp as an object over a Buffer, refining ReadTurns. */
module Connection {
  import opened Bytes
  import opened BufferDeque
  import opened Codec
  import opened Messages
  import opened FrameSplitter
  import opened Reception
  import opened ReadTurns

  /** How far one call of the parse loop got: news were delivered, b is still to be split. */
  ghost predicate Underway(goal: SplitResult, news: seq<Frame>, b: seq<byte>) {
    goal == Then(SplitResult(news, [], Waiting), Split(b))
  }

  lemma UnderwayStep(goal: SplitResult, news: seq<Frame>, b: seq<byte>)
    requires Underway(goal, news, b)
    ensures HasFrame(b) ==> Underway(goal, news + [FirstFrame(b)], AfterFirst(b))
    ensures !HasFrame(b) ==> goal == Halt(b).(frames := news)
  {
    hide HasFrame, FirstFrame, AfterFirst, Halt;
    if HasFrame(b) {
      var rest := Split(AfterFirst(b)).frames;
      assert news + [FirstFrame(b)] + rest == news + ([FirstFrame(b)] + rest);
    } else {
      assert news + [] == news;
    }
  }

  class GameConnection {
    const name: string
    const buffer: Buffer
    var roleId: i32
    var registered: seq<i32>     // calls of the registration callback
    var delivered: seq<Frame>    // calls of the message callback
    var status: Status

    ghost predicate Valid()
      reads this, buffer
    {
      && buffer.Valid()
      && (status == Reading ==> buffer.readIdx >= IDX_BEGIN && buffer.data.Length == CAPACITY)
    }

    ghost function State(): (s: ConnState)
      reads this, buffer, buffer.data
      requires Valid()
      ensures status == Reading ==> s.InBounds()
    {
      ConnState(buffer.State().bytes, buffer.readIdx, roleId, registered, delivered, status)
    }

    constructor (name: string, little: bool)
      ensures Valid() && fresh(buffer) && fresh(buffer.data)
      ensures this.name == name && State() == Fresh
    {
      this.name := name;
      buffer := new Buffer(little, DEFAULT_BUFFER_SIZE);
      roleId, registered, delivered, status := 0, [], [], Reading;
    }

    /** The completion handler of a read that is posted with the writable part of the buffer. */
    method OnReadComplete(r: ReadResult)
      requires Valid() && status == Reading
      requires r.Data? ==> |r.chunk| <= State().Writable()
      modifies this`roleId, this`registered, this`delivered, this`status, buffer, buffer.data
      ensures Valid() && buffer.data == old(buffer.data)
      ensures var t := Complete(old(State()), r);
              if t.status == Crashed then status == Crashed && delivered == t.delivered else State() == t
    {
      hide Split, Buffer.State, Buffer.WritableSize;
      match r {
        case Eof =>
          status := Stopped(true);
        case ConnectionReset =>
          status := Stopped(true);
        case OtherError =>
          status := Stopped(false);
        case Data(chunk) =>
          buffer.WriteAndAddIndex(chunk);
          if buffer.WritableSize() == 0 {
            buffer.AdjustBuffer();
          }
          OnNewData();
      }
    }

    /** The parse loop. */
    method OnNewData()
      requires Valid() && status == Reading
      modifies this`roleId, this`registered, this`delivered, this`status, buffer`readIdx
      ensures Valid()
      ensures var r := Split(old(State()).bytes);
              && delivered == old(delivered) + r.frames
              && status == (if r.end == Stuck then Crashed else Reading)
              && (status == Reading ==>
                    && State().bytes == r.rest
                    && roleId == RoleAfter(old(roleId), r.frames)
                    && registered == old(registered) + Registrations(old(roleId), r.frames))
    {
      hide Split, HasFrame, FirstFrame, AfterFirst, Halt, Buffer.State, Buffer.ReadableSize, Buffer.ReadBegin;
      hide RoleAfter, Registrations;
      ghost var goal, news: seq<Frame> := Split(buffer.State().bytes), [];
      assert Underway(goal, news, buffer.State().bytes) by {
        assert [] + goal.frames == goal.frames;
      }
      RegistrationsOfNone(roleId);
      assert registered + [] == registered && delivered + [] == delivered;
      var dataEnough, error := true, false;
      while dataEnough && !error
        invariant buffer.Valid() && status == Reading && buffer.readIdx >= IDX_BEGIN
        invariant if dataEnough && !error then Underway(goal, news, buffer.State().bytes)
                  else goal == SplitResult(news, buffer.State().bytes, if error then Rejected else Waiting)
        invariant delivered == old(delivered) + news
        invariant roleId == RoleAfter(old(roleId), news)
        invariant registered == old(registered) + Registrations(old(roleId), news)
        decreases |buffer.State().bytes|, if dataEnough && !error then 1 else 0
      {
        ghost var b := buffer.State().bytes;
        UnderwayStep(goal, news, b);
        var aborted, ok, length, msg, body := ReadMessage(buffer);
        if aborted {
          status := Crashed;
          return;
        }
        if !ok {
          error := true;
        }
        if length == 0 {
          dataEnough := false;
        } else {
          RegistrationStep(old(roleId), old(registered), news, FirstFrame(b));
          if roleId == 0 {
            roleId := msg.roleId;
            registered := registered + [roleId];
          }
          var whole := body.ReadBegin(body.ReadableSize());
          assert whole == body.State().bytes;
          delivered := delivered + [Frame(msg.HeaderValue(), whole)];
          news := news + [FirstFrame(b)];
        }
      }
    }
  }

  lemma RegistrationsOfNone(role: i32)
    ensures RoleAfter(role, []) == role && Registrations(role, []) == []
  {
  }

  lemma RegistrationStep(role: i32, registered: seq<i32>, news: seq<Frame>, f: Frame)
    ensures var now := RoleAfter(role, news);
            && RoleAfter(role, news + [f]) == (if now == 0 then f.header.roleId else now)
            && registered + Registrations(role, news + [f]) ==
               registered + Registrations(role, news) + (if now == 0 then [f.header.roleId] else [])
  {
    RoleAfterAppend(role, news, [f]);
    var one := [f];
    assert one[1..] == [];
  }
}
