/** GameServer/GameServerExample.cpp as an object holding references to shared messages, refining FrameSync. */
module GameRoom {
  import opened Bytes
  import opened Sequences
  import opened Codec
  import opened Messages
  import opened FrameSync

  function TickOf(m: BaseMessage): u32
    reads m
  {
    if m.body.Control? then m.body.tick else 0
  }

  class GameServerExample {
    var controlMsg: seq<BaseMessage>
    var sendMsg: seq<BaseMessage>
    var frameCounter: u32
    var frameRecords: seq<FrameInput<BaseMessage>>
    var roleIds: seq<i32>
    var outbox: seq<Queued<BaseMessage>>  // pushes to the send dispatcher
    ghost var known: set<BaseMessage>     // the control messages accepted so far

    ghost predicate Valid()
      reads this, known
    {
      && (forall m :: m in known ==> m.body.Control?)
      && (forall m :: m in controlMsg + sendMsg ==> m in known)
    }

    /** The ticks the messages hold now. */
    ghost function Ticks(): map<BaseMessage, u32>
      reads this`known, known
    {
      map m | m in known :: TickOf(m)
    }

    ghost function Model(): State<BaseMessage>
      reads this, known
    {
      State(controlMsg, sendMsg, frameCounter, frameRecords, roleIds, outbox, Ticks())
    }

    constructor ()
      ensures Valid() && Model() == Initial() && known == {}
    {
      controlMsg, sendMsg, frameCounter, frameRecords := [], [], 1, [];
      roleIds, outbox, known := [], [], {};
    }

    method Ping(roleId: i32, msg: BaseMessage)
      requires Valid()
      modifies this`outbox
      ensures Valid() && Model() == Step(old(Model()), FrameSync.Ping(roleId, msg))
    {
      outbox := outbox + [Queued(roleId, Pong(msg))];
    }

    method Control(roleId: i32, msg: BaseMessage)
      requires Valid() && msg.body.Control?
      modifies this`controlMsg, this`known
      ensures Valid() && known == old(known) + {msg}
      ensures Model() == Step(old(Model()), FrameSync.Control(msg, msg.body.tick))
    {
      controlMsg := controlMsg + [msg];
      known := known + {msg};
    }

    method EnterRoom(roleId: i32, msg: BaseMessage, now: u64)
      requires Valid() && msg.body.EnterRoom?
      modifies this`roleIds, this`frameCounter, this`outbox, msg`body
      ensures Valid() && msg.body == old(msg.body).(result := 0)
      ensures Model() == Step(old(Model()), FrameSync.EnterRoom(roleId, msg, now))
    {
      hide Broadcast, Replay, Flat;
      msg.body := msg.body.(result := 0);
      roleIds := roleIds + [roleId];
      ghost var before := outbox;
      if roleId == 2 {
        frameCounter := 0;
        SendMessageByRoleIds(roleIds, GameStartPacket(now));
      }
      if roleId == 3 {
        outbox := outbox + [Queued(roleId, GameStartPacket(now))];
        RePlay(roleId);
        Assoc(before, [Queued(roleId, GameStartPacket(now))], Replay(Flat(frameRecords), roleId));
      }
      assert before + [] == before;
      outbox := outbox + [Queued(roleId, EnterReply(msg))];
    }

    method OnRoleDisconnect(roleId: i32)
      requires Valid()
      modifies this`roleIds
      ensures Valid() && Model() == Step(old(Model()), Disconnect(roleId))
    {
      var i := 0;
      while i < |roleIds| && roleIds[i] != roleId
        invariant i <= |roleIds| && forall j :: 0 <= j < i ==> roleIds[j] != roleId
      {
        i := i + 1;
      }
      RemoveFirstAt(roleIds, roleId, i);
      if i < |roleIds| {
        roleIds := roleIds[..i] + roleIds[i + 1..];
      }
    }

    method SendMessageByRoleIds(roles: seq<i32>, p: Packet<BaseMessage>)
      modifies this`outbox
      ensures outbox == old(outbox) + Broadcast(p, roles)
    {
      var i := 0;
      assert outbox + [] == outbox;
      while i < |roles|
        invariant i <= |roles|
        invariant outbox + Broadcast(p, roles[i..]) == old(outbox) + Broadcast(p, roles)
      {
        Assoc(outbox, [Queued(roles[i], p)], Broadcast(p, roles[i + 1..]));
        assert roles[i..][1..] == roles[i + 1..];
        outbox := outbox + [Queued(roles[i], p)];
        i := i + 1;
      }
      assert outbox + [] == outbox;
    }

    /** The frame is recorded first and its messages are stamped afterwards, through the references that the
        record holds too. */
    method Update()
      requires Valid() && sendMsg == []
      modifies this`controlMsg, this`sendMsg, this`frameCounter, this`frameRecords, this`outbox, known
      ensures Valid() && Model() == Step(old(Model()), FrameSync.Update)
      ensures forall m :: m in known ==> m.body.direction == old(m.body.direction)
      ensures known == old(known)
    {
      hide Ticks, BroadcastAll, Broadcast, Stamp;
      frameCounter := (frameCounter + 1) % U32_MODULUS;
      sendMsg, controlMsg := controlMsg, sendMsg;
      frameRecords := frameRecords + [FrameInput(frameCounter, sendMsg)];
      SendStamped();
      sendMsg := [];
    }

    /** The loop of Update. */
    method SendStamped()
      requires Valid()
      modifies this`outbox, known
      ensures Valid() && outbox == old(outbox) + BroadcastAll(sendMsg, roleIds)
      ensures Ticks() == Stamp(old(Ticks()), sendMsg, frameCounter)
      ensures forall m :: m in known ==> m.body.direction == old(m.body.direction)
    {
      hide Broadcast;
      var i := 0;
      ghost var sent := outbox;
      assert outbox + BroadcastAll(sendMsg, roleIds) == sent + BroadcastAll(sendMsg, roleIds);
      while i < |sendMsg|
        invariant i <= |sendMsg| && Valid()
        invariant sendMsg == old(sendMsg) && roleIds == old(roleIds) && frameCounter == old(frameCounter)
        invariant controlMsg == old(controlMsg) && known == old(known)
        invariant outbox + BroadcastAll(sendMsg[i..], roleIds) == sent + BroadcastAll(sendMsg, roleIds)
        invariant forall m :: m in known ==> TickOf(m) == if m in sendMsg[..i] then frameCounter else old(TickOf(m))
        invariant forall m :: m in known ==> m.body.direction == old(m.body.direction)
      {
        var msg := sendMsg[i];
        assert msg in known;
        msg.body := msg.body.(tick := frameCounter);
        Assoc(outbox, Broadcast(ControlPacket(msg), roleIds), BroadcastAll(sendMsg[i + 1..], roleIds));
        assert sendMsg[i..][1..] == sendMsg[i + 1..];
        SendMessageByRoleIds(roleIds, ControlPacket(msg));
        assert sendMsg[..i + 1] == sendMsg[..i] + [msg];
        i := i + 1;
      }
      assert sendMsg[..i] == sendMsg;
      assert outbox + [] == outbox;
    }

    method RePlay(roleId: i32)
      modifies this`outbox
      ensures outbox == old(outbox) + Replay(Flat(frameRecords), roleId)
    {
      var i := 0;
      while i < |frameRecords|
        invariant i <= |frameRecords|
        invariant outbox + Replay(Flat(frameRecords[i..]), roleId) == old(outbox) + Replay(Flat(frameRecords), roleId)
      {
        var msgs := frameRecords[i].msgs;
        ghost var later := Flat(frameRecords[i + 1..]);
        assert frameRecords[i..][1..] == frameRecords[i + 1..];
        var j := 0;
        while j < |msgs|
          invariant j <= |msgs|
          invariant outbox + Replay(msgs[j..] + later, roleId) == old(outbox) + Replay(Flat(frameRecords), roleId)
        {
          assert (msgs[j..] + later)[1..] == msgs[j + 1..] + later;
          Assoc(outbox, [Queued(roleId, ControlPacket(msgs[j]))], Replay(msgs[j + 1..] + later, roleId));
          outbox := outbox + [Queued(roleId, ControlPacket(msgs[j]))];
          j := j + 1;
        }
        assert msgs[j..] + later == later;
        i := i + 1;
      }
      assert outbox + [] == outbox;
    }
  }
}
