/** Network/MsgDispatcher.*, Network/MsgThread.h and Utils/ThreadSafeQueue.h as objects. Each method is one
    atomic step of DispatchSteps or SyncReplies. */
module Dispatcher {
  import opened Bytes
  import opened Codec
  import opened Messages
  import opened DispatchSteps
  import SyncReplies

  class ThreadSafeQueue<T> {
    var deque: seq<T>

    constructor ()
      ensures deque == []
    {
      deque := [];
    }

    method Push(t: T)
      modifies this
      ensures deque == old(deque) + [t]
    {
      deque := deque + [t];
    }

    /** Without a timeout the caller stays blocked until there is an element. */
    method TryPop(timedOut: bool) returns (t: Option<T>)
      requires timedOut || deque != []
      modifies this
      ensures timedOut ==> t == None && deque == old(deque)
      ensures !timedOut ==> t == Some(old(deque)[0]) && deque == old(deque)[1..]
    {
      if timedOut {
        return None;
      }
      t := Some(deque[0]);
      deque := deque[1..];
    }
  }

  class MsgThread<M> {
    const msgQueue: ThreadSafeQueue<Item<M>>
    var pc: Pc<M>

    constructor ()
      ensures fresh(msgQueue) && Value() == Thread([], Testing)
    {
      msgQueue := new ThreadSafeQueue<Item<M>>();
      pc := Testing;
    }

    function Value(): Thread<M>
      reads this, msgQueue
    {
      Thread(msgQueue.deque, pc)
    }
  }

  /** Which callback a dispatched message went to. */
  datatype Handler = Registered(messageType: byte) | DefaultCallback | Promise

  class MsgDispatcher {
    const threadNum: nat
    const enableSync: bool
    var started: bool
    var msgThreads: seq<MsgThread<BaseMessage>>
    var msgCallbacks: set<byte>                            // the types that have a callback
    var messageIdMap: map<i32, u32>
    var messagePromise: map<u32, nat>
    var futures: seq<Option<BaseMessage>>
    var handled: seq<Handler>                              // the callbacks made, in order
    ghost var pushers: map<nat, Item<BaseMessage>>         // pushes between their two steps
    ghost var accepted: seq<Item<BaseMessage>>
    ghost var dispatched: seq<Item<BaseMessage>>

    ghost predicate Valid()
      reads this, msgThreads
    {
      && threadNum > 0
      && (started || pushers != map[] ==> |msgThreads| == threadNum)
      && (forall i, j :: 0 <= i < j < |msgThreads| ==>
            msgThreads[i] != msgThreads[j] && msgThreads[i].msgQueue != msgThreads[j].msgQueue)
      && SyncReplies.WellFormed(Sync())
    }

    ghost function Queues(): set<object>
      reads this
    {
      set t | t in msgThreads :: t.msgQueue
    }

    ghost function Model(): (s: State<BaseMessage>)
      reads this, msgThreads, Queues()
      ensures |s.threads| == |msgThreads|
    {
      State(started,
            seq(|msgThreads|, i requires 0 <= i < |msgThreads| reads this, msgThreads, Queues() =>
                  msgThreads[i].Value()),
            pushers, accepted, dispatched)
    }

    ghost function Sync(): SyncReplies.SyncState<BaseMessage>
      reads this
    {
      SyncReplies.SyncState(messageIdMap, messagePromise, futures)
    }

    constructor (threadNum: nat, enableSync: bool)
      requires threadNum > 0
      ensures Valid() && !started && msgThreads == [] && this.threadNum == threadNum && this.enableSync == enableSync
      ensures Sync() == SyncReplies.Empty() && msgCallbacks == {} && handled == []
      ensures pushers == map[] && accepted == dispatched == []
    {
      this.threadNum, this.enableSync := threadNum, enableSync;
      started, msgThreads, msgCallbacks := false, [], {};
      messageIdMap, messagePromise, futures, handled := map[], map[], [], [];
      pushers, accepted, dispatched := map[], [], [];
    }

    method Start() returns (ok: bool)
      requires Valid() && msgThreads == [] && pushers == map[] && accepted == [] && dispatched == []
      modifies this`started, this`msgThreads
      ensures Valid() && ok == !old(started)
      ensures ok ==> Model() == Started(threadNum) && forall t :: t in msgThreads ==> fresh(t) && fresh(t.msgQueue)
    {
      if started {
        return false;
      }
      started := true;
      for i := 0 to threadNum
        invariant |msgThreads| == i && started
        invariant forall i, j :: 0 <= i < j < |msgThreads| ==>
                    msgThreads[i] != msgThreads[j] && msgThreads[i].msgQueue != msgThreads[j].msgQueue
        invariant forall t :: t in msgThreads ==> fresh(t) && fresh(t.msgQueue) && t.Value() == Thread([], Testing)
      {
        var t := new MsgThread<BaseMessage>();
        msgThreads := msgThreads + [t];
      }
      ok := true;
    }

    method SetMsgCallback(messageType: byte)
      requires Valid() && TYPE_MIN < messageType < TYPE_MAX
      modifies this`msgCallbacks
      ensures Valid() && msgCallbacks == old(msgCallbacks) + {messageType}
    {
      msgCallbacks := msgCallbacks + {messageType};
    }

    /** The tests of Push; None is a null message. */
    method PushTest(ghost pusher: nat, dispatchId: i32, msg: Option<BaseMessage>) returns (goesOn: bool)
      requires Valid() && pusher !in pushers
      modifies this`pushers
      ensures Valid() && goesOn == (started && msg.Some?)
      ensures if |msgThreads| > 0 then Model() == Next(old(Model()), TestPush(pusher, dispatchId, msg))
              else Model() == old(Model())
    {
      if msg.None? || !started {
        return false;
      }
      pushers := pushers[pusher := Item(dispatchId, msg.value)];
      goesOn := true;
    }

    /** The rest of Push, whatever the flag is by then. */
    method PushToThread(ghost pusher: nat, dispatchId: i32, msg: BaseMessage)
      requires Valid() && pusher in pushers && pushers[pusher] == Item(dispatchId, msg)
      modifies this`accepted, this`pushers, Queues()
      ensures Valid() && |msgThreads| > 0 && Model() == Next(old(Model()), Enqueue(pusher))
    {
      var i := Shard(dispatchId, threadNum);
      assert msgThreads[i] in msgThreads;
      msgThreads[i].msgQueue.Push(Item(dispatchId, msg));
      pushers, accepted := pushers - {pusher}, accepted + [Item(dispatchId, msg)];
    }

    /** A push that nothing overtakes. */
    method Push(ghost pusher: nat, dispatchId: i32, msg: Option<BaseMessage>)
      requires Valid() && pusher !in pushers
      modifies this`accepted, this`pushers, Queues()
      ensures Valid() && pushers == old(pushers)
      ensures accepted == old(accepted) + if started && msg.Some? then [Item(dispatchId, msg.value)] else []
      ensures forall i :: 0 <= i < |msgThreads| ==>
                msgThreads[i].msgQueue.deque ==
                old(msgThreads[i].msgQueue.deque) +
                  if started && msg.Some? && i == Shard(dispatchId, threadNum) then [Item(dispatchId, msg.value)]
                  else []
    {
      ghost var before := Model();
      var goesOn := PushTest(pusher, dispatchId, msg);
      if goesOn {
        PushToThread(pusher, dispatchId, msg.value);
        assert pushers == old(pushers);
        forall i | 0 <= i < |msgThreads|
          ensures msgThreads[i].msgQueue.deque == Model().threads[i].queue
          ensures old(msgThreads[i].msgQueue.deque) == before.threads[i].queue
        {
        }
      }
    }

    method Stop()
      requires Valid() && |msgThreads| > 0
      modifies this`started
      ensures Valid() && Model() == Next(old(Model()), Step.Stop)
    {
      started := false;
    }

    /** The loop test of Running. */
    method RunTest(i: nat)
      requires Valid() && i < |msgThreads| && Enabled(Model(), Test(i))
      modifies msgThreads
      ensures Valid() && Model() == Next(old(Model()), Test(i))
    {
      msgThreads[i].pc := if started then Popping else Exited;
    }

    /** The TryPop of Running. */
    method RunTryPop(i: nat, timedOut: bool)
      requires Valid() && i < |msgThreads| && Enabled(Model(), if timedOut then PopTimeout(i) else TryPop(i))
      modifies msgThreads, Queues()
      ensures Valid() && Model() == Next(old(Model()), if timedOut then PopTimeout(i) else TryPop(i))
    {
      var thread := msgThreads[i];
      var t := thread.msgQueue.TryPop(timedOut);
      thread.pc := if t.None? then Testing else Holding(t.value);
    }

    /** The dispatch call of Running. */
    method RunCallBack(i: nat)
      requires Valid() && i < |msgThreads| && Enabled(Model(), CallBack(i))
      modifies msgThreads, this`handled, this`messagePromise, this`futures, this`dispatched
      ensures Valid() && Model() == Next(old(Model()), CallBack(i))
      ensures var m := old(msgThreads[i].pc.item.msg);
              && handled == old(handled) + [HandlerFor(m)]
              && Sync() == if HandlerFor(m) == Promise
                           then SyncReplies.Apply(old(Sync()), SyncReplies.Reply(m.uniqueId, m))
                           else old(Sync())
    {
      var item := msgThreads[i].pc.item;
      Dispatch(item);
      dispatched := dispatched + [item];
      msgThreads[i].pc := Testing;
    }

    function HandlerFor(m: BaseMessage): Handler
      reads this, m
    {
      if enableSync && m.uniqueId != SyncReplies.ASYNC_MESSAGE_UNIQUE_ID then Promise
      else if m.messageType in msgCallbacks then Registered(m.messageType)
      else DefaultCallback
    }

    method Dispatch(item: Item<BaseMessage>)
      requires Valid()
      modifies this`handled, this`messagePromise, this`futures
      ensures Valid() && handled == old(handled) + [HandlerFor(item.msg)]
      ensures Sync() == if HandlerFor(item.msg) == Promise
                        then SyncReplies.Apply(old(Sync()), SyncReplies.Reply(item.msg.uniqueId, item.msg))
                        else old(Sync())
    {
      var uniqueId := item.msg.uniqueId;
      if !enableSync || uniqueId == SyncReplies.ASYNC_MESSAGE_UNIQUE_ID {
        if item.msg.messageType in msgCallbacks {
          handled := handled + [Registered(item.msg.messageType)];
        } else {
          handled := handled + [DefaultCallback];
        }
      } else {
        handled := handled + [Promise];
        // A promise made here for an unknown id is set and thrown away again.
        if uniqueId in messagePromise {
          futures := futures[messagePromise[uniqueId] := Some(item.msg)];
        }
        messagePromise := messagePromise - {uniqueId};
      }
    }

    /** None is the error of a second future for the same promise. */
    method SetSyncMessageId(roleId: i32, message: BaseMessage) returns (future: Option<nat>)
      requires Valid()
      modifies this`messageIdMap, this`messagePromise, this`futures, message`uniqueId
      ensures Valid() && Sync() == SyncReplies.Apply(old(Sync()), SyncReplies.Request(roleId))
      ensures message.uniqueId == SyncReplies.NextId(old(Sync()), roleId)
      ensures future == if SyncReplies.Collides(old(Sync()), roleId) then None else Some(|old(futures)|)
    {
      var last := if roleId in messageIdMap then messageIdMap[roleId] else 0;
      var uniqueId := (last + 1) % U32_MODULUS;
      messageIdMap := messageIdMap[roleId := uniqueId];
      message.uniqueId := uniqueId;
      if uniqueId in messagePromise {
        return None;
      }
      messagePromise := messagePromise[uniqueId := |futures|];
      future := Some(|futures|);
      futures := futures + [None];
    }
  }

  /** Which messages of which dispatcher go where: replies to promises only where synchronous requests are made, which a
      server does not; every other message to the callback of its type, or to the default one. */
  lemma HandlerIs(d: MsgDispatcher, m: BaseMessage)
    ensures d.HandlerFor(m) == Promise <==> d.enableSync && m.uniqueId != 0
    ensures forall t :: d.HandlerFor(m) == Registered(t) <==>
                        (d.enableSync ==> m.uniqueId == 0) && t == m.messageType && t in d.msgCallbacks
    ensures d.HandlerFor(m) == DefaultCallback <==>
            (d.enableSync ==> m.uniqueId == 0) && m.messageType !in d.msgCallbacks
  {
  }
}
