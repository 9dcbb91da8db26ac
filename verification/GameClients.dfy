/** The callbacks of GameClient/GameClient.cpp and GameClient/GameController.cpp: what a client becomes as its one
    dispatcher thread goes through the received messages. */
module GameClients {
  import opened Bytes
  import opened Sequences
  import Codec
  import L = Lockstep
  import D = DispatchSteps
  import SyncReplies

  /** Terminated: the promise of the game start was set a second time, and the exception left the thread. */
  datatype Client = Playing(started: bool, arrived: seq<L.Input>) | Terminated

  function Handle(c: Client, item: D.Item<Codec.Message>): Client {
    if c.Terminated? || item.msg.header.uniqueId != 0 then c  // a reply goes to its own promise
    else
      match item.msg.body
      case Control(tick, direction) => c.(arrived := c.arrived + [L.Input(item.id, tick, direction)])
      case GameStart(_) => if c.started then Terminated else c.(started := true)
      case _ => c
  }

  function HandleAll(c: Client, items: seq<D.Item<Codec.Message>>): Client
    decreases |items|
  {
    if items == [] then c else HandleAll(Handle(c, items[0]), items[1..])
  }

  /** The inputs among the messages that callbacks get. */
  function ControlInputs(items: seq<D.Item<Codec.Message>>): seq<L.Input> {
    if items == [] then [] else InputOf(items[0]) + ControlInputs(items[1..])
  }

  function InputOf(item: D.Item<Codec.Message>): seq<L.Input> {
    var Message(header, body) := item.msg;
    if body.Control? && header.uniqueId == 0 then [L.Input(item.id, body.tick, body.direction)] else []
  }

  /** The game starts among them. */
  function Starts(items: seq<D.Item<Codec.Message>>): nat {
    if items == [] then 0
    else (if items[0].msg.body.GameStart? && items[0].msg.header.uniqueId == 0 then 1 else 0) + Starts(items[1..])
  }

  /** A client survives exactly as long as it is told at most once that the game starts; until then every input has
      reached its deque in order. */
  lemma {:induction false} HandledAll(c: Client, items: seq<D.Item<Codec.Message>>)
    requires c.Playing?
    ensures var starts := (if c.started then 1 else 0) + Starts(items);
            HandleAll(c, items) ==
            if starts >= 2 then Terminated else Playing(starts == 1, c.arrived + ControlInputs(items))
    decreases |items|
  {
    if items == [] {
      assert c.arrived + [] == c.arrived;
    } else {
      var d := Handle(c, items[0]);
      Assoc(c.arrived, InputOf(items[0]), ControlInputs(items[1..]));
      assert d.Playing? ==> d.arrived == c.arrived + InputOf(items[0]);
      if d.Playing? {
        HandledAll(d, items[1..]);
      } else {
        StaysTerminated(items[1..]);
      }
    }
  }

  lemma {:induction false} StaysTerminated(items: seq<D.Item<Codec.Message>>)
    ensures HandleAll(Terminated, items) == Terminated
  {
    if items != [] {
      StaysTerminated(items[1..]);
    }
  }

  lemma {:induction false} SeenSoFar(a: seq<D.Item<Codec.Message>>, b: seq<D.Item<Codec.Message>>)
    requires a <= b
    ensures ControlInputs(a) <= ControlInputs(b) && Starts(a) <= Starts(b)
  {
    if a != [] {
      SeenSoFar(a[1..], b[1..]);
    }
  }

  // Replies to synchronous requests.

  /** The messages that go to promises, as events of the table of promises. */
  function RepliesOf(items: seq<D.Item<Codec.Message>>): seq<SyncReplies.Event<Codec.Message>> {
    if items == [] then []
    else
      var id := items[0].msg.header.uniqueId;
      (if id != 0 then [SyncReplies.Reply(id, items[0].msg)] else []) + RepliesOf(items[1..])
  }

  function Asynchronous(items: seq<D.Item<Codec.Message>>): seq<D.Item<Codec.Message>> {
    if items == [] then []
    else (if items[0].msg.header.uniqueId == 0 then [items[0]] else []) + Asynchronous(items[1..])
  }

  /** Replies never reach the callbacks, whatever their class. */
  lemma {:induction false} RepliesPassCallbacksBy(c: Client, items: seq<D.Item<Codec.Message>>)
    ensures HandleAll(c, items) == HandleAll(c, Asynchronous(items))
    decreases |items|
  {
    if items != [] {
      RepliesPassCallbacksBy(Handle(c, items[0]), items[1..]);
      if items[0].msg.header.uniqueId == 0 {
        assert Asynchronous(items)[1..] == Asynchronous(items[1..]);
      } else {
        assert Handle(c, items[0]) == c;
        assert Asynchronous(items) == Asynchronous(items[1..]);
      }
    }
  }

  /** The first request of a client is answered by the first reply that carries id 1. */
  lemma FirstRequestIsAnswered(role: i32, items: seq<D.Item<Codec.Message>>)
    ensures var es := [SyncReplies.Request(role)] + RepliesOf(items);
            SyncReplies.Run(SyncReplies.Empty<Codec.Message>(), es).futures ==
            [SyncReplies.FirstReply(RepliesOf(items), 1)]
  {
    hide SyncReplies.Run, SyncReplies.FirstReply;
    var es := [SyncReplies.Request(role)] + RepliesOf(items);
    OnlyReplies(items);
    assert es[1..] == RepliesOf(items);
    SyncReplies.RepliesMatchRequests(es, role);
    assert SyncReplies.After(es, 0) == RepliesOf(items);
  }

  lemma {:induction false} OnlyReplies(items: seq<D.Item<Codec.Message>>)
    ensures SyncReplies.Requests(RepliesOf(items)) == 0 && forall e :: e in RepliesOf(items) ==> e.Reply?
  {
    if items != [] {
      OnlyReplies(items[1..]);
      assert RepliesOf(items) == RepliesOf(items[1..]) || RepliesOf(items)[1..] == RepliesOf(items[1..]);
    }
  }
}
