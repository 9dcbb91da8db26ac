/** The whole way of an input, from the server's record over the send dispatcher, the wire and the client's dispatcher
    to its release: when every player sees the same game. */
module SharedGame {
  import opened Bytes
  import opened Sequences
  import Codec
  import F = FrameSync
  import L = Lockstep
  import D = DispatchSteps
  import E = EndToEnd
  import opened GameClients
  import opened RoomView
  import SyncReplies
  import Delivery

  function TickOf<M>(s: F.State<M>, m: M): u32 {
    if m in s.ticks then s.ticks[m] else 0
  }

  /** What a client makes of a control message; base is the value the message had when it was accepted. */
  function InputFor<M>(s: F.State<M>, base: M -> Codec.Message, m: M): L.Input {
    L.Input(base(m).header.roleId, TickOf(s, m), if base(m).body.Control? then base(m).body.direction else 0)
  }

  function InputsOf<M>(s: F.State<M>, base: M -> Codec.Message, msgs: seq<M>): (q: seq<L.Input>)
    ensures |q| == |msgs|
  {
    seq(|msgs|, i requires 0 <= i < |msgs| => InputFor(s, base, msgs[i]))
  }

  lemma TickOrderIsFrameOrder<M>(s: F.State<M>, base: M -> Codec.Message)
    requires F.Stamped(s)
    ensures F.InTickOrder(s) <==> L.InFrameOrder(InputsOf(s, base, F.Flat(s.records)))
  {
    F.NumbersAreTicks(s.records, s.ticks);
    var all, q := F.Flat(s.records), InputsOf(s, base, F.Flat(s.records));
    assert forall i :: 0 <= i < |all| ==> q[i].logicFrame == s.ticks[all[i]];
  }

  /** Frame f recorded message x. */
  ghost predicate RecordedIn<M>(s: F.State<M>, x: M, f: u32) {
    exists r :: r in s.records && x in r.msgs && r.frameNumber == f
  }

  lemma {:induction false} FlatIsRecorded<M>(records: seq<F.FrameInput<M>>, i: nat) returns (r: F.FrameInput<M>)
    requires i < |F.Flat(records)|
    ensures r in records && F.Flat(records)[i] in r.msgs
  {
    if i < |records[0].msgs| {
      r := records[0];
    } else {
      r := FlatIsRecorded(records[1..], i - |records[0].msgs|);
    }
  }

  /** What the inputs of the record are: the sender's role id and direction, and the frame that recorded the message. */
  lemma RecordedInputs<M>(s: F.State<M>, base: M -> Codec.Message, i: nat)
    requires F.Stamped(s) && i < |F.Flat(s.records)| && base(F.Flat(s.records)[i]).body.Control?
    ensures var x, q := F.Flat(s.records)[i], InputsOf(s, base, F.Flat(s.records))[i];
            && q.playerId == base(x).header.roleId && q.direction == base(x).body.direction
            && forall f: u32 :: RecordedIn(s, x, f) <==> f == q.logicFrame
  {
    var r := FlatIsRecorded(s.records, i);
    assert RecordedIn(s, F.Flat(s.records)[i], r.frameNumber);
  }

  // What the server has queued for one player.

  lemma AllDueAtTheEnd(q: seq<L.Input>)
    ensures L.Released(U32_MODULUS - 1, q) == L.Filter(U32_MODULUS - 1, q) == q
  {
    L.DueCountAfter(U32_MODULUS - 1, q, []);
    assert q + [] == q;
    L.ReleasesAllDueIff(U32_MODULUS - 1, q);
  }

  /** A role joins in state s and stays. What was queued to it makes every pop, at any frame, release exactly the
      recorded inputs up to that frame if and only if it is role 3 or joined before anything was recorded, and the
      numbers of the frames that recorded something never fell. */
  lemma SeesTheGameIff<M>(s: F.State<M>, r: i32, m: M, now: u64, after: seq<F.Event<M>>, base: M -> Codec.Message)
    requires F.Stamped(s) && F.NewObjects(s, after)
    requires F.Count(s.roles, r) == 0 && F.ControlsTo(s.outbox, r) == [] && F.Stays(after, r)
    ensures var joined := F.EnterStep(s, r, m, now); var t := F.Run(joined, after);
            (forall frame: u32 :: L.Released(frame, InputsOf(t, base, F.ControlsTo(t.outbox, r))) ==
                                  L.Filter(frame, InputsOf(t, base, F.Flat(t.records)))) <==>
            && (r == F.REPLAY_ROLE || F.Flat(s.records) == [])
            && F.InTickOrder(s)
            && F.KeepsOrder(joined.counter, F.LastOf(F.Numbers(s.records)), s.pending != [], after)
  {
    hide F.Run, F.Flat, F.ControlsTo, F.Stamped, F.NewObjects, F.Numbers, F.KeepsOrder, F.InTickOrder;
    hide L.Released, L.Filter;
    var joined := F.EnterStep(s, r, m, now);
    var t := F.Run(joined, after);
    F.EnterStamps(s, r, m, now, after);
    F.RecordedTicks(joined, after);
    F.RecordInTickOrderIff(joined, after);
    SameOrder(s, joined);
    TickOrderIsFrameOrder(t, base);
    L.OrderMattersIff(InputsOf(t, base, F.Flat(t.records)));
    F.JoinerIsQueued(s, r, m, now, after);
    F.JoinerMissesNothingIff(s, r, m, now, after);
    var sent, all := InputsOf(t, base, F.ControlsTo(t.outbox, r)), InputsOf(t, base, F.Flat(t.records));
    if forall frame: u32 :: L.Released(frame, sent) == L.Filter(frame, all) {
      AllDueAtTheEnd(sent);
      AllDueAtTheEnd(all);
      assert |F.ControlsTo(t.outbox, r)| == |F.Flat(t.records)|;
    }
  }

  lemma SameOrder<M>(s: F.State<M>, t: F.State<M>)
    requires s.records == t.records && s.ticks == t.ticks
    ensures F.InTickOrder(s) <==> F.InTickOrder(t)
  {
  }

  /** The shortest run that goes wrong: role 2 enters after something was recorded. A client that has every message
      releases nothing at frame 1, although an input of frame 1 is in the record. */
  lemma RestartHoldsInputsBack<M>(a: M, b: M, m: M, now: u64, base: M -> Codec.Message)
    requires a != b
    ensures var es := [F.Control(a, 0), F.Update, F.EnterRoom(F.START_ROLE, m, now), F.Control(b, 0), F.Update];
            var t := F.Run(F.Initial(), es); var q := InputsOf(t, base, F.Flat(t.records));
            L.Released(1, q) == [] && L.Filter(1, q) == [InputFor(t, base, b)]
  {
    hide F.Run, F.Flat;
    F.RestartBreaksOrder(a, b, m, now);
    var es := [F.Control(a, 0), F.Update, F.EnterRoom(F.START_ROLE, m, now), F.Control(b, 0), F.Update];
    var t := F.Run(F.Initial(), es);
    var q := InputsOf(t, base, [a, b]);
    assert q[0].logicFrame == 2 && q[1].logicFrame == 1;
    assert q[1..] == [q[1]] && q[1..][1..] == [];
    assert L.Filter(1, q[1..]) == [q[1]] + L.Filter(1, q[1..][1..]);
  }

  // From the outbox to the connection of a role.

  function ItemsOf<M>(outbox: seq<F.Queued<M>>): (r: seq<D.Item<F.Packet<M>>>)
    ensures |r| == |outbox|
  {
    seq(|outbox|, i requires 0 <= i < |outbox| => D.Item(outbox[i].role, outbox[i].packet))
  }

  lemma {:induction false} PacketsOfRole<M>(outbox: seq<F.Queued<M>>, role: i32)
    ensures D.OfRole(ItemsOf(outbox), role) == PacketsTo(outbox, role)
  {
    if outbox != [] {
      var first := D.Item(outbox[0].role, outbox[0].packet);
      assert ItemsOf(outbox) == [first] + ItemsOf(outbox[1..]);
      D.OfRoleOne(first, role);
      D.OfRoleAppend([first], ItemsOf(outbox[1..]), role);
      PacketsOfRole(outbox[1..], role);
    }
  }

  /** The control messages among the packets sent to one role. */
  function Controls<M>(packets: seq<F.Packet<M>>): seq<M> {
    if packets == [] then []
    else (if packets[0].ControlPacket? then [packets[0].msg] else []) + Controls(packets[1..])
  }

  lemma {:induction false} ControlsAppend<M>(a: seq<F.Packet<M>>, b: seq<F.Packet<M>>)
    ensures Controls(a + b) == Controls(a) + Controls(b)
  {
    if a == [] {
      assert a + b == b;
    } else {
      ControlsAppend(a[1..], b);
      assert (a + b)[1..] == a[1..] + b;
      Assoc(if a[0].ControlPacket? then [a[0].msg] else [], Controls(a[1..]), Controls(b));
    }
  }

  lemma {:induction false} ControlsOfRole<M>(outbox: seq<F.Queued<M>>, role: i32)
    ensures Controls(D.OfRole(ItemsOf(outbox), role)) == F.ControlsTo(outbox, role)
  {
    if outbox != [] {
      var first := D.Item(outbox[0].role, outbox[0].packet);
      assert ItemsOf(outbox) == [first] + ItemsOf(outbox[1..]);
      var mine := if first.id == role then [first.msg] else [];
      D.OfRoleOne(first, role);
      D.OfRoleAppend([first], ItemsOf(outbox[1..]), role);
      ControlsOfRole(outbox[1..], role);
      hide D.OfRole;
      ControlsAppend(mine, D.OfRole(ItemsOf(outbox[1..]), role));
      assert mine != [] ==> mine[1..] == [];
    }
  }

  /** In any interleaving of pushes and send threads, a role is sent the packets queued to it in their order. */
  lemma SentIsPrefix<M>(outbox: seq<F.Queued<M>>, threads: nat, steps: seq<D.Step<F.Packet<M>>>, role: i32)
    requires threads > 0 && D.Possible(D.Started<F.Packet<M>>(threads), steps)
    requires D.Run(D.Started<F.Packet<M>>(threads), steps).accepted <= ItemsOf(outbox)
    ensures D.OfRole(D.Run(D.Started<F.Packet<M>>(threads), steps).dispatched, role) <= D.OfRole(ItemsOf(outbox), role)
  {
    hide D.OfRole, D.Run, D.Possible;
    var t := D.Run(D.Started<F.Packet<M>>(threads), steps);
    D.RoleOrder(threads, steps, role);
    var all := ItemsOf(outbox);
    assert all == t.accepted + all[|t.accepted|..];
    D.OfRoleAppend(t.accepted, all[|t.accepted|..], role);
    E.PrefixTrans(D.OfRole(t.dispatched, role), D.OfRole(t.accepted, role), D.OfRole(all, role));
  }

  /** The control messages that reached the connection of a role are the first of those queued to it. */
  lemma SentControlsArePrefix<M>(outbox: seq<F.Queued<M>>, threads: nat, steps: seq<D.Step<F.Packet<M>>>, role: i32)
    requires threads > 0 && D.Possible(D.Started<F.Packet<M>>(threads), steps)
    requires D.Run(D.Started<F.Packet<M>>(threads), steps).accepted <= ItemsOf(outbox)
    ensures Controls(D.OfRole(D.Run(D.Started<F.Packet<M>>(threads), steps).dispatched, role)) <=
            F.ControlsTo(outbox, role)
  {
    hide D.OfRole, D.Run, D.Possible;
    SentIsPrefix(outbox, threads, steps, role);
    ControlsOfRole(outbox, role);
    var sent, all := D.OfRole(D.Run(D.Started<F.Packet<M>>(threads), steps).dispatched, role),
                     D.OfRole(ItemsOf(outbox), role);
    assert all == sent + all[|sent|..];
    ControlsAppend(sent, all[|sent|..]);
  }

  // From the connection of the server to the inputs of the client.

  /** What the default callback of the send dispatcher encodes: the message object as it is now. Its tick is stamped
      when it is recorded, and the result of an entry is set when it is handled. */
  function Encoded<M>(s: F.State<M>, base: M -> Codec.Message, p: F.Packet<M>): Codec.Message {
    match p
    case ControlPacket(m) =>
      var body := base(m).body;
      Codec.Message(base(m).header, if body.Control? then Codec.Control(TickOf(s, m), body.direction) else body)
    case EnterReply(m) =>
      var body := base(m).body;
      Codec.Message(base(m).header, if body.EnterRoom? then Codec.EnterRoom(body.roomId, 0) else body)
    case Pong(m) => base(m)
    case GameStartPacket(t) =>
      Codec.Message(Codec.Header(0, 0, 1, Codec.GAME_START), Codec.GameStart(t))
  }

  function AllEncoded<M>(s: F.State<M>, base: M -> Codec.Message, ps: seq<F.Packet<M>>): (r: seq<Codec.Message>)
    ensures |r| == |ps|
  {
    seq(|ps|, i requires 0 <= i < |ps| => Encoded(s, base, ps[i]))
  }

  /** The handlers are given messages of their class, and control messages are sent without waiting for a reply. */
  ghost predicate Proper<M>(base: M -> Codec.Message, p: F.Packet<M>) {
    match p
    case ControlPacket(m) => base(m).WellTyped() && base(m).body.Control? && base(m).header.uniqueId == 0
    case EnterReply(m) => base(m).WellTyped() && base(m).body.EnterRoom?
    case Pong(m) => base(m).WellTyped() && base(m).body.Ping?
    case GameStartPacket(_) => true
  }

  ghost predicate AllProper<M>(base: M -> Codec.Message, ps: seq<F.Packet<M>>) {
    forall p :: p in ps ==> Proper(base, p)
  }

  lemma ProperIsSendable<M>(s: F.State<M>, base: M -> Codec.Message, ps: seq<F.Packet<M>>)
    requires AllProper(base, ps)
    ensures E.Sendable(AllEncoded(s, base, ps))
  {
    forall x | x in AllEncoded(s, base, ps)
      ensures x.WellTyped() && x.body != Codec.NoBody
    {
      var i :| 0 <= i < |ps| && AllEncoded(s, base, ps)[i] == x;
      assert Proper(base, ps[i]);
    }
  }

  lemma {:induction false} ControlInputsOfEncoded<M>(s: F.State<M>, base: M -> Codec.Message, ps: seq<F.Packet<M>>)
    requires AllProper(base, ps)
    ensures ControlInputs(E.Items(AllEncoded(s, base, ps))) == InputsOf(s, base, Controls(ps))
  {
    if ps != [] {
      var items := E.Items(AllEncoded(s, base, ps));
      assert ps[0] in ps && Proper(base, ps[0]);
      assert AllEncoded(s, base, ps)[1..] == AllEncoded(s, base, ps[1..]);
      assert items[1..] == E.Items(AllEncoded(s, base, ps[1..]));
      ControlInputsOfEncoded(s, base, ps[1..]);
      var first := if ps[0].ControlPacket? then [ps[0].msg] else [];
      assert GameClients.InputOf(items[0]) == InputsOf(s, base, first);
      assert InputsOf(s, base, Controls(ps)) == InputsOf(s, base, first) + InputsOf(s, base, Controls(ps[1..]));
    }
  }

  lemma PrefixStaysProper<M>(base: M -> Codec.Message, a: seq<F.Packet<M>>, b: seq<F.Packet<M>>)
    requires a <= b && AllProper(base, b)
    ensures AllProper(base, a)
  {
    assert forall p :: p in a ==> p in b;
  }

  /** The way from the outbox of state t to the client of role r: pushes and send threads took the given steps, what
      they sent to r was encoded and written to its connection, and the client read some of it. */
  ghost predicate OnTheWay<M>(t: F.State<M>, base: M -> Codec.Message, r: i32,
                              threads: nat, steps: seq<D.Step<F.Packet<M>>>, es: seq<E.SystemStep>) {
    && threads > 0 && D.Possible(D.Started<F.Packet<M>>(threads), steps)
    && AllProper(base, D.OfRole(ItemsOf(t.outbox), r))
    && E.Possible(E.Begin(1), es, D.ShardIds(1, 0))
    && var done := D.Run(D.Started<F.Packet<M>>(threads), steps);
       && done.accepted <= ItemsOf(t.outbox)
       && E.Received(es) <= E.StreamOf(AllEncoded(t, base, D.OfRole(done.dispatched, r)))
  }

  /** The inputs and the game starts that reached the callbacks of the client, after its read turns and dispatches. */
  ghost function Arrived(es: seq<E.SystemStep>): seq<L.Input>
    requires E.Possible(E.Begin(1), es, D.ShardIds(1, 0))
  {
    ControlInputs(E.Run(E.Begin(1), es, D.ShardIds(1, 0)).dispatcher.dispatched)
  }

  ghost function StartsSeen(es: seq<E.SystemStep>): nat
    requires E.Possible(E.Begin(1), es, D.ShardIds(1, 0))
  {
    Starts(E.Run(E.Begin(1), es, D.ShardIds(1, 0)).dispatcher.dispatched)
  }

  /** What the client has become. */
  ghost function ClientOf(es: seq<E.SystemStep>): Client
    requires E.Possible(E.Begin(1), es, D.ShardIds(1, 0))
  {
    HandleAll(Playing(false, []), E.Run(E.Begin(1), es, D.ShardIds(1, 0)).dispatcher.dispatched)
  }

  lemma ClientIs(es: seq<E.SystemStep>)
    requires E.Possible(E.Begin(1), es, D.ShardIds(1, 0))
    ensures ClientOf(es) == if StartsSeen(es) >= 2 then Terminated else Playing(StartsSeen(es) == 1, Arrived(es))
  {
    hide E.Possible, E.Run, D.ShardIds;
    HandledAll(Playing(false, []), E.Run(E.Begin(1), es, D.ShardIds(1, 0)).dispatcher.dispatched);
    assert [] + Arrived(es) == Arrived(es);
  }

  /** The messages a client dispatched. */
  ghost function Seen(es: seq<E.SystemStep>): seq<D.Item<Codec.Message>>
    requires E.Possible(E.Begin(1), es, D.ShardIds(1, 0))
  {
    E.Run(E.Begin(1), es, D.ShardIds(1, 0)).dispatcher.dispatched
  }

  /** A dispatched message is what a queued packet stands for, field by field. */
  ghost predicate Brings<M>(s: F.State<M>, base: M -> Codec.Message, item: D.Item<Codec.Message>, p: F.Packet<M>) {
    match p
    case ControlPacket(m) =>
      && base(m).body.Control? && item.id == base(m).header.roleId && item.msg.header == base(m).header
      && item.msg.body == Codec.Control(TickOf(s, m), base(m).body.direction)
    case EnterReply(m) =>
      && base(m).body.EnterRoom? && item.id == base(m).header.roleId && item.msg.header == base(m).header
      && item.msg.body == Codec.EnterRoom(base(m).body.roomId, 0)
    case Pong(m) => item.id == base(m).header.roleId && item.msg == base(m)
    case GameStartPacket(t) => item.id == 0 && item.msg == Codec.Message(Codec.Header(0, 0, 1, 5), Codec.GameStart(t))
  }

  ghost predicate AllBring<M>(s: F.State<M>, base: M -> Codec.Message, items: seq<D.Item<Codec.Message>>,
                              ps: seq<F.Packet<M>>) {
    |items| <= |ps| && forall i :: 0 <= i < |items| ==> Brings(s, base, items[i], ps[i])
  }

  lemma EncodedBrings<M>(s: F.State<M>, base: M -> Codec.Message, ps: seq<F.Packet<M>>,
                         items: seq<D.Item<Codec.Message>>)
    requires AllProper(base, ps) && items <= E.Items(AllEncoded(s, base, ps))
    ensures AllBring(s, base, items, ps)
  {
    forall i | 0 <= i < |items|
      ensures Brings(s, base, items[i], ps[i])
    {
      assert ps[i] in ps;
      assert items[i] == E.Items(AllEncoded(s, base, ps))[i];
    }
  }

  function StartPackets<M>(packets: seq<F.Packet<M>>): nat {
    if packets == [] then 0 else (if packets[0].GameStartPacket? then 1 else 0) + StartPackets(packets[1..])
  }

  lemma {:induction false} StartPacketsOfRole<M>(outbox: seq<F.Queued<M>>, role: i32)
    ensures StartPackets(D.OfRole(ItemsOf(outbox), role)) == F.StartsTo(outbox, role)
  {
    if outbox != [] {
      var first, later := D.Item(outbox[0].role, outbox[0].packet), D.OfRole(ItemsOf(outbox[1..]), role);
      assert ItemsOf(outbox) == [first] + ItemsOf(outbox[1..]);
      D.OfRoleOne(first, role);
      D.OfRoleAppend([first], ItemsOf(outbox[1..]), role);
      StartPacketsOfRole(outbox[1..], role);
      hide D.OfRole;
      var mine := if first.id == role then [first.msg] else [];
      assert mine != [] ==> (mine + later)[1..] == later;
      assert [] + later == later;
    }
  }

  lemma {:induction false} StartsOfEncoded<M>(s: F.State<M>, base: M -> Codec.Message, ps: seq<F.Packet<M>>)
    requires AllProper(base, ps)
    ensures Starts(E.Items(AllEncoded(s, base, ps))) == StartPackets(ps)
  {
    if ps != [] {
      var items := E.Items(AllEncoded(s, base, ps));
      assert ps[0] in ps && Proper(base, ps[0]);
      assert AllEncoded(s, base, ps)[1..] == AllEncoded(s, base, ps[1..]);
      assert items[1..] == E.Items(AllEncoded(s, base, ps[1..]));
      StartsOfEncoded(s, base, ps[1..]);
    }
  }

  /** From the outbox of the server to the callbacks of a client of role r: whatever the interleaving of pushes and send
      threads, the chunking of the bytes into reads and the interleaving with the client's one dispatcher thread, no
      assertion fails and no message is null on the way. The messages dispatched bring the first of the packets queued,
      field by field, the inputs that have arrived are the first of those queued, and the client has terminated exactly
      if it was told twice that the game starts, which takes two such messages in its queue. */
  lemma ArrivalsArePrefix<M>(t: F.State<M>, base: M -> Codec.Message, r: i32,
                             threads: nat, steps: seq<D.Step<F.Packet<M>>>, es: seq<E.SystemStep>)
    requires OnTheWay(t, base, r, threads, steps, es)
    ensures !E.Run(E.Begin(1), es, D.ShardIds(1, 0)).failed
    ensures Arrived(es) <= InputsOf(t, base, F.ControlsTo(t.outbox, r))
    ensures StartsSeen(es) <= F.StartsTo(t.outbox, r)
    ensures AllBring(t, base, Seen(es), PacketsTo(t.outbox, r))
    ensures ClientOf(es) == if StartsSeen(es) >= 2 then Terminated else Playing(StartsSeen(es) == 1, Arrived(es))
  {
    hide D.OfRole, D.Run, D.Possible, E.Run, E.Possible, E.StreamOf, F.ControlsTo, E.Received, D.ShardIds;
    hide E.Sendable, Controls, ControlInputs, Starts, StartPackets, F.StartsTo, AllProper, Encoded;
    var sent, all := D.OfRole(D.Run(D.Started<F.Packet<M>>(threads), steps).dispatched, r),
                     D.OfRole(ItemsOf(t.outbox), r);
    SentIsPrefix(t.outbox, threads, steps, r);
    PrefixStaysProper(base, sent, all);
    ProperIsSendable(t, base, sent);
    E.OneThreadSeesAllInOrder(AllEncoded(t, base, sent), es);
    var seen := E.Run(E.Begin(1), es, D.ShardIds(1, 0)).dispatcher.dispatched;
    assert E.Items(AllEncoded(t, base, sent)) <= E.Items(AllEncoded(t, base, all));
    E.PrefixTrans(seen, E.Items(AllEncoded(t, base, sent)), E.Items(AllEncoded(t, base, all)));
    SeenSoFar(seen, E.Items(AllEncoded(t, base, all)));
    ControlInputsOfEncoded(t, base, all);
    ControlsOfRole(t.outbox, r);
    StartsOfEncoded(t, base, all);
    StartPacketsOfRole(t.outbox, r);
    EncodedBrings(t, base, all, seen);
    PacketsOfRole(t.outbox, r);
    ClientIs(es);
  }

  /** Everything can arrive: for every outbox and thread count there are steps and reads that bring every packet of
      the role to the callbacks of its client. */
  lemma EverythingCanArrive<M>(t: F.State<M>, base: M -> Codec.Message, r: i32, threads: nat)
    returns (steps: seq<D.Step<F.Packet<M>>>, es: seq<E.SystemStep>)
    requires threads > 0 && AllProper(base, D.OfRole(ItemsOf(t.outbox), r))
    ensures OnTheWay(t, base, r, threads, steps, es)
    ensures Arrived(es) == InputsOf(t, base, F.ControlsTo(t.outbox, r))
    ensures StartsSeen(es) == F.StartsTo(t.outbox, r)
    ensures |Seen(es)| == |PacketsTo(t.outbox, r)|
    ensures Seen(es) == E.Items(AllEncoded(t, base, PacketsTo(t.outbox, r)))
  {
    hide D.OfRole, D.Run, D.Possible, E.Run, E.Possible, E.StreamOf, F.ControlsTo, E.Received, D.ShardIds;
    hide E.Sendable, Controls, ControlInputs, Starts, StartPackets, F.StartsTo, AllProper, Encoded;
    var items, all := ItemsOf(t.outbox), D.OfRole(ItemsOf(t.outbox), r);
    steps := Delivery.HandleEach(items, threads);
    Delivery.HandledEach(D.Started<F.Packet<M>>(threads), items);
    assert [] + items == items;
    ProperIsSendable(t, base, all);
    es := Delivery.CompleteClient(AllEncoded(t, base, all));
    PacketsOfRole(t.outbox, r);
    ControlInputsOfEncoded(t, base, all);
    ControlsOfRole(t.outbox, r);
    StartsOfEncoded(t, base, all);
    StartPacketsOfRole(t.outbox, r);
  }

  /** Exactly when the client of a role is safe: no delivery terminates it if and only if at most one GAME_START was
      queued to the role. */
  lemma ClientSurvivesIff<M>(t: F.State<M>, base: M -> Codec.Message, r: i32, threads: nat)
    requires threads > 0 && AllProper(base, D.OfRole(ItemsOf(t.outbox), r))
    ensures (forall steps, es :: OnTheWay(t, base, r, threads, steps, es) ==> ClientOf(es).Playing?) <==>
            F.StartsTo(t.outbox, r) <= 1
  {
    hide AllProper, Arrived, StartsSeen, ClientOf, F.StartsTo, F.ControlsTo;
    if F.StartsTo(t.outbox, r) <= 1 {
      forall steps, es | OnTheWay(t, base, r, threads, steps, es)
        ensures ClientOf(es).Playing?
      {
        ArrivalsArePrefix(t, base, r, threads, steps, es);
      }
    } else {
      var steps, es := EverythingCanArrive(t, base, r, threads);
      ArrivalsArePrefix(t, base, r, threads, steps, es);
    }
  }

  /** Encoding early or late makes no difference: what is queued to a role that joined and stayed is in the record,
      and holds the tick it will hold at the end of the run. */
  lemma QueuedTicksAreFinal<M>(s: F.State<M>, r: i32, m: M, now: u64, after: seq<F.Event<M>>, k: nat, x: M)
    requires F.Stamped(s) && F.NewObjects(s, after) && k <= |after|
    requires F.Count(s.roles, r) == 0 && F.ControlsTo(s.outbox, r) == [] && F.Stays(after, r)
    requires x in F.ControlsTo(F.Run(F.EnterStep(s, r, m, now), after[..k]).outbox, r)
    ensures TickOf(F.Run(F.EnterStep(s, r, m, now), after[..k]), x) ==
            TickOf(F.Run(F.EnterStep(s, r, m, now), after), x)
  {
    hide F.Run, F.Flat, F.ControlsTo, F.Stamped, F.NewObjects, F.EnterStep;
    var joined := F.EnterStep(s, r, m, now);
    assert after == after[..k] + after[k..];
    F.EnterStamps(s, r, m, now, after);
    F.JoinerIsQueued(s, r, m, now, after[..k]);
    F.StampedAndNew(joined, after[..k], after[k..]);
    F.RunAppend(joined, after[..k], after[k..]);
    F.RecordedTicksStay(F.Run(joined, after[..k]), after[k..], x);
  }

  /** A run of the server in which role r enters between two parts. */
  function Joined<M>(before: seq<F.Event<M>>, r: i32, m: M, now: u64, after: seq<F.Event<M>>): seq<F.Event<M>> {
    before + [F.EnterRoom(r, m, now)] + after
  }

  /** A role that enters once and stays has been queued the whole record if it is role 3 or entered in time. */
  lemma JoinerOfRun<M>(before: seq<F.Event<M>>, r: i32, m: M, now: u64, after: seq<F.Event<M>>)
    requires F.Stays(before, r) && F.Stays(after, r)
    requires r == F.REPLAY_ROLE || F.Flat(F.Run(F.Initial(), before).records) == []
    ensures var t := F.Run(F.Initial(), Joined(before, r, m, now, after));
            F.ControlsTo(t.outbox, r) == F.Flat(t.records)
  {
    hide F.Flat, F.ControlsTo, F.Stays, F.Run, F.EnterStep;
    var s := F.Run(F.Initial(), before);
    var e: F.Event<M> := F.EnterRoom(r, m, now);
    assert F.Count([], r) == 0 && F.ControlsTo<M>([], r) == [] by {
      NothingQueued<M>(r);
    }
    F.QueuedWhileStaying(F.Initial(), before, r);
    F.CopiesOnce(F.RecordedBy(F.Initial(), before));
    F.JoinerMissesNothingIff(s, r, m, now, after);
    F.RunAppend(F.Initial(), before + [e], after);
    F.RunAppend(F.Initial(), before, [e]);
    F.RunOne(s, e);
  }

  lemma NothingQueued<M>(r: i32)
    ensures F.ControlsTo<M>([], r) == [] && F.StartsTo<M>([], r) == 0 && F.Count([], r) == 0
  {
  }

  /** A role that enters once and stays: its client survives every delivery exactly if role 2 enters at most once
      after it, and never if it is role 3. */
  lemma JoinerSurvivesIff<M>(before: seq<F.Event<M>>, r: i32, m: M, now: u64, after: seq<F.Event<M>>,
                             t: F.State<M>, base: M -> Codec.Message, threads: nat)
    requires t == F.Run(F.Initial(), Joined(before, r, m, now, after))
    requires F.Stays(before, r) && F.Stays(after, r)
    requires threads > 0 && AllProper(base, D.OfRole(ItemsOf(t.outbox), r))
    ensures F.StartsTo(t.outbox, r) <= 1 <==> F.StartedOnce(r, after)
    ensures (forall steps, es :: OnTheWay(t, base, r, threads, steps, es) ==> ClientOf(es).Playing?) <==>
            F.StartedOnce(r, after)
  {
    ClientSurvivesIff(t, base, r, threads);
    hide OnTheWay, AllProper, ClientOf;
    JoinerStartedOnceIff(before, r, m, now, after);
  }

  lemma JoinerStartedOnceIff<M>(before: seq<F.Event<M>>, r: i32, m: M, now: u64, after: seq<F.Event<M>>)
    requires F.Stays(before, r) && F.Stays(after, r)
    ensures F.StartsTo(F.Run(F.Initial(), Joined(before, r, m, now, after)).outbox, r) <= 1 <==>
            F.StartedOnce(r, after)
  {
    hide F.Stays, F.Run, F.EnterStep, F.StartsTo, F.StartedOnce;
    var s := F.Run(F.Initial(), before);
    var e: F.Event<M> := F.EnterRoom(r, m, now);
    assert F.Count([], r) == 0 && F.StartsTo<M>([], r) == 0 by {
      NothingQueued<M>(r);
    }
    F.QueuedWhileStaying(F.Initial(), before, r);
    F.StartsCounted(F.Initial(), before, r);
    F.StartsWhileListed(0, before, r);
    F.StartedOnceIff(s, r, m, now, after);
    F.RunAppend(F.Initial(), before + [e], after);
    F.RunAppend(F.Initial(), before, [e]);
    F.RunOne(s, e);
  }

  /** The shortest run that terminates a client: role 3 waits in the room when role 2 starts the game. It is sent
      GAME_START at its own entry and again with all the others. */
  lemma WaitingReplayerTerminates<M>(a: M, b: M, first: u64, second: u64, base: M -> Codec.Message, threads: nat)
    returns (steps: seq<D.Step<F.Packet<M>>>, es: seq<E.SystemStep>)
    requires threads > 0
    requires var t := F.Run(F.Initial(), Joined([], 3, a, first, [F.EnterRoom(2, b, second)]));
             AllProper(base, D.OfRole(ItemsOf(t.outbox), 3))
    ensures var t := F.Run(F.Initial(), Joined([], 3, a, first, [F.EnterRoom(2, b, second)]));
            F.StartsTo(t.outbox, 3) == 2 && OnTheWay(t, base, 3, threads, steps, es) && ClientOf(es).Terminated?
  {
    var after: seq<F.Event<M>> := [F.EnterRoom(2, b, second)];
    var t := F.Run(F.Initial(), Joined([], 3, a, first, after));
    assert after[1..] == [];
    assert F.Entries(after, F.START_ROLE) == 1;
    NothingQueued<M>(3);
    assert Joined([], 3, a, first, after) == [F.EnterRoom(3, a, first)] + after;
    F.RunAppend(F.Initial(), [F.EnterRoom(3, a, first)], after);
    F.RunOne(F.Initial(), F.EnterRoom(3, a, first));
    F.JoinerStarts(F.Initial(), 3, a, first, after);
    hide OnTheWay, AllProper, ClientOf, F.Run, F.StartsTo;
    steps, es := EverythingCanArrive(t, base, 3, threads);
    ArrivalsArePrefix(t, base, 3, threads, steps, es);
  }

  /** From the record to the client: what has arrived at a player who missed nothing are the first inputs of the
      record. For role 3 this is the replay of a game that is already under way. */
  lemma LateJoinerIsSentTheRecord<M>(before: seq<F.Event<M>>, r: i32, m: M, now: u64, after: seq<F.Event<M>>,
                                     t: F.State<M>, base: M -> Codec.Message,
                                     threads: nat, steps: seq<D.Step<F.Packet<M>>>, es: seq<E.SystemStep>)
    requires t == F.Run(F.Initial(), Joined(before, r, m, now, after))
    requires F.Stays(before, r) && F.Stays(after, r)
    requires r == F.REPLAY_ROLE || F.Flat(F.Run(F.Initial(), before).records) == []
    requires OnTheWay(t, base, r, threads, steps, es)
    ensures Arrived(es) <= InputsOf(t, base, F.Flat(t.records))
  {
    hide OnTheWay, Joined, F.Run, F.Flat, F.ControlsTo, Arrived;
    JoinerOfRun(before, r, m, now, after);
    ArrivalsArePrefix(t, base, r, threads, steps, es);
  }

  /** The output is the recorded messages up to a frame, in the order of the record: each with the role id and the
      direction its sender gave it and the number of the frame that recorded it, and every message behind them belongs
      to a later frame. */
  ghost predicate ReleasedUpTo<M>(t: F.State<M>, base: M -> Codec.Message, frame: u32, output: seq<L.Input>) {
    && |output| <= |F.Flat(t.records)|
    && (forall i :: 0 <= i < |output| ==>
          var x := F.Flat(t.records)[i];
          && base(x).body.Control? && output[i].direction == base(x).body.direction
          && output[i].playerId == base(x).header.roleId
          && RecordedIn(t, x, output[i].logicFrame) && output[i].logicFrame <= frame)
    && forall i, f: u32 :: |output| <= i < |F.Flat(t.records)| && RecordedIn(t, F.Flat(t.records)[i], f) ==> f > frame
  }

  /** Every player sees the same game, in every run of the server from its beginning. A role enters once and stays:
      role 3 at any time, or any role before the first message is recorded; it is told once at most that the game
      starts, so its client survives. The client pops frames up to `current` while messages arrive over the wire. Once
      every recorded input up to `current` has arrived, a pop at `current` has released exactly the recorded inputs up
      to it, in the order of the record: what all such players release. */
  lemma EveryClientReleasesTheSame<M>(before: seq<F.Event<M>>, r: i32, m: M, now: u64, after: seq<F.Event<M>>,
                                      t: F.State<M>, base: M -> Codec.Message,
                                      threads: nat, steps: seq<D.Step<F.Packet<M>>>, es: seq<E.SystemStep>,
                                      client: seq<L.Event>, current: i32)
    requires t == F.Run(F.Initial(), Joined(before, r, m, now, after))
    requires F.NewObjects(F.Initial(), Joined(before, r, m, now, after))
    requires F.KeepsOrder(1, 0, false, Joined(before, r, m, now, after))
    requires F.Stays(before, r) && F.Stays(after, r)
    requires r == F.REPLAY_ROLE || F.Flat(F.Run(F.Initial(), before).records) == []
    requires OnTheWay(t, base, r, threads, steps, es) && F.StartedOnce(r, after)
    requires L.Arrivals(client) == Arrived(es) && L.PopsUpTo(client, ToU32(current))
    requires forall i :: |Arrived(es)| <= i < |F.Flat(t.records)| ==> TickOf(t, F.Flat(t.records)[i]) > ToU32(current)
    ensures ClientOf(es).Playing? && ClientOf(es).arrived == Arrived(es)
    ensures L.Step(L.Run(L.Client([], []), client), L.Pop(current)).output ==
            L.Filter(ToU32(current), InputsOf(t, base, F.Flat(t.records)))
    ensures ReleasedUpTo(t, base, ToU32(current),
                         L.Step(L.Run(L.Client([], []), client), L.Pop(current)).output)
  {
    assert E.Possible(E.Begin(1), es, D.ShardIds(1, 0));
    assert AllProper(base, D.OfRole(ItemsOf(t.outbox), r));
    hide OnTheWay, Joined, Arrived, StartsSeen, ClientOf, E.Possible, D.ShardIds, AllProper, D.OfRole, ReleasedUpTo;
    hide AllBring, F.ControlsTo, InputsOf;
    JoinerOfRun(before, r, m, now, after);
    hide F.Run, F.Flat, F.NewObjects, F.KeepsOrder, F.InTickOrder, F.Stays, F.Stamped, F.StartedOnce, F.StartsTo;
    ArrivalsArePrefix(t, base, r, threads, steps, es);
    JoinerStartedOnceIff(before, r, m, now, after);
    hide L.Run, L.Step, L.Filter, L.Arrivals, L.PopsUpTo, L.InFrameOrder;
    RunFromInitial(Joined(before, r, m, now, after));
    TickOrderIsFrameOrder(t, base);
    LateJoinerIsSentTheRecord(before, r, m, now, after, t, base, threads, steps, es);
    L.ReleasesTheRecord(client, current, InputsOf(t, base, F.Flat(t.records)));
    ControlsAreProper(t, base, r);
    FilterIsReleased(t, base, ToU32(current));
  }

  lemma {:induction false} ProperControls<M>(base: M -> Codec.Message, ps: seq<F.Packet<M>>)
    requires AllProper(base, ps)
    ensures forall m :: m in Controls(ps) ==> base(m).body.Control?
  {
    if ps != [] {
      assert Proper(base, ps[0]);
      ProperControls(base, ps[1..]);
    }
  }

  lemma ControlsAreProper<M>(t: F.State<M>, base: M -> Codec.Message, r: i32)
    requires AllProper(base, D.OfRole(ItemsOf(t.outbox), r)) && F.ControlsTo(t.outbox, r) == F.Flat(t.records)
    ensures forall m :: m in F.Flat(t.records) ==> base(m).body.Control?
  {
    hide D.OfRole, F.Flat, F.ControlsTo;
    ControlsOfRole(t.outbox, r);
    ProperControls(base, D.OfRole(ItemsOf(t.outbox), r));
  }

  lemma FilterIsReleased<M>(t: F.State<M>, base: M -> Codec.Message, frame: u32)
    requires F.Stamped(t) && L.InFrameOrder(InputsOf(t, base, F.Flat(t.records)))
    requires forall m :: m in F.Flat(t.records) ==> base(m).body.Control?
    ensures ReleasedUpTo(t, base, frame, L.Filter(frame, InputsOf(t, base, F.Flat(t.records))))
  {
    hide F.Stamped, F.Flat, RecordedIn, L.Filter;
    var all, q := F.Flat(t.records), InputsOf(t, base, F.Flat(t.records));
    L.InOrderReleasesAllDue(frame, q);
    var n := L.DueCount(frame, q);
    hide InputsOf;
    assert L.Filter(frame, q) == q[..n];
    forall i | 0 <= i < |all|
      ensures q[i].playerId == base(all[i]).header.roleId && q[i].direction == base(all[i]).body.direction
      ensures forall f: u32 :: RecordedIn(t, all[i], f) <==> f == q[i].logicFrame
    {
      RecordedInputs(t, base, i);
    }
    forall i | n <= i < |q|
      ensures q[i].logicFrame > frame
    {
      assert i > n ==> q[n].logicFrame <= q[i].logicFrame;
    }
  }

  /** A game as it is played: role 2 starts it, at a point where nothing has been recorded. Every role that enters once
      and stays, before the first recorded message or as role 3 after the start, releases the same inputs. */
  lemma EveryClientOfAGame<M>(lobby: seq<F.Event<M>>, sm: M, start: u64, play: seq<F.Event<M>>,
                              before: seq<F.Event<M>>, r: i32, m: M, now: u64, after: seq<F.Event<M>>,
                              t: F.State<M>, base: M -> Codec.Message,
                              threads: nat, steps: seq<D.Step<F.Packet<M>>>, es: seq<E.SystemStep>,
                              client: seq<L.Event>, current: i32)
    requires Joined(lobby, F.START_ROLE, sm, start, play) == Joined(before, r, m, now, after)
    requires F.Flat(F.Run(F.Initial(), lobby).records) == [] && F.NoStart(play) && F.Updates(play) < U32_MODULUS
    requires t == F.Run(F.Initial(), Joined(before, r, m, now, after))
    requires F.NewObjects(F.Initial(), Joined(before, r, m, now, after))
    requires F.Stays(before, r) && F.Stays(after, r)
    requires r == F.REPLAY_ROLE || F.Flat(F.Run(F.Initial(), before).records) == []
    requires OnTheWay(t, base, r, threads, steps, es) && F.StartedOnce(r, after)
    requires L.Arrivals(client) == Arrived(es) && L.PopsUpTo(client, ToU32(current))
    requires forall i :: |Arrived(es)| <= i < |F.Flat(t.records)| ==> TickOf(t, F.Flat(t.records)[i]) > ToU32(current)
    ensures ClientOf(es).Playing? && ClientOf(es).arrived == Arrived(es)
    ensures L.Step(L.Run(L.Client([], []), client), L.Pop(current)).output ==
            L.Filter(ToU32(current), InputsOf(t, base, F.Flat(t.records)))
    ensures ReleasedUpTo(t, base, ToU32(current),
                         L.Step(L.Run(L.Client([], []), client), L.Pop(current)).output)
  {
    assert E.Possible(E.Begin(1), es, D.ShardIds(1, 0));
    hide OnTheWay, Arrived, ClientOf, E.Possible, D.ShardIds, ReleasedUpTo;
    hide F.Run, F.Flat, F.NewObjects, F.KeepsOrder, F.Stays, F.NoStart, F.Updates, F.StartedOnce;
    hide L.Run, L.Step, L.Filter, L.Arrivals, L.PopsUpTo;
    F.StartedGameKeepsOrder(F.Initial(), lobby, sm, start, play);
    EveryClientReleasesTheSame(before, r, m, now, after, t, base, threads, steps, es, client, current);
  }

  lemma RunFromInitial<M>(es: seq<F.Event<M>>)
    requires F.NewObjects(F.Initial(), es)
    ensures F.Stamped(F.Run(F.Initial(), es))
    ensures F.InTickOrder(F.Run(F.Initial(), es)) <==> F.KeepsOrder(1, 0, false, es)
  {
    hide F.Run, F.KeepsOrder, F.NewObjects;
    assert F.Log(F.Initial<M>()) == [];
    F.RecordedTicks(F.Initial(), es);
    F.RecordInTickOrderIff(F.Initial(), es);
  }
}
