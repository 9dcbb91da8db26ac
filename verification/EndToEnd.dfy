/** GameServer/MKServer.cpp and GameClient/GameClient.cpp: the read turns of a connection, the typed messages made
    of what it delivers, and the receiving dispatcher, interleaved in every possible way. */
module EndToEnd {
  import opened Bytes
  import opened Sequences
  import opened Chunks
  import opened Codec
  import opened FrameSplitter
  import opened ReadTurns
  import D = DispatchSteps

  /** handed counts the delivered messages that the connection's thread has pushed; failed is a failed
      assertion or the use of a null message. */
  datatype System = System(conn: ConnState, handed: nat, dispatcher: D.State<Message>, failed: bool)

  datatype SystemStep =
    | Read(chunk: seq<byte>)        // a read completes; its thread delivers what it completed
    | HandOver                      // the next delivered message becomes typed and its push tests the flag
    | Enqueue                       // the push reaches its queue
    | Other(step: D.Step<Message>)  // a step of a consumer thread, of a push of another connection, or Stop

  /** The pushing thread that serves the connection. */
  const RECEIVER: nat := 0

  function Begin(threads: nat): System {
    System(Fresh, 0, D.Started(threads), false)
  }

  ghost predicate Sound(s: System) {
    |s.dispatcher.threads| > 0 && (s.conn.status == Reading ==> s.conn.InBounds())
  }

  /** A step of others: it is not taken by the receiving thread, and pushes nothing for the ids in question. */
  ghost predicate Foreign(step: D.Step<Message>, ids: iset<i32>) {
    match step
    case TestPush(p, id, _) => p != RECEIVER && id !in ids
    case Enqueue(p) => p != RECEIVER
    case _ => true
  }

  ghost predicate Enabled(s: System, e: SystemStep, ids: iset<i32>)
    requires Sound(s)
  {
    match e
    case Read(chunk) =>
      && !s.failed && s.conn.status == Reading && s.handed == |s.conn.delivered| && RECEIVER !in s.dispatcher.pushers
      && |chunk| <= s.conn.Writable()
    case HandOver => !s.failed && s.handed < |s.conn.delivered| && RECEIVER !in s.dispatcher.pushers
    case Enqueue => RECEIVER in s.dispatcher.pushers
    case Other(step) => D.Enabled(s.dispatcher, step) && Foreign(step, ids)
  }

  ghost function Next(s: System, e: SystemStep, ids: iset<i32>): (t: System)
    requires Sound(s) && Enabled(s, e, ids)
    ensures Sound(t)
  {
    match e
    case Read(chunk) => s.(conn := Turn(s.conn, chunk))
    case HandOver =>
      var f := s.conn.delivered[s.handed];
      (match Transmit(f.header, f.body)
       case TypedMessage(m) =>
         s.(handed := s.handed + 1,
            dispatcher := D.Next(s.dispatcher, D.TestPush(RECEIVER, m.header.roleId, D.Some(m))))
       case _ => s.(failed := true))
    case Enqueue => s.(dispatcher := D.Next(s.dispatcher, D.Enqueue(RECEIVER)))
    case Other(step) => s.(dispatcher := D.Next(s.dispatcher, step))
  }

  ghost predicate Possible(s: System, es: seq<SystemStep>, ids: iset<i32>)
    requires Sound(s)
    decreases |es|
  {
    es == [] || (Enabled(s, es[0], ids) && Possible(Next(s, es[0], ids), es[1..], ids))
  }

  ghost function Run(s: System, es: seq<SystemStep>, ids: iset<i32>): (t: System)
    requires Sound(s) && Possible(s, es, ids)
    ensures Sound(t)
    decreases |es|
  {
    if es == [] then s else Run(Next(s, es[0], ids), es[1..], ids)
  }

  /** The bytes received in a run. */
  function Received(es: seq<SystemStep>): seq<byte> {
    if es == [] then [] else (if es[0].Read? then es[0].chunk else []) + Received(es[1..])
  }

  /** What a peer sends: any messages of the four classes, for any roles. */
  ghost predicate Sendable(sent: seq<Message>) {
    forall m :: m in sent ==> m.WellTyped() && m.body != NoBody
  }

  function Wires(sent: seq<Message>): (fs: seq<WireFrame>)
    ensures |fs| == |sent|
  {
    seq(|sent|, i requires 0 <= i < |sent| => WireOf(sent[i]))
  }

  function StreamOf(sent: seq<Message>): seq<byte> {
    Flatten(WireAll(Wires(sent)))
  }

  /** The pushes that the messages lead to. */
  function Items(sent: seq<Message>): (r: seq<D.Item<Message>>)
    ensures |r| == |sent|
  {
    seq(|sent|, i requires 0 <= i < |sent| => D.Item(sent[i].header.roleId, sent[i]))
  }

  lemma WiresAreValid(sent: seq<Message>)
    requires Sendable(sent)
    ensures AllValid(Wires(sent)) && AllDeliverable(Wires(sent))
  {
    forall f | f in Wires(sent)
      ensures f.Valid() && HEADER_SIZE_NO_LENGTH + |f.body| <= MAX_DELIVERABLE
    {
      var i :| 0 <= i < |sent| && Wires(sent)[i] == f;
      assert sent[i] in sent;
    }
  }

  /** The push of the receiving thread between its two steps. */
  function InFlight(d: D.State<Message>): seq<D.Item<Message>> {
    if RECEIVER in d.pushers then [d.pushers[RECEIVER]] else []
  }

  /** The connection, when b has been received. */
  ghost predicate Receives(s: System, sent: seq<Message>, b: seq<byte>) {
    && Sound(s) && !s.failed && Mirrors(s.conn, b) && b <= StreamOf(sent)
    && s.handed <= |s.conn.delivered| <= |sent|
    && s.conn.delivered == DecodedAll(Wires(sent))[..|s.conn.delivered|]
  }

  /** The dispatcher, when n messages were handed over. */
  ghost predicate Passes(d: D.State<Message>, sent: seq<Message>, n: nat, ids: iset<i32>)
    requires n <= |sent|
  {
    && |d.threads| > 0 && D.Conserves(d)
    && (forall p :: p in d.pushers && p != RECEIVER ==> d.pushers[p].id !in ids)
    && (var passed, all := D.Select(d.accepted + InFlight(d), ids), D.Select(Items(sent[..n]), ids);
        if d.started then passed == all else passed <= all)
  }

  ghost predicate Follows(s: System, sent: seq<Message>, ids: iset<i32>, b: seq<byte>) {
    Receives(s, sent, b) && Passes(s.dispatcher, sent, s.handed, ids)
  }

  lemma ReadFollows(s: System, sent: seq<Message>, ids: iset<i32>, b: seq<byte>, chunk: seq<byte>)
    requires Sendable(sent) && Follows(s, sent, ids, b) && Enabled(s, Read(chunk), ids)
    requires b + chunk <= StreamOf(sent)
    ensures Follows(Next(s, Read(chunk), ids), sent, ids, b + chunk)
  {
    hide Split, Flatten, Passes, Turn, TailOf, CompleteWithin;
    WiresAreValid(sent);
    SplitOfStreamPrefix(Wires(sent), b);
    SplitOfStreamPrefix(Wires(sent), b + chunk);
    TurnMirrors(s.conn, b, chunk);
    var t := Turn(s.conn, chunk);
    var n := CompleteWithin(WireAll(Wires(sent)), |b + chunk|);
    assert t.delivered == DecodedAll(Wires(sent)[..n]) == DecodedAll(Wires(sent))[..n];
    DeliveredGrows(s.conn, chunk);
  }

  lemma DeliveredGrows(s: ConnState, chunk: seq<byte>)
    requires s.status == Reading && s.InBounds() && |chunk| <= s.Writable()
    ensures |s.delivered| <= |Turn(s, chunk).delivered|
  {
  }

  /** The next delivered frame is the frame of the next message sent, and becomes that message again. */
  lemma NextIsSent(s: System, sent: seq<Message>, b: seq<byte>)
    requires Sendable(sent) && Receives(s, sent, b) && s.handed < |s.conn.delivered|
    ensures var m, f := sent[s.handed], s.conn.delivered[s.handed];
            Transmit(f.header, f.body) == TypedMessage(m)
  {
    hide Mirrors, StreamOf, Transmit, RawFrame;
    var m := sent[s.handed];
    assert m in sent;
    assert s.conn.delivered[s.handed] == DecodedAll(Wires(sent))[s.handed] == WireOf(m).Decoded();
    WireDecodes(m);
  }

  lemma WireDecodes(m: Message)
    requires m.WellTyped() && m.body != NoBody
    ensures var f := WireOf(m).Decoded(); Transmit(f.header, f.body) == TypedMessage(m)
  {
    hide Transmit, RawFrame, BodyBytes;
    CodecRoundTrip(m, []);
  }

  lemma HandOverFollows(s: System, sent: seq<Message>, ids: iset<i32>, b: seq<byte>)
    requires Sendable(sent) && Follows(s, sent, ids, b) && Enabled(s, HandOver, ids)
    ensures Follows(Next(s, HandOver, ids), sent, ids, b)
  {
    hide Passes, Mirrors, StreamOf, Transmit, D.Next, DecodedAll, Wires, Sendable;
    NextIsSent(s, sent, b);
    TestPasses(s.dispatcher, sent, s.handed, ids);
  }

  lemma TestPasses(d: D.State<Message>, sent: seq<Message>, n: nat, ids: iset<i32>)
    requires n < |sent| && Passes(d, sent, n, ids) && RECEIVER !in d.pushers
    ensures Passes(D.Next(d, D.TestPush(RECEIVER, sent[n].header.roleId, D.Some(sent[n]))), sent, n + 1, ids)
  {
    hide D.Select, D.Conserves;
    var item, push := Items(sent)[n], D.TestPush(RECEIVER, sent[n].header.roleId, D.Some(sent[n]));
    var t := D.Next(d, push);
    D.StepConserves(d, push);
    assert Items(sent[..n + 1]) == Items(sent[..n]) + [item];
    D.SelectAppend(Items(sent[..n]), [item], ids);
    D.SelectAppend(d.accepted, [item], ids);
    assert d.accepted + [] == d.accepted;
  }

  lemma EnqueuePasses(d: D.State<Message>, sent: seq<Message>, n: nat, ids: iset<i32>)
    requires n <= |sent| && Passes(d, sent, n, ids) && RECEIVER in d.pushers
    ensures Passes(D.Next(d, D.Enqueue(RECEIVER)), sent, n, ids)
  {
    hide D.Select, D.Conserves;
    D.StepConserves(d, D.Enqueue(RECEIVER));
    assert d.accepted + InFlight(d) + [] == d.accepted + InFlight(d);
  }

  lemma OtherPasses(d: D.State<Message>, sent: seq<Message>, n: nat, ids: iset<i32>, step: D.Step<Message>)
    requires n <= |sent| && Passes(d, sent, n, ids) && D.Enabled(d, step) && Foreign(step, ids)
    ensures Passes(D.Next(d, step), sent, n, ids)
  {
    hide D.Select, D.Conserves;
    var t := D.Next(d, step);
    D.StepConserves(d, step);
    if step.Enqueue? {
      var item := d.pushers[step.pusher];
      D.SelectOne(item, ids);
      D.SelectAppend(d.accepted, [item], ids);
      D.SelectAppend(d.accepted, InFlight(d), ids);
      D.SelectAppend(d.accepted + [item], InFlight(d), ids);
      assert D.Select(d.accepted, ids) + [] == D.Select(d.accepted, ids);
    }
  }

  lemma {:induction false} RunFollows(s: System, sent: seq<Message>, ids: iset<i32>, b: seq<byte>, es: seq<SystemStep>)
    requires Sendable(sent) && Follows(s, sent, ids, b) && Possible(s, es, ids)
    requires b + Received(es) <= StreamOf(sent)
    ensures Follows(Run(s, es, ids), sent, ids, b + Received(es))
    decreases |es|
  {
    assert Sound(s);
    hide Receives, Passes, Enabled, StreamOf, Sendable;
    if es == [] {
      assert b + [] == b;
    } else {
      var c := if es[0].Read? then es[0].chunk else [];
      Assoc(b, c, Received(es[1..]));
      StepFollows(s, sent, ids, b, es[0], Received(es[1..]));
      hide Follows, Next;
      RunFollows(Next(s, es[0], ids), sent, ids, b + c, es[1..]);
    }
  }

  lemma StepFollows(s: System, sent: seq<Message>, ids: iset<i32>, b: seq<byte>, e: SystemStep, later: seq<byte>)
    requires Sendable(sent) && Follows(s, sent, ids, b) && Enabled(s, e, ids)
    requires b + (if e.Read? then e.chunk else []) + later <= StreamOf(sent)
    ensures Follows(Next(s, e, ids), sent, ids, b + if e.Read? then e.chunk else [])
  {
    hide Passes, Mirrors, StreamOf, Sendable, Turn, Transmit, D.Next, D.Enabled, DecodedAll, Wires;
    match e {
      case Read(chunk) =>
        PrefixTrans(b + chunk, b + chunk + later, StreamOf(sent));
        ReadFollows(s, sent, ids, b, chunk);
      case HandOver =>
        HandOverFollows(s, sent, ids, b);
        assert b + [] == b;
      case Enqueue =>
        EnqueuePasses(s.dispatcher, sent, s.handed, ids);
        assert b + [] == b;
      case Other(step) =>
        OtherPasses(s.dispatcher, sent, s.handed, ids, step);
        assert b + [] == b;
    }
  }

  lemma PrefixTrans<T>(a: seq<T>, b: seq<T>, c: seq<T>)
    requires a <= b && b <= c
    ensures a <= c
  {
  }

  lemma BeginFollows(sent: seq<Message>, ids: iset<i32>, threads: nat)
    requires threads > 0
    ensures Follows(Begin(threads), sent, ids, [])
  {
    FreshMirrors();
    D.StartedConserves<Message>(threads);
  }

  /** For any roles that share a shard and that no other connection pushes for: the items dispatched, in the
      order of the calls, are the first ones of what was sent for these roles, and while the dispatcher runs, all
      that was handed over is dispatched, owed by the thread of the shard, or about to be enqueued. */
  lemma ItemsSeenAreThoseSent(sent: seq<Message>, ids: iset<i32>, threads: nat, shard: nat, es: seq<SystemStep>)
    requires Sendable(sent) && threads > 0 && shard < threads && ids <= D.ShardIds(threads, shard)
    requires Possible(Begin(threads), es, ids) && Received(es) <= StreamOf(sent)
    ensures var t := Run(Begin(threads), es, ids); var d := t.dispatcher;
            && !t.failed && t.conn.status == Reading && t.handed <= |sent| && |d.threads| == threads
            && D.Select(d.dispatched, ids) <= D.Select(Items(sent), ids)
            && (d.started ==>
                  D.Select(d.dispatched, ids) + D.Select(D.Owed(d.threads[shard]), ids) + D.Select(InFlight(d), ids)
                  == D.Select(Items(sent[..t.handed]), ids))
  {
    hide Follows, Next, Enabled, StreamOf, Sendable, D.Select, D.Owed, D.ShardIds;
    BeginFollows(sent, ids, threads);
    assert [] + Received(es) == Received(es);
    RunFollows(Begin(threads), sent, ids, [], es);
    ThreadsStay(Begin(threads), es, ids);
    FollowsMeans(Run(Begin(threads), es, ids), sent, ids, shard, Received(es));
  }

  lemma {:induction false} ThreadsStay(s: System, es: seq<SystemStep>, ids: iset<i32>)
    requires Sound(s) && Possible(s, es, ids)
    ensures |Run(s, es, ids).dispatcher.threads| == |s.dispatcher.threads|
    decreases |es|
  {
    hide Turn, Transmit, Enabled;
    if es != [] {
      ThreadsStayInStep(s, es[0], ids);
      hide Next;
      ThreadsStay(Next(s, es[0], ids), es[1..], ids);
    }
  }

  lemma ThreadsStayInStep(s: System, e: SystemStep, ids: iset<i32>)
    requires Sound(s) && Enabled(s, e, ids)
    ensures |Next(s, e, ids).dispatcher.threads| == |s.dispatcher.threads|
  {
  }

  lemma FollowsMeans(t: System, sent: seq<Message>, ids: iset<i32>, shard: nat, b: seq<byte>)
    requires Follows(t, sent, ids, b)
    requires shard < |t.dispatcher.threads| && ids <= D.ShardIds(|t.dispatcher.threads|, shard)
    ensures var d := t.dispatcher;
            && !t.failed && t.conn.status == Reading && t.handed <= |sent|
            && D.Select(d.dispatched, ids) <= D.Select(Items(sent), ids)
            && (d.started ==>
                  D.Select(d.dispatched, ids) + D.Select(D.Owed(d.threads[shard]), ids) + D.Select(InFlight(d), ids)
                  == D.Select(Items(sent[..t.handed]), ids))
  {
    hide Split, StreamOf, D.Select, D.Owed, D.ShardIds, D.Conserves;
    var d, n := t.dispatcher, t.handed;
    D.IdsInOrder(d, ids, shard);
    D.SelectAppend(d.accepted, InFlight(d), ids);
    assert Items(sent) == Items(sent[..n]) + Items(sent[n..]);
    D.SelectAppend(Items(sent[..n]), Items(sent[n..]), ids);
    var dispatched, owed := D.Select(d.dispatched, ids), D.Select(D.Owed(d.threads[shard]), ids);
    assert dispatched <= dispatched + owed + D.Select(InFlight(d), ids);
    PrefixTrans(dispatched, D.Select(d.accepted + InFlight(d), ids), D.Select(Items(sent[..n]), ids));
    PrefixTrans(dispatched, D.Select(Items(sent[..n]), ids), D.Select(Items(sent), ids));
  }

  lemma {:induction false} AllOfOneRole(sent: seq<Message>, role: i32)
    requires forall m :: m in sent ==> m.header.roleId == role
    ensures D.OfRole(Items(sent), role) == sent
  {
    if sent != [] {
      AllOfOneRole(sent[1..], role);
      assert Items(sent)[1..] == Items(sent[1..]);
    }
  }

  /** End to end: for every list of messages sent over a connection, every chunking of their bytes into reads,
      every thread count and every interleaving with the consumer threads, with other connections and with Stop,
      the handler calls for a role that only this connection pushes for are a prefix of the messages sent for it,
      equal in every field. Nothing fails on the way, and while the dispatcher runs, all that was handed over is
      dispatched, in hand, queued or about to be enqueued. */
  lemma HandlersSeeWhatWasSent(sent: seq<Message>, role: i32, threads: nat, es: seq<SystemStep>)
    requires Sendable(sent) && threads > 0
    requires Possible(Begin(threads), es, iset{role}) && Received(es) <= StreamOf(sent)
    ensures var t := Run(Begin(threads), es, iset{role}); var d := t.dispatcher;
            && !t.failed && t.conn.status == Reading && t.handed <= |sent| && |d.threads| == threads
            && D.OfRole(d.dispatched, role) <= D.OfRole(Items(sent), role)
            && ((forall m :: m in sent ==> m.header.roleId == role) ==> D.OfRole(d.dispatched, role) <= sent)
            && (d.started ==>
                  D.OfRole(d.dispatched, role) + D.OfRole(D.Owed(d.threads[D.Shard(role, threads)]), role) +
                  D.OfRole(InFlight(d), role) == D.OfRole(Items(sent[..t.handed]), role))
  {
    hide Next, Enabled, StreamOf, Sendable, D.Select, D.Owed;
    ItemsSeenAreThoseSent(sent, iset{role}, threads, D.Shard(role, threads), es);
    if forall m :: m in sent ==> m.header.roleId == role {
      AllOfOneRole(sent, role);
    }
  }

  /** A dispatcher with one thread, fed by one connection: the handler calls of all roles together are the first
      of the messages sent, in the order of sending. */
  lemma OneThreadSeesAllInOrder(sent: seq<Message>, es: seq<SystemStep>)
    requires Sendable(sent) && Possible(Begin(1), es, D.ShardIds(1, 0)) && Received(es) <= StreamOf(sent)
    ensures var t := Run(Begin(1), es, D.ShardIds(1, 0));
            && !t.failed && t.conn.status == Reading
            && D.MessagesOf(t.dispatcher.dispatched) <= sent
            && t.dispatcher.dispatched <= Items(sent)
  {
    hide Next, Enabled, StreamOf, Sendable, D.Select, D.Owed;
    var ids := D.ShardIds(1, 0);
    ItemsSeenAreThoseSent(sent, ids, 1, 0, es);
    var d := Run(Begin(1), es, ids).dispatcher.dispatched;
    D.SelectAll(d, ids);
    D.SelectAll(Items(sent), ids);
    assert D.MessagesOf(d) == sent[..|d|];
  }
}
