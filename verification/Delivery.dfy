/** Nothing has to stay on the way: steps of the dispatchers and reads of a connection that deliver everything. */
module Delivery {
  import opened Bytes
  import opened Sequences
  import opened FrameSplitter
  import opened ReadTurns
  import opened Codec
  import D = DispatchSteps
  import E = EndToEnd

  // A dispatcher that handles every push at once.

  /** All threads are at the top of their loop with empty queues. */
  ghost predicate Idle<M>(s: D.State<M>) {
    && s.started && |s.threads| > 0 && s.pushers == map[]
    && forall i :: 0 <= i < |s.threads| ==> s.threads[i] == D.Thread([], D.Testing)
  }

  function HandleOne<M>(item: D.Item<M>, thread: nat): seq<D.Step<M>> {
    [D.TestPush(0, item.id, D.Some(item.msg)), D.Enqueue(0), D.Test(thread), D.TryPop(thread), D.CallBack(thread)]
  }

  function HandleEach<M>(items: seq<D.Item<M>>, threads: nat): seq<D.Step<M>>
    requires threads > 0
  {
    if items == [] then []
    else HandleOne(items[0], D.Shard(items[0].id, threads)) + HandleEach(items[1..], threads)
  }

  /** Five steps in a row. */
  lemma FiveSteps<M>(s: D.State<M>, es: seq<D.Step<M>>, a: D.State<M>, b: D.State<M>, c: D.State<M>, d: D.State<M>,
                     t: D.State<M>)
    requires |es| == 5 && |s.threads| > 0
    requires D.Enabled(s, es[0]) && a == D.Next(s, es[0])
    requires D.Enabled(a, es[1]) && b == D.Next(a, es[1])
    requires D.Enabled(b, es[2]) && c == D.Next(b, es[2])
    requires D.Enabled(c, es[3]) && d == D.Next(c, es[3])
    requires D.Enabled(d, es[4]) && t == D.Next(d, es[4])
    ensures D.Possible(s, es) && D.Run(s, es) == t
  {
    hide D.Next, D.Enabled;
    var e1, e2, e3, e4 := es[1..], es[1..][1..], es[1..][1..][1..], es[1..][1..][1..][1..];
    assert e1[0] == es[1] && e2[0] == es[2] && e3[0] == es[3] && e4[0] == es[4] && e4[1..] == [];
    assert D.Possible(t, []) && D.Run(t, []) == t;
    assert D.Possible(d, e4) && D.Run(d, e4) == t;
    assert D.Possible(c, e3) && D.Run(c, e3) == t;
    assert D.Possible(b, e2) && D.Run(b, e2) == t;
    assert D.Possible(a, e1) && D.Run(a, e1) == t;
  }

  /** The states in between. */
  lemma StepsOfOne<M>(s: D.State<M>, item: D.Item<M>, i: nat)
    returns (a: D.State<M>, b: D.State<M>, c: D.State<M>, d: D.State<M>, t: D.State<M>)
    requires Idle(s) && i == D.Shard(item.id, |s.threads|)
    ensures var es := HandleOne(item, i);
            && |a.threads| == |b.threads| == |c.threads| == |d.threads| == |s.threads| && 0 in a.pushers
            && D.Enabled(s, es[0]) && a == D.Next(s, es[0])
            && D.Enabled(a, es[1]) && b == D.Next(a, es[1])
            && D.Enabled(b, es[2]) && c == D.Next(b, es[2])
            && D.Enabled(c, es[3]) && d == D.Next(c, es[3])
            && D.Enabled(d, es[4]) && t == D.Next(d, es[4])
    ensures t == s.(accepted := s.accepted + [item], dispatched := s.dispatched + [item]) && Idle(t)
  {
    assert s.threads[i] == D.Thread([], D.Testing);
    assert [] + [item] == [item] && [item][1..] == [];
    a := s.(pushers := map[0 := item]);
    b := s.(threads := s.threads[i := D.Thread([item], D.Testing)], accepted := s.accepted + [item]);
    c := b.(threads := s.threads[i := D.Thread([item], D.Popping)]);
    d := b.(threads := s.threads[i := D.Thread([], D.Holding(item))]);
    t := s.(accepted := s.accepted + [item], dispatched := s.dispatched + [item]);
    EnqueueOne(a, b, item, i);
    assert D.Next(b, D.Test(i)) == c;
    assert D.Next(c, D.TryPop(i)) == d;
    assert d.threads[i := D.Thread([], D.Testing)] == s.threads;
  }

  lemma EnqueueOne<M>(a: D.State<M>, b: D.State<M>, item: D.Item<M>, i: nat)
    requires |a.threads| > 0 && i == D.Shard(item.id, |a.threads|) && a.threads[i] == D.Thread([], D.Testing)
    requires a.pushers == map[0 := item]
    requires b == a.(threads := a.threads[i := D.Thread([item], D.Testing)], pushers := map[],
                     accepted := a.accepted + [item])
    ensures D.Next(a, D.Enqueue(0)) == b
  {
    assert [] + [item] == [item];
    assert a.pushers - {0} == map[];
  }

  lemma HandledOne<M>(s: D.State<M>, item: D.Item<M>)
    requires Idle(s)
    ensures var es, t := HandleOne(item, D.Shard(item.id, |s.threads|)),
                         s.(accepted := s.accepted + [item], dispatched := s.dispatched + [item]);
            D.Possible(s, es) && D.Run(s, es) == t && Idle(t)
  {
    var i := D.Shard(item.id, |s.threads|);
    var a, b, c, d, t := StepsOfOne(s, item, i);
    FiveSteps(s, HandleOne(item, i), a, b, c, d, t);
  }

  lemma {:induction false} HandledEach<M>(s: D.State<M>, items: seq<D.Item<M>>)
    requires Idle(s)
    ensures D.Possible(s, HandleEach(items, |s.threads|))
    ensures D.Run(s, HandleEach(items, |s.threads|)) ==
            s.(accepted := s.accepted + items, dispatched := s.dispatched + items)
    decreases |items|
  {
    assert |s.threads| > 0;
    hide D.Next, D.Enabled, Idle, HandleOne;
    if items == [] {
      assert s.accepted + [] == s.accepted && s.dispatched + [] == s.dispatched;
    } else {
      var first := HandleOne(items[0], D.Shard(items[0].id, |s.threads|));
      HandledOne(s, items[0]);
      var t := D.Run(s, first);
      HandledEach(t, items[1..]);
      D.RunAppend(s, first, HandleEach(items[1..], |s.threads|));
      assert [items[0]] + items[1..] == items;
      Assoc(s.accepted, [items[0]], items[1..]);
      Assoc(s.dispatched, [items[0]], items[1..]);
    }
  }

  // A connection that delivers each read at once.

  lemma {:induction false} ReceivedAppend(a: seq<E.SystemStep>, b: seq<E.SystemStep>)
    ensures E.Received(a + b) == E.Received(a) + E.Received(b)
  {
    if a == [] {
      assert a + b == b;
    } else {
      ReceivedAppend(a[1..], b);
      assert (a + b)[1..] == a[1..] + b;
      Assoc(if a[0].Read? then a[0].chunk else [], E.Received(a[1..]), E.Received(b));
    }
  }

  lemma {:induction false} SystemRunAppend(s: E.System, a: seq<E.SystemStep>, b: seq<E.SystemStep>, ids: iset<i32>)
    requires E.Sound(s) && E.Possible(s, a, ids) && E.Possible(E.Run(s, a, ids), b, ids)
    ensures E.Possible(s, a + b, ids) && E.Run(s, a + b, ids) == E.Run(E.Run(s, a, ids), b, ids)
    ensures E.Received(a + b) == E.Received(a) + E.Received(b)
    decreases |a|
  {
    assert E.Sound(s);
    hide E.Next, E.Enabled, E.Sound, E.Received;
    ReceivedAppend(a, b);
    if a == [] {
      assert a + b == b;
    } else {
      SystemRunAppend(E.Next(s, a[0], ids), a[1..], b, ids);
      assert (a + b)[1..] == a[1..] + b;
    }
  }

  lemma SystemRunOne(s: E.System, e: E.SystemStep, ids: iset<i32>)
    requires E.Sound(s) && E.Enabled(s, e, ids)
    ensures E.Possible(s, [e], ids) && E.Run(s, [e], ids) == E.Next(s, e, ids)
    ensures E.Received([e]) == if e.Read? then e.chunk else []
  {
    var t := E.Next(s, e, ids);
    hide E.Next, E.Enabled;
    assert [e][1..] == [];
    assert E.Possible(t, [], ids) && E.Run(t, [], ids) == t;
  }

  /** The connection is between two reads, or in the middle of handing over, with its dispatcher idle. */
  ghost predicate Ready(s: E.System, sent: seq<Message>, ids: iset<i32>, b: seq<byte>) {
    E.Follows(s, sent, ids, b) && Idle(s.dispatcher) && |s.dispatcher.threads| == 1
  }

  /** The steps that bring one delivered message to its handler. */
  const OneMessage: seq<E.SystemStep> :=
    [E.HandOver, E.Enqueue, E.Other(D.Test(0)), E.Other(D.TryPop(0)), E.Other(D.CallBack(0))]

  lemma HandOverRuns(s: E.System, item: D.Item<Message>, ids: iset<i32>)
    requires E.Sound(s) && Idle(s.dispatcher) && |s.dispatcher.threads| == 1 && E.Enabled(s, E.HandOver, ids)
    requires var push := D.TestPush(E.RECEIVER, item.id, D.Some(item.msg));
             && D.Enabled(s.dispatcher, push)
             && E.Next(s, E.HandOver, ids) == s.(handed := s.handed + 1, dispatcher := D.Next(s.dispatcher, push))
    ensures E.Possible(s, OneMessage, ids)
    ensures var t := E.Run(s, OneMessage, ids);
            Idle(t.dispatcher) && |t.dispatcher.threads| == 1 && t.conn == s.conn && t.handed == s.handed + 1
  {
    assert D.Shard(item.id, 1) == 0;
    var da, db, dc, dd, dt := StepsOfOne(s.dispatcher, item, 0);
    hide Idle, D.Next, D.Enabled, Transmit, D.Shard, Turn;
    var a := E.Next(s, E.HandOver, ids);
    SystemRunFive(s, OneMessage, ids, a,
                  a.(dispatcher := db), a.(dispatcher := dc), a.(dispatcher := dd), a.(dispatcher := dt));
  }

  lemma HandOverOne(s: E.System, sent: seq<Message>, ids: iset<i32>, b: seq<byte>)
    requires E.Sendable(sent) && Ready(s, sent, ids, b) && s.handed < |s.conn.delivered|
    ensures E.Possible(s, OneMessage, ids) && E.Received(OneMessage) == []
    ensures var t := E.Run(s, OneMessage, ids);
            Ready(t, sent, ids, b) && t.conn == s.conn && t.handed == s.handed + 1
  {
    var item := HandOverTests(s, sent, ids, b);
    hide Idle, E.Follows, E.Run, E.Possible, E.Enabled, E.Next, D.Next, D.Enabled;
    HandOverRuns(s, item, ids);
    NothingReceived();
    StreamBound(s, sent, ids, b);
    assert b + [] == b;
    E.RunFollows(s, sent, ids, b, OneMessage);
  }

  /** The first of these steps succeeds and leaves the push between its two steps. */
  lemma HandOverTests(s: E.System, sent: seq<Message>, ids: iset<i32>, b: seq<byte>) returns (item: D.Item<Message>)
    requires E.Sendable(sent) && Ready(s, sent, ids, b) && s.handed < |s.conn.delivered|
    ensures E.Enabled(s, E.HandOver, ids)
    ensures var push := D.TestPush(E.RECEIVER, item.id, D.Some(item.msg));
            && D.Enabled(s.dispatcher, push)
            && E.Next(s, E.HandOver, ids) == s.(handed := s.handed + 1, dispatcher := D.Next(s.dispatcher, push))
  {
    NotFailed(s, sent, ids, b);
    E.HandOverFollows(s, sent, ids, b);
    NotFailed(E.Next(s, E.HandOver, ids), sent, ids, b);
    hide E.Follows, Transmit, D.Next;
    var f := s.conn.delivered[s.handed];
    var m := Transmit(f.header, f.body).message;
    item := D.Item(m.header.roleId, m);
  }

  lemma SystemRunFive(s: E.System, es: seq<E.SystemStep>, ids: iset<i32>,
                      a: E.System, b: E.System, c: E.System, d: E.System, t: E.System)
    requires |es| == 5 && E.Sound(s) && E.Sound(a) && E.Sound(b) && E.Sound(c) && E.Sound(d)
    requires E.Enabled(s, es[0], ids) && a == E.Next(s, es[0], ids)
    requires E.Enabled(a, es[1], ids) && b == E.Next(a, es[1], ids)
    requires E.Enabled(b, es[2], ids) && c == E.Next(b, es[2], ids)
    requires E.Enabled(c, es[3], ids) && d == E.Next(c, es[3], ids)
    requires E.Enabled(d, es[4], ids) && t == E.Next(d, es[4], ids)
    ensures E.Possible(s, es, ids) && E.Run(s, es, ids) == t
  {
    hide E.Next, E.Enabled, E.Sound;
    var e1, e2, e3, e4 := es[1..], es[1..][1..], es[1..][1..][1..], es[1..][1..][1..][1..];
    assert e1[0] == es[1] && e2[0] == es[2] && e3[0] == es[3] && e4[0] == es[4] && e4[1..] == [];
    assert E.Possible(t, [], ids) && E.Run(t, [], ids) == t;
    assert E.Possible(d, e4, ids) && E.Run(d, e4, ids) == t;
    assert E.Possible(c, e3, ids) && E.Run(c, e3, ids) == t;
    assert E.Possible(b, e2, ids) && E.Run(b, e2, ids) == t;
    assert E.Possible(a, e1, ids) && E.Run(a, e1, ids) == t;
  }

  lemma NothingReceived()
    ensures E.Received(OneMessage) == []
  {
  }

  lemma NotFailed(s: E.System, sent: seq<Message>, ids: iset<i32>, b: seq<byte>)
    requires E.Follows(s, sent, ids, b)
    ensures !s.failed
  {
  }

  lemma StreamBound(s: E.System, sent: seq<Message>, ids: iset<i32>, b: seq<byte>)
    requires E.Follows(s, sent, ids, b)
    ensures b <= E.StreamOf(sent)
  {
  }

  lemma {:induction false} HandOverAll(s: E.System, sent: seq<Message>, ids: iset<i32>, b: seq<byte>)
    returns (es: seq<E.SystemStep>)
    requires E.Sendable(sent) && Ready(s, sent, ids, b) && s.handed <= |s.conn.delivered|
    ensures E.Sound(s) && E.Possible(s, es, ids) && E.Received(es) == []
    ensures var t := E.Run(s, es, ids);
            Ready(t, sent, ids, b) && t.conn == s.conn && t.handed == |t.conn.delivered|
    decreases |s.conn.delivered| - s.handed
  {
    assert E.Sound(s);
    hide Ready, E.Sound, E.Sendable;
    if s.handed == |s.conn.delivered| {
      es := [];
    } else {
      HandOverOne(s, sent, ids, b);
      var t := E.Run(s, OneMessage, ids);
      var rest := HandOverAll(t, sent, ids, b);
      SystemRunAppend(s, OneMessage, rest, ids);
      es := OneMessage + rest;
    }
  }

  lemma ReadKeepsReady(s: E.System, sent: seq<Message>, ids: iset<i32>, b: seq<byte>, chunk: seq<byte>)
    requires E.Sendable(sent) && Ready(s, sent, ids, b) && s.handed == |s.conn.delivered|
    requires |chunk| <= s.conn.Writable() && b + chunk <= E.StreamOf(sent)
    ensures E.Sound(s) && E.Enabled(s, E.Read(chunk), ids)
    ensures var t := E.Next(s, E.Read(chunk), ids);
            Ready(t, sent, ids, b + chunk) && t.conn == Turn(s.conn, chunk) && t.handed <= |t.conn.delivered|
  {
    hide Turn, E.StreamOf;
    E.ReadFollows(s, sent, ids, b, chunk);
    DeliveredStays(E.Next(s, E.Read(chunk), ids), sent, ids, b + chunk);
  }

  lemma DeliveredStays(s: E.System, sent: seq<Message>, ids: iset<i32>, b: seq<byte>)
    requires E.Follows(s, sent, ids, b)
    ensures s.handed <= |s.conn.delivered| && s.conn.status == Reading && s.conn.InBounds() && Mirrors(s.conn, b)
  {
  }

  /** The peer always sends as much as fits; everything delivered is handed over before the next read. */
  lemma {:induction false} DeliverAll(s: E.System, sent: seq<Message>, ids: iset<i32>, b: seq<byte>, stream: seq<byte>)
    returns (es: seq<E.SystemStep>)
    requires E.Sendable(sent) && Ready(s, sent, ids, b) && s.handed == |s.conn.delivered|
    requires s.conn.status == Reading && s.conn.InBounds() && b + stream == E.StreamOf(sent)
    ensures E.Sound(s) && E.Possible(s, es, ids) && E.Received(es) == stream
    ensures var t := E.Run(s, es, ids);
            Ready(t, sent, ids, E.StreamOf(sent)) && t.handed == |t.conn.delivered|
    decreases |stream|, if s.conn.Writable() == 0 then 1 else 0
  {
    hide Ready, E.StreamOf, E.Next, E.Enabled, E.Sendable, E.Run, E.Possible, E.Received, Turn;
    if stream == [] {
      es := [];
      assert b + [] == b;
      NoStep(s, sent, ids, b);
    } else {
      var k := if |stream| < s.conn.Writable() then |stream| else s.conn.Writable();
      var chunk, later := stream[..k], stream[k..];
      assert chunk + later == stream;
      Assoc(b, chunk, later);
      ReadKeepsReady(s, sent, ids, b, chunk);
      SystemRunOne(s, E.Read(chunk), ids);
      var u := E.Next(s, E.Read(chunk), ids);
      var handOver := HandOverAll(u, sent, ids, b + chunk);
      SystemRunAppend(s, [E.Read(chunk)], handOver, ids);
      var v := E.Run(u, handOver, ids);
      ReadyReads(v, sent, ids, b + chunk);
      if k == 0 {
        assert chunk == [] && b + chunk == b;
        RoomAgain(s, sent, ids, b);
      }
      var rest := DeliverAll(v, sent, ids, b + chunk, later);
      SystemRunAppend(s, [E.Read(chunk)] + handOver, rest, ids);
      es := [E.Read(chunk)] + handOver + rest;
      assert chunk + [] == chunk;
    }
  }

  lemma NoStep(s: E.System, sent: seq<Message>, ids: iset<i32>, b: seq<byte>)
    requires Ready(s, sent, ids, b)
    ensures E.Sound(s) && E.Possible(s, [], ids) && E.Run(s, [], ids) == s && E.Received([]) == []
  {
  }

  lemma ReadyReads(s: E.System, sent: seq<Message>, ids: iset<i32>, b: seq<byte>)
    requires Ready(s, sent, ids, b)
    ensures s.conn.status == Reading && s.conn.InBounds() && E.Sound(s)
  {
    DeliveredStays(s, sent, ids, b);
  }

  lemma RoomAgain(s: E.System, sent: seq<Message>, ids: iset<i32>, b: seq<byte>)
    requires E.Sendable(sent) && Ready(s, sent, ids, b) && s.conn.status == Reading && s.conn.InBounds()
    requires s.conn.Writable() == 0
    ensures Turn(s.conn, []).status == Reading && Turn(s.conn, []).Writable() >= 1
  {
    DeliveredStays(s, sent, ids, b);
    StreamBound(s, sent, ids, b);
    E.WiresAreValid(sent);
    RoomAfterZeroRead(E.Wires(sent), s.conn, b);
  }

  /** A client with one connection can receive and handle everything that was sent, in order. */
  lemma CompleteClient(sent: seq<Message>) returns (es: seq<E.SystemStep>)
    requires E.Sendable(sent)
    ensures E.Possible(E.Begin(1), es, D.ShardIds(1, 0)) && E.Received(es) == E.StreamOf(sent)
    ensures E.Run(E.Begin(1), es, D.ShardIds(1, 0)).dispatcher.dispatched == E.Items(sent)
  {
    var ids := D.ShardIds(1, 0);
    E.BeginFollows(sent, ids, 1);
    BeginReady(sent, ids);
    hide E.Possible, E.Run, E.Received, E.StreamOf, E.Sendable, Ready, D.ShardIds;
    assert [] + E.StreamOf(sent) == E.StreamOf(sent);
    es := DeliverAll(E.Begin(1), sent, ids, [], E.StreamOf(sent));
    AllHandled(E.Run(E.Begin(1), es, ids), sent);
  }

  lemma BeginReady(sent: seq<Message>, ids: iset<i32>)
    requires E.Follows(E.Begin(1), sent, ids, [])
    ensures Ready(E.Begin(1), sent, ids, [])
    ensures E.Begin(1).conn.status == Reading && E.Begin(1).conn.InBounds() && E.Begin(1).handed == 0
    ensures E.Begin(1).conn.delivered == []
  {
  }

  lemma AllHandled(t: E.System, sent: seq<Message>)
    requires E.Sendable(sent) && Ready(t, sent, D.ShardIds(1, 0), E.StreamOf(sent)) && t.handed == |t.conn.delivered|
    ensures t.dispatcher.dispatched == E.Items(sent)
  {
    hide Split, D.Select;
    var d, ids := t.dispatcher, D.ShardIds(1, 0);
    DeliveredStays(t, sent, ids, E.StreamOf(sent));
    E.WiresAreValid(sent);
    SplitOfStream(E.Wires(sent));
    assert t.handed == |sent| && sent[..t.handed] == sent;
    D.IdsInOrder(d, ids, 0);
    assert D.Owed(d.threads[0]) == [];
    D.SelectAll(d.accepted, ids);
    D.SelectAll(d.dispatched, ids);
    D.SelectAll<Message>([], ids);
    D.SelectAll(E.Items(sent), ids);
    assert d.accepted + E.InFlight(d) == d.accepted && d.dispatched + [] == d.dispatched;
  }
}
