/** GameClient/GameClient.cpp:156-170: a client that enters a room waits for the reply. When it gets one, and which. */
module RoomReplies {
  import opened Bytes
  import opened Sequences
  import Codec
  import F = FrameSync
  import D = DispatchSteps
  import E = EndToEnd
  import S = SyncReplies
  import opened GameClients
  import opened RoomView
  import opened SharedGame

  lemma {:induction false} EntriesAppend<M>(a: seq<F.Event<M>>, b: seq<F.Event<M>>, r: i32)
    ensures OwnEntries(a + b, r) == OwnEntries(a, r) + OwnEntries(b, r)
  {
    if a == [] {
      assert a + b == b;
    } else {
      EntriesAppend(a[1..], b, r);
      assert (a + b)[1..] == a[1..] + b;
      Assoc(if a[0].EnterRoom? && a[0].role == r then [a[0].m] else [], OwnEntries(a[1..], r), OwnEntries(b, r));
    }
  }

  lemma {:induction false} NoEntries<M>(es: seq<F.Event<M>>, r: i32)
    requires F.Stays(es, r)
    ensures OwnEntries(es, r) == []
  {
    if es != [] {
      assert es[0] in es;
      NoEntries(es[1..], r);
    }
  }

  lemma OneEntry<M>(before: seq<F.Event<M>>, r: i32, m: M, now: u64, after: seq<F.Event<M>>)
    requires F.Stays(before, r) && F.Stays(after, r)
    ensures OwnEntries(Joined(before, r, m, now, after), r) == [m]
  {
    var one: seq<F.Event<M>> := [F.EnterRoom(r, m, now)];
    assert one[1..] == [];
    NoEntries(before, r);
    NoEntries(after, r);
    EntriesAppend(before, one, r);
    EntriesAppend(before + one, after, r);
  }

  /** The reply to the entry with message m. */
  function ReplyTo(m: Codec.Message): Codec.Message {
    Codec.Message(m.header, Codec.EnterRoom(if m.body.EnterRoom? then m.body.roomId else 0, 0))
  }

  /** Only the reply to the one entry resolves the future of its id, and once everything has arrived it does. */
  lemma {:induction false} ReplyAmong<M>(s: F.State<M>, base: M -> Codec.Message, items: seq<D.Item<Codec.Message>>,
                                         ps: seq<F.Packet<M>>, m: M)
    requires AllBring(s, base, items, ps) && AllProper(base, ps) && EntryReplies(ps) == [m]
    requires base(m).header.uniqueId != 0
    requires forall x :: x in Pongs(ps) ==> base(x).header.uniqueId != base(m).header.uniqueId
    ensures base(m).body.EnterRoom?
    ensures var first := S.FirstReply(RepliesOf(items), base(m).header.uniqueId);
            (first == D.None || first == D.Some(ReplyTo(base(m)))) && (|items| == |ps| ==> first.Some?)
    decreases |ps|
  {
    assert ps[0] in ps && Proper(base, ps[0]);
    if ps[0].EnterReply? {
      assert EntryReplies(ps)[0] == ps[0].msg;
      if items != [] {
        assert Brings(s, base, items[0], ps[0]);
        assert RepliesOf(items)[0] == S.Reply(base(m).header.uniqueId, ReplyTo(base(m)));
      }
    } else {
      var later := if items == [] then [] else items[1..];
      assert forall p :: p in ps[1..] ==> p in ps;
      assert EntryReplies(ps[1..]) == [m];
      assert forall i :: 0 <= i < |later| ==> Brings(s, base, later[i], ps[1..][i]) by {
        assert forall i :: 0 <= i < |later| ==> later[i] == items[i + 1] && ps[1..][i] == ps[i + 1];
      }
      ReplyAmong(s, base, later, ps[1..], m);
      if items != [] {
        assert Brings(s, base, items[0], ps[0]);
        OtherReply(items, base(m).header.uniqueId) by {
          if ps[0].Pong? {
            assert Pongs(ps)[0] == ps[0].msg;
          }
        }
      }
    }
  }

  lemma OtherReply(items: seq<D.Item<Codec.Message>>, id: u32)
    requires items != [] && (items[0].msg.header.uniqueId == 0 || items[0].msg.header.uniqueId != id)
    ensures S.FirstReply(RepliesOf(items), id) == S.FirstReply(RepliesOf(items[1..]), id)
  {
    if items[0].msg.header.uniqueId != 0 {
      assert RepliesOf(items)[1..] == RepliesOf(items[1..]);
    } else {
      assert RepliesOf(items) == RepliesOf(items[1..]);
    }
  }

  /** What a waiting client can get, on every way of delivery: nothing yet, or the reply to its own entry, with its id,
      its header and room, and result 0. No ping of the role may carry the same id. */
  lemma OnlyOwnReplyArrives<M>(before: seq<F.Event<M>>, r: i32, m: M, now: u64, after: seq<F.Event<M>>,
                               t: F.State<M>, base: M -> Codec.Message,
                               threads: nat, steps: seq<D.Step<F.Packet<M>>>, es: seq<E.SystemStep>)
    requires t == F.Run(F.Initial(), Joined(before, r, m, now, after)) && F.Stays(before, r) && F.Stays(after, r)
    requires OnTheWay(t, base, r, threads, steps, es)
    requires base(m).header.uniqueId != 0
    requires forall x :: x in OwnPings(Joined(before, r, m, now, after), r) ==>
               base(x).header.uniqueId != base(m).header.uniqueId
    ensures base(m).body.EnterRoom?
    ensures var first := S.FirstReply(RepliesOf(Seen(es)), base(m).header.uniqueId);
            && (first == D.None || first == D.Some(ReplyTo(base(m))))
            && (|Seen(es)| == |PacketsTo(t.outbox, r)| ==> first.Some?)
  {
    assert AllProper(base, D.OfRole(ItemsOf(t.outbox), r)) && E.Possible(E.Begin(1), es, D.ShardIds(1, 0));
    hide F.Run, OnTheWay, E.Possible, D.ShardIds, Joined, OwnEntries, OwnPings, AllBring, AllProper, D.OfRole, Seen;
    PacketsOfRole(t.outbox, r);
    ArrivalsArePrefix(t, base, r, threads, steps, es);
    EveryRequestIsAnswered(Joined(before, r, m, now, after), r);
    OneEntry(before, r, m, now, after);
    ReplyAmong(t, base, Seen(es), PacketsTo(t.outbox, r), m);
  }

  /** And it can get it: some delivery resolves the future of the request. If the entry is the first synchronous request
      of the client, its id is 1. */
  lemma ReplyCanArrive<M>(before: seq<F.Event<M>>, r: i32, m: M, now: u64, after: seq<F.Event<M>>,
                          t: F.State<M>, base: M -> Codec.Message, threads: nat)
    returns (steps: seq<D.Step<F.Packet<M>>>, es: seq<E.SystemStep>)
    requires t == F.Run(F.Initial(), Joined(before, r, m, now, after)) && F.Stays(before, r) && F.Stays(after, r)
    requires threads > 0 && AllProper(base, D.OfRole(ItemsOf(t.outbox), r))
    requires base(m).header.uniqueId != 0
    requires forall x :: x in OwnPings(Joined(before, r, m, now, after), r) ==>
               base(x).header.uniqueId != base(m).header.uniqueId
    ensures OnTheWay(t, base, r, threads, steps, es) && base(m).body.EnterRoom?
    ensures var reply := Codec.Message(base(m).header, Codec.EnterRoom(base(m).body.roomId, 0));
            && S.FirstReply(RepliesOf(Seen(es)), base(m).header.uniqueId) == D.Some(reply)
            && (base(m).header.uniqueId == 1 ==>
                  S.Run(S.Empty<Codec.Message>(), [S.Request(r)] + RepliesOf(Seen(es))).futures == [D.Some(reply)])
  {
    steps, es := EverythingCanArrive(t, base, r, threads);
    assert E.Possible(E.Begin(1), es, D.ShardIds(1, 0));
    hide F.Run, OnTheWay, E.Possible, D.ShardIds, Joined, OwnPings, AllProper, D.OfRole, Seen, S.Run;
    OnlyOwnReplyArrives(before, r, m, now, after, t, base, threads, steps, es);
    FirstRequestIsAnswered(r, Seen(es));
  }
}
