/** GameServer/GameServerExample.cpp as one player sees it: everything that is queued to a role, packet by packet, over
    all runs. Nothing here refers to the steps of the server; only the events and what was pending or recorded count. */
module RoomView {
  import opened Bytes
  import opened Sequences
  import opened FrameSync

  /** The packets queued to role r, in order. */
  function PacketsTo<M>(outbox: seq<Queued<M>>, r: i32): seq<Packet<M>> {
    if outbox == [] then []
    else (if outbox[0].role == r then [outbox[0].packet] else []) + PacketsTo(outbox[1..], r)
  }

  lemma {:induction false} PacketsToAppend<M>(a: seq<Queued<M>>, b: seq<Queued<M>>, r: i32)
    ensures PacketsTo(a + b, r) == PacketsTo(a, r) + PacketsTo(b, r)
  {
    if a == [] {
      assert a + b == b;
    } else {
      PacketsToAppend(a[1..], b, r);
      assert (a + b)[1..] == a[1..] + b;
      Assoc(if a[0].role == r then [a[0].packet] else [], PacketsTo(a[1..], r), PacketsTo(b, r));
    }
  }

  lemma PacketsToOne<M>(q: Queued<M>, r: i32)
    ensures PacketsTo([q], r) == if q.role == r then [q.packet] else []
  {
    var one := [q];
    assert one[1..] == [];
  }

  /** What decides the packets of a role: how often it is listed, the messages pending, and those recorded. */
  datatype View<M> = View(listed: nat, pending: seq<M>, recorded: seq<M>)

  function ViewOf<M>(s: State<M>, r: i32): View<M> {
    View(Count(s.roles, r), s.pending, Flat(s.records))
  }

  function ViewAfter<M>(v: View<M>, e: Event<M>, r: i32): View<M> {
    match e
    case Control(m, _) => v.(pending := v.pending + [m])
    case Update => v.(pending := [], recorded := v.recorded + v.pending)
    case EnterRoom(role, _, _) => if role == r then v.(listed := v.listed + 1) else v
    case Disconnect(role) => if role == r && v.listed > 0 then v.(listed := v.listed - 1) else v
    case Ping(_, _) => v
  }

  function AsControls<M>(msgs: seq<M>): seq<Packet<M>> {
    seq(|msgs|, i requires 0 <= i < |msgs| => ControlPacket(msgs[i]))
  }

  /** The packets of role r that one event leads to. */
  function SentBy<M>(v: View<M>, e: Event<M>, r: i32): seq<Packet<M>> {
    match e
    case Control(_, _) => []
    case Update => AsControls(Copies(v.listed, v.pending))
    case EnterRoom(role, m, now) =>
      if role == r then Welcome(v, r, now) + [EnterReply(m)]
      else if role == 2 then Times(v.listed, GameStartPacket(now))
      else []
    case Disconnect(_) => []
    case Ping(role, m) => if role == r then [Pong(m)] else []
  }

  /** What comes before the reply to the own entry. */
  function Welcome<M>(v: View<M>, r: i32, now: u64): seq<Packet<M>> {
    if r == 2 then Times(v.listed + 1, GameStartPacket(now))
    else if r == 3 then [GameStartPacket(now)] + AsControls(v.recorded)
    else []
  }

  function SentOver<M>(v: View<M>, es: seq<Event<M>>, r: i32): seq<Packet<M>>
    decreases |es|
  {
    if es == [] then [] else SentBy(v, es[0], r) + SentOver(ViewAfter(v, es[0], r), es[1..], r)
  }

  lemma {:induction false} BroadcastTo<M>(p: Packet<M>, roles: seq<i32>, r: i32)
    ensures PacketsTo(Broadcast(p, roles), r) == Times(Count(roles, r), p)
  {
    if roles != [] {
      BroadcastTo(p, roles[1..], r);
      assert Broadcast(p, roles)[1..] == Broadcast(p, roles[1..]);
    }
  }

  lemma AsControlsAppend<M>(a: seq<M>, b: seq<M>)
    ensures AsControls(a + b) == AsControls(a) + AsControls(b)
  {
  }

  lemma {:induction false} BroadcastAllTo<M>(msgs: seq<M>, roles: seq<i32>, r: i32)
    ensures PacketsTo(BroadcastAll(msgs, roles), r) == AsControls(Copies(Count(roles, r), msgs))
  {
    if msgs != [] {
      var n, first := Count(roles, r), Broadcast(ControlPacket(msgs[0]), roles);
      BroadcastTo(ControlPacket(msgs[0]), roles, r);
      BroadcastAllTo(msgs[1..], roles, r);
      PacketsToAppend(first, BroadcastAll(msgs[1..], roles), r);
      AsControlsAppend(Times(n, msgs[0]), Copies(n, msgs[1..]));
      assert AsControls(Times(n, msgs[0])) == Times(n, ControlPacket(msgs[0]));
    }
  }

  lemma {:induction false} ReplayTo<M>(msgs: seq<M>, role: i32, r: i32)
    ensures PacketsTo(Replay(msgs, role), r) == if role == r then AsControls(msgs) else []
  {
    if msgs != [] {
      ReplayTo(msgs[1..], role, r);
      assert Replay(msgs, role)[1..] == Replay(msgs[1..], role);
      if role == r {
        assert msgs == [msgs[0]] + msgs[1..];
        AsControlsAppend([msgs[0]], msgs[1..]);
      }
    }
  }

  lemma EnterSends<M>(s: State<M>, role: i32, m: M, now: u64, r: i32)
    ensures PacketsTo(EnterStep(s, role, m, now).outbox, r) ==
            PacketsTo(s.outbox, r) + SentBy(ViewOf(s, r), EnterRoom(role, m, now), r)
  {
    hide Flat, PacketsTo, Broadcast, Replay, Times;
    var reply: seq<Queued<M>> := [Queued(role, EnterReply(m))];
    var start: seq<Queued<M>> := [Queued(role, GameStartPacket(now))];
    var roles, replay := s.roles + [role], Replay(Flat(s.records), role);
    var greet: Packet<M> := GameStartPacket(now);
    CountAppend(s.roles, role, r);
    PacketsToOne(reply[0], r);
    PacketsToOne(start[0], r);
    ReplayTo(Flat(s.records), role, r);
    PacketsToAppend(start, replay, r);
    BroadcastTo(greet, roles, r);
    var welcome :=
      if role == START_ROLE then Broadcast(greet, roles) else if role == REPLAY_ROLE then start + replay else [];
    PacketsToAppend(s.outbox, welcome, r);
    PacketsToAppend(s.outbox + welcome, reply, r);
    assert PacketsTo<M>([], r) == [] by {
      NoPackets<M>(r);
    }
    Assoc(PacketsTo(s.outbox, r), PacketsTo(welcome, r), PacketsTo(reply, r));
  }

  lemma NoPackets<M>(r: i32)
    ensures PacketsTo<M>([], r) == []
  {
  }

  lemma StepSends<M>(s: State<M>, e: Event<M>, r: i32)
    requires s.sending == []
    ensures Step(s, e).sending == [] && ViewOf(Step(s, e), r) == ViewAfter(ViewOf(s, r), e, r)
    ensures PacketsTo(Step(s, e).outbox, r) == PacketsTo(s.outbox, r) + SentBy(ViewOf(s, r), e, r)
  {
    hide Flat, PacketsTo, Count, Copies;
    match e {
      case Update =>
        UpdateFlat(s);
        BroadcastAllTo(s.pending, s.roles, r);
        PacketsToAppend(s.outbox, BroadcastAll(s.pending, s.roles), r);
      case EnterRoom(role, m, now) =>
        CountAppend(s.roles, role, r);
        EnterSends(s, role, m, now, r);
      case Disconnect(role) =>
        if role == r {
          CountAfterLeaving(s.roles, r);
        } else {
          CountRemove(s.roles, role, r);
        }
      case Ping(role, m) =>
        PacketsToOne(Queued(role, Pong(m)), r);
        PacketsToAppend(s.outbox, [Queued(role, Pong(m))], r);
      case Control(_, _) =>
    }
  }

  /** Over all runs, what a role is queued follows from its own view. */
  lemma {:induction false} RunSends<M>(s: State<M>, es: seq<Event<M>>, r: i32)
    requires s.sending == []
    ensures PacketsTo(Run(s, es).outbox, r) == PacketsTo(s.outbox, r) + SentOver(ViewOf(s, r), es, r)
    decreases |es|
  {
    hide Step, PacketsTo, ViewAfter, ViewOf, SentBy;
    if es == [] {
      assert PacketsTo(s.outbox, r) + [] == PacketsTo(s.outbox, r);
    } else {
      var v := ViewOf(s, r);
      StepSends(s, es[0], r);
      RunSends(Step(s, es[0]), es[1..], r);
      Assoc(PacketsTo(s.outbox, r), SentBy(v, es[0], r), SentOver(ViewAfter(v, es[0], r), es[1..], r));
    }
  }

  // Replies.

  /** The messages of the own entries and of the own pings of a role, in order. */
  function OwnEntries<M>(es: seq<Event<M>>, r: i32): seq<M> {
    if es == [] then [] else (if es[0].EnterRoom? && es[0].role == r then [es[0].m] else []) + OwnEntries(es[1..], r)
  }

  function OwnPings<M>(es: seq<Event<M>>, r: i32): seq<M> {
    if es == [] then [] else (if es[0].Ping? && es[0].role == r then [es[0].m] else []) + OwnPings(es[1..], r)
  }

  function EntryReplies<M>(ps: seq<Packet<M>>): seq<M> {
    if ps == [] then [] else (if ps[0].EnterReply? then [ps[0].msg] else []) + EntryReplies(ps[1..])
  }

  function Pongs<M>(ps: seq<Packet<M>>): seq<M> {
    if ps == [] then [] else (if ps[0].Pong? then [ps[0].msg] else []) + Pongs(ps[1..])
  }

  lemma {:induction false} RepliesAppend<M>(a: seq<Packet<M>>, b: seq<Packet<M>>)
    ensures EntryReplies(a + b) == EntryReplies(a) + EntryReplies(b) && Pongs(a + b) == Pongs(a) + Pongs(b)
  {
    if a == [] {
      assert a + b == b;
    } else {
      RepliesAppend(a[1..], b);
      assert (a + b)[1..] == a[1..] + b;
      Assoc(if a[0].EnterReply? then [a[0].msg] else [], EntryReplies(a[1..]), EntryReplies(b));
      Assoc(if a[0].Pong? then [a[0].msg] else [], Pongs(a[1..]), Pongs(b));
    }
  }

  lemma {:induction false} NoReplies<M>(ps: seq<Packet<M>>)
    requires forall i :: 0 <= i < |ps| ==> !ps[i].EnterReply? && !ps[i].Pong?
    ensures EntryReplies(ps) == [] && Pongs(ps) == []
  {
    if ps != [] {
      NoReplies(ps[1..]);
    }
  }

  lemma RepliesBy<M>(v: View<M>, e: Event<M>, r: i32)
    ensures EntryReplies(SentBy(v, e, r)) == if e.EnterRoom? && e.role == r then [e.m] else []
    ensures Pongs(SentBy(v, e, r)) == if e.Ping? && e.role == r then [e.m] else []
  {
    match e {
      case EnterRoom(role, m, now) =>
        NoReplies(Welcome(v, r, now));
        RepliesAppend(Welcome(v, r, now), [EnterReply(m)]);
        NoReplies(Times(v.listed, Packet<M>.GameStartPacket(now)));
        var reply: seq<Packet<M>> := [EnterReply(m)];
        assert reply[1..] == [];
      case Update =>
        NoReplies(AsControls(Copies(v.listed, v.pending)));
      case Ping(role, m) =>
        var pong: seq<Packet<M>> := [Pong(m)];
        assert pong[1..] == [];
      case _ =>
    }
  }

  lemma {:induction false} RepliesOver<M>(v: View<M>, es: seq<Event<M>>, r: i32)
    ensures EntryReplies(SentOver(v, es, r)) == OwnEntries(es, r) && Pongs(SentOver(v, es, r)) == OwnPings(es, r)
    decreases |es|
  {
    hide SentBy, ViewAfter, EntryReplies, Pongs;
    if es == [] {
      assert EntryReplies<M>([]) == [] && Pongs<M>([]) == [] by {
        NoReplies<M>([]);
      }
    } else {
      RepliesBy(v, es[0], r);
      RepliesOver(ViewAfter(v, es[0], r), es[1..], r);
      RepliesAppend(SentBy(v, es[0], r), SentOver(ViewAfter(v, es[0], r), es[1..], r));
    }
  }

  /** Over all runs: every role is queued exactly one reply to each of its entries and pings, with the message it sent,
      in the order of sending; none goes to another role. */
  lemma EveryRequestIsAnswered<M>(es: seq<Event<M>>, r: i32)
    ensures EntryReplies(PacketsTo(Run(Initial(), es).outbox, r)) == OwnEntries(es, r)
    ensures Pongs(PacketsTo(Run(Initial(), es).outbox, r)) == OwnPings(es, r)
  {
    hide Run, SentOver, EntryReplies, Pongs, OwnEntries, OwnPings;
    RunSends(Initial(), es, r);
    NoPackets<M>(r);
    assert [] + SentOver(ViewOf(Initial(), r), es, r) == SentOver(ViewOf(Initial(), r), es, r);
    RepliesOver(ViewOf(Initial(), r), es, r);
  }

  /** In any state, the last packet of an own entry is its reply: behind the game start for roles 2 and 3 and the whole
      record for role 3, with the time of the entry. */
  lemma EntryIsAnsweredLast<M>(s: State<M>, r: i32, m: M, now: u64)
    requires s.sending == [] && Count(s.roles, r) == 0
    ensures PacketsTo(Step(s, EnterRoom(r, m, now)).outbox, r) ==
            PacketsTo(s.outbox, r) +
              if r == 2 then [GameStartPacket(now), EnterReply(m)]
              else if r == 3 then [GameStartPacket(now)] + AsControls(Flat(s.records)) + [EnterReply(m)]
              else [EnterReply(m)]
  {
    hide Flat, PacketsTo, EnterStep;
    StepSends(s, EnterRoom(r, m, now), r);
    assert Times(1, GameStartPacket(now)) == [Packet<M>.GameStartPacket(now)];
    assert Welcome(ViewOf(s, r), r, now) + [EnterReply(m)] == SentBy(ViewOf(s, r), EnterRoom(r, m, now), r);
  }

  /** A role that left and stays away is queued nothing more. */
  lemma {:induction false} GoneIsSilent<M>(v: View<M>, es: seq<Event<M>>, r: i32)
    requires v.listed == 0 && forall e :: e in es && (e.EnterRoom? || e.Ping?) ==> e.role != r
    ensures SentOver(v, es, r) == []
    decreases |es|
  {
    if es != [] {
      assert es[0] in es;
      CopiesOnce(v.pending);
      assert SentBy(v, es[0], r) == [];
      GoneIsSilent(ViewAfter(v, es[0], r), es[1..], r);
    }
  }

  /** A player that was listed once and disconnects is queued nothing more, whatever the others do. */
  lemma DisconnectSilences<M>(s: State<M>, r: i32, es: seq<Event<M>>)
    requires s.sending == [] && Count(s.roles, r) <= 1
    requires forall e :: e in es && (e.EnterRoom? || e.Ping?) ==> e.role != r
    ensures PacketsTo(Run(Step(s, Disconnect(r)), es).outbox, r) == PacketsTo(s.outbox, r)
  {
    hide Run, SentOver, PacketsTo;
    var t := Step(s, Disconnect(r));
    StepSends(s, Disconnect(r), r);
    RunSends(t, es, r);
    GoneIsSilent(ViewOf(t, r), es, r);
    assert PacketsTo(s.outbox, r) + [] == PacketsTo(s.outbox, r);
  }

  // The order across roles.

  /** A broadcast goes to the listed roles in the order of the list. */
  lemma {:induction false} BroadcastAt<M>(p: Packet<M>, roles: seq<i32>)
    ensures |Broadcast(p, roles)| == |roles|
    ensures forall i :: 0 <= i < |roles| ==> Broadcast(p, roles)[i] == Queued(roles[i], p)
  {
    if roles != [] {
      BroadcastAt(p, roles[1..]);
    }
  }

  function Entrants<M>(es: seq<Event<M>>): seq<i32> {
    if es == [] then [] else (if es[0].EnterRoom? then [es[0].role] else []) + Entrants(es[1..])
  }

  /** Roles are listed in the order in which they entered, until one leaves. */
  lemma {:induction false} ListedInOrderOfEntry<M>(s: State<M>, es: seq<Event<M>>)
    requires forall e :: e in es ==> !e.Disconnect?
    ensures Run(s, es).roles == s.roles + Entrants(es)
    decreases |es|
  {
    if es == [] {
      assert s.roles + [] == s.roles;
    } else {
      assert es[0] in es;
      assert Step(s, es[0]).roles == s.roles + if es[0].EnterRoom? then [es[0].role] else [];
      ListedInOrderOfEntry(Step(s, es[0]), es[1..]);
      Assoc(s.roles, if es[0].EnterRoom? then [es[0].role] else [], Entrants(es[1..]));
    }
  }
}
