/** GameServer/GameServerExample.cpp as a state machine over atomic handler and Update steps. Messages are
    shared objects: M is their identity, and `ticks` is the tick each control message holds now. */
module FrameSync {
  import opened Bytes
  import opened Sequences

  datatype FrameInput<M> = FrameInput(frameNumber: u32, msgs: seq<M>)

  datatype Packet<M> = ControlPacket(msg: M) | EnterReply(msg: M) | Pong(msg: M) | GameStartPacket(timestamp: u64)

  datatype Queued<M> = Queued(role: i32, packet: Packet<M>)

  datatype State<M> = State(
    pending: seq<M>, sending: seq<M>, counter: u32, records: seq<FrameInput<M>>,
    roles: seq<i32>, outbox: seq<Queued<M>>, ticks: map<M, u32>)

  /** The frame counter starts at 1: it is initialised with `true`. */
  function Initial<M>(): State<M> {
    State([], [], 1, [], [], [], map[])
  }

  const START_ROLE: i32 := 2
  const REPLAY_ROLE: i32 := 3

  datatype Event<M> =
    | Control(m: M, tick: u32)
    | Update
    | EnterRoom(role: i32, m: M, now: u64)
    | Disconnect(role: i32)
    | Ping(role: i32, m: M)

  function Broadcast<M>(p: Packet<M>, roles: seq<i32>): seq<Queued<M>> {
    if roles == [] then [] else [Queued(roles[0], p)] + Broadcast(p, roles[1..])
  }

  function BroadcastAll<M>(msgs: seq<M>, roles: seq<i32>): seq<Queued<M>> {
    if msgs == [] then [] else Broadcast(ControlPacket(msgs[0]), roles) + BroadcastAll(msgs[1..], roles)
  }

  function Replay<M>(msgs: seq<M>, role: i32): seq<Queued<M>> {
    if msgs == [] then [] else [Queued(role, ControlPacket(msgs[0]))] + Replay(msgs[1..], role)
  }

  /** The flattened frame record. */
  function Flat<M>(records: seq<FrameInput<M>>): seq<M> {
    if records == [] then [] else records[0].msgs + Flat(records[1..])
  }

  function RemoveFirst(roles: seq<i32>, r: i32): seq<i32> {
    if roles == [] then [] else if roles[0] == r then roles[1..] else [roles[0]] + RemoveFirst(roles[1..], r)
  }

  lemma {:induction false} RemoveFirstAt(roles: seq<i32>, r: i32, i: nat)
    requires i <= |roles| && (forall j :: 0 <= j < i ==> roles[j] != r) && (i < |roles| ==> roles[i] == r)
    ensures RemoveFirst(roles, r) == if i < |roles| then roles[..i] + roles[i + 1..] else roles
  {
    if i > 0 {
      RemoveFirstAt(roles[1..], r, i - 1);
      assert i < |roles| ==> roles[..i] == [roles[0]] + roles[1..][..i - 1];
    }
  }

  function Stamp<M>(ticks: map<M, u32>, msgs: seq<M>, frame: u32): map<M, u32> {
    ticks + map m | m in msgs :: frame
  }

  function UpdateStep<M>(s: State<M>): State<M> {
    var frame := (s.counter + 1) % U32_MODULUS;
    State(s.sending, [], frame, s.records + [FrameInput(frame, s.pending)], s.roles,
          s.outbox + BroadcastAll(s.pending, s.roles), Stamp(s.ticks, s.pending, frame))
  }

  function EnterStep<M>(s: State<M>, role: i32, m: M, now: u64): State<M> {
    var roles := s.roles + [role];
    var welcome :=
      if role == START_ROLE then Broadcast(GameStartPacket(now), roles)
      else if role == REPLAY_ROLE then [Queued(role, GameStartPacket(now))] + Replay(Flat(s.records), role)
      else [];
    s.(roles := roles,
       counter := if role == START_ROLE then 0 else s.counter,
       outbox := s.outbox + welcome + [Queued(role, EnterReply(m))])
  }

  function Step<M>(s: State<M>, e: Event<M>): State<M> {
    match e
    case Control(m, tick) => s.(pending := s.pending + [m], ticks := s.ticks[m := tick])
    case Update => UpdateStep(s)
    case EnterRoom(role, m, now) => EnterStep(s, role, m, now)
    case Disconnect(role) => s.(roles := RemoveFirst(s.roles, role))
    case Ping(role, m) => s.(outbox := s.outbox + [Queued(role, Pong(m))])
  }

  function Run<M>(s: State<M>, es: seq<Event<M>>): State<M>
    decreases |es|
  {
    if es == [] then s else Run(Step(s, es[0]), es[1..])
  }

  // Conservation.

  /** The control messages accepted by a run, in order. */
  function Accepted<M>(es: seq<Event<M>>): seq<M> {
    if es == [] then [] else (if es[0].Control? then [es[0].m] else []) + Accepted(es[1..])
  }

  lemma {:induction false} FlatAppend<M>(a: seq<FrameInput<M>>, b: seq<FrameInput<M>>)
    ensures Flat(a + b) == Flat(a) + Flat(b)
  {
    if a == [] {
      assert a + b == b;
    } else {
      FlatAppend(a[1..], b);
      assert (a + b)[1..] == a[1..] + b;
      Assoc(a[0].msgs, Flat(a[1..]), Flat(b));
    }
  }

  lemma UpdateFlat<M>(s: State<M>)
    ensures Flat(UpdateStep(s).records) == Flat(s.records) + s.pending
  {
    var last := [FrameInput((s.counter + 1) % U32_MODULUS, s.pending)];
    FlatAppend(s.records, last);
    assert last[1..] == [];
    assert Flat(last) == s.pending + [];
  }

  function Log<M>(s: State<M>): seq<M> {
    Flat(s.records) + s.pending
  }

  lemma StepConserves<M>(s: State<M>, e: Event<M>)
    requires s.sending == []
    ensures Step(s, e).sending == []
    ensures Log(Step(s, e)) == Log(s) + (if e.Control? then [e.m] else [])
  {
    if e.Update? {
      UpdateFlat(s);
    }
  }

  /** In every run the flattened record followed by what is pending is what was accepted, in order, and
      nothing is being sent between updates. */
  lemma {:induction false} RecordConserves<M>(s: State<M>, es: seq<Event<M>>)
    requires s.sending == []
    ensures Run(s, es).sending == [] && Log(Run(s, es)) == Log(s) + Accepted(es)
    decreases |es|
  {
    if es == [] {
      assert Log(s) + [] == Log(s);
    } else {
      var one := if es[0].Control? then [es[0].m] else [];
      StepConserves(s, es[0]);
      RecordConserves(Step(s, es[0]), es[1..]);
      Assoc(Log(s), one, Accepted(es[1..]));
    }
  }

  // Ticks of recorded messages.

  ghost predicate Distinct<M>(s: seq<M>) {
    forall i, j :: 0 <= i < j < |s| ==> s[i] != s[j]
  }

  /** Handlers are given messages that are new objects. */
  ghost predicate NewObjects<M>(s: State<M>, es: seq<Event<M>>) {
    Distinct(Accepted(es)) && forall m :: m in Accepted(es) ==> m !in s.ticks
  }

  ghost predicate Stamped<M>(s: State<M>) {
    && s.sending == []
    && Distinct(Log(s))
    && (forall m :: m in Log(s) ==> m in s.ticks)
    && forall r, m :: r in s.records && m in r.msgs ==> m in s.ticks && s.ticks[m] == r.frameNumber
  }

  lemma {:induction false} RecordedIsFlat<M>(records: seq<FrameInput<M>>, r: FrameInput<M>, m: M)
    requires r in records && m in r.msgs
    ensures m in Flat(records)
  {
    if r != records[0] {
      RecordedIsFlat(records[1..], r, m);
    }
  }

  lemma UpdateStamps<M>(s: State<M>)
    requires Stamped(s)
    ensures Stamped(UpdateStep(s))
  {
    var t := UpdateStep(s);
    StepConserves(s, Update);
    assert Log(t) == Log(s);
    forall r, m | r in t.records && m in r.msgs
      ensures m in t.ticks && t.ticks[m] == r.frameNumber
    {
      if r in s.records {
        RecordedIsFlat(s.records, r, m);
        var i :| 0 <= i < |Flat(s.records)| && Flat(s.records)[i] == m;
        assert Log(s)[i] == m;
        assert forall j :: 0 <= j < |s.pending| ==> Log(s)[|Flat(s.records)| + j] == s.pending[j];
      }
    }
  }

  lemma ControlStamps<M>(s: State<M>, m: M, tick: u32)
    requires Stamped(s) && m !in s.ticks
    ensures Stamped(Step(s, Control(m, tick)))
  {
    var t := Step(s, Control(m, tick));
    StepConserves(s, Control(m, tick));
    forall r, x | r in t.records && x in r.msgs
      ensures x in t.ticks && t.ticks[x] == r.frameNumber
    {
      RecordedIsFlat(s.records, r, x);
    }
  }

  /** In every run on new messages each recorded message holds the number of the frame that recorded it,
      although it was stamped after it had been recorded, and no later step changes it. */
  lemma {:induction false} RecordedTicks<M>(s: State<M>, es: seq<Event<M>>)
    requires Stamped(s) && NewObjects(s, es)
    ensures Stamped(Run(s, es))
    decreases |es|
  {
    hide Stamped, NewObjects, UpdateStep, EnterStep, Step;
    if es != [] {
      StepStamps(s, es);
      RecordedTicks(Step(s, es[0]), es[1..]);
    }
  }

  /** Once recorded, a message keeps its tick. */
  lemma {:induction false} RecordedTicksStay<M>(s: State<M>, es: seq<Event<M>>, m: M)
    requires Stamped(s) && NewObjects(s, es) && m in Flat(s.records)
    ensures m in s.ticks && m in Run(s, es).ticks && Run(s, es).ticks[m] == s.ticks[m]
    decreases |es|
  {
    assert m in Log(s);
    if es != [] {
      StepStamps(s, es);
      TickStays(s, es, m);
      hide Stamped, NewObjects, Step;
      RecordedTicksStay(Step(s, es[0]), es[1..], m);
    }
  }

  lemma TickStays<M>(s: State<M>, es: seq<Event<M>>, m: M)
    requires es != [] && Stamped(s) && NewObjects(s, es) && m in Flat(s.records)
    ensures m in Flat(Step(s, es[0]).records) && m in s.ticks
    ensures m in Step(s, es[0]).ticks && Step(s, es[0]).ticks[m] == s.ticks[m]
  {
    hide Broadcast, BroadcastAll, Replay;
    var i :| 0 <= i < |Flat(s.records)| && Flat(s.records)[i] == m;
    assert Log(s)[i] == m;
    match es[0] {
      case Control(x, _) =>
        assert Accepted(es)[0] == x;
      case Update =>
        UpdateFlat(s);
        assert forall j :: 0 <= j < |s.pending| ==> Log(s)[|Flat(s.records)| + j] == s.pending[j];
      case _ =>
    }
  }

  lemma StepStamps<M>(s: State<M>, es: seq<Event<M>>)
    requires es != [] && Stamped(s) && NewObjects(s, es)
    ensures Stamped(Step(s, es[0])) && NewObjects(Step(s, es[0]), es[1..])
  {
    hide Log, UpdateStep, EnterStep;
    var later := Accepted(es[1..]);
    match es[0] {
      case Control(m, tick) =>
        assert Accepted(es) == [m] + later;
        assert Accepted(es)[0] == m;
        ControlStamps(s, m, tick);
        assert forall j :: 0 <= j < |later| ==> Accepted(es)[j + 1] == later[j];
        assert m !in later;
      case Update =>
        assert Accepted(es) == later;
        UpdateStamps(s);
        UpdateTicksDomain(s);
      case _ =>
        assert Accepted(es) == later;
        OtherStamps(s, es[0]);
    }
  }

  lemma UpdateTicksDomain<M>(s: State<M>)
    requires Stamped(s)
    ensures UpdateStep(s).ticks.Keys == s.ticks.Keys
  {
    forall m | m in s.pending
      ensures m in s.ticks
    {
      assert m in Log(s);
    }
  }

  lemma OtherStamps<M>(s: State<M>, e: Event<M>)
    requires Stamped(s) && !e.Control? && !e.Update?
    ensures Stamped(Step(s, e)) && Step(s, e).ticks == s.ticks
  {
    assert Log(Step(s, e)) == Log(s);
  }

  // What is queued to one player.

  function Count(roles: seq<i32>, r: i32): nat {
    if roles == [] then 0 else (if roles[0] == r then 1 else 0) + Count(roles[1..], r)
  }

  /** The control messages queued to role r, in order. */
  function ControlsTo<M>(outbox: seq<Queued<M>>, r: i32): seq<M> {
    if outbox == [] then []
    else (if outbox[0].role == r && outbox[0].packet.ControlPacket? then [outbox[0].packet.msg] else [])
         + ControlsTo(outbox[1..], r)
  }

  lemma {:induction false} ControlsToAppend<M>(a: seq<Queued<M>>, b: seq<Queued<M>>, r: i32)
    ensures ControlsTo(a + b, r) == ControlsTo(a, r) + ControlsTo(b, r)
  {
    if a == [] {
      assert a + b == b;
    } else {
      ControlsToAppend(a[1..], b, r);
      assert (a + b)[1..] == a[1..] + b;
      var one := if a[0].role == r && a[0].packet.ControlPacket? then [a[0].packet.msg] else [];
      Assoc(one, ControlsTo(a[1..], r), ControlsTo(b, r));
    }
  }

  function Times<M>(n: nat, m: M): seq<M> {
    seq(n, _ => m)
  }

  /** Each message n times. */
  function Copies<M>(n: nat, msgs: seq<M>): seq<M> {
    if msgs == [] then [] else Times(n, msgs[0]) + Copies(n, msgs[1..])
  }

  lemma {:induction false} CopiesOnce<M>(msgs: seq<M>)
    ensures Copies(1, msgs) == msgs && Copies(0, msgs) == []
  {
    if msgs != [] {
      CopiesOnce(msgs[1..]);
    }
  }

  lemma {:induction false} ControlsToBroadcast<M>(p: Packet<M>, roles: seq<i32>, r: i32)
    ensures ControlsTo(Broadcast(p, roles), r) == if p.ControlPacket? then Times(Count(roles, r), p.msg) else []
  {
    if roles != [] {
      ControlsToBroadcast(p, roles[1..], r);
      assert Broadcast(p, roles)[1..] == Broadcast(p, roles[1..]);
    }
  }

  lemma {:induction false} ControlsToBroadcastAll<M>(msgs: seq<M>, roles: seq<i32>, r: i32)
    ensures ControlsTo(BroadcastAll(msgs, roles), r) == Copies(Count(roles, r), msgs)
  {
    if msgs != [] {
      var first := Broadcast(ControlPacket(msgs[0]), roles);
      ControlsToBroadcast(ControlPacket(msgs[0]), roles, r);
      ControlsToBroadcastAll(msgs[1..], roles, r);
      ControlsToAppend(first, BroadcastAll(msgs[1..], roles), r);
    }
  }

  lemma {:induction false} ControlsToReplay<M>(msgs: seq<M>, role: i32, r: i32)
    ensures ControlsTo(Replay(msgs, role), r) == if role == r then msgs else []
  {
    if msgs != [] {
      ControlsToReplay(msgs[1..], role, r);
      assert Replay(msgs, role)[1..] == Replay(msgs[1..], role);
    }
  }

  lemma NoControls<M>(q: Queued<M>, r: i32)
    requires !q.packet.ControlPacket?
    ensures ControlsTo([q], r) == []
  {
    var one := [q];
    assert one[1..] == [];
  }

  /** Entering: only role 3 is sent control messages, and it is sent the whole record. */
  lemma EnterControls<M>(s: State<M>, role: i32, m: M, now: u64, r: i32)
    ensures ControlsTo(EnterStep(s, role, m, now).outbox, r) ==
            ControlsTo(s.outbox, r) + if role == REPLAY_ROLE == r then Flat(s.records) else []
  {
    var reply: seq<Queued<M>> := [Queued(role, EnterReply(m))];
    var start: seq<Queued<M>> := [Queued(role, GameStartPacket(now))];
    var roles, replay := s.roles + [role], Replay(Flat(s.records), role);
    var greet: Packet<M> := GameStartPacket(now);
    NoControls(reply[0], r);
    NoControls(start[0], r);
    ControlsToReplay(Flat(s.records), role, r);
    ControlsToAppend(start, replay, r);
    ControlsToBroadcast(greet, roles, r);
    var welcome :=
      if role == START_ROLE then Broadcast(greet, roles) else if role == REPLAY_ROLE then start + replay else [];
    ControlsToAppend(s.outbox, welcome, r);
    ControlsToAppend(s.outbox + welcome, reply, r);
  }

  lemma UpdateControls<M>(s: State<M>, r: i32)
    ensures ControlsTo(UpdateStep(s).outbox, r) == ControlsTo(s.outbox, r) + Copies(Count(s.roles, r), s.pending)
  {
    ControlsToAppend(s.outbox, BroadcastAll(s.pending, s.roles), r);
    ControlsToBroadcastAll(s.pending, s.roles, r);
  }

  /** Role r neither enters nor leaves. */
  ghost predicate Stays<M>(es: seq<Event<M>>, r: i32) {
    forall e :: e in es ==> !(e.EnterRoom? && e.role == r) && !(e.Disconnect? && e.role == r)
  }

  lemma {:induction false} CountAppend(roles: seq<i32>, x: i32, r: i32)
    ensures Count(roles + [x], r) == Count(roles, r) + (if x == r then 1 else 0)
  {
    var one := [x];
    assert one[1..] == [];
    if roles == [] {
      assert roles + one == one;
    } else {
      CountAppend(roles[1..], x, r);
      assert (roles + one)[1..] == roles[1..] + one;
    }
  }

  lemma {:induction false} CountRemove(roles: seq<i32>, x: i32, r: i32)
    requires x != r
    ensures Count(RemoveFirst(roles, x), r) == Count(roles, r)
  {
    if roles != [] && roles[0] != x {
      CountRemove(roles[1..], x, r);
      assert RemoveFirst(roles, x)[1..] == RemoveFirst(roles[1..], x);
    }
  }

  /** What one step adds to the record. */
  function Recorded<M>(s: State<M>, e: Event<M>): seq<M> {
    if e.Update? then s.pending else []
  }

  lemma StepWhileStaying<M>(s: State<M>, e: Event<M>, r: i32)
    requires Stays([e], r)
    ensures var t := Step(s, e);
            && Count(t.roles, r) == Count(s.roles, r)
            && Flat(t.records) == Flat(s.records) + Recorded(s, e)
            && ControlsTo(t.outbox, r) == ControlsTo(s.outbox, r) + Copies(Count(s.roles, r), Recorded(s, e))
  {
    assert e in [e];
    match e {
      case Update =>
        UpdateFlat(s);
        UpdateControls(s, r);
      case EnterRoom(role, m, now) =>
        CountAppend(s.roles, role, r);
        EnterControls(s, role, m, now, r);
      case Disconnect(role) =>
        CountRemove(s.roles, role, r);
      case Ping(role, m) =>
        NoControls(Queued(role, Pong(m)), r);
        ControlsToAppend(s.outbox, [Queued(role, Pong(m))], r);
      case Control(_, _) =>
    }
  }

  /** What a run adds to the flattened record. */
  function RecordedBy<M>(s: State<M>, es: seq<Event<M>>): seq<M>
    decreases |es|
  {
    if es == [] then [] else Recorded(s, es[0]) + RecordedBy(Step(s, es[0]), es[1..])
  }

  lemma {:induction false} CopiesAppend<M>(n: nat, a: seq<M>, b: seq<M>)
    ensures Copies(n, a + b) == Copies(n, a) + Copies(n, b)
  {
    if a == [] {
      assert a + b == b;
    } else {
      CopiesAppend(n, a[1..], b);
      assert (a + b)[1..] == a[1..] + b;
      Assoc(Times(n, a[0]), Copies(n, a[1..]), Copies(n, b));
    }
  }

  /** While a role stays, it is queued each newly recorded control message as often as it is listed: once for
      a player that entered once, never for one that did not enter. */
  lemma {:induction false} QueuedWhileStaying<M>(s: State<M>, es: seq<Event<M>>, r: i32)
    requires Stays(es, r)
    ensures var t, news := Run(s, es), RecordedBy(s, es);
            && Count(t.roles, r) == Count(s.roles, r)
            && Flat(t.records) == Flat(s.records) + news
            && ControlsTo(t.outbox, r) == ControlsTo(s.outbox, r) + Copies(Count(s.roles, r), news)
    decreases |es|
  {
    hide Step, Recorded, Count, Flat, ControlsTo;
    if es == [] {
      assert Flat(s.records) + [] == Flat(s.records);
      assert ControlsTo(s.outbox, r) + Copies<M>(Count(s.roles, r), []) == ControlsTo(s.outbox, r);
    } else {
      var n, t, one := Count(s.roles, r), Step(s, es[0]), Recorded(s, es[0]);
      var later := RecordedBy(t, es[1..]);
      StepWhileStaying(s, es[0], r);
      QueuedWhileStaying(t, es[1..], r);
      CopiesAppend(n, one, later);
      Assoc(Flat(s.records), one, later);
      Assoc(ControlsTo(s.outbox, r), Copies(n, one), Copies(n, later));
    }
  }

  /** A role joins in state s and stays. It is queued everything recorded from then on, and before that the
      record so far if it is role 3. */
  lemma JoinerIsQueued<M>(s: State<M>, r: i32, m: M, now: u64, es: seq<Event<M>>)
    requires Count(s.roles, r) == 0 && Stays(es, r)
    ensures var t := Run(EnterStep(s, r, m, now), es);
            && Flat(s.records) <= Flat(t.records)
            && ControlsTo(t.outbox, r) == ControlsTo(s.outbox, r) +
                 if r == REPLAY_ROLE then Flat(t.records) else Flat(t.records)[|Flat(s.records)|..]
  {
    hide Run, RecordedBy, Flat, ControlsTo;
    var joined := EnterStep(s, r, m, now);
    EnterControls(s, r, m, now, r);
    CountAppend(s.roles, r, r);
    QueuedWhileStaying(joined, es, r);
    var news := RecordedBy(joined, es);
    CopiesOnce(news);
    Assoc(ControlsTo(s.outbox, r), Flat(s.records), news);
    assert ControlsTo(s.outbox, r) + [] + news == ControlsTo(s.outbox, r) + news;
  }

  /** A late joiner misses nothing if and only if it is role 3 or nothing had been recorded when it entered. */
  lemma JoinerMissesNothingIff<M>(s: State<M>, r: i32, m: M, now: u64, es: seq<Event<M>>)
    requires Count(s.roles, r) == 0 && ControlsTo(s.outbox, r) == [] && Stays(es, r)
    ensures var t := Run(EnterStep(s, r, m, now), es);
            ControlsTo(t.outbox, r) == Flat(t.records) <==> r == REPLAY_ROLE || Flat(s.records) == []
  {
    hide Run, EnterStep, Flat, ControlsTo;
    JoinerIsQueued(s, r, m, now, es);
    var all := Flat(Run(EnterStep(s, r, m, now), es).records);
    assert [] + all == all;
    assert |[] + all[|Flat(s.records)|..]| == |all| - |Flat(s.records)|;
  }

  lemma {:induction false} RunAppend<M>(s: State<M>, a: seq<Event<M>>, b: seq<Event<M>>)
    ensures Run(s, a + b) == Run(Run(s, a), b)
    decreases |a|
  {
    hide Step;
    if a == [] {
      assert a + b == b;
    } else {
      RunAppend(Step(s, a[0]), a[1..], b);
      assert (a + b)[1..] == a[1..] + b;
    }
  }

  /** Role 3 joins at any time; a player p was there before anything was recorded. Both are queued the same
      control messages in the same order: all that were recorded. */
  lemma LateJoinerEqualsEarlyPlayer<M>(s: State<M>, p: i32, pm: M, before: seq<Event<M>>,
                                       m: M, now: u64, after: seq<Event<M>>)
    requires p != REPLAY_ROLE && Flat(s.records) == []
    requires Count(s.roles, p) == 0 && ControlsTo(s.outbox, p) == []
    requires Count(s.roles, REPLAY_ROLE) == 0 && ControlsTo(s.outbox, REPLAY_ROLE) == []
    requires Stays(before, p) && Stays(after, p) && Stays(before, REPLAY_ROLE) && Stays(after, REPLAY_ROLE)
    ensures var t := Run(EnterStep(Run(EnterStep(s, p, pm, now), before), REPLAY_ROLE, m, now), after);
            ControlsTo(t.outbox, REPLAY_ROLE) == ControlsTo(t.outbox, p) == Flat(t.records)
  {
    hide Flat, ControlsTo, EnterStep;
    var start := EnterStep(s, p, pm, now);
    var middle := Run(start, before);
    var e := EnterRoom(REPLAY_ROLE, m, now);
    EnterAlone(s, p, pm, now, REPLAY_ROLE);
    QueuedWhileStaying(start, before, REPLAY_ROLE);
    CopiesOnce(RecordedBy(start, before));
    JoinerMissesNothingIff(middle, REPLAY_ROLE, m, now, after);
    JoinerMissesNothingIff(s, p, pm, now, before + [e] + after);
    RunAppend(start, before + [e], after);
    RunAppend(start, before, [e]);
    RunOne(middle, e);
  }

  lemma RunOne<M>(s: State<M>, e: Event<M>)
    ensures Run(s, [e]) == Step(s, e)
  {
    hide Step;
    var es, none := [e], [];
    assert es[1..] == none;
    assert Run(s, es) == Run(Step(s, e), none);
  }

  lemma EnterAlone<M>(s: State<M>, role: i32, m: M, now: u64, r: i32)
    requires role != r
    ensures Count(EnterStep(s, role, m, now).roles, r) == Count(s.roles, r)
    ensures ControlsTo(EnterStep(s, role, m, now).outbox, r) == ControlsTo(s.outbox, r)
  {
    CountAppend(s.roles, role, r);
    EnterControls(s, role, m, now, r);
  }

  // How often one player is told that the game starts.

  /** The GAME_START messages queued to role r. */
  function StartsTo<M>(outbox: seq<Queued<M>>, r: i32): nat {
    if outbox == [] then 0
    else (if outbox[0].role == r && outbox[0].packet.GameStartPacket? then 1 else 0) + StartsTo(outbox[1..], r)
  }

  lemma {:induction false} StartsToAppend<M>(a: seq<Queued<M>>, b: seq<Queued<M>>, r: i32)
    ensures StartsTo(a + b, r) == StartsTo(a, r) + StartsTo(b, r)
  {
    if a == [] {
      assert a + b == b;
    } else {
      StartsToAppend(a[1..], b, r);
      assert (a + b)[1..] == a[1..] + b;
    }
  }

  lemma StartsToOne<M>(q: Queued<M>, r: i32)
    ensures StartsTo([q], r) == if q.role == r && q.packet.GameStartPacket? then 1 else 0
  {
    var one := [q];
    assert one[1..] == [];
  }

  lemma {:induction false} StartsToBroadcast<M>(p: Packet<M>, roles: seq<i32>, r: i32)
    ensures StartsTo(Broadcast(p, roles), r) == if p.GameStartPacket? then Count(roles, r) else 0
  {
    if roles != [] {
      StartsToBroadcast(p, roles[1..], r);
      assert Broadcast(p, roles)[1..] == Broadcast(p, roles[1..]);
    }
  }

  lemma {:induction false} NoStartsInControls<M>(msgs: seq<M>, roles: seq<i32>, role: i32, r: i32)
    ensures StartsTo(BroadcastAll(msgs, roles), r) == StartsTo(Replay(msgs, role), r) == 0
  {
    if msgs != [] {
      NoStartsInControls(msgs[1..], roles, role, r);
      var first: Packet<M> := ControlPacket(msgs[0]);
      StartsToBroadcast(first, roles, r);
      StartsToAppend(Broadcast(first, roles), BroadcastAll(msgs[1..], roles), r);
      StartsToOne(Queued(role, first), r);
      StartsToAppend([Queued(role, first)], Replay(msgs[1..], role), r);
    }
  }

  lemma {:induction false} CountAfterLeaving(roles: seq<i32>, r: i32)
    ensures Count(RemoveFirst(roles, r), r) == if Count(roles, r) == 0 then 0 else Count(roles, r) - 1
  {
    if roles != [] && roles[0] != r {
      CountAfterLeaving(roles[1..], r);
      assert RemoveFirst(roles, r)[1..] == RemoveFirst(roles[1..], r);
    }
  }

  /** How often role r is listed after an event, and how often the event sends it GAME_START. */
  function ListedAfter<M>(listed: nat, e: Event<M>, r: i32): nat {
    if e.EnterRoom? && e.role == r then listed + 1
    else if e.Disconnect? && e.role == r && listed > 0 then listed - 1
    else listed
  }

  function StartsBy<M>(listed: nat, e: Event<M>, r: i32): nat {
    if !e.EnterRoom? then 0
    else if e.role == START_ROLE then ListedAfter(listed, e, r)
    else if e.role == REPLAY_ROLE == r then 1
    else 0
  }

  function StartsOver<M>(listed: nat, es: seq<Event<M>>, r: i32): nat
    decreases |es|
  {
    if es == [] then 0 else StartsBy(listed, es[0], r) + StartsOver(ListedAfter(listed, es[0], r), es[1..], r)
  }

  lemma EnterStarts<M>(s: State<M>, role: i32, m: M, now: u64, r: i32)
    ensures StartsTo(EnterStep(s, role, m, now).outbox, r) ==
            StartsTo(s.outbox, r) + StartsBy(Count(s.roles, r), EnterRoom(role, m, now), r)
  {
    var reply: seq<Queued<M>> := [Queued(role, EnterReply(m))];
    var start: seq<Queued<M>> := [Queued(role, GameStartPacket(now))];
    var roles, replay := s.roles + [role], Replay(Flat(s.records), role);
    var greet: Packet<M> := GameStartPacket(now);
    CountAppend(s.roles, role, r);
    StartsToOne(reply[0], r);
    StartsToOne(start[0], r);
    NoStartsInControls(Flat(s.records), roles, role, r);
    StartsToAppend(start, replay, r);
    StartsToBroadcast(greet, roles, r);
    var welcome :=
      if role == START_ROLE then Broadcast(greet, roles) else if role == REPLAY_ROLE then start + replay else [];
    StartsToAppend(s.outbox, welcome, r);
    StartsToAppend(s.outbox + welcome, reply, r);
  }

  lemma StepStarts<M>(s: State<M>, e: Event<M>, r: i32)
    ensures StartsTo(Step(s, e).outbox, r) == StartsTo(s.outbox, r) + StartsBy(Count(s.roles, r), e, r)
    ensures Count(Step(s, e).roles, r) == ListedAfter(Count(s.roles, r), e, r)
  {
    match e {
      case Update =>
        NoStartsInControls(s.pending, s.roles, 0, r);
        StartsToAppend(s.outbox, BroadcastAll(s.pending, s.roles), r);
      case EnterRoom(role, m, now) =>
        CountAppend(s.roles, role, r);
        EnterStarts(s, role, m, now, r);
      case Disconnect(role) =>
        if role == r {
          CountAfterLeaving(s.roles, r);
        } else {
          CountRemove(s.roles, role, r);
        }
      case Ping(role, m) =>
        StartsToOne(Queued(role, Pong(m)), r);
        StartsToAppend(s.outbox, [Queued(role, Pong(m))], r);
      case Control(_, _) =>
    }
  }

  /** Over all runs, the events alone say how many GAME_START messages a role is queued. */
  lemma {:induction false} StartsCounted<M>(s: State<M>, es: seq<Event<M>>, r: i32)
    ensures StartsTo(Run(s, es).outbox, r) == StartsTo(s.outbox, r) + StartsOver(Count(s.roles, r), es, r)
    decreases |es|
  {
    hide Step, StartsTo, Count;
    if es != [] {
      StepStarts(s, es[0], r);
      StartsCounted(Step(s, es[0]), es[1..], r);
    }
  }

  function Entries<M>(es: seq<Event<M>>, role: i32): nat {
    if es == [] then 0 else (if es[0].EnterRoom? && es[0].role == role then 1 else 0) + Entries(es[1..], role)
  }

  lemma {:induction false} StartsWhileListed<M>(listed: nat, es: seq<Event<M>>, r: i32)
    requires Stays(es, r)
    ensures StartsOver(listed, es, r) == listed * Entries(es, START_ROLE)
  {
    if es != [] {
      assert es[0] in es;
      StartsWhileListed(listed, es[1..], r);
    }
  }

  /** The starts a role is sent that enters in state s, not listed before, and stays: one at its own entry if it is role
      2 or 3, and one at each later entry of role 2. */
  lemma JoinerStarts<M>(s: State<M>, r: i32, m: M, now: u64, after: seq<Event<M>>)
    requires Count(s.roles, r) == 0 && StartsTo(s.outbox, r) == 0 && Stays(after, r)
    ensures StartsTo(Run(EnterStep(s, r, m, now), after).outbox, r) ==
            (if r == START_ROLE || r == REPLAY_ROLE then 1 else 0) + Entries(after, START_ROLE)
  {
    hide Run, StartsTo, StartsOver;
    EnterStarts(s, r, m, now, r);
    CountAppend(s.roles, r, r);
    StartsCounted(EnterStep(s, r, m, now), after, r);
    StartsWhileListed(1, after, r);
  }

  /** Role 2 enters at most once while the role stays; never, if it is role 3. */
  predicate StartedOnce<M>(r: i32, after: seq<Event<M>>) {
    Entries(after, START_ROLE) <= if r == REPLAY_ROLE then 0 else 1
  }

  lemma {:induction false} StaysOutside<M>(es: seq<Event<M>>, r: i32)
    requires Stays(es, r)
    ensures Entries(es, r) == 0
  {
    if es != [] {
      assert es[0] in es;
      StaysOutside(es[1..], r);
    }
  }

  /** Exactly when such a role is sent at most one GAME_START. */
  lemma StartedOnceIff<M>(s: State<M>, r: i32, m: M, now: u64, after: seq<Event<M>>)
    requires Count(s.roles, r) == 0 && StartsTo(s.outbox, r) == 0 && Stays(after, r)
    ensures StartsTo(Run(EnterStep(s, r, m, now), after).outbox, r) <= 1 <==> StartedOnce(r, after)
  {
    hide Run, StartsTo;
    JoinerStarts(s, r, m, now, after);
    if r == START_ROLE {
      StaysOutside(after, r);
    }
  }

  // Frame numbers.

  function Updates<M>(es: seq<Event<M>>): nat {
    if es == [] then 0 else (if es[0].Update? then 1 else 0) + Updates(es[1..])
  }

  ghost predicate NoStart<M>(es: seq<Event<M>>) {
    forall e :: e in es ==> !(e.EnterRoom? && e.role == START_ROLE)
  }

  /** While role 2 does not enter and the counter does not wrap, frames are numbered consecutively. */
  lemma {:induction false} FramesAreConsecutive<M>(s: State<M>, es: seq<Event<M>>)
    requires NoStart(es) && s.counter + Updates(es) < U32_MODULUS
    ensures var t := Run(s, es);
            && s.records <= t.records && |t.records| == |s.records| + Updates(es)
            && t.counter == s.counter + Updates(es)
            && forall i :: |s.records| <= i < |t.records| ==>
                 t.records[i].frameNumber == s.counter + 1 + i - |s.records|
    decreases |es|
  {
    if es != [] {
      FramesAreConsecutive(Step(s, es[0]), es[1..]);
    }
  }

  /** The entry of role 2 starts the numbers again, whatever has been recorded: the next frame is number 1. */
  lemma StartResetsFrames<M>(s: State<M>, m: M, now: u64)
    ensures var t := Run(s, [EnterRoom(START_ROLE, m, now), Update]);
            && t.records == s.records + [FrameInput(1, s.pending)]
            && t.counter == 1
  {
    hide Run, Broadcast, BroadcastAll, Replay;
    var enter: Event<M>, update: Event<M> := EnterRoom(START_ROLE, m, now), Update;
    RunAppend(s, [enter], [update]);
    RunOne(s, enter);
    RunOne(Step(s, enter), update);
    assert [enter] + [update] == [enter, update];
  }

  // When the record is in the order of its frame numbers.

  /** The frame number of each message of the flattened record. */
  function Numbers<M>(records: seq<FrameInput<M>>): seq<u32> {
    if records == [] then []
    else Times(|records[0].msgs|, records[0].frameNumber) + Numbers(records[1..])
  }

  lemma {:induction false} NumbersAreTicks<M>(records: seq<FrameInput<M>>, ticks: map<M, u32>)
    requires forall r, m :: r in records && m in r.msgs ==> m in ticks && ticks[m] == r.frameNumber
    ensures |Numbers(records)| == |Flat(records)|
    ensures forall i :: 0 <= i < |Flat(records)| ==>
              Flat(records)[i] in ticks && ticks[Flat(records)[i]] == Numbers(records)[i]
  {
    if records != [] {
      NumbersAreTicks(records[1..], ticks);
      var n := |records[0].msgs|;
      forall i | 0 <= i < |Flat(records)|
        ensures Flat(records)[i] in ticks && ticks[Flat(records)[i]] == Numbers(records)[i]
      {
        if i < n {
          assert Flat(records)[i] in records[0].msgs;
        } else {
          assert Flat(records)[i] == Flat(records[1..])[i - n];
        }
      }
    }
  }

  ghost predicate NonDecreasing(ticks: seq<u32>) {
    forall i, j :: 0 <= i < j < |ticks| ==> ticks[i] <= ticks[j]
  }

  /** The number of the last recorded message, or 0. */
  function LastOf(numbers: seq<u32>): u32 {
    if numbers == [] then 0 else numbers[|numbers| - 1]
  }

  lemma {:induction false} NumbersAppend<M>(records: seq<FrameInput<M>>, r: FrameInput<M>)
    ensures Numbers(records + [r]) == Numbers(records) + Times(|r.msgs|, r.frameNumber)
  {
    var one := [r];
    if records == [] {
      assert records + one == one && one[1..] == [];
      assert Times(|r.msgs|, r.frameNumber) + [] == [] + Times(|r.msgs|, r.frameNumber);
    } else {
      NumbersAppend(records[1..], r);
      assert (records + one)[1..] == records[1..] + one;
      Assoc(Times(|records[0].msgs|, records[0].frameNumber), Numbers(records[1..]), Times(|r.msgs|, r.frameNumber));
    }
  }

  lemma OrderGrows(numbers: seq<u32>, n: nat, frame: u32)
    ensures NonDecreasing(numbers + Times(n, frame)) <==> NonDecreasing(numbers) && (n == 0 || LastOf(numbers) <= frame)
    ensures LastOf(numbers + Times(n, frame)) == if n == 0 then LastOf(numbers) else frame
  {
    var all := numbers + Times(n, frame);
    if NonDecreasing(all) {
      assert forall i :: 0 <= i < |numbers| ==> all[i] == numbers[i];
      assert n > 0 && numbers != [] ==> all[|numbers| - 1] <= all[|numbers|];
    }
  }

  /** Whether the frames of a run that record something are numbered in order, behind a last one: the counter
      rises with each update and falls to 0 when role 2 enters; busy says that a message is pending. */
  predicate KeepsOrder<M>(counter: u32, last: u32, busy: bool, es: seq<Event<M>>)
    decreases |es|
  {
    es == [] ||
    match es[0]
    case Update =>
      var frame := (counter + 1) % U32_MODULUS;
      (busy ==> last <= frame) && KeepsOrder(frame, if busy then frame else last, false, es[1..])
    case Control(_, _) => KeepsOrder(counter, last, true, es[1..])
    case EnterRoom(role, _, _) => KeepsOrder(if role == START_ROLE then 0 else counter, last, busy, es[1..])
    case _ => KeepsOrder(counter, last, busy, es[1..])
  }

  /** Over all runs, restarts and wrap-around of the counter included. */
  lemma {:induction false} NumbersInOrderIff<M>(s: State<M>, es: seq<Event<M>>)
    requires s.sending == []
    ensures NonDecreasing(Numbers(Run(s, es).records)) <==>
            && NonDecreasing(Numbers(s.records))
            && KeepsOrder(s.counter, LastOf(Numbers(s.records)), s.pending != [], es)
    decreases |es|
  {
    hide NonDecreasing, Numbers, LastOf, Broadcast, BroadcastAll, Replay, Flat, Stamp;
    if es != [] {
      var t := Step(s, es[0]);
      if es[0].Update? {
        NumbersAppend(s.records, FrameInput(t.counter, s.pending));
        OrderGrows(Numbers(s.records), |s.pending|, t.counter);
      }
      NumbersInOrderIff(t, es[1..]);
    }
  }

  /** The messages of the record hold non-decreasing ticks: they are in the order in which clients release them. */
  ghost predicate InTickOrder<M>(s: State<M>) {
    && (forall i :: 0 <= i < |Flat(s.records)| ==> Flat(s.records)[i] in s.ticks)
    && forall i, j :: 0 <= i < j < |Flat(s.records)| ==> s.ticks[Flat(s.records)[i]] <= s.ticks[Flat(s.records)[j]]
  }

  lemma TickOrderIsNumberOrder<M>(s: State<M>)
    requires Stamped(s)
    ensures InTickOrder(s) <==> NonDecreasing(Numbers(s.records))
  {
    NumbersAreTicks(s.records, s.ticks);
  }

  /** Exactly which runs keep the record in tick order. */
  lemma RecordInTickOrderIff<M>(s: State<M>, es: seq<Event<M>>)
    requires Stamped(s) && NewObjects(s, es)
    ensures InTickOrder(Run(s, es)) <==>
            InTickOrder(s) && KeepsOrder(s.counter, LastOf(Numbers(s.records)), s.pending != [], es)
  {
    RecordedTicks(s, es);
    TickOrderIsNumberOrder(s);
    TickOrderIsNumberOrder(Run(s, es));
    NumbersInOrderIff(s, es);
  }

  /** Which update of a run, counted from 1, is the first that records a message; 0 if none does. */
  function FirstBusy<M>(busy: bool, es: seq<Event<M>>): (k: nat)
    ensures k <= Updates(es)
    decreases |es|
  {
    if es == [] then 0
    else if !es[0].Update? then FirstBusy(busy || es[0].Control?, es[1..])
    else if busy then 1
    else var k := FirstBusy(false, es[1..]); if k == 0 then 0 else k + 1
  }

  lemma {:induction false} FirstBusyDecides<M>(counter: u32, last: u32, busy: bool, es: seq<Event<M>>)
    requires NoStart(es) && counter + Updates(es) < U32_MODULUS
    ensures KeepsOrder(counter, last, busy, es) <==>
            FirstBusy(busy, es) == 0 || last <= counter + FirstBusy(busy, es)
    decreases |es|
  {
    if es != [] {
      assert es[0] in es;
      match es[0] {
        case Update =>
          FirstBusyDecides(counter + 1, if busy then counter + 1 else last, false, es[1..]);
        case _ =>
          FirstBusyDecides(counter, last, busy || es[0].Control?, es[1..]);
      }
    }
  }

  lemma NothingRecorded<M>(records: seq<FrameInput<M>>)
    requires Flat(records) == []
    ensures Numbers(records) == []
  {
    if records != [] {
      assert records[0].msgs == [] && Flat(records[1..]) == [];
      NothingRecorded(records[1..]);
    }
  }

  /** From any state in which nothing has been recorded, the record stays in tick order until role 2 enters. */
  lemma RecordIsInTickOrder<M>(s: State<M>, es: seq<Event<M>>)
    requires Stamped(s) && NewObjects(s, es) && Flat(s.records) == []
    requires NoStart(es) && s.counter + Updates(es) < U32_MODULUS
    ensures InTickOrder(Run(s, es))
  {
    NothingRecorded(s.records);
    FirstBusyDecides(s.counter, 0, s.pending != [], es);
    RecordInTickOrderIff(s, es);
  }

  lemma EnterStamps<M>(s: State<M>, role: i32, m: M, now: u64, es: seq<Event<M>>)
    requires Stamped(s) && NewObjects(s, es)
    ensures var t := EnterStep(s, role, m, now);
            Stamped(t) && NewObjects(t, es) && t.records == s.records && t.pending == s.pending && t.ticks == s.ticks
  {
    hide Replay, Broadcast, Flat;
    OtherStamps(s, EnterRoom(role, m, now));
  }

  /** Role 2 enters and starts the game anew. The record stays in tick order exactly if the last message recorded
      before holds no greater number than the first frame that records one afterwards. */
  lemma RestartKeepsOrderIff<M>(s: State<M>, m: M, now: u64, after: seq<Event<M>>)
    requires Stamped(s) && InTickOrder(s) && NewObjects(s, after)
    requires NoStart(after) && Updates(after) < U32_MODULUS
    ensures InTickOrder(Run(EnterStep(s, START_ROLE, m, now), after)) <==>
            var first := FirstBusy(s.pending != [], after);
            first == 0 || Flat(s.records) == [] || LastOf(Numbers(s.records)) <= first
  {
    hide Run, Numbers, Flat;
    var t := EnterStep(s, START_ROLE, m, now);
    EnterStamps(s, START_ROLE, m, now, after);
    RecordInTickOrderIff(t, after);
    FirstBusyDecides(0, LastOf(Numbers(s.records)), s.pending != [], after);
    if Flat(s.records) == [] {
      NothingRecorded(s.records);
    }
  }

  /** A game as it is played: players enter, then role 2 starts it, with nothing recorded so far but messages
      possibly pending. */
  lemma StartedGameKeepsOrder<M>(s: State<M>, before: seq<Event<M>>, m: M, now: u64, after: seq<Event<M>>)
    requires s.sending == [] && Flat(Run(s, before).records) == []
    requires NoStart(after) && Updates(after) < U32_MODULUS
    ensures KeepsOrder(s.counter, LastOf(Numbers(s.records)), s.pending != [],
                       before + [EnterRoom(START_ROLE, m, now)] + after)
  {
    hide Run, Flat, Numbers, KeepsOrder, Replay, Broadcast;
    var start: Event<M> := EnterRoom(START_ROLE, m, now);
    var u := Run(s, before);
    var t := EnterStep(u, START_ROLE, m, now);
    RunAppend(s, before + [start], after);
    RunAppend(s, before, [start]);
    RunOne(u, start);
    RecordConserves(s, before);
    NothingRecorded(u.records);
    FirstBusyDecides(0, 0, t.pending != [], after);
    NumbersInOrderIff(t, after);
    NumbersInOrderIff(s, before + [start] + after);
  }

  /** Its record is in tick order. */
  lemma GameIsInTickOrder<M>(s: State<M>, before: seq<Event<M>>, m: M, now: u64, after: seq<Event<M>>)
    requires Stamped(s) && InTickOrder(s) && NewObjects(s, before + [EnterRoom(START_ROLE, m, now)] + after)
    requires Flat(Run(s, before).records) == [] && NoStart(after) && Updates(after) < U32_MODULUS
    ensures InTickOrder(Run(s, before + [EnterRoom(START_ROLE, m, now)] + after))
  {
    hide Run, Flat, InTickOrder, NewObjects;
    StartedGameKeepsOrder(s, before, m, now, after);
    RecordInTickOrderIff(s, before + [EnterRoom(START_ROLE, m, now)] + after);
  }

  /** Both facts about new messages carry over to the second part of a run. */
  lemma {:induction false} StampedAndNew<M>(s: State<M>, a: seq<Event<M>>, b: seq<Event<M>>)
    requires Stamped(s) && NewObjects(s, a + b)
    ensures Stamped(Run(s, a)) && NewObjects(Run(s, a), b)
    decreases |a|
  {
    hide Stamped, NewObjects, Step;
    if a == [] {
      assert a + b == b;
    } else {
      StepStamps(s, a + b);
      assert (a + b)[1..] == a[1..] + b;
      StampedAndNew(Step(s, a[0]), a[1..], b);
    }
  }

  lemma RunCons<M>(s: State<M>, e: Event<M>, es: seq<Event<M>>)
    ensures Run(s, [e] + es) == Run(Step(s, e), es)
  {
    hide Step;
    assert ([e] + es)[1..] == es;
  }

  lemma FiveSteps<M>(s: State<M>, es: seq<Event<M>>)
    requires |es| == 5
    ensures Run(s, es) == Step(Step(Step(Step(Step(s, es[0]), es[1]), es[2]), es[3]), es[4])
  {
    hide Run, Step;
    assert es == [es[0]] + ([es[1]] + ([es[2]] + ([es[3]] + [es[4]])));
    RunCons(s, es[0], [es[1]] + ([es[2]] + ([es[3]] + [es[4]])));
    RunCons(Step(s, es[0]), es[1], [es[2]] + ([es[3]] + [es[4]]));
    RunCons(Step(Step(s, es[0]), es[1]), es[2], [es[3]] + [es[4]]);
    RunCons(Step(Step(Step(s, es[0]), es[1]), es[2]), es[3], [es[4]]);
    RunOne(Step(Step(Step(Step(s, es[0]), es[1]), es[2]), es[3]), es[4]);
  }

  /** A restart after something was recorded, the shortest run: a is recorded in frame 2, b in frame 1. */
  lemma RestartBreaksOrder<M>(a: M, b: M, m: M, now: u64)
    requires a != b
    ensures var t := Run(Initial(), [Control(a, 0), Update, EnterRoom(START_ROLE, m, now), Control(b, 0), Update]);
            && Flat(t.records) == [a, b] && Numbers(t.records) == [2, 1]
            && t.ticks == map[a := 2, b := 1] && !InTickOrder(t)
  {
    hide Run, Flat, Numbers, UpdateStep;
    var es: seq<Event<M>> := [Control(a, 0), Update, EnterRoom(START_ROLE, m, now), Control(b, 0), Update];
    var r1, r2 := FrameInput(2, [a]), FrameInput(1, [b]);
    var s2 := Step(Step(Initial(), es[0]), es[1]);
    OneMessageOneFrame(Initial(), a);
    var s3 := EnterStep(s2, START_ROLE, m, now);
    assert s3.records == [r1] && s3.ticks == map[a := 2] && s3.pending == s3.sending == [] && s3.counter == 0;
    OneMessageOneFrame(s3, b);
    var t := Step(Step(s3, es[3]), es[4]);
    FlatAppend([r1], [r2]);
    NumbersAppend([r1], r2);
    OneFrame(r1);
    OneFrame(r2);
    FiveSteps(Initial(), es);
    assert t.ticks[[a, b][0]] > t.ticks[[a, b][1]];
  }

  lemma OneMessageOneFrame<M>(s: State<M>, m: M)
    requires s.pending == s.sending == [] && s.counter + 1 < U32_MODULUS
    ensures var t, f := Step(Step(s, Control(m, 0)), Update), s.counter + 1;
            && t.records == s.records + [FrameInput(f, [m])] && t.ticks == s.ticks[m := f]
            && t.pending == t.sending == [] && t.counter == f
  {
    hide BroadcastAll;
    var f := s.counter + 1;
    assert s.pending + [m] == [m];
    assert Stamp(s.ticks[m := 0], [m], f) == s.ticks[m := f];
  }

  lemma OneFrame<M>(r: FrameInput<M>)
    requires |r.msgs| == 1
    ensures Flat([r]) == r.msgs && Numbers([r]) == [r.frameNumber]
  {
    var one := [r];
    assert one[1..] == [];
  }
}
