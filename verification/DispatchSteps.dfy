/** Network/MsgDispatcher.cpp, Network/MsgThread.h and Utils/ThreadSafeQueue.h as a state machine: every lock
    region, every test of the shared flag and every callback is a step of its own, in any interleaving. */
module DispatchSteps {
  import opened Bytes
  import opened Sequences

  datatype Option<T> = None | Some(value: T)

  /** MsgForDispatch. */
  datatype Item<M> = Item(id: i32, msg: M)

  /** Where a consumer thread is in its loop. */
  datatype Pc<M> =
    | Testing               // about to test the flag
    | Popping               // inside TryPop
    | Holding(item: Item<M>) // popped, about to call back
    | Exited

  datatype Thread<M> = Thread(queue: seq<Item<M>>, pc: Pc<M>)

  /** `pushers` holds, by pushing thread, the pushes that have tested the flag and have not reached their queue yet.
      `accepted` and `dispatched` are histories: what was pushed to a queue, what was called back. */
  datatype State<M> = State(
    started: bool, threads: seq<Thread<M>>, pushers: map<nat, Item<M>>,
    accepted: seq<Item<M>>, dispatched: seq<Item<M>>)

  /** The state right after Start() with n threads. */
  function Started<M>(n: nat): State<M> {
    State(true, seq(n, _ => Thread([], Testing)), map[], [], [])
  }

  /** The shard of a role: a signed id modulo an unsigned count is taken on unsigned numbers. */
  function Shard(id: i32, threads: nat): (i: nat)
    requires threads > 0
    ensures i < threads
  {
    ToU32(id) % threads
  }

  /** On two's complement ids; small ids are spread over the threads one by one. */
  lemma ShardOf(id: i32, threads: nat)
    requires threads > 0
    ensures id >= 0 ==> Shard(id, threads) == id % threads
    ensures id < 0 ==> Shard(id, threads) == (0x1_0000_0000 + id) % threads
    ensures 0 <= id < threads ==> Shard(id, threads) == id
  {
  }

  datatype Step<M> =
    | TestPush(pusher: nat, id: i32, msg: Option<M>)  // the tests of Push; None is a null pointer
    | Enqueue(pusher: nat)                            // the rest of Push
    | Stop                                            // the flag is cleared
    | Test(thread: nat)
    | TryPop(thread: nat)
    | PopTimeout(thread: nat)
    | CallBack(thread: nat)

  predicate Enabled<M>(s: State<M>, e: Step<M>) {
    match e
    case TestPush(p, _, _) => p !in s.pushers
    case Enqueue(p) => p in s.pushers
    case Stop => true
    case Test(i) => i < |s.threads| && s.threads[i].pc.Testing?
    case TryPop(i) => i < |s.threads| && s.threads[i].pc.Popping? && s.threads[i].queue != []
    case PopTimeout(i) => i < |s.threads| && s.threads[i].pc.Popping?
    case CallBack(i) => i < |s.threads| && s.threads[i].pc.Holding?
  }

  function Next<M>(s: State<M>, e: Step<M>): (t: State<M>)
    requires Enabled(s, e) && |s.threads| > 0
    ensures |t.threads| == |s.threads|
  {
    match e
    case TestPush(p, id, msg) =>
      if msg.None? || !s.started then s else s.(pushers := s.pushers[p := Item(id, msg.value)])
    case Enqueue(p) =>
      var item := s.pushers[p];
      var i := Shard(item.id, |s.threads|);
      s.(threads := s.threads[i := s.threads[i].(queue := s.threads[i].queue + [item])],
         pushers := s.pushers - {p}, accepted := s.accepted + [item])
    case Stop => s.(started := false)
    case Test(i) => s.(threads := s.threads[i := s.threads[i].(pc := if s.started then Popping else Exited)])
    case TryPop(i) =>
      var q := s.threads[i].queue;
      s.(threads := s.threads[i := Thread(q[1..], Holding(q[0]))])
    case PopTimeout(i) => s.(threads := s.threads[i := s.threads[i].(pc := Testing)])
    case CallBack(i) =>
      s.(threads := s.threads[i := s.threads[i].(pc := Testing)],
         dispatched := s.dispatched + [s.threads[i].pc.item])
  }

  ghost predicate Possible<M>(s: State<M>, es: seq<Step<M>>)
    requires |s.threads| > 0
    decreases |es|
  {
    es == [] || (Enabled(s, es[0]) && Possible(Next(s, es[0]), es[1..]))
  }

  function Run<M>(s: State<M>, es: seq<Step<M>>): (t: State<M>)
    requires |s.threads| > 0 && Possible(s, es)
    ensures |t.threads| == |s.threads|
    decreases |es|
  {
    if es == [] then s else Run(Next(s, es[0]), es[1..])
  }

  lemma {:induction false} RunAppend<M>(s: State<M>, a: seq<Step<M>>, b: seq<Step<M>>)
    requires |s.threads| > 0 && Possible(s, a) && Possible(Run(s, a), b)
    ensures Possible(s, a + b) && Run(s, a + b) == Run(Run(s, a), b)
    decreases |a|
  {
    hide Next, Enabled;
    if a == [] {
      assert a + b == b;
    } else {
      RunAppend(Next(s, a[0]), a[1..], b);
      assert (a + b)[1..] == a[1..] + b;
    }
  }

  // Selections of a history.

  /** The items whose ids lie in a given set, in order. */
  ghost function Select<M>(items: seq<Item<M>>, ids: iset<i32>): seq<Item<M>> {
    if items == [] then [] else (if items[0].id in ids then [items[0]] else []) + Select(items[1..], ids)
  }

  lemma {:induction false} SelectAppend<M>(a: seq<Item<M>>, b: seq<Item<M>>, ids: iset<i32>)
    ensures Select(a + b, ids) == Select(a, ids) + Select(b, ids)
  {
    if a == [] {
      assert a + b == b;
    } else {
      SelectAppend(a[1..], b, ids);
      assert (a + b)[1..] == a[1..] + b;
      Assoc(if a[0].id in ids then [a[0]] else [], Select(a[1..], ids), Select(b, ids));
    }
  }

  lemma SelectOne<M>(item: Item<M>, ids: iset<i32>)
    ensures Select([item], ids) == if item.id in ids then [item] else []
  {
    var one := [item];
    assert one[1..] == [];
  }

  /** Selecting twice is selecting by the smaller set. */
  lemma {:induction false} SelectTwice<M>(items: seq<Item<M>>, outer: iset<i32>, ids: iset<i32>)
    requires ids <= outer
    ensures Select(Select(items, outer), ids) == Select(items, ids)
  {
    if items != [] {
      SelectTwice(items[1..], outer, ids);
      var first := if items[0].id in outer then [items[0]] else [];
      SelectAppend(first, Select(items[1..], outer), ids);
      if first != [] {
        SelectOne(items[0], ids);
      }
    }
  }

  lemma {:induction false} SelectAll<M>(items: seq<Item<M>>, ids: iset<i32>)
    requires forall id: i32 :: id in ids
    ensures Select(items, ids) == items
  {
    if items != [] {
      SelectAll(items[1..], ids);
    }
  }

  function MessagesOf<M>(items: seq<Item<M>>): seq<M> {
    seq(|items|, i requires 0 <= i < |items| => items[i].msg)
  }

  /** The messages of one role, in order. */
  ghost function OfRole<M>(items: seq<Item<M>>, id: i32): seq<M> {
    MessagesOf(Select(items, iset{id}))
  }

  lemma OfRoleAppend<M>(a: seq<Item<M>>, b: seq<Item<M>>, id: i32)
    ensures OfRole(a + b, id) == OfRole(a, id) + OfRole(b, id)
  {
    SelectAppend(a, b, iset{id});
  }

  lemma OfRoleOne<M>(item: Item<M>, id: i32)
    ensures OfRole([item], id) == if item.id == id then [item.msg] else []
  {
    SelectOne(item, iset{id});
  }

  function InHand<M>(t: Thread<M>): seq<Item<M>> {
    if t.pc.Holding? then [t.pc.item] else []
  }

  /** What a thread still owes: the item in its hand, then its queue. */
  function Owed<M>(t: Thread<M>): seq<Item<M>> {
    InHand(t) + t.queue
  }

  /** The ids that belong to thread i of n. */
  ghost function ShardIds(n: nat, i: nat): iset<i32>
    requires n > 0
  {
    iset id: i32 | Shard(id, n) == i
  }

  // Conservation and order.

  /** Per thread: what was accepted for its shard = what was dispatched, then in hand, then queued, in order. */
  ghost predicate Conserves<M>(s: State<M>)
    requires |s.threads| > 0
  {
    forall i :: 0 <= i < |s.threads| ==>
      Select(s.accepted, ShardIds(|s.threads|, i)) ==
      Select(s.dispatched, ShardIds(|s.threads|, i)) + Owed(s.threads[i])
  }

  lemma StepConserves<M>(s: State<M>, e: Step<M>)
    requires |s.threads| > 0 && Enabled(s, e) && Conserves(s)
    ensures Conserves(Next(s, e))
  {
    var n, t := |s.threads|, Next(s, e);
    match e {
      case Enqueue(p) =>
        EnqueueConserves(s, p);
      case CallBack(i) =>
        CallBackConserves(s, i);
      case _ =>
        forall i | 0 <= i < n
          ensures Owed(t.threads[i]) == Owed(s.threads[i])
        {
        }
    }
  }

  lemma EnqueueConserves<M>(s: State<M>, p: nat)
    requires |s.threads| > 0 && p in s.pushers && Conserves(s)
    ensures Conserves(Next(s, Enqueue(p)))
  {
    hide Select;
    var n, t, item := |s.threads|, Next(s, Enqueue(p)), s.pushers[p];
    forall i | 0 <= i < n
      ensures Select(t.accepted, ShardIds(n, i)) == Select(t.dispatched, ShardIds(n, i)) + Owed(t.threads[i])
    {
      SelectAppend(s.accepted, [item], ShardIds(n, i));
      SelectOne(item, ShardIds(n, i));
      if i == Shard(item.id, n) {
        Assoc(InHand(s.threads[i]), s.threads[i].queue, [item]);
        Assoc(Select(s.dispatched, ShardIds(n, i)), Owed(s.threads[i]), [item]);
      }
    }
  }

  lemma {:induction false} SelectedBelongs<M>(items: seq<Item<M>>, ids: iset<i32>, item: Item<M>)
    requires item in Select(items, ids)
    ensures item.id in ids
  {
    if item in Select(items[1..], ids) {
      SelectedBelongs(items[1..], ids, item);
    }
  }

  lemma CallBackConserves<M>(s: State<M>, k: nat)
    requires |s.threads| > 0 && k < |s.threads| && s.threads[k].pc.Holding? && Conserves(s)
    ensures Conserves(Next(s, CallBack(k)))
  {
    hide Select;
    var n, t, item := |s.threads|, Next(s, CallBack(k)), s.threads[k].pc.item;
    assert Owed(s.threads[k]) == [item] + s.threads[k].queue;
    assert Select(s.accepted, ShardIds(n, k))[|Select(s.dispatched, ShardIds(n, k))|] == item;
    SelectedBelongs(s.accepted, ShardIds(n, k), item);
    forall i | 0 <= i < n
      ensures Select(t.accepted, ShardIds(n, i)) == Select(t.dispatched, ShardIds(n, i)) + Owed(t.threads[i])
    {
      SelectAppend(s.dispatched, [item], ShardIds(n, i));
      SelectOne(item, ShardIds(n, i));
      if i == k {
        assert Owed(t.threads[k]) == s.threads[k].queue by {
          assert [] + s.threads[k].queue == s.threads[k].queue;
        }
        Assoc(Select(s.dispatched, ShardIds(n, i)), [item], s.threads[k].queue);
      }
    }
  }

  lemma {:induction false} RunConserves<M>(s: State<M>, es: seq<Step<M>>)
    requires |s.threads| > 0 && Possible(s, es) && Conserves(s)
    ensures Conserves(Run(s, es))
    decreases |es|
  {
    hide Conserves, Next;
    if es != [] {
      StepConserves(s, es[0]);
      RunConserves(Next(s, es[0]), es[1..]);
    }
  }

  lemma StartedConserves<M>(n: nat)
    requires n > 0
    ensures Conserves(Started<M>(n))
  {
    assert forall t: Thread<M> :: t == Thread([], Testing) ==> Owed(t) == [];
  }

  /** For all ids of one shard together: dispatched, then in hand and queued, are what was accepted, in order. */
  lemma IdsInOrder<M>(s: State<M>, ids: iset<i32>, i: nat)
    requires |s.threads| > 0 && Conserves(s) && i < |s.threads| && ids <= ShardIds(|s.threads|, i)
    ensures Select(s.accepted, ids) == Select(s.dispatched, ids) + Select(Owed(s.threads[i]), ids)
  {
    var all := ShardIds(|s.threads|, i);
    SelectTwice(s.accepted, all, ids);
    SelectTwice(s.dispatched, all, ids);
    SelectAppend(Select(s.dispatched, all), Owed(s.threads[i]), ids);
  }

  /** For every thread count, every role id and every interleaving: what was dispatched for a role is a prefix
      of what was accepted for it, and the rest is in hand or queued in the one shard of the role, in order. */
  lemma RoleOrder<M>(n: nat, es: seq<Step<M>>, id: i32)
    requires n > 0 && Possible(Started<M>(n), es)
    ensures var t := Run(Started<M>(n), es); var thread := t.threads[Shard(id, n)];
            && OfRole(t.accepted, id) ==
               OfRole(t.dispatched, id) + OfRole(InHand(thread), id) + OfRole(thread.queue, id)
            && OfRole(t.dispatched, id) <= OfRole(t.accepted, id)
  {
    hide Conserves, Select, MessagesOf, ShardIds, Next;
    StartedConserves<M>(n);
    RunConserves(Started<M>(n), es);
    RoleInOrder(Run(Started<M>(n), es), id);
  }

  lemma RoleInOrder<M>(t: State<M>, id: i32)
    requires |t.threads| > 0 && Conserves(t)
    ensures var thread := t.threads[Shard(id, |t.threads|)];
            && OfRole(t.accepted, id) ==
               OfRole(t.dispatched, id) + OfRole(InHand(thread), id) + OfRole(thread.queue, id)
            && OfRole(t.dispatched, id) <= OfRole(t.accepted, id)
  {
    var thread := t.threads[Shard(id, |t.threads|)];
    assert iset{id} <= ShardIds(|t.threads|, Shard(id, |t.threads|));
    IdsInOrder(t, iset{id}, Shard(id, |t.threads|));
    hide Select, Conserves;
    SelectAppend(InHand(thread), thread.queue, iset{id});
    Assoc(Select(t.dispatched, iset{id}), Select(InHand(thread), iset{id}), Select(thread.queue, iset{id}));
  }

  /** With one thread the order is kept across all roles. */
  lemma OneThreadOrder<M>(es: seq<Step<M>>)
    requires Possible(Started<M>(1), es)
    ensures var t := Run(Started<M>(1), es);
            t.accepted == t.dispatched + InHand(t.threads[0]) + t.threads[0].queue
  {
    StartedConserves<M>(1);
    RunConserves(Started<M>(1), es);
    var t := Run(Started<M>(1), es);
    SelectAll(t.accepted, ShardIds(1, 0));
    SelectAll(t.dispatched, ShardIds(1, 0));
    Assoc(t.dispatched, InHand(t.threads[0]), t.threads[0].queue);
  }

  /** What a run enqueues, in order: the messages, not null, whose push tested the flag while it was up. */
  function Pushed<M>(started: bool, pushers: map<nat, Item<M>>, es: seq<Step<M>>): seq<Item<M>>
    decreases |es|
  {
    if es == [] then []
    else
      match es[0]
      case Stop => Pushed(false, pushers, es[1..])
      case TestPush(p, id, msg) =>
        Pushed(started, if started && msg.Some? then pushers[p := Item(id, msg.value)] else pushers, es[1..])
      case Enqueue(p) => (if p in pushers then [pushers[p]] else []) + Pushed(started, pushers - {p}, es[1..])
      case _ => Pushed(started, pushers, es[1..])
  }

  /** Dispatching never changes what is accepted: it is what was pushed, whatever the threads do in between. */
  lemma {:induction false} AcceptedIsPushed<M>(s: State<M>, es: seq<Step<M>>)
    requires |s.threads| > 0 && Possible(s, es)
    ensures Run(s, es).accepted == s.accepted + Pushed(s.started, s.pushers, es)
    decreases |es|
  {
    if es == [] {
      assert s.accepted + [] == s.accepted;
    } else {
      var t := Next(s, es[0]);
      AcceptedIsPushed(t, es[1..]);
      if es[0].Enqueue? {
        Assoc(s.accepted, [s.pushers[es[0].pusher]], Pushed(t.started, t.pushers, es[1..]));
      }
    }
  }

  // After Stop.

  /** The callbacks a thread can still make when the flag is down. */
  function Left<M>(t: Thread<M>): nat {
    if t.pc.Holding? || t.pc.Popping? then 1 else 0
  }

  function LeftAll<M>(ts: seq<Thread<M>>): (n: nat)
    ensures n <= |ts|
  {
    if ts == [] then 0 else Left(ts[0]) + LeftAll(ts[1..])
  }

  lemma {:induction false} LeftAllUpdate<M>(ts: seq<Thread<M>>, i: nat, t: Thread<M>)
    requires i < |ts|
    ensures LeftAll(ts[i := t]) == LeftAll(ts) - Left(ts[i]) + Left(t)
  {
    if i > 0 {
      LeftAllUpdate(ts[1..], i - 1, t);
      assert ts[i := t][1..] == ts[1..][i - 1 := t];
    } else {
      assert ts[i := t][1..] == ts[1..];
    }
  }

  /** Between two states with the flag down: only pushes in flight were accepted, each at most once. */
  ghost predicate OnlyInFlight<M>(s: State<M>, t: State<M>) {
    && s.accepted <= t.accepted
    && (forall p :: p in t.pushers ==> p in s.pushers && t.pushers[p] == s.pushers[p])
    && |t.accepted| + |t.pushers| == |s.accepted| + |s.pushers|
    && forall k :: |s.accepted| <= k < |t.accepted| ==>
         exists p :: p in s.pushers && p !in t.pushers && s.pushers[p] == t.accepted[k]
  }

  lemma StoppedStepAccepts<M>(s: State<M>, e: Step<M>)
    requires |s.threads| > 0 && Enabled(s, e) && !s.started
    ensures !Next(s, e).started && OnlyInFlight(s, Next(s, e))
  {
    if e.Enqueue? {
      var p, t := e.pusher, Next(s, e);
      assert s.pushers.Keys == t.pushers.Keys + {p};
      assert |s.pushers.Keys| == |t.pushers.Keys| + 1;
      assert t.accepted[|s.accepted|] == s.pushers[p];
    }
  }

  lemma StoppedStepCallsBack<M>(s: State<M>, e: Step<M>)
    requires |s.threads| > 0 && Enabled(s, e) && !s.started
    ensures |Next(s, e).dispatched| + LeftAll(Next(s, e).threads) <= |s.dispatched| + LeftAll(s.threads)
  {
    if !e.TestPush? && !e.Stop? {
      var i := if e.Enqueue? then Shard(s.pushers[e.pusher].id, |s.threads|) else e.thread;
      LeftAllUpdate(s.threads, i, Next(s, e).threads[i]);
    }
  }

  lemma InFlightTwice<M>(s: State<M>, t: State<M>, u: State<M>)
    requires OnlyInFlight(s, t) && OnlyInFlight(t, u)
    ensures OnlyInFlight(s, u)
  {
    forall k | |s.accepted| <= k < |u.accepted|
      ensures exists p :: p in s.pushers && p !in u.pushers && s.pushers[p] == u.accepted[k]
    {
      if k < |t.accepted| {
        var p :| p in s.pushers && p !in t.pushers && s.pushers[p] == t.accepted[k];
        assert u.accepted[k] == t.accepted[k];
      } else {
        var p :| p in t.pushers && p !in u.pushers && t.pushers[p] == u.accepted[k];
      }
    }
  }

  /** Once the flag is down, a run accepts exactly pushes that had tested the flag before: those no longer in
      flight. Each thread calls back at most once more; what else was queued stays undelivered. */
  lemma {:induction false} AfterStop<M>(s: State<M>, es: seq<Step<M>>)
    requires |s.threads| > 0 && Possible(s, es) && !s.started
    ensures !Run(s, es).started && OnlyInFlight(s, Run(s, es))
    ensures |Run(s, es).dispatched| + LeftAll(Run(s, es).threads) <= |s.dispatched| + LeftAll(s.threads)
    ensures |Run(s, es).dispatched| <= |s.dispatched| + |s.threads|
    decreases |es|
  {
    hide Next;
    if es != [] {
      var t := Next(s, es[0]);
      StoppedStepAccepts(s, es[0]);
      StoppedStepCallsBack(s, es[0]);
      AfterStop(t, es[1..]);
      InFlightTwice(s, t, Run(t, es[1..]));
    }
  }

  /** Stopping loses the race: with a push in flight, something is accepted after the flag went down. */
  lemma StopOvertakesPush<M>(s: State<M>, p: nat, id: i32, msg: M)
    requires |s.threads| > 0 && s.started && p !in s.pushers
    ensures var es := [TestPush(p, id, Some(msg)), Stop, Enqueue(p)];
            && Possible(s, es) && !Run(s, es).started
            && Run(s, es).accepted == s.accepted + [Item(id, msg)]
  {
    var es: seq<Step<M>> := [TestPush(p, id, Some(msg)), Stop, Enqueue(p)];
    var a := Next(s, es[0]);
    var b := Next(a, es[1]);
    var c := Next(b, es[2]);
    assert es[1..] == [Stop, Enqueue(p)] && es[1..][1..] == [Enqueue(p)] && es[1..][1..][1..] == [];
    assert Possible(c, []) && Run(c, []) == c;
    assert Possible(b, es[1..][1..]) && Run(b, es[1..][1..]) == c;
    assert Possible(a, es[1..]) && Run(a, es[1..]) == c;
  }
}
