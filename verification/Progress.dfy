/** The consumer threads of Network/MsgThread.h never get stuck: as long as the flag is up, everything accepted can
    still be dispatched, from every point of every run. */
module Progress {
  import opened Bytes
  import opened DispatchSteps

  /** While the flag is up no thread has left its loop. */
  ghost predicate AllAtWork<M>(s: State<M>) {
    s.started ==> forall i :: 0 <= i < |s.threads| ==> !s.threads[i].pc.Exited?
  }

  lemma {:induction false} RunKeepsAtWork<M>(s: State<M>, es: seq<Step<M>>)
    requires |s.threads| > 0 && Possible(s, es) && AllAtWork(s)
    ensures AllAtWork(Run(s, es))
    decreases |es|
  {
    if es != [] {
      StepKeepsAtWork(s, es[0]);
      hide AllAtWork, Next;
      RunKeepsAtWork(Next(s, es[0]), es[1..]);
    }
  }

  lemma StepKeepsAtWork<M>(s: State<M>, e: Step<M>)
    requires |s.threads| > 0 && Enabled(s, e) && AllAtWork(s)
    ensures AllAtWork(Next(s, e))
  {
  }

  /** In every run from the start, timeouts included. */
  lemma NoThreadExits<M>(n: nat, es: seq<Step<M>>, i: nat)
    requires n > 0 && Possible(Started<M>(n), es) && i < n
    ensures |Run(Started<M>(n), es).threads| == n
    ensures Run(Started<M>(n), es).started ==> !Run(Started<M>(n), es).threads[i].pc.Exited?
  {
    RunKeepsAtWork(Started<M>(n), es);
  }

  /** The steps thread i still has to take before it waits with an empty queue. */
  function Work<M>(t: Thread<M>): nat {
    var q := |t.queue|;
    match t.pc
    case Testing => if q == 0 then 0 else 4 * q + 2
    case Popping => if q == 0 then 1 else 4 * q + 1
    case Holding(_) => 4 * q + 3
    case Exited => 0
  }

  /** The next of them. */
  function NextOf<M>(t: Thread<M>, i: nat): Step<M> {
    match t.pc
    case Testing => Test(i)
    case Popping => if t.queue == [] then PopTimeout(i) else TryPop(i)
    case Holding(_) => CallBack(i)
    case Exited => Stop
  }

  lemma WorkGoesOn<M>(s: State<M>, i: nat)
    requires s.started && i < |s.threads| && !s.threads[i].pc.Exited? && Work(s.threads[i]) > 0
    ensures var e := NextOf(s.threads[i], i);
            && Enabled(s, e)
            && var t := Next(s, e);
               && t.started && t.accepted == s.accepted && t.pushers == s.pushers
               && !t.threads[i].pc.Exited? && Work(t.threads[i]) < Work(s.threads[i])
               && forall j :: 0 <= j < |s.threads| && j != i ==> t.threads[j] == s.threads[j]
  {
  }

  /** One thread alone empties its queue. */
  lemma {:induction false} ThreadFinishes<M>(s: State<M>, i: nat) returns (es: seq<Step<M>>)
    requires s.started && i < |s.threads| && !s.threads[i].pc.Exited?
    ensures Possible(s, es)
    ensures var t := Run(s, es);
            && t.started && t.accepted == s.accepted && t.pushers == s.pushers
            && t.threads[i] == Thread([], Testing)
            && forall j :: 0 <= j < |s.threads| && j != i ==> t.threads[j] == s.threads[j]
    decreases Work(s.threads[i])
  {
    if Work(s.threads[i]) == 0 {
      es := [];
    } else {
      WorkGoesOn(s, i);
      hide Next, Enabled, NextOf;
      var e := NextOf(s.threads[i], i);
      var rest := ThreadFinishes(Next(s, e), i);
      es := [e] + rest;
      assert es[1..] == rest;
    }
  }

  lemma {:induction false} ThreadsFinish<M>(s: State<M>, k: nat) returns (es: seq<Step<M>>)
    requires s.started && AllAtWork(s) && k <= |s.threads| && |s.threads| > 0
    requires forall i :: 0 <= i < k ==> s.threads[i] == Thread([], Testing)
    ensures Possible(s, es)
    ensures var t := Run(s, es);
            && t.started && t.accepted == s.accepted && t.pushers == s.pushers
            && forall i :: 0 <= i < |t.threads| ==> t.threads[i] == Thread([], Testing)
    decreases |s.threads| - k
  {
    if k == |s.threads| {
      es := [];
    } else {
      var first := ThreadFinishes(s, k);
      var rest := ThreadsFinish(Run(s, first), k + 1);
      RunAppend(s, first, rest);
      es := first + rest;
    }
  }

  /** From every point of every run with the flag up, some continuation dispatches everything that was accepted, for
      each thread the items of its shard in the order of acceptance, and leaves every thread waiting. */
  lemma EverythingCanBeDispatched<M>(n: nat, es: seq<Step<M>>) returns (more: seq<Step<M>>)
    requires n > 0 && Possible(Started<M>(n), es) && Run(Started<M>(n), es).started
    ensures Possible(Run(Started<M>(n), es), more)
    ensures var s := Run(Started<M>(n), es); var t := Run(s, more);
            && t.started && t.accepted == s.accepted && s.dispatched <= t.dispatched
            && (forall i :: 0 <= i < n ==> t.threads[i] == Thread([], Testing))
            && (forall i :: 0 <= i < n ==> Select(t.dispatched, ShardIds(n, i)) == Select(t.accepted, ShardIds(n, i)))
            && forall id: i32 :: OfRole(t.dispatched, id) == OfRole(t.accepted, id)
  {
    hide Next, Enabled, Select, Conserves, AllAtWork, ShardIds, OfRole;
    var s := Run(Started<M>(n), es);
    assert AllAtWork(Started<M>(n)) by {
      StartedAtWork<M>(n);
    }
    RunKeepsAtWork(Started<M>(n), es);
    more := ThreadsFinish(s, 0);
    DispatchedGrows(s, more);
    StartedConserves<M>(n);
    RunConserves(Started<M>(n), es);
    RunConserves(s, more);
    WaitingMeansDone(Run(s, more));
  }

  lemma StartedAtWork<M>(n: nat)
    ensures AllAtWork(Started<M>(n))
  {
  }

  lemma WaitingMeansDone<M>(t: State<M>)
    requires |t.threads| > 0 && Conserves(t) && forall i :: 0 <= i < |t.threads| ==> t.threads[i] == Thread([], Testing)
    ensures forall i :: 0 <= i < |t.threads| ==>
              Select(t.dispatched, ShardIds(|t.threads|, i)) == Select(t.accepted, ShardIds(|t.threads|, i))
    ensures forall id: i32 :: OfRole(t.dispatched, id) == OfRole(t.accepted, id)
  {
    var n := |t.threads|;
    assert forall i :: 0 <= i < n ==> Owed(t.threads[i]) == [];
    forall i | 0 <= i < n
      ensures Select(t.dispatched, ShardIds(n, i)) == Select(t.accepted, ShardIds(n, i))
    {
      assert Select(t.dispatched, ShardIds(n, i)) + [] == Select(t.dispatched, ShardIds(n, i));
    }
    forall id: i32
      ensures OfRole(t.dispatched, id) == OfRole(t.accepted, id)
    {
      RoleIsDone(t, id);
    }
  }

  lemma RoleIsDone<M>(t: State<M>, id: i32)
    requires |t.threads| > 0 && Conserves(t) && Owed(t.threads[Shard(id, |t.threads|)]) == []
    ensures OfRole(t.dispatched, id) == OfRole(t.accepted, id)
  {
    assert iset{id} <= ShardIds(|t.threads|, Shard(id, |t.threads|));
    hide Conserves, Select;
    IdsInOrder(t, iset{id}, Shard(id, |t.threads|));
    NothingSelected<M>(iset{id});
  }

  lemma NothingSelected<M>(ids: iset<i32>)
    ensures Select<M>([], ids) == []
  {
  }

  lemma {:induction false} DispatchedGrows<M>(s: State<M>, es: seq<Step<M>>)
    requires |s.threads| > 0 && Possible(s, es)
    ensures s.dispatched <= Run(s, es).dispatched
    decreases |es|
  {
    if es != [] {
      assert s.dispatched <= Next(s, es[0]).dispatched;
      hide Next;
      DispatchedGrows(Next(s, es[0]), es[1..]);
    }
  }
}
