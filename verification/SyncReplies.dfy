/** Network/MsgDispatcher.cpp: synchronous requests, whose replies are matched to futures by message id. */
module SyncReplies {
  import opened Bytes
  import opened DispatchSteps

  const ASYNC_MESSAGE_UNIQUE_ID: u32 := 0

  /** promises maps an id to the number of the request that waits for it; futures holds the results. */
  datatype SyncState<M> = SyncState(counters: map<i32, u32>, promises: map<u32, nat>, futures: seq<Option<M>>)

  function Empty<M>(): SyncState<M> {
    SyncState(map[], map[], [])
  }

  datatype Event<M> = Request(role: i32) | Reply(id: u32, msg: M)

  /** The counter of a role is atomic and wraps. */
  function NextId<M>(s: SyncState<M>, role: i32): u32 {
    ((if role in s.counters then s.counters[role] else 0) + 1) % U32_MODULUS
  }

  /** A second future of the same promise is an error: the id was still waited for. */
  predicate Collides<M>(s: SyncState<M>, role: i32) {
    NextId(s, role) in s.promises
  }

  ghost predicate WellFormed<M>(s: SyncState<M>) {
    forall id :: id in s.promises ==> s.promises[id] < |s.futures|
  }

  function Apply<M>(s: SyncState<M>, e: Event<M>): (t: SyncState<M>)
    requires WellFormed(s)
    ensures WellFormed(t)
  {
    match e
    case Request(role) =>
      var id := NextId(s, role);
      var counted := s.(counters := s.counters[role := id]);
      if Collides(s, role) then counted
      else counted.(promises := s.promises[id := |s.futures|], futures := s.futures + [None])
    case Reply(id, msg) =>
      if id in s.promises then
        s.(promises := s.promises - {id}, futures := s.futures[s.promises[id] := Some(msg)])
      else s
  }

  function Run<M>(s: SyncState<M>, es: seq<Event<M>>): (t: SyncState<M>)
    requires WellFormed(s)
    ensures WellFormed(t)
    decreases |es|
  {
    if es == [] then s else Run(Apply(s, es[0]), es[1..])
  }

  function Requests<M>(es: seq<Event<M>>): nat {
    if es == [] then 0 else (if es[0].Request? then 1 else 0) + Requests(es[1..])
  }

  ghost predicate OneRole<M>(es: seq<Event<M>>, role: i32) {
    forall e :: e in es && e.Request? ==> e.role == role
  }

  function FirstReply<M>(es: seq<Event<M>>, id: u32): Option<M> {
    if es == [] then None
    else if es[0].Reply? && es[0].id == id then Some(es[0].msg)
    else FirstReply(es[1..], id)
  }

  /** What happens after request number k. */
  function After<M>(es: seq<Event<M>>, k: nat): seq<Event<M>>
    requires k < Requests(es)
  {
    if !es[0].Request? then After(es[1..], k)
    else if k == 0 then es[1..]
    else After(es[1..], k - 1)
  }

  /** With one role the k-th request (from 0) has id k + 1, and an id is waited for exactly while its future
      is empty. */
  ghost predicate Numbered<M>(s: SyncState<M>, role: i32) {
    && WellFormed(s) && |s.futures| < U32_MODULUS
    && (if |s.futures| == 0 then role !in s.counters || s.counters[role] == 0
        else role in s.counters && s.counters[role] == |s.futures|)
    && (forall id :: id in s.promises <==> 1 <= id <= |s.futures| && s.futures[id - 1] == None)
    && (forall id :: id in s.promises ==> s.promises[id] == id - 1)
  }

  lemma EmptyNumbered<M>(role: i32)
    ensures Numbered(Empty<M>(), role)
  {
  }

  /** No request of a numbered role collides. */
  lemma RequestNumbers<M>(s: SyncState<M>, role: i32)
    requires Numbered(s, role) && |s.futures| + 1 < U32_MODULUS
    ensures !Collides(s, role) && NextId(s, role) == |s.futures| + 1
    ensures Numbered(Apply(s, Request(role)), role)
  {
    assert NextId(s, role) == |s.futures| + 1;
    var t := Apply(s, Request(role));
    forall id: u32
      ensures id in t.promises <==> 1 <= id <= |t.futures| && t.futures[id - 1] == None
    {
    }
  }

  /** A reply nobody waits for changes nothing, an awaited one resolves its future and no other. */
  lemma ReplyNumbers<M>(s: SyncState<M>, role: i32, id: u32, msg: M)
    requires Numbered(s, role)
    ensures var t := Apply(s, Reply(id, msg));
            && Numbered(t, role)
            && (if 1 <= id <= |s.futures| && s.futures[id - 1] == None
                then t.futures == s.futures[id - 1 := Some(msg)] else t == s)
  {
  }

  /** What future k holds after a run that starts with n requests made. */
  function Expected<M>(s: SyncState<M>, es: seq<Event<M>>, k: nat): Option<M>
    requires k < |s.futures| + Requests(es) && k + 1 < U32_MODULUS
  {
    if k < |s.futures| then
      if s.futures[k].Some? then s.futures[k] else FirstReply(es, k + 1)
    else FirstReply(After(es, k - |s.futures|), k + 1)
  }

  lemma {:induction false} FuturesAfterRun<M>(s: SyncState<M>, es: seq<Event<M>>, role: i32)
    requires Numbered(s, role) && OneRole(es, role) && |s.futures| + Requests(es) < U32_MODULUS
    ensures var t := Run(s, es);
            && Numbered(t, role) && |t.futures| == |s.futures| + Requests(es)
            && forall k :: 0 <= k < |t.futures| ==> t.futures[k] == Expected(s, es, k)
    decreases |es|
  {
    assert WellFormed(s);
    hide Numbered, Apply;
    if es != [] {
      var t := Apply(s, es[0]);
      assert es[0] in es;
      if es[0].Request? {
        RequestNumbers(s, role);
        RequestEffect(s, role);
      } else {
        ReplyNumbers(s, role, es[0].id, es[0].msg);
      }
      assert |t.futures| == |s.futures| + if es[0].Request? then 1 else 0;
      FuturesAfterRun(t, es[1..], role);
      forall k | 0 <= k < |Run(t, es[1..]).futures|
        ensures Expected(t, es[1..], k) == Expected(s, es, k)
      {
        ExpectedStep(s, t, es, k);
      }
    }
  }

  lemma RequestEffect<M>(s: SyncState<M>, role: i32)
    requires WellFormed(s) && !Collides(s, role)
    ensures Apply(s, Request(role)).futures == s.futures + [None]
  {
  }

  lemma ExpectedStep<M>(s: SyncState<M>, t: SyncState<M>, es: seq<Event<M>>, k: nat)
    requires es != [] && k < |s.futures| + Requests(es) && k + 1 < U32_MODULUS
    requires match es[0]
             case Request(_) => t.futures == s.futures + [None]
             case Reply(id, msg) =>
               if 1 <= id <= |s.futures| && s.futures[id - 1] == None
               then t.futures == s.futures[id - 1 := Some(msg)] else t == s
    ensures Expected(t, es[1..], k) == Expected(s, es, k)
  {
  }

  /** For one role and fewer than 2^32 requests: ids are 1, 2, 3, ..., the ids waited for are those issued and
      not answered, and each future holds the first reply that carries its id and came after its request. */
  lemma RepliesMatchRequests<M>(es: seq<Event<M>>, role: i32)
    requires OneRole(es, role) && Requests(es) < U32_MODULUS
    ensures var t := Run(Empty<M>(), es);
            && |t.futures| == Requests(es)
            && (forall k :: 0 <= k < Requests(es) ==> t.futures[k] == FirstReply(After(es, k), k + 1))
            && (forall id :: id in t.promises <==> 1 <= id <= |t.futures| && t.futures[id - 1] == None)
  {
    EmptyNumbered<M>(role);
    FuturesAfterRun(Empty<M>(), es, role);
    hide Run, FirstReply, After, Requests, Expected;
    var t := Run(Empty<M>(), es);
    assert |t.futures| == Requests(es);
    forall k | 0 <= k < Requests(es)
      ensures t.futures[k] == FirstReply(After(es, k), k + 1)
    {
      ExpectedFromEmpty(es, k);
    }
  }

  lemma ExpectedFromEmpty<M>(es: seq<Event<M>>, k: nat)
    requires k < Requests(es) && k + 1 < U32_MODULUS
    ensures Expected(Empty<M>(), es, k) == FirstReply(After(es, k), k + 1)
  {
  }

  // Any number of roles: all runs.

  function Counter<M>(s: SyncState<M>, role: i32): u32 {
    if role in s.counters then s.counters[role] else 0
  }

  function RequestsOf<M>(es: seq<Event<M>>, role: i32): nat {
    if es == [] then 0 else (if es[0].Request? && es[0].role == role then 1 else 0) + RequestsOf(es[1..], role)
  }

  lemma CounterStep<M>(s: SyncState<M>, e: Event<M>, role: i32)
    requires WellFormed(s)
    ensures Counter(Apply(s, e), role) == (Counter(s, role) + RequestsOf([e], role)) % U32_MODULUS
  {
    assert [e][1..] == [];
  }

  /** Counters count, failing requests included, and wrap. */
  lemma {:induction false} CountersCount<M>(s: SyncState<M>, es: seq<Event<M>>, role: i32)
    requires WellFormed(s)
    ensures Counter(Run(s, es), role) == (Counter(s, role) + RequestsOf(es, role)) % U32_MODULUS
    decreases |es|
  {
    hide Apply, Counter;
    if es != [] {
      var one := RequestsOf([es[0]], role);
      assert [es[0]][1..] == [];
      CounterStep(s, es[0], role);
      CountersCount(Apply(s, es[0]), es[1..], role);
      WrapAdd(Counter(s, role) + one, RequestsOf(es[1..], role));
    }
  }

  lemma WrapAdd(c: nat, n: nat)
    ensures (c % U32_MODULUS + n) % U32_MODULUS == (c + n) % U32_MODULUS
  {
    assert c == U32_MODULUS * (c / U32_MODULUS) + c % U32_MODULUS;
    assert (c + n) % U32_MODULUS == (U32_MODULUS * (c / U32_MODULUS) + (c % U32_MODULUS + n)) % U32_MODULUS;
  }

  /** In every run the next id of a role is that of asynchronous messages, whose reply would go to a callback, exactly
      when the role has made 2^32 - 1 requests, or that many again after each further 2^32. */
  lemma WrapsToAsync<M>(es: seq<Event<M>>, role: i32)
    ensures NextId(Run(Empty<M>(), es), role) == ASYNC_MESSAGE_UNIQUE_ID <==>
            RequestsOf(es, role) % U32_MODULUS == U32_MODULUS - 1
  {
    CountersCount(Empty<M>(), es, role);
    hide Run, RequestsOf;
    assert NextId(Run(Empty<M>(), es), role) == (Counter(Run(Empty<M>(), es), role) + 1) % U32_MODULUS;
  }

  lemma {:induction false} RunSnoc<M>(s: SyncState<M>, es: seq<Event<M>>, e: Event<M>)
    requires WellFormed(s)
    ensures Run(s, es + [e]) == Apply(Run(s, es), e)
    decreases |es|
  {
    hide Apply;
    if es == [] {
      assert [] + [e] == [e] && [e][1..] == [];
      assert Run(s, [e]) == Run(Apply(s, e), []);
    } else {
      RunSnoc(Apply(s, es[0]), es[1..], e);
      assert (es + [e])[1..] == es[1..] + [e];
    }
  }

  lemma {:induction false} RequestsSnoc<M>(es: seq<Event<M>>, e: Event<M>)
    ensures Requests(es + [e]) == Requests(es) + if e.Request? then 1 else 0
  {
    if es == [] {
      assert [] + [e] == [e] && [e][1..] == [];
    } else {
      RequestsSnoc(es[1..], e);
      assert (es + [e])[1..] == es[1..] + [e];
    }
  }

  lemma {:induction false} FirstReplySnoc<M>(es: seq<Event<M>>, e: Event<M>, id: u32)
    ensures FirstReply(es + [e], id) ==
            if FirstReply(es, id).Some? then FirstReply(es, id)
            else if e.Reply? && e.id == id then Some(e.msg) else None
  {
    if es == [] {
      assert [] + [e] == [e] && [e][1..] == [];
    } else {
      FirstReplySnoc(es[1..], e, id);
      assert (es + [e])[1..] == es[1..] + [e];
    }
  }

  predicate IsRequest<M>(es: seq<Event<M>>, i: nat) {
    i < |es| && es[i].Request?
  }

  /** The id that request es[i] draws: its number among the requests of its role. */
  function IdOf<M>(es: seq<Event<M>>, i: nat): u32
    requires IsRequest(es, i)
  {
    (RequestsOf(es[..i], es[i].role) + 1) % U32_MODULUS
  }

  /** Its number among all requests: the future it returns. */
  function IndexOf<M>(es: seq<Event<M>>, i: nat): nat
    requires IsRequest(es, i)
  {
    Requests(es[..i])
  }

  /** The first reply with its id after it, among the first n events. */
  function Got<M>(es: seq<Event<M>>, i: nat, n: nat): Option<M>
    requires IsRequest(es, i) && i < n <= |es|
  {
    FirstReply(es[i + 1..n], IdOf(es, i))
  }

  lemma GotGrows<M>(es: seq<Event<M>>, i: nat, n: nat)
    requires IsRequest(es, i) && i < n < |es|
    ensures Got(es, i, n + 1) ==
            if Got(es, i, n).Some? then Got(es, i, n)
            else if es[n].Reply? && es[n].id == IdOf(es, i) then Some(es[n].msg) else None
  {
    hide IdOf, FirstReply;
    FirstReplySnoc(es[i + 1..n], es[n], IdOf(es, i));
    assert es[i + 1..n + 1] == es[i + 1..n] + [es[n]];
  }

  lemma {:induction false} IndexGrows<M>(es: seq<Event<M>>, i: nat, n: nat)
    requires IsRequest(es, i) && i < n <= |es|
    ensures IndexOf(es, i) < Requests(es[..n])
  {
    RequestsSnoc(es[..n - 1], es[n - 1]);
    assert es[..n] == es[..n - 1] + [es[n - 1]];
    if i < n - 1 {
      IndexGrows(es, i, n - 1);
    }
  }

  /** Two requests with the same id, the first unanswered when the second is made. */
  ghost predicate Overlap<M>(es: seq<Event<M>>, i: nat, k: nat) {
    i < k && IsRequest(es, i) && IsRequest(es, k) && IdOf(es, i) == IdOf(es, k) && Got(es, i, k) == None
  }

  /** Request es[k] gets no future. */
  ghost predicate Fails<M>(es: seq<Event<M>>, k: nat) {
    IsRequest(es, k) && Collides(Run(Empty<M>(), es[..k]), es[k].role)
  }

  /** After n events without a failure: each request has its own future, which holds its first reply, and the ids waited
      for are those of the requests without one. */
  ghost predicate Matches<M>(es: seq<Event<M>>, n: nat, s: SyncState<M>)
    requires n <= |es|
  {
    && WellFormed(s) && |s.futures| == Requests(es[..n])
    && (forall i :: 0 <= i < n && IsRequest(es, i) ==>
          IndexOf(es, i) < |s.futures| && s.futures[IndexOf(es, i)] == Got(es, i, n))
    && (forall i :: 0 <= i < n && IsRequest(es, i) && Got(es, i, n) == None ==>
          IdOf(es, i) in s.promises && s.promises[IdOf(es, i)] == IndexOf(es, i))
    && (forall id :: id in s.promises ==> exists i :: 0 <= i < n && IsRequest(es, i) && Holds(es, i, n, id))
  }

  ghost predicate Holds<M>(es: seq<Event<M>>, i: nat, n: nat, id: u32)
    requires IsRequest(es, i) && i < n <= |es|
  {
    IdOf(es, i) == id && Got(es, i, n) == None
  }

  lemma DrawnId<M>(es: seq<Event<M>>, k: nat)
    requires IsRequest(es, k)
    ensures NextId(Run(Empty<M>(), es[..k]), es[k].role) == IdOf(es, k)
  {
    CountersCount(Empty<M>(), es[..k], es[k].role);
  }

  /** A request fails exactly if some earlier one with its id is unanswered. */
  lemma FailsIff<M>(es: seq<Event<M>>, k: nat)
    requires IsRequest(es, k) && Matches(es, k, Run(Empty<M>(), es[..k]))
    ensures Fails(es, k) <==> exists i: nat :: Overlap(es, i, k)
  {
    hide Run, IdOf, Got, IndexOf;
    DrawnId(es, k);
    var s := Run(Empty<M>(), es[..k]);
    if Fails(es, k) {
      var i :| 0 <= i < k && IsRequest(es, i) && Holds(es, i, k, IdOf(es, k));
      assert Overlap(es, i, k);
    }
  }

  lemma RequestMatches<M>(es: seq<Event<M>>, n: nat, s: SyncState<M>)
    requires IsRequest(es, n) && Matches(es, n, s)
    requires NextId(s, es[n].role) == IdOf(es, n) && !Collides(s, es[n].role)
    ensures Matches(es, n + 1, Apply(s, es[n]))
  {
    hide IdOf, FirstReply, Requests, RequestsOf;
    var t, id := Apply(s, es[n]), IdOf(es, n);
    assert t.promises == s.promises[id := |s.futures|] && t.futures == s.futures + [None];
    NewRequest(es, n);
    forall i | 0 <= i < n && IsRequest(es, i)
      ensures Got(es, i, n + 1) == Got(es, i, n)
    {
      GotGrows(es, i, n);
    }
    hide Got, Apply, Collides, NextId;
    forall i | 0 <= i < n + 1 && IsRequest(es, i)
      ensures IndexOf(es, i) < |t.futures| && t.futures[IndexOf(es, i)] == Got(es, i, n + 1)
    {
    }
    forall i | 0 <= i < n + 1 && IsRequest(es, i) && Got(es, i, n + 1) == None
      ensures IdOf(es, i) in t.promises && t.promises[IdOf(es, i)] == IndexOf(es, i)
    {
    }
    forall x | x in t.promises
      ensures exists i :: 0 <= i < n + 1 && IsRequest(es, i) && Holds(es, i, n + 1, x)
    {
      if x == id {
        assert Holds(es, n, n + 1, id);
      } else {
        var i :| 0 <= i < n && IsRequest(es, i) && Holds(es, i, n, x);
        assert Holds(es, i, n + 1, x);
      }
    }
  }

  lemma NewRequest<M>(es: seq<Event<M>>, n: nat)
    requires IsRequest(es, n)
    ensures Requests(es[..n + 1]) == Requests(es[..n]) + 1 && IndexOf(es, n) == Requests(es[..n])
    ensures Got(es, n, n + 1) == None
  {
    RequestsSnoc(es[..n], es[n]);
    assert es[..n + 1] == es[..n] + [es[n]];
    assert es[n + 1..n + 1] == [];
  }

  /** Which request a reply resolves. */
  lemma ReplyResolves<M>(es: seq<Event<M>>, n: nat, s: SyncState<M>, i: nat)
    requires n < |es| && es[n].Reply? && Matches(es, n, s) && i < n && IsRequest(es, i)
    ensures var id := es[n].id;
            && (id in s.promises && s.promises[id] == IndexOf(es, i) <==> Holds(es, i, n, id))
            && Got(es, i, n + 1) == if Holds(es, i, n, id) then Some(es[n].msg) else Got(es, i, n)
  {
    hide IdOf, Got, IndexOf, Requests;
    var id := es[n].id;
    GotGrows(es, i, n);
    if id in s.promises && s.promises[id] == IndexOf(es, i) {
      var j :| 0 <= j < n && IsRequest(es, j) && Holds(es, j, n, id);
      SameIndex(es, i, j);
    }
  }

  lemma ReplyMatches<M>(es: seq<Event<M>>, n: nat, s: SyncState<M>)
    requires n < |es| && es[n].Reply? && Matches(es, n, s)
    ensures Matches(es, n + 1, Apply(s, es[n]))
  {
    hide IdOf, Got, IndexOf;
    var t, id := Apply(s, es[n]), es[n].id;
    RequestsSnoc(es[..n], es[n]);
    assert es[..n + 1] == es[..n] + [es[n]];
    hide Requests;
    forall i | 0 <= i < n && IsRequest(es, i)
      ensures IndexOf(es, i) < |t.futures| && t.futures[IndexOf(es, i)] == Got(es, i, n + 1)
      ensures Got(es, i, n + 1) == None ==> IdOf(es, i) in t.promises && t.promises[IdOf(es, i)] == IndexOf(es, i)
    {
      ReplyResolves(es, n, s, i);
    }
    forall x | x in t.promises
      ensures exists i :: 0 <= i < n + 1 && IsRequest(es, i) && Holds(es, i, n + 1, x)
    {
      var i :| 0 <= i < n && IsRequest(es, i) && Holds(es, i, n, x);
      ReplyResolves(es, n, s, i);
      assert Holds(es, i, n + 1, x);
    }
  }

  lemma SameIndex<M>(es: seq<Event<M>>, i: nat, j: nat)
    requires IsRequest(es, i) && IsRequest(es, j) && IndexOf(es, i) == IndexOf(es, j)
    ensures i == j
  {
    if i < j {
      IndexGrows(es, i, j);
    } else if j < i {
      IndexGrows(es, j, i);
    }
  }

  lemma {:induction false} RunMatches<M>(es: seq<Event<M>>, n: nat)
    requires n <= |es| && forall k :: 0 <= k < n ==> !Fails(es, k)
    ensures Matches(es, n, Run(Empty<M>(), es[..n]))
  {
    hide IdOf, Matches;
    if n == 0 {
      assert es[..0] == [];
      NothingMatches(es);
    } else {
      var s, e := Run(Empty<M>(), es[..n - 1]), es[n - 1];
      RunMatches(es, n - 1);
      RunSnoc(Empty<M>(), es[..n - 1], e);
      assert es[..n] == es[..n - 1] + [e];
      if e.Request? {
        DrawnId(es, n - 1);
        assert !Fails(es, n - 1);
        RequestMatches(es, n - 1, s);
      } else {
        ReplyMatches(es, n - 1, s);
      }
    }
  }

  lemma NothingMatches<M>(es: seq<Event<M>>)
    ensures Matches(es, 0, Empty<M>())
  {
    assert es[..0] == [];
  }

  /** Over all runs of requests and replies of any roles: some request fails if and only if two requests with the same
      id overlap, the first unanswered when the second is made. */
  lemma RequestsFailIff<M>(es: seq<Event<M>>)
    ensures (exists k: nat :: Fails(es, k)) <==> exists i: nat, k: nat :: Overlap(es, i, k)
  {
    hide Fails, Overlap, Matches;
    if k: nat :| Fails(es, k) {
      var first := FirstFailure(es, k);
      FailsMeansRequest(es, first);
      RunMatches(es, first);
      FailsIff(es, first);
    }
    if i: nat, k: nat :| Overlap(es, i, k) {
      if forall j :: 0 <= j < k ==> !Fails(es, j) {
        OverlapMeansRequest(es, i, k);
        RunMatches(es, k);
        FailsIff(es, k);
      }
    }
  }

  lemma FailsMeansRequest<M>(es: seq<Event<M>>, k: nat)
    requires Fails(es, k)
    ensures IsRequest(es, k) && k < |es|
  {
  }

  lemma OverlapMeansRequest<M>(es: seq<Event<M>>, i: nat, k: nat)
    requires Overlap(es, i, k)
    ensures IsRequest(es, k)
  {
  }

  lemma FirstFailure<M>(es: seq<Event<M>>, k: nat) returns (first: nat)
    requires Fails(es, k)
    ensures Fails(es, first) && forall j :: 0 <= j < first ==> !Fails(es, j)
  {
    if j :| 0 <= j < k && Fails(es, j) {
      first := FirstFailure(es, j);
    } else {
      first := k;
    }
  }

  /** The requests that overlap are of different roles with equally many requests, as long as there are fewer than 2^32:
      a role never disturbs itself. */
  lemma RolesCollideIff<M>(es: seq<Event<M>>, i: nat, k: nat)
    requires Requests(es) < U32_MODULUS
    ensures Overlap(es, i, k) <==>
            && i < k && IsRequest(es, i) && IsRequest(es, k) && es[i].role != es[k].role
            && RequestsOf(es[..i], es[i].role) == RequestsOf(es[..k], es[k].role)
            && Got(es, i, k) == None
  {
    if i < k && IsRequest(es, i) && IsRequest(es, k) {
      OwnRequests(es, i, es[i].role);
      OwnRequests(es, k, es[k].role);
      if es[i].role == es[k].role {
        LaterRequests(es, i, k, es[i].role);
      }
    }
  }

  lemma {:induction false} RequestsOfAppend<M>(a: seq<Event<M>>, b: seq<Event<M>>, role: i32)
    ensures RequestsOf(a + b, role) == RequestsOf(a, role) + RequestsOf(b, role)
    ensures RequestsOf(b, role) <= Requests(b) && Requests(a + b) == Requests(a) + Requests(b)
    decreases |a| + |b|
  {
    if a != [] {
      RequestsOfAppend(a[1..], b, role);
      assert (a + b)[1..] == a[1..] + b;
    } else {
      assert a + b == b;
      if b != [] {
        RequestsOfAppend([], b[1..], role);
      }
    }
  }

  lemma OwnRequests<M>(es: seq<Event<M>>, i: nat, role: i32)
    requires IsRequest(es, i) && es[i].role == role
    ensures RequestsOf(es[..i], role) + 1 <= Requests(es)
  {
    var later := es[i..];
    assert es == es[..i] + later;
    RequestsOfAppend(es[..i], later, role);
    RequestsOfAppend([], es[..i], role);
    assert [] + es[..i] == es[..i];
    assert Requests(later) >= 1;
  }

  lemma LaterRequests<M>(es: seq<Event<M>>, i: nat, k: nat, role: i32)
    requires IsRequest(es, i) && i < k <= |es| && es[i].role == role
    ensures RequestsOf(es[..i], role) < RequestsOf(es[..k], role)
  {
    assert es[..k] == es[..i] + es[i..k];
    RequestsOfAppend(es[..i], es[i..k], role);
  }

  /** When no two requests with the same id overlap, every request of every role has a future of its own, and it holds
      the first reply after the request that carries its id. */
  lemma AllRolesGetTheirReplies<M>(es: seq<Event<M>>)
    requires forall i: nat, k: nat :: !Overlap(es, i, k)
    ensures var t := Run(Empty<M>(), es);
            && |t.futures| == Requests(es)
            && forall i :: IsRequest(es, i) ==>
                 && IndexOf(es, i) < |t.futures|
                 && t.futures[IndexOf(es, i)] == FirstReply(es[i + 1..], IdOf(es, i))
  {
    hide Fails, Overlap;
    RequestsFailIff(es);
    RunMatches(es, |es|);
    assert es[..|es|] == es;
    hide Run;
    forall i | IsRequest(es, i)
      ensures Got(es, i, |es|) == FirstReply(es[i + 1..], IdOf(es, i))
    {
      assert es[i + 1..|es|] == es[i + 1..];
    }
  }

  /** The first requests of two roles, as one client with two connections makes them: the second fails. */
  lemma FirstRequestsCollide<M>(a: i32, b: i32)
    requires a != b
    ensures Overlap([Event<M>.Request(a), Request(b)], 0, 1) && Fails([Event<M>.Request(a), Request(b)], 1)
  {
    var es: seq<Event<M>> := [Request(a), Request(b)];
    assert es[..0] == [] && es[..1] == [Request(a)] && es[1..1] == [];
    assert es[..1][1..] == [] && RequestsOf(es[..1], b) == 0;
    var s := Apply(Empty<M>(), Request(a));
    assert Run(s, []) == s;
    assert Run(Empty<M>(), es[..1]) == s;
  }
}
