/** From the results of the reads to the maps of the server: Network/TcpConnection.cpp, Network/GameConnection.cpp and
    GameServer/GameServer.cpp together, for any number of connections. */
module ConnectionLife {
  import opened Bytes
  import opened Sequences
  import FrameSplitter
  import R = ReadTurns
  import M = ConnectionMaps
  import ServerMaps

  /** failed: an assertion failed in some read turn, and the server process with it. */
  datatype Server<C> = Server(conns: map<C, R.ConnState>, maps: M.State<C>, failed: bool)

  function Initial<C>(): Server<C> {
    Server(map[], M.Initial(), false)
  }

  datatype Event<C> =
    | Accept(c: C, name: string)
    | Read(c: C, result: R.ReadResult)  // the posted read of connection c completes

  /** The maps know every connection made and its role, and hold it as live until its close was reported. */
  ghost predicate Consistent<C>(s: Server<C>) {
    && M.Typed(s.maps) && s.conns.Keys == s.maps.nameOf.Keys
    && forall c :: c in s.conns ==>
         && (s.conns[c].status == R.Reading ==> s.conns[c].InBounds() && s.maps.roleOf[c] == s.conns[c].roleId)
         && (c in s.maps.live <==> s.conns[c].status != R.Stopped(true))
  }

  ghost predicate Enabled<C>(s: Server<C>, e: Event<C>)
    requires Consistent(s)
  {
    && !s.failed
    && match e
       case Accept(c, _) => c !in s.conns
       case Read(c, r) =>
         && c in s.conns && s.conns[c].status == R.Reading
         && (r.Data? ==> |r.chunk| <= s.conns[c].Writable())
  }

  /** The messages a read delivered. */
  function News(before: R.ConnState, after: R.ConnState): seq<FrameSplitter.Frame> {
    if |before.delivered| <= |after.delivered| then after.delivered[|before.delivered|..] else []
  }

  /** The turn registers the connection with its messages; the close callback runs if the state asks for it. */
  ghost function Next<C>(s: Server<C>, e: Event<C>): (t: Server<C>)
    requires Consistent(s) && Enabled(s, e)
    ensures Consistent(t)
  {
    match e
    case Accept(c, name) =>
      Server(s.conns[c := R.Fresh], M.Next(s.maps, M.Connect(c, name)), false)
    case Read(c, r) =>
      var conn := R.Complete(s.conns[c], r);
      var msgs := ServerMaps.MessagesOf(c, News(s.conns[c], conn));
      ServerMaps.FramesRegister(s.maps, c, News(s.conns[c], conn));
      TurnTells(s.conns[c], r);
      var told := M.Run(s.maps, msgs);
      Server(s.conns[c := conn], if conn.status == R.Stopped(true) then M.Next(told, M.Close(c)) else told,
             conn.status == R.Crashed)
  }

  /** The role of a connection follows from what it delivers. */
  lemma TurnTells(conn: R.ConnState, r: R.ReadResult)
    requires conn.InBounds() && conn.status == R.Reading && (r.Data? ==> |r.chunk| <= conn.Writable())
    ensures var t := R.Complete(conn, r);
            && (t.status == R.Reading ==> t.InBounds() && t.roleId == R.RoleAfter(conn.roleId, News(conn, t)))
            && (!r.Data? ==> News(conn, t) == [] && t.roleId == conn.roleId)
  {
    assert forall b: seq<FrameSplitter.Frame> :: (conn.delivered + b)[|conn.delivered|..] == b;
  }

  ghost predicate Possible<C>(s: Server<C>, es: seq<Event<C>>)
    requires Consistent(s)
    decreases |es|
  {
    es == [] || (Enabled(s, es[0]) && Possible(Next(s, es[0]), es[1..]))
  }

  ghost function Run<C>(s: Server<C>, es: seq<Event<C>>): (t: Server<C>)
    requires Consistent(s) && Possible(s, es)
    ensures Consistent(t)
    decreases |es|
  {
    if es == [] then s else Run(Next(s, es[0]), es[1..])
  }

  // One read.

  /** Whether a result of a read ends the connection for the server. */
  predicate Ends(r: R.ReadResult) {
    r.Eof? || r.ConnectionReset?
  }

  /** After end of file or a reset the close reaches the maps: the connection is no longer live, its role is no longer
      registered, and if it was, the name is taken off and the disconnect of the role reported. */
  lemma EndReachesMaps<C>(s: Server<C>, c: C, r: R.ReadResult)
    requires Consistent(s) && Enabled(s, Read(c, r)) && Ends(r)
    ensures var t, role, name := Next(s, Read(c, r)).maps, s.conns[c].roleId, s.maps.nameOf[c];
            && c !in t.live && role !in t.roleMap
            && (role in s.maps.roleMap && name in s.maps.connMap ==>
                  name !in t.connMap && t.disconnected == s.maps.disconnected + [role])
            && (role !in s.maps.roleMap ==> t == s.maps.(live := s.maps.live - {c}))
            && Next(s, Read(c, r)).conns[c].status != R.Reading
  {
    assert M.Run(s.maps, ServerMaps.MessagesOf(c, [])) == s.maps;
    M.CloseRemovesIff(s.maps, c);
  }

  /** Any other error stops the reads too, but leaves both maps, the live connections and the reports as they are. */
  lemma OtherErrorLeavesMaps<C>(s: Server<C>, c: C)
    requires Consistent(s) && Enabled(s, Read(c, R.OtherError))
    ensures var t := Next(s, Read(c, R.OtherError));
            t.maps == s.maps && c in t.maps.live && t.conns[c].status != R.Reading && !t.failed
  {
    assert M.Run(s.maps, ServerMaps.MessagesOf(c, [])) == s.maps;
  }

  /** Bytes never end a connection: they can only tell its role. */
  lemma DataOnlyTellsRole<C>(s: Server<C>, c: C, chunk: seq<byte>)
    requires Consistent(s) && Enabled(s, Read(c, R.Data(chunk)))
    ensures var t := Next(s, Read(c, R.Data(chunk)));
            && t.maps.live == s.maps.live && t.maps.connMap == s.maps.connMap && t.maps.nameOf == s.maps.nameOf
            && t.maps.disconnected == s.maps.disconnected
            && (forall d :: d in s.maps.roleOf && d != c ==> t.maps.roleOf[d] == s.maps.roleOf[d])
            && (s.conns[c].roleId != 0 ==> t.maps == s.maps)
  {
    var news := News(s.conns[c], R.Complete(s.conns[c], R.Data(chunk)));
    ServerMaps.FramesRegister(s.maps, c, news);
    if s.conns[c].roleId != 0 {
      ServerMaps.KeepsRole(s.conns[c].roleId, news);
      assert s.maps.roleOf[c := s.conns[c].roleId] == s.maps.roleOf;
    }
  }

  // All runs.

  ghost predicate WasAccepted<C>(es: seq<Event<C>>, c: C) {
    exists e :: e in es && e.Accept? && e.c == c
  }

  ghost predicate HasEnded<C>(es: seq<Event<C>>, c: C) {
    exists e :: e in es && e.Read? && e.c == c && Ends(e.result)
  }

  lemma StepLive<C>(s: Server<C>, e: Event<C>, c: C)
    requires Consistent(s) && Enabled(s, e)
    ensures c in Next(s, e).maps.live <==>
            if e.Accept? && e.c == c then true else c in s.maps.live && !(e.Read? && e.c == c && Ends(e.result))
    ensures c in Next(s, e).conns <==> c in s.conns || (e.Accept? && e.c == c)
  {
    match e {
      case Accept(_, _) =>
      case Read(d, Data(chunk)) =>
        DataOnlyTellsRole(s, d, chunk);
      case Read(d, OtherError) =>
        OtherErrorLeavesMaps(s, d);
      case Read(d, r) =>
        assert M.Run(s.maps, ServerMaps.MessagesOf(d, [])) == s.maps;
    }
  }

  lemma {:induction false} RunLive<C>(s: Server<C>, es: seq<Event<C>>, c: C)
    requires Consistent(s) && Possible(s, es)
    ensures c in Run(s, es).maps.live <==> (c in s.maps.live || WasAccepted(es, c)) && !HasEnded(es, c)
    decreases |es|
  {
    assert Consistent(s);
    if es != [] {
      var t := Next(s, es[0]);
      StepLive(s, es[0], c);
      LivesOn(s, es, c);
      hide Next, Enabled, Consistent;
      RunLive(t, es[1..], c);
      HistorySplits(es, c);
    }
  }

  lemma HistorySplits<C>(es: seq<Event<C>>, c: C)
    requires es != []
    ensures WasAccepted(es, c) <==> (es[0].Accept? && es[0].c == c) || WasAccepted(es[1..], c)
    ensures HasEnded(es, c) <==> (es[0].Read? && es[0].c == c && Ends(es[0].result)) || HasEnded(es[1..], c)
  {
    assert es == [es[0]] + es[1..];
  }

  /** A connection is accepted once and ends at most once, in this order. */
  lemma LivesOn<C>(s: Server<C>, es: seq<Event<C>>, c: C)
    requires Consistent(s) && Possible(s, es) && es != []
    ensures es[0].Read? && es[0].c == c && Ends(es[0].result) ==> !WasAccepted(es[1..], c)
  {
    if es[0].Read? && es[0].c == c {
      NotAcceptedAgain(Next(s, es[0]), es[1..], c);
    }
  }

  lemma {:induction false} NotAcceptedAgain<C>(s: Server<C>, es: seq<Event<C>>, c: C)
    requires Consistent(s) && Possible(s, es) && c in s.conns
    ensures !WasAccepted(es, c)
    decreases |es|
  {
    if es != [] {
      StepLive(s, es[0], c);
      NotAcceptedAgain(Next(s, es[0]), es[1..], c);
      HistorySplits(es, c);
    }
  }

  /** Over all runs of reads of all connections: the server holds a connection as live if and only if it accepted it and
      no read of it has ended with end of file or a reset. */
  lemma LiveIff<C>(es: seq<Event<C>>, c: C)
    requires Possible(Initial(), es)
    ensures c in Run(Initial(), es).maps.live <==> WasAccepted(es, c) && !HasEnded(es, c)
  {
    RunLive(Initial<C>(), es, c);
  }

  /** Hence a connection that another error stopped is never taken off. */
  lemma {:induction false} StoppedStaysLive<C>(s: Server<C>, es: seq<Event<C>>, c: C)
    requires Consistent(s) && Possible(s, es) && c in s.conns && s.conns[c].status == R.Stopped(false)
    ensures c in Run(s, es).maps.live
    decreases |es|
  {
    if es != [] {
      StepLive(s, es[0], c);
      assert c in Next(s, es[0]).conns && Next(s, es[0]).conns[c] == s.conns[c];
      StoppedStaysLive(Next(s, es[0]), es[1..], c);
    }
  }

  // Orderly runs: the maps list exactly the connections, and every end is reported.

  /** A name no live connection has; no role of another connection; and a role told before the end. */
  ghost predicate Orderly<C>(s: Server<C>, e: Event<C>)
    requires Consistent(s) && Enabled(s, e)
  {
    match e
    case Accept(c, name) => forall d :: d in s.maps.live ==> s.maps.nameOf[d] != name
    case Read(c, r) =>
      && (Ends(r) ==> s.conns[c].roleId != 0)
      && (r.Data? ==>
            var role := R.RoleAfter(s.conns[c].roleId, News(s.conns[c], R.Complete(s.conns[c], r)));
            s.conns[c].roleId == 0 ==> forall d :: d in s.maps.live && d != c ==> s.maps.roleOf[d] != role || role == 0)
  }

  ghost predicate AllOrderly<C>(s: Server<C>, es: seq<Event<C>>)
    requires Consistent(s) && Possible(s, es)
    decreases |es|
  {
    es == [] || (Orderly(s, es[0]) && AllOrderly(Next(s, es[0]), es[1..]))
  }

  /** The roles of the connections that end, in the order in which they do. */
  ghost function EndsOver<C>(s: Server<C>, es: seq<Event<C>>): seq<i32>
    requires Consistent(s) && Possible(s, es)
    decreases |es|
  {
    if es == [] then [] else EndOf(s, es[0]) + EndsOver(Next(s, es[0]), es[1..])
  }

  lemma {:induction false} TurnTakesNoRole<C>(s: M.State<C>, c: C, fs: seq<FrameSplitter.Frame>)
    requires M.Typed(s) && c in s.live && M.Possible(s, ServerMaps.MessagesOf(c, fs))
    requires s.roleOf[c] == 0 && R.RoleAfter(0, fs) != 0 ==>
               forall d :: d in s.live && d != c ==> s.roleOf[d] != R.RoleAfter(0, fs)
    ensures M.NeverTakesRole(s, ServerMaps.MessagesOf(c, fs))
    decreases |fs|
  {
    if fs != [] {
      var es := ServerMaps.MessagesOf(c, fs);
      assert es[0] == M.Message(c, fs[0].header.roleId) && es[1..] == ServerMaps.MessagesOf(c, fs[1..]);
      var wireRole := fs[0].header.roleId;
      assert wireRole != 0 ==> R.RoleAfter(wireRole, fs[1..]) == wireRole;
      TurnTakesNoRole(M.Next(s, es[0]), c, fs[1..]);
    }
  }

  lemma DataKeepsExact<C>(s: Server<C>, c: C, chunk: seq<byte>)
    requires Consistent(s) && M.Exact(s.maps) && M.RolesSound(s.maps)
    requires Enabled(s, Read(c, R.Data(chunk))) && Orderly(s, Read(c, R.Data(chunk)))
    ensures var t := Next(s, Read(c, R.Data(chunk)));
            M.Exact(t.maps) && M.RolesSound(t.maps) && t.maps.disconnected == s.maps.disconnected
  {
    var conn := R.Complete(s.conns[c], R.Data(chunk));
    var news := News(s.conns[c], conn);
    var msgs := ServerMaps.MessagesOf(c, news);
    ServerMaps.FramesRegister(s.maps, c, news);
    TurnTakesNoRole(s.maps, c, news);
    M.RunReachableIff(s.maps, msgs);
    M.RunSound(s.maps, msgs);
    DataOnlyTellsRole(s, c, chunk);
  }

  lemma EndKeepsExact<C>(s: Server<C>, c: C, r: R.ReadResult)
    requires Consistent(s) && M.Exact(s.maps) && M.RolesSound(s.maps)
    requires Enabled(s, Read(c, r)) && Orderly(s, Read(c, r)) && Ends(r)
    ensures var t := Next(s, Read(c, r));
            && M.Exact(t.maps) && M.RolesSound(t.maps)
            && t.maps.disconnected == s.maps.disconnected + [s.conns[c].roleId]
  {
    EndReachesMaps(s, c, r);
    assert M.Run(s.maps, ServerMaps.MessagesOf(c, [])) == s.maps;
    M.StepNamesIff(s.maps, M.Close(c));
    M.StepReachableIff(s.maps, M.Close(c));
    M.StepSound(s.maps, M.Close(c));
  }

  lemma AcceptKeepsExact<C>(s: Server<C>, c: C, name: string)
    requires Consistent(s) && M.Exact(s.maps) && M.RolesSound(s.maps)
    requires Enabled(s, Accept(c, name)) && Orderly(s, Accept(c, name))
    ensures var t := Next(s, Accept(c, name));
            M.Exact(t.maps) && M.RolesSound(t.maps) && t.maps.disconnected == s.maps.disconnected
  {
    M.StepNamesIff(s.maps, M.Connect(c, name));
    M.StepReachableIff(s.maps, M.Connect(c, name));
    M.StepSound(s.maps, M.Connect(c, name));
  }

  /** The role of the connection that ends with this event, if it does. */
  ghost function EndOf<C>(s: Server<C>, e: Event<C>): seq<i32>
    requires Consistent(s) && Enabled(s, e)
  {
    if e.Read? && Ends(e.result) then [s.conns[e.c].roleId] else []
  }

  lemma StepOrderly<C>(s: Server<C>, e: Event<C>)
    requires Consistent(s) && M.Exact(s.maps) && M.RolesSound(s.maps) && Enabled(s, e) && Orderly(s, e)
    ensures var t := Next(s, e);
            M.Exact(t.maps) && M.RolesSound(t.maps) && t.maps.disconnected == s.maps.disconnected + EndOf(s, e)
  {
    hide M.Exact, M.RolesSound, Consistent, Orderly, Next, Enabled;
    assert s.maps.disconnected + [] == s.maps.disconnected;
    match e {
      case Accept(c, name) =>
        AcceptKeepsExact(s, c, name);
      case Read(c, Data(chunk)) =>
        DataKeepsExact(s, c, chunk);
      case Read(c, OtherError) =>
        OtherErrorLeavesMaps(s, c);
      case Read(c, r) =>
        EndKeepsExact(s, c, r);
    }
  }

  lemma {:induction false} RunOrderly<C>(s: Server<C>, es: seq<Event<C>>)
    requires Consistent(s) && M.Exact(s.maps) && M.RolesSound(s.maps) && Possible(s, es) && AllOrderly(s, es)
    ensures var t := Run(s, es);
            && M.Exact(t.maps) && M.RolesSound(t.maps)
            && t.maps.disconnected == s.maps.disconnected + EndsOver(s, es)
    decreases |es|
  {
    hide Consistent, M.Exact, M.RolesSound, Next, Enabled, Orderly, EndOf;
    if es == [] {
      assert s.maps.disconnected + [] == s.maps.disconnected;
    } else {
      var t := Next(s, es[0]);
      StepOrderly(s, es[0]);
      RunOrderly(t, es[1..]);
      Assoc(s.maps.disconnected, EndOf(s, es[0]), EndsOver(t, es[1..]));
    }
  }

  /** In every orderly run of reads: the server lists by name and by role exactly the connections it accepted and whose
      reads have not ended, and it reported the disconnect of every one that ended, in order. */
  lemma MapsFollowReads<C>(es: seq<Event<C>>)
    requires Possible(Initial(), es) && AllOrderly(Initial(), es)
    ensures var t := Run(Initial(), es).maps;
            && t.disconnected == EndsOver(Initial(), es)
            && (forall n :: n in t.connMap ==> WasAccepted(es, t.connMap[n]) && !HasEnded(es, t.connMap[n]))
            && (forall r :: r in t.roleMap && r != 0 ==>
                  && WasAccepted(es, t.roleMap[r]) && !HasEnded(es, t.roleMap[r])
                  && t.roleMap[r] in t.roleOf && t.roleOf[t.roleMap[r]] == r)
            && forall c :: WasAccepted(es, c) && !HasEnded(es, c) ==>
                 && c in t.nameOf && t.nameOf[c] in t.connMap && t.connMap[t.nameOf[c]] == c && c in t.roleOf
                 && (t.roleOf[c] != 0 ==> t.roleOf[c] in t.roleMap && t.roleMap[t.roleOf[c]] == c)
  {
    assert Consistent(Initial<C>()) && M.Exact(Initial<C>().maps) && M.RolesSound(Initial<C>().maps);
    hide Possible, Run, WasAccepted, HasEnded, EndsOver, AllOrderly, Consistent, M.Exact, M.RolesSound;
    RunOrderly(Initial<C>(), es);
    assert [] + EndsOver(Initial<C>(), es) == EndsOver(Initial<C>(), es);
    var t := Run(Initial<C>(), es).maps;
    ExactMeans(t);
    forall n | n in t.connMap
      ensures WasAccepted(es, t.connMap[n]) && !HasEnded(es, t.connMap[n])
    {
      LiveIff(es, t.connMap[n]);
    }
    forall r | r in t.roleMap && r != 0
      ensures WasAccepted(es, t.roleMap[r]) && !HasEnded(es, t.roleMap[r])
    {
      LiveIff(es, t.roleMap[r]);
    }
    forall c | WasAccepted(es, c) && !HasEnded(es, c)
      ensures c in t.live
    {
      LiveIff(es, c);
    }
  }

  lemma ExactMeans<C>(t: M.State<C>)
    requires M.Exact(t) && M.RolesSound(t)
    ensures forall n :: n in t.connMap ==> t.connMap[n] in t.live
    ensures forall r :: r in t.roleMap && r != 0 ==>
              t.roleMap[r] in t.live && t.roleMap[r] in t.roleOf && t.roleOf[t.roleMap[r]] == r
    ensures forall c :: c in t.live ==>
              && c in t.nameOf && t.nameOf[c] in t.connMap && t.connMap[t.nameOf[c]] == c && c in t.roleOf
              && (t.roleOf[c] != 0 ==> t.roleOf[c] in t.roleMap && t.roleMap[t.roleOf[c]] == c)
  {
  }
}
