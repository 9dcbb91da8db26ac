/** GameServer/GameServer.cpp: the map from connection names and the map from role ids, over all runs of
    connects, messages and closes. C is the identity of a connection. */
module ConnectionMaps {
  import opened Bytes

  datatype State<C> = State(
    connMap: map<string, C>, roleMap: map<i32, C>,
    nameOf: map<C, string>, roleOf: map<C, i32>,  // fields of every connection ever made
    live: set<C>, disconnected: seq<i32>)         // calls of the role disconnect callback

  function Initial<C>(): State<C> {
    State(map[], map[], map[], map[], {}, [])
  }

  datatype Event<C> =
    | Connect(c: C, name: string)
    | Message(c: C, wireRole: i32)
    | Close(c: C)

  /** A new object connects; messages and the close come from live connections. */
  ghost predicate Enabled<C>(s: State<C>, e: Event<C>) {
    match e
    case Connect(c, _) => c !in s.nameOf
    case Message(c, _) => c in s.live
    case Close(c) => c in s.live
  }

  /** Fields belong to every connection made. */
  ghost predicate Typed<C>(s: State<C>) {
    s.live <= s.nameOf.Keys && s.nameOf.Keys == s.roleOf.Keys
  }

  function Next<C>(s: State<C>, e: Event<C>): (t: State<C>)
    requires Typed(s) && Enabled(s, e)
    ensures Typed(t)
  {
    match e
    case Connect(c, name) =>
      // insert leaves an entry of the same name as it is
      s.(connMap := if name in s.connMap then s.connMap else s.connMap[name := c],
         nameOf := s.nameOf[c := name], roleOf := s.roleOf[c := 0], live := s.live + {c})
    case Message(c, wireRole) =>
      if s.roleOf[c] != 0 then s
      else s.(roleOf := s.roleOf[c := wireRole], roleMap := s.roleMap[wireRole := c])
    case Close(c) =>
      var role, closed := s.roleOf[c], s.(live := s.live - {c});
      if role !in s.roleMap then closed
      else
        var removed := closed.(roleMap := s.roleMap - {role});
        if s.nameOf[c] !in s.connMap then removed
        else removed.(connMap := s.connMap - {s.nameOf[c]}, disconnected := s.disconnected + [role])
  }

  ghost predicate Possible<C>(s: State<C>, es: seq<Event<C>>)
    requires Typed(s)
    decreases |es|
  {
    es == [] || (Enabled(s, es[0]) && Possible(Next(s, es[0]), es[1..]))
  }

  function Run<C>(s: State<C>, es: seq<Event<C>>): (t: State<C>)
    requires Typed(s) && Possible(s, es)
    ensures Typed(t)
    decreases |es|
  {
    if es == [] then s else Run(Next(s, es[0]), es[1..])
  }

  // What every role entry means.

  /** Peers have different addresses while they are connected. */
  ghost predicate FreshName<C>(s: State<C>, e: Event<C>)
    requires Typed(s)
  {
    e.Connect? ==> forall d :: d in s.live ==> s.nameOf[d] != e.name
  }

  ghost predicate AllFreshNames<C>(s: State<C>, es: seq<Event<C>>)
    requires Typed(s) && Possible(s, es)
    decreases |es|
  {
    es == [] || (FreshName(s, es[0]) && AllFreshNames(Next(s, es[0]), es[1..]))
  }

  /** Live connections have different names, which are keys of the name map; each role entry is a live connection that
      has this role id. */
  ghost predicate Coherent<C>(s: State<C>) {
    && Typed(s)
    && (forall c, d :: c in s.live && d in s.live && s.nameOf[c] == s.nameOf[d] ==> c == d)
    && (forall c :: c in s.live ==> s.nameOf[c] in s.connMap)
    && (forall r :: r in s.roleMap ==> s.roleMap[r] in s.live && s.roleOf[s.roleMap[r]] == r)
  }

  /** The connection that is registered under role id 0 sends another role id. */
  ghost predicate Reregisters<C>(s: State<C>, e: Event<C>)
    requires Typed(s) && Enabled(s, e)
  {
    e.Message? && s.roleOf[e.c] == 0 && e.wireRole != 0 && 0 in s.roleMap && s.roleMap[0] == e.c
  }

  /** Exactly two kinds of steps break coherence. */
  lemma StepCoherentIff<C>(s: State<C>, e: Event<C>)
    requires Coherent(s) && Enabled(s, e)
    ensures Coherent(Next(s, e)) <==> FreshName(s, e) && !Reregisters(s, e)
  {
    var t := Next(s, e);
    if Reregisters(s, e) {
      assert t.roleMap[0] == e.c && t.roleOf[e.c] == e.wireRole;
    } else if !FreshName(s, e) {
      var d :| d in s.live && s.nameOf[d] == e.name;
      assert t.nameOf[d] == t.nameOf[e.c];
    } else {
      forall r | r in t.roleMap
        ensures t.roleMap[r] in t.live && t.roleOf[t.roleMap[r]] == r
      {
        if e.Message? && s.roleOf[e.c] == 0 && r != e.wireRole {
          assert s.roleMap[r] != e.c;
        }
      }
    }
  }

  /** Coherent at every point of a run. */
  ghost predicate AlwaysCoherent<C>(s: State<C>, es: seq<Event<C>>)
    requires Typed(s) && Possible(s, es)
    decreases |es|
  {
    Coherent(s) && (es == [] || AlwaysCoherent(Next(s, es[0]), es[1..]))
  }

  ghost predicate NeverReregisters<C>(s: State<C>, es: seq<Event<C>>)
    requires Typed(s) && Possible(s, es)
    decreases |es|
  {
    es == [] || (!Reregisters(s, es[0]) && NeverReregisters(Next(s, es[0]), es[1..]))
  }

  /** Map coherence over all runs, role id 0 on the wire included. */
  lemma {:induction false} RunCoherentIff<C>(s: State<C>, es: seq<Event<C>>)
    requires Coherent(s) && Possible(s, es)
    ensures AlwaysCoherent(s, es) <==> AllFreshNames(s, es) && NeverReregisters(s, es)
    decreases |es|
  {
    assert Typed(s);
    hide Coherent, Next, Reregisters, FreshName;
    if es != [] {
      var t := Next(s, es[0]);
      StepCoherentIff(s, es[0]);
      if Coherent(t) {
        RunCoherentIff(t, es[1..]);
      }
    }
  }

  /** A role id on the wire is not zero. */
  ghost predicate NoZeroRole<C>(es: seq<Event<C>>) {
    forall e :: e in es && e.Message? ==> e.wireRole != 0
  }

  /** With nonzero role ids on the wire no step breaks coherence, and 0 stays unregistered. */
  lemma {:induction false} RunCoherent<C>(s: State<C>, es: seq<Event<C>>)
    requires Coherent(s) && 0 !in s.roleMap && Possible(s, es) && AllFreshNames(s, es) && NoZeroRole(es)
    ensures Coherent(Run(s, es)) && 0 !in Run(s, es).roleMap
    decreases |es|
  {
    assert Typed(s);
    hide Coherent, FreshName;
    if es != [] {
      assert es[0] in es;
      StepCoherentIff(s, es[0]);
      RunCoherent(Next(s, es[0]), es[1..]);
    }
  }

  /** A message that carries role id 0 makes the connection register again under its next role id, while the entry
      of role 0 keeps it. */
  lemma ZeroRoleBreaksCoherence<C>(s: State<C>, c: C, role: i32)
    requires Coherent(s) && c in s.live && s.roleOf[c] == 0 && role != 0
    ensures var u := Next(s, Message(c, 0)); var t := Next(u, Message(c, role));
            && Coherent(u) && t.roleMap[0] == c && t.roleMap[role] == c && t.roleOf[c] == role && !Coherent(t)
  {
    StepCoherentIff(s, Message(c, 0));
    StepCoherentIff(Next(s, Message(c, 0)), Message(c, role));
  }

  /** How often a connection registers: with nonzero role ids at most once, under the first one. */
  lemma {:induction false} RegistersUnderFirstRole<C>(s: State<C>, es: seq<Event<C>>, c: C)
    requires Typed(s) && Possible(s, es) && c in s.roleOf && s.roleOf[c] != 0
    ensures c in Run(s, es).roleOf && Run(s, es).roleOf[c] == s.roleOf[c]
    ensures forall r :: r in Run(s, es).roleMap && Run(s, es).roleMap[r] == c ==> r in s.roleMap && s.roleMap[r] == c
    decreases |es|
  {
    if es != [] {
      RegistersUnderFirstRole(Next(s, es[0]), es[1..], c);
    }
  }

  // What the name map lists.

  /** What a close leaves, from any state: the role is no longer registered, whoever was registered under it; the name
      is taken off the name map, and the disconnect reported, exactly if some connection was registered under the role
      and the name is listed. All other entries stay. */
  lemma CloseRemovesIff<C>(s: State<C>, c: C)
    requires Typed(s) && c in s.live
    ensures var t, role, name := Next(s, Close(c)), s.roleOf[c], s.nameOf[c];
            && t.live == s.live - {c} && role !in t.roleMap
            && (name in t.connMap <==> name in s.connMap && role !in s.roleMap)
            && t.disconnected == s.disconnected + (if role in s.roleMap && name in s.connMap then [role] else [])
            && (forall r :: r != role ==> (r in t.roleMap <==> r in s.roleMap))
            && (forall r :: r != role && r in s.roleMap ==> t.roleMap[r] == s.roleMap[r])
            && (forall n :: n != name ==> (n in t.connMap <==> n in s.connMap))
            && (forall n :: n in t.connMap ==> n in s.connMap && t.connMap[n] == s.connMap[n])
            && (role !in s.roleMap ==> t == s.(live := s.live - {c}))
            && (Coherent(s) ==> (name !in t.connMap <==> role in s.roleMap))
  {
  }

  /** The name map lists exactly the live connections, each under its own name. */
  ghost predicate NamesExact<C>(s: State<C>) {
    && Typed(s)
    && (forall c :: c in s.live ==> s.nameOf[c] in s.connMap && s.connMap[s.nameOf[c]] == c)
    && (forall n :: n in s.connMap ==> s.connMap[n] in s.live && s.nameOf[s.connMap[n]] == n)
  }

  /** A new name is not listed yet; a connection that closes has its role registered. */
  ghost predicate KeepsNames<C>(s: State<C>, e: Event<C>)
    requires Typed(s) && Enabled(s, e)
  {
    match e
    case Connect(_, name) => name !in s.connMap
    case Message(_, _) => true
    case Close(c) => s.roleOf[c] in s.roleMap
  }

  lemma StepNamesIff<C>(s: State<C>, e: Event<C>)
    requires NamesExact(s) && Enabled(s, e)
    ensures NamesExact(Next(s, e)) <==> KeepsNames(s, e)
    ensures e.Connect? ==> (KeepsNames(s, e) <==> FreshName(s, e))
  {
    var t := Next(s, e);
    match e {
      case Connect(c, name) =>
        if name in s.connMap {
          assert s.connMap[name] in s.live && t.connMap[name] != c;
        }
      case Message(_, _) =>
      case Close(c) =>
        if s.roleOf[c] !in s.roleMap {
          assert t.connMap[s.nameOf[c]] !in t.live;
        }
    }
  }

  ghost predicate AlwaysNamesExact<C>(s: State<C>, es: seq<Event<C>>)
    requires Typed(s) && Possible(s, es)
    decreases |es|
  {
    NamesExact(s) && (es == [] || AlwaysNamesExact(Next(s, es[0]), es[1..]))
  }

  ghost predicate AllKeepNames<C>(s: State<C>, es: seq<Event<C>>)
    requires Typed(s) && Possible(s, es)
    decreases |es|
  {
    es == [] || (KeepsNames(s, es[0]) && AllKeepNames(Next(s, es[0]), es[1..]))
  }

  /** Over all runs: the name map is exact at every point if and only if no name is taken twice and no connection
      closes while its role is not registered. */
  lemma {:induction false} RunNamesIff<C>(s: State<C>, es: seq<Event<C>>)
    requires NamesExact(s) && Possible(s, es)
    ensures AlwaysNamesExact(s, es) <==> AllKeepNames(s, es)
    decreases |es|
  {
    assert Typed(s);
    hide NamesExact, Next, KeepsNames;
    if es != [] {
      var t := Next(s, es[0]);
      StepNamesIff(s, es[0]);
      if NamesExact(t) {
        RunNamesIff(t, es[1..]);
      }
    }
  }

  /** A peer that closes before it told its role stays listed, and shuts out the next one of the same name. */
  lemma SilentCloseShutsOutName<C>(s: State<C>, c: C, d: C)
    requires Coherent(s) && NamesExact(s) && c in s.live && s.roleOf[c] !in s.roleMap && d !in s.nameOf
    ensures var u := Next(s, Close(c)); var t := Next(u, Connect(d, s.nameOf[c]));
            && FreshName(u, Connect(d, s.nameOf[c])) && Coherent(t)
            && t.connMap == s.connMap && t.connMap[s.nameOf[c]] == c && c !in t.live && d in t.live
  {
    StepCoherentIff(s, Close(c));
    StepCoherentIff(Next(s, Close(c)), Connect(d, s.nameOf[c]));
  }

  // When the role map lists exactly the live connections that have told their role.

  /** An entry of a role other than 0 is a live connection of this role: true in every run. */
  ghost predicate RolesSound<C>(s: State<C>) {
    && Typed(s)
    && forall r :: r in s.roleMap && r != 0 ==> s.roleMap[r] in s.live && s.roleOf[s.roleMap[r]] == r
  }

  /** The live connections that have told their role are found under it. */
  ghost predicate AllReachable<C>(s: State<C>)
    requires Typed(s)
  {
    forall c :: c in s.live && s.roleOf[c] != 0 ==> s.roleOf[c] in s.roleMap && s.roleMap[s.roleOf[c]] == c
  }

  /** A connection that has no role yet tells one that another live connection plays. Later role ids of a connection
      are ignored, as is 0. */
  ghost predicate TakesRole<C>(s: State<C>, e: Event<C>)
    requires Typed(s) && Enabled(s, e)
  {
    && e.Message? && s.roleOf[e.c] == 0 && e.wireRole != 0
    && exists d :: d in s.live && s.roleOf[d] == e.wireRole
  }

  /** Exactly one kind of step makes a connection unreachable. */
  lemma StepReachableIff<C>(s: State<C>, e: Event<C>)
    requires Typed(s) && AllReachable(s) && Enabled(s, e)
    ensures AllReachable(Next(s, e)) <==> !TakesRole(s, e)
  {
    var t := Next(s, e);
    if TakesRole(s, e) {
      var d :| d in s.live && s.roleOf[d] == e.wireRole;
      assert t.roleOf[d] == e.wireRole && t.roleMap[e.wireRole] == e.c;
    }
  }

  ghost predicate AlwaysReachable<C>(s: State<C>, es: seq<Event<C>>)
    requires Typed(s) && Possible(s, es)
    decreases |es|
  {
    AllReachable(s) && (es == [] || AlwaysReachable(Next(s, es[0]), es[1..]))
  }

  ghost predicate NeverTakesRole<C>(s: State<C>, es: seq<Event<C>>)
    requires Typed(s) && Possible(s, es)
    decreases |es|
  {
    es == [] || (!TakesRole(s, es[0]) && NeverTakesRole(Next(s, es[0]), es[1..]))
  }

  /** Over all runs: every connection that told its role is found under it at every point if and only if no connection
      ever takes the role of another. */
  lemma {:induction false} RunReachableIff<C>(s: State<C>, es: seq<Event<C>>)
    requires Typed(s) && AllReachable(s) && Possible(s, es)
    ensures AlwaysReachable(s, es) <==> NeverTakesRole(s, es)
    ensures NeverTakesRole(s, es) ==> AllReachable(Run(s, es))
    decreases |es|
  {
    assert Typed(s);
    hide AllReachable, Next, TakesRole;
    if es != [] {
      var t := Next(s, es[0]);
      StepReachableIff(s, es[0]);
      if AllReachable(t) {
        RunReachableIff(t, es[1..]);
      }
    }
  }

  lemma {:induction false} RunSound<C>(s: State<C>, es: seq<Event<C>>)
    requires RolesSound(s) && Possible(s, es)
    ensures RolesSound(Run(s, es))
    decreases |es|
  {
    if es != [] {
      StepSound(s, es[0]);
      RunSound(Next(s, es[0]), es[1..]);
    }
  }

  lemma StepSound<C>(s: State<C>, e: Event<C>)
    requires RolesSound(s) && Enabled(s, e)
    ensures RolesSound(Next(s, e))
  {
  }

  lemma {:induction false} ZeroStaysOut<C>(s: State<C>, es: seq<Event<C>>)
    requires Typed(s) && 0 !in s.roleMap && Possible(s, es) && NoZeroRole(es)
    ensures 0 !in Run(s, es).roleMap
    decreases |es|
  {
    if es != [] {
      assert es[0] in es;
      ZeroStaysOut(Next(s, es[0]), es[1..]);
    }
  }

  /** While no connection takes the role of another, the role map, 0 aside, is exactly the live connections that have
      told their role, each under its own, whatever ids they send later and whatever connections close. */
  lemma RoleMapIsExact<C>(es: seq<Event<C>>)
    requires Possible(Initial(), es) && NeverTakesRole(Initial(), es)
    ensures var t := Run(Initial(), es);
            && (forall r, c :: r != 0 ==> (r in t.roleMap && t.roleMap[r] == c <==> c in t.live && t.roleOf[c] == r))
            && (NoZeroRole(es) ==> 0 !in t.roleMap)
  {
    if NoZeroRole(es) {
      ZeroStaysOut(Initial<C>(), es);
    }
    RunReachableIff(Initial<C>(), es);
    RunSound(Initial<C>(), es);
  }

  // When both maps are exact.

  ghost predicate Exact<C>(s: State<C>) {
    NamesExact(s) && AllReachable(s)
  }

  ghost predicate KeepsExact<C>(s: State<C>, e: Event<C>)
    requires Typed(s) && Enabled(s, e)
  {
    KeepsNames(s, e) && !TakesRole(s, e)
  }

  ghost predicate AlwaysExact<C>(s: State<C>, es: seq<Event<C>>)
    requires Typed(s) && Possible(s, es)
    decreases |es|
  {
    Exact(s) && (es == [] || AlwaysExact(Next(s, es[0]), es[1..]))
  }

  ghost predicate AllKeepExact<C>(s: State<C>, es: seq<Event<C>>)
    requires Typed(s) && Possible(s, es)
    decreases |es|
  {
    es == [] || (KeepsExact(s, es[0]) && AllKeepExact(Next(s, es[0]), es[1..]))
  }

  /** A name that no live connection has, and the close of a connection that has told its role, are such steps. */
  lemma OrderlyKeepsExact<C>(s: State<C>, e: Event<C>)
    requires Exact(s) && Enabled(s, e)
    requires FreshName(s, e) && !TakesRole(s, e) && (e.Close? ==> s.roleOf[e.c] != 0)
    ensures KeepsExact(s, e)
  {
    StepNamesIff(s, e);
  }

  /** Over all runs, both directions. */
  lemma {:induction false} RunExactIff<C>(s: State<C>, es: seq<Event<C>>)
    requires Exact(s) && Possible(s, es)
    ensures AlwaysExact(s, es) <==> AllKeepExact(s, es)
    ensures AllKeepExact(s, es) ==> Exact(Run(s, es))
    decreases |es|
  {
    assert Typed(s);
    hide NamesExact, AllReachable, Next, KeepsNames, TakesRole;
    if es != [] {
      var t := Next(s, es[0]);
      StepNamesIff(s, es[0]);
      StepReachableIff(s, es[0]);
      if Exact(t) {
        RunExactIff(t, es[1..]);
      }
    }
  }

  /** The name map is exactly the live connections, and the role map, 0 aside, exactly those that have told their role,
      as long as no listed name connects, no connection closes while its role is not registered, and none takes the
      role of another. */
  lemma MapsAreExact<C>(es: seq<Event<C>>)
    requires Possible(Initial(), es) && AllKeepExact(Initial(), es)
    ensures var t := Run(Initial(), es);
            && (forall n, c :: n in t.connMap && t.connMap[n] == c <==> c in t.live && t.nameOf[c] == n)
            && (forall r, c :: r != 0 ==> (r in t.roleMap && t.roleMap[r] == c <==> c in t.live && t.roleOf[c] == r))
            && (NoZeroRole(es) ==> 0 !in t.roleMap)
  {
    if NoZeroRole(es) {
      ZeroStaysOut(Initial<C>(), es);
    }
    RunExactIff(Initial<C>(), es);
    RunSound(Initial<C>(), es);
  }

  /** Two connections of one role, the first of which closes: the second stays open, but no message for the role
      finds it, and when it closes too its name stays listed. */
  lemma SharedRoleLosesConnection<C>(s: State<C>, c: C, d: C, role: i32)
    requires Coherent(s) && c in s.live && d in s.live && c != d && role != 0
    requires s.roleOf[c] == role && s.roleOf[d] == 0
    ensures var t := Next(Next(s, Message(d, role)), Close(c));
            && d in t.live && t.roleOf[d] == role && role !in t.roleMap
            && t.nameOf[d] in Next(t, Close(d)).connMap && d !in Next(t, Close(d)).live
  {
    assert s.nameOf[d] in s.connMap && s.nameOf[d] != s.nameOf[c];
  }
}
