/** GameServer/GameServer.cpp as an object with its two maps, refining ConnectionMaps. */
module ServerMaps {
  import opened Bytes
  import opened ConnectionMaps
  import FrameSplitter
  import ReadTurns

  class Peer {
    const name: string
    var roleId: i32

    constructor (name: string)
      ensures this.name == name && roleId == 0
    {
      this.name, roleId := name, 0;
    }
  }

  class GameServer {
    var gameConnectionMap: map<string, Peer>
    var roleIdConnMap: map<i32, Peer>
    var disconnects: seq<i32>      // calls of the role disconnect callback
    ghost var made: set<Peer>      // connections ever made
    ghost var open: set<Peer>      // those whose close has not been reported

    ghost predicate Valid()
      reads this
    {
      open <= made
    }

    ghost function Model(): State<Peer>
      reads this, made
    {
      State(gameConnectionMap, roleIdConnMap, map p | p in made :: p.name, map p | p in made :: p.roleId,
            open, disconnects)
    }

    constructor ()
      ensures Valid() && Model() == Initial() && made == {}
    {
      gameConnectionMap, roleIdConnMap, disconnects := map[], map[], [];
      made, open := {}, {};
    }

    method OnNewTcpConnection(name: string) returns (p: Peer)
      requires Valid()
      modifies this`gameConnectionMap, this`made, this`open
      ensures Valid() && fresh(p) && made == old(made) + {p}
      ensures Enabled(old(Model()), Connect(p, name)) && Model() == Next(old(Model()), Connect(p, name))
    {
      p := new Peer(name);
      if name !in gameConnectionMap {
        gameConnectionMap := gameConnectionMap[name := p];
      }
      made, open := made + {p}, open + {p};
      assert Model().nameOf == old(Model().nameOf)[p := name];
      assert Model().roleOf == old(Model().roleOf)[p := 0];
    }

    /** The registration part of the parse loop of a connection, with its callback. */
    method OnMessage(p: Peer, wireRole: i32)
      requires Valid() && p in open
      modifies this`roleIdConnMap, p`roleId
      ensures Valid() && Model() == Next(old(Model()), Message(p, wireRole))
    {
      if p.roleId == 0 {
        p.roleId := wireRole;
        AddConnToRoleMap(wireRole, p);
      }
    }

    method AddConnToRoleMap(roleId: i32, conn: Peer)
      modifies this`roleIdConnMap
      ensures roleIdConnMap == old(roleIdConnMap)[roleId := conn]
    {
      roleIdConnMap := roleIdConnMap[roleId := conn];
    }

    method OnConnectionClose(p: Peer)
      requires Valid() && p in open
      modifies this`gameConnectionMap, this`roleIdConnMap, this`disconnects, this`open
      ensures Valid() && Model() == Next(old(Model()), Close(p))
    {
      open := open - {p};
      if p.roleId !in roleIdConnMap {
        return;
      }
      roleIdConnMap := roleIdConnMap - {p.roleId};
      if p.name !in gameConnectionMap {
        return;
      }
      gameConnectionMap := gameConnectionMap - {p.name};
      disconnects := disconnects + [p.roleId];
    }
  }

  // The registrations made by a connection's parse loop are those of its messages.

  function MessagesOf<C>(c: C, fs: seq<FrameSplitter.Frame>): seq<Event<C>> {
    if fs == [] then [] else [Message(c, fs[0].header.roleId)] + MessagesOf(c, fs[1..])
  }

  function RegisterAll<C>(roleMap: map<i32, C>, c: C, roles: seq<i32>): map<i32, C>
    decreases |roles|
  {
    if roles == [] then roleMap else RegisterAll(roleMap[roles[0] := c], c, roles[1..])
  }

  /** Taking the frames one message at a time leaves the maps and the role of the connection as the calls that
      the parse loop makes to the registration callback do. */
  lemma {:induction false} FramesRegister<C>(s: State<C>, c: C, fs: seq<FrameSplitter.Frame>)
    requires Typed(s) && c in s.live
    ensures Possible(s, MessagesOf(c, fs))
    ensures var role := s.roleOf[c];
            Run(s, MessagesOf(c, fs)) ==
            s.(roleOf := s.roleOf[c := ReadTurns.RoleAfter(role, fs)],
               roleMap := RegisterAll(s.roleMap, c, ReadTurns.Registrations(role, fs)))
    decreases |fs|
  {
    if fs == [] {
      assert s.roleOf[c := s.roleOf[c]] == s.roleOf;
    } else {
      var es := MessagesOf(c, fs);
      assert es[0] == Message(c, fs[0].header.roleId) && es[1..] == MessagesOf(c, fs[1..]);
      FramesRegister(Next(s, es[0]), c, fs[1..]);
      if s.roleOf[c] != 0 {
        KeepsRole(s.roleOf[c], fs[1..]);
      }
    }
  }

  lemma KeepsRole(role: i32, fs: seq<FrameSplitter.Frame>)
    requires role != 0
    ensures ReadTurns.RoleAfter(role, fs) == role && ReadTurns.Registrations(role, fs) == []
  {
  }
}
