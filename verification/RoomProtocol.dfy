/** The chat rooms over time: every connection is served by a thread of its own, and the threads
  meet only in the calls of `Room`, each of which holds the lock from beginning to end. */
module RoomProtocol {
  import opened Wrappers
  import opened Room

  /** A member as the others see it. */
  datatype Face = Face(id: int, nick: string)

  /** Where a connection's thread is: not in a room; in one, with its roster still to be pushed;
      in one, and announced; or over. */
  datatype Phase = Idle | Entered(who: Face) | Listed(who: Face) | Closed

  /** `since` is how much had been said in the room when the connection entered it. */
  datatype Conn = Conn(port: nat, phase: Phase, since: nat)

  /** `said` is all the chat of each room, which the server itself does not keep. */
  datatype World = World(st: State, conns: map<Sock, Conn>, said: map<nat, seq<seq<int>>>)

  datatype Action =
    | Connect(s: Sock, port: nat)
    | Join(s: Sock, nick: Option<string>)
    | Push(s: Sock)
    | Chat(s: Sock, text: seq<int>)
    | Leave(s: Sock)

  function Said(w: World, port: nat): seq<seq<int>> {
    if port in w.said then w.said[port] else []
  }

  ghost predicate Init(w: World) {
    w == World(State(map[], FirstId, map[]), map[], map[])
  }

  /** The number of a closed socket may be given out again. */
  ghost predicate ConnectStep(w: World, s: Sock, port: nat, w': World) {
    && (s in w.conns ==> w.conns[s].phase.Closed?)
    && w' == w.(conns := w.conns[s := Conn(port, Idle, 0)], st := w.st.(wire := w.st.wire[s := []]))
  }

  /** `id` is 0 if the room is full; then the connection may try again. */
  ghost predicate JoinStep(w: World, s: Sock, nick: Option<string>, id: int, w': World) {
    && s in w.conns && w.conns[s].phase.Idle?
    && Joins(w.st, w.conns[s].port, s, nick, w'.st, id) && w'.said == w.said
    && if id == 0 then w'.conns == w.conns
       else
         var ms, port := In(w'.st, w.conns[s].port), w.conns[s].port;
         && ms != []
         && w'.conns == w.conns[s := Conn(port, Entered(Face(id, ms[|ms| - 1].nick)), |Said(w, port)|)]
  }

  ghost predicate PushStep(w: World, s: Sock, w': World) {
    && s in w.conns && w.conns[s].phase.Entered?
    && var c := w.conns[s];
       w' == w.(st := Pushed(w.st, c.port, s), conns := w.conns[s := c.(phase := Listed(c.phase.who))])
  }

  /** Whoever is connected may speak, even without having joined. */
  ghost predicate ChatStep(w: World, s: Sock, text: seq<int>, w': World) {
    && s in w.conns && (w.conns[s].phase.Idle? || w.conns[s].phase.Listed?)
    && var port := w.conns[s].port;
       w' == w.(st := Chatted(w.st, port, text),
                said := if text == [] then w.said else w.said[port := Said(w, port) + [text]])
  }

  ghost predicate LeaveStep(w: World, s: Sock, w': World) {
    && s in w.conns && (w.conns[s].phase.Idle? || w.conns[s].phase.Listed?)
    && var c := w.conns[s];
       w' == w.(st := Gone(w.st, c.port, s), conns := w.conns[s := c.(phase := Closed)])
  }

  /** One step of one thread.  A connection joins at most once, and its roster is pushed before it
      does anything else. */
  ghost predicate Step(w: World, a: Action, w': World) {
    match a
    case Connect(s, port) => ConnectStep(w, s, port, w')
    case Join(s, nick) => exists id :: JoinStep(w, s, nick, id, w')
    case Push(s) => PushStep(w, s, w')
    case Chat(s, text) => ChatStep(w, s, text, w')
    case Leave(s) => LeaveStep(w, s, w')
  }

  // ----- what a launcher makes of what it is sent

  function Faces(ids: seq<int>, nicks: seq<string>): set<Face> {
    set i | 0 <= i < |ids| && i < |nicks| :: Face(ids[i], nicks[i])
  }

  function Shown(v: set<Face>, m: Message): set<Face> {
    if m.Roster? then Faces(m.ids, m.nicks)
    else if m.Added? then v + {Face(m.id, m.nick)}
    else if m.UserLeft? then WithoutId(v, m.id)
    else v
  }

  function WithoutId(v: set<Face>, id: int): set<Face> {
    set x | x in v && x.id != id
  }

  /** The other members it shows, by id and name. */
  function View(log: seq<Message>): set<Face> {
    if log == [] then {} else Shown(View(log[..|log| - 1]), log[|log| - 1])
  }

  /** The lines it shows. */
  function Lines(log: seq<Message>): seq<seq<int>> {
    if log == [] then []
    else Lines(log[..|log| - 1]) + if log[|log| - 1].ChatText? then [log[|log| - 1].text] else []
  }

  // ----- the invariant

  predicate Active(w: World, s: Sock) {
    s in w.conns && (w.conns[s].phase.Entered? || w.conns[s].phase.Listed?)
  }

  predicate IsListed(w: World, s: Sock) {
    s in w.conns && w.conns[s].phase.Listed?
  }

  function Who(w: World, s: Sock): Face
    requires Active(w, s)
  {
    w.conns[s].phase.who
  }

  /** Another connection in the same room. */
  predicate Peer(w: World, s: Sock, t: Sock) {
    Active(w, s) && Active(w, t) && s != t && w.conns[t].port == w.conns[s].port
  }

  ghost predicate HasSock(ms: seq<Member>, s: Sock) {
    exists i :: 0 <= i < |ms| && ms[i].sock == s
  }

  /** At most 32 members, all different, and each of them a connection in this room. */
  ghost predicate RoomOk(w: World, port: nat) {
    var ms := In(w.st, port);
    && |ms| <= MaxMembers
    && (forall i :: 0 <= i < |ms| ==> MemberOk(w, port, ms[i]))
    && DistinctMembers(ms)
  }

  ghost predicate DistinctMembers(ms: seq<Member>) {
    forall i, j :: 0 <= i < j < |ms| ==> ms[i].sock != ms[j].sock && ms[i].nick != ms[j].nick
  }

  predicate MemberOk(w: World, port: nat, m: Member) {
    Active(w, m.sock) && w.conns[m.sock].port == port && Who(w, m.sock) == Face(m.id, m.nick)
  }

  /** A connection in a room is one of its members, and no other has its id; a connection that has
      not joined has been sent nothing. */
  ghost predicate ConnOk(w: World, s: Sock) {
    && (s in w.conns && w.conns[s].phase.Idle? ==> Log(w.st.wire, s) == [])
    && (Active(w, s) ==> InRoom(w, s))
  }

  ghost predicate InRoom(w: World, s: Sock)
    requires Active(w, s)
  {
      && HasSock(In(w.st, w.conns[s].port), s)
      && FirstId <= Who(w, s).id < w.st.nextId
      && (forall t :: Active(w, t) && t != s ==> Who(w, t).id != Who(w, s).id)
  }

  /** It shows only others who are in the room, and once announced all others who are announced. */
  ghost predicate ViewOk(w: World, s: Sock) {
    Active(w, s) ==>
      var v := View(Log(w.st.wire, s));
      && (forall x :: x in v ==> exists t :: Peer(w, s, t) && Who(w, t) == x)
      && (IsListed(w, s) ==> forall t :: Peer(w, s, t) && IsListed(w, t) ==> Who(w, t) in v)
  }

  /** It shows what has been said since it entered, everything once, in one order for all. */
  ghost predicate LinesOk(w: World, s: Sock) {
    Active(w, s) ==>
      var c := w.conns[s];
      c.since <= |Said(w, c.port)| && Lines(Log(w.st.wire, s)) == Said(w, c.port)[c.since..]
  }

  ghost predicate Inv(w: World) {
    && FirstId <= w.st.nextId
    && (forall port :: RoomOk(w, port))
    && (forall s :: ConnOk(w, s))
    && (forall s :: ViewOk(w, s))
    && (forall s :: LinesOk(w, s))
  }

  // ----- messages to several members

  lemma ViewNext(log: seq<Message>, m: Message)
    ensures View(log + [m]) == Shown(View(log), m)
    ensures Lines(log + [m]) == Lines(log) + if m.ChatText? then [m.text] else []
  {
    assert (log + [m])[..|log|] == log;
  }

  lemma {:induction false} EachLog(w: Wire, ms: seq<Member>, m: Message, x: Sock)
    requires DistinctMembers(ms)
    ensures Log(SendEach(w, ms, m), x) == if HasSock(ms, x) then Log(w, x) + [m] else Log(w, x)
    decreases |ms|
  {
    if ms != [] {
      var n := |ms| - 1;
      var front := ms[..n];
      assert forall i :: 0 <= i < n ==> front[i] == ms[i];
      EachLog(w, front, m, x);
      if ms[n].sock == x {
        assert !HasSock(front, x);
      } else if HasSock(ms, x) {
        var i :| 0 <= i < |ms| && ms[i].sock == x;
        assert front[i].sock == x;
      }
    }
  }

  lemma LastIn(ms: seq<Member>, m: Member)
    requires ms != []
    ensures m in ms <==> m in ms[..|ms| - 1] || m == ms[|ms| - 1]
  {
    assert ms == ms[..|ms| - 1] + [ms[|ms| - 1]];
  }

  lemma {:induction false} OthersHas(ms: seq<Member>, s: Sock, m: Member)
    ensures m in Others(ms, s) <==> m in ms && m.sock != s
    decreases |ms|
  {
    if ms != [] {
      LastIn(ms, m);
      OthersHas(ms[..|ms| - 1], s, m);
    }
  }

  lemma DistinctFront(ms: seq<Member>, n: nat)
    requires DistinctMembers(ms) && n <= |ms|
    ensures DistinctMembers(ms[..n])
    ensures forall m :: m in ms[..n] && n < |ms| ==> m.sock != ms[n].sock && m.nick != ms[n].nick
  {
    assert forall i :: 0 <= i < n ==> ms[..n][i] == ms[i];
  }

  lemma DistinctPush(o: seq<Member>, x: Member)
    requires DistinctMembers(o) && forall m :: m in o ==> m.sock != x.sock && m.nick != x.nick
    ensures DistinctMembers(o + [x])
  {
    assert forall i :: 0 <= i < |o| ==> o[i] in o;
  }

  lemma {:induction false} OthersDistinct(ms: seq<Member>, s: Sock)
    requires DistinctMembers(ms)
    ensures DistinctMembers(Others(ms, s))
    decreases |ms|
  {
    hide DistinctMembers;
    if ms != [] {
      var n := |ms| - 1;
      DistinctFront(ms, n);
      OthersDistinct(ms[..n], s);
      forall m | m in Others(ms[..n], s) ensures m.sock != ms[n].sock && m.nick != ms[n].nick {
        OthersHas(ms[..n], s, m);
      }
      DistinctPush(Others(ms[..n], s), ms[n]);
      assert Others(ms[..n], s) + [] == Others(ms[..n], s);
    } else {
      Distinct0();
    }
  }

  lemma Distinct0()
    ensures DistinctMembers([])
  {
  }

  lemma OthersAre(ms: seq<Member>, s: Sock)
    requires DistinctMembers(ms)
    ensures forall m :: m in Others(ms, s) <==> m in ms && m.sock != s
    ensures DistinctMembers(Others(ms, s))
  {
    hide *;
    OthersDistinct(ms, s);
    forall m ensures m in Others(ms, s) <==> m in ms && m.sock != s {
      OthersHas(ms, s, m);
    }
  }

  lemma {:induction false} JoinerIs(ms: seq<Member>, s: Sock)
    ensures Joiner(ms, s).Some? <==> HasSock(ms, s)
    ensures Joiner(ms, s).Some? ==> Joiner(ms, s).value in ms && Joiner(ms, s).value.sock == s
    decreases |ms|
  {
    if ms != [] {
      var n := |ms| - 1;
      var front := ms[..n];
      assert forall i :: 0 <= i < n ==> front[i] == ms[i];
      JoinerIs(front, s);
      assert ms[n].sock == s ==> HasSock(ms, s);
    }
  }

  /** The members are the connections in the room. */
  lemma Members(w: World, port: nat, s: Sock)
    requires Inv(w)
    ensures HasSock(In(w.st, port), s) <==> Active(w, s) && w.conns[s].port == port
  {
    assert RoomOk(w, port) && ConnOk(w, s);
    var ms := In(w.st, port);
    if HasSock(ms, s) {
      var i :| 0 <= i < |ms| && ms[i].sock == s;
      assert MemberOk(w, port, ms[i]);
    }
  }

  // ----- each step keeps the invariant

  /** What happens elsewhere does not matter to `t`: it is sent nothing that changes its view, the
      others it may show are still there, and no others have been announced. */
  ghost predicate Unmoved(w: World, w': World, t: Sock) {
    && Active(w, t) && (IsListed(w', t) ==> IsListed(w, t))
    && View(Log(w'.st.wire, t)) == View(Log(w.st.wire, t))
    && (forall u :: Peer(w, t, u) ==> Peer(w', t, u) && Who(w', u) == Who(w, u))
    && (forall u :: Peer(w', t, u) && IsListed(w', u) ==> Peer(w, t, u) && IsListed(w, u) && Who(w', u) == Who(w, u))
  }

  lemma ViewFrame(w: World, w': World, t: Sock)
    requires ViewOk(w, t) && (Active(w', t) ==> Unmoved(w, w', t))
    ensures ViewOk(w', t)
  {
    hide View;
    if Active(w', t) {
      forall x | x in View(Log(w'.st.wire, t)) ensures exists u :: Peer(w', t, u) && Who(w', u) == x {
        var u :| Peer(w, t, u) && Who(w, u) == x;
        assert Peer(w', t, u);
      }
    }
  }

  lemma LinesFrame(w: World, w': World, t: Sock)
    requires LinesOk(w, t)
    requires Active(w', t) ==> Active(w, t) && w'.conns[t].port == w.conns[t].port && w'.conns[t].since == w.conns[t].since
    requires Active(w', t) ==> Lines(Log(w'.st.wire, t)) == Lines(Log(w.st.wire, t))
    requires w'.said == w.said
    ensures LinesOk(w', t)
  {
    hide Lines, Log;
  }

  lemma ConnFrame(w: World, w': World, t: Sock)
    requires ConnOk(w, t) && w'.conns == w.conns && w'.st.nextId == w.st.nextId
    requires t in w.conns && w.conns[t].phase.Idle? ==> Log(w'.st.wire, t) == Log(w.st.wire, t)
    requires Active(w, t) ==> In(w'.st, w.conns[t].port) == In(w.st, w.conns[t].port)
    ensures ConnOk(w', t)
  {
    hide Log, In, HasSock;
    forall u | Active(w', u) ensures Active(w, u) && Who(w', u) == Who(w, u) {}
  }

  lemma ConnectKeeps(w: World, s: Sock, port: nat, w': World)
    requires Inv(w) && ConnectStep(w, s, port, w')
    ensures Inv(w')
  {
    hide DistinctMembers, HasSock, View, Lines;
    forall t ensures Active(w', t) <==> Active(w, t) {}
    forall p ensures RoomOk(w', p) {
      assert RoomOk(w, p);
    }
    forall t ensures ConnOk(w', t) {
      assert ConnOk(w, t);
    }
    forall t ensures ViewOk(w', t) && LinesOk(w', t) {
      assert ViewOk(w, t) && LinesOk(w, t);
      ViewFrame(w, w', t);
      LinesFrame(w, w', t);
    }
  }

  // ----- joining

  /** What a join changes. */
  lemma JoinFacts(w: World, s: Sock, nick: Option<string>, id: int, w': World) returns (m: Member)
    requires FirstId <= w.st.nextId && JoinStep(w, s, nick, id, w')
    ensures w'.st.wire == w.st.wire && w'.said == w.said
    ensures var port := w.conns[s].port;
            var ms := In(w.st, port);
            && (forall p :: p != port ==> In(w'.st, p) == In(w.st, p))
            && if |ms| < MaxMembers then
                 && id == w.st.nextId && id != 0 && w'.st.nextId == id + 1
                 && In(w'.st, port) == ms + [m] && m.sock == s && m.id == id
                 && (forall i :: 0 <= i < |ms| ==> ms[i].nick != m.nick)
               else id == 0 && w'.st.nextId == w.st.nextId && In(w'.st, port) == ms
  {
    var port := w.conns[s].port;
    var ms := In(w.st, port);
    m := Member(0, 0, "");
    if |ms| < MaxMembers {
      var name :| Named(ms, nick, name) && w'.st.rooms == w.st.rooms[port := ms + [Member(s, id, name)]];
      NamedFree(ms, nick, name);
      m := Member(s, id, name);
    }
  }

  lemma NamedFree(ms: seq<Member>, nick: Option<string>, name: string)
    requires Named(ms, nick, name)
    ensures forall i :: 0 <= i < |ms| ==> ms[i].nick != name
  {
  }

  lemma JoinRoom(w: World, s: Sock, nick: Option<string>, id: int, w': World, p: nat)
    requires Inv(w) && JoinStep(w, s, nick, id, w')
    ensures RoomOk(w', p)
  {
    hide Joins, Inv, ConnOk;
    InvRoom(w, p);
    var m := JoinFacts(w, s, nick, id, w');
    var ms := In(w.st, p);
    forall i | 0 <= i < |ms| ensures ms[i].sock != s && MemberOk(w', p, ms[i]) {
      assert MemberOk(w, p, ms[i]);
    }
  }

  lemma InvRoom(w: World, p: nat)
    requires Inv(w)
    ensures RoomOk(w, p) && FirstId <= w.st.nextId
  {
  }

  lemma JoinConn(w: World, s: Sock, nick: Option<string>, id: int, w': World, t: Sock)
    requires Inv(w) && JoinStep(w, s, nick, id, w')
    ensures ConnOk(w', t)
  {
    hide Joins, RoomOk, Named, ViewOk, LinesOk;
    var m := JoinFacts(w, s, nick, id, w');
    assert ConnOk(w, t);
    if Active(w', t) {
      var ms := In(w.st, w'.conns[t].port);
      if t == s {
        assert (ms + [m])[|ms|].sock == s;
        forall u | Active(w', u) && u != s ensures Who(w', u).id != id {
          assert ConnOk(w, u);
        }
      } else {
        HasAppend(ms, m, t);
        assert Active(w, t) && w'.conns[t] == w.conns[t];
        forall u | Active(w', u) && u != t ensures Who(w', u).id != Who(w', t).id {
          assert u != s ==> Active(w, u);
        }
      }
    }
  }

  lemma HasAppend(ms: seq<Member>, m: Member, t: Sock)
    ensures HasSock(ms, t) ==> HasSock(ms + [m], t)
  {
    if HasSock(ms, t) {
      var i :| 0 <= i < |ms| && ms[i].sock == t;
      assert (ms + [m])[i].sock == t;
    }
  }

  lemma JoinView(w: World, s: Sock, nick: Option<string>, id: int, w': World, t: Sock)
    requires Inv(w) && JoinStep(w, s, nick, id, w')
    ensures ViewOk(w', t) && LinesOk(w', t)
  {
    InvAt(w, t);
    hide Joins, RoomOk, Named, HasSock, Inv, ViewOk, LinesOk;
    var m := JoinFacts(w, s, nick, id, w');
    if t != s || id == 0 {
      ViewFrame(w, w', t);
      LinesFrame(w, w', t);
    } else {
      JoinFresh(w', s);
    }
  }

  /** Who has just entered has not been told of anyone, or heard anything. */
  lemma JoinFresh(w: World, s: Sock)
    requires Active(w, s) && !IsListed(w, s) && Log(w.st.wire, s) == []
    requires w.conns[s].since == |Said(w, w.conns[s].port)|
    ensures ViewOk(w, s) && LinesOk(w, s)
  {
  }

  lemma JoinKeeps(w: World, s: Sock, nick: Option<string>, id: int, w': World)
    requires Inv(w) && JoinStep(w, s, nick, id, w')
    ensures Inv(w')
  {
    var m := JoinFacts(w, s, nick, id, w');
    hide RoomOk, ConnOk, ViewOk, LinesOk, Joins;
    forall p ensures RoomOk(w', p) {
      JoinRoom(w, s, nick, id, w', p);
    }
    forall t ensures ConnOk(w', t) && ViewOk(w', t) && LinesOk(w', t) {
      JoinConn(w, s, nick, id, w', t);
      JoinView(w, s, nick, id, w', t);
    }
  }

  // ----- pushing the roster

  /** What a push sends: the others to the joiner, the joiner to the others. */
  lemma PushLog(w: World, s: Sock, w': World, t: Sock)
    requires Inv(w) && PushStep(w, s, w')
    ensures var log, log' := Log(w.st.wire, t), Log(w'.st.wire, t);
            if t == s then exists ids, nicks :: log' == log + [Roster(ids, nicks)] && RosterIs(w, s, ids, nicks)
            else if Peer(w, s, t) then log' == log + [Added(Who(w, s).id, Who(w, s).nick)]
            else log' == log
  {
    var port := w.conns[s].port;
    var ms := In(w.st, port);
    var others := Others(ms, s);
    var first := Roster(Ids(others), Nicks(others));
    var w1 := SendTo(w.st.wire, s, first);
    InvRoom(w, port);
    OthersAre(ms, s);
    JoinerIs(ms, s);
    Members(w, port, s);
    Members(w, port, t);
    var m := Joiner(ms, s).value;
    HasId(w, port, m);
    hide SendEach, RoomOk, ConnOk, ViewOk, LinesOk, View, Lines, Inv;
    EachLog(w1, others, Added(m.id, m.nick), t);
    HasOther(ms, s, t);
    if t == s {
      RosterOthers(w, s);
    }
  }

  lemma HasId(w: World, port: nat, m: Member)
    requires RoomOk(w, port) && m in In(w.st, port)
    ensures Active(w, m.sock) && w.conns[m.sock].port == port && Who(w, m.sock) == Face(m.id, m.nick)
  {
    var ms := In(w.st, port);
    var i :| 0 <= i < |ms| && ms[i] == m;
    assert MemberOk(w, port, ms[i]);
  }

  lemma HasOther(ms: seq<Member>, s: Sock, t: Sock)
    requires DistinctMembers(ms)
    ensures HasSock(Others(ms, s), t) <==> t != s && HasSock(ms, t)
  {
    OthersAre(ms, s);
    var o := Others(ms, s);
    if HasSock(o, t) {
      var i :| 0 <= i < |o| && o[i].sock == t;
      assert o[i] in ms;
    }
    if HasSock(ms, t) && t != s {
      var i :| 0 <= i < |ms| && ms[i].sock == t;
      assert ms[i] in o;
    }
  }

  /** The roster lists exactly the others in the room, each by its name. */
  ghost predicate RosterIs(w: World, s: Sock, ids: seq<int>, nicks: seq<string>) {
    forall x :: x in Faces(ids, nicks) <==> exists t :: Peer(w, s, t) && Who(w, t) == x
  }

  lemma RosterOthers(w: World, s: Sock)
    requires Inv(w) && Active(w, s)
    ensures var o := Others(In(w.st, w.conns[s].port), s); RosterIs(w, s, Ids(o), Nicks(o))
  {
    var port := w.conns[s].port;
    var ms := In(w.st, port);
    InvRoom(w, port);
    hide Inv, In, Others, DistinctMembers, Who, MemberOk, RoomOk;
    var o := Others(ms, s);
    OthersAre(ms, s);
    forall x ensures x in Faces(Ids(o), Nicks(o)) <==> exists t :: Peer(w, s, t) && Who(w, t) == x {
      FacesAre(o, x);
      if x in Faces(Ids(o), Nicks(o)) {
        var i :| 0 <= i < |o| && Face(o[i].id, o[i].nick) == x;
        assert o[i] in ms;
        HasId(w, port, o[i]);
        assert Peer(w, s, o[i].sock);
      }
      if t :| Peer(w, s, t) && Who(w, t) == x {
        Members(w, port, t);
        var i :| 0 <= i < |ms| && ms[i].sock == t;
        HasId(w, port, ms[i]);
        assert ms[i] in o;
        var j :| 0 <= j < |o| && o[j] == ms[i];
      }
    }
  }

  lemma FacesAre(o: seq<Member>, x: Face)
    ensures x in Faces(Ids(o), Nicks(o)) <==> exists i :: 0 <= i < |o| && Face(o[i].id, o[i].nick) == x
  {
    if i :| 0 <= i < |o| && Face(o[i].id, o[i].nick) == x {
      assert Ids(o)[i] == o[i].id && Nicks(o)[i] == o[i].nick;
    }
  }

  /** Nobody comes or goes. */
  lemma PushSame(w: World, s: Sock, w': World)
    requires PushStep(w, s, w')
    ensures forall u :: Active(w', u) <==> Active(w, u)
    ensures forall u :: Active(w, u) ==> Who(w', u) == Who(w, u) && w'.conns[u].port == w.conns[u].port
    ensures forall u :: IsListed(w', u) <==> IsListed(w, u) || u == s
    ensures forall t, u :: Peer(w', t, u) <==> Peer(w, t, u)
    ensures forall p :: In(w'.st, p) == In(w.st, p)
    ensures w'.st.nextId == w.st.nextId && w'.said == w.said && Active(w, s)
    ensures forall u :: u in w.conns && u != s ==> u in w'.conns && w'.conns[u] == w.conns[u]
  {
    hide PushWire;
  }

  lemma PushKeeps(w: World, s: Sock, w': World)
    requires Inv(w) && PushStep(w, s, w')
    ensures Inv(w')
  {
    hide DistinctMembers, View, Lines, HasSock, PushStep, ConnOk, ViewOk, LinesOk;
    PushSame(w, s, w');
    forall p ensures RoomOk(w', p) {
      assert RoomOk(w, p);
    }
    forall t ensures ConnOk(w', t) && ViewOk(w', t) && LinesOk(w', t) {
      PushConn(w, s, w', t);
      PushView(w, s, w', t);
    }
  }

  lemma PushConn(w: World, s: Sock, w': World, t: Sock)
    requires Inv(w) && PushStep(w, s, w')
    ensures ConnOk(w', t)
  {
    assert t in w'.conns && w'.conns[t].phase.Idle? ==> t in w.conns && w.conns[t].phase.Idle?;
    hide View, Lines, PushStep, HasSock, RoomOk, ViewOk, LinesOk;
    assert ConnOk(w, t);
    PushSame(w, s, w');
    PushLog(w, s, w', t);
  }

  lemma PushView(w: World, s: Sock, w': World, t: Sock)
    requires Inv(w) && PushStep(w, s, w')
    ensures ViewOk(w', t) && LinesOk(w', t)
  {
    InvAt(w, t);
    PushActive(w, s, w');
    hide *;
    PushLog(w, s, w', t);
    if t == s {
      PushOwn(w, s, w');
    } else if Peer(w, s, t) {
      PushPeer(w, s, w', t);
    } else {
      OtherView(w, s, w', t);
      PushLines(w, s, w', t);
    }
  }

  lemma PushOwn(w: World, s: Sock, w': World)
    requires PushStep(w, s, w') && LinesOk(w, s)
    requires exists ids, nicks :: Log(w'.st.wire, s) == Log(w.st.wire, s) + [Roster(ids, nicks)] && RosterIs(w, s, ids, nicks)
    ensures ViewOk(w', s) && LinesOk(w', s)
  {
    hide *;
    var log := Log(w.st.wire, s);
    var ids, nicks :| Log(w'.st.wire, s) == log + [Roster(ids, nicks)] && RosterIs(w, s, ids, nicks);
    ViewNext(log, Roster(ids, nicks));
    ShownIs(View(log), Roster(ids, nicks));
    RosterView(w, s, w', ids, nicks);
    assert Lines(log) + [] == Lines(log);
    PushLines(w, s, w', s);
  }

  lemma PushPeer(w: World, s: Sock, w': World, t: Sock)
    requires PushStep(w, s, w') && LinesOk(w, t) && ViewOk(w, t) && Peer(w, s, t)
    requires Log(w'.st.wire, t) == Log(w.st.wire, t) + [Added(Who(w, s).id, Who(w, s).nick)]
    ensures ViewOk(w', t) && LinesOk(w', t)
  {
    PeerIs(w, s, t);
    hide *;
    var log := Log(w.st.wire, t);
    var m := Added(Who(w, s).id, Who(w, s).nick);
    ViewNext(log, m);
    ShownIs(View(log), m);
    AddedView(w, s, w', t);
    assert Lines(log) + [] == Lines(log);
    PushLines(w, s, w', t);
  }

  lemma PushActive(w: World, s: Sock, w': World)
    requires PushStep(w, s, w')
    ensures Active(w, s)
  {
  }

  lemma PeerIs(w: World, s: Sock, t: Sock)
    requires Peer(w, s, t)
    ensures Active(w, s) && Active(w, t)
  {
  }

  lemma ShownIs(v: set<Face>, m: Message)
    ensures m.Roster? ==> Shown(v, m) == Faces(m.ids, m.nicks)
    ensures m.Added? ==> Shown(v, m) == v + {Face(m.id, m.nick)}
    ensures m.UserLeft? ==> Shown(v, m) == WithoutId(v, m.id)
    ensures m.ChatText? ==> Shown(v, m) == v
  {
  }

  lemma InvAt(w: World, t: Sock)
    requires Inv(w)
    ensures ConnOk(w, t) && ViewOk(w, t) && LinesOk(w, t)
  {
  }

  lemma PushLines(w: World, s: Sock, w': World, t: Sock)
    requires LinesOk(w, t) && PushStep(w, s, w')
    requires Lines(Log(w'.st.wire, t)) == Lines(Log(w.st.wire, t))
    ensures LinesOk(w', t)
  {
    hide Lines, PushWire, Log, LinesOk;
    LinesFrame(w, w', t);
  }

  lemma OtherView(w: World, s: Sock, w': World, t: Sock)
    requires PushStep(w, s, w') && ViewOk(w, t) && !Peer(w, s, t) && t != s
    requires Log(w'.st.wire, t) == Log(w.st.wire, t)
    ensures ViewOk(w', t)
  {
    hide View, PushWire, Log;
    ViewFrame(w, w', t);
  }

  lemma RosterView(w: World, s: Sock, w': World, ids: seq<int>, nicks: seq<string>)
    requires PushStep(w, s, w') && RosterIs(w, s, ids, nicks)
    requires View(Log(w'.st.wire, s)) == Faces(ids, nicks)
    ensures ViewOk(w', s)
  {
    hide View, PushStep, Faces;
    PushSame(w, s, w');
    forall x | x in Faces(ids, nicks) ensures exists t :: Peer(w', s, t) && Who(w', t) == x {
      var t :| Peer(w, s, t) && Who(w, t) == x;
      assert Peer(w', s, t);
    }
    forall t | Peer(w', s, t) && IsListed(w', t) ensures Who(w', t) in Faces(ids, nicks) {
      assert Peer(w, s, t);
    }
  }

  lemma AddedView(w: World, s: Sock, w': World, t: Sock)
    requires PushStep(w, s, w') && ViewOk(w, t) && Peer(w, s, t)
    requires View(Log(w'.st.wire, t)) == View(Log(w.st.wire, t)) + {Who(w, s)}
    ensures ViewOk(w', t)
  {
    hide View, PushStep;
    PushSame(w, s, w');
    forall x | x in View(Log(w'.st.wire, t)) ensures exists u :: Peer(w', t, u) && Who(w', u) == x {
      if x == Who(w, s) {
        assert Peer(w', t, s);
      } else {
        var u :| Peer(w, t, u) && Who(w, u) == x;
        assert Peer(w', t, u);
      }
    }
    assert IsListed(w', t) ==> IsListed(w, t);
    forall u | IsListed(w', t) && Peer(w', t, u) && IsListed(w', u) ensures Who(w', u) in View(Log(w'.st.wire, t)) {
      assert Peer(w, t, u);
    }
  }

  // ----- chat

  lemma ChatLog(w: World, s: Sock, text: seq<int>, w': World, t: Sock)
    requires Inv(w) && ChatStep(w, s, text, w')
    ensures var log, log' := Log(w.st.wire, t), Log(w'.st.wire, t);
            if text != [] && Active(w, t) && w.conns[t].port == w.conns[s].port then log' == log + [ChatText(text)]
            else log' == log
  {
    var port := w.conns[s].port;
    InvRoom(w, port);
    Members(w, port, t);
    hide SendEach;
    EachLog(w.st.wire, In(w.st, port), ChatText(text), t);
  }

  lemma ChatSame(w: World, s: Sock, text: seq<int>, w': World)
    requires ChatStep(w, s, text, w')
    ensures w'.conns == w.conns && w'.st.nextId == w.st.nextId
    ensures forall p :: In(w'.st, p) == In(w.st, p)
    ensures forall p :: Said(w', p) == if text != [] && p == w.conns[s].port then Said(w, p) + [text] else Said(w, p)
  {
    hide SendEach;
  }

  lemma ChatAt(w: World, s: Sock, text: seq<int>, w': World, t: Sock)
    requires Inv(w) && ChatStep(w, s, text, w')
    ensures ConnOk(w', t) && ViewOk(w', t) && LinesOk(w', t)
  {
    InvAt(w, t);
    hide ChatStep, HasSock, View, Lines, Inv, ConnOk, ViewOk, LinesOk, RoomOk;
    ChatSame(w, s, text, w');
    ChatLog(w, s, text, w', t);
    var log := Log(w.st.wire, t);
    ViewNext(log, ChatText(text));
    ConnFrame(w, w', t);
    ViewFrame(w, w', t);
    ChatLines(w, w', t, if Log(w'.st.wire, t) == log then [] else [text]);
  }

  /** What is heard is what is said. */
  lemma ChatLines(w: World, w': World, t: Sock, more: seq<seq<int>>)
    requires LinesOk(w, t) && w'.conns == w.conns
    requires Active(w, t) ==> Said(w', w.conns[t].port) == Said(w, w.conns[t].port) + more
    requires Lines(Log(w'.st.wire, t)) == Lines(Log(w.st.wire, t)) + more
    ensures LinesOk(w', t)
  {
    hide Lines, Log, Said;
    if Active(w, t) {
      var c := w.conns[t];
      var all := Said(w, c.port);
      assert (all + more)[c.since..] == all[c.since..] + more;
    }
  }

  lemma ChatKeeps(w: World, s: Sock, text: seq<int>, w': World)
    requires Inv(w) && ChatStep(w, s, text, w')
    ensures Inv(w')
  {
    hide ChatStep, ConnOk, ViewOk, LinesOk, DistinctMembers;
    ChatSame(w, s, text, w');
    forall p ensures RoomOk(w', p) {
      assert RoomOk(w, p);
    }
    forall t ensures ConnOk(w', t) && ViewOk(w', t) && LinesOk(w', t) {
      ChatAt(w, s, text, w', t);
    }
  }

  // ----- leaving

  /** The members without the one at `i`. */
  function Drop(ms: seq<Member>, i: nat): (left: seq<Member>)
    requires i < |ms|
    ensures |left| == |ms| - 1
    ensures forall j :: 0 <= j < |left| ==> left[j] == ms[if j < i then j else j + 1]
  {
    ms[..i] + ms[i + 1..]
  }

  lemma Without(ms: seq<Member>, i: nat, t: Sock)
    requires i < |ms| && DistinctMembers(ms)
    ensures var left := ms[..i] + ms[i + 1..];
            && DistinctMembers(left) && |left| == |ms| - 1
            && (forall m :: m in left ==> m in ms)
            && (HasSock(left, t) <==> HasSock(ms, t) && t != ms[i].sock)
  {
    assert Drop(ms, i) == ms[..i] + ms[i + 1..];
    hide Drop, DistinctMembers, HasSock;
    DropDistinct(ms, i);
    DropHas(ms, i, t);
  }

  lemma DropDistinct(ms: seq<Member>, i: nat)
    requires i < |ms| && DistinctMembers(ms)
    ensures DistinctMembers(Drop(ms, i))
    ensures forall m :: m in Drop(ms, i) ==> m in ms
  {
    hide Drop;
  }

  lemma DropHas(ms: seq<Member>, i: nat, t: Sock)
    requires i < |ms| && DistinctMembers(ms)
    ensures HasSock(Drop(ms, i), t) <==> HasSock(ms, t) && t != ms[i].sock
  {
    hide Drop;
    var left := Drop(ms, i);
    if HasSock(ms, t) && t != ms[i].sock {
      var j :| 0 <= j < |ms| && ms[j].sock == t;
      assert left[if j < i then j else j - 1].sock == t;
    }
    if HasSock(left, t) {
      var j :| 0 <= j < |left| && left[j].sock == t;
      assert ms[if j < i then j else j + 1].sock == t;
    }
  }

  lemma WhereHas(ms: seq<Member>, s: Sock)
    ensures Where(ms, s) < |ms| <==> HasSock(ms, s)
  {
  }

  /** What a leave sends: to the others, who has left. */
  lemma LeaveLog(w: World, s: Sock, w': World, t: Sock)
    requires Inv(w) && LeaveStep(w, s, w')
    ensures var log, log' := Log(w.st.wire, t), Log(w'.st.wire, t);
            if Peer(w, s, t) then log' == log + [UserLeft(Who(w, s).id)] else log' == log
  {
    var port := w.conns[s].port;
    var ms := In(w.st, port);
    InvRoom(w, port);
    InvAt(w, s);
    Members(w, port, s);
    Members(w, port, t);
    WhereHas(ms, s);
    hide SendEach, HasSock, Where, Inv;
    var i := Where(ms, s);
    if i < |ms| {
      HasId(w, port, ms[i]);
      Without(ms, i, t);
      EachLog(w.st.wire, ms[..i] + ms[i + 1..], UserLeft(ms[i].id), t);
    }
  }

  lemma LeaveIn(w: World, s: Sock, w': World, p: nat, t: Sock)
    requires Inv(w) && LeaveStep(w, s, w')
    ensures |In(w'.st, p)| <= |In(w.st, p)| && DistinctMembers(In(w'.st, p))
    ensures forall m :: m in In(w'.st, p) ==> m in In(w.st, p) && m.sock != s
    ensures HasSock(In(w'.st, p), t) <==> HasSock(In(w.st, p), t) && t != s
  {
    var port := w.conns[s].port;
    var ms := In(w.st, p);
    InvRoom(w, p);
    Members(w, p, s);
    Members(w, p, t);
    WhereHas(ms, s);
    NotHas(ms, s);
    hide SendEach, Where, Inv;
    var i := Where(ms, s);
    if p == port && i < |ms| {
      Without(ms, i, t);
      Without(ms, i, s);
      NotHas(ms[..i] + ms[i + 1..], s);
    }
  }

  lemma NotHas(ms: seq<Member>, s: Sock)
    ensures HasSock(ms, s) || forall m :: m in ms ==> m.sock != s
  {
  }

  lemma LeaveSame(w: World, s: Sock, w': World)
    requires LeaveStep(w, s, w')
    ensures forall u :: Active(w', u) <==> Active(w, u) && u != s
    ensures forall u :: u != s ==> (u in w'.conns <==> u in w.conns)
    ensures forall u :: u != s && u in w.conns ==> w'.conns[u] == w.conns[u]
    ensures w'.st.nextId == w.st.nextId && w'.said == w.said
    ensures s in w'.conns && w'.conns[s].phase.Closed?
  {
    hide SendEach, Where;
  }

  lemma LeaveRoom(w: World, s: Sock, w': World, p: nat)
    requires Inv(w) && LeaveStep(w, s, w')
    ensures RoomOk(w', p)
  {
    InvRoom(w, p);
    hide LeaveStep, Inv, HasSock, DistinctMembers;
    LeaveIn(w, s, w', p, s);
    LeaveSame(w, s, w');
    var ms := In(w'.st, p);
    forall i | 0 <= i < |ms| ensures MemberOk(w', p, ms[i]) {
      assert ms[i] in ms;
      HasId(w, p, ms[i]);
    }
  }

  lemma LeaveConn(w: World, s: Sock, w': World, t: Sock)
    requires Inv(w) && LeaveStep(w, s, w')
    ensures ConnOk(w', t)
  {
    InvAt(w, t);
    hide LeaveStep, Inv, HasSock, DistinctMembers, ViewOk, LinesOk;
    LeaveSame(w, s, w');
    LeaveLog(w, s, w', t);
    if Active(w', t) {
      LeaveIn(w, s, w', w.conns[t].port, t);
    }
  }

  lemma LeaveView(w: World, s: Sock, w': World, t: Sock)
    requires Inv(w) && LeaveStep(w, s, w')
    ensures ViewOk(w', t) && LinesOk(w', t)
  {
    InvAt(w, t);
    InvAt(w, s);
    hide LeaveStep, Inv, HasSock, DistinctMembers, View, Lines, Log, ViewOk, LinesOk, Shown;
    LeaveSame(w, s, w');
    LeaveLog(w, s, w', t);
    if Peer(w, s, t) {
      var log, id := Log(w.st.wire, t), Who(w, s).id;
      ViewNext(log, UserLeft(id));
      ShownIs(View(log), UserLeft(id));
      assert Lines(log) + [] == Lines(log);
      LeftView(w, s, w', t);
    } else {
      ViewFrame(w, w', t);
    }
    LinesFrame(w, w', t);
  }

  lemma LeftView(w: World, s: Sock, w': World, t: Sock)
    requires LeaveStep(w, s, w') && ViewOk(w, t) && ConnOk(w, s) && Peer(w, s, t)
    requires View(Log(w'.st.wire, t)) == WithoutId(View(Log(w.st.wire, t)), Who(w, s).id)
    ensures ViewOk(w', t)
  {
    hide LeaveStep, View, Log, HasSock;
    LeaveSame(w, s, w');
    var id := Who(w, s).id;
    forall x | x in View(Log(w'.st.wire, t)) ensures exists u :: Peer(w', t, u) && Who(w', u) == x {
      var u :| Peer(w, t, u) && Who(w, u) == x;
      assert Peer(w', t, u);
    }
    forall u | IsListed(w', t) && Peer(w', t, u) && IsListed(w', u) ensures Who(w', u) in View(Log(w'.st.wire, t)) {
      assert Peer(w, t, u) && IsListed(w, t);
    }
  }

  lemma LeaveKeeps(w: World, s: Sock, w': World)
    requires Inv(w) && LeaveStep(w, s, w')
    ensures Inv(w')
  {
    hide LeaveStep, RoomOk, ConnOk, ViewOk, LinesOk;
    LeaveSame(w, s, w');
    forall p ensures RoomOk(w', p) {
      LeaveRoom(w, s, w', p);
    }
    forall t ensures ConnOk(w', t) && ViewOk(w', t) && LinesOk(w', t) {
      LeaveConn(w, s, w', t);
      LeaveView(w, s, w', t);
    }
  }

  // ----- all runs

  lemma StepKeeps(w: World, a: Action, w': World)
    requires Inv(w) && Step(w, a, w')
    ensures Inv(w')
  {
    hide Inv, ConnectStep, JoinStep, PushStep, ChatStep, LeaveStep;
    match a
    case Connect(s, port) => ConnectKeeps(w, s, port, w');
    case Join(s, nick) =>
      var id :| JoinStep(w, s, nick, id, w');
      JoinKeeps(w, s, nick, id, w');
    case Push(s) => PushKeeps(w, s, w');
    case Chat(s, text) => ChatKeeps(w, s, text, w');
    case Leave(s) => LeaveKeeps(w, s, w');
  }

  /** Any interleaving of any number of connections. */
  ghost predicate Run(ws: seq<World>, acts: seq<Action>) {
    && |ws| == |acts| + 1 && Init(ws[0])
    && forall i :: 0 <= i < |acts| ==> Step(ws[i], acts[i], ws[i + 1])
  }

  /** The invariant holds throughout every run. */
  lemma {:induction false} RunSafe(ws: seq<World>, acts: seq<Action>, i: nat)
    requires Run(ws, acts) && i < |ws|
    ensures Inv(ws[i])
  {
    hide Inv, Step;
    if i == 0 {
      InitOk(ws[0]);
    } else {
      RunSafe(ws, acts, i - 1);
      StepKeeps(ws[i - 1], acts[i - 1], ws[i]);
    }
  }

  lemma InitOk(w: World)
    requires Init(w)
    ensures Inv(w)
  {
  }

  /** Once nobody's roster is still to be pushed, every member is shown exactly the others, by id and
      name. */
  lemma Settled(ws: seq<World>, acts: seq<Action>, i: nat, s: Sock)
    requires Run(ws, acts) && i < |ws| && IsListed(ws[i], s)
    requires forall t :: Peer(ws[i], s, t) ==> IsListed(ws[i], t)
    ensures var o := Others(In(ws[i].st, ws[i].conns[s].port), s);
            View(Log(ws[i].st.wire, s)) == set m | m in o :: Face(m.id, m.nick)
  {
    var w := ws[i];
    RunSafe(ws, acts, i);
    RosterOthers(w, s);
    InvAt(w, s);
    var o := Others(In(w.st, w.conns[s].port), s);
    hide Inv, Run, View, Log, Faces, Ids, Nicks, In, Others, ConnOk, LinesOk;
    var v := View(Log(w.st.wire, s));
    forall x ensures x in v <==> exists m :: m in o && Face(m.id, m.nick) == x {
      FacesAre(o, x);
      if m :| m in o && Face(m.id, m.nick) == x {
        var j :| 0 <= j < |o| && o[j] == m;
      }
      if x in Faces(Ids(o), Nicks(o)) {
        var t :| Peer(w, s, t) && Who(w, t) == x;
      }
    }
  }

  /** Two members of a room read the same lines in the same order from when both were in. */
  lemma SameLines(ws: seq<World>, acts: seq<Action>, i: nat, s: Sock, t: Sock)
    requires Run(ws, acts) && i < |ws| && Peer(ws[i], s, t) && ws[i].conns[s].since <= ws[i].conns[t].since
    ensures var a, b := Lines(Log(ws[i].st.wire, s)), Lines(Log(ws[i].st.wire, t));
            |b| <= |a| && b == a[|a| - |b|..]
  {
    var w := ws[i];
    RunSafe(ws, acts, i);
    InvAt(w, s);
    InvAt(w, t);
    hide Inv, Run, Lines, Log, ConnOk, ViewOk, Said, Step;
    Suffixes(Said(w, w.conns[s].port), w.conns[s].since, w.conns[t].since);
  }

  lemma Suffixes(all: seq<seq<int>>, p: nat, q: nat)
    requires p <= q <= |all|
    ensures all[q..] == all[p..][|all[p..]| - |all[q..]|..]
  {
  }

  /** At every moment: at most 32 members, no two with the same name or the same socket, ids that
      nobody else has. */
  lemma RoomsInOrder(ws: seq<World>, acts: seq<Action>, i: nat, port: nat, j: nat, k: nat)
    requires Run(ws, acts) && i < |ws|
    ensures |In(ws[i].st, port)| <= 32
    ensures var ms := In(ws[i].st, port);
            j < k < |ms| ==> ms[j].nick != ms[k].nick && ms[j].sock != ms[k].sock && ms[j].id != ms[k].id
  {
    RunSafe(ws, acts, i);
    InvRoom(ws[i], port);
    var ms := In(ws[i].st, port);
    if j < k < |ms| {
      HasId(ws[i], port, ms[j]);
      HasId(ws[i], port, ms[k]);
      InvAt(ws[i], ms[j].sock);
    }
  }

  /** Some socket is on the list twice. */
  ghost predicate Twice(ms: seq<Member>, s: Sock) {
    exists i, j :: 0 <= i < j < |ms| && ms[i].sock == s && ms[j].sock == s
  }

  /** The list without the first entry of `s`. */
  lemma LeftOver(ms: seq<Member>, s: Sock, left: seq<Member>, k: nat)
    requires k == Where(ms, s) < |ms| && left == ms[..k] + ms[k + 1..]
    ensures HasSock(left, s) ==> Twice(ms, s)
  {
    if HasSock(left, s) {
      var j :| 0 <= j < |left| && left[j].sock == s;
      assert j >= k && ms[j + 1] == left[j];
      assert ms[k].sock == s && ms[j + 1].sock == s;
    }
  }

  lemma LeftStill(ms: seq<Member>, s: Sock, left: seq<Member>, k: nat)
    requires k == Where(ms, s) < |ms| && left == ms[..k] + ms[k + 1..]
    ensures Twice(ms, s) ==> HasSock(left, s)
  {
    if Twice(ms, s) {
      var i, j :| 0 <= i < j < |ms| && ms[i].sock == s && ms[j].sock == s;
      assert left[j - 1] == ms[j];
    }
  }

  lemma GoneList(st: State, port: nat, s: Sock)
    ensures var ms, k := In(st, port), Where(In(st, port), s);
            In(Gone(st, port, s), port) == if k < |ms| then ms[..k] + ms[k + 1..] else ms
  {
    hide SendEach;
  }

  /** Leaving takes one off only once: one who has left is still a member exactly if it was one
      twice. */
  lemma StaysExactly(st: State, port: nat, s: Sock)
    ensures HasSock(In(Gone(st, port, s), port), s) <==> Twice(In(st, port), s)
  {
    hide In, Gone;
    var ms := In(st, port);
    var k := Where(ms, s);
    GoneList(st, port, s);
    if k < |ms| {
      hide HasSock, Twice;
      LeftOver(ms, s, ms[..k] + ms[k + 1..], k);
      LeftStill(ms, s, ms[..k] + ms[k + 1..], k);
    }
  }

  /** Nothing stops a connection from joining twice; then it stays in the room when it is gone. */
  lemma JoinedTwice(st: State, st1: State, st2: State, port: nat, s: Sock, nick: Option<string>, id1: int, id2: int)
    requires Joins(st, port, s, nick, st1, id1) && Joins(st1, port, s, nick, st2, id2)
    requires |In(st1, port)| < MaxMembers
    ensures HasSock(In(Gone(st2, port, s), port), s)
  {
    hide Named, SendEach;
    var ms := In(st2, port);
    var n := |ms|;
    assert ms[n - 1].sock == s && ms[n - 2].sock == s;
    StaysExactly(st2, port, s);
  }
}
