/** wonserver_room: who is in a chat room, and what the members are told. */
module Room {
  import opened Wrappers

  const MaxMembers: nat := 32
  const FirstId: int := 0x1001

  type Sock = nat

  datatype Member = Member(sock: Sock, id: int, nick: string)

  datatype Room = Room(port: nat, members: seq<Member>)

  /** What is pushed to a launcher: messages 18, 2, 5 and 7 of service 50. */
  datatype Message =
    | Roster(ids: seq<int>, nicks: seq<string>)
    | Added(id: int, nick: string)
    | UserLeft(id: int)
    | ChatText(text: seq<int>)

  /** Everything sent on each socket so far. */
  type Wire = map<Sock, seq<Message>>

  function Log(w: Wire, s: Sock): seq<Message> {
    if s in w then w[s] else []
  }

  function SendTo(w: Wire, s: Sock, m: Message): Wire {
    w[s := Log(w, s) + [m]]
  }

  /** The same message to each of `ms`, in order. */
  function SendEach(w: Wire, ms: seq<Member>, m: Message): Wire {
    if ms == [] then w else SendTo(SendEach(w, ms[..|ms| - 1], m), ms[|ms| - 1].sock, m)
  }

  // ----- names

  /** A number of one or two digits. */
  function Digits(k: nat): string
    requires k < 100
  {
    var d := "0123456789";
    if k < 10 then [d[k]] else [d[k / 10], d[k % 10]]
  }

  /** The names that are tried: the base itself, then the base with 2, 3, ... */
  function Candidate(base: string, k: nat): string
    requires 1 <= k < 100
  {
    if k == 1 then base else base + " (" + Digits(k) + ")"
  }

  predicate Taken(ms: seq<Member>, nick: string) {
    exists i :: 0 <= i < |ms| && ms[i].nick == nick
  }

  lemma CandidateInjective(base: string, j: nat, k: nat)
    requires 1 <= j < k < 100
    ensures Candidate(base, j) != Candidate(base, k)
  {
    var n := |base|;
    var d := "0123456789";
    assert forall x, y :: 0 <= x < y < 10 ==> d[x] != d[y];
    var c := Candidate(base, k);
    assert c[n + 2] == Digits(k)[0];
    assert k >= 10 ==> c[n + 3] == Digits(k)[1];
    if j > 1 {
      var b := Candidate(base, j);
      assert b[n + 2] == Digits(j)[0];
      assert j >= 10 ==> b[n + 3] == Digits(j)[1];
    }
  }

  ghost function FirstNames(base: string, n: nat): (r: set<string>)
    requires n < 100
  {
    if n == 0 then {} else FirstNames(base, n - 1) + {Candidate(base, n)}
  }

  lemma {:induction false} NamesAre(base: string, n: nat, x: string)
    requires n < 100
    ensures x in FirstNames(base, n) <==> exists k :: 1 <= k <= n && x == Candidate(base, k)
  {
    hide Candidate;
    if n > 0 {
      NamesAre(base, n - 1, x);
    }
  }

  lemma {:induction false} ManyNames(base: string, n: nat)
    requires n < 100
    ensures |FirstNames(base, n)| == n
  {
    hide Candidate;
    if n > 0 {
      ManyNames(base, n - 1);
      var c := Candidate(base, n);
      NamesAre(base, n - 1, c);
      if c in FirstNames(base, n - 1) {
        var k :| 1 <= k <= n - 1 && c == Candidate(base, k);
        CandidateInjective(base, k, n);
      }
    }
  }

  ghost function NickSet(ms: seq<Member>): (r: set<string>)
    ensures forall x :: x in r <==> Taken(ms, x)
    ensures |r| <= |ms|
  {
    if ms == [] then {}
    else
      var n := |ms| - 1;
      assert forall x :: Taken(ms, x) <==> Taken(ms[..n], x) || x == ms[n].nick by {
        assert forall i :: 0 <= i < n ==> ms[i] == ms[..n][i];
      }
      NickSet(ms[..n]) + {ms[n].nick}
  }

  /** A room cannot have all of the first `n` names taken with fewer members. */
  lemma Pigeonhole(ms: seq<Member>, base: string, n: nat)
    requires n < 100 && forall k :: 1 <= k <= n ==> Taken(ms, Candidate(base, k))
    ensures n <= |ms|
  {
    ManyNames(base, n);
    forall x | x in FirstNames(base, n) ensures x in NickSet(ms) {
      NamesAre(base, n, x);
    }
    SubsetSize(FirstNames(base, n), NickSet(ms));
  }

  lemma {:induction false} SubsetSize(a: set<string>, b: set<string>)
    requires a <= b
    ensures |a| <= |b|
    decreases |a|
  {
    if a != {} {
      var x :| x in a;
      SubsetSize(a - {x}, b - {x});
    }
  }

  /** `k` is the first of the names that nobody in the room has. */
  ghost predicate FirstFree(ms: seq<Member>, base: string, k: nat) {
    1 <= k < 99 && !Taken(ms, Candidate(base, k)) && forall j :: 1 <= j < k ==> Taken(ms, Candidate(base, j))
  }

  function Base(nick: Option<string>): string {
    if nick.None? || nick.value == "" then "Player" else nick.value
  }

  method IsTaken(ms: seq<Member>, want: string) returns (taken: bool)
    ensures taken <==> Taken(ms, want)
  {
    taken := false;
    var i := 0;
    while i < |ms|
      invariant 0 <= i <= |ms|
      invariant forall m :: 0 <= m < i ==> ms[m].nick != want
    {
      if ms[i].nick == want {
        return true;
      }
      i := i + 1;
    }
  }

  lemma CandidateIs(base: string, k: nat)
    requires 1 <= k < 100
    ensures Candidate(base, k) == if k == 1 then base else base + " (" + Digits(k) + ")"
  {
  }

  /** The names that are tried for a player who gives none, and for one who does. */
  lemma Names(nick: string)
    ensures Base(None) == "Player" && Base(Some("")) == "Player" && (nick != "" ==> Base(Some(nick)) == nick)
    ensures Candidate(nick, 1) == nick && Candidate(nick, 2) == nick + " (2)"
    ensures Candidate(nick, 10) == nick + " (10)" && Candidate(nick, 33) == nick + " (33)"
  {
  }

  ghost predicate Named(ms: seq<Member>, nick: Option<string>, name: string) {
    exists k :: FirstFree(ms, Base(nick), k) && name == Candidate(Base(nick), k)
  }

  /** It never takes more tries than there are members, and one. */
  lemma NamedSoon(ms: seq<Member>, nick: Option<string>, name: string) returns (k: nat)
    requires Named(ms, nick, name)
    ensures 1 <= k <= |ms| + 1 && k < 100 && name == Candidate(Base(nick), k)
  {
    hide Candidate, Taken, Base;
    k :| FirstFree(ms, Base(nick), k) && name == Candidate(Base(nick), k);
    Pigeonhole(ms, Base(nick), k - 1);
  }

  /** `UniqueNick`: the first of the names that nobody in the room has. */
  method UniqueNick(ms: seq<Member>, nick: Option<string>) returns (want: string)
    requires |ms| < 98
    ensures !Taken(ms, want) && Named(ms, nick, want)
  {
    hide Candidate, Taken, Base, Digits;
    var base := Base(nick);
    want := base;
    CandidateIs(base, 1);
    ghost var k := 1;
    var suffix: nat := 2;
    while suffix < 100
      invariant 2 <= suffix <= 100 && k == suffix - 1
      invariant want == Candidate(base, k)
      invariant forall j :: 1 <= j < k ==> Taken(ms, Candidate(base, j))
    {
      var taken := IsTaken(ms, want);
      if !taken {
        assert FirstFree(ms, base, k);
        return;
      }
      k := suffix;
      CandidateIs(base, k);
      want := base + " (" + Digits(suffix) + ")";
      suffix := suffix + 1;
    }
    Pigeonhole(ms, base, 98);
  }

  // ----- what the four calls do

  datatype State = State(rooms: map<nat, seq<Member>>, nextId: int, wire: Wire)

  function In(st: State, port: nat): seq<Member> {
    if port in st.rooms then st.rooms[port] else []
  }

  /** Those on other sockets than `s`. */
  function Others(ms: seq<Member>, s: Sock): (r: seq<Member>)
    ensures |r| <= |ms|
  {
    if ms == [] then []
    else
      var last := ms[|ms| - 1];
      Others(ms[..|ms| - 1], s) + if last.sock == s then [] else [last]
  }

  function Ids(ms: seq<Member>): (r: seq<int>)
    ensures |r| == |ms|
  {
    seq(|ms|, i requires 0 <= i < |ms| => ms[i].id)
  }

  function Nicks(ms: seq<Member>): (r: seq<string>)
    ensures |r| == |ms|
  {
    seq(|ms|, i requires 0 <= i < |ms| => ms[i].nick)
  }

  /** The last member on socket `s`. */
  function Joiner(ms: seq<Member>, s: Sock): Option<Member> {
    if ms == [] then None
    else if ms[|ms| - 1].sock == s then Some(ms[|ms| - 1])
    else Joiner(ms[..|ms| - 1], s)
  }

  /** Where the first member on socket `s` is. */
  function Where(ms: seq<Member>, s: Sock): (i: nat)
    ensures i <= |ms| && (i < |ms| ==> ms[i].sock == s)
    ensures forall j :: 0 <= j < i ==> ms[j].sock != s
  {
    if ms == [] then 0 else if ms[0].sock == s then 0 else 1 + Where(ms[1..], s)
  }

  /** `Room_Join`: `id` is 0 if the room is full. */
  ghost predicate Joins(st: State, port: nat, s: Sock, nick: Option<string>, st': State, id: int) {
    var ms := In(st, port);
    if |ms| < MaxMembers then
      && id == st.nextId && st'.nextId == id + 1 && st'.wire == st.wire
      && exists name :: Named(ms, nick, name) && st'.rooms == st.rooms[port := ms + [Member(s, id, name)]]
    else id == 0 && st' == st.(rooms := st.rooms[port := ms])
  }

  /** `Room_PushRoster`: the others to the joiner, the joiner to the others. */
  function PushWire(w: Wire, ms: seq<Member>, s: Sock): Wire {
    var others := Others(ms, s);
    var w1 := SendTo(w, s, Roster(Ids(others), Nicks(others)));
    match Joiner(ms, s)
    case None => w1
    case Some(m) => SendEach(w1, others, Added(m.id, m.nick))
  }

  function Pushed(st: State, port: nat, s: Sock): State {
    var ms := In(st, port);
    st.(rooms := st.rooms[port := ms], wire := PushWire(st.wire, ms, s))
  }

  /** `Room_BroadcastChat`. */
  function Chatted(st: State, port: nat, text: seq<int>): State {
    var ms := In(st, port);
    if text == [] then st else st.(rooms := st.rooms[port := ms], wire := SendEach(st.wire, ms, ChatText(text)))
  }

  /** `Room_Leave`. */
  function Gone(st: State, port: nat, s: Sock): State {
    var ms := In(st, port);
    var i := Where(ms, s);
    if i == |ms| then st.(rooms := st.rooms[port := ms])
    else
      var left := ms[..i] + ms[i + 1..];
      st.(rooms := st.rooms[port := left],
          wire := if ms[i].id == 0 then st.wire else SendEach(st.wire, left, UserLeft(ms[i].id)))
  }

  // ----- the rooms as a list

  ghost predicate PortsDistinct(rooms: seq<Room>) {
    forall i, j :: 0 <= i < j < |rooms| ==> rooms[i].port != rooms[j].port
  }

  ghost function RoomMap(rooms: seq<Room>): map<nat, seq<Member>> {
    if rooms == [] then map[]
    else RoomMap(rooms[..|rooms| - 1])[rooms[|rooms| - 1].port := rooms[|rooms| - 1].members]
  }

  /** `port` is found in the list exactly when it is in the map. */
  lemma {:induction false} RoomMapHas(rooms: seq<Room>, port: nat)
    requires PortsDistinct(rooms)
    ensures port in RoomMap(rooms) <==> exists i :: 0 <= i < |rooms| && rooms[i].port == port
    ensures forall i :: 0 <= i < |rooms| && rooms[i].port == port ==> RoomMap(rooms)[port] == rooms[i].members
  {
    if rooms != [] {
      var n := |rooms| - 1;
      var front := rooms[..n];
      assert forall i :: 0 <= i < n ==> rooms[i] == front[i];
      RoomMapHas(front, port);
      assert rooms[n].port == port ==> port in RoomMap(rooms);
    }
  }

  lemma RoomAt(rooms: seq<Room>, i: nat)
    requires PortsDistinct(rooms) && i < |rooms|
    ensures rooms[i].port in RoomMap(rooms) && RoomMap(rooms)[rooms[i].port] == rooms[i].members
    ensures RoomMap(rooms)[rooms[i].port := rooms[i].members] == RoomMap(rooms)
  {
    RoomMapHas(rooms, rooms[i].port);
  }

  lemma RoomMapAdd(rooms: seq<Room>, r: Room)
    requires PortsDistinct(rooms) && forall i :: 0 <= i < |rooms| ==> rooms[i].port != r.port
    ensures PortsDistinct(rooms + [r]) && r.port !in RoomMap(rooms)
    ensures RoomMap(rooms + [r]) == RoomMap(rooms)[r.port := r.members]
  {
    RoomMapHas(rooms, r.port);
    assert (rooms + [r])[..|rooms|] == rooms;
  }

  lemma RoomMapSet(rooms: seq<Room>, i: nat, ms: seq<Member>)
    requires PortsDistinct(rooms) && i < |rooms|
    ensures var rooms' := rooms[i := Room(rooms[i].port, ms)];
            PortsDistinct(rooms') && RoomMap(rooms') == RoomMap(rooms)[rooms[i].port := ms]
  {
    var p := rooms[i].port;
    var rooms' := rooms[i := Room(p, ms)];
    forall q ensures q in RoomMap(rooms') <==> q in RoomMap(rooms)[p := ms]
      ensures q in RoomMap(rooms') ==> RoomMap(rooms')[q] == RoomMap(rooms)[p := ms][q] {
      RoomMapSame(rooms, i, ms, q);
    }
  }

  lemma RoomMapSame(rooms: seq<Room>, i: nat, ms: seq<Member>, q: nat)
    requires PortsDistinct(rooms) && i < |rooms|
    ensures var p, rooms' := rooms[i].port, rooms[i := Room(rooms[i].port, ms)];
            && (q in RoomMap(rooms') <==> q in RoomMap(rooms)[p := ms])
            && (q in RoomMap(rooms') ==> RoomMap(rooms')[q] == RoomMap(rooms)[p := ms][q])
  {
    hide RoomMap;
    var rooms' := rooms[i := Room(rooms[i].port, ms)];
    assert forall j :: 0 <= j < |rooms| ==> rooms'[j].port == rooms[j].port;
    RoomMapHas(rooms, q);
    RoomMapHas(rooms', q);
  }

  // ----- the calls

  class Server {
    var rooms: seq<Room>
    var nextId: int
    var wire: Wire

    ghost predicate Valid()
      reads this
    {
      PortsDistinct(rooms) && FirstId <= nextId
    }

    ghost function Abs(): State
      requires Valid()
      reads this
    {
      State(RoomMap(rooms), nextId, wire)
    }

    constructor ()
      ensures Valid() && Abs() == State(map[], 0x1001, map[])
    {
      rooms, nextId, wire := [], FirstId, map[];
    }

    /** `FindRoom`: an empty room is made if there is none. */
    method FindRoom(port: nat) returns (i: nat)
      requires Valid()
      modifies this`rooms
      ensures Valid() && i < |rooms| && rooms[i].port == port && rooms[i].members == In(old(Abs()), port)
      ensures Abs() == old(Abs()).(rooms := old(Abs()).rooms[port := In(old(Abs()), port)])
    {
      i := 0;
      while i < |rooms|
        invariant 0 <= i <= |rooms| && rooms == old(rooms)
        invariant forall j :: 0 <= j < i ==> rooms[j].port != port
      {
        if rooms[i].port == port {
          RoomAt(rooms, i);
          return;
        }
        i := i + 1;
      }
      RoomMapAdd(rooms, Room(port, []));
      rooms := rooms + [Room(port, [])];
    }

    method Join(port: nat, s: Sock, nick: Option<string>) returns (id: int)
      requires Valid()
      modifies this
      ensures Valid() && Joins(old(Abs()), port, s, nick, Abs(), id)
      ensures id == 0 <==> |In(old(Abs()), port)| >= 32
    {
      hide FirstFree, Candidate, Base, RoomMap, PortsDistinct;
      id := 0;
      var i := FindRoom(port);
      var ms := rooms[i].members;
      if |ms| < MaxMembers {
        var name := UniqueNick(ms, nick);
        id := nextId;
        var m := Member(s, nextId, name);
        nextId := nextId + 1;
        RoomMapSet(rooms, i, ms + [m]);
        rooms := rooms[i := Room(port, ms + [m])];
      }
    }

    method Each(ms: seq<Member>, m: Message)
      modifies this`wire
      ensures wire == SendEach(old(wire), ms, m)
    {
      var i := 0;
      assert ms[..0] == [];
      while i < |ms|
        invariant 0 <= i <= |ms| && wire == SendEach(old(wire), ms[..i], m)
      {
        wire := SendTo(wire, ms[i].sock, m);
        i := i + 1;
        assert ms[..i][..i - 1] == ms[..i - 1];
      }
      assert ms[..i] == ms;
    }

    method PushRoster(port: nat, s: Sock)
      requires Valid()
      modifies this
      ensures Valid() && Abs() == Pushed(old(Abs()), port, s)
    {
      hide RoomMap, PortsDistinct, SendEach, SendTo, Others, Joiner;
      var r := FindRoom(port);
      var ms := rooms[r].members;
      var ids, nicks, joiner := Roll(ms, s);
      SendOne(s, Roster(ids, nicks));
      if joiner.Some? {
        Tell(ms, s, Added(joiner.value.id, joiner.value.nick));
      }
    }

    method SendOne(s: Sock, m: Message)
      modifies this`wire
      ensures wire == SendTo(old(wire), s, m)
    {
      wire := SendTo(wire, s, m);
    }

    /** Tell everyone but `s`. */
    method Tell(ms: seq<Member>, s: Sock, m: Message)
      modifies this`wire
      ensures wire == SendEach(old(wire), Others(ms, s), m)
    {
      var i := 0;
      assert ms[..0] == [];
      while i < |ms|
        invariant 0 <= i <= |ms| && wire == SendEach(old(wire), Others(ms[..i], s), m)
      {
        EachStep(old(wire), ms, i, s, m);
        if ms[i].sock != s {
          wire := SendTo(wire, ms[i].sock, m);
        }
        i := i + 1;
      }
      assert ms[..i] == ms;
    }

    method BroadcastChat(port: nat, text: seq<int>)
      requires Valid()
      modifies this
      ensures Valid() && Abs() == Chatted(old(Abs()), port, text)
    {
      hide RoomMap, PortsDistinct, SendEach;
      if text == [] {
        return;
      }
      var r := FindRoom(port);
      Each(rooms[r].members, ChatText(text));
    }

    method Leave(port: nat, s: Sock)
      requires Valid()
      modifies this
      ensures Valid() && Abs() == Gone(old(Abs()), port, s)
    {
      hide RoomMap, PortsDistinct, SendEach, Where;
      var r := FindRoom(port);
      var ms := rooms[r].members;
      var goneId, i := 0, 0;
      while i < |ms| && ms[i].sock != s
        invariant 0 <= i <= |ms| && forall j :: 0 <= j < i ==> ms[j].sock != s
      {
        i := i + 1;
      }
      WhereIs(ms, s, i);
      if i < |ms| {
        goneId := ms[i].id;
        ms := ms[..i] + ms[i + 1..];
        RoomMapSet(rooms, r, ms);
        rooms := rooms[r := Room(port, ms)];
      }
      if goneId != 0 {
        Each(ms, UserLeft(goneId));
      }
    }
  }

  /** Everyone but the joiner, and the joiner. */
  method Roll(ms: seq<Member>, s: Sock) returns (ids: seq<int>, nicks: seq<string>, joiner: Option<Member>)
    ensures ids == Ids(Others(ms, s)) && nicks == Nicks(Others(ms, s)) && joiner == Joiner(ms, s)
  {
    ids, nicks, joiner := [], [], None;
    var i := 0;
    assert ms[..0] == [];
    while i < |ms|
      invariant 0 <= i <= |ms|
      invariant ids == Ids(Others(ms[..i], s)) && nicks == Nicks(Others(ms[..i], s)) && joiner == Joiner(ms[..i], s)
    {
      assert ms[..i + 1][..i] == ms[..i];
      if ms[i].sock == s {
        joiner := Some(ms[i]);
      } else {
        ids, nicks := ids + [ms[i].id], nicks + [ms[i].nick];
      }
      i := i + 1;
    }
    assert ms[..i] == ms;
  }

  lemma EachStep(w: Wire, ms: seq<Member>, i: nat, s: Sock, m: Message)
    requires i < |ms|
    ensures SendEach(w, Others(ms[..i + 1], s), m) ==
              if ms[i].sock == s then SendEach(w, Others(ms[..i], s), m)
              else SendTo(SendEach(w, Others(ms[..i], s), m), ms[i].sock, m)
  {
    assert ms[..i + 1][..i] == ms[..i];
    var o := Others(ms[..i], s);
    assert ms[..i + 1][i] == ms[i] && o + [] == o;
    assert (o + [ms[i]])[..|o|] == o && (o + [ms[i]])[|o|] == ms[i];
  }

  lemma WhereIs(ms: seq<Member>, s: Sock, i: nat)
    requires i <= |ms| && (forall j :: 0 <= j < i ==> ms[j].sock != s) && (i < |ms| ==> ms[i].sock == s)
    ensures Where(ms, s) == i
  {
  }
}
