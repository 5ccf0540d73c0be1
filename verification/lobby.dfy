/** The registry of backend/server.js: pairing at connection time into rooms
    numbered by `roomCounter`, and the `disconnect`, `surrender`, `endTurn`
    and `updateGame` handlers. The room id `room-${n}` is written as the
    number `n`; different numbers give different ids. `Object.keys(rooms)`
    lists room ids in insertion order, which `order` records. Emitted
    messages and broadcast groups are left out. */
module Lobby {
  import opened Wrappers
  import opened Seqs
  import opened Roster
  import opened Validator
  import opened Turns
  import opened Rooms

  datatype Lobby = Lobby(
    rooms: map<nat, Room>,
    order: seq<nat>,
    queue: seq<Id>,
    roomCounter: nat,
    idCounter: int)

  /** The process at start-up: no rooms, nobody waiting, both counters at 1. */
  const Empty := Lobby(map[], [], [], 1, 1)

  predicate Increasing(s: seq<nat>)
  {
    forall i, j | 0 <= i < j < |s| :: s[i] < s[j]
  }

  /** `Object.keys(rooms).find(roomId => rooms[roomId].players[socket.id])`:
      the first room, in `order`, that has `id` as a member. */
  function FindRoom(rooms: map<nat, Room>, order: seq<nat>, id: Id): (r: Option<nat>)
    ensures r.Some? ==> r.value in order && r.value in rooms && id in rooms[r.value].players
    ensures r.None? <==> forall n | n in order && n in rooms :: id !in rooms[n].players
  {
    if |order| == 0 then None
    else if order[0] in rooms && id in rooms[order[0]].players then Some(order[0])
    else
      var r := FindRoom(rooms, order[1..], id);
      assert forall n | n in order :: n == order[0] || n in order[1..];
      r
  }

  /** With rooms listed in increasing number, the room found is the lowest
      numbered room holding `id`. */
  lemma {:induction false} FindRoomIsLowest(rooms: map<nat, Room>, order: seq<nat>, id: Id, n: nat)
    requires Increasing(order)
    requires n in order && n in rooms && id in rooms[n].players
    ensures FindRoom(rooms, order, id).Some? && FindRoom(rooms, order, id).value <= n
  {
    if !(order[0] in rooms && id in rooms[order[0]].players) {
      assert n != order[0] && n in order[1..];
      assert Increasing(order[1..]);
      FindRoomIsLowest(rooms, order[1..], id, n);
    } else {
      assert order[0] <= n;
    }
  }

  /* ---------------------------------------------------------------------- */
  /* Well-formedness                                                         */

  /** Room numbers: the keys are exactly the listed numbers, listed in
      increasing order, all below the counter. */
  ghost predicate NumbersOk(l: Lobby)
  {
    && Increasing(l.order)
    && (forall n :: n in l.rooms <==> n in l.order)
    && (forall n | n in l.order :: n < l.roomCounter)
  }

  /** `id` is a member of no room. */
  predicate Roomless(rooms: map<nat, Room>, id: Id)
  {
    forall n | n in rooms :: id !in rooms[n].players
  }

  /** Room `n` is the only room that has `id` as a member. */
  predicate OnlyIn(rooms: map<nat, Room>, id: Id, n: nat)
  {
    forall m | m in rooms && id in rooms[m].players :: m == n
  }

  /** Membership: no room is empty, at most one id waits and it sits in no
      room, and no id is in two rooms. */
  predicate MembersOk(l: Lobby)
  {
    && (forall n | n in l.rooms :: |l.rooms[n].players| > 0)
    && |l.queue| <= 1
    && (forall x | x in l.queue :: Roomless(l.rooms, x))
    && (forall n, x | n in l.rooms && x in l.rooms[n].players :: OnlyIn(l.rooms, x, n))
  }

  ghost predicate Wf(l: Lobby)
  {
    NumbersOk(l) && MembersOk(l)
  }

  /** A connection that is neither waiting nor in a room: every new socket. */
  predicate Fresh(l: Lobby, id: Id)
  {
    id !in l.queue && Roomless(l.rooms, id)
  }

  lemma EmptyWf()
    ensures Wf(Empty)
  {
  }

  /* ---------------------------------------------------------------------- */
  /* Handlers                                                                */

  /** A new connection joins the queue; when two wait, the two front ids are
      taken off and seated as A and B in room `roomCounter`, which is then
      advanced, and 16 unit ids are used up. */
  function Connect(l: Lobby, id: Id): (r: Lobby)
    ensures |l.queue| == 0 ==> r == l.(queue := [id])
    ensures |l.queue| == 1 ==>
      && r.queue == []
      && r.rooms == l.rooms[l.roomCounter := Room(map[l.queue[0] := A][id := B], InitialState(l.idCounter))]
      && r.order == l.order + [l.roomCounter]
      && r.roomCounter == l.roomCounter + 1
      && r.idCounter == l.idCounter + 2 * |BaseCharacters|
    ensures |l.queue| <= 1 ==> |r.queue| <= 1
  {
    var q := l.queue + [id];
    if |q| >= 2 then
      var a, b, n := q[0], q[1], l.roomCounter;
      Lobby(
        l.rooms[n := Room(map[a := A][b := B], InitialState(l.idCounter))],
        l.order + [n],
        q[2..],
        n + 1,
        l.idCounter + 2 * |BaseCharacters|)
    else
      l.(queue := q)
  }

  /** A new connection keeps the registry well formed; the room it may
      create has a number no existing room has. */
  lemma ConnectWf(l: Lobby, id: Id)
    requires Wf(l) && Fresh(l, id)
    ensures Wf(Connect(l, id))
    ensures l.roomCounter !in l.rooms
  {
    if |l.queue| == 1 {
      ConnectNumbersOk(l, id);
      ConnectMembersOk(l, id);
    }
  }

  lemma ConnectNumbersOk(l: Lobby, id: Id)
    requires NumbersOk(l) && |l.queue| == 1
    ensures NumbersOk(Connect(l, id))
  {
    var r := Connect(l, id);
    forall i, j | 0 <= i < j < |r.order| ensures r.order[i] < r.order[j] {
      assert r.order[i] == l.order[i];
      if j == |l.order| {
        assert l.order[i] in l.order;
      } else {
        assert r.order[j] == l.order[j];
      }
    }
  }

  lemma ConnectMembersOk(l: Lobby, id: Id)
    requires NumbersOk(l) && MembersOk(l) && Fresh(l, id) && |l.queue| == 1
    ensures MembersOk(Connect(l, id))
  {
    var r := Connect(l, id);
    var a, n := l.queue[0], l.roomCounter;
    assert n !in l.rooms;
    assert a in l.queue && Roomless(l.rooms, a);
    assert r.rooms == l.rooms[n := Room(map[a := A][id := B], InitialState(l.idCounter))];
    assert a in r.rooms[n].players.Keys;
    forall m, x | m in r.rooms && x in r.rooms[m].players ensures OnlyIn(r.rooms, x, m) {
      if m == n {
        assert Roomless(l.rooms, x);
      } else {
        assert OnlyIn(l.rooms, x, m);
        assert x != a && x != id;
      }
    }
  }

  /** `disconnect`: the first queue occurrence of `id` is removed; then the
      first room, in `order`, that has `id` loses it and is deleted if that
      left it empty, and the scan stops there. */
  function Disconnect(l: Lobby, id: Id): (r: Lobby)
    ensures r.roomCounter == l.roomCounter && r.idCounter == l.idCounter
    ensures r.queue == RemoveFirst(l.queue, id)
    ensures r.rooms.Keys <= l.rooms.Keys
    ensures forall n | n in r.rooms :: r.rooms[n].players.Keys <= l.rooms[n].players.Keys
    ensures forall n | n in r.rooms :: r.rooms[n].gameState == l.rooms[n].gameState
    ensures forall n, x | n in r.rooms && x != id ::
      (x in r.rooms[n].players <==> x in l.rooms[n].players)
    ensures forall n | n in l.rooms && n !in r.rooms :: l.rooms[n].players.Keys <= {id}
    ensures forall n | n in r.rooms && r.rooms[n] != l.rooms[n] :: FindRoom(l.rooms, l.order, id) == Some(n)
    ensures FindRoom(l.rooms, l.order, id).None? ==> r.rooms == l.rooms && r.order == l.order
  {
    var q := RemoveFirst(l.queue, id);
    match FindRoom(l.rooms, l.order, id)
    case None => l.(queue := q)
    case Some(n) =>
      var players := l.rooms[n].players - {id};
      if |players| == 0 then
        l.(rooms := l.rooms - {n}, order := RemoveFirst(l.order, n), queue := q)
      else
        l.(rooms := l.rooms[n := l.rooms[n].(players := players)], queue := q)
  }

  /** In a well-formed registry a disconnected id is left nowhere, and the
      registry stays well formed. */
  lemma DisconnectWf(l: Lobby, id: Id)
    requires Wf(l)
    ensures Wf(Disconnect(l, id))
    ensures Fresh(Disconnect(l, id), id)
  {
    DisconnectNumbersOk(l, id);
    DisconnectMembersOk(l, id);
    DisconnectLeavesNoTrace(l, id);
  }

  lemma DisconnectLeavesNoTrace(l: Lobby, id: Id)
    requires Wf(l)
    ensures Fresh(Disconnect(l, id), id)
  {
    RemoveFirstNoDup(l.queue, id);
    var found := FindRoom(l.rooms, l.order, id);
    if found.Some? {
      DisconnectFromRoom(l, id, found.value);
    } else {
      assert Disconnect(l, id).rooms == l.rooms;
    }
  }

  /** Leaving the one room that holds `id` leaves it in no room. */
  lemma DisconnectFromRoom(l: Lobby, id: Id, n: nat)
    requires MembersOk(l) && FindRoom(l.rooms, l.order, id) == Some(n)
    ensures Roomless(Disconnect(l, id).rooms, id)
  {
    assert OnlyIn(l.rooms, id, n);
  }

  lemma DisconnectNumbersOk(l: Lobby, id: Id)
    requires NumbersOk(l)
    ensures NumbersOk(Disconnect(l, id))
  {
    var found := FindRoom(l.rooms, l.order, id);
    if found.Some? && |l.rooms[found.value].players - {id}| == 0 {
      DisconnectDeletes(l, id, found.value);
      DropNumber(l.rooms, l.order, found.value, l.roomCounter);
    } else {
      DisconnectKeepsNumbers(l, id);
    }
  }

  /** A disconnect that empties its room deletes the room and its number. */
  lemma DisconnectDeletes(l: Lobby, id: Id, n: nat)
    requires FindRoom(l.rooms, l.order, id) == Some(n)
    requires |l.rooms[n].players - {id}| == 0
    ensures Disconnect(l, id).order == RemoveFirst(l.order, n)
    ensures Disconnect(l, id).rooms == l.rooms - {n}
    ensures n in l.order
  {
  }

  /** Any other disconnect keeps the room numbers as they are. */
  lemma DisconnectKeepsNumbers(l: Lobby, id: Id)
    requires NumbersOk(l)
    requires FindRoom(l.rooms, l.order, id).Some? ==>
      |l.rooms[FindRoom(l.rooms, l.order, id).value].players - {id}| > 0
    ensures NumbersOk(Disconnect(l, id))
  {
    var r := Disconnect(l, id);
    assert r.order == l.order && r.roomCounter == l.roomCounter;
    assert r.rooms.Keys == l.rooms.Keys;
  }

  /** Deleting a listed room and its number keeps the numbering sound. */
  lemma DropNumber(rooms: map<nat, Room>, order: seq<nat>, n: nat, counter: nat)
    requires Increasing(order) && n in order
    requires forall m :: m in rooms <==> m in order
    requires forall m | m in order :: m < counter
    ensures Increasing(RemoveFirst(order, n))
    ensures forall m :: m in rooms - {n} <==> m in RemoveFirst(order, n)
    ensures forall m | m in RemoveFirst(order, n) :: m < counter
  {
    assert NoDup(order);
    RemoveFirstNoDup(order, n);
    forall m | m in order && m != n ensures m in RemoveFirst(order, n) {
      RemoveFirstKeepsOthers(order, n, m);
    }
    IncreasingRemoveFirst(order, n);
  }

  lemma DisconnectMembersOk(l: Lobby, id: Id)
    requires MembersOk(l) && NoDup(l.queue)
    ensures MembersOk(Disconnect(l, id))
  {
    DisconnectQueueOk(l, id);
    DisconnectRoomsNonEmpty(l, id);
    DisconnectOneRoomEach(l, id);
  }

  lemma DisconnectQueueOk(l: Lobby, id: Id)
    requires MembersOk(l) && NoDup(l.queue)
    ensures var r := Disconnect(l, id); |r.queue| <= 1 && forall x | x in r.queue :: Roomless(r.rooms, x)
  {
    var r := Disconnect(l, id);
    RemoveFirstNoDup(l.queue, id);
    ShrunkQueueRoomless(l.queue, r.queue, l.rooms, r.rooms);
  }

  /** A queue that only loses ids, beside rooms that only lose rooms and
      members, keeps its ids roomless. */
  lemma ShrunkQueueRoomless(q: seq<Id>, q2: seq<Id>, a: map<nat, Room>, b: map<nat, Room>)
    requires forall x | x in q :: Roomless(a, x)
    requires forall x | x in q2 :: x in q
    requires b.Keys <= a.Keys
    requires forall n | n in b :: b[n].players.Keys <= a[n].players.Keys
    ensures forall x | x in q2 :: Roomless(b, x)
  {
    forall x | x in q2 ensures Roomless(b, x) {
      RoomlessShrinks(a, b, x);
    }
  }

  /** Taking rooms and members away leaves a roomless id roomless. */
  lemma RoomlessShrinks(a: map<nat, Room>, b: map<nat, Room>, x: Id)
    requires Roomless(a, x) && b.Keys <= a.Keys
    requires forall n | n in b :: b[n].players.Keys <= a[n].players.Keys
    ensures Roomless(b, x)
  {
  }

  lemma DisconnectRoomsNonEmpty(l: Lobby, id: Id)
    requires MembersOk(l)
    ensures var r := Disconnect(l, id); forall n | n in r.rooms :: |r.rooms[n].players| > 0
  {
    var found := FindRoom(l.rooms, l.order, id);
    if found.None? {
      assert Disconnect(l, id).rooms == l.rooms;
    } else if |l.rooms[found.value].players - {id}| == 0 {
      DisconnectDeletes(l, id, found.value);
    } else {
      DisconnectShrinks(l, id, found.value);
    }
  }

  /** A disconnect that leaves someone behind keeps the room with one member
      fewer. */
  lemma DisconnectShrinks(l: Lobby, id: Id, n: nat)
    requires FindRoom(l.rooms, l.order, id) == Some(n)
    requires |l.rooms[n].players - {id}| > 0
    ensures Disconnect(l, id).rooms == l.rooms[n := l.rooms[n].(players := l.rooms[n].players - {id})]
  {
  }

  lemma DisconnectOneRoomEach(l: Lobby, id: Id)
    requires MembersOk(l)
    ensures var r := Disconnect(l, id); forall m, x | m in r.rooms && x in r.rooms[m].players :: OnlyIn(r.rooms, x, m)
  {
    var r := Disconnect(l, id);
    forall m, x | m in r.rooms && x in r.rooms[m].players ensures OnlyIn(r.rooms, x, m) {
      assert x in l.rooms[m].players;
      assert OnlyIn(l.rooms, x, m);
      forall m' | m' in r.rooms && x in r.rooms[m'].players ensures m' == m {
        assert x in l.rooms[m'].players;
      }
    }
  }

  lemma IncreasingRemoveFirst(s: seq<nat>, x: nat)
    requires Increasing(s)
    ensures Increasing(RemoveFirst(s, x))
  {
    var r := RemoveFirst(s, x);
    if x in s {
      var i := IndexOf(s, x);
      CutAt(s, i, r);
      forall a, b | 0 <= a < b < |r| ensures r[a] < r[b] {
        var a', b' := if a < i then a else a + 1, if b < i then b else b + 1;
        assert r[a] == s[a'] && r[b] == s[b'];
      }
    }
  }

  /** `surrender`: the other team of the surrendering connection's room is
      declared the winner, unless a winner is already recorded. */
  function Surrender(l: Lobby, id: Id): (r: Lobby)
    ensures r.order == l.order && r.queue == l.queue && r.rooms.Keys == l.rooms.Keys
    ensures r.roomCounter == l.roomCounter && r.idCounter == l.idCounter
    ensures forall n | n in l.rooms :: r.rooms[n].players == l.rooms[n].players
    ensures forall n | n in l.rooms && l.rooms[n].gameState.winner.Some? :: r.rooms[n] == l.rooms[n]
    ensures FindRoom(l.rooms, l.order, id).None? ==> r == l
    ensures forall n | n in l.rooms && r.rooms[n] != l.rooms[n] ::
      && FindRoom(l.rooms, l.order, id) == Some(n)
      && r.rooms[n].gameState == l.rooms[n].gameState.(winner := Some(Other(l.rooms[n].players[id])))
    ensures forall n | FindRoom(l.rooms, l.order, id) == Some(n) && l.rooms[n].gameState.winner.None? ::
      r.rooms[n].gameState.winner == Some(Other(l.rooms[n].players[id]))
  {
    match FindRoom(l.rooms, l.order, id)
    case None => l
    case Some(n) =>
      var room := l.rooms[n];
      if room.gameState.winner.None? then
        var winner := Other(room.players[id]);
        l.(rooms := l.rooms[n := room.(gameState := room.gameState.(winner := Some(winner)))])
      else
        l
  }

  /** A second surrender changes nothing. */
  lemma SurrenderOnce(l: Lobby, id: Id)
    ensures Surrender(Surrender(l, id), id) == Surrender(l, id)
  {
    var r := Surrender(l, id);
    assert r.rooms.Keys == l.rooms.Keys;
    assert forall n | n in l.rooms :: r.rooms[n].players == l.rooms[n].players;
    assert FindRoom(r.rooms, r.order, id) == FindRoom(l.rooms, l.order, id) by {
      FindRoomSameMembers(l.rooms, r.rooms, l.order, id);
    }
  }

  /** Room lookup looks only at membership. */
  lemma {:induction false} FindRoomSameMembers(r1: map<nat, Room>, r2: map<nat, Room>, order: seq<nat>, id: Id)
    requires r1.Keys == r2.Keys
    requires forall n | n in r1 :: r1[n].players == r2[n].players
    ensures FindRoom(r1, order, id) == FindRoom(r2, order, id)
  {
    if |order| > 0 {
      FindRoomSameMembers(r1, r2, order[1..], id);
    }
  }

  /** Stores a new game state for the room a handler acted on. */
  function WithState(l: Lobby, n: nat, g: GameState): (r: Lobby)
    requires n in l.rooms
    ensures r.rooms.Keys == l.rooms.Keys && r.rooms[n].gameState == g
    ensures forall m | m in l.rooms :: r.rooms[m].players == l.rooms[m].players
    ensures forall m | m in l.rooms && m != n :: r.rooms[m] == l.rooms[m]
    ensures r.order == l.order && r.queue == l.queue && r.roomCounter == l.roomCounter && r.idCounter == l.idCounter
  {
    l.(rooms := l.rooms[n := l.rooms[n].(gameState := g)])
  }

  /** `endTurn`: the end-of-turn transition applied to the room of `id` with
      its team; a connection in no room changes nothing. */
  function EndTurnRequest(l: Lobby, id: Id): (r: Lobby)
    ensures r.rooms.Keys == l.rooms.Keys && r.order == l.order && r.queue == l.queue
    ensures forall m | m in l.rooms :: r.rooms[m].players == l.rooms[m].players
    ensures forall m | m in l.rooms && r.rooms[m] != l.rooms[m] ::
      && FindRoom(l.rooms, l.order, id) == Some(m)
      && l.rooms[m].players[id] == l.rooms[m].gameState.turn
      && r.rooms[m].gameState.turn == Other(l.rooms[m].gameState.turn)
    ensures forall n | FindRoom(l.rooms, l.order, id) == Some(n) ::
      r.rooms[n].gameState == EndTurn(l.rooms[n].gameState, l.rooms[n].players[id]).state
    ensures FindRoom(l.rooms, l.order, id).None? ==> r == l
  {
    match FindRoom(l.rooms, l.order, id)
    case None => l
    case Some(n) => WithState(l, n, EndTurn(l.rooms[n].gameState, l.rooms[n].players[id]).state)
  }

  /** `updateGame`: the validator applied to the room of `id` with its team.
      The stored state afterwards is the validator's, whether or not the
      update was accepted. */
  function UpdateGame(l: Lobby, id: Id, p: Proposal): (r: Lobby)
    ensures r.rooms.Keys == l.rooms.Keys && r.order == l.order && r.queue == l.queue
    ensures forall m | m in l.rooms :: r.rooms[m].players == l.rooms[m].players
    ensures forall m | m in l.rooms && r.rooms[m] != l.rooms[m] ::
      && FindRoom(l.rooms, l.order, id) == Some(m)
      && l.rooms[m].players[id] == l.rooms[m].gameState.turn
    ensures forall m | m in l.rooms && l.rooms[m].gameState.winner.Some? ::
      r.rooms[m].gameState.winner == l.rooms[m].gameState.winner
    ensures forall n | FindRoom(l.rooms, l.order, id) == Some(n) ::
      r.rooms[n].gameState == Validate(l.rooms[n].gameState, p, l.rooms[n].players[id]).state
    ensures FindRoom(l.rooms, l.order, id).None? ==> r == l
  {
    match FindRoom(l.rooms, l.order, id)
    case None => l
    case Some(n) => WithState(l, n, Validate(l.rooms[n].gameState, p, l.rooms[n].players[id]).state)
  }

  /* ---------------------------------------------------------------------- */
  /* Registry facts                                                          */

  /** Handlers that only touch game states keep the registry well formed. */
  lemma SameMembersWf(l: Lobby, r: Lobby)
    requires Wf(l)
    requires r.rooms.Keys == l.rooms.Keys && r.order == l.order && r.queue == l.queue && r.roomCounter == l.roomCounter
    requires forall n | n in l.rooms :: r.rooms[n].players == l.rooms[n].players
    ensures Wf(r)
  {
    forall x | x in r.queue ensures Roomless(r.rooms, x) {
      assert Roomless(l.rooms, x);
    }
    forall m, x | m in r.rooms && x in r.rooms[m].players ensures OnlyIn(r.rooms, x, m) {
      assert OnlyIn(l.rooms, x, m);
    }
  }

  /** `surrender`, `endTurn` and `updateGame` keep the registry well formed. */
  lemma GameHandlersWf(l: Lobby, id: Id, p: Proposal)
    requires Wf(l)
    ensures Wf(Surrender(l, id)) && Wf(EndTurnRequest(l, id)) && Wf(UpdateGame(l, id, p))
  {
    SameMembersWf(l, Surrender(l, id));
    SameMembersWf(l, EndTurnRequest(l, id));
    SameMembersWf(l, UpdateGame(l, id, p));
  }

  /** The scan in `disconnect` stops at the first room holding the id: were a
      connection in two rooms, it would stay a member of the later one. In a
      well-formed registry that cannot happen. */
  lemma DisconnectStopsAtFirstRoom()
    ensures var g := GameState([], A, None);
      var l := Lobby(map[1 := Room(map["s" := A, "t" := B], g), 2 := Room(map["s" := B, "u" := A], g)], [1, 2], [], 3, 1);
      2 in Disconnect(l, "s").rooms && "s" in Disconnect(l, "s").rooms[2].players
  {
    var g := GameState([], A, None);
    var l := Lobby(map[1 := Room(map["s" := A, "t" := B], g), 2 := Room(map["s" := B, "u" := A], g)], [1, 2], [], 3, 1);
    assert FindRoom(l.rooms, l.order, "s") == Some(1);
    assert "t" in (l.rooms[1].players - {"s"});
  }
}
