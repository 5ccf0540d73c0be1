/** The waiting queue and room registry of server.js: `tryToMatchPlayers`
    (lines 47-95), `removePlayerFromRooms` (lines 287-301) and the registry
    updates of the `playAgain` (lines 311-343) and `disconnect` (lines
    429-448) handlers. Socket liveness (`io.sockets.sockets.get`) is the set
    `live`; joining and leaving broadcast groups and every emitted message are
    left out. */
module Matchmaking {
  import opened Wrappers
  import opened Seqs
  import opened Roster
  import opened Validator
  import opened Rooms

  /** `rooms` (room id to room), `players` (connection to room id),
      `waitingQueue` and the global unit id counter. */
  datatype Server = Server(
    rooms: map<string, Room>,
    players: map<Id, string>,
    queue: seq<Id>,
    idCounter: int)

  /** `room-${playerAId}-${playerBId}`. */
  function RoomName(a: Id, b: Id): string
  {
    "room-" + a + "-" + b
  }

  /** The part of a room id where the first id of length `len` sits. */
  function FirstHalf(key: string, len: nat): Id
  {
    if |key| >= 6 + len then key[5..5 + len] else key
  }

  /** The part of a room id after the first id of length `len` and the dash. */
  function SecondHalf(key: string, len: nat): Id
  {
    if |key| >= 6 + len then key[6 + len..] else key
  }

  /** A room id names its two connections back, given the length of the first. */
  lemma RoomNameSplits(a: Id, b: Id)
    ensures FirstHalf(RoomName(a, b), |a|) == a
    ensures SecondHalf(RoomName(a, b), |a|) == b
  {
    var key := RoomName(a, b);
    assert key == "room-" + a + "-" + b;
    assert |"room-"| == 5;
    assert key[5..5 + |a|] == a;
    assert key[6 + |a|..] == b;
  }

  /** With connection ids of different lengths two different pairs can get
      the same room id, and the second pairing then overwrites the first
      room. Socket.IO's ids all have one length, which rules this out. */
  lemma RoomNamesCanCollide()
    ensures RoomName("x-y", "z") == RoomName("x", "y-z")
  {
    assert RoomName("x-y", "z") == "room-x-y-z";
    assert RoomName("x", "y-z") == "room-x-y-z";
  }

  predicate InNoRoom(rooms: map<string, Room>, id: Id)
  {
    forall k | k in rooms :: id !in rooms[k].players
  }

  /** `id` is a member of the room its `players` entry names. */
  predicate Seated(s: Server, id: Id)
  {
    id in s.players && s.players[id] in s.rooms && id in s.rooms[s.players[id]].players
  }

  /** A member of the room with id `k` is one of the two connections the id
      names, and its `players` entry points back to `k`. */
  ghost predicate MemberOk(s: Server, k: string, m: Id, len: nat)
  {
    (m == FirstHalf(k, len) || m == SecondHalf(k, len)) && m in s.players && s.players[m] == k
  }

  ghost predicate RoomOk(s: Server, k: string, len: nat)
    requires k in s.rooms
  {
    |s.rooms[k].players| > 0 && forall m | m in s.rooms[k].players :: MemberOk(s, k, m, len)
  }

  ghost predicate QueueOk(s: Server, len: nat)
  {
    NoDup(s.queue) && forall x | x in s.queue :: |x| == len && InNoRoom(s.rooms, x)
  }

  /** The consistency the handlers keep between the three structures when
      every connection id has length `len`: the queue holds no id twice and no
      id that sits in a room; every room is non-empty, its members are the
      connections its id names, and each member's `players` entry points back
      to it. It follows that a connection is in at most one room. */
  ghost predicate Consistent(s: Server, len: nat)
  {
    QueueOk(s, len) && forall k | k in s.rooms :: RoomOk(s, k, len)
  }

  lemma ConsistentMeansOneRoom(s: Server, len: nat, id: Id, k1: string, k2: string)
    requires Consistent(s, len)
    requires k1 in s.rooms && k2 in s.rooms
    requires id in s.rooms[k1].players && id in s.rooms[k2].players
    ensures k1 == k2
  {
    assert RoomOk(s, k1, len) && RoomOk(s, k2, len);
    assert MemberOk(s, k1, id, len) && MemberOk(s, k2, id, len);
  }

  /* ---------------------------------------------------------------------- */
  /* Pairing                                                                 */

  /** One iteration of the `while (waitingQueue.length >= 2)` loop. The two
      front ids are taken off; if either connection is gone, the one still
      live (if any) goes back to the front; otherwise a room named after the
      pair is created with the first as team A and the second as team B, both
      `players` entries point to it, and 16 unit ids are used up. */
  function MatchStep(s: Server, live: set<Id>): (r: Server)
    requires |s.queue| >= 2
    ensures |r.queue| < |s.queue|
  {
    var a, b, rest := s.queue[0], s.queue[1], s.queue[2..];
    if a !in live || b !in live then
      s.(queue := (if b in live then [b] else []) + (if a in live then [a] else []) + rest)
    else
      var key := RoomName(a, b);
      var room := Room(map[a := A][b := B], InitialState(s.idCounter));
      Server(s.rooms[key := room], s.players[a := key][b := key], rest, s.idCounter + 2 * |BaseCharacters|)
  }

  /** The whole loop: steps until fewer than two ids wait. */
  function MatchAll(s: Server, live: set<Id>): (r: Server)
    ensures |r.queue| < 2
    decreases |s.queue|
  {
    if |s.queue| < 2 then s else MatchAll(MatchStep(s, live), live)
  }

  /** A room that is new or changed after the step holds live connections only. */
  predicate OnlyLiveAdded(before: map<string, Room>, after: map<string, Room>, live: set<Id>)
  {
    forall k | k in after ::
      (k in before && after[k] == before[k]) || forall m | m in after[k].players :: m in live
  }

  /** `tryToMatchPlayers`: pairs until fewer than two ids wait. The queue
      only loses ids, and no room it creates seats a connection that is gone. */
  method TryToMatchPlayers(s: Server, live: set<Id>) returns (r: Server)
    ensures r == MatchAll(s, live)
    ensures |r.queue| < 2
    ensures forall x | x in r.queue :: x in s.queue
    ensures OnlyLiveAdded(s.rooms, r.rooms, live)
  {
    r := s;
    while |r.queue| >= 2
      invariant MatchAll(r, live) == MatchAll(s, live)
      invariant forall x | x in r.queue :: x in s.queue
      invariant OnlyLiveAdded(s.rooms, r.rooms, live)
      decreases |r.queue|
    {
      var next := MatchStep(r, live);
      assert forall x | x in next.queue :: x in r.queue;
      r := next;
    }
  }

  /** What one step does with the two front ids: a live id whose partner is
      gone returns to the front, two gone ids are dropped, and a live pair is
      seated in the room named after it with the first-dequeued id as team A. */
  lemma MatchStepOutcome(s: Server, live: set<Id>)
    requires |s.queue| >= 2
    ensures var a, b, rest, r := s.queue[0], s.queue[1], s.queue[2..], MatchStep(s, live);
      && (a in live && b !in live ==> r == s.(queue := [a] + rest))
      && (a !in live && b in live ==> r == s.(queue := [b] + rest))
      && (a !in live && b !in live ==> r == s.(queue := rest))
      && (a in live && b in live && a != b ==>
            && r.queue == rest
            && RoomName(a, b) in r.rooms
            && r.rooms[RoomName(a, b)].players == map[a := A, b := B]
            && r.rooms[RoomName(a, b)].gameState == InitialState(s.idCounter)
            && r.players[a] == RoomName(a, b) && r.players[b] == RoomName(a, b)
            && r.idCounter == s.idCounter + 2 * |BaseCharacters|
            && forall k | k in s.rooms && k != RoomName(a, b) :: k in r.rooms && r.rooms[k] == s.rooms[k])
  {
  }

  /** The id of the room a live pair gets is not yet taken. */
  lemma PairKeyFresh(s: Server, len: nat)
    requires |s.queue| >= 2 && Consistent(s, len)
    ensures RoomName(s.queue[0], s.queue[1]) !in s.rooms
  {
    var a, b := s.queue[0], s.queue[1];
    assert a in s.queue && b in s.queue;
    assert |a| == len && InNoRoom(s.rooms, a) && InNoRoom(s.rooms, b);
    RoomNameSplits(a, b);
    forall k | k in s.rooms ensures k != RoomName(a, b) {
      assert RoomOk(s, k, len);
      var m :| m in s.rooms[k].players;
      assert MemberOk(s, k, m, len);
    }
  }

  /** Seating a live pair keeps the registry consistent. */
  lemma MatchPairConsistent(s: Server, live: set<Id>, len: nat)
    requires |s.queue| >= 2 && Consistent(s, len)
    requires s.queue[0] in live && s.queue[1] in live
    ensures Consistent(MatchStep(s, live), len)
  {
    var a, b, rest := s.queue[0], s.queue[1], s.queue[2..];
    var key := RoomName(a, b);
    var r := MatchStep(s, live);
    assert s.queue == [a] + ([b] + rest);
    NoDupCons(a, [b] + rest);
    NoDupCons(b, rest);
    assert r.queue == rest;
    assert a in s.queue && b in s.queue;
    assert InNoRoom(s.rooms, a) && InNoRoom(s.rooms, b);
    assert r.rooms == s.rooms[key := Room(map[a := A][b := B], InitialState(s.idCounter))];
    assert r.players == s.players[a := key][b := key];
    QueueAfterPair(s, r, len);
    NewRoomOk(s, r, len);
    OldRoomsOk(s, r, len);
  }

  lemma QueueAfterPair(s: Server, r: Server, len: nat)
    requires |s.queue| >= 2 && Consistent(s, len)
    requires r.queue == s.queue[2..]
    requires r.rooms == s.rooms[RoomName(s.queue[0], s.queue[1]) := Room(map[s.queue[0] := A][s.queue[1] := B], InitialState(s.idCounter))]
    ensures QueueOk(r, len)
  {
    DropTwoNoDup(s.queue);
    forall x | x in r.queue ensures |x| == len && InNoRoom(r.rooms, x) {
      assert x in s.queue;
      assert x != s.queue[0] && x != s.queue[1];
    }
  }

  lemma NewRoomOk(s: Server, r: Server, len: nat)
    requires |s.queue| >= 2 && Consistent(s, len)
    requires var key := RoomName(s.queue[0], s.queue[1]);
      && r.rooms == s.rooms[key := Room(map[s.queue[0] := A][s.queue[1] := B], InitialState(s.idCounter))]
      && r.players == s.players[s.queue[0] := key][s.queue[1] := key]
    ensures RoomOk(r, RoomName(s.queue[0], s.queue[1]), len)
  {
    var a, b := s.queue[0], s.queue[1];
    var key := RoomName(a, b);
    assert a in s.queue;
    RoomNameSplits(a, b);
    assert a in r.rooms[key].players.Keys;
    forall m | m in r.rooms[key].players ensures MemberOk(r, key, m, len) {
      assert m == a || m == b;
    }
  }

  lemma OldRoomsOk(s: Server, r: Server, len: nat)
    requires |s.queue| >= 2 && Consistent(s, len)
    requires var key := RoomName(s.queue[0], s.queue[1]);
      && r.rooms == s.rooms[key := Room(map[s.queue[0] := A][s.queue[1] := B], InitialState(s.idCounter))]
      && r.players == s.players[s.queue[0] := key][s.queue[1] := key]
    ensures forall k | k in r.rooms && k != RoomName(s.queue[0], s.queue[1]) :: RoomOk(r, k, len)
  {
    var a, b := s.queue[0], s.queue[1];
    var key := RoomName(a, b);
    assert a in s.queue && b in s.queue;
    assert InNoRoom(s.rooms, a) && InNoRoom(s.rooms, b);
    forall k | k in r.rooms && k != key ensures RoomOk(r, k, len) {
      assert RoomOk(s, k, len);
      forall m | m in r.rooms[k].players ensures MemberOk(r, k, m, len) {
        assert MemberOk(s, k, m, len);
        assert m != a && m != b;
      }
    }
  }

  /** The queue after putting back the live one of a pair: no repeats and
      nothing new. */
  lemma RequeueQueue(q: seq<Id>, live: set<Id>)
    requires |q| >= 2 && NoDup(q)
    requires !(q[0] in live && q[1] in live)
    ensures var r := (if q[1] in live then [q[1]] else []) + (if q[0] in live then [q[0]] else []) + q[2..];
      NoDup(r) && forall x | x in r :: x in q
  {
    DropTwoNoDup(q);
    if q[0] in live {
      assert [] + [q[0]] + q[2..] == [q[0]] + q[2..];
      NoDupCons(q[0], q[2..]);
    } else if q[1] in live {
      assert [q[1]] + [] + q[2..] == [q[1]] + q[2..];
      NoDupCons(q[1], q[2..]);
    } else {
      assert [] + [] + q[2..] == q[2..];
    }
  }

  /** Only the queue differs: rooms and their members stay consistent. */
  lemma SameRegistry(s: Server, r: Server, len: nat)
    requires r.rooms == s.rooms && r.players == s.players
    requires forall k | k in s.rooms :: RoomOk(s, k, len)
    ensures forall k | k in r.rooms :: RoomOk(r, k, len)
  {
    forall k | k in r.rooms ensures RoomOk(r, k, len) {
      assert RoomOk(s, k, len);
      forall m | m in r.rooms[k].players ensures MemberOk(r, k, m, len) {
        assert MemberOk(s, k, m, len);
      }
    }
  }

  /** Putting back the live one of a pair whose partner is gone keeps the
      registry consistent. */
  lemma RequeueConsistent(s: Server, live: set<Id>, len: nat)
    requires |s.queue| >= 2 && Consistent(s, len)
    requires !(s.queue[0] in live && s.queue[1] in live)
    ensures Consistent(MatchStep(s, live), len)
  {
    var r := MatchStep(s, live);
    RequeueQueue(s.queue, live);
    assert r == s.(queue := r.queue);
    SameRegistry(s, r, len);
    forall x | x in r.queue ensures |x| == len && InNoRoom(r.rooms, x) {
      assert x in s.queue;
    }
  }

  lemma MatchStepConsistent(s: Server, live: set<Id>, len: nat)
    requires |s.queue| >= 2 && Consistent(s, len)
    ensures Consistent(MatchStep(s, live), len)
  {
    if s.queue[0] in live && s.queue[1] in live {
      MatchPairConsistent(s, live, len);
    } else {
      RequeueConsistent(s, live, len);
    }
  }

  lemma {:induction false} MatchAllConsistent(s: Server, live: set<Id>, len: nat)
    requires Consistent(s, len)
    ensures Consistent(MatchAll(s, live), len)
    decreases |s.queue|
  {
    if |s.queue| >= 2 {
      MatchStepConsistent(s, live, len);
      MatchAllConsistent(MatchStep(s, live), live, len);
    }
  }

  /** A seated connection that is not at the front of the queue stays
      seated through one step, as long as a new room cannot take the id of
      an existing one. */
  lemma StepKeepsSeated(s: Server, live: set<Id>, x: Id)
    requires |s.queue| >= 2 && Seated(s, x)
    requires x != s.queue[0] && x != s.queue[1]
    requires s.queue[0] in live && s.queue[1] in live ==> RoomName(s.queue[0], s.queue[1]) !in s.rooms
    ensures Seated(MatchStep(s, live), x)
  {
  }

  /** In a consistent registry, seated connections are not waiting. */
  lemma SeatedNotQueued(s: Server, len: nat, x: Id)
    requires Consistent(s, len) && Seated(s, x)
    ensures x !in s.queue
  {
    forall y | y in s.queue ensures y != x {
      assert InNoRoom(s.rooms, y);
    }
  }

  /** A live queued connection is still queued or seated after one step. */
  lemma StepKeepsLive(s: Server, live: set<Id>, x: Id)
    requires |s.queue| >= 2 && x in s.queue && x in live
    ensures x in MatchStep(s, live).queue || Seated(MatchStep(s, live), x)
  {
    var a, b, rest := s.queue[0], s.queue[1], s.queue[2..];
    assert s.queue == [a, b] + rest;
    if x != a && x != b {
      assert x in rest;
    }
  }

  lemma {:induction false} MatchAllKeepsSeated(s: Server, live: set<Id>, len: nat, x: Id)
    requires Consistent(s, len) && Seated(s, x)
    ensures Seated(MatchAll(s, live), x)
    decreases |s.queue|
  {
    if |s.queue| >= 2 {
      MatchStepConsistent(s, live, len);
      SeatedNotQueued(s, len, x);
      assert s.queue[0] in s.queue && s.queue[1] in s.queue;
      PairKeyFresh(s, len);
      StepKeepsSeated(s, live, x);
      MatchAllKeepsSeated(MatchStep(s, live), live, len, x);
    }
  }

  /** Pairing loses no live connection: with the registry consistent, every
      live queued id ends up still queued or seated in a room. */
  lemma {:induction false} MatchAllKeepsLive(s: Server, live: set<Id>, len: nat)
    requires Consistent(s, len)
    ensures var r := MatchAll(s, live);
      forall x | x in s.queue && x in live :: x in r.queue || Seated(r, x)
    decreases |s.queue|
  {
    if |s.queue| >= 2 {
      var s1 := MatchStep(s, live);
      MatchStepConsistent(s, live, len);
      MatchAllKeepsLive(s1, live, len);
      assert MatchAll(s, live) == MatchAll(s1, live);
      forall x | x in s.queue && x in live
        ensures x in MatchAll(s1, live).queue || Seated(MatchAll(s1, live), x)
      {
        StepKeepsLive(s, live, x);
        if x !in s1.queue {
          MatchAllKeepsSeated(s1, live, len, x);
        }
      }
    }
  }

  /* ---------------------------------------------------------------------- */
  /* Leaving rooms                                                           */

  /** `removePlayerFromRooms(id)`: `id` ends up in no room; a room is deleted
      exactly when `id` was its only member; every other room keeps its state
      and all its other members with their teams. */
  function RemovePlayerFromRooms(rooms: map<string, Room>, id: Id): (r: map<string, Room>)
    ensures InNoRoom(r, id)
    ensures forall k | k in rooms :: k !in r <==> id in rooms[k].players && rooms[k].players.Keys == {id}
    ensures forall k | k in r :: k in rooms && r[k].gameState == rooms[k].gameState
    ensures forall k, m | k in r && m != id ::
      (m in r[k].players <==> m in rooms[k].players) && (m in r[k].players ==> r[k].players[m] == rooms[k].players[m])
  {
    map k | k in rooms && !(id in rooms[k].players && rooms[k].players.Keys == {id}) ::
      rooms[k].(players := rooms[k].players - {id})
  }

  /** The registry part of `playAgain` before pairing is retried: `id` leaves
      every room and the `players` map, and joins the back of the queue unless
      it is already waiting, so the queue gains no repeated id. */
  function LeaveForRematch(s: Server, id: Id): (r: Server)
    ensures InNoRoom(r.rooms, id) && id !in r.players
    ensures id in r.queue
    ensures NoDup(s.queue) ==> NoDup(r.queue)
    ensures forall x :: x in r.queue <==> x in s.queue || x == id
    ensures r.queue == if id in s.queue then s.queue else s.queue + [id]
    ensures r.rooms == RemovePlayerFromRooms(s.rooms, id)
    ensures r.players == s.players - {id}
    ensures r.idCounter == s.idCounter
  {
    var queue := if id in s.queue then s.queue else s.queue + [id];
    assert NoDup(s.queue) ==> NoDup(queue) by {
      if NoDup(s.queue) && id !in s.queue {
        AppendNewNoDup(s.queue, id);
      }
    }
    Server(RemovePlayerFromRooms(s.rooms, id), s.players - {id}, queue, s.idCounter)
  }

  /** The pairing loop only takes ids off the queue. */
  lemma {:induction false} MatchAllQueueFrom(s: Server, live: set<Id>)
    ensures forall x | x in MatchAll(s, live).queue :: x in s.queue
    decreases |s.queue|
  {
    if |s.queue| >= 2 {
      var next := MatchStep(s, live);
      assert forall x | x in next.queue :: x in s.queue;
      MatchAllQueueFrom(next, live);
    }
  }

  /** The `playAgain` handler: leave, re-queue, retry pairing. Afterwards
      fewer than two connections wait, and each of them was waiting before or
      is the requester. */
  function PlayAgain(s: Server, id: Id, live: set<Id>): (r: Server)
    ensures |r.queue| < 2
    ensures forall x | x in r.queue :: x in s.queue || x == id
  {
    MatchAllQueueFrom(LeaveForRematch(s, id), live);
    MatchAll(LeaveForRematch(s, id), live)
  }

  lemma LeaveForRematchConsistent(s: Server, id: Id, len: nat)
    requires Consistent(s, len) && |id| == len
    ensures Consistent(LeaveForRematch(s, id), len)
  {
    var r := LeaveForRematch(s, id);
    RemovalKeepsRoomsOk(s, r, id, len);
  }

  /** After `playAgain` from a live connection, on a consistent registry with
      ids of one length, the registry is still consistent and the requester is
      either waiting or seated in a room. */
  lemma PlayAgainWaitsOrSeats(s: Server, id: Id, live: set<Id>, len: nat)
    requires Consistent(s, len) && |id| == len && id in live
    ensures Consistent(PlayAgain(s, id, live), len)
    ensures id in PlayAgain(s, id, live).queue || Seated(PlayAgain(s, id, live), id)
  {
    LeaveForRematchConsistent(s, id, len);
    MatchAllConsistent(LeaveForRematch(s, id), live, len);
    MatchAllKeepsLive(LeaveForRematch(s, id), live, len);
  }

  /** The `disconnect` handler's registry updates: `id` leaves every room and
      its first queue occurrence is removed; its `players` entry is left
      behind. */
  function Disconnect(s: Server, id: Id): (r: Server)
    ensures InNoRoom(r.rooms, id)
    ensures NoDup(s.queue) ==> id !in r.queue
    ensures r.rooms == RemovePlayerFromRooms(s.rooms, id)
    ensures r.queue == RemoveFirst(s.queue, id)
    ensures r.players == s.players
    ensures r.idCounter == s.idCounter
  {
    assert NoDup(s.queue) ==> id !in RemoveFirst(s.queue, id) by {
      if NoDup(s.queue) {
        RemoveFirstNoDup(s.queue, id);
      }
    }
    s.(rooms := RemovePlayerFromRooms(s.rooms, id), queue := RemoveFirst(s.queue, id))
  }

  lemma DisconnectConsistent(s: Server, id: Id, len: nat)
    requires Consistent(s, len)
    ensures Consistent(Disconnect(s, id), len)
  {
    var r := Disconnect(s, id);
    RemoveFirstNoDup(s.queue, id);
    RemovalKeepsRoomsOk(s, r, id, len);
  }

  lemma MapMinusNonEmpty(m: map<Id, Team>, id: Id)
    requires |m| > 0 && !(id in m && m.Keys == {id})
    ensures |m - {id}| > 0
  {
    if id in m {
      var o :| o in m.Keys && o != id;
      assert o in (m - {id}).Keys;
    } else {
      assert m - {id} == m;
    }
  }

  /** Taking `id` out of every room keeps each remaining room consistent as
      long as the other connections' `players` entries are kept; ids waiting
      before stay roomless. */
  lemma RemovalKeepsRoomsOk(s: Server, r: Server, id: Id, len: nat)
    requires Consistent(s, len)
    requires r.rooms == RemovePlayerFromRooms(s.rooms, id)
    requires forall m | m != id && m in s.players :: m in r.players && r.players[m] == s.players[m]
    ensures forall k | k in r.rooms :: RoomOk(r, k, len)
    ensures forall x | x in s.queue :: InNoRoom(r.rooms, x)
  {
    forall k | k in r.rooms ensures RoomOk(r, k, len) {
      assert RoomOk(s, k, len);
      assert r.rooms[k].players == s.rooms[k].players - {id};
      MapMinusNonEmpty(s.rooms[k].players, id);
      forall m | m in r.rooms[k].players ensures MemberOk(r, k, m, len) {
        assert MemberOk(s, k, m, len);
      }
    }
    forall x | x in s.queue ensures InNoRoom(r.rooms, x) {
      assert InNoRoom(s.rooms, x);
    }
  }
}
