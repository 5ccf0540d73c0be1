# duelgrid-server, modelled in Dafny

DuelGrid is a two-player, turn-based tactics game played on an 8×8 grid.
Each player owns eight units, one of each archetype in a fixed catalog.
The Node.js server is authoritative. It pairs waiting connections into rooms
and creates the initial board. For every move, it compares the client's
proposed snapshot with the stored one and accepts or refuses it. It also
handles end of turn, surrender, "play again" and disconnects.

The repository holds two revisions of the server:

- `server.js`: rooms are named after the two connection ids. It keeps a
  `players` map from each connection to its room, and has `playAgain`.
- `backend/server.js`: rooms are numbered `room-1`, `room-2`, and so on. It
  pairs connections as they arrive, and has a `surrender` handler that
  declares a winner.

The validator `validateAndUpdateGameRoom` is the same function in both files.

The model is purely functional. The server's mutable globals become fields
of immutable records, and each handler becomes a function from the old
record to the new one.

- `roster.dfy`, module `Roster`: the catalog, units, and `generateTeam`.
- `validator.dfy`, module `Validator`: the validator. It returns the
  acceptance flag together with the stored state as it is afterwards.
- `validator_facts.dfy`: what the validator guarantees, in five modules.
  - `ValidatorFacts`: occupancy.
  - `ValidatorAcceptance`: what an accepted update commits.
  - `ValidatorHpWrites`: the HP written while checking.
  - `ValidatorAttacks`: what the attack check really accepts.
  - `ValidatorResend`: resending the stored state.
- `turns.dfy`, module `Turns`: the `endTurn` state change.
- `rooms.dfy`, module `Rooms`: the room record and a new match's state.
- `matchmaking.dfy`, module `Matchmaking`: the `server.js` registry.
  - `tryToMatchPlayers`
  - `removePlayerFromRooms`
  - the `playAgain` and `disconnect` registry updates
- `lobby.dfy`, module `Lobby`: the `backend/server.js` registry.
  - pairing on connection
  - the `disconnect`, `surrender`, `endTurn` and `updateGame` handlers
- `scenarios.dfy`, module `Scenarios`: concrete boards showing typical
  accepted and refused updates.
- `seqs.dfy` and `wrappers.dfy`: sequence helpers and `Option`.

The validator never learns which action a client took. It compares the two
snapshots and infers moves and attacks from the differences. On the inputs
its types admit, the model follows the code, except where "## Left out"
says otherwise. That includes these surprising consequences, all of which
are proved:

- Each proposed unit's HP is written into its stored unit before that
  unit's move is checked. A refused update can therefore still change the
  stored HP (`Validator.Validate`, `ValidatorHpWrites.PassWrites`).
- Because of those writes, when no id is listed twice, the attack check
  sees no HP drop on any enemy that is still listed. An ordinary hit, where
  the enemy survives with less HP, is therefore refused. Only a kill
  reported by leaving the enemy out of the list, or an attack power of 0,
  gets past the check (`ValidatorAttacks.AttackCheckWithDistinctIds`,
  `Scenarios.OrdinaryAttackRejected`, `Scenarios.KillByOmissionWins`).
- An ordinary hit does get past the check when the proposal lists the enemy
  a second time with its old HP. The second listing writes the old HP back,
  and the check reads the HP of the first listing. The update is committed
  with the enemy on two tiles (`Scenarios.HitListedTwiceAccepted`).
- A recorded winner does not stop play. Moves are still accepted and the
  winner is never replaced (`Scenarios.MovesAfterWinAccepted`).
- An empty unit list is accepted, and makes A the winner when none was
  recorded (`Scenarios.EmptyProposalWinsForA`).
- No move is checked against the board edges. A unit may step off the grid
  (`Scenarios.OffBoardMoveAccepted`).
- A proposal may list the same id twice. The list is committed as sent
  (`Scenarios.DuplicateIdsCommitted`).
- Once the per-unit checks pass, the mid-turn check can never refuse
  (`ValidatorAcceptance.MidTurnCheckRedundant`).

## Model

| member | source | states |
|---|---|---|
| Roster.Other | backend/server.js:252 | The team that takes over the turn is never the team that held it. |
| Roster.AdjacentMeans | server.js:98 | Two units are adjacent exactly when they stand on orthogonally neighbouring tiles. Adjacency is symmetric, and a tile is not adjacent to itself. |
| Roster.FindFirstNamed | server.js:125 | A catalog lookup by name returns the first entry carrying that name. |
| Roster.CatalogLookup | server.js:20-29 | Every catalog entry is found under its own name, so a lookup never returns a different archetype. |
| Roster.CatalogPositive | server.js:20-29 | Every archetype has attack above 0, HP above its own attack, and a move range of at least one tile. |
| Roster.SpawnRested | server.js:33-42 | A freshly placed unit is listed in the catalog under its archetype and has full moves and no attack made. |
| Roster.GenerateTeam | server.js:33-42 | A team is the eight archetypes in catalog order. The unit at index i stands in column i of the given row, belongs to the given team, and takes id counter + i. It carries the archetype's name, full HP, attack and move range. |
| Roster.GeneratedUnitsRested | server.js:33-42 | Every generated unit is found in the catalog under the archetype of its column and starts rested. |
| Validator.IndexOfId | server.js:116 | Finding a unit by id returns the first unit with that id, and returns nothing exactly when no unit has it. |
| Validator.HpOnlyChangedTransitive | server.js:139 | Two rounds of HP-only changes together are an HP-only change. |
| Validator.IndexOfIdIgnoresHp | server.js:116 | Finding a unit by id gives the same answer after HP-only changes. |
| Validator.UnitLegalIgnoresHp | server.js:116-158 | The per-unit checks of a proposed unit do not depend on the stored HP. |
| Validator.UnitPass | server.js:115-159 | The per-unit loop leaves as many stored units as it found. When it passes, it yields one committed unit per proposed unit. |
| Validator.PassWritesOnlyHp | server.js:115-159 | The per-unit loop changes stored units only in HP. Nothing is added, removed, reordered, moved or renamed, even when the loop refuses. |
| Validator.PassOkMeansLegal | server.js:115-159 | The per-unit loop passes exactly when every proposed unit passes its checks against the stored units as they were before the loop. HP written earlier in the loop never changes a later unit's verdict. |
| Validator.PassClampedFrom | server.js:131-139 | When the loop passes, each proposed unit is committed in its place. Only its HP may change, and never to more than was proposed. |
| Validator.PassFacts | server.js:115-159 | Bundles the three facts above about the per-unit loop. |
| Validator.Validate | server.js:101-284 | A missing field or an out-of-turn sender is refused before anything is written. A later refusal keeps the turn and the winner, but may keep HP changes. An acceptance commits the proposed units, changed in HP only, with the proposed turn. A recorded winner is never replaced. Otherwise the winner is A exactly when no B unit is alive, and B exactly when B units live and no A unit does. |
| ValidatorFacts.AlivePositionsMember | server.js:162 | A tile is in the list of occupied tiles exactly when some living unit stands on it. |
| ValidatorFacts.NoDupAlivePositions | server.js:162-163 | The list of occupied tiles has no repeats exactly when no two living units share a tile. |
| ValidatorFacts.PositionsUniqueMeansNoCollision | server.js:161-166 | The occupancy test, which compares the size of a Set of "x,y" keys with the length of the key list, passes exactly when no two living units share a tile. |
| ValidatorAcceptance.UnitLegalMeaning | server.js:116-158 | A unit that passes its checks has a stored counterpart of the same team. From it, the unit walked at most the moves it had left, had exactly that distance deducted, and did not take back an attack. |
| ValidatorAcceptance.ClampedLegal | server.js:115-159 | Every unit the per-unit loop commits passes the per-unit checks. |
| ValidatorAcceptance.AcceptedUnitsLegal | server.js:115-159 | Every unit committed by an accepted update passed the per-unit checks against the stored state. |
| ValidatorAcceptance.AcceptedUnitsMovedLegally | server.js:141-158 | Every committed unit matches a stored unit by id and team. It moved no further than the moves it had left, had exactly the distance walked deducted, and kept any earlier attack. No unit is invented. |
| ValidatorAcceptance.AcceptedNoCollision | server.js:161-166 | After an accepted update no two living units share a tile. |
| ValidatorAcceptance.AcceptedHandOff | server.js:209-242 | An accepted hand-off passes the turn to the other team, and every committed unit of that team is rested. |
| ValidatorAcceptance.MidTurnCheckRedundant | server.js:243-262 | Once the per-unit loop passes, the mid-turn check (no moves regained, no attack taken back) can never refuse. |
| ValidatorHpWrites.IndexOfIdDistinct | server.js:116 | When ids are distinct, looking up a unit's id finds that very unit. |
| ValidatorHpWrites.DistinctIdsIgnoreHp | server.js:139 | HP-only changes keep ids distinct. |
| ValidatorHpWrites.PassLeavesOthers | server.js:139 | A stored unit whose id no proposed unit carries is never written. |
| ValidatorHpWrites.ClampIdempotent | server.js:131-138 | Clamping an HP value that has already been clamped changes nothing. |
| ValidatorHpWrites.PassReplay | server.js:115-159 | Running the per-unit loop again on the state it has just written, with a proposal that lists no id twice, writes nothing new and gives the same verdict and the same clamped HP. |
| ValidatorHpWrites.RejectionIsIdempotent | server.js:101-284 | Sending a refused proposal again, with no id listed twice, is refused again and leaves the stored state as the first refusal left it. |
| ValidatorHpWrites.PriorUnchanged | server.js:116-139 | An HP write to one stored unit does not change what a proposed unit with a different id is compared with or clamped against. |
| ValidatorHpWrites.PassClampsHead | server.js:131-139 | The first unit kept by a passing loop has its proposed HP clamped against its stored unit and that unit's archetype maximum. |
| ValidatorHpWrites.PassTail | server.js:115-159 | A passing loop, one unit further on, is a passing loop on the written state. |
| ValidatorHpWrites.PassClamps | server.js:131-139 | A committed unit whose id was not listed earlier has HP equal to the proposed HP clamped against the stored HP and the archetype maximum. A heal is capped at the maximum, and every other value is kept. |
| ValidatorHpWrites.PassWrites | server.js:139 | With no id twice on either side, a passing loop leaves unmentioned stored units alone. Every other stored unit ends with the clamped HP of the proposed unit with its id. |
| ValidatorAttacks.EnemyEquivalent | server.js:175-199 | After the HP writes, the hit test on a stored enemy passes exactly when the enemy was left out with HP at most the attack power, or is listed and alive while the attack power is 0. |
| ValidatorAttacks.AttackCheckWithDistinctIds | server.js:168-205 | With distinct ids and a passing loop, the attack check passes exactly when every new attacker has an adjacent living enemy that was left out of the proposal with HP at most the attacker's attack, or has attack 0. |
| ValidatorResend.PassIdentity | server.js:115-159 | Proposed units equal to their stored units pass the loop, and no HP is written. |
| ValidatorResend.ResentStateAccepted | server.js:101-284 | On a well-formed board, resending the stored units and turn during one's own turn is accepted and commits the same units and turn. |
| Turns.EndTurn | backend/server.js:245-273 | A request out of turn, or one that would throw on an unknown name, leaves the state unchanged. Otherwise the turn passes to the other team, each living unit of that team gets full moves and its attack back with nothing else changed, and every other unit and the winner stay as they were. |
| Turns.TwoEndTurnsRestEveryone | backend/server.js:245-273 | Two successive end-of-turn requests hand the turn back. Every living unit of both teams ends up rested, with id, name, position and HP unchanged. |
| Rooms.InitialUnit | server.js:71-75 | In a new match the unit at index k has id counter + k. Team A stands on row 0 and team B on row 7, column by catalog index. Every unit is alive and rested. |
| Rooms.InitialStateWellFormed | server.js:71-75 | A new match starts on a well-formed board. Ids are distinct, no two units share a tile, every name is in the catalog, both teams are alive and every unit is rested. |
| Matchmaking.RoomNameSplits | server.js:65 | The room id names its two connections back, given the length of the first id. |
| Matchmaking.RoomNamesCanCollide | server.js:65 | Two different pairs of ids of different lengths can get the same room id. |
| Matchmaking.ConsistentMeansOneRoom | server.js:77-78 | In a consistent registry a connection is a member of at most one room. |
| Matchmaking.MatchStep | server.js:52-63 | Each iteration of the pairing loop shortens the queue. |
| Matchmaking.MatchAll | server.js:51 | The pairing loop stops with fewer than two connections waiting. |
| Matchmaking.MatchAllQueueFrom | server.js:51-63 | The pairing loop only takes connections off the queue. Nobody joins it. |
| Matchmaking.TryToMatchPlayers | server.js:47-95 | Afterwards fewer than two connections wait, nobody new has joined the queue, and every new or changed room holds live connections only. |
| Matchmaking.MatchStepOutcome | server.js:52-78 | Of the two front connections, a live one whose partner is gone returns to the front, and two gone ones are dropped. A live pair is seated in the room named after it, A being the first dequeued, on a fresh board, and both connections point to that room. |
| Matchmaking.PairKeyFresh | server.js:65-66 | In a consistent registry the room id a live pair gets is not taken yet, so no room is overwritten. |
| Matchmaking.MatchPairConsistent | server.js:65-78 | Seating a live pair keeps the queue, rooms and players map consistent. |
| Matchmaking.QueueAfterPair | server.js:52-53 | After a pair is seated the rest of the queue still has no repeats and no seated connection. |
| Matchmaking.NewRoomOk | server.js:66-78 | The room made for a pair has exactly the two connections its id names, each pointing back to it. |
| Matchmaking.OldRoomsOk | server.js:66-78 | Seating a pair leaves every other room consistent. |
| Matchmaking.RequeueQueue | server.js:58-63 | Putting back the live connection of a broken pair keeps the queue free of repeats and adds nobody. |
| Matchmaking.SameRegistry | server.js:58-63 | A step that changes only the queue leaves every room consistent. |
| Matchmaking.RequeueConsistent | server.js:58-63 | Putting back the live connection of a broken pair keeps the registry consistent. |
| Matchmaking.MatchStepConsistent | server.js:51-94 | One iteration of the pairing loop keeps the registry consistent. |
| Matchmaking.MatchAllConsistent | server.js:47-95 | The whole pairing loop keeps the registry consistent. |
| Matchmaking.StepKeepsSeated | server.js:65-78 | A seated connection not at the front of the queue stays seated. |
| Matchmaking.SeatedNotQueued | server.js:77-78 | In a consistent registry a seated connection is not waiting. |
| Matchmaking.StepKeepsLive | server.js:52-78 | A live waiting connection is still waiting, or seated, after one iteration. |
| Matchmaking.MatchAllKeepsSeated | server.js:47-95 | The pairing loop never unseats anyone. |
| Matchmaking.MatchAllKeepsLive | server.js:47-95 | The pairing loop loses no live connection. Each live waiting connection ends up still waiting or seated. |
| Matchmaking.RemovePlayerFromRooms | server.js:287-301 | The connection ends up in no room. A room is deleted exactly when the connection was its only member. Every other room keeps its state and its other members with their teams. |
| Matchmaking.LeaveForRematch | server.js:315-339 | The rooms become what room removal makes of them: the requester is in none, and every other member and room state is kept. Only the requester's players-map entry is deleted. The requester is pushed to the back of the queue unless already waiting, so it waits exactly once, and nobody else joins. The unit id counter is unchanged. |
| Matchmaking.LeaveForRematchConsistent | server.js:315-339 | Leaving for a rematch keeps the registry consistent. |
| Matchmaking.PlayAgain | server.js:311-343 | After a rematch request fewer than two connections wait, and each of them was waiting before or is the requester. |
| Matchmaking.PlayAgainWaitsOrSeats | server.js:311-343 | After a live connection asks to play again, the registry is still consistent and the requester is either waiting or seated. |
| Matchmaking.Disconnect | server.js:441-447 | The rooms become what room removal makes of them: the connection is in none, and every other member and room state is kept. Only the first queue occurrence is removed, so a queue without repeats no longer holds the connection. Its players-map entry is left behind, and the unit id counter is unchanged. |
| Matchmaking.DisconnectConsistent | server.js:429-448 | A disconnect keeps the registry consistent. |
| Matchmaking.MapMinusNonEmpty | server.js:292-295 | A room that had a member other than the leaver is not empty after the leaver is removed. |
| Matchmaking.RemovalKeepsRoomsOk | server.js:287-301 | Removing a connection from every room keeps the remaining rooms consistent and leaves waiting connections roomless. |
| Lobby.FindRoom | backend/server.js:236 | The room lookup answers with a room that holds the connection, and answers nothing exactly when no listed room does. |
| Lobby.FindRoomIsLowest | backend/server.js:236 | With rooms listed in creation order, the lookup finds the lowest-numbered room holding the connection. |
| Lobby.EmptyWf | backend/server.js:39-41 | The registry at start-up is well formed. |
| Lobby.Connect | backend/server.js:281-313 | A connection joins the queue. When two are waiting, the front one becomes A and the newcomer B in room number roomCounter on a fresh board, the counter advances, and 16 unit ids are used. |
| Lobby.ConnectWf | backend/server.js:281-313 | A new connection keeps the registry well formed, and the number of the room it may create is not taken. |
| Lobby.ConnectNumbersOk | backend/server.js:288-296 | Creating a room keeps room numbers increasing, listed, and below the counter. |
| Lobby.ConnectMembersOk | backend/server.js:284-302 | Creating a room keeps rooms non-empty, at most one connection waiting, and nobody in two rooms. |
| Lobby.Disconnect | backend/server.js:344-364 | The first queue occurrence is removed. Only the first room holding the connection can change. A room is deleted only when the leaver was its sole member. Game states are unchanged, and every member other than the leaver stays. A connection in no room leaves the rooms and their order as they were. |
| Lobby.DisconnectWf | backend/server.js:344-364 | In a well-formed registry a disconnect keeps it well formed and leaves the connection neither waiting nor in any room. |
| Lobby.DisconnectLeavesNoTrace | backend/server.js:348-364 | In a well-formed registry the disconnected connection is neither waiting nor in any room afterwards. |
| Lobby.DisconnectFromRoom | backend/server.js:352-362 | Leaving the one room that holds the connection leaves it in no room. |
| Lobby.DisconnectNumbersOk | backend/server.js:352-362 | A disconnect keeps room numbers increasing, listed, and below the counter. |
| Lobby.DisconnectDeletes | backend/server.js:358-360 | A disconnect that empties its room deletes the room and its number. |
| Lobby.DisconnectKeepsNumbers | backend/server.js:352-362 | A disconnect that deletes no room keeps the numbering as it was. |
| Lobby.DropNumber | backend/server.js:358-360 | Deleting a listed room and its number keeps the numbering sound. |
| Lobby.DisconnectMembersOk | backend/server.js:344-364 | A disconnect keeps the membership invariants: rooms non-empty, at most one connection waiting, nobody in two rooms. |
| Lobby.DisconnectQueueOk | backend/server.js:348-349 | After a disconnect at most one connection waits, and it is in no room. |
| Lobby.RoomlessShrinks | backend/server.js:354-359 | Removing rooms and members keeps a roomless connection roomless. |
| Lobby.DisconnectRoomsNonEmpty | backend/server.js:354-361 | After a disconnect no room is empty. |
| Lobby.DisconnectShrinks | backend/server.js:354 | A disconnect that leaves someone behind keeps the room without the leaver. |
| Lobby.DisconnectOneRoomEach | backend/server.js:352-363 | After a disconnect nobody is in two rooms. |
| Lobby.IncreasingRemoveFirst | backend/server.js:359 | Deleting a room number keeps the list increasing. |
| Lobby.Surrender | backend/server.js:366-383 | A surrender declares the other team of the surrenderer's room the winner, only when no winner was recorded. A connection in no room changes nothing. No other room, member, queue entry or counter changes. |
| Lobby.SurrenderOnce | backend/server.js:377-378 | A second surrender changes nothing. |
| Lobby.FindRoomSameMembers | backend/server.js:367 | The room lookup depends only on membership. |
| Lobby.WithState | backend/server.js:269-273 | Storing a room's new state changes nothing else. |
| Lobby.EndTurnRequest | backend/server.js:235-278 | The requester's room, the first one holding the requester, receives the state the end-of-turn transition gives for the requester's team. No other room changes, and a connection in no room changes nothing. A room changes only when the requester holds the turn, and the turn then passes to the other team. |
| Lobby.UpdateGame | backend/server.js:319-342 | The sender's room, the first one holding the sender, stores the validator's state for the proposal and the sender's team, whether or not it was accepted. No other room changes, and a connection in no room changes nothing. A room changes only when the sender holds the turn, and a recorded winner stays. |
| Lobby.SameMembersWf | backend/server.js:235-383 | A handler that changes only game states keeps the registry well formed. |
| Lobby.GameHandlersWf | backend/server.js:235-383 | Surrender, end of turn and game updates keep the registry well formed. |
| Lobby.DisconnectStopsAtFirstRoom | backend/server.js:352-363 | The disconnect scan stops at the first room holding the connection, so it would stay a member of a later room. |
| Seqs.IndexOf | backend/server.js:348 | indexOf returns the first position of the value, and -1 exactly when the value is absent. |
| Seqs.RemoveFirst | backend/server.js:349 | splice at the first occurrence removes exactly that one element and keeps the others in order. |
| Seqs.RemoveFirstNoDup | server.js:443-447 | In a queue without repeats, removing the first occurrence removes the value completely and keeps the rest without repeats. |
| Seqs.AppendNewNoDup | server.js:336-339 | Pushing an id not already waiting keeps the queue free of repeats. |
| Scenarios.PairPositionsUnique | server.js:161-166 | Two living units on different tiles pass the occupancy test. |
| Scenarios.LegalMoveAccepted | server.js:101-284 | A one-tile move within range is accepted and committed exactly as sent. |
| Scenarios.OffBoardMoveAccepted | server.js:141-158 | A step from column 0 to column -1, off the board, is accepted and committed, because the movement checks do not look at the board edges. |
| Scenarios.MovesAfterWinAccepted | server.js:264-279 | A game with a recorded winner still accepts moves and keeps the winner. |
| Scenarios.OverreachRejected | server.js:146-150 | A walk one tile past the move range is refused, and the stored state is unchanged. |
| Scenarios.OrdinaryAttackRejected | server.js:139 | An attack that leaves the enemy alive with reduced HP is refused, and the enemy's reduced HP stays written into the stored state. |
| Scenarios.KillByOmissionWins | server.js:183-188 | Leaving a killed enemy out of the list is accepted, and wins the game when it was the enemy's last unit. |
| Scenarios.OverhealClamped | server.js:131-138 | A heal past the archetype maximum is cut down to the maximum. |
| Scenarios.EmptyProposalWinsForA | server.js:264-272 | An empty unit list is accepted, and A is declared the winner. |
| Scenarios.HitListedTwiceAccepted | server.js:139-193 | A hit that leaves the enemy alive is accepted when the enemy is listed a second time with its old HP, and both listings are committed. |
| Scenarios.DuplicateIdsCommitted | server.js:115-159 | A list naming the same id twice is accepted and committed as sent. |

## Left out

- Logging, every emitted message, Socket.IO broadcast groups (`join`,
  `leave`), the HTTP route, CORS and the listening port. These are I/O and
  carry no state.
- The `sprite` field of the catalog. No rule reads it.
- Values JavaScript allows but the model's types exclude:
  - turns other than `'A'` and `'B'`;
  - missing or non-numeric unit fields;
  - non-integer coordinates, HP or moves;
  - ids that are not integers.

  A missing or falsy `turn` or `characters` is `None`. JavaScript numbers
  are modelled as unbounded integers.
- Connection liveness (`io.sockets.sockets.get`) is a parameter, the set
  `live`. The global counters `idCounter` and `roomCounter` are fields of
  the registry record.
- In `server.js`, a `players` entry inside a room is the record
  `{ team: 'A' }`. It is modelled as the team itself.
- In `backend/server.js`, the room id `` `room-${n}` `` is modelled as the
  number `n`.
- `server.js` line 346 closes the connection handler early. Everything
  after it runs at module level, where `socket` is not defined: the
  `socket.onAny` call (line 353), and the `endTurn`, `updateGame`,
  `disconnect` (lines 429-448) and `surrender` (lines 451-471) handlers. As
  written, the `socket.onAny` call throws a ReferenceError while the module
  loads, so the file never reaches `listen`, and those handlers are never
  registered. The model does not reproduce this wiring. It models the
  handlers' state changes as if they were registered per connection.
- Matchmaking.Disconnect: models the `disconnect` handler of `server.js`
  (lines 441-447), which that file as written never registers (see the
  previous line).
- The `server.js` `endTurn`, `updateGame` and `surrender` handlers are not
  modelled separately. Their state changes are the ones modelled for
  `backend/server.js` (`Lobby.EndTurnRequest`, `Lobby.UpdateGame`), with
  two exceptions:
  - `server.js` line 412 passes the `{ team }` record itself to the
    validator. It never equals the turn, so that handler refuses every
    update at line 106.
  - The `surrender` handler calls `findRoomOfPlayer` (line 452), which is
    defined nowhere in the file.
- Turns.EndTurn: a living unit of the incoming team whose name is not in the
  catalog makes the source throw a TypeError while building the new units.
  The model treats this as a refusal that leaves the state unchanged. The
  exception itself is not modelled.
- Matchmaking.DisconnectConsistent: the registry invariant `Consistent`
  assumes every connection id has one length `len`, as Socket.IO ids do.
  With ids of different lengths two pairs can share a room id
  (`Matchmaking.RoomNamesCanCollide`), and a room is then overwritten.
- ValidatorHpWrites.PassClamps: stated only for a proposed unit whose id is
  not listed earlier in the proposal. A repeated id is clamped against the
  HP the earlier copy wrote (`Scenarios.DuplicateIdsCommitted` shows one
  such case).
- ValidatorHpWrites.PassWrites: stated only when neither the stored units
  nor the proposal repeat an id.
- ValidatorAttacks.AttackCheckWithDistinctIds: stated only when neither the
  stored units nor the proposal repeat an id. With repeats, the attack check
  is still modelled exactly by `Validator.Validate`, and an ordinary hit can
  pass it (`Scenarios.HitListedTwiceAccepted`).
- ValidatorHpWrites.RejectionIsIdempotent: stated only for proposals that
  list no id twice.
- Matchmaking.Disconnect: says the connection is gone from the queue only
  when the queue had no repeats. The source removes only the first
  occurrence, and the model does the same (`r.queue == RemoveFirst(...)`).
