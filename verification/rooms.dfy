/** Pieces shared by both revisions of the room registry: connection ids, the
    room record and the state of a new match. */
module Rooms {
  import opened Wrappers
  import opened Roster
  import opened Validator
  import opened ValidatorResend

  /** A connection (socket) id. */
  type Id = string

  /** A room: the team of each member connection, and the authoritative state. */
  datatype Room = Room(players: map<Id, Team>, gameState: GameState)

  /** The state of a new match when the global unit id counter is at
      `firstId`: team A on row 0, team B on the opposite edge, A to move, no
      winner. The counter afterwards is `firstId + 2 * |BaseCharacters|`. */
  function InitialState(firstId: int): GameState
  {
    GameState(
      GenerateTeam(A, 0, firstId) + GenerateTeam(B, GridSize - 1, firstId + |BaseCharacters|),
      A,
      None)
  }

  /** Where the unit at index `k` of a new match stands, and what it holds. */
  lemma InitialUnit(firstId: int, k: nat)
    requires k < |InitialState(firstId).characters|
    ensures var n, u := |BaseCharacters|, InitialState(firstId).characters[k];
      && u.id == firstId + k
      && u.x == (if k < n then k else k - n)
      && u.y == (if k < n then 0 else GridSize - 1)
      && u.team == (if k < n then A else B)
      && u.hp > 0 && u.movesLeft >= 0
      && FindArchetype(u.name).Some? && Rested(u)
  {
    var n := |BaseCharacters|;
    var ta, tb := GenerateTeam(A, 0, firstId), GenerateTeam(B, GridSize - 1, firstId + n);
    assert InitialState(firstId).characters == ta + tb;
    if k < n {
      assert InitialState(firstId).characters[k] == ta[k];
      GeneratedUnitsRested(A, 0, firstId, k);
      CatalogPositive(k);
    } else {
      assert InitialState(firstId).characters[k] == tb[k - n];
      GeneratedUnitsRested(B, GridSize - 1, firstId + n, k - n);
      CatalogPositive(k - n);
    }
  }

  /** A new match starts on a well-formed board, every unit rested, both
      teams alive. */
  lemma InitialStateWellFormed(firstId: int)
    ensures WellFormed(InitialState(firstId).characters)
    ensures TeamAlive(InitialState(firstId).characters, A) && TeamAlive(InitialState(firstId).characters, B)
    ensures forall k | 0 <= k < |InitialState(firstId).characters| :: Rested(InitialState(firstId).characters[k])
  {
    var n := |BaseCharacters|;
    var units := InitialState(firstId).characters;
    forall k | 0 <= k < |units|
      ensures units[k].id == firstId + k
      ensures units[k].x == (if k < n then k else k - n)
      ensures units[k].y == (if k < n then 0 else GridSize - 1)
      ensures units[k].hp > 0 && units[k].movesLeft >= 0
      ensures FindArchetype(units[k].name).Some? && Rested(units[k])
    {
      InitialUnit(firstId, k);
    }
    assert NoCollision(units);
    InitialUnit(firstId, 0);
    InitialUnit(firstId, n);
    assert units[0].team == A && Alive(units[0]);
    assert units[n].team == B && Alive(units[n]);
  }
}
