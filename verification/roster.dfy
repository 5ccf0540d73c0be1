/** The unit catalog, unit instances on the board and the team generator
    (server.js lines 19-42; backend/server.js lines 14-37 are the same table
    with sprite paths, which this model leaves out). */
module Roster {
  import opened Wrappers

  /** Side length of the square board. */
  const GridSize: int := 8

  datatype Team = A | B

  /** The opposing team: `team === 'A' ? 'B' : 'A'`. */
  function Other(t: Team): (r: Team)
    ensures r != t
  {
    if t == A then B else A
  }

  /** An entry of the fixed catalog: a name, the maximum (and starting) HP,
      the attack power and the number of tiles a unit may walk per turn. */
  datatype Archetype = Archetype(name: string, maxHp: int, atk: int, moveRange: int)

  const BaseCharacters: seq<Archetype> := [
    Archetype("Knight", 100, 30, 2),
    Archetype("Archer", 80, 25, 3),
    Archetype("Mage", 70, 40, 2),
    Archetype("Healer", 90, 10, 2),
    Archetype("Warrior", 110, 35, 1),
    Archetype("Rogue", 75, 30, 4),
    Archetype("Summoner", 65, 45, 2),
    Archetype("Paladin", 95, 20, 1)
  ]

  /** First archetype in `catalog` with the given name, as `Array.find` returns it. */
  function FindArchetypeIn(catalog: seq<Archetype>, name: string): (r: Option<Archetype>)
  {
    if |catalog| == 0 then None
    else if catalog[0].name == name then Some(catalog[0])
    else FindArchetypeIn(catalog[1..], name)
  }

  /** `BASE_CHARACTERS.find(bc => bc.name === name)`. */
  function FindArchetype(name: string): Option<Archetype>
  {
    FindArchetypeIn(BaseCharacters, name)
  }

  /** The lookup answers with the first entry carrying the name. */
  lemma {:induction false} FindFirstNamed(catalog: seq<Archetype>, k: nat)
    requires k < |catalog|
    requires forall j | 0 <= j < k :: catalog[j].name != catalog[k].name
    ensures FindArchetypeIn(catalog, catalog[k].name) == Some(catalog[k])
  {
    if k > 0 {
      assert catalog[0].name != catalog[k].name;
      FindFirstNamed(catalog[1..], k - 1);
    }
  }

  /** Every catalog entry is found under its own name: the names are distinct
      (they even differ in their first letter), so the lookup never answers
      with a different entry. */
  lemma CatalogLookup(k: nat)
    requires k < |BaseCharacters|
    ensures FindArchetype(BaseCharacters[k].name) == Some(BaseCharacters[k])
  {
    forall j | 0 <= j < k
      ensures BaseCharacters[j].name != BaseCharacters[k].name
    {
      assert BaseCharacters[j].name[0] != BaseCharacters[k].name[0];
    }
    FindFirstNamed(BaseCharacters, k);
  }

  /** Every archetype has positive attack, more HP than one hit of its own
      attack takes off, and can move at least one tile. */
  lemma CatalogPositive(k: nat)
    requires k < |BaseCharacters|
    ensures BaseCharacters[k].maxHp > BaseCharacters[k].atk > 0 && BaseCharacters[k].moveRange >= 1
  {
  }

  /** A unit instance: the catalog fields copied from its archetype, plus its
      identity, position, owner and per-turn resources. */
  datatype Unit = Unit(
    id: int,
    name: string,
    hp: int,
    atk: int,
    moveRange: int,
    x: int,
    y: int,
    team: Team,
    movesLeft: int,
    hasAttacked: bool)

  function Abs(n: int): int { if n < 0 then -n else n }

  /** Manhattan distance between the positions of two units. */
  function Distance(a: Unit, b: Unit): nat
  {
    Abs(a.x - b.x) + Abs(a.y - b.y)
  }

  /** `areAdjacent`: the two units stand on orthogonally neighbouring tiles. */
  predicate Adjacent(a: Unit, b: Unit)
  {
    Distance(a, b) == 1
  }

  /** Adjacent tiles are the four orthogonal neighbours: same column and
      neighbouring rows, or same row and neighbouring columns. Adjacency is
      symmetric and no unit is adjacent to its own tile. */
  lemma AdjacentMeans(a: Unit, b: Unit)
    ensures Adjacent(a, b) <==>
      || (a.x == b.x && (a.y == b.y + 1 || a.y == b.y - 1))
      || (a.y == b.y && (a.x == b.x + 1 || a.x == b.x - 1))
    ensures Adjacent(a, b) <==> Adjacent(b, a)
    ensures (a.x, a.y) == (b.x, b.y) ==> !Adjacent(a, b)
  {
  }

  predicate Alive(u: Unit)
  {
    u.hp > 0
  }

  /** A unit whose per-turn resources are full: its name is in the catalog, it
      has the whole move range of that archetype left and has not attacked. */
  predicate Rested(u: Unit)
  {
    match FindArchetype(u.name)
    case None => false
    case Some(arch) => u.movesLeft == arch.moveRange && !u.hasAttacked
  }

  /** A unit of archetype `arch` as the generator places it: full HP, full
      moves, no attack made. */
  function Spawn(arch: Archetype, id: int, column: int, row: int, team: Team): Unit
  {
    Unit(id, arch.name, arch.maxHp, arch.atk, arch.moveRange, column, row, team, arch.moveRange, false)
  }

  /** A spawned unit is listed in the catalog under its archetype and starts rested. */
  lemma SpawnRested(k: nat, id: int, column: int, row: int, team: Team)
    requires k < |BaseCharacters|
    ensures FindArchetype(Spawn(BaseCharacters[k], id, column, row, team).name) == Some(BaseCharacters[k])
    ensures Rested(Spawn(BaseCharacters[k], id, column, row, team))
  {
    CatalogLookup(k);
  }

  /** `generateTeam(team, row)` with the global id counter at `firstId`: the
      archetype at catalog index `i` stands at column `i` of `row` and takes id
      `firstId + i`; the counter afterwards is `firstId + |BaseCharacters|`. */
  function GenerateTeam(team: Team, row: int, firstId: int): (r: seq<Unit>)
    ensures |r| == |BaseCharacters|
    ensures forall i | 0 <= i < |r| ::
      && r[i].id == firstId + i
      && r[i].x == i && r[i].y == row
      && r[i].team == team
      && r[i].hp == BaseCharacters[i].maxHp
      && r[i].name == BaseCharacters[i].name
      && r[i].atk == BaseCharacters[i].atk
      && r[i].moveRange == BaseCharacters[i].moveRange
  {
    seq(|BaseCharacters|, i requires 0 <= i < |BaseCharacters| =>
      Spawn(BaseCharacters[i], firstId + i, i, row, team))
  }

  /** Every generated unit is listed in the catalog under the archetype of its
      column and starts the match rested. */
  lemma GeneratedUnitsRested(team: Team, row: int, firstId: int, i: nat)
    requires i < |BaseCharacters|
    ensures FindArchetype(GenerateTeam(team, row, firstId)[i].name) == Some(BaseCharacters[i])
    ensures Rested(GenerateTeam(team, row, firstId)[i])
  {
    assert GenerateTeam(team, row, firstId)[i] == Spawn(BaseCharacters[i], firstId + i, i, row, team);
    SpawnRested(i, firstId + i, i, row, team);
  }
}
