/** Small concrete situations that show what the validator does with typical
    client messages, including the behaviours a reader of the rules might
    not expect. Every unit in a scenario is of one catalog archetype, number
    `k`, so each lemma holds for all eight of them. */
module Scenarios {
  import opened Wrappers
  import opened Seqs
  import opened Roster
  import opened Validator

  /** A freshly generated unit of archetype number `k`. */
  function Piece(k: nat, id: int, x: int, y: int, team: Team): Unit
    requires k < |BaseCharacters|
  {
    Spawn(BaseCharacters[k], id, x, y, team)
  }

  lemma PieceFacts(k: nat)
    requires k < |BaseCharacters|
    ensures FindArchetype(BaseCharacters[k].name) == Some(BaseCharacters[k])
    ensures BaseCharacters[k].maxHp > BaseCharacters[k].atk > 0 && BaseCharacters[k].moveRange >= 1
  {
    CatalogLookup(k);
    CatalogPositive(k);
  }

  /** Two living units on different tiles pass the occupancy test. */
  lemma PairPositionsUnique(u: Unit, v: Unit)
    requires Alive(u) && Alive(v) && (u.x, u.y) != (v.x, v.y)
    ensures PositionsUnique([u, v])
  {
    assert [u, v][1..] == [v] && [v][1..] == [];
    assert AlivePositions([v]) == [(v.x, v.y)] + AlivePositions([]);
    assert AlivePositions([u, v]) == [(u.x, u.y)] + AlivePositions([v]);
    assert Elements(AlivePositions([u, v])) == {(u.x, u.y), (v.x, v.y)};
  }

  /** Two units of archetype `k`, one a side, A to move, no winner. */
  function Opening(k: nat): GameState
    requires k < |BaseCharacters|
  {
    GameState([Piece(k, 1, 0, 0, A), Piece(k, 2, 0, 7, B)], A, None)
  }

  /** A's unit one tile sideways, to column `column`, with one move spent. */
  function Stepped(k: nat, column: int): seq<Unit>
    requires k < |BaseCharacters| && Abs(column) == 1
  {
    [Piece(k, 1, column, 0, A).(movesLeft := BaseCharacters[k].moveRange - 1), Piece(k, 2, 0, 7, B)]
  }

  lemma SteppedPass(k: nat, column: int)
    requires k < |BaseCharacters| && Abs(column) == 1
    ensures UnitPass(Opening(k).characters, Stepped(k, column)) == PassResult(true, Opening(k).characters, Stepped(k, column))
  {
    PieceFacts(k);
    var s, props, arch := Opening(k).characters, Stepped(k, column), BaseCharacters[k];
    assert IndexOfId(s, 1) == Some(0) && IndexOfId(s, 2) == Some(1);
    assert s[0 := s[0]] == s && s[1 := s[1]] == s;
    PassStep(s, props, 0, arch);
    PassStep(s, props[1..], 1, arch);
    assert props[1..][1..] == [];
    PassEmpty(s);
  }

  lemma SteppedChecks(k: nat, column: int)
    requires k < |BaseCharacters| && Abs(column) == 1
    ensures var s, props := Opening(k).characters, Stepped(k, column);
      && PositionsUnique(props)
      && AttacksSubstantiated(s, props)
      && TurnRulesHold(s, props, A, A)
      && DetectWinner(props) == None
  {
    PieceFacts(k);
    var s, props := Opening(k).characters, Stepped(k, column);
    PairPositionsUnique(props[0], props[1]);
    assert IndexOfId(s, 1) == Some(0) && IndexOfId(s, 2) == Some(1);
    assert !IsAttacker(s, props[0]) && !IsAttacker(s, props[1]);
    assert MidTurnOk(s, props[0], A) && MidTurnOk(s, props[1], A);
    assert TeamAlive(props, A) && TeamAlive(props, B);
  }

  /** A move of one tile, within range, is accepted and committed as sent. */
  lemma LegalMoveAccepted(k: nat)
    requires k < |BaseCharacters|
    ensures Validate(Opening(k), Proposal(Some(Stepped(k, 1)), Some(A)), A) == Outcome(true, GameState(Stepped(k, 1), A, None))
  {
    SteppedPass(k, 1);
    SteppedChecks(k, 1);
  }

  /** Nothing checks the board edges: a step from column 0 to column -1 is
      accepted and committed. */
  lemma OffBoardMoveAccepted(k: nat)
    requires k < |BaseCharacters|
    ensures var props := Stepped(k, -1);
      && props[0].x < 0
      && Validate(Opening(k), Proposal(Some(props), Some(A)), A) == Outcome(true, GameState(props, A, None))
  {
    SteppedPass(k, -1);
    SteppedChecks(k, -1);
  }

  /** A game that already has a winner still accepts moves: nothing in the
      validator rejects updates once the match is decided. */
  lemma MovesAfterWinAccepted(k: nat)
    requires k < |BaseCharacters|
    ensures var g := Opening(k).(winner := Some(B));
      Validate(g, Proposal(Some(Stepped(k, 1)), Some(A)), A) == Outcome(true, GameState(Stepped(k, 1), A, Some(B)))
  {
    SteppedPass(k, 1);
    SteppedChecks(k, 1);
  }

  /** Walking one tile further than the move range is refused, and nothing
      is written. */
  lemma OverreachRejected(k: nat)
    requires k < |BaseCharacters|
    ensures var m := BaseCharacters[k].moveRange;
      var props := [Piece(k, 1, m + 1, 0, A).(movesLeft := 0)];
      Validate(Opening(k), Proposal(Some(props), Some(A)), A) == Outcome(false, Opening(k))
  {
    PieceFacts(k);
    var s, m := Opening(k).characters, BaseCharacters[k].moveRange;
    var props := [Piece(k, 1, m + 1, 0, A).(movesLeft := 0)];
    assert IndexOfId(s, 1) == Some(0);
    assert s[0 := s[0]] == s;
    PassStep(s, props, 0, BaseCharacters[k]);
    assert !MoveLegal(s[0], props[0]);
  }

  /** Two adjacent units, A to move. */
  function Skirmish(k: nat, enemyHp: int): GameState
    requires k < |BaseCharacters|
  {
    GameState([Piece(k, 1, 0, 0, A), Piece(k, 2, 0, 1, B).(hp := enemyHp)], A, None)
  }

  /** What a client sends after attacking the adjacent enemy: the attacker
      marked as having attacked, the enemy with one hit taken off. */
  function HitSent(k: nat): seq<Unit>
    requires k < |BaseCharacters|
  {
    var arch := BaseCharacters[k];
    [Piece(k, 1, 0, 0, A).(hasAttacked := true), Piece(k, 2, 0, 1, B).(hp := arch.maxHp - arch.atk)]
  }

  lemma HitSentPass(k: nat)
    requires k < |BaseCharacters|
    ensures var arch := BaseCharacters[k];
      var stored := Skirmish(k, arch.maxHp).characters;
      UnitPass(stored, HitSent(k)) == PassResult(true, Skirmish(k, arch.maxHp - arch.atk).characters, HitSent(k))
  {
    PieceFacts(k);
    var arch := BaseCharacters[k];
    var s, props := Skirmish(k, arch.maxHp).characters, HitSent(k);
    var s1 := s[1 := s[1].(hp := arch.maxHp - arch.atk)];
    assert IndexOfId(s, 1) == Some(0) && IndexOfId(s, 2) == Some(1);
    assert s[0 := s[0]] == s;
    PassStep(s, props, 0, arch);
    PassStep(s, props[1..], 1, arch);
    assert props[1..][1..] == [];
    PassEmpty(s1);
    assert s1 == Skirmish(k, arch.maxHp - arch.atk).characters;
  }

  lemma HitSentChecks(k: nat)
    requires k < |BaseCharacters|
    ensures var arch := BaseCharacters[k];
      var s1 := Skirmish(k, arch.maxHp - arch.atk).characters;
      PositionsUnique(HitSent(k)) && !AttacksSubstantiated(s1, HitSent(k))
  {
    PieceFacts(k);
    var arch := BaseCharacters[k];
    var props := HitSent(k);
    var s1 := Skirmish(k, arch.maxHp - arch.atk).characters;
    PairPositionsUnique(props[0], props[1]);
    assert IndexOfId(s1, 1) == Some(0) && IndexOfId(props, 2) == Some(1);
    assert IsAttacker(s1, props[0]);
    assert !HitConfirmed(s1[1], props, props[0].atk);
    assert !AttackSubstantiated(s1, props, props[0]);
  }

  /** An ordinary attack is refused: the enemy's reduced HP is written into
      the stored unit before the attack is checked, so the check sees no HP
      lost. The write survives the refusal: the enemy keeps the reduced HP
      while the attacker's attack is not recorded. */
  lemma OrdinaryAttackRejected(k: nat)
    requires k < |BaseCharacters|
    ensures var arch := BaseCharacters[k];
      var g := Skirmish(k, arch.maxHp);
      Validate(g, Proposal(Some(HitSent(k)), Some(A)), A) == Outcome(false, Skirmish(k, arch.maxHp - arch.atk))
  {
    HitSentPass(k);
    HitSentChecks(k);
    var arch := BaseCharacters[k];
    var g := Skirmish(k, arch.maxHp);
    RefusedByAttackCheck(g, HitSent(k));
  }

  /** An update from the team holding the turn whose per-unit pass and
      occupancy test succeed but whose attack check fails is refused, and the
      pass's HP writes are kept. */
  lemma RefusedByAttackCheck(g: GameState, props: seq<Unit>)
    requires UnitPass(g.characters, props).ok
    requires PositionsUnique(UnitPass(g.characters, props).clamped)
    requires !AttacksSubstantiated(UnitPass(g.characters, props).stored, UnitPass(g.characters, props).clamped)
    ensures Validate(g, Proposal(Some(props), Some(g.turn)), g.turn) == Outcome(false, g.(characters := UnitPass(g.characters, props).stored))
  {
  }

  /** `HitSent` with the enemy listed a second time, one tile further on with
      full HP and one move spent. */
  function HitListedTwice(k: nat): seq<Unit>
    requires k < |BaseCharacters|
  {
    var arch := BaseCharacters[k];
    HitSent(k) + [Piece(k, 2, 0, 2, B).(movesLeft := arch.moveRange - 1)]
  }

  /** The second listing writes the full HP back over the first listing's
      write, so the pass ends with the stored units it started from. */
  lemma HitListedTwicePass(k: nat)
    requires k < |BaseCharacters|
    ensures var stored := Skirmish(k, BaseCharacters[k].maxHp).characters;
      UnitPass(stored, HitListedTwice(k)) == PassResult(true, stored, HitListedTwice(k))
  {
    PieceFacts(k);
    var arch := BaseCharacters[k];
    var s, props := Skirmish(k, arch.maxHp).characters, HitListedTwice(k);
    var s1 := Skirmish(k, arch.maxHp - arch.atk).characters;
    assert IndexOfId(s, 1) == Some(0) && IndexOfId(s, 2) == Some(1) && IndexOfId(s1, 2) == Some(1);
    assert s[0 := s[0]] == s;
    assert s[1 := s[1].(hp := arch.maxHp - arch.atk)] == s1;
    assert s1[1 := s1[1].(hp := arch.maxHp)] == s;
    PassStep(s, props, 0, arch);
    PassStep(s, props[1..], 1, arch);
    PassStep(s1, props[1..][1..], 1, arch);
    assert props[1..][1..][1..] == [];
    PassEmpty(s);
  }

  lemma HitListedTwiceChecks(k: nat)
    requires k < |BaseCharacters|
    ensures var s, props := Skirmish(k, BaseCharacters[k].maxHp).characters, HitListedTwice(k);
      && PositionsUnique(props)
      && AttacksSubstantiated(s, props)
      && TurnRulesHold(s, props, A, A)
      && DetectWinner(props) == None
  {
    PieceFacts(k);
    var arch := BaseCharacters[k];
    var s, props := Skirmish(k, arch.maxHp).characters, HitListedTwice(k);
    assert props[1..][1..][1..] == [];
    assert AlivePositions(props[1..][1..]) == [(0, 2)] + AlivePositions(props[1..][1..][1..]);
    assert AlivePositions(props[1..]) == [(0, 1)] + AlivePositions(props[1..][1..]);
    assert AlivePositions(props) == [(0, 0), (0, 1), (0, 2)];
    assert Elements(AlivePositions(props)) == {(0, 0), (0, 1), (0, 2)};
    assert IndexOfId(s, 1) == Some(0) && IndexOfId(s, 2) == Some(1) && IndexOfId(props, 2) == Some(1);
    assert !IsAttacker(s, props[1]) && !IsAttacker(s, props[2]);
    assert HitConfirmed(s[1], props, arch.atk);
    assert Adjacent(s[1], s[0]);
    assert AttackSubstantiated(s, props, props[0]);
    assert MidTurnOk(s, props[0], A) && MidTurnOk(s, props[1], A) && MidTurnOk(s, props[2], A);
    assert TeamAlive(props, A) && TeamAlive(props, B);
  }

  /** An ordinary hit gets past the attack check when the enemy is listed
      twice: the second listing restores the stored HP before the check, and
      the check reads the HP of the first listing. The update is committed as
      sent, with the enemy on two tiles. */
  lemma HitListedTwiceAccepted(k: nat)
    requires k < |BaseCharacters|
    ensures Validate(Skirmish(k, BaseCharacters[k].maxHp), Proposal(Some(HitListedTwice(k)), Some(A)), A)
      == Outcome(true, GameState(HitListedTwice(k), A, None))
    ensures !DistinctIds(HitListedTwice(k))
  {
    HitListedTwicePass(k);
    HitListedTwiceChecks(k);
    assert HitListedTwice(k)[1].id == HitListedTwice(k)[2].id;
  }

  /** A kill reported by leaving the enemy out is accepted when the enemy's
      stored HP was at most the attack, and the attacking side wins. */
  lemma KillByOmissionWins(k: nat)
    requires k < |BaseCharacters|
    ensures var arch := BaseCharacters[k];
      var props := [Piece(k, 1, 0, 0, A).(hasAttacked := true)];
      Validate(Skirmish(k, arch.atk), Proposal(Some(props), Some(A)), A) == Outcome(true, GameState(props, A, Some(A)))
  {
    PieceFacts(k);
    var arch := BaseCharacters[k];
    var s := Skirmish(k, arch.atk).characters;
    var props := [Piece(k, 1, 0, 0, A).(hasAttacked := true)];
    assert IndexOfId(s, 1) == Some(0);
    assert s[0 := s[0]] == s;
    PassStep(s, props, 0, arch);
    assert props[1..] == [];
    PassEmpty(s);
    assert UnitPass(s, props) == PassResult(true, s, props);
    assert AlivePositions(props) == [(0, 0)];
    assert Elements(AlivePositions(props)) == {(0, 0)};
    assert IndexOfId(props, 2).None?;
    assert HitConfirmed(s[1], props, arch.atk);
    assert Adjacent(s[1], s[0]);
    assert AttackSubstantiated(s, props, props[0]);
    assert MidTurnOk(s, props[0], A);
    assert TeamAlive(props, A) && !TeamAlive(props, B);
  }

  /** Opening(k) with A's unit down to 1 HP. */
  function Wounded(k: nat): GameState
    requires k < |BaseCharacters|
  {
    var g := Opening(k);
    g.(characters := g.characters[0 := g.characters[0].(hp := 1)])
  }

  function Overheal(k: nat): seq<Unit>
    requires k < |BaseCharacters|
  {
    [Piece(k, 1, 0, 0, A).(hp := BaseCharacters[k].maxHp + 50), Piece(k, 2, 0, 7, B)]
  }

  lemma OverhealPass(k: nat)
    requires k < |BaseCharacters|
    ensures UnitPass(Wounded(k).characters, Overheal(k)) == PassResult(true, Opening(k).characters, Opening(k).characters)
  {
    PieceFacts(k);
    var g, arch := Opening(k), BaseCharacters[k];
    var s, props := Wounded(k).characters, Overheal(k);
    assert IndexOfId(s, 1) == Some(0);
    assert IndexOfId(g.characters, 2) == Some(1);
    PassStep(s, props, 0, arch);
    assert s[0 := s[0].(hp := arch.maxHp)] == g.characters;
    PassStep(g.characters, props[1..], 1, arch);
    assert g.characters[1 := g.characters[1]] == g.characters;
    assert props[1..][1..] == [];
    PassEmpty(g.characters);
  }

  /** A heal past the archetype maximum is cut down to the maximum. */
  lemma OverhealClamped(k: nat)
    requires k < |BaseCharacters|
    ensures Validate(Wounded(k), Proposal(Some(Overheal(k)), Some(A)), A) == Outcome(true, Opening(k))
  {
    OverhealPass(k);
    OpeningChecks(k);
  }

  lemma OpeningChecks(k: nat)
    requires k < |BaseCharacters|
    ensures var s := Opening(k).characters;
      && PositionsUnique(s)
      && AttacksSubstantiated(s, s)
      && TurnRulesHold(s, s, A, A)
      && DetectWinner(s) == None
  {
    var s := Opening(k).characters;
    PieceFacts(k);
    PairPositionsUnique(s[0], s[1]);
    assert IndexOfId(s, 1) == Some(0) && IndexOfId(s, 2) == Some(1);
    assert !IsAttacker(s, s[0]) && !IsAttacker(s, s[1]);
    assert MidTurnOk(s, s[0], A) && MidTurnOk(s, s[1], A);
    assert TeamAlive(s, A) && TeamAlive(s, B);
  }

  /** An empty unit list is accepted, and with no unit of B alive the win
      goes to A, whoever sent it. */
  lemma EmptyProposalWinsForA(g: GameState)
    requires g.winner.None?
    ensures Validate(g, Proposal(Some([]), Some(g.turn)), g.turn) == Outcome(true, GameState([], g.turn, Some(A)))
  {
    PassEmpty(g.characters);
    assert AlivePositions([]) == [];
    assert Elements<(int, int)>([]) == {};
    assert !TeamAlive([], B);
  }

  function Duplicated(k: nat): seq<Unit>
    requires k < |BaseCharacters|
  {
    [Piece(k, 1, 0, 0, A), Piece(k, 1, 0, 0, A).(hp := 0), Piece(k, 2, 0, 7, B)]
  }

  lemma DuplicatedPass(k: nat)
    requires k < |BaseCharacters|
    ensures var s := Opening(k).characters;
      UnitPass(s, Duplicated(k)) == PassResult(true, s[0 := s[0].(hp := 0)], Duplicated(k))
  {
    PieceFacts(k);
    var arch, s, props := BaseCharacters[k], Opening(k).characters, Duplicated(k);
    var s1 := s[0 := s[0].(hp := 0)];
    assert IndexOfId(s, 1) == Some(0) && IndexOfId(s1, 2) == Some(1);
    assert s[0 := s[0]] == s && s1[1 := s1[1]] == s1;
    PassStep(s, props, 0, arch);
    PassStep(s, props[1..], 0, arch);
    PassStep(s1, props[1..][1..], 1, arch);
    assert props[1..][1..][1..] == [];
    PassEmpty(s1);
  }

  lemma DuplicatedChecks(k: nat)
    requires k < |BaseCharacters|
    ensures var s := Opening(k).characters;
      var s1, props := s[0 := s[0].(hp := 0)], Duplicated(k);
      && PositionsUnique(props)
      && AttacksSubstantiated(s1, props)
      && TurnRulesHold(s1, props, A, A)
      && DetectWinner(props) == None
  {
    PieceFacts(k);
    var s := Opening(k).characters;
    var s1, props := s[0 := s[0].(hp := 0)], Duplicated(k);
    assert props[1..][1..][1..] == [];
    assert AlivePositions(props[1..][1..]) == [(0, 7)] + AlivePositions(props[1..][1..][1..]);
    assert AlivePositions(props[1..]) == AlivePositions(props[1..][1..]);
    assert AlivePositions(props) == [(0, 0), (0, 7)];
    assert Elements(AlivePositions(props)) == {(0, 0), (0, 7)};
    assert IndexOfId(s1, 1) == Some(0) && IndexOfId(s1, 2) == Some(1);
    assert !IsAttacker(s1, props[0]) && !IsAttacker(s1, props[1]) && !IsAttacker(s1, props[2]);
    assert MidTurnOk(s1, props[0], A) && MidTurnOk(s1, props[1], A) && MidTurnOk(s1, props[2], A);
    assert TeamAlive(props, A) && TeamAlive(props, B);
  }

  /** The same id may be listed twice; the list is committed as sent, so the
      stored state then holds two units with one id. */
  lemma DuplicateIdsCommitted(k: nat)
    requires k < |BaseCharacters|
    ensures Validate(Opening(k), Proposal(Some(Duplicated(k)), Some(A)), A) == Outcome(true, GameState(Duplicated(k), A, None))
    ensures !DistinctIds(Duplicated(k))
  {
    DuplicatedPass(k);
    DuplicatedChecks(k);
    assert Duplicated(k)[0].id == Duplicated(k)[1].id;
  }
}
