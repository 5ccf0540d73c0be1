/** The state-transition validator `validateAndUpdateGameRoom`
    (server.js lines 101-284; backend/server.js lines 47-230 is the same
    function). It never hears which move a client made: it compares the stored
    snapshot with the proposed one and infers moves and attacks from the
    difference.

    The source mutates the stored units while it checks them (each proposed
    unit's HP is written into the first stored unit with the same id before
    that unit's move is checked), so a rejection can still leave HP changes
    behind. `Validate` therefore answers with the acceptance flag together
    with the stored state as it is afterwards. */
module Validator {
  import opened Wrappers
  import opened Seqs
  import opened Roster

  /** `room.gameState`: the units, whose turn it is and the winner, if any. */
  datatype GameState = GameState(characters: seq<Unit>, turn: Team, winner: Option<Team>)

  /** The client's `newState`; either field may be missing from the message. */
  datatype Proposal = Proposal(characters: Option<seq<Unit>>, turn: Option<Team>)

  /** Whether the update was accepted, and the stored state afterwards. */
  datatype Outcome = Outcome(accepted: bool, state: GameState)

  /* ---------------------------------------------------------------------- */
  /* Identity lookup                                                         */

  /** Position of the first unit with the given id:
      `units.find(c => c.id === id)` as an index. */
  function IndexOfId(units: seq<Unit>, id: int): (r: Option<nat>)
    ensures r.Some? ==> r.value < |units| && units[r.value].id == id
    ensures r.Some? ==> forall j | 0 <= j < r.value :: units[j].id != id
    ensures r.None? <==> forall j | 0 <= j < |units| :: units[j].id != id
  {
    if |units| == 0 then None
    else if units[0].id == id then Some(0)
    else match IndexOfId(units[1..], id)
      case None => None
      case Some(j) => Some(j + 1)
  }

  /** No id occurs twice. The source never checks this of a proposal. */
  predicate DistinctIds(units: seq<Unit>)
  {
    forall i, j | 0 <= i < j < |units| :: units[i].id != units[j].id
  }

  /** `after` is `before` with at most its HP replaced. */
  predicate SameButHp(before: Unit, after: Unit)
  {
    before.(hp := after.hp) == after
  }

  /** The two lists hold the same units in the same order, up to HP. */
  predicate HpOnlyChanged(before: seq<Unit>, after: seq<Unit>)
  {
    && |before| == |after|
    && forall i | 0 <= i < |before| :: SameButHp(before[i], after[i])
  }

  lemma HpOnlyChangedTransitive(s1: seq<Unit>, s2: seq<Unit>, s3: seq<Unit>)
    requires HpOnlyChanged(s1, s2) && HpOnlyChanged(s2, s3)
    ensures HpOnlyChanged(s1, s3)
  {
    forall i | 0 <= i < |s1|
      ensures SameButHp(s1[i], s3[i])
    {
      assert SameButHp(s1[i], s2[i]) && SameButHp(s2[i], s3[i]);
    }
  }

  /** Lookups by id do not see HP. */
  lemma {:induction false} IndexOfIdIgnoresHp(s1: seq<Unit>, s2: seq<Unit>, id: int)
    requires HpOnlyChanged(s1, s2)
    ensures IndexOfId(s1, id) == IndexOfId(s2, id)
  {
    if |s1| > 0 {
      assert SameButHp(s1[0], s2[0]);
      assert HpOnlyChanged(s1[1..], s2[1..]) by {
        forall i | 0 <= i < |s1| - 1 ensures SameButHp(s1[1..][i], s2[1..][i]) {
          assert SameButHp(s1[i + 1], s2[i + 1]);
        }
      }
      IndexOfIdIgnoresHp(s1[1..], s2[1..], id);
    }
  }

  /* ---------------------------------------------------------------------- */
  /* Per-unit pass (server.js lines 115-159)                                 */

  /** The HP the source keeps for a proposed value: a heal above both the
      stored HP and the archetype maximum is cut down to the maximum; any
      other value, including every decrease, is kept as proposed. */
  function Clamp(proposed: int, stored: int, maxHp: int): int
  {
    if proposed > stored && proposed > maxHp then maxHp else proposed
  }

  /** The movement checks of one proposed unit `p` against its stored unit:
      moves left never grow, the Manhattan distance walked is at most the moves
      that were left, exactly that distance is deducted, and an attack already
      made is not taken back. */
  predicate MoveLegal(prior: Unit, p: Unit)
  {
    && p.movesLeft <= prior.movesLeft
    && Distance(p, prior) <= prior.movesLeft
    && p.movesLeft == prior.movesLeft - Distance(p, prior)
    && (prior.hasAttacked ==> p.hasAttacked)
  }

  /** Everything the per-unit pass demands of one proposed unit: a stored unit
      with its id exists, the first such unit has the same team and a name
      found in the catalog, and the move from it is legal. */
  predicate UnitLegal(stored: seq<Unit>, p: Unit)
  {
    match IndexOfId(stored, p.id)
    case None => false
    case Some(i) =>
      && p.team == stored[i].team
      && FindArchetype(stored[i].name).Some?
      && MoveLegal(stored[i], p)
  }

  lemma UnitLegalIgnoresHp(s1: seq<Unit>, s2: seq<Unit>, p: Unit)
    requires HpOnlyChanged(s1, s2)
    ensures UnitLegal(s1, p) == UnitLegal(s2, p)
  {
    IndexOfIdIgnoresHp(s1, s2, p.id);
    match IndexOfId(s1, p.id)
    case None =>
    case Some(i) =>
      assert SameButHp(s1[i], s2[i]);
  }

  /** What the per-unit pass leaves behind: whether every proposed unit passed,
      the stored units with the HP writes made so far, and the proposed units
      with clamped HP (meaningful only when `ok`). */
  datatype PassResult = PassResult(ok: bool, stored: seq<Unit>, clamped: seq<Unit>)

  /** The loop over the proposed units (server.js lines 115-159), left to
      right. For each unit: find the first stored unit with its id (none:
      reject), compare teams (different: reject), look the stored unit's name
      up in the catalog (missing: reject), write the clamped HP into that
      stored unit, then check the move (illegal: reject). The HP write happens
      before the move check and is kept on rejection. */
  function UnitPass(stored: seq<Unit>, props: seq<Unit>): (r: PassResult)
    ensures |r.stored| == |stored|
    ensures r.ok ==> |r.clamped| == |props|
    decreases |props|
  {
    if |props| == 0 then PassResult(true, stored, [])
    else
      var p := props[0];
      match IndexOfId(stored, p.id)
      case None => PassResult(false, stored, [])
      case Some(i) =>
        var prior := stored[i];
        if p.team != prior.team then PassResult(false, stored, [])
        else
          match FindArchetype(prior.name)
          case None => PassResult(false, stored, [])
          case Some(arch) =>
            var hp := Clamp(p.hp, prior.hp, arch.maxHp);
            var written := stored[i := prior.(hp := hp)];
            if !MoveLegal(prior, p) then PassResult(false, written, [])
            else
              var rest := UnitPass(written, props[1..]);
              PassResult(rest.ok, rest.stored, [p.(hp := hp)] + rest.clamped)
  }

  /** One step of the per-unit pass for a proposed unit whose stored unit,
      team and archetype check out. */
  lemma PassStep(s: seq<Unit>, props: seq<Unit>, i: nat, arch: Archetype)
    requires |props| > 0 && IndexOfId(s, props[0].id) == Some(i)
    requires props[0].team == s[i].team && FindArchetype(s[i].name) == Some(arch)
    ensures var hp := Clamp(props[0].hp, s[i].hp, arch.maxHp);
      var written := s[i := s[i].(hp := hp)];
      UnitPass(s, props) ==
        if !MoveLegal(s[i], props[0]) then PassResult(false, written, [])
        else
          var rest := UnitPass(written, props[1..]);
          PassResult(rest.ok, rest.stored, [props[0].(hp := hp)] + rest.clamped)
  {
  }

  lemma PassEmpty(s: seq<Unit>)
    ensures UnitPass(s, []) == PassResult(true, s, [])
  {
  }

  /** Without repeated ids, the proposal minus its first unit has no repeated
      ids and none equal to the first unit's. */
  lemma DistinctTail(props: seq<Unit>)
    requires DistinctIds(props) && |props| > 0
    ensures DistinctIds(props[1..])
    ensures forall k | 0 <= k < |props[1..]| :: props[1..][k].id != props[0].id && props[1..][k] == props[k + 1]
  {
  }

  /** The clamped list keeps each proposed unit up to a lower or equal HP. */
  ghost predicate ClampedFrom(props: seq<Unit>, clamped: seq<Unit>)
  {
    |clamped| == |props| &&
    forall k | 0 <= k < |props| :: SameButHp(props[k], clamped[k]) && clamped[k].hp <= props[k].hp
  }

  lemma ClampedCons(props: seq<Unit>, c: Unit, rest: seq<Unit>, ok: bool)
    requires |props| > 0 && SameButHp(props[0], c) && c.hp <= props[0].hp
    requires ok ==> ClampedFrom(props[1..], rest)
    ensures ok ==> ClampedFrom(props, [c] + rest)
  {
    if ok {
      forall k | 0 < k < |props| ensures SameButHp(props[k], ([c] + rest)[k]) && ([c] + rest)[k].hp <= props[k].hp {
        assert props[k] == props[1..][k - 1] && ([c] + rest)[k] == rest[k - 1];
      }
    }
  }

  /** A proposal is legal unit by unit exactly when its first unit is legal
      and the rest is legal against stored units that differ only in HP. */
  lemma LegalTail(stored: seq<Unit>, written: seq<Unit>, props: seq<Unit>)
    requires HpOnlyChanged(stored, written) && |props| > 0
    ensures (forall k | 0 <= k < |props| :: UnitLegal(stored, props[k])) <==>
      UnitLegal(stored, props[0]) && forall k | 0 <= k < |props[1..]| :: UnitLegal(written, props[1..][k])
  {
    forall k | 0 <= k < |props[1..]|
      ensures UnitLegal(written, props[1..][k]) == UnitLegal(stored, props[k + 1])
    {
      assert props[1..][k] == props[k + 1];
      UnitLegalIgnoresHp(stored, written, props[k + 1]);
    }
    if UnitLegal(stored, props[0]) && forall k | 0 <= k < |props[1..]| :: UnitLegal(written, props[1..][k]) {
      forall k | 0 <= k < |props| ensures UnitLegal(stored, props[k]) {
        if k > 0 {
          assert UnitLegal(written, props[1..][k - 1]);
        }
      }
    }
  }

  /** The pass changes the stored units in HP only: nothing is added,
      removed, reordered, moved or renamed. */
  lemma {:induction false} PassWritesOnlyHp(stored: seq<Unit>, props: seq<Unit>)
    ensures HpOnlyChanged(stored, UnitPass(stored, props).stored)
    decreases |props|
  {
    if |props| > 0 {
      match IndexOfId(stored, props[0].id)
      case None =>
      case Some(i) =>
        if props[0].team == stored[i].team && FindArchetype(stored[i].name).Some? {
          var arch := FindArchetype(stored[i].name).value;
          var written := stored[i := stored[i].(hp := Clamp(props[0].hp, stored[i].hp, arch.maxHp))];
          assert HpOnlyChanged(stored, written);
          PassStep(stored, props, i, arch);
          if MoveLegal(stored[i], props[0]) {
            PassWritesOnlyHp(written, props[1..]);
            HpOnlyChangedTransitive(stored, written, UnitPass(written, props[1..]).stored);
          }
        }
    }
  }

  /** The pass succeeds exactly when every proposed unit is legal against
      the stored units as they were before the pass: the HP writes made on
      the way never change the outcome of a later unit's checks. */
  lemma {:induction false} PassOkMeansLegal(stored: seq<Unit>, props: seq<Unit>)
    ensures UnitPass(stored, props).ok <==> forall k | 0 <= k < |props| :: UnitLegal(stored, props[k])
    decreases |props|
  {
    if |props| > 0 {
      match IndexOfId(stored, props[0].id)
      case None =>
      case Some(i) =>
        if props[0].team == stored[i].team && FindArchetype(stored[i].name).Some? {
          var arch := FindArchetype(stored[i].name).value;
          var written := stored[i := stored[i].(hp := Clamp(props[0].hp, stored[i].hp, arch.maxHp))];
          assert HpOnlyChanged(stored, written);
          PassStep(stored, props, i, arch);
          LegalTail(stored, written, props);
          if MoveLegal(stored[i], props[0]) {
            PassOkMeansLegal(written, props[1..]);
          }
        }
    }
  }

  /** A successful pass commits every proposed unit in order, changed in HP
      only, and never with more HP than proposed. */
  lemma {:induction false} PassClampedFrom(stored: seq<Unit>, props: seq<Unit>)
    ensures UnitPass(stored, props).ok ==> ClampedFrom(props, UnitPass(stored, props).clamped)
    decreases |props|
  {
    if |props| > 0 {
      match IndexOfId(stored, props[0].id)
      case None =>
      case Some(i) =>
        if props[0].team == stored[i].team && FindArchetype(stored[i].name).Some? {
          var arch := FindArchetype(stored[i].name).value;
          var hp := Clamp(props[0].hp, stored[i].hp, arch.maxHp);
          var written := stored[i := stored[i].(hp := hp)];
          PassStep(stored, props, i, arch);
          if MoveLegal(stored[i], props[0]) {
            var rest := UnitPass(written, props[1..]);
            PassClampedFrom(written, props[1..]);
            ClampedCons(props, props[0].(hp := hp), rest.clamped, rest.ok);
          }
        }
    }
  }

  /** The three facts above, together. */
  lemma PassFacts(stored: seq<Unit>, props: seq<Unit>)
    ensures HpOnlyChanged(stored, UnitPass(stored, props).stored)
    ensures UnitPass(stored, props).ok <==> forall k | 0 <= k < |props| :: UnitLegal(stored, props[k])
    ensures UnitPass(stored, props).ok ==> ClampedFrom(props, UnitPass(stored, props).clamped)
  {
    PassWritesOnlyHp(stored, props);
    PassOkMeansLegal(stored, props);
    PassClampedFrom(stored, props);
  }

  /* ---------------------------------------------------------------------- */
  /* Occupancy (server.js lines 161-166)                                     */

  /** `newChars.filter(c => c.hp > 0).map(c => `${c.x},${c.y}`)`, with the
      string key replaced by the coordinate pair it encodes one-to-one. */
  function AlivePositions(units: seq<Unit>): seq<(int, int)>
  {
    if |units| == 0 then []
    else (if Alive(units[0]) then [(units[0].x, units[0].y)] else []) + AlivePositions(units[1..])
  }

  /** The source's test: a set built from the positions is as large as the
      list of positions. */
  predicate PositionsUnique(units: seq<Unit>)
  {
    |Elements(AlivePositions(units))| == |AlivePositions(units)|
  }

  /** No two living units share a tile. */
  predicate NoCollision(units: seq<Unit>)
  {
    forall i, j | 0 <= i < j < |units| && Alive(units[i]) && Alive(units[j]) ::
      (units[i].x, units[i].y) != (units[j].x, units[j].y)
  }

  /* ---------------------------------------------------------------------- */
  /* Attack inference (server.js lines 168-205)                              */

  /** A proposed unit that has attacked now, had not before, and is alive. */
  predicate IsAttacker(stored: seq<Unit>, p: Unit)
  {
    match IndexOfId(stored, p.id)
    case None => false
    case Some(i) => !stored[i].hasAttacked && p.hasAttacked && Alive(p)
  }

  /** The hit test for one enemy `e` (a stored unit) against attack power
      `atk`: an enemy missing from the proposal must have had at most `atk`
      HP; one still present must have lost exactly `atk`, or have been brought
      from positive HP to at most 0 by a hit of at least its HP. */
  predicate HitConfirmed(e: Unit, props: seq<Unit>, atk: int)
  {
    match IndexOfId(props, e.id)
    case None => e.hp <= atk
    case Some(j) =>
      || e.hp - props[j].hp == atk
      || (e.hp > 0 && props[j].hp <= 0 && e.hp <= atk)
  }

  /** Some living stored enemy adjacent to the attacker's stored position
      passes the hit test with the attack power of the PROPOSED attacker. */
  predicate AttackSubstantiated(stored: seq<Unit>, props: seq<Unit>, attacker: Unit)
  {
    match IndexOfId(stored, attacker.id)
    case None => false
    case Some(i) =>
      exists j | 0 <= j < |stored| ::
        && stored[j].team != attacker.team
        && Adjacent(stored[j], stored[i])
        && Alive(stored[j])
        && HitConfirmed(stored[j], props, attacker.atk)
  }

  predicate AttacksSubstantiated(stored: seq<Unit>, props: seq<Unit>)
  {
    forall k | 0 <= k < |props| :: IsAttacker(stored, props[k]) ==> AttackSubstantiated(stored, props, props[k])
  }

  /* ---------------------------------------------------------------------- */
  /* Turn rules (server.js lines 207-262)                                    */

  /** On a hand-off to `next`: units of `next` must be rested (archetype looked
      up by the PROPOSED name); units of the other team must not have gained
      moves or taken back an attack. */
  predicate HandOffOk(stored: seq<Unit>, p: Unit, next: Team)
  {
    match IndexOfId(stored, p.id)
    case None => false
    case Some(i) =>
      if p.team == next then Rested(p)
      else p.movesLeft <= stored[i].movesLeft && (stored[i].hasAttacked ==> p.hasAttacked)
  }

  /** Without a hand-off: units of the acting team must not have gained moves
      or taken back an attack. */
  predicate MidTurnOk(stored: seq<Unit>, p: Unit, current: Team)
  {
    match IndexOfId(stored, p.id)
    case None => false
    case Some(i) =>
      p.team == current ==> p.movesLeft <= stored[i].movesLeft && (stored[i].hasAttacked ==> p.hasAttacked)
  }

  predicate TurnRulesHold(stored: seq<Unit>, props: seq<Unit>, current: Team, next: Team)
  {
    if next != current then
      && next == Other(current)
      && forall k | 0 <= k < |props| :: HandOffOk(stored, props[k], next)
    else
      forall k | 0 <= k < |props| :: MidTurnOk(stored, props[k], current)
  }

  /* ---------------------------------------------------------------------- */
  /* Winner (server.js lines 264-272)                                        */

  predicate TeamAlive(units: seq<Unit>, t: Team)
  {
    exists k | 0 <= k < |units| :: units[k].team == t && Alive(units[k])
  }

  /** `if (!aliveA) winner = 'B'; if (!aliveB) winner = 'A';` */
  function DetectWinner(units: seq<Unit>): Option<Team>
  {
    if !TeamAlive(units, B) then Some(A)
    else if !TeamAlive(units, A) then Some(B)
    else None
  }

  /** `room.gameState.winner || winner`. */
  function KeepWinner(previous: Option<Team>, units: seq<Unit>): Option<Team>
  {
    if previous.Some? then previous else DetectWinner(units)
  }

  /* ---------------------------------------------------------------------- */
  /* The validator                                                           */

  /** `validateAndUpdateGameRoom(room, newState, playerTeam)` on the stored
      state `g`. A malformed proposal or one sent out of turn is refused
      before anything is written. Any later refusal keeps the turn and the
      winner but may keep HP writes. An acceptance commits the proposal with
      clamped HP, the proposed turn, and a winner that is never replaced once
      set. */
  function Validate(g: GameState, p: Proposal, team: Team): (r: Outcome)
    ensures p.characters.None? || p.turn.None? || team != g.turn ==> r == Outcome(false, g)
    ensures !r.accepted ==> r.state.turn == g.turn && r.state.winner == g.winner
    ensures !r.accepted ==> HpOnlyChanged(g.characters, r.state.characters)
    ensures r.accepted ==> p.characters.Some? && p.turn == Some(r.state.turn) && team == g.turn
    ensures r.accepted ==> HpOnlyChanged(p.characters.value, r.state.characters)
    ensures g.winner.Some? ==> r.state.winner == g.winner
    ensures r.accepted && g.winner.None? ==>
      (r.state.winner == Some(A) <==> !TeamAlive(r.state.characters, B))
    ensures r.accepted && g.winner.None? ==>
      (r.state.winner == Some(B) <==> TeamAlive(r.state.characters, B) && !TeamAlive(r.state.characters, A))
  {
    if p.characters.None? || p.turn.None? then Outcome(false, g)
    else if team != g.turn then Outcome(false, g)
    else
      var props := p.characters.value;
      var pass := UnitPass(g.characters, props);
      PassFacts(g.characters, props);
      var touched := g.(characters := pass.stored);
      if !pass.ok then Outcome(false, touched)
      else if !PositionsUnique(pass.clamped) then Outcome(false, touched)
      else if !AttacksSubstantiated(pass.stored, pass.clamped) then Outcome(false, touched)
      else if !TurnRulesHold(pass.stored, pass.clamped, g.turn, p.turn.value) then Outcome(false, touched)
      else
        assert HpOnlyChanged(props, pass.clamped) by {
          forall k | 0 <= k < |props| ensures SameButHp(props[k], pass.clamped[k]) {
            assert ClampedFrom(props, pass.clamped);
          }
        }
        Outcome(true, GameState(pass.clamped, p.turn.value, KeepWinner(g.winner, pass.clamped)))
  }
}
