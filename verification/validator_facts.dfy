/** Properties of `Validator.Validate`: what an accepted update guarantees,
    how the HP written during the checks interacts with the attack inference,
    and how a rejected update behaves when it is sent again. */
module ValidatorFacts {
  import opened Wrappers
  import opened Roster
  import opened Seqs
  import opened Validator

  /* ---------------------------------------------------------------------- */
  /* Occupancy: the set-size test means "no two living units on one tile"    */

  lemma {:induction false} AlivePositionsMember(units: seq<Unit>, pos: (int, int))
    ensures pos in AlivePositions(units) <==>
      exists k | 0 <= k < |units| :: Alive(units[k]) && (units[k].x, units[k].y) == pos
  {
    if |units| > 0 {
      var t := units[1..];
      AlivePositionsMember(t, pos);
      if exists k | 0 <= k < |t| :: Alive(t[k]) && (t[k].x, t[k].y) == pos {
        var k :| 0 <= k < |t| && Alive(t[k]) && (t[k].x, t[k].y) == pos;
        assert units[k + 1] == t[k];
      }
      if exists k | 0 <= k < |units| :: Alive(units[k]) && (units[k].x, units[k].y) == pos {
        var k :| 0 <= k < |units| && Alive(units[k]) && (units[k].x, units[k].y) == pos;
        if k > 0 {
          assert t[k - 1] == units[k];
        }
      }
    }
  }

  lemma {:induction false} NoDupAlivePositions(units: seq<Unit>)
    ensures NoDup(AlivePositions(units)) <==> NoCollision(units)
  {
    if |units| > 0 {
      var u := units[0];
      var t := units[1..];
      NoDupAlivePositions(t);
      assert NoCollision(units) ==> NoCollision(t) by {
        if NoCollision(units) {
          forall i, j | 0 <= i < j < |t| && Alive(t[i]) && Alive(t[j])
            ensures (t[i].x, t[i].y) != (t[j].x, t[j].y)
          {
            assert t[i] == units[i + 1] && t[j] == units[j + 1];
          }
        }
      }
      if Alive(u) {
        var pos := (u.x, u.y);
        assert AlivePositions(units) == [pos] + AlivePositions(t);
        NoDupCons(pos, AlivePositions(t));
        AlivePositionsMember(t, pos);
        if pos !in AlivePositions(t) && NoCollision(t) {
          forall i, j | 0 <= i < j < |units| && Alive(units[i]) && Alive(units[j])
            ensures (units[i].x, units[i].y) != (units[j].x, units[j].y)
          {
            assert units[j] == t[j - 1];
            if i > 0 {
              assert units[i] == t[i - 1];
            }
          }
        }
      } else {
        assert AlivePositions(units) == AlivePositions(t);
        if NoCollision(t) {
          forall i, j | 0 <= i < j < |units| && Alive(units[i]) && Alive(units[j])
            ensures (units[i].x, units[i].y) != (units[j].x, units[j].y)
          {
            assert units[i] == t[i - 1] && units[j] == t[j - 1];
          }
        }
      }
    }
  }

  /** The source's occupancy test (a `Set` of "x,y" keys as large as the list
      of keys) holds exactly when no two living units share a tile. */
  lemma PositionsUniqueMeansNoCollision(units: seq<Unit>)
    ensures PositionsUnique(units) <==> NoCollision(units)
  {
    ElementsCount(AlivePositions(units));
    NoDupAlivePositions(units);
  }
}

module ValidatorAcceptance {
  import opened Wrappers
  import opened Roster
  import opened Validator
  import opened ValidatorFacts

  /** The first stored unit with the id of `c`, which must exist. */
  function PriorOf(stored: seq<Unit>, c: Unit): Unit
    requires IndexOfId(stored, c.id).Some?
  {
    stored[IndexOfId(stored, c.id).value]
  }

  /** The meaning of `UnitLegal`, spelled out. */
  lemma UnitLegalMeaning(stored: seq<Unit>, c: Unit)
    requires UnitLegal(stored, c)
    ensures IndexOfId(stored, c.id).Some?
    ensures c.team == PriorOf(stored, c).team
    ensures Distance(c, PriorOf(stored, c)) <= PriorOf(stored, c).movesLeft
    ensures c.movesLeft == PriorOf(stored, c).movesLeft - Distance(c, PriorOf(stored, c))
    ensures PriorOf(stored, c).hasAttacked ==> c.hasAttacked
  {
  }

  /** What an acceptance is made of: the per-unit pass succeeded, the
      occupancy, attack and turn checks held on its output, and its clamped
      units are what is committed. */
  lemma AcceptedFromPass(g: GameState, p: Proposal, team: Team)
    requires Validate(g, p, team).accepted
    ensures p.characters.Some? && p.turn.Some?
    ensures var pass := UnitPass(g.characters, p.characters.value);
      && pass.ok
      && PositionsUnique(pass.clamped)
      && AttacksSubstantiated(pass.stored, pass.clamped)
      && TurnRulesHold(pass.stored, pass.clamped, g.turn, p.turn.value)
      && Validate(g, p, team).state == GameState(pass.clamped, p.turn.value, KeepWinner(g.winner, pass.clamped))
  {
  }

  /** A successful pass commits only units that pass the per-unit checks. */
  lemma ClampedLegal(stored: seq<Unit>, props: seq<Unit>)
    requires UnitPass(stored, props).ok
    ensures forall k | 0 <= k < |props| :: UnitLegal(stored, UnitPass(stored, props).clamped[k])
  {
    var pass := UnitPass(stored, props);
    PassFacts(stored, props);
    forall k | 0 <= k < |props| ensures UnitLegal(stored, pass.clamped[k]) {
      assert UnitLegal(stored, props[k]);
      assert SameButHp(props[k], pass.clamped[k]);
    }
  }

  /** Every committed unit of an accepted update passed the per-unit checks. */
  lemma AcceptedUnitsLegal(g: GameState, p: Proposal, team: Team)
    ensures var r := Validate(g, p, team);
      r.accepted ==> forall k | 0 <= k < |r.state.characters| :: UnitLegal(g.characters, r.state.characters[k])
  {
    if Validate(g, p, team).accepted {
      AcceptedFromPass(g, p, team);
      ClampedLegal(g.characters, p.characters.value);
    }
  }

  /** Every committed unit of an accepted update matches a stored unit by id,
      kept its team, walked a Manhattan distance of at most the moves it had
      left, had exactly that distance deducted, and did not take back an
      attack. Units are never invented. */
  lemma AcceptedUnitsMovedLegally(g: GameState, p: Proposal, team: Team, k: nat)
    requires Validate(g, p, team).accepted
    requires k < |Validate(g, p, team).state.characters|
    ensures var c := Validate(g, p, team).state.characters[k];
      && IndexOfId(g.characters, c.id).Some?
      && c.team == PriorOf(g.characters, c).team
      && Distance(c, PriorOf(g.characters, c)) <= PriorOf(g.characters, c).movesLeft
      && c.movesLeft == PriorOf(g.characters, c).movesLeft - Distance(c, PriorOf(g.characters, c))
      && (PriorOf(g.characters, c).hasAttacked ==> c.hasAttacked)
  {
    AcceptedUnitsLegal(g, p, team);
    UnitLegalMeaning(g.characters, Validate(g, p, team).state.characters[k]);
  }

  /** No two living units of an accepted update share a tile. */
  lemma AcceptedNoCollision(g: GameState, p: Proposal, team: Team)
    ensures var r := Validate(g, p, team);
      r.accepted ==> NoCollision(r.state.characters)
  {
    var r := Validate(g, p, team);
    if r.accepted {
      PositionsUniqueMeansNoCollision(r.state.characters);
    }
  }

  /** An accepted hand-off passes the turn to the other team, and every
      committed unit of that team is rested: a catalog name, the whole move
      range of that archetype left, no attack made. */
  lemma AcceptedHandOff(g: GameState, p: Proposal, team: Team)
    ensures var r := Validate(g, p, team);
      r.accepted && r.state.turn != g.turn ==>
        && r.state.turn == Other(g.turn)
        && forall k | 0 <= k < |r.state.characters| ::
             r.state.characters[k].team == r.state.turn ==> Rested(r.state.characters[k])
  {
    var r := Validate(g, p, team);
    if r.accepted && r.state.turn != g.turn {
      var pass := UnitPass(g.characters, p.characters.value);
      assert TurnRulesHold(pass.stored, pass.clamped, g.turn, r.state.turn);
      forall k | 0 <= k < |r.state.characters| && r.state.characters[k].team == r.state.turn
        ensures Rested(r.state.characters[k])
      {
        assert HandOffOk(pass.stored, pass.clamped[k], r.state.turn);
      }
    }
  }

  /** The turn check without a hand-off repeats conditions the per-unit pass
      already enforces, so once that pass succeeds it can never reject. */
  lemma MidTurnCheckRedundant(stored: seq<Unit>, props: seq<Unit>, current: Team)
    requires UnitPass(stored, props).ok
    ensures TurnRulesHold(UnitPass(stored, props).stored, UnitPass(stored, props).clamped, current, current)
  {
    var pass := UnitPass(stored, props);
    PassFacts(stored, props);
    forall k | 0 <= k < |props|
      ensures MidTurnOk(pass.stored, pass.clamped[k], current)
    {
      IndexOfIdIgnoresHp(stored, pass.stored, props[k].id);
      assert UnitLegal(stored, props[k]);
      assert SameButHp(props[k], pass.clamped[k]);
      var i := IndexOfId(stored, props[k].id).value;
      assert SameButHp(stored[i], pass.stored[i]);
    }
  }
}

/** How the HP written during the per-unit pass behaves: which stored units it
    touches, what it writes, and that running the pass again on its own output
    changes nothing. */
module ValidatorHpWrites {
  import opened Wrappers
  import opened Roster
  import opened Validator
  import opened ValidatorAcceptance

  lemma IndexOfIdDistinct(units: seq<Unit>, j: nat)
    requires DistinctIds(units) && j < |units|
    ensures IndexOfId(units, units[j].id) == Some(j)
  {
  }

  lemma DistinctIdsIgnoreHp(s1: seq<Unit>, s2: seq<Unit>)
    requires HpOnlyChanged(s1, s2) && DistinctIds(s1)
    ensures DistinctIds(s2)
  {
    forall i, j | 0 <= i < j < |s2| ensures s2[i].id != s2[j].id {
      assert SameButHp(s1[i], s2[i]) && SameButHp(s1[j], s2[j]);
    }
  }

  /** A stored unit whose id no proposed unit carries is never written. */
  lemma {:induction false} PassLeavesOthers(s: seq<Unit>, props: seq<Unit>, i: nat)
    requires i < |s|
    requires forall k | 0 <= k < |props| :: props[k].id != s[i].id
    ensures UnitPass(s, props).stored[i] == s[i]
    decreases |props|
  {
    if |props| > 0 {
      var p := props[0];
      match IndexOfId(s, p.id)
      case None =>
      case Some(x) =>
        if p.team == s[x].team && FindArchetype(s[x].name).Some? {
          var arch := FindArchetype(s[x].name).value;
          var written := s[x := s[x].(hp := Clamp(p.hp, s[x].hp, arch.maxHp))];
          assert written[i] == s[i];
          if MoveLegal(s[x], p) {
            forall k | 0 <= k < |props[1..]| ensures props[1..][k].id != written[i].id {
              assert props[1..][k] == props[k + 1];
            }
            PassLeavesOthers(written, props[1..], i);
          }
        }
    }
  }

  lemma ClampIdempotent(proposed: int, stored: int, maxHp: int)
    ensures Clamp(proposed, Clamp(proposed, stored, maxHp), maxHp) == Clamp(proposed, stored, maxHp)
  {
  }

  /** Running the per-unit pass on the stored units it has just written, with
      the same proposal (no id twice in it), gives the same answer, the same
      writes and the same clamped HP. */
  lemma {:induction false} PassReplay(s: seq<Unit>, props: seq<Unit>)
    requires DistinctIds(props)
    ensures UnitPass(UnitPass(s, props).stored, props) == UnitPass(s, props)
    decreases |props|
  {
    var r := UnitPass(s, props);
    PassWritesOnlyHp(s, props);
    IndexOfIdIgnoresHp(s, r.stored, if |props| > 0 then props[0].id else 0);
    if |props| > 0 {
      var p := props[0];
      match IndexOfId(s, p.id)
      case None =>
      case Some(i) =>
        assert SameButHp(s[i], r.stored[i]);
        if p.team == s[i].team && FindArchetype(s[i].name).Some? {
          var arch := FindArchetype(s[i].name).value;
          var c := Clamp(p.hp, s[i].hp, arch.maxHp);
          var written := s[i := s[i].(hp := c)];
          var rest := props[1..];
          DistinctTail(props);
          PassStep(s, props, i, arch);
          if MoveLegal(s[i], p) {
            PassLeavesOthers(written, rest, i);
            assert r.stored == UnitPass(written, rest).stored;
            assert r.stored[i] == s[i].(hp := c);
            ClampIdempotent(p.hp, s[i].hp, arch.maxHp);
            assert r.stored[i := r.stored[i].(hp := c)] == r.stored;
            PassReplay(written, rest);
          } else {
            ClampIdempotent(p.hp, s[i].hp, arch.maxHp);
            assert r.stored == written;
            assert written[i := written[i].(hp := c)] == written;
          }
        }
    }
  }

  /** Sending a rejected proposal again (no id twice in it), with nothing
      else happening in between, is rejected again and leaves the stored
      state exactly as the first rejection left it. */
  lemma RejectionIsIdempotent(g: GameState, p: Proposal, team: Team)
    requires p.characters.Some? ==> DistinctIds(p.characters.value)
    ensures var r := Validate(g, p, team);
      !r.accepted ==> Validate(r.state, p, team) == r
  {
    var r := Validate(g, p, team);
    if !r.accepted && p.characters.Some? && p.turn.Some? && team == g.turn {
      PassReplay(g.characters, p.characters.value);
    }
  }

  /** An HP write at position `i` changes nothing a proposed unit with a
      different id is compared with. */
  lemma PriorUnchanged(s: seq<Unit>, i: nat, c: int, q: Unit, hp: int)
    requires i < |s| && q.id != s[i].id
    requires IndexOfId(s[i := s[i].(hp := c)], q.id).Some?
    requires FindArchetype(PriorOf(s[i := s[i].(hp := c)], q).name).Some?
    requires hp == Clamp(q.hp, PriorOf(s[i := s[i].(hp := c)], q).hp,
      FindArchetype(PriorOf(s[i := s[i].(hp := c)], q).name).value.maxHp)
    ensures IndexOfId(s, q.id).Some?
    ensures FindArchetype(PriorOf(s, q).name).Some?
    ensures hp == Clamp(q.hp, PriorOf(s, q).hp, FindArchetype(PriorOf(s, q).name).value.maxHp)
  {
    var w := s[i := s[i].(hp := c)];
    assert HpOnlyChanged(s, w);
    IndexOfIdIgnoresHp(s, w, q.id);
  }

  /** The first clamped unit of a successful pass. */
  lemma PassClampsHead(s: seq<Unit>, props: seq<Unit>)
    requires |props| > 0 && UnitPass(s, props).ok
    ensures IndexOfId(s, props[0].id).Some?
    ensures FindArchetype(PriorOf(s, props[0]).name).Some?
    ensures UnitPass(s, props).clamped[0].hp ==
      Clamp(props[0].hp, PriorOf(s, props[0]).hp, FindArchetype(PriorOf(s, props[0]).name).value.maxHp)
  {
    var p := props[0];
    PassOkMeansLegal(s, props);
    assert UnitLegal(s, p);
    var i := IndexOfId(s, p.id).value;
    PassStep(s, props, i, FindArchetype(s[i].name).value);
  }

  /** A successful pass, one unit further on. */
  lemma PassTail(s: seq<Unit>, props: seq<Unit>)
    requires |props| > 0 && UnitPass(s, props).ok
    ensures IndexOfId(s, props[0].id).Some?
    ensures var i := IndexOfId(s, props[0].id).value;
      var arch := FindArchetype(s[i].name).value;
      var written := s[i := s[i].(hp := Clamp(props[0].hp, s[i].hp, arch.maxHp))];
      && FindArchetype(s[i].name).Some?
      && UnitPass(written, props[1..]).ok
      && UnitPass(s, props).clamped[1..] == UnitPass(written, props[1..]).clamped
  {
    var p := props[0];
    PassOkMeansLegal(s, props);
    assert UnitLegal(s, p);
    var i := IndexOfId(s, p.id).value;
    PassStep(s, props, i, FindArchetype(s[i].name).value);
  }

  /** The HP kept for a proposed unit whose id no earlier proposed unit
      carries is its proposed HP, except that a heal above both the stored HP
      and the archetype maximum of the stored unit's name is cut to that
      maximum. */
  lemma {:induction false} PassClamps(s: seq<Unit>, props: seq<Unit>, k: nat)
    requires UnitPass(s, props).ok
    requires k < |props|
    requires forall j | 0 <= j < k :: props[j].id != props[k].id
    ensures IndexOfId(s, props[k].id).Some?
    ensures FindArchetype(PriorOf(s, props[k]).name).Some?
    ensures UnitPass(s, props).clamped[k].hp ==
      Clamp(props[k].hp, PriorOf(s, props[k]).hp, FindArchetype(PriorOf(s, props[k]).name).value.maxHp)
    decreases |props|
  {
    if k == 0 {
      PassClampsHead(s, props);
    } else {
      PassTail(s, props);
      var i := IndexOfId(s, props[0].id).value;
      var arch := FindArchetype(s[i].name).value;
      var c := Clamp(props[0].hp, s[i].hp, arch.maxHp);
      var rest := props[1..];
      assert rest[k - 1] == props[k];
      forall j | 0 <= j < k - 1 ensures rest[j].id != rest[k - 1].id {
        assert rest[j] == props[j + 1];
      }
      assert props[0].id != props[k].id;
      var w := s[i := s[i].(hp := c)];
      PassClamps(w, rest, k - 1);
      var cl := UnitPass(s, props).clamped;
      assert cl[k] == UnitPass(w, rest).clamped[k - 1];
      PriorUnchanged(s, i, c, props[k], cl[k].hp);
    }
  }

  /** With no id twice on either side, a successful per-unit pass leaves each
      stored unit either untouched (no proposed unit carries its id) or with
      the clamped HP of the proposed unit carrying its id. */
  lemma {:induction false} PassWrites(s: seq<Unit>, props: seq<Unit>, j: nat)
    requires DistinctIds(s) && DistinctIds(props)
    requires UnitPass(s, props).ok
    requires j < |s|
    ensures IndexOfId(props, s[j].id).None? ==> UnitPass(s, props).stored[j] == s[j]
    ensures IndexOfId(props, s[j].id).Some? ==>
      UnitPass(s, props).stored[j].hp == UnitPass(s, props).clamped[IndexOfId(props, s[j].id).value].hp
    decreases |props|
  {
    if |props| > 0 {
      var p := props[0];
      var i := IndexOfId(s, p.id).value;
      var arch := FindArchetype(s[i].name).value;
      var c := Clamp(p.hp, s[i].hp, arch.maxHp);
      var written := s[i := s[i].(hp := c)];
      var rest := props[1..];
      PassOkMeansLegal(s, props);
      assert UnitLegal(s, props[0]);
      PassStep(s, props, i, arch);
      DistinctTail(props);
      assert HpOnlyChanged(s, written);
      DistinctIdsIgnoreHp(s, written);
      if s[j].id == p.id {
        IndexOfIdDistinct(s, j);
        PassLeavesOthers(written, rest, j);
      } else {
        assert i != j;
        PassWrites(written, rest, j);
        match IndexOfId(rest, s[j].id)
        case None =>
        case Some(m) =>
          assert IndexOfId(props, s[j].id) == Some(m + 1);
      }
    }
  }
}

/** What the attack inference really accepts. Because the HP of every proposed
    unit has already been written into the stored unit when the attack check
    reads it, an enemy still present in the proposal always shows an HP drop
    of 0 (when no id occurs twice). */
module ValidatorAttacks {
  import opened Wrappers
  import opened Roster
  import opened Validator
  import opened ValidatorHpWrites

  /** How a stored enemy `e` can justify an attack of power `atk` once the HP
      writes are accounted for: left out of the proposal with positive HP of
      at most `atk`, or still present and alive while `atk` is 0. */
  predicate EnemyJustifies(e: Unit, props: seq<Unit>, clamped: seq<Unit>, atk: int)
  {
    match IndexOfId(props, e.id)
    case None => 0 < e.hp <= atk
    case Some(m) => m < |clamped| && Alive(clamped[m]) && atk == 0
  }

  /** Some enemy adjacent to the attacker's stored position justifies it. */
  predicate AttackJustified(stored: seq<Unit>, props: seq<Unit>, clamped: seq<Unit>, attacker: Unit)
  {
    match IndexOfId(stored, attacker.id)
    case None => false
    case Some(i) =>
      exists j | 0 <= j < |stored| ::
        && stored[j].team != attacker.team
        && Adjacent(stored[j], stored[i])
        && EnemyJustifies(stored[j], props, clamped, attacker.atk)
  }

  lemma EnemyEquivalent(s: seq<Unit>, props: seq<Unit>, j: nat, i: nat, a: Unit)
    requires DistinctIds(s) && DistinctIds(props)
    requires UnitPass(s, props).ok
    requires j < |s| && i < |s|
    ensures var pass := UnitPass(s, props);
      (&& pass.stored[j].team != a.team
       && Adjacent(pass.stored[j], pass.stored[i])
       && Alive(pass.stored[j])
       && HitConfirmed(pass.stored[j], pass.clamped, a.atk))
      <==>
      (&& s[j].team != a.team
       && Adjacent(s[j], s[i])
       && EnemyJustifies(s[j], props, pass.clamped, a.atk))
  {
    var pass := UnitPass(s, props);
    PassFacts(s, props);
    assert SameButHp(s[j], pass.stored[j]) && SameButHp(s[i], pass.stored[i]);
    assert HpOnlyChanged(props, pass.clamped) by {
      forall k | 0 <= k < |props| ensures SameButHp(props[k], pass.clamped[k]) {
        assert ClampedFrom(props, pass.clamped);
      }
    }
    IndexOfIdIgnoresHp(props, pass.clamped, s[j].id);
    PassWrites(s, props, j);
  }

  /** With no id twice among the stored units nor in the proposal, and a
      per-unit pass that succeeded, the attack check passes exactly when every
      proposed attacker (a living unit whose attack flag went from false to
      true) has an adjacent enemy that was left out of the proposal with at
      most the attacker's proposed attack power in HP, or the attacker's
      proposed attack power is 0. A real hit that leaves the target in the
      proposal with reduced HP is therefore rejected. */
  lemma AttackCheckWithDistinctIds(s: seq<Unit>, props: seq<Unit>)
    requires DistinctIds(s) && DistinctIds(props)
    requires UnitPass(s, props).ok
    ensures var pass := UnitPass(s, props);
      AttacksSubstantiated(pass.stored, pass.clamped) <==>
      forall k | 0 <= k < |pass.clamped| ::
        IsAttacker(s, pass.clamped[k]) ==> AttackJustified(s, props, pass.clamped, pass.clamped[k])
  {
    var pass := UnitPass(s, props);
    PassWritesOnlyHp(s, props);
    forall k | 0 <= k < |pass.clamped|
      ensures IsAttacker(pass.stored, pass.clamped[k]) == IsAttacker(s, pass.clamped[k])
      ensures AttackSubstantiated(pass.stored, pass.clamped, pass.clamped[k])
          == AttackJustified(s, props, pass.clamped, pass.clamped[k])
    {
      var a := pass.clamped[k];
      IndexOfIdIgnoresHp(s, pass.stored, a.id);
      match IndexOfId(s, a.id)
      case None =>
      case Some(i) =>
        assert SameButHp(s[i], pass.stored[i]);
        forall j | 0 <= j < |s|
          ensures (&& pass.stored[j].team != a.team
                   && Adjacent(pass.stored[j], pass.stored[i])
                   && Alive(pass.stored[j])
                   && HitConfirmed(pass.stored[j], pass.clamped, a.atk))
              == (&& s[j].team != a.team
                  && Adjacent(s[j], s[i])
                  && EnemyJustifies(s[j], props, pass.clamped, a.atk))
        {
          EnemyEquivalent(s, props, j, i, a);
        }
    }
  }
}

/** A client that sends the stored state back unchanged is accepted. */
module ValidatorResend {
  import opened Wrappers
  import opened Roster
  import opened Validator
  import opened ValidatorFacts
  import opened ValidatorAcceptance
  import opened ValidatorHpWrites

  /** A board as the server creates it: no id twice, no two living units on
      one tile, every name in the catalog and no negative moves left. */
  predicate WellFormed(units: seq<Unit>)
  {
    && DistinctIds(units)
    && NoCollision(units)
    && forall k | 0 <= k < |units| :: FindArchetype(units[k].name).Some? && units[k].movesLeft >= 0
  }

  /** Proposed units that equal the stored units they match pass the per-unit
      pass without any change to the stored units or to their own HP. */
  lemma {:induction false} PassIdentity(s: seq<Unit>, props: seq<Unit>)
    requires forall k | 0 <= k < |props| ::
      && IndexOfId(s, props[k].id).Some?
      && PriorOf(s, props[k]) == props[k]
      && FindArchetype(props[k].name).Some?
      && props[k].movesLeft >= 0
    ensures UnitPass(s, props) == PassResult(true, s, props)
    decreases |props|
  {
    if |props| > 0 {
      var rest := props[1..];
      forall k | 0 <= k < |rest|
        ensures IndexOfId(s, rest[k].id).Some? && PriorOf(s, rest[k]) == rest[k] && FindArchetype(rest[k].name).Some?
        ensures rest[k].movesLeft >= 0
      {
        assert rest[k] == props[k + 1];
      }
      var p := props[0];
      var i := IndexOfId(s, p.id).value;
      assert s[i] == p;
      var arch := FindArchetype(p.name).value;
      assert Clamp(p.hp, p.hp, arch.maxHp) == p.hp;
      assert Distance(p, p) == 0;
      assert MoveLegal(p, p);
      assert s[i := s[i].(hp := s[i].hp)] == s;
      assert p.(hp := p.hp) == p;
      PassIdentity(s, rest);
      assert [props[0]] + rest == props;
    }
  }

  /** Resending the stored characters and turn, on a well-formed board and
      during one's own turn, is accepted and commits the same units and turn. */
  lemma ResentStateAccepted(g: GameState)
    requires WellFormed(g.characters)
    ensures var r := Validate(g, Proposal(Some(g.characters), Some(g.turn)), g.turn);
      r.accepted && r.state.characters == g.characters && r.state.turn == g.turn
  {
    var s := g.characters;
    forall k | 0 <= k < |s|
      ensures IndexOfId(s, s[k].id).Some? && PriorOf(s, s[k]) == s[k] && FindArchetype(s[k].name).Some?
      ensures s[k].movesLeft >= 0
    {
      IndexOfIdDistinct(s, k);
    }
    PassIdentity(s, s);
    PositionsUniqueMeansNoCollision(s);
    MidTurnCheckRedundant(s, s, g.turn);
    forall k | 0 <= k < |s| ensures !IsAttacker(s, s[k]) {
      IndexOfIdDistinct(s, k);
    }
  }
}
