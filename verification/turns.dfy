/** The `endTurn` handler's state change (server.js lines 357-402,
    backend/server.js lines 235-278): the turn passes to the other team and
    the living units of that team get their resources back. */
module Turns {
  import opened Wrappers
  import opened Roster
  import opened Validator

  /** One unit as the character map of the handler returns it. */
  function Refresh(u: Unit, incoming: Team): Unit
  {
    if u.team == incoming && Alive(u) then
      match FindArchetype(u.name)
      case Some(arch) => u.(movesLeft := arch.moveRange, hasAttacked := false)
      case None => u
    else u
  }

  /** Every living unit of the incoming team has a catalog name. When one does
      not, the source reads `moveRange` of `undefined`, throws, and never
      assigns the new state. */
  predicate CanRefresh(units: seq<Unit>, incoming: Team)
  {
    forall k | 0 <= k < |units| :: units[k].team == incoming && Alive(units[k]) ==> FindArchetype(units[k].name).Some?
  }

  /** `endTurn` requested by `team` on the stored state `g`. A request out of
      turn, or one that would throw, leaves the state as it is. Otherwise the
      turn flips, each living unit of the incoming team is rested with nothing
      else about it changed, and every other unit (dead incoming units
      included) and the winner stay exactly as they were. */
  function EndTurn(g: GameState, team: Team): (r: Outcome)
    ensures team != g.turn ==> r == Outcome(false, g)
    ensures !r.accepted ==> r.state == g
    ensures r.accepted <==> team == g.turn && CanRefresh(g.characters, Other(team))
    ensures r.accepted ==> r.state.turn == Other(g.turn) && r.state.winner == g.winner
    ensures r.accepted ==> |r.state.characters| == |g.characters|
    ensures r.accepted ==> forall k | 0 <= k < |g.characters| ::
      var u, v := g.characters[k], r.state.characters[k];
      if u.team == r.state.turn && Alive(u) then
        Rested(v) && v.(movesLeft := u.movesLeft, hasAttacked := u.hasAttacked) == u
      else
        v == u
  {
    if team != g.turn then Outcome(false, g)
    else
      var incoming := Other(team);
      if !CanRefresh(g.characters, incoming) then Outcome(false, g)
      else
        var units := seq(|g.characters|, k requires 0 <= k < |g.characters| => Refresh(g.characters[k], incoming));
        Outcome(true, GameState(units, incoming, g.winner))
  }

  /** Two successive end-of-turn requests, each by the team holding the turn,
      hand the turn back and leave every living unit of both teams rested,
      with ids, names, positions and HP unchanged. */
  lemma TwoEndTurnsRestEveryone(g: GameState)
    requires CanRefresh(g.characters, A) && CanRefresh(g.characters, B)
    ensures var r1 := EndTurn(g, g.turn);
      && r1.accepted
      && var r2 := EndTurn(r1.state, r1.state.turn);
      && r2.accepted
      && r2.state.turn == g.turn
      && r2.state.winner == g.winner
      && |r2.state.characters| == |g.characters|
      && forall k | 0 <= k < |g.characters| ::
           var u, v := g.characters[k], r2.state.characters[k];
           && v.(movesLeft := u.movesLeft, hasAttacked := u.hasAttacked) == u
           && (Alive(u) ==> Rested(v))
  {
    var r1 := EndTurn(g, g.turn);
    assert r1.accepted;
    var s1 := r1.state.characters;
    assert CanRefresh(s1, Other(r1.state.turn)) by {
      forall k | 0 <= k < |s1| && s1[k].team == Other(r1.state.turn) && Alive(s1[k])
        ensures FindArchetype(s1[k].name).Some?
      {
        assert s1[k].name == g.characters[k].name;
      }
    }
    var r2 := EndTurn(r1.state, r1.state.turn);
    assert r2.accepted;
    forall k | 0 <= k < |g.characters|
      ensures var u, v := g.characters[k], r2.state.characters[k];
        && v.(movesLeft := u.movesLeft, hasAttacked := u.hasAttacked) == u
        && (Alive(u) ==> Rested(v))
    {
      var u, w, v := g.characters[k], s1[k], r2.state.characters[k];
      assert w.(movesLeft := u.movesLeft, hasAttacked := u.hasAttacked) == u;
      assert v.(movesLeft := w.movesLeft, hasAttacked := w.hasAttacked) == w;
      if Alive(u) && u.team == r1.state.turn {
        assert Rested(w);
        assert w.team != r2.state.turn;
        assert v == w;
      }
    }
  }
}
