/**
  What the tree-search agent does around the search itself: refuse a
  position without moves, answer a forced move at once, bound the number of
  simulations, and fall back to the first move when the search picks a piece
  that is not the requester's.
 */
module MctsAgent {
  import opened Wrappers
  import opened MctsState

  /** The agent's answer: the move, and how many simulations were requested of the search. */
  datatype Suggestion = Suggestion(move: Move, simulations: int)

  function Min(a: int, b: int): int {
    if a <= b then a else b
  }

  /** min(requested, 10 + 2 * len(root_moves)). */
  function SimulationCap(requested: int, rootMoves: nat): (cap: int)
    ensures cap <= requested && cap <= 10 + 2 * rootMoves
    ensures cap == requested || cap == 10 + 2 * rootMoves
  {
    Min(requested, 10 + 2 * rootMoves)
  }

  /** str() of an owner lookup that may miss: a missing owner prints as "None". */
  function OwnerText(owner: map<string, string>, pid: string): string {
    if pid in owner then owner[pid] else "None"
  }

  /**
    The agent's answer for player, given the root moves and the last move of
    the child the search chose (None when it chose nothing or a child with no
    move).
   */
  function Decide(rootMoves: seq<Move>, requested: int, chosen: Option<Move>, owner: map<string, string>,
                  player: string): (r: Result<Suggestion>)
    ensures r.Failure? <==> rootMoves == [] || (|rootMoves| >= 2 && chosen.None?)
    ensures |rootMoves| == 1 ==> r == Success(Suggestion(rootMoves[0], 0))
    ensures |rootMoves| >= 2 && r.Success? ==>
      && r.value.simulations == SimulationCap(requested, |rootMoves|)
      && (r.value.move == chosen.value || r.value.move == rootMoves[0])
      && (r.value.move == rootMoves[0] || OwnerText(owner, r.value.move.piezaId) == player)
    ensures |rootMoves| >= 2 && chosen.Some? && OwnerText(owner, chosen.value.piezaId) == player ==>
      r == Success(Suggestion(chosen.value, SimulationCap(requested, |rootMoves|)))
  {
    if rootMoves == [] then Failure("No hay movimientos validos disponibles")
    else if |rootMoves| == 1 then Success(Suggestion(rootMoves[0], 0))
    else
      var cap := SimulationCap(requested, |rootMoves|);
      match chosen
      case None => Failure("No hay movimientos validos disponibles")
      case Some(m) =>
        var move := if OwnerText(owner, m.piezaId) != player then rootMoves[0] else m;
        Success(Suggestion(move, cap))
  }

  /**
    When every root move is the requester's, the answer is the requester's:
    either the search's move was, or the fallback is a root move. A piece
    missing from the owner table reads as "None", so it can pass the owner
    check only for a player whose id is that text itself.
   */
  lemma SuggestionIsOwn(rootMoves: seq<Move>, requested: int, chosen: Option<Move>, owner: map<string, string>,
                        player: string)
    requires forall m :: m in rootMoves ==> m.piezaId in owner && owner[m.piezaId] == player
    requires player != "None" || (chosen.Some? ==> chosen.value.piezaId in owner)
    requires Decide(rootMoves, requested, chosen, owner, player).Success?
    ensures Decide(rootMoves, requested, chosen, owner, player).value.move.piezaId in owner
    ensures owner[Decide(rootMoves, requested, chosen, owner, player).value.move.piezaId] == player
  {
  }

  /** A search move whose piece is not the requester's, or is missing from the owner table, yields the first root move. */
  lemma ForeignChoiceFallsBack(rootMoves: seq<Move>, requested: int, m: Move, owner: map<string, string>, player: string)
    requires |rootMoves| >= 2 && OwnerText(owner, m.piezaId) != player
    ensures Decide(rootMoves, requested, Some(m), owner, player) == Success(Suggestion(rootMoves[0], SimulationCap(requested, |rootMoves|)))
  {
  }
}
