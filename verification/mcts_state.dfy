/**
  The game state the tree search plays on: which cell each piece stands on,
  who owns it, whose turn it is, and the moves, turn change and winner
  derived from them.
 */
module MctsState {
  import opened Wrappers
  import opened BoardGeometry
  import opened MoveRules
  import opened GoalZones

  /** A move of one piece; the search only ever builds single steps and single hops, without a sequence. */
  datatype Move = Move(piezaId: string, origen: string, destino: string, sequence: Option<seq<string>>)

  // ---------------------------------------------------------------------
  // Positions and turns, as values
  // ---------------------------------------------------------------------

  /** The cells that hold a piece; an empty position stands for a piece off the board. */
  function Occupied(positions: map<string, string>): (occupied: set<string>)
    ensures forall pid :: pid in positions && positions[pid] != "" ==> positions[pid] in occupied
    ensures forall c :: c in occupied ==> c != "" && exists pid :: pid in positions && positions[pid] == c
  {
    set pid | pid in positions && positions[pid] != "" :: positions[pid]
  }

  /** No two pieces share a cell. */
  ghost predicate NoOverlap(positions: map<string, string>) {
    forall p, q :: p in positions && q in positions && p != q && positions[p] != "" ==> positions[p] != positions[q]
  }

  /** Python's list index: a negative index counts from the end. */
  function PyIndex(i: int, n: int): (k: nat)
    requires -n <= i < n
    ensures k < n
    ensures k == i || k == i + n
  {
    if i < 0 then i + n else i
  }

  /** The turn after i among n players: (i + 1) % n, floored like Python's, so always a valid index. */
  function NextIndex(i: int, n: int): (k: int)
    requires n > 0
    ensures 0 <= k < n
  {
    (i + 1) % n
  }

  /** From a turn in range, the next turn is the next index, wrapping to 0 after the last player. */
  lemma NextInRange(i: int, n: int)
    requires 0 <= i < n
    ensures NextIndex(i, n) == if i + 1 < n then i + 1 else 0
  {
    if i + 1 == n {
      assert n % n == 0;
    }
  }

  /** The turn after k moves from turn i. */
  function AfterMoves(i: int, n: int, k: nat): int
    requires n > 0
  {
    if k == 0 then i else NextIndex(AfterMoves(i, n, k - 1), n)
  }

  /** Up to n moves from turn i, the turn advances one player per move, wrapping once past the last. */
  lemma {:induction false} TurnRotation(i: int, n: int, k: nat)
    requires 0 <= i < n && k <= n
    ensures AfterMoves(i, n, k) == if i + k < n then i + k else i + k - n
  {
    if k > 0 {
      TurnRotation(i, n, k - 1);
      NextInRange(AfterMoves(i, n, k - 1), n);
    }
  }

  /** After one move by each of the n players the turn is back where it started. */
  lemma FullRound(i: int, n: int)
    requires 0 <= i < n
    ensures AfterMoves(i, n, n) == i
    ensures forall k :: 0 < k < n ==> AfterMoves(i, n, k) != i
  {
    TurnRotation(i, n, n);
    forall k | 0 < k < n
      ensures AfterMoves(i, n, k) != i
    {
      TurnRotation(i, n, k);
    }
  }

  // ---------------------------------------------------------------------
  // Move generation, as values
  // ---------------------------------------------------------------------

  /** One move of piece pid from origin to each of the destinations, in order. */
  function MovesTo(pid: string, origin: string, dests: seq<string>): (moves: seq<Move>)
    ensures |moves| == |dests|
    ensures forall i :: 0 <= i < |dests| ==> moves[i] == Move(pid, origin, dests[i], None)
  {
    if dests == [] then [] else [Move(pid, origin, dests[0], None)] + MovesTo(pid, origin, dests[1..])
  }

  /** The moves of one piece: none unless it belongs to player and stands on a cell; steps first (when allowed), then hops. */
  function PieceMoves(pid: string, owner: map<string, string>, positions: map<string, string>, player: string,
                      allowSimple: bool, occupied: set<string>): seq<Move>
  {
    if pid !in owner || owner[pid] != player || pid !in positions || positions[pid] == "" then []
    else
      var origin := positions[pid];
      (if allowSimple then MovesTo(pid, origin, SimpleMoves(origin, occupied)) else [])
      + MovesTo(pid, origin, SingleHops(origin, occupied))
  }

  /** The moves of all pieces, piece by piece in the owner table's order. */
  function MovesOf(order: seq<string>, owner: map<string, string>, positions: map<string, string>, player: string,
                   allowSimple: bool, occupied: set<string>): seq<Move>
  {
    if order == [] then []
    else
      MovesOf(order[..|order| - 1], owner, positions, player, allowSimple, occupied)
      + PieceMoves(order[|order| - 1], owner, positions, player, allowSimple, occupied)
  }

  /** m is a legal move of player's piece pid: a step to a free neighbour (when steps are allowed) or a single hop to a free cell. */
  ghost predicate LegalFor(m: Move, owner: map<string, string>, positions: map<string, string>, player: string,
                           allowSimple: bool, occupied: set<string>)
  {
    && m.piezaId in owner && owner[m.piezaId] == player
    && m.piezaId in positions && positions[m.piezaId] != "" && m.origen == positions[m.piezaId]
    && m.sequence.None?
    && m.destino !in occupied
    && ((allowSimple && Adjacent(m.origen, m.destino)) || HopOver(m.origen, m.destino, occupied))
  }

  lemma PieceMovesAreLegal(pid: string, owner: map<string, string>, positions: map<string, string>, player: string,
                           allowSimple: bool, occupied: set<string>, m: Move)
    requires m in PieceMoves(pid, owner, positions, player, allowSimple, occupied)
    ensures m.piezaId == pid && LegalFor(m, owner, positions, player, allowSimple, occupied)
  {
    var origin := positions[pid];
    var steps := if allowSimple then MovesTo(pid, origin, SimpleMoves(origin, occupied)) else [];
    var hops := MovesTo(pid, origin, SingleHops(origin, occupied));
    if m in steps {
      var i :| 0 <= i < |steps| && steps[i] == m;
      SimpleMovesAreFreeNeighbours(origin, occupied, m.destino);
    } else {
      assert m in hops;
      var i :| 0 <= i < |hops| && hops[i] == m;
      SingleHopsAreFreeHops(origin, occupied, m.destino);
    }
  }

  /** Every generated move is a legal move of one of player's pieces from the cell it stands on. */
  lemma {:induction false} MovesAreLegal(order: seq<string>, owner: map<string, string>, positions: map<string, string>,
                                         player: string, allowSimple: bool, occupied: set<string>, m: Move)
    requires m in MovesOf(order, owner, positions, player, allowSimple, occupied)
    ensures m.piezaId in order && LegalFor(m, owner, positions, player, allowSimple, occupied)
  {
    var init := order[..|order| - 1];
    if m in MovesOf(init, owner, positions, player, allowSimple, occupied) {
      MovesAreLegal(init, owner, positions, player, allowSimple, occupied, m);
      assert m.piezaId in init;
    } else {
      PieceMovesAreLegal(order[|order| - 1], owner, positions, player, allowSimple, occupied, m);
    }
  }

  lemma MovesOfStep(order: seq<string>, i: nat, owner: map<string, string>, positions: map<string, string>,
                    player: string, allowSimple: bool, occupied: set<string>)
    requires i < |order|
    ensures MovesOf(order[..i + 1], owner, positions, player, allowSimple, occupied)
         == MovesOf(order[..i], owner, positions, player, allowSimple, occupied)
            + PieceMoves(order[i], owner, positions, player, allowSimple, occupied)
  {
    assert order[..i + 1][..i] == order[..i];
  }

  /** Every legal move of a listed piece is generated. */
  lemma {:induction false} LegalMovesGenerated(order: seq<string>, owner: map<string, string>, positions: map<string, string>,
                                               player: string, allowSimple: bool, occupied: set<string>, m: Move)
    requires m.piezaId in order && LegalFor(m, owner, positions, player, allowSimple, occupied)
    ensures m in MovesOf(order, owner, positions, player, allowSimple, occupied)
  {
    var init, last := order[..|order| - 1], order[|order| - 1];
    if m.piezaId == last {
      LegalInPieceMoves(owner, positions, player, allowSimple, occupied, m);
    } else {
      assert m.piezaId in init;
      LegalMovesGenerated(init, owner, positions, player, allowSimple, occupied, m);
    }
  }

  /** When the order lists every owned piece, the generated moves are exactly the legal ones. */
  lemma MovesAreExactlyLegal(order: seq<string>, owner: map<string, string>, positions: map<string, string>,
                             player: string, allowSimple: bool, occupied: set<string>)
    requires forall p :: p in owner ==> p in order
    ensures forall m :: m in MovesOf(order, owner, positions, player, allowSimple, occupied)
                        <==> LegalFor(m, owner, positions, player, allowSimple, occupied)
  {
    forall m | m in MovesOf(order, owner, positions, player, allowSimple, occupied) {
      MovesAreLegal(order, owner, positions, player, allowSimple, occupied, m);
    }
    forall m | LegalFor(m, owner, positions, player, allowSimple, occupied) {
      LegalMovesGenerated(order, owner, positions, player, allowSimple, occupied, m);
    }
  }

  /** A piece's moves are distinct: its steps are, its hops are, and no hop lands on a neighbour. */
  lemma PieceMovesDistinct(pid: string, owner: map<string, string>, positions: map<string, string>, player: string,
                           allowSimple: bool, occupied: set<string>)
    ensures Distinct(PieceMoves(pid, owner, positions, player, allowSimple, occupied))
  {
    var moves := PieceMoves(pid, owner, positions, player, allowSimple, occupied);
    if pid in owner && owner[pid] == player && pid in positions && positions[pid] != "" {
      var origin := positions[pid];
      var steps := if allowSimple then MovesTo(pid, origin, SimpleMoves(origin, occupied)) else [];
      var hops := MovesTo(pid, origin, SingleHops(origin, occupied));
      assert moves == steps + hops;
      forall i, j | 0 <= i < |steps| && 0 <= j < |hops|
        ensures steps[i] != hops[j]
      {
        SimpleMovesAreFreeNeighbours(origin, occupied, steps[i].destino);
        SingleHopsAreFreeHops(origin, occupied, hops[j].destino);
        HopIsNotStep(origin, hops[j].destino, occupied);
      }
      DistinctConcat(steps, hops);
    }
  }

  /** With no piece listed twice, no move is generated twice. */
  lemma {:induction false} MovesOfDistinct(order: seq<string>, owner: map<string, string>, positions: map<string, string>,
                                           player: string, allowSimple: bool, occupied: set<string>)
    requires forall i, j :: 0 <= i < j < |order| ==> order[i] != order[j]
    ensures Distinct(MovesOf(order, owner, positions, player, allowSimple, occupied))
  {
    if order != [] {
      var init, last := order[..|order| - 1], order[|order| - 1];
      var before := MovesOf(init, owner, positions, player, allowSimple, occupied);
      var here := PieceMoves(last, owner, positions, player, allowSimple, occupied);
      MovesOfDistinct(init, owner, positions, player, allowSimple, occupied);
      PieceMovesDistinct(last, owner, positions, player, allowSimple, occupied);
      forall i, j | 0 <= i < |before| && 0 <= j < |here|
        ensures before[i] != here[j]
      {
        MovesAreLegal(init, owner, positions, player, allowSimple, occupied, before[i]);
        PieceMovesAreLegal(last, owner, positions, player, allowSimple, occupied, here[j]);
      }
      DistinctConcat(before, here);
    }
  }

  /** Two duplicate-free sequences with no common element concatenate to a duplicate-free one. */
  lemma DistinctConcat(xs: seq<Move>, ys: seq<Move>)
    requires Distinct(xs) && Distinct(ys)
    requires forall i, j :: 0 <= i < |xs| && 0 <= j < |ys| ==> xs[i] != ys[j]
    ensures Distinct(xs + ys)
  {
  }

  /** No move appears twice. */
  predicate Distinct(moves: seq<Move>) {
    forall i, j :: 0 <= i < j < |moves| ==> moves[i] != moves[j]
  }

  lemma LegalInPieceMoves(owner: map<string, string>, positions: map<string, string>, player: string,
                          allowSimple: bool, occupied: set<string>, m: Move)
    requires LegalFor(m, owner, positions, player, allowSimple, occupied)
    ensures m in PieceMoves(m.piezaId, owner, positions, player, allowSimple, occupied)
  {
    var pid, origin := m.piezaId, m.origen;
    var steps := if allowSimple then MovesTo(pid, origin, SimpleMoves(origin, occupied)) else [];
    var hops := MovesTo(pid, origin, SingleHops(origin, occupied));
    if HopOver(origin, m.destino, occupied) {
      SingleHopsAreFreeHops(origin, occupied, m.destino);
      var i :| 0 <= i < |SingleHops(origin, occupied)| && SingleHops(origin, occupied)[i] == m.destino;
      assert hops[i] == m;
    } else {
      SimpleMovesAreFreeNeighbours(origin, occupied, m.destino);
      var i :| 0 <= i < |SimpleMoves(origin, occupied)| && SimpleMoves(origin, occupied)[i] == m.destino;
      assert steps[i] == m;
    }
  }

  /** A hop lands two cells away, never on a neighbour. */
  lemma HopIsNotStep(from: string, to: string, occupied: set<string>)
    requires HopOver(from, to, occupied)
    ensures !Adjacent(from, to)
  {
    var a := AxialFromKey(from).value;
    var j :| 0 <= j < 6 && HopVia(a, AxialFromKey(to).value, j, occupied);
    DoubleStepDistance(a, j);
  }

  /** With steps switched off, every generated move is a hop and none moves to a neighbour. */
  lemma OnlyHopsWithoutSteps(order: seq<string>, owner: map<string, string>, positions: map<string, string>,
                             player: string, occupied: set<string>, m: Move)
    requires m in MovesOf(order, owner, positions, player, false, occupied)
    ensures HopOver(m.origen, m.destino, occupied) && !Adjacent(m.origen, m.destino)
  {
    MovesAreLegal(order, owner, positions, player, false, occupied, m);
    HopIsNotStep(m.origen, m.destino, occupied);
  }

  /** Moving one piece to a free board cell keeps every piece on its own cell. */
  lemma MoveKeepsNoOverlap(positions: map<string, string>, m: Move)
    requires NoOverlap(positions)
    requires m.destino !in Occupied(positions) && AxialFromKey(m.destino).Some?
    ensures NoOverlap(positions[m.piezaId := m.destino])
  {
    EmptyKeyOffTable();
  }

  /** So applying any generated move to a position without overlap leaves none. */
  lemma GeneratedMoveKeepsNoOverlap(order: seq<string>, owner: map<string, string>, positions: map<string, string>,
                                    player: string, allowSimple: bool, m: Move)
    requires NoOverlap(positions)
    requires m in MovesOf(order, owner, positions, player, allowSimple, Occupied(positions))
    ensures NoOverlap(positions[m.piezaId := m.destino])
  {
    MovesAreLegal(order, owner, positions, player, allowSimple, Occupied(positions), m);
    if !HopOver(m.origen, m.destino, Occupied(positions)) {
      assert Adjacent(m.origen, m.destino);
    }
    MoveKeepsNoOverlap(positions, m);
  }

  // ---------------------------------------------------------------------
  // The winner, as a value
  // ---------------------------------------------------------------------

  /** The cells of player's pieces that stand on the board. */
  function PlayerCells(player: string, owner: map<string, string>, positions: map<string, string>): set<string> {
    set pid | pid in positions && pid in owner && owner[pid] == player && positions[pid] != "" :: positions[pid]
  }

  /** player has a target zone, at least one piece on the board, and every such piece inside the zone. */
  predicate HasWon(player: string, targets: map<string, int>, owner: map<string, string>, positions: map<string, string>) {
    && player in targets
    && PlayerCells(player, owner, positions) != {}
    && PlayerCells(player, owner, positions) <= ListSet(GoalKeys(targets[player]))
  }

  /** The first player in order for whom won holds, if any. */
  function FirstWith(players: seq<string>, won: string -> bool): (w: Option<string>)
    ensures w.Some? ==> w.value in players && won(w.value)
    ensures w.None? <==> forall i :: 0 <= i < |players| ==> !won(players[i])
  {
    if players == [] then None
    else if won(players[0]) then Some(players[0])
    else FirstWith(players[1..], won)
  }

  /** The first player for whom won holds is the one found, whoever else it holds for. */
  lemma {:induction false} FirstWithIsFirst(players: seq<string>, won: string -> bool, k: nat)
    requires k < |players| && won(players[k])
    requires forall i :: 0 <= i < k ==> !won(players[i])
    ensures FirstWith(players, won) == Some(players[k])
  {
    if k > 0 {
      assert !won(players[0]);
      FirstWithIsFirst(players[1..], won, k - 1);
    }
  }

  /** The first player in order who has won, if any. */
  function WinnerOf(players: seq<string>, targets: map<string, int>, owner: map<string, string>,
                    positions: map<string, string>): (w: Option<string>)
    ensures w.Some? ==> w.value in players && HasWon(w.value, targets, owner, positions)
    ensures w.None? <==> forall i :: 0 <= i < |players| ==> !HasWon(players[i], targets, owner, positions)
  {
    FirstWith(players, p => HasWon(p, targets, owner, positions))
  }

  /** The winner is the first player in order who has won, whoever else has won too. */
  lemma WinnerIsFirst(players: seq<string>, targets: map<string, int>, owner: map<string, string>,
                      positions: map<string, string>, k: nat)
    requires k < |players| && HasWon(players[k], targets, owner, positions)
    requires forall i :: 0 <= i < k ==> !HasWon(players[i], targets, owner, positions)
    ensures WinnerOf(players, targets, owner, positions) == Some(players[k])
  {
    FirstWithIsFirst(players, p => HasWon(p, targets, owner, positions), k);
  }

  // ---------------------------------------------------------------------
  // The state object
  // ---------------------------------------------------------------------

  class ChineseCheckersState {
    var positions: map<string, string>
    var pieceOwner: map<string, string>
    /** The order in which the owner table lists the pieces. */
    var pieceOrder: seq<string>
    var playersOrder: seq<string>
    var currentIndex: int
    var targetByPlayer: map<string, int>
    var allowSimple: bool
    var lastMove: Option<Move>

    /**
      pieceOrder lists each key of the owner table once, as iterating the
      table does, and the turn index addresses a player (Python also accepts
      a negative index down to minus the player count).
     */
    ghost predicate Valid()
      reads this
    {
      && (forall p :: p in pieceOrder <==> p in pieceOwner)
      && (forall i, j :: 0 <= i < j < |pieceOrder| ==> pieceOrder[i] != pieceOrder[j])
      && -|playersOrder| <= currentIndex < |playersOrder|
    }

    constructor(positions: map<string, string>, pieceOwner: map<string, string>, pieceOrder: seq<string>,
                playersOrder: seq<string>, currentIndex: int, targetByPlayer: map<string, int>,
                allowSimple: bool, lastMove: Option<Move>)
      requires forall p :: p in pieceOrder <==> p in pieceOwner
      requires forall i, j :: 0 <= i < j < |pieceOrder| ==> pieceOrder[i] != pieceOrder[j]
      requires -|playersOrder| <= currentIndex < |playersOrder|
      ensures Valid()
      ensures this.positions == positions && this.pieceOwner == pieceOwner && this.pieceOrder == pieceOrder
      ensures this.playersOrder == playersOrder && this.currentIndex == currentIndex
      ensures this.targetByPlayer == targetByPlayer && this.allowSimple == allowSimple && this.lastMove == lastMove
    {
      this.positions := positions;
      this.pieceOwner := pieceOwner;
      this.pieceOrder := pieceOrder;
      this.playersOrder := playersOrder;
      this.currentIndex := currentIndex;
      this.targetByPlayer := targetByPlayer;
      this.allowSimple := allowSimple;
      this.lastMove := lastMove;
    }

    /** The player whose turn it is; always one of the players. */
    function CurrentPlayerId(): (p: string)
      reads this
      requires -|playersOrder| <= currentIndex < |playersOrder|
      ensures p in playersOrder
      ensures 0 <= currentIndex ==> p == playersOrder[currentIndex]
    {
      playersOrder[PyIndex(currentIndex, |playersOrder|)]
    }

    /**
      Every step and single hop of every piece of the current player, piece
      by piece: exactly the legal moves of the player to move, each once.
     */
    method GetPossibleMoves() returns (moves: seq<Move>)
      requires Valid()
      ensures moves == MovesOf(pieceOrder, pieceOwner, positions, CurrentPlayerId(), allowSimple, Occupied(positions))
      ensures forall m :: m in moves <==> LegalFor(m, pieceOwner, positions, CurrentPlayerId(), allowSimple, Occupied(positions))
      ensures Distinct(moves)
    {
      var occupied := Occupied(positions);
      var player := CurrentPlayerId();
      moves := [];
      for i := 0 to |pieceOrder|
        invariant moves == MovesOf(pieceOrder[..i], pieceOwner, positions, player, allowSimple, occupied)
      {
        var pid := pieceOrder[i];
        MovesOfStep(pieceOrder, i, pieceOwner, positions, player, allowSimple, occupied);
        if pid !in pieceOwner || pieceOwner[pid] != player || pid !in positions || positions[pid] == "" {
          continue;
        }
        var origin := positions[pid];
        var steps := [];
        if allowSimple {
          steps := MovesTo(pid, origin, SimpleMoves(origin, occupied));
        }
        var landings := ComputeJumpMoves(origin, occupied);
        moves := moves + (steps + MovesTo(pid, origin, landings));
      }
      assert pieceOrder[..|pieceOrder|] == pieceOrder;
      MovesAreExactlyLegal(pieceOrder, pieceOwner, positions, player, allowSimple, occupied);
      MovesOfDistinct(pieceOrder, pieceOwner, positions, player, allowSimple, occupied);
    }

    /** Play m: its piece moves to m.destino, m becomes the last move, and the turn passes to the next player. */
    method ApplyMove(m: Move)
      requires Valid() && |playersOrder| > 0
      modifies this
      ensures Valid()
      ensures pieceOwner == old(pieceOwner) && pieceOrder == old(pieceOrder) && playersOrder == old(playersOrder)
      ensures targetByPlayer == old(targetByPlayer) && allowSimple == old(allowSimple)
      ensures positions == old(positions)[m.piezaId := m.destino]
      ensures lastMove == Some(m)
      ensures currentIndex == NextIndex(old(currentIndex), |playersOrder|)
      ensures 0 <= currentIndex < |playersOrder|
    {
      positions := positions[m.piezaId := m.destino];
      lastMove := Some(m);
      currentIndex := (currentIndex + 1) % |playersOrder|;
    }

    /** The first player in turn order whose pieces on the board all stand in their target zone. */
    function Winner(): Option<string>
      reads this
    {
      WinnerOf(playersOrder, targetByPlayer, pieceOwner, positions)
    }
  }

  /** The free hops from direction j on: direction j's landing, when it is free, before those of the later directions. */
  lemma FreeHopsStep(a: Axial, occupied: set<string>, j: nat)
    requires j < 6
    ensures var hop := HopAlong(a, j, occupied);
      FreeHops(a, occupied, j)
      == (if hop.Some? && hop.value !in occupied then [hop.value] else []) + FreeHops(a, occupied, j + 1)
  {
  }

  /** The hop along direction j read off the keys one and two steps away. */
  lemma HopAlongByKeys(a: Axial, occupied: set<string>, j: nat)
    requires j < 6
    ensures var middleKey, landingKey := KeyAt(a, j, 1), KeyAt(a, j, 2);
      HopAlong(a, j, occupied)
      == if middleKey.Some? && landingKey.Some? && middleKey.value in occupied then Some(landingKey.value) else None
  {
  }

  /** One turn of the direction loop keeps the landings found so far a prefix of FreeHops. */
  lemma AppendHop(a: Axial, occupied: set<string>, j: nat, landings: seq<string>)
    requires j < 6 && landings + FreeHops(a, occupied, j) == FreeHops(a, occupied, 0)
    ensures var middleKey, landingKey := KeyAt(a, j, 1), KeyAt(a, j, 2);
      (if middleKey.Some? && landingKey.Some? && middleKey.value in occupied && landingKey.value !in occupied
       then landings + [landingKey.value] else landings) + FreeHops(a, occupied, j + 1)
      == FreeHops(a, occupied, 0)
  {
    FreeHopsStep(a, occupied, j);
    HopAlongByKeys(a, occupied, j);
    var hop := HopAlong(a, j, occupied);
    var found := if hop.Some? && hop.value !in occupied then [hop.value] else [];
    RegroupPrefix(landings, found, FreeHops(a, occupied, j + 1), FreeHops(a, occupied, 0));
  }

  /** Moving the next piece of the remainder onto the prefix keeps the whole. */
  lemma RegroupPrefix(prefix: seq<string>, found: seq<string>, rest: seq<string>, whole: seq<string>)
    requires prefix + (found + rest) == whole
    ensures (prefix + found) + rest == whole
    ensures found == [] ==> prefix + rest == whole
  {
    assert prefix + (found + rest) == (prefix + found) + rest;
    if found == [] {
      assert prefix + found == prefix;
    }
  }

  /** The single-hop landings from an origin, direction by direction. */
  method ComputeJumpMoves(originKey: string, occupied: set<string>) returns (landings: seq<string>)
    ensures landings == SingleHops(originKey, occupied)
  {
    var origin := AxialFromKey(originKey);
    if origin.None? {
      return [];
    }
    var a := origin.value;
    landings := [];
    for j := 0 to 6
      invariant landings + FreeHops(a, occupied, j) == FreeHops(a, occupied, 0)
    {
      AppendHop(a, occupied, j, landings);
      var middleKey, landingKey := KeyAt(a, j, 1), KeyAt(a, j, 2);
      if middleKey.Some? && landingKey.Some? && middleKey.value in occupied && landingKey.value !in occupied {
        landings := landings + [landingKey.value];
      }
    }
  }
}
