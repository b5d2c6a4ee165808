/**
  What a legal step and a legal hop are on the star board, stated on keys:
  the specification the move generators of both agents are proved against.
 */
module MoveRules {
  import opened Wrappers
  import opened BoardGeometry

  /** The key of the cell k steps from a along direction j, None off the board. */
  function KeyAt(a: Axial, j: nat, k: int): Option<string>
    requires j < 6
  {
    var b := Step(a, Directions[j], k);
    KeyFromAxial(b.q, b.r)
  }

  /** A key found by KeyAt names the cell it was computed from. */
  lemma KeyAtLookup(a: Axial, j: nat, k: int)
    requires j < 6 && KeyAt(a, j, k).Some?
    ensures AxialFromKey(KeyAt(a, j, k).value) == Some(Step(a, Directions[j], k))
  {
    var b := Step(a, Directions[j], k);
    AxialRoundTrip(b.q, b.r);
  }

  /** The keys of two cells on the board are the same only for the same cell. */
  lemma KeyAtInjective(a: Axial, j: nat, i: nat, k: int)
    requires j < 6 && i < 6 && j != i && (k == 1 || k == 2)
    requires KeyAt(a, j, k).Some? && KeyAt(a, i, k).Some?
    ensures KeyAt(a, j, k) != KeyAt(a, i, k)
  {
    assert Step(a, Directions[j], k) != Step(a, Directions[i], k);
    KeyAtLookup(a, j, k);
    KeyAtLookup(a, i, k);
  }

  /** to is a board cell next to the board cell from. */
  predicate Adjacent(from: string, to: string) {
    && AxialFromKey(from).Some?
    && AxialFromKey(to).Some?
    && HexDistance(AxialFromKey(from).value, AxialFromKey(to).value) == 1
  }

  /** A neighbour found along a direction is adjacent, and every adjacent key is found along some direction. */
  lemma AdjacentIffNeighbour(from: string, to: string)
    requires AxialFromKey(from).Some?
    ensures Adjacent(from, to) <==> exists j :: 0 <= j < 6 && KeyAt(AxialFromKey(from).value, j, 1) == Some(to)
  {
    var a := AxialFromKey(from).value;
    if Adjacent(from, to) {
      var b := AxialFromKey(to).value;
      AdjacentIffDirection(a, b);
      var j :| 0 <= j < 6 && b == Step(a, Directions[j], 1);
      KeyRoundTrip(to);
      assert KeyAt(a, j, 1) == Some(to);
    }
    if exists j :: 0 <= j < 6 && KeyAt(a, j, 1) == Some(to) {
      var j :| 0 <= j < 6 && KeyAt(a, j, 1) == Some(to);
      KeyAtLookup(a, j, 1);
      DoubleStepDistance(a, j);
    }
  }

  /** The free neighbours of a along directions j..5, in direction order. */
  function FreeNeighbours(a: Axial, occupied: set<string>, j: nat): (keys: seq<string>)
    requires j <= 6
    ensures |keys| <= 6 - j
    ensures forall m :: m in keys <==> exists i :: j <= i < 6 && KeyAt(a, i, 1) == Some(m) && m !in occupied
    ensures forall p, q :: 0 <= p < q < |keys| ==> keys[p] != keys[q]
    decreases 6 - j
  {
    if j == 6 then []
    else
      var rest := FreeNeighbours(a, occupied, j + 1);
      match KeyAt(a, j, 1)
      case Some(n) =>
        if n in occupied then rest
        else
          forall i | j < i < 6 && KeyAt(a, i, 1).Some?
            ensures KeyAt(a, i, 1) != Some(n)
          {
            KeyAtInjective(a, j, i, 1);
          }
          [n] + rest
      case None => rest
  }

  /**
    _compute_simple_moves: the free neighbours of the origin in direction
    order; none for a key that is not on the board.
   */
  function SimpleMoves(origin: string, occupied: set<string>): (moves: seq<string>)
    ensures |moves| <= 6
    ensures forall p, q :: 0 <= p < q < |moves| ==> moves[p] != moves[q]
    ensures AxialFromKey(origin).None? ==> moves == []
  {
    match AxialFromKey(origin)
    case None => []
    case Some(a) => FreeNeighbours(a, occupied, 0)
  }

  /** The simple moves are exactly the free board cells adjacent to the origin. */
  lemma SimpleMovesAreFreeNeighbours(origin: string, occupied: set<string>, dest: string)
    ensures dest in SimpleMoves(origin, occupied) <==> Adjacent(origin, dest) && dest !in occupied
  {
    if AxialFromKey(origin).Some? {
      AdjacentIffNeighbour(origin, dest);
    }
  }

  /** The key and the cell of the first cell of each of the three top rows. */
  lemma TopRowCell(r: nat)
    requires r < 3
    ensures AxialFromKey(FormatKey(0, r)) == Some(Axial(-(r as int), r))
  {
    assert RowStarts[r] == -(r as int) by {
      if r == 0 {} else if r == 1 {} else {}
    }
    CellLookup(r, 0);
  }

  /** From "0-0" with only "0-0" occupied, "0-1" is a simple move. */
  lemma SimpleMoveExample()
    ensures FormatKey(0, 1) in SimpleMoves(FormatKey(0, 0), {FormatKey(0, 0)})
  {
    var origin, dest := FormatKey(0, 0), FormatKey(0, 1);
    TopRowCell(0);
    TopRowCell(1);
    assert HexDistance(Axial(0, 0), Axial(-1, 1)) == 1;
    assert Adjacent(origin, dest) && dest != origin;
    SimpleMovesAreFreeNeighbours(origin, {origin}, dest);
  }

  /** b lies two cells from a along one axis: hex distance 2 and a whole cell halfway. */
  predicate StraightTwoApart(a: Axial, b: Axial) {
    HexDistance(a, b) == 2 && (a.q + b.q) % 2 == 0 && (a.r + b.r) % 2 == 0
  }

  /** The cell halfway between two cells that lie straight two apart. */
  function Midpoint(a: Axial, b: Axial): Axial {
    Axial((a.q + b.q) / 2, (a.r + b.r) / 2)
  }

  /** Straight two apart means exactly a double step along one of the six directions, over the single step. */
  lemma StraightIffDoubleStep(a: Axial, b: Axial)
    ensures StraightTwoApart(a, b) <==> exists j :: 0 <= j < 6 && b == Step(a, Directions[j], 2)
    ensures forall j :: 0 <= j < 6 && b == Step(a, Directions[j], 2) ==> Midpoint(a, b) == Step(a, Directions[j], 1)
  {
    if StraightTwoApart(a, b) {
      var dq, dr := b.q - a.q, b.r - a.r;
      assert dq % 2 == 0 && dr % 2 == 0;
      var j := if dq == 2 && dr == 0 then 0
        else if dq == -2 && dr == 0 then 1
        else if dq == 0 && dr == 2 then 2
        else if dq == 0 && dr == -2 then 3
        else if dq == 2 && dr == -2 then 4
        else 5;
      assert b == Step(a, Directions[j], 2);
    }
  }

  /**
    A hop from `from` to `to`: both on the board, `to` two steps from `from`
    along one of the six directions, with the cell between them occupied.
   */
  predicate HopOver(from: string, to: string, occupied: set<string>) {
    && AxialFromKey(from).Some?
    && AxialFromKey(to).Some?
    && exists j :: 0 <= j < 6 && HopVia(AxialFromKey(from).value, AxialFromKey(to).value, j, occupied)
  }

  /** b is two steps from a along direction j, and the cell between them is an occupied board cell. */
  predicate HopVia(a: Axial, b: Axial, j: nat, occupied: set<string>)
    requires j < 6
  {
    b == Step(a, Directions[j], 2) && KeyAt(a, j, 1).Some? && KeyAt(a, j, 1).value in occupied
  }

  /** The landing of a hop from a along direction j: middle and landing on the board, middle occupied. */
  function HopAlong(a: Axial, j: nat, occupied: set<string>): Option<string>
    requires j < 6
  {
    match (KeyAt(a, j, 1), KeyAt(a, j, 2))
    case (Some(middle), Some(landing)) => if middle in occupied then Some(landing) else None
    case _ => None
  }

  lemma HopOverIsAlong(from: string, to: string, occupied: set<string>)
    requires HopOver(from, to, occupied)
    ensures exists j :: 0 <= j < 6 && HopAlong(AxialFromKey(from).value, j, occupied) == Some(to)
  {
    var a, b := AxialFromKey(from).value, AxialFromKey(to).value;
    var j :| 0 <= j < 6 && HopVia(a, b, j, occupied);
    KeyRoundTrip(to);
    assert KeyAt(a, j, 2) == Some(to);
    assert HopAlong(a, j, occupied) == Some(to);
  }

  lemma AlongIsHopOver(from: string, j: nat, occupied: set<string>)
    requires AxialFromKey(from).Some? && j < 6 && HopAlong(AxialFromKey(from).value, j, occupied).Some?
    ensures HopOver(from, HopAlong(AxialFromKey(from).value, j, occupied).value, occupied)
  {
    var a := AxialFromKey(from).value;
    KeyAtLookup(a, j, 2);
    assert HopVia(a, Step(a, Directions[j], 2), j, occupied);
  }

  /**
    A hop is the geometric relation the design describes: the landing lies
    straight two cells away, and the cell halfway is occupied.
   */
  lemma HopOverIsStraight(from: string, to: string, occupied: set<string>)
    ensures HopOver(from, to, occupied) <==>
      && AxialFromKey(from).Some?
      && AxialFromKey(to).Some?
      && StraightTwoApart(AxialFromKey(from).value, AxialFromKey(to).value)
      && var m := Midpoint(AxialFromKey(from).value, AxialFromKey(to).value);
        KeyFromAxial(m.q, m.r).Some? && KeyFromAxial(m.q, m.r).value in occupied
  {
    if AxialFromKey(from).Some? && AxialFromKey(to).Some? {
      var a, b := AxialFromKey(from).value, AxialFromKey(to).value;
      StraightIffDoubleStep(a, b);
      if HopOver(from, to, occupied) {
        var j :| 0 <= j < 6 && HopVia(a, b, j, occupied);
        assert Midpoint(a, b) == Step(a, Directions[j], 1);
      }
      if StraightTwoApart(a, b) {
        var j :| 0 <= j < 6 && b == Step(a, Directions[j], 2);
        var m := Midpoint(a, b);
        if KeyFromAxial(m.q, m.r).Some? && KeyFromAxial(m.q, m.r).value in occupied {
          assert HopVia(a, b, j, occupied);
        }
      }
    }
  }

  /** A hop found along a direction is a hop, and every hop is found along some direction. */
  lemma HopOverIffAlong(from: string, to: string, occupied: set<string>)
    requires AxialFromKey(from).Some?
    ensures HopOver(from, to, occupied) <==> exists j :: 0 <= j < 6 && HopAlong(AxialFromKey(from).value, j, occupied) == Some(to)
  {
    if HopOver(from, to, occupied) {
      HopOverIsAlong(from, to, occupied);
    }
    if exists j :: 0 <= j < 6 && HopAlong(AxialFromKey(from).value, j, occupied) == Some(to) {
      var j :| 0 <= j < 6 && HopAlong(AxialFromKey(from).value, j, occupied) == Some(to);
      AlongIsHopOver(from, j, occupied);
    }
  }

  lemma HopAlongInjective(a: Axial, j: nat, i: nat, occupied: set<string>)
    requires j < 6 && i < 6 && j != i
    requires HopAlong(a, j, occupied).Some? && HopAlong(a, i, occupied).Some?
    ensures HopAlong(a, j, occupied) != HopAlong(a, i, occupied)
  {
    KeyAtInjective(a, j, i, 2);
  }

  /** The free hop landings from a along directions j..5, in direction order. */
  function FreeHops(a: Axial, occupied: set<string>, j: nat): (keys: seq<string>)
    requires j <= 6
    ensures |keys| <= 6 - j
    ensures forall m :: m in keys <==> exists i :: j <= i < 6 && HopAlong(a, i, occupied) == Some(m) && m !in occupied
    ensures forall p, q :: 0 <= p < q < |keys| ==> keys[p] != keys[q]
    decreases 6 - j
  {
    if j == 6 then []
    else
      var rest := FreeHops(a, occupied, j + 1);
      var landing := HopAlong(a, j, occupied);
      if landing.Some? && landing.value !in occupied then
        forall i | j < i < 6 && HopAlong(a, i, occupied).Some?
          ensures HopAlong(a, i, occupied) != landing
        {
          HopAlongInjective(a, j, i, occupied);
        }
        [landing.value] + rest
      else rest
  }

  /**
    The single-hop landings of the MCTS agent's _compute_jump_moves, in
    direction order; none for a key that is not on the board.
   */
  function SingleHops(origin: string, occupied: set<string>): (landings: seq<string>)
    ensures |landings| <= 6
    ensures forall p, q :: 0 <= p < q < |landings| ==> landings[p] != landings[q]
    ensures AxialFromKey(origin).None? ==> landings == []
  {
    match AxialFromKey(origin)
    case None => []
    case Some(a) => FreeHops(a, occupied, 0)
  }

  /** The single-hop landings are exactly the free cells reached by one hop over an occupied cell. */
  lemma SingleHopsAreFreeHops(origin: string, occupied: set<string>, dest: string)
    ensures dest in SingleHops(origin, occupied) <==> HopOver(origin, dest, occupied) && dest !in occupied
  {
    if AxialFromKey(origin).Some? {
      HopOverIffAlong(origin, dest, occupied);
    }
  }

  /** k0, k1 and k2 are the keys of (0, 0) and of the next two cells down-left of it. */
  predicate DownLeftKeys(k0: string, k1: string, k2: string) {
    && AxialFromKey(k0) == Some(Axial(0, 0))
    && AxialFromKey(k1) == Some(Axial(-1, 1))
    && AxialFromKey(k2) == Some(Axial(-2, 2))
  }

  /** "0-0", "0-1" and "0-2" run down-left from the apex. */
  lemma TopRowKeys()
    ensures DownLeftKeys(FormatKey(0, 0), FormatKey(0, 1), FormatKey(0, 2))
  {
    TopRowCellKeys(FormatKey(0, 0), FormatKey(0, 1), FormatKey(0, 2));
  }

  /** The same, for the three keys given by name. */
  lemma TopRowCellKeys(k0: string, k1: string, k2: string)
    requires k0 == FormatKey(0, 0) && k1 == FormatKey(0, 1) && k2 == FormatKey(0, 2)
    ensures DownLeftKeys(k0, k1, k2)
  {
    TopRowCell(0);
    assert AxialFromKey(k0) == Some(Axial(0, 0));
    TopRowCell(1);
    assert AxialFromKey(k1) == Some(Axial(-1, 1));
    TopRowCell(2);
    assert AxialFromKey(k2) == Some(Axial(-2, 2));
  }

  /** From (0, 0), with its own cell and the cell down-left occupied, the hop down-left lands on the free cell after it. */
  lemma DownLeftLanding(k0: string, k1: string, k2: string)
    requires DownLeftKeys(k0, k1, k2)
    ensures HopAlong(AxialFromKey(k0).value, 5, {k0, k1}) == Some(k2) && k2 !in {k0, k1}
  {
    KeyRoundTrip(k1);
    KeyRoundTrip(k2);
    assert KeyAt(Axial(0, 0), 5, 1) == Some(k1);
    assert KeyAt(Axial(0, 0), 5, 2) == Some(k2);
  }

  /** So the cell after it is a single-hop landing. */
  lemma DownLeftSingleHop(k0: string, k1: string, k2: string)
    requires DownLeftKeys(k0, k1, k2)
    ensures k2 in SingleHops(k0, {k0, k1})
  {
    DownLeftLanding(k0, k1, k2);
    AlongIsSingleHop(k0, 5, {k0, k1});
  }

  /** With "0-0" and "0-1" occupied, "0-2" is among the single-hop landings from "0-0". */
  lemma SingleHopExample()
    ensures FormatKey(0, 2) in SingleHops(FormatKey(0, 0), {FormatKey(0, 0), FormatKey(0, 1)})
  {
    TopRowKeys();
    DownLeftSingleHop(FormatKey(0, 0), FormatKey(0, 1), FormatKey(0, 2));
  }

  /** A free landing along one direction is a single hop. */
  lemma AlongIsSingleHop(origin: string, j: nat, occupied: set<string>)
    requires AxialFromKey(origin).Some? && j < 6 && HopAlong(AxialFromKey(origin).value, j, occupied).Some?
    requires HopAlong(AxialFromKey(origin).value, j, occupied).value !in occupied
    ensures HopAlong(AxialFromKey(origin).value, j, occupied).value in SingleHops(origin, occupied)
  {
    var land := HopAlong(AxialFromKey(origin).value, j, occupied).value;
    AlongIsHopOver(origin, j, occupied);
    SingleHopsAreFreeHops(origin, occupied, land);
  }
}
