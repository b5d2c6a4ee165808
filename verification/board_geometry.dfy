/**
  Board geometry of the hex-star board: the literal table of axial
  coordinates per "col-row" key, the two lookup dictionaries built from it,
  the six axial directions and the hex distance.
 */
module BoardGeometry {
  import opened Wrappers
  import opened PyInt

  /** An axial hex coordinate (q, r). */
  datatype Axial = Axial(q: int, r: int)

  /** One of the six unit steps between neighbouring cells. */
  datatype Direction = Direction(dq: int, dr: int)

  /** Row r of the board lists, column by column, the axial coordinate of cell "col-r". */
  const CoordRows: seq<seq<Axial>> := [
      [Axial(0, 0)],
      [Axial(-1, 1), Axial(0, 1)],
      [Axial(-2, 2), Axial(-1, 2), Axial(0, 2)],
      [Axial(-3, 3), Axial(-2, 3), Axial(-1, 3), Axial(0, 3)],
      [Axial(-8, 4), Axial(-7, 4), Axial(-6, 4), Axial(-5, 4), Axial(-4, 4), Axial(-3, 4), Axial(-2, 4), Axial(-1, 4), Axial(0, 4), Axial(1, 4), Axial(2, 4), Axial(3, 4), Axial(4, 4)],
      [Axial(-8, 5), Axial(-7, 5), Axial(-6, 5), Axial(-5, 5), Axial(-4, 5), Axial(-3, 5), Axial(-2, 5), Axial(-1, 5), Axial(0, 5), Axial(1, 5), Axial(2, 5), Axial(3, 5)],
      [Axial(-8, 6), Axial(-7, 6), Axial(-6, 6), Axial(-5, 6), Axial(-4, 6), Axial(-3, 6), Axial(-2, 6), Axial(-1, 6), Axial(0, 6), Axial(1, 6), Axial(2, 6)],
      [Axial(-8, 7), Axial(-7, 7), Axial(-6, 7), Axial(-5, 7), Axial(-4, 7), Axial(-3, 7), Axial(-2, 7), Axial(-1, 7), Axial(0, 7), Axial(1, 7)],
      [Axial(-8, 8), Axial(-7, 8), Axial(-6, 8), Axial(-5, 8), Axial(-4, 8), Axial(-3, 8), Axial(-2, 8), Axial(-1, 8), Axial(0, 8)],
      [Axial(-9, 9), Axial(-8, 9), Axial(-7, 9), Axial(-6, 9), Axial(-5, 9), Axial(-4, 9), Axial(-3, 9), Axial(-2, 9), Axial(-1, 9), Axial(0, 9)],
      [Axial(-10, 10), Axial(-9, 10), Axial(-8, 10), Axial(-7, 10), Axial(-6, 10), Axial(-5, 10), Axial(-4, 10), Axial(-3, 10), Axial(-2, 10), Axial(-1, 10), Axial(0, 10)],
      [Axial(-11, 11), Axial(-10, 11), Axial(-9, 11), Axial(-8, 11), Axial(-7, 11), Axial(-6, 11), Axial(-5, 11), Axial(-4, 11), Axial(-3, 11), Axial(-2, 11), Axial(-1, 11), Axial(0, 11)],
      [Axial(-12, 12), Axial(-11, 12), Axial(-10, 12), Axial(-9, 12), Axial(-8, 12), Axial(-7, 12), Axial(-6, 12), Axial(-5, 12), Axial(-4, 12), Axial(-3, 12), Axial(-2, 12), Axial(-1, 12), Axial(0, 12)],
      [Axial(-8, 13), Axial(-7, 13), Axial(-6, 13), Axial(-5, 13)],
      [Axial(-8, 14), Axial(-7, 14), Axial(-6, 14)],
      [Axial(-8, 15), Axial(-7, 15)],
      [Axial(-8, 16)]
    ]

  const Directions: seq<Direction> := [
      Direction(1, 0), Direction(-1, 0), Direction(0, 1),
      Direction(0, -1), Direction(1, -1), Direction(-1, 1)
    ]

  /** The axial q of the first cell of each row of CoordRows (see CoordRowsShape). */
  const RowStarts: seq<int> := [0, -1, -2, -3, -8, -8, -8, -8, -8, -9, -10, -11, -12, -8, -8, -8, -8]

  /** The number of cells in each row of CoordRows (see CoordRowsShape). */
  const RowSizes: seq<nat> := [1, 2, 3, 4, 13, 12, 11, 10, 9, 10, 11, 12, 13, 4, 3, 2, 1]

  predicate IsCell(r: int, c: int) {
    0 <= r < 17 && 0 <= c < RowSizes[r]
  }

  /** A coordinate lies on the board when its row exists and q falls inside that row's run. */
  predicate OnBoard(a: Axial) {
    0 <= a.r < 17 && RowStarts[a.r] <= a.q < RowStarts[a.r] + RowSizes[a.r]
  }

  /** The coordinate the table lists for cell "c-r". */
  function CellAxial(r: nat, c: nat): Axial
    requires IsCell(r, c)
  {
    Axial(RowStarts[r] + c, r)
  }

  /** Every row of the table is a run of consecutive q values at axial r == row index. */
  lemma CoordRowsShape()
    ensures |CoordRows| == 17
    ensures forall r :: 0 <= r < 17 ==> |CoordRows[r]| == RowSizes[r]
    ensures forall r, c :: IsCell(r, c) ==> CoordRows[r][c] == CellAxial(r, c)
  {
  }

  /** The dictionary key f"{col}-{row}" of a table cell. */
  function FormatKey(col: nat, row: nat): string {
    NatToString(col) + "-" + NatToString(row)
  }

  /** The first '-' of a key sits right after the column digits. */
  lemma FirstDashOfKey(col: nat, row: nat)
    ensures var k := FormatKey(col, row); var n := |NatToString(col)|;
      n < |k| && k[n] == '-' && forall i :: 0 <= i < n ==> k[i] != '-'
  {
  }

  /** Distinct (col, row) pairs give distinct keys: the first '-' of a key ends the column. */
  lemma FormatKeyInjective(c1: nat, r1: nat, c2: nat, r2: nat)
    requires FormatKey(c1, r1) == FormatKey(c2, r2)
    ensures c1 == c2 && r1 == r2
  {
    var a1, a2 := NatToString(c1), NatToString(c2);
    var k := FormatKey(c1, r1);
    FirstDashOfKey(c1, r1);
    FirstDashOfKey(c2, r2);
    assert |a1| == |a2|;
    assert a1 == k[..|a1|] == a2;
    assert NatToString(r1) == k[|a1| + 1..] == NatToString(r2);
    NatToStringInjective(c1, c2);
    NatToStringInjective(r1, r2);
  }

  lemma FormatKeysInjective()
    ensures forall c1: nat, r1: nat, c2: nat, r2: nat ::
      FormatKey(c1, r1) == FormatKey(c2, r2) ==> c1 == c2 && r1 == r2
  {
    forall c1: nat, r1: nat, c2: nat, r2: nat | FormatKey(c1, r1) == FormatKey(c2, r2)
      ensures c1 == c2 && r1 == r2
    {
      FormatKeyInjective(c1, r1, c2, r2);
    }
  }

  /** The set of coordinates the table lists. */
  function BoardCells(): set<Axial> {
    set r: nat, q: int | r < 17 && RowStarts[r] <= q < RowStarts[r] + RowSizes[r] :: Axial(q, r)
  }

  /** The key the table gives to an on-board coordinate. */
  function KeyOfCell(a: Axial): string
    requires OnBoard(a)
  {
    FormatKey(a.q - RowStarts[a.r], a.r)
  }

  /** The set of keys the table defines. */
  function BoardKeys(): set<string> {
    set a | a in BoardCells() :: KeyOfCell(a)
  }

  /** POSITION_TO_CARTESIAN as the table defines it: key "c-r" maps to the coordinate listed for it. */
  function PositionToAxial(): map<string, Axial> {
    FormatKeysInjective();
    map k | k in BoardKeys() :: var a :| a in BoardCells() && KeyOfCell(a) == k; a
  }

  /** CARTESIAN_TO_POSITION as the table defines it: each listed coordinate maps back to "c-r". */
  function AxialToPosition(): map<Axial, string> {
    map a | a in BoardCells() :: KeyOfCell(a)
  }

  /** _axial_from_key: the axial coordinate of a table key, None for any other string. */
  function AxialFromKey(key: string): Option<Axial> {
    var m := PositionToAxial();
    if key in m then Some(m[key]) else None
  }

  /** _key_from_axial: the table key at (q, r), None off the board. */
  function KeyFromAxial(q: int, r: int): Option<string> {
    var m := AxialToPosition();
    if Axial(q, r) in m then Some(m[Axial(q, r)]) else None
  }

  /** Every table cell is found under its key in both dictionaries. */
  lemma CellLookup(r: nat, c: nat)
    requires IsCell(r, c)
    ensures AxialFromKey(FormatKey(c, r)) == Some(CellAxial(r, c))
    ensures KeyFromAxial(CellAxial(r, c).q, CellAxial(r, c).r) == Some(FormatKey(c, r))
  {
    var a := CellAxial(r, c);
    var k := FormatKey(c, r);
    assert a in BoardCells() && KeyOfCell(a) == k;
    var m := PositionToAxial();
    assert k in m;
    KeyOfCellInjective(a, m[k]);
  }

  /** Two board cells with the same key are the same cell. */
  lemma KeyOfCellInjective(a: Axial, b: Axial)
    requires a in BoardCells() && b in BoardCells() && KeyOfCell(a) == KeyOfCell(b)
    ensures a == b
  {
    FormatKeyInjective(a.q - RowStarts[a.r], a.r, b.q - RowStarts[b.r], b.r);
  }

  /** The key of every table cell is found in POSITION_TO_CARTESIAN. */
  lemma CellKeysOnBoard()
    ensures forall c: nat, r: nat :: IsCell(r, c) ==> AxialFromKey(FormatKey(c, r)).Some?
  {
    forall c: nat, r: nat | IsCell(r, c)
      ensures AxialFromKey(FormatKey(c, r)).Some?
    {
      CellLookup(r, c);
    }
  }

  /** Every key of POSITION_TO_CARTESIAN is the key of some table cell. */
  lemma KeyIsCell(key: string) returns (r: nat, c: nat)
    requires key in PositionToAxial()
    ensures IsCell(r, c) && key == FormatKey(c, r)
    ensures AxialFromKey(key) == Some(CellAxial(r, c))
  {
    assert key in BoardKeys();
    var a :| a in BoardCells() && KeyOfCell(a) == key;
    r, c := a.r, a.q - RowStarts[a.r];
    assert IsCell(r, c) && CellAxial(r, c) == a;
    CellLookup(r, c);
  }

  /** _key_from_axial finds a key exactly on the board, and it is the key of column q - RowStarts[r]. */
  lemma KeyFromAxialOnBoard(q: int, r: int)
    ensures KeyFromAxial(q, r).Some? <==> OnBoard(Axial(q, r))
    ensures OnBoard(Axial(q, r)) ==> KeyFromAxial(q, r) == Some(FormatKey(q - RowStarts[r], r))
  {
  }

  /** The empty string is not a key of the table. */
  lemma EmptyKeyOffTable()
    ensures AxialFromKey("").None?
  {
    if "" in PositionToAxial() {
      var r, c := KeyIsCell("");
    }
  }

  /** Looking a key up and back gives the key again. */
  lemma KeyRoundTrip(key: string)
    requires key in PositionToAxial()
    ensures AxialFromKey(key).Some?
    ensures KeyFromAxial(AxialFromKey(key).value.q, AxialFromKey(key).value.r) == Some(key)
  {
    var r, c := KeyIsCell(key);
    CellLookup(r, c);
  }

  /** Looking a coordinate up and back gives the coordinate again. */
  lemma AxialRoundTrip(q: int, r: int)
    requires KeyFromAxial(q, r).Some?
    ensures AxialFromKey(KeyFromAxial(q, r).value) == Some(Axial(q, r))
  {
    var a := Axial(q, r);
    assert a in AxialToPosition();
    var c: nat := q - RowStarts[r];
    assert IsCell(r, c) && CellAxial(r, c) == a;
    CellLookup(r, c);
  }

  /** No two keys share an axial coordinate. */
  lemma AxialFromKeyInjective(k1: string, k2: string)
    requires AxialFromKey(k1).Some? && AxialFromKey(k1) == AxialFromKey(k2)
    ensures k1 == k2
  {
    KeyRoundTrip(k1);
    KeyRoundTrip(k2);
  }

  /** Every entry of the two dictionaries agrees with the table. */
  ghost predicate EntriesAgree(p2c: map<string, Axial>, c2p: map<Axial, string>) {
    && (forall k :: k in p2c ==> AxialFromKey(k) == Some(p2c[k]))
    && (forall a :: a in c2p ==> KeyFromAxial(a.q, a.r) == Some(c2p[a]))
  }

  /** Every cell before (rowIdx, colIdx), in row-major order, has been entered in both dictionaries. */
  ghost predicate FilledBefore(p2c: map<string, Axial>, c2p: map<Axial, string>, rowIdx: int, colIdx: int) {
    forall r, c {:trigger IsCell(r, c)} :: IsCell(r, c) && (r < rowIdx || (r == rowIdx && c < colIdx)) ==>
      FormatKey(c, r) in p2c && CellAxial(r, c) in c2p
  }

  /** Entering cell (r, c) keeps every entry in agreement and moves the fill point one cell on. */
  lemma EnterCell(p2c: map<string, Axial>, c2p: map<Axial, string>, r: nat, c: nat)
    requires IsCell(r, c)
    requires EntriesAgree(p2c, c2p) && FilledBefore(p2c, c2p, r, c)
    ensures var key, coord := FormatKey(c, r), CellAxial(r, c);
      EntriesAgree(p2c[key := coord], c2p[coord := key]) && FilledBefore(p2c[key := coord], c2p[coord := key], r, c + 1)
  {
    var key, coord := FormatKey(c, r), CellAxial(r, c);
    CellLookup(r, c);
    EnterAgrees(p2c, c2p, key, coord);
    EnterFills(p2c, c2p, r, c);
  }

  /** Entering a key and its coordinate that the table pairs keeps every entry in agreement. */
  lemma EnterAgrees(p2c: map<string, Axial>, c2p: map<Axial, string>, key: string, coord: Axial)
    requires EntriesAgree(p2c, c2p) && AxialFromKey(key) == Some(coord) && KeyFromAxial(coord.q, coord.r) == Some(key)
    ensures EntriesAgree(p2c[key := coord], c2p[coord := key])
  {
  }

  /** Entering cell (r, c) moves the fill point one cell on. */
  lemma EnterFills(p2c: map<string, Axial>, c2p: map<Axial, string>, r: nat, c: nat)
    requires IsCell(r, c) && FilledBefore(p2c, c2p, r, c)
    ensures FilledBefore(p2c[FormatKey(c, r) := CellAxial(r, c)], c2p[CellAxial(r, c) := FormatKey(c, r)], r, c + 1)
  {
  }

  /** Row r of CoordRows holds the cells of row r of the table, in column order. */
  lemma RowShape(r: nat)
    requires r < 17
    ensures |CoordRows[r]| == RowSizes[r]
    ensures forall c :: 0 <= c < RowSizes[r] ==> CoordRows[r][c] == CellAxial(r, c)
  {
    CoordRowsShape();
  }

  /** A row entered to its end leaves the fill point at the start of the next row. */
  lemma NextRow(p2c: map<string, Axial>, c2p: map<Axial, string>, r: nat)
    requires r < 17 && FilledBefore(p2c, c2p, r, RowSizes[r])
    ensures FilledBefore(p2c, c2p, r + 1, 0)
  {
  }

  /** Once every cell is entered and every entry agrees, the key dictionary is exactly the table's. */
  lemma FilledKeyMapIsTable(p2c: map<string, Axial>, c2p: map<Axial, string>)
    requires EntriesAgree(p2c, c2p) && FilledBefore(p2c, c2p, 17, 0)
    ensures p2c == PositionToAxial()
  {
    var m := PositionToAxial();
    forall k | k in m
      ensures k in p2c
    {
      var r, c := KeyIsCell(k);
      assert IsCell(r, c);
    }
    forall k | k in p2c
      ensures k in m && p2c[k] == m[k]
    {
    }
  }

  /** Once every cell is entered and every entry agrees, the coordinate dictionary is exactly the table's. */
  lemma FilledAxialMapIsTable(p2c: map<string, Axial>, c2p: map<Axial, string>)
    requires EntriesAgree(p2c, c2p) && FilledBefore(p2c, c2p, 17, 0)
    ensures c2p == AxialToPosition()
  {
    var n := AxialToPosition();
    forall a | a in n
      ensures a in c2p
    {
      assert IsCell(a.r, a.q - RowStarts[a.r]);
      assert CellAxial(a.r, a.q - RowStarts[a.r]) == a;
    }
    forall a | a in c2p
      ensures a in n && c2p[a] == n[a]
    {
    }
  }

  /** The module-level loops that fill POSITION_TO_CARTESIAN and CARTESIAN_TO_POSITION from the table. */
  method BuildCoordinateMaps() returns (positionToCartesian: map<string, Axial>, cartesianToPosition: map<Axial, string>)
    ensures positionToCartesian == PositionToAxial()
    ensures cartesianToPosition == AxialToPosition()
  {
    assert |CoordRows| == 17;
    positionToCartesian, cartesianToPosition := map[], map[];
    for rowIdx := 0 to |CoordRows|
      invariant EntriesAgree(positionToCartesian, cartesianToPosition)
      invariant FilledBefore(positionToCartesian, cartesianToPosition, rowIdx, 0)
    {
      var row := CoordRows[rowIdx];
      RowShape(rowIdx);
      for colIdx := 0 to |row|
        invariant EntriesAgree(positionToCartesian, cartesianToPosition)
        invariant FilledBefore(positionToCartesian, cartesianToPosition, rowIdx, colIdx)
      {
        var coord := row[colIdx];
        var key := FormatKey(colIdx, rowIdx);
        EnterCell(positionToCartesian, cartesianToPosition, rowIdx, colIdx);
        positionToCartesian := positionToCartesian[key := coord];
        cartesianToPosition := cartesianToPosition[coord := key];
      }
      NextRow(positionToCartesian, cartesianToPosition, rowIdx);
    }
    FilledKeyMapIsTable(positionToCartesian, cartesianToPosition);
    FilledAxialMapIsTable(positionToCartesian, cartesianToPosition);
  }

  /** set(keys): the keys a list holds. */
  function ListSet(s: seq<string>): set<string> {
    set x | x in s
  }

  function Abs(x: int): nat {
    if x < 0 then -x else x
  }

  function Max(x: int, y: int): int {
    if x < y then y else x
  }

  /** _hex_distance: max(|dq|, |dr|, |dq + dr|). */
  function HexDistance(a: Axial, b: Axial): (d: nat)
    ensures d == 0 <==> a == b
  {
    var dq, dr := a.q - b.q, a.r - b.r;
    Max(Max(Abs(dq), Abs(dr)), Abs(dq + dr))
  }

  lemma HexDistanceSymmetric(a: Axial, b: Axial)
    ensures HexDistance(a, b) == HexDistance(b, a)
  {
  }

  lemma HexDistanceTriangle(a: Axial, b: Axial, c: Axial)
    ensures HexDistance(a, c) <= HexDistance(a, b) + HexDistance(b, c)
  {
  }

  /** The cell k steps from a along direction d. */
  function Step(a: Axial, d: Direction, k: int): Axial {
    Axial(a.q + k * d.dq, a.r + k * d.dr)
  }

  /** Two cells are at hex distance 1 exactly when one is a single step from the other along one of the six directions. */
  lemma AdjacentIffDirection(a: Axial, b: Axial)
    ensures HexDistance(a, b) == 1 <==> exists j :: 0 <= j < 6 && b == Step(a, Directions[j], 1)
  {
    if HexDistance(a, b) == 1 {
      var dq, dr := b.q - a.q, b.r - a.r;
      var j := if dq == 1 && dr == 0 then 0
        else if dq == -1 && dr == 0 then 1
        else if dq == 0 && dr == 1 then 2
        else if dq == 0 && dr == -1 then 3
        else if dq == 1 && dr == -1 then 4
        else 5;
      assert b == Step(a, Directions[j], 1);
    }
  }

  /** A double step lands two cells away, over a middle cell adjacent to both ends. */
  lemma DoubleStepDistance(a: Axial, j: nat)
    requires j < 6
    ensures HexDistance(a, Step(a, Directions[j], 2)) == 2
    ensures HexDistance(a, Step(a, Directions[j], 1)) == 1
    ensures HexDistance(Step(a, Directions[j], 1), Step(a, Directions[j], 2)) == 1
  {
  }
}
