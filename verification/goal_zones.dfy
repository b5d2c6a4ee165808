/**
  The six triangular zones ("puntas") of the star: the cells of each zone,
  its priority cells, the opposite zone a player heads for, and the
  integer helpers the heuristic agent derives from them.
 */
module GoalZones {
  import opened Wrappers
  import opened PyInt
  import opened BoardGeometry

  /** GOAL_POSITIONS: the ten cells of each zone, each key "c-r" written as the pair (c, r). */
  const GoalCells: map<int, seq<(nat, nat)>> := map[
    0 := [(0, 0), (1, 1), (0, 3), (1, 3), (2, 3), (0, 1), (0, 2), (1, 2), (2, 2), (3, 3)],
    1 := [(0, 4), (2, 4), (0, 5), (2, 5), (1, 6), (1, 4), (3, 4), (1, 5), (0, 6), (0, 7)],
    2 := [(12, 4), (10, 4), (11, 5), (9, 5), (9, 6), (11, 4), (9, 4), (10, 5), (10, 6), (9, 7)],
    3 := [(3, 13), (1, 13), (0, 14), (2, 14), (1, 15), (2, 13), (0, 13), (1, 14), (0, 15), (0, 16)],
    4 := [(0, 9), (0, 11), (1, 11), (0, 12), (2, 12), (0, 10), (1, 10), (2, 11), (1, 12), (3, 12)],
    5 := [(9, 9), (9, 11), (10, 11), (10, 12), (12, 12), (9, 10), (10, 10), (11, 11), (9, 12), (11, 12)]
  ]

  /** GOAL_PRIORITY_POSITIONS: the three cells of each zone to fill first, deepest first, as (c, r) pairs. */
  const GoalPriorityCells: map<int, seq<(nat, nat)>> := map[
    0 := [(0, 0), (0, 1), (1, 1)],
    1 := [(0, 4), (1, 4), (0, 5)],
    2 := [(12, 4), (11, 4), (11, 5)],
    3 := [(0, 16), (1, 15), (0, 15)],
    4 := [(0, 12), (1, 21), (0, 11)],
    5 := [(12, 12), (11, 12), (11, 11)]
  ]

  /** TARGET_MAP: each zone's opposite zone. */
  const TargetMap: map<int, int> := map[0 := 3, 3 := 0, 1 := 5, 5 := 1, 2 := 4, 4 := 2]

  /** The "c-r" keys of a list of (c, r) pairs, in order. */
  function KeysOf(cells: seq<(nat, nat)>): (keys: seq<string>)
    ensures |keys| == |cells|
    ensures forall i :: 0 <= i < |cells| ==> keys[i] == FormatKey(cells[i].0, cells[i].1)
  {
    if cells == [] then [] else [FormatKey(cells[0].0, cells[0].1)] + KeysOf(cells[1..])
  }

  /** GOAL_POSITIONS.get(zone, []). */
  function GoalKeys(zone: int): seq<string> {
    if zone in GoalCells then KeysOf(GoalCells[zone]) else []
  }

  /** Every cell GOAL_POSITIONS lists is a key of the coordinate table. */
  lemma GoalKeysOnBoard(zone: int)
    ensures forall k :: k in GoalKeys(zone) ==> AxialFromKey(k).Some?
  {
    if zone in GoalCells {
      ZoneCellsAreCells(zone);
      CellsKeysOnBoard(GoalCells[zone]);
    }
  }

  /** Every pair GOAL_POSITIONS lists for a zone is a (column, row) of the table. */
  lemma ZoneCellsAreCells(zone: int)
    requires zone in GoalCells
    ensures forall i :: 0 <= i < |GoalCells[zone]| ==> IsCell(GoalCells[zone][i].1, GoalCells[zone][i].0)
  {
    var cells := GoalCells[zone];
    assert |cells| == 10;
    forall i | 0 <= i < 10
      ensures IsCell(cells[i].1, cells[i].0)
    {
      if zone == 0 { assert cells[i].1 < 4 && cells[i].0 <= cells[i].1; }
      else if zone == 1 { assert 4 <= cells[i].1 < 8 && cells[i].0 < 4; }
      else if zone == 2 { assert 4 <= cells[i].1 < 8 && 9 <= cells[i].0 < 13; }
      else if zone == 3 { assert 13 <= cells[i].1 && cells[i].0 + cells[i].1 <= 16; }
      else if zone == 4 { assert 9 <= cells[i].1 < 13 && cells[i].0 < 4; }
      else { assert 9 <= cells[i].1 < 13 && 9 <= cells[i].0 < 13; }
    }
  }

  /** The keys of table cells are keys of the coordinate table. */
  lemma CellsKeysOnBoard(cells: seq<(nat, nat)>)
    requires forall i :: 0 <= i < |cells| ==> IsCell(cells[i].1, cells[i].0)
    ensures forall k :: k in KeysOf(cells) ==> AxialFromKey(k).Some?
  {
    var keys := KeysOf(cells);
    forall k | k in keys
      ensures AxialFromKey(k).Some?
    {
      var i :| 0 <= i < |keys| && keys[i] == k;
      CellLookup(cells[i].1, cells[i].0);
    }
  }

  /** The cells of a zone are pairwise distinct keys. */
  lemma DistinctCellsDistinctKeys(cells: seq<(nat, nat)>)
    requires forall i, j :: 0 <= i < j < |cells| ==> cells[i] != cells[j]
    ensures forall i, j :: 0 <= i < j < |cells| ==> KeysOf(cells)[i] != KeysOf(cells)[j]
  {
    FormatKeysInjective();
  }

  /** The coordinates of those keys the table knows, in list order. */
  function TableAxials(keys: seq<string>): (cells: seq<Axial>)
    ensures forall k :: k in keys && AxialFromKey(k).Some? ==> AxialFromKey(k).value in cells
    ensures forall a :: a in cells ==> exists k :: k in keys && AxialFromKey(k) == Some(a)
  {
    if keys == [] then []
    else match AxialFromKey(keys[0])
      case None => TableAxials(keys[1..])
      case Some(a) => [a] + TableAxials(keys[1..])
  }

  /** min(_hex_distance(a, g) for g in goals). */
  function MinDistance(a: Axial, goals: seq<Axial>): (d: nat)
    requires |goals| > 0
    ensures forall g :: g in goals ==> d <= HexDistance(a, g)
    ensures exists g :: g in goals && d == HexDistance(a, g)
  {
    if |goals| == 1 then HexDistance(a, goals[0])
    else
      var rest := MinDistance(a, goals[1..]);
      if HexDistance(a, goals[0]) <= rest then HexDistance(a, goals[0]) else rest
  }

  /**
    The body of _distance_to_goal for the zone's key list: None for an
    absent, empty or unknown key and for a list with no known cell; otherwise
    the least hex distance from the key's cell to a listed cell.
   */
  function DistanceToKeys(posKey: Option<string>, goals: seq<string>): (d: Option<nat>)
    ensures d.None? <==>
      || posKey.None?
      || AxialFromKey(posKey.value).None?
      || forall g :: g in goals ==> AxialFromKey(g).None?
    ensures d.Some? ==>
      forall g :: g in goals && AxialFromKey(g).Some? ==>
        d.value <= HexDistance(AxialFromKey(posKey.value).value, AxialFromKey(g).value)
    ensures d.Some? ==>
      exists g :: g in goals && AxialFromKey(g).Some? &&
        d.value == HexDistance(AxialFromKey(posKey.value).value, AxialFromKey(g).value)
  {
    if posKey.None? || posKey.value == "" then
      EmptyKeyOffTable();
      None
    else
      match AxialFromKey(posKey.value)
      case None => None
      case Some(a) =>
        var cells := TableAxials(goals);
        if cells == [] then None else Some(MinDistance(a, cells))
  }

  /** _distance_to_goal: the distance from a key to the nearest cell of GOAL_POSITIONS[zone]. */
  function DistanceToGoal(posKey: Option<string>, zone: int): Option<nat> {
    DistanceToKeys(posKey, GoalKeys(zone))
  }

  /** A known cell of the list is at distance 0 from it. */
  lemma ListedCellAtDistanceZero(goals: seq<string>, k: string)
    requires k in goals && AxialFromKey(k).Some?
    ensures DistanceToKeys(Some(k), goals) == Some(0)
  {
    var a := AxialFromKey(k).value;
    assert HexDistance(a, a) == 0;
  }

  /** Every cell listed for a zone is at distance 0 from that zone. */
  lemma ZoneCellsAtDistanceZero(zone: int, k: string)
    requires k in GoalKeys(zone)
    ensures DistanceToGoal(Some(k), zone) == Some(0)
  {
    GoalKeysOnBoard(zone);
    ListedCellAtDistanceZero(GoalKeys(zone), k);
  }

  /** GOAL_PRIORITY_POSITIONS.get(zone), with a missing zone read as the empty list (both are falsy). */
  function PriorityKeys(zone: int): seq<string> {
    if zone in GoalPriorityCells then KeysOf(GoalPriorityCells[zone]) else []
  }

  /** list.index(x): the first position of x. */
  function IndexOf(s: seq<string>, x: string): (i: nat)
    requires x in s
    ensures i < |s| && s[i] == x
    ensures forall j :: 0 <= j < i ==> s[j] != x
  {
    if s[0] == x then 0 else 1 + IndexOf(s[1..], x)
  }

  /**
    _goal_priority_bonus, as the whole number it always is: 9 (the base
    weight) times max(len - index, 1) for a priority cell of the zone, 0 for
    anything else.
   */
  function GoalPriorityBonus(posKey: Option<string>, zone: int): (bonus: nat)
    ensures bonus > 0 <==> posKey.Some? && posKey.value in PriorityKeys(zone)
    ensures bonus > 0 ==>
      exists i :: 0 <= i < |PriorityKeys(zone)| && PriorityKeys(zone)[i] == posKey.value &&
        bonus == 9 * (|PriorityKeys(zone)| - i)
  {
    if posKey.None? then 0
    else
      var priorities := PriorityKeys(zone);
      if |priorities| == 0 || posKey.value !in priorities then 0
      else 9 * Max(|priorities| - IndexOf(priorities, posKey.value), 1)
  }

  /** The priority cells of every zone are distinct keys. */
  lemma PriorityKeysDistinct(zone: int)
    ensures forall i, j :: 0 <= i < j < |PriorityKeys(zone)| ==> PriorityKeys(zone)[i] != PriorityKeys(zone)[j]
  {
    if zone in GoalPriorityCells {
      DistinctCellsDistinctKeys(GoalPriorityCells[zone]);
    }
  }

  /** The i-th priority cell of a zone earns 9 * (len - i). */
  lemma PriorityBonusByRank(zone: int, i: nat)
    requires i < |PriorityKeys(zone)|
    ensures GoalPriorityBonus(Some(PriorityKeys(zone)[i]), zone) == 9 * (|PriorityKeys(zone)| - i)
  {
    PriorityKeysDistinct(zone);
  }

  /** An earlier priority cell always earns a larger bonus than a later one. */
  lemma PriorityBonusDecreasesAlongList(zone: int, i: nat, j: nat)
    requires i < j < |PriorityKeys(zone)|
    ensures GoalPriorityBonus(Some(PriorityKeys(zone)[i]), zone) > GoalPriorityBonus(Some(PriorityKeys(zone)[j]), zone)
  {
    PriorityBonusByRank(zone, i);
    PriorityBonusByRank(zone, j);
  }

  /** The (penalty, missing_count, blockers_count) triple of _goal_priority_penalty. */
  datatype PriorityPenalty = PriorityPenalty(penalty: int, missing: nat, blockers: nat)

  /** The player's placed positions: {pos for pos in player_positions if pos}. */
  function Placed(positions: seq<string>): set<string> {
    set p | p in positions && p != ""
  }

  lemma IntersectionAndDifference(a: set<string>, b: set<string>)
    ensures |a| == |a * b| + |a - b|
  {
    assert a == (a * b) + (a - b);
    assert (a * b) * (a - b) == {};
  }

  lemma EmptyDifference(a: set<string>, b: set<string>)
    ensures |a - b| == 0 <==> a <= b
  {
    if |a - b| == 0 {
      assert a - b == {};
      forall x | x in a
        ensures x in b
      {
        assert x !in a - b;
      }
    }
  }

  /**
    _goal_priority_penalty against one priority list and one goal list, with
    the weights 30 and 15 as the whole numbers they are: the priority cells
    the player does not hold are missing; only while one is missing, the
    player's other goal cells count as blockers.
   */
  function PenaltyAgainst(priorities: seq<string>, goals: seq<string>, positions: seq<string>): (p: PriorityPenalty)
    ensures p.missing == |ListSet(priorities) - Placed(positions)|
    ensures p.missing == 0 <==> ListSet(priorities) <= Placed(positions)
    ensures p.missing > 0 ==> p.blockers == |Placed(positions) * ListSet(goals) - ListSet(priorities)|
    ensures p.missing == 0 ==> p.blockers == 0
    ensures p.penalty == -30 * p.missing - 15 * p.blockers
    ensures p.penalty <= 0 && (p.penalty == 0 <==> p.missing == 0)
  {
    var prioritySet := ListSet(priorities);
    var placed := Placed(positions);
    var filled := set pos | pos in placed && pos in prioritySet;
    assert filled == prioritySet * placed;
    IntersectionAndDifference(prioritySet, placed);
    var missing := |prioritySet| - |filled|;
    EmptyDifference(prioritySet, placed);
    var blocking := set pos | pos in placed && pos in ListSet(goals) && pos !in prioritySet;
    assert blocking == placed * ListSet(goals) - prioritySet;
    var blockers := if missing > 0 then |blocking| else 0;
    var penalty := if missing > 0 then -30 * missing - (if blockers > 0 then 15 * blockers else 0) else 0;
    PriorityPenalty(penalty, missing, blockers)
  }

  /** _goal_priority_penalty: no penalty for a zone without priority cells. */
  function GoalPriorityPenalty(positions: seq<string>, zone: int): PriorityPenalty {
    if |PriorityKeys(zone)| == 0 then PriorityPenalty(0, 0, 0)
    else PenaltyAgainst(PriorityKeys(zone), GoalKeys(zone), positions)
  }

  /** _parse_punta: int(tipo.split('-')[0]), None where int raises; the split eats any '-' sign, so a zone is never negative. */
  function ParsePunta(tipo: string): (punta: Option<int>)
    ensures punta.Some? ==> punta.value >= 0
  {
    ParseInt(SplitHead(tipo, '-'))
  }

  /** A tipo written "zone-colour" reads back as its zone. */
  lemma ParsePuntaOfTipo(zone: nat, color: string)
    ensures ParsePunta(NatToString(zone) + "-" + color) == Some(zone)
  {
    var digits := NatToString(zone);
    var tipo := digits + "-" + color;
    var head := SplitHead(tipo, '-');
    assert tipo[|digits|] == '-';
    assert head == digits;
    ParseIntOfNatToString(zone);
  }

  /** _target_punta: TARGET_MAP.get(punta), None for no zone or an unknown one. */
  function TargetPunta(punta: Option<int>): (target: Option<int>)
    ensures target.Some? <==> punta.Some? && 0 <= punta.value < 6
    ensures target.Some? ==> 0 <= target.value < 6 && target.value != punta.value
  {
    if punta.None? || punta.value !in TargetMap then None else Some(TargetMap[punta.value])
  }

  /** The target of a zone's target is the zone itself. */
  lemma TargetPuntaInvolution(punta: Option<int>)
    requires TargetPunta(punta).Some?
    ensures TargetPunta(TargetPunta(punta)) == punta
  {
  }

  /** The key "c-r" of a listed pair is among the list's keys. */
  lemma KeyOfListedCell(cells: seq<(nat, nat)>, cell: (nat, nat))
    requires cell in cells
    ensures FormatKey(cell.0, cell.1) in KeysOf(cells)
  {
    var i :| 0 <= i < |cells| && cells[i] == cell;
    assert KeysOf(cells)[i] == FormatKey(cell.0, cell.1);
  }

  /** Zone 4's second priority cell "1-21" names row 21, which the board does not have. */
  lemma PriorityEntryOffTable()
    ensures PriorityKeys(4)[1] == FormatKey(1, 21)
    ensures AxialFromKey(FormatKey(1, 21)).None?
  {
    if FormatKey(1, 21) in PositionToAxial() {
      var r, c := KeyIsCell(FormatKey(1, 21));
      FormatKeyInjective(1, 21, c, r);
    }
  }

  /**
    As written, a player whose pieces stand on board cells never holds every
    priority cell of zone 4: zone 4 always counts a missing priority cell.
   */
  lemma Zone4PriorityNeverComplete(positions: seq<string>)
    requires forall p :: p in positions ==> p == "" || AxialFromKey(p).Some?
    ensures GoalPriorityPenalty(positions, 4).missing >= 1
    ensures GoalPriorityPenalty(positions, 4).penalty <= -30
  {
    PriorityEntryOffTable();
    var offBoard := FormatKey(1, 21);
    assert offBoard in ListSet(PriorityKeys(4)) - Placed(positions);
  }

  /** So even a player who fills all ten cells of zone 4 is penalised for it. */
  lemma FullZone4StillPenalised()
    ensures GoalPriorityPenalty(GoalKeys(4), 4).penalty <= -30
  {
    GoalKeysOnBoard(4);
    Zone4PriorityNeverComplete(GoalKeys(4));
  }

  /** The priority table with zone 4's second cell read as "1-12", the zone's tip neighbour in row 12. */
  const IntendedPriorityCells: map<int, seq<(nat, nat)>> := GoalPriorityCells[4 := [(0, 12), (1, 12), (0, 11)]]

  function IntendedPriorityKeys(zone: int): seq<string> {
    if zone in IntendedPriorityCells then KeysOf(IntendedPriorityCells[zone]) else []
  }

  lemma IntendedPriorityPairsInZone(zone: int)
    requires zone in IntendedPriorityCells
    ensures zone in GoalCells
    ensures forall c :: c in IntendedPriorityCells[zone] ==> c in GoalCells[zone]
  {
    if zone == 0 {
    } else if zone == 1 {
    } else if zone == 2 {
    } else if zone == 3 {
    } else if zone == 4 {
    } else {
    }
  }

  /** Every intended priority cell is one of its zone's goal cells. */
  lemma IntendedPriorityCellsInZone(zone: int)
    ensures forall k :: k in IntendedPriorityKeys(zone) ==> k in GoalKeys(zone)
  {
    if zone in IntendedPriorityCells {
      IntendedPriorityPairsInZone(zone);
      var cells := IntendedPriorityCells[zone];
      forall k | k in IntendedPriorityKeys(zone)
        ensures k in GoalKeys(zone)
      {
        var i :| 0 <= i < |cells| && KeysOf(cells)[i] == k;
        assert cells[i] in GoalCells[zone];
        KeyOfListedCell(GoalCells[zone], cells[i]);
      }
    }
  }

  /** _goal_priority_penalty over the intended priority table. */
  function IntendedGoalPriorityPenalty(positions: seq<string>, zone: int): PriorityPenalty {
    if |IntendedPriorityKeys(zone)| == 0 then PriorityPenalty(0, 0, 0)
    else PenaltyAgainst(IntendedPriorityKeys(zone), GoalKeys(zone), positions)
  }

  /** With the intended table, a player who fills a whole zone pays no priority penalty. */
  lemma FullZoneNotPenalised(zone: int)
    ensures IntendedGoalPriorityPenalty(GoalKeys(zone), zone) == PriorityPenalty(0, 0, 0)
  {
    var priorities, goals := IntendedPriorityKeys(zone), GoalKeys(zone);
    IntendedPriorityCellsInZone(zone);
    GoalKeysOnBoard(zone);
    EmptyKeyOffTable();
    forall k | k in priorities
      ensures k in goals && k != ""
    {
      assert AxialFromKey(k).Some?;
    }
    CoveredNotPenalised(priorities, goals, goals);
  }

  /** A player holding every priority cell pays nothing. */
  lemma CoveredNotPenalised(priorities: seq<string>, goals: seq<string>, positions: seq<string>)
    requires forall k :: k in priorities ==> k in positions && k != ""
    ensures PenaltyAgainst(priorities, goals, positions) == PriorityPenalty(0, 0, 0)
  {
    assert ListSet(priorities) <= Placed(positions);
  }
}
