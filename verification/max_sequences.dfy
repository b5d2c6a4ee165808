/**
  _compute_jump_sequences of the heuristic agent: a depth-first search that
  records every maximal chain of hops from a piece, pushing and popping the
  landings it has visited on the way.
 */
module MaxSequences {
  import opened Wrappers
  import opened BoardGeometry
  import opened MoveRules
  import opened MaxMoves

  /**
    The hop the search accepts from `from` to `to`: a hop whose middle is in
    the full occupied set, onto a cell that is not occupied by another piece
    and is not the origin itself.
   */
  function ChainHop(origin: string, occupied: set<string>): (string, string) -> bool {
    (from: string, to: string) => HopOver(from, to, occupied) && to !in occupied - {origin} && to != origin
  }

  /** The path starts at the origin, each step is an accepted hop, and no cell is visited twice. */
  ghost predicate JumpChain(origin: string, occupied: set<string>, path: seq<string>) {
    && |path| >= 1
    && path[0] == origin
    && Linked(path, ChainHop(origin, occupied))
    && Distinct(path)
  }

  /** No element of s appears twice. */
  ghost predicate Distinct(s: seq<string>) {
    forall p, q :: 0 <= p < q < |s| ==> s[p] != s[q]
  }

  /** The search may go on from the end of path to l: an accepted hop onto a cell not yet on the path. */
  ghost predicate Legal(origin: string, occupied: set<string>, path: seq<string>, l: string)
    requires |path| >= 1
  {
    ChainHop(origin, occupied)(path[|path| - 1], l) && l !in path
  }

  /** A chain of at least one hop that cannot be extended. */
  ghost predicate MaximalChain(origin: string, occupied: set<string>, s: seq<string>) {
    && |s| >= 2
    && JumpChain(origin, occupied, s)
    && forall l :: !Legal(origin, occupied, s, l)
  }

  /** The sequences a list holds, as a set. */
  ghost function Recorded(r: seq<seq<string>>): iset<seq<string>> {
    iset s | s in r
  }

  /** The maximal chains that extend path. */
  ghost function ChainsFrom(origin: string, occupied: set<string>, path: seq<string>): iset<seq<string>> {
    iset s | MaximalChain(origin, occupied, s) && path <= s
  }

  /** The maximal chains that extend path through a hop along one of the first j directions from coord. */
  ghost function ChainsVia(origin: string, occupied: set<string>, path: seq<string>, coord: Axial, j: nat): iset<seq<string>>
    requires j <= 6
  {
    iset s | MaximalChain(origin, occupied, s) && Via(path, s, coord, j, occupied)
  }

  /** Some hop along one of the first j directions from coord legally extends path. */
  ghost predicate Extendable(origin: string, occupied: set<string>, path: seq<string>, coord: Axial, j: nat)
    requires |path| >= 1 && j <= 6
  {
    exists l :: l in AlongFirst(coord, j, occupied) && Legal(origin, occupied, path, l)
  }

  /** The landings of hops from a along the first j directions. */
  ghost function AlongFirst(a: Axial, j: nat, occupied: set<string>): set<string>
    requires j <= 6
  {
    set i | 0 <= i < j && HopAlong(a, i, occupied).Some? :: HopAlong(a, i, occupied).value
  }

  /** s strictly extends path, and its next cell is reached along one of the first j directions. */
  ghost predicate Via(path: seq<string>, s: seq<string>, a: Axial, j: nat, occupied: set<string>)
    requires j <= 6
  {
    |s| > |path| && path <= s && s[|path|] in AlongFirst(a, j, occupied)
  }

  /** Every hop from the cell of a is found along one of the six directions. */
  lemma AlongAll(from: string, a: Axial, to: string, occupied: set<string>)
    requires AxialFromKey(from) == Some(a)
    ensures HopOver(from, to, occupied) <==> to in AlongFirst(a, 6, occupied)
  {
    HopOverIffAlong(from, to, occupied);
  }

  /** A legal hop keeps the path a chain, and leaves fewer board keys off the path. */
  lemma ExtendJumpChain(origin: string, occupied: set<string>, path: seq<string>, l: string)
    requires JumpChain(origin, occupied, path) && Legal(origin, occupied, path, l)
    ensures JumpChain(origin, occupied, path + [l])
    ensures |PositionToAxial().Keys - ListSet(path + [l])| < |PositionToAxial().Keys - ListSet(path)|
  {
    var next := ExtendChain(path, l, ChainHop(origin, occupied));
    DistinctAppend(path, l);
    assert HopOver(path[|path| - 1], l, occupied);
    FewerOffPath(path, l);
  }

  lemma DistinctAppend(s: seq<string>, x: string)
    requires Distinct(s) && x !in s
    ensures Distinct(s + [x])
  {
  }

  /** Putting a board key that is not on the path onto it leaves fewer board keys off the path. */
  lemma FewerOffPath(path: seq<string>, l: string)
    requires AxialFromKey(l).Some? && l !in path
    ensures |PositionToAxial().Keys - ListSet(path + [l])| < |PositionToAxial().Keys - ListSet(path)|
  {
    assert ListSet(path + [l]) == ListSet(path) + {l};
    FewerUnfound(PositionToAxial().Keys, ListSet(path), ListSet(path), l);
  }

  /** The cell after path in a chain that extends it is a legal next hop from path. */
  lemma NextIsLegal(origin: string, occupied: set<string>, path: seq<string>, s: seq<string>)
    requires |path| >= 1 && JumpChain(origin, occupied, s) && |s| > |path| && path <= s
    ensures Legal(origin, occupied, path, s[|path|])
  {
    LinkedNext(path, s, ChainHop(origin, occupied));
    DistinctNext(path, s);
  }

  /** In a linked sequence, the end of a proper prefix is related to the element after it. */
  lemma LinkedNext(path: seq<string>, s: seq<string>, step: (string, string) -> bool)
    requires |path| >= 1 && Linked(s, step) && |s| > |path| && path <= s
    ensures step(path[|path| - 1], s[|path|])
  {
    assert LinkAt(s, |path| - 1, step);
    assert s[|path| - 1] == path[|path| - 1];
  }

  /** In a sequence without repetitions, the element after a proper prefix is not in it. */
  lemma DistinctNext(path: seq<string>, s: seq<string>)
    requires Distinct(s) && |s| > |path| && path <= s
    ensures s[|path|] !in path
  {
    forall k | 0 <= k < |path|
      ensures path[k] != s[|path|]
    {
      assert path[k] == s[k];
    }
  }

  /** A chain cannot extend path by a cell the search rejects. */
  lemma RejectedNotNext(origin: string, occupied: set<string>, path: seq<string>, a: Axial, j: nat, l: Option<string>)
    requires |path| >= 1 && j < 6 && HopAlong(a, j, occupied) == l
    requires l.Some? ==> !Legal(origin, occupied, path, l.value)
    ensures forall s :: Via(path, s, a, j + 1, occupied) && JumpChain(origin, occupied, s) ==> Via(path, s, a, j, occupied)
  {
    forall s | Via(path, s, a, j + 1, occupied) && JumpChain(origin, occupied, s)
      ensures Via(path, s, a, j, occupied)
    {
      NextIsLegal(origin, occupied, path, s);
      var x := s[|path|];
      var i :| 0 <= i < j + 1 && HopAlong(a, i, occupied).Some? && HopAlong(a, i, occupied).value == x;
      assert i != j;
      assert x in AlongFirst(a, j, occupied);
    }
  }

  /**
    The inner dfs of _compute_jump_sequences: from the end of path, at coord,
    try each direction; on an accepted hop onto a cell not visited yet, mark
    it visited, search on from it and unmark it; record path if no hop was
    possible and it holds at least one hop.  The chains it records are exactly
    the maximal chains that extend path.
   */
  method Chains(origin: string, coord: Axial, path: seq<string>, visited: set<string>, occupied: set<string>,
                found: seq<seq<string>>)
    returns (sequences: seq<seq<string>>)
    requires JumpChain(origin, occupied, path)
    requires AxialFromKey(path[|path| - 1]) == Some(coord)
    requires visited == ListSet(path[1..])
    ensures found <= sequences
    ensures Recorded(sequences[|found|..]) == ChainsFrom(origin, occupied, path)
    decreases |PositionToAxial().Keys - ListSet(path)|, 2
  {
    var extended := false;
    sequences := found;
    for j := 0 to 6
      invariant found <= sequences
      invariant Recorded(sequences[|found|..]) == ChainsVia(origin, occupied, path, coord, j)
      invariant extended == Extendable(origin, occupied, path, coord, j)
    {
      sequences, extended := TryDirection(origin, coord, path, visited, occupied, found, j, sequences, extended);
    }
    Finish(origin, occupied, path, coord, extended);
    if !extended && |path| >= 2 {
      Record(found, sequences, path);
      sequences := sequences + [path];
    }
  }

  /**
   * One direction of the search: hop along direction j if the middle cell is occupied and the
   * landing is free, not the origin and not yet on the path, and collect every chain through it.
   */
  method TryDirection(origin: string, coord: Axial, path: seq<string>, visited: set<string>, occupied: set<string>,
                      found: seq<seq<string>>, j: nat, sequences: seq<seq<string>>, extended: bool)
    returns (sequences': seq<seq<string>>, extended': bool)
    requires JumpChain(origin, occupied, path)
    requires AxialFromKey(path[|path| - 1]) == Some(coord)
    requires visited == ListSet(path[1..])
    requires j < 6 && found <= sequences
    requires Recorded(sequences[|found|..]) == ChainsVia(origin, occupied, path, coord, j)
    requires extended == Extendable(origin, occupied, path, coord, j)
    ensures found <= sequences'
    ensures Recorded(sequences'[|found|..]) == ChainsVia(origin, occupied, path, coord, j + 1)
    ensures extended' == Extendable(origin, occupied, path, coord, j + 1)
    decreases |PositionToAxial().Keys - ListSet(path)|, 1
  {
    var middle, landing := Step(coord, Directions[j], 1), Step(coord, Directions[j], 2);
    var middleKey, landingKey := KeyFromAxial(middle.q, middle.r), KeyFromAxial(landing.q, landing.r);
    AlongByKeys(coord, j, occupied);
    if || middleKey.None? || landingKey.None? || middleKey.value !in occupied
       || landingKey.value in occupied - {origin} || landingKey.value == origin || landingKey.value in visited
    {
      Skip(origin, occupied, path, coord, j, sequences[|found|..], extended);
      sequences', extended' := sequences, extended;
    } else {
      sequences' := Hop(origin, coord, path, visited, occupied, found, j, landingKey.value, sequences);
      extended' := true;
    }
  }

  /** Hop along direction j to the legal landing l and collect every chain through it. */
  method Hop(origin: string, coord: Axial, path: seq<string>, visited: set<string>, occupied: set<string>,
             found: seq<seq<string>>, j: nat, l: string, sequences: seq<seq<string>>)
    returns (sequences': seq<seq<string>>)
    requires JumpChain(origin, occupied, path)
    requires AxialFromKey(path[|path| - 1]) == Some(coord)
    requires visited == ListSet(path[1..])
    requires j < 6 && found <= sequences
    requires HopAlong(coord, j, occupied) == Some(l)
    requires l !in occupied - {origin} && l != origin && l !in visited
    requires Recorded(sequences[|found|..]) == ChainsVia(origin, occupied, path, coord, j)
    ensures found <= sequences'
    ensures Recorded(sequences'[|found|..]) == ChainsVia(origin, occupied, path, coord, j + 1)
    ensures Extendable(origin, occupied, path, coord, j + 1)
    decreases |PositionToAxial().Keys - ListSet(path)|, 0
  {
    Advance(origin, occupied, path, coord, j, l);
    Landed(path, visited, coord, j, occupied, l);
    sequences' := Chains(origin, Step(coord, Directions[j], 2), path + [l], visited + {l}, occupied, sequences);
    Retreat(origin, occupied, path, coord, j, l, found, sequences, sequences');
  }

  /** Appending x keeps found a prefix and adds exactly x after it. */
  lemma Record(found: seq<seq<string>>, sequences: seq<seq<string>>, x: seq<string>)
    requires found <= sequences
    ensures found <= sequences + [x]
    ensures Recorded((sequences + [x])[|found|..]) == Recorded(sequences[|found|..]) + iset{x}
  {
    assert (sequences + [x])[|found|..] == sequences[|found|..] + [x];
  }

  /** HopAlong in terms of the keys the search looks up. */
  lemma AlongByKeys(a: Axial, j: nat, occupied: set<string>)
    requires j < 6
    ensures
      var middle, landing := Step(a, Directions[j], 1), Step(a, Directions[j], 2);
      var middleKey, landingKey := KeyFromAxial(middle.q, middle.r), KeyFromAxial(landing.q, landing.r);
      HopAlong(a, j, occupied) == (if middleKey.Some? && landingKey.Some? && middleKey.value in occupied then landingKey else None)
  {
  }

  /** A direction whose landing, if any, is rejected adds no chain and no legal hop. */
  lemma Skip(origin: string, occupied: set<string>, path: seq<string>, coord: Axial, j: nat,
             recorded: seq<seq<string>>, extended: bool)
    requires JumpChain(origin, occupied, path) && AxialFromKey(path[|path| - 1]) == Some(coord) && j < 6
    requires HopAlong(coord, j, occupied).Some? ==>
      var l := HopAlong(coord, j, occupied).value;
      l in occupied - {origin} || l == origin || l in ListSet(path[1..])
    requires Recorded(recorded) == ChainsVia(origin, occupied, path, coord, j)
    requires extended == Extendable(origin, occupied, path, coord, j)
    ensures Recorded(recorded) == ChainsVia(origin, occupied, path, coord, j + 1)
    ensures extended == Extendable(origin, occupied, path, coord, j + 1)
  {
    var l := HopAlong(coord, j, occupied);
    if l.Some? {
      if l.value in ListSet(path[1..]) {
        assert l.value in path;
      }
    }
    RejectedAddsNothing(origin, occupied, path, coord, j, l);
  }

  /** A direction whose hop is not legal adds no chain and no extension. */
  lemma RejectedAddsNothing(origin: string, occupied: set<string>, path: seq<string>, a: Axial, j: nat, l: Option<string>)
    requires |path| >= 1 && j < 6 && HopAlong(a, j, occupied) == l
    requires l.Some? ==> !Legal(origin, occupied, path, l.value)
    ensures ChainsVia(origin, occupied, path, a, j + 1) == ChainsVia(origin, occupied, path, a, j)
    ensures Extendable(origin, occupied, path, a, j + 1) == Extendable(origin, occupied, path, a, j)
  {
    RejectedNotNext(origin, occupied, path, a, j, l);
    AlongFirstStep(a, j, occupied);
    forall s
      ensures s in ChainsVia(origin, occupied, path, a, j + 1) <==> s in ChainsVia(origin, occupied, path, a, j)
    {
    }
  }

  /** Taking an accepted hop onto an unvisited cell: it is legal, and the longer path meets the search's requirements. */
  lemma Advance(origin: string, occupied: set<string>, path: seq<string>, coord: Axial, j: nat, l: string)
    requires JumpChain(origin, occupied, path) && AxialFromKey(path[|path| - 1]) == Some(coord) && j < 6
    requires HopAlong(coord, j, occupied) == Some(l)
    requires l !in occupied - {origin} && l != origin && l !in ListSet(path[1..])
    ensures Legal(origin, occupied, path, l)
    ensures JumpChain(origin, occupied, path + [l])
    ensures |PositionToAxial().Keys - ListSet(path + [l])| < |PositionToAxial().Keys - ListSet(path)|
  {
    AlongIsHopOver(path[|path| - 1], j, occupied);
    NotVisited(path, l);
    ExtendJumpChain(origin, occupied, path, l);
  }

  /** The landing found along direction j is the key of the cell two steps away, now the end of the path. */
  lemma Landed(path: seq<string>, visited: set<string>, coord: Axial, j: nat, occupied: set<string>, l: string)
    requires |path| >= 1 && j < 6 && HopAlong(coord, j, occupied) == Some(l) && visited == ListSet(path[1..])
    ensures AxialFromKey((path + [l])[|path + [l]| - 1]) == Some(Step(coord, Directions[j], 2))
    ensures visited + {l} == ListSet((path + [l])[1..])
  {
    assert KeyAt(coord, j, 2) == Some(l);
    KeyAtLookup(coord, j, 2);
    assert (path + [l])[1..] == path[1..] + [l];
  }

  /** A cell that is neither the first of the path nor among the rest is not on the path. */
  lemma NotVisited(path: seq<string>, l: string)
    requires |path| >= 1 && l != path[0] && l !in ListSet(path[1..])
    ensures l !in path
  {
  }

  /** s extends path + [l] exactly when it extends path and its next cell is l. */
  lemma ExtendsBy(path: seq<string>, s: seq<string>, l: string)
    ensures path + [l] <= s <==> |s| > |path| && path <= s && s[|path|] == l
  {
    if |s| > |path| && path <= s && s[|path|] == l {
      assert s[..|path| + 1] == path + [l];
    }
  }

  /** After the search from a legal hop along direction j, the chains found cover the first j + 1 directions. */
  lemma Retreat(origin: string, occupied: set<string>, path: seq<string>, coord: Axial, j: nat, l: string,
                found: seq<seq<string>>, before: seq<seq<string>>, after: seq<seq<string>>)
    requires |path| >= 1 && j < 6 && HopAlong(coord, j, occupied) == Some(l) && Legal(origin, occupied, path, l)
    requires found <= before
    requires Recorded(before[|found|..]) == ChainsVia(origin, occupied, path, coord, j)
    requires before <= after
    requires Recorded(after[|before|..]) == ChainsFrom(origin, occupied, path + [l])
    ensures found <= after
    ensures Recorded(after[|found|..]) == ChainsVia(origin, occupied, path, coord, j + 1)
    ensures Extendable(origin, occupied, path, coord, j + 1)
  {
    NewSince(found, before, after);
    ChainsViaStep(origin, occupied, path, coord, j, l);
    AlongFirstStep(coord, j, occupied);
    assert l in AlongFirst(coord, j + 1, occupied);
  }

  /** The chains via the first j + 1 directions are those via the first j and those through the hop along direction j. */
  lemma ChainsViaStep(origin: string, occupied: set<string>, path: seq<string>, coord: Axial, j: nat, l: string)
    requires j < 6 && HopAlong(coord, j, occupied) == Some(l)
    ensures ChainsVia(origin, occupied, path, coord, j + 1) ==
      ChainsVia(origin, occupied, path, coord, j) + ChainsFrom(origin, occupied, path + [l])
  {
    forall s
      ensures Via(path, s, coord, j + 1, occupied) <==> Via(path, s, coord, j, occupied) || path + [l] <= s
    {
      ViaStep(path, s, coord, j, occupied, l);
    }
  }

  /** s goes via the first j + 1 directions exactly when it goes via the first j or extends path by the hop along direction j. */
  lemma ViaStep(path: seq<string>, s: seq<string>, a: Axial, j: nat, occupied: set<string>, l: string)
    requires j < 6 && HopAlong(a, j, occupied) == Some(l)
    ensures Via(path, s, a, j + 1, occupied) <==> Via(path, s, a, j, occupied) || path + [l] <= s
  {
    ExtendsBy(path, s, l);
    AlongFirstStep(a, j, occupied);
  }

  /** The landings along the first j + 1 directions are those along the first j and the landing along direction j. */
  lemma AlongFirstStep(a: Axial, j: nat, occupied: set<string>)
    requires j < 6
    ensures AlongFirst(a, j + 1, occupied) ==
      AlongFirst(a, j, occupied) + (if HopAlong(a, j, occupied).Some? then {HopAlong(a, j, occupied).value} else {})
  {
  }

  /** What is recorded after found is what was recorded up to before, then what came after it. */
  lemma NewSince(found: seq<seq<string>>, before: seq<seq<string>>, after: seq<seq<string>>)
    requires found <= before <= after
    ensures found <= after
    ensures Recorded(after[|found|..]) == Recorded(before[|found|..]) + Recorded(after[|before|..])
  {
    assert after[|found|..] == before[|found|..] + after[|before|..];
  }

  /**
    Once all six directions are tried, the maximal chains extending path are
    those found along a direction, and path itself when no hop was possible
    and it holds at least one hop.
   */
  lemma Finish(origin: string, occupied: set<string>, path: seq<string>, coord: Axial, extended: bool)
    requires JumpChain(origin, occupied, path) && AxialFromKey(path[|path| - 1]) == Some(coord)
    requires extended == Extendable(origin, occupied, path, coord, 6)
    ensures ChainsFrom(origin, occupied, path) ==
      ChainsVia(origin, occupied, path, coord, 6) + (if !extended && |path| >= 2 then iset{path} else iset{})
  {
    forall s
      ensures s in ChainsFrom(origin, occupied, path) <==>
        || s in ChainsVia(origin, occupied, path, coord, 6)
        || (s == path && !extended && |path| >= 2)
    {
      if MaximalChain(origin, occupied, s) && path <= s && |s| > |path| {
        NextIsLegal(origin, occupied, path, s);
        AlongAll(path[|path| - 1], coord, s[|path|], occupied);
      }
      if s == path {
        PathItself(origin, occupied, path, coord, extended);
      }
    }
  }

  /** The path itself is maximal exactly when no hop from its end was accepted and it holds at least one hop. */
  lemma PathItself(origin: string, occupied: set<string>, path: seq<string>, coord: Axial, extended: bool)
    requires JumpChain(origin, occupied, path) && AxialFromKey(path[|path| - 1]) == Some(coord)
    requires extended == Extendable(origin, occupied, path, coord, 6)
    ensures MaximalChain(origin, occupied, path) <==> !extended && |path| >= 2
  {
    if !extended {
      forall l
        ensures !Legal(origin, occupied, path, l)
      {
        AlongAll(path[|path| - 1], coord, l, occupied);
      }
    }
  }

  /**
    _compute_jump_sequences of the heuristic agent: every maximal chain of
    hops from the piece at originKey, as the search records them; none for a
    key that is not on the board.
   */
  method ComputeJumpSequences(originKey: string, occupied: set<string>) returns (sequences: seq<seq<string>>)
    ensures AxialFromKey(originKey).None? ==> sequences == []
    ensures forall s :: s in sequences <==> MaximalChain(originKey, occupied, s)
  {
    var origin := AxialFromKey(originKey);
    if origin.None? {
      NoChainOffBoard(originKey, occupied);
      return [];
    }
    StartChain(originKey, occupied);
    sequences := Chains(originKey, origin.value, [originKey], {}, occupied, []);
    assert sequences[0..] == sequences;
    forall s
      ensures s in sequences <==> MaximalChain(originKey, occupied, s)
    {
      assert s in Recorded(sequences) <==> s in ChainsFrom(originKey, occupied, [originKey]);
    }
  }

  /** No hop starts from a key that is not on the board, so no chain does. */
  lemma NoChainOffBoard(origin: string, occupied: set<string>)
    requires AxialFromKey(origin).None?
    ensures forall s :: !MaximalChain(origin, occupied, s)
  {
    forall s | MaximalChain(origin, occupied, s)
      ensures false
    {
      ChainStartsOnBoard(origin, occupied, s);
    }
  }

  lemma ChainStartsOnBoard(origin: string, occupied: set<string>, s: seq<string>)
    requires MaximalChain(origin, occupied, s)
    ensures AxialFromKey(origin).Some?
  {
    assert LinkAt(s, 0, ChainHop(origin, occupied));
  }

  /** The search starts from the one-cell path at the origin, which every chain extends. */
  lemma StartChain(origin: string, occupied: set<string>)
    ensures JumpChain(origin, occupied, [origin])
    ensures ListSet([origin][1..]) == {}
    ensures forall s :: MaximalChain(origin, occupied, s) ==> [origin] <= s
  {
    assert [origin][1..] == [];
  }

  // ---------------------------------------------------------------------
  // The middle test against the full occupied set
  // ---------------------------------------------------------------------

  /** Both coordinates of a differ from b's by an even amount. */
  predicate SameParity(a: Axial, b: Axial) {
    (a.q - b.q) % 2 == 0 && (a.r - b.r) % 2 == 0
  }

  lemma SameParityReflexive(a: Axial)
    ensures SameParity(a, a)
  {
  }

  /** A hop keeps a cell's parity; the cell hopped over never has it, since every direction has an odd component. */
  lemma StepParity(a: Axial, o: Axial, j: nat)
    requires j < 6 && SameParity(a, o)
    ensures SameParity(Step(a, Directions[j], 2), o)
    ensures !SameParity(Step(a, Directions[j], 1), o)
  {
  }

  /** From a cell of the origin's parity, the cell hopped over is never the origin. */
  lemma MiddleNotOrigin(a: Axial, j: nat, origin: string)
    requires j < 6 && AxialFromKey(origin).Some? && SameParity(a, AxialFromKey(origin).value)
    ensures KeyAt(a, j, 1) != Some(origin)
  {
    var o := AxialFromKey(origin).value;
    StepParity(a, o, j);
    assert SameParity(o, o);
    if KeyAt(a, j, 1).Some? {
      KeyAtLookup(a, j, 1);
    }
  }

  /** From a cell of the origin's parity, whether the origin counts as occupied makes no hop possible or impossible. */
  lemma HopIgnoresOrigin(from: string, to: string, occupied: set<string>, origin: string)
    requires AxialFromKey(from).Some? && AxialFromKey(origin).Some?
    requires SameParity(AxialFromKey(from).value, AxialFromKey(origin).value)
    ensures HopOver(from, to, occupied) <==> HopOver(from, to, occupied - {origin})
    ensures HopOver(from, to, occupied) ==> SameParity(AxialFromKey(to).value, AxialFromKey(origin).value)
  {
    var a := AxialFromKey(from).value;
    if HopOver(from, to, occupied) {
      var j :| 0 <= j < 6 && HopVia(a, AxialFromKey(to).value, j, occupied);
      MiddleNotOrigin(a, j, origin);
      assert HopVia(a, AxialFromKey(to).value, j, occupied - {origin});
      StepParity(a, AxialFromKey(origin).value, j);
    }
    if HopOver(from, to, occupied - {origin}) {
      var j :| 0 <= j < 6 && HopVia(a, AxialFromKey(to).value, j, occupied - {origin});
      assert HopVia(a, AxialFromKey(to).value, j, occupied);
    }
  }

  lemma ChainHopIgnoresOrigin(from: string, to: string, occupied: set<string>, origin: string)
    requires AxialFromKey(from).Some? && AxialFromKey(origin).Some?
    requires SameParity(AxialFromKey(from).value, AxialFromKey(origin).value)
    ensures ChainHop(origin, occupied)(from, to) <==> ChainHop(origin, occupied - {origin})(from, to)
    ensures ChainHop(origin, occupied)(from, to) ==>
      AxialFromKey(to).Some? && SameParity(AxialFromKey(to).value, AxialFromKey(origin).value)
  {
    HopIgnoresOrigin(from, to, occupied, origin);
    assert occupied - {origin} - {origin} == occupied - {origin};
  }

  /** Every cell of a linked path keeps a property its first cell has and every link preserves. */
  lemma {:induction false} LinkedKeeps(path: seq<string>, step: (string, string) -> bool, inv: string -> bool, i: nat)
    requires |path| >= 1 && inv(path[0]) && Linked(path, step) && i < |path|
    requires forall f, t :: inv(f) && step(f, t) ==> inv(t)
    ensures inv(path[i])
  {
    if i > 0 {
      LinkedKeeps(path, step, inv, i - 1);
      assert LinkAt(path, i - 1, step);
    }
  }

  /** Every cell of a hop chain from the origin has the origin's parity. */
  lemma ChainParity(origin: string, occupied: set<string>, path: seq<string>, i: nat)
    requires |path| >= 1 && path[0] == origin && AxialFromKey(origin).Some?
    requires Linked(path, ChainHop(origin, occupied)) && i < |path|
    ensures AxialFromKey(path[i]).Some? && SameParity(AxialFromKey(path[i]).value, AxialFromKey(origin).value)
  {
    var o := AxialFromKey(origin).value;
    var inv := (k: string) => AxialFromKey(k).Some? && SameParity(AxialFromKey(k).value, o);
    forall f, t | inv(f) && ChainHop(origin, occupied)(f, t)
      ensures inv(t)
    {
      ParityStep(f, t, occupied, origin);
    }
    SameParityReflexive(o);
    LinkedKeeps(path, ChainHop(origin, occupied), inv, i);
  }

  lemma ParityStep(from: string, to: string, occupied: set<string>, origin: string)
    requires AxialFromKey(from).Some? && AxialFromKey(origin).Some?
    requires SameParity(AxialFromKey(from).value, AxialFromKey(origin).value)
    requires ChainHop(origin, occupied)(from, to)
    ensures AxialFromKey(to).Some? && SameParity(AxialFromKey(to).value, AxialFromKey(origin).value)
  {
    ChainHopIgnoresOrigin(from, to, occupied, origin);
  }

  lemma LinkedIgnoresOrigin(origin: string, occupied: set<string>, path: seq<string>)
    requires |path| >= 1 && path[0] == origin && AxialFromKey(origin).Some?
    ensures Linked(path, ChainHop(origin, occupied)) <==> Linked(path, ChainHop(origin, occupied - {origin}))
  {
    var full, less := ChainHop(origin, occupied), ChainHop(origin, occupied - {origin});
    if Linked(path, full) {
      forall i | 0 <= i < |path| - 1
        ensures LinkAt(path, i, less)
      {
        assert LinkAt(path, i, full);
        ChainParity(origin, occupied, path, i);
        ChainHopIgnoresOrigin(path[i], path[i + 1], occupied, origin);
      }
    }
    if Linked(path, less) {
      forall i | 0 <= i < |path| - 1
        ensures LinkAt(path, i, full)
      {
        assert LinkAt(path, i, less);
        ChainParity(origin, occupied - {origin}, path, i);
        ChainHopIgnoresOrigin(path[i], path[i + 1], occupied, origin);
      }
    }
  }

  /**
    Testing the cell hopped over against the occupied set that still holds
    the origin yields exactly the chains that testing it against the set
    without the origin would: the origin is never hopped over.
   */
  lemma MiddleTestHarmless(origin: string, occupied: set<string>, s: seq<string>)
    ensures MaximalChain(origin, occupied, s) <==> MaximalChain(origin, occupied - {origin}, s)
  {
    if MaximalChain(origin, occupied, s) {
      MaximalWithoutOrigin(origin, occupied, s);
    }
    if MaximalChain(origin, occupied - {origin}, s) {
      MaximalWithOrigin(origin, occupied, s);
    }
  }

  lemma MaximalWithoutOrigin(origin: string, occupied: set<string>, s: seq<string>)
    requires MaximalChain(origin, occupied, s)
    ensures MaximalChain(origin, occupied - {origin}, s)
  {
    LastCellParity(origin, occupied, s);
    LinkedIgnoresOrigin(origin, occupied, s);
    LegalIgnoresOrigin(origin, occupied, s);
    MaximalTransfer(origin, occupied, occupied - {origin}, s);
  }

  lemma MaximalWithOrigin(origin: string, occupied: set<string>, s: seq<string>)
    requires MaximalChain(origin, occupied - {origin}, s)
    ensures MaximalChain(origin, occupied, s)
  {
    LastCellParity(origin, occupied - {origin}, s);
    LinkedIgnoresOrigin(origin, occupied, s);
    LegalIgnoresOrigin(origin, occupied, s);
    MaximalTransfer(origin, occupied - {origin}, occupied, s);
  }

  /** A chain of at least one hop starts on the board, and its last cell has the origin's parity. */
  lemma LastCellParity(origin: string, occupied: set<string>, s: seq<string>)
    requires |s| >= 2 && JumpChain(origin, occupied, s)
    ensures AxialFromKey(origin).Some? && AxialFromKey(s[|s| - 1]).Some?
    ensures SameParity(AxialFromKey(s[|s| - 1]).value, AxialFromKey(origin).value)
  {
    HopChainOnBoard(origin, occupied, s);
    forall i | 0 <= i < |s|
      ensures AxialFromKey(s[i]).Some? && SameParity(AxialFromKey(s[i]).value, AxialFromKey(origin).value)
    {
      ChainParity(origin, occupied, s, i);
    }
  }

  lemma HopChainOnBoard(origin: string, occupied: set<string>, s: seq<string>)
    requires |s| >= 2 && JumpChain(origin, occupied, s)
    ensures AxialFromKey(origin).Some?
  {
    assert LinkAt(s, 0, ChainHop(origin, occupied));
  }

  lemma MaximalTransfer(origin: string, occupied: set<string>, other: set<string>, s: seq<string>)
    requires MaximalChain(origin, occupied, s) && Linked(s, ChainHop(origin, other))
    requires forall l :: Legal(origin, occupied, s, l) <==> Legal(origin, other, s, l)
    ensures MaximalChain(origin, other, s)
  {
  }

  lemma LegalIgnoresOrigin(origin: string, occupied: set<string>, s: seq<string>)
    requires |s| >= 1 && AxialFromKey(origin).Some? && AxialFromKey(s[|s| - 1]).Some?
    requires SameParity(AxialFromKey(s[|s| - 1]).value, AxialFromKey(origin).value)
    ensures forall l :: Legal(origin, occupied, s, l) <==> Legal(origin, occupied - {origin}, s, l)
  {
    forall l
      ensures Legal(origin, occupied, s, l) <==> Legal(origin, occupied - {origin}, s, l)
    {
      ChainHopIgnoresOrigin(s[|s| - 1], l, occupied, origin);
    }
  }
}
