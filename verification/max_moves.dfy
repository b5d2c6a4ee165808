/**
  The move generators of the heuristic ("max") agent: free neighbours, the
  flood fill of hop landings, and the enumeration of maximal hop chains.
 */
module MaxMoves {
  import opened Wrappers
  import opened BoardGeometry
  import opened MoveRules

  /** One direction of FreeNeighbours: the free neighbour along j, if any, then the rest. */
  lemma FreeNeighboursStep(a: Axial, occupied: set<string>, j: nat)
    requires j < 6
    ensures FreeNeighbours(a, occupied, j) ==
      (if KeyAt(a, j, 1).Some? && KeyAt(a, j, 1).value !in occupied then [KeyAt(a, j, 1).value] else [])
      + FreeNeighbours(a, occupied, j + 1)
  {
  }

  /** One turn of the direction loop keeps the moves found so far a prefix of FreeNeighbours. */
  lemma AppendNeighbour(a: Axial, occupied: set<string>, j: nat, moves: seq<string>)
    requires j < 6 && moves + FreeNeighbours(a, occupied, j) == FreeNeighbours(a, occupied, 0)
    ensures var n := Step(a, Directions[j], 1); var key := KeyFromAxial(n.q, n.r);
      (if key.Some? && key.value !in occupied then moves + [key.value] else moves) + FreeNeighbours(a, occupied, j + 1)
      == FreeNeighbours(a, occupied, 0)
  {
    FreeNeighboursStep(a, occupied, j);
    var n := Step(a, Directions[j], 1);
    var key := KeyFromAxial(n.q, n.r);
    if key.Some? && key.value !in occupied {
      assert moves + [key.value] + FreeNeighbours(a, occupied, j + 1) == moves + ([key.value] + FreeNeighbours(a, occupied, j + 1));
    }
  }

  /** _compute_simple_moves of the heuristic agent: the loop over the six directions. */
  method ComputeSimpleMoves(originKey: string, occupied: set<string>) returns (moves: seq<string>)
    ensures moves == SimpleMoves(originKey, occupied)
  {
    var origin := AxialFromKey(originKey);
    if origin.None? {
      return [];
    }
    var a := origin.value;
    moves := [];
    for j := 0 to 6
      invariant moves + FreeNeighbours(a, occupied, j) == FreeNeighbours(a, occupied, 0)
    {
      var neighbour := Step(a, Directions[j], 1);
      var neighbourKey := KeyFromAxial(neighbour.q, neighbour.r);
      AppendNeighbour(a, occupied, j, moves);
      if neighbourKey.Some? && neighbourKey.value !in occupied {
        moves := moves + [neighbourKey.value];
      }
    }
  }

  /** No landing is listed twice, and every landing is a free board cell. */
  ghost predicate FreeDistinct(landings: seq<string>, occupied: set<string>) {
    && (forall p, q :: 0 <= p < q < |landings| ==> landings[p] != landings[q])
    && (forall i :: 0 <= i < |landings| ==> AxialFromKey(landings[i]).Some? && landings[i] !in occupied)
  }

  /** Each landing is one hop from the origin or from an earlier landing. */
  ghost predicate ReachedInOrder(origin: string, landings: seq<string>, occupied: set<string>) {
    forall i :: 0 <= i < |landings| ==>
      || HopOver(origin, landings[i], occupied)
      || exists k :: 0 <= k < i && HopOver(landings[k], landings[i], occupied)
  }

  /** Every free landing of a hop from a along the first n directions is among the landings. */
  ghost predicate ClosedUpTo(a: Axial, n: nat, landings: seq<string>, occupied: set<string>) {
    forall j :: 0 <= j < n && j < 6 && HopAlong(a, j, occupied).Some? && HopAlong(a, j, occupied).value !in occupied ==>
      HopAlong(a, j, occupied).value in landings
  }

  /** Every free landing of a hop from a is among the landings. */
  ghost predicate Closed(a: Axial, landings: seq<string>, occupied: set<string>) {
    ClosedUpTo(a, 6, landings, occupied)
  }

  /** Direction j is covered once its free landing, if any, is among the landings. */
  lemma CoverDirection(a: Axial, j: nat, landings: seq<string>, more: seq<string>, occupied: set<string>)
    requires j < 6 && ClosedUpTo(a, j, landings, occupied) && landings <= more
    requires HopAlong(a, j, occupied).Some? && HopAlong(a, j, occupied).value !in occupied ==>
      HopAlong(a, j, occupied).value in more
    ensures ClosedUpTo(a, j + 1, more, occupied)
  {
    forall i | 0 <= i < j && HopAlong(a, i, occupied).Some? && HopAlong(a, i, occupied).value !in occupied
      ensures HopAlong(a, i, occupied).value in more
    {
      var l := HopAlong(a, i, occupied).value;
      var k :| 0 <= k < |landings| && landings[k] == l;
      assert more[k] == l;
    }
  }

  /** The landings from index lo on are closed. */
  ghost predicate ClosedFrom(landings: seq<string>, lo: nat, within: seq<string>, occupied: set<string>)
    requires FreeDistinct(landings, occupied)
  {
    forall i :: lo <= i < |landings| ==> Closed(AxialFromKey(landings[i]).value, within, occupied)
  }

  /** Closure survives adding landings. */
  lemma ClosedGrows(a: Axial, landings: seq<string>, more: seq<string>, occupied: set<string>)
    requires Closed(a, landings, occupied) && landings <= more
    ensures Closed(a, more, occupied)
  {
    forall j | 0 <= j < 6 && HopAlong(a, j, occupied).Some? && HopAlong(a, j, occupied).value !in occupied
      ensures HopAlong(a, j, occupied).value in more
    {
      var l := HopAlong(a, j, occupied).value;
      var i :| 0 <= i < |landings| && landings[i] == l;
      assert more[i] == l;
    }
  }

  /** A free new landing along direction j from a found cell may be added and searched from. */
  lemma Descend(origin: string, from: string, coord: Axial, j: nat, occupied: set<string>,
                found: seq<string>, landings: seq<string>, x: string)
    requires AxialFromKey(from) == Some(coord) && (from == origin || from in landings)
    requires j < 6 && HopAlong(coord, j, occupied) == Some(x) && x !in occupied && x !in landings
    requires FreeDistinct(landings, occupied) && ReachedInOrder(origin, landings, occupied)
    requires found <= landings
    ensures FreeDistinct(landings + [x], occupied) && ReachedInOrder(origin, landings + [x], occupied)
    ensures |PositionToAxial().Keys - ListSet(landings + [x])| < |PositionToAxial().Keys - ListSet(found)|
  {
    AlongIsHopOver(from, j, occupied);
    AppendLanding(origin, from, landings, x, occupied);
    assert x in PositionToAxial().Keys;
    FewerUnfoundKeys(PositionToAxial().Keys, found, landings, x);
  }

  /** Listing a new key after the landings found so far leaves fewer keys unlisted. */
  lemma FewerUnfoundKeys(keys: set<string>, found: seq<string>, landings: seq<string>, x: string)
    requires found <= landings && x in keys && x !in landings
    ensures |keys - ListSet(landings + [x])| < |keys - ListSet(found)|
  {
    assert ListSet(landings + [x]) == ListSet(landings) + {x};
    assert ListSet(found) <= ListSet(landings);
    FewerUnfound(keys, ListSet(found), ListSet(landings), x);
  }

  /** Adding a free, new hop landing from the origin or from a landing keeps the landings sound. */
  lemma AppendLanding(origin: string, from: string, landings: seq<string>, x: string, occupied: set<string>)
    requires FreeDistinct(landings, occupied) && ReachedInOrder(origin, landings, occupied)
    requires from == origin || from in landings
    requires HopOver(from, x, occupied) && x !in occupied && x !in landings
    ensures FreeDistinct(landings + [x], occupied) && ReachedInOrder(origin, landings + [x], occupied)
  {
    AppendFree(landings, x, occupied);
    AppendReached(origin, from, landings, x, occupied);
  }

  /** A free board key not yet listed keeps the landings free and distinct. */
  lemma AppendFree(landings: seq<string>, x: string, occupied: set<string>)
    requires FreeDistinct(landings, occupied)
    requires AxialFromKey(x).Some? && x !in occupied && x !in landings
    ensures FreeDistinct(landings + [x], occupied)
  {
    var more := landings + [x];
    forall i | 0 <= i < |more|
      ensures AxialFromKey(more[i]).Some? && more[i] !in occupied
    {
      if i < |landings| {
        assert more[i] == landings[i];
      }
    }
  }

  /** A hop landing from the origin or from a listed landing keeps every landing reached in order. */
  lemma AppendReached(origin: string, from: string, landings: seq<string>, x: string, occupied: set<string>)
    requires ReachedInOrder(origin, landings, occupied)
    requires from == origin || from in landings
    requires HopOver(from, x, occupied)
    ensures ReachedInOrder(origin, landings + [x], occupied)
  {
    var more := landings + [x];
    forall i | 0 <= i < |more|
      ensures || HopOver(origin, more[i], occupied)
              || exists k :: 0 <= k < i && HopOver(more[k], more[i], occupied)
    {
      if i == |landings| && from != origin {
        var k :| 0 <= k < |landings| && landings[k] == from;
        assert more[k] == from;
      } else if i < |landings| {
        if !HopOver(origin, more[i], occupied) {
          var k :| 0 <= k < i && HopOver(landings[k], landings[i], occupied);
          assert more[k] == landings[k];
        }
      }
    }
  }

  /** Marking a new board key as found leaves fewer keys unfound. */
  lemma FewerUnfound(keys: set<string>, found: set<string>, now: set<string>, x: string)
    requires found <= now && x in keys && x !in now
    ensures |keys - (now + {x})| < |keys - found|
  {
    var rest, before := keys - (now + {x}), keys - found;
    assert rest <= before - {x};
    SubsetCardinality(rest, before - {x});
  }

  lemma SubsetCardinality(a: set<string>, b: set<string>)
    requires a <= b
    ensures |a| <= |b|
  {
    assert b == a + (b - a);
  }

  /**
    The inner dfs of _compute_jump_moves: from coord, add every new free hop
    landing to the shared landings and search on from it.  found holds the
    landings found before this call.
   */
  method Explore(ghost origin: string, coord: Axial, occupied: set<string>, found: seq<string>)
    returns (landings: seq<string>)
    requires KeyFromAxial(coord.q, coord.r).Some?
    requires KeyFromAxial(coord.q, coord.r).value == origin || KeyFromAxial(coord.q, coord.r).value in found
    requires FreeDistinct(found, occupied) && ReachedInOrder(origin, found, occupied)
    ensures FreeDistinct(landings, occupied) && ReachedInOrder(origin, landings, occupied)
    ensures found <= landings
    ensures Closed(coord, landings, occupied)
    ensures ClosedFrom(landings, |found|, landings, occupied)
    decreases |PositionToAxial().Keys - ListSet(found)|
  {
    ghost var from := KeyFromAxial(coord.q, coord.r).value;
    AxialRoundTrip(coord.q, coord.r);
    landings := found;
    for j := 0 to 6
      invariant FreeDistinct(landings, occupied) && ReachedInOrder(origin, landings, occupied)
      invariant found <= landings
      invariant ClosedUpTo(coord, j, landings, occupied)
      invariant ClosedFrom(landings, |found|, landings, occupied)
    {
      var middle, landing := Step(coord, Directions[j], 1), Step(coord, Directions[j], 2);
      var middleKey, landingKey := KeyFromAxial(middle.q, middle.r), KeyFromAxial(landing.q, landing.r);
      assert HopAlong(coord, j, occupied) == (if middleKey.Some? && landingKey.Some? && middleKey.value in occupied then landingKey else None);
      if middleKey.None? || landingKey.None? {
        CoverDirection(coord, j, landings, landings, occupied);
        continue;
      }
      if middleKey.value !in occupied {
        CoverDirection(coord, j, landings, landings, occupied);
        continue;
      }
      if landingKey.value in occupied {
        CoverDirection(coord, j, landings, landings, occupied);
        continue;
      }
      if landingKey.value in landings {
        CoverDirection(coord, j, landings, landings, occupied);
        continue;
      }
      Descend(origin, from, coord, j, occupied, found, landings, landingKey.value);
      ghost var before := landings;
      landings := Explore(origin, landing, occupied, landings + [landingKey.value]);
      Ascend(coord, j, occupied, found, before, landingKey.value, landings);
    }
  }

  /** Closure of the landings from lo on survives the landings a deeper search adds. */
  lemma KeepClosed(before: seq<string>, after: seq<string>, lo: nat, occupied: set<string>)
    requires FreeDistinct(before, occupied) && FreeDistinct(after, occupied)
    requires before <= after && ClosedFrom(before, lo, before, occupied)
    requires ClosedFrom(after, |before|, after, occupied)
    ensures ClosedFrom(after, lo, after, occupied)
  {
    forall i | lo <= i < |before|
      ensures Closed(AxialFromKey(after[i]).value, after, occupied)
    {
      ClosedGrows(AxialFromKey(before[i]).value, before, after, occupied);
    }
  }

  /** After searching from a new landing, direction j is covered and every landing found since `found` is closed. */
  lemma Ascend(coord: Axial, j: nat, occupied: set<string>, found: seq<string>, before: seq<string>, x: string,
               after: seq<string>)
    requires j < 6 && HopAlong(coord, j, occupied) == Some(x)
    requires FreeDistinct(before, occupied) && FreeDistinct(after, occupied)
    requires found <= before && before + [x] <= after
    requires ClosedUpTo(coord, j, before, occupied) && ClosedFrom(before, |found|, before, occupied)
    requires Closed(Step(coord, Directions[j], 2), after, occupied)
    requires ClosedFrom(after, |before| + 1, after, occupied)
    ensures found <= after
    ensures ClosedUpTo(coord, j + 1, after, occupied)
    ensures ClosedFrom(after, |found|, after, occupied)
  {
    assert after[|before|] == x;
    assert before <= after;
    CoverDirection(coord, j, before, after, occupied);
    KeyAtLookup(coord, j, 2);
    assert ClosedFrom(after, |before|, after, occupied);
    KeepClosed(before, after, |found|, occupied);
  }

  /** Every free cell one hop from the origin or from a landing is itself a landing. */
  ghost predicate ReachClosed(origin: string, landings: seq<string>, occupied: set<string>) {
    forall from, to :: (from == origin || from in landings) && HopOver(from, to, occupied) && to !in occupied ==>
      to in landings
  }

  /**
    _compute_jump_moves of the heuristic agent: the landings of every chain of
    hops over occupied cells onto free cells, each listed once, in the order
    the search finds them; none for a key that is not on the board.
   */
  method ComputeJumpMoves(originKey: string, occupied: set<string>) returns (landings: seq<string>)
    ensures AxialFromKey(originKey).None? ==> landings == []
    ensures FreeDistinct(landings, occupied)
    ensures ReachedInOrder(originKey, landings, occupied)
    ensures AxialFromKey(originKey).Some? ==> ReachClosed(originKey, landings, occupied)
  {
    var origin := AxialFromKey(originKey);
    if origin.None? {
      return [];
    }
    KeyRoundTrip(originKey);
    landings := Explore(originKey, origin.value, occupied, []);
    AllClosed(originKey, landings, occupied);
  }

  lemma AllClosed(origin: string, landings: seq<string>, occupied: set<string>)
    requires AxialFromKey(origin).Some? && FreeDistinct(landings, occupied)
    requires Closed(AxialFromKey(origin).value, landings, occupied)
    requires ClosedFrom(landings, 0, landings, occupied)
    ensures ReachClosed(origin, landings, occupied)
  {
    forall from, to | (from == origin || from in landings) && HopOver(from, to, occupied) && to !in occupied
      ensures to in landings
    {
      HopOverIsAlong(from, to, occupied);
    }
  }

  /** A hop over an occupied cell onto a free one. */
  function HopRel(occupied: set<string>): (string, string) -> bool {
    (from: string, to: string) => HopOver(from, to, occupied) && to !in occupied
  }

  /** Every pair of consecutive cells of the path is related by step. */
  ghost predicate Linked(path: seq<string>, step: (string, string) -> bool) {
    forall i :: 0 <= i < |path| - 1 ==> LinkAt(path, i, step)
  }

  ghost predicate LinkAt(path: seq<string>, i: nat, step: (string, string) -> bool)
    requires i < |path| - 1
  {
    step(path[i], path[i + 1])
  }

  /** Consecutive cells of the path are one hop apart over an occupied cell, and every landing is free. */
  ghost predicate HopChain(path: seq<string>, occupied: set<string>) {
    Linked(path, HopRel(occupied))
  }

  /** Completeness: every cell a hop chain from the origin lands on is a landing. */
  lemma {:induction false} ChainsEndInLandings(origin: string, landings: seq<string>, occupied: set<string>,
                                               path: seq<string>, i: nat)
    requires 0 < i < |path| && path[0] == origin && HopChain(path, occupied)
    requires ReachClosed(origin, landings, occupied)
    ensures path[i] in landings
  {
    assert LinkAt(path, i - 1, HopRel(occupied));
    if i == 1 {
      ReachStep(origin, landings, occupied, path, 0);
    } else {
      ChainsEndInLandings(origin, landings, occupied, path, i - 1);
      ReachStep(origin, landings, occupied, path, i - 1);
    }
  }

  /** One hop from the origin or from a landing onto a free cell reaches a landing. */
  lemma ReachStep(origin: string, landings: seq<string>, occupied: set<string>, path: seq<string>, i: nat)
    requires i < |path| - 1 && LinkAt(path, i, HopRel(occupied)) && ReachClosed(origin, landings, occupied)
    requires path[i] == origin || path[i] in landings
    ensures path[i + 1] in landings
  {
  }

  /** Soundness: every landing ends a hop chain from the origin. */
  lemma {:induction false} LandingsEndChains(origin: string, landings: seq<string>, occupied: set<string>, i: nat)
    returns (path: seq<string>)
    requires i < |landings| && FreeDistinct(landings, occupied) && ReachedInOrder(origin, landings, occupied)
    ensures |path| >= 2 && path[0] == origin && path[|path| - 1] == landings[i] && HopChain(path, occupied)
    decreases i
  {
    var to := landings[i];
    assert to !in occupied;
    if HopOver(origin, to, occupied) {
      path := ExtendChain([origin], to, HopRel(occupied));
    } else {
      var k :| 0 <= k < i && HopOver(landings[k], to, occupied);
      var prefix := LandingsEndChains(origin, landings, occupied, k);
      path := ExtendChain(prefix, to, HopRel(occupied));
    }
  }

  /** A step from the end of a linked path extends it. */
  lemma ExtendChain(prefix: seq<string>, to: string, step: (string, string) -> bool) returns (path: seq<string>)
    requires |prefix| >= 1 && Linked(prefix, step) && step(prefix[|prefix| - 1], to)
    ensures path == prefix + [to] && Linked(path, step)
    ensures path[0] == prefix[0] && path[|path| - 1] == to
  {
    path := prefix + [to];
    forall m | 0 <= m < |path| - 1
      ensures LinkAt(path, m, step)
    {
      if m < |prefix| - 1 {
        assert LinkAt(prefix, m, step);
      }
    }
  }

  /** With "0-0" and "0-1" occupied, "0-2" is among the landings from "0-0". */
  lemma JumpMovesExample(landings: seq<string>)
    requires ReachClosed(FormatKey(0, 0), landings, {FormatKey(0, 0), FormatKey(0, 1)})
    ensures FormatKey(0, 2) in landings
  {
    TopRowKeys();
    DownLeftReached(FormatKey(0, 0), FormatKey(0, 1), FormatKey(0, 2), landings);
  }

  /** Landings closed under hops from (0, 0), with it and the cell down-left occupied, hold the cell after that. */
  lemma DownLeftReached(k0: string, k1: string, k2: string, landings: seq<string>)
    requires DownLeftKeys(k0, k1, k2) && ReachClosed(k0, landings, {k0, k1})
    ensures k2 in landings
  {
    DownLeftLanding(k0, k1, k2);
    AlongIsReached(k0, 5, landings, {k0, k1});
  }

  /** A free landing of one hop from the origin is among landings closed under hops. */
  lemma AlongIsReached(origin: string, j: nat, landings: seq<string>, occupied: set<string>)
    requires ReachClosed(origin, landings, occupied)
    requires AxialFromKey(origin).Some? && j < 6 && HopAlong(AxialFromKey(origin).value, j, occupied).Some?
    requires HopAlong(AxialFromKey(origin).value, j, occupied).value !in occupied
    ensures HopAlong(AxialFromKey(origin).value, j, occupied).value in landings
  {
    AlongIsHopOver(origin, j, occupied);
  }
}
