/**
  Choosing among the jump chains of one piece (_pick_best_jump_sequence),
  choosing among all candidate moves (the arg-max of suggest_move), and the
  step-by-step "secuencia" of the chosen chain.
 */
module MaxSelect {
  import opened Wrappers
  import opened BoardGeometry
  import opened GoalZones

  // ---------------------------------------------------------------------
  // Cutting a chain at its first goal landing
  // ---------------------------------------------------------------------

  /**
    t is s cut at its first landing inside goals: a prefix of s that keeps
    the origin, has no goal cell among its inner landings, and either is all
    of s or stops on a goal landing.
   */
  ghost predicate IsCut(s: seq<string>, t: seq<string>, goals: set<string>) {
    && t <= s
    && (|s| >= 1 ==> |t| >= 1)
    && (forall i :: 1 <= i < |t| - 1 ==> t[i] !in goals)
    && (t == s || (|t| >= 2 && t[|t| - 1] in goals))
  }

  /** The cut from landing i onwards: stop at the first goal landing at or after i. */
  function CutFrom(s: seq<string>, goals: set<string>, i: nat): seq<string>
    requires 1 <= i <= |s|
    decreases |s| - i
  {
    if i == |s| then s
    else if s[i] in goals then s[..i + 1]
    else CutFrom(s, goals, i + 1)
  }

  /** The trimmed chain: untouched when there is no goal cell or no landing. */
  function Cut(s: seq<string>, goals: set<string>): seq<string> {
    if goals == {} || |s| <= 1 then s else CutFrom(s, goals, 1)
  }

  lemma {:induction false} CutFromIsCut(s: seq<string>, goals: set<string>, i: nat)
    requires 1 <= i <= |s|
    requires forall k :: 1 <= k < i ==> s[k] !in goals
    ensures IsCut(s, CutFrom(s, goals, i), goals)
    decreases |s| - i
  {
    if i < |s| && s[i] !in goals {
      CutFromIsCut(s, goals, i + 1);
    }
  }

  /** Two cuts of the same chain are the same sequence. */
  lemma CutUnique(s: seq<string>, t: seq<string>, u: seq<string>, goals: set<string>)
    requires IsCut(s, t, goals) && IsCut(s, u, goals)
    ensures t == u
  {
  }

  /** Cut is exactly the cut the predicate describes, and the only one. */
  lemma CutCharacterised(s: seq<string>, goals: set<string>)
    ensures IsCut(s, Cut(s, goals), goals)
    ensures forall t :: IsCut(s, t, goals) ==> t == Cut(s, goals)
  {
    if goals != {} && |s| > 1 {
      CutFromIsCut(s, goals, 1);
    }
    forall t | IsCut(s, t, goals)
      ensures t == Cut(s, goals)
    {
      CutUnique(s, t, Cut(s, goals), goals);
    }
  }

  /** The trimming loop over the landings of one chain. */
  method Trim(s: seq<string>, goals: set<string>) returns (t: seq<string>)
    ensures t == Cut(s, goals)
    ensures IsCut(s, t, goals)
  {
    CutCharacterised(s, goals);
    t := s;
    if goals != {} && |s| > 1 {
      var idx := 1;
      while idx < |s|
        invariant 1 <= idx <= |s|
        invariant CutFrom(s, goals, idx) == Cut(s, goals)
      {
        if s[idx] in goals {
          t := s[..idx + 1];
          return;
        }
        idx := idx + 1;
      }
    }
  }

  // ---------------------------------------------------------------------
  // Removing repeated cuts
  // ---------------------------------------------------------------------

  /** The cuts of the chains, in order. */
  function Cuts(sequences: seq<seq<string>>, goals: set<string>): (cuts: seq<seq<string>>)
    ensures |cuts| == |sequences|
    ensures forall i :: 0 <= i < |sequences| ==> cuts[i] == Cut(sequences[i], goals)
  {
    if sequences == [] then [] else Cuts(sequences[..|sequences| - 1], goals) + [Cut(sequences[|sequences| - 1], goals)]
  }

  /** The first occurrence of each element, in order of first occurrence. */
  function Dedup(xs: seq<seq<string>>): seq<seq<string>> {
    if xs == [] then []
    else
      var d := Dedup(xs[..|xs| - 1]);
      if xs[|xs| - 1] in d then d else d + [xs[|xs| - 1]]
  }

  ghost predicate NoRepeats(xs: seq<seq<string>>) {
    forall i, j :: 0 <= i < j < |xs| ==> xs[i] != xs[j]
  }

  /** Dedup keeps exactly the elements of its input, once each, and is empty only for empty input. */
  lemma {:induction false} DedupSpec(xs: seq<seq<string>>)
    ensures forall x :: x in Dedup(xs) <==> x in xs
    ensures NoRepeats(Dedup(xs))
    ensures |Dedup(xs)| == 0 <==> |xs| == 0
  {
    if xs != [] {
      var init := xs[..|xs| - 1];
      DedupSpec(init);
      assert xs == init + [xs[|xs| - 1]];
      if xs[|xs| - 1] !in Dedup(init) {
        var d := Dedup(init) + [xs[|xs| - 1]];
        forall i, j | 0 <= i < j < |d|
          ensures d[i] != d[j]
        {
          if j == |d| - 1 {
            assert d[i] in Dedup(init);
          }
        }
      }
    }
  }

  /** The chains that remain candidates after trimming and removing repeats. */
  function Candidates(sequences: seq<seq<string>>, goals: set<string>): seq<seq<string>> {
    Dedup(Cuts(sequences, goals))
  }

  /** Each candidate is the cut of some input chain, and each input chain's cut is a candidate. */
  lemma CandidatesSpec(sequences: seq<seq<string>>, goals: set<string>)
    ensures forall c :: c in Candidates(sequences, goals) <==> exists s :: s in sequences && c == Cut(s, goals)
    ensures NoRepeats(Candidates(sequences, goals))
    ensures |Candidates(sequences, goals)| == 0 <==> |sequences| == 0
  {
    var cuts := Cuts(sequences, goals);
    DedupSpec(cuts);
    forall c | c in Candidates(sequences, goals)
      ensures exists s :: s in sequences && c == Cut(s, goals)
    {
      var i :| 0 <= i < |cuts| && cuts[i] == c;
      assert sequences[i] in sequences;
    }
    forall s | s in sequences
      ensures Cut(s, goals) in Candidates(sequences, goals)
    {
      var i :| 0 <= i < |sequences| && sequences[i] == s;
      assert cuts[i] == Cut(s, goals);
    }
  }

  lemma DedupStep(xs: seq<seq<string>>, x: seq<string>)
    ensures Dedup(xs + [x]) == if x in Dedup(xs) then Dedup(xs) else Dedup(xs) + [x]
  {
    assert (xs + [x])[..|xs + [x]| - 1] == xs;
  }

  lemma CutsStep(sequences: seq<seq<string>>, goals: set<string>, i: nat)
    requires i < |sequences|
    ensures Cuts(sequences[..i + 1], goals) == Cuts(sequences[..i], goals) + [Cut(sequences[i], goals)]
  {
    assert sequences[..i + 1][..i] == sequences[..i];
  }

  lemma Seen(trimmed: seq<seq<string>>, seen: set<seq<string>>, t: seq<string>)
    requires seen == (set x | x in trimmed)
    ensures t !in seen ==> seen + {t} == set x | x in trimmed + [t]
    ensures t in seen <==> t in trimmed
  {
  }

  /** The loop that trims every chain and skips a trimmed chain already seen. */
  method TrimAll(sequences: seq<seq<string>>, goals: set<string>) returns (trimmed: seq<seq<string>>)
    ensures trimmed == Candidates(sequences, goals)
  {
    var seen: set<seq<string>> := {};
    trimmed := [];
    for i := 0 to |sequences|
      invariant trimmed == Dedup(Cuts(sequences[..i], goals))
      invariant seen == set x | x in trimmed
    {
      var t := Trim(sequences[i], goals);
      CutsStep(sequences, goals, i);
      DedupStep(Cuts(sequences[..i], goals), t);
      Seen(trimmed, seen, t);
      if t !in seen {
        seen := seen + {t};
        trimmed := trimmed + [t];
      }
    }
    assert sequences[..|sequences|] == sequences;
  }

  // ---------------------------------------------------------------------
  // Ranking
  // ---------------------------------------------------------------------

  /** A rank component: a whole number, or minus infinity for a landing with no distance. */
  datatype Num = NegInf | Fin(n: int)

  predicate NumLess(a: Num, b: Num) {
    match (a, b)
    case (NegInf, Fin(_)) => true
    case (Fin(x), Fin(y)) => x < y
    case _ => false
  }

  /** Python's tuple order: the first differing component decides, and a proper prefix is smaller. */
  predicate LexLess(a: seq<Num>, b: seq<Num>) {
    |b| > 0 && (|a| == 0 || NumLess(a[0], b[0]) || (a[0] == b[0] && LexLess(a[1..], b[1..])))
  }

  lemma {:induction false} LexIrreflexive(a: seq<Num>)
    ensures !LexLess(a, a)
  {
    if |a| > 0 {
      LexIrreflexive(a[1..]);
    }
  }

  lemma {:induction false} LexTransitive(a: seq<Num>, b: seq<Num>, c: seq<Num>)
    requires LexLess(a, b) && LexLess(b, c)
    ensures LexLess(a, c)
  {
    if |a| > 0 && a[0] == b[0] && b[0] == c[0] {
      LexTransitive(a[1..], b[1..], c[1..]);
    }
  }

  lemma {:induction false} LexTotal(a: seq<Num>, b: seq<Num>)
    ensures a == b || LexLess(a, b) || LexLess(b, a)
  {
    if |a| > 0 && |b| > 0 && a[0] == b[0] {
      LexTotal(a[1..], b[1..]);
      if a[1..] == b[1..] {
        assert a == [a[0]] + a[1..] && b == [b[0]] + b[1..];
      }
    }
  }

  /**
    The rank of a trimmed chain whose origin lies at distance distBefore:
    (progress towards the goal or minus infinity, priority bonus of the final
    cell, number of hops, hex distance travelled or 0).
   */
  function JumpRank(originKey: string, target: int, distBefore: nat, s: seq<string>): (rank: seq<Num>)
    requires |s| >= 1
    ensures |rank| == 4
    ensures rank[0].NegInf? <==> DistanceToGoal(Some(s[|s| - 1]), target).None?
    ensures rank[2] == Fin(|s| - 1)
  {
    var final := s[|s| - 1];
    var distAfter := DistanceToGoal(Some(final), target);
    var progress := if distAfter.Some? then Fin(distBefore - distAfter.value) else NegInf;
    var priority := GoalPriorityBonus(Some(final), target);
    var travel :=
      match (AxialFromKey(originKey), AxialFromKey(final))
      case (Some(a), Some(b)) => HexDistance(a, b)
      case _ => 0;
    [progress, Fin(priority), Fin(|s| - 1), Fin(travel)]
  }

  /** The key used when the origin has no distance: the length of the chain. */
  function LengthRank(s: seq<string>): seq<Num> {
    [Fin(|s|)]
  }

  /** xs[k] is the first element of xs whose key no other element's key exceeds. */
  ghost predicate FirstMaximal(xs: seq<seq<string>>, k: nat, key: seq<string> --> seq<Num>)
    requires forall i :: 0 <= i < |xs| ==> key.requires(xs[i])
  {
    && k < |xs|
    && (forall i :: 0 <= i < k ==> LexLess(key(xs[i]), key(xs[k])))
    && (forall i :: k < i < |xs| ==> !LexLess(key(xs[k]), key(xs[i])))
  }

  /** Python's max(xs, key=key): the first element with the greatest key. */
  method ArgMax(xs: seq<seq<string>>, key: seq<string> --> seq<Num>) returns (k: nat)
    requires |xs| > 0
    requires forall i :: 0 <= i < |xs| ==> key.requires(xs[i])
    ensures FirstMaximal(xs, k, key)
  {
    k := 0;
    var bestKey := key(xs[0]);
    for i := 1 to |xs|
      invariant k < i && bestKey == key(xs[k])
      invariant forall p :: 0 <= p < k ==> LexLess(key(xs[p]), bestKey)
      invariant forall p :: k < p < i ==> !LexLess(bestKey, key(xs[p]))
    {
      var next := key(xs[i]);
      if LexLess(bestKey, next) {
        forall p | 0 <= p < i
          ensures LexLess(key(xs[p]), next)
        {
          if p < k {
            LexTransitive(key(xs[p]), bestKey, next);
          } else if p > k {
            LexTotal(key(xs[p]), bestKey);
            if key(xs[p]) != bestKey {
              LexTransitive(key(xs[p]), bestKey, next);
            }
          }
        }
        k, bestKey := i, next;
      }
    }
  }

  /** A first maximal element is the only one: the maximum under a total order is unique. */
  lemma FirstMaximalUnique(xs: seq<seq<string>>, k: nat, m: nat, key: seq<string> --> seq<Num>)
    requires forall i :: 0 <= i < |xs| ==> key.requires(xs[i])
    requires FirstMaximal(xs, k, key) && FirstMaximal(xs, m, key)
    ensures k == m
  {
    var atK, atM := key(xs[k]), key(xs[m]);
  }

  /** Every candidate's key is at most the chosen one's: no candidate ranks higher. */
  lemma FirstMaximalIsMaximum(xs: seq<seq<string>>, k: nat, key: seq<string> --> seq<Num>, i: nat)
    requires forall i :: 0 <= i < |xs| ==> key.requires(xs[i])
    requires FirstMaximal(xs, k, key) && i < |xs|
    ensures !LexLess(key(xs[k]), key(xs[i]))
  {
    if i < k {
      if LexLess(key(xs[k]), key(xs[i])) {
        LexTransitive(key(xs[k]), key(xs[i]), key(xs[k]));
        LexIrreflexive(key(xs[k]));
      }
    } else if i == k {
      LexIrreflexive(key(xs[k]));
    }
  }

  // ---------------------------------------------------------------------
  // _pick_best_jump_sequence
  // ---------------------------------------------------------------------

  /** set(GOAL_POSITIONS.get(target, [])). */
  function GoalSet(target: int): set<string> {
    ListSet(GoalKeys(target))
  }

  /** The rank the choice uses for an origin: by length without a distance, JumpRank otherwise. */
  function RankFor(originKey: string, target: int): seq<string> --> seq<Num> {
    match DistanceToGoal(Some(originKey), target)
    case None => LengthRank
    case Some(d) => (s: seq<string>) requires |s| >= 1 => JumpRank(originKey, target, d, s)
  }

  /**
    The best chain for a piece at originKey: none exactly when there is no
    chain; otherwise the first candidate (cut, repeats removed) of greatest
    rank.
   */
  method PickBestJumpSequence(originKey: string, sequences: seq<seq<string>>, target: int)
    returns (best: Option<seq<string>>)
    requires forall s :: s in sequences ==> |s| >= 1
    ensures best.None? <==> sequences == []
    ensures best.Some? ==> exists s :: s in sequences && IsCut(s, best.value, GoalSet(target))
    ensures best.Some? ==>
      var candidates := Candidates(sequences, GoalSet(target));
      && (forall i :: 0 <= i < |candidates| ==> RankFor(originKey, target).requires(candidates[i]))
      && exists k: nat :: FirstMaximal(candidates, k, RankFor(originKey, target)) && candidates[k] == best.value
  {
    if sequences == [] {
      return None;
    }
    var goals := GoalSet(target);
    var candidates := TrimAll(sequences, goals);
    CandidatesSpec(sequences, goals);
    CandidatesNonEmpty(sequences, goals);
    var key := RankFor(originKey, target);
    RankForDefined(originKey, target, candidates);
    var k := ArgMax(candidates, key);
    best := Some(candidates[k]);
    PickedIsCut(originKey, sequences, target, k);
  }

  /** Cutting never empties a chain. */
  lemma CandidatesNonEmpty(sequences: seq<seq<string>>, goals: set<string>)
    requires forall s :: s in sequences ==> |s| >= 1
    ensures forall c :: c in Candidates(sequences, goals) ==> |c| >= 1
  {
    CandidatesSpec(sequences, goals);
    forall c | c in Candidates(sequences, goals)
      ensures |c| >= 1
    {
      var s :| s in sequences && c == Cut(s, goals);
      CutCharacterised(s, goals);
    }
  }

  /** The rank is defined on every non-empty chain. */
  lemma RankForDefined(originKey: string, target: int, xs: seq<seq<string>>)
    requires forall c :: c in xs ==> |c| >= 1
    ensures forall i :: 0 <= i < |xs| ==> RankFor(originKey, target).requires(xs[i])
  {
  }

  /** The chosen chain is one input chain cut at its first goal landing, so it stops at the first goal cell it reaches. */
  lemma PickedIsCut(originKey: string, sequences: seq<seq<string>>, target: int, k: nat)
    requires k < |Candidates(sequences, GoalSet(target))|
    ensures exists s :: s in sequences && IsCut(s, Candidates(sequences, GoalSet(target))[k], GoalSet(target))
  {
    var goals := GoalSet(target);
    CandidatesSpec(sequences, goals);
    var c := Candidates(sequences, goals)[k];
    assert c in Candidates(sequences, goals);
    var s :| s in sequences && c == Cut(s, goals);
    CutCharacterised(s, goals);
  }

  // ---------------------------------------------------------------------
  // The arg-max of suggest_move
  // ---------------------------------------------------------------------

  /** A scored candidate move; the score stands for the adjusted heuristic score. */
  datatype MoveCandidate = MoveCandidate(pieceId: string, origin: string, destination: string, score: int,
                                         sequence: Option<seq<string>>)
  {
    predicate IsJump() { sequence.Some? }
  }

  /** c displaces the incumbent b: a higher score, or an equal score as a jump against a non-jump. */
  predicate Displaces(c: MoveCandidate, b: MoveCandidate) {
    c.score > b.score || (c.score == b.score && c.IsJump() && !b.IsJump())
  }

  /** The best candidate over the whole scan, or none when there was no candidate at all. */
  method SelectBest(candidates: seq<MoveCandidate>) returns (best: Option<MoveCandidate>)
    ensures best.None? <==> candidates == []
    ensures best.Some? ==>
      exists k :: && 0 <= k < |candidates| && candidates[k] == best.value
                  && (forall i :: 0 <= i < k ==> Displaces(best.value, candidates[i]))
                  && (forall i :: k < i < |candidates| ==> !Displaces(candidates[i], best.value))
  {
    best := None;
    ghost var k := 0;
    for i := 0 to |candidates|
      invariant best.None? <==> i == 0
      invariant best.Some? ==> k < i && candidates[k] == best.value
      invariant best.Some? ==> forall p :: 0 <= p < k ==> Displaces(best.value, candidates[p])
      invariant best.Some? ==> forall p :: k < p < i ==> !Displaces(candidates[p], best.value)
    {
      var c := candidates[i];
      if best.None? || Displaces(c, best.value) {
        best, k := Some(c), i;
      }
    }
  }

  /** The winner has the top score, and is a jump whenever some top-scoring candidate is one. */
  lemma BestIsTop(candidates: seq<MoveCandidate>, k: nat)
    requires k < |candidates|
    requires forall i :: 0 <= i < k ==> Displaces(candidates[k], candidates[i])
    requires forall i :: k < i < |candidates| ==> !Displaces(candidates[i], candidates[k])
    ensures forall i :: 0 <= i < |candidates| ==> candidates[i].score <= candidates[k].score
    ensures (exists i :: 0 <= i < |candidates| && candidates[i].score == candidates[k].score && candidates[i].IsJump())
            ==> candidates[k].IsJump()
  {
  }

  // ---------------------------------------------------------------------
  // secuencia
  // ---------------------------------------------------------------------

  /** One entry of secuencia: a single hop. */
  datatype HopStep = HopStep(origin: string, destination: string)

  /** The hops of a chain, one per consecutive pair of cells. */
  function Steps(s: seq<string>): (steps: seq<HopStep>)
    requires |s| >= 1
    ensures |steps| == |s| - 1
  {
    if |s| == 1 then [] else [HopStep(s[0], s[1])] + Steps(s[1..])
  }

  /** secuencia: the hops of the chosen chain, present only for a chain of two or more cells. */
  function Secuencia(sequence: Option<seq<string>>): (r: Option<seq<HopStep>>)
    ensures r.Some? <==> sequence.Some? && |sequence.value| >= 2
    ensures r.Some? ==> |r.value| >= 1 && Cells(r.value) == sequence.value
  {
    if sequence.Some? && |sequence.value| >= 2 then
      CellsOfSteps(sequence.value);
      Some(Steps(sequence.value))
    else None
  }

  /** The hops start at the piece's cell, end at the final cell, and each starts where the previous ended. */
  lemma {:induction false} StepsChain(s: seq<string>)
    requires |s| >= 2
    ensures Steps(s)[0].origin == s[0]
    ensures Steps(s)[|s| - 2].destination == s[|s| - 1]
    ensures forall i :: 0 <= i < |s| - 1 ==> Steps(s)[i] == HopStep(s[i], s[i + 1])
    ensures forall i :: 0 <= i < |s| - 2 ==> Steps(s)[i].destination == Steps(s)[i + 1].origin
  {
    if |s| > 2 {
      StepsChain(s[1..]);
    }
  }

  /** The cells visited by a list of hops: the first origin, then every destination. */
  function Cells(steps: seq<HopStep>): (cells: seq<string>)
    requires |steps| >= 1
    ensures |cells| == |steps| + 1
  {
    if |steps| == 1 then [steps[0].origin, steps[0].destination]
    else [steps[0].origin] + Cells(steps[1..])
  }

  /** Reading the cells back off the hops recovers the chain. */
  lemma {:induction false} CellsOfSteps(s: seq<string>)
    requires |s| >= 2
    ensures Cells(Steps(s)) == s
  {
    if |s| > 2 {
      CellsOfSteps(s[1..]);
      assert Steps(s)[1..] == Steps(s[1..]);
      assert s == [s[0]] + s[1..];
    }
  }
}
