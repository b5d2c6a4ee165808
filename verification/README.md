# Hex-star checkers: board, move generation and state, in Dafny

This project models the deterministic game logic behind the two computer
players of a six-pointed-star jumping game ("damas chinas") and the
position-key validator of its data model.

- **Board and keys** (`board_geometry.dfy`, `py_int.dfy`). A cell is named by a
  key `"col-row"`. The literal table of 17 rows fixes the axial coordinate `(q, r)`
  of each of the 121 cells. Both lookup dictionaries are built from that table, by
  a loop proved to produce exactly the two maps. Also here: the six axial
  directions and the hex distance `max(|dq|, |dr|, |dq + dr|)`.
- **Goal zones** (`goal_zones.dfy`). The ten cells of each of the six points, the
  three priority cells of each point, and the point-to-opposite-point map. Also
  the distance to a zone, the priority bonus and the priority penalty (as whole
  numbers), and the parsing of a point number from a piece type.
- **Moves** (`move_rules.dfy`, `max_moves.dfy`):
  - a step moves to a free neighbour;
  - a hop goes two cells along one direction, over an occupied middle cell, onto a
    free cell.

  The heuristic player's flood fill of all cells reachable by hops is a recursive
  method over a growing landing list.
- **Jump chains** (`max_sequences.dfy`). The heuristic player's search for every
  maximal chain of hops is a mutually recursive method. It is proved to return
  exactly the maximal chains.
- **Choosing a chain and a move** (`max_select.dfy`):
  - cut each chain at its first goal landing, drop repeats, and rank the candidates
    lexicographically;
  - pick the best move, where a jump wins ties;
  - expand a chain into origin/destination steps.
- **Tree-search state** (`mcts_state.dfy`, `mcts_agent.dfy`):
  - a class whose `ApplyMove` relocates one piece and passes the turn;
  - move generation for the player to move (steps and single hops);
  - the winner;
  - the agent's short-circuit for zero or one root move, its simulation cap and
    its fallback when the search picks a foreign piece.
- **Key validation** (`game_models.dfy`, `key_consistency.dfy`). `is_valid_position_key`
  is a split at the first `-` with two integer parses and a bounds check against the
  row lengths. This part also relates the validator to the coordinate table.

Board snapshots, owners, targets and the last move are inputs, in place of the
database rows the system reads them from.

## Model

| member | source | states |
|---|---|---|
| BoardGeometry.BuildCoordinateMaps | backend/game/ai/max_agent.py:67-73 | The row-by-row loop over the coordinate table produces exactly the key-to-axial map and its inverse |
| BoardGeometry.KeyRoundTrip | backend/game/ai/max_agent.py:115-125 | Every table key maps to a coordinate, and `_key_from_axial` of that coordinate gives the key back |
| BoardGeometry.AxialRoundTrip | backend/game/ai/max_agent.py:115-125 | Every coordinate that has a key maps back to itself through that key |
| BoardGeometry.AxialFromKeyInjective | backend/game/ai/max_agent.py:67-73 | No two table keys share an axial coordinate |
| BoardGeometry.KeyFromAxialOnBoard | backend/game/ai/max_agent.py:123-125 | `_key_from_axial` finds a key exactly for the 121 board cells, and that key is the cell's `"col-row"` |
| BoardGeometry.EmptyKeyOffTable | backend/game/ai/max_agent.py:115-120 | The empty key is not on the board, so a missing position has no coordinate |
| BoardGeometry.HexDistance | backend/game/ai/max_agent.py:128-133 | The distance is a natural number, and it is 0 exactly when the two coordinates are equal |
| BoardGeometry.HexDistanceSymmetric | backend/game/ai/max_agent.py:128-133 | The distance from a to b equals the distance from b to a |
| BoardGeometry.HexDistanceTriangle | backend/game/ai/max_agent.py:128-133 | The distance obeys the triangle inequality |
| BoardGeometry.AdjacentIffDirection | backend/game/ai/max_agent.py:75-82 | Two coordinates are at distance 1 exactly when one is a unit step of the other along one of the six directions |
| BoardGeometry.DoubleStepDistance | backend/game/ai/max_agent.py:75-82 | Two steps along a direction are at distance 2, and the middle cell is at distance 1 from both ends |
| GoalZones.GoalKeysOnBoard | backend/game/ai/max_agent.py:84-91 | Every cell listed for a goal zone is a key of the coordinate table |
| GoalZones.DistanceToKeys | backend/game/ai/max_agent.py:136-148 | None exactly for a missing or off-table key, or a zone without board cells; otherwise the minimum hex distance to the zone's cells, at most each of them and equal to one of them |
| GoalZones.ZoneCellsAtDistanceZero | backend/game/ai/max_agent.py:136-148 | Every cell listed in a zone is at distance 0 from that zone |
| GoalZones.GoalPriorityBonus | backend/game/ai/max_agent.py:195-204 | Positive exactly for a key on the zone's priority list; then it is 9 times the key's rank from the end of the list |
| GoalZones.PriorityBonusDecreasesAlongList | backend/game/ai/max_agent.py:195-204 | An earlier priority cell earns a strictly larger bonus than a later one |
| GoalZones.PenaltyAgainst | backend/game/ai/max_agent.py:207-229 | The missing count is the number of priority cells no placed piece holds, and it is 0 exactly when all are held. Blockers are the player's non-priority goal cells, counted only while a cell is missing. The penalty is -30 per missing cell and -15 per blocker, never positive, and 0 exactly when nothing is missing |
| GoalZones.ParsePunta | backend/game/ai/max_agent.py:232-237 | A parsed point number is never negative, because the split consumes any sign |
| GoalZones.ParsePuntaOfTipo | backend/game/ai/max_agent.py:232-237 | A type written `"<point>-<colour>"` parses to its point |
| GoalZones.TargetPunta | backend/game/ai/max_agent.py:240-244 | Defined exactly for the points 0..5, and the target is a different point in 0..5 |
| GoalZones.TargetPuntaInvolution | backend/game/ai/max_agent.py:102 | The opposite of the opposite point is the point itself |
| GoalZones.PriorityEntryOffTable | backend/game/ai/max_agent.py:98 | Zone 4's second priority entry `"1-21"` is not a key of the board |
| GoalZones.Zone4PriorityNeverComplete | backend/game/ai/max_agent.py:98 | As written, zone 4 always counts a missing priority cell for pieces on the board, so its penalty is at most -30 |
| GoalZones.FullZone4StillPenalised | backend/game/ai/max_agent.py:98 | As written, a player filling every cell of zone 4 is still penalised |
| GoalZones.IntendedPriorityCellsInZone | backend/game/ai/max_agent.py:93-100 | With zone 4's entry read as `"1-12"`, every priority cell of every zone is one of that zone's goal cells |
| GoalZones.FullZoneNotPenalised | backend/game/ai/max_agent.py:207-229 | With the intended priority table, a player filling a whole zone pays no priority penalty |
| MoveRules.AdjacentIffNeighbour | backend/game/ai/max_agent.py:874-886 | A key is adjacent to an on-board origin exactly when it is the key one step along some direction |
| MoveRules.SimpleMoves | backend/game/ai/max_agent.py:874-886 | At most six destinations, none repeated, and none for an origin off the table |
| MoveRules.SimpleMovesAreFreeNeighbours | backend/game/ai/max_agent.py:874-886 | A key is a simple move exactly when it is an adjacent board cell outside the occupied set |
| MoveRules.SimpleMoveExample | backend/game/tests/unit/test_move_validation.py:17-21 | From `"0-0"` with only `"0-0"` occupied, `"0-1"` is a simple move |
| MoveRules.StraightIffDoubleStep | backend/game/ai/max_agent.py:888-918 | Two cells are straight two apart exactly when one is a double step of the other, with the single step as the midpoint |
| MoveRules.HopOverIsStraight | backend/game/ai/max_agent.py:888-918 | A hop joins two board cells that are straight two apart, over an occupied midpoint that is a board cell, and nothing else is a hop |
| MoveRules.HopOverIffAlong | backend/game/ai/max_agent.py:897-907 | From an on-board cell, a hop reaches exactly the landings the per-direction middle/landing test accepts |
| MoveRules.SingleHops | backend/game/ai/mcts_agent.py:109-122 | At most six landings, none repeated, and none for an origin off the table |
| MoveRules.SingleHopsAreFreeHops | backend/game/ai/mcts_agent.py:109-122 | A key is a single-hop landing exactly when it is a hop over an occupied middle onto a cell outside the occupied set |
| MoveRules.SingleHopExample | backend/game/tests/unit/test_move_validation.py:29-33 | With `"0-0"` and `"0-1"` occupied, `"0-2"` is a hop landing from `"0-0"` |
| MaxMoves.ComputeSimpleMoves | backend/game/ai/max_agent.py:874-886 | The direction loop returns exactly the simple moves: the free board neighbours, in direction order |
| MaxMoves.ComputeJumpMoves | backend/game/ai/max_agent.py:888-918 | The flood fill returns nothing for an unknown origin. Otherwise its landings are distinct and free, each reached in order by a hop from the origin or an earlier landing, and the set is closed under further hops |
| MaxMoves.Explore | backend/game/ai/max_agent.py:895-915 | One visit extends the shared landing list, keeps it distinct and hop-reachable, and leaves every landing found below this cell closed under hops |
| MaxMoves.ChainsEndInLandings | backend/game/ai/max_agent.py:888-918 | Every cell of every hop chain from the origin is a landing |
| MaxMoves.LandingsEndChains | backend/game/ai/max_agent.py:888-918 | Every landing ends some hop chain of at least one hop from the origin |
| MaxMoves.JumpMovesExample | backend/game/tests/unit/test_move_validation.py:29-33 | With `"0-0"` and `"0-1"` occupied, the landings from `"0-0"` include `"0-2"` |
| MaxSequences.ComputeJumpSequences | backend/game/ai/max_agent.py:920-962 | Nothing for an unknown origin. Otherwise a list holds a sequence exactly when it is a maximal chain: it starts at the origin, has at least two cells, and each hop is over an occupied middle onto a cell that is not the origin, not occupied and not visited before; and no further hop is legal |
| MaxSequences.Chains | backend/game/ai/max_agent.py:931-959 | One search call appends exactly the maximal chains that extend its path |
| MaxSequences.TryDirection | backend/game/ai/max_agent.py:933-956 | One direction's test skips or follows a hop, so the recorded chains become those through the first j+1 directions |
| MaxSequences.Hop | backend/game/ai/max_agent.py:953-956 | Marking a landing visited, searching from it and unmarking it appends exactly the maximal chains through that hop |
| MaxSequences.PathItself | backend/game/ai/max_agent.py:958-959 | The path is recorded exactly when no direction extended it and it holds at least one hop; these are the paths that are maximal chains |
| MaxSequences.NoChainOffBoard | backend/game/ai/max_agent.py:922-924 | An origin off the table has no maximal chain |
| MaxSequences.HopIgnoresOrigin | backend/game/ai/max_agent.py:944 | From a cell with the origin's coordinate parity, testing the middle against the occupied set with or without the origin accepts the same hops, and every landing keeps that parity |
| MaxSequences.ChainParity | backend/game/ai/max_agent.py:931-956 | Every cell of a chain is on the board and has the origin's coordinate parity |
| MaxSequences.MiddleTestHarmless | backend/game/ai/max_agent.py:944-949 | The middle test against the full occupied set, origin included, gives the same maximal chains as a test against the set without the origin |
| MaxSelect.CutCharacterised | backend/game/ai/max_agent.py:462-467 | The cut of a chain is a prefix of it that stops at the first goal landing after the origin, or is the whole chain when it has none; and it is the only such prefix |
| MaxSelect.Trim | backend/game/ai/max_agent.py:462-467 | The scan over the chain returns its cut |
| MaxSelect.CandidatesSpec | backend/game/ai/max_agent.py:459-477 | The candidates are exactly the cuts of the input chains, with no repeats, and empty exactly when the input is empty |
| MaxSelect.TrimAll | backend/game/ai/max_agent.py:459-475 | The loop with its seen set returns the candidates: the cuts in first-seen order, without repeats |
| MaxSelect.LexTotal | backend/game/ai/max_agent.py:486-499 | Rank tuples compare as Python tuples do: any two are equal or one is smaller |
| MaxSelect.LexTransitive | backend/game/ai/max_agent.py:486-499 | The tuple order is transitive |
| MaxSelect.JumpRank | backend/game/ai/max_agent.py:486-497 | A rank has four entries. Progress is minus infinity exactly when the last cell has no distance, and the third entry is the number of hops |
| MaxSelect.ArgMax | backend/game/ai/max_agent.py:482 | The returned index holds a key no other candidate exceeds, and it is the first index with that key (Python's `max` keeps the first maximum) |
| MaxSelect.FirstMaximalUnique | backend/game/ai/max_agent.py:499 | The first maximal candidate is unique |
| MaxSelect.FirstMaximalIsMaximum | backend/game/ai/max_agent.py:499 | No candidate ranks above the one chosen |
| MaxSelect.PickBestJumpSequence | backend/game/ai/max_agent.py:449-499 | None exactly when there are no chains. Otherwise the result is the cut of some input chain, and it is the first best-ranked candidate: by length when the origin has no distance, by the rank tuple otherwise |
| MaxSelect.SelectBest | backend/game/ai/max_agent.py:415-429 | No best exactly when there are no candidates. Otherwise the best displaced every earlier candidate, and no later one displaced it: a later one needs a strictly higher score, or an equal score as a jump against a non-jump |
| MaxSelect.BestIsTop | backend/game/ai/max_agent.py:415-426 | The best has the top score, and it is a jump whenever some top-scoring candidate is a jump |
| MaxSelect.Steps | backend/game/ai/max_agent.py:441-445 | A chain of n cells yields n-1 steps |
| MaxSelect.StepsChain | backend/game/ai/max_agent.py:441-445 | The steps run from the chain's first cell to its last, step i goes from cell i to cell i+1, and each step starts where the previous one ended |
| MaxSelect.CellsOfSteps | backend/game/ai/max_agent.py:441-445 | Reading the cells back off the steps gives the chain again |
| MaxSelect.Secuencia | backend/game/ai/max_agent.py:441-445 | The step list is present exactly when the chosen move has a chain of two or more cells, and reading its cells back gives that chain |
| MctsState.Occupied | backend/game/ai/mcts_agent.py:55 | The occupied set holds exactly the non-empty positions of the pieces |
| MctsState.ChineseCheckersState.CurrentPlayerId | backend/game/ai/mcts_agent.py:51-52 | The player to move is an entry of the player order, and it is the entry at the index when the index is not negative |
| MctsState.ChineseCheckersState.constructor | backend/game/ai/mcts_agent.py:29-48 | The state stores the given tables, order, index and flags, and starts out valid: the piece order lists the owner table's keys once each, and the index addresses a player |
| MctsState.ChineseCheckersState.GetPossibleMoves | backend/game/ai/mcts_agent.py:54-73 | The loop returns the moves of every piece of the player to move, in owner-table order: first its steps (when allowed), then its single hops. These are exactly the legal moves of that player, each listed once |
| MctsState.ChineseCheckersState.ApplyMove | backend/game/ai/mcts_agent.py:75-78 | Only the moved piece's position changes, to the destination. The last move is set, the index advances by one modulo the player count and stays in range, and every other field is unchanged, so the state stays valid |
| MctsState.NextIndex | backend/game/ai/mcts_agent.py:78 | The next turn index lies in 0..n-1 |
| MctsState.NextInRange | backend/game/ai/mcts_agent.py:78 | From an index in range, the next index is the following one, wrapping to 0 after the last |
| MctsState.TurnRotation | backend/game/ai/mcts_agent.py:78 | After k <= n moves the index is i + k, wrapped once |
| MctsState.FullRound | backend/game/ai/mcts_agent.py:78 | After n moves every player has moved once and the turn is back to the same player, not earlier |
| MctsState.MovesAreLegal | backend/game/ai/mcts_agent.py:54-73 | Every generated move belongs to a piece of the player to move, starts at its non-empty position, and goes to a free cell: a step when steps are allowed, or a hop |
| MctsState.LegalMovesGenerated | backend/game/ai/mcts_agent.py:54-73 | Every such legal move of a listed piece is generated |
| MctsState.MovesAreExactlyLegal | backend/game/ai/mcts_agent.py:54-73 | When the order lists every piece of the owner table, a move is generated if and only if it is a legal move of the player to move |
| MctsState.PieceMovesDistinct | backend/game/ai/mcts_agent.py:62-72 | One piece's moves are pairwise distinct: its steps are, its hops are, and no hop lands where a step does |
| MctsState.MovesOfDistinct | backend/game/ai/mcts_agent.py:54-73 | When no piece is listed twice, no move is generated twice |
| MctsState.OnlyHopsWithoutSteps | backend/game/ai/mcts_agent.py:66-71 | When steps are not allowed, every generated move is a hop and never a move to a neighbour |
| MctsState.GeneratedMoveKeepsNoOverlap | backend/game/ai/mcts_agent.py:75-76 | Applying a generated move to positions that are pairwise distinct keeps them pairwise distinct |
| MctsState.FirstWithIsFirst | backend/game/ai/mcts_agent.py:81-92 | The scan returns the first player in order for whom the test holds |
| MctsState.WinnerOf | backend/game/ai/mcts_agent.py:80-93 | A winner has a target, at least one piece on the board, and all such pieces in the target zone. None exactly when no player qualifies |
| MctsState.WinnerIsFirst | backend/game/ai/mcts_agent.py:80-93 | The winner is the first qualifying player in the player order |
| MctsState.ComputeJumpMoves | backend/game/ai/mcts_agent.py:109-122 | The direction loop returns exactly the single-hop landings |
| MctsAgent.SimulationCap | backend/game/ai/mcts_agent.py:240-241 | The cap is the smaller of the requested count and 10 + 2 per root move |
| MctsAgent.Decide | backend/game/ai/mcts_agent.py:183-261 | Fails exactly without root moves, or with two or more and no move chosen. One root move is returned with 0 simulations. Otherwise the simulations are capped, and the move is the chosen one when its piece is the requester's, and the first root move otherwise |
| MctsAgent.SuggestionIsOwn | backend/game/ai/mcts_agent.py:259-261 | When all root moves are the requester's, the answer moves one of the requester's pieces, unless the requester's id is the text "None" and the chosen piece is missing from the owner table |
| MctsAgent.ForeignChoiceFallsBack | backend/game/ai/mcts_agent.py:259-261 | A chosen move whose piece is another player's, or is missing from the owner table, is replaced by the first root move |
| PyInt.ParseIntOfNatToString | backend/game/models.py:16-18 | `int()` reads back the decimal text of every natural number |
| PyInt.ParseIntOfNegated | backend/game/models.py:16-18 | `int()` reads a minus sign followed by digits as the negative number |
| GameModels.ValidatePositionKey | backend/game/models.py:28-30 | Fails exactly when the key is not valid, with the board's error message |
| GameModels.ValidKeyIsInBounds | backend/game/models.py:8-25 | A valid key contains a `-`, both parts parse, the row is in 0..16 and the column is inside that row |
| GameModels.SecondDashBelongsToRow | backend/game/models.py:14 | Only the first `-` splits: `"1--2"` has row -2 and is rejected |
| GameModels.OffBoardKeyRejected | backend/game/tests/test_models.py:157-167 | `"99-99"` parses but is rejected |
| KeyConsistency.RowLengthsMatchTable | backend/game/models.py:5 | Row r of the coordinate table has exactly `ROW_LENGTHS[r]` cells |
| KeyConsistency.TableKeysAccepted | backend/game/models.py:8-25 | Every key of the coordinate table is accepted |
| KeyConsistency.AcceptedKeysNameCells | backend/game/models.py:8-25 | Every accepted key names a board cell: its column and row, written canonically, form a table key |
| KeyConsistency.NonCanonicalKeyAccepted | backend/game/models.py:8-25 | As written, `"01-4"` is accepted but is not a table key |
| KeyConsistency.CanonicalKeysAreTableKeys | backend/game/models.py:8-25 | The validator restricted to canonically written keys accepts exactly the table keys |

## Left out

- Floating-point scoring is not modelled: the weight constants, `_evaluate_state`, `_score_after_move`, `_goal_depth_map` and `_goal_depth_score`. Candidate scores are abstract whole numbers (`MaxSelect.MoveCandidate.score`). The priority bonus and penalty use their weights 9, 30 and 15 as whole numbers.
- Parts of `suggest_move` (max_agent.py) are not modelled: the scan for `has_any_jump` and `outside_progress_possible`, the score adjustments, and the sorting of simple moves before scoring. The model starts from the scored candidate list.
- Database reads, request validation and the response dictionaries are not modelled. Board snapshots, owners, targets and the last move are parameters.
- The tree search (`Node`, `MonteCarlo`), random rollouts and `deepcopy` are foreign code and randomness. `MctsAgent.Decide` takes the move of the child the search chose as a parameter.
- `_get_valid_moves` (max_agent.py:864-872) feeds only the floating-point evaluation, so it is left out.
- PyInt.ParseInt: Python's `int()` also accepts surrounding whitespace and digit-group underscores. The model reads only an optional sign followed by ASCII digits, so a key such as `"1_0-4"` is rejected here but accepted by the source.
- A position of `None` is written `""` here. Both are falsy in the source, and `""` is no board key.
- `piece_type` is stored by the tree-search state but never read. It is omitted.
- Dictionary iteration order in `get_possible_moves` becomes an explicit `pieceOrder` sequence. `MctsState.ChineseCheckersState.Valid` ties it to the owner table: it lists each of the table's keys exactly once. The order itself is left free.
- MaxMoves.ComputeJumpMoves: the landings come back in the order they were found, where the source returns `list(landings)` in set order. The contract speaks only of membership, distinctness and reachability, which do not depend on order.
- MaxSequences.ComputeJumpSequences: the contract states which chains the list holds, not their order or how often each appears.
- MaxSequences.Chains: `visited_landings` is one set mutated in place (add before the recursive call, remove after it). Here it is passed as a value equal to the path's landings, which is the set's contents at every call.
- MaxSelect.PickBestJumpSequence requires every chain to have at least one cell, whether or not the origin has a distance. When it has none, the source picks the longest chain by `len` alone and an empty chain passes without error; only the rank tuple, which reads `seq[-1]`, needs a cell. The function's only caller passes the chains of `_compute_jump_sequences`, which have at least two cells each, so the model drops that case.
- MctsAgent.SuggestionIsOwn assumes either that the requester's id is not the text `"None"` or that the search's chosen piece appears in the owner table. A missing piece reads as `"None"` in the owner check, so only a player with that id could keep it.
- Tree-search moves are single steps and single hops, as `get_possible_moves` generates them. Chains of hops are not generated there, and the model follows the code.
- MctsState.ChineseCheckersState.Winner only delegates to `MctsState.WinnerOf`, which carries the contract.

## Findings

| source | as written | input that shows it | evidently intended | confidence | as-written member | corrected member |
|---|---|---|---|---|---|---|
| backend/game/ai/max_agent.py:98 | Zone 4's priority list holds `'1-21'`, a row the 17-row board does not have, so that priority cell is never filled | every cell of zone 4 occupied: the penalty still counts one missing priority cell (-30) | `'1-12'`, the tip's neighbour in row 12, matching the tip-plus-two-neighbours pattern of the other zones | not executed | GoalZones.FullZone4StillPenalised | GoalZones.FullZoneNotPenalised |
| backend/game/models.py:8-25 | The validator compares parsed integers, so it accepts keys written with leading zeros or a sign | `"01-4"` is accepted, but the coordinate table has `"1-4"` and no `"01-4"` | accept exactly the table's keys, as the row lengths are meant to mirror the table | not executed | KeyConsistency.NonCanonicalKeyAccepted | KeyConsistency.CanonicalKeysAreTableKeys |
