# Quoridor-style wall game: rules engine in Dafny

This project models the rules engine of a two-player wall game on a 9×9
board. Each player moves a pawn one orthogonal step at a time or places a
two-cell wall. Player1 starts on (0, 4) and wins on row 8. Player2 starts on
(8, 4) and wins on row 0. Each player has ten walls.

The engine is pure. Each operation takes a snapshot and returns a new
snapshot, or the error the source would throw. The model has the same shape:

- `GameTypes` (src/types/game.ts): `Position`, `Wall` with its
  `Orientation`, `Player`, `GameStatus`, `GameState` and the five-variant
  `GameAction`, plus `Option`, `Result` and one `GameError` per `throw`.
- `GameLogic` (src/utils/gameLogic.ts): `IsValidMove`,
  `IsValidWallPlacement`, `CheckWinCondition`, `InitializeGameState`,
  `JoinGame`, `MovePlayer`, `PlaceWall` and `GetValidMoves`, each
  following the source branch for branch, with lemmas about each.
- `GameReducer` (src/reducers/gameReducer.ts): `Reduce`, the action
  dispatcher, including the case where there is no snapshot yet.
- `GameInvariants`: the invariant that every snapshot reached through the
  reducer keeps, turn alternation, refusal of a second action in the same
  turn, finality of a finished game, and `Run`, which applies a sequence of
  actions in order.
- `PathCheck`: a reachability predicate that is **not part of the source**.
  It is used only to show that the wall rules as written let a player be
  sealed in.
- `Scenarios`: concrete plays.

Points of the source the model keeps on purpose:

- Any id other than player1's is looked up as player2. It is never refused
  as unknown.
- JavaScript truthiness matters in two places. `player2?.id || null` gives
  no turn when player2's id is the empty string. `if (winner)` does not end
  the game when the winner's id is the empty string.
- `movePlayer` and `placeWall` update a pawn or a budget only for player1's
  id or player2's exact id. A third id that holds the turn is checked as
  player2, but it moves or spends nothing, and the turn then passes to
  player1.
- The crossing test is not symmetric between orientations
  (`CrossingRuleIsOrderDependent`).
- The random game id and the creation time are parameters (`gameId`,
  `createdAt`) of `InitializeGameState` and `Reduce`.

The turn-order and invariant proofs assume that the ids are non-empty and
that player2's id differs from player1's (`GameInvariants.DistinctIds`,
`FreshJoiner`). `joinGame` never checks this.

Where the game's written rules and the code differ, the model follows the
code:

- An unknown player id is not rejected; it acts as player2.
- A vertical wall at (0, 4) placed after a horizontal wall at (0, 3) is
  accepted (`ScenarioTouchingWallsAccepted`). The vertical-wall test looks
  only at horizontal walls anchored one row below.
- Walls that overlap along one edge are accepted. Only an exact duplicate of
  anchor and orientation is refused (`ScenarioOverlappingWallsAccepted`).
- There is no check that both players keep a route to their goal row. A play
  that the rules accept seals player2 in (`WallRulesAllowSealingAPlayerIn`).
- Errors are the source's four thrown messages plus the null-state error. The
  model has no finer taxonomy.

## Model

| member | source | states |
|---|---|---|
| GameLogic.GetValidMoves | src/utils/gameLogic.ts:256-268 | at most four positions; every returned position is a valid move and on the board; every valid move is returned |
| GameLogic.FilterValidMoves | src/utils/gameLogic.ts:268 | the result is no longer than the candidates; each kept element is a candidate and a valid move; no valid candidate is dropped |
| GameLogic.StepIsNeighbour | src/utils/gameLogic.ts:26-29 | a single orthogonal step always lands on one of the four listed neighbours |
| GameLogic.ValidMovesAreNeighbours | src/utils/gameLogic.ts:261-266 | every valid move of a known player is one of the four candidates that getValidMoves lists |
| GameLogic.ValidMoveIsOneStepOnBoard | src/utils/gameLogic.ts:11-29 | a valid move has a player behind it, lands in [0,8]×[0,8], avoids the opponent's cell and is exactly one orthogonal unit away (neither zero-length nor diagonal) |
| GameLogic.StepBlockedIffWallCoversEdge | src/utils/gameLogic.ts:31-67 | the direction-by-direction wall test blocks a step iff some wall covers that edge under the direction-free geometry |
| GameLogic.WallBlockingIsSymmetric | src/utils/gameLogic.ts:34-67 | a wall blocks a step iff it blocks the reverse step |
| GameLogic.ValidMoveIff | src/utils/gameLogic.ts:5-70 | isValidMove holds iff the player exists, the target is on the board, not the opponent's cell, one orthogonal step away, and no wall covers that edge |
| GameLogic.HorizontalWallBlocks | src/utils/gameLogic.ts:35-50 | a horizontal wall at (r,c) blocks the step between rows r-1 and r, in both directions, in columns c and c+1 |
| GameLogic.VerticalWallBlocks | src/utils/gameLogic.ts:51-67 | a vertical wall at (r,c) blocks the step between columns c-1 and c, in both directions, in rows r and r+1 |
| GameLogic.OtherIdsActAsPlayer2 | src/utils/gameLogic.ts:79-81 | any id other than player1's is validated exactly as player2 (moves and walls); with no player2 it is refused |
| GameLogic.WallPlacementRules | src/utils/gameLogic.ts:73-124 | placement is accepted iff the player exists with at least one wall left, the anchor is in rows 0-8/cols 0-7 (horizontal) or rows 0-7/cols 0-8 (vertical), no wall has the same anchor and orientation, and no perpendicular wall meets the crossing test as written; no path check |
| GameLogic.TrueCrossingRefused | src/utils/gameLogic.ts:102-118 | two perpendicular walls whose midpoints coincide are refused whichever is placed second |
| GameLogic.CrossingRuleIsOrderDependent | src/utils/gameLogic.ts:101-118 | the two orientation tests agree exactly on midpoint crossings; each refuses one T-shaped contact that the other order accepts |
| GameLogic.WinnerStandsOnGoalRow | src/utils/gameLogic.ts:127-139 | a winner is reported iff player1 is on row 8 or player2 is on row 0; player1 is checked first |
| GameLogic.InitialState | src/utils/gameLogic.ts:142-158 | a new game is waiting, player1 on (0,4) with 10 walls, no player2, no turn, no winner, no walls, with the supplied id and time |
| GameLogic.JoinGameOutcome | src/utils/gameLogic.ts:161-177 | joining fails iff the game is not waiting or already has player2; otherwise the game is active, player2 is on (8,4) with 10 walls, player1 moves first, and nothing else changes |
| GameLogic.MovePlayerRefusals | src/utils/gameLogic.ts:180-187 | a move fails iff the game is not active, it is not the id's turn, or the move is invalid, with the matching error |
| GameLogic.MovePlayerMovesOnlyTheMover | src/utils/gameLogic.ts:189-201 | on success only the mover's pawn is moved; walls, wall budgets and the other player are untouched |
| GameLogic.MovePlayerEndsOrPassesTurn | src/utils/gameLogic.ts:203-216 | on success the game finishes, with the winner set and no turn, exactly when checkWinCondition's result is a non-empty id (player1's id if player1 is on row 8, else player2's id if player2 is on row 0); otherwise it stays active and the turn passes |
| GameLogic.PlaceWallRefusals | src/utils/gameLogic.ts:220-227 | a placement fails iff the game is not active, it is not the id's turn, or the placement is invalid, with the matching error |
| GameLogic.PlaceWallOutcome | src/utils/gameLogic.ts:229-252 | on success the wall is appended to the list; the placer's budget drops by exactly one and stays at or above zero; pawns, status and winner are unchanged; the turn passes; when the id is neither player1's nor player2's, both player records are unchanged |
| GameReducer.ReduceDelegates | src/reducers/gameReducer.ts:32-40 | on a snapshot, JOIN_GAME, MOVE_PLAYER and PLACE_WALL return exactly what joinGame, movePlayer and placeWall return, errors included |
| GameReducer.ReduceNullState | src/reducers/gameReducer.ts:6-30 | with no snapshot, JOIN_GAME yields an active game hosted by "host-id" on (0,4), the joiner on (8,4), 10 walls each, the host's turn; any other action is an error |
| GameReducer.EndTurnOutcome | src/reducers/gameReducer.ts:42-50 | END_TURN leaves a game that is not active unchanged; on an active game it changes only the turn, from player1 to player2 (none when player2 is absent or its id is empty), and from anything else to player1 |
| GameReducer.EndTurnTwiceRestores | src/reducers/gameReducer.ts:45-50 | with two distinct non-empty ids and the turn held by one of them, END_TURN changes the turn, and a second END_TURN restores the original snapshot |
| GameReducer.GameOverOutcome | src/reducers/gameReducer.ts:52-58 | GAME_OVER from any status finishes the game with the given winner and no turn; players and walls are untouched |
| GameReducer.ReduceOnlyGrowsWalls | src/reducers/gameReducer.ts:5-63 | every successful step keeps the game id, extends the wall list by at most one wall at the end, never returns to waiting, and never raises a wall budget |
| GameInvariants.InitialStateKeepsInvariant | src/utils/gameLogic.ts:142-158 | a new game satisfies the state invariant |
| GameInvariants.NullJoinKeepsInvariant | src/reducers/gameReducer.ts:7-26 | the game invented for a null-state join succeeds and satisfies the state invariant |
| GameInvariants.AppendKeepsWallsValid | src/utils/gameLogic.ts:89-118 | appending a wall that passes the validator keeps every wall in range, free of duplicates and free of crossings with the walls placed before it |
| GameInvariants.PlacedWallsNeverCross | src/utils/gameLogic.ts:93-118 | in a snapshot keeping the invariant, whatever their order, no two walls share a slot and no horizontal and vertical wall cross at their midpoints |
| GameInvariants.ReduceKeepsInvariant | src/reducers/gameReducer.ts:32-58 | every successful step keeps the invariant: pawns on the board and apart; budgets in 0..10 and summing with the wall count to 20; walls placed by the rules; status consistent with the turn and the winner |
| GameInvariants.TurnAlternates | src/utils/gameLogic.ts:209-214 | a move or wall that does not end the game hands the turn to the other of the two players |
| GameInvariants.WinnerIsTheMover | src/utils/gameLogic.ts:203-208 | a move that finishes an active game is won by the mover, who now stands on its goal row |
| GameInvariants.NoSecondActionInSameTurn | src/utils/gameLogic.ts:181-183 | after a successful move or wall, the same player's next move or wall on the new snapshot is refused |
| GameInvariants.FinishedIsFinal | src/reducers/gameReducer.ts:32-58 | a finished game refuses joins, moves and walls; END_TURN and GAME_OVER keep it finished with the same players and walls |
| GameInvariants.RunKeepsInvariant | src/reducers/gameReducer.ts:5-63 | any sequence of actions with fresh joiners keeps the invariant and the host, and only appends walls |
| PathCheck.PenIsClosed | src/utils/gameLogic.ts:43-67 | with the three pen walls present, no open step leaves the cells (8,3) and (8,4) |
| PathCheck.PathStaysInPen | src/utils/gameLogic.ts:31-67 | every cell of an open path that starts in the pen is in the pen |
| PathCheck.PenCutsOffRowZero | src/utils/gameLogic.ts:120-121 | from inside the pen there is no open path to row 0 |
| PathCheck.WallRulesAllowSealingAPlayerIn | src/utils/gameLogic.ts:120-123 | the source accepts each step of a play that walls player2 in on row 8; the game stays active and keeps the invariant, and player2 has no route to row 0 |
| Scenarios.ScenarioOpeningMove | src/utils/gameLogic.ts:161-216 | after a join, player1 on (0,4) steps to (1,4) and the turn passes to player2 |
| Scenarios.ScenarioStandingStillRefused | src/utils/gameLogic.ts:26-29 | a zero-length move is refused with the invalid-move error |
| Scenarios.ScenarioDiagonalAndOccupiedRefused | src/utils/gameLogic.ts:22-29 | a diagonal step and a step onto the opponent are refused |
| Scenarios.ScenarioWallBlocksStep | src/utils/gameLogic.ts:35-42 | a horizontal wall at (1,4) stops the step from (0,4) to (1,4) |
| Scenarios.ScenarioTouchingWallsAccepted | src/utils/gameLogic.ts:110-118 | a vertical wall at (0,4) beside a horizontal wall at (0,3) is accepted |
| Scenarios.ScenarioOverlappingWallsAccepted | src/utils/gameLogic.ts:93-99 | horizontal walls at (4,3) and (4,2), which share an edge, are both accepted; the exact duplicate is refused |
| Scenarios.ScenarioWinningMove | src/utils/gameLogic.ts:203-208 | player1 stepping onto row 8 finishes the game with player1 as winner; further moves and walls are refused |

## Left out

- The reducer's `default` branch (src/reducers/gameReducer.ts:60-61) is not modelled. `GameAction` is a closed datatype of exactly five variants, so no other action can reach the reducer.
- The `Move` and `MoveType` types (src/types/game.ts:24-33) are not modelled. The rules engine never uses them.
- `crypto.randomUUID()` and `new Date()` are not modelled. They are outside calls, so the model takes their values as the parameters `gameId` and `createdAt`.
- Coordinates and wall counts are modelled as unbounded integers. JavaScript numbers can also be fractional or non-finite; the model does not cover those values.
- There is no finer error taxonomy. The source reports only its thrown messages, and each becomes one `GameError` constructor.
- The route-to-goal rule is not a contract of any rules function, because the source does not implement it (src/utils/gameLogic.ts:120-121). `PathCheck` defines reachability separately, and uses it only to show the gap.
- The database, realtime sync, host-platform wrappers and UI are not modelled (src/lib/supabase.ts, src/utils/telegram.ts, src/components/, src/pages/). They are I/O and presentation, not part of the rules engine.
