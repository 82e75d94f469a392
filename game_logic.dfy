/** The rules of the game: pawn-move and wall-placement validation, win
    detection, and the join / move / wall transitions that build a new
    snapshot. Source: src/utils/gameLogic.ts.

    Every operation is a pure function of the snapshot it is given; where the
    source throws, the model returns Err. */
module GameLogic {
  import opened GameTypes

  /** Walls each player starts with. */
  const InitialWalls: int := 10

  // ---------------------------------------------------------------------
  // JavaScript value semantics the source relies on
  // ---------------------------------------------------------------------

  /** Truthiness of a `string | null`: both null and the empty string are falsy. */
  predicate Truthy(s: Option<string>) {
    s.Some? && s.value != ""
  }

  /** `s || null`. */
  function OrNull(s: Option<string>): Option<string> {
    if Truthy(s) then s else None
  }

  /** `p?.id` on an optional player. */
  function IdOf(p: Option<Player>): Option<string> {
    match p
    case None => None
    case Some(q) => Some(q.id)
  }

  function Abs(x: int): nat {
    if x < 0 then -x else x
  }

  // ---------------------------------------------------------------------
  // Player lookup and board geometry
  // ---------------------------------------------------------------------

  /** The player an id stands for: player1 when the id is player1's, and
      player2 (possibly absent) for every other id. */
  function PlayerFor(s: GameState, playerId: string): Option<Player> {
    if playerId == s.player1.id then Some(s.player1) else s.player2
  }

  /** The other pawn, under the same lookup. */
  function OpponentOf(s: GameState, playerId: string): Option<Player> {
    if playerId == s.player1.id then s.player2 else Some(s.player1)
  }

  predicate InBounds(p: Position) {
    0 <= p.row <= 8 && 0 <= p.col <= 8
  }

  predicate OccupiedByOpponent(s: GameState, playerId: string, p: Position) {
    var other := OpponentOf(s, playerId);
    other.Some? && other.value.position == p
  }

  /** Exactly one unit up, down, left or right. */
  predicate IsOrthogonalStep(from: Position, to: Position) {
    var rowDiff := Abs(to.row - from.row);
    var colDiff := Abs(to.col - from.col);
    (rowDiff == 1 && colDiff == 0) || (rowDiff == 0 && colDiff == 1)
  }

  /** The four cells one step away, in the order up, down, left, right. */
  function Neighbours(p: Position): seq<Position> {
    [Position(p.row - 1, p.col), Position(p.row + 1, p.col),
     Position(p.row, p.col - 1), Position(p.row, p.col + 1)]
  }

  // The four per-direction wall tests of the move validator, each applied to
  // one wall and the mover's current cell.

  predicate BlocksDown(w: Wall, from: Position) {
    && w.orientation == Horizontal
    && w.position.row == from.row + 1
    && (w.position.col == from.col || w.position.col == from.col - 1)
  }

  predicate BlocksUp(w: Wall, from: Position) {
    && w.orientation == Horizontal
    && w.position.row == from.row
    && (w.position.col == from.col || w.position.col == from.col - 1)
  }

  predicate BlocksRight(w: Wall, from: Position) {
    && w.orientation == Vertical
    && w.position.col == from.col + 1
    && (w.position.row == from.row || w.position.row == from.row - 1)
  }

  predicate BlocksLeft(w: Wall, from: Position) {
    && w.orientation == Vertical
    && w.position.col == from.col
    && (w.position.row == from.row || w.position.row == from.row - 1)
  }

  /** The wall test of the move validator: the direction of the step picks
      which of the four tests is run against all walls. */
  predicate WallBlocksStep(walls: seq<Wall>, from: Position, to: Position) {
    if from.row < to.row then exists w :: w in walls && BlocksDown(w, from)
    else if from.row > to.row then exists w :: w in walls && BlocksUp(w, from)
    else if from.col < to.col then exists w :: w in walls && BlocksRight(w, from)
    else if from.col > to.col then exists w :: w in walls && BlocksLeft(w, from)
    else false
  }

  /** Reference geometry of a wall, independent of the direction of travel:
      a horizontal wall anchored at (r, c) covers the edges between rows r-1
      and r in columns c and c+1; a vertical wall anchored at (r, c) covers
      the edges between columns c-1 and c in rows r and r+1. */
  predicate CoversEdge(w: Wall, a: Position, b: Position) {
    var r, c := w.position.row, w.position.col;
    match w.orientation
    case Horizontal =>
      && a.col == b.col && c <= a.col <= c + 1
      && ((a.row == r - 1 && b.row == r) || (b.row == r - 1 && a.row == r))
    case Vertical =>
      && a.row == b.row && r <= a.row <= r + 1
      && ((a.col == c - 1 && b.col == c) || (b.col == c - 1 && a.col == c))
  }

  // ---------------------------------------------------------------------
  // Validators
  // ---------------------------------------------------------------------

  /** isValidMove: the target is on the board, not the opponent's cell, one
      orthogonal step from the mover, and no wall sits on that edge. Whose
      turn it is plays no part. */
  predicate IsValidMove(s: GameState, playerId: string, p: Position) {
    match PlayerFor(s, playerId)
    case None => false
    case Some(player) =>
      && InBounds(p)
      && !OccupiedByOpponent(s, playerId, p)
      && IsOrthogonalStep(player.position, p)
      && !WallBlocksStep(s.walls, player.position, p)
  }

  /** The orientation-specific anchor bounds: horizontal walls rows 0..8 and
      columns 0..7, vertical walls rows 0..7 and columns 0..8. */
  predicate AnchorInBounds(w: Wall) {
    var row, col := w.position.row, w.position.col;
    && !(row < 0 || (w.orientation == Horizontal && row > 8) || (w.orientation == Vertical && row > 7))
    && !(col < 0 || (w.orientation == Horizontal && col > 7) || (w.orientation == Vertical && col > 8))
  }

  /** Same anchor and orientation (ids are ignored). */
  predicate SameSlot(a: Wall, b: Wall) {
    a.position == b.position && a.orientation == b.orientation
  }

  /** The intersection test of a new wall w against one existing wall, as the
      source writes it; the two orientations use different tests. */
  predicate IntersectsExisting(w: Wall, existing: Wall) {
    var row, col := w.position.row, w.position.col;
    if w.orientation == Horizontal then
      && existing.orientation == Vertical
      && existing.position.row <= row
      && existing.position.row + 1 >= row
      && existing.position.col == col + 1
    else
      && existing.orientation == Horizontal
      && existing.position.col <= col
      && existing.position.col + 1 >= col
      && existing.position.row == row + 1
  }

  /** isValidWallPlacement: walls left, anchor in range, no wall in the same
      slot, no intersecting perpendicular wall. There is no path check. */
  predicate IsValidWallPlacement(s: GameState, playerId: string, w: Wall) {
    match PlayerFor(s, playerId)
    case None => false
    case Some(player) =>
      && player.wallsLeft > 0
      && AnchorInBounds(w)
      && !(exists x :: x in s.walls && SameSlot(x, w))
      && !(exists x :: x in s.walls && IntersectsExisting(w, x))
  }

  /** checkWinCondition: player1's id when player1 stands on row 8, else
      player2's id when player2 stands on row 0, else null. */
  function CheckWinCondition(s: GameState): Option<string> {
    if s.player1.position.row == 8 then Some(s.player1.id)
    else if s.player2.Some? && s.player2.value.position.row == 0 then Some(s.player2.value.id)
    else None
  }

  // ---------------------------------------------------------------------
  // Transitions
  // ---------------------------------------------------------------------

  function NewPlayer(id: string, username: string, start: Position): Player {
    Player(id, username, None, None, None, None, InitialWalls, start)
  }

  /** initializeGameState; the random game id and the creation time are
      supplied by the caller. */
  function InitializeGameState(gameId: string, createdAt: string, player1Id: string, player1Name: string): GameState {
    GameState(gameId, Waiting, createdAt, NewPlayer(player1Id, player1Name, Position(0, 4)), None, None, None, [])
  }

  /** joinGame. */
  function JoinGame(s: GameState, player2Id: string, player2Name: string): Result<GameState> {
    if s.player2.Some? || s.status != Waiting then Err(NotAvailableForJoining)
    else
      Ok(s.(status := Active,
            player2 := Some(NewPlayer(player2Id, player2Name, Position(8, 4))),
            currentTurn := Some(s.player1.id)))
  }

  /** The turn after playerId acted: player2's id after player1 (null when
      there is no player2 or its id is empty), player1's id after any other id. */
  function TurnAfter(s: GameState, playerId: string): Option<string> {
    if playerId == s.player1.id then OrNull(IdOf(s.player2)) else Some(s.player1.id)
  }

  /** The move's effect on the pawns: player1's pawn when the id is player1's,
      else player2's pawn when the id is player2's, else nothing. */
  function WithPosition(s: GameState, playerId: string, p: Position): GameState {
    if playerId == s.player1.id then s.(player1 := s.player1.(position := p))
    else if s.player2.Some? && playerId == s.player2.value.id then s.(player2 := Some(s.player2.value.(position := p)))
    else s
  }

  /** movePlayer. */
  function MovePlayer(s: GameState, playerId: string, p: Position): Result<GameState> {
    if s.status != Active || s.currentTurn != Some(playerId) then Err(NotYourTurnOrInactive)
    else if !IsValidMove(s, playerId, p) then Err(InvalidMove)
    else
      var moved := WithPosition(s, playerId, p);
      var winner := CheckWinCondition(moved);
      if Truthy(winner) then Ok(moved.(status := Finished, winner := winner, currentTurn := None))
      else Ok(moved.(currentTurn := TurnAfter(s, playerId)))
  }

  /** The wall's effect on the budgets, selected like WithPosition. */
  function WithWallSpent(s: GameState, playerId: string): GameState {
    if playerId == s.player1.id then s.(player1 := s.player1.(wallsLeft := s.player1.wallsLeft - 1))
    else if s.player2.Some? && playerId == s.player2.value.id then
      s.(player2 := Some(s.player2.value.(wallsLeft := s.player2.value.wallsLeft - 1)))
    else s
  }

  /** placeWall. */
  function PlaceWall(s: GameState, playerId: string, w: Wall): Result<GameState> {
    if s.status != Active || s.currentTurn != Some(playerId) then Err(NotYourTurnOrInactive)
    else if !IsValidWallPlacement(s, playerId, w) then Err(InvalidWallPlacement)
    else Ok(WithWallSpent(s, playerId).(walls := s.walls + [w], currentTurn := TurnAfter(s, playerId)))
  }

  /** Keeps, in order, the candidates that are valid moves. */
  function FilterValidMoves(s: GameState, playerId: string, candidates: seq<Position>): (r: seq<Position>)
    ensures |r| <= |candidates|
    ensures forall q :: q in r ==> q in candidates && IsValidMove(s, playerId, q)
    ensures forall q :: q in candidates && IsValidMove(s, playerId, q) ==> q in r
  {
    if candidates == [] then []
    else
      (if IsValidMove(s, playerId, candidates[0]) then [candidates[0]] else [])
      + FilterValidMoves(s, playerId, candidates[1..])
  }

  /** getValidMoves: exactly the valid moves, at most four of them, all on
      the board. */
  function GetValidMoves(s: GameState, playerId: string): (r: seq<Position>)
    ensures |r| <= 4
    ensures forall q :: q in r ==> IsValidMove(s, playerId, q) && InBounds(q)
    ensures forall q :: IsValidMove(s, playerId, q) ==> q in r
  {
    match PlayerFor(s, playerId)
    case None => []
    case Some(player) =>
      ValidMovesAreNeighbours(s, playerId);
      FilterValidMoves(s, playerId, Neighbours(player.position))
  }

  // ---------------------------------------------------------------------
  // Properties of the move validator
  // ---------------------------------------------------------------------

  /** The only cells one orthogonal step away are the four neighbours. */
  lemma StepIsNeighbour(from: Position, to: Position)
    requires IsOrthogonalStep(from, to)
    ensures to in Neighbours(from)
  {
    if to.row < from.row {
      assert to == Neighbours(from)[0];
    } else if to.row > from.row {
      assert to == Neighbours(from)[1];
    } else if to.col < from.col {
      assert to == Neighbours(from)[2];
    } else {
      assert to == Neighbours(from)[3];
    }
  }

  /** Every valid move goes to one of the mover's four neighbours. */
  lemma ValidMovesAreNeighbours(s: GameState, playerId: string)
    requires PlayerFor(s, playerId).Some?
    ensures forall q :: IsValidMove(s, playerId, q) ==> q in Neighbours(PlayerFor(s, playerId).value.position)
  {
    forall q | IsValidMove(s, playerId, q) ensures q in Neighbours(PlayerFor(s, playerId).value.position) {
      StepIsNeighbour(PlayerFor(s, playerId).value.position, q);
    }
  }

  /** A valid move lands on the board, off the opponent's cell, exactly one
      unit away from the mover (so neither a zero-length nor a diagonal step). */
  lemma ValidMoveIsOneStepOnBoard(s: GameState, playerId: string, p: Position)
    requires IsValidMove(s, playerId, p)
    ensures PlayerFor(s, playerId).Some?
    ensures 0 <= p.row <= 8 && 0 <= p.col <= 8
    ensures OpponentOf(s, playerId).Some? ==> p != OpponentOf(s, playerId).value.position
    ensures var cur := PlayerFor(s, playerId).value.position;
            Abs(p.row - cur.row) + Abs(p.col - cur.col) == 1 && p in Neighbours(cur)
  {
    StepIsNeighbour(PlayerFor(s, playerId).value.position, p);
  }

  /** The direction-by-direction wall test of the move validator agrees with
      the direction-free geometry of CoversEdge. */
  lemma StepBlockedIffWallCoversEdge(walls: seq<Wall>, a: Position, b: Position)
    requires IsOrthogonalStep(a, b)
    ensures WallBlocksStep(walls, a, b) <==> exists w :: w in walls && CoversEdge(w, a, b)
  {
    if a.row < b.row {
      assert forall w :: BlocksDown(w, a) <==> CoversEdge(w, a, b);
    } else if a.row > b.row {
      assert forall w :: BlocksUp(w, a) <==> CoversEdge(w, a, b);
    } else if a.col < b.col {
      assert forall w :: BlocksRight(w, a) <==> CoversEdge(w, a, b);
    } else {
      assert forall w :: BlocksLeft(w, a) <==> CoversEdge(w, a, b);
    }
  }

  /** A wall that blocks a step blocks the step back. */
  lemma WallBlockingIsSymmetric(walls: seq<Wall>, a: Position, b: Position)
    requires IsOrthogonalStep(a, b)
    ensures WallBlocksStep(walls, a, b) <==> WallBlocksStep(walls, b, a)
  {
    StepBlockedIffWallCoversEdge(walls, a, b);
    StepBlockedIffWallCoversEdge(walls, b, a);
    assert forall w :: CoversEdge(w, a, b) <==> CoversEdge(w, b, a);
  }

  /** The full meaning of isValidMove in geometric terms. */
  lemma ValidMoveIff(s: GameState, playerId: string, p: Position)
    ensures IsValidMove(s, playerId, p) <==>
      && PlayerFor(s, playerId).Some?
      && InBounds(p)
      && !OccupiedByOpponent(s, playerId, p)
      && IsOrthogonalStep(PlayerFor(s, playerId).value.position, p)
      && !(exists w :: w in s.walls && CoversEdge(w, PlayerFor(s, playerId).value.position, p))
  {
    if PlayerFor(s, playerId).Some? && IsOrthogonalStep(PlayerFor(s, playerId).value.position, p) {
      StepBlockedIffWallCoversEdge(s.walls, PlayerFor(s, playerId).value.position, p);
    }
  }

  /** A horizontal wall at (r, c) blocks the vertical step between rows r-1
      and r, in both directions, in column c and in column c+1. */
  lemma HorizontalWallBlocks(s: GameState, playerId: string, w: Wall, col: int)
    requires w in s.walls && w.orientation == Horizontal
    requires col == w.position.col || col == w.position.col + 1
    requires PlayerFor(s, playerId).Some?
    ensures PlayerFor(s, playerId).value.position == Position(w.position.row - 1, col) ==>
              !IsValidMove(s, playerId, Position(w.position.row, col))
    ensures PlayerFor(s, playerId).value.position == Position(w.position.row, col) ==>
              !IsValidMove(s, playerId, Position(w.position.row - 1, col))
  {
    var cur := PlayerFor(s, playerId).value.position;
    if cur == Position(w.position.row - 1, col) {
      assert BlocksDown(w, cur);
    } else if cur == Position(w.position.row, col) {
      assert BlocksUp(w, cur);
    }
  }

  /** A vertical wall at (r, c) blocks the horizontal step between columns
      c-1 and c, in both directions, in row r and in row r+1. */
  lemma VerticalWallBlocks(s: GameState, playerId: string, w: Wall, row: int)
    requires w in s.walls && w.orientation == Vertical
    requires row == w.position.row || row == w.position.row + 1
    requires PlayerFor(s, playerId).Some?
    ensures PlayerFor(s, playerId).value.position == Position(row, w.position.col - 1) ==>
              !IsValidMove(s, playerId, Position(row, w.position.col))
    ensures PlayerFor(s, playerId).value.position == Position(row, w.position.col) ==>
              !IsValidMove(s, playerId, Position(row, w.position.col - 1))
  {
    var cur := PlayerFor(s, playerId).value.position;
    if cur == Position(row, w.position.col - 1) {
      assert BlocksRight(w, cur);
    } else if cur == Position(row, w.position.col) {
      assert BlocksLeft(w, cur);
    }
  }

  /** An id that is not player1's is validated as player2, whatever it is;
      with no player2 every such id is refused. */
  lemma OtherIdsActAsPlayer2(s: GameState, playerId: string, p: Position, w: Wall)
    requires playerId != s.player1.id
    ensures s.player2.None? ==> !IsValidMove(s, playerId, p) && !IsValidWallPlacement(s, playerId, w)
    ensures s.player2.Some? && s.player2.value.id != s.player1.id ==>
              && IsValidMove(s, playerId, p) == IsValidMove(s, s.player2.value.id, p)
              && IsValidWallPlacement(s, playerId, w) == IsValidWallPlacement(s, s.player2.value.id, w)
  {
  }

  // ---------------------------------------------------------------------
  // Properties of the wall validator
  // ---------------------------------------------------------------------

  /** isValidWallPlacement accepts exactly when the placing player has a wall
      left, the anchor is in its orientation's range, no wall has the same
      anchor and orientation, and no perpendicular wall meets the crossing
      test; nothing else (in particular no path check) is required. */
  lemma WallPlacementRules(s: GameState, playerId: string, w: Wall)
    ensures IsValidWallPlacement(s, playerId, w) <==>
      && PlayerFor(s, playerId).Some?
      && PlayerFor(s, playerId).value.wallsLeft >= 1
      && (if w.orientation == Horizontal
          then 0 <= w.position.row <= 8 && 0 <= w.position.col <= 7
          else 0 <= w.position.row <= 7 && 0 <= w.position.col <= 8)
      && (forall x :: x in s.walls ==> !(x.position == w.position && x.orientation == w.orientation))
      && (forall x :: x in s.walls ==>
            if w.orientation == Horizontal
            then !(x.orientation == Vertical && x.position.row <= w.position.row <= x.position.row + 1
                   && x.position.col == w.position.col + 1)
            else !(x.orientation == Horizontal && x.position.col <= w.position.col <= x.position.col + 1
                   && x.position.row == w.position.row + 1))
  {
  }

  /** Two perpendicular walls whose midpoints meet (the vertical wall at
      (r-1, c+1) through the horizontal wall at (r, c)) are refused in either
      order of placement. */
  lemma TrueCrossingRefused(s: GameState, playerId: string, h: Wall, v: Wall)
    requires h.orientation == Horizontal && v.orientation == Vertical
    requires v.position.row + 1 == h.position.row && v.position.col == h.position.col + 1
    ensures h in s.walls ==> !IsValidWallPlacement(s, playerId, v)
    ensures v in s.walls ==> !IsValidWallPlacement(s, playerId, h)
  {
    assert IntersectsExisting(v, h) && IntersectsExisting(h, v);
  }

  /** The crossing test is not symmetric: a pair is refused in both orders
      exactly when the midpoints meet; each orientation additionally refuses
      one T-shaped contact that the other orientation lets through. */
  lemma CrossingRuleIsOrderDependent(h: Wall, v: Wall)
    requires h.orientation == Horizontal && v.orientation == Vertical
    ensures (IntersectsExisting(h, v) && IntersectsExisting(v, h)) <==>
              (v.position.row + 1 == h.position.row && v.position.col == h.position.col + 1)
    ensures h.position.row == v.position.row && v.position.col == h.position.col + 1 ==>
              IntersectsExisting(h, v) && !IntersectsExisting(v, h)
    ensures h.position.row == v.position.row + 1 && v.position.col == h.position.col ==>
              IntersectsExisting(v, h) && !IntersectsExisting(h, v)
  {
  }

  // ---------------------------------------------------------------------
  // Properties of win detection and of the transitions
  // ---------------------------------------------------------------------

  /** The winner reported is a player standing on that player's goal row:
      row 8 for player1, row 0 for player2, player1 checked first. */
  lemma WinnerStandsOnGoalRow(s: GameState)
    ensures CheckWinCondition(s) == Some(s.player1.id) <== s.player1.position.row == 8
    ensures CheckWinCondition(s).Some? <==>
              s.player1.position.row == 8 || (s.player2.Some? && s.player2.value.position.row == 0)
    ensures s.player1.position.row != 8 && s.player2.Some? && s.player2.value.position.row == 0 ==>
              CheckWinCondition(s) == Some(s.player2.value.id)
  {
  }

  /** initializeGameState waits for a second player, with player1 on (0, 4)
      holding ten walls and nothing else set. */
  lemma InitialState(gameId: string, createdAt: string, player1Id: string, player1Name: string)
    ensures var s := InitializeGameState(gameId, createdAt, player1Id, player1Name);
      && s.status == Waiting && s.id == gameId && s.createdAt == createdAt
      && s.player1.id == player1Id && s.player1.username == player1Name
      && s.player1.position == Position(0, 4) && s.player1.wallsLeft == 10
      && s.player2.None? && s.currentTurn.None? && s.winner.None? && s.walls == []
  {
  }

  /** joinGame fails unless the game is waiting without a player2; otherwise
      it activates the game with player2 on (8, 4) holding ten walls and
      player1 to move, and changes nothing else. */
  lemma JoinGameOutcome(s: GameState, player2Id: string, player2Name: string)
    ensures JoinGame(s, player2Id, player2Name).Err? <==> s.status != Waiting || s.player2.Some?
    ensures JoinGame(s, player2Id, player2Name).Err? ==> JoinGame(s, player2Id, player2Name).error == NotAvailableForJoining
    ensures JoinGame(s, player2Id, player2Name).Ok? ==>
      var t := JoinGame(s, player2Id, player2Name).value;
      && t.status == Active
      && t.player2.Some? && t.player2.value.id == player2Id && t.player2.value.username == player2Name
      && t.player2.value.position == Position(8, 4) && t.player2.value.wallsLeft == 10
      && t.currentTurn == Some(s.player1.id)
      && t.id == s.id && t.createdAt == s.createdAt && t.player1 == s.player1
      && t.winner == s.winner && t.walls == s.walls
  {
  }

  /** movePlayer refuses, with the source's two errors, exactly when the game
      is not active, it is not the id's turn, or the move is not valid. */
  lemma MovePlayerRefusals(s: GameState, playerId: string, p: Position)
    ensures MovePlayer(s, playerId, p).Err? <==>
              s.status != Active || s.currentTurn != Some(playerId) || !IsValidMove(s, playerId, p)
    ensures s.status != Active || s.currentTurn != Some(playerId) ==>
              MovePlayer(s, playerId, p) == Err(NotYourTurnOrInactive)
    ensures s.status == Active && s.currentTurn == Some(playerId) && !IsValidMove(s, playerId, p) ==>
              MovePlayer(s, playerId, p) == Err(InvalidMove)
  {
  }

  /** A successful move changes only the mover's pawn: the walls, the wall
      budgets and the other player are untouched. */
  lemma MovePlayerMovesOnlyTheMover(s: GameState, playerId: string, p: Position)
    requires MovePlayer(s, playerId, p).Ok?
    ensures var t := MovePlayer(s, playerId, p).value;
      && t.id == s.id && t.createdAt == s.createdAt && t.walls == s.walls
      && (playerId == s.player1.id ==>
            t.player1 == s.player1.(position := p) && t.player2 == s.player2)
      && (playerId != s.player1.id ==>
            t.player1 == s.player1 && t.player2.Some? && s.player2.Some?
            && t.player2.value.(position := s.player2.value.position) == s.player2.value
            && (t.player2.value.position == p <==> playerId == s.player2.value.id))
  {
  }

  /** After a successful move the game is finished, with the winner recorded
      and no one to move, when a player with a non-empty id stands on its goal
      row; otherwise it stays active and the turn passes to the other player. */
  lemma MovePlayerEndsOrPassesTurn(s: GameState, playerId: string, p: Position)
    requires MovePlayer(s, playerId, p).Ok?
    ensures var t := MovePlayer(s, playerId, p).value;
      if Truthy(CheckWinCondition(t)) then
        t.status == Finished && t.winner == CheckWinCondition(t) && t.currentTurn.None?
      else
        t.status == Active && t.winner == s.winner && t.currentTurn == TurnAfter(s, playerId)
    ensures playerId == s.player1.id && p.row == 8 && playerId != "" ==>
      var t := MovePlayer(s, playerId, p).value;
      t.status == Finished && t.winner == Some(playerId) && t.currentTurn.None?
    ensures && playerId != s.player1.id && s.player2.Some? && playerId == s.player2.value.id
            && p.row == 0 && playerId != "" && s.player1.position.row != 8 ==>
      var t := MovePlayer(s, playerId, p).value;
      t.status == Finished && t.winner == Some(playerId) && t.currentTurn.None?
  {
  }

  /** placeWall refuses, with the source's two errors, exactly when the game
      is not active, it is not the id's turn, or the placement is not valid. */
  lemma PlaceWallRefusals(s: GameState, playerId: string, w: Wall)
    ensures PlaceWall(s, playerId, w).Err? <==>
              s.status != Active || s.currentTurn != Some(playerId) || !IsValidWallPlacement(s, playerId, w)
    ensures s.status != Active || s.currentTurn != Some(playerId) ==>
              PlaceWall(s, playerId, w) == Err(NotYourTurnOrInactive)
    ensures s.status == Active && s.currentTurn == Some(playerId) && !IsValidWallPlacement(s, playerId, w) ==>
              PlaceWall(s, playerId, w) == Err(InvalidWallPlacement)
  {
  }

  /** A successful placement appends the wall, takes exactly one wall from
      the placing player (who keeps at least zero), leaves the pawns, the
      status and the winner alone, and passes the turn. */
  lemma PlaceWallOutcome(s: GameState, playerId: string, w: Wall)
    requires PlaceWall(s, playerId, w).Ok?
    ensures var t := PlaceWall(s, playerId, w).value;
      && t.walls == s.walls + [w]
      && t.status == s.status == Active && t.winner == s.winner
      && t.id == s.id && t.createdAt == s.createdAt
      && t.currentTurn == TurnAfter(s, playerId)
      && t.player1.position == s.player1.position
      && (playerId == s.player1.id ==>
            t.player1 == s.player1.(wallsLeft := s.player1.wallsLeft - 1) && t.player1.wallsLeft >= 0
            && t.player2 == s.player2)
      && (playerId != s.player1.id && s.player2.Some? && playerId == s.player2.value.id ==>
            t.player1 == s.player1
            && t.player2 == Some(s.player2.value.(wallsLeft := s.player2.value.wallsLeft - 1))
            && t.player2.value.wallsLeft >= 0)
      && (playerId != s.player1.id && (s.player2.None? || playerId != s.player2.value.id) ==>
            t.player1 == s.player1 && t.player2 == s.player2)
  {
  }
}
