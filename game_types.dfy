/** The value types of the rules engine: board positions, walls, players,
    the game snapshot and the five actions the reducer dispatches.
    Source: src/types/game.ts. */
module GameTypes {

  /** A value that may be absent (the source's `T | null`). */
  datatype Option<+T> = None | Some(value: T)

  /** Why an operation refused to produce a new snapshot; one constructor per
      `throw` in the source. */
  datatype GameError =
    | NotAvailableForJoining   // joinGame: "Game is not available for joining"
    | NotYourTurnOrInactive    // movePlayer/placeWall: "Not your turn or game is not active"
    | InvalidMove              // movePlayer: "Invalid move"
    | InvalidWallPlacement     // placeWall: "Invalid wall placement"
    | NullState                // gameReducer: "Game state is null or undefined"

  /** A new snapshot, or the error the source would have thrown. */
  datatype Result<+T> = Ok(value: T) | Err(error: GameError)

  /** A board cell; rows and columns are plain integers, the board is rows and
      columns 0..8. */
  datatype Position = Position(row: int, col: int)

  datatype Orientation = Horizontal | Vertical

  /** A wall is an anchor cell plus an orientation; the id plays no part in
      any rule. */
  datatype Wall = Wall(id: string, position: Position, orientation: Orientation)

  /** A participant. The profile fields telegramId, rating, wins and losses are
      optional and never read by the rules. */
  datatype Player = Player(
    id: string,
    username: string,
    telegramId: Option<string>,
    rating: Option<int>,
    wins: Option<int>,
    losses: Option<int>,
    wallsLeft: int,
    position: Position)

  datatype GameStatus = Waiting | Active | Finished

  /** One immutable snapshot of a game. player1 is always present; the walls
      are kept in placement order. */
  datatype GameState = GameState(
    id: string,
    status: GameStatus,
    createdAt: string,
    player1: Player,
    player2: Option<Player>,
    currentTurn: Option<string>,
    winner: Option<string>,
    walls: seq<Wall>)

  /** The five actions the reducer understands; END_TURN carries no payload. */
  datatype GameAction =
    | JoinGameAction(player: Player)                      // JOIN_GAME
    | MovePlayerAction(playerId: string, position: Position) // MOVE_PLAYER
    | PlaceWallAction(playerId: string, wall: Wall)       // PLACE_WALL
    | EndTurnAction                                       // END_TURN
    | GameOverAction(winnerId: string)                    // GAME_OVER
}
