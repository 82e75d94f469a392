/** The action dispatcher: one snapshot (or none) and one action in, a new
    snapshot or an error out. Source: src/reducers/gameReducer.ts.

    The random game id and the creation time that the source draws when it
    has to invent the host's game are parameters here. */
module GameReducer {
  import opened GameTypes
  import opened GameLogic

  /** The id and name the source gives the host it invents on a null state. */
  const HostId: string := "host-id"
  const HostName: string := "Host Player"

  /** END_TURN's new turn: player2's id (null when absent or empty) when it
      was player1's turn, player1's id for every other value, null included. */
  function EndTurnNext(s: GameState): Option<string> {
    if s.currentTurn == Some(s.player1.id) then OrNull(IdOf(s.player2)) else Some(s.player1.id)
  }

  /** gameReducer. */
  function Reduce(state: Option<GameState>, action: GameAction, gameId: string, createdAt: string): Result<GameState> {
    match state
    case None =>
      if action.JoinGameAction? then
        JoinGame(InitializeGameState(gameId, createdAt, HostId, HostName), action.player.id, action.player.username)
      else
        Err(NullState)
    case Some(s) =>
      match action
      case JoinGameAction(player) => JoinGame(s, player.id, player.username)
      case MovePlayerAction(playerId, p) => MovePlayer(s, playerId, p)
      case PlaceWallAction(playerId, w) => PlaceWall(s, playerId, w)
      case EndTurnAction =>
        if s.status != Active then Ok(s) else Ok(s.(currentTurn := EndTurnNext(s)))
      case GameOverAction(winnerId) =>
        Ok(s.(status := Finished, winner := Some(winnerId), currentTurn := None))
  }

  /** On an existing snapshot the three game actions are exactly the rules
      functions, errors included. */
  lemma ReduceDelegates(s: GameState, action: GameAction, gameId: string, createdAt: string)
    ensures action.JoinGameAction? ==>
              Reduce(Some(s), action, gameId, createdAt) == JoinGame(s, action.player.id, action.player.username)
    ensures action.MovePlayerAction? ==>
              Reduce(Some(s), action, gameId, createdAt) == MovePlayer(s, action.playerId, action.position)
    ensures action.PlaceWallAction? ==>
              Reduce(Some(s), action, gameId, createdAt) == PlaceWall(s, action.playerId, action.wall)
  {
  }

  /** JOIN_GAME on no snapshot always succeeds: an active game hosted by
      "host-id" on (0, 4), the joiner on (8, 4), ten walls each, the host to
      move, no walls and no winner. Every other action on no snapshot fails. */
  lemma ReduceNullState(action: GameAction, gameId: string, createdAt: string)
    ensures !action.JoinGameAction? ==> Reduce(None, action, gameId, createdAt) == Err(NullState)
    ensures action.JoinGameAction? ==>
      var r := Reduce(None, action, gameId, createdAt);
      && r.Ok?
      && r.value.id == gameId && r.value.createdAt == createdAt
      && r.value.status == Active
      && r.value.player1 == Player("host-id", "Host Player", None, None, None, None, 10, Position(0, 4))
      && r.value.player2 == Some(Player(action.player.id, action.player.username, None, None, None, None, 10, Position(8, 4)))
      && r.value.currentTurn == Some("host-id")
      && r.value.winner.None? && r.value.walls == []
  {
  }

  /** END_TURN leaves a game that is not active as it is, and on an active
      game changes nothing but the turn. */
  lemma EndTurnOutcome(s: GameState, gameId: string, createdAt: string)
    ensures s.status != Active ==> Reduce(Some(s), EndTurnAction, gameId, createdAt) == Ok(s)
    ensures s.status == Active ==>
      var r := Reduce(Some(s), EndTurnAction, gameId, createdAt);
      && r.Ok? && r.value.(currentTurn := s.currentTurn) == s
      && (s.currentTurn == Some(s.player1.id) && s.player2.Some? && s.player2.value.id != "" ==>
            r.value.currentTurn == Some(s.player2.value.id))
      && (s.currentTurn == Some(s.player1.id) && (s.player2.None? || s.player2.value.id == "") ==>
            r.value.currentTurn.None?)
      && (s.currentTurn != Some(s.player1.id) ==> r.value.currentTurn == Some(s.player1.id))
  {
  }

  /** Two END_TURNs give back the snapshot they started from when the turn
      belonged to one of two distinct players with non-empty ids. */
  lemma EndTurnTwiceRestores(s: GameState, gameId: string, createdAt: string)
    requires s.status == Active && s.player2.Some?
    requires s.player1.id != s.player2.value.id && s.player2.value.id != ""
    requires s.currentTurn == Some(s.player1.id) || s.currentTurn == Some(s.player2.value.id)
    ensures var once := Reduce(Some(s), EndTurnAction, gameId, createdAt);
      && once.Ok? && once.value.currentTurn != s.currentTurn
      && Reduce(Some(once.value), EndTurnAction, gameId, createdAt) == Ok(s)
  {
    var once := Reduce(Some(s), EndTurnAction, gameId, createdAt);
    EndTurnOutcome(s, gameId, createdAt);
    EndTurnOutcome(once.value, gameId, createdAt);
  }

  /** GAME_OVER, from any status, finishes the game with the given winner and
      no one to move; players and walls are untouched. */
  lemma GameOverOutcome(s: GameState, winnerId: string, gameId: string, createdAt: string)
    ensures var r := Reduce(Some(s), GameOverAction(winnerId), gameId, createdAt);
      && r.Ok? && r.value.status == Finished && r.value.winner == Some(winnerId) && r.value.currentTurn.None?
      && r.value.player1 == s.player1 && r.value.player2 == s.player2 && r.value.walls == s.walls
      && r.value.id == s.id && r.value.createdAt == s.createdAt
  {
  }

  /** Whatever the snapshot and action, a successful step keeps the game's
      identity, only appends walls, never takes the game back to waiting
      from another status, and never raises a player's wall budget. */
  lemma ReduceOnlyGrowsWalls(s: GameState, action: GameAction, gameId: string, createdAt: string)
    requires Reduce(Some(s), action, gameId, createdAt).Ok?
    ensures var t := Reduce(Some(s), action, gameId, createdAt).value;
      && t.id == s.id && t.createdAt == s.createdAt
      && s.walls <= t.walls && |t.walls| <= |s.walls| + 1
      && (s.status != Waiting ==> t.status != Waiting)
      && t.player1.id == s.player1.id && t.player1.wallsLeft <= s.player1.wallsLeft
      && (s.player2.Some? ==> t.player2.Some? && t.player2.value.id == s.player2.value.id
                              && t.player2.value.wallsLeft <= s.player2.value.wallsLeft)
  {
    match action
    case MovePlayerAction(playerId, p) =>
      MovePlayerMovesOnlyTheMover(s, playerId, p);
    case PlaceWallAction(playerId, w) =>
      PlaceWallOutcome(s, playerId, w);
      assert s.walls <= s.walls + [w];
    case _ =>
  }
}
