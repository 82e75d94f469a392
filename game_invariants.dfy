/** State-machine facts about the reducer: the invariant every snapshot
    reached through the rules keeps, turn alternation, rejection of a second
    action on the same turn, and finality of a finished game.

    The invariant needs one assumption the source does not enforce: the ids
    are non-empty and player2's differs from player1's (joinGame accepts any
    id, src/utils/gameLogic.ts:161-177). */
module GameInvariants {
  import opened GameTypes
  import opened GameLogic
  import opened GameReducer

  /** The assumption on ids: non-empty, and distinct once player2 is there. */
  predicate DistinctIds(s: GameState) {
    && s.player1.id != ""
    && (s.player2.Some? ==> s.player2.value.id != "" && s.player2.value.id != s.player1.id)
  }

  /** Both pawns on the board and on different cells. */
  predicate PawnsPlaced(s: GameState) {
    && InBounds(s.player1.position)
    && (s.player2.Some? ==> InBounds(s.player2.value.position) && s.player2.value.position != s.player1.position)
  }

  /** Every wall on the board came out of a player's budget of ten; a player
      who has not joined yet still holds ten. */
  predicate BudgetsKept(s: GameState) {
    && 0 <= s.player1.wallsLeft <= InitialWalls
    && (s.player2.Some? ==> 0 <= s.player2.value.wallsLeft <= InitialWalls)
    && s.player1.wallsLeft + (if s.player2.Some? then s.player2.value.wallsLeft else InitialWalls) + |s.walls|
       == 2 * InitialWalls
  }

  /** Each wall passed the placement rules against the walls before it. */
  predicate WallsPlacedByRules(walls: seq<Wall>) {
    && (forall i :: 0 <= i < |walls| ==> AnchorInBounds(walls[i]))
    && (forall i, j :: 0 <= i < j < |walls| ==> !SameSlot(walls[i], walls[j]) && !IntersectsExisting(walls[j], walls[i]))
  }

  /** What each status implies about the rest of the snapshot. */
  predicate StatusConsistent(s: GameState) {
    match s.status
    case Waiting =>
      && s.player2.None? && s.currentTurn.None? && s.winner.None? && s.walls == []
      && s.player1.position == Position(0, 4)
    case Active =>
      && s.player2.Some? && s.winner.None?
      && (s.currentTurn == Some(s.player1.id) || s.currentTurn == Some(s.player2.value.id))
      && s.player1.position.row != 8 && s.player2.value.position.row != 0
    case Finished =>
      s.currentTurn.None? && s.winner.Some?
  }

  predicate Invariant(s: GameState) {
    DistinctIds(s) && PawnsPlaced(s) && BudgetsKept(s) && WallsPlacedByRules(s.walls) && StatusConsistent(s)
  }

  /** A JOIN_GAME whose joiner the invariant can accept for this host. */
  predicate FreshJoiner(hostId: string, action: GameAction) {
    action.JoinGameAction? ==> action.player.id != "" && action.player.id != hostId
  }

  /** A fresh game satisfies the invariant. */
  lemma InitialStateKeepsInvariant(gameId: string, createdAt: string, player1Id: string, player1Name: string)
    requires player1Id != ""
    ensures Invariant(InitializeGameState(gameId, createdAt, player1Id, player1Name))
  {
  }

  /** So does the game the reducer invents on a JOIN_GAME with no snapshot. */
  lemma NullJoinKeepsInvariant(action: GameAction, gameId: string, createdAt: string)
    requires action.JoinGameAction? && FreshJoiner(HostId, action)
    ensures Reduce(None, action, gameId, createdAt).Ok?
    ensures Invariant(Reduce(None, action, gameId, createdAt).value)
  {
  }

  /** Appending a wall that passed the placement rules keeps the walls valid. */
  lemma AppendKeepsWallsValid(walls: seq<Wall>, w: Wall)
    requires WallsPlacedByRules(walls)
    requires AnchorInBounds(w)
    requires !(exists x :: x in walls && SameSlot(x, w))
    requires !(exists x :: x in walls && IntersectsExisting(w, x))
    ensures WallsPlacedByRules(walls + [w])
  {
    var ws := walls + [w];
    forall i, j | 0 <= i < j < |ws| ensures !SameSlot(ws[i], ws[j]) && !IntersectsExisting(ws[j], ws[i]) {
      if j == |walls| {
        assert ws[i] in walls;
      }
    }
  }

  /** The walls of a snapshot that keeps the invariant, whatever their order:
      no two share a slot, and no horizontal wall and vertical wall cross at
      their midpoints. */
  lemma PlacedWallsNeverCross(s: GameState, i: nat, j: nat)
    requires Invariant(s)
    requires i < |s.walls| && j < |s.walls| && i != j
    ensures !SameSlot(s.walls[i], s.walls[j])
    ensures s.walls[i].orientation == Horizontal && s.walls[j].orientation == Vertical ==>
              !(s.walls[j].position.row + 1 == s.walls[i].position.row
                && s.walls[j].position.col == s.walls[i].position.col + 1)
  {
    var a, b := s.walls[i], s.walls[j];
    if i < j {
      assert !SameSlot(a, b) && !IntersectsExisting(b, a);
    } else {
      assert !SameSlot(b, a) && !IntersectsExisting(a, b);
    }
    if a.orientation == Horizontal && b.orientation == Vertical {
      CrossingRuleIsOrderDependent(a, b);
    }
  }

  /** Every successful reducer step keeps the invariant. */
  lemma ReduceKeepsInvariant(s: GameState, action: GameAction, gameId: string, createdAt: string)
    requires Invariant(s) && FreshJoiner(s.player1.id, action)
    ensures Reduce(Some(s), action, gameId, createdAt).Ok? ==> Invariant(Reduce(Some(s), action, gameId, createdAt).value)
  {
    match action
    case JoinGameAction(player) =>
    case MovePlayerAction(playerId, p) =>
      if MovePlayer(s, playerId, p).Ok? {
        MovePlayerMovesOnlyTheMover(s, playerId, p);
        MovePlayerEndsOrPassesTurn(s, playerId, p);
      }
    case PlaceWallAction(playerId, w) =>
      if PlaceWall(s, playerId, w).Ok? {
        PlaceWallOutcome(s, playerId, w);
        AppendKeepsWallsValid(s.walls, w);
      }
    case EndTurnAction =>
    case GameOverAction(winnerId) =>
  }

  /** A successful move or wall on an active game that does not end it hands
      the turn to the other of the two players. */
  lemma TurnAlternates(s: GameState, action: GameAction, gameId: string, createdAt: string)
    requires Invariant(s) && s.status == Active
    requires action.MovePlayerAction? || action.PlaceWallAction?
    requires Reduce(Some(s), action, gameId, createdAt).Ok?
    ensures var t := Reduce(Some(s), action, gameId, createdAt).value;
      t.status == Active ==>
        && t.currentTurn.Some? && t.currentTurn != s.currentTurn
        && (t.currentTurn == Some(s.player1.id) || t.currentTurn == Some(s.player2.value.id))
  {
    if action.MovePlayerAction? {
      MovePlayerEndsOrPassesTurn(s, action.playerId, action.position);
    }
  }

  /** A move that ends an active game is won by the mover, who now stands on
      its goal row. */
  lemma WinnerIsTheMover(s: GameState, playerId: string, p: Position)
    requires Invariant(s) && s.status == Active
    requires MovePlayer(s, playerId, p).Ok? && MovePlayer(s, playerId, p).value.status == Finished
    ensures MovePlayer(s, playerId, p).value.winner == Some(playerId)
    ensures playerId == s.player1.id ==> p.row == 8
    ensures playerId != s.player1.id ==> p.row == 0
  {
    MovePlayerMovesOnlyTheMover(s, playerId, p);
    MovePlayerEndsOrPassesTurn(s, playerId, p);
  }

  /** Once a player has acted, the same player's next move or wall on the
      resulting snapshot is refused: a stale repeat cannot act twice. */
  lemma NoSecondActionInSameTurn(s: GameState, action: GameAction, q: Position, w: Wall, gameId: string, createdAt: string)
    requires Invariant(s)
    requires action.MovePlayerAction? || action.PlaceWallAction?
    requires Reduce(Some(s), action, gameId, createdAt).Ok?
    ensures var t := Reduce(Some(s), action, gameId, createdAt).value;
      && MovePlayer(t, action.playerId, q) == Err(NotYourTurnOrInactive)
      && PlaceWall(t, action.playerId, w) == Err(NotYourTurnOrInactive)
  {
    if action.MovePlayerAction? {
      MovePlayerEndsOrPassesTurn(s, action.playerId, action.position);
    }
  }

  /** A finished game refuses joins, moves and walls; END_TURN and GAME_OVER
      leave it finished with its players and walls. */
  lemma FinishedIsFinal(s: GameState, action: GameAction, gameId: string, createdAt: string)
    requires s.status == Finished
    ensures var r := Reduce(Some(s), action, gameId, createdAt);
      && (action.JoinGameAction? || action.MovePlayerAction? || action.PlaceWallAction? ==> r.Err?)
      && (r.Ok? ==> r.value.status == Finished && r.value.player1 == s.player1
                    && r.value.player2 == s.player2 && r.value.walls == s.walls)
  {
  }

  /** The caller's sequential use of the reducer: apply actions in order,
      stopping at the first error. */
  function Run(s: GameState, actions: seq<GameAction>, gameId: string, createdAt: string): Result<GameState>
    decreases |actions|
  {
    if actions == [] then Ok(s)
    else
      match Reduce(Some(s), actions[0], gameId, createdAt)
      case Err(e) => Err(e)
      case Ok(t) => Run(t, actions[1..], gameId, createdAt)
  }

  /** Any run of actions with fresh joiners keeps the invariant, keeps the
      game's host, and only ever appends walls. */
  lemma {:induction false} RunKeepsInvariant(s: GameState, actions: seq<GameAction>, gameId: string, createdAt: string)
    requires Invariant(s)
    requires forall i :: 0 <= i < |actions| ==> FreshJoiner(s.player1.id, actions[i])
    ensures var r := Run(s, actions, gameId, createdAt);
      r.Ok? ==> Invariant(r.value) && r.value.player1.id == s.player1.id && s.walls <= r.value.walls
    decreases |actions|
  {
    if actions != [] {
      ReduceKeepsInvariant(s, actions[0], gameId, createdAt);
      var step := Reduce(Some(s), actions[0], gameId, createdAt);
      if step.Ok? {
        ReduceOnlyGrowsWalls(s, actions[0], gameId, createdAt);
        var t := step.value;
        forall i | 0 <= i < |actions[1..]| ensures FreshJoiner(t.player1.id, actions[1..][i]) {
          assert actions[1..][i] == actions[i + 1];
        }
        RunKeepsInvariant(t, actions[1..], gameId, createdAt);
      }
    }
  }
}
