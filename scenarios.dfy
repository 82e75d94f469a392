/** Concrete plays of the rules, each proved of the model as the source
    writes it. */
module Scenarios {
  import opened GameTypes
  import opened GameLogic
  import opened GameReducer

  const Host := NewPlayer("p1", "Alice", Position(0, 4))
  const Guest := NewPlayer("p2", "Bob", Position(8, 4))

  /** An active two-player game, player1 to move, with the given pawns and walls. */
  function Game(p1At: Position, p2At: Position, walls: seq<Wall>): GameState {
    GameState("g", Active, "t", Host.(position := p1At), Some(Guest.(position := p2At)),
              Some("p1"), None, walls)
  }

  /** A fresh game joined by a second player has player1 on (0, 4), player2
      on (8, 4), player1 to move; player1's step to (1, 4) is accepted and
      hands the turn to player2. */
  lemma ScenarioOpeningMove()
    ensures var joined := Reduce(Some(InitializeGameState("g", "t", "p1", "Alice")),
                                 JoinGameAction(Guest), "g", "t");
      && joined == Ok(Game(Position(0, 4), Position(8, 4), []))
      && MovePlayer(joined.value, "p1", Position(1, 4))
           == Ok(Game(Position(1, 4), Position(8, 4), []).(currentTurn := Some("p2")))
  {
  }

  /** A zero-length move is refused. */
  lemma ScenarioStandingStillRefused()
    ensures !IsValidMove(Game(Position(1, 4), Position(8, 4), []), "p1", Position(1, 4))
    ensures MovePlayer(Game(Position(1, 4), Position(8, 4), []), "p1", Position(1, 4)) == Err(InvalidMove)
  {
  }

  /** A diagonal move is refused, and so is a move onto the opponent. */
  lemma ScenarioDiagonalAndOccupiedRefused()
    ensures !IsValidMove(Game(Position(3, 3), Position(8, 4), []), "p1", Position(4, 4))
    ensures !IsValidMove(Game(Position(7, 4), Position(8, 4), []), "p1", Position(8, 4))
  {
  }

  /** A horizontal wall at (1, 4) stops player1 on (0, 4) stepping to (1, 4). */
  lemma ScenarioWallBlocksStep()
    ensures var s := Game(Position(0, 4), Position(8, 4), [Wall("w", Position(1, 4), Horizontal)]);
      !IsValidMove(s, "p1", Position(1, 4)) && MovePlayer(s, "p1", Position(1, 4)) == Err(InvalidMove)
  {
    var w := Wall("w", Position(1, 4), Horizontal);
    assert BlocksDown(w, Position(0, 4));
  }

  /** A vertical wall at (0, 4) next to a horizontal wall at (0, 3) is
      accepted: the vertical test only looks at horizontal walls one row
      below its anchor. */
  lemma ScenarioTouchingWallsAccepted()
    ensures IsValidWallPlacement(Game(Position(0, 4), Position(8, 4), [Wall("a", Position(0, 3), Horizontal)]),
                                 "p1", Wall("b", Position(0, 4), Vertical))
  {
  }

  /** Two horizontal walls that share an edge, at (4, 3) and (4, 2), are both
      accepted: only an exact duplicate is refused. */
  lemma ScenarioOverlappingWallsAccepted()
    ensures IsValidWallPlacement(Game(Position(0, 4), Position(8, 4), [Wall("a", Position(4, 3), Horizontal)]),
                                 "p1", Wall("b", Position(4, 2), Horizontal))
    ensures !IsValidWallPlacement(Game(Position(0, 4), Position(8, 4), [Wall("a", Position(4, 3), Horizontal)]),
                                  "p1", Wall("b", Position(4, 3), Horizontal))
  {
    assert SameSlot(Wall("a", Position(4, 3), Horizontal), Wall("b", Position(4, 3), Horizontal));
  }

  /** player1 stepping onto row 8 finishes the game with player1 the winner
      and no one to move; after that moves and walls are refused. */
  lemma ScenarioWinningMove(q: Position, w: Wall)
    ensures var r := MovePlayer(Game(Position(7, 4), Position(8, 3), []), "p1", Position(8, 4));
      && r.Ok? && r.value.status == Finished && r.value.winner == Some("p1") && r.value.currentTurn.None?
      && MovePlayer(r.value, "p2", q) == Err(NotYourTurnOrInactive)
      && PlaceWall(r.value, "p2", w) == Err(NotYourTurnOrInactive)
  {
  }
}
