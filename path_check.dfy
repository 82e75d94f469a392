/** Reachability of a goal row. THIS IS NOT PART OF THE SOURCE: the source
    leaves the "no wall may cut a player off" rule as a TODO
    (src/utils/gameLogic.ts:120-121). The definitions below are used only to
    show that isValidWallPlacement, as written, lets a wall through that
    leaves a player with no route to its goal row; no contract of the rules
    functions mentions them. */
module PathCheck {
  import opened GameTypes
  import opened GameLogic
  import opened GameReducer
  import opened GameInvariants

  /** One pawn step the walls allow, with the other pawn ignored. */
  predicate OpenStep(walls: seq<Wall>, a: Position, b: Position) {
    InBounds(b) && IsOrthogonalStep(a, b) && !WallBlocksStep(walls, a, b)
  }

  ghost predicate IsPath(walls: seq<Wall>, path: seq<Position>) {
    && |path| >= 1
    && forall i :: 0 <= i < |path| - 1 ==> OpenStep(walls, path[i], path[i + 1])
  }

  /** Some sequence of open steps leads from the cell to the row. */
  ghost predicate CanReachRow(walls: seq<Wall>, from: Position, goalRow: int) {
    exists path: seq<Position> :: IsPath(walls, path) && path[0] == from && path[|path| - 1].row == goalRow
  }

  // The pen: three walls that shut the two cells (8, 3) and (8, 4) in.
  const LeftPost := Wall("w1", Position(7, 3), Vertical)
  const RightPost := Wall("w2", Position(7, 5), Vertical)
  const Lid := Wall("w3", Position(8, 3), Horizontal)

  predicate InPen(p: Position) {
    p == Position(8, 3) || p == Position(8, 4)
  }

  /** No open step leaves the pen. */
  lemma PenIsClosed(walls: seq<Wall>, a: Position, b: Position)
    requires LeftPost in walls && RightPost in walls && Lid in walls
    requires InPen(a) && OpenStep(walls, a, b)
    ensures InPen(b)
  {
    StepIsNeighbour(a, b);
    if a == Position(8, 3) {
      assert BlocksUp(Lid, a) && BlocksLeft(LeftPost, a);
    } else {
      assert BlocksUp(Lid, a) && BlocksRight(RightPost, a);
    }
  }

  /** Every cell of a path that starts in the pen is in the pen. */
  lemma {:induction false} PathStaysInPen(walls: seq<Wall>, path: seq<Position>, k: nat)
    requires LeftPost in walls && RightPost in walls && Lid in walls
    requires IsPath(walls, path) && InPen(path[0])
    requires k < |path|
    ensures InPen(path[k])
  {
    if k > 0 {
      PathStaysInPen(walls, path, k - 1);
      PenIsClosed(walls, path[k - 1], path[k]);
    }
  }

  /** From inside the pen row 0 cannot be reached. */
  lemma PenCutsOffRowZero(walls: seq<Wall>, from: Position)
    requires LeftPost in walls && RightPost in walls && Lid in walls
    requires InPen(from)
    ensures !CanReachRow(walls, from, 0)
  {
    if CanReachRow(walls, from, 0) {
      var path: seq<Position> :| IsPath(walls, path) && path[0] == from && path[|path| - 1].row == 0;
      PathStaysInPen(walls, path, |path| - 1);
    }
  }

  /** The play that builds the pen around player2, each step accepted by the
      rules: player1 places the left post, player2 steps up, player1 places
      the right post, player2 steps back, player1 places the lid. */
  function SealingPlay(): seq<GameAction> {
    [ PlaceWallAction("p1", LeftPost),
      MovePlayerAction("p2", Position(7, 4)),
      PlaceWallAction("p1", RightPost),
      MovePlayerAction("p2", Position(8, 4)),
      PlaceWallAction("p1", Lid) ]
  }

  function JoinedGame(): GameState {
    InitializeGameState("g", "t", "p1", "Alice").(
      status := Active,
      player2 := Some(NewPlayer("p2", "Bob", Position(8, 4))),
      currentTurn := Some("p1"))
  }

  /** The snapshot after the first k actions of SealingPlay. */
  function Stage(k: nat): GameState
    requires k <= 5
  {
    var g := JoinedGame();
    var p1 := g.player1;
    var p2 := g.player2.value;
    if k == 0 then g
    else if k == 1 then g.(player1 := p1.(wallsLeft := 9), walls := [LeftPost], currentTurn := Some("p2"))
    else if k == 2 then g.(player1 := p1.(wallsLeft := 9), player2 := Some(p2.(position := Position(7, 4))),
                           walls := [LeftPost], currentTurn := Some("p1"))
    else if k == 3 then g.(player1 := p1.(wallsLeft := 8), player2 := Some(p2.(position := Position(7, 4))),
                           walls := [LeftPost, RightPost], currentTurn := Some("p2"))
    else if k == 4 then g.(player1 := p1.(wallsLeft := 8), walls := [LeftPost, RightPost], currentTurn := Some("p1"))
    else g.(player1 := p1.(wallsLeft := 7), walls := [LeftPost, RightPost, Lid], currentTurn := Some("p2"))
  }

  /** Each action of SealingPlay is accepted and leads to the next stage. */
  lemma SealingStep(k: nat)
    requires k < 5
    ensures Reduce(Some(Stage(k)), SealingPlay()[k], "g", "t") == Ok(Stage(k + 1))
  {
    var s := Stage(k);
    if k == 0 {
      assert IsValidWallPlacement(s, "p1", LeftPost);
      assert s.walls + [LeftPost] == [LeftPost];
    } else if k == 1 {
      assert IsValidMove(s, "p2", Position(7, 4));
    } else if k == 2 {
      assert IsValidWallPlacement(s, "p1", RightPost);
      assert s.walls + [RightPost] == [LeftPost, RightPost];
    } else if k == 3 {
      assert IsValidMove(s, "p2", Position(8, 4));
    } else {
      assert IsValidWallPlacement(s, "p1", Lid);
      assert s.walls + [Lid] == [LeftPost, RightPost, Lid];
    }
  }

  /** Running SealingPlay from stage k ends in the last stage. */
  lemma {:induction false} SealingRunFrom(k: nat)
    requires k <= 5
    ensures Run(Stage(k), SealingPlay()[k..], "g", "t") == Ok(Stage(5))
    decreases 5 - k
  {
    if k < 5 {
      SealingStep(k);
      SealingRunFrom(k + 1);
      assert SealingPlay()[k..][1..] == SealingPlay()[k + 1..];
    }
  }

  /** JOIN_GAME by "p2" on a fresh game hosted by "p1" starts SealingPlay;
      the source accepts every step of it, the game stays active with
      player2 to move, and player2 can no longer reach row 0. */
  lemma WallRulesAllowSealingAPlayerIn()
    ensures Reduce(Some(InitializeGameState("g", "t", "p1", "Alice")),
                   JoinGameAction(NewPlayer("p2", "Bob", Position(8, 8))), "g", "t") == Ok(JoinedGame())
    ensures var r := Run(JoinedGame(), SealingPlay(), "g", "t");
      && r.Ok? && r.value.status == Active && r.value.currentTurn == Some("p2")
      && Invariant(r.value)
      && r.value.player2.Some? && r.value.player2.value.position == Position(8, 4)
      && !CanReachRow(r.value.walls, r.value.player2.value.position, 0)
  {
    var init := InitializeGameState("g", "t", "p1", "Alice");
    var join := JoinGameAction(NewPlayer("p2", "Bob", Position(8, 8)));
    InitialStateKeepsInvariant("g", "t", "p1", "Alice");
    ReduceKeepsInvariant(init, join, "g", "t");
    SealingRunFrom(0);
    assert SealingPlay()[0..] == SealingPlay();
    RunKeepsInvariant(JoinedGame(), SealingPlay(), "g", "t");
    PenCutsOffRowZero(Stage(5).walls, Position(8, 4));
  }
}
