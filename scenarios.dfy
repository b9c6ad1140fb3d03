// Client runs of the game engine: what a caller can conclude from the contracts alone.

module Scenarios {

  import opened Board
  import opened Rules
  import opened SnakeGame

  /** Normal difficulty, food placed right in front of the start head: the first tick eats it. */
  method EatOnFirstTick()
  {
    var g := new Game();
    assert Cell(6, 10) in DrawsOffSnake([Cell(6, 10)], StartSnake());
    g.StartGame([], [Cell(6, 10)]);
    assert g.obstacles == [] && g.food == Some(Cell(6, 10));
    assert g.gameSpeed == 100;

    var next := Cell(0, 0);
    assert FoodFits([next][0], [Step(g.snake[0], g.direction)] + g.snake, g.obstacles);
    g.GameLoop([next]);
    assert g.gameRunning && g.score == 10;
    assert g.snake == [Cell(6, 10), Cell(5, 10), Cell(4, 10), Cell(3, 10)];
    assert g.food == Some(next);

    // reversing is ignored; turning up and moving on does not grow the snake
    g.ChangeDirection(Left);
    assert g.direction == Right;
    g.ChangeDirection(Up);
    g.GameLoop([]);
    assert g.snake == [Cell(6, 9), Cell(6, 10), Cell(5, 10), Cell(4, 10)];
    assert g.score == 10;
  }

  /** Medium difficulty: three obstacles, the 80 ms interval, food off the snake and the obstacles. */
  method StartMedium()
  {
    var g := new Game();
    g.SetDifficulty(Medium);
    var obstacleDraws := [Cell(3, 10), Cell(0, 0), Cell(1, 0), Cell(2, 0)];
    assert AdmissibleDraws(obstacleDraws, StartSnake()) == {Cell(0, 0), Cell(1, 0), Cell(2, 0)};
    var foodDraws := [Cell(0, 19), Cell(1, 19), Cell(2, 19), Cell(3, 19)];
    assert DrawsOffSnake(foodDraws, StartSnake()) == {Cell(0, 19), Cell(1, 19), Cell(2, 19), Cell(3, 19)};
    g.StartGame(obstacleDraws, foodDraws);
    assert g.gameSpeed == 80 && |g.obstacles| == 3;
    assert Cell(3, 10) !in g.obstacles;
    assert g.food.value.y == 19;
  }

  /** A head leaving the grid ends the run and records the score for the difficulty. */
  method RunIntoWall()
  {
    var g := new Game();
    var foodDraws := [Cell(0, 19)];
    assert Cell(0, 19) in DrawsOffSnake(foodDraws, StartSnake());
    g.StartGame([], foodDraws);
    assert g.obstacles == [] && g.food == Some(Cell(0, 19));

    g.ChangeDirection(Up);
    var i := 0;
    while i < 10
      invariant 0 <= i <= 10
      invariant g.Valid() && g.gameRunning && g.direction == Up && g.score == 0
      invariant g.snake[0] == Cell(5, 10 - i)
      invariant forall c :: c in g.snake ==> c.y >= 10 - i
      invariant g.obstacles == [] && g.food == Some(Cell(0, 19))
      invariant g.currentDifficulty == Normal && g.highScores == map[Normal := 0, Medium := 0, Hard := 0]
    {
      g.GameLoop([]);
      i := i + 1;
    }
    g.GameLoop([]);
    assert !g.gameRunning && g.snake[0] == Cell(5, -1);
    assert g.highScores[Normal] == 0 && g.score == 0;
  }
}
