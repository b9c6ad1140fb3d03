// The game state engine: one object holding what the script keeps in module-level variables.

module SnakeGame {

  import opened Board
  import opened Rules

  class Game {
    var snake: seq<Cell>              // head first
    var food: Option<Cell>            // None until the first run places food
    var direction: Direction
    var gameSpeed: int                // tick interval in milliseconds
    var score: int
    var gameRunning: bool
    var currentDifficulty: Difficulty
    var obstacles: seq<Cell>
    var highScores: map<Difficulty, int>

    /** What holds between operations, running or not. */
    ghost predicate Valid()
      reads this
    {
      Normal in highScores && Medium in highScores && Hard in highScores &&
      currentDifficulty in highScores &&
      50 <= gameSpeed && gameSpeed % 5 == 0 &&
      0 <= score && score % 10 == 0 &&
      (gameRunning ==> Playing())
    }

    /** What holds while a run is in progress. */
    ghost predicate Playing()
      reads this
    {
      |snake| >= 3 && WellPlaced(snake) &&
      WellPlaced(obstacles) && Disjoint(snake, obstacles) &&
      food.Some? && InGrid(food.value) && FoodFits(food.value, snake, obstacles)
    }

    constructor ()
      ensures Valid() && !gameRunning
      ensures snake == [] && food == None && direction == Right
      ensures gameSpeed == 100 && score == 0
      ensures currentDifficulty == Normal && obstacles == []
      ensures highScores == map[Normal := 0, Medium := 0, Hard := 0]
    {
      snake := [];
      food := None;
      direction := Right;
      gameSpeed := 100;
      score := 0;
      gameRunning := false;
      currentDifficulty := Normal;
      obstacles := [];
      highScores := map[Normal := 0, Medium := 0, Hard := 0];
    }

    /** Selects the difficulty; the code accepts this at any time, even mid-run. */
    method SetDifficulty(d: Difficulty)
      requires Valid()
      modifies this`currentDifficulty
      ensures Valid() && currentDifficulty == d
    {
      currentDifficulty := d;
    }

    /** Resets and starts a run; does nothing while a run is in progress. */
    method StartGame(obstacleDraws: seq<Cell>, foodDraws: seq<Cell>)
      requires Valid()
      requires forall c :: c in obstacleDraws ==> InGrid(c)
      requires forall c :: c in foodDraws ==> InGrid(c)
      requires !gameRunning ==>
        |AdmissibleDraws(obstacleDraws, StartSnake())| >= ObstacleCount(currentDifficulty)
      requires !gameRunning ==>
        |DrawsOffSnake(foodDraws, StartSnake())| > ObstacleCount(currentDifficulty)
      modifies this
      ensures Valid()
      ensures old(gameRunning) ==> unchanged(this)
      ensures !old(gameRunning) ==>
        gameRunning && snake == StartSnake() && direction == Right && score == 0 &&
        gameSpeed == BaseSpeed(currentDifficulty) &&
        currentDifficulty == old(currentDifficulty) && highScores == old(highScores)
      ensures !old(gameRunning) ==>
        |obstacles| == ObstacleCount(currentDifficulty) && WellPlaced(obstacles) &&
        forall c :: c in obstacles ==> c in obstacleDraws && ObstacleAdmissible(c, snake)
      ensures !old(gameRunning) ==>
        exists n :: 0 <= n <= |obstacleDraws| &&
                    (forall c :: c in obstacles ==> c in obstacleDraws[..n]) &&
                    (forall j :: 0 <= j < n && ObstacleAdmissible(obstacleDraws[j], snake) ==> obstacleDraws[j] in obstacles)
      ensures !old(gameRunning) ==>
        exists k :: 0 <= k < |foodDraws| && food == Some(foodDraws[k]) &&
          FoodFits(foodDraws[k], snake, obstacles) &&
          forall j :: 0 <= j < k ==> !FoodFits(foodDraws[j], snake, obstacles)
    {
      if gameRunning {
        return;
      }
      snake := StartSnake();
      direction := Right;
      score := 0;
      gameSpeed := BaseSpeed(currentDifficulty);
      CreateObstacles(obstacleDraws);
      Pigeonhole(DrawsOffSnake(foodDraws, snake), obstacles);
      ghost var c :| c in DrawsOffSnake(foodDraws, snake) && c !in obstacles;
      assert FoodFits(c, snake, obstacles);
      CreateFood(foodDraws);
      gameRunning := true;
      StartSnakeShape();
      assert Disjoint(snake, obstacles);
    }

    /**
     * Places ObstacleCount(currentDifficulty) obstacles, each the first
     * further draw that is off the snake, off the obstacles placed so far and
     * outside the box around the start cell.
     */
    method CreateObstacles(draws: seq<Cell>)
      requires forall c :: c in draws ==> InGrid(c)
      requires |AdmissibleDraws(draws, snake)| >= ObstacleCount(currentDifficulty)
      modifies this`obstacles
      ensures |obstacles| == ObstacleCount(currentDifficulty)
      ensures WellPlaced(obstacles)
      ensures forall c :: c in obstacles ==> c in draws && ObstacleAdmissible(c, snake)
      ensures exists n :: 0 <= n <= |draws| &&
                          (forall c :: c in obstacles ==> c in draws[..n]) &&
                          (forall j :: 0 <= j < n && ObstacleAdmissible(draws[j], snake) ==> draws[j] in obstacles)
    {
      obstacles := [];
      var obstacleCount := ObstacleCount(currentDifficulty);
      if obstacleCount == 0 {
        assert draws[..0] == [];
        return;
      }
      var pos := 0;
      for i := 0 to obstacleCount
        invariant |obstacles| == i && pos <= |draws|
        invariant WellPlaced(obstacles)
        invariant forall c :: c in obstacles ==> c in draws[..pos] && ObstacleAdmissible(c, snake)
        invariant forall j :: 0 <= j < pos && ObstacleAdmissible(draws[j], snake) ==> draws[j] in obstacles
      {
        // some admissible draw not yet taken lies ahead of pos
        Pigeonhole(AdmissibleDraws(draws, snake), obstacles);
        ghost var c :| c in AdmissibleDraws(draws, snake) && c !in obstacles;
        ghost var k :| 0 <= k < |draws| && draws[k] == c;

        ghost var placed := obstacles;
        ghost var startPos := pos;
        var position: Cell;
        while true
          invariant obstacles == placed
          invariant startPos <= pos <= k
          invariant forall j :: 0 <= j < pos && ObstacleAdmissible(draws[j], snake) ==> draws[j] in obstacles
          decreases |draws| - pos
        {
          position := draws[pos];
          pos := pos + 1;
          var validPosition := true;
          var onSnake := Contains(snake, position);
          if onSnake {
            validPosition := false;
          }
          var onObstacle := Contains(obstacles, position);
          if onObstacle {
            validPosition := false;
          }
          if Abs(position.x - 5) < 3 && Abs(position.y - 10) < 3 {
            validPosition := false;
          }
          if validPosition {
            break;
          }
        }
        AppendDistinct(obstacles, position);
        assert forall c :: c in draws[..startPos] ==> c in draws[..pos];
        obstacles := obstacles + [position];
      }
    }

    /** Places the food on the first draw that is neither on the snake nor on an obstacle. */
    method CreateFood(draws: seq<Cell>)
      requires forall c :: c in draws ==> InGrid(c)
      requires exists k :: 0 <= k < |draws| && FoodFits(draws[k], snake, obstacles)
      modifies this`food
      ensures food.Some? && InGrid(food.value) && FoodFits(food.value, snake, obstacles)
      ensures exists k :: 0 <= k < |draws| && food == Some(draws[k]) &&
                          forall j :: 0 <= j < k ==> !FoodFits(draws[j], snake, obstacles)
    {
      ghost var k :| 0 <= k < |draws| && FoodFits(draws[k], snake, obstacles);
      var pos := 0;
      var position: Cell;
      while true
        invariant pos <= k
        invariant forall j :: 0 <= j < pos ==> !FoodFits(draws[j], snake, obstacles)
        decreases |draws| - pos
      {
        position := draws[pos];
        pos := pos + 1;
        var validPosition := true;
        var onSnake := Contains(snake, position);
        if onSnake {
          validPosition := false;
        }
        if validPosition {
          var onObstacle := Contains(obstacles, position);
          if onObstacle {
            validPosition := false;
          }
        }
        if validPosition {
          break;
        }
      }
      food := Some(position);
    }

    /** Stores a requested direction unless it is the direct opposite of the current one. */
    method ChangeDirection(newDirection: Direction)
      modifies this`direction
      ensures old(Valid()) ==> Valid()
      ensures direction == NextDirection(old(direction), newDirection)
    {
      direction := NextDirection(direction, newDirection);
    }

    /** Pushes the head's neighbour in the current direction in front of the snake. */
    method MoveSnake()
      requires |snake| > 0
      modifies this`snake
      ensures snake == [Step(old(snake)[0], direction)] + old(snake)
    {
      var head := Step(snake[0], direction);
      snake := [head] + snake;
    }

    /** Tests the head against the walls, the rest of the snake and the obstacles. */
    method CheckCollision() returns (hit: bool)
      requires |snake| > 0
      ensures hit <==> Collides(snake[0], snake[1..], obstacles)
    {
      var head := snake[0];
      if head.x < 0 || head.x >= GridWidth || head.y < 0 || head.y >= GridHeight {
        return true;
      }
      var i := 1;
      while i < |snake|
        invariant 1 <= i <= |snake|
        invariant forall j :: 1 <= j < i ==> snake[j] != head
      {
        if head == snake[i] {
          return true;
        }
        i := i + 1;
      }
      assert head !in snake[1..];
      hit := Contains(obstacles, head);
    }

    /** Scores 10, places new food and, on every multiple of 50, shortens the interval. */
    method EatFood(draws: seq<Cell>)
      requires 50 <= gameSpeed && gameSpeed % 5 == 0
      requires forall c :: c in draws ==> InGrid(c)
      requires exists k :: 0 <= k < |draws| && FoodFits(draws[k], snake, obstacles)
      modifies this`score, this`food, this`gameSpeed
      ensures score == old(score) + 10
      ensures gameSpeed == SpeedAfterMeal(score, old(gameSpeed))
      ensures 50 <= gameSpeed && gameSpeed % 5 == 0
      ensures food.Some? && InGrid(food.value) && FoodFits(food.value, snake, obstacles)
      ensures exists k :: 0 <= k < |draws| && food == Some(draws[k]) &&
                          forall j :: 0 <= j < k ==> !FoodFits(draws[j], snake, obstacles)
    {
      score := score + 10;
      CreateFood(draws);
      if score % 50 == 0 && gameSpeed > 50 {
        gameSpeed := gameSpeed - 5;
      }
    }

    /**
     * Ends the run and keeps the better of the stored and the final score for
     * the current difficulty; `newHighScore` says whether the table changed
     * (and is persisted).
     */
    method GameOver() returns (newHighScore: bool)
      requires currentDifficulty in highScores
      modifies this`gameRunning, this`highScores
      ensures !gameRunning
      ensures newHighScore <==> score > old(highScores)[currentDifficulty]
      ensures highScores == old(highScores)[currentDifficulty :=
        HighScoreAfter(old(highScores)[currentDifficulty], score)]
      ensures forall d :: d in old(highScores) && d != currentDifficulty ==>
        d in highScores && highScores[d] == old(highScores)[d]
    {
      gameRunning := false;
      newHighScore := score > highScores[currentDifficulty];
      if newHighScore {
        highScores := highScores[currentDifficulty := score];
      }
    }

    /** The random draws a tick may consume contain a cell for the next food, if the tick eats. */
    ghost predicate FoodDrawsSuffice(draws: seq<Cell>)
      reads this
    {
      |snake| > 0 ==>
        var head := Step(snake[0], direction);
        (!Collides(head, snake, obstacles) && food == Some(head)) ==>
          exists k :: 0 <= k < |draws| && FoodFits(draws[k], [head] + snake, obstacles)
    }

    /**
     * One firing of the interval: move, then test for a collision with the tail
     * still in place, then either grow by eating or drop the tail.
     */
    method GameLoop(foodDraws: seq<Cell>)
      requires Valid() && gameRunning
      requires forall c :: c in foodDraws ==> InGrid(c)
      requires FoodDrawsSuffice(foodDraws)
      modifies this
      ensures Valid()
      ensures direction == old(direction) && obstacles == old(obstacles)
      ensures currentDifficulty == old(currentDifficulty)
      ensures var head := Step(old(snake)[0], old(direction));
        if Collides(head, old(snake), old(obstacles)) then
          !gameRunning && snake == [head] + old(snake) &&
          score == old(score) && gameSpeed == old(gameSpeed) && food == old(food) &&
          highScores == old(highScores)[currentDifficulty :=
            HighScoreAfter(old(highScores)[currentDifficulty], score)]
        else if old(food) == Some(head) then
          gameRunning && snake == [head] + old(snake) &&
          score == old(score) + 10 && gameSpeed == SpeedAfterMeal(score, old(gameSpeed)) &&
          highScores == old(highScores) &&
          exists k :: 0 <= k < |foodDraws| && food == Some(foodDraws[k]) &&
            forall j :: 0 <= j < k ==> !FoodFits(foodDraws[j], snake, obstacles)
        else
          gameRunning && snake == [head] + old(snake)[..|old(snake)| - 1] &&
          score == old(score) && gameSpeed == old(gameSpeed) && food == old(food) &&
          highScores == old(highScores)
    {
      ghost var body := snake;
      MoveSnake();
      var hit := CheckCollision();
      assert snake[1..] == body;
      if hit {
        var _ := GameOver();
        return;
      }
      MoveKeepsWellPlaced(body, direction, obstacles);
      if Some(snake[0]) == food {
        EatFood(foodDraws);
      } else {
        snake := snake[..|snake| - 1];
      }
    }
  }
}
