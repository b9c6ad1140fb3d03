// The game's rules as pure functions over cells, with the properties they guarantee.

module Rules {

  import opened Board

  // ---------------------------------------------------------------- direction

  /**
   * The direction stored after a change request: a request for the direct
   * opposite of the current direction is ignored, any other is taken as given.
   */
  function NextDirection(current: Direction, requested: Direction): (r: Direction)
    ensures r == requested <==> requested != Opposite(current)
    ensures r != requested ==> r == current
    ensures r != Opposite(current)
  {
    if (current == Up && requested == Down) ||
       (current == Down && requested == Up) ||
       (current == Left && requested == Right) ||
       (current == Right && requested == Left)
    then current
    else requested
  }

  /**
   * The reversal guard compares with the stored direction, not with the
   * direction of the last move: two requests before one tick, a
   * perpendicular one and then the opposite, turn the snake fully around.
   */
  lemma TwoChangesReverse(d: Direction, m: Direction)
    requires m != d && m != Opposite(d)
    ensures NextDirection(d, m) == m
    ensures NextDirection(NextDirection(d, m), Opposite(d)) == Opposite(d)
  {
  }

  // ---------------------------------------------------------------- snake shape

  predicate Distinct(s: seq<Cell>)
  {
    forall i, j :: 0 <= i < j < |s| ==> s[i] != s[j]
  }

  /** All cells inside the grid and pairwise distinct. */
  predicate WellPlaced(s: seq<Cell>)
  {
    (forall c :: c in s ==> InGrid(c)) && Distinct(s)
  }

  predicate Disjoint(s: seq<Cell>, t: seq<Cell>)
  {
    forall c :: c in s ==> c !in t
  }

  /**
   * The collision test applied to a head that has just been pushed in front
   * of `body`: the head is off the grid, on a body segment, or on an obstacle.
   */
  predicate Collides(head: Cell, body: seq<Cell>, obstacles: seq<Cell>)
  {
    !InGrid(head) || head in body || head in obstacles
  }

  lemma AppendDistinct(s: seq<Cell>, x: Cell)
    requires Distinct(s) && x !in s
    ensures Distinct(s + [x])
  {
  }

  /**
   * A move that does not collide keeps the snake inside the grid, free of
   * self-overlap and off the obstacles, both right after the new head is pushed
   * and after the tail is then dropped.
   */
  lemma MoveKeepsWellPlaced(s: seq<Cell>, d: Direction, obstacles: seq<Cell>)
    requires |s| > 0 && WellPlaced(s) && Disjoint(s, obstacles)
    requires !Collides(Step(s[0], d), s, obstacles)
    ensures WellPlaced([Step(s[0], d)] + s) && Disjoint([Step(s[0], d)] + s, obstacles)
    ensures WellPlaced(([Step(s[0], d)] + s)[..|s|]) && Disjoint(([Step(s[0], d)] + s)[..|s|], obstacles)
  {
  }

  /** Moving onto the cell the tail occupies is a collision, although the tail is about to move. */
  lemma MoveIntoTailCollides(s: seq<Cell>, d: Direction, obstacles: seq<Cell>)
    requires |s| >= 2 && Step(s[0], d) == s[|s| - 1]
    ensures Collides(Step(s[0], d), s, obstacles)
  {
  }

  // ---------------------------------------------------------------- placement

  /** The box around the start cell (5,10) that obstacles stay out of. */
  predicate NearStart(c: Cell)
  {
    Abs(c.x - 5) < 3 && Abs(c.y - 10) < 3
  }

  /** A cell an obstacle may take, before looking at the obstacles already placed. */
  predicate ObstacleAdmissible(c: Cell, snake: seq<Cell>)
  {
    c !in snake && !NearStart(c)
  }

  /** A cell food may take. */
  predicate FoodFits(c: Cell, snake: seq<Cell>, obstacles: seq<Cell>)
  {
    c !in snake && c !in obstacles
  }

  /** The distinct admissible obstacle cells among a stream of random draws. */
  function AdmissibleDraws(draws: seq<Cell>, snake: seq<Cell>): set<Cell>
  {
    set c | c in draws && ObstacleAdmissible(c, snake)
  }

  /** The distinct cells off the snake among a stream of random draws. */
  function DrawsOffSnake(draws: seq<Cell>, snake: seq<Cell>): set<Cell>
  {
    set c | c in draws && c !in snake
  }

  /** The start snake lies in the grid, has no repeated cell and sits inside the obstacle-free box. */
  lemma StartSnakeShape()
    ensures WellPlaced(StartSnake())
    ensures forall c :: c in StartSnake() ==> NearStart(c)
  {
  }

  /** More distinct cells than list entries: some cell is not in the list. */
  lemma {:induction false} Pigeonhole(a: set<Cell>, s: seq<Cell>)
    requires |s| < |a|
    ensures exists c :: c in a && c !in s
  {
    if s == [] {
      var c :| c in a;
      assert c !in s;
    } else {
      Pigeonhole(a - {s[0]}, s[1..]);
      var c :| c in a - {s[0]} && c !in s[1..];
      assert s == [s[0]] + s[1..];
      assert c !in s;
    }
  }

  // ---------------------------------------------------------------- speed

  /**
   * The tick interval after a meal that brought the score to `score`: it
   * drops by 5 ms when the score is a multiple of 50 and the interval is
   * still above 50 ms.
   */
  function SpeedAfterMeal(score: int, speed: int): (r: int)
    ensures r == speed || r == speed - 5
    ensures r < speed <==> score % 50 == 0 && speed > 50
  {
    if score % 50 == 0 && speed > 50 then speed - 5 else speed
  }

  /** An interval on the 5 ms lattice at or above 50 ms stays there after a meal. */
  lemma SpeedFloor(score: int, speed: int)
    requires 50 <= speed && speed % 5 == 0
    ensures 50 <= SpeedAfterMeal(score, speed) && SpeedAfterMeal(score, speed) % 5 == 0
  {
  }

  /** The base intervals all lie on the 5 ms lattice at or above 50 ms. */
  lemma BaseSpeedOnLattice(d: Difficulty)
    ensures 50 <= BaseSpeed(d) && BaseSpeed(d) % 5 == 0
  {
  }

  /** The interval after `meals` more meals, starting from `speed` at score `score`. */
  function SpeedAfterMeals(speed: int, score: int, meals: nat): int
    decreases meals
  {
    if meals == 0 then speed
    else SpeedAfterMeals(SpeedAfterMeal(score + 10, speed), score + 10, meals - 1)
  }

  /** However many meals are eaten, the interval never drops below 50 ms nor rises. */
  lemma {:induction false} MealsKeepSpeedFloor(speed: int, score: int, meals: nat)
    requires 50 <= speed && speed % 5 == 0
    ensures 50 <= SpeedAfterMeals(speed, score, meals) <= speed
    ensures SpeedAfterMeals(speed, score, meals) % 5 == 0
    decreases meals
  {
    if meals > 0 {
      SpeedFloor(score + 10, speed);
      MealsKeepSpeedFloor(SpeedAfterMeal(score + 10, speed), score + 10, meals - 1);
    }
  }

  lemma {:induction false} MealsCompose(speed: int, score: int, m: nat, n: nat)
    ensures SpeedAfterMeals(speed, score, m + n)
         == SpeedAfterMeals(SpeedAfterMeals(speed, score, m), score + 10 * m, n)
    decreases m
  {
    if m > 0 {
      MealsCompose(SpeedAfterMeal(score + 10, speed), score + 10, m - 1, n);
    }
  }

  /** Five meals from a multiple of 50 lower the interval by 5 ms once, unless it is at the floor. */
  lemma FiveMeals(speed: int, score: int)
    requires score % 50 == 0
    ensures SpeedAfterMeals(speed, score, 5) == if speed > 50 then speed - 5 else speed
  {
    assert (score + 10) % 50 == 10 && (score + 20) % 50 == 20 && (score + 30) % 50 == 30;
    assert (score + 40) % 50 == 40 && (score + 50) % 50 == 0;
    var s1 := SpeedAfterMeal(score + 10, speed);
    var s2 := SpeedAfterMeal(score + 20, s1);
    var s3 := SpeedAfterMeal(score + 30, s2);
    var s4 := SpeedAfterMeal(score + 40, s3);
    assert SpeedAfterMeals(speed, score, 5) == SpeedAfterMeals(s4, score + 40, 1);
  }

  function Max(a: int, b: int): int
  {
    if a < b then b else a
  }

  /**
   * The speed-up schedule: after 5k meals from a multiple of 50 the interval
   * has dropped by 5 ms per five meals, down to the 50 ms floor.
   */
  lemma {:induction false} SpeedSchedule(speed: int, score: int, k: nat)
    requires 50 <= speed && speed % 5 == 0 && score % 50 == 0
    ensures SpeedAfterMeals(speed, score, 5 * k) == Max(50, speed - 5 * k)
    decreases k
  {
    if k > 0 {
      MealsCompose(speed, score, 5, 5 * (k - 1));
      FiveMeals(speed, score);
      var s1 := if speed > 50 then speed - 5 else speed;
      assert (score + 50) % 50 == 0;
      SpeedSchedule(s1, score + 50, k - 1);
    }
  }

  // ---------------------------------------------------------------- high score

  /** The best score of a difficulty after a run that ended with `score`. */
  function HighScoreAfter(best: int, score: int): (r: int)
    ensures r >= best && r >= score
    ensures r == best || r == score
    ensures r > best <==> score > best
  {
    if score > best then score else best
  }
}
