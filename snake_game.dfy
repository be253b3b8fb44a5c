/**
 * The snake game's state machine: a snake of grid cells (head first) moving
 * on a square board whose edges wrap around, a food cell, a score with a
 * high score, and a tick interval that shrinks as the score grows.
 *
 * The class SnakeGame holds the fields the game updates in place; its ghost
 * function State() gives the same fields as a Game value, and each method's
 * postcondition is "the new State() is F(old State())" for a pure function F
 * defined here (Start, Toggled, Pressed, Reset, Ended, Tick). The properties
 * of the game are lemmas about those functions. Drawing, the overlay, the
 * score text and local storage are outside the model.
 */
module Snake {

  // ---------------------------------------------------------------------
  // Cells, the board and wrap-around
  // ---------------------------------------------------------------------

  datatype Cell = Cell(x: int, y: int)

  /** The cell where a new snake starts, and where the first food lies. */
  const StartCell := Cell(10, 10)
  const FirstFood := Cell(15, 15)

  /** Tick interval in milliseconds at start, its floor, and its decrement. */
  const InitialSpeed := 150
  const MinSpeed := 50
  const SpeedStep := 10

  /** Points per food, and the multiple of the score at which speed rises. */
  const FoodPoints := 10
  const SpeedUpEvery := 50

  function Max(a: int, b: int): int {
    if a >= b then a else b
  }

  predicate InGrid(c: Cell, tileCount: int) {
    0 <= c.x < tileCount && 0 <= c.y < tileCount
  }

  predicate AllInGrid(s: seq<Cell>, tileCount: int) {
    forall i :: 0 <= i < |s| ==> InGrid(s[i], tileCount)
  }

  predicate NoDuplicates(s: seq<Cell>) {
    forall i, j :: 0 <= i < j < |s| ==> s[i] != s[j]
  }

  /** Some cell of the board is not covered by s. */
  ghost predicate HasFreeCell(s: seq<Cell>, tileCount: int) {
    exists c :: InGrid(c, tileCount) && c !in s
  }

  /** Standing still, or one step along one axis. */
  predicate AllowedVelocity(vx: int, vy: int) {
    || (vx == 0 && vy == 0)
    || (vx == 0 && (vy == 1 || vy == -1))
    || (vy == 0 && (vx == 1 || vx == -1))
  }

  /** The unwrapped step from head leaves the board on at least one axis. */
  predicate LeavesGrid(head: Cell, vx: int, vy: int, tileCount: int) {
    !InGrid(Cell(head.x + vx, head.y + vy), tileCount)
  }

  /**
   * One axis of the wrap: below 0 goes to the last tile, past the end to 0.
   * A coordinate at most one step off the board lands on it, within one
   * turn of where it was; one already on the board stays put.
   */
  function WrapAxis(v: int, tileCount: int): (r: int)
    ensures 0 < tileCount && -1 <= v <= tileCount ==> 0 <= r < tileCount && OneTurnFrom(r, v, tileCount)
    ensures 0 <= v < tileCount ==> r == v
  {
    if v < 0 then tileCount - 1 else if v >= tileCount then 0 else v
  }

  /** a is b, or b moved once around an axis of length n. */
  predicate OneTurnFrom(a: int, b: int, n: int) {
    a == b || a == b - n || a == b + n
  }

  /**
   * The head after one step: head + velocity, wrapped onto the board. For a
   * head on the board and an allowed velocity the result is on the board and
   * each coordinate differs from head + velocity by at most one turn (the
   * board is a torus); a step that stays inside is plain addition.
   */
  function Advance(head: Cell, vx: int, vy: int, tileCount: int): (r: Cell)
    ensures InGrid(head, tileCount) && AllowedVelocity(vx, vy) ==>
      && InGrid(r, tileCount)
      && OneTurnFrom(r.x, head.x + vx, tileCount) && OneTurnFrom(r.y, head.y + vy, tileCount)
    ensures !LeavesGrid(head, vx, vy, tileCount) ==> r == Cell(head.x + vx, head.y + vy)
  {
    Cell(WrapAxis(head.x + vx, tileCount), WrapAxis(head.y + vy, tileCount))
  }

  /** Stepping off any of the four edges re-enters at the opposite edge. */
  lemma WrapToOppositeEdge(head: Cell, tileCount: int)
    requires InGrid(head, tileCount)
    ensures head.x == tileCount - 1 ==> Advance(head, 1, 0, tileCount) == Cell(0, head.y)
    ensures head.x == 0 ==> Advance(head, -1, 0, tileCount) == Cell(tileCount - 1, head.y)
    ensures head.y == tileCount - 1 ==> Advance(head, 0, 1, tileCount) == Cell(head.x, 0)
    ensures head.y == 0 ==> Advance(head, 0, -1, tileCount) == Cell(head.x, tileCount - 1)
  {
  }

  // ---------------------------------------------------------------------
  // Free cells: the pigeonhole argument behind food placement
  // ---------------------------------------------------------------------

  /** Row-major number of a cell. */
  function Index(c: Cell, tileCount: int): int {
    c.y * tileCount + c.x
  }

  ghost function Indices(s: seq<Cell>, tileCount: int): set<int> {
    set c | c in s :: Index(c, tileCount)
  }

  lemma {:induction false} IndicesSize(s: seq<Cell>, tileCount: int)
    ensures |Indices(s, tileCount)| <= |s|
  {
    if s != [] {
      IndicesSize(s[1..], tileCount);
      assert Indices(s, tileCount) == Indices(s[1..], tileCount) + {Index(s[0], tileCount)} by {
        forall c | c in s ensures c == s[0] || c in s[1..] {
          var k :| 0 <= k < |s| && s[k] == c;
          if k > 0 { assert s[1..][k - 1] == c; }
        }
      }
    }
  }

  /** A set of fewer than n numbers misses one of 0 .. n - 1. */
  lemma {:induction false} GapBelow(used: set<int>, n: int)
    requires |used| < n
    ensures exists k :: 0 <= k < n && k !in used
  {
    if n - 1 in used {
      GapBelow(used - {n - 1}, n - 1);
      var k :| 0 <= k < n - 1 && k !in used - {n - 1};
      assert k !in used;
    }
  }

  lemma RowOfIndex(k: int, tileCount: int)
    requires 0 < tileCount && 0 <= k < tileCount * tileCount
    ensures 0 <= k / tileCount < tileCount && 0 <= k % tileCount < tileCount
    ensures (k / tileCount) * tileCount + k % tileCount == k
  {
  }

  /**
   * Fewer segments than cells leaves a free cell (duplicates or cells off
   * the board only make it easier): the condition under which the food
   * search always ends.
   */
  lemma FreeCellExists(s: seq<Cell>, tileCount: int)
    requires 0 < tileCount && |s| < tileCount * tileCount
    ensures HasFreeCell(s, tileCount)
  {
    IndicesSize(s, tileCount);
    GapBelow(Indices(s, tileCount), tileCount * tileCount);
    var k :| 0 <= k < tileCount * tileCount && k !in Indices(s, tileCount);
    RowOfIndex(k, tileCount);
    var c := Cell(k % tileCount, k / tileCount);
    assert Index(c, tileCount) == k;
    assert InGrid(c, tileCount) && c !in s;
  }

  // ---------------------------------------------------------------------
  // Keys and the direction rule
  // ---------------------------------------------------------------------

  datatype Direction = Up | Down | Left | Right

  /** What a key code means to the game. */
  datatype Key = Space | Move(d: Direction) | Other

  function KeyOf(code: string): (k: Key)
    ensures k == Space <==> code == "Space"
    ensures k == Move(Up) <==> code == "ArrowUp" || code == "KeyW"
    ensures k == Move(Down) <==> code == "ArrowDown" || code == "KeyS"
    ensures k == Move(Left) <==> code == "ArrowLeft" || code == "KeyA"
    ensures k == Move(Right) <==> code == "ArrowRight" || code == "KeyD"
  {
    if code == "Space" then Space
    else if code == "ArrowUp" || code == "KeyW" then Move(Up)
    else if code == "ArrowDown" || code == "KeyS" then Move(Down)
    else if code == "ArrowLeft" || code == "KeyA" then Move(Left)
    else if code == "ArrowRight" || code == "KeyD" then Move(Right)
    else Other
  }

  /** The velocity a direction asks for (y grows downwards). */
  function Delta(d: Direction): (int, int) {
    match d
    case Up => (0, -1)
    case Down => (0, 1)
    case Left => (-1, 0)
    case Right => (1, 0)
  }

  /**
   * The velocity after a movement key: the requested direction, unless the
   * snake moves exactly the opposite way, in which case nothing changes.
   * The result never reverses a moving snake and stays an allowed velocity.
   */
  function Steer(vx: int, vy: int, d: Direction): (r: (int, int))
    ensures r == Delta(d) || r == (vx, vy)
    ensures (vx, vy) != (0, 0) ==> r != (-vx, -vy)
    ensures AllowedVelocity(vx, vy) ==> AllowedVelocity(r.0, r.1)
  {
    match d
    case Up => if vy != 1 then (0, -1) else (vx, vy)
    case Down => if vy != -1 then (0, 1) else (vx, vy)
    case Left => if vx != 1 then (-1, 0) else (vx, vy)
    case Right => if vx != -1 then (1, 0) else (vx, vy)
  }

  /** For an allowed velocity, a key is refused exactly when it asks for a reversal. */
  lemma SteerRefusesOnlyReversal(vx: int, vy: int, d: Direction)
    requires AllowedVelocity(vx, vy)
    ensures Steer(vx, vy, d) == (if Delta(d) == (-vx, -vy) then (vx, vy) else Delta(d))
  {
  }

  // ---------------------------------------------------------------------
  // The game as a value, and its transitions
  // ---------------------------------------------------------------------

  /** The fields of one game, as the class SnakeGame holds them. */
  datatype Game = Game(
    tileCount: int,
    running: bool,
    paused: bool,
    snake: seq<Cell>,
    snakeLength: int,
    vx: int,
    vy: int,
    food: Cell,
    score: int,
    highScore: int,
    gameSpeed: int,
    lastRenderTime: int,
    crossCount: int)

  /**
   * What holds in every state the game can reach: the snake is non-empty,
   * on the board and without repeated cells, snakeLength counts it, the food
   * is on the board and off the snake, the velocity is allowed (and not
   * zero while the game runs), only a running game is paused, and the tick
   * interval stays within [50, 150] milliseconds.
   */
  predicate Inv(g: Game) {
    && g.tileCount > 15
    && |g.snake| >= 1 && AllInGrid(g.snake, g.tileCount) && NoDuplicates(g.snake)
    && g.snakeLength == |g.snake|
    && InGrid(g.food, g.tileCount) && g.food !in g.snake
    && AllowedVelocity(g.vx, g.vy) && (g.running ==> (g.vx, g.vy) != (0, 0))
    && (g.paused ==> g.running)
    && g.score >= 0 && g.highScore >= 0
    && MinSpeed <= g.gameSpeed <= InitialSpeed
    && g.crossCount >= 0 && g.lastRenderTime >= 0
  }

  /** The game as constructed, with the high score read from storage. */
  function Initial(tileCount: int, storedHighScore: int): (g: Game)
    ensures tileCount > 15 && storedHighScore >= 0 ==> Inv(g)
  {
    Game(tileCount, false, false, [StartCell], 1, 0, 0, FirstFood,
         0, storedHighScore, InitialSpeed, 0, 0)
  }

  /** startGame: running and unpaused; a snake standing still starts rightwards. */
  function Start(g: Game): (r: Game)
    ensures r.running && !r.paused
    ensures (r.vx, r.vy) == (if (g.vx, g.vy) == (0, 0) then (1, 0) else (g.vx, g.vy))
    ensures r.(running := g.running, paused := g.paused, vx := g.vx, vy := g.vy) == g
    ensures Inv(g) ==> Inv(r)
  {
    var v := if g.vx == 0 && g.vy == 0 then (1, 0) else (g.vx, g.vy);
    g.(running := true, paused := false, vx := v.0, vy := v.1)
  }

  /** togglePause: flips the paused flag of a running game, and is inert otherwise. */
  function Toggled(g: Game): (r: Game)
    ensures g.running ==> r == g.(paused := !g.paused)
    ensures Inv(g) ==> Inv(r)
  {
    if !g.running then g else g.(paused := !g.paused)
  }

  /** Pausing twice changes nothing; a game that is not running ignores it. */
  lemma ToggleTwiceRestores(g: Game)
    ensures Toggled(Toggled(g)) == g
    ensures !g.running ==> Toggled(g) == g
  {
  }

  /**
   * gameOver: the game stops and the high score becomes the larger of the
   * high score and the score. Nothing else changes.
   */
  function Ended(g: Game): (r: Game)
    ensures !r.running
    ensures r.highScore >= g.highScore && r.highScore >= g.score
    ensures r.highScore == g.highScore || r.highScore == g.score
    ensures r.(running := g.running, highScore := g.highScore) == g
  {
    g.(running := false, highScore := if g.score > g.highScore then g.score else g.highScore)
  }

  /**
   * resetGame with `pick` the food cell it drew: a one-cell snake at the
   * start cell, standing still, score 0, neither running nor paused. The
   * tick interval, the high score and the crossing counter are kept.
   */
  function Reset(g: Game, pick: Cell): (r: Game)
    ensures r.snake == [StartCell] && r.snakeLength == 1 && r.score == 0
    ensures r.vx == 0 && r.vy == 0 && !r.running && !r.paused && r.food == pick
    ensures r.gameSpeed == g.gameSpeed && r.highScore == g.highScore && r.crossCount == g.crossCount
    ensures r.tileCount == g.tileCount && r.lastRenderTime == g.lastRenderTime
    ensures Inv(g) && InGrid(pick, g.tileCount) && pick != StartCell ==> Inv(r)
  {
    g.(snake := [StartCell], snakeLength := 1, vx := 0, vy := 0, score := 0,
       running := false, paused := false, food := pick)
  }

  /**
   * handleKeyPress: Space starts a game that is not running and pauses or
   * resumes one that is; while paused every other key is ignored; a
   * movement key steers (see Steer); other keys do nothing.
   */
  function Pressed(g: Game, code: string): (r: Game)
    ensures r.snake == g.snake && r.snakeLength == g.snakeLength && r.food == g.food
    ensures r.score == g.score && r.highScore == g.highScore && r.gameSpeed == g.gameSpeed
    ensures r.crossCount == g.crossCount && r.lastRenderTime == g.lastRenderTime
  {
    if !g.running && code == "Space" then Start(g)
    else if g.running && code == "Space" then Toggled(g)
    else if g.paused then g
    else match KeyOf(code)
      case Move(d) => var v := Steer(g.vx, g.vy, d); g.(vx := v.0, vy := v.1)
      case _ => g
  }

  /**
   * Key presses keep the invariant. Space starts a game that is not
   * running and toggles the pause of one that is; a paused game ignores
   * every other key; in an unpaused game a movement key sets the requested
   * direction unless it is the exact reverse, and any other key does
   * nothing. No key reverses a moving snake.
   */
  lemma PressedProperties(g: Game, code: string)
    requires Inv(g)
    ensures Inv(Pressed(g, code))
    ensures code == "Space" ==> Pressed(g, code) == (if g.running then Toggled(g) else Start(g))
    ensures g.paused && code != "Space" ==> Pressed(g, code) == g
    ensures !g.paused && KeyOf(code).Move? ==>
      var v := Delta(KeyOf(code).d);
      Pressed(g, code) == (if v == (-g.vx, -g.vy) then g else g.(vx := v.0, vy := v.1))
    ensures KeyOf(code) == Other ==> Pressed(g, code) == g
    ensures (g.vx, g.vy) != (0, 0) ==>
      (Pressed(g, code).vx, Pressed(g, code).vy) != (-g.vx, -g.vy)
  {
    if KeyOf(code).Move? {
      SteerRefusesOnlyReversal(g.vx, g.vy, KeyOf(code).d);
    }
  }

  /** The cell the head moves to on the next tick. */
  function NextHead(g: Game): Cell
    requires |g.snake| > 0
  {
    Advance(g.snake[0], g.vx, g.vy, g.tileCount)
  }

  /** The next head lands on the snake as it is before the move (its tail included). */
  predicate Collides(g: Game)
    requires |g.snake| > 0
  {
    NextHead(g) in g.snake
  }

  /** The next head lands on the food (and so not on the snake). */
  predicate Eats(g: Game)
    requires |g.snake| > 0
  {
    !Collides(g) && NextHead(g) == g.food
  }

  /**
   * The food search after a meal ends: some cell is free of the grown snake.
   * Without it the search never returns.
   */
  ghost predicate CanPlaceFood(g: Game) {
    |g.snake| > 0 && (Eats(g) ==> HasFreeCell([NextHead(g)] + g.snake, g.tileCount))
  }

  /** A snake with more than one free cell around it can always be fed. */
  lemma RoomForFood(g: Game)
    requires Inv(g) && |g.snake| + 1 < g.tileCount * g.tileCount
    ensures CanPlaceFood(g)
  {
    FreeCellExists([NextHead(g)] + g.snake, g.tileCount);
  }

  /**
   * The part of update after the collision test, for a new head h that is
   * not on the snake: h is prepended, and either h is the food (the tail
   * stays, 10 points, the food becomes `pick`, and when the score reaches a
   * multiple of 50 the interval drops by 10 to no less than 50) or the tail
   * is dropped.
   */
  function Stepped(g: Game, h: Cell, pick: Cell): (r: Game)
    requires |g.snake| > 0
    ensures |r.snake| > 0 && r.snake[0] == h
    ensures |r.snake| == |g.snake| + (if h == g.food then 1 else 0)
    ensures r.running == g.running && r.paused == g.paused && r.vx == g.vx && r.vy == g.vy
    ensures r.highScore == g.highScore && r.crossCount == g.crossCount && r.lastRenderTime == g.lastRenderTime
  {
    if h == g.food then
      var score := g.score + FoodPoints;
      g.(snake := [h] + g.snake, snakeLength := g.snakeLength + 1, score := score, food := pick,
         gameSpeed := if score % SpeedUpEvery == 0 then Max(MinSpeed, g.gameSpeed - SpeedStep) else g.gameSpeed)
    else
      g.(snake := [h] + g.snake[..|g.snake| - 1])
  }

  /**
   * Stepping onto a free board cell keeps the invariant, provided the food
   * drawn after a meal is on the board and off the grown snake.
   */
  lemma SteppedPreservesInv(g: Game, h: Cell, pick: Cell)
    requires Inv(g) && InGrid(h, g.tileCount) && h !in g.snake
    requires h == g.food ==> InGrid(pick, g.tileCount) && pick !in [h] + g.snake
    ensures Inv(Stepped(g, h, pick))
  {
    if h != g.food {
      var s := [h] + g.snake[..|g.snake| - 1];
      assert forall i :: 1 <= i < |s| ==> s[i] == g.snake[i - 1];
    }
  }

  /**
   * update, with `pick` the food cell drawn if the snake eats: the head
   * steps and wraps (counting a crossing); a collision with the pre-move
   * snake ends the game, and otherwise the snake steps onto the new head.
   */
  function Tick(g: Game, pick: Cell): (r: Game)
    requires |g.snake| > 0
    ensures r.tileCount == g.tileCount && r.paused == g.paused && r.lastRenderTime == g.lastRenderTime
    ensures r.vx == g.vx && r.vy == g.vy && r.highScore >= g.highScore
    ensures r.running == (g.running && !Collides(g))
  {
    var h := NextHead(g);
    var crossed := if LeavesGrid(g.snake[0], g.vx, g.vy, g.tileCount) then 1 else 0;
    var g1 := g.(crossCount := g.crossCount + crossed);
    if h in g.snake then Ended(g1) else Stepped(g1, h, pick)
  }

  /**
   * Every tick keeps the invariant, provided the food drawn after a meal is
   * on the board and off the grown snake.
   */
  lemma TickPreservesInv(g: Game, pick: Cell)
    requires Inv(g) && g.running && !g.paused
    requires Eats(g) ==> InGrid(pick, g.tileCount) && pick !in [NextHead(g)] + g.snake
    ensures Inv(Tick(g, pick))
  {
    var h := NextHead(g);
    if h !in g.snake {
      var crossed := if LeavesGrid(g.snake[0], g.vx, g.vy, g.tileCount) then 1 else 0;
      SteppedPreservesInv(g.(crossCount := g.crossCount + crossed), h, pick);
    }
  }

  /**
   * The crossing counter rises by exactly one when the step leaves the board
   * and is unchanged otherwise; the new head is on the board.
   */
  lemma TickWraps(g: Game, pick: Cell)
    requires Inv(g)
    ensures Tick(g, pick).crossCount ==
      g.crossCount + (if LeavesGrid(g.snake[0], g.vx, g.vy, g.tileCount) then 1 else 0)
    ensures !Collides(g) ==> Tick(g, pick).snake[0] == NextHead(g) && InGrid(NextHead(g), g.tileCount)
  {
  }

  /**
   * A collision ends the game and leaves the snake, its length, the score,
   * the food and the interval as they were; the high score becomes the
   * larger of high score and score.
   */
  lemma TickCollision(g: Game, pick: Cell)
    requires |g.snake| > 0 && Collides(g)
    ensures var r := Tick(g, pick);
      && !r.running && r.snake == g.snake && r.snakeLength == g.snakeLength
      && r.score == g.score && r.food == g.food && r.gameSpeed == g.gameSpeed
      && r.highScore == Max(g.highScore, g.score)
  {
  }

  /**
   * Without a collision the snake either eats (it becomes the new head
   * followed by the whole old snake, 10 more points, one longer) or moves
   * (the new head followed by the old snake without its tail, same length,
   * same score, same food).
   */
  lemma TickGrowsOrShifts(g: Game, pick: Cell)
    requires |g.snake| > 0 && !Collides(g)
    ensures var r := Tick(g, pick);
      && r.running == g.running && r.paused == g.paused
      && r.vx == g.vx && r.vy == g.vy && r.highScore == g.highScore
      && (Eats(g) ==>
            && r.snake == [NextHead(g)] + g.snake && |r.snake| == |g.snake| + 1
            && r.score == g.score + 10 && r.snakeLength == g.snakeLength + 1 && r.food == pick)
      && (!Eats(g) ==>
            && r.snake == [NextHead(g)] + g.snake[..|g.snake| - 1] && |r.snake| == |g.snake|
            && r.score == g.score && r.snakeLength == g.snakeLength && r.food == g.food)
  {
  }

  /**
   * The interval changes only on a meal that leaves the score a multiple of
   * 50, and then drops by 10 without going below 50.
   */
  lemma TickSpeedRamp(g: Game, pick: Cell)
    requires |g.snake| > 0 && g.gameSpeed >= MinSpeed
    ensures var r := Tick(g, pick);
      && (r.gameSpeed != g.gameSpeed ==> Eats(g) && r.score % 50 == 0)
      && (Eats(g) && r.score % 50 == 0 ==> r.gameSpeed == Max(50, g.gameSpeed - 10))
      && MinSpeed <= r.gameSpeed <= g.gameSpeed
  {
  }

  /**
   * gameLoop's gate: a tick is due when running, not paused and the interval
   * has passed. With the last render time not negative and the interval at
   * least 50 ms, nothing is due before 50 ms, at time 0 in particular.
   */
  predicate Due(g: Game, now: int)
    ensures Due(g, now) ==> g.running && !g.paused
    ensures Due(g, now) && g.lastRenderTime >= 0 && g.gameSpeed >= MinSpeed ==> now >= MinSpeed
  {
    g.running && !g.paused && now - g.lastRenderTime >= g.gameSpeed
  }

  /**
   * The reversal rule compares a key with the current velocity, not with the
   * last step taken: a snake [(5,5), (4,5)] moving right that gets Up and
   * then Left before the next tick turns onto its own neck, although
   * neither key on its own is a reversal, and the next tick ends the game.
   */
  lemma QuickTurnCollides(pick: Cell)
    ensures var g := Game(20, true, false, [Cell(5, 5), Cell(4, 5)], 2, 1, 0, FirstFood,
                          0, 0, InitialSpeed, 0, 0);
      var up := Pressed(g, "ArrowUp");
      var left := Pressed(up, "ArrowLeft");
      && Inv(g)
      && (up.vx, up.vy) == (0, -1) && (left.vx, left.vy) == (-1, 0)
      && Collides(left) && !Tick(left, pick).running
  {
    var g := Game(20, true, false, [Cell(5, 5), Cell(4, 5)], 2, 1, 0, FirstFood,
                  0, 0, InitialSpeed, 0, 0);
    var left := Pressed(Pressed(g, "ArrowUp"), "ArrowLeft");
    assert NextHead(left) == Cell(4, 5) == left.snake[1];
  }

  /**
   * Space after a game over starts again with the same snake and velocity,
   * so unless a movement key comes first the next tick collides again.
   */
  lemma SpaceAfterGameOverCollidesAgain(g: Game, pick: Cell)
    requires Inv(g) && g.running && Collides(g)
    ensures var again := Pressed(Tick(g, pick), "Space");
      && !Tick(g, pick).running
      && again.running && again.snake == g.snake && (again.vx, again.vy) == (g.vx, g.vy)
      && Collides(again) && !Tick(again, pick).running
  {
  }

  /** No transition lowers the high score. */
  lemma HighScoreNeverDecreases(g: Game, code: string, pick: Cell)
    requires |g.snake| > 0
    ensures Pressed(g, code).highScore == g.highScore
    ensures Start(g).highScore == g.highScore && Toggled(g).highScore == g.highScore
    ensures Reset(g, pick).highScore == g.highScore
    ensures Ended(g).highScore >= g.highScore && Tick(g, pick).highScore >= g.highScore
  {
  }

  // ---------------------------------------------------------------------
  // The game object
  // ---------------------------------------------------------------------

  class SnakeGame {
    const tileCount: int
    var gameRunning: bool
    var gamePaused: bool
    var score: int
    var highScore: int
    /** The segments, head first. */
    var snake: seq<Cell>
    var snakeLength: int
    var velocityX: int
    var velocityY: int
    var foodX: int
    var foodY: int
    /** Milliseconds between ticks. */
    var gameSpeed: int
    var lastRenderTime: int
    var boundaryCrossCount: int

    ghost function State(): Game
      reads this
    {
      Game(tileCount, gameRunning, gamePaused, snake, snakeLength, velocityX, velocityY,
           Cell(foodX, foodY), score, highScore, gameSpeed, lastRenderTime, boundaryCrossCount)
    }

    ghost predicate Valid()
      reads this
    {
      Inv(State())
    }

    function Food(): Cell
      reads this
    {
      Cell(foodX, foodY)
    }

    /**
     * The game fields as the constructor sets them; `storedHighScore` is the
     * value read back from storage.
     */
    constructor (tileCount: int, storedHighScore: int)
      requires tileCount > 15 && storedHighScore >= 0
      ensures Valid() && State() == Initial(tileCount, storedHighScore)
    {
      this.tileCount := tileCount;
      gameRunning := false;
      gamePaused := false;
      score := 0;
      highScore := storedHighScore;
      snake := [StartCell];
      snakeLength := 1;
      velocityX := 0;
      velocityY := 0;
      foodX := FirstFood.x;
      foodY := FirstFood.y;
      gameSpeed := InitialSpeed;
      lastRenderTime := 0;
      boundaryCrossCount := 0;
    }

    method HandleKeyPress(code: string)
      requires Valid()
      modifies this
      ensures Valid() && State() == Pressed(old(State()), code)
    {
      if !gameRunning && code == "Space" {
        StartGame();
        return;
      }
      if gameRunning && code == "Space" {
        TogglePause();
        return;
      }
      if gamePaused {
        return;
      }
      match KeyOf(code)
      case Move(d) =>
        match d {
          case Up =>
            if velocityY != 1 {
              velocityX, velocityY := 0, -1;
            }
          case Down =>
            if velocityY != -1 {
              velocityX, velocityY := 0, 1;
            }
          case Left =>
            if velocityX != 1 {
              velocityX, velocityY := -1, 0;
            }
          case Right =>
            if velocityX != -1 {
              velocityX, velocityY := 1, 0;
            }
        }
      case _ =>
    }

    /**
     * startGame. Its closing call of the game loop passes time 0, which never
     * meets the gate (the last render time is not negative and the interval
     * is at least 50), so the state is Start's.
     */
    method StartGame()
      requires Valid()
      modifies this
      ensures Valid() && State() == Start(old(State()))
    {
      gameRunning := true;
      gamePaused := false;
      if velocityX == 0 && velocityY == 0 {
        velocityX := 1;
        velocityY := 0;
      }
      GameLoop(0);
    }

    method TogglePause()
      requires Valid()
      modifies this
      ensures Valid() && State() == Toggled(old(State()))
    {
      if !gameRunning {
        return;
      }
      gamePaused := !gamePaused;
      if !gamePaused {
        GameLoop(0);
      }
    }

    /** restartGame: a reset followed by a start. */
    method RestartGame()
      requires Valid()
      modifies this
      ensures Valid() && State() == Start(Reset(old(State()), Food()))
    {
      ResetGame();
      StartGame();
    }

    method ResetGame()
      requires Valid()
      modifies this
      ensures Valid() && State() == Reset(old(State()), Food())
    {
      snake := [StartCell];
      snakeLength := 1;
      velocityX := 0;
      velocityY := 0;
      score := 0;
      gameRunning := false;
      gamePaused := false;
      assert InGrid(Cell(0, 0), tileCount) && Cell(0, 0) !in snake;
      GenerateFood();
    }

    /**
     * gameLoop(now): with the frame scheduling left out, only the gate
     * remains; when a tick is due it records the time and runs one update.
     */
    method GameLoop(now: int)
      requires Valid() && now >= 0
      requires Due(State(), now) ==> CanPlaceFood(State())
      modifies this
      ensures Valid()
      ensures State() == if Due(old(State()), now)
        then Tick(old(State()).(lastRenderTime := now), Food())
        else old(State())
    {
      if !gameRunning || gamePaused {
        return;
      }
      if now - lastRenderTime < gameSpeed {
        return;
      }
      lastRenderTime := now;
      Update();
    }

    /**
     * update: the one tick of the game. Its only caller runs it on a running,
     * unpaused game; CanPlaceFood says the food search after a meal ends.
     */
    method Update()
      requires Valid() && gameRunning && !gamePaused && CanPlaceFood(State())
      modifies this
      ensures Valid() && State() == Tick(old(State()), Food())
    {
      ghost var g := State();
      ghost var crossed := if LeavesGrid(g.snake[0], g.vx, g.vy, g.tileCount) then 1 else 0;
      var newX := snake[0].x + velocityX;
      var newY := snake[0].y + velocityY;
      if newX < 0 || newX >= tileCount || newY < 0 || newY >= tileCount {
        boundaryCrossCount := boundaryCrossCount + 1;
        if newX < 0 {
          newX := tileCount - 1;
        } else if newX >= tileCount {
          newX := 0;
        }
        if newY < 0 {
          newY := tileCount - 1;
        } else if newY >= tileCount {
          newY := 0;
        }
      }
      var newHead := Cell(newX, newY);
      assert newHead == NextHead(g);
      assert State() == g.(crossCount := g.crossCount + crossed);

      // self-collision, against the snake as it is before the move
      var hit := Occupied(newHead);
      if hit {
        GameOver();
        return;
      }
      StepTo(newHead);
    }

    /**
     * The rest of update: unshift the new head, then either eat (score,
     * length, new food, speed) or pop the tail.
     */
    method StepTo(newHead: Cell)
      requires Valid() && InGrid(newHead, tileCount) && newHead !in snake
      requires newHead == Food() ==> HasFreeCell([newHead] + snake, tileCount)
      modifies this
      ensures Valid() && State() == Stepped(old(State()), newHead, Food())
    {
      ghost var g := State();
      snake := [newHead] + snake;
      if newHead == Food() {
        score := score + FoodPoints;
        snakeLength := snakeLength + 1;
        GenerateFood();
        if score % SpeedUpEvery == 0 {
          gameSpeed := Max(MinSpeed, gameSpeed - SpeedStep);
        }
      } else {
        snake := snake[..|snake| - 1];
      }
      SteppedPreservesInv(g, newHead, Food());
    }

    /** The scan of update's collision test: whether c is one of the segments. */
    method Occupied(c: Cell) returns (hit: bool)
      ensures hit <==> c in snake
    {
      var i := 0;
      while i < |snake|
        invariant 0 <= i <= |snake|
        invariant forall k :: 0 <= k < i ==> snake[k] != c
      {
        if snake[i] == c {
          return true;
        }
        i := i + 1;
      }
      return false;
    }

    /**
     * generateFood: draws board cells until one is off the snake. Each draw
     * is a free choice of a cell on the board; a cell already rejected is
     * not drawn again, which changes which draws happen but not which cells
     * can come out, and makes the search end whenever a free cell exists.
     */
    method GenerateFood()
      requires HasFreeCell(snake, tileCount)
      modifies this`foodX, this`foodY
      ensures InGrid(Food(), tileCount) && Food() !in snake
    {
      ghost var free :| InGrid(free, tileCount) && free !in snake;
      var newFoodX, newFoodY := 0, 0;
      var validPosition := false;
      var rejected: set<Cell> := {};
      while !validPosition
        invariant rejected <= set c | c in snake
        invariant validPosition ==>
          InGrid(Cell(newFoodX, newFoodY), tileCount) && Cell(newFoodX, newFoodY) !in snake
        decreases (set c | c in snake) - rejected, !validPosition
      {
        assert free !in rejected;
        newFoodX, newFoodY :| 0 <= newFoodX < tileCount && 0 <= newFoodY < tileCount
                              && Cell(newFoodX, newFoodY) !in rejected;
        validPosition := true;
        var k := 0;
        while k < |snake|
          invariant 0 <= k <= |snake|
          invariant forall m :: 0 <= m < k ==> snake[m] != Cell(newFoodX, newFoodY)
        {
          if snake[k] == Cell(newFoodX, newFoodY) {
            validPosition := false;
            break;
          }
          k := k + 1;
        }
        if !validPosition {
          rejected := rejected + {Cell(newFoodX, newFoodY)};
        }
      }
      foodX := newFoodX;
      foodY := newFoodY;
    }

    /**
     * gameOver: stops the game and raises the high score to the score when
     * the score is higher (the write to storage is not modelled).
     */
    method GameOver()
      requires Valid() && !gamePaused
      modifies this`gameRunning, this`highScore
      ensures Valid() && State() == Ended(old(State()))
    {
      gameRunning := false;
      if score > highScore {
        highScore := score;
      }
    }
  }
}
