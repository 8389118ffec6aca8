/**
 * The session lifecycle: the initial variables, gameOver, resetGame and
 * startGame, setDirection, and the state changes handleKeyDown makes for
 * the space bar (start or pause toggle) and the arrow keys.
 */
module Session {
  import opened Wrappers
  import opened Grid
  import opened Entities
  import opened Placement

  /** The module-level variables before the first session; highScore comes from storage. */
  function Initial(storedHighScore: nat): (r: World)
    ensures Valid(r) && !r.started && !r.running && r.paused && r.snake == []
  {
    World(
      snake := [], food := INITIAL_FOOD, ruby := None, obstacles := [],
      dir := START_DIR, nextDir := START_DIR, lastDir := START_DIR,
      score := 0, highScore := storedHighScore, currentSpeed := BASE_SPEED, speedMultiplier := 1,
      running := false, started := false, paused := true, over := false,
      invincible := false, invincibleEnd := 0, foodSpawnTime := 0, pauseStart := 0,
      lastRubySpawnScore := 0)
  }

  /** gameOver: the session stops and the high score becomes the larger of itself and the score. */
  function GameOver(w: World): (r: World)
    ensures r.over && !r.running
    ensures r.highScore >= w.highScore && r.highScore >= w.score
    ensures r.highScore == w.highScore || r.highScore == w.score
    ensures r == w.(running := false, over := true, highScore := r.highScore)
  {
    w.(running := false, over := true, highScore := if w.score > w.highScore then w.score else w.highScore)
  }

  /** The state resetGame hands to placeFood: the fresh snake and direction, the old ruby and obstacles. */
  function ResetSnake(w: World): World {
    w.(snake := START_SNAKE, dir := START_DIR, nextDir := START_DIR, lastDir := START_DIR)
  }

  /** The state resetGame leaves after placeFood: no ruby, no obstacles, no invincibility. */
  function ClearBoard(w: World): World {
    w.(ruby := None, obstacles := [], invincible := false, invincibleEnd := 0)
  }

  /** resetGame: fresh snake and direction, new food, then no ruby, no obstacles, no invincibility. */
  function ResetGame(w: World, draws: seq<Cell>, now: int): (r: World)
    ensures r.snake == START_SNAKE && r.dir == START_DIR && r.nextDir == START_DIR && r.lastDir == START_DIR
    ensures r.ruby.None? && r.obstacles == [] && !r.invincible && r.invincibleEnd == 0
    ensures FoodPlaced(ResetSnake(w), draws) ==> r.food !in r.snake
    ensures |draws| > 0 ==> r.food in draws && r.foodSpawnTime == now
    ensures r.score == w.score && r.highScore == w.highScore && r.lastRubySpawnScore == w.lastRubySpawnScore
    ensures r == w.(snake := START_SNAKE, dir := START_DIR, nextDir := START_DIR, lastDir := START_DIR,
                    food := r.food, foodSpawnTime := r.foodSpawnTime,
                    ruby := None, obstacles := [], invincible := false, invincibleEnd := 0)
  {
    ClearBoard(PlaceFood(ResetSnake(w), draws, now))
  }

  /** The flags and counters startGame sets before it calls resetGame. */
  function FreshSession(w: World): World {
    w.(started := true, running := true, paused := false, over := false,
       score := 0, currentSpeed := BASE_SPEED, speedMultiplier := 1)
  }

  /** startGame: no effect while a session runs; otherwise a fresh running session. */
  function StartGame(w: World, draws: seq<Cell>, now: int): (r: World)
    ensures w.running ==> r == w
    ensures !w.running ==>
      && r.running && r.started && !r.paused && !r.over
      && r.score == 0 && r.currentSpeed == BASE_SPEED && r.speedMultiplier == 1
      && r.snake == START_SNAKE && r.dir == START_DIR && r.nextDir == START_DIR && r.lastDir == START_DIR
      && r.ruby.None? && r.obstacles == [] && !r.invincible && r.invincibleEnd == 0
      && r.highScore == w.highScore && r.lastRubySpawnScore == w.lastRubySpawnScore
    ensures !w.running && |draws| > 0 ==> r.foodSpawnTime == now && r.food in draws
    ensures !w.running && FoodPlaced(ResetSnake(FreshSession(w)), draws) ==> r.food !in START_SNAKE
  {
    if w.running then w else ResetGame(FreshSession(w), draws, now)
  }

  /** setDirection: a request for the exact reverse of the committed direction is dropped. */
  function SetDirection(w: World, d: Dir): (r: World)
    ensures r.dir == w.dir
    ensures d == Reverse(w.dir) ==> r.nextDir == w.nextDir
    ensures d != Reverse(w.dir) ==> r.nextDir == d
    ensures r == w.(nextDir := r.nextDir)
  {
    if d.dx == -w.dir.dx && d.dy == -w.dir.dy then w else w.(nextDir := d)
  }

  /** The pause toggle: pausing records the time, resuming shifts the food deadline by the pause's length. */
  function TogglePause(w: World, now: int): (r: World)
    ensures r.paused == !w.paused
    ensures !w.paused ==> r.pauseStart == now && r.foodSpawnTime == w.foodSpawnTime
    ensures w.paused ==> r.foodSpawnTime - w.foodSpawnTime == now - w.pauseStart && r.pauseStart == w.pauseStart
    ensures r == w.(paused := r.paused, pauseStart := r.pauseStart, foodSpawnTime := r.foodSpawnTime)
  {
    if !w.paused then w.(pauseStart := now, paused := true)
    else w.(foodSpawnTime := w.foodSpawnTime + (now - w.pauseStart), paused := false)
  }

  /** The space bar: starts a session before the first one and after game over, toggles the pause otherwise. */
  function SpaceKey(w: World, draws: seq<Cell>, now: int): World {
    if !w.started then StartGame(w, draws, now)
    else if w.over then StartGame(w, draws, now)
    else TogglePause(w, now)
  }

  /** An arrow key: ignored before the first session, after game over and while paused. */
  function ArrowKey(w: World, d: Dir): World {
    if !w.started || w.over then w
    else if !w.paused then SetDirection(w, d)
    else w
  }

  /** Pausing at t1 and resuming at t2 leaves the food exactly as old, in the tick's terms, as it was at t1. */
  lemma PauseKeepsFoodAge(w: World, t1: int, t2: int)
    requires w.started && !w.over && !w.paused
    ensures var p := SpaceKey(w, [], t1);
      var q := SpaceKey(p, [], t2);
      && p.paused && !q.paused
      && t2 - q.foodSpawnTime == t1 - w.foodSpawnTime
      && q.invincibleEnd == w.invincibleEnd && q.ruby == w.ruby
  {
  }

  /** A reversal request never disturbs the buffered direction, and no accepted one is a reversal. */
  lemma ArrowKeyKeepsNoReversal(w: World, d: Dir)
    requires Valid(w) && IsUnit(d)
    ensures var r := ArrowKey(w, d);
      && r.dir == w.dir && r.nextDir != Reverse(r.dir)
      && (r.nextDir == w.nextDir || r.nextDir == d)
      && (d == Reverse(w.dir) ==> r == w)
  {
  }

  /** gameOver is reached from a running, unpaused tick. */
  lemma GameOverValid(w: World)
    requires Valid(w) && !w.paused
    ensures Valid(GameOver(w))
  {
  }

  lemma StartGameValid(w: World, draws: seq<Cell>, now: int)
    requires Valid(w)
    ensures Valid(StartGame(w, draws, now))
  {
    if !w.running {
      var r := StartGame(w, draws, now);
      assert AllInGrid(r.snake) by {
        assert r.snake == START_SNAKE;
      }
      ReverseIsNotSelf(START_DIR);
    }
  }

  lemma SpaceKeyValid(w: World, draws: seq<Cell>, now: int)
    requires Valid(w)
    ensures Valid(SpaceKey(w, draws, now))
  {
    if !w.started || w.over {
      StartGameValid(w, draws, now);
    }
  }

  lemma ArrowKeyValid(w: World, d: Dir)
    requires Valid(w) && IsUnit(d)
    ensures Valid(ArrowKey(w, d))
  {
  }
}
