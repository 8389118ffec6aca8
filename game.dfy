/**
 * The game as the program holds it: one object whose fields are the
 * module-level variables, and methods that update them step by step as
 * update(), placeFood, spawnRuby, generateObstacles, resetGame,
 * startGame, setDirection, gameOver and the key handler do. Each method
 * is proved to produce the state its specification function describes.
 */
module Game {
  import opened Wrappers
  import opened Grid
  import opened Entities
  import opened Placement
  import opened Obstacles
  import opened Session
  import opened Engine
  import opened TickProperties

  class GameState {
    var snake: seq<Pos>
    var food: Pos
    var ruby: Option<Ruby>
    var obstacles: seq<Pos>
    var dir: Dir
    var nextDir: Dir
    var lastDir: Dir
    var score: int
    var highScore: int
    var currentSpeed: int
    var speedMultiplier: nat
    var running: bool
    var started: bool
    var paused: bool
    var over: bool
    var invincible: bool
    var invincibleEnd: int
    var foodSpawnTime: int
    var pauseStart: int
    var lastRubySpawnScore: int

    /** The fields as one value. */
    function Snapshot(): World
      reads this
    {
      World(snake, food, ruby, obstacles, dir, nextDir, lastDir, score, highScore, currentSpeed,
            speedMultiplier, running, started, paused, over, invincible, invincibleEnd,
            foodSpawnTime, pauseStart, lastRubySpawnScore)
    }

    ghost predicate Valid()
      reads this
    {
      Entities.Valid(Snapshot())
    }

    /** The variables as the script declares them; highScore is the stored value. */
    constructor (storedHighScore: nat)
      ensures Snapshot() == Initial(storedHighScore) && Valid()
    {
      snake, food, ruby, obstacles := [], INITIAL_FOOD, None, [];
      dir, nextDir, lastDir := START_DIR, START_DIR, START_DIR;
      score, highScore, currentSpeed, speedMultiplier := 0, storedHighScore, BASE_SPEED, 1;
      running, started, paused, over := false, false, true, false;
      invincible, invincibleEnd, foodSpawnTime, pauseStart := false, 0, 0, 0;
      lastRubySpawnScore := 0;
    }

    /**
     * placeFood: try the draws in turn until one is free; the last one tried
     * becomes the food. The candidate is held in a local until the loop ends,
     * which no check inside the loop can tell apart from assigning it to food.
     */
    method PlaceFood(draws: seq<Cell>, now: int) returns (placed: bool)
      modifies this
      ensures placed == FoodPlaced(old(Snapshot()), draws)
      ensures Snapshot() == Placement.PlaceFood(old(Snapshot()), draws, now)
    {
      placed := false;
      var i := 0;
      while i < |draws| && !placed
        invariant 0 <= i <= |draws|
        invariant placed ==> i > 0 && FoodFree(draws[i - 1], snake, ruby, obstacles)
        invariant forall j :: 0 <= j < (if placed then i - 1 else i) ==> !FoodFree(draws[j], snake, ruby, obstacles)
        modifies {}
      {
        var candidate := draws[i];
        var onSnake := Occupies(snake, candidate);
        if !onSnake && !OnRuby(candidate, ruby) {
          var onObstacle := Occupies(obstacles, candidate);
          placed := !onObstacle;
        }
        i := i + 1;
      }
      if i > 0 {
        food, foodSpawnTime := draws[i - 1], now;
      }
    }

    /** spawnRuby: one sample, dropped again if it is on the snake, the food or an obstacle. */
    method SpawnRuby(cell: Cell, now: int)
      modifies this
      ensures Snapshot() == Placement.SpawnRuby(old(Snapshot()), cell, now)
    {
      if ruby.Some? {
        return;
      }
      ruby := Some(Ruby(cell, now));
      var onSnake := Occupies(snake, cell);
      if onSnake {
        ruby := None;
        return;
      }
      if cell == food {
        ruby := None;
        return;
      }
      var onObstacle := Occupies(obstacles, cell);
      if onObstacle {
        ruby := None;
      }
    }

    /** generateObstacles: one chain per unit of speedMultiplier, appended in order. */
    method GenerateObstacles(oracle: nat -> ChainOracle)
      requires |snake| > 0
      modifies this
      ensures Snapshot() == Obstacles.GenerateObstacles(old(Snapshot()), oracle)
    {
      // the start search reads only the snake and the food, so the chains can be collected first
      var obs: seq<Pos> := [];
      var head := snake[0];
      var c := 0;
      while c < speedMultiplier
        invariant 0 <= c <= speedMultiplier
        invariant obs == Flatten(Chains(oracle, c, head, snake, food))
        modifies {}
      {
        var chain := BuildChain(oracle(c), head, snake, food);
        ChainsStep(oracle, c, head, snake, food);
        obs := obs + chain;
        c := c + 1;
      }
      obstacles := obs;
    }

    /** The obstacle policy of update, after the food and after the ruby. */
    method ApplyObstaclePolicy(oracle: nat -> ChainOracle)
      requires |snake| > 0
      modifies this
      ensures Snapshot() == ObstaclePolicy(old(Snapshot()), oracle)
    {
      if score > 0 && score % OBSTACLES_EVERY == 0 {
        GenerateObstacles(oracle);
      } else if score > 0 && score % OBSTACLES_EVERY != 0 && |obstacles| > 0 {
        obstacles := [];
      }
    }

    /** The first statements of resetGame: the initial snake and direction. */
    method ResetSnakeStep()
      modifies this
      ensures Snapshot() == ResetSnake(old(Snapshot()))
    {
      snake := START_SNAKE;
      dir, nextDir, lastDir := START_DIR, START_DIR, START_DIR;
    }

    /** The statements of resetGame after placeFood. */
    method ClearBoardStep()
      modifies this
      ensures Snapshot() == ClearBoard(old(Snapshot()))
    {
      ruby, obstacles, invincible, invincibleEnd := None, [], false, 0;
    }

    /** resetGame. */
    method ResetGame(draws: seq<Cell>, now: int)
      modifies this
      ensures Snapshot() == Session.ResetGame(old(Snapshot()), draws, now)
    {
      ResetSnakeStep();
      var _ := PlaceFood(draws, now);
      ClearBoardStep();
    }

    /** The flags startGame sets. */
    method BeginSession()
      modifies this
      ensures Snapshot() == old(Snapshot()).(started := true, running := true, paused := false, over := false)
    {
      started, running, paused, over := true, true, false, false;
    }

    /** The counters startGame resets. */
    method ResetScoring()
      modifies this
      ensures Snapshot() == old(Snapshot()).(score := 0, currentSpeed := BASE_SPEED, speedMultiplier := 1)
    {
      score, currentSpeed, speedMultiplier := 0, BASE_SPEED, 1;
    }

    /** The flags and counters startGame sets before it calls resetGame. */
    method FreshSessionStep()
      modifies this
      ensures Snapshot() == FreshSession(old(Snapshot()))
    {
      BeginSession();
      ResetScoring();
    }

    /** The state part of startGame. */
    method StartGame(draws: seq<Cell>, now: int)
      requires Valid()
      modifies this
      ensures Snapshot() == Session.StartGame(old(Snapshot()), draws, now) && Valid()
    {
      StartGameValid(Snapshot(), draws, now);
      if running {
        return;
      }
      FreshSessionStep();
      ResetGame(draws, now);
    }

    /** setDirection. */
    method SetDirection(d: Dir)
      modifies this
      ensures Snapshot() == Session.SetDirection(old(Snapshot()), d)
    {
      if d.dx == -dir.dx && d.dy == -dir.dy {
        return;
      }
      nextDir := d;
    }

    /** The state and high-score part of gameOver. */
    method GameOver()
      modifies this
      ensures Snapshot() == Session.GameOver(old(Snapshot()))
    {
      running := false;
      over := true;
      if score > highScore {
        highScore := score;
      }
    }

    /** The pause toggle of handleKeyDown. */
    method TogglePauseStep(now: int)
      modifies this
      ensures Snapshot() == TogglePause(old(Snapshot()), now)
    {
      if !paused {
        pauseStart := now;
      } else {
        var dur := now - pauseStart;
        foodSpawnTime := foodSpawnTime + dur;
      }
      paused := !paused;
    }

    /** The space bar in handleKeyDown: start a session, or toggle the pause. */
    method HandleSpace(draws: seq<Cell>, now: int)
      requires Valid()
      modifies this
      ensures Snapshot() == SpaceKey(old(Snapshot()), draws, now) && Valid()
    {
      SpaceKeyValid(Snapshot(), draws, now);
      if !started {
        StartGame(draws, now);
      } else if over {
        StartGame(draws, now);
      } else {
        TogglePauseStep(now);
      }
    }

    /** An arrow key in handleKeyDown. */
    method HandleArrow(d: Dir)
      requires Valid() && IsUnit(d)
      modifies this
      ensures Snapshot() == ArrowKey(old(Snapshot()), d) && Valid()
    {
      ArrowKeyValid(Snapshot(), d);
      if !started || over {
        return;
      }
      if !paused {
        SetDirection(d);
      }
    }

    /** The direction commit of update: nextDir becomes dir, and a change of direction is remembered. */
    method CommitDirection() returns (turned: bool)
      modifies this
      ensures turned <==> old(nextDir) != old(lastDir)
      ensures Snapshot() == Commit(old(Snapshot()))
    {
      dir := nextDir;
      turned := dir != lastDir;
      if turned {
        lastDir := dir;
      }
    }

    /** The collision test of update: unless invincible, the head on a segment (the tail included) or an obstacle. */
    method HitsSomething(head: Pos) returns (hit: bool)
      ensures hit <==> !invincible && (head in snake || head in obstacles)
    {
      hit := false;
      if !invincible {
        hit := Occupies(snake, head);
        if !hit {
          hit := Occupies(obstacles, head);
        }
      }
    }

    /** The speed-up every 9 points: the tick interval halves and the chain count doubles. */
    method SpeedUpStep()
      modifies this
      ensures Snapshot() == SpeedUp(old(Snapshot()))
      requires SpeedTable(currentSpeed, speedMultiplier)
    {
      if score > 0 && score % SPEED_EVERY == 0 {
        currentSpeed, speedMultiplier := Max(MIN_SPEED, currentSpeed / 2), speedMultiplier * 2;
      }
    }

    /** The point for the food, then the speed-up. */
    method ScoreStep()
      requires SpeedTable(currentSpeed, speedMultiplier)
      modifies this
      ensures Snapshot() == SpeedUp(old(Snapshot()).(score := old(score) + 1))
    {
      score := score + 1;
      SpeedUpStep();
    }

    /** The ruby spawn gate of update; the spawn score is recorded whether or not a ruby appears. */
    method RubyGateStep(d: TickDraws, now: int)
      modifies this
      ensures Snapshot() == RubyGate(old(Snapshot()), d, now)
    {
      if score - lastRubySpawnScore >= RUBY_SCORE_GAP && ruby.None? && d.rubyRoll {
        SpawnRuby(d.rubyCell, now);
        lastRubySpawnScore := score;
      }
    }

    /** The food branch of update: a point, the speed-up, the obstacle policy, the ruby gate and a new food. */
    method EatStep(d: TickDraws, now: int)
      requires |snake| > 0 && SpeedTable(currentSpeed, speedMultiplier)
      modifies this
      ensures Snapshot() == EatFood(old(Snapshot()), d, now)
    {
      ScoreStep();
      ApplyObstaclePolicy(d.foodChains);
      RubyGateStep(d, now);
      var _ := PlaceFood(d.foodDraws, now);
    }

    /** The move of update: the head goes in front; the tail goes unless the head is on the food. */
    method MoveStep(head: Pos, d: TickDraws, now: int, ghost w0: World) returns (ate: bool)
      requires Entities.Valid(w0) && w0.started && Snapshot() == Commit(w0) && head == HeadOf(w0)
      modifies this
      ensures ate <==> head == w0.food
      ensures Snapshot() == Moved(w0, d, now)
    {
      snake := [head] + snake;
      assert Snapshot() == Commit(w0).(snake := [head] + w0.snake);
      ate := head == food;
      if ate {
        EatStep(d, now);
      } else {
        snake := snake[..|snake| - 1];
      }
    }

    /** The ruby branch of update: ten points, no ruby, six seconds of invincibility, the obstacle policy. */
    method CollectStep(oracle: nat -> ChainOracle, now: int)
      requires |snake| > 0
      modifies this
      ensures Snapshot() == CollectRuby(old(Snapshot()), oracle, now)
    {
      score := score + RUBY_POINTS;
      ruby := None;
      invincible := true;
      invincibleEnd := now + INVINCIBLE_TIME;
      assert Snapshot() == old(Snapshot()).(score := old(score) + RUBY_POINTS, ruby := None, invincible := true,
                                            invincibleEnd := now + INVINCIBLE_TIME);
      ApplyObstaclePolicy(oracle);
    }

    /** The end of update: invincibility runs out, then an old ruby disappears. */
    method ExpireStep(now: int)
      modifies this
      ensures Snapshot() == ExpireTimers(old(Snapshot()), now)
    {
      if invincible && now >= invincibleEnd {
        invincible := false;
      }
      if ruby.Some? && now - ruby.value.spawnTime > RUBY_LIFETIME {
        ruby := None;
      }
    }

    /** The part of update after the move: the ruby check and the timers. */
    method AfterMoveStep(head: Pos, d: TickDraws, now: int) returns (got: bool)
      requires |snake| > 0
      modifies this
      ensures got == GetsRuby(old(Snapshot()), head)
      ensures Snapshot() == AfterMove(old(Snapshot()), head, d, now)
    {
      got := ruby.Some? && head == ruby.value.pos;
      if got {
        CollectStep(d.rubyChains, now);
      }
      ExpireStep(now);
    }

    /** The part of update after the head is known and no collision stops the tick. */
    method SurviveStep(head: Pos, d: TickDraws, now: int, ghost w0: World) returns (gained: seq<Event>)
      requires Entities.Valid(w0) && w0.started && Snapshot() == Commit(w0) && head == HeadOf(w0)
      modifies this
      ensures Snapshot() == AfterMove(Moved(w0, d, now), head, d, now)
      ensures gained == (if head == w0.food then [Ate] else []) + (if GetsRuby(Moved(w0, d, now), head) then [Ate] else [])
    {
      var ate := MoveStep(head, d, now, w0);
      var got := AfterMoveStep(head, d, now);
      gained := (if ate then [Ate] else []) + (if got then [Ate] else []);
    }

    /** A running tick of update: commit the direction, then die on a collision or move. */
    method RunningTick(d: TickDraws, now: int) returns (events: seq<Event>)
      requires Valid() && started
      modifies this
      ensures Snapshot() == Advance(old(Snapshot()), d, now).w
      ensures events == Advance(old(Snapshot()), d, now).events
    {
      ghost var w0 := Snapshot();
      var turned := CommitDirection();
      events := if turned then [Turned] else [];
      var head := NextHead(snake[0], dir);
      var hit := HitsSomething(head);
      assert hit == Collides(w0);
      if hit {
        events := events + [Died];
        GameOver();
        return;
      }
      var gained := SurviveStep(head, d, now, w0);
      assert Advance(w0, d, now) == Survive(w0, d, now);
      events := events + gained;
    }

    /** update(): one tick at time now, returning the sounds it triggers. */
    method Update(d: TickDraws, now: int) returns (events: seq<Event>)
      requires Valid()
      modifies this
      ensures Snapshot() == Tick(old(Snapshot()), d, now).w && Valid()
      ensures events == Tick(old(Snapshot()), d, now).events
    {
      TickValid(Snapshot(), d, now);
      events := [];
      if paused || over {
        return;
      }
      if now - foodSpawnTime > FOOD_TIMEOUT {
        GameOver();
        return;
      }
      events := RunningTick(d, now);
    }
  }
}
