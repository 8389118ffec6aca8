/**
 * What one tick promises: the timeout, the collision rule, how the snake
 * moves and grows, the effects of food and ruby, the timers, and that
 * the state invariant survives the tick.
 */
module TickProperties {
  import opened Wrappers
  import opened Grid
  import opened Entities
  import opened Placement
  import opened Obstacles
  import opened Session
  import opened Engine

  /** Eating leaves the snake and everything but the score, speed, obstacles, ruby and food as it was. */
  lemma EatFoodFrame(m: World, d: TickDraws, now: int)
    requires |m.snake| > 0 && SpeedTable(m.currentSpeed, m.speedMultiplier)
    ensures var r := EatFood(m, d, now);
      r == m.(score := r.score, currentSpeed := r.currentSpeed, speedMultiplier := r.speedMultiplier,
              obstacles := r.obstacles, ruby := r.ruby, lastRubySpawnScore := r.lastRubySpawnScore,
              food := r.food, foodSpawnTime := r.foodSpawnTime)
  {
    var faster := SpeedUp(m.(score := m.score + 1));
    var cleared := ObstaclePolicy(faster, d.foodChains);
    var gated := RubyGate(cleared, d, now);
    assert gated == m.(score := gated.score, currentSpeed := gated.currentSpeed, speedMultiplier := gated.speedMultiplier,
                       obstacles := gated.obstacles, ruby := gated.ruby, lastRubySpawnScore := gated.lastRubySpawnScore);
  }

  /** Eating: one point; on a multiple of 9 the interval halves (floor 30 ms) and the chain count doubles. */
  lemma EatFoodScore(m: World, d: TickDraws, now: int)
    requires |m.snake| > 0 && SpeedTable(m.currentSpeed, m.speedMultiplier) && m.score >= 0
    ensures var r := EatFood(m, d, now);
      && r.snake == m.snake
      && r.score == m.score + 1
      && (r.score % SPEED_EVERY == 0 ==>
            r.currentSpeed == Max(MIN_SPEED, m.currentSpeed / 2) && r.speedMultiplier == 2 * m.speedMultiplier)
      && (r.score % SPEED_EVERY != 0 ==>
            r.currentSpeed == m.currentSpeed && r.speedMultiplier == m.speedMultiplier)
  {
    EatFoodFrame(m, d, now);
    var faster := SpeedUp(m.(score := m.score + 1));
    var cleared := ObstaclePolicy(faster, d.foodChains);
    var gated := RubyGate(cleared, d, now);
    assert gated.currentSpeed == faster.currentSpeed && gated.speedMultiplier == faster.speedMultiplier;
  }

  /** Eating applies the obstacle policy to the new score: regenerate (with the new chain count) or clear. */
  lemma EatFoodObstacles(m: World, d: TickDraws, now: int)
    requires |m.snake| > 0 && SpeedTable(m.currentSpeed, m.speedMultiplier) && m.score >= 0
    ensures var r := EatFood(m, d, now);
      && (r.score % OBSTACLES_EVERY == 0 ==>
            r.obstacles == Flatten(Chains(d.foodChains, r.speedMultiplier, m.snake[0], m.snake, m.food)))
      && (r.score % OBSTACLES_EVERY != 0 ==> r.obstacles == [])
  {
    EatFoodScore(m, d, now);
    var faster := SpeedUp(m.(score := m.score + 1));
    var cleared := ObstaclePolicy(faster, d.foodChains);
    var gated := RubyGate(cleared, d, now);
    assert gated.obstacles == cleared.obstacles;
    assert faster.snake == m.snake && faster.food == m.food && faster.score == m.score + 1;
  }

  /**
   * Behind the gate (10 points since the last spawn, no ruby, the 30% roll) spawnRuby runs and
   * the spawn score is recorded even when no ruby appears; a ruby that appears is on a free cell.
   * Afterwards the food is placed and, when a draw was free, is on no snake cell, ruby or obstacle.
   */
  lemma EatFoodRubyAndFood(m: World, d: TickDraws, now: int)
    requires |m.snake| > 0 && SpeedTable(m.currentSpeed, m.speedMultiplier) && m.score >= 0
    ensures var r := EatFood(m, d, now);
      var gate := m.score + 1 - m.lastRubySpawnScore >= RUBY_SCORE_GAP && m.ruby.None? && d.rubyRoll;
      && (!gate ==> r.ruby == m.ruby && r.lastRubySpawnScore == m.lastRubySpawnScore)
      && (gate ==> r.lastRubySpawnScore == r.score)
      && (gate && r.ruby.Some? ==>
            r.ruby.value == Ruby(d.rubyCell, now) && RubyFree(d.rubyCell, m.(obstacles := r.obstacles)))
      && (FoodPlaced(r, d.foodDraws) ==> FoodFree(r.food, r.snake, r.ruby, r.obstacles) && r.foodSpawnTime == now)
  {
    EatFoodScore(m, d, now);
    var faster := SpeedUp(m.(score := m.score + 1));
    var cleared := ObstaclePolicy(faster, d.foodChains);
    var gated := RubyGate(cleared, d, now);
    assert cleared == m.(score := m.score + 1, currentSpeed := faster.currentSpeed,
                         speedMultiplier := faster.speedMultiplier, obstacles := cleared.obstacles);
    assert RubyGateOpen(cleared, d) == (m.score + 1 - m.lastRubySpawnScore >= RUBY_SCORE_GAP && m.ruby.None? && d.rubyRoll);
  }

  /** Collecting the ruby: ten points, no ruby, invincibility for 6000 ms and the obstacle policy again. */
  lemma CollectRubyEffects(f: World, oracle: nat -> ChainOracle, now: int)
    requires |f.snake| > 0 && f.score >= 0
    ensures var r := CollectRuby(f, oracle, now);
      && r.score == f.score + RUBY_POINTS
      && r.ruby.None? && r.invincible && r.invincibleEnd == now + INVINCIBLE_TIME
      && (r.score % OBSTACLES_EVERY == 0 ==> r.obstacles == Flatten(Chains(oracle, f.speedMultiplier, f.snake[0], f.snake, f.food)))
      && (r.score % OBSTACLES_EVERY != 0 ==> r.obstacles == [])
      && r == f.(score := r.score, ruby := None, invincible := true, invincibleEnd := r.invincibleEnd, obstacles := r.obstacles)
  {
  }

  /** A tick after the food deadline ends the session without moving or turning the snake. */
  lemma TickTimeout(w: World, d: TickDraws, now: int)
    requires Valid(w) && !w.paused && !w.over && now - w.foodSpawnTime > FOOD_TIMEOUT
    ensures var o := Tick(w, d, now);
      && o.w == GameOver(w) && o.events == []
      && o.w.snake == w.snake && o.w.dir == w.dir && o.w.score == w.score && o.w.ruby == w.ruby
  {
  }

  /**
   * A running tick ends the session exactly when the snake is not invincible and the
   * wrapped head is on a segment of the snake before it moves (its tail included) or
   * on an obstacle; then the snake, score, food and obstacles stay as they were.
   */
  lemma TickCollision(w: World, d: TickDraws, now: int)
    requires Valid(w) && Moves(w, now)
    ensures var o := Tick(w, d, now);
      var head := NextHead(w.snake[0], w.nextDir);
      && (o.w.over <==> !w.invincible && (head in w.snake || head in w.obstacles))
      && (o.w.over ==>
            && o.w.snake == w.snake && o.w.score == w.score && o.w.food == w.food
            && o.w.obstacles == w.obstacles && o.w.ruby == w.ruby
            && o.events == TurnEvents(w) + [Died])
  {
    if !Collides(w) {
      SurvivingTick(w, d, now);
      MovedEffects(w, d, now);
      AfterMoveEffects(Moved(w, d, now), HeadOf(w), d, now);
    }
  }

  /** Moving onto the cell the tail is about to leave is a collision. */
  lemma TailCellIsDeadly(w: World, d: TickDraws, now: int)
    requires Valid(w) && Moves(w, now) && !w.invincible
    requires NextHead(w.snake[0], w.nextDir) == w.snake[|w.snake| - 1]
    ensures Tick(w, d, now).w.over
  {
    TickCollision(w, d, now);
  }

  /** While invincible a running tick never ends the session. */
  lemma InvincibleSurvives(w: World, d: TickDraws, now: int)
    requires Valid(w) && Moves(w, now) && w.invincible
    ensures !Tick(w, d, now).w.over
  {
    TickCollision(w, d, now);
  }

  /** A running tick without a collision is the move followed by the ruby check and the timers. */
  lemma SurvivingTick(w: World, d: TickDraws, now: int)
    requires Valid(w) && Moves(w, now) && !Collides(w)
    ensures w.started
    ensures Tick(w, d, now) == Survive(w, d, now)
    ensures Tick(w, d, now).w == AfterMove(Moved(w, d, now), HeadOf(w), d, now)
  {
  }

  /** The move commits the direction, keeps the session running, and grows the snake by the food it eats. */
  lemma MovedEffects(w: World, d: TickDraws, now: int)
    requires Valid(w) && w.started
    ensures var head := HeadOf(w);
      var ate := head == w.food;
      var f := Moved(w, d, now);
      && f.snake == [head] + (if ate then w.snake else w.snake[..|w.snake| - 1])
      && f.dir == w.nextDir && f.over == w.over
      && f.score == w.score + (if ate then 1 else 0)
  {
    var c := Commit(w);
    var head := HeadOf(w);
    var m := c.(snake := [head] + c.snake);
    if head == m.food {
      EatFoodScore(m, d, now);
    }
  }

  /** The move leaves invincibility as it was, and an existing ruby in place (no second ruby can spawn). */
  lemma MovedKeepsTimers(w: World, d: TickDraws, now: int)
    requires Valid(w) && w.started
    ensures var f := Moved(w, d, now);
      && f.invincible == w.invincible && f.invincibleEnd == w.invincibleEnd
      && (w.ruby.Some? ==> f.ruby == w.ruby)
  {
    var c := Commit(w);
    var head := HeadOf(w);
    var m := c.(snake := [head] + c.snake);
    if head == m.food {
      EatFoodFrame(m, d, now);
      EatFoodRubyAndFood(m, d, now);
    }
  }

  /** The ruby check and the timers keep the snake, the direction and the flags; only the ruby adds points. */
  lemma AfterMoveEffects(f: World, head: Pos, d: TickDraws, now: int)
    requires |f.snake| > 0 && f.score >= 0
    ensures var r := AfterMove(f, head, d, now);
      && r.snake == f.snake && r.dir == f.dir && r.over == f.over
      && r.currentSpeed == f.currentSpeed && r.speedMultiplier == f.speedMultiplier
      && r.score == f.score + (if GetsRuby(f, head) then RUBY_POINTS else 0)
      && (r.ruby.Some? ==> r.ruby == f.ruby && now - r.ruby.value.spawnTime <= RUBY_LIFETIME)
      && (f.invincible && now < f.invincibleEnd ==> r.invincible)
      && (!GetsRuby(f, head) && f.ruby.Some? && now - f.ruby.value.spawnTime <= RUBY_LIFETIME ==> r.ruby == f.ruby)
  {
    if GetsRuby(f, head) {
      CollectRubyEffects(f, d.rubyChains, now);
    }
  }

  /**
   * A surviving tick commits the buffered direction, puts the wrapped head in front,
   * and keeps the rest of the body: all of it when the head is on the food, all but
   * the tail otherwise.
   */
  lemma TickMovement(w: World, d: TickDraws, now: int)
    requires Valid(w) && Moves(w, now) && !Collides(w)
    ensures var o := Tick(w, d, now);
      var head := NextHead(w.snake[0], w.nextDir);
      var ate := head == w.food;
      && InGrid(head) && Adjacent(w.snake[0], head)
      && o.w.snake == [head] + (if ate then w.snake else w.snake[..|w.snake| - 1])
      && |o.w.snake| == |w.snake| + (if ate then 1 else 0)
      && o.w.snake[0] == head
      && o.w.dir == w.nextDir && !o.w.over
  {
    SurvivingTick(w, d, now);
    MovedEffects(w, d, now);
    AfterMoveEffects(Moved(w, d, now), HeadOf(w), d, now);
  }

  /** The score never goes down during a tick; a surviving tick adds 1 for food and 10 for the ruby. */
  lemma TickScore(w: World, d: TickDraws, now: int)
    requires Valid(w)
    ensures Tick(w, d, now).w.score >= w.score
    ensures Moves(w, now) && !Collides(w) ==>
      var f := Moved(w, d, now);
      Tick(w, d, now).w.score ==
        w.score + (if HeadOf(w) == w.food then 1 else 0) + (if GetsRuby(f, HeadOf(w)) then RUBY_POINTS else 0)
  {
    if Moves(w, now) && !Collides(w) {
      SurvivingTick(w, d, now);
      MovedEffects(w, d, now);
      AfterMoveEffects(Moved(w, d, now), HeadOf(w), d, now);
    }
  }

  /**
   * After a surviving tick invincibility, if any, has time left and the ruby, if any,
   * is at most 6000 ms old; collecting the ruby grants invincibility until now + 6000.
   * Conversely invincibility with time left is kept, and a ruby at most 6000 ms old
   * that the head does not reach stays where it is.
   */
  lemma TickTimers(w: World, d: TickDraws, now: int)
    requires Valid(w) && Moves(w, now) && !Collides(w)
    ensures var o := Tick(w, d, now);
      && (o.w.invincible ==> now < o.w.invincibleEnd)
      && (o.w.ruby.Some? ==> now - o.w.ruby.value.spawnTime <= RUBY_LIFETIME)
      && (GetsRuby(Moved(w, d, now), HeadOf(w)) ==>
            o.w.invincible && o.w.invincibleEnd == now + INVINCIBLE_TIME && o.w.ruby.None?)
      && (w.invincible && now < w.invincibleEnd ==> o.w.invincible)
      && (w.ruby.Some? && now - w.ruby.value.spawnTime <= RUBY_LIFETIME && HeadOf(w) != w.ruby.value.pos ==>
            o.w.ruby == w.ruby)
  {
    var f := Moved(w, d, now);
    SurvivingTick(w, d, now);
    MovedKeepsTimers(w, d, now);
    AfterMoveEffects(f, HeadOf(w), d, now);
    if GetsRuby(f, HeadOf(w)) {
      CollectRubyEffects(f, d.rubyChains, now);
    }
  }

  /** Invincibility that has run out still covers the tick that notices it: that tick cannot die and ends it. */
  lemma ExpiringInvincibilityCoversOneTick(w: World, d: TickDraws, now: int)
    requires Valid(w) && Moves(w, now) && w.invincible && now >= w.invincibleEnd
    requires !GetsRuby(Moved(w, d, now), HeadOf(w))
    ensures !Tick(w, d, now).w.over && !Tick(w, d, now).w.invincible
  {
    var c := Commit(w);
    var head := HeadOf(w);
    var m := c.(snake := [head] + c.snake);
    if head == m.food {
      EatFoodScore(m, d, now);
    }
  }

  lemma ObstaclePolicyValid(w: World, oracle: nat -> ChainOracle)
    requires |w.snake| > 0 && AllInGrid(w.obstacles)
    ensures AllInGrid(ObstaclePolicy(w, oracle).obstacles)
  {
    if w.score > 0 && w.score % OBSTACLES_EVERY == 0 {
      ObstaclesInGrid(w, oracle);
    }
  }

  lemma EatFoodValid(m: World, d: TickDraws, now: int)
    requires |m.snake| > 0 && SpeedTable(m.currentSpeed, m.speedMultiplier) && m.score >= 0
    requires AllInGrid(m.obstacles) && InGrid(m.food) && (m.ruby.Some? ==> InGrid(m.ruby.value.pos))
    requires m.lastRubySpawnScore >= 0
    ensures var r := EatFood(m, d, now);
      && AllInGrid(r.obstacles) && InGrid(r.food) && (r.ruby.Some? ==> InGrid(r.ruby.value.pos))
      && SpeedTable(r.currentSpeed, r.speedMultiplier) && r.lastRubySpawnScore >= 0
  {
    var scored := m.(score := m.score + 1);
    var faster := SpeedUp(scored);
    ObstaclePolicyValid(faster, d.foodChains);
  }

  /** The moved state of a surviving tick keeps every part of the invariant that concerns it. */
  lemma MovedValid(w: World, d: TickDraws, now: int)
    requires Valid(w) && Moves(w, now) && !Collides(w)
    ensures var f := Moved(w, d, now);
      && |f.snake| >= |w.snake| && AllInGrid(f.snake) && AllInGrid(f.obstacles) && InGrid(f.food)
      && (f.ruby.Some? ==> InGrid(f.ruby.value.pos))
      && SpeedTable(f.currentSpeed, f.speedMultiplier) && f.score >= w.score && f.lastRubySpawnScore >= 0
      && f.dir == w.nextDir && f.nextDir == w.nextDir && IsUnit(f.lastDir)
      && f.running == w.running && f.started == w.started && f.paused == w.paused && f.over == w.over
      && f.highScore == w.highScore
  {
    var c := Commit(w);
    var head := HeadOf(w);
    var m := c.(snake := [head] + c.snake);
    assert AllInGrid(m.snake);
    if head == m.food {
      EatFoodFrame(m, d, now);
      EatFoodScore(m, d, now);
      EatFoodValid(m, d, now);
    } else {
      assert AllInGrid(m.snake[..|m.snake| - 1]);
    }
  }

  lemma ExpireTimersValid(g: World, now: int)
    requires Valid(g)
    ensures Valid(ExpireTimers(g, now))
  {
  }

  /** The state after the ruby branch of a surviving tick satisfies the invariant. */
  lemma RubyBranchValid(w: World, d: TickDraws, now: int)
    requires Valid(w) && Moves(w, now) && !Collides(w)
    ensures var f := Moved(w, d, now);
      Valid(if GetsRuby(f, HeadOf(w)) then CollectRuby(f, d.rubyChains, now) else f)
  {
    MovedValid(w, d, now);
    ReverseIsNotSelf(w.nextDir);
    var f := Moved(w, d, now);
    assert Valid(f);
    if GetsRuby(f, HeadOf(w)) {
      var h := f.(score := f.score + RUBY_POINTS, ruby := None, invincible := true,
                  invincibleEnd := now + INVINCIBLE_TIME);
      ObstaclePolicyValid(h, d.rubyChains);
      var g := CollectRuby(f, d.rubyChains, now);
      assert g == h.(obstacles := g.obstacles);
    }
  }

  /** A collision ends a valid session in a valid state. */
  lemma CollisionValid(w: World)
    requires Valid(w) && !w.paused && !w.over
    ensures Valid(GameOver(Commit(w)))
  {
    ReverseIsNotSelf(w.nextDir);
    assert Valid(Commit(w));
    GameOverValid(Commit(w));
  }

  /** A surviving tick ends in a valid state. */
  lemma SurviveValid(w: World, d: TickDraws, now: int)
    requires Valid(w) && Moves(w, now) && !Collides(w)
    ensures Valid(Tick(w, d, now).w)
  {
    SurvivingTick(w, d, now);
    RubyBranchValid(w, d, now);
    var f := Moved(w, d, now);
    var g := if GetsRuby(f, HeadOf(w)) then CollectRuby(f, d.rubyChains, now) else f;
    ExpireTimersValid(g, now);
  }

  /** Every tick keeps the state invariant. */
  lemma TickValid(w: World, d: TickDraws, now: int)
    requires Valid(w)
    ensures Valid(Tick(w, d, now).w)
  {
    if w.paused || w.over {
    } else if now - w.foodSpawnTime > FOOD_TIMEOUT {
      GameOverValid(w);
    } else if Collides(w) {
      CollisionValid(w);
    } else {
      SurviveValid(w, d, now);
    }
  }
}
