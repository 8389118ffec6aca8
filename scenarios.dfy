/**
 * Concrete situations of the game, each stated for every tick that
 * starts in the described state and every value the random source gives.
 */
module Scenarios {
  import opened Wrappers
  import opened Grid
  import opened Entities
  import opened Placement
  import opened Session
  import opened Engine
  import opened TickProperties

  /**
   * The fresh snake heading right with the food at (11,10): one tick moves the
   * head onto the food, keeps the tail, and scores exactly one point.
   */
  lemma FirstBiteGrows(w: World, d: TickDraws, now: int)
    requires Valid(w) && Moves(w, now)
    requires w.snake == START_SNAKE && w.nextDir == START_DIR && w.food == Pos(11, 10)
    requires w.obstacles == [] && w.ruby.None?
    ensures var o := Tick(w, d, now);
      && o.w.snake == [Pos(11, 10), Pos(10, 10), Pos(9, 10), Pos(8, 10)]
      && o.w.score == w.score + 1 && !o.w.over
      && Ate in o.events
  {
    var head := HeadOf(w);
    assert head == Pos(11, 10);
    assert !Collides(w);
    SurvivingTick(w, d, now);
    MovedEffects(w, d, now);
    var f := Moved(w, d, now);
    assert !GetsRuby(f, head) by {
      var c := Commit(w);
      var m := c.(snake := [head] + c.snake);
      EatFoodRubyAndFood(m, d, now);
    }
    AfterMoveEffects(f, head, d, now);
    assert Tick(w, d, now).events == TurnEvents(w) + ([Ate] + []);
  }

  /** The ninth point halves the interval from 200 ms to 100 ms and doubles the chain count. */
  lemma NinthPointSpeedsUp(w: World, d: TickDraws, now: int)
    requires Valid(w) && Moves(w, now) && !Collides(w)
    requires HeadOf(w) == w.food && w.score == 8 && w.currentSpeed == BASE_SPEED
    ensures Tick(w, d, now).w.currentSpeed == 100 && Tick(w, d, now).w.speedMultiplier == 2
  {
    SurvivingTick(w, d, now);
    var c := Commit(w);
    var m := c.(snake := [HeadOf(w)] + c.snake);
    EatFoodScore(m, d, now);
    AfterMoveEffects(Moved(w, d, now), HeadOf(w), d, now);
  }

  /** A ruby spawned at t is gone after any surviving tick at t + 6001 or later. */
  lemma StaleRubyVanishes(w: World, d: TickDraws, now: int, t: int)
    requires Valid(w) && Moves(w, now) && !Collides(w)
    requires w.ruby.Some? && w.ruby.value.spawnTime == t && now >= t + RUBY_LIFETIME + 1
    ensures Tick(w, d, now).w.ruby.None?
  {
    SurvivingTick(w, d, now);
    var head := HeadOf(w);
    var c := Commit(w);
    var m := c.(snake := [head] + c.snake);
    var f := Moved(w, d, now);
    if head == m.food {
      EatFoodRubyAndFood(m, d, now);
    }
    assert f.ruby == w.ruby;
    AfterMoveEffects(f, head, d, now);
  }
}
