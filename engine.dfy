/**
 * update(): one tick of the simulation, as a function of the state, the
 * random draws of the tick and the time of the tick.
 */
module Engine {
  import opened Wrappers
  import opened Grid
  import opened Entities
  import opened Placement
  import opened Obstacles
  import opened Session

  function Max(a: int, b: int): int {
    if a >= b then a else b
  }

  /** Every 9 points the tick interval halves (floor 30 ms) and the chain count doubles. */
  function SpeedUp(w: World): (r: World)
    requires SpeedTable(w.currentSpeed, w.speedMultiplier)
    ensures SpeedTable(r.currentSpeed, r.speedMultiplier)
    ensures r == w.(currentSpeed := r.currentSpeed, speedMultiplier := r.speedMultiplier)
  {
    // currentSpeed is always 200, 100, 50 or 30, so integer halving is the source's halving
    if w.score > 0 && w.score % SPEED_EVERY == 0 then
      w.(currentSpeed := Max(MIN_SPEED, w.currentSpeed / 2), speedMultiplier := w.speedMultiplier * 2)
    else w
  }

  /** The obstacle policy after a score change: regenerate on a multiple of 6, otherwise clear what is there. */
  function ObstaclePolicy(w: World, oracle: nat -> ChainOracle): (r: World)
    requires |w.snake| > 0
    ensures r == w.(obstacles := r.obstacles)
    ensures w.score > 0 && w.score % OBSTACLES_EVERY == 0 ==> r == GenerateObstacles(w, oracle)
    ensures w.score > 0 && w.score % OBSTACLES_EVERY != 0 ==> r.obstacles == []
    ensures w.score <= 0 ==> r == w
  {
    if w.score > 0 && w.score % OBSTACLES_EVERY == 0 then GenerateObstacles(w, oracle)
    else if w.score > 0 && w.score % OBSTACLES_EVERY != 0 && |w.obstacles| > 0 then w.(obstacles := [])
    else w
  }

  /** The ruby spawn gate: 10 points since the last spawn, no ruby, and the 30% roll. */
  predicate RubyGateOpen(w: World, d: TickDraws) {
    w.score - w.lastRubySpawnScore >= RUBY_SCORE_GAP && w.ruby.None? && d.rubyRoll
  }

  /** Through the gate, spawnRuby runs and the spawn score is recorded whether or not a ruby appears. */
  function RubyGate(w: World, d: TickDraws, now: int): (r: World)
    ensures RubyGateOpen(w, d) ==> r.lastRubySpawnScore == w.score
    ensures !RubyGateOpen(w, d) ==> r == w
    ensures r == w.(ruby := r.ruby, lastRubySpawnScore := r.lastRubySpawnScore)
  {
    if RubyGateOpen(w, d) then SpawnRuby(w, d.rubyCell, now).(lastRubySpawnScore := w.score) else w
  }

  /** The food branch of update, entered after the new head has been put in front of the snake. */
  function EatFood(m: World, d: TickDraws, now: int): (r: World)
    requires |m.snake| > 0 && SpeedTable(m.currentSpeed, m.speedMultiplier)
  {
    var scored := m.(score := m.score + 1);
    var faster := SpeedUp(scored);
    var cleared := ObstaclePolicy(faster, d.foodChains);
    var gated := RubyGate(cleared, d, now);
    PlaceFood(gated, d.foodDraws, now)
  }

  /** The ruby branch of update. */
  function CollectRuby(f: World, oracle: nat -> ChainOracle, now: int): (r: World)
    requires |f.snake| > 0
  {
    ObstaclePolicy(f.(score := f.score + RUBY_POINTS, ruby := None, invincible := true,
                      invincibleEnd := now + INVINCIBLE_TIME), oracle)
  }

  /** The end of update: invincibility runs out, then an old ruby disappears. */
  function ExpireTimers(g: World, now: int): (r: World)
    ensures r.invincible ==> now < r.invincibleEnd
    ensures r.ruby.Some? ==> now - r.ruby.value.spawnTime <= RUBY_LIFETIME
    ensures g.invincible && now < g.invincibleEnd ==> r.invincible
    ensures g.ruby.Some? && now - g.ruby.value.spawnTime <= RUBY_LIFETIME ==> r.ruby == g.ruby
    ensures r == g.(invincible := r.invincible, ruby := r.ruby)
  {
    var h := if g.invincible && now >= g.invincibleEnd then g.(invincible := false) else g;
    if h.ruby.Some? && now - h.ruby.value.spawnTime > RUBY_LIFETIME then h.(ruby := None) else h
  }

  /** The buffered direction becomes the committed one; a change of direction is remembered. */
  function Commit(w: World): World {
    var c := w.(dir := w.nextDir);
    if c.dir != w.lastDir then c.(lastDir := c.dir) else c
  }

  function TurnEvents(w: World): seq<Event> {
    if w.nextDir != w.lastDir then [Turned] else []
  }

  /** Whether a tick is a running tick: not paused, not over, and the food has not timed out. */
  predicate Moves(w: World, now: int) {
    !w.paused && !w.over && now - w.foodSpawnTime <= FOOD_TIMEOUT
  }

  /** The head the tick moves to. */
  function HeadOf(w: World): Pos
    requires |w.snake| > 0
  {
    NextHead(w.snake[0], w.nextDir)
  }

  /** The collision test, made against the snake before it moves (its tail included) and the obstacles. */
  predicate Collides(w: World)
    requires |w.snake| > 0
  {
    !w.invincible && (HeadOf(w) in w.snake || HeadOf(w) in w.obstacles)
  }

  /** The state after the head moves: the tail is dropped unless the head is on the food, which is eaten. */
  function Moved(w: World, d: TickDraws, now: int): World
    requires Valid(w) && w.started
  {
    var c := Commit(w);
    var head := HeadOf(w);
    var m := c.(snake := [head] + c.snake);
    if head == m.food then EatFood(m, d, now) else m.(snake := m.snake[..|m.snake| - 1])
  }

  /** Whether the moved head is on the ruby after the food branch. */
  predicate GetsRuby(f: World, head: Pos) {
    f.ruby.Some? && head == f.ruby.value.pos
  }

  /** After the move: the ruby under the head is collected, then the timers run out. */
  function AfterMove(f: World, head: Pos, d: TickDraws, now: int): World
    requires |f.snake| > 0
  {
    var g := if GetsRuby(f, head) then CollectRuby(f, d.rubyChains, now) else f;
    ExpireTimers(g, now)
  }

  /** The rest of a safe running tick: the move, the ruby check, the timers. */
  function Survive(w: World, d: TickDraws, now: int): Outcome
    requires Valid(w) && w.started
  {
    var head := HeadOf(w);
    var f := Moved(w, d, now);
    var got := GetsRuby(f, head);
    Outcome(AfterMove(f, head, d, now),
            TurnEvents(w) + ((if head == w.food then [Ate] else []) + (if got then [Ate] else [])))
  }

  /** A running tick: the direction is committed, then the snake dies on a collision or moves. */
  function Advance(w: World, d: TickDraws, now: int): Outcome
    requires Valid(w) && w.started
  {
    if Collides(w) then Outcome(GameOver(Commit(w)), TurnEvents(w) + [Died])
    else Survive(w, d, now)
  }

  /** One call of update at time now. */
  function Tick(w: World, d: TickDraws, now: int): (o: Outcome)
    requires Valid(w)
    ensures w.paused || w.over ==> o == Outcome(w, [])
  {
    if w.paused || w.over then Outcome(w, [])
    else if now - w.foodSpawnTime > FOOD_TIMEOUT then Outcome(GameOver(w), [])
    else Advance(w, d, now)
  }
}
