/**
 * The game's state as one value: every module-level variable of the
 * simulation, the constants the tick uses, the signals the tick emits,
 * and the random draws each operation consumes.
 */
module Entities {
  import opened Wrappers
  import opened Grid

  const BASE_SPEED: int := 200      // ms per tick at the start of a session
  const MIN_SPEED: int := 30        // floor of the tick interval
  const FOOD_TIMEOUT: int := 10000  // ms allowed per food
  const RUBY_LIFETIME: int := 6000  // ms a ruby stays on the board
  const INVINCIBLE_TIME: int := 6000
  const RUBY_POINTS: int := 10
  const RUBY_SCORE_GAP: int := 10   // points needed since the last ruby spawn
  const SPEED_EVERY: int := 9       // score multiple that speeds the game up
  const OBSTACLES_EVERY: int := 6   // score multiple that regenerates obstacles
  const CHAIN_LENGTH: int := 6
  const START_ATTEMPTS: int := 50
  const START_DISTANCE: int := 5

  /** The snake present at the start of every session, head first. */
  const START_SNAKE: seq<Pos> := [Pos(10, 10), Pos(9, 10), Pos(8, 10)]
  const START_DIR: Dir := Dir(1, 0)
  /** The food cell the game holds before its first session. */
  const INITIAL_FOOD: Pos := Pos(15, 15)

  datatype Ruby = Ruby(pos: Pos, spawnTime: int)

  /** The sounds the tick triggers: the turn, the eat and the die sound. */
  datatype Event = Turned | Ate | Died

  /** The module-level variables of the simulation. */
  datatype World = World(
    snake: seq<Pos>,
    food: Pos,
    ruby: Option<Ruby>,
    obstacles: seq<Pos>,
    dir: Dir,              // committed direction (dx, dy)
    nextDir: Dir,          // buffered direction (nextDx, nextDy)
    lastDir: Dir,          // last direction a turn sound was played for
    score: int,
    highScore: int,
    currentSpeed: int,
    speedMultiplier: nat,
    running: bool,         // isGameRunning
    started: bool,         // isGameStarted
    paused: bool,          // isPaused
    over: bool,            // isGameOver
    invincible: bool,
    invincibleEnd: int,
    foodSpawnTime: int,
    pauseStart: int,
    lastRubySpawnScore: int)

  /** floor(random * 4): the index of a chain's first direction. */
  type DirIndex = i: int | 0 <= i < 4
  /** floor(random * 3): the index among the three directions that do not reverse. */
  type Pick = i: int | 0 <= i < 3

  /** One step of the obstacle walk: keep the heading, or turn (the 30% branch) to the picked direction. */
  datatype Step = Straight | Swerve(pick: Pick)

  /** The draws one chain of generateObstacles consumes. */
  datatype ChainDraws = ChainDraws(starts: seq<Cell>, dir: DirIndex, steps: seq<Step>)

  /** A chain's draws: a candidate start for each of the 50 attempts and a step decision for each of the 5 extensions. */
  type ChainOracle = c: ChainDraws | |c.starts| == START_ATTEMPTS && |c.steps| == CHAIN_LENGTH - 1
    witness ChainDraws(seq(50, _ => Pos(0, 0)), 0, seq(5, _ => Straight))

  /** Every random value one tick may consume. */
  datatype TickDraws = TickDraws(
    foodDraws: seq<Cell>,                // samples placeFood draws until one is free
    rubyRoll: bool,                      // Math.random() < 0.3 in the ruby spawn gate
    rubyCell: Cell,                      // the single sample spawnRuby draws
    foodChains: nat -> ChainOracle,      // generateObstacles after eating food, chain by chain
    rubyChains: nat -> ChainOracle)      // generateObstacles after collecting a ruby

  /** The signals a tick emitted, with the state after it. */
  datatype Outcome = Outcome(w: World, events: seq<Event>)

  /** The four tick intervals a session goes through, paired with the chain count that comes with each. */
  predicate SpeedTable(speed: int, multiplier: nat) {
    (multiplier == 1 && speed == BASE_SPEED) ||
    (multiplier == 2 && speed == 100) ||
    (multiplier == 4 && speed == 50) ||
    (multiplier >= 8 && speed == MIN_SPEED)
  }

  predicate AllInGrid(cells: seq<Pos>) {
    forall i :: 0 <= i < |cells| ==> InGrid(cells[i])
  }

  /** What holds of the state between any two operations. */
  predicate Valid(w: World) {
    && (w.running <==> w.started && !w.over)
    && (!w.started ==> w.paused && !w.over)
    && (w.over ==> !w.paused)
    && (w.started ==> |w.snake| >= |START_SNAKE|)
    && AllInGrid(w.snake)
    && AllInGrid(w.obstacles)
    && InGrid(w.food)
    && (w.ruby.Some? ==> InGrid(w.ruby.value.pos))
    && IsUnit(w.dir) && IsUnit(w.nextDir) && IsUnit(w.lastDir)
    && w.nextDir != Reverse(w.dir)
    && SpeedTable(w.currentSpeed, w.speedMultiplier)
    && w.score >= 0 && w.highScore >= 0 && w.lastRubySpawnScore >= 0
  }
}
