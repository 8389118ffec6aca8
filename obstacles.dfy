/**
 * generateObstacles: speedMultiplier chains, each a start cell found by
 * up to 50 attempts and then a random walk of at most 6 cells that stops
 * at the first repeated cell.
 */
module Obstacles {
  import opened Grid
  import opened Entities
  import opened Placement

  function Abs(v: int): int {
    if v < 0 then -v else v
  }

  /** Plain Manhattan distance; the start search does not wrap it around the board. */
  function Dist(p: Pos, q: Pos): int {
    Abs(p.x - q.x) + Abs(p.y - q.y)
  }

  /** A start cell at distance 5 or more from the head, on no snake segment and not on the food. */
  predicate StartOk(p: Pos, head: Pos, snake: seq<Pos>, food: Pos) {
    Dist(p, head) >= START_DISTANCE && p !in snake && p != food
  }

  /** The attempt at which the start search stops: the first acceptable draw, or |starts| when none is. */
  function FirstStart(starts: seq<Cell>, head: Pos, snake: seq<Pos>, food: Pos): (k: nat)
    ensures k <= |starts|
    ensures k < |starts| ==> StartOk(starts[k], head, snake, food)
    ensures forall j :: 0 <= j < k ==> !StartOk(starts[j], head, snake, food)
    decreases |starts|
  {
    if |starts| == 0 then 0
    else if StartOk(starts[0], head, snake, food) then 0
    else
      var k := 1 + FirstStart(starts[1..], head, snake, food);
      assert forall j :: 1 <= j < k ==> starts[j] == starts[1..][j - 1];
      k
  }

  function Keep(e: Dir, cur: Dir): seq<Dir> {
    if e.dx != -cur.dx || e.dy != -cur.dy then [e] else []
  }

  /** `dirs.filter(d => d.dx !== -curDir.dx || d.dy !== -curDir.dy)`: the table without the reverse heading. */
  function Perp(cur: Dir): (r: seq<Dir>)
    ensures IsUnit(cur) ==> |r| == 3
    ensures forall i :: 0 <= i < |r| ==> IsUnit(r[i]) && r[i] != Reverse(cur)
  {
    Keep(Dirs[0], cur) + Keep(Dirs[1], cur) + Keep(Dirs[2], cur) + Keep(Dirs[3], cur)
  }

  /** The heading after one step decision. */
  function Heading(cur: Dir, s: Step): (r: Dir)
    requires IsUnit(cur)
    ensures IsUnit(r) && r != Reverse(cur)
    ensures s.Straight? ==> r == cur
  {
    ReverseIsNotSelf(cur);
    match s
    case Straight => cur
    case Swerve(k) => Perp(cur)[k]
  }

  /** The walk from the current chain: extend by one modular step per decision, stop before a repeated cell. */
  function Walk(chain: seq<Pos>, cur: Dir, steps: seq<Step>): seq<Pos>
    requires |chain| > 0 && IsUnit(cur)
    decreases |steps|
  {
    if |steps| == 0 then chain
    else
      var d := Heading(cur, steps[0]);
      var next := ModStep(chain[|chain| - 1], d);
      if next in chain then chain else Walk(chain + [next], d, steps[1..])
  }

  /** One chain: empty when all 50 attempts fail, otherwise the walk from the accepted start. */
  function ChainFor(cd: ChainOracle, head: Pos, snake: seq<Pos>, food: Pos): seq<Pos> {
    var k := FirstStart(cd.starts, head, snake, food);
    if k >= START_ATTEMPTS then [] else Walk([cd.starts[k]], Dirs[cd.dir], cd.steps)
  }

  /** The first n chains, one per loop iteration; a skipped chain contributes []. */
  function Chains(oracle: nat -> ChainOracle, n: nat, head: Pos, snake: seq<Pos>, food: Pos): (r: seq<seq<Pos>>)
    ensures |r| == n
    ensures forall c :: 0 <= c < n ==> r[c] == ChainFor(oracle(c), head, snake, food)
  {
    if n == 0 then [] else Chains(oracle, n - 1, head, snake, food) + [ChainFor(oracle(n - 1), head, snake, food)]
  }

  function Flatten(chs: seq<seq<Pos>>): seq<Pos> {
    if |chs| == 0 then [] else Flatten(chs[..|chs| - 1]) + chs[|chs| - 1]
  }

  /** generateObstacles: the obstacle list becomes the concatenation of speedMultiplier chains. */
  function GenerateObstacles(w: World, oracle: nat -> ChainOracle): World
    requires |w.snake| > 0
  {
    w.(obstacles := Flatten(Chains(oracle, w.speedMultiplier, w.snake[0], w.snake, w.food)))
  }

  predicate Distinct(ch: seq<Pos>) {
    forall i, j :: 0 <= i < j < |ch| ==> ch[i] != ch[j]
  }

  predicate Linked(ch: seq<Pos>) {
    forall i :: 0 <= i < |ch| - 1 ==> Adjacent(ch[i], ch[i + 1])
  }

  /** The shape of one generated chain. */
  predicate ChainShaped(ch: seq<Pos>, head: Pos, snake: seq<Pos>, food: Pos) {
    && 1 <= |ch| <= CHAIN_LENGTH
    && Distinct(ch)
    && Linked(ch)
    && AllInGrid(ch)
    && StartOk(ch[0], head, snake, food)
  }

  lemma {:induction false} WalkShape(chain: seq<Pos>, cur: Dir, steps: seq<Step>)
    requires |chain| > 0 && IsUnit(cur)
    requires Distinct(chain) && Linked(chain) && AllInGrid(chain)
    ensures var r := Walk(chain, cur, steps);
      && |chain| <= |r| <= |chain| + |steps|
      && r[..|chain|] == chain
      && Distinct(r) && Linked(r) && AllInGrid(r)
    decreases |steps|
  {
    if |steps| > 0 {
      var d := Heading(cur, steps[0]);
      var last := chain[|chain| - 1];
      var next := ModStep(last, d);
      if next !in chain {
        ModStepIsNextHead(last, d);
        var ext := chain + [next];
        assert Linked(ext) by {
          forall i | 0 <= i < |ext| - 1 ensures Adjacent(ext[i], ext[i + 1]) {
            if i < |chain| - 1 {
              assert ext[i] == chain[i] && ext[i + 1] == chain[i + 1];
            } else {
              assert ext[i] == last && ext[i + 1] == next;
            }
          }
        }
        WalkShape(ext, d, steps[1..]);
        var r := Walk(ext, d, steps[1..]);
        assert r[..|chain|] == r[..|ext|][..|chain|];
      }
    }
  }

  /** A chain is skipped exactly when none of its 50 start draws is acceptable; otherwise it has the chain shape. */
  lemma ChainForShape(cd: ChainOracle, head: Pos, snake: seq<Pos>, food: Pos)
    ensures var ch := ChainFor(cd, head, snake, food);
      && (ch == [] <==> forall j :: 0 <= j < START_ATTEMPTS ==> !StartOk(cd.starts[j], head, snake, food))
      && (ch != [] ==> ChainShaped(ch, head, snake, food) && ch[0] in cd.starts)
  {
    var k := FirstStart(cd.starts, head, snake, food);
    if k < START_ATTEMPTS {
      var start := [cd.starts[k]];
      WalkShape(start, Dirs[cd.dir], cd.steps);
      var ch := Walk(start, Dirs[cd.dir], cd.steps);
      assert ch[0] == ch[..1][0] == cd.starts[k];
    }
  }

  /**
   * The obstacle list after generateObstacles is the concatenation of
   * speedMultiplier chains, each either skipped or of the chain shape.
   */
  lemma ObstacleShape(w: World, oracle: nat -> ChainOracle)
    requires |w.snake| > 0
    ensures var chs := Chains(oracle, w.speedMultiplier, w.snake[0], w.snake, w.food);
      && |chs| == w.speedMultiplier
      && GenerateObstacles(w, oracle).obstacles == Flatten(chs)
      && forall c :: 0 <= c < |chs| ==> chs[c] == [] || ChainShaped(chs[c], w.snake[0], w.snake, w.food)
  {
    var chs := Chains(oracle, w.speedMultiplier, w.snake[0], w.snake, w.food);
    forall c | 0 <= c < |chs|
      ensures chs[c] == [] || ChainShaped(chs[c], w.snake[0], w.snake, w.food)
    {
      ChainForShape(oracle(c), w.snake[0], w.snake, w.food);
    }
  }

  lemma {:induction false} FlattenInGrid(chs: seq<seq<Pos>>)
    requires forall c :: 0 <= c < |chs| ==> AllInGrid(chs[c])
    ensures AllInGrid(Flatten(chs))
    decreases |chs|
  {
    if |chs| > 0 {
      FlattenInGrid(chs[..|chs| - 1]);
    }
  }

  lemma {:induction false} FlattenEmpty(chs: seq<seq<Pos>>)
    requires forall c :: 0 <= c < |chs| ==> chs[c] == []
    ensures Flatten(chs) == []
    decreases |chs|
  {
    if |chs| > 0 {
      FlattenEmpty(chs[..|chs| - 1]);
    }
  }

  /** When every chain's 50 start draws all fail, generateObstacles leaves no obstacles. */
  lemma AllStartsFailNoObstacles(w: World, oracle: nat -> ChainOracle)
    requires |w.snake| > 0
    requires forall c, j :: 0 <= c < w.speedMultiplier && 0 <= j < START_ATTEMPTS ==>
      !StartOk(oracle(c).starts[j], w.snake[0], w.snake, w.food)
    ensures GenerateObstacles(w, oracle).obstacles == []
  {
    var chs := Chains(oracle, w.speedMultiplier, w.snake[0], w.snake, w.food);
    forall c | 0 <= c < |chs|
      ensures chs[c] == []
    {
      ChainForShape(oracle(c), w.snake[0], w.snake, w.food);
    }
    FlattenEmpty(chs);
  }

  /** Every obstacle cell is on the board. */
  lemma ObstaclesInGrid(w: World, oracle: nat -> ChainOracle)
    requires |w.snake| > 0
    ensures AllInGrid(GenerateObstacles(w, oracle).obstacles)
  {
    var chs := Chains(oracle, w.speedMultiplier, w.snake[0], w.snake, w.food);
    ObstacleShape(w, oracle);
    FlattenInGrid(chs);
  }

  /** One more loop iteration appends the next chain to the obstacle list. */
  lemma ChainsStep(oracle: nat -> ChainOracle, c: nat, head: Pos, snake: seq<Pos>, food: Pos)
    ensures Flatten(Chains(oracle, c + 1, head, snake, food))
         == Flatten(Chains(oracle, c, head, snake, food)) + ChainFor(oracle(c), head, snake, food)
  {
    var after := Chains(oracle, c + 1, head, snake, food);
    assert after[..c] == Chains(oracle, c, head, snake, food);
  }

  /** The start search loop of generateObstacles. */
  method FindStart(starts: seq<Cell>, head: Pos, snake: seq<Pos>, food: Pos) returns (attempts: nat)
    requires |starts| == START_ATTEMPTS
    ensures attempts <= START_ATTEMPTS
    ensures attempts < START_ATTEMPTS ==> StartOk(starts[attempts], head, snake, food)
    ensures forall j :: 0 <= j < attempts ==> !StartOk(starts[j], head, snake, food)
    ensures attempts == FirstStart(starts, head, snake, food)
  {
    attempts := 0;
    while attempts < START_ATTEMPTS
      invariant attempts <= START_ATTEMPTS
      invariant forall j :: 0 <= j < attempts ==> !StartOk(starts[j], head, snake, food)
    {
      var p := starts[attempts];
      if Dist(p, head) < START_DISTANCE {
        attempts := attempts + 1;
        continue;
      }
      var onSnake := Occupies(snake, p);
      if !onSnake && p != food {
        break;
      }
      attempts := attempts + 1;
    }
  }

  /** The walk loop of generateObstacles: push one cell per step, stop at the first repeat. */
  method WalkChain(start: Cell, dir0: Dir, steps: seq<Step>) returns (chain: seq<Pos>)
    requires IsUnit(dir0) && |steps| == CHAIN_LENGTH - 1
    ensures chain == Walk([start], dir0, steps)
    ensures 1 <= |chain| <= CHAIN_LENGTH && chain[0] == start
  {
    chain := [start];
    var cur := dir0;
    var i := 1;
    while i < CHAIN_LENGTH
      invariant 1 <= i <= CHAIN_LENGTH
      invariant |chain| == i && chain[0] == start && IsUnit(cur)
      invariant Walk(chain, cur, steps[i - 1..]) == Walk([start], dir0, steps)
    {
      var last := chain[|chain| - 1];
      ghost var prev := cur;
      match steps[i - 1] {
        case Swerve(k) => cur := Perp(cur)[k];
        case Straight =>
      }
      var next := ModStep(last, cur);
      assert steps[i - 1..][0] == steps[i - 1] && cur == Heading(prev, steps[i - 1]);
      var repeated := Occupies(chain, next);
      if repeated {
        assert Walk(chain, prev, steps[i - 1..]) == chain;
        break;
      }
      assert steps[i - 1..][1..] == steps[i..];
      chain := chain + [next];
      i := i + 1;
    }
  }

  /** One iteration of the chain loop of generateObstacles: search a start, then walk from it. */
  method BuildChain(cd: ChainOracle, head: Pos, snake: seq<Pos>, food: Pos) returns (chain: seq<Pos>)
    ensures chain == ChainFor(cd, head, snake, food)
  {
    var attempts := FindStart(cd.starts, head, snake, food);
    if attempts < START_ATTEMPTS {
      chain := WalkChain(cd.starts[attempts], Dirs[cd.dir], cd.steps);
    } else {
      chain := [];
    }
  }
}
