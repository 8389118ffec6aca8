/**
 * Placing the food (resampling until the cell is free) and spawning the
 * ruby (one sample, no retry), as functions of the cells the random
 * source draws.
 */
module Placement {
  import opened Wrappers
  import opened Grid
  import opened Entities

  /** The scan `for (let seg of cells) if (seg.x === p.x && seg.y === p.y) ...`. */
  method Occupies(cells: seq<Pos>, p: Pos) returns (found: bool)
    ensures found <==> p in cells
  {
    found := false;
    var i := 0;
    while i < |cells|
      invariant 0 <= i <= |cells|
      invariant found <==> p in cells[..i]
    {
      if cells[i] == p {
        found := true;
      }
      assert cells[..i + 1] == cells[..i] + [cells[i]];
      i := i + 1;
    }
    assert cells[..i] == cells;
  }

  predicate OnRuby(p: Pos, ruby: Option<Ruby>) {
    ruby.Some? && ruby.value.pos == p
  }

  /** placeFood accepts a cell that is on no snake segment, not on the ruby and on no obstacle. */
  predicate FoodFree(p: Pos, snake: seq<Pos>, ruby: Option<Ruby>, obstacles: seq<Pos>) {
    p !in snake && !OnRuby(p, ruby) && p !in obstacles
  }

  /** The index of the draw placeFood keeps: the first free one, or |draws| when none is. */
  function FirstFree(draws: seq<Cell>, snake: seq<Pos>, ruby: Option<Ruby>, obstacles: seq<Pos>): (k: nat)
    ensures k <= |draws|
    ensures k < |draws| ==> FoodFree(draws[k], snake, ruby, obstacles)
    ensures forall j :: 0 <= j < k ==> !FoodFree(draws[j], snake, ruby, obstacles)
    decreases |draws|
  {
    if |draws| == 0 then 0
    else if FoodFree(draws[0], snake, ruby, obstacles) then 0
    else
      var k := 1 + FirstFree(draws[1..], snake, ruby, obstacles);
      assert forall j :: 1 <= j < k ==> draws[j] == draws[1..][j - 1];
      k
  }

  /** Whether the draws contain a free cell, i.e. whether placeFood returns within them. */
  predicate FoodPlaced(w: World, draws: seq<Cell>) {
    FirstFree(draws, w.snake, w.ruby, w.obstacles) < |draws|
  }

  /**
   * placeFood: every draw becomes the food, with foodSpawnTime = now, and
   * the first free draw is kept. When no draw is free the food is the last
   * rejected draw (the source would go on drawing).
   */
  function PlaceFood(w: World, draws: seq<Cell>, now: int): (r: World)
    ensures FoodPlaced(w, draws) ==> FoodFree(r.food, r.snake, r.ruby, r.obstacles) && r.foodSpawnTime == now
    ensures FoodPlaced(w, draws) ==> r.food == draws[FirstFree(draws, w.snake, w.ruby, w.obstacles)]
    ensures |draws| > 0 ==> r.food in draws && r.foodSpawnTime == now && InGrid(r.food)
    ensures |draws| == 0 ==> r == w
    ensures r == w.(food := r.food, foodSpawnTime := r.foodSpawnTime)
  {
    var k := FirstFree(draws, w.snake, w.ruby, w.obstacles);
    if k < |draws| then w.(food := draws[k], foodSpawnTime := now)
    else if |draws| == 0 then w
    else w.(food := draws[|draws| - 1], foodSpawnTime := now)
  }

  /** spawnRuby rejects a cell that is on a snake segment, on the food or on an obstacle. */
  predicate RubyFree(p: Pos, w: World) {
    p !in w.snake && p != w.food && p !in w.obstacles
  }

  /** spawnRuby: nothing when a ruby exists; otherwise one sample, kept only when it is free. */
  function SpawnRuby(w: World, cell: Cell, now: int): (r: World)
    ensures w.ruby.Some? ==> r == w
    ensures w.ruby.None? ==> (r.ruby.Some? <==> RubyFree(cell, w))
    ensures w.ruby.None? && r.ruby.Some? ==>
      r.ruby.value == Ruby(cell, now) && RubyFree(r.ruby.value.pos, r) && InGrid(r.ruby.value.pos)
    ensures r == w.(ruby := r.ruby)
  {
    if w.ruby.Some? then w
    else if RubyFree(cell, w) then w.(ruby := Some(Ruby(cell, now)))
    else w.(ruby := None)
  }
}
