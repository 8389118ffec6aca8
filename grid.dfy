/** Option type used for the optional ruby. */
module Wrappers {
  datatype Option<+T> = None | Some(value: T)
}

/**
 * The toroidal board: cells, unit directions and the two ways the game
 * wraps a step around the edges (the clamps of the tick and the modular
 * step of the obstacle walk).
 */
module Grid {

  /** Tiles per side of the square board (canvas width divided by GRID_SIZE). */
  const TILE_COUNT: int := 20

  datatype Pos = Pos(x: int, y: int)
  datatype Dir = Dir(dx: int, dy: int)

  predicate InGrid(p: Pos) {
    0 <= p.x < TILE_COUNT && 0 <= p.y < TILE_COUNT
  }

  /** A cell drawn as (floor(random * TILE_COUNT), floor(random * TILE_COUNT)). */
  type Cell = p: Pos | InGrid(p) witness Pos(0, 0)

  /** The obstacle walk's direction table, in the source's order: up, down, left, right. */
  const Dirs: seq<Dir> := [Dir(0, -1), Dir(0, 1), Dir(-1, 0), Dir(1, 0)]

  predicate IsUnit(d: Dir) {
    (d.dx == 0 && (d.dy == 1 || d.dy == -1)) || (d.dy == 0 && (d.dx == 1 || d.dx == -1))
  }

  function Reverse(d: Dir): Dir {
    Dir(-d.dx, -d.dy)
  }

  lemma UnitIsInTable(d: Dir)
    ensures IsUnit(d) <==> d in Dirs
  {
  }

  lemma ReverseIsNotSelf(d: Dir)
    requires IsUnit(d)
    ensures Reverse(d) != d && IsUnit(Reverse(d))
  {
    assert d.dx != 0 || d.dy != 0;
  }

  /** The tick's edge handling for one axis: below zero jumps to the last tile, past the last tile jumps to zero. */
  function Clamp(v: int): int {
    if v < 0 then TILE_COUNT - 1 else if v >= TILE_COUNT then 0 else v
  }

  /** The head after one step of the tick, wrapped by the two clamps per axis. */
  function NextHead(p: Pos, d: Dir): (r: Pos)
    ensures InGrid(r)
    ensures InGrid(p) && IsUnit(d) ==> Adjacent(p, r)
  {
    Pos(Clamp(p.x + d.dx), Clamp(p.y + d.dy))
  }

  /** JavaScript's `%`: the remainder truncates toward zero, so it takes the sign of the dividend. */
  function JsRem(a: int, n: int): (r: int)
    requires n > 0
    ensures a >= 0 ==> 0 <= r < n && r == a % n
    ensures a < 0 ==> -n < r <= 0
  {
    if a >= 0 then a % n else -((-a) % n)
  }

  /** A step of the obstacle walk: `(x + dx + TILE_COUNT) % TILE_COUNT` per axis. */
  function ModStep(p: Pos, d: Dir): Pos {
    Pos(JsRem(p.x + d.dx + TILE_COUNT, TILE_COUNT), JsRem(p.y + d.dy + TILE_COUNT, TILE_COUNT))
  }

  /** Neighbours on a ring of TILE_COUNT positions. */
  predicate RingNeighbours(u: int, v: int) {
    v == u + 1 || v == u - 1 || (u == TILE_COUNT - 1 && v == 0) || (u == 0 && v == TILE_COUNT - 1)
  }

  /** Two cells that share a side on the torus. */
  predicate Adjacent(a: Pos, b: Pos) {
    (a.y == b.y && RingNeighbours(a.x, b.x)) || (a.x == b.x && RingNeighbours(a.y, b.y))
  }

  lemma ModAxis(v: int, e: int)
    requires 0 <= v < TILE_COUNT && -1 <= e <= 1
    ensures JsRem(v + e + TILE_COUNT, TILE_COUNT) == Clamp(v + e)
  {
    var a := v + e + TILE_COUNT;
    if v + e < 0 {
      assert a == TILE_COUNT - 1;
    } else if v + e >= TILE_COUNT {
      assert a == 2 * TILE_COUNT;
    } else {
      assert a % TILE_COUNT == (v + e) + TILE_COUNT - TILE_COUNT;
    }
  }

  /** The obstacle walk's modular step and the tick's clamps agree on every in-grid cell and unit direction. */
  lemma ModStepIsNextHead(p: Pos, d: Dir)
    requires InGrid(p) && IsUnit(d)
    ensures ModStep(p, d) == NextHead(p, d)
    ensures InGrid(ModStep(p, d)) && Adjacent(p, ModStep(p, d))
  {
    ModAxis(p.x, d.dx);
    ModAxis(p.y, d.dy);
  }
}
