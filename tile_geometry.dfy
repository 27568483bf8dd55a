/**
 * The playing field of the runaway game: a 600 x 600 world tiled by
 * 32 x 32 cells. Positions are the integer centres of cells; the two
 * proximity tests of the game are stated on squared distances, which is
 * exact for the integer-valued coordinates the game produces.
 */
module TileGeometry {

  const WORLD_SIZE: int := 600
  const TILE_SIZE: int := 32

  datatype Pos = Pos(x: int, y: int)

  datatype Direction = Up | Down | Left | Right

  /** A centre of some cell: x is 16 plus a multiple of 32, y is 584 minus one. */
  predicate OnGrid(p: Pos) {
    (p.x - TILE_SIZE / 2) % TILE_SIZE == 0 && (WORLD_SIZE - TILE_SIZE / 2 - p.y) % TILE_SIZE == 0
  }

  /** Centre of the cell in level row `row` and column `col`; the row runs along x, the column downwards along y. */
  function CellPos(row: int, col: int): (p: Pos)
    ensures OnGrid(p)
    ensures p.x - TILE_SIZE / 2 == row * TILE_SIZE && WORLD_SIZE - TILE_SIZE / 2 - p.y == col * TILE_SIZE
  {
    Pos(row * TILE_SIZE + TILE_SIZE / 2, WORLD_SIZE - col * TILE_SIZE - TILE_SIZE / 2)
  }

  /** Distinct cells have distinct centres. */
  lemma CellPosInjective(r1: int, c1: int, r2: int, c2: int)
    requires CellPos(r1, c1) == CellPos(r2, c2)
    ensures r1 == r2 && c1 == c2
  {
    assert r1 * TILE_SIZE == r2 * TILE_SIZE;
    assert c1 * TILE_SIZE == c2 * TILE_SIZE;
  }

  /** One tile step: Up is +32 in y, Down -32 in y, Left -32 in x, Right +32 in x. */
  function Step(p: Pos, d: Direction): Pos
  {
    match d
    case Up => Pos(p.x, p.y + TILE_SIZE)
    case Down => Pos(p.x, p.y - TILE_SIZE)
    case Left => Pos(p.x - TILE_SIZE, p.y)
    case Right => Pos(p.x + TILE_SIZE, p.y)
  }

  /** A step leads from a cell to its neighbour: Up and Down change the column, Left and Right the row. */
  lemma StepToNeighbour(row: int, col: int, d: Direction)
    ensures Step(CellPos(row, col), d) == match d
      case Up => CellPos(row, col - 1)
      case Down => CellPos(row, col + 1)
      case Left => CellPos(row - 1, col)
      case Right => CellPos(row + 1, col)
  {
  }

  /** A step never stays put and stays on the grid. */
  lemma StepLeavesCell(p: Pos, d: Direction)
    ensures Step(p, d) != p
    ensures OnGrid(p) ==> OnGrid(Step(p, d))
  {
  }

  function SqDist(p: Pos, q: Pos): nat
  {
    (p.x - q.x) * (p.x - q.x) + (p.y - q.y) * (p.y - q.y)
  }

  /** The wall test of the move rule: squared distance below one tile length. */
  predicate Touches(p: Pos, q: Pos) {
    SqDist(p, q) < TILE_SIZE
  }

  /** `distance(p, q) < TILE_SIZE`, the capture, exit and trail test, squared on both sides. */
  predicate Near(p: Pos, q: Pos) {
    SqDist(p, q) < TILE_SIZE * TILE_SIZE
  }

  lemma NonzeroMultipleSquare(a: int)
    requires a % TILE_SIZE == 0 && a != 0
    ensures a * a >= TILE_SIZE * TILE_SIZE
  {
    var k := a / TILE_SIZE;
    assert a == TILE_SIZE * k;
    assert k * k >= 1;
    assert a * a == TILE_SIZE * TILE_SIZE * (k * k);
  }

  /** On a lattice spaced one tile apart, both proximity thresholds hold only for a zero offset. */
  lemma LatticeContact(dx: int, dy: int)
    requires dx % TILE_SIZE == 0 && dy % TILE_SIZE == 0
    ensures dx * dx + dy * dy < TILE_SIZE <==> dx == 0 && dy == 0
    ensures dx * dx + dy * dy < TILE_SIZE * TILE_SIZE <==> dx == 0 && dy == 0
  {
    if dx != 0 {
      NonzeroMultipleSquare(dx);
    }
    if dy != 0 {
      NonzeroMultipleSquare(dy);
    }
  }

  /** For two cell centres, touching and being near both mean being the same cell. */
  lemma SameCell(p: Pos, q: Pos)
    requires OnGrid(p) && OnGrid(q)
    ensures Touches(p, q) <==> p == q
    ensures Near(p, q) <==> p == q
  {
    LatticeContact(p.x - q.x, p.y - q.y);
  }
}
