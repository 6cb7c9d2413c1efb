/** The board shared by the engine and the game window: a 19 x 19 grid,
    coordinates, the four line directions, and "five in a row". */
module Board {

  /** Side of the board (BOARD_SIZE; the engine hard-codes 19 for its own array). */
  const N: int := 19

  /** A cell coordinate `(x, y)`: `x` indexes the outer list, `y` the inner one. */
  datatype Pos = Pos(x: int, y: int)

  datatype Option<T> = None | Some(value: T)

  /** `is_within`: both coordinates lie in [0, N). */
  predicate IsWithin(x: int, y: int)
  {
    0 <= x < N && 0 <= y < N
  }

  predicate InBounds(p: Pos)
  {
    IsWithin(p.x, p.y)
  }

  /** A board value: N rows of N cells. */
  predicate IsGrid<T>(b: seq<seq<T>>)
  {
    |b| == N && forall i :: 0 <= i < N ==> |b[i]| == N
  }

  /** Every cell of the board holds `v`. */
  ghost predicate AllCells<T>(b: seq<seq<T>>, v: T)
    requires IsGrid(b)
  {
    forall i, j :: IsWithin(i, j) ==> b[i][j] == v
  }

  /** The board with every cell set to `v`. */
  function Filled<T>(v: T): (b: seq<seq<T>>)
    ensures IsGrid(b) && AllCells(b, v)
  {
    seq(N, _ => seq(N, _ => v))
  }

  /** The board with the cell at `p` replaced by `v`. */
  function Place<T>(b: seq<seq<T>>, p: Pos, v: T): (r: seq<seq<T>>)
    requires IsGrid(b) && InBounds(p)
    ensures IsGrid(r)
    ensures r[p.x][p.y] == v
    ensures forall i, j :: IsWithin(i, j) && (i != p.x || j != p.y) ==> r[i][j] == b[i][j]
  {
    b[p.x := b[p.x][p.y := v]]
  }

  /** The four line directions (DIRECTIONS): along x, along y and the two diagonals. */
  const Directions: seq<(int, int)> := [(1, 0), (0, 1), (1, 1), (1, -1)]

  /** The `i`-th coordinate of the line that starts at `x` and steps by `dx`. */
  function Along(x: int, dx: int, i: int): (c: int)
  {
    x + i * dx
  }

  /** The `i`-th cell of the line from `(x, y)` in direction `(dx, dy)` is on the board and holds `v`. */
  predicate OnLine<T(==)>(b: seq<seq<T>>, x: int, y: int, dx: int, dy: int, i: int, v: T)
    requires IsGrid(b)
  {
    IsWithin(Along(x, dx, i), Along(y, dy, i)) && b[Along(x, dx, i)][Along(y, dy, i)] == v
  }

  /** The five cells `(x + i*dx, y + i*dy)`, `0 <= i < 5`, are all on the board and all hold `v`. */
  predicate FiveInRow<T(==)>(b: seq<seq<T>>, x: int, y: int, dx: int, dy: int, v: T)
    requires IsGrid(b)
  {
    forall i :: 0 <= i < 5 ==> OnLine(b, x, y, dx, dy, i, v)
  }

  /** Some row, column, diagonal or anti-diagonal of the board holds five consecutive `v`. */
  ghost predicate HasFive<T>(b: seq<seq<T>>, v: T)
    requires IsGrid(b)
  {
    exists x, y, d :: 0 <= d < |Directions| && FiveInRow(b, x, y, Directions[d].0, Directions[d].1, v)
  }
}
