/** The engine's static evaluation and its five-in-a-row probe, as functions of a
    board value. A cell holds 0 (empty), 1 (the human) or -1 (the engine). */
module Evaluation {
  import opened Board

  /** SCORES[5]: the weight of a run of five, also the search's terminal threshold. */
  const FiveScore: int := 100000

  /** `SCORES.get(count, 0)`: the weight of a run of `count` stones. */
  function ScoreOf(count: int): (s: int)
    ensures 0 <= s <= FiveScore
    ensures s > 0 <==> 1 <= count <= 5
  {
    if count == 5 then 100000
    else if count == 4 then 10000
    else if count == 3 then 1000
    else if count == 2 then 100
    else if count == 1 then 10
    else 0
  }

  /** `SCORES.get(count, 0) * player`: the weight signed by the colour of the stone. */
  function SignedScore(count: int, player: int): (s: int)
  {
    ScoreOf(count) * player
  }

  /** The loop of `count_sequence` from step `i` on: 1 exactly when every remaining
      step is on the board and holds `player`. */
  function CountFrom(g: seq<seq<int>>, x: int, y: int, dx: int, dy: int, player: int, i: int): (r: int)
    requires IsGrid(g) && 0 <= i <= 5
    ensures r == 0 || r == 1
    ensures r == 1 <==> forall k :: i <= k < 5 ==> OnLine(g, x, y, dx, dy, k, player)
    decreases 5 - i
  {
    if i == 5 then 1
    else if !OnLine(g, x, y, dx, dy, i, player) then 0  // off the board, or not `player`
    else CountFrom(g, x, y, dx, dy, player, i + 1)
  }

  /** `count_sequence`: 1 when the five cells from `(x, y)` in direction `(dx, dy)` are all
      on the board and all hold `player`, 0 otherwise. */
  function CountSequence(g: seq<seq<int>>, x: int, y: int, dx: int, dy: int, player: int): (r: int)
    requires IsGrid(g)
    ensures r == 0 || r == 1
    ensures r == 1 <==> FiveInRow(g, x, y, dx, dy, player)
  {
    CountFrom(g, x, y, dx, dy, player, 0)
  }

  /** The innermost loop of `evaluate` from step `i` on: the number of steps before the
      first one that leaves the board or meets a cell other than `player`. */
  function RunFrom(g: seq<seq<int>>, x: int, y: int, dx: int, dy: int, player: int, i: int): (n: int)
    requires IsGrid(g) && 0 <= i <= 5
    ensures 0 <= n <= 5 - i
    decreases 5 - i
  {
    if i == 5 then 0
    else if OnLine(g, x, y, dx, dy, i, player) then 1 + RunFrom(g, x, y, dx, dy, player, i + 1)
    else 0
  }

  /** The `count` of `evaluate`: the length, capped at 5, of the run of `player` from `(x, y)`. */
  function RunLength(g: seq<seq<int>>, x: int, y: int, dx: int, dy: int, player: int): (n: int)
    requires IsGrid(g)
    ensures 0 <= n <= 5
  {
    RunFrom(g, x, y, dx, dy, player, 0)
  }

  /** What one direction adds to the score for the stone `player` at `(x, y)`. */
  function DirectionScore(g: seq<seq<int>>, x: int, y: int, player: int, d: int): (s: int)
    requires IsGrid(g) && 0 <= d < |Directions|
  {
    var count := RunLength(g, x, y, Directions[d].0, Directions[d].1, player);
    if count > 0 then SignedScore(count, player) else 0
  }

  /** The sum of `DirectionScore` over the first `n` directions. */
  function DirectionsScore(g: seq<seq<int>>, x: int, y: int, player: int, n: int): (s: int)
    requires IsGrid(g) && 0 <= n <= |Directions|
  {
    if n == 0 then 0 else DirectionsScore(g, x, y, player, n - 1) + DirectionScore(g, x, y, player, n - 1)
  }

  /** What the cell `(x, y)` adds to the score: nothing when empty. */
  function CellScore(g: seq<seq<int>>, x: int, y: int): (s: int)
    requires IsGrid(g) && IsWithin(x, y)
  {
    if g[x][y] == 0 then 0 else DirectionsScore(g, x, y, g[x][y], |Directions|)
  }

  /** The sum of `CellScore` over the cells `(x, 0) .. (x, y - 1)`. */
  function RowScore(g: seq<seq<int>>, x: int, y: int): (s: int)
    requires IsGrid(g) && 0 <= x < N && 0 <= y <= N
  {
    if y == 0 then 0 else RowScore(g, x, y - 1) + CellScore(g, x, y - 1)
  }

  /** The sum of `CellScore` over the rows `0 .. x - 1`. */
  function RowsScore(g: seq<seq<int>>, x: int): (s: int)
    requires IsGrid(g) && 0 <= x <= N
  {
    if x == 0 then 0 else RowsScore(g, x - 1) + RowScore(g, x - 1, N)
  }

  /** `AI.evaluate` as a function of the board. */
  function Score(g: seq<seq<int>>): (s: int)
    requires IsGrid(g)
  {
    RowsScore(g, N)
  }

  // ----- the run a cell contributes -----

  lemma {:induction false} RunFromIsRun(g: seq<seq<int>>, x: int, y: int, dx: int, dy: int, player: int, i: int)
    requires IsGrid(g) && 0 <= i <= 5
    ensures var n := RunFrom(g, x, y, dx, dy, player, i);
      (forall k :: i <= k < i + n ==> OnLine(g, x, y, dx, dy, k, player)) &&
      (i + n < 5 ==> !OnLine(g, x, y, dx, dy, i + n, player))
    decreases 5 - i
  {
    if i < 5 && OnLine(g, x, y, dx, dy, i, player) {
      RunFromIsRun(g, x, y, dx, dy, player, i + 1);
    }
  }

  /** The `count` of a direction is the length of the same-colour run from the cell, capped
      at 5: its first `count` cells hold `player`, the next one (if any) does not, and the
      run of a stone has length at least 1. */
  lemma RunLengthIsRun(g: seq<seq<int>>, x: int, y: int, dx: int, dy: int, player: int)
    requires IsGrid(g)
    ensures var n := RunLength(g, x, y, dx, dy, player);
      0 <= n <= 5 &&
      (forall k :: 0 <= k < n ==> OnLine(g, x, y, dx, dy, k, player)) &&
      (n < 5 ==> !OnLine(g, x, y, dx, dy, n, player)) &&
      (IsWithin(x, y) && g[x][y] == player ==> n >= 1)
  {
    RunFromIsRun(g, x, y, dx, dy, player, 0);
    assert Along(x, dx, 0) == x && Along(y, dy, 0) == y;
  }

  // ----- the score is bounded -----

  /** The most a cell can add: four run weights of five. */
  const CellBound: int := 4 * FiveScore

  /** A board of the engine: every cell holds 0, 1 or -1. */
  ghost predicate IsPosition(g: seq<seq<int>>)
    requires IsGrid(g)
  {
    forall i, j :: IsWithin(i, j) ==> -1 <= g[i][j] <= 1
  }

  lemma {:induction false} DirectionsScoreBounded(g: seq<seq<int>>, x: int, y: int, player: int, n: int)
    requires IsGrid(g) && (player == 1 || player == -1) && 0 <= n <= |Directions|
    ensures -n * FiveScore <= DirectionsScore(g, x, y, player, n) <= n * FiveScore
  {
    if n > 0 {
      DirectionsScoreBounded(g, x, y, player, n - 1);
      var count := RunLength(g, x, y, Directions[n - 1].0, Directions[n - 1].1, player);
      assert SignedScore(count, player) == if player == 1 then ScoreOf(count) else -ScoreOf(count);
    }
  }

  /** A cell adds at most four run weights of five, of either sign. */
  lemma CellScoreBounded(g: seq<seq<int>>, x: int, y: int)
    requires IsGrid(g) && IsPosition(g) && IsWithin(x, y)
    ensures -CellBound <= CellScore(g, x, y) <= CellBound
  {
    if g[x][y] != 0 {
      DirectionsScoreBounded(g, x, y, g[x][y], |Directions|);
    }
  }

  lemma {:induction false} RowScoreBounded(g: seq<seq<int>>, x: int, y: int)
    requires IsGrid(g) && IsPosition(g) && 0 <= x < N && 0 <= y <= N
    ensures -y * CellBound <= RowScore(g, x, y) <= y * CellBound
  {
    if y > 0 {
      RowScoreBounded(g, x, y - 1);
      CellScoreBounded(g, x, y - 1);
      assert RowScore(g, x, y) == RowScore(g, x, y - 1) + CellScore(g, x, y - 1);
      assert (y - 1) * CellBound + CellBound == y * CellBound;
    }
  }

  lemma {:induction false} RowsScoreBounded(g: seq<seq<int>>, x: int)
    requires IsGrid(g) && IsPosition(g) && 0 <= x <= N
    ensures -x * (N * CellBound) <= RowsScore(g, x) <= x * (N * CellBound)
  {
    if x > 0 {
      RowsScoreBounded(g, x - 1);
      RowScoreBounded(g, x - 1, N);
      assert RowsScore(g, x) == RowsScore(g, x - 1) + RowScore(g, x - 1, N);
      assert (x - 1) * (N * CellBound) + N * CellBound == x * (N * CellBound);
    }
  }

  /** `evaluate` of a board of 0, 1 and -1 lies within 361 cells times 4 directions times
      the weight of five, far inside a 64-bit integer. */
  lemma ScoreBounded(g: seq<seq<int>>)
    requires IsGrid(g) && IsPosition(g)
    ensures -N * N * CellBound <= Score(g) <= N * N * CellBound
    ensures -0x8000_0000_0000_0000 < Score(g) < 0x7fff_ffff_ffff_ffff
  {
    RowsScoreBounded(g, N);
  }

  // ----- the score of an empty board -----

  lemma {:induction false} RowScoreNoStones(g: seq<seq<int>>, x: int, y: int)
    requires IsGrid(g) && AllCells(g, 0) && 0 <= x < N && 0 <= y <= N
    ensures RowScore(g, x, y) == 0
  {
    if y > 0 {
      RowScoreNoStones(g, x, y - 1);
    }
  }

  lemma {:induction false} RowsScoreNoStones(g: seq<seq<int>>, x: int)
    requires IsGrid(g) && AllCells(g, 0) && 0 <= x <= N
    ensures RowsScore(g, x) == 0
  {
    if x > 0 {
      RowsScoreNoStones(g, x - 1);
      RowScoreNoStones(g, x - 1, N);
    }
  }

  /** `evaluate` of a board without stones is 0. */
  lemma ScoreNoStones(g: seq<seq<int>>)
    requires IsGrid(g) && AllCells(g, 0)
    ensures Score(g) == 0
  {
    RowsScoreNoStones(g, N);
  }

  // ----- antisymmetry: swapping the colours negates the score -----

  /** `h` is `g` with every cell negated (1 and -1 swapped, 0 kept). */
  ghost predicate Negated(g: seq<seq<int>>, h: seq<seq<int>>)
    requires IsGrid(g) && IsGrid(h)
  {
    forall i, j :: IsWithin(i, j) ==> h[i][j] == -g[i][j]
  }

  lemma {:induction false} RunFromNegated(g: seq<seq<int>>, h: seq<seq<int>>, x: int, y: int, dx: int, dy: int, player: int, i: int)
    requires IsGrid(g) && IsGrid(h) && Negated(g, h) && 0 <= i <= 5
    ensures RunFrom(h, x, y, dx, dy, -player, i) == RunFrom(g, x, y, dx, dy, player, i)
    decreases 5 - i
  {
    if i < 5 {
      RunFromNegated(g, h, x, y, dx, dy, player, i + 1);
    }
  }

  lemma {:induction false} DirectionsScoreNegated(g: seq<seq<int>>, h: seq<seq<int>>, x: int, y: int, player: int, n: int)
    requires IsGrid(g) && IsGrid(h) && Negated(g, h) && 0 <= n <= |Directions|
    ensures DirectionsScore(h, x, y, -player, n) == -DirectionsScore(g, x, y, player, n)
  {
    if n > 0 {
      DirectionsScoreNegated(g, h, x, y, player, n - 1);
      var (dx, dy) := Directions[n - 1];
      RunFromNegated(g, h, x, y, dx, dy, player, 0);
      var count := RunLength(g, x, y, dx, dy, player);
      assert SignedScore(count, -player) == -SignedScore(count, player);
    }
  }

  lemma CellScoreNegated(g: seq<seq<int>>, h: seq<seq<int>>, x: int, y: int)
    requires IsGrid(g) && IsGrid(h) && Negated(g, h) && IsWithin(x, y)
    ensures CellScore(h, x, y) == -CellScore(g, x, y)
  {
    assert h[x][y] == -g[x][y];
    DirectionsScoreNegated(g, h, x, y, g[x][y], |Directions|);
  }

  lemma {:induction false} RowScoreNegated(g: seq<seq<int>>, h: seq<seq<int>>, x: int, y: int)
    requires IsGrid(g) && IsGrid(h) && Negated(g, h) && 0 <= x < N && 0 <= y <= N
    ensures RowScore(h, x, y) == -RowScore(g, x, y)
  {
    if y > 0 {
      RowScoreNegated(g, h, x, y - 1);
      CellScoreNegated(g, h, x, y - 1);
      assert RowScore(h, x, y) == RowScore(h, x, y - 1) + CellScore(h, x, y - 1);
    }
  }

  lemma {:induction false} RowsScoreNegated(g: seq<seq<int>>, h: seq<seq<int>>, x: int)
    requires IsGrid(g) && IsGrid(h) && Negated(g, h) && 0 <= x <= N
    ensures RowsScore(h, x) == -RowsScore(g, x)
  {
    if x > 0 {
      RowsScoreNegated(g, h, x - 1);
      RowScoreNegated(g, h, x - 1, N);
    }
  }

  /** `evaluate` is antisymmetric: negating every cell negates the score. */
  lemma ScoreAntisymmetric(g: seq<seq<int>>, h: seq<seq<int>>)
    requires IsGrid(g) && IsGrid(h) && Negated(g, h)
    ensures Score(h) == -Score(g)
  {
    RowsScoreNegated(g, h, N);
  }
}
