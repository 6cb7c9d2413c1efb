/** The engine object `AI`: its own 19 x 19 integer board, updated in place, and the
    operations that evaluate it, list the candidate moves, search, and answer a move.
    Each method is proved against the functions of `Evaluation`, `CandidateMoves` and
    `SearchSpec` applied to the board's value `cells`. */
module Engine {
  import opened Board
  import opened Evaluation
  import opened CandidateMoves
  import opened SearchSpec

  /** MAX_DEPTH: the depth of the search `move` starts. */
  const MaxDepth: nat := 3

  /** Every empty cell near the stone `s` (if it is one) is in `found`. */
  ghost predicate Covered(g: seq<seq<int>>, found: set<Pos>, s: Pos)
    requires IsGrid(g)
  {
    forall q :: InBounds(q) && g[q.x][q.y] == 0 && Near(s, q) ==> q in found
  }

  /** Every position of `cs` is an empty cell of the board. */
  ghost predicate EmptyCells(g: seq<seq<int>>, cs: seq<Pos>)
    requires IsGrid(g)
  {
    forall k :: 0 <= k < |cs| ==> InBounds(cs[k]) && g[cs[k].x][cs[k].y] == 0
  }

  class AI {
    /** `self.board`: 0 for an empty cell, 1 for the human, -1 for the engine. */
    var board: array2<int>
    /** The value of `board`. */
    ghost var cells: seq<seq<int>>

    ghost predicate Valid()
      reads this, board
    {
      board.Length0 == N && board.Length1 == N && IsGrid(cells) &&
      forall i, j :: 0 <= i < N && 0 <= j < N ==> board[i, j] == cells[i][j]
    }

    /** `AI()`: a fresh, empty board. */
    constructor ()
      ensures Valid() && fresh(board) && cells == Filled(0)
    {
      board := new int[N, N]((i, j) => 0);
      cells := Filled(0);
    }

    /** The innermost loop of `evaluate`: counts the steps from `(x, y)` in direction
        `(dx, dy)` that stay on the board and hold `player`, stopping at the first that
        does not, at most 5. */
    method RunCount(x: int, y: int, dx: int, dy: int, player: int) returns (count: int)
      requires Valid()
      ensures count == RunLength(cells, x, y, dx, dy, player)
    {
      count := 0;
      for i := 0 to 5
        invariant count == i
        invariant RunLength(cells, x, y, dx, dy, player) == i + RunFrom(cells, x, y, dx, dy, player, i)
      {
        var nx, ny := x + i * dx, y + i * dy;
        if IsWithin(nx, ny) && board[nx, ny] == player {
          count := count + 1;
        } else {
          break;
        }
      }
    }

    /** The body of the two outer loops of `evaluate` for the cell `(x, y)`: nothing for
        an empty cell, otherwise the weight of the run in each direction, signed by the
        stone's colour. */
    method CellScoreAt(x: int, y: int) returns (score: int)
      requires Valid() && IsWithin(x, y)
      ensures score == CellScore(cells, x, y)
    {
      score := 0;
      if board[x, y] != 0 {
        var player := board[x, y];
        for d := 0 to |Directions|
          invariant score == DirectionsScore(cells, x, y, player, d)
        {
          var (dx, dy) := Directions[d];
          var count := RunCount(x, y, dx, dy, player);
          if count > 0 {
            score := score + SignedScore(count, player);
          }
          assert DirectionsScore(cells, x, y, player, d + 1) ==
                 DirectionsScore(cells, x, y, player, d) + DirectionScore(cells, x, y, player, d);
        }
        assert player == cells[x][y];
      }
    }

    /** `evaluate`: for each stone and each direction, the weight of the run from that
        stone, signed by the stone's colour. */
    method Evaluate() returns (score: int)
      requires Valid()
      ensures score == Score(cells)
    {
      score := 0;
      for x := 0 to N
        invariant score == RowsScore(cells, x)
      {
        for y := 0 to N
          invariant score == RowsScore(cells, x) + RowScore(cells, x, y)
        {
          var cell := CellScoreAt(x, y);
          score := score + cell;
        }
      }
    }

    /** The two innermost loops of `get_candidates`: adds to `found` every empty cell on
        the board within the 5 x 5 neighbourhood of the stone at `(x, y)`. */
    method AddNeighbours(x: int, y: int, found: set<Pos>) returns (found': set<Pos>)
      requires Valid() && IsStone(cells, Pos(x, y))
      ensures found <= found'
      ensures forall q :: q in found' && q !in found ==> IsCandidate(cells, q)
      ensures Covered(cells, found', Pos(x, y))
    {
      found' := found;
      for dx := -2 to 3
        invariant found <= found'
        invariant forall q :: q in found' && q !in found ==> Near(Pos(x, y), q) && IsCandidate(cells, q)
        invariant forall q :: InBounds(q) && cells[q.x][q.y] == 0 && Near(Pos(x, y), q) && q.x < x + dx ==> q in found'
      {
        for dy := -2 to 3
          invariant found <= found'
          invariant forall q :: q in found' && q !in found ==> Near(Pos(x, y), q) && IsCandidate(cells, q)
          invariant forall q :: (InBounds(q) && cells[q.x][q.y] == 0 && Near(Pos(x, y), q) &&
                                 (q.x < x + dx || (q.x == x + dx && q.y < y + dy))) ==> q in found'
        {
          var nx, ny := x + dx, y + dy;
          if IsWithin(nx, ny) && board[nx, ny] == 0 {
            assert Near(Pos(x, y), Pos(nx, ny));
            found' := found' + {Pos(nx, ny)};
          }
        }
      }
    }

    /** The first half of `get_candidates`: the set of every empty cell within the 5 x 5
        neighbourhood of some stone. */
    method CollectCandidates() returns (found: set<Pos>)
      requires Valid()
      ensures forall q :: q in found <==> IsCandidate(cells, q)
    {
      found := {};
      for x := 0 to N
        invariant forall q :: q in found ==> IsCandidate(cells, q)
        invariant forall s :: IsStone(cells, s) && s.x < x ==> Covered(cells, found, s)
      {
        for y := 0 to N
          invariant forall q :: q in found ==> IsCandidate(cells, q)
          invariant forall s :: IsStone(cells, s) && Before(s, Pos(x, y)) ==> Covered(cells, found, s)
        {
          if board[x, y] != 0 {
            found := AddNeighbours(x, y, found);
          }
        }
      }
    }

    /** `get_candidates`: collects into a set every empty cell within the 5 x 5
        neighbourhood of each stone, then lists the set. */
    method GetCandidates() returns (candidates: seq<Pos>)
      requires Valid()
      ensures candidates == Candidates(cells)
    {
      var found := CollectCandidates();
      // `list(candidates)`: the model lists the set in row-major order
      candidates := [];
      for x := 0 to N
        invariant candidates == CandidatesInRows(cells, x)
      {
        for y := 0 to N
          invariant candidates == CandidatesInRows(cells, x) + CandidatesInRow(cells, x, y)
        {
          if Pos(x, y) in found {
            candidates := candidates + [Pos(x, y)];
          }
        }
      }
    }

    /** The in-place write `self.board[x][y] = v`: the board becomes `target`, which is
        the old board with the cell `p` replaced by `v`. */
    method SetCell(p: Pos, v: int, ghost target: seq<seq<int>>)
      requires Valid() && InBounds(p) && IsGrid(target) && target[p.x][p.y] == v
      requires forall i, j :: IsWithin(i, j) && (i != p.x || j != p.y) ==> target[i][j] == cells[i][j]
      modifies this, board
      ensures Valid() && board == old(board) && cells == target
    {
      board[p.x, p.y] := v;
      cells := target;
    }

    /** `minimax`: depth-bounded alpha-beta search. Each candidate is played on the board
        in place (-1 for the maximizing side, 1 for the other), searched, and reset to 0
        before the next one, so the board is unchanged on return. */
    method Minimax(depth: nat, alpha: Ext, beta: Ext, maximizing: bool) returns (value: Ext, bestMove: Option<Pos>)
      requires Valid()
      modifies this, board
      ensures Valid() && board == old(board) && cells == old(cells)
      ensures Outcome(value, bestMove) == Search(cells, depth, alpha, beta, maximizing)
      decreases depth, 2
    {
      var score := Evaluate();
      if depth == 0 || Abs(score) >= FiveScore {
        return Fin(score), None;
      }
      var candidates := GetCandidates();
      CandidatesInRowsSound(cells, N);
      if maximizing {
        value, bestMove := MaxChildren(depth, candidates, alpha, beta);
      } else {
        value, bestMove := MinChildren(depth, candidates, alpha, beta);
      }
    }

    /** The body of the loops of `minimax`: plays `v` at the empty cell `p`, searches the
        position `depth` deep and resets the cell to 0; returns the value found. */
    method TryMove(p: Pos, v: int, depth: nat, alpha: Ext, beta: Ext, maximizing: bool) returns (e: Ext)
      requires Valid() && InBounds(p) && cells[p.x][p.y] == 0
      modifies this, board
      ensures Valid() && board == old(board) && cells == old(cells)
      ensures e == Search(Place(cells, p, v), depth, alpha, beta, maximizing).value
      decreases depth + 1, 0
    {
      ghost var g := cells;
      SetCell(p, v, Place(g, p, v));
      var value, _ := Minimax(depth, alpha, beta, maximizing);
      e := value;
      SetCell(p, 0, g);
    }

    /** The loop of `minimax` for the maximizing side over `candidates`: plays -1 at each
        in turn, searches the position, takes the larger value and raises `alpha`, and stops
        once `beta <= alpha`. */
    method MaxChildren(depth: nat, candidates: seq<Pos>, alpha: Ext, beta: Ext) returns (value: Ext, bestMove: Option<Pos>)
      requires Valid() && depth > 0 && OnBoard(candidates)
      requires EmptyCells(cells, candidates)
      modifies this, board
      ensures Valid() && board == old(board) && cells == old(cells)
      ensures Outcome(value, bestMove) == MaxLoop(cells, depth, candidates, alpha, beta, NegInf, None)
      decreases depth, 1
    {
      ghost var g := cells;
      ghost var result := MaxLoop(g, depth, candidates, alpha, beta, NegInf, None);
      value, bestMove := NegInf, None;
      var a := alpha;  // the source updates its parameter `alpha`
      var i := 0;
      while i < |candidates|
        invariant 0 <= i <= |candidates|
        invariant Valid()
        invariant board == old(board)
        invariant cells == g
        invariant MaxLoop(g, depth, candidates[i..], a, beta, value, bestMove) == result
      {
        var p := candidates[i];
        var e := TryMove(p, -1, depth - 1, a, beta, false);
        MaxLoopStep(g, depth, candidates, i, a, beta, value, bestMove, e);
        ghost var improved := Improve(value, bestMove, e, p, true);
        if Less(value, e) {
          value, bestMove := e, Some(p);
        }
        assert Outcome(value, bestMove) == improved;
        a := Max(a, e);
        if Le(beta, a) {
          break;
        }
        i := i + 1;
      }
      assert i == |candidates| ==> candidates[i..] == [];
    }

    /** The loop of `minimax` for the minimizing side, symmetric to `MaxChildren`: plays 1,
        takes the smaller value and lowers `beta`. */
    method MinChildren(depth: nat, candidates: seq<Pos>, alpha: Ext, beta: Ext) returns (value: Ext, bestMove: Option<Pos>)
      requires Valid() && depth > 0 && OnBoard(candidates)
      requires EmptyCells(cells, candidates)
      modifies this, board
      ensures Valid() && board == old(board) && cells == old(cells)
      ensures Outcome(value, bestMove) == MinLoop(cells, depth, candidates, alpha, beta, PosInf, None)
      decreases depth, 1
    {
      ghost var g := cells;
      ghost var result := MinLoop(g, depth, candidates, alpha, beta, PosInf, None);
      value, bestMove := PosInf, None;
      var b := beta;  // the source updates its parameter `beta`
      var i := 0;
      while i < |candidates|
        invariant 0 <= i <= |candidates|
        invariant Valid() && board == old(board) && cells == g
        invariant MinLoop(g, depth, candidates[i..], alpha, b, value, bestMove) == result
      {
        var p := candidates[i];
        var e := TryMove(p, 1, depth - 1, alpha, b, true);
        MinLoopStep(g, depth, candidates, i, alpha, b, value, bestMove, e);
        ghost var improved := Improve(value, bestMove, e, p, false);
        if Less(e, value) {
          value, bestMove := e, Some(p);
        }
        assert Outcome(value, bestMove) == improved;
        b := Min(b, e);
        if Le(b, alpha) {
          break;
        }
        i := i + 1;
      }
      assert i == |candidates| ==> candidates[i..] == [];
    }

    /** `move(row, col)`: records the human's stone 1 at `(row, col)`, searches from the
        engine's side and plays -1 at the move found. When the search finds no move the
        source fails unpacking `None`; the model returns `None` with the human's stone
        placed and nothing else changed. */
    method Move(row: int, col: int) returns (reply: Option<Pos>)
      requires Valid() && IsWithin(row, col)
      modifies this, board
      ensures Valid() && board == old(board)
      ensures var placed := Place(old(cells), Pos(row, col), 1);
        reply == Search(placed, MaxDepth, NegInf, PosInf, true).move &&
        match reply
        case None => cells == placed
        case Some(p) => IsCandidate(placed, p) && p != Pos(row, col) && cells == Place(placed, p, -1)
    {
      board[row, col] := 1;
      cells := Place(cells, Pos(row, col), 1);
      var _, move := Minimax(MaxDepth, NegInf, PosInf, true);
      SearchMoveIsCandidate(cells, MaxDepth, NegInf, PosInf, true);
      reply := move;
      match move {
        case None =>
        case Some(p) =>
          board[p.x, p.y] := -1;
          cells := Place(cells, p, -1);
      }
    }
  }
}
