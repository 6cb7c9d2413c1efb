/** The game window's board logic: its own 19 x 19 board of stones, the five-in-a-row
    test, a new game, and one click of the human (black) followed by the engine's reply
    (white). Drawing, the event loop and the mouse-to-cell conversion are not modelled. */
module Game {
  import opened Board
  import opened SearchSpec
  import opened Engine

  /** FREE_POS, BLACK_STONE (the human) and WHITE_STONE (the engine). */
  datatype Stone = FreePos | BlackStone | WhiteStone

  /** The outcome of a click. */
  datatype Turn =
    | Rejected        // off the board or on an occupied cell: nothing happens
    | BlackWins       // the human's stone completed five in a row; the engine is not asked
    | Replied(at: Pos) // the engine answered at `at`
    | EngineFailed    // the engine found no move and `move` fails unpacking its `None`

  /** The integer the engine's own board holds for a stone. */
  function EngineCell(s: Stone): (c: int)
    ensures s == FreePos <==> c == 0
    ensures s == BlackStone <==> c == 1
    ensures s == WhiteStone <==> c == -1
  {
    match s
    case FreePos => 0
    case BlackStone => 1
    case WhiteStone => -1
  }

  /** The window's board `b` and the engine's board `g` show the same position. */
  ghost predicate Synced(b: seq<seq<Stone>>, g: seq<seq<int>>)
    requires IsGrid(b) && IsGrid(g)
  {
    forall i, j :: IsWithin(i, j) ==> g[i][j] == EngineCell(b[i][j])
  }

  // ----- the four windows `check_winner` inspects -----

  /** `board[i][j + k] == player` for `k` in 0..4: five along row `i` from column `j`
      (the windows are written over the cell index `c = j + k`). */
  predicate RowFive(b: seq<seq<Stone>>, i: int, j: int, player: Stone)
    requires IsGrid(b) && 0 <= i < N && 0 <= j < N - 4
  {
    forall c :: j <= c < j + 5 ==> b[i][c] == player
  }

  /** `board[j + k][i] == player`: five down column `i` from row `j`. */
  predicate ColumnFive(b: seq<seq<Stone>>, i: int, j: int, player: Stone)
    requires IsGrid(b) && 0 <= i < N && 0 <= j < N - 4
  {
    forall row :: j <= row < j + 5 ==> b[row][i] == player
  }

  /** `board[i + k][j + k] == player`: five on the diagonal from `(i, j)`. */
  predicate DiagonalFive(b: seq<seq<Stone>>, i: int, j: int, player: Stone)
    requires IsGrid(b) && 0 <= i < N - 4 && 0 <= j < N - 4
  {
    forall row :: i <= row < i + 5 ==> b[row][j + (row - i)] == player
  }

  /** `board[i + k][j + 4 - k] == player`: five on the anti-diagonal from `(i, j + 4)`. */
  predicate AntiDiagonalFive(b: seq<seq<Stone>>, i: int, j: int, player: Stone)
    requires IsGrid(b) && 0 <= i < N - 4 && 0 <= j < N - 4
  {
    forall row :: i <= row < i + 5 ==> b[row][j + 4 - (row - i)] == player
  }

  /** Each window `check_winner` inspects is a five in a row of `FiveInRow`. */
  lemma RowFiveIsFive(b: seq<seq<Stone>>, i: int, j: int, player: Stone)
    requires IsGrid(b) && 0 <= i < N && 0 <= j < N - 4
    ensures RowFive(b, i, j, player) <==> FiveInRow(b, i, j, 0, 1, player)
  {
    if FiveInRow(b, i, j, 0, 1, player) {
      forall c | j <= c < j + 5
        ensures b[i][c] == player
      {
        assert OnLine(b, i, j, 0, 1, c - j, player);
      }
    }
    if RowFive(b, i, j, player) {
      forall k | 0 <= k < 5
        ensures OnLine(b, i, j, 0, 1, k, player)
      {
        assert b[i][j + k] == player;
      }
    }
  }

  lemma ColumnFiveIsFive(b: seq<seq<Stone>>, i: int, j: int, player: Stone)
    requires IsGrid(b) && 0 <= i < N && 0 <= j < N - 4
    ensures ColumnFive(b, i, j, player) <==> FiveInRow(b, j, i, 1, 0, player)
  {
    if FiveInRow(b, j, i, 1, 0, player) {
      forall row | j <= row < j + 5
        ensures b[row][i] == player
      {
        assert OnLine(b, j, i, 1, 0, row - j, player);
      }
    }
    if ColumnFive(b, i, j, player) {
      forall k | 0 <= k < 5
        ensures OnLine(b, j, i, 1, 0, k, player)
      {
        assert b[j + k][i] == player;
      }
    }
  }

  lemma DiagonalFiveIsFive(b: seq<seq<Stone>>, i: int, j: int, player: Stone)
    requires IsGrid(b) && 0 <= i < N - 4 && 0 <= j < N - 4
    ensures DiagonalFive(b, i, j, player) <==> FiveInRow(b, i, j, 1, 1, player)
  {
    if FiveInRow(b, i, j, 1, 1, player) {
      forall row | i <= row < i + 5
        ensures b[row][j + (row - i)] == player
      {
        var k := row - i;
        assert Along(i, 1, k) == row && Along(j, 1, k) == j + (row - i);
        assert OnLine(b, i, j, 1, 1, k, player);
      }
    }
    if DiagonalFive(b, i, j, player) {
      forall k | 0 <= k < 5
        ensures OnLine(b, i, j, 1, 1, k, player)
      {
        assert b[i + k][j + ((i + k) - i)] == player;
        assert Along(i, 1, k) == i + k && Along(j, 1, k) == j + ((i + k) - i);
      }
    }
  }

  lemma AntiDiagonalFiveIsFive(b: seq<seq<Stone>>, i: int, j: int, player: Stone)
    requires IsGrid(b) && 0 <= i < N - 4 && 0 <= j < N - 4
    ensures AntiDiagonalFive(b, i, j, player) <==> FiveInRow(b, i, j + 4, 1, -1, player)
  {
    if FiveInRow(b, i, j + 4, 1, -1, player) {
      forall row | i <= row < i + 5
        ensures b[row][j + 4 - (row - i)] == player
      {
        var k := row - i;
        assert Along(i, 1, k) == row && Along(j + 4, -1, k) == j + 4 - (row - i);
        assert OnLine(b, i, j + 4, 1, -1, k, player);
      }
    }
    if AntiDiagonalFive(b, i, j, player) {
      var y, dy := j + 4, -1;
      forall k | 0 <= k < 5
        ensures OnLine(b, i, y, 1, dy, k, player)
      {
        assert b[i + k][j + 4 - ((i + k) - i)] == player;
        assert Along(i, 1, k) == i + k && Along(y, dy, k) == j + 4 - ((i + k) - i);
      }
    }
  }

  /** No row or column window with its first coordinate below `i` holds five `player`. */
  ghost predicate LinesClear(b: seq<seq<Stone>>, player: Stone, i: int)
    requires IsGrid(b)
  {
    forall a, c :: 0 <= a < i && 0 <= c < N - 4 ==>
      !FiveInRow(b, a, c, 0, 1, player) && !FiveInRow(b, c, a, 1, 0, player)
  }

  /** No diagonal or anti-diagonal window starting in a row below `i` holds five `player`. */
  ghost predicate DiagonalsClear(b: seq<seq<Stone>>, player: Stone, i: int)
    requires IsGrid(b)
  {
    (forall a, c :: 0 <= a < i && 0 <= c < N - 4 ==> !FiveInRow(b, a, c, 1, 1, player)) &&
    (forall a, c :: 0 <= a < i && 4 <= c < N ==> !FiveInRow(b, a, c, 1, -1, player))
  }

  /** A five in the direction `Directions[d]` is a five on the board. */
  lemma FiveIn(b: seq<seq<Stone>>, x: int, y: int, d: int, player: Stone)
    requires IsGrid(b) && 0 <= d < |Directions|
    requires FiveInRow(b, x, y, Directions[d].0, Directions[d].1, player)
    ensures HasFive(b, player)
  {
  }

  /** The windows `check_winner` inspects cover every five on the board: its first and
      last cells are on the board, which puts its start in the ranges the loops visit. */
  lemma {:induction false} WindowsCoverBoard(b: seq<seq<Stone>>, player: Stone)
    requires IsGrid(b) && LinesClear(b, player, N) && DiagonalsClear(b, player, N - 4)
    ensures !HasFive(b, player)
  {
    forall x, y, d | 0 <= d < |Directions|
      ensures !FiveInRow(b, x, y, Directions[d].0, Directions[d].1, player)
    {
      var (dx, dy) := Directions[d];
      if OnLine(b, x, y, dx, dy, 0, player) && OnLine(b, x, y, dx, dy, 4, player) {
        if d == 0 {
          assert !FiveInRow(b, x, y, 1, 0, player);
        } else if d == 1 {
          assert !FiveInRow(b, x, y, 0, 1, player);
        } else if d == 2 {
          assert !FiveInRow(b, x, y, 1, 1, player);
        } else {
          assert !FiveInRow(b, x, y, 1, -1, player);
        }
      }
    }
  }

  /** A board without any `player` stone has no five of `player`. */
  lemma NoStonesNoFive(b: seq<seq<Stone>>, player: Stone)
    requires IsGrid(b) && forall i, j :: IsWithin(i, j) ==> b[i][j] != player
    ensures !HasFive(b, player)
  {
    forall x, y, d | 0 <= d < |Directions|
      ensures !FiveInRow(b, x, y, Directions[d].0, Directions[d].1, player)
    {
      assert !OnLine(b, x, y, Directions[d].0, Directions[d].1, 0, player);
    }
  }

  /** Boards that show the same position agree on who has five in a row. */
  lemma SyncedFive(b: seq<seq<Stone>>, g: seq<seq<int>>, player: Stone)
    requires IsGrid(b) && IsGrid(g) && Synced(b, g)
    ensures HasFive(b, player) <==> HasFive(g, EngineCell(player))
  {
    forall x, y, dx, dy
      ensures FiveInRow(b, x, y, dx, dy, player) <==> FiveInRow(g, x, y, dx, dy, EngineCell(player))
    {
      forall k | 0 <= k < 5
        ensures OnLine(b, x, y, dx, dy, k, player) <==> OnLine(g, x, y, dx, dy, k, EngineCell(player))
      {
        if IsWithin(Along(x, dx, k), Along(y, dy, k)) {
          assert g[Along(x, dx, k)][Along(y, dy, k)] == EngineCell(b[Along(x, dx, k)][Along(y, dy, k)]);
        }
      }
    }
  }

  /** The human's stone at `q` and the engine's at `p`, recorded on both boards, keep
      them in step. */
  lemma ReplyKeepsSync(b: seq<seq<Stone>>, g: seq<seq<int>>, q: Pos, p: Pos)
    requires IsGrid(b) && IsGrid(g) && Synced(b, g) && InBounds(q) && InBounds(p)
    ensures Synced(Place(Place(b, q, BlackStone), p, WhiteStone), Place(Place(g, q, 1), p, -1))
  {
  }

  class GoBang {
    /** `self.board`: the position the window shows. */
    var board: seq<seq<Stone>>
    /** `self.current_player`: whose turn the window shows. */
    var currentPlayer: Stone
    /** `self.ai`: the engine, with its own board. */
    var ai: AI

    ghost predicate Valid()
      reads this, ai, ai.board
    {
      IsGrid(board) && ai.Valid()
    }

    /** `GoBang()`: an empty board, black to move, a fresh engine. */
    constructor ()
      ensures Valid() && board == Filled(FreePos) && currentPlayer == BlackStone
      ensures fresh(ai) && fresh(ai.board) && ai.cells == Filled(0)
      ensures Synced(board, ai.cells)
    {
      board := Filled(FreePos);
      currentPlayer := BlackStone;
      ai := new AI();
    }

    /** `reset_game`: an empty board, black to move, and a fresh engine. */
    method ResetGame()
      modifies this
      ensures Valid() && board == Filled(FreePos) && currentPlayer == BlackStone
      ensures fresh(ai) && fresh(ai.board) && ai.cells == Filled(0)
      ensures Synced(board, ai.cells)
    {
      board := Filled(FreePos);
      currentPlayer := BlackStone;
      ai := new AI();
    }

    /** `check_winner(player)`: scans every row and column window of five, then every
        diagonal and anti-diagonal one, and answers whether any holds five `player`. */
    method CheckWinner(player: Stone) returns (won: bool)
      requires Valid()
      ensures won <==> HasFive(board, player)
    {
      for i := 0 to N
        invariant LinesClear(board, player, i)
      {
        for j := 0 to N - 4
          invariant LinesClear(board, player, i)
          invariant forall c :: 0 <= c < j ==>
            !FiveInRow(board, i, c, 0, 1, player) && !FiveInRow(board, c, i, 1, 0, player)
        {
          RowFiveIsFive(board, i, j, player);
          ColumnFiveIsFive(board, i, j, player);
          if RowFive(board, i, j, player) {
            FiveIn(board, i, j, 1, player);
            return true;
          }
          if ColumnFive(board, i, j, player) {
            FiveIn(board, j, i, 0, player);
            return true;
          }
        }
      }
      for i := 0 to N - 4
        invariant DiagonalsClear(board, player, i)
      {
        for j := 0 to N - 4
          invariant DiagonalsClear(board, player, i)
          invariant forall c :: 0 <= c < j ==> !FiveInRow(board, i, c, 1, 1, player)
          invariant forall c :: 4 <= c < j + 4 ==> !FiveInRow(board, i, c, 1, -1, player)
        {
          DiagonalFiveIsFive(board, i, j, player);
          AntiDiagonalFiveIsFive(board, i, j, player);
          if DiagonalFive(board, i, j, player) {
            FiveIn(board, i, j, 2, player);
            return true;
          }
          if AntiDiagonalFive(board, i, j, player) {
            FiveIn(board, i, j + 4, 3, player);
            return true;
          }
        }
      }
      WindowsCoverBoard(board, player);
      return false;
    }

    /** `make_a_move` for a click on the cell `(row, col)`: a click off the board or on a
        stone is ignored; otherwise black is placed and white is to move; unless black now
        has five, the engine is told the move and its reply is placed as white, black to
        move again. */
    method MakeMove(row: int, col: int) returns (turn: Turn)
      requires Valid()
      modifies this, ai, ai.board
      ensures Valid() && ai == old(ai)
      ensures !(IsWithin(row, col) && old(board)[row][col] == FreePos) ==>
        turn == Rejected && board == old(board) && currentPlayer == old(currentPlayer) &&
        ai.cells == old(ai.cells)
      ensures IsWithin(row, col) && old(board)[row][col] == FreePos ==>
        var placed := Place(old(board), Pos(row, col), BlackStone);
        var told := Place(old(ai.cells), Pos(row, col), 1);
        if HasFive(placed, BlackStone) then
          turn == BlackWins && board == placed && currentPlayer == WhiteStone && ai.cells == old(ai.cells)
        else
          match Search(told, MaxDepth, NegInf, PosInf, true).move
          case None =>
            turn == EngineFailed && board == placed && currentPlayer == WhiteStone && ai.cells == told
          case Some(p) =>
            turn == Replied(p) && InBounds(p) && board == Place(placed, p, WhiteStone) &&
            currentPlayer == BlackStone && ai.cells == Place(told, p, -1)
      ensures old(Synced(board, ai.cells)) && turn.Replied? ==>
        Synced(board, ai.cells) && InBounds(turn.at) && turn.at != Pos(row, col) &&
        old(board)[turn.at.x][turn.at.y] == FreePos
    {
      if row < 0 || col < 0 || row >= N || col >= N {
        return Rejected;
      }
      if board[row][col] != FreePos {
        return Rejected;
      }
      ghost var b, g := board, ai.cells;
      board := Place(board, Pos(row, col), BlackStone);
      currentPlayer := WhiteStone;
      var won := CheckWinner(BlackStone);
      if won {
        return BlackWins;
      }
      var reply := ai.Move(row, col);
      match reply {
        case None =>
          return EngineFailed;
        case Some(p) =>
          board := Place(board, p, WhiteStone);
          currentPlayer := BlackStone;
          if Synced(b, g) {
            ReplyKeepsSync(b, g, Pos(row, col), p);
            assert Place(g, Pos(row, col), 1)[p.x][p.y] == 0;
          }
          return Replied(p);
      }
    }
  }
}
