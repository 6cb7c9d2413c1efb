/** The cells the search considers: the empty cells within the 5 x 5 neighbourhood
    of some stone, listed in row-major order. */
module CandidateMoves {
  import opened Board

  /** `q` lies in the 5 x 5 neighbourhood of `s` (Chebyshev distance at most 2). */
  predicate Near(s: Pos, q: Pos)
  {
    -2 <= q.x - s.x <= 2 && -2 <= q.y - s.y <= 2
  }

  /** `s` is a cell of the board holding a stone of either colour. */
  predicate IsStone(g: seq<seq<int>>, s: Pos)
    requires IsGrid(g)
  {
    InBounds(s) && g[s.x][s.y] != 0
  }

  /** `q` is an empty cell of the board near some stone. */
  ghost predicate IsCandidate(g: seq<seq<int>>, q: Pos)
    requires IsGrid(g)
  {
    InBounds(q) && g[q.x][q.y] == 0 && exists s :: IsStone(g, s) && Near(s, q)
  }

  /** `p` comes strictly before `q` in row-major order. */
  predicate Before(p: Pos, q: Pos)
  {
    p.x < q.x || (p.x == q.x && p.y < q.y)
  }

  ghost predicate StrictlyOrdered(cs: seq<Pos>)
  {
    forall i, j :: 0 <= i < j < |cs| ==> Before(cs[i], cs[j])
  }

  /** The candidates among `(x, 0) .. (x, y - 1)`, in order. */
  ghost function CandidatesInRow(g: seq<seq<int>>, x: int, y: int): (cs: seq<Pos>)
    requires IsGrid(g) && 0 <= x < N && 0 <= y <= N
  {
    if y == 0 then []
    else
      var p := Pos(x, y - 1);
      CandidatesInRow(g, x, y - 1) + (if IsCandidate(g, p) then [p] else [])
  }

  /** The candidates in the rows `0 .. x - 1`, in order. */
  ghost function CandidatesInRows(g: seq<seq<int>>, x: int): (cs: seq<Pos>)
    requires IsGrid(g) && 0 <= x <= N
  {
    if x == 0 then []
    else CandidatesInRows(g, x - 1) + CandidatesInRow(g, x - 1, N)
  }

  /** Every position of `cs` is on the board. */
  ghost predicate OnBoard(cs: seq<Pos>)
  {
    forall k :: 0 <= k < |cs| ==> InBounds(cs[k])
  }

  /** `AI.get_candidates` as a function of the board, listed in row-major order. */
  ghost function Candidates(g: seq<seq<int>>): (cs: seq<Pos>)
    requires IsGrid(g)
    ensures OnBoard(cs)
  {
    CandidatesInRowsSound(g, N);
    CandidatesInRows(g, N)
  }

  /** Every entry of `cs` is a candidate in row `x`, left of column `y`. */
  ghost predicate InRowBefore(g: seq<seq<int>>, cs: seq<Pos>, x: int, y: int)
    requires IsGrid(g)
  {
    forall i :: 0 <= i < |cs| ==> cs[i].x == x && 0 <= cs[i].y < y && IsCandidate(g, cs[i])
  }

  /** Every entry of `cs` is a candidate above row `x`. */
  ghost predicate InRowsBefore(g: seq<seq<int>>, cs: seq<Pos>, x: int)
    requires IsGrid(g)
  {
    forall i :: 0 <= i < |cs| ==> cs[i].x < x && IsCandidate(g, cs[i])
  }

  lemma {:induction false} CandidatesInRowSound(g: seq<seq<int>>, x: int, y: int)
    requires IsGrid(g) && 0 <= x < N && 0 <= y <= N
    ensures InRowBefore(g, CandidatesInRow(g, x, y), x, y)
  {
    if y > 0 {
      var a, p := CandidatesInRow(g, x, y - 1), Pos(x, y - 1);
      var cs := CandidatesInRow(g, x, y);
      CandidatesInRowSound(g, x, y - 1);
      forall i | 0 <= i < |cs|
        ensures cs[i].x == x && 0 <= cs[i].y < y && IsCandidate(g, cs[i])
      {
        if i < |a| {
          assert cs[i] == a[i];
        } else {
          assert cs[i] == p;
        }
      }
    }
  }

  lemma {:induction false} CandidatesInRowComplete(g: seq<seq<int>>, x: int, y: int)
    requires IsGrid(g) && 0 <= x < N && 0 <= y <= N
    ensures forall p: Pos :: p.x == x && 0 <= p.y < y && IsCandidate(g, p) ==> p in CandidatesInRow(g, x, y)
  {
    if y > 0 {
      CandidatesInRowComplete(g, x, y - 1);
    }
  }

  lemma {:induction false} CandidatesInRowOrdered(g: seq<seq<int>>, x: int, y: int)
    requires IsGrid(g) && 0 <= x < N && 0 <= y <= N
    ensures StrictlyOrdered(CandidatesInRow(g, x, y))
  {
    if y > 0 {
      var a := CandidatesInRow(g, x, y - 1);
      var p := Pos(x, y - 1);
      CandidatesInRowOrdered(g, x, y - 1);
      CandidatesInRowSound(g, x, y - 1);
      if IsCandidate(g, p) {
        forall i, j | 0 <= i < |a| && 0 <= j < |[p]|
          ensures Before(a[i], [p][j])
        {
          assert a[i].y < y - 1;
        }
        ConcatOrdered(a, [p]);
      }
    }
  }

  /** `a + b` is ordered when `a` and `b` are and every element of `a` comes before every
      element of `b`. */
  lemma ConcatOrdered(a: seq<Pos>, b: seq<Pos>)
    requires StrictlyOrdered(a) && StrictlyOrdered(b)
    requires forall i, j :: 0 <= i < |a| && 0 <= j < |b| ==> Before(a[i], b[j])
    ensures StrictlyOrdered(a + b)
  {
    forall i, j | 0 <= i < j < |a + b|
      ensures Before((a + b)[i], (a + b)[j])
    {
      if j < |a| {
        assert (a + b)[i] == a[i] && (a + b)[j] == a[j];
      } else if i >= |a| {
        assert (a + b)[i] == b[i - |a|] && (a + b)[j] == b[j - |a|];
      } else {
        assert (a + b)[i] == a[i] && (a + b)[j] == b[j - |a|];
      }
    }
  }

  lemma {:induction false} CandidatesInRowsSound(g: seq<seq<int>>, x: int)
    requires IsGrid(g) && 0 <= x <= N
    ensures InRowsBefore(g, CandidatesInRows(g, x), x)
  {
    if x > 0 {
      var a: seq<Pos>, b: seq<Pos> := CandidatesInRows(g, x - 1), CandidatesInRow(g, x - 1, N);
      CandidatesInRowsSound(g, x - 1);
      CandidatesInRowSound(g, x - 1, N);
      forall i | 0 <= i < |a + b|
        ensures (a + b)[i].x < x && IsCandidate(g, (a + b)[i])
      {
        if i >= |a| {
          assert (a + b)[i] == b[i - |a|];
        }
      }
    }
  }

  lemma {:induction false} CandidatesInRowsComplete(g: seq<seq<int>>, x: int)
    requires IsGrid(g) && 0 <= x <= N
    ensures forall p: Pos :: p.x < x && IsCandidate(g, p) ==> p in CandidatesInRows(g, x)
  {
    if x > 0 {
      CandidatesInRowsComplete(g, x - 1);
      CandidatesInRowComplete(g, x - 1, N);
    }
  }

  lemma {:induction false} CandidatesInRowsOrdered(g: seq<seq<int>>, x: int)
    requires IsGrid(g) && 0 <= x <= N
    ensures StrictlyOrdered(CandidatesInRows(g, x))
  {
    if x > 0 {
      CandidatesInRowsOrdered(g, x - 1);
      CandidatesInRowOrdered(g, x - 1, N);
      CandidatesInRowsSound(g, x - 1);
      CandidatesInRowSound(g, x - 1, N);
      ConcatOrdered(CandidatesInRows(g, x - 1), CandidatesInRow(g, x - 1, N));
    }
  }

  /** The candidates are exactly the empty cells near a stone, listed in row-major order,
      each once. */
  lemma CandidatesAreNearEmptyCells(g: seq<seq<int>>)
    requires IsGrid(g)
    ensures forall p :: p in Candidates(g) <==> IsCandidate(g, p)
    ensures StrictlyOrdered(Candidates(g))
    ensures forall i, j :: 0 <= i < j < |Candidates(g)| ==> Candidates(g)[i] != Candidates(g)[j]
  {
    CandidatesInRowsSound(g, N);
    CandidatesInRowsComplete(g, N);
    CandidatesInRowsOrdered(g, N);
  }

  lemma {:induction false} NoCandidatesInRowWithoutStones(g: seq<seq<int>>, x: int, y: int)
    requires IsGrid(g) && AllCells(g, 0) && 0 <= x < N && 0 <= y <= N
    ensures CandidatesInRow(g, x, y) == []
  {
    if y > 0 {
      NoCandidatesInRowWithoutStones(g, x, y - 1);
      assert forall s :: !IsStone(g, s);
    }
  }

  lemma {:induction false} NoCandidatesInRowsWithoutStones(g: seq<seq<int>>, x: int)
    requires IsGrid(g) && AllCells(g, 0) && 0 <= x <= N
    ensures CandidatesInRows(g, x) == []
  {
    if x > 0 {
      NoCandidatesInRowsWithoutStones(g, x - 1);
      NoCandidatesInRowWithoutStones(g, x - 1, N);
    }
  }

  /** A board without stones has no candidates. */
  lemma NoCandidatesWithoutStones(g: seq<seq<int>>)
    requires IsGrid(g) && AllCells(g, 0)
    ensures Candidates(g) == []
  {
    NoCandidatesInRowsWithoutStones(g, N);
  }
}
