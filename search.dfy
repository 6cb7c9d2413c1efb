/** What `AI.minimax` computes, as functions of a board value: the depth-bounded
    alpha-beta search exactly as the method runs it (`Search`), the same recursion
    without cut-offs (`Minimax`), and the proofs that they agree at the root and that
    the move returned is the first candidate reaching the best examined value. */
module SearchSpec {
  import opened Board
  import opened Evaluation
  import opened CandidateMoves

  /** A search value: a score, or one of the sentinels `-float('inf')` / `float('inf')`. */
  datatype Ext = NegInf | Fin(n: int) | PosInf

  /** `a < b` on search values. */
  predicate Less(a: Ext, b: Ext)
  {
    (a.NegInf? && !b.NegInf?) || (a.Fin? && (b.PosInf? || (b.Fin? && a.n < b.n)))
  }

  /** `a <= b` on search values. */
  predicate Le(a: Ext, b: Ext)
  {
    !Less(b, a)
  }

  /** Python's `max(a, b)`: `b` only when it is strictly greater. */
  function Max(a: Ext, b: Ext): (m: Ext)
  {
    if Less(a, b) then b else a
  }

  /** Python's `min(a, b)`: `b` only when it is strictly smaller. */
  function Min(a: Ext, b: Ext): (m: Ext)
  {
    if Less(b, a) then b else a
  }

  function Abs(n: int): (a: int)
  {
    if n < 0 then -n else n
  }

  /** The pair `(value, best_move)` that `minimax` returns. */
  datatype Outcome = Outcome(value: Ext, move: Option<Pos>)

  /** A search stops at depth 0 or once the score reaches the five-in-a-row weight. */
  predicate IsTerminal(g: seq<seq<int>>, depth: nat)
    requires IsGrid(g)
  {
    depth == 0 || Abs(Score(g)) >= FiveScore
  }

  // ----- the search as the method runs it -----

  /** `a` is strictly better than `b` for the side to move. */
  predicate Beats(a: Ext, b: Ext, maximizing: bool)
  {
    if maximizing then Less(b, a) else Less(a, b)
  }

  /** The update of `(best, move)` by the examined value `e` of the candidate `p`. */
  function Improve(best: Ext, move: Option<Pos>, e: Ext, p: Pos, maximizing: bool): (r: Outcome)
  {
    if Beats(e, best, maximizing) then Outcome(e, Some(p)) else Outcome(best, move)
  }


  /** `minimax(depth, alpha, beta, maximizing)` on the board `g`. The maximizing side
      places -1, the minimizing side places 1. */
  ghost function Search(g: seq<seq<int>>, depth: nat, alpha: Ext, beta: Ext, maximizing: bool): (r: Outcome)
    requires IsGrid(g)
    decreases depth, 1, 0
  {
    if IsTerminal(g, depth) then Outcome(Fin(Score(g)), None)
    else if maximizing then MaxLoop(g, depth, Candidates(g), alpha, beta, NegInf, None)
    else MinLoop(g, depth, Candidates(g), alpha, beta, PosInf, None)
  }

  /** The maximizing loop over the candidates `cs` still to examine, with the current
      `alpha`, the best value so far and its move. */
  ghost function MaxLoop(g: seq<seq<int>>, depth: nat, cs: seq<Pos>, alpha: Ext, beta: Ext, best: Ext, move: Option<Pos>): (r: Outcome)
    requires IsGrid(g) && depth > 0 && OnBoard(cs)
    decreases depth, 0, |cs|
  {
    if cs == [] then Outcome(best, move)
    else
      var e := Search(Place(g, cs[0], -1), depth - 1, alpha, beta, false).value;
      var b := Improve(best, move, e, cs[0], true);
      var alpha' := Max(alpha, e);
      if Le(beta, alpha') then b
      else MaxLoop(g, depth, cs[1..], alpha', beta, b.value, b.move)
  }

  /** One turn of the maximizing loop, for a caller that runs it step by step: `e` is the
      value of the position after -1 plays `p`. */
  lemma MaxLoopStep(g: seq<seq<int>>, depth: nat, cs: seq<Pos>, i: int, alpha: Ext, beta: Ext,
                    best: Ext, move: Option<Pos>, e: Ext)
    requires IsGrid(g) && depth > 0 && OnBoard(cs) && 0 <= i < |cs|
    requires e == Search(Place(g, cs[i], -1), depth - 1, alpha, beta, false).value
    ensures var b := Improve(best, move, e, cs[i], true);
      MaxLoop(g, depth, cs[i..], alpha, beta, best, move) ==
        if Le(beta, Max(alpha, e)) then b else MaxLoop(g, depth, cs[i + 1..], Max(alpha, e), beta, b.value, b.move)
  {
    assert cs[i..][0] == cs[i] && cs[i..][1..] == cs[i + 1..];
  }


  /** The minimizing loop, symmetric to `MaxLoop`. */
  ghost function MinLoop(g: seq<seq<int>>, depth: nat, cs: seq<Pos>, alpha: Ext, beta: Ext, best: Ext, move: Option<Pos>): (r: Outcome)
    requires IsGrid(g) && depth > 0 && OnBoard(cs)
    decreases depth, 0, |cs|
  {
    if cs == [] then Outcome(best, move)
    else
      var e := Search(Place(g, cs[0], 1), depth - 1, alpha, beta, true).value;
      var b := Improve(best, move, e, cs[0], false);
      var beta' := Min(beta, e);
      if Le(beta', alpha) then b
      else MinLoop(g, depth, cs[1..], alpha, beta', b.value, b.move)
  }

  /** One turn of the minimizing loop, for a caller that runs it step by step: `e` is the
      value of the position after 1 plays `p`. */
  lemma MinLoopStep(g: seq<seq<int>>, depth: nat, cs: seq<Pos>, i: int, alpha: Ext, beta: Ext,
                    best: Ext, move: Option<Pos>, e: Ext)
    requires IsGrid(g) && depth > 0 && OnBoard(cs) && 0 <= i < |cs|
    requires e == Search(Place(g, cs[i], 1), depth - 1, alpha, beta, true).value
    ensures var b := Improve(best, move, e, cs[i], false);
      MinLoop(g, depth, cs[i..], alpha, beta, best, move) ==
        if Le(Min(beta, e), alpha) then b else MinLoop(g, depth, cs[i + 1..], alpha, Min(beta, e), b.value, b.move)
  {
    assert cs[i..][0] == cs[i] && cs[i..][1..] == cs[i + 1..];
  }


  // ----- the same recursion without cut-offs -----

  /** The minimax value of `g`: every candidate examined, no window. */
  ghost function Minimax(g: seq<seq<int>>, depth: nat, maximizing: bool): (v: Ext)
    requires IsGrid(g)
    decreases depth, 1, 0
  {
    if IsTerminal(g, depth) then Fin(Score(g))
    else if maximizing then MaxOf(g, depth, Candidates(g))
    else MinOf(g, depth, Candidates(g))
  }

  /** The largest minimax value of the positions after -1 plays one of `cs`. */
  ghost function MaxOf(g: seq<seq<int>>, depth: nat, cs: seq<Pos>): (v: Ext)
    requires IsGrid(g) && depth > 0 && OnBoard(cs)
    decreases depth, 0, |cs|
  {
    if cs == [] then NegInf
    else Max(Minimax(Place(g, cs[0], -1), depth - 1, false), MaxOf(g, depth, cs[1..]))
  }

  /** The smallest minimax value of the positions after 1 plays one of `cs`. */
  ghost function MinOf(g: seq<seq<int>>, depth: nat, cs: seq<Pos>): (v: Ext)
    requires IsGrid(g) && depth > 0 && OnBoard(cs)
    decreases depth, 0, |cs|
  {
    if cs == [] then PosInf
    else Min(Minimax(Place(g, cs[0], 1), depth - 1, true), MinOf(g, depth, cs[1..]))
  }

  // ----- pruning does not change the value -----

  /** The fail-soft guarantee of a search value `v` against the true value `m` under the
      window `(alpha, beta)`: an upper bound when it fails low, a lower bound when it fails
      high, exact inside the window. */
  ghost predicate FailSoft(alpha: Ext, beta: Ext, v: Ext, m: Ext)
  {
    (Le(v, alpha) ==> Le(m, v)) &&
    (Le(beta, v) ==> Le(v, m)) &&
    (Less(alpha, v) && Less(v, beta) ==> m == v)
  }

  /** Every search with a non-empty window is fail-soft with respect to `Minimax`. */
  lemma {:induction false} SearchFailSoft(g: seq<seq<int>>, depth: nat, alpha: Ext, beta: Ext, maximizing: bool)
    requires IsGrid(g) && Less(alpha, beta)
    ensures FailSoft(alpha, beta, Search(g, depth, alpha, beta, maximizing).value, Minimax(g, depth, maximizing))
    decreases depth, 1, 0
  {
    if !IsTerminal(g, depth) {
      var cs := Candidates(g);
      if maximizing {
        MaxLoopFailSoft(g, depth, cs, alpha, alpha, beta, NegInf, None, NegInf);
      } else {
        MinLoopFailSoft(g, depth, cs, beta, alpha, beta, PosInf, None, PosInf);
      }
    }
  }

  lemma MaxAssociative(a: Ext, b: Ext, c: Ext)
    ensures Max(a, Max(b, c)) == Max(Max(a, b), c)
  {
  }

  lemma MinAssociative(a: Ext, b: Ext, c: Ext)
    ensures Min(a, Min(b, c)) == Min(Min(a, b), c)
  {
  }

  /** One step of the maximizing loop on search values alone: the child's value `e` is
      fail-soft against its true value `m` under the current window; `rest` is the true
      value of the candidates after it. Either the step cuts off, and the value so far is
      fail-soft against everything, or the loop invariant holds for the next step. */
  lemma MaxStepFailSoft(alpha0: Ext, alpha: Ext, beta: Ext, best: Ext, seen: Ext, e: Ext, m: Ext, rest: Ext)
    requires Less(alpha0, beta) && alpha == Max(alpha0, best) && Less(alpha, beta)
    requires Le(best, alpha0) ==> Le(seen, best)
    requires Less(alpha0, best) ==> seen == best
    requires FailSoft(alpha, beta, e, m)
    ensures var best' := if Less(best, e) then e else best;
      var alpha' := Max(alpha, e);
      (Le(beta, alpha') ==> FailSoft(alpha0, beta, best', Max(seen, Max(m, rest)))) &&
      (!Le(beta, alpha') ==>
         alpha' == Max(alpha0, best') && Less(alpha', beta) &&
         (Le(best', alpha0) ==> Le(Max(seen, m), best')) &&
         (Less(alpha0, best') ==> Max(seen, m) == best'))
  {
  }

  /** One step of the minimizing loop, symmetric to `MaxStepFailSoft`. */
  lemma MinStepFailSoft(beta0: Ext, alpha: Ext, beta: Ext, best: Ext, seen: Ext, e: Ext, m: Ext, rest: Ext)
    requires Less(alpha, beta0) && beta == Min(beta0, best) && Less(alpha, beta)
    requires Le(beta0, best) ==> Le(best, seen)
    requires Less(best, beta0) ==> seen == best
    requires FailSoft(alpha, beta, e, m)
    ensures var best' := if Less(e, best) then e else best;
      var beta' := Min(beta, e);
      (Le(beta', alpha) ==> FailSoft(alpha, beta0, best', Min(seen, Min(m, rest)))) &&
      (!Le(beta', alpha) ==>
         beta' == Min(beta0, best') && Less(alpha, beta') &&
         (Le(beta0, best') ==> Le(best', Min(seen, m))) &&
         (Less(best', beta0) ==> Min(seen, m) == best'))
  {
  }

  /** The maximizing loop entered with window `(alpha0, beta)`: `seen` is the largest true
      value of the candidates already examined, `best` the largest search value. */
  lemma {:induction false} MaxLoopFailSoft(g: seq<seq<int>>, depth: nat, cs: seq<Pos>, alpha0: Ext, alpha: Ext, beta: Ext,
                                           best: Ext, move: Option<Pos>, seen: Ext)
    requires IsGrid(g) && depth > 0 && OnBoard(cs)
    requires Less(alpha0, beta) && alpha == Max(alpha0, best) && Less(alpha, beta)
    requires Le(best, alpha0) ==> Le(seen, best)
    requires Less(alpha0, best) ==> seen == best
    ensures FailSoft(alpha0, beta, MaxLoop(g, depth, cs, alpha, beta, best, move).value, Max(seen, MaxOf(g, depth, cs)))
    decreases depth, 0, |cs|
  {
    if cs != [] {
      var child := Place(g, cs[0], -1);
      var e := Search(child, depth - 1, alpha, beta, false).value;
      var m := Minimax(child, depth - 1, false);
      var rest := MaxOf(g, depth, cs[1..]);
      assert MaxOf(g, depth, cs) == Max(m, rest);
      SearchFailSoft(child, depth - 1, alpha, beta, false);
      MaxStepFailSoft(alpha0, alpha, beta, best, seen, e, m, rest);
      var b := Improve(best, move, e, cs[0], true);
      var alpha' := Max(alpha, e);
      if !Le(beta, alpha') {
        assert MaxLoop(g, depth, cs, alpha, beta, best, move) == MaxLoop(g, depth, cs[1..], alpha', beta, b.value, b.move);
        MaxLoopFailSoft(g, depth, cs[1..], alpha0, alpha', beta, b.value, b.move, Max(seen, m));
        MaxAssociative(seen, m, rest);
      }
    }
  }

  /** The minimizing loop entered with window `(alpha, beta0)`, symmetric to `MaxLoopFailSoft`. */
  lemma {:induction false} MinLoopFailSoft(g: seq<seq<int>>, depth: nat, cs: seq<Pos>, beta0: Ext, alpha: Ext, beta: Ext,
                                           best: Ext, move: Option<Pos>, seen: Ext)
    requires IsGrid(g) && depth > 0 && OnBoard(cs)
    requires Less(alpha, beta0) && beta == Min(beta0, best) && Less(alpha, beta)
    requires Le(beta0, best) ==> Le(best, seen)
    requires Less(best, beta0) ==> seen == best
    ensures FailSoft(alpha, beta0, MinLoop(g, depth, cs, alpha, beta, best, move).value, Min(seen, MinOf(g, depth, cs)))
    decreases depth, 0, |cs|
  {
    if cs != [] {
      var child := Place(g, cs[0], 1);
      var e := Search(child, depth - 1, alpha, beta, true).value;
      var m := Minimax(child, depth - 1, true);
      var rest := MinOf(g, depth, cs[1..]);
      assert MinOf(g, depth, cs) == Min(m, rest);
      SearchFailSoft(child, depth - 1, alpha, beta, true);
      MinStepFailSoft(beta0, alpha, beta, best, seen, e, m, rest);
      var b := Improve(best, move, e, cs[0], false);
      var beta' := Min(beta, e);
      if !Le(beta', alpha) {
        assert MinLoop(g, depth, cs, alpha, beta, best, move) == MinLoop(g, depth, cs[1..], alpha, beta', b.value, b.move);
        MinLoopFailSoft(g, depth, cs[1..], beta0, alpha, beta', b.value, b.move, Min(seen, m));
        MinAssociative(seen, m, rest);
      }
    }
  }

  /** With the root window `(-inf, +inf)`, alpha-beta returns the minimax value. */
  lemma AlphaBetaIsMinimax(g: seq<seq<int>>, depth: nat, maximizing: bool)
    requires IsGrid(g)
    ensures Search(g, depth, NegInf, PosInf, maximizing).value == Minimax(g, depth, maximizing)
  {
    SearchFailSoft(g, depth, NegInf, PosInf, maximizing);
  }

  // ----- the move returned -----

  /** The values the maximizing loop examines, in order, up to and including the one
      that triggers the cut-off. */
  ghost function MaxTrace(g: seq<seq<int>>, depth: nat, cs: seq<Pos>, alpha: Ext, beta: Ext): (t: seq<Ext>)
    requires IsGrid(g) && depth > 0 && OnBoard(cs)
    ensures |t| <= |cs| && (cs != [] ==> |t| > 0)
    decreases |cs|
  {
    if cs == [] then []
    else
      var e := Search(Place(g, cs[0], -1), depth - 1, alpha, beta, false).value;
      var alpha' := Max(alpha, e);
      if Le(beta, alpha') then [e] else [e] + MaxTrace(g, depth, cs[1..], alpha', beta)
  }

  /** The values the minimizing loop examines, symmetric to `MaxTrace`. */
  ghost function MinTrace(g: seq<seq<int>>, depth: nat, cs: seq<Pos>, alpha: Ext, beta: Ext): (t: seq<Ext>)
    requires IsGrid(g) && depth > 0 && OnBoard(cs)
    ensures |t| <= |cs| && (cs != [] ==> |t| > 0)
    decreases |cs|
  {
    if cs == [] then []
    else
      var e := Search(Place(g, cs[0], 1), depth - 1, alpha, beta, true).value;
      var beta' := Min(beta, e);
      if Le(beta', alpha) then [e] else [e] + MinTrace(g, depth, cs[1..], alpha, beta')
  }

  /** A loop started with `(best, move)` over the candidates `cs`, having examined the
      values `t`, returned `r`: no examined value beats `r.value`, which does not fall
      behind `best`; and either `r` is the starting pair, or its move is the first
      examined candidate whose value beats `best` and every value examined before it. */
  ghost predicate Picked(cs: seq<Pos>, t: seq<Ext>, best: Ext, move: Option<Pos>, r: Outcome, maximizing: bool)
  {
    !Beats(best, r.value, maximizing) &&
    (forall j :: 0 <= j < |t| ==> !Beats(t[j], r.value, maximizing)) &&
    (r == Outcome(best, move) ||
     exists k :: 0 <= k < |t| && k < |cs| && r.move == Some(cs[k]) && r.value == t[k] &&
                 Beats(t[k], best, maximizing) && forall j :: 0 <= j < k ==> Beats(t[k], t[j], maximizing))
  }

  /** A loop that stops after examining its first candidate picks it if it improves. */
  lemma PickedCut(cs: seq<Pos>, e: Ext, best: Ext, move: Option<Pos>, maximizing: bool)
    requires cs != []
    ensures Picked(cs, [e], best, move, Improve(best, move, e, cs[0], maximizing), maximizing)
  {
    if Beats(e, best, maximizing) {
      assert [e][0] == e;
    }
  }

  /** Examining one more candidate in front keeps `Picked`. */
  lemma PickedStep(cs: seq<Pos>, e: Ext, t: seq<Ext>, best: Ext, move: Option<Pos>, r: Outcome, maximizing: bool)
    requires cs != []
    requires var b := Improve(best, move, e, cs[0], maximizing);
      Picked(cs[1..], t, b.value, b.move, r, maximizing)
    ensures Picked(cs, [e] + t, best, move, r, maximizing)
  {
    var b := Improve(best, move, e, cs[0], maximizing);
    var t1 := [e] + t;
    assert t1[0] == e;
    assert forall j :: 0 < j < |t1| ==> t1[j] == t[j - 1];
    if r == Outcome(b.value, b.move) {
      if Beats(e, best, maximizing) {
        assert r.move == Some(cs[0]) && r.value == t1[0];
      }
    } else {
      var k :| 0 <= k < |t| && k < |cs[1..]| && r.move == Some(cs[1..][k]) && r.value == t[k] &&
               Beats(t[k], b.value, maximizing) && forall j :: 0 <= j < k ==> Beats(t[k], t[j], maximizing);
      assert r.move == Some(cs[k + 1]) && r.value == t1[k + 1];
      assert forall j :: 0 <= j < k + 1 ==> Beats(t1[k + 1], t1[j], maximizing);
    }
  }

  /** The maximizing loop keeps `(best, move)` unless some examined value beats `best`; then
      it returns the first examined candidate whose value is the largest examined. */
  lemma {:induction false} MaxLoopPicksFirstBest(g: seq<seq<int>>, depth: nat, cs: seq<Pos>, alpha: Ext, beta: Ext,
                                                 best: Ext, move: Option<Pos>)
    requires IsGrid(g) && depth > 0 && OnBoard(cs)
    ensures Picked(cs, MaxTrace(g, depth, cs, alpha, beta), best, move, MaxLoop(g, depth, cs, alpha, beta, best, move), true)
    decreases |cs|
  {
    if cs != [] {
      var e := Search(Place(g, cs[0], -1), depth - 1, alpha, beta, false).value;
      var b := Improve(best, move, e, cs[0], true);
      var alpha' := Max(alpha, e);
      if Le(beta, alpha') {
        assert MaxLoop(g, depth, cs, alpha, beta, best, move) == b;
        assert MaxTrace(g, depth, cs, alpha, beta) == [e];
        PickedCut(cs, e, best, move, true);
      } else {
        assert MaxLoop(g, depth, cs, alpha, beta, best, move) == MaxLoop(g, depth, cs[1..], alpha', beta, b.value, b.move);
        assert MaxTrace(g, depth, cs, alpha, beta) == [e] + MaxTrace(g, depth, cs[1..], alpha', beta);
        MaxLoopPicksFirstBest(g, depth, cs[1..], alpha', beta, b.value, b.move);
        PickedStep(cs, e, MaxTrace(g, depth, cs[1..], alpha', beta), best, move, MaxLoop(g, depth, cs, alpha, beta, best, move), true);
      }
    }
  }

  /** The minimizing loop, symmetric to `MaxLoopPicksFirstBest`. */
  lemma {:induction false} MinLoopPicksFirstBest(g: seq<seq<int>>, depth: nat, cs: seq<Pos>, alpha: Ext, beta: Ext,
                                                 best: Ext, move: Option<Pos>)
    requires IsGrid(g) && depth > 0 && OnBoard(cs)
    ensures Picked(cs, MinTrace(g, depth, cs, alpha, beta), best, move, MinLoop(g, depth, cs, alpha, beta, best, move), false)
    decreases |cs|
  {
    if cs != [] {
      var e := Search(Place(g, cs[0], 1), depth - 1, alpha, beta, true).value;
      var b := Improve(best, move, e, cs[0], false);
      var beta' := Min(beta, e);
      if Le(beta', alpha) {
        assert MinLoop(g, depth, cs, alpha, beta, best, move) == b;
        assert MinTrace(g, depth, cs, alpha, beta) == [e];
        PickedCut(cs, e, best, move, false);
      } else {
        assert MinLoop(g, depth, cs, alpha, beta, best, move) == MinLoop(g, depth, cs[1..], alpha, beta', b.value, b.move);
        assert MinTrace(g, depth, cs, alpha, beta) == [e] + MinTrace(g, depth, cs[1..], alpha, beta');
        MinLoopPicksFirstBest(g, depth, cs[1..], alpha, beta', b.value, b.move);
        PickedStep(cs, e, MinTrace(g, depth, cs[1..], alpha, beta'), best, move, MinLoop(g, depth, cs, alpha, beta, best, move), false);
      }
    }
  }

  /** What a search that does not stop at once guarantees about its result `r`, given
      the candidates `cs` and the values `t` it examined: it examined at least one
      candidate when there is one; no examined value beats `r.value`; `r` has no move
      exactly when its value is the starting sentinel; otherwise its move is the first
      examined candidate whose value equals `r.value` (a later equal value does not
      replace it). */
  ghost predicate PicksFirstBest(cs: seq<Pos>, t: seq<Ext>, r: Outcome, maximizing: bool)
  {
    |t| <= |cs| && (cs != [] ==> |t| > 0) &&
    (forall j :: 0 <= j < |t| ==> !Beats(t[j], r.value, maximizing)) &&
    (r.move.None? <==> r.value == (if maximizing then NegInf else PosInf)) &&
    (r.move.Some? ==> exists k :: 0 <= k < |t| && r.move == Some(cs[k]) && r.value == t[k] &&
                                  forall j :: 0 <= j < k ==> Beats(r.value, t[j], maximizing))
  }

  /** From the sentinel start, `Picked` is `PicksFirstBest`. */
  lemma PickedFromStart(cs: seq<Pos>, t: seq<Ext>, r: Outcome, maximizing: bool)
    requires |t| <= |cs| && (cs != [] ==> |t| > 0)
    requires Picked(cs, t, if maximizing then NegInf else PosInf, None, r, maximizing)
    ensures PicksFirstBest(cs, t, r, maximizing)
  {
    var sentinel := if maximizing then NegInf else PosInf;
    if r != Outcome(sentinel, None) {
      var k :| 0 <= k < |t| && k < |cs| && r.move == Some(cs[k]) && r.value == t[k] &&
               Beats(t[k], sentinel, maximizing) && forall j :: 0 <= j < k ==> Beats(t[k], t[j], maximizing);
      assert r.value != sentinel;
    }
  }

  lemma MaxLoopFromStartPicksFirstBest(g: seq<seq<int>>, depth: nat, cs: seq<Pos>, alpha: Ext, beta: Ext)
    requires IsGrid(g) && depth > 0 && OnBoard(cs)
    ensures PicksFirstBest(cs, MaxTrace(g, depth, cs, alpha, beta), MaxLoop(g, depth, cs, alpha, beta, NegInf, None), true)
  {
    MaxLoopPicksFirstBest(g, depth, cs, alpha, beta, NegInf, None);
    PickedFromStart(cs, MaxTrace(g, depth, cs, alpha, beta), MaxLoop(g, depth, cs, alpha, beta, NegInf, None), true);
  }

  lemma MinLoopFromStartPicksFirstBest(g: seq<seq<int>>, depth: nat, cs: seq<Pos>, alpha: Ext, beta: Ext)
    requires IsGrid(g) && depth > 0 && OnBoard(cs)
    ensures PicksFirstBest(cs, MinTrace(g, depth, cs, alpha, beta), MinLoop(g, depth, cs, alpha, beta, PosInf, None), false)
  {
    MinLoopPicksFirstBest(g, depth, cs, alpha, beta, PosInf, None);
    PickedFromStart(cs, MinTrace(g, depth, cs, alpha, beta), MinLoop(g, depth, cs, alpha, beta, PosInf, None), false);
  }

  /** The maximizing search returns the first candidate reaching the largest examined value. */
  lemma MaxSearchPicksFirstBest(g: seq<seq<int>>, depth: nat, alpha: Ext, beta: Ext)
    requires IsGrid(g) && !IsTerminal(g, depth)
    ensures PicksFirstBest(Candidates(g), MaxTrace(g, depth, Candidates(g), alpha, beta), Search(g, depth, alpha, beta, true), true)
  {
    assert Search(g, depth, alpha, beta, true) == MaxLoop(g, depth, Candidates(g), alpha, beta, NegInf, None);
    MaxLoopFromStartPicksFirstBest(g, depth, Candidates(g), alpha, beta);
  }

  /** The minimizing search returns the first candidate reaching the smallest examined value. */
  lemma MinSearchPicksFirstBest(g: seq<seq<int>>, depth: nat, alpha: Ext, beta: Ext)
    requires IsGrid(g) && !IsTerminal(g, depth)
    ensures PicksFirstBest(Candidates(g), MinTrace(g, depth, Candidates(g), alpha, beta), Search(g, depth, alpha, beta, false), false)
  {
    assert Search(g, depth, alpha, beta, false) == MinLoop(g, depth, Candidates(g), alpha, beta, PosInf, None);
    MinLoopFromStartPicksFirstBest(g, depth, Candidates(g), alpha, beta);
  }

  /** The move a search returns is a candidate: an empty cell near a stone. */
  lemma SearchMoveIsCandidate(g: seq<seq<int>>, depth: nat, alpha: Ext, beta: Ext, maximizing: bool)
    requires IsGrid(g)
    ensures var r := Search(g, depth, alpha, beta, maximizing);
      r.move.Some? ==> IsCandidate(g, r.move.value)
  {
    CandidatesAreNearEmptyCells(g);
    if !IsTerminal(g, depth) {
      if maximizing {
        MaxSearchPicksFirstBest(g, depth, alpha, beta);
      } else {
        MinSearchPicksFirstBest(g, depth, alpha, beta);
      }
    }
  }
}
