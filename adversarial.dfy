/** Adversarial search over an implicit game tree in which every inner node
    has `Branching` children (`minimax` and `alphabeta` in ai_concepts.js).
    A position is the sequence of child indices taken from the root; the
    leaf value is a pure function of the leaf's position. Scores live in the
    integers extended with the two infinities used as initial bounds. */
module Adversarial {

  /** Each inner node has two children: `for (var i = 0; i < 2; i++)`. */
  const Branching: nat := 2

  /** A score or bound: `-Infinity`, a finite value or `Infinity`. */
  datatype Bound = NegInf | Fin(n: int) | PosInf

  predicate Le(a: Bound, b: Bound) {
    match (a, b)
    case (NegInf, _) => true
    case (_, PosInf) => true
    case (Fin(x), Fin(y)) => x <= y
    case _ => false
  }

  predicate Lt(a: Bound, b: Bound) {
    !Le(b, a)
  }

  /** `Math.max` on extended integers. */
  function MaxB(a: Bound, b: Bound): (r: Bound)
    ensures Le(a, r) && Le(b, r) && (r == a || r == b)
  {
    if Le(a, b) then b else a
  }

  /** `Math.min` on extended integers. */
  function MinB(a: Bound, b: Bound): (r: Bound)
    ensures Le(r, a) && Le(r, b) && (r == a || r == b)
  {
    if Le(a, b) then a else b
  }

  /** The leaf value `evalFn()` at the leaf reached by `pos`. */
  type Leaf = seq<nat> -> int

  /** A sequence of `depth` child indices, each below `Branching`. */
  ghost predicate IsMoves(q: seq<nat>, depth: nat) {
    |q| == depth && forall j :: 0 <= j < |q| ==> q[j] < Branching
  }

  // ---------------------------------------------------------------------
  // minimax
  // ---------------------------------------------------------------------

  /** `minimax(depth, maximizing, evalFn)` at position `pos`: the leaf value
      at depth 0, otherwise the best child value for the player to move. */
  function Minimax(leaf: Leaf, depth: nat, maximizing: bool, pos: seq<nat>): (r: Bound)
    ensures r.Fin?
    decreases depth, 1
  {
    if depth == 0 then Fin(leaf(pos))
    else MinimaxLoop(leaf, depth, maximizing, pos, 0, if maximizing then NegInf else PosInf)
  }

  /** The `for` loop of `minimax` from child `i` on, with the running
      `best` (maximizing) or `worst` (minimizing) in `acc`. */
  function MinimaxLoop(leaf: Leaf, depth: nat, maximizing: bool, pos: seq<nat>, i: nat, acc: Bound): (r: Bound)
    requires 0 < depth && i <= Branching
    ensures acc.Fin? || (i < Branching && acc == (if maximizing then NegInf else PosInf)) ==> r.Fin?
    ensures maximizing ==> Le(acc, r)
    ensures !maximizing ==> Le(r, acc)
    decreases depth, 0, Branching - i
  {
    if i == Branching then acc
    else
      var c := Minimax(leaf, depth - 1, !maximizing, pos + [i]);
      MinimaxLoop(leaf, depth, maximizing, pos, i + 1, if maximizing then MaxB(acc, c) else MinB(acc, c))
  }

  /** The minimax value is the value of one of the leaves below `pos`. */
  lemma {:induction false} MinimaxAttained(leaf: Leaf, depth: nat, maximizing: bool, pos: seq<nat>)
    ensures exists q :: IsMoves(q, depth) && Minimax(leaf, depth, maximizing, pos) == Fin(leaf(pos + q))
    decreases depth, 1
  {
    if depth == 0 {
      assert IsMoves([], 0) && pos + [] == pos;
    } else {
      MinimaxLoopAttained(leaf, depth, maximizing, pos, 0, if maximizing then NegInf else PosInf);
    }
  }

  lemma {:induction false} MinimaxLoopAttained(leaf: Leaf, depth: nat, maximizing: bool, pos: seq<nat>,
                                               i: nat, acc: Bound)
    requires 0 < depth && i <= Branching
    ensures MinimaxLoop(leaf, depth, maximizing, pos, i, acc) == acc ||
            exists q :: IsMoves(q, depth) && MinimaxLoop(leaf, depth, maximizing, pos, i, acc) == Fin(leaf(pos + q))
    decreases depth, 0, Branching - i
  {
    if i < Branching {
      var c := Minimax(leaf, depth - 1, !maximizing, pos + [i]);
      var acc' := if maximizing then MaxB(acc, c) else MinB(acc, c);
      MinimaxLoopAttained(leaf, depth, maximizing, pos, i + 1, acc');
      if MinimaxLoop(leaf, depth, maximizing, pos, i + 1, acc') == acc' && acc' == c {
        MinimaxAttained(leaf, depth - 1, !maximizing, pos + [i]);
        var q :| IsMoves(q, depth - 1) && c == Fin(leaf(pos + [i] + q));
        assert IsMoves([i] + q, depth);
        assert pos + [i] + q == pos + ([i] + q);
      }
    }
  }

  // ---------------------------------------------------------------------
  // alphabeta
  // ---------------------------------------------------------------------

  /** `alphabeta(depth, alpha, beta, maximizing, evalFn)` at position `pos`. */
  function AlphaBeta(leaf: Leaf, depth: nat, alpha: Bound, beta: Bound, maximizing: bool, pos: seq<nat>): (r: Bound)
    ensures r.Fin?
    decreases depth, 1
  {
    if depth == 0 then Fin(leaf(pos))
    else AlphaBetaLoop(leaf, depth, alpha, beta, maximizing, pos, 0, if maximizing then NegInf else PosInf)
  }

  /** The `for` loop of `alphabeta` from child `i` on, with the running
      value `v` (maximizing) or `w` (minimizing) and the current window:
      each child is searched with the current bounds, the own bound is
      tightened, and the loop breaks once `beta <= alpha`. */
  function AlphaBetaLoop(leaf: Leaf, depth: nat, alpha: Bound, beta: Bound, maximizing: bool,
                         pos: seq<nat>, i: nat, v: Bound): (r: Bound)
    requires 0 < depth && i <= Branching
    ensures v.Fin? || (i < Branching && v == (if maximizing then NegInf else PosInf)) ==> r.Fin?
    ensures maximizing ==> Le(v, r)
    ensures !maximizing ==> Le(r, v)
    decreases depth, 0, Branching - i
  {
    if i == Branching then v
    else
      var c := AlphaBeta(leaf, depth - 1, alpha, beta, !maximizing, pos + [i]);
      if maximizing then
        var v' := MaxB(v, c);
        var alpha' := MaxB(alpha, v');
        if Le(beta, alpha') then v' else AlphaBetaLoop(leaf, depth, alpha', beta, maximizing, pos, i + 1, v')
      else
        var w' := MinB(v, c);
        var beta' := MinB(beta, w');
        if Le(beta', alpha) then w' else AlphaBetaLoop(leaf, depth, alpha, beta', maximizing, pos, i + 1, w')
  }

  /** Fail-soft agreement of `r` with the true value `m` in the window
      `(a, b)`: at or below `a` the result is an upper bound on `m` no larger
      than `a`; strictly inside the window it is `m`; at or above `b` it is a
      lower bound on `m` no smaller than `b`. */
  predicate Approx(r: Bound, m: Bound, a: Bound, b: Bound) {
    (Le(m, a) ==> Le(m, r) && Le(r, a)) &&
    (Lt(a, m) && Lt(m, b) ==> r == m) &&
    (Le(b, m) ==> Le(b, r) && Le(r, m))
  }

  /** Folding one more child into a maximizing node keeps the agreement. */
  lemma MaxStep(v: Bound, acc: Bound, c: Bound, m: Bound, a: Bound, b: Bound)
    requires Lt(a, b) && Approx(v, acc, a, b) && Lt(MaxB(a, v), b)
    requires Approx(c, m, MaxB(a, v), b)
    ensures Approx(MaxB(v, c), MaxB(acc, m), a, b)
  {
  }

  /** Folding one more child into a minimizing node keeps the agreement. */
  lemma MinStep(w: Bound, acc: Bound, c: Bound, m: Bound, a: Bound, b: Bound)
    requires Lt(a, b) && Approx(w, acc, a, b) && Lt(a, MinB(b, w))
    requires Approx(c, m, a, MinB(b, w))
    ensures Approx(MinB(w, c), MinB(acc, m), a, b)
  {
  }

  /** A maximizing node that breaks at `v >= b` returns a lower bound on its
      value: the remaining children can only raise it. */
  lemma CutoffHigh(v: Bound, acc: Bound, rest: Bound, a: Bound, b: Bound)
    requires Lt(a, b) && Approx(v, acc, a, b) && Le(b, v) && Le(acc, rest)
    ensures Approx(v, rest, a, b)
  {
  }

  /** A minimizing node that breaks at `w <= a` returns an upper bound on its
      value: the remaining children can only lower it. */
  lemma CutoffLow(w: Bound, acc: Bound, rest: Bound, a: Bound, b: Bound)
    requires Lt(a, b) && Approx(w, acc, a, b) && Le(w, a) && Le(rest, acc)
    ensures Approx(w, rest, a, b)
  {
  }

  /** Alpha-beta is a fail-soft version of minimax: inside any non-empty
      window its result agrees with the minimax value in the sense of
      `Approx`. */
  lemma {:induction false} AlphaBetaFailSoft(leaf: Leaf, depth: nat, alpha: Bound, beta: Bound,
                                             maximizing: bool, pos: seq<nat>)
    requires Lt(alpha, beta)
    ensures Approx(AlphaBeta(leaf, depth, alpha, beta, maximizing, pos),
                   Minimax(leaf, depth, maximizing, pos), alpha, beta)
    decreases depth, 1
  {
    if depth > 0 {
      var init := if maximizing then NegInf else PosInf;
      LoopFailSoft(leaf, depth, alpha, beta, maximizing, pos, 0, init, init, alpha, beta);
    }
  }

  /** The loop invariant behind `AlphaBetaFailSoft`: before child `i`, the
      running value `v` agrees with minimax's accumulator `acc` in the
      original window `(a, b)`, and the current window is that window
      tightened by `v`. */
  lemma {:induction false} LoopFailSoft(leaf: Leaf, depth: nat, alpha: Bound, beta: Bound, maximizing: bool,
                                        pos: seq<nat>, i: nat, v: Bound, acc: Bound, a: Bound, b: Bound)
    requires 0 < depth && i <= Branching && Lt(a, b) && Approx(v, acc, a, b)
    requires maximizing ==> beta == b && alpha == MaxB(a, v) && Lt(alpha, beta)
    requires !maximizing ==> alpha == a && beta == MinB(b, v) && Lt(alpha, beta)
    ensures Approx(AlphaBetaLoop(leaf, depth, alpha, beta, maximizing, pos, i, v),
                   MinimaxLoop(leaf, depth, maximizing, pos, i, acc), a, b)
    decreases depth, 0, Branching - i, 2
  {
    if i < Branching {
      if maximizing {
        MaxLoopFailSoft(leaf, depth, alpha, pos, i, v, acc, a, b);
      } else {
        MinLoopFailSoft(leaf, depth, beta, pos, i, v, acc, a, b);
      }
    }
  }

  lemma {:induction false} MaxLoopFailSoft(leaf: Leaf, depth: nat, alpha: Bound, pos: seq<nat>,
                                           i: nat, v: Bound, acc: Bound, a: Bound, b: Bound)
    requires 0 < depth && i < Branching && Lt(a, b) && Approx(v, acc, a, b)
    requires alpha == MaxB(a, v) && Lt(alpha, b)
    ensures Approx(AlphaBetaLoop(leaf, depth, alpha, b, true, pos, i, v),
                   MinimaxLoop(leaf, depth, true, pos, i, acc), a, b)
    decreases depth, 0, Branching - i, 1
  {
    var c := AlphaBeta(leaf, depth - 1, alpha, b, false, pos + [i]);
    var m := Minimax(leaf, depth - 1, false, pos + [i]);
    AlphaBetaFailSoft(leaf, depth - 1, alpha, b, false, pos + [i]);
    var v' := MaxB(v, c);
    var acc' := MaxB(acc, m);
    MaxStep(v, acc, c, m, a, b);
    MaxLoopNext(leaf, depth, alpha, pos, i, v, acc, a, b);
  }

  /** After folding child `i` into a maximizing node: either the loop breaks
      and the running value is returned, or it goes on with the raised
      alpha. */
  lemma {:induction false} MaxLoopNext(leaf: Leaf, depth: nat, alpha: Bound, pos: seq<nat>,
                                       i: nat, v: Bound, acc: Bound, a: Bound, b: Bound)
    requires 0 < depth && i < Branching && Lt(a, b) && alpha == MaxB(a, v) && Lt(alpha, b)
    requires Approx(MaxB(v, AlphaBeta(leaf, depth - 1, alpha, b, false, pos + [i])),
                    MaxB(acc, Minimax(leaf, depth - 1, false, pos + [i])), a, b)
    ensures Approx(AlphaBetaLoop(leaf, depth, alpha, b, true, pos, i, v),
                   MinimaxLoop(leaf, depth, true, pos, i, acc), a, b)
    decreases depth, 0, Branching - i, 0
  {
    var v' := MaxB(v, AlphaBeta(leaf, depth - 1, alpha, b, false, pos + [i]));
    var acc' := MaxB(acc, Minimax(leaf, depth - 1, false, pos + [i]));
    if Le(b, MaxB(alpha, v')) {
      CutoffHigh(v', acc', MinimaxLoop(leaf, depth, true, pos, i + 1, acc'), a, b);
    } else {
      assert MaxB(alpha, v') == MaxB(a, v');
      LoopFailSoft(leaf, depth, MaxB(alpha, v'), b, true, pos, i + 1, v', acc', a, b);
    }
  }

  lemma {:induction false} MinLoopFailSoft(leaf: Leaf, depth: nat, beta: Bound, pos: seq<nat>,
                                           i: nat, w: Bound, acc: Bound, a: Bound, b: Bound)
    requires 0 < depth && i < Branching && Lt(a, b) && Approx(w, acc, a, b)
    requires beta == MinB(b, w) && Lt(a, beta)
    ensures Approx(AlphaBetaLoop(leaf, depth, a, beta, false, pos, i, w),
                   MinimaxLoop(leaf, depth, false, pos, i, acc), a, b)
    decreases depth, 0, Branching - i, 1
  {
    var c := AlphaBeta(leaf, depth - 1, a, beta, true, pos + [i]);
    var m := Minimax(leaf, depth - 1, true, pos + [i]);
    AlphaBetaFailSoft(leaf, depth - 1, a, beta, true, pos + [i]);
    var w' := MinB(w, c);
    var acc' := MinB(acc, m);
    MinStep(w, acc, c, m, a, b);
    MinLoopNext(leaf, depth, beta, pos, i, w, acc, a, b);
  }

  /** After folding child `i` into a minimizing node: either the loop breaks
      and the running value is returned, or it goes on with the lowered
      beta. */
  lemma {:induction false} MinLoopNext(leaf: Leaf, depth: nat, beta: Bound, pos: seq<nat>,
                                       i: nat, w: Bound, acc: Bound, a: Bound, b: Bound)
    requires 0 < depth && i < Branching && Lt(a, b) && beta == MinB(b, w) && Lt(a, beta)
    requires Approx(MinB(w, AlphaBeta(leaf, depth - 1, a, beta, true, pos + [i])),
                    MinB(acc, Minimax(leaf, depth - 1, true, pos + [i])), a, b)
    ensures Approx(AlphaBetaLoop(leaf, depth, a, beta, false, pos, i, w),
                   MinimaxLoop(leaf, depth, false, pos, i, acc), a, b)
    decreases depth, 0, Branching - i, 0
  {
    var w' := MinB(w, AlphaBeta(leaf, depth - 1, a, beta, true, pos + [i]));
    var acc' := MinB(acc, Minimax(leaf, depth - 1, true, pos + [i]));
    if Le(MinB(beta, w'), a) {
      CutoffLow(w', acc', MinimaxLoop(leaf, depth, false, pos, i + 1, acc'), a, b);
    } else {
      assert MinB(beta, w') == MinB(b, w');
      LoopFailSoft(leaf, depth, a, MinB(beta, w'), false, pos, i + 1, w', acc', a, b);
    }
  }

  /** Called with the full window `(-Infinity, Infinity)`, alphabeta returns
      exactly the minimax value. */
  lemma AlphaBetaFullWindow(leaf: Leaf, depth: nat, maximizing: bool, pos: seq<nat>)
    ensures AlphaBeta(leaf, depth, NegInf, PosInf, maximizing, pos) == Minimax(leaf, depth, maximizing, pos)
  {
    AlphaBetaFailSoft(leaf, depth, NegInf, PosInf, maximizing, pos);
  }
}
