/** Uniform-cost search and A* (`ucs` and `astar` in ai_concepts.js). Both
    keep a frontier of entries `[key, g, path]`, always take the first entry
    of smallest key, and relax every successor through a map `best` of the
    cheapest known path cost per node, pushing a new entry only when it
    strictly improves on `best`. They differ only in the key: `g` for ucs and
    `g + heuristic(node, goal)` for astar, so one loop models both. */
module CostSearch {
  import opened Wrappers
  import opened Graph
  import opened GraphSearch

  /** A frontier entry: `[g, path]` in ucs (whose key is `g`) and
      `[f, g, path]` in astar. */
  datatype Entry = Entry(key: int, g: nat, path: seq<Node>)

  // ---------------------------------------------------------------------
  // Termination measure: the sum of `best` over its keys
  // ---------------------------------------------------------------------

  /** Sum of `best` over the nodes listed in `dom` (a node without a `best` counts 0). */
  ghost function SumAt(best: map<Node, nat>, dom: seq<Node>): nat
  {
    if dom == [] then 0 else (if dom[0] in best then best[dom[0]] else 0) + SumAt(best, dom[1..])
  }

  /** Lowering `best` at one listed node lowers the sum by the same amount. */
  lemma {:induction false} SumAtUpdate(best: map<Node, nat>, dom: seq<Node>, v: Node, x: nat)
    requires Distinct(dom) && v in dom && v in best
    ensures SumAt(best[v := x], dom) + best[v] == SumAt(best, dom) + x
  {
    if dom[0] == v {
      SumAtSame(best, dom[1..], v, x);
    } else {
      SumAtUpdate(best, dom[1..], v, x);
    }
  }

  lemma {:induction false} SumAtSame(best: map<Node, nat>, dom: seq<Node>, v: Node, x: nat)
    requires v !in dom
    ensures SumAt(best[v := x], dom) == SumAt(best, dom)
  {
    if dom != [] {
      SumAtSame(best, dom[1..], v, x);
    }
  }

  // ---------------------------------------------------------------------
  // Relaxation of the successors of one popped entry
  // ---------------------------------------------------------------------

  /** Some entry of `pq` from index `lo` on ends at `v` and has cost `gv`. */
  ghost predicate HasEntry(pq: seq<Entry>, lo: nat, v: Node, gv: nat) {
    exists j :: lo <= j < |pq| && |pq[j].path| > 0 && Last(pq[j].path) == v && pq[j].g == gv
  }

  /** `e` is the entry pushed for a successor of `path`'s end:
      `[key(nb, ng), ng, path.concat([nb])]` with `ng = g + cost(n, nb)`. */
  ghost predicate Pushed(g: Graph, keyOf: (Node, nat) -> int, path: seq<Node>, gval: nat,
                         seen: seq<Node>, e: Entry)
  {
    |path| > 0 && |e.path| == |path| + 1 && e.path == path + [Last(e.path)] &&
    Last(e.path) in seen &&
    e.g == gval + g.cost(Last(path), Last(e.path)) && e.key == keyOf(Last(e.path), e.g)
  }

  /** The frontier part of a relaxation: entries are only appended, one
      per improving successor in `seen`, each strictly below the `best` it
      found. */
  ghost predicate RelaxedQueue(g: Graph, keyOf: (Node, nat) -> int, path: seq<Node>, gval: nat,
                               seen: seq<Node>, pq: seq<Entry>, best: map<Node, nat>, pq': seq<Entry>)
  {
    |path| > 0 &&
    |pq'| >= |pq| && pq'[..|pq|] == pq &&
    (forall j :: |pq| <= j < |pq'| ==> Pushed(g, keyOf, path, gval, seen, pq'[j])) &&
    (forall j :: |pq| <= j < |pq'| ==>
       Last(pq'[j].path) !in best || pq'[j].g < best[Last(pq'[j].path)])
  }

  /** The `best` part: it only gains keys (successors in `seen`) and only
      decreases, and every successor ends up with `best[nb] <= gval + cost`. */
  ghost predicate RelaxedBest(g: Graph, path: seq<Node>, gval: nat, seen: seq<Node>,
                              best: map<Node, nat>, best': map<Node, nat>)
  {
    |path| > 0 &&
    (forall v :: v in best ==> v in best' && best'[v] <= best[v]) &&
    (forall v :: v in best' ==> v in best || v in seen) &&
    (forall nb :: nb in seen ==> nb in best' && best'[nb] <= gval + g.cost(Last(path), nb))
  }

  /** Every node whose `best` changed has a new entry at its new cost. */
  ghost predicate RelaxedFresh(pq: seq<Entry>, best: map<Node, nat>, pq': seq<Entry>, best': map<Node, nat>) {
    forall v :: v in best' ==> (v in best && best'[v] == best[v]) || HasEntry(pq', |pq|, v, best'[v])
  }

  /** `dom'` lists the keys of `best'` once each; either a key was added or
      the sum of `best` fell by at least the number of entries pushed. */
  ghost predicate RelaxedMeasure(pq: seq<Entry>, best: map<Node, nat>, dom: seq<Node>,
                                 pq': seq<Entry>, best': map<Node, nat>, dom': seq<Node>)
  {
    (forall v :: v in dom' <==> v in best') && Distinct(dom') && |pq'| >= |pq| &&
    ((exists v :: v in best' && v !in best) ||
     ((forall v :: v in dom <==> v in best') && dom' == dom && SumAt(best', dom) + (|pq'| - |pq|) <= SumAt(best, dom)))
  }

  /** What relaxing the successors `seen` of the end of `path`, reached at
      cost `gval`, makes of the frontier `pq`, the map `best` and its key
      list `dom`. */
  ghost predicate Relaxed(g: Graph, keyOf: (Node, nat) -> int, path: seq<Node>, gval: nat,
                          seen: seq<Node>,
                          pq: seq<Entry>, best: map<Node, nat>, dom: seq<Node>,
                          pq': seq<Entry>, best': map<Node, nat>, dom': seq<Node>)
  {
    RelaxedQueue(g, keyOf, path, gval, seen, pq, best, pq') &&
    RelaxedBest(g, path, gval, seen, best, best') &&
    RelaxedFresh(pq, best, pq', best') &&
    RelaxedMeasure(pq, best, dom, pq', best', dom')
  }

  /** The effect of relaxing one successor `nb`: when `nb` has no `best` yet
      or `ng` beats it, `best[nb] := ng` and the entry for `path + [nb]` is
      pushed; otherwise nothing changes. */
  ghost predicate RelaxedOne(g: Graph, keyOf: (Node, nat) -> int, path: seq<Node>, gval: nat, nb: Node,
                             pq1: seq<Entry>, best1: map<Node, nat>, dom1: seq<Node>,
                             pq2: seq<Entry>, best2: map<Node, nat>, dom2: seq<Node>)
  {
    |path| > 0 &&
    var ng := gval + g.cost(Last(path), nb);
    if nb !in best1 || ng < best1[nb] then
      best2 == best1[nb := ng] && pq2 == pq1 + [Entry(keyOf(nb, ng), ng, path + [nb])] &&
      dom2 == (if nb in best1 then dom1 else dom1 + [nb])
    else
      best2 == best1 && pq2 == pq1 && dom2 == dom1
  }

  lemma RelaxStepQueue(g: Graph, keyOf: (Node, nat) -> int, path: seq<Node>, gval: nat,
                       seen: seq<Node>, nb: Node, pq: seq<Entry>, best: map<Node, nat>,
                       pq1: seq<Entry>, best1: map<Node, nat>, dom1: seq<Node>,
                       pq2: seq<Entry>, best2: map<Node, nat>, dom2: seq<Node>)
    requires RelaxedQueue(g, keyOf, path, gval, seen, pq, best, pq1)
    requires forall v :: v in best ==> v in best1 && best1[v] <= best[v]
    requires RelaxedOne(g, keyOf, path, gval, nb, pq1, best1, dom1, pq2, best2, dom2)
    ensures RelaxedQueue(g, keyOf, path, gval, seen + [nb], pq, best, pq2)
  {
    var seen' := seen + [nb];
    assert forall u :: u in seen ==> u in seen';
    if pq2 != pq1 {
      assert pq2[..|pq|] == pq1[..|pq|];
      forall j | |pq| <= j < |pq2|
        ensures Pushed(g, keyOf, path, gval, seen', pq2[j]) &&
                (Last(pq2[j].path) !in best || pq2[j].g < best[Last(pq2[j].path)])
      {
        if j < |pq1| {
          assert pq2[j] == pq1[j];
        } else {
          assert Last(pq2[j].path) == nb;
        }
      }
    }
  }

  lemma RelaxStepBest(g: Graph, keyOf: (Node, nat) -> int, path: seq<Node>, gval: nat,
                      seen: seq<Node>, nb: Node, best: map<Node, nat>,
                      pq1: seq<Entry>, best1: map<Node, nat>, dom1: seq<Node>,
                      pq2: seq<Entry>, best2: map<Node, nat>, dom2: seq<Node>)
    requires RelaxedBest(g, path, gval, seen, best, best1)
    requires RelaxedOne(g, keyOf, path, gval, nb, pq1, best1, dom1, pq2, best2, dom2)
    ensures RelaxedBest(g, path, gval, seen + [nb], best, best2)
  {
    var seen' := seen + [nb];
    assert forall u :: u in seen ==> u in seen';
  }

  lemma RelaxStepFresh(g: Graph, keyOf: (Node, nat) -> int, path: seq<Node>, gval: nat,
                       nb: Node, pq: seq<Entry>, best: map<Node, nat>,
                       pq1: seq<Entry>, best1: map<Node, nat>, dom1: seq<Node>,
                       pq2: seq<Entry>, best2: map<Node, nat>, dom2: seq<Node>)
    requires RelaxedFresh(pq, best, pq1, best1) && |pq1| >= |pq|
    requires RelaxedOne(g, keyOf, path, gval, nb, pq1, best1, dom1, pq2, best2, dom2)
    ensures RelaxedFresh(pq, best, pq2, best2)
  {
    if pq2 != pq1 {
      forall v | v in best2
        ensures (v in best && best2[v] == best[v]) || HasEntry(pq2, |pq|, v, best2[v])
      {
        if v == nb {
          assert Last(pq2[|pq1|].path) == nb;
        } else if !(v in best && best2[v] == best[v]) {
          var j :| |pq| <= j < |pq1| && |pq1[j].path| > 0 && Last(pq1[j].path) == v && pq1[j].g == best1[v];
          assert pq2[j] == pq1[j];
        }
      }
    }
  }

  lemma RelaxStepMeasure(g: Graph, keyOf: (Node, nat) -> int, path: seq<Node>, gval: nat,
                         nb: Node, pq: seq<Entry>, best: map<Node, nat>, dom: seq<Node>,
                         pq1: seq<Entry>, best1: map<Node, nat>, dom1: seq<Node>,
                         pq2: seq<Entry>, best2: map<Node, nat>, dom2: seq<Node>)
    requires forall v :: v in best ==> v in best1
    requires RelaxedMeasure(pq, best, dom, pq1, best1, dom1)
    requires RelaxedOne(g, keyOf, path, gval, nb, pq1, best1, dom1, pq2, best2, dom2)
    ensures RelaxedMeasure(pq, best, dom, pq2, best2, dom2)
  {
    var ng := gval + g.cost(Last(path), nb);
    if nb !in best1 {
      MeasureFresh(pq, best, dom, pq1, best1, dom1, pq2, best2, dom2, nb, ng);
    } else if ng < best1[nb] {
      if exists v :: v in best1 && v !in best {
        MeasureGrown(pq, best, dom, pq1, best1, dom1, pq2, best2, dom2, nb, ng);
      } else {
        MeasureLower(pq, best, dom, pq1, best1, pq2, best2, nb, ng);
      }
    }
  }

  /** Adding a node that was not in `best` marks the measure as fallen. */
  lemma MeasureFresh(pq: seq<Entry>, best: map<Node, nat>, dom: seq<Node>,
                     pq1: seq<Entry>, best1: map<Node, nat>, dom1: seq<Node>,
                     pq2: seq<Entry>, best2: map<Node, nat>, dom2: seq<Node>, nb: Node, x: nat)
    requires forall v :: v in best ==> v in best1
    requires (forall v :: v in dom1 <==> v in best1) && Distinct(dom1) && |pq1| >= |pq|
    requires nb !in best1 && best2 == best1[nb := x] && dom2 == dom1 + [nb] && |pq2| == |pq1| + 1
    ensures RelaxedMeasure(pq, best, dom, pq2, best2, dom2)
  {
    assert nb in best2 && nb !in best;
  }

  /** Once a node outside the old `best` has been added, lowering another
      key keeps the measure fallen. */
  lemma MeasureGrown(pq: seq<Entry>, best: map<Node, nat>, dom: seq<Node>,
                     pq1: seq<Entry>, best1: map<Node, nat>, dom1: seq<Node>,
                     pq2: seq<Entry>, best2: map<Node, nat>, dom2: seq<Node>, nb: Node, x: nat)
    requires (forall v :: v in dom1 <==> v in best1) && Distinct(dom1) && |pq1| >= |pq|
    requires exists v :: v in best1 && v !in best
    requires nb in best1 && best2 == best1[nb := x] && dom2 == dom1 && |pq2| == |pq1| + 1
    ensures RelaxedMeasure(pq, best, dom, pq2, best2, dom2)
  {
    var w :| w in best1 && w !in best;
    assert w in best2;
  }

  /** Lowering an existing key of `best` by a pushed entry keeps the sum
      bound. */
  lemma MeasureLower(pq: seq<Entry>, best: map<Node, nat>, dom: seq<Node>,
                     pq1: seq<Entry>, best1: map<Node, nat>, pq2: seq<Entry>, best2: map<Node, nat>,
                     nb: Node, x: nat)
    requires (forall v :: v in dom <==> v in best1) && (forall v :: v in best1 ==> v in best)
    requires Distinct(dom) && |pq1| >= |pq|
    requires SumAt(best1, dom) + (|pq1| - |pq|) <= SumAt(best, dom)
    requires nb in best1 && x < best1[nb] && best2 == best1[nb := x] && |pq2| == |pq1| + 1
    ensures (forall v :: v in dom <==> v in best2)
    ensures SumAt(best2, dom) + (|pq2| - |pq|) <= SumAt(best, dom)
  {
    SumAtUpdate(best1, dom, nb, x);
  }

  /** Relaxing one more successor `nb` keeps `Relaxed`, whether or not it
      improves on `best`. */
  lemma RelaxStep(g: Graph, keyOf: (Node, nat) -> int, path: seq<Node>, gval: nat,
                  seen: seq<Node>, nb: Node,
                  pq: seq<Entry>, best: map<Node, nat>, dom: seq<Node>,
                  pq1: seq<Entry>, best1: map<Node, nat>, dom1: seq<Node>,
                  pq2: seq<Entry>, best2: map<Node, nat>, dom2: seq<Node>)
    requires Relaxed(g, keyOf, path, gval, seen, pq, best, dom, pq1, best1, dom1)
    requires RelaxedOne(g, keyOf, path, gval, nb, pq1, best1, dom1, pq2, best2, dom2)
    ensures Relaxed(g, keyOf, path, gval, seen + [nb], pq, best, dom, pq2, best2, dom2)
  {
    RelaxStepQueue(g, keyOf, path, gval, seen, nb, pq, best, pq1, best1, dom1, pq2, best2, dom2);
    RelaxStepBest(g, keyOf, path, gval, seen, nb, best, pq1, best1, dom1, pq2, best2, dom2);
    RelaxStepFresh(g, keyOf, path, gval, nb, pq, best, pq1, best1, dom1, pq2, best2, dom2);
    RelaxStepMeasure(g, keyOf, path, gval, nb, pq, best, dom, pq1, best1, dom1, pq2, best2, dom2);
  }

  /** The body of that `forEach` for one successor `nb`. */
  method RelaxOne(g: Graph, keyOf: (Node, nat) -> int, path: seq<Node>, gval: nat, nb: Node,
                  pq: seq<Entry>, best: map<Node, nat>, ghost dom: seq<Node>)
    returns (pq': seq<Entry>, best': map<Node, nat>, ghost dom': seq<Node>)
    requires |path| > 0
    ensures RelaxedOne(g, keyOf, path, gval, nb, pq, best, dom, pq', best', dom')
  {
    var ng := gval + g.cost(path[|path| - 1], nb);
    pq', best', dom' := pq, best, dom;
    if nb !in best || ng < best[nb] {
      if nb !in best {
        dom' := dom + [nb];
      }
      best' := best[nb := ng];
      pq' := pq + [Entry(keyOf(nb, ng), ng, path + [nb])];
    }
  }

  /** The `forEach` of ucs and astar over `graph.edges[n]||[]`: for each
      successor `nb`, `ng = g + cost(n, nb)`; when `nb` has no `best` yet or
      `ng` beats it, `best[nb] := ng` and a new entry for `path + [nb]` is
      pushed. */
  method Relax(g: Graph, keyOf: (Node, nat) -> int, path: seq<Node>, gval: nat,
               pq: seq<Entry>, best: map<Node, nat>, ghost dom: seq<Node>)
    returns (pq': seq<Entry>, best': map<Node, nat>, ghost dom': seq<Node>)
    requires |path| > 0 && (forall v :: v in dom <==> v in best) && Distinct(dom)
    ensures Relaxed(g, keyOf, path, gval, Succ(g, Last(path)), pq, best, dom, pq', best', dom')
  {
    var n := path[|path| - 1];
    var succ := Succ(g, n);
    pq', best', dom' := pq, best, dom;
    var i := 0;
    ghost var seen: seq<Node> := [];
    while i < |succ|
      invariant 0 <= i <= |succ| && seen == succ[..i]
      invariant Relaxed(g, keyOf, path, gval, seen, pq, best, dom, pq', best', dom')
    {
      var nb := succ[i];
      ghost var pq1, best1, dom1 := pq', best', dom';
      pq', best', dom' := RelaxOne(g, keyOf, path, gval, nb, pq', best', dom');
      RelaxStep(g, keyOf, path, gval, seen, nb, pq, best, dom, pq1, best1, dom1, pq', best', dom');
      TakeNext(succ, i);
      seen := seen + [nb];
      i := i + 1;
    }
    assert succ[..i] == succ;
  }

  // ---------------------------------------------------------------------
  // The search loop
  // ---------------------------------------------------------------------

  /** Every successor of `v` has a `best` no worse than through `v`. */
  ghost predicate Settled(g: Graph, best: map<Node, nat>, v: Node)
    requires v in best
  {
    forall nb :: nb in Succ(g, v) ==> nb in best && best[nb] <= best[v] + g.cost(v, nb)
  }

  /** A frontier entry is a path from `start` whose `g` is its cost, whose
      key is `keyOf` of its end and cost, and whose end has a `best` no
      larger than `g`. */
  ghost predicate ValidEntry(g: Graph, start: Node, keyOf: (Node, nat) -> int,
                             best: map<Node, nat>, e: Entry)
  {
    IsPathFrom(g, start, e.path) && e.g == PathCost(g, e.path) &&
    e.key == keyOf(Last(e.path), e.g) &&
    Last(e.path) in best && best[Last(e.path)] <= e.g
  }

  /** The loop invariant of ucs and astar. `expanded` holds the popped nodes;
      each node with a `best` either still has a frontier entry at exactly
      that cost or has been expanded and is settled; the goal has not been
      expanded. */
  ghost predicate CostInv(g: Graph, start: Node, goal: Node, keyOf: (Node, nat) -> int,
                          nodes: set<Node>, pq: seq<Entry>, best: map<Node, nat>,
                          dom: seq<Node>, expanded: set<Node>)
  {
    (forall v :: v in dom <==> v in best) && Distinct(dom) &&
    (forall v :: v in best ==> v in nodes) &&
    start in best && best[start] == 0 && goal !in expanded &&
    (forall i :: 0 <= i < |pq| ==> ValidEntry(g, start, keyOf, best, pq[i])) &&
    (forall v :: v in best ==> HasEntry(pq, 0, v, best[v]) || (v in expanded && Settled(g, best, v)))
  }

  /** Following any path from `start` through settled nodes, some node on it
      still has a frontier entry no more expensive than the path's prefix up
      to that node. */
  lemma {:induction false} FrontierWitness(g: Graph, start: Node, goal: Node,
                                           keyOf: (Node, nat) -> int, nodes: set<Node>,
                                           pq: seq<Entry>, best: map<Node, nat>, dom: seq<Node>,
                                           expanded: set<Node>, p: seq<Node>, i: nat)
    requires CostInv(g, start, goal, keyOf, nodes, pq, best, dom, expanded)
    requires Connects(g, start, goal, p) && i < |p|
    requires p[i] in best && best[p[i]] <= PathCost(g, p[..i + 1])
    ensures exists k, j :: i <= k < |p| && 0 <= j < |pq| && |pq[j].path| > 0 && Last(pq[j].path) == p[k] &&
                           pq[j].g <= PathCost(g, p[..k + 1])
    decreases |p| - i
  {
    var v := p[i];
    if HasEntry(pq, 0, v, best[v]) {
      var j :| 0 <= j < |pq| && |pq[j].path| > 0 && Last(pq[j].path) == v && pq[j].g == best[v];
    } else {
      var nb := p[i + 1];
      assert nb in Succ(g, v);
      ExtendPath(g, p[..i + 1], nb);
      assert p[..i + 1] + [nb] == p[..i + 2];
      FrontierWitness(g, start, goal, keyOf, nodes, pq, best, dom, expanded, p, i + 1);
    }
  }

  /** Every path from `start` to `goal` passes a node whose key, at some
      cost no larger than the path's prefix up to that node, is at least
      `key`. */
  ghost predicate KeyBounded(g: Graph, start: Node, goal: Node, keyOf: (Node, nat) -> int, key: int) {
    forall p :: Connects(g, start, goal, p) ==>
      exists i, d: nat :: 0 <= i < |p| && d <= PathCost(g, p[..i + 1]) && key <= keyOf(p[i], d)
  }

  /** The goal at a minimal-key position: its key is no larger than the key
      of some node of any path to the goal, at a cost no larger than the
      path's prefix up to that node. */
  lemma CostFound(g: Graph, start: Node, goal: Node, keyOf: (Node, nat) -> int, nodes: set<Node>,
                  pq: seq<Entry>, best: map<Node, nat>, dom: seq<Node>, expanded: set<Node>, k: nat)
    requires CostInv(g, start, goal, keyOf, nodes, pq, best, dom, expanded)
    requires k < |pq| && Last(pq[k].path) == goal
    requires forall i :: 0 <= i < |pq| ==> pq[k].key <= pq[i].key
    ensures Connects(g, start, goal, pq[k].path)
    ensures KeyBounded(g, start, goal, keyOf, keyOf(goal, PathCost(g, pq[k].path)))
  {
    assert ValidEntry(g, start, keyOf, best, pq[k]);
    forall p | Connects(g, start, goal, p)
      ensures exists i, d: nat :: 0 <= i < |p| && d <= PathCost(g, p[..i + 1]) &&
                                  keyOf(goal, PathCost(g, pq[k].path)) <= keyOf(p[i], d)
    {
      assert p[..1] == [start];
      FrontierWitness(g, start, goal, keyOf, nodes, pq, best, dom, expanded, p, 0);
      KeyBound(g, start, goal, keyOf, best, pq, k, p);
    }
  }

  /** A frontier entry on `p` that is no more expensive than `p`'s prefix
      bounds the minimal key from above. */
  lemma KeyBound(g: Graph, start: Node, goal: Node, keyOf: (Node, nat) -> int,
                 best: map<Node, nat>, pq: seq<Entry>, k: nat, p: seq<Node>)
    requires forall i :: 0 <= i < |pq| ==> ValidEntry(g, start, keyOf, best, pq[i])
    requires k < |pq| && |pq[k].path| > 0 && Last(pq[k].path) == goal
    requires forall i :: 0 <= i < |pq| ==> pq[k].key <= pq[i].key
    requires exists i, j :: 0 <= i < |p| && 0 <= j < |pq| && |pq[j].path| > 0 && Last(pq[j].path) == p[i] &&
                            pq[j].g <= PathCost(g, p[..i + 1])
    ensures exists i, d: nat :: 0 <= i < |p| && d <= PathCost(g, p[..i + 1]) &&
                                keyOf(goal, PathCost(g, pq[k].path)) <= keyOf(p[i], d)
  {
    var i, j :| 0 <= i < |p| && 0 <= j < |pq| && |pq[j].path| > 0 && Last(pq[j].path) == p[i] &&
                pq[j].g <= PathCost(g, p[..i + 1]);
    assert ValidEntry(g, start, keyOf, best, pq[j]);
    assert ValidEntry(g, start, keyOf, best, pq[k]);
  }

  /** An empty frontier means the goal is unreachable. */
  lemma CostExhausted(g: Graph, start: Node, goal: Node, keyOf: (Node, nat) -> int, nodes: set<Node>,
                      best: map<Node, nat>, dom: seq<Node>, expanded: set<Node>)
    requires CostInv(g, start, goal, keyOf, nodes, [], best, dom, expanded)
    ensures !Reachable(g, start, goal)
  {
    forall p | Connects(g, start, goal, p) ensures false {
      assert p[..1] == [start];
      FrontierWitness(g, start, goal, keyOf, nodes, [], best, dom, expanded, p, 0);
    }
  }

  lemma StepEntries(g: Graph, start: Node, keyOf: (Node, nat) -> int,
                    pq: seq<Entry>, best: map<Node, nat>, k: nat, dom: seq<Node>,
                    pq': seq<Entry>, best': map<Node, nat>, dom': seq<Node>)
    requires k < |pq| && forall i :: 0 <= i < |pq| ==> ValidEntry(g, start, keyOf, best, pq[i])
    requires |pq[k].path| > 0
    requires Relaxed(g, keyOf, pq[k].path, pq[k].g, Succ(g, Last(pq[k].path)),
                     pq[..k] + pq[k + 1..], best, dom, pq', best', dom')
    ensures forall i :: 0 <= i < |pq'| ==> ValidEntry(g, start, keyOf, best', pq'[i])
  {
    var path := pq[k].path;
    var rest := pq[..k] + pq[k + 1..];
    assert ValidEntry(g, start, keyOf, best, pq[k]);
    forall i | 0 <= i < |pq'| ensures ValidEntry(g, start, keyOf, best', pq'[i]) {
      if i < |rest| {
        assert pq'[i] == rest[i];
        if i < k {
          assert rest[i] == pq[i];
        } else {
          assert rest[i] == pq[i + 1];
        }
      } else {
        var nb := Last(pq'[i].path);
        assert Pushed(g, keyOf, path, pq[k].g, Succ(g, Last(path)), pq'[i]);
        ExtendPath(g, path, nb);
      }
    }
  }

  lemma StepCover(g: Graph, start: Node, goal: Node, keyOf: (Node, nat) -> int, nodes: set<Node>,
                  pq: seq<Entry>, best: map<Node, nat>, dom: seq<Node>, expanded: set<Node>, k: nat,
                  pq': seq<Entry>, best': map<Node, nat>, dom': seq<Node>)
    requires CostInv(g, start, goal, keyOf, nodes, pq, best, dom, expanded) && k < |pq|
    requires Relaxed(g, keyOf, pq[k].path, pq[k].g, Succ(g, Last(pq[k].path)),
                     pq[..k] + pq[k + 1..], best, dom, pq', best', dom')
    ensures forall v :: v in best' ==>
              HasEntry(pq', 0, v, best'[v]) ||
              (v in expanded + {Last(pq[k].path)} && Settled(g, best', v))
  {
    forall v | v in best'
      ensures HasEntry(pq', 0, v, best'[v]) || (v in expanded + {Last(pq[k].path)} && Settled(g, best', v))
    {
      StepCoverAt(g, start, goal, keyOf, nodes, pq, best, dom, expanded, k, pq', best', dom', v);
    }
  }

  /** `StepCover` for one node `v`. */
  lemma StepCoverAt(g: Graph, start: Node, goal: Node, keyOf: (Node, nat) -> int, nodes: set<Node>,
                    pq: seq<Entry>, best: map<Node, nat>, dom: seq<Node>, expanded: set<Node>, k: nat,
                    pq': seq<Entry>, best': map<Node, nat>, dom': seq<Node>, v: Node)
    requires CostInv(g, start, goal, keyOf, nodes, pq, best, dom, expanded) && k < |pq|
    requires Relaxed(g, keyOf, pq[k].path, pq[k].g, Succ(g, Last(pq[k].path)),
                     pq[..k] + pq[k + 1..], best, dom, pq', best', dom')
    requires v in best'
    ensures HasEntry(pq', 0, v, best'[v]) || (v in expanded + {Last(pq[k].path)} && Settled(g, best', v))
  {
    var rest := pq[..k] + pq[k + 1..];
    if !HasEntry(pq', |rest|, v, best'[v]) {
      assert v in best && best'[v] == best[v];
      if HasEntry(pq, 0, v, best[v]) {
        var i :| 0 <= i < |pq| && |pq[i].path| > 0 && Last(pq[i].path) == v && pq[i].g == best[v];
        if i != k {
          KeptEntry(pq, k, pq', i, v, best[v]);
        } else {
          PoppedSettled(g, pq[k].path, pq[k].g, best, best', v);
        }
      } else {
        SettledStays(g, best, best', v);
      }
    }
  }

  /** An entry other than the popped one is still in the frontier after
      relaxation. */
  lemma KeptEntry(pq: seq<Entry>, k: nat, pq': seq<Entry>, i: nat, v: Node, gv: nat)
    requires k < |pq| && i < |pq| && i != k && |pq[i].path| > 0 && Last(pq[i].path) == v && pq[i].g == gv
    requires |pq'| >= |pq| - 1 && pq'[..|pq| - 1] == pq[..k] + pq[k + 1..]
    ensures HasEntry(pq', 0, v, gv)
  {
    var rest := pq[..k] + pq[k + 1..];
    var i' := if i < k then i else i - 1;
    assert rest[i'] == pq[i];
    assert pq'[i'] == rest[i'];
  }

  /** The node just expanded, reached at its `best` cost, is settled once
      its successors are relaxed. */
  lemma PoppedSettled(g: Graph, path: seq<Node>, gval: nat, best: map<Node, nat>, best': map<Node, nat>, v: Node)
    requires |path| > 0 && RelaxedBest(g, path, gval, Succ(g, Last(path)), best, best')
    requires v == Last(path) && v in best' && best'[v] == gval
    ensures Settled(g, best', v)
  {
  }

  /** A settled node whose `best` is unchanged stays settled when other
      `best` values only fall. */
  lemma SettledStays(g: Graph, best: map<Node, nat>, best': map<Node, nat>, v: Node)
    requires v in best && Settled(g, best, v) && v in best' && best'[v] == best[v]
    requires forall u :: u in best ==> u in best' && best'[u] <= best[u]
    ensures Settled(g, best', v)
  {
    forall nb | nb in Succ(g, v) ensures nb in best' && best'[nb] <= best'[v] + g.cost(v, nb) {
      assert nb in best;
    }
  }

  /** One iteration of ucs or astar that pops entry `k` (not the goal) and
      relaxes its successors preserves the invariant. */
  lemma CostStep(g: Graph, start: Node, goal: Node, keyOf: (Node, nat) -> int, nodes: set<Node>,
                 pq: seq<Entry>, best: map<Node, nat>, dom: seq<Node>, expanded: set<Node>, k: nat,
                 pq': seq<Entry>, best': map<Node, nat>, dom': seq<Node>)
    requires nodes == Nodes(g, start) && CostInv(g, start, goal, keyOf, nodes, pq, best, dom, expanded)
    requires k < |pq| && Last(pq[k].path) != goal
    requires Relaxed(g, keyOf, pq[k].path, pq[k].g, Succ(g, Last(pq[k].path)),
                     pq[..k] + pq[k + 1..], best, dom, pq', best', dom')
    ensures CostInv(g, start, goal, keyOf, nodes, pq', best', dom', expanded + {Last(pq[k].path)})
  {
    var n := Last(pq[k].path);
    SuccInNodes(g, start, n);
    StepEntries(g, start, keyOf, pq, best, k, dom, pq', best', dom');
    StepCover(g, start, goal, keyOf, nodes, pq, best, dom, expanded, k, pq', best', dom');
  }

  /** Each iteration of ucs or astar either gives a new node a `best`, or
      lowers the sum of `best`, or shrinks the frontier. */
  lemma CostMeasure(nodes: set<Node>, pq: seq<Entry>, best: map<Node, nat>, dom: seq<Node>, k: nat,
                    pq': seq<Entry>, best': map<Node, nat>, dom': seq<Node>)
    requires k < |pq| && (forall v :: v in best' ==> v in nodes) && (forall v :: v in best ==> v in best')
    requires (forall v :: v in dom <==> v in best) && RelaxedMeasure(pq[..k] + pq[k + 1..], best, dom, pq', best', dom')
    ensures nodes - best'.Keys < nodes - best.Keys ||
            (best'.Keys == best.Keys && dom' == dom &&
             (SumAt(best', dom') < SumAt(best, dom) || (SumAt(best', dom') == SumAt(best, dom) && |pq'| < |pq|)))
  {
    if exists v :: v in best' && v !in best {
      var w :| w in best' && w !in best;
      assert w in nodes - best.Keys && w !in nodes - best'.Keys;
      forall x | x in nodes - best'.Keys ensures x in nodes - best.Keys {
        assert x !in best';
      }
    } else {
      assert forall v :: v in best'.Keys <==> v in best.Keys;
      assert best'.Keys == best.Keys;
    }
  }

  lemma CostInit(g: Graph, start: Node, goal: Node, keyOf: (Node, nat) -> int, nodes: set<Node>)
    requires nodes == Nodes(g, start)
    ensures CostInv(g, start, goal, keyOf, nodes, [Entry(keyOf(start, 0), 0, [start])],
                    map[start := 0], [start], {})
  {
    var e := Entry(keyOf(start, 0), 0, [start]);
    assert Last(e.path) == start;
    assert [e][0] == e && HasEntry([e], 0, start, 0);
  }

  /** The search loop shared by ucs and astar, with the entry key computed
      by `keyOf(node, g)`. The result is a path from `start` to `goal`, or
      None exactly when the goal is unreachable; when a path is returned, any
      other path to the goal passes a node whose key, at a cost no larger
      than the path's prefix up to it, is at least the returned path's key. */
  method BestFirst(g: Graph, start: Node, goal: Node, keyOf: (Node, nat) -> int)
    returns (r: Option<seq<Node>>)
    ensures r.Some? ==> Connects(g, start, goal, r.value)
    ensures r.Some? ==> KeyBounded(g, start, goal, keyOf, keyOf(goal, PathCost(g, r.value)))
    ensures r.None? <==> !Reachable(g, start, goal)
  {
    ghost var nodes := Nodes(g, start);
    var pq: seq<Entry> := [Entry(keyOf(start, 0), 0, [start])];
    var best: map<Node, nat> := map[start := 0];
    ghost var dom: seq<Node> := [start];
    ghost var expanded: set<Node> := {};
    CostInit(g, start, goal, keyOf, nodes);
    while |pq| > 0
      invariant CostInv(g, start, goal, keyOf, nodes, pq, best, dom, expanded)
      decreases nodes - best.Keys, SumAt(best, dom), |pq|
    {
      var k := PopMin(pq, (e: Entry) => e.key);
      var e := pq[k];
      assert |e.path| > 0;
      var n := e.path[|e.path| - 1];
      if n == goal {
        CostFound(g, start, goal, keyOf, nodes, pq, best, dom, expanded, k);
        return Some(e.path);
      }
      pq, best, dom := Expand(g, start, goal, keyOf, nodes, pq, best, dom, expanded, k);
      expanded := expanded + {n};
    }
    CostExhausted(g, start, goal, keyOf, nodes, best, dom, expanded);
    return None;
  }

  /** One iteration of the search loop after popping entry `k`, which does
      not end at the goal: its successors are relaxed, the invariant holds
      with the popped node expanded, and the loop measure falls. */
  method Expand(g: Graph, start: Node, goal: Node, keyOf: (Node, nat) -> int, ghost nodes: set<Node>,
                pq: seq<Entry>, best: map<Node, nat>, ghost dom: seq<Node>, ghost expanded: set<Node>, k: nat)
    returns (pq': seq<Entry>, best': map<Node, nat>, ghost dom': seq<Node>)
    requires nodes == Nodes(g, start) && CostInv(g, start, goal, keyOf, nodes, pq, best, dom, expanded)
    requires k < |pq| && Last(pq[k].path) != goal
    ensures CostInv(g, start, goal, keyOf, nodes, pq', best', dom', expanded + {Last(pq[k].path)})
    ensures nodes - best'.Keys < nodes - best.Keys ||
            (best'.Keys == best.Keys && dom' == dom &&
             (SumAt(best', dom') < SumAt(best, dom) || (SumAt(best', dom') == SumAt(best, dom) && |pq'| < |pq|)))
  {
    assert ValidEntry(g, start, keyOf, best, pq[k]);
    pq', best', dom' := Relax(g, keyOf, pq[k].path, pq[k].g, pq[..k] + pq[k + 1..], best, dom);
    CostStep(g, start, goal, keyOf, nodes, pq, best, dom, expanded, k, pq', best', dom');
    CostMeasure(nodes, pq, best, dom, k, pq', best', dom');
  }

  /** `ucs(graph, start, goal)`: the key of an entry is its cost `g`. The
      result is a cheapest path from `start` to `goal`, or None exactly when
      the goal is unreachable. */
  method Ucs(g: Graph, start: Node, goal: Node) returns (r: Option<seq<Node>>)
    ensures r.Some? ==> Connects(g, start, goal, r.value)
    ensures r.Some? ==> forall p :: Connects(g, start, goal, p) ==> PathCost(g, r.value) <= PathCost(g, p)
    ensures r.None? <==> !Reachable(g, start, goal)
  {
    var keyOf := (v: Node, d: nat) => d;
    r := BestFirst(g, start, goal, keyOf);
    if r.Some? {
      // the cost alone is the cost plus the estimate 0, which never overestimates
      var est := (v: Node) => 0;
      assert Underestimates(g, goal, est);
      CheapestByEstimate(g, start, goal, keyOf, est, r.value);
    }
  }

  /** The estimate `est` never overestimates: for every path ending at the
      goal, `0 <= est(first node) <= cost of the path`. */
  ghost predicate Underestimates(g: Graph, goal: Node, est: Node -> int) {
    forall p :: IsPath(g, p) && Last(p) == goal ==> 0 <= est(p[0]) <= PathCost(g, p)
  }

  /** The heuristic never overestimates: for every path ending at the goal,
      `0 <= heuristic(first node, goal) <= cost of the path`. */
  ghost predicate Admissible(g: Graph, goal: Node) {
    forall p :: IsPath(g, p) && Last(p) == goal ==> 0 <= g.heuristic(p[0], goal) <= PathCost(g, p)
  }

  /** `astar(graph, start, goal)`: the key of an entry is
      `g + heuristic(node, goal)`. The result is a path from `start` to
      `goal`, or None exactly when the goal is unreachable; when the
      heuristic is admissible the path is a cheapest one. */
  method AStar(g: Graph, start: Node, goal: Node) returns (r: Option<seq<Node>>)
    ensures r.Some? ==> Connects(g, start, goal, r.value)
    ensures r.Some? && Admissible(g, goal) ==>
              forall p :: Connects(g, start, goal, p) ==> PathCost(g, r.value) <= PathCost(g, p)
    ensures r.None? <==> !Reachable(g, start, goal)
  {
    var keyOf := (v: Node, d: nat) => d + g.heuristic(v, goal);
    r := BestFirst(g, start, goal, keyOf);
    if r.Some? && Admissible(g, goal) {
      var est := (v: Node) => g.heuristic(v, goal);
      assert Underestimates(g, goal, est);
      CheapestByEstimate(g, start, goal, keyOf, est, r.value);
    }
  }

  /** With the key equal to cost plus an estimate that never overestimates,
      the bound of `BestFirst` makes the returned path a cheapest one. */
  lemma CheapestByEstimate(g: Graph, start: Node, goal: Node, keyOf: (Node, nat) -> int,
                           est: Node -> int, path: seq<Node>)
    requires forall v: Node, d: nat :: keyOf(v, d) == d + est(v)
    requires Underestimates(g, goal, est)
    requires KeyBounded(g, start, goal, keyOf, keyOf(goal, PathCost(g, path)))
    ensures forall p :: Connects(g, start, goal, p) ==> PathCost(g, path) <= PathCost(g, p)
  {
    assert IsPath(g, [goal]) && Last([goal]) == goal;
    var h0 := est(goal);
    assert 0 <= h0 <= PathCost(g, [goal]);
    forall p | Connects(g, start, goal, p) ensures PathCost(g, path) <= PathCost(g, p) {
      EstimateBelow(g, goal, keyOf, est, p, PathCost(g, path) + h0);
    }
  }

  /** With the key equal to cost plus an estimate that never overestimates,
      a value at most the key of some node of a path to the goal, at a cost
      bounded by the prefix up to that node, is at most the cost of the whole
      path. */
  lemma EstimateBelow(g: Graph, goal: Node, keyOf: (Node, nat) -> int, est: Node -> int,
                      p: seq<Node>, key: int)
    requires forall v: Node, d: nat :: keyOf(v, d) == d + est(v)
    requires Underestimates(g, goal, est) && IsPath(g, p) && Last(p) == goal
    requires exists i, d: nat :: 0 <= i < |p| && d <= PathCost(g, p[..i + 1]) && key <= keyOf(p[i], d)
    ensures key <= PathCost(g, p)
  {
    var i, d: nat :| 0 <= i < |p| && d <= PathCost(g, p[..i + 1]) && key <= keyOf(p[i], d);
    SuffixPath(g, p, i);
    PathCostSplit(g, p, i);
  }

  /** The demonstration heuristic `max(0, goal - n)` overestimates: from node
      0 the estimate to goal 6 is 6, but 0, 2, 4, 6 costs 3. The cheapest-path
      promise of `AStar` therefore does not cover the demonstration graph. */
  lemma DemoInadmissible()
    ensures !Admissible(DemoGraph(), 6)
  {
    var g := DemoGraph();
    var p := [0, 2, 4, 6];
    assert IsPath(g, p) && Last(p) == 6;
    assert [0, 2, 4][..2] == [0, 2] && p[..3] == [0, 2, 4];
    assert PathCost(g, [0, 2]) == 1;
    assert PathCost(g, [0, 2, 4]) == 2;
    assert PathCost(g, p) == 3;
  }
}
