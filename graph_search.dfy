/** Breadth-first, depth-first and greedy best-first search over an adjacency
    map (`bfs`, `dfs` and `greedy` in ai_concepts.js). Each keeps a frontier of
    partial paths seeded with `[start]` and tests for the goal when an entry is
    removed; they differ in frontier order and in when a node is marked
    visited. */
module GraphSearch {
  import opened Wrappers
  import opened Graph

  // ---------------------------------------------------------------------
  // Frontier vocabulary
  // ---------------------------------------------------------------------

  ghost predicate PathsFrom(g: Graph, start: Node, q: seq<seq<Node>>) {
    forall i :: 0 <= i < |q| ==> IsPathFrom(g, start, q[i])
  }

  /** Some frontier path ends at `v`. */
  ghost predicate InQueue(q: seq<seq<Node>>, v: Node) {
    exists i :: 0 <= i < |q| && |q[i]| > 0 && Last(q[i]) == v
  }

  /** No two frontier paths end at the same node. */
  ghost predicate DistinctEnds(q: seq<seq<Node>>) {
    forall i, j :: 0 <= i < j < |q| && |q[i]| > 0 && |q[j]| > 0 ==> Last(q[i]) != Last(q[j])
  }

  /** Path lengths never decrease along the queue and span at most one level. */
  ghost predicate LevelOrdered(q: seq<seq<Node>>) {
    forall i, j :: 0 <= i <= j < |q| ==> |q[i]| <= |q[j]| <= |q[i]| + 1
  }

  /** Every successor of a node of `e` lies in `v`. */
  ghost predicate ClosedInto(g: Graph, e: set<Node>, v: set<Node>) {
    forall n, nb :: n in e && nb in Succ(g, n) ==> nb in v
  }

  /** Every path from `start` with fewer than `len` nodes ends in `e`. */
  ghost predicate Below(g: Graph, start: Node, e: set<Node>, len: nat) {
    forall p :: IsPathFrom(g, start, p) && |p| < len ==> Last(p) in e
  }

  /** No path from `start` to the end of `path` is shorter than `path`. */
  ghost predicate NoShorter(g: Graph, start: Node, path: seq<Node>) {
    |path| > 0 && forall p :: Connects(g, start, Last(path), p) ==> |path| <= |p|
  }

  lemma InQueueAppend(q: seq<seq<Node>>, x: seq<Node>)
    requires |x| > 0
    ensures forall v :: InQueue(q, v) ==> InQueue(q + [x], v)
    ensures InQueue(q + [x], Last(x))
  {
    assert (q + [x])[|q|] == x;
    forall v | InQueue(q, v) ensures InQueue(q + [x], v) {
      var i :| 0 <= i < |q| && |q[i]| > 0 && Last(q[i]) == v;
      assert (q + [x])[i] == q[i];
    }
  }

  lemma InQueueDropFirst(q: seq<seq<Node>>, v: Node)
    requires |q| > 0 && InQueue(q, v) && (|q[0]| > 0 ==> Last(q[0]) != v)
    ensures InQueue(q[1..], v)
  {
    var i :| 0 <= i < |q| && |q[i]| > 0 && Last(q[i]) == v;
    assert q[1..][i - 1] == q[i];
  }

  lemma InQueueDropLast(q: seq<seq<Node>>, v: Node)
    requires |q| > 0 && InQueue(q, v) && (|q[|q| - 1]| > 0 ==> Last(q[|q| - 1]) != v)
    ensures InQueue(q[..|q| - 1], v)
  {
    var i :| 0 <= i < |q| && |q[i]| > 0 && Last(q[i]) == v;
    assert q[..|q| - 1][i] == q[i];
  }

  /** A set that holds `start` and every successor of its members holds the
      end of every path from `start`. */
  lemma {:induction false} ClosedHoldsPaths(g: Graph, start: Node, s: set<Node>, p: seq<Node>)
    requires start in s && ClosedInto(g, s, s) && IsPathFrom(g, start, p)
    ensures Last(p) in s
    decreases |p|
  {
    if |p| > 1 {
      var q := p[..|p| - 1];
      PrefixPath(g, p, |p| - 1);
      ClosedHoldsPaths(g, start, s, q);
      assert p[|p| - 1] in Succ(g, p[|p| - 2]);
    }
  }

  /** A node first reached from a path of `len` nodes, when every shorter
      path ends in an expanded node, has no path with fewer than `len + 1`
      nodes. */
  lemma PushShortest(g: Graph, start: Node, e: set<Node>, visited: set<Node>,
                     path: seq<Node>, nb: Node)
    requires |path| > 0 && Below(g, start, e, |path|) && ClosedInto(g, e, visited)
    requires e <= visited && start in visited && nb !in visited
    ensures NoShorter(g, start, path + [nb])
  {
    assert Last(path + [nb]) == nb;
    forall p | Connects(g, start, nb, p) ensures |path| + 1 <= |p| {
      if |p| == |path| && |p| > 1 {
        PrefixPath(g, p, |p| - 1);
      }
    }
  }

  /** Once the node at the front of the queue is one level deeper, every path
      of the previous level ends in an expanded node. */
  lemma BelowAdvance(g: Graph, start: Node, e0: set<Node>, e: set<Node>, visited: set<Node>,
                     q: seq<seq<Node>>, len: nat)
    requires len > 0 && Below(g, start, e0, len) && e0 <= e
    requires ClosedInto(g, e0, visited) && start in visited
    requires |q| > 0 && len <= |q[0]| <= len + 1 && LevelOrdered(q)
    requires forall i :: 0 <= i < |q| ==> NoShorter(g, start, q[i])
    requires forall v :: v in visited ==> v in e || InQueue(q, v)
    ensures Below(g, start, e, |q[0]|)
  {
    forall p | IsPathFrom(g, start, p) && |p| < |q[0]| ensures Last(p) in e {
      if |p| >= len {
        var v := Last(p);
        if |p| == 1 {
          assert v == start;
        } else {
          PrefixPath(g, p, |p| - 1);
          assert Last(p[..|p| - 1]) in e0;
          assert v in Succ(g, p[|p| - 2]);
        }
        if v !in e {
          var i :| 0 <= i < |q| && |q[i]| > 0 && Last(q[i]) == v;
          assert Connects(g, start, Last(q[i]), p);
        }
      }
    }
  }

  // ---------------------------------------------------------------------
  // bfs
  // ---------------------------------------------------------------------

  /** The `forEach` of `bfs`: each successor not yet visited, in adjacency
      order, is marked visited and `path + [nb]` is appended to the queue. */
  method EnqueueUnvisited(path: seq<Node>, succ: seq<Node>, q: seq<seq<Node>>, visited: set<Node>)
    returns (q': seq<seq<Node>>, visited': set<Node>)
    ensures visited' == visited + set nb | nb in succ
    ensures |q'| >= |q| && q'[..|q|] == q
    ensures forall k :: |q| <= k < |q'| ==>
              |q'[k]| == |path| + 1 && q'[k] == path + [q'[k][|path|]] &&
              q'[k][|path|] in succ && q'[k][|path|] !in visited
    ensures forall k, l :: |q| <= k < l < |q'| ==> q'[k][|path|] != q'[l][|path|]
    ensures forall v :: v in visited' - visited ==> exists k :: |q| <= k < |q'| && q'[k][|path|] == v
    ensures visited' == visited ==> q' == q
    ensures |q'| == |q| ==> visited' == visited
  {
    q', visited' := q, visited;
    var i := 0;
    while i < |succ|
      invariant 0 <= i <= |succ|
      invariant visited' == visited + set nb | nb in succ[..i]
      invariant |q'| >= |q| && q'[..|q|] == q
      invariant forall k :: |q| <= k < |q'| ==>
                  |q'[k]| == |path| + 1 && q'[k] == path + [q'[k][|path|]] &&
                  q'[k][|path|] in succ && q'[k][|path|] in visited' && q'[k][|path|] !in visited
      invariant forall k, l :: |q| <= k < l < |q'| ==> q'[k][|path|] != q'[l][|path|]
      invariant forall v :: v in visited' - visited ==> exists k :: |q| <= k < |q'| && q'[k][|path|] == v
      invariant visited' == visited ==> q' == q
      invariant |q'| == |q| ==> visited' == visited
    {
      var nb := succ[i];
      TakeNext(succ, i);
      if nb !in visited' {
        var x := path + [nb];
        assert x[|path|] == nb;
        ghost var qOld, vOld := q', visited';
        visited' := visited' + {nb};
        q' := q' + [x];
        assert q'[|q'| - 1] == x;
        forall v | v in visited' - visited ensures exists k :: |q| <= k < |q'| && q'[k][|path|] == v {
          if v != nb {
            assert v in vOld - visited;
            var k :| |q| <= k < |qOld| && qOld[k][|path|] == v;
            assert q'[k] == qOld[k];
          }
        }
      }
      i := i + 1;
    }
    assert succ[..i] == succ;
  }

  /** The loop invariant of `bfs`. `expanded` holds the nodes already taken
      off the queue; `visited == expanded + ends of queue`, each node in the
      queue at most once. */
  ghost predicate BfsInv(g: Graph, start: Node, goal: Node, nodes: set<Node>,
                         q: seq<seq<Node>>, visited: set<Node>, expanded: set<Node>)
  {
    visited <= nodes && expanded <= visited && start in visited && goal !in expanded &&
    PathsFrom(g, start, q) &&
    (forall i :: 0 <= i < |q| ==> Last(q[i]) in visited && Last(q[i]) !in expanded) &&
    (forall v :: v in visited ==> v in expanded || InQueue(q, v)) &&
    DistinctEnds(q) && LevelOrdered(q) &&
    (forall i :: 0 <= i < |q| ==> NoShorter(g, start, q[i])) &&
    (|q| > 0 ==> Below(g, start, expanded, |q[0]|)) &&
    ClosedInto(g, expanded, visited)
  }

  /** The queue `q` and set `visited` are what one iteration of `bfs` makes
      of `q0` and `visited0`: the front path is taken off and its unvisited
      successors are appended, each once. */
  ghost predicate Enqueued(g: Graph, q0: seq<seq<Node>>, visited0: set<Node>,
                           q: seq<seq<Node>>, visited: set<Node>)
  {
    |q0| > 0 && |q0[0]| > 0 &&
    visited == visited0 + (set nb | nb in Succ(g, Last(q0[0]))) &&
    |q| >= |q0| - 1 && q[..|q0| - 1] == q0[1..] &&
    (forall k :: |q0| - 1 <= k < |q| ==>
       |q[k]| == |q0[0]| + 1 && q[k] == q0[0] + [q[k][|q0[0]|]] &&
       q[k][|q0[0]|] in Succ(g, Last(q0[0])) && q[k][|q0[0]|] !in visited0) &&
    (forall k, l :: |q0| - 1 <= k < l < |q| ==> q[k][|q0[0]|] != q[l][|q0[0]|]) &&
    (forall v :: v in visited - visited0 ==> exists k :: |q0| - 1 <= k < |q| && q[k][|q0[0]|] == v) &&
    (|q| == |q0| - 1 ==> visited == visited0)
  }

  lemma StepPaths(g: Graph, start: Node, goal: Node, nodes: set<Node>,
                  q0: seq<seq<Node>>, visited0: set<Node>, expanded0: set<Node>,
                  q: seq<seq<Node>>, visited: set<Node>)
    requires BfsInv(g, start, goal, nodes, q0, visited0, expanded0)
    requires Enqueued(g, q0, visited0, q, visited)
    ensures PathsFrom(g, start, q) && LevelOrdered(q)
    ensures forall i :: 0 <= i < |q| ==> NoShorter(g, start, q[i])
    ensures forall k :: |q0| - 1 <= k < |q| ==> Last(q[k]) == q[k][|q0[0]|]
    ensures forall k :: 0 <= k < |q0| - 1 ==> q[k] == q0[k + 1]
  {
    var path := q0[0];
    var m := |q0| - 1;
    forall k | 0 <= k < m ensures q[k] == q0[k + 1] {
      assert q[k] == q[..m][k];
    }
    forall k | m <= k < |q|
      ensures IsPathFrom(g, start, q[k]) && Last(q[k]) == q[k][|path|] && NoShorter(g, start, q[k])
    {
      var nb := q[k][|path|];
      ExtendPath(g, path, nb);
      PushShortest(g, start, expanded0, visited0, path, nb);
    }
    assert LevelOrdered(q) by {
      forall a, b | 0 <= a <= b < |q| ensures |q[a]| <= |q[b]| <= |q[a]| + 1 {
        if a < m {
          assert q[a] == q0[a + 1];
          if b < m {
            assert q[b] == q0[b + 1];
          }
        }
      }
    }
  }

  lemma StepEnds(g: Graph, start: Node, goal: Node, nodes: set<Node>,
                 q0: seq<seq<Node>>, visited0: set<Node>, expanded0: set<Node>,
                 q: seq<seq<Node>>, visited: set<Node>)
    requires BfsInv(g, start, goal, nodes, q0, visited0, expanded0)
    requires Enqueued(g, q0, visited0, q, visited)
    requires forall k :: |q0| - 1 <= k < |q| ==> Last(q[k]) == q[k][|q0[0]|]
    requires forall k :: 0 <= k < |q0| - 1 ==> q[k] == q0[k + 1]
    requires PathsFrom(g, start, q)
    ensures forall i :: 0 <= i < |q| ==> Last(q[i]) in visited && Last(q[i]) !in expanded0 + {Last(q0[0])}
    ensures forall v :: v in visited ==> v in expanded0 + {Last(q0[0])} || InQueue(q, v)
    ensures DistinctEnds(q)
  {
    StepEndsVisited(g, start, goal, nodes, q0, visited0, expanded0, q, visited);
    StepEndsQueued(g, start, goal, nodes, q0, visited0, expanded0, q, visited);
    StepEndsDistinct(g, start, goal, nodes, q0, visited0, expanded0, q, visited);
  }

  /** After a step every queued path ends at a visited, unexpanded node. */
  lemma StepEndsVisited(g: Graph, start: Node, goal: Node, nodes: set<Node>,
                 q0: seq<seq<Node>>, visited0: set<Node>, expanded0: set<Node>,
                 q: seq<seq<Node>>, visited: set<Node>)
    requires BfsInv(g, start, goal, nodes, q0, visited0, expanded0)
    requires Enqueued(g, q0, visited0, q, visited)
    requires forall k :: |q0| - 1 <= k < |q| ==> Last(q[k]) == q[k][|q0[0]|]
    requires forall k :: 0 <= k < |q0| - 1 ==> q[k] == q0[k + 1]
    requires PathsFrom(g, start, q)
    ensures forall i :: 0 <= i < |q| ==> Last(q[i]) in visited && Last(q[i]) !in expanded0 + {Last(q0[0])}
  {
    var m := |q0| - 1;
    var expanded := expanded0 + {Last(q0[0])};
    forall i | 0 <= i < |q| ensures Last(q[i]) in visited && Last(q[i]) !in expanded {
      if i < m {
        assert q[i] == q0[i + 1];
        assert Last(q0[i + 1]) != Last(q0[0]);
      }
    }
  }

  /** After a step every visited node is expanded or ends a queued path. */
  lemma StepEndsQueued(g: Graph, start: Node, goal: Node, nodes: set<Node>,
                 q0: seq<seq<Node>>, visited0: set<Node>, expanded0: set<Node>,
                 q: seq<seq<Node>>, visited: set<Node>)
    requires BfsInv(g, start, goal, nodes, q0, visited0, expanded0)
    requires Enqueued(g, q0, visited0, q, visited)
    requires forall k :: |q0| - 1 <= k < |q| ==> Last(q[k]) == q[k][|q0[0]|]
    requires forall k :: 0 <= k < |q0| - 1 ==> q[k] == q0[k + 1]
    ensures forall v :: v in visited ==> v in expanded0 + {Last(q0[0])} || InQueue(q, v)
  {
    var path := q0[0];
    var m := |q0| - 1;
    var expanded := expanded0 + {Last(path)};
    forall v | v in visited ensures v in expanded || InQueue(q, v) {
      if v in visited0 {
        if v !in expanded {
          var i :| 0 <= i < |q0| && |q0[i]| > 0 && Last(q0[i]) == v;
          assert i != 0 && q[i - 1] == q0[i];
        }
      } else {
        assert v in visited - visited0;
        var k :| m <= k < |q| && q[k][|path|] == v;
        assert Last(q[k]) == v;
      }
    }
  }

  /** After a step no two queued paths end at the same node. */
  lemma StepEndsDistinct(g: Graph, start: Node, goal: Node, nodes: set<Node>,
                 q0: seq<seq<Node>>, visited0: set<Node>, expanded0: set<Node>,
                 q: seq<seq<Node>>, visited: set<Node>)
    requires BfsInv(g, start, goal, nodes, q0, visited0, expanded0)
    requires Enqueued(g, q0, visited0, q, visited)
    requires forall k :: |q0| - 1 <= k < |q| ==> Last(q[k]) == q[k][|q0[0]|]
    requires forall k :: 0 <= k < |q0| - 1 ==> q[k] == q0[k + 1]
    ensures DistinctEnds(q)
  {
    var m := |q0| - 1;
    forall i, j | 0 <= i < j < |q| && |q[i]| > 0 && |q[j]| > 0 ensures Last(q[i]) != Last(q[j]) {
      if j < m {
        assert q[i] == q0[i + 1] && q[j] == q0[j + 1];
      } else if i < m {
        assert q[i] == q0[i + 1];
      }
    }
  }

  lemma StepClosed(g: Graph, start: Node, nodes: set<Node>, n: Node,
                   visited0: set<Node>, expanded0: set<Node>, visited: set<Node>)
    requires nodes == Nodes(g, start) && visited0 <= nodes && ClosedInto(g, expanded0, visited0)
    requires visited == visited0 + (set nb | nb in Succ(g, n))
    ensures visited <= nodes && ClosedInto(g, expanded0 + {n}, visited)
  {
    SuccInNodes(g, start, n);
    forall x | x in visited ensures x in nodes {
      if x !in visited0 {
        assert x in Succ(g, n);
      }
    }
    forall x, nb | x in expanded0 + {n} && nb in Succ(g, x) ensures nb in visited {
      if x != n {
        assert nb in visited0;
      }
    }
  }

  /** One iteration of `bfs` either marks a new node or shortens the queue. */
  lemma StepMeasure(g: Graph, nodes: set<Node>, q0: seq<seq<Node>>, visited0: set<Node>,
                    q: seq<seq<Node>>, visited: set<Node>)
    requires Enqueued(g, q0, visited0, q, visited) && visited <= nodes
    ensures nodes - visited < nodes - visited0 || (visited == visited0 && |q| < |q0|)
  {
    if |q| >= |q0| {
      var x := q[|q0| - 1][|q0[0]|];
      assert x in visited && x !in visited0;
      assert x in (nodes - visited0) - (nodes - visited);
    }
  }

  /** One iteration of `bfs` preserves its invariant. */
  lemma BfsStep(g: Graph, start: Node, goal: Node, nodes: set<Node>,
                q0: seq<seq<Node>>, visited0: set<Node>, expanded0: set<Node>,
                q: seq<seq<Node>>, visited: set<Node>)
    requires nodes == Nodes(g, start) && BfsInv(g, start, goal, nodes, q0, visited0, expanded0)
    requires Enqueued(g, q0, visited0, q, visited) && Last(q0[0]) != goal
    ensures BfsInv(g, start, goal, nodes, q, visited, expanded0 + {Last(q0[0])})
  {
    var path := q0[0];
    var n := Last(path);
    var expanded := expanded0 + {n};
    StepPaths(g, start, goal, nodes, q0, visited0, expanded0, q, visited);
    StepEnds(g, start, goal, nodes, q0, visited0, expanded0, q, visited);
    StepClosed(g, start, nodes, n, visited0, expanded0, visited);
    if |q| > 0 {
      assert |path| <= |q[0]| <= |path| + 1 by {
        if |q0| > 1 { assert q[0] == q0[1]; }
      }
      BelowAdvance(g, start, expanded0, expanded, visited, q, |path|);
    }
  }

  /** When the goal is at the front of the queue, the front path is a
      shortest path to it. */
  lemma BfsFound(g: Graph, start: Node, goal: Node, nodes: set<Node>,
                 q: seq<seq<Node>>, visited: set<Node>, expanded: set<Node>)
    requires BfsInv(g, start, goal, nodes, q, visited, expanded)
    requires |q| > 0 && Last(q[0]) == goal
    ensures Connects(g, start, goal, q[0])
    ensures forall p :: Connects(g, start, goal, p) ==> |q[0]| <= |p|
  {
    forall p | Connects(g, start, goal, p) ensures |q[0]| <= |p| {
    }
  }

  /** When the queue is empty, every node reachable from `start` has been
      expanded, so the goal is unreachable. */
  lemma BfsExhausted(g: Graph, start: Node, goal: Node, nodes: set<Node>,
                     visited: set<Node>, expanded: set<Node>)
    requires BfsInv(g, start, goal, nodes, [], visited, expanded)
    ensures !Reachable(g, start, goal)
  {
    forall p | Connects(g, start, goal, p) ensures false {
      ClosedHoldsPaths(g, start, expanded, p);
    }
  }

  /** One iteration of `bfs` whose front path does not end at the goal:
      the front path is shifted off and its unvisited successors are
      enqueued; the invariant holds with its end expanded and the loop
      measure falls. */
  method BfsExpand(g: Graph, start: Node, goal: Node, ghost nodes: set<Node>,
                   q: seq<seq<Node>>, visited: set<Node>, ghost expanded: set<Node>)
    returns (q': seq<seq<Node>>, visited': set<Node>)
    requires nodes == Nodes(g, start) && BfsInv(g, start, goal, nodes, q, visited, expanded)
    requires |q| > 0 && Last(q[0]) != goal
    ensures BfsInv(g, start, goal, nodes, q', visited', expanded + {Last(q[0])})
    ensures nodes - visited' < nodes - visited || (visited' == visited && |q'| < |q|)
  {
    var path := q[0];
    q', visited' := EnqueueUnvisited(path, Succ(g, path[|path| - 1]), q[1..], visited);
    BfsStep(g, start, goal, nodes, q, visited, expanded, q', visited');
    StepMeasure(g, nodes, q, visited, q', visited');
  }

  /** `bfs(graph, start, goal)`: FIFO queue; a node is marked visited when it
      is enqueued, so each node enters the queue at most once. The result is a
      path from `start` to `goal` with the fewest nodes, or None exactly when
      the goal is unreachable. */
  method Bfs(g: Graph, start: Node, goal: Node) returns (r: Option<seq<Node>>)
    ensures r.Some? ==> Connects(g, start, goal, r.value)
    ensures r.Some? ==> forall p :: Connects(g, start, goal, p) ==> |r.value| <= |p|
    ensures r.None? <==> !Reachable(g, start, goal)
  {
    ghost var nodes := Nodes(g, start);
    var q: seq<seq<Node>> := [[start]];
    var visited: set<Node> := {start};
    ghost var expanded: set<Node> := {};
    assert Last(q[0]) == start;
    while |q| > 0
      invariant BfsInv(g, start, goal, nodes, q, visited, expanded)
      decreases nodes - visited, |q|
    {
      var path := q[0];
      var n := path[|path| - 1];
      if n == goal {
        BfsFound(g, start, goal, nodes, q, visited, expanded);
        return Some(path);
      }
      q, visited := BfsExpand(g, start, goal, nodes, q, visited, expanded);
      expanded := expanded + {n};
    }
    BfsExhausted(g, start, goal, nodes, visited, expanded);
    return None;
  }

  // ---------------------------------------------------------------------
  // dfs and greedy: visited is marked when a node is popped
  // ---------------------------------------------------------------------

  /** `ext` holds one path `path + [nb]` per successor `nb` of the end of
      `path`, in some order, and nothing else. */
  ghost predicate Extends(g: Graph, path: seq<Node>, ext: seq<seq<Node>>) {
    |path| > 0 &&
    (forall j :: 0 <= j < |ext| ==>
       |ext[j]| == |path| + 1 && ext[j] == path + [ext[j][|path|]] &&
       ext[j][|path|] in Succ(g, Last(path))) &&
    (forall nb :: nb in Succ(g, Last(path)) ==> InQueue(ext, nb))
  }

  /** The loop invariant shared by `dfs` and `greedy`: every frontier path
      starts at `start`; the goal has not been popped; and every successor of
      a visited node is visited or still waiting in the frontier. */
  ghost predicate PopVisitInv(g: Graph, start: Node, goal: Node, nodes: set<Node>,
                              f: seq<seq<Node>>, visited: set<Node>)
  {
    visited <= nodes && goal !in visited &&
    PathsFrom(g, start, f) &&
    (forall i :: 0 <= i < |f| ==> Last(f[i]) in nodes) &&
    (start in visited || InQueue(f, start)) &&
    (forall e, nb :: e in visited && nb in Succ(g, e) ==> nb in visited || InQueue(f, nb))
  }

  lemma InQueuePrefix(a: seq<seq<Node>>, b: seq<seq<Node>>, v: Node)
    requires InQueue(b, v)
    ensures InQueue(a + b, v)
  {
    var i :| 0 <= i < |b| && |b[i]| > 0 && Last(b[i]) == v;
    assert (a + b)[|a| + i] == b[i];
  }

  /** Taking entry `k` out of the frontier keeps every other end in it. */
  lemma InQueueRemove(f: seq<seq<Node>>, k: nat, ext: seq<seq<Node>>, v: Node)
    requires k < |f| && InQueue(f, v) && |f[k]| > 0 && Last(f[k]) != v
    ensures InQueue(f[..k] + f[k + 1..] + ext, v)
  {
    var f' := f[..k] + f[k + 1..] + ext;
    var i :| 0 <= i < |f| && |f[i]| > 0 && Last(f[i]) == v;
    if i < k {
      assert f'[i] == f[i];
    } else {
      assert f'[i - 1] == f[i];
    }
  }

  lemma PopPaths(g: Graph, start: Node, nodes: set<Node>, f: seq<seq<Node>>, k: nat,
                 ext: seq<seq<Node>>, f': seq<seq<Node>>)
    requires nodes == Nodes(g, start) && k < |f| && PathsFrom(g, start, f)
    requires forall i :: 0 <= i < |f| ==> Last(f[i]) in nodes
    requires ext == [] || Extends(g, f[k], ext)
    requires f' == f[..k] + f[k + 1..] + ext
    ensures PathsFrom(g, start, f')
    ensures forall i :: 0 <= i < |f'| ==> Last(f'[i]) in nodes
  {
    forall i | 0 <= i < |f'| ensures IsPathFrom(g, start, f'[i]) && Last(f'[i]) in nodes {
      if i < k {
        assert f'[i] == f[i];
      } else if i < |f| - 1 {
        assert f'[i] == f[i + 1];
      } else {
        var e := ext[i - (|f| - 1)];
        assert f'[i] == e;
        ExtendPath(g, f[k], e[|f[k]|]);
        SuccInNodes(g, start, Last(f[k]));
      }
    }
  }

  /** One iteration of `dfs` or `greedy` that pops entry `k` (not the goal)
      preserves the invariant: an already visited end is dropped, otherwise it
      is marked visited and replaced by its extensions `ext`. */
  lemma PopVisitStep(g: Graph, start: Node, goal: Node, nodes: set<Node>,
                     f: seq<seq<Node>>, visited: set<Node>, k: nat, ext: seq<seq<Node>>)
    requires nodes == Nodes(g, start) && PopVisitInv(g, start, goal, nodes, f, visited)
    requires k < |f| && Last(f[k]) != goal
    requires Last(f[k]) in visited ==> ext == []
    requires Last(f[k]) !in visited ==> Extends(g, f[k], ext)
    ensures PopVisitInv(g, start, goal, nodes, f[..k] + f[k + 1..] + ext, visited + {Last(f[k])})
  {
    var n := Last(f[k]);
    var f' := f[..k] + f[k + 1..] + ext;
    var visited' := visited + {n};
    PopPaths(g, start, nodes, f, k, ext, f');
    if start !in visited' {
      InQueueRemove(f, k, ext, start);
    }
    forall e, nb | e in visited' && nb in Succ(g, e) ensures nb in visited' || InQueue(f', nb) {
      if nb !in visited' {
        if e == n && n !in visited {
          InQueuePrefix(f[..k] + f[k + 1..], ext, nb);
        } else {
          InQueueRemove(f, k, ext, nb);
        }
      }
    }
  }

  /** An empty frontier means the visited set is closed under successors and
      contains `start` but not the goal, so no path reaches the goal. */
  lemma PopVisitExhausted(g: Graph, start: Node, goal: Node, nodes: set<Node>, visited: set<Node>)
    requires PopVisitInv(g, start, goal, nodes, [], visited)
    ensures !Reachable(g, start, goal)
    ensures forall v :: Reachable(g, start, v) ==> v in visited
  {
    forall v | Reachable(g, start, v) ensures v in visited {
      var p :| Connects(g, start, v, p);
      ClosedHoldsPaths(g, start, visited, p);
    }
  }

  /** `(graph.edges[n]||[]).slice().reverse().forEach(push)`: the extensions
      are pushed last successor first, so the first listed successor ends up
      on top of the stack. */
  method PushReversed(path: seq<Node>, succ: seq<Node>, stack: seq<seq<Node>>)
    returns (stack': seq<seq<Node>>)
    ensures |stack'| == |stack| + |succ| && stack'[..|stack|] == stack
    ensures forall j :: |stack| <= j < |stack'| ==> stack'[j] == path + [succ[|stack'| - 1 - j]]
  {
    stack' := stack;
    var i := |succ|;
    while i > 0
      invariant 0 <= i <= |succ|
      invariant |stack'| == |stack| + |succ| - i && stack'[..|stack|] == stack
      invariant forall j :: |stack| <= j < |stack'| ==> stack'[j] == path + [succ[|stack| + |succ| - 1 - j]]
    {
      i := i - 1;
      stack' := stack' + [path + [succ[i]]];
    }
  }

  lemma ReversedExtends(g: Graph, path: seq<Node>, succ: seq<Node>, stack: seq<seq<Node>>,
                        stack': seq<seq<Node>>)
    requires |path| > 0 && succ == Succ(g, Last(path))
    requires |stack'| == |stack| + |succ| && stack'[..|stack|] == stack
    requires forall j :: |stack| <= j < |stack'| ==> stack'[j] == path + [succ[|stack'| - 1 - j]]
    ensures stack' == stack + stack'[|stack|..] && Extends(g, path, stack'[|stack|..])
  {
    var ext := stack'[|stack|..];
    assert stack' == stack'[..|stack|] + ext;
    forall j | 0 <= j < |ext|
      ensures |ext[j]| == |path| + 1 && ext[j] == path + [ext[j][|path|]] && ext[j][|path|] in succ
    {
      assert ext[j] == stack'[|stack| + j];
    }
    forall nb | nb in succ ensures InQueue(ext, nb) {
      var m :| 0 <= m < |succ| && succ[m] == nb;
      var j := |succ| - 1 - m;
      assert ext[j] == stack'[|stack| + j];
      assert Last(ext[j]) == nb;
    }
  }

  lemma DfsSkip(g: Graph, start: Node, goal: Node, nodes: set<Node>,
                stack: seq<seq<Node>>, visited: set<Node>)
    requires nodes == Nodes(g, start) && PopVisitInv(g, start, goal, nodes, stack, visited)
    requires |stack| > 0 && Last(stack[|stack| - 1]) != goal && Last(stack[|stack| - 1]) in visited
    ensures PopVisitInv(g, start, goal, nodes, stack[..|stack| - 1], visited)
  {
    var k := |stack| - 1;
    PopVisitStep(g, start, goal, nodes, stack, visited, k, []);
    assert stack[..k] + stack[k + 1..] + [] == stack[..k];
  }

  lemma DfsExpand(g: Graph, start: Node, goal: Node, nodes: set<Node>,
                  stack: seq<seq<Node>>, visited: set<Node>, stack': seq<seq<Node>>)
    requires nodes == Nodes(g, start) && PopVisitInv(g, start, goal, nodes, stack, visited)
    requires |stack| > 0 && Last(stack[|stack| - 1]) != goal && Last(stack[|stack| - 1]) !in visited
    requires var succ := Succ(g, Last(stack[|stack| - 1]));
             |stack'| == |stack| - 1 + |succ| && stack'[..|stack| - 1] == stack[..|stack| - 1] &&
             forall j :: |stack| - 1 <= j < |stack'| ==> stack'[j] == stack[|stack| - 1] + [succ[|stack'| - 1 - j]]
    ensures PopVisitInv(g, start, goal, nodes, stack', visited + {Last(stack[|stack| - 1])})
  {
    var k := |stack| - 1;
    ReversedExtends(g, stack[k], Succ(g, Last(stack[k])), stack[..k], stack');
    PopVisitStep(g, start, goal, nodes, stack, visited, k, stack'[k..]);
    assert stack[..k] + stack[k + 1..] + stack'[k..] == stack';
  }

  /** `dfs(graph, start, goal)`: LIFO stack; a node is marked visited when it
      is popped and skipped if popped again, so each node is expanded at most
      once (`expanded` lists the expansions in order). The result is a path
      from `start` to `goal`, or None exactly when the goal is unreachable. */
  method Dfs(g: Graph, start: Node, goal: Node) returns (r: Option<seq<Node>>, ghost expanded: seq<Node>)
    ensures r.Some? ==> Connects(g, start, goal, r.value)
    ensures r.None? <==> !Reachable(g, start, goal)
    ensures Distinct(expanded) && forall i :: 0 <= i < |expanded| ==> expanded[i] in Nodes(g, start)
    ensures forall v :: v in expanded ==> Reachable(g, start, v)
    ensures r.None? ==> forall v :: Reachable(g, start, v) ==> v in expanded
  {
    ghost var nodes := Nodes(g, start);
    var stack: seq<seq<Node>> := [[start]];
    var visited: set<Node> := {};
    expanded := [];
    assert Last(stack[0]) == start;
    while |stack| > 0
      invariant PopVisitInv(g, start, goal, nodes, stack, visited)
      invariant Distinct(expanded) && forall v :: v in expanded <==> v in visited
      invariant forall v :: v in visited ==> Reachable(g, start, v)
      decreases nodes - visited, |stack|
    {
      var k := |stack| - 1;
      var path := stack[k];
      var n := path[|path| - 1];
      if n == goal {
        assert Connects(g, start, goal, path);
        return Some(path), expanded;
      }
      if n in visited {
        DfsSkip(g, start, goal, nodes, stack, visited);
        stack := stack[..k];
        continue;
      }
      assert Connects(g, start, n, path);
      var stack' := PushReversed(path, Succ(g, n), stack[..k]);
      DfsExpand(g, start, goal, nodes, stack, visited, stack');
      stack := stack';
      visited := visited + {n};
      expanded := expanded + [n];
    }
    PopVisitExhausted(g, start, goal, nodes, visited);
    return None, expanded;
  }

  /** A frontier entry ordered by a key: `[h, path]` in `greedy`. */
  datatype Ranked = Ranked(key: int, path: seq<Node>)

  function Paths(pq: seq<Ranked>): (r: seq<seq<Node>>)
    ensures |r| == |pq| && forall i :: 0 <= i < |pq| ==> r[i] == pq[i].path
  {
    seq(|pq|, i requires 0 <= i < |pq| => pq[i].path)
  }

  /** `pq.sort((a, b) => a[0] - b[0]); pq.shift()`: since the sort is stable,
      the entry shifted off is the first one, in frontier order, whose key is
      minimal. */
  method PopMin<E>(pq: seq<E>, key: E -> int) returns (k: nat)
    requires |pq| > 0
    ensures k < |pq|
    ensures forall i :: 0 <= i < |pq| ==> key(pq[k]) <= key(pq[i])
    ensures forall i :: 0 <= i < k ==> key(pq[k]) < key(pq[i])
  {
    k := 0;
    var i := 1;
    while i < |pq|
      invariant 0 <= k < i <= |pq|
      invariant forall j :: 0 <= j < i ==> key(pq[k]) <= key(pq[j])
      invariant forall j :: 0 <= j < k ==> key(pq[k]) < key(pq[j])
    {
      if key(pq[i]) < key(pq[k]) {
        k := i;
      }
      i := i + 1;
    }
  }

  /** `pq'` is `pq` followed by one entry per successor in `succ`, in order,
      each keyed by the heuristic of the successor and holding `path`
      extended by it. */
  ghost predicate Ranks(g: Graph, goal: Node, path: seq<Node>, succ: seq<Node>, pq: seq<Ranked>, pq': seq<Ranked>)
  {
    |pq'| == |pq| + |succ| && pq'[..|pq|] == pq &&
    forall j :: |pq| <= j < |pq'| ==>
      pq'[j] == Ranked(g.heuristic(succ[j - |pq|], goal), path + [succ[j - |pq|]])
  }

  /** The `forEach` of `greedy`: one entry `[heuristic(nb, goal), path + [nb]]`
      per successor, in adjacency order. */
  method PushRanked(g: Graph, goal: Node, path: seq<Node>, succ: seq<Node>, pq: seq<Ranked>)
    returns (pq': seq<Ranked>)
    ensures Ranks(g, goal, path, succ, pq, pq')
  {
    pq' := pq;
    var i := 0;
    while i < |succ|
      invariant 0 <= i <= |succ|
      invariant |pq'| == |pq| + i && pq'[..|pq|] == pq
      invariant forall j :: |pq| <= j < |pq'| ==>
                  pq'[j] == Ranked(g.heuristic(succ[j - |pq|], goal), path + [succ[j - |pq|]])
    {
      pq' := pq' + [Ranked(g.heuristic(succ[i], goal), path + [succ[i]])];
      i := i + 1;
    }
  }

  lemma RankedExtends(g: Graph, goal: Node, path: seq<Node>, succ: seq<Node>, pq: seq<Ranked>,
                      pq': seq<Ranked>)
    requires |path| > 0 && succ == Succ(g, Last(path))
    requires Ranks(g, goal, path, succ, pq, pq')
    ensures Paths(pq') == Paths(pq) + Paths(pq'[|pq|..]) && Extends(g, path, Paths(pq'[|pq|..]))
  {
    assert pq' == pq + pq'[|pq|..];
    RankedShape(g, goal, path, succ, pq, pq');
  }

  /** The appended entries extend `path` by each successor in turn. */
  lemma RankedShape(g: Graph, goal: Node, path: seq<Node>, succ: seq<Node>, pq: seq<Ranked>,
                    pq': seq<Ranked>)
    requires |path| > 0 && succ == Succ(g, Last(path))
    requires Ranks(g, goal, path, succ, pq, pq')
    ensures Extends(g, path, Paths(pq'[|pq|..]))
  {
    var ext := Paths(pq'[|pq|..]);
    forall j | 0 <= j < |ext|
      ensures |ext[j]| == |path| + 1 && ext[j] == path + [ext[j][|path|]] && ext[j][|path|] in succ
    {
      assert ext[j] == pq'[|pq| + j].path;
    }
    forall nb | nb in succ ensures InQueue(ext, nb) {
      var j :| 0 <= j < |succ| && succ[j] == nb;
      assert ext[j] == pq'[|pq| + j].path;
      assert Last(ext[j]) == nb;
    }
  }

  lemma PathsSplice(pq: seq<Ranked>, k: nat, ext: seq<Ranked>)
    requires k < |pq|
    ensures Paths(pq[..k] + pq[k + 1..] + ext) == Paths(pq)[..k] + Paths(pq)[k + 1..] + Paths(ext)
  {
  }

  lemma GreedySkip(g: Graph, start: Node, goal: Node, nodes: set<Node>,
                   pq: seq<Ranked>, visited: set<Node>, k: nat)
    requires nodes == Nodes(g, start) && PopVisitInv(g, start, goal, nodes, Paths(pq), visited)
    requires k < |pq| && Last(pq[k].path) != goal && Last(pq[k].path) in visited
    ensures PopVisitInv(g, start, goal, nodes, Paths(pq[..k] + pq[k + 1..]), visited)
  {
    assert Paths(pq)[k] == pq[k].path;
    PopVisitStep(g, start, goal, nodes, Paths(pq), visited, k, []);
    PathsSplice(pq, k, []);
    assert pq[..k] + pq[k + 1..] + [] == pq[..k] + pq[k + 1..];
  }

  lemma GreedyExpand(g: Graph, start: Node, goal: Node, nodes: set<Node>,
                     pq: seq<Ranked>, visited: set<Node>, k: nat, pq': seq<Ranked>)
    requires nodes == Nodes(g, start) && PopVisitInv(g, start, goal, nodes, Paths(pq), visited)
    requires k < |pq| && Last(pq[k].path) != goal && Last(pq[k].path) !in visited
    requires Ranks(g, goal, pq[k].path, Succ(g, Last(pq[k].path)), pq[..k] + pq[k + 1..], pq')
    ensures PopVisitInv(g, start, goal, nodes, Paths(pq'), visited + {Last(pq[k].path)})
  {
    var rest := pq[..k] + pq[k + 1..];
    var path := pq[k].path;
    assert Paths(pq)[k] == path;
    RankedExtends(g, goal, path, Succ(g, Last(path)), rest, pq');
    PathsSplice(pq, k, pq'[|rest|..]);
    assert rest + pq'[|rest|..] == pq';
    PopVisitStep(g, start, goal, nodes, Paths(pq), visited, k, Paths(pq'[|rest|..]));
  }

  /** `greedy(graph, start, goal)`: always expands the frontier entry with the
      smallest heuristic value (the first such entry on ties); a node is
      marked visited when popped, so each node is expanded at most once. The
      result is a path from `start` to `goal`, or None exactly when the goal
      is unreachable. */
  method Greedy(g: Graph, start: Node, goal: Node) returns (r: Option<seq<Node>>, ghost expanded: seq<Node>)
    ensures r.Some? ==> Connects(g, start, goal, r.value)
    ensures r.None? <==> !Reachable(g, start, goal)
    ensures Distinct(expanded) && forall i :: 0 <= i < |expanded| ==> expanded[i] in Nodes(g, start)
    ensures forall v :: v in expanded ==> Reachable(g, start, v)
    ensures r.None? ==> forall v :: Reachable(g, start, v) ==> v in expanded
  {
    ghost var nodes := Nodes(g, start);
    var pq: seq<Ranked> := [Ranked(g.heuristic(start, goal), [start])];
    var visited: set<Node> := {};
    expanded := [];
    assert Last(Paths(pq)[0]) == start;
    while |pq| > 0
      invariant PopVisitInv(g, start, goal, nodes, Paths(pq), visited)
      invariant Distinct(expanded) && forall v :: v in expanded <==> v in visited
      invariant forall v :: v in visited ==> Reachable(g, start, v)
      decreases nodes - visited, |pq|
    {
      var k := PopMin(pq, (e: Ranked) => e.key);
      var path := pq[k].path;
      assert path == Paths(pq)[k];
      var n := path[|path| - 1];
      if n == goal {
        assert Connects(g, start, goal, path);
        return Some(path), expanded;
      }
      var rest := pq[..k] + pq[k + 1..];
      if n in visited {
        GreedySkip(g, start, goal, nodes, pq, visited, k);
        pq := rest;
        continue;
      }
      assert Connects(g, start, n, path);
      var pq' := PushRanked(g, goal, path, Succ(g, n), rest);
      GreedyExpand(g, start, goal, nodes, pq, visited, k, pq');
      pq := pq';
      visited := visited + {n};
      expanded := expanded + [n];
    }
    PopVisitExhausted(g, start, goal, nodes, visited);
    return None, expanded;
  }
}
