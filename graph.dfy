/** Directed graphs as the graph-search routines see them: an adjacency map
    whose missing keys mean "no successors", a non-negative edge cost and a
    heuristic, together with paths, their cost and the demo instance. */
module Graph {

  type Node = int

  /** `cost` is the edge weight callback (non-negative by type), `heuristic`
      the caller's estimate `heuristic(n, goal)`. */
  datatype Graph = Graph(edges: map<Node, seq<Node>>,
                         cost: (Node, Node) -> nat,
                         heuristic: (Node, Node) -> int)

  /** `graph.edges[n] || []` */
  function Succ(g: Graph, n: Node): seq<Node> {
    if n in g.edges then g.edges[n] else []
  }

  function Last(p: seq<Node>): Node
    requires |p| > 0
  {
    p[|p| - 1]
  }

  /** No node occurs twice in `s`. */
  ghost predicate Distinct(s: seq<Node>) {
    forall i, j :: 0 <= i < j < |s| ==> s[i] != s[j]
  }

  /** A non-empty node sequence that follows an edge at every step. */
  ghost predicate IsPath(g: Graph, p: seq<Node>) {
    |p| > 0 && forall i :: 0 <= i < |p| - 1 ==> p[i + 1] in Succ(g, p[i])
  }

  ghost predicate IsPathFrom(g: Graph, start: Node, p: seq<Node>) {
    IsPath(g, p) && p[0] == start
  }

  /** A path from `start` to `goal`. */
  ghost predicate Connects(g: Graph, start: Node, goal: Node, p: seq<Node>) {
    IsPathFrom(g, start, p) && Last(p) == goal
  }

  ghost predicate Reachable(g: Graph, start: Node, goal: Node) {
    exists p :: Connects(g, start, goal, p)
  }

  /** Sum of `cost` over the edges of `p`. */
  function PathCost(g: Graph, p: seq<Node>): nat {
    if |p| <= 1 then 0 else PathCost(g, p[..|p| - 1]) + g.cost(p[|p| - 2], p[|p| - 1])
  }

  /** Every node a search from `start` can ever see: the start node and every
      node that is listed as somebody's successor. */
  ghost function Nodes(g: Graph, start: Node): set<Node> {
    {start} + set n, s | n in g.edges && s in g.edges[n] :: s
  }

  lemma SuccInNodes(g: Graph, start: Node, n: Node)
    ensures forall s :: s in Succ(g, n) ==> s in Nodes(g, start)
  {
  }

  /** Extending a path by one edge gives a path, and its cost grows by that edge. */
  lemma {:induction false} ExtendPath(g: Graph, p: seq<Node>, nb: Node)
    requires IsPath(g, p) && nb in Succ(g, Last(p))
    ensures IsPath(g, p + [nb]) && Last(p + [nb]) == nb && (p + [nb])[0] == p[0]
    ensures PathCost(g, p + [nb]) == PathCost(g, p) + g.cost(Last(p), nb)
  {
    var q := p + [nb];
    assert q[..|q| - 1] == p;
    forall i | 0 <= i < |q| - 1 ensures q[i + 1] in Succ(g, q[i]) {
      if i < |p| - 1 {
        assert q[i] == p[i] && q[i + 1] == p[i + 1];
      }
    }
  }

  /** Taking one more element of a sequence appends that element. */
  lemma TakeNext(s: seq<Node>, i: nat)
    requires i < |s|
    ensures s[..i + 1] == s[..i] + [s[i]]
  {
  }

  /** Every non-empty prefix of a path is a path. */
  lemma PrefixPath(g: Graph, p: seq<Node>, k: nat)
    requires IsPath(g, p) && 0 < k <= |p|
    ensures IsPath(g, p[..k]) && p[..k][0] == p[0] && Last(p[..k]) == p[k - 1]
  {
  }

  /** Every non-empty suffix of a path is a path to the same end. */
  lemma SuffixPath(g: Graph, p: seq<Node>, i: nat)
    requires IsPath(g, p) && i < |p|
    ensures IsPath(g, p[i..]) && p[i..][0] == p[i] && Last(p[i..]) == Last(p)
  {
    forall j | 0 <= j < |p[i..]| - 1 ensures p[i..][j + 1] in Succ(g, p[i..][j]) {
      assert p[i..][j] == p[i + j] && p[i..][j + 1] == p[i + j + 1];
    }
  }

  /** The cost of a path splits at any interior node. */
  lemma {:induction false} PathCostSplit(g: Graph, p: seq<Node>, i: nat)
    requires i < |p|
    ensures PathCost(g, p) == PathCost(g, p[..i + 1]) + PathCost(g, p[i..])
    decreases |p|
  {
    if i == |p| - 1 {
      assert p[..i + 1] == p;
      assert |p[i..]| == 1;
    } else {
      var q := p[..|p| - 1];
      PathCostSplit(g, q, i);
      assert q[..i + 1] == p[..i + 1];
      assert q[i..] == p[i..][..|p[i..]| - 1];
      assert |p[i..]| >= 2;
    }
  }

  /** The costs of a prefix never exceed the cost of the whole path. */
  lemma PrefixCostBound(g: Graph, p: seq<Node>, i: nat)
    requires i < |p|
    ensures PathCost(g, p[..i + 1]) <= PathCost(g, p)
  {
    PathCostSplit(g, p, i);
  }

  /** The demonstration instance built by `buildGraph`: nodes 0..6, unit
      costs and the heuristic `max(0, goal - n)`. */
  function DemoGraph(): Graph {
    Graph(map[0 := [1, 2], 1 := [2, 3], 2 := [3, 4], 3 := [4, 5], 4 := [5, 6], 5 := [6], 6 := []],
          (a: Node, b: Node) => 1,
          (n: Node, goal: Node) => if goal - n > 0 then goal - n else 0)
  }
}
