/** The presence graph: bounded breadth-first search over directed edges read in both directions, and the
    visibility levels derived from it. */
module PresenceGraph {
  import opened Wrappers

  type Node = string

  datatype Edge = Edge(serverId: int, fromNode: Node, toNode: Node)

  /** The edge table as one server's queries see it, in row order. */
  datatype Graph = Graph(edges: seq<Edge>, serverId: int)

  datatype BfsPath = BfsPath(found: bool, path: seq<Node>, length: nat)

  datatype Visibility = Self | Degree1 | Degree2 | Degree3 | AggregateOnly | NotVisible

  const MAX_BFS_VISITED_NODES: nat := 10_000

  const NOT_FOUND := BfsPath(false, [], 0)

  // ----- neighbours, walks and balls -----

  /** `SELECT to_node ... WHERE server_id = ?1 AND from_node = ?2` */
  function Outgoing(edges: seq<Edge>, serverId: int, node: Node): seq<Node> {
    if edges == [] then []
    else
      var e := edges[0];
      (if e.serverId == serverId && e.fromNode == node then [e.toNode] else [])
      + Outgoing(edges[1..], serverId, node)
  }

  /** `SELECT from_node ... WHERE server_id = ?1 AND to_node = ?2` */
  function Incoming(edges: seq<Edge>, serverId: int, node: Node): seq<Node> {
    if edges == [] then []
    else
      var e := edges[0];
      (if e.serverId == serverId && e.toNode == node then [e.fromNode] else [])
      + Incoming(edges[1..], serverId, node)
  }

  function Neighbors(g: Graph, node: Node): seq<Node> {
    Outgoing(g.edges, g.serverId, node) + Incoming(g.edges, g.serverId, node)
  }

  /** Some edge of the server joins the two nodes, in either direction. */
  ghost predicate Adjacent(g: Graph, u: Node, v: Node) {
    Edge(g.serverId, u, v) in g.edges || Edge(g.serverId, v, u) in g.edges
  }

  /** A walk through edges taken in either direction. */
  ghost predicate IsWalk(g: Graph, p: seq<Node>, s: Node, t: Node) {
    && p != [] && p[0] == s && p[|p| - 1] == t
    && forall i :: 0 <= i < |p| - 1 ==> Adjacent(g, p[i], p[i + 1])
  }

  ghost predicate NoRepeats(p: seq<Node>) {
    forall i, j :: 0 <= i < j < |p| ==> p[i] != p[j]
  }

  /** The nodes joined to a node of `from`. */
  ghost function Spread(g: Graph, from: set<Node>): set<Node> {
    set u, v | u in from && v in Neighbors(g, u) :: v
  }

  /** The nodes at most k edges away from s. */
  ghost function Ball(g: Graph, s: Node, k: nat): set<Node> {
    if k == 0 then {s} else Ball(g, s, k - 1) + Spread(g, Ball(g, s, k - 1))
  }

  lemma {:induction false} OutgoingAre(edges: seq<Edge>, serverId: int, u: Node, v: Node)
    ensures v in Outgoing(edges, serverId, u) <==> Edge(serverId, u, v) in edges
    ensures v in Incoming(edges, serverId, u) <==> Edge(serverId, v, u) in edges
  {
    if edges != [] {
      OutgoingAre(edges[1..], serverId, u, v);
      assert edges == [edges[0]] + edges[1..];
    }
  }

  /** Each of the two queries gives its rows in table order, and the outgoing edges come first. */
  lemma {:induction false} OutgoingInOrder(edges: seq<Edge>, more: seq<Edge>, serverId: int, u: Node)
    ensures Outgoing(edges + more, serverId, u) == Outgoing(edges, serverId, u) + Outgoing(more, serverId, u)
  {
    if edges == [] {
      assert edges + more == more;
    } else {
      assert (edges + more)[1..] == edges[1..] + more;
      OutgoingInOrder(edges[1..], more, serverId, u);
    }
  }

  lemma {:induction false} IncomingInOrder(edges: seq<Edge>, more: seq<Edge>, serverId: int, u: Node)
    ensures Incoming(edges + more, serverId, u) == Incoming(edges, serverId, u) + Incoming(more, serverId, u)
  {
    if edges == [] {
      assert edges + more == more;
    } else {
      assert (edges + more)[1..] == edges[1..] + more;
      IncomingInOrder(edges[1..], more, serverId, u);
    }
  }

  lemma OutgoingFirst(serverId: int, u: Node, v: Node, w: Node)
    requires u != v && u != w
    ensures Neighbors(Graph([Edge(serverId, w, u), Edge(serverId, u, v)], serverId), u) == [v, w]
  {
    var first, second := Edge(serverId, w, u), Edge(serverId, u, v);
    assert [first, second] == [first] + [second];
    OutgoingInOrder([first], [second], serverId, u);
    IncomingInOrder([first], [second], serverId, u);
    assert Outgoing([first], serverId, u) == [] && Outgoing([second], serverId, u) == [v];
    assert Incoming([first], serverId, u) == [w] && Incoming([second], serverId, u) == [];
  }

  lemma NeighborsAreAdjacent(g: Graph, u: Node, v: Node)
    ensures v in Neighbors(g, u) <==> Adjacent(g, u, v)
    ensures Adjacent(g, u, v) <==> Adjacent(g, v, u)
  {
    OutgoingAre(g.edges, g.serverId, u, v);
  }

  lemma {:induction false} BallGrows(g: Graph, s: Node, k: nat, l: nat)
    requires k <= l
    ensures Ball(g, s, k) <= Ball(g, s, l)
    decreases l - k
  {
    if k < l {
      BallGrows(g, s, k, l - 1);
    }
  }

  lemma BallStep(g: Graph, s: Node, k: nat, u: Node, v: Node)
    requires u in Ball(g, s, k) && v in Neighbors(g, u)
    ensures v in Ball(g, s, k + 1)
  {
    assert v in Spread(g, Ball(g, s, k));
  }

  lemma {:induction false} WalkInBall(g: Graph, p: seq<Node>, s: Node, t: Node)
    requires IsWalk(g, p, s, t)
    ensures t in Ball(g, s, |p| - 1)
  {
    hide Neighbors, Adjacent;
    if |p| > 1 {
      var n := |p| - 1;
      WalkInBall(g, p[..n], s, p[n - 1]);
      NeighborsAreAdjacent(g, p[n - 1], p[n]);
      BallStep(g, s, n - 1, p[n - 1], t);
    }
  }

  lemma {:induction false} BallHasWalk(g: Graph, s: Node, t: Node, k: nat) returns (p: seq<Node>)
    requires t in Ball(g, s, k)
    ensures IsWalk(g, p, s, t) && |p| - 1 <= k
    decreases k
  {
    hide Neighbors, Adjacent;
    if k == 0 {
      p := [s];
    } else if t in Ball(g, s, k - 1) {
      p := BallHasWalk(g, s, t, k - 1);
    } else {
      var u :| u in Ball(g, s, k - 1) && t in Neighbors(g, u);
      p := BallHasWalk(g, s, u, k - 1);
      NeighborsAreAdjacent(g, u, t);
      p := p + [t];
    }
  }

  lemma {:induction false} WalkReverses(g: Graph, p: seq<Node>, s: Node, t: Node) returns (q: seq<Node>)
    requires IsWalk(g, p, s, t)
    ensures IsWalk(g, q, t, s) && |q| == |p|
  {
    q := seq(|p|, i requires 0 <= i < |p| => p[|p| - 1 - i]);
    forall i | 0 <= i < |q| - 1
      ensures Adjacent(g, q[i], q[i + 1])
    {
      assert Adjacent(g, p[|p| - 2 - i], p[|p| - 2 - i + 1]);
    }
  }

  lemma BallTransfers(g: Graph, s: Node, t: Node, k: nat)
    requires t in Ball(g, s, k)
    ensures s in Ball(g, t, k)
  {
    hide IsWalk;
    var p := BallHasWalk(g, s, t, k);
    var q := WalkReverses(g, p, s, t);
    WalkInBall(g, q, t, s);
    BallGrows(g, t, |q| - 1, k);
  }

  lemma BallSymmetric(g: Graph, s: Node, t: Node, k: nat)
    ensures t in Ball(g, s, k) <==> s in Ball(g, t, k)
  {
    hide Ball;
    if t in Ball(g, s, k) {
      BallTransfers(g, s, t, k);
    }
    if s in Ball(g, t, k) {
      BallTransfers(g, t, s, k);
    }
  }

  // ----- the search -----

  type Queued = (Node, seq<Node>)

  ghost function QueueNodes(queue: seq<Queued>): set<Node> {
    set i | 0 <= i < |queue| :: queue[i].0
  }

  /** A shortest path from s: element i is exactly i edges away. */
  ghost predicate Shortest(g: Graph, s: Node, p: seq<Node>) {
    && p != []
    && IsWalk(g, p, s, p[|p| - 1])
    && forall i :: 0 <= i < |p| ==> p[i] in Ball(g, s, i) && (i > 0 ==> p[i] !in Ball(g, s, i - 1))
  }

  ghost predicate GoodEntry(g: Graph, s: Node, entry: Queued, d: nat) {
    && Shortest(g, s, entry.1)
    && entry.0 == entry.1[|entry.1| - 1]
    && d <= |entry.1| - 1 <= d + 1
  }

  /** The search between two expansions, at distance d: `closed` nodes have been expanded, `open` ones are
      being expanded, and the rest of `visited` waits in the queue, nearest first. */
  ghost predicate Searching(
    g: Graph, s: Node, t: Node, visited: set<Node>, closed: set<Node>, open: set<Node>, queue: seq<Queued>, d: nat)
  {
    && t !in visited
    && visited == closed + open + QueueNodes(queue)
    && Ball(g, s, d) <= visited <= Ball(g, s, d + 1)
    && Spread(g, closed) <= visited
    && (forall i :: 0 <= i < |queue| ==> GoodEntry(g, s, queue[i], d))
    && (forall i, j :: 0 <= i < j < |queue| ==> |queue[i].1| <= |queue[j].1|)
  }

  lemma StartSearch(g: Graph, s: Node, t: Node)
    requires s != t
    ensures Searching(g, s, t, {s}, {}, {}, [(s, [s])], 0)
  {
    assert QueueNodes([(s, [s])]) == {s} by {
      assert [(s, [s])][0].0 == s;
    }
    assert Shortest(g, s, [s]);
  }

  lemma QueuePop(queue: seq<Queued>)
    requires queue != []
    ensures QueueNodes(queue) == {queue[0].0} + QueueNodes(queue[1..])
  {
    forall v | v in QueueNodes(queue)
      ensures v == queue[0].0 || v in QueueNodes(queue[1..])
    {
      var i :| 0 <= i < |queue| && queue[i].0 == v;
      if i > 0 {
        assert queue[1..][i - 1].0 == v;
      }
    }
    forall v | v in QueueNodes(queue[1..])
      ensures v in QueueNodes(queue)
    {
      var i :| 0 <= i < |queue[1..]| && queue[1..][i].0 == v;
      assert queue[i + 1].0 == v;
    }
  }

  lemma QueuePush(queue: seq<Queued>, entry: Queued)
    ensures QueueNodes(queue + [entry]) == QueueNodes(queue) + {entry.0}
  {
    var longer := queue + [entry];
    assert longer[|queue|].0 == entry.0;
    forall v | v in QueueNodes(queue)
      ensures v in QueueNodes(longer)
    {
      var i :| 0 <= i < |queue| && queue[i].0 == v;
      assert longer[i].0 == v;
    }
  }

  /** Taking the head keeps the search going, at the head's own distance. */
  lemma PopHead(g: Graph, s: Node, t: Node, visited: set<Node>, closed: set<Node>, queue: seq<Queued>, d: nat)
    requires Searching(g, s, t, visited, closed, {}, queue, d) && queue != []
    ensures Searching(g, s, t, visited, closed, {queue[0].0}, queue[1..], |queue[0].1| - 1)
  {
    hide Shortest, Ball, Spread, QueueNodes;
    QueuePop(queue);
    if |queue[0].1| - 1 == d + 1 {
      NextBall(g, s, t, visited, closed, queue, d);
      BallGrows(g, s, d + 1, d + 2);
    }
  }

  /** When only nodes at distance d + 1 wait, every node at distance d has been expanded. */
  lemma NextBall(g: Graph, s: Node, t: Node, visited: set<Node>, closed: set<Node>, queue: seq<Queued>, d: nat)
    requires Searching(g, s, t, visited, closed, {}, queue, d)
    requires forall i :: 0 <= i < |queue| ==> |queue[i].1| - 1 == d + 1
    ensures Ball(g, s, d + 1) <= visited
  {
    hide Neighbors, Ball;
    forall i | 0 <= i < |queue|
      ensures queue[i].0 !in Ball(g, s, d)
    {
      assert GoodEntry(g, s, queue[i], d);
    }
    assert Ball(g, s, d) <= closed;
    SpreadMonotone(g, Ball(g, s, d), closed);
    BallUnfold(g, s, d);
  }

  lemma SpreadMonotone(g: Graph, a: set<Node>, b: set<Node>)
    requires a <= b
    ensures Spread(g, a) <= Spread(g, b)
  {
    hide Neighbors;
  }

  lemma BallUnfold(g: Graph, s: Node, d: nat)
    ensures Ball(g, s, d + 1) == Ball(g, s, d) + Spread(g, Ball(g, s, d))
  {
    hide Spread;
  }

  lemma WalkExtends(g: Graph, p: seq<Node>, s: Node, t: Node, v: Node)
    requires IsWalk(g, p, s, t) && v in Neighbors(g, t)
    ensures IsWalk(g, p + [v], s, v)
  {
    hide Neighbors, Adjacent;
    NeighborsAreAdjacent(g, t, v);
    var longer := p + [v];
    forall i | 0 <= i < |longer| - 1
      ensures Adjacent(g, longer[i], longer[i + 1])
    {
      assert i < |p| - 1 ==> Adjacent(g, p[i], p[i + 1]);
    }
  }

  /** An unvisited neighbour of the node being expanded lies one edge farther. */
  lemma ExtendPath(g: Graph, s: Node, path: seq<Node>, v: Node)
    requires Shortest(g, s, path)
    requires v in Neighbors(g, path[|path| - 1]) && v !in Ball(g, s, |path| - 1)
    ensures Shortest(g, s, path + [v])
  {
    hide Neighbors, IsWalk, Ball;
    var last := path[|path| - 1];
    WalkExtends(g, path, s, last, v);
    assert path[|path| - 1] in Ball(g, s, |path| - 1);
    BallStep(g, s, |path| - 1, last, v);
  }

  lemma PushNeighbor(
    g: Graph, s: Node, t: Node, visited: set<Node>, closed: set<Node>, open: set<Node>, queue: seq<Queued>,
    path: seq<Node>, v: Node)
    requires path != [] && Searching(g, s, t, visited, closed, open, queue, |path| - 1)
    requires Shortest(g, s, path)
    requires v in Neighbors(g, path[|path| - 1]) && v !in visited && v != t
    ensures Searching(g, s, t, visited + {v}, closed, open, queue + [(v, path + [v])], |path| - 1)
  {
    hide Ball, Spread, QueueNodes, Neighbors, IsWalk;
    ExtendPath(g, s, path, v);
    BallStep(g, s, |path| - 1, path[|path| - 1], v);
    QueuePush(queue, (v, path + [v]));
    assert GoodEntry(g, s, (v, path + [v]), |path| - 1);
    hide Shortest, GoodEntry;
  }

  lemma CloseNode(
    g: Graph, s: Node, t: Node, visited: set<Node>, closed: set<Node>, node: Node, queue: seq<Queued>, d: nat)
    requires Searching(g, s, t, visited, closed, {node}, queue, d)
    requires forall v :: v in Neighbors(g, node) ==> v in visited
    ensures Searching(g, s, t, visited, closed + {node}, {}, queue, d)
  {
    hide Ball, QueueNodes, GoodEntry, Neighbors;
    assert Spread(g, closed + {node}) <= visited;
  }

  /** With nothing left to expand, nothing else is reachable. */
  lemma {:induction false} Exhausted(
    g: Graph, s: Node, t: Node, visited: set<Node>, closed: set<Node>, d: nat, k: nat)
    requires Searching(g, s, t, visited, closed, {}, [], d)
    ensures Ball(g, s, k) <= visited
  {
    hide Neighbors;
    assert visited == closed;
    if k == 0 {
      BallGrows(g, s, 0, d);
    } else {
      Exhausted(g, s, t, visited, closed, d, k - 1);
      assert Spread(g, Ball(g, s, k - 1)) <= Spread(g, closed);
    }
  }

  // ----- what the answers mean -----

  /** A shortest walk without repeats, within the depth limit, and nearer nodes fewer than the cap. */
  ghost predicate FoundRight(g: Graph, s: Node, t: Node, maxDepth: nat, r: BfsPath) {
    && IsWalk(g, r.path, s, t)
    && NoRepeats(r.path)
    && r.length == |r.path| - 1 <= maxDepth
    && (forall p :: IsWalk(g, p, s, t) ==> |r.path| <= |p|)
    && (r.length > 0 ==> |Ball(g, s, r.length - 1)| < MAX_BFS_VISITED_NODES)
  }

  /** Any walk within the depth limit takes at least two edges, and more nodes than the cap are at most as
      far away as it reaches. */
  ghost predicate MissedRight(g: Graph, s: Node, t: Node, maxDepth: nat) {
    forall p :: IsWalk(g, p, s, t) && |p| - 1 <= maxDepth ==>
      |p| >= 3 && |Ball(g, s, |p| - 1)| > MAX_BFS_VISITED_NODES
  }

  lemma ShortestHasNoRepeats(g: Graph, s: Node, p: seq<Node>)
    requires Shortest(g, s, p)
    ensures NoRepeats(p)
  {
    forall i, j | 0 <= i < j < |p|
      ensures p[i] != p[j]
    {
      BallGrows(g, s, i, j - 1);
    }
  }

  lemma ReportFound(g: Graph, s: Node, t: Node, visited: set<Node>, path: seq<Node>, maxDepth: nat)
    requires Shortest(g, s, path) && |path| <= maxDepth
    requires t in Neighbors(g, path[|path| - 1]) && t !in visited
    requires Ball(g, s, |path| - 1) <= visited && |visited| < MAX_BFS_VISITED_NODES
    ensures FoundRight(g, s, t, maxDepth, BfsPath(true, path + [t], |path|))
  {
    hide Ball, Neighbors;
    ExtendPath(g, s, path, t);
    ShortestHasNoRepeats(g, s, path + [t]);
    CardinalityMonotone(Ball(g, s, |path| - 1), visited);
    forall p | IsWalk(g, p, s, t)
      ensures |path| + 1 <= |p|
    {
      WalkInBall(g, p, s, t);
      if |p| <= |path| {
        BallGrows(g, s, |p| - 1, |path| - 1);
      }
    }
  }

  lemma {:induction false} CardinalityMonotone<T>(a: set<T>, b: set<T>)
    requires a <= b
    ensures |a| <= |b|
  {
    assert b == a + (b - a);
  }

  lemma ReportUnreachable(g: Graph, s: Node, t: Node, maxDepth: nat)
    requires t !in Ball(g, s, maxDepth)
    ensures MissedRight(g, s, t, maxDepth)
  {
    hide IsWalk, Ball;
    forall p | IsWalk(g, p, s, t) && |p| - 1 <= maxDepth
      ensures false
    {
      WalkNonEmpty(g, p, s, t);
      WalkInBall(g, p, s, t);
      BallGrows(g, s, |p| - 1, maxDepth);
    }
  }

  lemma WalkNonEmpty(g: Graph, p: seq<Node>, s: Node, t: Node)
    requires IsWalk(g, p, s, t)
    ensures p != []
  {}

  lemma ReportCapped(g: Graph, s: Node, t: Node, visited: set<Node>, d: nat, maxDepth: nat)
    requires t !in visited && Ball(g, s, d) <= visited <= Ball(g, s, d + 1)
    requires d >= 1 && |visited| >= MAX_BFS_VISITED_NODES
    ensures MissedRight(g, s, t, maxDepth)
  {
    hide Ball;
    forall p | IsWalk(g, p, s, t) && |p| - 1 <= maxDepth
      ensures |p| >= 3 && |Ball(g, s, |p| - 1)| > MAX_BFS_VISITED_NODES
    {
      WalkNonEmpty(g, p, s, t);
      WalkInBall(g, p, s, t);
      if |p| - 1 <= d {
        BallGrows(g, s, |p| - 1, d);
      }
      BallGrows(g, s, d + 1, |p| - 1);
      CardinalityMonotone(visited + {t}, Ball(g, s, |p| - 1));
    }
  }

  /** Every node the search can meet. */
  ghost function Universe(g: Graph, s: Node): set<Node> {
    {s} + (set e | e in g.edges :: e.fromNode) + (set e | e in g.edges :: e.toNode)
  }

  lemma NeighborsInUniverse(g: Graph, s: Node, u: Node, v: Node)
    requires v in Neighbors(g, u)
    ensures v in Universe(g, s)
  {
    NeighborsAreAdjacent(g, u, v);
  }

  // ----- the order of discovery -----

  /** Appends the nodes of `found` that are new, in their order. */
  function AppendUnseen(order: seq<Node>, found: seq<Node>): seq<Node> {
    if found == [] then order
    else
      var before, last := AppendUnseen(order, found[..|found| - 1]), found[|found| - 1];
      if last in before then before else before + [last]
  }

  /** The nodes in the order a search without cap, limit or target discovers them from s, once the first n
      of them have been expanded. It depends on the order of the edge rows. */
  function Order(g: Graph, s: Node, n: nat): seq<Node> {
    if n == 0 then [s]
    else
      var before := Order(g, s, n - 1);
      if n - 1 < |before| then AppendUnseen(before, Neighbors(g, before[n - 1])) else before
  }

  /** Element n of the order has the target as a neighbour. */
  ghost predicate HitAt(g: Graph, s: Node, t: Node, n: nat) {
    n < |Order(g, s, n)| && t in Neighbors(g, Order(g, s, n)[n])
  }

  /** Element n is the first to have the target as a neighbour. */
  ghost predicate FirstHit(g: Graph, s: Node, t: Node, n: nat) {
    HitAt(g, s, t, n) && forall k :: 0 <= k < n ==> !HitAt(g, s, t, k)
  }

  /** The target is met while fewer nodes than the cap have been discovered. */
  ghost predicate MetBeforeCap(g: Graph, s: Node, t: Node) {
    exists n :: FirstHit(g, s, t, n) && |Order(g, s, n)| < 10_000
  }

  ghost function Elements(order: seq<Node>): set<Node> {
    set v | v in order
  }

  function NodesOf(queue: seq<Queued>): (nodes: seq<Node>)
    ensures |nodes| == |queue|
  {
    seq(|queue|, i requires 0 <= i < |queue| => queue[i].0)
  }

  /** The visited nodes are those of the order, each once. */
  ghost predicate Discovered(order: seq<Node>, visited: set<Node>) {
    visited == Elements(order) && |visited| == |order|
  }

  /** n nodes have been expanded without meeting the target; the queue is the rest of the order. */
  ghost predicate Aligned(g: Graph, s: Node, t: Node, visited: set<Node>, queue: seq<Queued>, n: nat) {
    var order := Order(g, s, n);
    && n <= |order| && NodesOf(queue) == order[n..]
    && Discovered(order, visited)
    && forall k :: 0 <= k < n ==> !HitAt(g, s, t, k)
  }

  lemma StartAligned(g: Graph, s: Node, t: Node)
    ensures Aligned(g, s, t, {s}, [(s, [s])], 0)
  {
    assert Elements([s]) == {s};
    assert NodesOf([(s, [s])]) == [s];
  }

  lemma {:induction false} AppendKeeps(order: seq<Node>, found: seq<Node>)
    ensures order <= AppendUnseen(order, found)
  {
    if found != [] {
      AppendKeeps(order, found[..|found| - 1]);
    }
  }

  lemma {:induction false} OrderGrows(g: Graph, s: Node, m: nat, n: nat)
    requires m <= n
    ensures Order(g, s, m) <= Order(g, s, n)
    decreases n - m
  {
    hide Neighbors;
    if m < n {
      OrderGrows(g, s, m, n - 1);
      var before := Order(g, s, n - 1);
      if n - 1 < |before| {
        AppendKeeps(before, Neighbors(g, before[n - 1]));
      }
    }
  }

  /** The loop over the neighbours of element n after the first k: the visited nodes and the queue have grown
      with the order. */
  ghost predicate Discovering(
    g: Graph, s: Node, n: nat, found: seq<Node>, seen: set<Node>, waiting: seq<Queued>, k: nat)
  {
    var order := Order(g, s, n);
    && n < |order| && found == Neighbors(g, order[n]) && k <= |found|
    && var longer := AppendUnseen(order, found[..k]);
      && order <= longer
      && NodesOf(waiting) == longer[n + 1..]
      && Discovered(longer, seen)
  }

  lemma BeginDiscovering(g: Graph, s: Node, t: Node, visited: set<Node>, queue: seq<Queued>, n: nat)
    requires Aligned(g, s, t, visited, queue, n) && queue != []
    ensures n < |Order(g, s, n)| && Order(g, s, n)[n] == queue[0].0
    ensures Discovering(g, s, n, Neighbors(g, queue[0].0), visited, queue[1..], 0)
  {
    hide Neighbors, Order, Discovered;
    assert NodesOf(queue)[0] == queue[0].0;
    assert NodesOf(queue[1..]) == NodesOf(queue)[1..];
  }

  lemma DiscoverNext(
    g: Graph, s: Node, n: nat, found: seq<Node>, seen: set<Node>, waiting: seq<Queued>, k: nat, path: seq<Node>)
    requires Discovering(g, s, n, found, seen, waiting, k) && k < |found|
    ensures if found[k] in seen then Discovering(g, s, n, found, seen, waiting, k + 1)
      else Discovering(g, s, n, found, seen + {found[k]}, waiting + [(found[k], path)], k + 1)
  {
    hide Neighbors, Order;
    var order, v := Order(g, s, n), found[k];
    var before := AppendUnseen(order, found[..k]);
    assert found[..k + 1][..k] == found[..k];
    if v !in seen {
      assert Elements(before + [v]) == Elements(before) + {v};
      assert NodesOf(waiting + [(v, path)]) == NodesOf(waiting) + [v];
      assert (before + [v])[n + 1..] == before[n + 1..] + [v];
    }
  }

  lemma EndDiscovering(
    g: Graph, s: Node, t: Node, n: nat, found: seq<Node>, seen: set<Node>, waiting: seq<Queued>)
    requires Discovering(g, s, n, found, seen, waiting, |found|) && t !in found
    requires forall k :: 0 <= k < n ==> !HitAt(g, s, t, k)
    ensures Aligned(g, s, t, seen, waiting, n + 1)
  {
    hide Neighbors, Discovered;
    assert found[..|found|] == found;
  }

  /** `path` ends at the node being expanded; its length fixes the distance of the search. */
  ghost predicate Ready(
    g: Graph, s: Node, t: Node, path: seq<Node>, visited: set<Node>, closed: set<Node>, queue: seq<Queued>)
  {
    && path != [] && Shortest(g, s, path)
    && Searching(g, s, t, visited, closed, {path[|path| - 1]}, queue, |path| - 1)
    && visited <= Universe(g, s)
    && forall i :: 0 <= i < |queue| ==> |queue[i].1| >= 2
  }

  /** The first `k` neighbours have been seen to; nothing was queued unless something new was visited. */
  ghost predicate Expanding(
    g: Graph, s: Node, t: Node, path: seq<Node>, visited: set<Node>, queue: seq<Queued>, closed: set<Node>,
    seen: set<Node>, waiting: seq<Queued>, n: nat, k: nat)
  {
    && Ready(g, s, t, path, seen, closed, waiting)
    && visited <= seen
    && (seen == visited ==> waiting == queue)
    && var neighbors := Neighbors(g, path[|path| - 1]);
      && Discovering(g, s, n, neighbors, seen, waiting, k)
      && k <= |neighbors|
      && forall k' :: 0 <= k' < k ==> neighbors[k'] in seen && neighbors[k'] != t
  }

  lemma BeginExpanding(
    g: Graph, s: Node, t: Node, path: seq<Node>, visited: set<Node>, queue: seq<Queued>, closed: set<Node>, n: nat)
    requires Ready(g, s, t, path, visited, closed, queue)
    requires Discovering(g, s, n, Neighbors(g, path[|path| - 1]), visited, queue, 0)
    ensures path != [] && Expanding(g, s, t, path, visited, queue, closed, visited, queue, n, 0)
  {
    hide Neighbors, Discovering, Shortest, Searching, Universe;
  }

  lemma SeeNeighbor(
    g: Graph, s: Node, t: Node, path: seq<Node>, visited: set<Node>, queue: seq<Queued>, closed: set<Node>,
    seen: set<Node>, waiting: seq<Queued>, n: nat, k: nat)
    requires path != [] && Expanding(g, s, t, path, visited, queue, closed, seen, waiting, n, k)
    requires k < |Neighbors(g, path[|path| - 1])| && Neighbors(g, path[|path| - 1])[k] != t
    ensures var neighbor := Neighbors(g, path[|path| - 1])[k];
      if neighbor in seen then Expanding(g, s, t, path, visited, queue, closed, seen, waiting, n, k + 1)
      else Expanding(g, s, t, path, visited, queue, closed,
        seen + {neighbor}, waiting + [(neighbor, path + [neighbor])], n, k + 1)
  {
    hide Neighbors, Shortest, Searching, Universe, Discovering;
    var neighbor := Neighbors(g, path[|path| - 1])[k];
    DiscoverNext(g, s, n, Neighbors(g, path[|path| - 1]), seen, waiting, k, path + [neighbor]);
    if neighbor !in seen {
      NeighborsInUniverse(g, s, path[|path| - 1], neighbor);
      PushNeighbor(g, s, t, seen, closed, {path[|path| - 1]}, waiting, path, neighbor);
    }
  }

  lemma ExpandDone(
    g: Graph, s: Node, t: Node, path: seq<Node>, visited: set<Node>, queue: seq<Queued>, closed: set<Node>,
    seen: set<Node>, waiting: seq<Queued>, n: nat)
    requires path != []
    requires Expanding(g, s, t, path, visited, queue, closed, seen, waiting, n, |Neighbors(g, path[|path| - 1])|)
    requires forall k :: 0 <= k < n ==> !HitAt(g, s, t, k)
    ensures Searching(g, s, t, seen, closed + {path[|path| - 1]}, {}, waiting, |path| - 1)
    ensures visited <= seen <= Universe(g, s) && (seen == visited ==> waiting == queue)
    ensures forall i :: 0 <= i < |waiting| ==> |waiting[i].1| >= 2
    ensures Aligned(g, s, t, seen, waiting, n + 1)
  {
    hide Neighbors, Shortest, Searching, Universe, Discovering, HitAt, Aligned;
    CloseNode(g, s, t, seen, closed, path[|path| - 1], waiting, |path| - 1);
    EndDiscovering(g, s, t, n, Neighbors(g, path[|path| - 1]), seen, waiting);
  }

  /** The loop over one node's neighbours: stops at the target, else queues every neighbour not yet seen. */
  method Expand(
    g: Graph, fromNode: Node, toNode: Node, currentPath: seq<Node>, visited: set<Node>, queue: seq<Queued>,
    ghost closed: set<Node>, ghost n: nat)
    returns (hit: bool, seen: set<Node>, waiting: seq<Queued>)
    requires Ready(g, fromNode, toNode, currentPath, visited, closed, queue)
    requires Discovering(g, fromNode, n, Neighbors(g, currentPath[|currentPath| - 1]), visited, queue, 0)
    requires forall k :: 0 <= k < n ==> !HitAt(g, fromNode, toNode, k)
    ensures hit ==> toNode in Neighbors(g, currentPath[|currentPath| - 1])
    ensures !hit ==> Searching(g, fromNode, toNode, seen, closed + {currentPath[|currentPath| - 1]}, {},
      waiting, |currentPath| - 1)
    ensures !hit ==> visited <= seen <= Universe(g, fromNode) && (seen == visited ==> waiting == queue)
    ensures !hit ==> forall i :: 0 <= i < |waiting| ==> |waiting[i].1| >= 2
    ensures !hit ==> Aligned(g, fromNode, toNode, seen, waiting, n + 1)
  {
    hide *;
    BeginExpanding(g, fromNode, toNode, currentPath, visited, queue, closed, n);
    var neighbors := Neighbors(g, currentPath[|currentPath| - 1]);
    seen, waiting, hit := visited, queue, false;
    for k := 0 to |neighbors|
      invariant Expanding(g, fromNode, toNode, currentPath, visited, queue, closed, seen, waiting, n, k)
    {
      var neighbor := neighbors[k];
      if neighbor == toNode {
        return true, seen, waiting;
      }
      SeeNeighbor(g, fromNode, toNode, currentPath, visited, queue, closed, seen, waiting, n, k);
      if neighbor !in seen {
        seen := seen + {neighbor};
        waiting := waiting + [(neighbor, currentPath + [neighbor])];
      }
    }
    ExpandDone(g, fromNode, toNode, currentPath, visited, queue, closed, seen, waiting, n);
  }

  /** Between two turns: still searching, or (once a path over the limit came up) the target is out of
      reach and only such paths wait. */
  ghost predicate BetweenTurns(
    g: Graph, s: Node, t: Node, maxDepth: nat, visited: set<Node>, closed: set<Node>, queue: seq<Queued>, d: nat,
    ruledOut: bool)
  {
    && visited <= Universe(g, s)
    && if ruledOut
       then t !in Ball(g, s, maxDepth) && forall i :: 0 <= i < |queue| ==> |queue[i].1| > maxDepth
       else
         && Searching(g, s, t, visited, closed, {}, queue, d)
         && forall i :: 0 <= i < |queue| ==> |queue[i].1| >= 2 || (i == 0 && visited == {s})
  }

  lemma FirstTurn(g: Graph, s: Node, t: Node, maxDepth: nat)
    requires s != t
    ensures BetweenTurns(g, s, t, maxDepth, {s}, {}, [(s, [s])], 0, false)
  {
    StartSearch(g, s, t);
    hide Searching;
  }

  lemma TakeHead(
    g: Graph, s: Node, t: Node, maxDepth: nat, visited: set<Node>, closed: set<Node>, queue: seq<Queued>, d: nat,
    ruledOut: bool)
    requires queue != [] && BetweenTurns(g, s, t, maxDepth, visited, closed, queue, d, ruledOut)
    ensures var (node, path) := queue[0];
      if |path| > maxDepth then BetweenTurns(g, s, t, maxDepth, visited, closed, queue[1..], d, true)
      else
        && Ready(g, s, t, path, visited, closed, queue[1..])
        && node == path[|path| - 1]
        && !ruledOut
        && (|visited| >= MAX_BFS_VISITED_NODES ==> MissedRight(g, s, t, maxDepth))
  {
    hide Ball, Universe, Shortest, MissedRight, Spread, Neighbors, IsWalk, QueueNodes, GoodEntry;
    if !ruledOut {
      var path := queue[0].1;
      HeadFacts(g, s, t, visited, closed, queue, d, maxDepth);
      PopHead(g, s, t, visited, closed, queue, d);
      SearchBounds(g, s, t, visited, closed, {queue[0].0}, queue[1..], |path| - 1);
      hide Searching;
      assert |queue[0].1| == 1 ==> |visited| == 1;
      if |visited| >= MAX_BFS_VISITED_NODES {
        ReportCapped(g, s, t, visited, |path| - 1, maxDepth);
      }
    }
  }

  lemma LastTurn(
    g: Graph, s: Node, t: Node, maxDepth: nat, visited: set<Node>, closed: set<Node>, d: nat, ruledOut: bool)
    requires BetweenTurns(g, s, t, maxDepth, visited, closed, [], d, ruledOut)
    ensures MissedRight(g, s, t, maxDepth) && t !in Ball(g, s, maxDepth)
  {
    hide Ball, Universe, MissedRight;
    if !ruledOut {
      Exhausted(g, s, t, visited, closed, d, maxDepth);
    }
    ReportUnreachable(g, s, t, maxDepth);
  }

  lemma Hit(
    g: Graph, s: Node, t: Node, path: seq<Node>, visited: set<Node>, closed: set<Node>, queue: seq<Queued>,
    maxDepth: nat)
    requires Ready(g, s, t, path, visited, closed, queue) && |path| <= maxDepth
    requires t in Neighbors(g, path[|path| - 1]) && |visited| < MAX_BFS_VISITED_NODES
    ensures FoundRight(g, s, t, maxDepth, BfsPath(true, path + [t], |path|))
  {
    hide Ball, Universe, Shortest, FoundRight, Neighbors;
    ReportFound(g, s, t, visited, path, maxDepth);
  }

  /** One turn of the loop: the answer if it ends the search, else the state for the next turn. */
  method Turn(
    g: Graph, fromNode: Node, toNode: Node, maxDepth: nat, visited: set<Node>, queue: seq<Queued>,
    ghost closed: set<Node>, ghost d: nat, ghost ruledOut: bool, ghost n: nat)
    returns (answer: Option<BfsPath>, seen: set<Node>, waiting: seq<Queued>,
             ghost closed': set<Node>, ghost d': nat, ghost ruledOut': bool)
    requires queue != [] && BetweenTurns(g, fromNode, toNode, maxDepth, visited, closed, queue, d, ruledOut)
    requires !ruledOut ==> Aligned(g, fromNode, toNode, visited, queue, n)
    ensures answer.None? && !ruledOut' ==> Aligned(g, fromNode, toNode, seen, waiting, n + 1)
    ensures answer.Some? ==> (answer.value.found <==> MetBeforeCap(g, fromNode, toNode))
    ensures answer.None? ==> BetweenTurns(g, fromNode, toNode, maxDepth, seen, closed', waiting, d', ruledOut')
    ensures answer.None? ==> visited <= seen && (seen == visited ==> |waiting| < |queue|)
    ensures answer.Some? ==> Answers(g, fromNode, toNode, maxDepth, answer.value)
  {
    hide Ready, BetweenTurns, FoundRight, MissedRight, Searching, Universe, Neighbors;
    hide Aligned, Discovering, MetBeforeCap, HitAt, Order;
    TakeHead(g, fromNode, toNode, maxDepth, visited, closed, queue, d, ruledOut);
    var (currentNode, currentPath) := queue[0];
    answer, seen, waiting, closed', d', ruledOut' := None, visited, queue[1..], closed, d, true;
    if |currentPath| > maxDepth {
      return;
    }
    AlignedMeans(g, fromNode, toNode, visited, queue, n);
    if |visited| >= MAX_BFS_VISITED_NODES {
      answer := Some(NOT_FOUND);
      return;
    }
    var hit;
    BeginDiscovering(g, fromNode, toNode, visited, queue, n);
    hit, seen, waiting := Expand(g, fromNode, toNode, currentPath, visited, queue[1..], closed, n);
    PathNonEmpty(g, fromNode, toNode, currentPath, visited, closed, queue[1..]);
    if hit {
      Hit(g, fromNode, toNode, currentPath, visited, closed, queue[1..], maxDepth);
      answer := Some(BfsPath(true, currentPath + [toNode], |currentPath|));
      return;
    }
    closed', d', ruledOut' := closed + {currentNode}, |currentPath| - 1, false;
    NextTurn(g, fromNode, toNode, maxDepth, seen, closed', waiting, d');
  }

  /** With the cap reached the target is not met in time; below it, a hit now is. */
  lemma AlignedMeans(g: Graph, s: Node, t: Node, visited: set<Node>, queue: seq<Queued>, n: nat)
    requires Aligned(g, s, t, visited, queue, n) && queue != []
    ensures forall k :: 0 <= k < n ==> !HitAt(g, s, t, k)
    ensures |visited| >= MAX_BFS_VISITED_NODES ==> !MetBeforeCap(g, s, t)
    ensures |visited| < MAX_BFS_VISITED_NODES && t in Neighbors(g, queue[0].0) ==> MetBeforeCap(g, s, t)
  {
    hide Neighbors, Order;
    BeginDiscovering(g, s, t, visited, queue, n);
    if |visited| >= MAX_BFS_VISITED_NODES {
      forall m | FirstHit(g, s, t, m)
        ensures |Order(g, s, m)| >= MAX_BFS_VISITED_NODES
      {
        assert HitAt(g, s, t, m);
        OrderGrows(g, s, n, m);
      }
    } else if t in Neighbors(g, queue[0].0) {
      assert FirstHit(g, s, t, n);
    }
  }

  /** The answer is right either way. */
  ghost predicate Answers(g: Graph, s: Node, t: Node, maxDepth: nat, r: BfsPath) {
    if r.found then FoundRight(g, s, t, maxDepth, r) else r == NOT_FOUND && MissedRight(g, s, t, maxDepth)
  }

  method FindPathBfs(g: Graph, fromNode: Node, toNode: Node, maxDepth: nat) returns (r: BfsPath)
    ensures Answers(g, fromNode, toNode, maxDepth, r)
    ensures r.found ==> IsWalk(g, r.path, fromNode, toNode) && r.length == |r.path| - 1 <= maxDepth
    ensures r.found ==> forall p :: IsWalk(g, p, fromNode, toNode) ==> |r.path| <= |p|
    ensures !r.found ==> r.path == [] && r.length == 0
    ensures r.found <==>
      fromNode == toNode || (toNode in Ball(g, fromNode, maxDepth) && MetBeforeCap(g, fromNode, toNode))
  {
    if fromNode == toNode {
      return BfsPath(true, [fromNode], 0);
    }
    StartAligned(g, fromNode, toNode);
    hide Ball, Aligned, MetBeforeCap;
    hide BetweenTurns, FoundRight, MissedRight, Universe;
    var queue: seq<Queued> := [(fromNode, [fromNode])];
    var visited := {fromNode};
    ghost var closed: set<Node>, d: nat, ruledOut, n: nat := {}, 0, false, 0;
    FirstTurn(g, fromNode, toNode, maxDepth);
    while queue != []
      invariant BetweenTurns(g, fromNode, toNode, maxDepth, visited, closed, queue, d, ruledOut)
      invariant !ruledOut ==> Aligned(g, fromNode, toNode, visited, queue, n)
      decreases Universe(g, fromNode) - visited, |queue|
    {
      var answer, seen, waiting;
      answer, seen, waiting, closed, d, ruledOut :=
        Turn(g, fromNode, toNode, maxDepth, visited, queue, closed, d, ruledOut, n);
      if answer.Some? {
        FoundWithin(g, fromNode, toNode, maxDepth, answer.value);
        return answer.value;
      }
      StaysInUniverse(g, fromNode, toNode, maxDepth, seen, closed, waiting, d, ruledOut);
      visited, queue, n := seen, waiting, n + 1;
    }
    LastTurn(g, fromNode, toNode, maxDepth, visited, closed, d, ruledOut);
    return NOT_FOUND;
  }

  lemma FoundWithin(g: Graph, s: Node, t: Node, maxDepth: nat, r: BfsPath)
    requires Answers(g, s, t, maxDepth, r)
    ensures r.found ==> t in Ball(g, s, maxDepth)
  {
    hide Ball, IsWalk, NoRepeats;
    if r.found {
      WalkNonEmpty(g, r.path, s, t);
      WalkInBall(g, r.path, s, t);
      BallGrows(g, s, r.length, maxDepth);
    }
  }

  /** What the cap decides without looking at the order of the rows. A target at distance d is found with a
      path of d edges when d is within the limit and at most the cap's number of nodes lie within d; it is
      missed when d is over the limit, or when that many nodes already lie within d - 1. */
  lemma CapDecides(g: Graph, s: Node, t: Node, maxDepth: nat, d: nat, r: BfsPath)
    requires Answers(g, s, t, maxDepth, r)
    requires d >= 1 && t in Ball(g, s, d) && t !in Ball(g, s, d - 1)
    ensures r.found ==> r.length == d
    ensures d > maxDepth ==> !r.found
    ensures d <= maxDepth && |Ball(g, s, d)| <= 10_000 ==> r.found
    ensures |Ball(g, s, d - 1)| >= 10_000 ==> !r.found
  {
    hide Ball, NoRepeats;
    if r.found {
      WalkNonEmpty(g, r.path, s, t);
      WalkInBall(g, r.path, s, t);
      var p := BallHasWalk(g, s, t, d);
      if r.length < d {
        BallGrows(g, s, r.length, d - 1);
      }
    } else if d <= maxDepth {
      MissedWithin(g, s, t, maxDepth, d);
    }
  }

  function Name(i: nat): Node {
    seq(i, _ => 'a')
  }

  /** A hub with n leaves, and one node behind leaf n. */
  function Star(n: nat): Graph {
    Graph(seq(n + 1, i requires 0 <= i < n + 1 =>
      if i < n then Edge(0, Name(0), Name(i + 1)) else Edge(0, Name(n), Name(n + 1))), 0)
  }

  lemma StarEdges(n: nat, i: nat)
    requires i <= n
    ensures i >= 1 ==> Adjacent(Star(n), Name(0), Name(i))
    ensures Adjacent(Star(n), Name(n), Name(n + 1))
    ensures n >= 1 ==> !Adjacent(Star(n), Name(0), Name(n + 1))
    ensures |Name(i)| == i
  {
    var edges := Star(n).edges;
    assert |Name(0)| == 0 && |Name(n)| == n && |Name(n + 1)| == n + 1;
    assert edges[n] == Edge(0, Name(n), Name(n + 1));
    if i >= 1 {
      assert edges[i - 1] == Edge(0, Name(0), Name(i));
    }
    forall k | 0 <= k < |edges|
      ensures edges[k] != Edge(0, Name(n + 1), Name(0))
      ensures n >= 1 ==> edges[k] != Edge(0, Name(0), Name(n + 1))
    {
      assert |Name(k + 1)| == k + 1;
    }
  }

  lemma {:induction false} NamesCount(names: set<Node>, n: nat)
    requires forall i :: 0 <= i < n ==> Name(i) in names
    ensures |names| >= n
  {
    if n > 0 {
      assert |Name(n - 1)| == n - 1;
      forall i | 0 <= i < n - 1
        ensures Name(i) in names - {Name(n - 1)}
      {
        assert |Name(i)| == i;
      }
      NamesCount(names - {Name(n - 1)}, n - 1);
    }
  }

  /** The cap hides a path: from the hub of a star with at least the cap's number of leaves, no search finds
      the node two edges away. */
  lemma CapHidesPath(n: nat, maxDepth: nat, r: BfsPath)
    requires n >= 10_000 && maxDepth >= 2
    requires Answers(Star(n), Name(0), Name(n + 1), maxDepth, r)
    ensures IsWalk(Star(n), [Name(0), Name(n), Name(n + 1)], Name(0), Name(n + 1))
    ensures !r.found
  {
    hide Star, Name, Ball, Neighbors, Adjacent, Answers;
    var g, s, t, walk := Star(n), Name(0), Name(n + 1), [Name(0), Name(n), Name(n + 1)];
    StarEdges(n, 0);
    StarEdges(n, n);
    StarTarget(n);
    assert IsWalk(g, walk, s, t);
    WalkInBall(g, walk, s, t);
    BallOne(g, s, t);
    forall i | 0 <= i < n + 1
      ensures Name(i) in Ball(g, s, 1)
    {
      StarEdges(n, i);
      BallOne(g, s, Name(i));
    }
    NamesCount(Ball(g, s, 1), n + 1);
    CapDecides(g, s, t, maxDepth, 2, r);
  }

  lemma StarTarget(n: nat)
    ensures Name(n + 1) != Name(0)
  {
    assert |Name(n + 1)| == n + 1 && |Name(0)| == 0;
  }

  lemma StaysInUniverse(
    g: Graph, s: Node, t: Node, maxDepth: nat, visited: set<Node>, closed: set<Node>, queue: seq<Queued>, d: nat,
    ruledOut: bool)
    requires BetweenTurns(g, s, t, maxDepth, visited, closed, queue, d, ruledOut)
    ensures visited <= Universe(g, s)
  {}

  lemma PathNonEmpty(
    g: Graph, s: Node, t: Node, path: seq<Node>, visited: set<Node>, closed: set<Node>, queue: seq<Queued>)
    requires Ready(g, s, t, path, visited, closed, queue)
    ensures path != []
  {}

  lemma NextTurn(
    g: Graph, s: Node, t: Node, maxDepth: nat, visited: set<Node>, closed: set<Node>, queue: seq<Queued>, d: nat)
    requires Searching(g, s, t, visited, closed, {}, queue, d) && visited <= Universe(g, s)
    requires forall i :: 0 <= i < |queue| ==> |queue[i].1| >= 2
    ensures BetweenTurns(g, s, t, maxDepth, visited, closed, queue, d, false)
  {
    hide Searching, Universe;
  }

  lemma SearchBounds(
    g: Graph, s: Node, t: Node, visited: set<Node>, closed: set<Node>, open: set<Node>, queue: seq<Queued>, d: nat)
    requires Searching(g, s, t, visited, closed, open, queue, d)
    ensures t !in visited && Ball(g, s, d) <= visited <= Ball(g, s, d + 1)
  {}

  /** The head of the queue carries a shortest path; when it is too long, the target is too far. */
  lemma HeadFacts(
    g: Graph, s: Node, t: Node, visited: set<Node>, closed: set<Node>, queue: seq<Queued>, d: nat, maxDepth: nat)
    requires Searching(g, s, t, visited, closed, {}, queue, d) && queue != []
    ensures queue[0].1 != [] && Shortest(g, s, queue[0].1)
    ensures queue[0].0 == queue[0].1[|queue[0].1| - 1]
    ensures |queue[0].1| > maxDepth ==> t !in Ball(g, s, maxDepth)
    ensures |queue[0].1| > maxDepth ==> forall i :: 0 <= i < |queue| ==> |queue[i].1| > maxDepth
  {
    hide Ball, Spread, QueueNodes, IsWalk, Neighbors;
    assert GoodEntry(g, s, queue[0], d);
    PopHead(g, s, t, visited, closed, queue, d);
    SearchBounds(g, s, t, visited, closed, {queue[0].0}, queue[1..], |queue[0].1| - 1);
    hide Shortest;
    if |queue[0].1| > maxDepth {
      BallGrows(g, s, maxDepth, |queue[0].1| - 1);
    }
  }

  // ----- visibility -----

  /** Self, the exact distance up to three, or not visible. */
  ghost function DistanceClass(g: Graph, viewer: Node, target: Node): Visibility {
    if viewer == target then Self
    else if target in Ball(g, viewer, 1) then Degree1
    else if target in Ball(g, viewer, 2) then Degree2
    else if target in Ball(g, viewer, 3) then Degree3
    else NotVisible
  }

  /** Some walk has d edges and none has fewer. */
  ghost predicate AtDistance(g: Graph, s: Node, t: Node, d: nat) {
    && (exists p :: IsWalk(g, p, s, t) && |p| - 1 == d)
    && forall p :: IsWalk(g, p, s, t) ==> |p| - 1 >= d
  }

  lemma DistanceIsBall(g: Graph, s: Node, t: Node, d: nat)
    requires d >= 1
    ensures AtDistance(g, s, t, d) <==> t in Ball(g, s, d) && t !in Ball(g, s, d - 1)
  {
    hide Ball, IsWalk;
    forall p | IsWalk(g, p, s, t)
      ensures |p| >= 1 && t in Ball(g, s, |p| - 1)
    {
      WalkNonEmpty(g, p, s, t);
      WalkInBall(g, p, s, t);
    }
    if t in Ball(g, s, d - 1) {
      var p := BallHasWalk(g, s, t, d - 1);
    } else {
      forall p | IsWalk(g, p, s, t)
        ensures |p| - 1 >= d
      {
        if |p| - 1 < d {
          BallGrows(g, s, |p| - 1, d - 1);
        }
      }
      if t in Ball(g, s, d) {
        var p := BallHasWalk(g, s, t, d);
      }
    }
  }

  lemma FartherIsBall(g: Graph, s: Node, t: Node, d: nat)
    ensures t !in Ball(g, s, d) <==> forall p :: IsWalk(g, p, s, t) ==> |p| - 1 > d
  {
    hide Ball, IsWalk;
    if t in Ball(g, s, d) {
      var p := BallHasWalk(g, s, t, d);
    } else {
      forall p | IsWalk(g, p, s, t)
        ensures |p| - 1 > d
      {
        WalkNonEmpty(g, p, s, t);
        WalkInBall(g, p, s, t);
        if |p| - 1 <= d {
          BallGrows(g, s, |p| - 1, d);
        }
      }
    }
  }

  lemma BallZero(g: Graph, s: Node, t: Node)
    ensures t in Ball(g, s, 0) <==> t == s
  {}

  /** The class is the number of edges of a shortest walk. */
  lemma ClassIsDistance(g: Graph, s: Node, t: Node)
    ensures DistanceClass(g, s, t) == Self <==> s == t
    ensures DistanceClass(g, s, t) == Degree1 <==> AtDistance(g, s, t, 1)
    ensures DistanceClass(g, s, t) == Degree2 <==> AtDistance(g, s, t, 2)
    ensures DistanceClass(g, s, t) == Degree3 <==> AtDistance(g, s, t, 3)
    ensures DistanceClass(g, s, t) == NotVisible <==> forall p :: IsWalk(g, p, s, t) ==> |p| - 1 > 3
    ensures DistanceClass(g, s, t) in {Self, Degree1, Degree2, Degree3, NotVisible}
  {
    hide Ball, IsWalk, AtDistance;
    BallZero(g, s, t);
    DistanceIsBall(g, s, t, 1);
    DistanceIsBall(g, s, t, 2);
    DistanceIsBall(g, s, t, 3);
    FartherIsBall(g, s, t, 3);
    BallGrows(g, s, 0, 1);
    BallGrows(g, s, 1, 2);
    BallGrows(g, s, 2, 3);
  }

  /** What the search makes of it: a target not met before the cap is not visible. */
  ghost function VisibilityOf(g: Graph, viewer: Node, target: Node): Visibility {
    if viewer == target || MetBeforeCap(g, viewer, target) then DistanceClass(g, viewer, target) else NotVisible
  }

  /** Never more than the distance allows; self and neighbours are always recognised, and farther targets
      are lost only when more nodes than the search's cap lie within three edges of the viewer. */
  method GetNodeVisibility(g: Graph, viewer: Node, target: Node) returns (v: Visibility)
    ensures v == DistanceClass(g, viewer, target) || v == NotVisible
    ensures |Ball(g, viewer, 3)| <= 10_000 ==> v == DistanceClass(g, viewer, target)
    ensures v == Self <==> viewer == target
    ensures v == Degree1 <==> viewer != target && Adjacent(g, viewer, target)
    ensures v == Degree2 ==> AtDistance(g, viewer, target, 2)
    ensures v == Degree3 ==> AtDistance(g, viewer, target, 3)
    ensures MetBeforeCap(g, viewer, target) && AtDistance(g, viewer, target, 2) ==> v == Degree2
    ensures MetBeforeCap(g, viewer, target) && AtDistance(g, viewer, target, 3) ==> v == Degree3
    ensures v == NotVisible <==>
      && viewer != target
      && (!MetBeforeCap(g, viewer, target) || forall p :: IsWalk(g, p, viewer, target) ==> |p| - 1 > 3)
    ensures v in {Self, Degree1, Degree2, Degree3, NotVisible}
    ensures v == VisibilityOf(g, viewer, target)
  {
    ClassIsDistance(g, viewer, target);
    if viewer == target {
      return Self;
    }
    OutOfReach(g, viewer, target);
    hide Ball, IsWalk, NoRepeats, Adjacent, MetBeforeCap, AtDistance;
    BallOne(g, viewer, target);
    var path := FindPathBfs(g, viewer, target, 3);
    if !path.found {
      MissedMeans(g, viewer, target);
      return NotVisible;
    }
    FoundMeans(g, viewer, target, path);
    match path.length
    case 0 => v := Self;
    case 1 => v := Degree1;
    case 2 => v := Degree2;
    case 3 => v := Degree3;
    case _ => v := NotVisible;
  }

  lemma OutOfReach(g: Graph, viewer: Node, target: Node)
    requires viewer != target
    ensures target !in Ball(g, viewer, 3) <==> DistanceClass(g, viewer, target) == NotVisible
  {
    hide Ball;
    BallGrows(g, viewer, 1, 3);
    BallGrows(g, viewer, 2, 3);
  }

  lemma BallOne(g: Graph, s: Node, t: Node)
    ensures t in Ball(g, s, 1) <==> t == s || Adjacent(g, s, t)
  {
    hide Neighbors, Adjacent;
    NeighborsAreAdjacent(g, s, t);
    assert Ball(g, s, 0) == {s};
    BallUnfold(g, s, 0);
  }

  lemma FoundMeans(g: Graph, viewer: Node, target: Node, r: BfsPath)
    requires viewer != target && FoundRight(g, viewer, target, 3, r)
    ensures 1 <= r.length <= 3
    ensures target in Ball(g, viewer, r.length) && target !in Ball(g, viewer, r.length - 1)
    ensures target !in Ball(g, viewer, 1) || r.length == 1
    ensures target !in Ball(g, viewer, 2) || r.length <= 2
  {
    WalkInBall(g, r.path, viewer, target);
    hide Ball;
    if target in Ball(g, viewer, r.length - 1) {
      var p := BallHasWalk(g, viewer, target, r.length - 1);
    }
    if target in Ball(g, viewer, 1) {
      var p := BallHasWalk(g, viewer, target, 1);
    }
    if target in Ball(g, viewer, 2) {
      var p := BallHasWalk(g, viewer, target, 2);
    }
  }

  /** A target that was missed lies behind a ball larger than the cap, or out of reach. */
  lemma MissedWithin(g: Graph, s: Node, t: Node, maxDepth: nat, k: nat)
    requires MissedRight(g, s, t, maxDepth) && k <= maxDepth && t in Ball(g, s, k)
    ensures k >= 2 && |Ball(g, s, k)| > MAX_BFS_VISITED_NODES
  {
    hide Ball;
    var p := BallHasWalk(g, s, t, k);
    assert |p| >= 3 && |Ball(g, s, |p| - 1)| > MAX_BFS_VISITED_NODES;
    BallGrows(g, s, |p| - 1, k);
    CardinalityMonotone(Ball(g, s, |p| - 1), Ball(g, s, k));
  }

  lemma MissedMeans(g: Graph, viewer: Node, target: Node)
    requires viewer != target && MissedRight(g, viewer, target, 3)
    ensures target !in Ball(g, viewer, 1)
    ensures |Ball(g, viewer, 3)| <= MAX_BFS_VISITED_NODES ==> DistanceClass(g, viewer, target) == NotVisible
  {
    hide Ball, MissedRight;
    BallGrows(g, viewer, 1, 3);
    BallGrows(g, viewer, 2, 3);
    if target in Ball(g, viewer, 1) {
      MissedWithin(g, viewer, target, 3, 1);
    }
    if target in Ball(g, viewer, 3) {
      MissedWithin(g, viewer, target, 3, 3);
    }
  }

  /** Visibility by distance is mutual. */
  lemma DistanceClassSymmetric(g: Graph, a: Node, b: Node)
    ensures DistanceClass(g, a, b) == DistanceClass(g, b, a)
  {
    BallSymmetric(g, a, b, 1);
    BallSymmetric(g, a, b, 2);
    BallSymmetric(g, a, b, 3);
  }

  /** Two nodes see each other alike exactly when neither can see the other by distance, or their searches both
      meet before the cap or both do not. */
  lemma MutualExactly(g: Graph, a: Node, b: Node)
    ensures VisibilityOf(g, a, b) == VisibilityOf(g, b, a) <==>
      || a == b || DistanceClass(g, a, b) == NotVisible
      || (MetBeforeCap(g, a, b) <==> MetBeforeCap(g, b, a))
  {
    hide MetBeforeCap, DistanceClass;
    DistanceClassSymmetric(g, a, b);
  }

  lemma StarFar(n: nat)
    requires n >= 1
    ensures DistanceClass(Star(n), Name(0), Name(n + 1)) == Degree2
    ensures Name(n + 1) !in Neighbors(Star(n), Name(0))
  {
    hide Star, Name, Ball, Neighbors, Adjacent;
    var g, s, t, walk := Star(n), Name(0), Name(n + 1), [Name(0), Name(n), Name(n + 1)];
    StarEdges(n, 0);
    StarEdges(n, n);
    StarTarget(n);
    assert IsWalk(g, walk, s, t);
    WalkInBall(g, walk, s, t);
    BallOne(g, s, t);
    NeighborsAreAdjacent(g, s, t);
  }

  lemma FarNeighbors(n: nat, x: Node)
    requires n >= 1
    ensures x in Neighbors(Star(n), Name(n + 1)) <==> x == Name(n)
    ensures Name(0) in Neighbors(Star(n), Name(n))
    ensures Name(n) != Name(n + 1) && Name(0) != Name(n)
  {
    var g := Star(n);
    NeighborsAreAdjacent(g, Name(n + 1), x);
    NeighborsAreAdjacent(g, Name(n), Name(0));
    hide Neighbors;
    assert |Name(0)| == 0 && |Name(n)| == n && |Name(n + 1)| == n + 1;
    assert g.edges[n] == Edge(0, Name(n), Name(n + 1));
    assert g.edges[n - 1] == Edge(0, Name(0), Name(n));
    forall k | 0 <= k < |g.edges|
      ensures g.edges[k].fromNode != Name(n + 1)
      ensures g.edges[k].toNode == Name(n + 1) ==> g.edges[k].fromNode == Name(n)
    {
      assert |Name(k + 1)| == k + 1;
    }
  }

  lemma {:induction false} AppendOnly(s: Node, v: Node, found: seq<Node>)
    requires s != v && forall i :: 0 <= i < |found| ==> found[i] == v
    ensures AppendUnseen([s], found) == if found == [] then [s] else [s, v]
  {
    if found != [] {
      AppendOnly(s, v, found[..|found| - 1]);
    }
  }

  /** The search from behind the leaf meets the hub with two nodes discovered. */
  lemma FarMeetsHub(n: nat)
    requires n >= 1
    ensures MetBeforeCap(Star(n), Name(n + 1), Name(0))
  {
    hide Star, Name, Neighbors;
    var g, far, leaf, hub := Star(n), Name(n + 1), Name(n), Name(0);
    forall i | 0 <= i < |Neighbors(g, far)|
      ensures Neighbors(g, far)[i] == leaf
    {
      FarNeighbors(n, Neighbors(g, far)[i]);
    }
    FarNeighbors(n, hub);
    FarNeighbors(n, leaf);
    assert Order(g, far, 0) == [far];
    AppendOnly(far, leaf, Neighbors(g, far));
    assert leaf in Neighbors(g, far);
    assert Order(g, far, 1) == [far, leaf];
    assert HitAt(g, far, hub, 1) && !HitAt(g, far, hub, 0);
    assert FirstHit(g, far, hub, 1);
  }

  lemma {:induction false} AppendHas(order: seq<Node>, found: seq<Node>, x: Node)
    ensures x in AppendUnseen(order, found) <==> x in order || x in found
  {
    if found != [] {
      var n := |found| - 1;
      AppendHas(order, found[..n], x);
      assert found == found[..n] + [found[n]];
    }
  }

  lemma {:induction false} ElementsCount(order: seq<Node>)
    ensures |Elements(order)| <= |order|
  {
    if order == [] {
      assert Elements(order) == {};
    } else {
      var n := |order| - 1;
      ElementsCount(order[..n]);
      assert order == order[..n] + [order[n]];
      assert Elements(order) == Elements(order[..n]) + {order[n]};
    }
  }

  /** The search from the hub has discovered all the leaves before it expands the one next to the target. */
  lemma HubMissesFar(n: nat)
    requires n >= 10_000
    ensures !MetBeforeCap(Star(n), Name(0), Name(n + 1))
  {
    hide Star, Name, Neighbors, Adjacent, DistanceClass;
    var g, hub, far := Star(n), Name(0), Name(n + 1);
    StarFar(n);
    forall i | 0 <= i < n + 1
      ensures Name(i) in Elements(Order(g, hub, 1))
    {
      StarEdges(n, i);
      NeighborsAreAdjacent(g, hub, Name(i));
      assert Order(g, hub, 0) == [hub];
      AppendHas([hub], Neighbors(g, hub), Name(i));
    }
    NamesCount(Elements(Order(g, hub, 1)), n + 1);
    ElementsCount(Order(g, hub, 1));
    hide Elements;
    assert !HitAt(g, hub, far, 0) by {
      assert Order(g, hub, 0) == [hub];
    }
    forall m | FirstHit(g, hub, far, m)
      ensures |Order(g, hub, m)| >= MAX_BFS_VISITED_NODES
    {
      OrderGrows(g, hub, 1, m);
    }
  }

  /** Visibility is not mutual: in a star with as many leaves as the cap, the node behind a leaf sees the hub at
      two edges and the hub does not see it. */
  lemma OneSided(n: nat)
    requires n >= 10_000
    ensures VisibilityOf(Star(n), Name(0), Name(n + 1)) == NotVisible
    ensures VisibilityOf(Star(n), Name(n + 1), Name(0)) == Degree2
  {
    hide Star, Name, MetBeforeCap, DistanceClass;
    StarTarget(n);
    StarFar(n);
    HubMissesFar(n);
    FarMeetsHub(n);
    DistanceClassSymmetric(Star(n), Name(0), Name(n + 1));
  }

  // ----- profiles -----

  datatype NodeRow = NodeRow(
    nodeType: string, active: bool, createdAt: string, lastSeenAt: Option<string>, metadataJson: Option<string>)

  datatype Profile = Profile(
    pseudonymId: Node, nodeType: string, active: bool, createdAt: string,
    lastSeenAt: Option<string>, metadataJson: Option<string>, visibility: Visibility)

  datatype GraphError = NodeNotFound(node: Node)

  /** Metadata goes to the participant alone, the last-seen time to the participant and direct neighbours,
      whatever the size of the graph. */
  method GetVisibleProfile(g: Graph, nodes: map<Node, NodeRow>, viewer: Node, target: Node)
    returns (r: Result<Profile, GraphError>)
    ensures r.Err? <==> target !in nodes
    ensures r.Err? ==> r.error == NodeNotFound(target)
    ensures r.Ok? ==>
      var row, profile := nodes[target], r.value;
      && profile.pseudonymId == target
      && (profile.nodeType, profile.active, profile.createdAt) == (row.nodeType, row.active, row.createdAt)
      && profile.metadataJson == (if viewer == target then row.metadataJson else None)
      && profile.lastSeenAt == (if viewer == target || Adjacent(g, viewer, target) then row.lastSeenAt else None)
      && profile.visibility == VisibilityOf(g, viewer, target)
  {
    if target !in nodes {
      return Err(NodeNotFound(target));
    }
    hide Ball, Adjacent;
    var row := nodes[target];
    var visibility := GetNodeVisibility(g, viewer, target);
    var lastSeenAt, metadataJson;
    match visibility {
      case Self => lastSeenAt, metadataJson := row.lastSeenAt, row.metadataJson;
      case Degree1 => lastSeenAt, metadataJson := row.lastSeenAt, None;
      case Degree2 => lastSeenAt, metadataJson := None, None;
      case Degree3 => lastSeenAt, metadataJson := None, None;
      case AggregateOnly => lastSeenAt, metadataJson := None, None;
      case NotVisible => lastSeenAt, metadataJson := None, None;
    }
    r := Ok(Profile(target, row.nodeType, row.active, row.createdAt, lastSeenAt, metadataJson, visibility));
  }
}
