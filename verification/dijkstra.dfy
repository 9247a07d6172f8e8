/**
 * The shortest-path search of packages/core/src/dijkstra.ts: a priority
 * queue kept in order by a stable sort, Dijkstra's algorithm with lazy
 * deletion (a node may sit in the queue several times; stale entries are
 * skipped once the node is visited) and `getPath`, which follows the
 * `previous` links back from the target.
 *
 * Nodes are numbered `0 .. |g| - 1` and a node's edges are listed in the
 * order the program's `for … in` visits its neighbours. `Infinity` is
 * `None`, and `null` in `previous` is `None` too.
 */
module ShortestPath {
  import opened Types

  datatype Edge = Edge(to: nat, weight: nat)

  /** `Graph`: the weighted edges leaving each node. */
  type Graph = seq<seq<Edge>>

  /** Every edge ends at a node of the graph. */
  predicate Closed(g: Graph)
  {
    forall u, k | 0 <= u < |g| && 0 <= k < |g[u]| :: g[u][k].to < |g|
  }

  /** Every edge leads to a higher-numbered node (the graph is acyclic and numbered in topological order). */
  predicate Forward(g: Graph)
  {
    forall u, k | 0 <= u < |g| && 0 <= k < |g[u]| :: u < g[u][k].to
  }

  // ---------------------------------------------------------------- the priority queue

  datatype Entry = Entry(node: nat, priority: nat)

  predicate Sorted(q: seq<Entry>)
  {
    forall i, j | 0 <= i < j < |q| :: q[i].priority <= q[j].priority
  }

  /** How many leading entries have a priority of at most `p`. */
  function Position(q: seq<Entry>, p: nat): (k: nat)
    ensures k <= |q|
  {
    if |q| == 0 || p < q[0].priority then 0 else 1 + Position(q[1..], p)
  }

  /**
   * `enqueue`: push the entry and sort by priority. The sort is stable, so
   * on an ordered queue the new entry lands after every entry whose
   * priority is lower or equal (see `EnqueueStable`).
   */
  function Enqueue(q: seq<Entry>, e: Entry): (r: seq<Entry>)
    ensures |r| == |q| + 1
  {
    var k := Position(q, e.priority);
    q[..k] + [e] + q[k..]
  }

  lemma {:induction false} PositionSplit(q: seq<Entry>, p: nat)
    requires Sorted(q)
    ensures forall i | 0 <= i < Position(q, p) :: q[i].priority <= p
    ensures forall i | Position(q, p) <= i < |q| :: p < q[i].priority
    decreases |q|
  {
    if |q| > 0 && q[0].priority <= p {
      PositionSplit(q[1..], p);
      forall i | 0 < i < |q|
        ensures q[i] == q[1..][i - 1]
      {
      }
    }
  }

  /** Where each entry of `enqueue`'s result comes from. */
  lemma EnqueueAt(q: seq<Entry>, e: Entry, i: nat)
    requires i <= |q|
    ensures var k := Position(q, e.priority);
      Enqueue(q, e)[i] == if i < k then q[i] else if i == k then e else q[i - 1]
  {
  }

  lemma EnqueueSorted(q: seq<Entry>, e: Entry)
    requires Sorted(q)
    ensures Sorted(Enqueue(q, e))
  {
    var r := Enqueue(q, e);
    PositionSplit(q, e.priority);
    forall i, j | 0 <= i < j < |r|
      ensures r[i].priority <= r[j].priority
    {
      EnqueueAt(q, e, i);
      EnqueueAt(q, e, j);
    }
  }

  /**
   * `enqueue` on an ordered queue is a stable sort of `q + [e]`: the result
   * is ordered, the old entries keep their order, and the new entry follows
   * exactly the old entries of lower or equal priority.
   */
  lemma EnqueueStable(q: seq<Entry>, e: Entry)
    requires Sorted(q)
    ensures var r := Enqueue(q, e);
      var k := Position(q, e.priority);
      && Sorted(r)
      && r[k] == e
      && r[..k] + r[k + 1..] == q
      && (forall i | 0 <= i < k :: q[i].priority <= e.priority)
      && (forall i | k <= i < |q| :: e.priority < q[i].priority)
  {
    EnqueueSorted(q, e);
    PositionSplit(q, e.priority);
    EnqueueSplit(q, e);
  }

  lemma EnqueueSplit(q: seq<Entry>, e: Entry)
    ensures var r := Enqueue(q, e);
      var k := Position(q, e.priority);
      r[k] == e && r[..k] + r[k + 1..] == q
  {
    var r := Enqueue(q, e);
    var k := Position(q, e.priority);
    assert r[..k] == q[..k] && r[k + 1..] == q[k..];
    assert q == q[..k] + q[k..];
  }

  /** `dequeue`: the front entry's node and the rest of the queue; nothing from an empty queue. */
  function Dequeue(q: seq<Entry>): (r: (Option<nat>, seq<Entry>))
    ensures r.0.None? <==> |q| == 0
    ensures |q| > 0 ==> multiset(r.1) + multiset{Entry(r.0.value, q[0].priority)} == multiset(q)
  {
    if |q| == 0 then (None, q)
    else
      assert q == [q[0]] + q[1..];
      (Some(q[0].node), q[1..])
  }

  /** On an ordered queue, `dequeue` hands out an entry of the lowest priority. */
  lemma DequeueMinimum(q: seq<Entry>, x: Entry)
    requires Sorted(q) && x in q
    ensures Dequeue(q).0.Some?
    ensures q[0].node == Dequeue(q).0.value && q[0].priority <= x.priority
  {
  }

  // ---------------------------------------------------------------- the search

  /** The four tables of the loop: `distances`, `previous`, `pq` and `visited`. */
  datatype State = State(dist: seq<Option<nat>>, prev: seq<Option<nat>>, queue: seq<Entry>, visited: seq<bool>)

  /** `dijkstra`'s result. */
  datatype Paths = Paths(distances: seq<Option<nat>>, previous: seq<Option<nat>>)

  /** The tables cover the graph and every queued node has a distance. */
  predicate Shaped(g: Graph, st: State)
  {
    && |st.dist| == |g| && |st.prev| == |g| && |st.visited| == |g|
    && forall x | x in st.queue :: x.node < |g| && st.dist[x.node].Some?
  }

  /** Every distance infinite and every link `null`, except `distances[start] = 0`, with `start` queued. */
  function Init(g: Graph, start: nat): (st: State)
    requires start < |g|
    ensures Shaped(g, st)
  {
    State(seq(|g|, v requires 0 <= v < |g| => if v == start then Some(0) else None),
      seq(|g|, v => None), [Entry(start, 0)], seq(|g|, v => false))
  }

  /** `newDist < distances[neighbor]`, with `None` as `Infinity`. */
  predicate Shorter(d: nat, current: Option<nat>)
  {
    current.None? || d < current.value
  }

  /** Relaxing the `k`-th edge of `u`: record a shorter distance, link and queue it. */
  function RelaxEdge(g: Graph, st: State, u: nat, k: nat): (r: State)
    requires Closed(g) && Shaped(g, st) && u < |g| && k < |g[u]| && st.dist[u].Some?
    ensures Shaped(g, r) && r.visited == st.visited && r.dist[u].Some?
  {
    var e := g[u][k];
    var d := st.dist[u].value + e.weight;
    if Shorter(d, st.dist[e.to]) then
      State(st.dist[e.to := Some(d)], st.prev[e.to := Some(u)], Enqueue(st.queue, Entry(e.to, d)), st.visited)
    else
      st
  }

  /** The inner loop over the neighbours of `u`, from its `k`-th edge on. */
  function Relax(g: Graph, st: State, u: nat, k: nat): (r: State)
    requires Closed(g) && Shaped(g, st) && u < |g| && k <= |g[u]| && st.dist[u].Some?
    ensures Shaped(g, r) && r.visited == st.visited
    decreases |g[u]| - k
  {
    if k == |g[u]| then st else Relax(g, RelaxEdge(g, st, u, k), u, k + 1)
  }

  /** How many nodes are not yet visited. */
  function Unvisited(visited: seq<bool>): nat
  {
    if |visited| == 0 then 0 else (if visited[0] then 0 else 1) + Unvisited(visited[1..])
  }

  lemma {:induction false} UnvisitedMark(visited: seq<bool>, u: nat)
    requires u < |visited| && !visited[u]
    ensures Unvisited(visited[u := true]) + 1 == Unvisited(visited)
  {
    if u > 0 {
      assert visited[u := true][1..] == visited[1..][u - 1 := true];
      UnvisitedMark(visited[1..], u - 1);
    }
  }

  /**
   * One turn of the outer loop: dequeue a node; skip it when visited,
   * otherwise mark it visited and relax its edges.
   */
  function Step(g: Graph, st: State): (r: State)
    requires Closed(g) && Shaped(g, st) && |st.queue| > 0
    ensures Shaped(g, r)
    ensures Unvisited(r.visited) < Unvisited(st.visited) || (r.visited == st.visited && |r.queue| < |st.queue|)
  {
    var (node, rest) := Dequeue(st.queue);
    var u := node.value;
    assert st.queue[0] in st.queue;
    if st.visited[u] then
      st.(queue := rest)
    else
      UnvisitedMark(st.visited, u);
      Relax(g, st.(queue := rest, visited := st.visited[u := true]), u, 0)
  }

  /** The outer loop, until the queue is empty. */
  function Run(g: Graph, st: State): (r: State)
    requires Closed(g) && Shaped(g, st)
    ensures Shaped(g, r) && |r.queue| == 0
    decreases Unvisited(st.visited), |st.queue|
  {
    if |st.queue| == 0 then st else Run(g, Step(g, st))
  }

  /** `dijkstra(graph, start)` */
  function Dijkstra(g: Graph, start: nat): (r: Paths)
    requires Closed(g) && start < |g|
    ensures |r.distances| == |g| && |r.previous| == |g|
  {
    var st := Run(g, Init(g, start));
    Paths(st.dist, st.prev)
  }

  // ---------------------------------------------------------------- getPath

  /** Every link points to a lower-numbered node, so following links ends. */
  predicate Backward(previous: seq<Option<nat>>)
  {
    forall v | 0 <= v < |previous| && previous[v].Some? :: previous[v].value < v
  }

  /** The nodes `getPath` pushes: `v`, its link, that node's link, … up to a node without one. */
  function Trace(previous: seq<Option<nat>>, v: nat): (t: seq<nat>)
    requires Backward(previous) && v < |previous|
    ensures |t| > 0 && t[0] == v
    decreases v
  {
    if previous[v].None? then [v] else [v] + Trace(previous, previous[v].value)
  }

  function Reverse(s: seq<nat>): (r: seq<nat>)
    ensures |r| == |s|
    ensures forall i | 0 <= i < |s| :: r[i] == s[|s| - 1 - i]
  {
    if |s| == 0 then [] else Reverse(s[1..]) + [s[0]]
  }

  /** `getPath`: the traced nodes reversed, or `[]` when the trace does not end at `start`. */
  function GetPath(previous: seq<Option<nat>>, start: nat, target: nat): (path: seq<nat>)
    requires Backward(previous) && target < |previous|
    ensures path != [] ==> path[0] == start && path[|path| - 1] == target
  {
    var t := Trace(previous, target);
    if t[|t| - 1] != start then [] else Reverse(t)
  }

  // ---------------------------------------------------------------- walks

  /** `q` is a walk through the graph whose `i`-th step is an edge of weight `ws[i]`. */
  predicate Walk(g: Graph, q: seq<nat>, ws: seq<nat>)
  {
    && |q| == |ws| + 1
    && forall i | 0 <= i < |ws| :: q[i] < |g| && Edge(q[i + 1], ws[i]) in g[q[i]]
  }

  function Sum(ws: seq<nat>): nat
  {
    if |ws| == 0 then 0 else Sum(ws[..|ws| - 1]) + ws[|ws| - 1]
  }

  lemma WalkPrefix(g: Graph, q: seq<nat>, ws: seq<nat>)
    requires Walk(g, q, ws) && |ws| > 0
    ensures Walk(g, q[..|q| - 1], ws[..|ws| - 1])
  {
  }

  lemma WalkExtend(g: Graph, q: seq<nat>, ws: seq<nat>, v: nat, w: nat)
    requires Walk(g, q, ws) && q[|q| - 1] < |g| && Edge(v, w) in g[q[|q| - 1]]
    ensures Walk(g, q + [v], ws + [w]) && Sum(ws + [w]) == Sum(ws) + w
  {
    assert (ws + [w])[..|ws|] == ws;
  }

  // ---------------------------------------------------------------- the loop invariant

  /** Every queued entry is no better than its node's recorded distance. */
  predicate Covered(dist: seq<Option<nat>>, queue: seq<Entry>)
  {
    forall x | x in queue :: x.node < |dist| && dist[x.node].Some? && dist[x.node].value <= x.priority
  }

  /** An unvisited node with a distance is queued at exactly that distance. */
  predicate Pending(dist: seq<Option<nat>>, visited: seq<bool>, queue: seq<Entry>)
    requires |dist| == |visited|
  {
    forall v | 0 <= v < |dist| && !visited[v] && dist[v].Some? :: Entry(v, dist[v].value) in queue
  }

  /** No queued entry undercuts `bound`. */
  predicate Above(queue: seq<Entry>, bound: nat)
  {
    forall x | x in queue :: bound <= x.priority
  }

  /** Every visited node has a distance of at most `bound`. */
  predicate Within(dist: seq<Option<nat>>, visited: seq<bool>, bound: nat)
    requires |dist| == |visited|
  {
    forall v | 0 <= v < |dist| && visited[v] :: dist[v].Some? && dist[v].value <= bound
  }

  /** A visited node has a distance no queued entry undercuts. */
  predicate Settled(dist: seq<Option<nat>>, visited: seq<bool>, queue: seq<Entry>)
    requires |dist| == |visited|
  {
    forall v | 0 <= v < |dist| && visited[v] :: dist[v].Some? && Above(queue, dist[v].value)
  }

  /** The first `k` edges of `v` lead to nodes at least as close as `v` plus the edge. */
  predicate Relaxed(g: Graph, dist: seq<Option<nat>>, v: nat, k: nat)
    requires Closed(g) && |dist| == |g| && v < |g| && k <= |g[v]|
  {
    forall j | 0 <= j < k :: EdgeRelaxed(g, dist, v, j)
  }

  /** The `j`-th edge of `v` leads to a node at least as close as `v` plus the edge. */
  predicate EdgeRelaxed(g: Graph, dist: seq<Option<nat>>, v: nat, j: nat)
    requires Closed(g) && |dist| == |g| && v < |g| && j < |g[v]|
  {
    dist[v].Some? && dist[g[v][j].to].Some? && dist[g[v][j].to].value <= dist[v].value + g[v][j].weight
  }

  /** Every visited node other than `except` has had all its edges relaxed. */
  predicate AllRelaxed(g: Graph, dist: seq<Option<nat>>, visited: seq<bool>, except: int)
    requires Closed(g) && |dist| == |g| && |visited| == |g|
  {
    forall v {:trigger Relaxed(g, dist, v, |g[v]|)} | 0 <= v < |g| && visited[v] && v != except ::
      Relaxed(g, dist, v, |g[v]|)
  }

  /** Every link comes from a visited node along an edge that accounts for the whole difference in distance. */
  predicate Linked(g: Graph, dist: seq<Option<nat>>, prev: seq<Option<nat>>, visited: seq<bool>)
    requires |dist| == |g| && |prev| == |g| && |visited| == |g|
  {
    forall v | 0 <= v < |g| && prev[v].Some? ::
      var u := prev[v].value;
      && u < |g| && visited[u] && dist[u].Some? && dist[v].Some?
      && dist[u].value <= dist[v].value
      && Edge(v, dist[v].value - dist[u].value) in g[u]
  }

  /** `start` is at distance 0 without a link, and every other reached node has a link. */
  predicate Rooted(dist: seq<Option<nat>>, prev: seq<Option<nat>>, start: nat)
    requires |dist| == |prev|
  {
    && start < |dist| && dist[start] == Some(0) && prev[start].None?
    && forall v {:trigger prev[v]} | 0 <= v < |dist| && v != start && dist[v].Some? :: prev[v].Some?
  }

  /** The facts every turn of the outer loop keeps. */
  predicate Inv(g: Graph, st: State, start: nat)
  {
    && Closed(g) && Shaped(g, st) && Sorted(st.queue) && Covered(st.dist, st.queue)
    && Pending(st.dist, st.visited, st.queue) && Settled(st.dist, st.visited, st.queue)
    && AllRelaxed(g, st.dist, st.visited, -1) && Linked(g, st.dist, st.prev, st.visited)
    && Rooted(st.dist, st.prev, start)
  }

  /** The facts the inner loop keeps while relaxing the edges of the just-visited node `u`. */
  predicate RelaxInv(g: Graph, st: State, start: nat, u: nat, k: nat)
  {
    && Closed(g) && Shaped(g, st) && u < |g| && k <= |g[u]|
    && Sorted(st.queue) && Covered(st.dist, st.queue)
    && Pending(st.dist, st.visited, st.queue) && Settled(st.dist, st.visited, st.queue)
    && AllRelaxed(g, st.dist, st.visited, u) && Relaxed(g, st.dist, u, k)
    && Linked(g, st.dist, st.prev, st.visited) && Rooted(st.dist, st.prev, start)
    && st.visited[u] && st.dist[u].Some? && Within(st.dist, st.visited, st.dist[u].value)
  }

  lemma InitInv(g: Graph, start: nat)
    requires Closed(g) && start < |g|
    ensures Inv(g, Init(g, start), start)
  {
    var st := Init(g, start);
    assert Pending(st.dist, st.visited, st.queue) by {
      forall v | 0 <= v < |st.dist| && !st.visited[v] && st.dist[v].Some?
        ensures Entry(v, st.dist[v].value) in st.queue
      {
        assert v == start;
      }
    }
  }

  // ------------------------------------------------ facts about one relaxation that records a shorter distance

  /** The entries of a queue after `enqueue`: the old ones and the new one. */
  lemma EnqueueMembers(q: seq<Entry>, e: Entry)
    ensures forall x | x in Enqueue(q, e) :: x in q || x == e
    ensures forall x | x in q :: x in Enqueue(q, e)
    ensures e in Enqueue(q, e)
  {
    EnqueuePermutes(q, e);
  }

  /** `enqueue` only adds the new entry: the result is a permutation of `q + [e]`. */
  lemma EnqueuePermutes(q: seq<Entry>, e: Entry)
    ensures multiset(Enqueue(q, e)) == multiset(q) + multiset{e}
  {
    var k := Position(q, e.priority);
    assert q == q[..k] + q[k..];
  }

  lemma CoveredUpdate(dist: seq<Option<nat>>, queue: seq<Entry>, v: nat, d: nat)
    requires Covered(dist, queue) && v < |dist| && Shorter(d, dist[v])
    ensures Covered(dist[v := Some(d)], Enqueue(queue, Entry(v, d)))
  {
    EnqueueMembers(queue, Entry(v, d));
  }

  lemma PendingUpdate(dist: seq<Option<nat>>, visited: seq<bool>, queue: seq<Entry>, v: nat, d: nat)
    requires |dist| == |visited| && v < |dist| && Pending(dist, visited, queue)
    ensures Pending(dist[v := Some(d)], visited, Enqueue(queue, Entry(v, d)))
  {
    EnqueueMembers(queue, Entry(v, d));
  }

  lemma SettledUpdate(dist: seq<Option<nat>>, visited: seq<bool>, queue: seq<Entry>, v: nat, d: nat, bound: nat)
    requires |dist| == |visited| && v < |dist| && !visited[v]
    requires Settled(dist, visited, queue) && Within(dist, visited, bound) && bound <= d
    ensures Settled(dist[v := Some(d)], visited, Enqueue(queue, Entry(v, d)))
    ensures Within(dist[v := Some(d)], visited, bound)
  {
    EnqueueMembers(queue, Entry(v, d));
  }

  /** `dist'` records every distance `dist` does, and none larger. */
  predicate Improves(dist: seq<Option<nat>>, dist': seq<Option<nat>>)
  {
    && |dist'| == |dist|
    && forall x | 0 <= x < |dist| && dist[x].Some? :: dist'[x].Some? && dist'[x].value <= dist[x].value
  }

  lemma RelaxedImproves(g: Graph, dist: seq<Option<nat>>, dist': seq<Option<nat>>, w: nat)
    requires Closed(g) && |dist| == |g| && w < |g| && Improves(dist, dist') && dist'[w] == dist[w]
    requires Relaxed(g, dist, w, |g[w]|)
    ensures Relaxed(g, dist', w, |g[w]|)
  {
    forall j | 0 <= j < |g[w]|
      ensures EdgeRelaxed(g, dist', w, j)
    {
      assert EdgeRelaxed(g, dist, w, j);
    }
  }

  lemma AllRelaxedUpdate(g: Graph, dist: seq<Option<nat>>, visited: seq<bool>, u: nat, v: nat, d: nat)
    requires Closed(g) && |dist| == |g| && |visited| == |g| && v < |g|
    requires AllRelaxed(g, dist, visited, u) && !visited[v] && Shorter(d, dist[v])
    ensures AllRelaxed(g, dist[v := Some(d)], visited, u)
  {
    var dist' := dist[v := Some(d)];
    assert Improves(dist, dist');
    forall w | 0 <= w < |g| && visited[w] && w != u
      ensures Relaxed(g, dist', w, |g[w]|)
    {
      RelaxedImproves(g, dist, dist', w);
    }
  }

  lemma RelaxedUpdate(g: Graph, dist: seq<Option<nat>>, u: nat, k: nat, d: nat)
    requires Closed(g) && |dist| == |g| && u < |g| && k < |g[u]| && dist[u].Some?
    requires Relaxed(g, dist, u, k) && g[u][k].to != u
    requires d == dist[u].value + g[u][k].weight && Shorter(d, dist[g[u][k].to])
    ensures Relaxed(g, dist[g[u][k].to := Some(d)], u, k + 1)
  {
    var dist' := dist[g[u][k].to := Some(d)];
    forall j | 0 <= j < k + 1
      ensures EdgeRelaxed(g, dist', u, j)
    {
      if j < k {
        assert EdgeRelaxed(g, dist, u, j);
      }
    }
  }

  lemma LinkedUpdate(g: Graph, dist: seq<Option<nat>>, prev: seq<Option<nat>>, visited: seq<bool>, u: nat, k: nat, d: nat)
    requires |dist| == |g| && |prev| == |g| && |visited| == |g| && u < |g| && k < |g[u]|
    requires Linked(g, dist, prev, visited) && Closed(g)
    requires visited[u] && dist[u].Some? && !visited[g[u][k].to]
    requires d == dist[u].value + g[u][k].weight
    ensures Linked(g, dist[g[u][k].to := Some(d)], prev[g[u][k].to := Some(u)], visited)
  {
    var v := g[u][k].to;
    assert g[u][k] == Edge(v, d - dist[u].value);
  }

  lemma RootedUpdate(dist: seq<Option<nat>>, prev: seq<Option<nat>>, start: nat, u: nat, v: nat, d: nat)
    requires |dist| == |prev| && v < |dist| && Rooted(dist, prev, start) && Shorter(d, dist[v])
    ensures Rooted(dist[v := Some(d)], prev[v := Some(u)], start)
  {
  }

  /** A relaxation that finds nothing shorter changes nothing but the count of relaxed edges. */
  lemma RelaxKeep(g: Graph, dist: seq<Option<nat>>, u: nat, k: nat)
    requires Closed(g) && |dist| == |g| && u < |g| && k < |g[u]| && dist[u].Some?
    requires Relaxed(g, dist, u, k) && !Shorter(dist[u].value + g[u][k].weight, dist[g[u][k].to])
    ensures Relaxed(g, dist, u, k + 1)
  {
    assert forall j | 0 <= j < k :: EdgeRelaxed(g, dist, u, j);
  }

  /** The node a shorter distance is found for is unvisited, and is neither `u` nor `start`. */
  lemma RelaxTarget(g: Graph, st: State, start: nat, u: nat, k: nat)
    requires RelaxInv(g, st, start, u, k) && k < |g[u]|
    requires Shorter(st.dist[u].value + g[u][k].weight, st.dist[g[u][k].to])
    ensures !st.visited[g[u][k].to] && g[u][k].to != u
  {
  }

  lemma ShapedUpdate(g: Graph, st: State, v: nat, d: nat, u: nat)
    requires Shaped(g, st) && v < |g|
    ensures Shaped(g, State(st.dist[v := Some(d)], st.prev[v := Some(u)], Enqueue(st.queue, Entry(v, d)), st.visited))
  {
    EnqueueMembers(st.queue, Entry(v, d));
  }

  /** Relaxing `u`'s `k`-th edge when it gives a shorter distance. */
  lemma RelaxShorter(g: Graph, st: State, start: nat, u: nat, k: nat)
    requires RelaxInv(g, st, start, u, k) && k < |g[u]|
    requires Shorter(st.dist[u].value + g[u][k].weight, st.dist[g[u][k].to])
    ensures var v, d := g[u][k].to, st.dist[u].value + g[u][k].weight;
      RelaxInv(g, State(st.dist[v := Some(d)], st.prev[v := Some(u)], Enqueue(st.queue, Entry(v, d)), st.visited), start, u, k + 1)
  {
    var v, d := g[u][k].to, st.dist[u].value + g[u][k].weight;
    RelaxTarget(g, st, start, u, k);
    ShapedUpdate(g, st, v, d, u);
    EnqueueSorted(st.queue, Entry(v, d));
    CoveredUpdate(st.dist, st.queue, v, d);
    PendingUpdate(st.dist, st.visited, st.queue, v, d);
    SettledUpdate(st.dist, st.visited, st.queue, v, d, st.dist[u].value);
    AllRelaxedUpdate(g, st.dist, st.visited, u, v, d);
    RelaxedUpdate(g, st.dist, u, k, d);
    LinkedUpdate(g, st.dist, st.prev, st.visited, u, k, d);
    RootedUpdate(st.dist, st.prev, start, u, v, d);
    assert st.dist[v := Some(d)][u] == st.dist[u];
  }

  lemma RelaxKeepInv(g: Graph, st: State, start: nat, u: nat, k: nat)
    requires RelaxInv(g, st, start, u, k) && k < |g[u]|
    requires !Shorter(st.dist[u].value + g[u][k].weight, st.dist[g[u][k].to])
    ensures RelaxInv(g, st, start, u, k + 1)
  {
    RelaxKeep(g, st.dist, u, k);
  }

  /** What relaxing `u`'s `k`-th edge does, in each case. */
  lemma RelaxEdgeCases(g: Graph, st: State, u: nat, k: nat)
    requires Closed(g) && Shaped(g, st) && u < |g| && k < |g[u]| && st.dist[u].Some?
    ensures var v, d := g[u][k].to, st.dist[u].value + g[u][k].weight;
      RelaxEdge(g, st, u, k) ==
        if Shorter(d, st.dist[v]) then State(st.dist[v := Some(d)], st.prev[v := Some(u)], Enqueue(st.queue, Entry(v, d)), st.visited)
        else st
  {
  }

  /** Relaxing one edge keeps the inner loop's invariant. */
  lemma RelaxEdgeInv(g: Graph, st: State, start: nat, u: nat, k: nat)
    requires RelaxInv(g, st, start, u, k) && k < |g[u]|
    ensures RelaxInv(g, RelaxEdge(g, st, u, k), start, u, k + 1)
  {
    RelaxEdgeCases(g, st, u, k);
    if Shorter(st.dist[u].value + g[u][k].weight, st.dist[g[u][k].to]) {
      RelaxShorter(g, st, start, u, k);
    } else {
      RelaxKeepInv(g, st, start, u, k);
    }
  }

  lemma {:induction false} RelaxInvAll(g: Graph, st: State, start: nat, u: nat, k: nat)
    requires RelaxInv(g, st, start, u, k)
    ensures Inv(g, Relax(g, st, u, k), start)
    decreases |g[u]| - k
  {
    if k == |g[u]| {
      assert AllRelaxed(g, st.dist, st.visited, -1);
    } else {
      RelaxEdgeInv(g, st, start, u, k);
      RelaxInvAll(g, RelaxEdge(g, st, u, k), start, u, k + 1);
    }
  }

  // ------------------------------------------------ facts about one turn of the outer loop

  lemma SortedTail(q: seq<Entry>)
    requires Sorted(q) && |q| > 0
    ensures Sorted(q[1..]) && Above(q[1..], q[0].priority)
  {
  }

  lemma CoveredTail(dist: seq<Option<nat>>, queue: seq<Entry>)
    requires Covered(dist, queue) && |queue| > 0
    ensures Covered(dist, queue[1..])
  {
    assert forall x | x in queue[1..] :: x in queue;
  }

  /** Dropping the front entry, whose node `u` is now visited, leaves every other pending node queued. */
  lemma PendingTail(dist: seq<Option<nat>>, visited: seq<bool>, queue: seq<Entry>, u: nat)
    requires |dist| == |visited| && |queue| > 0 && queue[0].node == u && u < |visited| && visited[u]
    requires Pending(dist, visited, queue)
    ensures Pending(dist, visited, queue[1..])
  {
    forall v | 0 <= v < |dist| && !visited[v] && dist[v].Some?
      ensures Entry(v, dist[v].value) in queue[1..]
    {
      assert Entry(v, dist[v].value) in queue;
    }
  }

  lemma SettledTail(dist: seq<Option<nat>>, visited: seq<bool>, queue: seq<Entry>)
    requires |dist| == |visited| && |queue| > 0 && Settled(dist, visited, queue)
    ensures Settled(dist, visited, queue[1..])
  {
    assert forall x | x in queue[1..] :: x in queue;
  }

  /** The front entry of an unvisited node is queued at exactly its distance. */
  lemma FrontIsCurrent(dist: seq<Option<nat>>, visited: seq<bool>, queue: seq<Entry>)
    requires |dist| == |visited| && |queue| > 0 && Sorted(queue) && Covered(dist, queue)
    requires Pending(dist, visited, queue) && !visited[queue[0].node]
    ensures dist[queue[0].node] == Some(queue[0].priority)
  {
    var u := queue[0].node;
    assert queue[0] in queue;
    DequeueMinimum(queue, Entry(u, dist[u].value));
  }

  /** Marking the front node `u` visited: it joins the settled nodes, and every visited node is within its distance. */
  lemma VisitSettles(dist: seq<Option<nat>>, visited: seq<bool>, queue: seq<Entry>, u: nat)
    requires |dist| == |visited| && |queue| > 0 && queue[0].node == u && u < |dist|
    requires Sorted(queue) && Settled(dist, visited, queue) && dist[u] == Some(queue[0].priority)
    ensures Settled(dist, visited[u := true], queue[1..])
    ensures Within(dist, visited[u := true], queue[0].priority)
  {
    SortedTail(queue);
    assert queue[0] in queue;
  }

  lemma VisitPending(dist: seq<Option<nat>>, visited: seq<bool>, queue: seq<Entry>, u: nat)
    requires |dist| == |visited| && |queue| > 0 && queue[0].node == u && u < |dist|
    requires Pending(dist, visited, queue)
    ensures Pending(dist, visited[u := true], queue[1..])
  {
    forall v | 0 <= v < |dist| && !visited[u := true][v] && dist[v].Some?
      ensures Entry(v, dist[v].value) in queue[1..]
    {
      assert Entry(v, dist[v].value) in queue;
    }
  }

  lemma VisitRelaxed(g: Graph, dist: seq<Option<nat>>, visited: seq<bool>, u: nat)
    requires Closed(g) && |dist| == |g| && |visited| == |g| && u < |g|
    requires AllRelaxed(g, dist, visited, -1)
    ensures AllRelaxed(g, dist, visited[u := true], u) && Relaxed(g, dist, u, 0)
  {
  }

  lemma VisitLinked(g: Graph, dist: seq<Option<nat>>, prev: seq<Option<nat>>, visited: seq<bool>, u: nat)
    requires |dist| == |g| && |prev| == |g| && |visited| == |g| && u < |g|
    requires Linked(g, dist, prev, visited)
    ensures Linked(g, dist, prev, visited[u := true])
  {
  }

  /** Visiting the front node sets up the inner loop's invariant. */
  lemma VisitInv(g: Graph, st: State, start: nat)
    requires Inv(g, st, start) && |st.queue| > 0 && !st.visited[st.queue[0].node]
    ensures var u := st.queue[0].node;
      RelaxInv(g, st.(queue := st.queue[1..], visited := st.visited[u := true]), start, u, 0)
  {
    var u := st.queue[0].node;
    FrontIsCurrent(st.dist, st.visited, st.queue);
    SortedTail(st.queue);
    CoveredTail(st.dist, st.queue);
    VisitPending(st.dist, st.visited, st.queue, u);
    VisitSettles(st.dist, st.visited, st.queue, u);
    VisitRelaxed(g, st.dist, st.visited, u);
    VisitLinked(g, st.dist, st.prev, st.visited, u);
  }

  /** Skipping a stale entry of a visited node. */
  lemma SkipInv(g: Graph, st: State, start: nat)
    requires Inv(g, st, start) && |st.queue| > 0 && st.visited[st.queue[0].node]
    ensures Inv(g, st.(queue := st.queue[1..]), start)
  {
    SortedTail(st.queue);
    CoveredTail(st.dist, st.queue);
    PendingTail(st.dist, st.visited, st.queue, st.queue[0].node);
    SettledTail(st.dist, st.visited, st.queue);
  }

  lemma StepInv(g: Graph, st: State, start: nat)
    requires Inv(g, st, start) && |st.queue| > 0
    ensures Inv(g, Step(g, st), start)
  {
    var u := st.queue[0].node;
    if st.visited[u] {
      SkipInv(g, st, start);
    } else {
      VisitInv(g, st, start);
      RelaxInvAll(g, st.(queue := st.queue[1..], visited := st.visited[u := true]), start, u, 0);
    }
  }

  lemma {:induction false} RunInv(g: Graph, st: State, start: nat)
    requires Inv(g, st, start)
    ensures Inv(g, Run(g, st), start)
    decreases Unvisited(st.visited), |st.queue|
  {
    if |st.queue| > 0 {
      StepInv(g, st, start);
      RunInv(g, Step(g, st), start);
    }
  }

  /** The state the search ends in satisfies the invariant with an empty queue. */
  lemma FinalInv(g: Graph, start: nat)
    requires Closed(g) && start < |g|
    ensures var st := Run(g, Init(g, start)); Inv(g, st, start) && |st.queue| == 0
  {
    InitInv(g, start);
    RunInv(g, Init(g, start), start);
  }

  // ---------------------------------------------------------------- what the search computes

  /** With the queue empty, every node with a distance has been visited and relaxed. */
  lemma ReachedRelaxed(g: Graph, st: State, start: nat, u: nat)
    requires Inv(g, st, start) && |st.queue| == 0 && u < |g| && st.dist[u].Some?
    ensures Relaxed(g, st.dist, u, |g[u]|)
  {
  }

  /** Every walk from `start` reaches a node whose final distance is at most the walk's weight. */
  lemma {:induction false} NoShorterWalk(g: Graph, st: State, start: nat, q: seq<nat>, ws: seq<nat>)
    requires Inv(g, st, start) && |st.queue| == 0
    requires Walk(g, q, ws) && q[0] == start
    ensures q[|q| - 1] < |g| && st.dist[q[|q| - 1]].Some? && st.dist[q[|q| - 1]].value <= Sum(ws)
    decreases |ws|
  {
    if |ws| > 0 {
      WalkPrefix(g, q, ws);
      NoShorterWalk(g, st, start, q[..|q| - 1], ws[..|ws| - 1]);
      var u, v := q[|q| - 2], q[|q| - 1];
      assert u == q[..|q| - 1][|q| - 2];
      assert Edge(v, ws[|ws| - 1]) in g[u];
      var j :| 0 <= j < |g[u]| && g[u][j] == Edge(v, ws[|ws| - 1]);
      ReachedRelaxed(g, st, start, u);
      assert EdgeRelaxed(g, st.dist, u, j);
    }
  }

  /** On a forward graph every link points back to a lower-numbered node. */
  lemma LinksBackward(g: Graph, st: State, start: nat)
    requires Inv(g, st, start) && Forward(g)
    ensures Backward(st.prev)
  {
    forall v | 0 <= v < |st.prev| && st.prev[v].Some?
      ensures st.prev[v].value < v
    {
      var u := st.prev[v].value;
      var j :| 0 <= j < |g[u]| && g[u][j] == Edge(v, st.dist[v].value - st.dist[u].value);
    }
  }

  lemma ReverseCons(v: nat, t: seq<nat>)
    ensures Reverse([v] + t) == Reverse(t) + [v]
  {
    assert ([v] + t)[1..] == t;
  }

  /** A link of `v` is a visited node, an edge away, no farther than `v`. */
  lemma LinkEdge(g: Graph, st: State, start: nat, v: nat)
    requires Inv(g, st, start) && v < |g| && st.prev[v].Some?
    ensures var u := st.prev[v].value;
      && u < |g| && st.dist[u].Some? && st.dist[v].Some? && st.dist[u].value <= st.dist[v].value
      && Edge(v, st.dist[v].value - st.dist[u].value) in g[u]
  {
  }

  /**
   * Following links back from a reached node `v` ends at `start`, and read
   * forwards it is a walk whose weight is `v`'s distance.
   */
  lemma {:induction false} TraceWalk(g: Graph, st: State, start: nat, v: nat) returns (ws: seq<nat>)
    requires Inv(g, st, start) && Backward(st.prev)
    requires v < |g| && st.dist[v].Some?
    ensures var t := Trace(st.prev, v);
      t[|t| - 1] == start && Walk(g, Reverse(t), ws) && Sum(ws) == st.dist[v].value
    decreases v
  {
    if st.prev[v].None? {
      assert Rooted(st.dist, st.prev, start);
      ws := [];
    } else {
      var u := st.prev[v].value;
      LinkEdge(g, st, start, v);
      var ws0 := TraceWalk(g, st, start, u);
      var w := st.dist[v].value - st.dist[u].value;
      var t0 := Trace(st.prev, u);
      assert Trace(st.prev, v) == [v] + t0;
      ReverseCons(v, t0);
      WalkExtend(g, Reverse(t0), ws0, v, w);
      ws := ws0 + [w];
    }
  }

  /** A target without a distance has no path. */
  lemma UnreachedNoPath(g: Graph, st: State, start: nat, target: nat)
    requires Inv(g, st, start) && Backward(st.prev) && target < |g| && st.dist[target].None?
    ensures GetPath(st.prev, start, target) == []
  {
    assert st.prev[target].None? by {
      if st.prev[target].Some? {
        LinkEdge(g, st, start, target);
      }
    }
  }

  /** On a forward graph the links `dijkstra` returns all point backwards, so `getPath` can follow them. */
  lemma DijkstraBackward(g: Graph, start: nat)
    requires Closed(g) && Forward(g) && start < |g|
    ensures Backward(Dijkstra(g, start).previous)
  {
    FinalInv(g, start);
    LinksBackward(g, Run(g, Init(g, start)), start);
  }

  /**
   * `dijkstra` followed by `getPath` on a forward graph: when the target is
   * reached the path is a walk from `start` to the target whose weight is
   * the target's distance, otherwise it is empty; and every walk from
   * `start` to the target reaches it and weighs at least its distance.
   */
  lemma ShortestPathCorrect(g: Graph, start: nat, target: nat, q: seq<nat>, ws: seq<nat>) returns (pathWeights: seq<nat>)
    requires Closed(g) && Forward(g) && start < |g| && target < |g|
    ensures var r := Dijkstra(g, start);
      Backward(r.previous) &&
      var path := GetPath(r.previous, start, target);
      && (r.distances[target].Some? ==>
            path != [] && Walk(g, path, pathWeights) && Sum(pathWeights) == r.distances[target].value)
      && (r.distances[target].None? ==> path == [])
      && (Walk(g, q, ws) && q[0] == start && q[|q| - 1] == target ==>
            r.distances[target].Some? && r.distances[target].value <= Sum(ws))
  {
    var st := Run(g, Init(g, start));
    FinalInv(g, start);
    LinksBackward(g, st, start);
    pathWeights := [];
    if st.dist[target].Some? {
      pathWeights := TraceWalk(g, st, start, target);
    } else {
      UnreachedNoPath(g, st, start, target);
    }
    if Walk(g, q, ws) && q[0] == start && q[|q| - 1] == target {
      NoShorterWalk(g, st, start, q, ws);
    }
  }
}
