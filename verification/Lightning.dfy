/** Payment routing over the channel graph: breadth-first search with a parent map. */
module Lightning {
  import opened Text

  type Graph = map<string, seq<string>>

  ghost predicate Edge(g: Graph, a: string, b: string) {
    a in g && b in g[a]
  }

  ghost predicate IsPath(g: Graph, p: seq<string>, a: string, b: string) {
    && p != [] && p[0] == a && p[|p| - 1] == b
    && forall i :: 0 <= i < |p| - 1 ==> Edge(g, p[i], p[i + 1])
  }

  ghost predicate Reachable(g: Graph, a: string, b: string) {
    exists p :: IsPath(g, p, a, b)
  }

  /** No channel leads to the empty string, at which the route search stops its way back. */
  ghost predicate NonEmptyAddresses(g: Graph) {
    forall a, b :: Edge(g, a, b) ==> b != ""
  }

  /** The number of channel ends at `a` that lead to `b`. */
  ghost function Links(g: Graph, a: string, b: string): nat {
    if a in g then multiset(g[a])[b] else 0
  }

  ghost predicate Symmetric(g: Graph) {
    forall a, b :: Links(g, a, b) == Links(g, b, a)
  }

  // ---------------------------------------------------------------------------------------------
  // The search state. `dist` is the ghost distance of every discovered address from the source.

  ghost predicate ParentTree(g: Graph, from: string, parent: map<string, string>, dist: map<string, nat>) {
    && parent.Keys == dist.Keys
    && from in dist && dist[from] == 0 && parent[from] == ""
    && (forall v :: v in dist && v != from ==>
          parent[v] in dist && Edge(g, parent[v], v) && dist[v] == dist[parent[v]] + 1)
  }

  /** Discovered addresses are finished, queued, or in `extra`; the queue holds one or two levels, in order. */
  ghost predicate Frontier(dist: map<string, nat>, finished: set<string>, q: seq<string>, extra: set<string>) {
    && NoDup(q)
    && (forall v :: v in q ==> v in dist && v !in finished && v !in extra)
    && (forall v :: v in dist ==> v in finished || v in q || v in extra)
    && (forall v :: v in finished ==> v in dist)
    && (forall i, j :: 0 <= i < j < |q| ==> dist[q[i]] <= dist[q[j]])
  }

  /** Every neighbour of a finished address is discovered, at most one step further. */
  ghost predicate Expanded(g: Graph, dist: map<string, nat>, finished: set<string>) {
    forall v, w :: v in finished && Edge(g, v, w) ==> v in dist && w in dist && dist[w] <= dist[v] + 1
  }

  ghost function Universe(g: Graph, from: string): set<string> {
    {from} + set a, b | a in g && b in g[a] :: b
  }

  /** A path cannot reach the `i`-th address sooner than the search discovered it. */
  lemma {:induction false} PathIsDiscovered(g: Graph, from: string, dist: map<string, nat>, finished: set<string>,
                                            bound: nat, p: seq<string>, to: string, i: nat)
    requires from in dist && dist[from] == 0
    requires Expanded(g, dist, finished)
    requires forall v :: v in dist && dist[v] < bound ==> v in finished
    requires IsPath(g, p, from, to) && i < |p| && i <= bound
    ensures p[i] in dist && dist[p[i]] <= i
  {
    if i > 0 {
      PathIsDiscovered(g, from, dist, finished, bound, p, to, i - 1);
      assert Edge(g, p[i - 1], p[i]);
    }
  }

  /** When everything discovered is finished, an undiscovered address is unreachable. */
  lemma UndiscoveredIsUnreachable(g: Graph, from: string, to: string, dist: map<string, nat>, finished: set<string>)
    requires from in dist && dist[from] == 0
    requires Expanded(g, dist, finished)
    requires forall v :: v in dist ==> v in finished
    requires to !in dist
    ensures !Reachable(g, from, to)
  {
    forall p | IsPath(g, p, from, to) ensures false {
      PathIsDiscovered(g, from, dist, finished, |p|, p, to, |p| - 1);
    }
  }

  /** When everything nearer than `to` is finished, no path to `to` is shorter than its distance. */
  lemma DistanceIsLeast(g: Graph, from: string, to: string, dist: map<string, nat>, finished: set<string>,
                        p: seq<string>)
    requires from in dist && dist[from] == 0
    requires Expanded(g, dist, finished)
    requires to in dist
    requires forall v :: v in dist && dist[v] < dist[to] ==> v in finished
    requires IsPath(g, p, from, to)
    ensures |p| >= dist[to] + 1
  {
    if |p| - 1 <= dist[to] {
      PathIsDiscovered(g, from, dist, finished, dist[to], p, to, |p| - 1);
    }
  }

  /** `graph[a].push_back(b)` adds exactly one link. */
  lemma AddLink(g: Graph, a: string, b: string)
    ensures var h := g[a := (if a in g then g[a] else []) + [b]];
      && (forall x, y :: Links(h, x, y) == Links(g, x, y) + (if x == a && y == b then 1 else 0))
      && (forall x, y :: Edge(h, x, y) <==> Edge(g, x, y) || (x == a && y == b))
  {
    var before := if a in g then g[a] else [];
    var h := g[a := before + [b]];
    forall x, y ensures Edge(h, x, y) <==> Edge(g, x, y) || (x == a && y == b) {
      if x == a {
        assert y in before + [b] <==> y in before || y == b;
      }
    }
  }

  /** `h` is `g` with one more link from `a` to `b` and one more from `b` to `a`, and nothing else. */
  ghost predicate Joined(g: Graph, h: Graph, a: string, b: string) {
    forall x, y :: Links(h, x, y) == Links(g, x, y) + (if x == a && y == b then 1 else 0)
                                                    + (if x == b && y == a then 1 else 0)
  }

  lemma LinksAreEdges(g: Graph, x: string, y: string)
    ensures Edge(g, x, y) <==> Links(g, x, y) > 0
  {
  }

  lemma ChannelKeeps(g: Graph, h: Graph, a: string, b: string)
    requires Joined(g, h, a, b)
    ensures Symmetric(g) ==> Symmetric(h)
    ensures NonEmptyAddresses(g) && a != "" && b != "" ==> NonEmptyAddresses(h)
  {
    forall x, y ensures Edge(h, x, y) ==> Edge(g, x, y) || (x == a && y == b) || (x == b && y == a) {
      LinksAreEdges(g, x, y);
      LinksAreEdges(h, x, y);
    }
  }

  /** The path from the source that the parent map describes. */
  ghost function TreePath(g: Graph, from: string, parent: map<string, string>, dist: map<string, nat>, v: string)
    : (p: seq<string>)
    requires ParentTree(g, from, parent, dist) && v in dist
    ensures p != [] && p[|p| - 1] == v
    decreases dist[v]
  {
    if v == from then [from] else TreePath(g, from, parent, dist, parent[v]) + [v]
  }

  /** It is a path as long as the distance, and distances grow by one along it. */
  lemma {:induction false} TreePathIsPath(g: Graph, from: string, parent: map<string, string>, dist: map<string, nat>,
                                          v: string)
    requires ParentTree(g, from, parent, dist) && v in dist
    ensures var p := TreePath(g, from, parent, dist, v);
      && IsPath(g, p, from, v) && |p| == dist[v] + 1 && NoDup(p)
      && forall i :: 0 <= i < |p| ==> p[i] in dist && dist[p[i]] == i
    decreases dist[v]
  {
    if v != from {
      TreePathIsPath(g, from, parent, dist, parent[v]);
      var q := TreePath(g, from, parent, dist, parent[v]);
      var p := q + [v];
      forall i, j | 0 <= i < j < |p| ensures p[i] != p[j] {
        assert dist[p[i]] == i;
      }
    }
  }

  /** What comes after the last empty string. */
  ghost function AfterEmpty(p: seq<string>): seq<string> {
    if p == [] || p[|p| - 1] == "" then [] else AfterEmpty(p[..|p| - 1]) + [p[|p| - 1]]
  }

  lemma TreePathStep(g: Graph, from: string, parent: map<string, string>, dist: map<string, nat>, v: string)
    requires ParentTree(g, from, parent, dist) && v in dist && v != ""
    ensures AfterEmpty(TreePath(g, from, parent, dist, v)) ==
            (if parent[v] == "" then [] else AfterEmpty(TreePath(g, from, parent, dist, parent[v]))) + [v]
  {
    if v == from {
      assert [from][..0] == [];
    } else {
      var q := TreePath(g, from, parent, dist, parent[v]);
      assert (q + [v])[..|q|] == q;
    }
  }

  lemma {:induction false} AfterEmptyIsSuffix(p: seq<string>)
    ensures |AfterEmpty(p)| <= |p| && AfterEmpty(p) == p[|p| - |AfterEmpty(p)|..]
    ensures "" !in AfterEmpty(p) && ("" !in p <==> AfterEmpty(p) == p)
  {
    if p != [] {
      assert p == p[..|p| - 1] + [p[|p| - 1]];
      AfterEmptyIsSuffix(p[..|p| - 1]);
    }
  }

  /** `hops` is what is left of the shortest path `path` after the empty string. */
  ghost predicate IsRoute(g: Graph, path: seq<string>, a: string, b: string, hops: seq<string>) {
    IsShortest(g, path, a, b) && NoDup(path) && hops == AfterEmpty(path)
  }

  /** A route is a path between the two ends exactly when the path it comes from avoids the empty string. */
  lemma RouteIsWhole(g: Graph, path: seq<string>, a: string, b: string, hops: seq<string>)
    requires IsRoute(g, path, a, b, hops)
    ensures IsPath(g, hops, a, b) <==> "" !in path
    ensures "" !in path <==> hops == path
  {
    AfterEmptyIsSuffix(path);
    if hops != path && hops != [] {
      assert hops[0] == path[|path| - |hops|];
    }
  }

  /** In a graph of non-empty addresses no path from a non-empty address meets the empty string. */
  lemma EmptyIsAvoided(g: Graph, p: seq<string>, a: string, b: string)
    requires NonEmptyAddresses(g) && a != "" && IsPath(g, p, a, b)
    ensures "" !in p
  {
    forall i | 0 <= i < |p| ensures p[i] != "" {
      if i > 0 {
        assert Edge(g, p[i - 1], p[i]);
      }
    }
  }

  /** With the channels of a and b meeting at the empty address, the route from a to b is cut down to b. */
  lemma EmptyAddressCutsRoute(g: Graph, p: seq<string>)
    requires g == map["a" := [""], "" := ["a", "b"], "b" := [""]]
    requires IsShortest(g, p, "a", "b")
    ensures p == ["a", "", "b"] && AfterEmpty(p) == ["b"]
  {
    var q := ["a", "", "b"];
    assert IsPath(g, q, "a", "b");
    assert Edge(g, p[0], p[1]);
    assert q[..2] == ["a", ""] && p == q;
    assert AfterEmpty(q[..2]) == [];
  }

  /** The search between two queue operations. */
  ghost predicate Searching(g: Graph, from: string, parent: map<string, string>, dist: map<string, nat>,
                            finished: set<string>, q: seq<string>) {
    && ParentTree(g, from, parent, dist)
    && Frontier(dist, finished, q, {})
    && Expanded(g, dist, finished)
    && dist.Keys <= Universe(g, from)
    && (q != [] ==> forall v :: v in dist ==> dist[v] <= dist[q[0]] + 1)
  }

  /** The search while the neighbours of the dequeued address `cur` are being discovered. */
  ghost predicate Expanding(g: Graph, from: string, parent: map<string, string>, dist: map<string, nat>,
                            finished: set<string>, q: seq<string>, cur: string) {
    && ParentTree(g, from, parent, dist)
    && Frontier(dist, finished, q, {cur}) && cur in dist && cur !in finished
    && Expanded(g, dist, finished)
    && dist.Keys <= Universe(g, from)
    && (forall v :: v in q ==> dist[cur] <= dist[v])
    && (forall v :: v in dist ==> dist[v] <= dist[cur] + 1)
  }

  lemma Dequeue(g: Graph, from: string, parent: map<string, string>, dist: map<string, nat>,
                finished: set<string>, q: seq<string>)
    requires Searching(g, from, parent, dist, finished, q) && q != []
    ensures Expanding(g, from, parent, dist, finished, q[1..], q[0])
  {
    assert q == [q[0]] + q[1..];
    forall v | v in q[1..] ensures dist[q[0]] <= dist[v] && v != q[0] {
      var i :| 0 <= i < |q[1..]| && q[1..][i] == v;
      assert q[i + 1] == v;
    }
  }

  lemma Finish(g: Graph, from: string, parent: map<string, string>, dist: map<string, nat>,
               finished: set<string>, q: seq<string>, cur: string)
    requires Expanding(g, from, parent, dist, finished, q, cur)
    requires forall w :: Edge(g, cur, w) ==> w in dist
    ensures Searching(g, from, parent, dist, finished + {cur}, q)
  {
    if q != [] {
      assert q[0] in q;
    }
  }

  lemma Start(g: Graph, from: string)
    ensures Searching(g, from, map[from := ""], map[from := 0], {}, [from])
  {
  }

  /** The distance at which `to` is dequeued is the least possible. */
  lemma NoneShorter(g: Graph, from: string, parent: map<string, string>, dist: map<string, nat>,
                    finished: set<string>, q: seq<string>, to: string)
    requires Expanding(g, from, parent, dist, finished, q, to)
    ensures forall p :: IsPath(g, p, from, to) ==> |p| >= dist[to] + 1
  {
    forall p | IsPath(g, p, from, to) ensures |p| >= dist[to] + 1 {
      DistanceIsLeast(g, from, to, dist, finished, p);
    }
  }

  lemma Exhausted(g: Graph, from: string, parent: map<string, string>, dist: map<string, nat>,
                  finished: set<string>, to: string)
    requires Searching(g, from, parent, dist, finished, [])
    requires to !in finished
    ensures !Reachable(g, from, to)
  {
    UndiscoveredIsUnreachable(g, from, to, dist, finished);
  }

  lemma DiscoverTree(g: Graph, from: string, parent: map<string, string>, dist: map<string, nat>,
                     cur: string, nb: string)
    requires ParentTree(g, from, parent, dist)
    requires cur in dist && Edge(g, cur, nb) && nb !in dist
    ensures ParentTree(g, from, parent[nb := cur], dist[nb := dist[cur] + 1])
  {
    var p, d := parent[nb := cur], dist[nb := dist[cur] + 1];
    forall v | v in d && v != from ensures p[v] in d && Edge(g, p[v], v) && d[v] == d[p[v]] + 1 {
      if v != nb {
        assert parent[v] in dist;
      }
    }
  }

  lemma DiscoverFrontier(dist: map<string, nat>, finished: set<string>, q: seq<string>, cur: string, nb: string)
    requires Frontier(dist, finished, q, {cur}) && cur in dist && nb !in dist
    requires forall v :: v in dist ==> dist[v] <= dist[cur] + 1
    ensures Frontier(dist[nb := dist[cur] + 1], finished, q + [nb], {cur})
  {
    var r := q + [nb];
    forall i, j | 0 <= i < j < |r| ensures r[i] != r[j] {
      assert r[i] == q[i] && q[i] in q;
    }
  }

  /** `parent[nb] = cur; q.push(nb);` for a new neighbour `nb`. */
  lemma Discover(g: Graph, from: string, parent: map<string, string>, dist: map<string, nat>,
                 finished: set<string>, q: seq<string>, cur: string, nb: string)
    requires Expanding(g, from, parent, dist, finished, q, cur)
    requires Edge(g, cur, nb) && nb !in dist
    ensures Expanding(g, from, parent[nb := cur], dist[nb := dist[cur] + 1], finished, q + [nb], cur)
  {
    DiscoverTree(g, from, parent, dist, cur, nb);
    DiscoverFrontier(dist, finished, q, cur, nb);
  }

  class LightningNetwork {
    var graph: Graph
    var channelMap: map<string, string>

    constructor ()
      ensures graph == map[] && channelMap == map[]
    {
      graph, channelMap := map[], map[];
    }

    method RegisterNode(addr: string)
      modifies this`graph
      ensures forall x, y :: Links(graph, x, y) == Links(old(graph), x, y)
      ensures graph.Keys == old(graph.Keys) + {addr}
    {
      if addr !in graph {
        graph := graph[addr := []];
      }
    }

    /** Adds one channel end at each party and nothing else, so symmetry is kept. */
    method AddChannel(channelId: string, nodeA: string, nodeB: string)
      modifies this
      ensures Joined(old(graph), graph, nodeA, nodeB)
      ensures old(Symmetric(graph)) ==> Symmetric(graph)
      ensures old(NonEmptyAddresses(graph)) && nodeA != "" && nodeB != "" ==> NonEmptyAddresses(graph)
      ensures channelMap == old(channelMap)[nodeA + nodeB := channelId][nodeB + nodeA := channelId]
    {
      ghost var g0 := graph;
      graph := graph[nodeA := (if nodeA in graph then graph[nodeA] else []) + [nodeB]];
      AddLink(g0, nodeA, nodeB);
      ghost var g1 := graph;
      graph := graph[nodeB := (if nodeB in graph then graph[nodeB] else []) + [nodeA]];
      AddLink(g1, nodeB, nodeA);
      ChannelKeeps(g0, graph, nodeA, nodeB);
      channelMap := channelMap[nodeA + nodeB := channelId];
      channelMap := channelMap[nodeB + nodeA := channelId];
    }

    /**
     * Without a path there are no hops and the fee is an uninitialised value. Otherwise the hops are what a
     * shortest path leaves after the empty string, and each intermediate hop costs 10. From a non-empty address
     * in a graph of non-empty addresses they are such a path themselves.
     */
    method FindRoute(from: string, to: string, amount: nat) returns (hops: seq<string>, totalFee: int)
      ensures !Reachable(graph, from, to) ==> hops == []
      ensures Reachable(graph, from, to) ==>
                && (exists path :: IsRoute(graph, path, from, to, hops))
                && totalFee == if |hops| > 2 then 10 * (|hops| - 2) else 0
      ensures Reachable(graph, from, to) && from != "" && NonEmptyAddresses(graph) ==>
                IsShortest(graph, hops, from, to) && NoDup(hops)
    {
      var parent := map[from := ""];
      var q := [from];
      ghost var dist: map<string, nat> := map[from := 0];
      ghost var finished: set<string> := {};
      Start(graph, from);

      ghost var reached := false;
      while q != []
        invariant Searching(graph, from, parent, dist, finished, q)
        invariant to !in finished && !reached
        decreases Universe(graph, from) - finished
      {
        var cur := q[0];
        Dequeue(graph, from, parent, dist, finished, q);
        q := q[1..];
        if cur == to {
          reached := true;
          break;
        }
        if cur in graph {
          parent, q, dist := Expand(graph, from, cur, parent, q, dist, finished);
        }
        Finish(graph, from, parent, dist, finished, q, cur);
        finished := finished + {cur};
      }
      assert reached <==> to in parent;

      if to !in parent {
        Exhausted(graph, from, parent, dist, finished, to);
        return [], *;
      }
      ghost var path := TreePath(graph, from, parent, dist, to);
      TreePathIsPath(graph, from, parent, dist, to);
      NoneShorter(graph, from, parent, dist, finished, q, to);
      hops := Rebuild(graph, parent, dist, from, to);
      totalFee := if |hops| > 2 then (|hops| - 2) * 10 else 0;
      assert IsRoute(graph, path, from, to, hops);
      if from != "" && NonEmptyAddresses(graph) {
        EmptyIsAvoided(graph, path, from, to);
        RouteIsWhole(graph, path, from, to, hops);
      }
    }
  }

  /** The search invariant while the first `n` neighbours of `cur` have been looked at. */
  ghost predicate Scanning(g: Graph, from: string, parent: map<string, string>, dist: map<string, nat>,
                           finished: set<string>, q: seq<string>, cur: string, n: nat) {
    && Expanding(g, from, parent, dist, finished, q, cur)
    && cur in g && n <= |g[cur]|
    && forall j :: 0 <= j < n ==> g[cur][j] in dist
  }

  lemma Scanned(g: Graph, from: string, parent: map<string, string>, dist: map<string, nat>,
                finished: set<string>, q: seq<string>, cur: string)
    requires cur in g && Scanning(g, from, parent, dist, finished, q, cur, |g[cur]|)
    ensures forall w :: Edge(g, cur, w) ==> w in dist
  {
    forall w | Edge(g, cur, w) ensures w in dist {
      var j :| 0 <= j < |g[cur]| && g[cur][j] == w;
    }
  }

  /** The inner loop of the search: discover the neighbours of `cur`. */
  method Expand(g: Graph, from: string, cur: string, parent0: map<string, string>, q0: seq<string>,
                ghost dist0: map<string, nat>, ghost finished: set<string>)
    returns (parent: map<string, string>, q: seq<string>, ghost dist: map<string, nat>)
    requires cur in g
    requires Expanding(g, from, parent0, dist0, finished, q0, cur)
    ensures Expanding(g, from, parent, dist, finished, q, cur)
    ensures forall w :: Edge(g, cur, w) ==> w in dist
  {
    parent, q, dist := parent0, q0, dist0;
    for i := 0 to |g[cur]|
      invariant Scanning(g, from, parent, dist, finished, q, cur, i)
    {
      parent, q, dist := Visit(g, from, cur, i, parent, q, dist, finished);
    }
    Scanned(g, from, parent, dist, finished, q, cur);
  }

  /** One neighbour: enqueued with its parent unless already discovered. */
  method Visit(g: Graph, from: string, cur: string, i: nat, parent0: map<string, string>, q0: seq<string>,
               ghost dist0: map<string, nat>, ghost finished: set<string>)
    returns (parent: map<string, string>, q: seq<string>, ghost dist: map<string, nat>)
    requires cur in g && i < |g[cur]|
    requires Scanning(g, from, parent0, dist0, finished, q0, cur, i)
    ensures Scanning(g, from, parent, dist, finished, q, cur, i + 1)
  {
    parent, q, dist := parent0, q0, dist0;
    var nb := g[cur][i];
    if nb !in parent {
      Discover(g, from, parent, dist, finished, q, cur, nb);
      parent := parent[nb := cur];
      q := q + [nb];
      dist := dist[nb := dist[cur] + 1];
    }
  }

  /** Follows the parent map back from `to` until the empty string. */
  method Rebuild(g: Graph, parent: map<string, string>, ghost dist: map<string, nat>, from: string, to: string)
    returns (hops: seq<string>)
    requires ParentTree(g, from, parent, dist) && to in dist
    ensures hops == AfterEmpty(TreePath(g, from, parent, dist, to))
  {
    hops := [];
    var cur := to;
    ghost var route := AfterEmpty(TreePath(g, from, parent, dist, to));
    while cur != ""
      invariant if cur == "" then hops == route
                else cur in dist && route == AfterEmpty(TreePath(g, from, parent, dist, cur)) + hops
      decreases if cur == "" then 0 else dist[cur] + 1
    {
      TreePathStep(g, from, parent, dist, cur);
      hops := [cur] + hops;
      cur := parent[cur];
    }
  }

  // ---------------------------------------------------------------------------------------------
  // Routes in the symmetric graphs that `AddChannel` builds.

  lemma ReversedPath(g: Graph, p: seq<string>, a: string, b: string)
    requires Symmetric(g) && IsPath(g, p, a, b)
    ensures IsPath(g, Reverse(p), b, a)
  {
    var r := Reverse(p);
    forall i | 0 <= i < |r| - 1 ensures Edge(g, r[i], r[i + 1]) {
      var x, y := r[i + 1], r[i];
      assert Edge(g, p[|p| - 2 - i], p[|p| - 1 - i]);
      LinksAreEdges(g, x, y);
      assert Links(g, x, y) == Links(g, y, x);
      LinksAreEdges(g, y, x);
    }
  }

  ghost predicate IsShortest(g: Graph, p: seq<string>, a: string, b: string) {
    IsPath(g, p, a, b) && forall r :: IsPath(g, r, a, b) ==> |p| <= |r|
  }

  /** Paying back costs what paying costs: a route exists both ways or neither, and the shortest have one length. */
  lemma RoutesAreReversible(g: Graph, a: string, b: string)
    requires Symmetric(g)
    ensures Reachable(g, a, b) <==> Reachable(g, b, a)
    ensures forall p, q :: IsShortest(g, p, a, b) && IsShortest(g, q, b, a) ==> |p| == |q|
  {
    if p :| IsPath(g, p, a, b) {
      ReversedPath(g, p, a, b);
    }
    if p :| IsPath(g, p, b, a) {
      ReversedPath(g, p, b, a);
    }
    forall p, q | IsShortest(g, p, a, b) && IsShortest(g, q, b, a) ensures |p| == |q| {
      ReversedPath(g, p, a, b);
      ReversedPath(g, q, b, a);
    }
  }
}
