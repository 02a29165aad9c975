/** The shortest path tree of util/dijkstra: the topology built from lists of nodes and
    edges, and the computation that settles one node per round. */
module Dijkstra {
  import opened Options

  datatype Node = Node(name: string)

  datatype Edge = Edge(nodeA: Node, nodeB: Node, distance: int)

  datatype Path = Path(edges: seq<Edge>, distance: int)

  type SPT = map<Node, Path>

  /** `distance == UNKNOWN` marks a node no edge has reached yet. */
  const UNKNOWN := -1

  /** A run either returns a tree or dereferences the nil `next` of an empty selection. */
  datatype Outcome = Tree(spt: SPT) | NilDereference

  // ---------------------------------------------------------------- graphs and walks

  /** The distance the last edge from `a` to `b` in the list carries. */
  ghost function LastDistance(edges: seq<Edge>, a: Node, b: Node): (r: Option<int>) {
    if edges == [] then None
    else
      var e := edges[|edges| - 1];
      if e.nodeA == a && e.nodeB == b then Some(e.distance)
      else LastDistance(edges[..|edges| - 1], a, b)
  }

  ghost predicate HasEdge(edges: map<Node, map<Node, int>>, e: Edge) {
    e.nodeA in edges && e.nodeB in edges[e.nodeA] && edges[e.nodeA][e.nodeB] == e.distance
  }

  ghost predicate NonNegative(edges: map<Node, map<Node, int>>) {
    forall e: Edge :: HasEdge(edges, e) ==> e.distance >= 0
  }

  /** A chain of topology edges from `source` to `target` that only enters nodes of `within`. */
  ghost predicate IsWalk(edges: map<Node, map<Node, int>>, within: set<Node>,
                         source: Node, walk: seq<Edge>, target: Node)
  {
    if walk == [] then source == target
    else
      var last := walk[|walk| - 1];
      && last.nodeB == target
      && target in within
      && HasEdge(edges, last)
      && IsWalk(edges, within, source, walk[..|walk| - 1], last.nodeA)
  }

  function TotalDistance(walk: seq<Edge>): (d: int) {
    if walk == [] then 0
    else TotalDistance(walk[..|walk| - 1]) + walk[|walk| - 1].distance
  }

  ghost predicate Reachable(edges: map<Node, map<Node, int>>, within: set<Node>, source: Node, target: Node) {
    exists walk :: IsWalk(edges, within, source, walk, target)
  }

  /** `p` describes a walk to `v`: its edges chain up and their distances sum to its distance. */
  ghost predicate DescribesWalk(edges: map<Node, map<Node, int>>, within: set<Node>,
                                source: Node, p: Path, v: Node)
  {
    IsWalk(edges, within, source, p.edges, v) && TotalDistance(p.edges) == p.distance
  }

  ghost predicate Minimal(edges: map<Node, map<Node, int>>, within: set<Node>,
                          source: Node, distance: int, v: Node)
  {
    forall walk :: IsWalk(edges, within, source, walk, v) ==> distance <= TotalDistance(walk)
  }

  ghost predicate AllReachable(edges: map<Node, map<Node, int>>, within: set<Node>, source: Node) {
    forall v :: v in within ==> Reachable(edges, within, source, v)
  }

  /** Every node has a chain of edges from the source to it, none shorter exists, and the
      distances along it sum to the stored distance. */
  ghost predicate IsShortestPathTree(edges: map<Node, map<Node, int>>, within: set<Node>, source: Node, spt: SPT) {
    && spt.Keys == within
    && forall v :: v in within ==>
         && DescribesWalk(edges, within, source, spt[v], v)
         && Minimal(edges, within, source, spt[v].distance, v)
  }

  // ---------------------------------------------------------------- the state of a run

  /** What every round keeps. `settled` are the nodes already taken from the unmarked set. */
  ghost predicate Progress(edges: map<Node, map<Node, int>>, within: set<Node>, source: Node,
                           spt: SPT, settled: set<Node>)
  {
    && spt.Keys == within
    && source in settled && settled <= within
    && (forall v :: v in within ==>
          spt[v].distance == UNKNOWN || (0 <= spt[v].distance && DescribesWalk(edges, within, source, spt[v], v)))
    && (forall u :: u in settled ==> spt[u].distance != UNKNOWN)
    && (forall u :: u in settled ==> Minimal(edges, within, source, spt[u].distance, u))
  }

  /** No edge from `u` to a node of `targets` can improve the tree. */
  ghost predicate RelaxedTowards(edges: map<Node, map<Node, int>>, spt: SPT, u: Node, targets: set<Node>)
    requires u in spt
  {
    forall v :: u in edges && v in edges[u] && v in targets && v in spt ==>
      spt[v].distance != UNKNOWN && spt[v].distance <= spt[u].distance + edges[u][v]
  }

  /** The state at the head of the main loop: only `from` still has edges to look at. */
  ghost predicate BeforeRound(edges: map<Node, map<Node, int>>, within: set<Node>, source: Node,
                              spt: SPT, settled: set<Node>, from: Node)
  {
    && Progress(edges, within, source, spt, settled)
    && from in settled
    && forall u :: u in settled - {from} ==> RelaxedTowards(edges, spt, u, within)
  }

  /** The state after the relaxation of a round. */
  ghost predicate Relaxed(edges: map<Node, map<Node, int>>, within: set<Node>, source: Node,
                          spt: SPT, settled: set<Node>)
  {
    && Progress(edges, within, source, spt, settled)
    && forall u :: u in settled ==> RelaxedTowards(edges, spt, u, within)
  }

  lemma ExtendWalk(edges: map<Node, map<Node, int>>, within: set<Node>, source: Node,
                   p: Path, u: Node, v: Node)
    requires DescribesWalk(edges, within, source, p, u)
    requires v in within && u in edges && v in edges[u]
    ensures DescribesWalk(edges, within, source,
                          Path(p.edges + [Edge(u, v, edges[u][v])], p.distance + edges[u][v]), v)
  {
    var e := Edge(u, v, edges[u][v]);
    assert (p.edges + [e])[..|p.edges|] == p.edges;
  }

  /** Every walk that ends outside the settled nodes is at least as long as the shortest
      entry the relaxed frontier offers: the heart of Dijkstra's argument. */
  lemma {:induction false} FrontierBound(edges: map<Node, map<Node, int>>, within: set<Node>, source: Node,
                                         spt: SPT, settled: set<Node>, bound: int,
                                         walk: seq<Edge>, target: Node)
    requires NonNegative(edges)
    requires Progress(edges, within, source, spt, settled)
    requires forall u :: u in settled ==> RelaxedTowards(edges, spt, u, within)
    requires forall v :: v in within - settled && spt[v].distance != UNKNOWN ==> bound <= spt[v].distance
    requires IsWalk(edges, within, source, walk, target) && target !in settled
    ensures exists v :: v in within - settled && spt[v].distance != UNKNOWN
    ensures bound <= TotalDistance(walk)
    decreases |walk|
  {
    var last := walk[|walk| - 1];
    var front := walk[..|walk| - 1];
    assert last.distance >= 0;
    if last.nodeA in settled {
      assert RelaxedTowards(edges, spt, last.nodeA, within);
      assert Minimal(edges, within, source, spt[last.nodeA].distance, last.nodeA);
      assert target in within - settled && spt[target].distance != UNKNOWN;
    } else {
      FrontierBound(edges, within, source, spt, settled, bound, front, last.nodeA);
    }
  }

  /** Reading a missing key yields the zero value, whose distance is 0. */
  function Entry(spt: SPT, n: Node): (p: Path)
    ensures n in spt ==> p == spt[n]
    ensures n !in spt ==> p.distance == 0
  {
    if n in spt then spt[n] else Path([], 0)
  }

  /** The body of the relaxation loop: an unknown or longer entry is replaced. */
  function RelaxEdge(spt: SPT, from: Node, neighbor: Node, distance: int): (r: SPT)
    requires from in spt
    ensures r.Keys <= spt.Keys + {neighbor}
  {
    var candidate := Path(spt[from].edges + [Edge(from, neighbor, distance)], spt[from].distance + distance);
    if Entry(spt, neighbor).distance == UNKNOWN then spt[neighbor := candidate]
    else if spt[from].distance + distance < Entry(spt, neighbor).distance then spt[neighbor := candidate]
    else spt
  }

  /** A settled node already has its minimal distance, so only unsettled entries change. */
  lemma RelaxEdgeChanges(edges: map<Node, map<Node, int>>, within: set<Node>, source: Node,
                         spt: SPT, settled: set<Node>, from: Node, neighbor: Node)
    requires NonNegative(edges) && Progress(edges, within, source, spt, settled)
    requires from in settled && from in edges && neighbor in edges[from]
    ensures var r := RelaxEdge(spt, from, neighbor, edges[from][neighbor]);
            && r.Keys == within
            && (forall v :: v in within && (v != neighbor || v in settled) ==> r[v] == spt[v])
            && (neighbor in within ==>
                  && 0 <= r[neighbor].distance <= spt[from].distance + edges[from][neighbor]
                  && (spt[neighbor].distance != UNKNOWN ==> r[neighbor].distance <= spt[neighbor].distance)
                  && DescribesWalk(edges, within, source, r[neighbor], neighbor))
  {
    var distance := edges[from][neighbor];
    assert HasEdge(edges, Edge(from, neighbor, distance));
    assert DescribesWalk(edges, within, source, spt[from], from);
    if neighbor in within {
      ExtendWalk(edges, within, source, spt[from], from, neighbor);
    }
  }

  lemma RelaxEdgeKeeps(edges: map<Node, map<Node, int>>, within: set<Node>, source: Node,
                       spt: SPT, settled: set<Node>, from: Node, neighbor: Node, done: set<Node>)
    requires NonNegative(edges) && Progress(edges, within, source, spt, settled)
    requires from in settled && from in edges && neighbor in edges[from]
    requires RelaxedTowards(edges, spt, from, done)
    requires forall u :: u in settled - {from} ==> RelaxedTowards(edges, spt, u, within)
    ensures var r := RelaxEdge(spt, from, neighbor, edges[from][neighbor]);
            && Progress(edges, within, source, r, settled)
            && RelaxedTowards(edges, r, from, done + {neighbor})
            && forall u :: u in settled - {from} ==> RelaxedTowards(edges, r, u, within)
  {
    hide RelaxEdge, DescribesWalk, Minimal;
    RelaxEdgeChanges(edges, within, source, spt, settled, from, neighbor);
    var r := RelaxEdge(spt, from, neighbor, edges[from][neighbor]);
    forall u | u in settled - {from}
      ensures RelaxedTowards(edges, r, u, within)
    {
      assert RelaxedTowards(edges, spt, u, within);
    }
  }

  /** With nothing known outside the settled nodes, no walk leaves them. */
  lemma Stuck(edges: map<Node, map<Node, int>>, within: set<Node>, source: Node,
              spt: SPT, settled: set<Node>, lost: Node)
    requires NonNegative(edges) && Progress(edges, within, source, spt, settled)
    requires forall u :: u in settled ==> RelaxedTowards(edges, spt, u, within)
    requires forall v :: v in within - settled ==> spt[v].distance == UNKNOWN
    requires lost in within - settled
    ensures !Reachable(edges, within, source, lost)
  {
    forall walk
      ensures !IsWalk(edges, within, source, walk, lost)
    {
      if IsWalk(edges, within, source, walk, lost) {
        FrontierBound(edges, within, source, spt, settled, 0, walk, lost);
      }
    }
  }

  /** The nearest known unsettled node can be settled. */
  lemma Settle(edges: map<Node, map<Node, int>>, within: set<Node>, source: Node,
               spt: SPT, settled: set<Node>, next: Node)
    requires NonNegative(edges) && Progress(edges, within, source, spt, settled)
    requires forall u :: u in settled ==> RelaxedTowards(edges, spt, u, within)
    requires next in within - settled && spt[next].distance != UNKNOWN
    requires forall v :: v in within - settled && spt[v].distance != UNKNOWN ==>
                           spt[next].distance <= spt[v].distance
    ensures Progress(edges, within, source, spt, settled + {next})
  {
    forall walk | IsWalk(edges, within, source, walk, next)
      ensures spt[next].distance <= TotalDistance(walk)
    {
      FrontierBound(edges, within, source, spt, settled, spt[next].distance, walk, next);
    }
  }

  lemma AllSettled(edges: map<Node, map<Node, int>>, within: set<Node>, source: Node, spt: SPT)
    requires Progress(edges, within, source, spt, within)
    ensures AllReachable(edges, within, source)
    ensures IsShortestPathTree(edges, within, source, spt)
  {
    forall v | v in within
      ensures Reachable(edges, within, source, v)
    {
      assert IsWalk(edges, within, source, spt[v].edges, v);
    }
  }

  lemma MoveToSettled(within: set<Node>, settled: set<Node>, unmarked: set<Node>, next: Node)
    requires settled == within - unmarked && unmarked <= within && next in unmarked
    ensures within - settled == unmarked
    ensures settled + {next} == within - (unmarked - {next})
    ensures (settled + {next}) - {next} == settled
  {
  }

  lemma {:induction false} WalkNonNegative(edges: map<Node, map<Node, int>>, within: set<Node>, source: Node,
                                           walk: seq<Edge>, target: Node)
    requires NonNegative(edges) && IsWalk(edges, within, source, walk, target)
    ensures 0 <= TotalDistance(walk)
    decreases |walk|
  {
    if walk != [] {
      var last := walk[|walk| - 1];
      assert last.distance >= 0;
      WalkNonNegative(edges, within, source, walk[..|walk| - 1], last.nodeA);
    }
  }

  lemma Start(edges: map<Node, map<Node, int>>, within: set<Node>, source: Node, spt: SPT)
    requires NonNegative(edges)
    requires spt.Keys == within && source in within && spt[source] == Path([], 0)
    requires forall v :: v in within - {source} ==> spt[v].distance == UNKNOWN
    ensures Progress(edges, within, source, spt, {source})
  {
    forall walk | IsWalk(edges, within, source, walk, source)
      ensures 0 <= TotalDistance(walk)
    {
      WalkNonNegative(edges, within, source, walk, source);
    }
  }

  // ---------------------------------------------------------------- the topology

  class Topology {
    var nodes: map<Node, int>
    var edges: map<Node, map<Node, int>>

    /** Later edges between the same two nodes overwrite earlier ones. */
    constructor (nodeList: seq<Node>, edgeList: seq<Edge>)
      ensures nodes.Keys == (set n | n in nodeList)
      ensures forall a, b :: a in edges && b in edges[a] <==> LastDistance(edgeList, a, b).Some?
      ensures forall a, b :: a in edges && b in edges[a] ==> LastDistance(edgeList, a, b) == Some(edges[a][b])
    {
      var ns: map<Node, int> := map[];
      for i := 0 to |nodeList|
        invariant ns.Keys == (set n | n in nodeList[..i])
      {
        assert nodeList[..i + 1] == nodeList[..i] + [nodeList[i]];
        ns := ns[nodeList[i] := UNKNOWN];
      }
      assert nodeList[..|nodeList|] == nodeList;
      var es: map<Node, map<Node, int>> := map[];
      for i := 0 to |edgeList|
        invariant forall a, b :: a in es && b in es[a] <==> LastDistance(edgeList[..i], a, b).Some?
        invariant forall a, b :: a in es && b in es[a] ==> LastDistance(edgeList[..i], a, b) == Some(es[a][b])
      {
        var e := edgeList[i];
        assert edgeList[..i + 1][..i] == edgeList[..i];
        if e.nodeA !in es {
          es := es[e.nodeA := map[]];
        }
        es := es[e.nodeA := es[e.nodeA][e.nodeB := e.distance]];
      }
      assert edgeList[..|edgeList|] == edgeList;
      nodes, edges := ns, es;
    }

    /** One round's relaxation of the edges leaving `from`, in any order of its neighbors. */
    method Relax(source: Node, from: Node, spt0: SPT, ghost within: set<Node>, ghost settled: set<Node>)
      returns (spt: SPT)
      requires from in spt0 && within <= spt0.Keys
      requires NonNegative(edges) ==> BeforeRound(edges, within, source, spt0, settled, from)
      ensures within <= spt.Keys
      ensures NonNegative(edges) ==> Relaxed(edges, within, source, spt, settled)
    {
      spt := spt0;
      var todo := if from in edges then edges[from].Keys else {};
      ghost var all := todo;
      while todo != {}
        invariant todo <= all && from in spt && within <= spt.Keys
        invariant NonNegative(edges) ==>
                    && BeforeRound(edges, within, source, spt, settled, from)
                    && RelaxedTowards(edges, spt, from, all - todo)
      {
        var neighbor :| neighbor in todo;
        if NonNegative(edges) {
          RelaxEdgeKeeps(edges, within, source, spt, settled, from, neighbor, all - todo);
        }
        spt := RelaxEdge(spt, from, neighbor, edges[from][neighbor]);
        todo := todo - {neighbor};
        assert all - todo == all - (todo + {neighbor}) + {neighbor};
      }
    }

    /** The unmarked node with the smallest known distance, over any iteration order. */
    method SelectNext(unmarked: set<Node>, spt: SPT) returns (next: Option<Node>)
      requires unmarked <= spt.Keys
      ensures next.None? <==> forall v :: v in unmarked ==> spt[v].distance == UNKNOWN
      ensures next.Some? ==>
                && next.value in unmarked && spt[next.value].distance != UNKNOWN
                && forall v :: v in unmarked && spt[v].distance != UNKNOWN ==>
                     spt[next.value].distance <= spt[v].distance
    {
      next := None;
      var nextDistance := 0;
      var todo := unmarked;
      while todo != {}
        invariant todo <= unmarked
        invariant next.None? <==> forall v :: v in unmarked - todo ==> spt[v].distance == UNKNOWN
        invariant next.Some? ==>
                    && next.value in unmarked - todo && spt[next.value].distance != UNKNOWN
                    && nextDistance == spt[next.value].distance
                    && forall v :: v in unmarked - todo && spt[v].distance != UNKNOWN ==>
                         nextDistance <= spt[v].distance
      {
        var candidate :| candidate in todo;
        todo := todo - {candidate};
        if spt[candidate].distance == UNKNOWN {
          continue;
        }
        if next.None? {
          next, nextDistance := Some(candidate), spt[candidate].distance;
        } else if spt[candidate].distance < nextDistance {
          next, nextDistance := Some(candidate), spt[candidate].distance;
        }
      }
    }

    /** One round: relax the edges leaving `from`, then pick the node to settle next. */
    method Round(root: Node, from: Node, spt0: SPT, unmarked: set<Node>, ghost within: set<Node>)
      returns (next: Option<Node>, spt: SPT)
      requires unmarked <= within && unmarked != {} && from in within && within <= spt0.Keys
      requires NonNegative(edges) ==> BeforeRound(edges, within, root, spt0, within - unmarked, from)
      ensures within <= spt.Keys && (next.Some? ==> next.value in unmarked)
      ensures NonNegative(edges) && next.None? ==> !AllReachable(edges, within, root)
      ensures NonNegative(edges) && next.Some? ==>
                BeforeRound(edges, within, root, spt, within - (unmarked - {next.value}), next.value)
    {
      ghost var settled := within - unmarked;
      spt := Relax(root, from, spt0, within, settled);
      next := SelectNext(unmarked, spt);
      ghost var n :| if next.Some? then n == next.value else n in unmarked;
      MoveToSettled(within, settled, unmarked, n);
      if NonNegative(edges) {
        if next.None? {
          Stuck(edges, within, root, spt, settled, n);
        } else {
          Settle(edges, within, root, spt, settled, n);
        }
      }
    }

    /** The shortest path tree rooted at `root`. Without negative distances the run crashes exactly
        when some declared node cannot be reached over declared nodes; otherwise every node gets a
        chain of edges from the root whose length is minimal over all such chains. */
    method ShortestPathTree(root: Node) returns (r: Outcome)
      ensures NonNegative(edges) ==> (r.NilDereference? <==> !AllReachable(edges, nodes.Keys + {root}, root))
      ensures NonNegative(edges) && r.Tree? ==> IsShortestPathTree(edges, nodes.Keys + {root}, root, r.spt)
      ensures r.Tree? ==> nodes.Keys + {root} <= r.spt.Keys
    {
      var spt: SPT := map n | n in nodes :: Path([], UNKNOWN);
      spt := spt[root := Path([], 0)];
      var unmarked := nodes.Keys - {root};
      var from := root;
      ghost var within := nodes.Keys + {root};
      assert within - unmarked == {root};
      if NonNegative(edges) {
        Start(edges, within, root, spt);
      }
      while unmarked != {}
        invariant unmarked <= nodes.Keys && from in within && within <= spt.Keys
        invariant NonNegative(edges) ==> BeforeRound(edges, within, root, spt, within - unmarked, from)
        decreases unmarked
      {
        var next;
        next, spt := Round(root, from, spt, unmarked, within);
        if next.None? {
          return NilDereference;
        }
        from := next.value;
        unmarked := unmarked - {from};
      }
      assert within - unmarked == within;
      if NonNegative(edges) {
        AllSettled(edges, within, root, spt);
      }
      r := Tree(spt);
    }
  }

  // ---------------------------------------------------------------- negative distances

  /** Two nodes, `distance` apart one way and nothing the other. */
  function Cycle(a: Node, b: Node, distance: int): (edges: map<Node, map<Node, int>>) {
    map[a := map[b := distance], b := map[a := 0]]
  }

  function RoundTrips(a: Node, b: Node, distance: int, n: nat): (walk: seq<Edge>) {
    if n == 0 then [] else RoundTrips(a, b, distance, n - 1) + [Edge(a, b, distance), Edge(b, a, 0)]
  }

  lemma {:induction false} RoundTripsAreWalks(a: Node, b: Node, distance: int, n: nat)
    requires a != b
    ensures IsWalk(Cycle(a, b, distance), {a, b}, a, RoundTrips(a, b, distance, n), a)
    ensures TotalDistance(RoundTrips(a, b, distance, n)) == n * distance
  {
    if n > 0 {
      RoundTripsAreWalks(a, b, distance, n - 1);
      var front := RoundTrips(a, b, distance, n - 1);
      var there := front + [Edge(a, b, distance)];
      var walk := RoundTrips(a, b, distance, n);
      assert walk[..|walk| - 1] == there && there[..|there| - 1] == front;
      assert n * distance == (n - 1) * distance + distance;
    }
  }

  lemma NoMinimum(a: Node, b: Node, distance: int, d: int)
    requires a != b && distance < 0
    ensures !Minimal(Cycle(a, b, distance), {a, b}, a, d, a)
  {
    var n := if d < 0 then 1 - d else 1;
    RoundTripsAreWalks(a, b, distance, n);
    assert n * distance <= -n;
  }

  /** For every negative distance there is a topology, all of it reachable, in which no tree has
      minimal distances: nothing computes what the promise asks for. */
  lemma NegativeHasNoTree(a: Node, b: Node, distance: int)
    requires a != b && distance < 0
    ensures AllReachable(Cycle(a, b, distance), {a, b}, a)
    ensures forall spt :: !IsShortestPathTree(Cycle(a, b, distance), {a, b}, a, spt)
  {
    var edges := Cycle(a, b, distance);
    assert IsWalk(edges, {a, b}, a, [], a);
    assert [Edge(a, b, distance)][..0] == [];
    assert IsWalk(edges, {a, b}, a, [Edge(a, b, distance)], b);
    forall spt: SPT
      ensures !IsShortestPathTree(edges, {a, b}, a, spt)
    {
      if a in spt {
        NoMinimum(a, b, distance, spt[a].distance);
      }
    }
  }
}
