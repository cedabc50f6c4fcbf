/** What Dijkstra's and A*'s engines share: the weighted adjacency, the predecessor links, path
    reconstruction along them, and the style painting loops. Both engines carry an identical
    private copy of these helpers; the model states them once. */
module Pathfinding {
  import opened Common
  import opened GraphTypes
  import opened AlgorithmTypes

  /** One adjacency list entry: the neighbour, the edge leading there and its weight. */
  datatype AdjEntry = AdjEntry(nodeId: Id, edgeId: Id, weight: int)

  /** The entry edge `e` puts into `v`'s list when it leaves `v` towards `u`. */
  predicate Gives(directed: bool, e: GraphEdge, v: Id, x: AdjEntry) {
    || (e.source == v && x == AdjEntry(e.target, e.id, WeightOf(e)))
    || (!directed && e.target == v && x == AdjEntry(e.source, e.id, WeightOf(e)))
  }

  /** The entries the edges `es` push onto `v`'s list, in push order: for each edge the
      source-side entry, then (undirected) the target-side entry. */
  function EntriesFor(directed: bool, es: seq<GraphEdge>, v: Id): seq<AdjEntry> {
    if es == [] then []
    else
      var e := es[|es| - 1];
      EntriesFor(directed, es[..|es| - 1], v)
        + (if e.source == v then [AdjEntry(e.target, e.id, WeightOf(e))] else [])
        + (if !directed && e.target == v then [AdjEntry(e.source, e.id, WeightOf(e))] else [])
  }

  /** An entry is in `v`'s list exactly when some edge gives it. */
  lemma {:induction false} EntriesForIffEdge(directed: bool, es: seq<GraphEdge>, v: Id, x: AdjEntry)
    ensures x in EntriesFor(directed, es, v) <==> exists i :: 0 <= i < |es| && Gives(directed, es[i], v, x)
  {
    if es != [] {
      var front := es[..|es| - 1];
      EntriesForIffEdge(directed, front, v, x);
      if x in EntriesFor(directed, front, v) {
        var i :| 0 <= i < |front| && Gives(directed, front[i], v, x);
        assert es[i] == front[i];
      }
      if exists i :: 0 <= i < |es| && Gives(directed, es[i], v, x) {
        var i :| 0 <= i < |es| && Gives(directed, es[i], v, x);
        if i < |front| {
          assert front[i] == es[i];
        }
      }
    }
  }

  /** An entry of `v`'s list names a neighbour of `v` along an edge of the graph. */
  lemma EntryIsAdjacent(g: Graph, v: Id, x: AdjEntry)
    requires x in EntriesFor(g.directed, g.edges, v)
    ensures Adjacent(g, v, x.nodeId)
    ensures NamedEverywhere(g) ==> x.nodeId != ""
  {
    EntriesForIffEdge(g.directed, g.edges, v, x);
    var i :| 0 <= i < |g.edges| && Gives(g.directed, g.edges[i], v, x);
    assert Links(g.directed, g.edges[i], v, x.nodeId);
  }

  /** Every edge leaving `v` has its entry in `v`'s list. */
  lemma EdgeHasEntry(g: Graph, v: Id, u: Id)
    requires Adjacent(g, v, u)
    ensures exists x :: x in EntriesFor(g.directed, g.edges, v) && x.nodeId == u
  {
    var i :| 0 <= i < |g.edges| && Links(g.directed, g.edges[i], v, u);
    var e := g.edges[i];
    var x := if e.source == v && e.target == u then AdjEntry(e.target, e.id, WeightOf(e))
             else AdjEntry(e.source, e.id, WeightOf(e));
    assert Gives(g.directed, e, v, x);
    EntriesForIffEdge(g.directed, g.edges, v, x);
  }

  /** `buildWeightedAdjacency`: one list per node id, each in edge order. */
  method BuildWeightedAdjacency(g: Graph) returns (adj: map<Id, seq<AdjEntry>>)
    ensures forall v :: v in adj <==> v in NodeIds(g)
    ensures forall v :: v in adj ==> adj[v] == EntriesFor(g.directed, g.edges, v)
  {
    adj := map[];
    for i := 0 to |g.nodes|
      invariant forall v :: v in adj <==> exists j :: 0 <= j < i && g.nodes[j].id == v
      invariant forall v :: v in adj ==> adj[v] == []
    {
      adj := adj[g.nodes[i].id := []];
    }
    adj := AddWeightedEdges(g, adj);
  }

    /** One pass of the edge loop: an entry for the target joins the source's list, and one for
      the source joins the target's list when the graph is undirected; an endpoint without a
      list is skipped. */
  method AddWeightedEdge(directed: bool, adj: map<Id, seq<AdjEntry>>, e: GraphEdge)
    returns (adj': map<Id, seq<AdjEntry>>)
    ensures adj'.Keys == adj.Keys
    ensures forall v :: v in adj' ==>
              adj'[v] == adj[v] + (if e.source == v then [AdjEntry(e.target, e.id, WeightOf(e))] else [])
                                + (if !directed && e.target == v then [AdjEntry(e.source, e.id, WeightOf(e))] else [])
  {
    adj' := adj;
    if e.source in adj' {
      adj' := adj'[e.source := adj'[e.source] + [AdjEntry(e.target, e.id, WeightOf(e))]];
    }
    if !directed && e.target in adj' {
      adj' := adj'[e.target := adj'[e.target] + [AdjEntry(e.source, e.id, WeightOf(e))]];
    }
  }

  /** One more edge appends its entries to the lists of its endpoints. */
  lemma EntriesForStep(directed: bool, es: seq<GraphEdge>, i: nat, v: Id)
    requires i < |es|
    ensures EntriesFor(directed, es[..i + 1], v)
              == EntriesFor(directed, es[..i], v)
                 + (if es[i].source == v then [AdjEntry(es[i].target, es[i].id, WeightOf(es[i]))] else [])
                 + (if !directed && es[i].target == v then [AdjEntry(es[i].source, es[i].id, WeightOf(es[i]))] else [])
  {
    assert es[..i + 1][..i] == es[..i];
  }

/** The edge loop of `buildWeightedAdjacency`, over lists that start empty. */
  method AddWeightedEdges(g: Graph, empty: map<Id, seq<AdjEntry>>) returns (adj: map<Id, seq<AdjEntry>>)
    requires forall v :: v in empty ==> empty[v] == []
    ensures adj.Keys == empty.Keys
    ensures forall v :: v in adj ==> adj[v] == EntriesFor(g.directed, g.edges, v)
  {
    adj := empty;
    for i := 0 to |g.edges|
      invariant adj.Keys == empty.Keys
      invariant forall v :: v in adj ==> adj[v] == EntriesFor(g.directed, g.edges[..i], v)
    {
      adj := AddWeightedEdge(g.directed, adj, g.edges[i]);
      forall v | v in adj ensures adj[v] == EntriesFor(g.directed, g.edges[..i + 1], v) {
        EntriesForStep(g.directed, g.edges, i, v);
      }
    }
    assert g.edges[..|g.edges|] == g.edges;
  }

  /** The list `adj.get(v) || []` an engine walks for `v`. */
  function Neighbors(adj: map<Id, seq<AdjEntry>>, v: Id): seq<AdjEntry> {
    if v in adj then adj[v] else []
  }

  /** `adj` is what `BuildWeightedAdjacency` returns for `g`. */
  ghost predicate IsWeightedAdjacency(g: Graph, adj: map<Id, seq<AdjEntry>>) {
    && (forall v :: v in adj <==> v in NodeIds(g))
    && (forall v :: v in adj ==> adj[v] == EntriesFor(g.directed, g.edges, v))
  }

  /** A set of ids that holds every neighbour of each of its members holds every walk that
      starts inside it. */
  lemma {:induction false} ClosedUnderWalks(g: Graph, adj: map<Id, seq<AdjEntry>>, closed: set<Id>, p: seq<Id>)
    requires IsWeightedAdjacency(g, adj)
    requires forall u, x :: u in closed && x in Neighbors(adj, u) ==> x.nodeId in closed
    requires Walk(g, p) && p[0] in closed
    ensures forall k :: 0 <= k < |p| ==> p[k] in closed
  {
    if |p| > 1 {
      var front := p[..|p| - 1];
      WalkFront(g, p);
      ClosedUnderWalks(g, adj, closed, front);
      var u := p[|p| - 2];
      assert u == front[|p| - 2] && u in NodeIds(g) && Adjacent(g, u, p[|p| - 1]);
      NeighbourClosed(g, adj, closed, u, p[|p| - 1]);
      forall k | 0 <= k < |p| ensures p[k] in closed {
        if k < |p| - 1 {
          assert p[k] == front[k];
        }
      }
    }
  }

  /** Dropping the last node of a walk leaves a walk. */
  lemma WalkFront(g: Graph, p: seq<Id>)
    requires Walk(g, p) && |p| > 1
    ensures Walk(g, p[..|p| - 1])
  {
    var front := p[..|p| - 1];
    forall k | 0 <= k < |front| - 1 ensures front[k] in NodeIds(g) && Adjacent(g, front[k], front[k + 1]) {
      assert front[k] == p[k] && front[k + 1] == p[k + 1];
    }
  }

  /** A node adjacent to a member of a set that holds every neighbour of its members is in it. */
  lemma NeighbourClosed(g: Graph, adj: map<Id, seq<AdjEntry>>, closed: set<Id>, u: Id, v: Id)
    requires IsWeightedAdjacency(g, adj)
    requires forall u, x :: u in closed && x in Neighbors(adj, u) ==> x.nodeId in closed
    requires u in closed && u in NodeIds(g) && Adjacent(g, u, v)
    ensures v in closed
  {
    EdgeHasEntry(g, u, v);
    var x :| x in EntriesFor(g.directed, g.edges, u) && x.nodeId == v;
    assert x in Neighbors(adj, u);
  }

  /** A route: a walk that names the graph edge of each hop (`hops[k]` indexes `g.edges`). */
  ghost predicate Route(g: Graph, nodes: seq<Id>, hops: seq<nat>) {
    && |nodes| >= 1 && |hops| == |nodes| - 1
    && forall k :: 0 <= k < |hops| ==>
         hops[k] < |g.edges| && nodes[k] in NodeIds(g) && Links(g.directed, g.edges[hops[k]], nodes[k], nodes[k + 1])
  }

  /** The total weight of the edges a route crosses. */
  ghost function Cost(g: Graph, hops: seq<nat>): int
    requires forall k :: 0 <= k < |hops| ==> hops[k] < |g.edges|
  {
    if hops == [] then 0
    else Cost(g, hops[..|hops| - 1]) + WeightOf(g.edges[hops[|hops| - 1]])
  }

  /** No edge has a negative weight. */
  ghost predicate NonNegativeWeights(g: Graph) {
    forall i :: 0 <= i < |g.edges| ==> WeightOf(g.edges[i]) >= 0
  }

  /** A prefix of a route is a route, and costs no more when no weight is negative. */
  lemma {:induction false} RoutePrefix(g: Graph, nodes: seq<Id>, hops: seq<nat>, i: nat)
    requires Route(g, nodes, hops) && 1 <= i <= |nodes|
    ensures Route(g, nodes[..i], hops[..i - 1])
    ensures NonNegativeWeights(g) ==> Cost(g, hops[..i - 1]) <= Cost(g, hops)
    decreases |hops|
  {
    if i < |nodes| {
      var n', h' := nodes[..|nodes| - 1], hops[..|hops| - 1];
      assert Route(g, n', h');
      RoutePrefix(g, n', h', i);
      assert n'[..i] == nodes[..i] && h'[..i - 1] == hops[..i - 1];
    } else {
      assert nodes[..i] == nodes && hops[..i - 1] == hops;
    }
  }

  /** Extending a route by an edge that leaves its last node, a node of the graph. */
  lemma RouteExtend(g: Graph, nodes: seq<Id>, hops: seq<nat>, i: nat, v: Id)
    requires Route(g, nodes, hops)
    requires i < |g.edges| && nodes[|nodes| - 1] in NodeIds(g)
    requires Links(g.directed, g.edges[i], nodes[|nodes| - 1], v)
    ensures Route(g, nodes + [v], hops + [i])
    ensures Cost(g, hops + [i]) == Cost(g, hops) + WeightOf(g.edges[i])
  {
    assert (hops + [i])[..|hops|] == hops;
  }

  /** An edge leaving a node gives an entry in that node's list with the edge's weight. */
  lemma EdgeGivesEntry(g: Graph, i: nat, v: Id, u: Id)
    requires i < |g.edges| && Links(g.directed, g.edges[i], v, u)
    ensures exists x :: x in EntriesFor(g.directed, g.edges, v) && x.nodeId == u && x.weight == WeightOf(g.edges[i])
  {
    var e := g.edges[i];
    var x := if e.source == v && e.target == u then AdjEntry(e.target, e.id, WeightOf(e))
             else AdjEntry(e.source, e.id, WeightOf(e));
    assert Gives(g.directed, e, v, x);
    EntriesForIffEdge(g.directed, g.edges, v, x);
  }

  /** Settling one more id of a finite universe leaves fewer ids unsettled. */
  lemma SettleShrinks(universe: set<Id>, settled: set<Id>, u: Id)
    requires u in universe && u !in settled
    ensures |universe - (settled + {u})| < |universe - settled|
  {
    assert universe - (settled + {u}) == (universe - settled) - {u};
  }

  /** The `k`-th hop of a node list with its edge list aligned to the end: an edge of the graph
      with that id leads from node `k - 1`, a node of the graph, to node `k`. */
  ghost predicate HopAt(g: Graph, nodes: seq<Id>, edges: seq<Id>, k: int)
    requires 1 <= k < |nodes| && |edges| >= |nodes| - 1
  {
    && nodes[k - 1] in NodeIds(g)
    && exists i :: 0 <= i < |g.edges| && g.edges[i].id == edges[|edges| - |nodes| + k]
         && Links(g.directed, g.edges[i], nodes[k - 1], nodes[k])
  }

  /** `nodes` and `edges` spell a walk along the graph's edges. */
  ghost predicate Along(g: Graph, nodes: seq<Id>, edges: seq<Id>) {
    && |edges| >= |nodes| - 1
    && forall k :: 1 <= k < |nodes| ==> HopAt(g, nodes, edges, k)
  }

  /** A walk spelled out by `Along` is a walk of the graph. */
  lemma AlongIsWalk(g: Graph, nodes: seq<Id>, edges: seq<Id>)
    requires Along(g, nodes, edges) && |nodes| >= 1
    ensures Walk(g, nodes)
  {
    forall k | 0 <= k < |nodes| - 1 ensures nodes[k] in NodeIds(g) && Adjacent(g, nodes[k], nodes[k + 1]) {
      assert HopAt(g, nodes, edges, k + 1);
    }
  }

  /** A non-null predecessor record: the node a node was reached from and the edge used. */
  datatype Link = Link(node: Id, edge: Id)

  /** `rank` orders the predecessor chains: every linked node outranks its linked predecessor,
      so following links from any node stops. */
  ghost predicate Ranked(prev: map<Id, Link>, rank: map<Id, nat>) {
    forall v :: v in prev ==>
      v in rank && (prev[v].node in prev ==> prev[v].node in rank && rank[prev[v].node] < rank[v])
  }

  /** `reconstructPath`: follow links back from `endNode` while the current id is truthy,
      prepending each node and each link's edge. `prev` holds the non-null records; a `null`
      record and a missing one both stop the walk. The result ends at `endNode`; each node after
      the first is linked to its predecessor in the list through the aligned edge; the walk stops
      at a node without a link, or at a link to the empty id, whose edge is then kept as an
      extra leading edge. */
  method ReconstructPath(prev: map<Id, Link>, endNode: Id, ghost rank: map<Id, nat>)
    returns (nodes: seq<Id>, edges: seq<Id>)
    requires Ranked(prev, rank)
    ensures endNode == "" ==> nodes == [] && edges == []
    ensures endNode != "" ==> |nodes| >= 1 && nodes[|nodes| - 1] == endNode
    ensures forall k :: 0 <= k < |nodes| ==> nodes[k] != ""
    ensures nodes != [] ==>
              || (nodes[0] !in prev && |edges| == |nodes| - 1)
              || (nodes[0] in prev && |edges| == |nodes| && prev[nodes[0]] == Link("", edges[0]))
    ensures |edges| >= |nodes| - 1
    ensures forall k :: 1 <= k < |nodes| ==>
              nodes[k] in prev && prev[nodes[k]] == Link(nodes[k - 1], edges[|edges| - |nodes| + k])
  {
    nodes, edges := [], [];
    var current := endNode;
    while current != ""
      invariant nodes == [] ==> current == endNode && edges == []
      invariant nodes != [] ==>
                  && nodes[|nodes| - 1] == endNode && nodes[0] in prev
                  && current == prev[nodes[0]].node && |edges| == |nodes| && edges[0] == prev[nodes[0]].edge
      invariant forall k :: 0 <= k < |nodes| ==> nodes[k] != ""
      invariant forall k :: 1 <= k < |nodes| ==> nodes[k] in prev && prev[nodes[k]] == Link(nodes[k - 1], edges[k])
      decreases if current in prev then rank[current] + 2 else if current != "" then 1 else 0
    {
      ghost var nodes0, edges0 := nodes, edges;
      nodes := [current] + nodes;
      if current in prev {
        edges := [prev[current].edge] + edges;
        current := prev[current].node;
        assert forall k :: 1 <= k < |nodes| ==> nodes[k] == nodes0[k - 1] && edges[k] == edges0[k - 1];
      } else {
        assert forall k :: 1 <= k < |nodes| ==> nodes[k] == nodes0[k - 1];
        break;
      }
    }
  }

  /** A style loop over a set: `for (const v of ids) styles.set(v, s)`. */
  method Paint<S>(styles: map<Id, S>, ids: set<Id>, s: S) returns (r: map<Id, S>)
    ensures forall v {:trigger v in r} :: v in r <==> v in styles || v in ids
    ensures forall v {:trigger r[v]} :: v in ids ==> r[v] == s
    ensures forall v {:trigger r[v]} :: v in styles && v !in ids ==> r[v] == styles[v]
  {
    r := styles;
    var rest := ids;
    while rest != {}
      invariant rest <= ids
      invariant forall v :: v in r <==> v in styles || v in ids - rest
      invariant forall v :: v in ids - rest ==> r[v] == s
      invariant forall v :: v in styles && v !in ids - rest ==> r[v] == styles[v]
      decreases |rest|
    {
      var v :| v in rest;
      r := r[v := s];
      rest := rest - {v};
    }
  }

  /** Entry `x` of the linked node's list is the one `link` records for `v`. */
  ghost predicate LinkedBy(x: AdjEntry, v: Id, link: Link, dist: map<Id, Ext>)
    requires v in dist && link.node in dist && dist[link.node].Fin?
  {
    x.nodeId == v && x.edgeId == link.edge && dist[v] == Fin(dist[link.node].n + x.weight)
  }

  /** Every link leads back to a visited node, visited before the linked node if that is visited
      too, through an entry of the visited node's list; the linked node's distance is the visited
      node's distance plus the entry's weight. */
  ghost predicate LinksBack(adj: map<Id, seq<AdjEntry>>, dist: map<Id, Ext>, prev: map<Id, Link>,
                            visited: set<Id>, pos: map<Id, nat>) {
    LinksOrdered(dist, prev, visited, pos) && LinksWitnessed(adj, dist, prev)
  }

  /** The part of `LinksBack` about distances and the order of visits. */
  ghost predicate LinksOrdered(dist: map<Id, Ext>, prev: map<Id, Link>, visited: set<Id>, pos: map<Id, nat>) {
    forall v :: v in prev ==>
      && v in dist && dist[v].Fin? && prev[v].node in visited && prev[v].node in pos
      && (v in visited ==> v in pos && pos[prev[v].node] < pos[v])
      && prev[v].node in dist && dist[prev[v].node].Fin?
  }

  /** The part of `LinksBack` about the adjacency entries behind the links. */
  ghost predicate LinksWitnessed(adj: map<Id, seq<AdjEntry>>, dist: map<Id, Ext>, prev: map<Id, Link>) {
    forall v :: v in prev && v in dist && prev[v].node in dist && dist[prev[v].node].Fin? ==>
      exists j :: 0 <= j < |Neighbors(adj, prev[v].node)| && LinkedBy(Neighbors(adj, prev[v].node)[j], v, prev[v], dist)
  }

  /** Every neighbour of a visited node has a finite distance. */
  ghost predicate Closed(adj: map<Id, seq<AdjEntry>>, dist: map<Id, Ext>, visited: set<Id>) {
    forall u, x :: u in visited && x in Neighbors(adj, u) ==> x.nodeId in dist && dist[x.nodeId].Fin?
  }

  /** Every entry of a visited node towards an unvisited one has been relaxed: the neighbour's
      distance is at most the visited node's plus the entry's weight. */
  ghost predicate RelaxedBound(adj: map<Id, seq<AdjEntry>>, dist: map<Id, Ext>, visited: set<Id>) {
    forall y, x :: y in visited && x in Neighbors(adj, y) && x.nodeId !in visited ==>
      && y in dist && dist[y].Fin? && x.nodeId in dist && dist[x.nodeId].Fin?
      && dist[x.nodeId].n <= dist[y].n + x.weight
  }

  /** Visiting keeps the links. */
  lemma VisitKeepsLinks(adj: map<Id, seq<AdjEntry>>, dist: map<Id, Ext>, prev: map<Id, Link>,
                        visited: set<Id>, pos: map<Id, nat>, u: Id)
    requires LinksBack(adj, dist, prev, visited, pos)
    requires pos.Keys == visited && (forall v :: v in pos ==> pos[v] < |visited|)
    requires u !in visited
    ensures LinksBack(adj, dist, prev, visited + {u}, pos[u := |visited|])
  {
    var visited', pos' := visited + {u}, pos[u := |visited|];
    forall v | v in prev
      ensures && v in dist && dist[v].Fin? && prev[v].node in visited' && prev[v].node in pos'
              && (v in visited' ==> v in pos' && pos'[prev[v].node] < pos'[v])
    {
      assert prev[v].node in visited;
    }
    assert LinksOrdered(dist, prev, visited', pos');
  }

  /** The effect of one entry `x` on the distances and links, as `RelaxEntry` states it. */
  ghost predicate EntryEffect(x: AdjEntry, u: Id, du: int, visited: set<Id>, dist0: map<Id, Ext>, prev0: map<Id, Link>,
                              improved: bool, dist': map<Id, Ext>, prev': map<Id, Link>) {
    && (improved <==> x.nodeId !in visited && Fin(du + x.weight).Less(if x.nodeId in dist0 then dist0[x.nodeId] else Inf))
    && (!improved ==> dist' == dist0 && prev' == prev0)
    && (improved ==> dist' == dist0[x.nodeId := Fin(du + x.weight)] && prev' == prev0[x.nodeId := Link(u, x.edgeId)])
  }

  /** Entry `x` of the node settled at distance `du` improves the tentative distances `d`: it
      leads to an unsettled node and `du + weight` beats that node's distance (Infinity when it
      has none). */
  ghost predicate Improves(x: AdjEntry, du: int, visited: set<Id>, d: map<Id, Ext>) {
    x.nodeId !in visited && Fin(du + x.weight).Less(if x.nodeId in d then d[x.nodeId] else Inf)
  }

  /** The tentative distances and the recorded edges after the relaxation loop has handled the
      first `i` entries, one improvement at a time: the reference definition of the loop. Each
      improving entry lowers its node's distance and appends its edge, so the edges are those of
      the improving entries, in entry order. */
  ghost function Replay(entries: seq<AdjEntry>, i: nat, du: int, visited: set<Id>, d: map<Id, Ext>): (map<Id, Ext>, seq<Id>)
    requires i <= |entries|
  {
    if i == 0 then (d, [])
    else
      var (before, edges) := Replay(entries, i - 1, du, visited, d);
      var x := entries[i - 1];
      if Improves(x, du, visited, before) then (before[x.nodeId := Fin(du + x.weight)], edges + [x.edgeId])
      else (before, edges)
  }

  /** The loop state after `i` entries agrees with the reference definition. */
  ghost predicate Replayed(entries: seq<AdjEntry>, i: int, du: int, visited: set<Id>, d: map<Id, Ext>,
                           d': map<Id, Ext>, relaxed: seq<Id>) {
    0 <= i <= |entries| && (d', relaxed) == Replay(entries, i, du, visited, d)
  }

  /** One more entry, handled as `EntryEffect` says, advances the reference definitions by one
      entry. */
  lemma ReplayOneMore(entries: seq<AdjEntry>, i: nat, u: Id, du: int, visited: set<Id>,
                      d: map<Id, Ext>, prev0: map<Id, Link>, d0: map<Id, Ext>, relaxed0: seq<Id>,
                      improved: bool, d': map<Id, Ext>, prev': map<Id, Link>, relaxed: seq<Id>)
    requires i < |entries|
    requires Replayed(entries, i, du, visited, d, d0, relaxed0)
    requires EntryEffect(entries[i], u, du, visited, d0, prev0, improved, d', prev')
    requires relaxed == if improved then relaxed0 + [entries[i].edgeId] else relaxed0
    ensures Replayed(entries, i + 1, du, visited, d, d', relaxed)
  {
  }

  /** The relaxation loop so far changed only the nodes in `via`, each to what its recorded
      entry gives, strictly lowering distances it had. */
  ghost predicate TrackedSoFar(entries: seq<AdjEntry>, i: int, u: Id, du: int, visited: set<Id>,
                               dist: map<Id, Ext>, prev: map<Id, Link>,
                               dist': map<Id, Ext>, prev': map<Id, Link>, via: map<Id, nat>) {
    && via.Keys !! visited
    && (forall v :: v in dist ==> v in dist' && !dist[v].Less(dist'[v]))
    && (forall v :: v !in via ==>
          && (v in dist' <==> v in dist) && (v in dist ==> dist'[v] == dist[v])
          && (v in prev' <==> v in prev) && (v in prev ==> prev'[v] == prev[v]))
    && (forall v :: v in via ==>
          && via[v] < i && i <= |entries| && entries[via[v]].nodeId == v
          && v in dist' && v in prev' && prev'[v] == Link(u, entries[via[v]].edgeId)
          && dist'[v] == Fin(du + entries[via[v]].weight)
          && (v in dist ==> dist'[v].Less(dist[v])))
  }

  /** Every entry among the first `i` that leads to an unvisited node has lowered that node's
      distance to at most `du + weight`. */
  ghost predicate BoundSoFar(entries: seq<AdjEntry>, i: int, du: int, visited: set<Id>, dist': map<Id, Ext>) {
    forall j :: 0 <= j < i && j < |entries| && entries[j].nodeId !in visited ==>
      entries[j].nodeId in dist' && !Fin(du + entries[j].weight).Less(dist'[entries[j].nodeId])
  }

  lemma TrackedOneMore(entries: seq<AdjEntry>, i: int, u: Id, du: int, visited: set<Id>,
                       dist: map<Id, Ext>, prev: map<Id, Link>,
                       dist0: map<Id, Ext>, prev0: map<Id, Link>, via0: map<Id, nat>,
                       improved: bool, dist': map<Id, Ext>, prev': map<Id, Link>, via: map<Id, nat>)
    requires 0 <= i < |entries|
    requires TrackedSoFar(entries, i, u, du, visited, dist, prev, dist0, prev0, via0)
    requires EntryEffect(entries[i], u, du, visited, dist0, prev0, improved, dist', prev')
    requires via == if improved then via0[entries[i].nodeId := i] else via0
    ensures TrackedSoFar(entries, i + 1, u, du, visited, dist, prev, dist', prev', via)
  {
    if improved {
      var x := entries[i];
      var w := x.nodeId;
      forall v | v in dist ensures v in dist' && !dist[v].Less(dist'[v]) {
        if v == w {
          assert !dist[v].Less(dist0[v]);
        }
      }
      forall v | v in via
        ensures && via[v] < i + 1 && entries[via[v]].nodeId == v
                && v in dist' && v in prev' && prev'[v] == Link(u, entries[via[v]].edgeId)
                && dist'[v] == Fin(du + entries[via[v]].weight)
                && (v in dist ==> dist'[v].Less(dist[v]))
      {
        if v == w && v in dist {
          assert !dist[v].Less(dist0[v]);
        }
      }
    }
  }

  lemma BoundOneMore(entries: seq<AdjEntry>, i: int, du: int, visited: set<Id>,
                     dist0: map<Id, Ext>, improved: bool, dist': map<Id, Ext>)
    requires 0 <= i < |entries|
    requires BoundSoFar(entries, i, du, visited, dist0)
    requires var x := entries[i];
             && (improved <==> x.nodeId !in visited && Fin(du + x.weight).Less(if x.nodeId in dist0 then dist0[x.nodeId] else Inf))
             && (!improved ==> dist' == dist0)
             && (improved ==> dist' == dist0[x.nodeId := Fin(du + x.weight)])
    ensures BoundSoFar(entries, i + 1, du, visited, dist')
  {
    var x := entries[i];
    forall j | 0 <= j < i + 1 && entries[j].nodeId !in visited
      ensures entries[j].nodeId in dist' && !Fin(du + entries[j].weight).Less(dist'[entries[j].nodeId])
    {
      if j < i && improved && entries[j].nodeId == x.nodeId {
        assert !Fin(du + entries[j].weight).Less(dist0[x.nodeId]);
      }
    }
  }

  /** The nodes a relaxation changes are neighbours of the relaxed node: ids the graph mentions,
      and never the empty id when the graph has none. */
  lemma ViaEndpoints(g: Graph, adj: map<Id, seq<AdjEntry>>, u: Id, du: int, visited: set<Id>,
                     dist: map<Id, Ext>, prev: map<Id, Link>, dist': map<Id, Ext>, prev': map<Id, Link>,
                     via: map<Id, nat>)
    requires IsWeightedAdjacency(g, adj)
    requires TrackedSoFar(Neighbors(adj, u), |Neighbors(adj, u)|, u, du, visited, dist, prev, dist', prev', via)
    ensures forall v :: v in via ==> v in Endpoints(g) && (NamedEverywhere(g) ==> v != "")
  {
    var entries := Neighbors(adj, u);
    forall v | v in via ensures v in Endpoints(g) && (NamedEverywhere(g) ==> v != "") {
      assert entries[via[v]] in EntriesFor(g.directed, g.edges, u);
      EntryIsAdjacent(g, u, entries[via[v]]);
      AdjacentInEndpoints(g, u, v);
    }
  }

  lemma RelaxKeepsLinks(adj: map<Id, seq<AdjEntry>>, dist: map<Id, Ext>, prev: map<Id, Link>,
                        visited: set<Id>, pos: map<Id, nat>, u: Id,
                        dist': map<Id, Ext>, prev': map<Id, Link>, via: map<Id, nat>)
    requires LinksBack(adj, dist, prev, visited, pos)
    requires u in visited && u in pos && u in dist && dist[u].Fin?
    requires TrackedSoFar(Neighbors(adj, u), |Neighbors(adj, u)|, u, dist[u].n, visited, dist, prev, dist', prev', via)
    ensures LinksBack(adj, dist', prev', visited, pos)
  {
    assert u !in via;
    RelaxKeepsOrder(adj, dist, prev, visited, pos, u, dist', prev', via);
    forall v | v in prev' && v in dist' && prev'[v].node in dist' && dist'[prev'[v].node].Fin?
      ensures exists j :: 0 <= j < |Neighbors(adj, prev'[v].node)|
                && LinkedBy(Neighbors(adj, prev'[v].node)[j], v, prev'[v], dist')
    {
      if v in via {
        assert LinkedBy(Neighbors(adj, prev'[v].node)[via[v]], v, prev'[v], dist');
      } else {
        var j :| 0 <= j < |Neighbors(adj, prev[v].node)| && LinkedBy(Neighbors(adj, prev[v].node)[j], v, prev[v], dist);
        assert prev[v].node !in via;
        assert LinkedBy(Neighbors(adj, prev'[v].node)[j], v, prev'[v], dist');
      }
    }
  }

  /** Relaxing the entries of `u` keeps the links ordered. */
  lemma RelaxKeepsOrder(adj: map<Id, seq<AdjEntry>>, dist: map<Id, Ext>, prev: map<Id, Link>,
                        visited: set<Id>, pos: map<Id, nat>, u: Id,
                        dist': map<Id, Ext>, prev': map<Id, Link>, via: map<Id, nat>)
    requires LinksOrdered(dist, prev, visited, pos)
    requires u in visited && u in pos && u in dist && dist[u].Fin? && u !in via
    requires TrackedSoFar(Neighbors(adj, u), |Neighbors(adj, u)|, u, dist[u].n, visited, dist, prev, dist', prev', via)
    ensures LinksOrdered(dist', prev', visited, pos)
  {
    forall v | v in prev'
      ensures && v in dist' && dist'[v].Fin? && prev'[v].node in visited && prev'[v].node in pos
              && (v in visited ==> v in pos && pos[prev'[v].node] < pos[v])
              && prev'[v].node in dist' && dist'[prev'[v].node].Fin?
    {
      if v !in via {
        assert prev[v].node !in via;
      }
    }
  }

  lemma RelaxCloses(adj: map<Id, seq<AdjEntry>>, dist: map<Id, Ext>, visited: set<Id>, u: Id,
                    dist': map<Id, Ext>, prev: map<Id, Link>, prev': map<Id, Link>, via: map<Id, nat>)
    requires Closed(adj, dist, visited - {u})
    requires u in visited && u in dist && dist[u].Fin?
    requires TrackedSoFar(Neighbors(adj, u), |Neighbors(adj, u)|, u, dist[u].n, visited, dist, prev, dist', prev', via)
    requires BoundSoFar(Neighbors(adj, u), |Neighbors(adj, u)|, dist[u].n, visited, dist')
    requires forall v :: v in visited ==> v in dist && dist[v].Fin?
    ensures Closed(adj, dist', visited)
  {
    var entries := Neighbors(adj, u);
    forall w, x | w in visited && x in Neighbors(adj, w) ensures x.nodeId in dist' && dist'[x.nodeId].Fin? {
      if w == u {
        var j :| 0 <= j < |entries| && entries[j] == x;
        if x.nodeId in visited {
          assert x.nodeId !in via;
        }
      } else {
        assert x.nodeId in dist && dist[x.nodeId].Fin?;
      }
    }
  }

  /** Relaxing the entries of `u` keeps every relaxed bound and relaxes `u`'s own entries. */
  lemma RelaxKeepsBound(adj: map<Id, seq<AdjEntry>>, dist: map<Id, Ext>, prev: map<Id, Link>, visited: set<Id>,
                        u: Id, dist': map<Id, Ext>, prev': map<Id, Link>, via: map<Id, nat>)
    requires RelaxedBound(adj, dist, visited - {u})
    requires u in visited && forall v :: v in visited ==> v in dist && dist[v].Fin?
    requires TrackedSoFar(Neighbors(adj, u), |Neighbors(adj, u)|, u, dist[u].n, visited, dist, prev, dist', prev', via)
    requires BoundSoFar(Neighbors(adj, u), |Neighbors(adj, u)|, dist[u].n, visited, dist')
    ensures RelaxedBound(adj, dist', visited)
  {
    var entries := Neighbors(adj, u);
    forall y, x | y in visited && x in Neighbors(adj, y) && x.nodeId !in visited
      ensures && y in dist' && dist'[y].Fin? && x.nodeId in dist' && dist'[x.nodeId].Fin?
              && dist'[x.nodeId].n <= dist'[y].n + x.weight
    {
      assert y !in via;
      if y == u {
        var j :| 0 <= j < |entries| && entries[j] == x;
      }
    }
  }

  /** With no relaxation the distances and links are the ones before. */
  lemma NothingRelaxed(dist: map<Id, Ext>, prev: map<Id, Link>, dist': map<Id, Ext>, prev': map<Id, Link>)
    requires forall v :: (v in dist' <==> v in dist) && (v in dist ==> dist'[v] == dist[v])
    requires forall v :: (v in prev' <==> v in prev) && (v in prev ==> prev'[v] == prev[v])
    ensures dist' == dist && prev' == prev
  {
  }

  /** `Along`, and every hop raises the distance in `d` by the weight of its edge. */
  ghost predicate WeightedAlong(g: Graph, nodes: seq<Id>, edges: seq<Id>, d: map<Id, Ext>) {
    && |edges| >= |nodes| - 1
    && forall k :: 1 <= k < |nodes| ==> WeightedHopAt(g, nodes, edges, d, k)
  }

  ghost predicate WeightedHopAt(g: Graph, nodes: seq<Id>, edges: seq<Id>, d: map<Id, Ext>, k: int)
    requires 1 <= k < |nodes| && |edges| >= |nodes| - 1
  {
    && nodes[k - 1] in NodeIds(g) && nodes[k - 1] in d && nodes[k] in d
    && d[nodes[k - 1]].Fin? && d[nodes[k]].Fin?
    && exists i :: 0 <= i < |g.edges| && g.edges[i].id == edges[|edges| - |nodes| + k]
         && Links(g.directed, g.edges[i], nodes[k - 1], nodes[k])
         && d[nodes[k]].n == d[nodes[k - 1]].n + WeightOf(g.edges[i])
  }

  /** A weighted walk with one edge per hop is a route whose cost is the rise of the labels
      from its first node to its last. */
  lemma {:induction false} WeightedAlongRoute(g: Graph, nodes: seq<Id>, edges: seq<Id>, d: map<Id, Ext>)
    returns (hops: seq<nat>)
    requires WeightedAlong(g, nodes, edges, d)
    requires |nodes| >= 2 && |edges| == |nodes| - 1
    ensures Route(g, nodes, hops)
    ensures nodes[0] in d && d[nodes[0]].Fin? && nodes[|nodes| - 1] in d && d[nodes[|nodes| - 1]].Fin?
    ensures d[nodes[|nodes| - 1]].n == d[nodes[0]].n + Cost(g, hops)
    decreases |nodes|
  {
    var n := |nodes|;
    assert WeightedHopAt(g, nodes, edges, d, n - 1);
    var i :| 0 <= i < |g.edges| && g.edges[i].id == edges[n - 2]
             && Links(g.directed, g.edges[i], nodes[n - 2], nodes[n - 1])
             && d[nodes[n - 1]].n == d[nodes[n - 2]].n + WeightOf(g.edges[i]);
    if n == 2 {
      hops := [i];
      assert hops[..0] == [];
    } else {
      var front, fe := nodes[..n - 1], edges[..n - 2];
      WeightedAlongFront(g, nodes, edges, d);
      var h := WeightedAlongRoute(g, front, fe, d);
      hops := h + [i];
      RouteSnoc(g, nodes, h, i);
    }
  }

  /** Dropping the last hop of a weighted walk leaves a weighted walk. */
  lemma WeightedAlongFront(g: Graph, nodes: seq<Id>, edges: seq<Id>, d: map<Id, Ext>)
    requires WeightedAlong(g, nodes, edges, d)
    requires |nodes| >= 2 && |edges| == |nodes| - 1
    ensures WeightedAlong(g, nodes[..|nodes| - 1], edges[..|edges| - 1], d)
  {
    var front, fe := nodes[..|nodes| - 1], edges[..|edges| - 1];
    forall k | 1 <= k < |front| ensures WeightedHopAt(g, front, fe, d, k) {
      assert WeightedHopAt(g, nodes, edges, d, k);
    }
  }

  /** A route followed by one more hop is a route, one hop dearer. */
  lemma RouteSnoc(g: Graph, nodes: seq<Id>, h: seq<nat>, i: nat)
    requires |nodes| >= 2 && Route(g, nodes[..|nodes| - 1], h)
    requires i < |g.edges| && nodes[|nodes| - 2] in NodeIds(g)
    requires Links(g.directed, g.edges[i], nodes[|nodes| - 2], nodes[|nodes| - 1])
    ensures Route(g, nodes, h + [i])
    ensures Cost(g, h + [i]) == Cost(g, h) + WeightOf(g.edges[i])
  {
    assert (h + [i])[..|h|] == h;
  }

  /** A weighted walk is a walk. */
  lemma WeightedAlongIsAlong(g: Graph, nodes: seq<Id>, edges: seq<Id>, d: map<Id, Ext>)
    requires WeightedAlong(g, nodes, edges, d)
    ensures Along(g, nodes, edges)
  {
    forall k | 1 <= k < |nodes| ensures HopAt(g, nodes, edges, k) {
      assert WeightedHopAt(g, nodes, edges, d, k);
    }
  }

  /** An adjacency entry of a path node for the next path node is one weighted hop. */
  lemma EntryIsHop(g: Graph, adj: map<Id, seq<AdjEntry>>, d: map<Id, Ext>, nodes: seq<Id>, edges: seq<Id>,
                   k: int, x: AdjEntry)
    requires IsWeightedAdjacency(g, adj)
    requires 1 <= k < |nodes| && |edges| >= |nodes| - 1
    requires nodes[k - 1] in adj && x in adj[nodes[k - 1]]
    requires x.nodeId == nodes[k] && x.edgeId == edges[|edges| - |nodes| + k]
    requires nodes[k - 1] in d && d[nodes[k - 1]].Fin? && nodes[k] in d
    requires d[nodes[k]] == Fin(d[nodes[k - 1]].n + x.weight)
    ensures WeightedHopAt(g, nodes, edges, d, k)
  {
    var u := nodes[k - 1];
    EntriesForIffEdge(g.directed, g.edges, u, x);
    var i :| 0 <= i < |g.edges| && Gives(g.directed, g.edges[i], u, x);
    assert Links(g.directed, g.edges[i], u, nodes[k]);
  }

  /** One link of a search state is one weighted hop of the rebuilt path. */
  lemma LinkIsHop(g: Graph, adj: map<Id, seq<AdjEntry>>, dist: map<Id, Ext>, prev: map<Id, Link>,
                  nodes: seq<Id>, edges: seq<Id>, k: int, j: int)
    requires IsWeightedAdjacency(g, adj)
    requires 1 <= k < |nodes| && |edges| >= |nodes| - 1
    requires nodes[k] in prev && prev[nodes[k]] == Link(nodes[k - 1], edges[|edges| - |nodes| + k])
    requires nodes[k] in dist && nodes[k - 1] in dist && dist[nodes[k - 1]].Fin?
    requires 0 <= j < |Neighbors(adj, nodes[k - 1])|
    requires LinkedBy(Neighbors(adj, nodes[k - 1])[j], nodes[k], prev[nodes[k]], dist)
    ensures WeightedHopAt(g, nodes, edges, dist, k)
  {
    var u := nodes[k - 1];
    EntryIsHop(g, adj, dist, nodes, edges, k, adj[u][j]);
  }

  /** What path reconstruction needs of a search state: every settled node has a finite
      distance and a rank below the number of settled nodes, every other node with a finite
      distance has a link, the start has none, the empty id never has a distance when the graph
      has none, and every link points back along an edge to a node settled earlier. */
  ghost predicate Linked(g: Graph, adj: map<Id, seq<AdjEntry>>, start: Id, dist: map<Id, Ext>,
                         prev: map<Id, Link>, settled: set<Id>, pos: map<Id, nat>) {
    && IsWeightedAdjacency(g, adj)
    && Settling(start, dist, prev, settled, pos)
    && (NamedEverywhere(g) ==> "" !in dist)
    && LinksBack(adj, dist, prev, settled, pos)
  }

  /** The bookkeeping part of `Linked`. */
  ghost predicate Settling(start: Id, dist: map<Id, Ext>, prev: map<Id, Link>, settled: set<Id>, pos: map<Id, nat>) {
    && (forall v :: v in settled ==> v in dist && dist[v].Fin?)
    && pos.Keys == settled && (forall v :: v in pos ==> pos[v] < |settled|)
    && (forall v :: v in dist && dist[v].Fin? ==> v == start || v in prev)
    && start !in prev
  }

  /** Settling one more node of finite distance keeps the bookkeeping. */
  lemma SettleKeeps(start: Id, dist: map<Id, Ext>, prev: map<Id, Link>, settled: set<Id>, pos: map<Id, nat>, u: Id)
    requires Settling(start, dist, prev, settled, pos)
    requires u in dist && dist[u].Fin? && u !in settled
    ensures Settling(start, dist, prev, settled + {u}, pos[u := |settled|])
  {
    assert |settled + {u}| == |settled| + 1;
  }

  /** The order in which the link sources were settled ranks the links: following a link
      always reaches a node settled earlier. */
  ghost function LinkRank(adj: map<Id, seq<AdjEntry>>, dist: map<Id, Ext>,
                          prev: map<Id, Link>, visited: set<Id>, pos: map<Id, nat>): (rank: map<Id, nat>)
    requires pos.Keys == visited && (forall v :: v in pos ==> pos[v] < |visited|)
    requires LinksBack(adj, dist, prev, visited, pos)
    ensures Ranked(prev, rank)
  {
    map v | v in prev :: if v in pos then pos[v] else |visited|
  }

  /** The outcome step `Finish` builds on a finite end distance. */
  ghost predicate FoundStep(g: Graph, start: Id, end: Id, dist: map<Id, Ext>, visited: set<Id>, stepNo: nat, last: Step)
    requires end in dist && dist[end].Fin?
  {
    && last.stepNumber == stepNo && last.state.Found?
    && last.state.distance == dist[end].n
    && last.highlightNodes == last.state.path && last.state.pathLength == |last.state.path|
    && last.state.nodesVisited == |visited|
    && |last.state.path| >= 1 && last.state.path[|last.state.path| - 1] == end
    && WeightedAlong(g, last.state.path, last.highlightEdges, dist)
    && (NamedEverywhere(g) ==> last.state.path[0] == start && |last.highlightEdges| == |last.state.path| - 1)
  }

  /** When no id is empty, the reported distance of a found step is exactly the cost of a route
      along the reported path, provided the start is labelled 0. */
  lemma FoundRoute(g: Graph, start: Id, end: Id, dist: map<Id, Ext>, visited: set<Id>, stepNo: nat, last: Step)
    requires end in dist && dist[end].Fin?
    requires FoundStep(g, start, end, dist, visited, stepNo, last)
    requires NamedEverywhere(g) && start in dist && dist[start] == Fin(0)
    ensures exists hops :: Route(g, last.state.path, hops) && Cost(g, hops) == last.state.distance
  {
    var path := last.state.path;
    if |path| == 1 {
      assert Route(g, path, []);
    } else {
      var hops := WeightedAlongRoute(g, path, last.highlightEdges, dist);
    }
  }

  /** The path rebuilt from the links of a search state is a weighted walk to the end node, and
      starts at the start node when no id is empty. */
  lemma FoundPath(g: Graph, adj: map<Id, seq<AdjEntry>>, start: Id, end: Id, dist: map<Id, Ext>,
                  prev: map<Id, Link>, visited: set<Id>, pos: map<Id, nat>, nodes: seq<Id>, edges: seq<Id>)
    requires Linked(g, adj, start, dist, prev, visited, pos)
    requires end in dist && dist[end].Fin?
    requires |nodes| >= 1 && nodes[|nodes| - 1] == end
    requires || (nodes[0] !in prev && |edges| == |nodes| - 1)
             || (nodes[0] in prev && |edges| == |nodes| && prev[nodes[0]] == Link("", edges[0]))
    requires forall k :: 1 <= k < |nodes| ==>
               nodes[k] in prev && prev[nodes[k]] == Link(nodes[k - 1], edges[|edges| - |nodes| + k])
    ensures WeightedAlong(g, nodes, edges, dist)
    ensures NamedEverywhere(g) ==> nodes[0] == start && |edges| == |nodes| - 1
  {
    forall k | 1 <= k < |nodes| ensures WeightedHopAt(g, nodes, edges, dist, k) {
      var v, u := nodes[k], nodes[k - 1];
      assert prev[v].node == u;
      var j :| 0 <= j < |Neighbors(adj, u)| && LinkedBy(Neighbors(adj, u)[j], v, prev[v], dist);
      LinkIsHop(g, adj, dist, prev, nodes, edges, k, j);
    }
    if NamedEverywhere(g) {
      if nodes[0] in prev {
        assert false;
      }
      if |nodes| > 1 {
        assert nodes[0] == prev[nodes[1]].node;
      }
    }
  }

  /** The block after the search loop: report `not found` on an infinite end distance, else
      rebuild the path and report it with the distance and the number of visited nodes. Both
      exits of the loop lead here. */
  method Finish(g: Graph, adj: map<Id, seq<AdjEntry>>, start: Id, end: Id, dist: map<Id, Ext>,
                prev: map<Id, Link>, visited: set<Id>, ghost pos: map<Id, nat>, stepNo: nat)
    returns (last: Step)
    requires Linked(g, adj, start, dist, prev, visited, pos)
    requires end != ""
    ensures (end !in dist || dist[end] == Inf) ==>
              last == Step(stepNo, [start, end], [], map[start := StartStyle][end := EndStyle], map[], NotFound)
    ensures end in dist && dist[end].Fin? ==> FoundStep(g, start, end, dist, visited, stepNo, last)
  {
    var endDist := if end in dist then dist[end] else Inf;
    if endDist == Inf {
      last := Step(stepNo, [start, end], [], map[start := StartStyle][end := EndStyle], map[], NotFound);
      return;
    }
    ghost var rank := LinkRank(adj, dist, prev, visited, pos);
    var nodes, edges := ReconstructPath(prev, end, rank);
    FoundPath(g, adj, start, end, dist, prev, visited, pos, nodes, edges);
    var styles := Paint(map[], visited, VisitedStyle);
    styles := Paint(styles, (set v | v in nodes), PathStyle);
    styles := styles[start := PathStartStyle][end := PathEndStyle];
    var edgeStyles := Paint(map[], (set e | e in edges), PathEdge);
    last := Step(stepNo, nodes, edges, styles, edgeStyles, Found(endDist.n, |nodes|, nodes, |visited|));
  }
}
