/** Dijkstra's shortest path engine: repeatedly settle the unvisited node of least tentative
    distance, relax its outgoing entries, and finally rebuild the path from the predecessor
    links, emitting one step per selection, per productive relaxation and for the outcome. */
module Dijkstra {
  import opened Common
  import opened GraphTypes
  import opened AlgorithmTypes
  import opened Pathfinding

  /** The distance map after initialisation: 0 for the start node, Infinity for every other. */
  function InitialDistances(g: Graph, start: Id): (d: map<Id, Ext>)
    ensures forall v :: v in d <==> v in NodeIds(g)
    ensures forall v :: v in d ==> (d[v].Fin? <==> v == start)
    ensures start in d ==> d[start] == Fin(0)
  {
    map v | v in NodeIds(g) :: if v == start then Fin(0) else Inf
  }

  /** The minimum scan: walk the distance map in key order and keep the first unvisited node of
      strictly smallest distance. None exactly when every unvisited node is at Infinity. */
  method SelectMin(order: seq<Id>, dist: map<Id, Ext>, visited: set<Id>) returns (r: Option<nat>)
    requires forall v :: v in order <==> v in dist
    ensures r.None? <==> forall j :: 0 <= j < |order| && order[j] !in visited ==> dist[order[j]] == Inf
    ensures r.Some? ==>
              && r.value < |order| && order[r.value] !in visited && dist[order[r.value]].Fin?
              && (forall j :: 0 <= j < r.value && order[j] !in visited ==>
                    dist[order[r.value]].Less(dist[order[j]]))
              && (forall j :: r.value < j < |order| && order[j] !in visited ==>
                    !dist[order[j]].Less(dist[order[r.value]]))
    ensures r.Some? ==> forall v :: v in dist && v !in visited ==> !dist[v].Less(dist[order[r.value]])
  {
    var minDist := Inf;
    r := None;
    for i := 0 to |order|
      invariant r.None? ==> minDist == Inf && forall j :: 0 <= j < i && order[j] !in visited ==> dist[order[j]] == Inf
      invariant r.Some? ==>
                  && r.value < i && order[r.value] !in visited && minDist == dist[order[r.value]] && minDist.Fin?
                  && (forall j :: 0 <= j < r.value && order[j] !in visited ==> minDist.Less(dist[order[j]]))
                  && (forall j :: r.value < j < i && order[j] !in visited ==> !dist[order[j]].Less(minDist))
    {
      var d := dist[order[i]];
      if order[i] !in visited && d.Less(minDist) {
        minDist := d;
        r := Some(i);
      }
    }
  }

  /** The relaxation loop over the entries of the settled node `u` at distance `du`. Entries to
      visited nodes are skipped; an entry whose `du + weight` beats the tentative distance of its
      node (Infinity when the node has none) lowers that distance, links the node back to `u`
      through the entry's edge, appends the node to the key order when it is new, and records the
      edge. `via` maps each node so improved to the entry that improved it last; nothing else
      changes. */
  method Relax(entries: seq<AdjEntry>, u: Id, du: int, visited: set<Id>,
               order: seq<Id>, dist: map<Id, Ext>, prev: map<Id, Link>)
    returns (order': seq<Id>, dist': map<Id, Ext>, prev': map<Id, Link>, relaxed: seq<Id>, ghost via: map<Id, nat>)
    requires Distinct(order) && forall v :: v in dist <==> v in order
    ensures Distinct(order') && (forall v :: v in dist' <==> v in order')
    ensures |order'| >= |order| && order'[..|order|] == order
    ensures forall v :: v in order' ==> v in order || v in via
    ensures TrackedSoFar(entries, |entries|, u, du, visited, dist, prev, dist', prev', via)
    ensures BoundSoFar(entries, |entries|, du, visited, dist')
    ensures Replayed(entries, |entries|, du, visited, dist, dist', relaxed)
    ensures relaxed == [] <==> via == map[]
    ensures forall e :: e in relaxed ==> exists j :: 0 <= j < |entries| && entries[j].edgeId == e
  {
    order', dist', prev', relaxed, via := order, dist, prev, [], map[];
    for i := 0 to |entries|
      invariant RelaxInvariant(entries, i, u, du, visited, order, dist, prev, order', dist', prev', relaxed, via)
    {
      order', dist', prev', relaxed, via :=
        RelaxStep(entries, i, u, du, visited, order, dist, prev, order', dist', prev', relaxed, via);
    }
  }

  /** The invariant of the relaxation loop after the first `i` entries: the tracking facts the
      search needs, and agreement with the reference definitions. */
  ghost predicate RelaxInvariant(entries: seq<AdjEntry>, i: int, u: Id, du: int, visited: set<Id>,
                                 order: seq<Id>, dist: map<Id, Ext>, prev: map<Id, Link>,
                                 order': seq<Id>, dist': map<Id, Ext>, prev': map<Id, Link>,
                                 relaxed: seq<Id>, via: map<Id, nat>) {
    && RelaxTracked(entries, i, u, du, visited, order, dist, prev, order', dist', prev', relaxed, via)
    && Replayed(entries, i, du, visited, dist, dist', relaxed)
  }

  /** What the search needs from the relaxation loop after the first `i` entries. */
  ghost predicate RelaxTracked(entries: seq<AdjEntry>, i: int, u: Id, du: int, visited: set<Id>,
                               order: seq<Id>, dist: map<Id, Ext>, prev: map<Id, Link>,
                               order': seq<Id>, dist': map<Id, Ext>, prev': map<Id, Link>,
                               relaxed: seq<Id>, via: map<Id, nat>) {
    && Distinct(order') && (forall v :: v in dist' <==> v in order')
    && |order'| >= |order| && order'[..|order|] == order
    && (forall v :: v in order' ==> v in order || v in via)
    && TrackedSoFar(entries, i, u, du, visited, dist, prev, dist', prev', via)
    && BoundSoFar(entries, i, du, visited, dist')
    && (relaxed == [] <==> via == map[])
    && (forall e :: e in relaxed ==> exists j :: 0 <= j < i && j < |entries| && entries[j].edgeId == e)
  }

  /** The body of the relaxation loop, for entry `i`. */
  method RelaxStep(entries: seq<AdjEntry>, i: nat, u: Id, du: int, visited: set<Id>,
                   order: seq<Id>, dist: map<Id, Ext>, prev: map<Id, Link>,
                   order0: seq<Id>, dist0: map<Id, Ext>, prev0: map<Id, Link>,
                   relaxed0: seq<Id>, ghost via0: map<Id, nat>)
    returns (order': seq<Id>, dist': map<Id, Ext>, prev': map<Id, Link>, relaxed: seq<Id>, ghost via: map<Id, nat>)
    requires i < |entries|
    requires RelaxInvariant(entries, i, u, du, visited, order, dist, prev, order0, dist0, prev0, relaxed0, via0)
    ensures RelaxInvariant(entries, i + 1, u, du, visited, order, dist, prev, order', dist', prev', relaxed, via)
  {
    var improved;
    order', dist', prev', improved := RelaxEntry(entries[i], u, du, visited, order0, dist0, prev0);
    relaxed, via := relaxed0, via0;
    if improved {
      relaxed := relaxed + [entries[i].edgeId];
      via := via[entries[i].nodeId := i];
    }
    TrackedStep(entries, i, u, du, visited, order, dist, prev, order0, dist0, prev0, relaxed0, via0,
                improved, order', dist', prev', relaxed, via);
    ReplayOneMore(entries, i, u, du, visited, dist, prev0, dist0, relaxed0, improved, dist', prev', relaxed);
  }

  /** One entry handled as `RelaxEntry` states keeps `RelaxTracked`. */
  lemma TrackedStep(entries: seq<AdjEntry>, i: nat, u: Id, du: int, visited: set<Id>,
                    order: seq<Id>, dist: map<Id, Ext>, prev: map<Id, Link>,
                    order0: seq<Id>, dist0: map<Id, Ext>, prev0: map<Id, Link>,
                    relaxed0: seq<Id>, via0: map<Id, nat>, improved: bool,
                    order': seq<Id>, dist': map<Id, Ext>, prev': map<Id, Link>, relaxed: seq<Id>, via: map<Id, nat>)
    requires i < |entries|
    requires RelaxTracked(entries, i, u, du, visited, order, dist, prev, order0, dist0, prev0, relaxed0, via0)
    requires EntryEffect(entries[i], u, du, visited, dist0, prev0, improved, dist', prev')
    requires !improved ==> order' == order0 && relaxed == relaxed0 && via == via0
    requires improved ==> order' == (if entries[i].nodeId in dist0 then order0 else order0 + [entries[i].nodeId])
    requires improved ==> relaxed == relaxed0 + [entries[i].edgeId] && via == via0[entries[i].nodeId := i]
    requires Distinct(order') && forall v :: v in dist' <==> v in order'
    ensures RelaxTracked(entries, i + 1, u, du, visited, order, dist, prev, order', dist', prev', relaxed, via)
  {
    if improved {
      assert order'[..|order|] == order0[..|order|];
    }
    TrackedOneMore(entries, i, u, du, visited, dist, prev, dist0, prev0, via0, improved, dist', prev', via);
    BoundOneMore(entries, i, du, visited, dist0, improved, dist');
  }

  /** One iteration of the relaxation loop, for the entry `x`. */
  method RelaxEntry(x: AdjEntry, u: Id, du: int, visited: set<Id>,
                    order: seq<Id>, dist: map<Id, Ext>, prev: map<Id, Link>)
    returns (order': seq<Id>, dist': map<Id, Ext>, prev': map<Id, Link>, improved: bool)
    requires Distinct(order) && forall v :: v in dist <==> v in order
    ensures EntryEffect(x, u, du, visited, dist, prev, improved, dist', prev')
    ensures !improved ==> order' == order
    ensures improved ==> order' == (if x.nodeId in dist then order else order + [x.nodeId])
    ensures Distinct(order') && forall v :: v in dist' <==> v in order'
  {
    order', dist', prev', improved := order, dist, prev, false;
    if x.nodeId in visited {
      return;
    }
    var newDist := du + x.weight;
    var oldDist := if x.nodeId in dist then dist[x.nodeId] else Inf;
    if Fin(newDist).Less(oldDist) {
      if x.nodeId !in dist {
        order' := order + [x.nodeId];
      }
      dist' := dist[x.nodeId := Fin(newDist)];
      prev' := prev[x.nodeId := Link(u, x.edgeId)];
      improved := true;
    }
  }

  /** The engine's search state between iterations.
      - `order` lists the keys of `dist` in insertion order; they are ids the graph mentions.
      - Visited nodes have finite distances; `pos` numbers them in visiting order.
      - The links point back as `LinksBack` says.
      - A finite distance belongs to the start node or to a linked node; the start never links
        and keeps distance 0; once anything is visited, the start is.
      - When no id is empty, the empty id never gets a distance. */
  ghost predicate SearchState(start: Id, order: seq<Id>, dist: map<Id, Ext>, prev: map<Id, Link>,
                              visited: set<Id>, pos: map<Id, nat>) {
    && Distinct(order) && (forall v :: v in dist <==> v in order)
    && (forall v :: v in visited ==> v in dist && dist[v].Fin?)
    && pos.Keys == visited && (forall v :: v in pos ==> pos[v] < |visited|)
    && (forall v :: v in dist && dist[v].Fin? ==> v == start || v in prev)
    && start !in prev
    && (start in dist ==> dist[start] == Fin(0))
    && (visited != {} ==> start in visited)
  }

  /** The keys of the distance map are ids the graph mentions, and never the empty id when the
      graph has none. */
  ghost predicate Mentioned(g: Graph, order: seq<Id>) {
    && (forall v :: v in NodeIds(g) ==> v in order)
    && (forall v :: v in order ==> v in Endpoints(g))
    && (NamedEverywhere(g) ==> "" !in order)
  }

  /** The whole loop invariant on the search variables. */
  ghost predicate Searching(g: Graph, adj: map<Id, seq<AdjEntry>>, start: Id, order: seq<Id>,
                            dist: map<Id, Ext>, prev: map<Id, Link>, visited: set<Id>, pos: map<Id, nat>) {
    && IsWeightedAdjacency(g, adj)
    && SearchState(start, order, dist, prev, visited, pos)
    && Mentioned(g, order)
    && LinksBack(adj, dist, prev, visited, pos)
  }

  /** The Dijkstra loop invariant gives what path reconstruction needs. */
  lemma SearchingIsLinked(g: Graph, adj: map<Id, seq<AdjEntry>>, start: Id, order: seq<Id>,
                          dist: map<Id, Ext>, prev: map<Id, Link>, visited: set<Id>, pos: map<Id, nat>)
    requires Searching(g, adj, start, order, dist, prev, visited, pos)
    ensures Linked(g, adj, start, dist, prev, visited, pos)
  {
  }

  /** The state right after initialisation. */
  lemma InitialSearch(g: Graph, adj: map<Id, seq<AdjEntry>>, start: Id)
    requires IsWeightedAdjacency(g, adj)
    ensures Searching(g, adj, start, NodeIds(g), InitialDistances(g, start), map[], {}, map[])
    ensures Closed(adj, InitialDistances(g, start), {})
  {
    var order, dist := NodeIds(g), InitialDistances(g, start);
    assert SearchState(start, order, dist, map[], {}, map[]);
    assert Mentioned(g, order);
    assert LinksBack(adj, dist, map[], {}, map[]);
  }

  /** Visiting an unvisited node of finite distance keeps the state; the first node visited is
      the start. */
  lemma VisitKeeps(start: Id, order: seq<Id>, dist: map<Id, Ext>,
                   prev: map<Id, Link>, visited: set<Id>, pos: map<Id, nat>, u: Id)
    requires SearchState(start, order, dist, prev, visited, pos)
    requires forall v :: v in prev ==> prev[v].node in visited
    requires u in dist && dist[u].Fin? && u !in visited
    ensures SearchState(start, order, dist, prev, visited + {u}, pos[u := |visited|])
    ensures visited == {} ==> u == start
  {
    VisitPositions(visited, pos, u, pos[u := |visited|]);
  }

  /** Numbering a newly visited node `|visited|` keeps the positions below the visited count. */
  lemma VisitPositions(visited: set<Id>, pos: map<Id, nat>, u: Id, pos': map<Id, nat>)
    requires pos.Keys == visited && (forall v :: v in pos ==> pos[v] < |visited|)
    requires u !in visited && pos' == pos[u := |visited|]
    ensures pos'.Keys == visited + {u}
    ensures forall v :: v in pos' ==> pos'[v] < |visited + {u}|
  {
    assert |visited + {u}| == |visited| + 1;
  }

  /** Relaxing the entries of the node visited last keeps the state and the links, and makes the
      state closed. */
  lemma RelaxKeeps(g: Graph, adj: map<Id, seq<AdjEntry>>, start: Id, order: seq<Id>,
                   dist: map<Id, Ext>, prev: map<Id, Link>, visited: set<Id>, pos: map<Id, nat>, u: Id,
                   order': seq<Id>, dist': map<Id, Ext>, prev': map<Id, Link>, via: map<Id, nat>)
    requires Searching(g, adj, start, order, dist, prev, visited, pos)
    requires Closed(adj, dist, visited - {u})
    requires u in visited
    requires var entries := Neighbors(adj, u);
             && Distinct(order') && (forall v :: v in dist' <==> v in order')
             && (forall v :: v in order' ==> v in order || v in via)
             && (forall v :: v in order ==> v in order')
             && TrackedSoFar(entries, |entries|, u, dist[u].n, visited, dist, prev, dist', prev', via)
             && BoundSoFar(entries, |entries|, dist[u].n, visited, dist')
    ensures Searching(g, adj, start, order', dist', prev', visited, pos)
    ensures Closed(adj, dist', visited)
  {
    var entries := Neighbors(adj, u);
    assert u !in via && dist'[u] == dist[u];
    ViaMentioned(g, adj, u, order, order', dist[u].n, visited, dist, prev, dist', prev', via);
    RelaxKeepsLinks(adj, dist, prev, visited, pos, u, dist', prev', via);
    RelaxCloses(adj, dist, visited, u, dist', prev, prev', via);
  }

  lemma ViaMentioned(g: Graph, adj: map<Id, seq<AdjEntry>>, u: Id, order: seq<Id>, order': seq<Id>, du: int,
                     visited: set<Id>, dist: map<Id, Ext>, prev: map<Id, Link>,
                     dist': map<Id, Ext>, prev': map<Id, Link>, via: map<Id, nat>)
    requires IsWeightedAdjacency(g, adj) && Mentioned(g, order)
    requires forall v :: v in order' ==> v in order || v in via
    requires forall v :: v in order ==> v in order'
    requires TrackedSoFar(Neighbors(adj, u), |Neighbors(adj, u)|, u, du, visited, dist, prev, dist', prev', via)
    ensures Mentioned(g, order')
  {
    ViaEndpoints(g, adj, u, du, visited, dist, prev, dist', prev', via);
  }

  /** The steps emitted before an iteration: `init`, then select and relax steps, each relax
      right after the select of its node; the selected nodes are distinct and are exactly the
      visited ones; the last step's distances are the current ones. */
  ghost predicate StepsSoFar(g: Graph, start: Id, steps: seq<Step>, dist: map<Id, Ext>, visited: set<Id>) {
    && |steps| >= 1 && Numbered(steps)
    && steps[0].state == DijkstraInit(InitialDistances(g, start))
    && Middle(steps, |steps|)
    && Distinct(SelectedNodes(steps))
    && (forall v :: v in visited <==> v in SelectedNodes(steps))
    && LastDistances(steps) == dist
  }

  /** Steps 1 to `n - 1` are selects and relaxes, a relax only right after the select of the same
      node and only when at least one edge relaxed. */
  ghost predicate Middle(steps: seq<Step>, n: int)
    requires 0 <= n <= |steps|
  {
    forall j :: 1 <= j < n ==>
      (steps[j].state.DijkstraSelect? || steps[j].state.DijkstraRelax?)
      && (steps[j].state.DijkstraRelax? ==>
            && steps[j - 1].state.DijkstraSelect? && steps[j - 1].state.currentNode == steps[j].state.currentNode
            && steps[j].state.relaxedCount > 0)
  }

  /** The `distances` entry of the last step, empty when it has none. */
  ghost function LastDistances(steps: seq<Step>): map<Id, Ext>
    requires steps != []
  {
    var s := steps[|steps| - 1].state;
    if s.DijkstraInit? || s.DijkstraSelect? || s.DijkstraRelax? then s.distances else map[]
  }

  /** What a Dijkstra run emits. Without a truthy start and end, or without nodes, nothing.
      Otherwise `init` with the initial distances, select and relax steps that each settle a
      node at most once, and an outcome step:
      - `found`: the step before it selects the end node at the reported distance; the reported
        path ends at the end node and follows graph edges, each hop raising the distance by that
        edge's weight; it starts at the start node when no id is empty, and the distance is
        then the cost of a route along it; the visited count is the
        number of selections; and when no weight is negative and the start is a node, no route
        from the start to the end costs less than the reported distance;
      - `not found`: the end node was never selected, and when the start is a node no walk of
        the graph leads from the start to the end. */
  ghost predicate DijkstraOutcome(g: Graph, params: AlgorithmParams, steps: seq<Step>) {
    if !Truthy(params.startNode) || !Truthy(params.endNode) || |g.nodes| == 0 then steps == []
    else
      var start, end := params.startNode.value, params.endNode.value;
      && |steps| >= 2 && Numbered(steps)
      && steps[0].state == DijkstraInit(InitialDistances(g, start))
      && Middle(steps, |steps| - 1)
      && Distinct(SelectedNodes(steps))
      && var last := steps[|steps| - 1];
         && (last.state.NotFound? || last.state.Found?)
         && (last.state.NotFound? ==>
               && end !in SelectedNodes(steps)
               && (start in NodeIds(g) ==> forall p :: Walk(g, p) && p[0] == start ==> p[|p| - 1] != end))
         && (last.state.Found? ==>
               var path, before := last.state.path, steps[|steps| - 2].state;
               && before.DijkstraSelect? && before.currentNode == end
               && before.currentDistance == last.state.distance
               && last.highlightNodes == path && last.state.pathLength == |path|
               && last.state.nodesVisited == |SelectedNodes(steps)|
               && |path| >= 1 && path[|path| - 1] == end
               && WeightedAlong(g, path, last.highlightEdges, before.distances)
               && (NamedEverywhere(g) ==> path[0] == start && |last.highlightEdges| == |path| - 1)
               && (NamedEverywhere(g) ==> exists hops :: Route(g, path, hops) && Cost(g, hops) == last.state.distance)
               && (NonNegativeWeights(g) && start in NodeIds(g) ==>
                     forall nodes, hops :: Route(g, nodes, hops) && nodes[0] == start && nodes[|nodes| - 1] == end ==>
                       last.state.distance <= Cost(g, hops)))
  }

  /** The steps right after initialisation. */
  lemma InitialSteps(g: Graph, start: Id, init: Step)
    requires init.stepNumber == 0 && init.state == DijkstraInit(InitialDistances(g, start))
    ensures StepsSoFar(g, start, [init], InitialDistances(g, start), {})
  {
    assert SelectedNodes([init]) == SelectedNodes([]) + [];
  }

  /** Appending a select or a relax step that follows a select of its node keeps `Middle`. */
  lemma AppendMiddle(steps: seq<Step>, st: Step)
    requires |steps| >= 1 && Middle(steps, |steps|)
    requires st.state.DijkstraSelect? || st.state.DijkstraRelax?
    requires st.state.DijkstraRelax? ==>
               && steps[|steps| - 1].state.DijkstraSelect? && steps[|steps| - 1].state.currentNode == st.state.currentNode
               && st.state.relaxedCount > 0
    ensures Middle(steps + [st], |steps| + 1)
  {
    var all := steps + [st];
    forall j | 1 <= j < |all|
      ensures (all[j].state.DijkstraSelect? || all[j].state.DijkstraRelax?)
              && (all[j].state.DijkstraRelax? ==>
                    && all[j - 1].state.DijkstraSelect? && all[j - 1].state.currentNode == all[j].state.currentNode
                    && all[j].state.relaxedCount > 0)
    {
      assert all[j - 1] == steps[j - 1];
      if j < |steps| { assert all[j] == steps[j]; }
    }
  }

  /** A select step for an unvisited node extends the steps and visits the node. */
  lemma AppendSelect(g: Graph, start: Id, steps: seq<Step>, dist: map<Id, Ext>, visited: set<Id>, sel: Step)
    requires StepsSoFar(g, start, steps, dist, visited)
    requires sel.stepNumber == |steps| && sel.state.DijkstraSelect? && sel.state.distances == dist
    requires sel.state.currentNode !in visited
    ensures StepsSoFar(g, start, steps + [sel], dist, visited + {sel.state.currentNode})
    ensures SelectedNodes(steps + [sel]) == SelectedNodes(steps) + [sel.state.currentNode]
  {
    AppendNumbered(steps, sel);
    AppendMiddle(steps, sel);
    AppendSelected(steps, sel);
    var all, u := steps + [sel], sel.state.currentNode;
    DistinctAppend(SelectedNodes(steps), u);
    assert all[0] == steps[0] && LastDistances(all) == dist;
    forall v
      ensures v in visited + {u} <==> v in SelectedNodes(all)
    {
    }
  }

  /** A relax step right after the select of its node extends the steps. */
  lemma AppendRelax(g: Graph, start: Id, steps: seq<Step>, dist: map<Id, Ext>, visited: set<Id>,
                    dist': map<Id, Ext>, rel: Step)
    requires StepsSoFar(g, start, steps, dist, visited)
    requires steps[|steps| - 1].state.DijkstraSelect?
    requires rel.stepNumber == |steps| && rel.state.DijkstraRelax? && rel.state.distances == dist'
    requires rel.state.currentNode == steps[|steps| - 1].state.currentNode && rel.state.relaxedCount > 0
    ensures StepsSoFar(g, start, steps + [rel], dist', visited)
  {
    AppendNumbered(steps, rel);
    AppendMiddle(steps, rel);
    AppendSelected(steps, rel);
  }

  /** Appending the outcome step keeps the numbering, the middle steps and the selected nodes. */
  lemma AppendOutcome(g: Graph, start: Id, steps: seq<Step>, dist: map<Id, Ext>, visited: set<Id>, last: Step)
    requires StepsSoFar(g, start, steps, dist, visited)
    requires last.stepNumber == |steps| && (last.state.NotFound? || last.state.Found?)
    ensures var all := steps + [last];
            && |all| >= 2 && Numbered(all) && all[0].state == DijkstraInit(InitialDistances(g, start))
            && Middle(all, |all| - 1) && SelectedNodes(all) == SelectedNodes(steps)
            && all[|all| - 2] == steps[|steps| - 1]
  {
    var all := steps + [last];
    AppendNumbered(steps, last);
    AppendSelected(steps, last);
    forall j | 0 <= j < |steps| ensures all[j] == steps[j] { }
  }

  /** The loop ended on the end node: the outcome is `found`. */
  lemma FoundExit(g: Graph, params: AlgorithmParams, steps: seq<Step>, dist: map<Id, Ext>, visited: set<Id>, last: Step)
    requires Truthy(params.startNode) && Truthy(params.endNode) && |g.nodes| > 0
    requires var start, end := params.startNode.value, params.endNode.value;
             && StepsSoFar(g, start, steps, dist, visited)
             && end in dist && dist[end].Fin?
             && steps[|steps| - 1].state == DijkstraSelect(end, dist[end].n, dist)
             && FoundStep(g, start, end, dist, visited, |steps|, last)
             && end in visited && (start in dist ==> dist[start] == Fin(0))
             && (NonNegativeWeights(g) && start in NodeIds(g) ==> Optimal(g, start, dist, visited))
    ensures DijkstraOutcome(g, params, steps + [last])
  {
    var start, end := params.startNode.value, params.endNode.value;
    if NamedEverywhere(g) {
      if start != end {
        assert start in dist by {
          assert last.state.path[0] == start && |last.state.path| >= 2;
          assert WeightedHopAt(g, last.state.path, last.highlightEdges, dist, 1);
        }
      }
      FoundRoute(g, start, end, dist, visited, |steps|, last);
    }
    AppendOutcome(g, start, steps, dist, visited, last);
    DistinctCard(SelectedNodes(steps));
    assert (set x | x in SelectedNodes(steps)) == visited;
  }

  /** The loop ended with every unvisited node at infinity and the end node unvisited: the
      outcome is `not found`, and no walk from a start node that is a node of the graph reaches
      the end node, because the visited nodes hold every neighbour of each of their members. */
  lemma NotFoundExit(g: Graph, adj: map<Id, seq<AdjEntry>>, params: AlgorithmParams, order: seq<Id>,
                     dist: map<Id, Ext>, prev: map<Id, Link>, visited: set<Id>, pos: map<Id, nat>,
                     steps: seq<Step>, last: Step)
    requires Truthy(params.startNode) && Truthy(params.endNode) && |g.nodes| > 0
    requires var start, end := params.startNode.value, params.endNode.value;
             && Searching(g, adj, start, order, dist, prev, visited, pos)
             && Closed(adj, dist, visited) && end !in visited
             && StepsSoFar(g, start, steps, dist, visited)
             && last.stepNumber == |steps| && last.state.NotFound?
    requires forall j :: 0 <= j < |order| && order[j] !in visited ==> dist[order[j]] == Inf
    ensures DijkstraOutcome(g, params, steps + [last])
  {
    var start, end := params.startNode.value, params.endNode.value;
    AppendOutcome(g, start, steps, dist, visited, last);
    forall u, x | u in visited && x in Neighbors(adj, u) ensures x.nodeId in visited {
      assert x.nodeId in order;
    }
    if start in NodeIds(g) {
      assert start in order;
      forall p | Walk(g, p) && p[0] == start ensures p[|p| - 1] != end {
        ClosedUnderWalks(g, adj, visited, p);
      }
    }
  }

  /** Every visited node's distance is at most the cost of any route from the start to it. */
  ghost predicate Optimal(g: Graph, start: Id, dist: map<Id, Ext>, visited: set<Id>) {
    forall nodes, hops :: Route(g, nodes, hops) && nodes[0] == start && nodes[|nodes| - 1] in visited ==>
      && nodes[|nodes| - 1] in dist && dist[nodes[|nodes| - 1]].Fin?
      && dist[nodes[|nodes| - 1]].n <= Cost(g, hops)
  }

  /** The invariant of the search loop. */
  ghost predicate Loop(g: Graph, adj: map<Id, seq<AdjEntry>>, start: Id, end: Id, order: seq<Id>,
                       dist: map<Id, Ext>, prev: map<Id, Link>, visited: set<Id>, pos: map<Id, nat>,
                       steps: seq<Step>) {
    && Searching(g, adj, start, order, dist, prev, visited, pos)
    && Closed(adj, dist, visited)
    && RelaxedBound(adj, dist, visited)
    && (NonNegativeWeights(g) && start in NodeIds(g) ==> Optimal(g, start, dist, visited))
    && end !in visited
    && StepsSoFar(g, start, steps, dist, visited)
  }

  /** The state in the middle of an iteration, right after `u` was selected and visited. */
  ghost predicate Selected(g: Graph, adj: map<Id, seq<AdjEntry>>, start: Id, u: Id, order: seq<Id>,
                           dist: map<Id, Ext>, prev: map<Id, Link>, visited: set<Id>, pos: map<Id, nat>,
                           steps: seq<Step>) {
    && u in visited
    && Searching(g, adj, start, order, dist, prev, visited, pos)
    && Closed(adj, dist, visited - {u})
    && RelaxedBound(adj, dist, visited - {u})
    && (NonNegativeWeights(g) && start in NodeIds(g) ==> Optimal(g, start, dist, visited))
    && StepsSoFar(g, start, steps, dist, visited)
    && steps[|steps| - 1].state == DijkstraSelect(u, dist[u].n, dist)
  }

  /** The position of the first element of `s` outside `a`. */
  ghost function FirstOutside(s: seq<Id>, a: set<Id>): (i: nat)
    requires exists k :: 0 <= k < |s| && s[k] !in a
    ensures i < |s| && s[i] !in a
    ensures forall k :: 0 <= k < i ==> s[k] in a
  {
    if s[0] !in a then 0
    else
      assert exists k :: 0 <= k < |s[1..]| && s[1..][k] !in a by {
        var k :| 0 <= k < |s| && s[k] !in a;
        assert s[1..][k - 1] == s[k];
      }
      1 + FirstOutside(s[1..], a)
  }

  /** A route from the start whose nodes before the last are all visited costs at least the
      tentative distance of its last node. */
  lemma FrontierBound(g: Graph, adj: map<Id, seq<AdjEntry>>, start: Id, dist: map<Id, Ext>, visited: set<Id>,
                      nodes: seq<Id>, hops: seq<nat>)
    requires IsWeightedAdjacency(g, adj)
    requires RelaxedBound(adj, dist, visited) && Optimal(g, start, dist, visited)
    requires start in dist && dist[start] == Fin(0)
    requires Route(g, nodes, hops) && nodes[0] == start && nodes[|nodes| - 1] !in visited
    requires forall k :: 0 <= k < |nodes| - 1 ==> nodes[k] in visited
    ensures nodes[|nodes| - 1] in dist && dist[nodes[|nodes| - 1]].Fin?
    ensures dist[nodes[|nodes| - 1]].n <= Cost(g, hops)
  {
    if |nodes| > 1 {
      var n := |nodes|;
      var y, v, i := nodes[n - 2], nodes[n - 1], hops[n - 2];
      PrefixOptimal(g, start, dist, visited, nodes, hops);
      EdgeGivesEntry(g, i, y, v);
      var x :| x in EntriesFor(g.directed, g.edges, y) && x.nodeId == v && x.weight == WeightOf(g.edges[i]);
      assert x in Neighbors(adj, y);
    }
  }

  /** The route without its last hop ends at a visited node, so it costs at least that node's
      distance. */
  lemma PrefixOptimal(g: Graph, start: Id, dist: map<Id, Ext>, visited: set<Id>, nodes: seq<Id>, hops: seq<nat>)
    requires Optimal(g, start, dist, visited)
    requires Route(g, nodes, hops) && |nodes| > 1 && nodes[0] == start && nodes[|nodes| - 2] in visited
    ensures nodes[|nodes| - 2] in dist && dist[nodes[|nodes| - 2]].Fin?
    ensures dist[nodes[|nodes| - 2]].n <= Cost(g, hops[..|hops| - 1])
  {
    RoutePrefix(g, nodes, hops, |nodes| - 1);
    var p := nodes[..|nodes| - 1];
    assert p[0] == start && p[|p| - 1] == nodes[|nodes| - 2];
  }

  /** With no negative weight, the unvisited node of least distance is as close to the start as
      any route makes it: visiting it keeps every visited distance optimal. */
  lemma SelectedIsShortest(g: Graph, adj: map<Id, seq<AdjEntry>>, start: Id, dist: map<Id, Ext>,
                           visited: set<Id>, u: Id)
    requires IsWeightedAdjacency(g, adj) && start in dist && dist[start] == Fin(0)
    requires RelaxedBound(adj, dist, visited)
    requires NonNegativeWeights(g) && Optimal(g, start, dist, visited)
    requires u in dist && dist[u].Fin? && u !in visited
    requires forall v :: v in dist && v !in visited ==> !dist[v].Less(dist[u])
    ensures Optimal(g, start, dist, visited + {u})
  {
    forall nodes, hops | Route(g, nodes, hops) && nodes[0] == start && nodes[|nodes| - 1] in visited + {u}
      ensures && nodes[|nodes| - 1] in dist && dist[nodes[|nodes| - 1]].Fin?
              && dist[nodes[|nodes| - 1]].n <= Cost(g, hops)
    {
      if nodes[|nodes| - 1] !in visited {
        RouteToSelected(g, adj, start, dist, visited, u, nodes, hops);
      }
    }
  }

  /** A route from the start to the selected node `u` costs at least `u`'s distance: its first
      unvisited node is at least as far as `u`, and the rest of the route adds no negative cost. */
  lemma RouteToSelected(g: Graph, adj: map<Id, seq<AdjEntry>>, start: Id, dist: map<Id, Ext>,
                        visited: set<Id>, u: Id, nodes: seq<Id>, hops: seq<nat>)
    requires IsWeightedAdjacency(g, adj) && start in dist && dist[start] == Fin(0)
    requires RelaxedBound(adj, dist, visited)
    requires NonNegativeWeights(g) && Optimal(g, start, dist, visited)
    requires u in dist && dist[u].Fin? && u !in visited
    requires forall v :: v in dist && v !in visited ==> !dist[v].Less(dist[u])
    requires Route(g, nodes, hops) && nodes[0] == start && nodes[|nodes| - 1] == u
    ensures dist[u].n <= Cost(g, hops)
  {
    var i := FirstOutside(nodes, visited);
    RoutePrefix(g, nodes, hops, i + 1);
    FrontierBound(g, adj, start, dist, visited, nodes[..i + 1], hops[..i]);
    assert nodes[..i + 1][i] == nodes[i];
  }

  /** The distances of visited nodes survive a relaxation, and so does their optimality. */
  lemma RelaxKeepsOptimal(g: Graph, start: Id, dist: map<Id, Ext>, prev: map<Id, Link>, visited: set<Id>,
                          entries: seq<AdjEntry>, u: Id, du: int, dist': map<Id, Ext>, prev': map<Id, Link>,
                          via: map<Id, nat>)
    requires Optimal(g, start, dist, visited)
    requires TrackedSoFar(entries, |entries|, u, du, visited, dist, prev, dist', prev', via)
    ensures Optimal(g, start, dist', visited)
  {
    forall nodes, hops | Route(g, nodes, hops) && nodes[0] == start && nodes[|nodes| - 1] in visited
      ensures && nodes[|nodes| - 1] in dist' && dist'[nodes[|nodes| - 1]].Fin?
              && dist'[nodes[|nodes| - 1]].n <= Cost(g, hops)
    {
      assert nodes[|nodes| - 1] !in via;
    }
  }

  /** The selection of `u`, the unvisited node of least distance: emit its select step and
      mark it visited. */
  method SelectPhase(g: Graph, adj: map<Id, seq<AdjEntry>>, start: Id, end: Id, u: Id, order: seq<Id>,
                     dist: map<Id, Ext>, prev: map<Id, Link>, visited: set<Id>, ghost pos: map<Id, nat>,
                     steps: seq<Step>)
    returns (visited': set<Id>, ghost pos': map<Id, nat>, steps': seq<Step>)
    requires Loop(g, adj, start, end, order, dist, prev, visited, pos, steps)
    requires u in dist && dist[u].Fin? && u !in visited
    requires forall v :: v in dist && v !in visited ==> !dist[v].Less(dist[u])
    ensures visited' == visited + {u} && u in Endpoints(g)
    ensures Selected(g, adj, start, u, order, dist, prev, visited', pos', steps')
  {
    var styles := Paint(map[], visited, VisitedStyle);
    styles := styles[start := StartStyle][end := EndStyle][u := CurrentStyle];
    var sel := Step(|steps|, [u], [], styles, map[], DijkstraSelect(u, dist[u].n, dist));
    VisitKeeps(start, order, dist, prev, visited, pos, u);
    VisitKeepsLinks(adj, dist, prev, visited, pos, u);
    AppendSelect(g, start, steps, dist, visited, sel);
    if NonNegativeWeights(g) && start in NodeIds(g) {
      assert start in dist;
      SelectedIsShortest(g, adj, start, dist, visited, u);
    }
    assert u in order;
    pos' := pos[u := |visited|];
    visited' := visited + {u};
    assert visited' - {u} == visited;
    steps' := steps + [sel];
  }

  /** The relaxation of the selected node's neighbours and the relax step it emits when an
      edge relaxed. */
  method RelaxPhase(g: Graph, adj: map<Id, seq<AdjEntry>>, start: Id, end: Id, u: Id, order: seq<Id>,
                    dist: map<Id, Ext>, prev: map<Id, Link>, visited: set<Id>, ghost pos: map<Id, nat>,
                    steps: seq<Step>)
    returns (order': seq<Id>, dist': map<Id, Ext>, prev': map<Id, Link>, steps': seq<Step>)
    requires Selected(g, adj, start, u, order, dist, prev, visited, pos, steps)
    requires end !in visited
    ensures Loop(g, adj, start, end, order', dist', prev', visited, pos, steps')
  {
    var relaxed;
    order', dist', prev', relaxed := RelaxNeighbors(g, adj, start, u, order, dist, prev, visited, pos);
    if |relaxed| > 0 {
      var relaxStyles := Paint(map[], visited, VisitedStyle);
      relaxStyles := relaxStyles[start := StartStyle][end := EndStyle][u := CurrentStyle];
      var edgeStyles := Paint(map[], (set e | e in relaxed), RelaxedEdge);
      var rel := Step(|steps|, [u], relaxed, relaxStyles, edgeStyles, DijkstraRelax(u, |relaxed|, dist'));
      AppendRelax(g, start, steps, dist, visited, dist', rel);
      steps' := steps + [rel];
    } else {
      steps' := steps;
    }
  }

  /** The relaxation of the neighbours of the node `u` just visited keeps the search invariants,
      records the edges of the improving entries in order, and changes nothing when no edge
      relaxed. */
  method RelaxNeighbors(g: Graph, adj: map<Id, seq<AdjEntry>>, start: Id, u: Id, order: seq<Id>,
                        dist: map<Id, Ext>, prev: map<Id, Link>, visited: set<Id>, ghost pos: map<Id, nat>)
    returns (order': seq<Id>, dist': map<Id, Ext>, prev': map<Id, Link>, relaxed: seq<Id>)
    requires u in visited
    requires Searching(g, adj, start, order, dist, prev, visited, pos)
    requires Closed(adj, dist, visited - {u})
    requires RelaxedBound(adj, dist, visited - {u})
    requires NonNegativeWeights(g) && start in NodeIds(g) ==> Optimal(g, start, dist, visited)
    ensures Searching(g, adj, start, order', dist', prev', visited, pos)
    ensures Closed(adj, dist', visited)
    ensures RelaxedBound(adj, dist', visited)
    ensures NonNegativeWeights(g) && start in NodeIds(g) ==> Optimal(g, start, dist', visited)
    ensures Replayed(Neighbors(adj, u), |Neighbors(adj, u)|, dist[u].n, visited, dist, dist', relaxed)
    ensures relaxed == [] ==> dist' == dist && prev' == prev
  {
    ghost var via;
    order', dist', prev', relaxed, via := Relax(Neighbors(adj, u), u, dist[u].n, visited, order, dist, prev);
    RelaxKeepsAll(g, adj, start, u, order, dist, prev, visited, pos, order', dist', prev', via);
  }

  /** What the relaxation loop tracks is enough for the search invariants after it. */
  lemma RelaxKeepsAll(g: Graph, adj: map<Id, seq<AdjEntry>>, start: Id, u: Id, order: seq<Id>,
                      dist: map<Id, Ext>, prev: map<Id, Link>, visited: set<Id>, pos: map<Id, nat>,
                      order': seq<Id>, dist': map<Id, Ext>, prev': map<Id, Link>, via: map<Id, nat>)
    requires u in visited
    requires Searching(g, adj, start, order, dist, prev, visited, pos)
    requires Closed(adj, dist, visited - {u})
    requires RelaxedBound(adj, dist, visited - {u})
    requires NonNegativeWeights(g) && start in NodeIds(g) ==> Optimal(g, start, dist, visited)
    requires var entries := Neighbors(adj, u);
             && Distinct(order') && (forall v :: v in dist' <==> v in order')
             && |order'| >= |order| && order'[..|order|] == order
             && (forall v :: v in order' ==> v in order || v in via)
             && TrackedSoFar(entries, |entries|, u, dist[u].n, visited, dist, prev, dist', prev', via)
             && BoundSoFar(entries, |entries|, dist[u].n, visited, dist')
    ensures Searching(g, adj, start, order', dist', prev', visited, pos)
    ensures Closed(adj, dist', visited)
    ensures RelaxedBound(adj, dist', visited)
    ensures NonNegativeWeights(g) && start in NodeIds(g) ==> Optimal(g, start, dist', visited)
    ensures via == map[] ==> dist' == dist && prev' == prev
  {
    RelaxKeeps(g, adj, start, order, dist, prev, visited, pos, u, order', dist', prev', via);
    RelaxKeepsBound(adj, dist, prev, visited, u, dist', prev', via);
    if NonNegativeWeights(g) && start in NodeIds(g) {
      RelaxKeepsOptimal(g, start, dist, prev, visited, Neighbors(adj, u), u, dist[u].n, dist', prev', via);
    }
    if via == map[] {
      NothingRelaxed(dist, prev, dist', prev');
    }
  }

  /** The loop stopped on the end node: rebuild the path and report it. */
  method FoundPhase(g: Graph, adj: map<Id, seq<AdjEntry>>, params: AlgorithmParams, order: seq<Id>,
                    dist: map<Id, Ext>, prev: map<Id, Link>, visited: set<Id>, ghost pos: map<Id, nat>,
                    steps: seq<Step>)
    returns (steps': seq<Step>)
    requires Truthy(params.startNode) && Truthy(params.endNode) && |g.nodes| > 0
    requires Selected(g, adj, params.startNode.value, params.endNode.value, order, dist, prev, visited, pos, steps)
    ensures DijkstraOutcome(g, params, steps')
  {
    var start, end := params.startNode.value, params.endNode.value;
    SearchingIsLinked(g, adj, start, order, dist, prev, visited, pos);
    var last := Finish(g, adj, start, end, dist, prev, visited, pos, |steps|);
    FoundExit(g, params, steps, dist, visited, last);
    steps' := steps + [last];
  }

  /** The loop stopped with every unvisited node at infinity: report the outcome. */
  method ExhaustedPhase(g: Graph, adj: map<Id, seq<AdjEntry>>, params: AlgorithmParams, order: seq<Id>,
                        dist: map<Id, Ext>, prev: map<Id, Link>, visited: set<Id>, ghost pos: map<Id, nat>,
                        steps: seq<Step>)
    returns (steps': seq<Step>)
    requires Truthy(params.startNode) && Truthy(params.endNode) && |g.nodes| > 0
    requires Loop(g, adj, params.startNode.value, params.endNode.value, order, dist, prev, visited, pos, steps)
    requires forall j :: 0 <= j < |order| && order[j] !in visited ==> dist[order[j]] == Inf
    ensures DijkstraOutcome(g, params, steps')
  {
    var start, end := params.startNode.value, params.endNode.value;
    SearchingIsLinked(g, adj, start, order, dist, prev, visited, pos);
    var last := Finish(g, adj, start, end, dist, prev, visited, pos, |steps|);
    assert end in dist ==> end in order;
    NotFoundExit(g, adj, params, order, dist, prev, visited, pos, steps, last);
    steps' := steps + [last];
  }

  /** The initialisation: the adjacency, the distances (0 for the start, Infinity for every
      other node), no links, nothing visited, and the `init` step. */
  method Initialize(g: Graph, start: Id, end: Id)
    returns (adj: map<Id, seq<AdjEntry>>, order: seq<Id>, dist: map<Id, Ext>, prev: map<Id, Link>,
             visited: set<Id>, ghost pos: map<Id, nat>, steps: seq<Step>)
    ensures Loop(g, adj, start, end, order, dist, prev, visited, pos, steps)
  {
    adj := BuildWeightedAdjacency(g);
    order := NodeIds(g);
    dist := InitialDistances(g, start);
    prev, visited, pos := map[], {}, map[];
    var init := Step(0, [start, end], [], map[start := StartStyle][end := EndStyle], map[], DijkstraInit(dist));
    InitialLoop(g, adj, start, end, init);
    steps := [init];
  }

  /** The loop invariant holds right after initialisation. */
  lemma InitialLoop(g: Graph, adj: map<Id, seq<AdjEntry>>, start: Id, end: Id, init: Step)
    requires IsWeightedAdjacency(g, adj)
    requires init.stepNumber == 0 && init.state == DijkstraInit(InitialDistances(g, start))
    ensures Loop(g, adj, start, end, NodeIds(g), InitialDistances(g, start), map[], {}, map[], [init])
  {
    var dist := InitialDistances(g, start);
    InitialSearch(g, adj, start);
    InitialSteps(g, start, init);
    assert RelaxedBound(adj, dist, {});
    assert Optimal(g, start, dist, {});
  }

  /** `dijkstra.run`: the step sequence of one search. */
  method Run(g: Graph, params: AlgorithmParams) returns (steps: seq<Step>)
    ensures DijkstraOutcome(g, params, steps)
  {
    steps := [];
    if !Truthy(params.startNode) || !Truthy(params.endNode) { return; }
    if |g.nodes| == 0 { return; }
    var start, end := params.startNode.value, params.endNode.value;
    var adj, order, dist, prev, visited;
    ghost var pos;
    adj, order, dist, prev, visited, pos, steps := Initialize(g, start, end);
    while true
      invariant Loop(g, adj, start, end, order, dist, prev, visited, pos, steps)
      decreases |Endpoints(g) - visited|
    {
      var k := SelectMin(order, dist, visited);
      if k.None? {
        steps := ExhaustedPhase(g, adj, params, order, dist, prev, visited, pos, steps);
        return;
      }
      var u := order[k.value];
      ghost var visited0 := visited;
      visited, pos, steps := SelectPhase(g, adj, start, end, u, order, dist, prev, visited, pos, steps);
      SettleShrinks(Endpoints(g), visited0, u);
      if u == end {
        steps := FoundPhase(g, adj, params, order, dist, prev, visited, pos, steps);
        return;
      }
      order, dist, prev, steps := RelaxPhase(g, adj, start, end, u, order, dist, prev, visited, pos, steps);
    }
  }

  /** `execute`: drain the run; success exactly when the last step reports a found path; the
      final state is the last step's, absent when there are no steps. A success reports a
      walk from the start to the end node, shortest when no weight is negative; a failure on a
      run with steps means no walk leads from the start to the end node. */
  method Execute(g: Graph, params: AlgorithmParams) returns (r: AlgorithmResult)
    ensures DijkstraOutcome(g, params, r.steps)
    ensures r.finalState == LastState(r.steps)
    ensures r.success <==> r.steps != [] && r.steps[|r.steps| - 1].state.Found?
    ensures r.success ==>
              var found := r.steps[|r.steps| - 1].state;
              && found.path[|found.path| - 1] == params.endNode.value
              && (NamedEverywhere(g) ==> found.path[0] == params.startNode.value)
              && (NamedEverywhere(g) ==> exists hops :: Route(g, found.path, hops) && Cost(g, hops) == found.distance)
              && (NonNegativeWeights(g) && params.startNode.value in NodeIds(g) ==>
                    forall nodes, hops ::
                      Route(g, nodes, hops) && nodes[0] == params.startNode.value && nodes[|nodes| - 1] == params.endNode.value
                      ==> found.distance <= Cost(g, hops))
    ensures !r.success && r.steps != [] && params.startNode.value in NodeIds(g) ==>
              forall p :: Walk(g, p) && p[0] == params.startNode.value ==> p[|p| - 1] != params.endNode.value
  {
    var steps := Run(g, params);
    var success := steps != [] && steps[|steps| - 1].state.Found?;
    r := AlgorithmResult(success, steps, LastState(steps));
  }
}
