/** The A* engine: best-first search on cost so far plus a straight-line estimate of the cost
    still to go, read from the node coordinates. */
module AStar {
  import opened Common
  import opened GraphTypes
  import opened AlgorithmTypes
  import opened Pathfinding

  /** A node that exists and has both coordinates. */
  predicate Placed(n: Option<GraphNode>) {
    n.Some? && n.value.x.Some? && n.value.y.Some?
  }

  /** The squared straight-line gap between two nodes with coordinates. */
  function SquaredGap(a: GraphNode, b: GraphNode): (d: int)
    requires a.x.Some? && a.y.Some? && b.x.Some? && b.y.Some?
    ensures d >= 0
  {
    var dx, dy := a.x.value - b.x.value, a.y.value - b.y.value;
    assert dx * dx >= 0 && dy * dy >= 0;
    dx * dx + dy * dy
  }

  /** `euclideanDistance`: the straight-line distance between the first nodes with ids `a` and
      `b`, scaled down by 100; 0 when either node or one of its coordinates is missing. `sqrt`
      stands for `Math.sqrt`. */
  function Heuristic(g: Graph, a: Id, b: Id, sqrt: real -> real): (h: real)
    ensures !Placed(FindNode(g, a)) || !Placed(FindNode(g, b)) ==> h == 0.0
  {
    var na, nb := FindNode(g, a), FindNode(g, b);
    if !Placed(na) || !Placed(nb) then 0.0
    else sqrt(SquaredGap(na.value, nb.value) as real) / 100.0
  }

  /** The score `g + h` of node `v` reached at cost `c`. */
  function Estimate(g: Graph, end: Id, sqrt: real -> real, v: Id, c: int): ExtReal {
    FinR(c as real + Heuristic(g, v, end, sqrt))
  }

  /** The estimate does not depend on the direction. */
  lemma HeuristicSymmetric(g: Graph, a: Id, b: Id, sqrt: real -> real)
    ensures Heuristic(g, a, b, sqrt) == Heuristic(g, b, a, sqrt)
  {
    var na, nb := FindNode(g, a), FindNode(g, b);
    if Placed(na) && Placed(nb) {
      var p, q := na.value, nb.value;
      var dx, dy := p.x.value - q.x.value, p.y.value - q.y.value;
      assert (q.x.value - p.x.value) * (q.x.value - p.x.value) == dx * dx by {
        assert q.x.value - p.x.value == -dx;
      }
      assert (q.y.value - p.y.value) * (q.y.value - p.y.value) == dy * dy by {
        assert q.y.value - p.y.value == -dy;
      }
      assert SquaredGap(p, q) == SquaredGap(q, p);
    }
  }

  /** `fScore.get(v) ?? Infinity`. */
  function Score(f: map<Id, ExtReal>, v: Id): ExtReal {
    if v in f then f[v] else InfR
  }

  /** The scan of the open set: walk it in insertion order and keep the first node of strictly
      smallest score. None exactly when every open node scores Infinity (in particular when
      the open set is empty). */
  method SelectBest(open: seq<Id>, f: map<Id, ExtReal>) returns (k: Option<nat>, best: ExtReal)
    ensures k.None? <==> forall j :: 0 <= j < |open| ==> Score(f, open[j]) == InfR
    ensures k.None? ==> best == InfR
    ensures k.Some? ==> k.value < |open| && best == Score(f, open[k.value]) && best.FinR?
    ensures k.Some? ==> forall j :: 0 <= j < |open| ==> !Score(f, open[j]).Less(best)
    ensures k.Some? ==> forall j :: 0 <= j < k.value ==> best.Less(Score(f, open[j]))
  {
    k, best := None, InfR;
    for i := 0 to |open|
      invariant k.None? ==> best == InfR && forall j :: 0 <= j < i ==> Score(f, open[j]) == InfR
      invariant k.Some? ==> k.value < i && best == Score(f, open[k.value]) && best.FinR?
      invariant forall j :: 0 <= j < i ==> !Score(f, open[j]).Less(best)
      invariant k.Some? ==> forall j :: 0 <= j < k.value ==> best.Less(Score(f, open[j]))
    {
      var s := Score(f, open[i]);
      if s.Less(best) {
        k, best := Some(i), s;
      }
    }
  }

  /** One pass of the neighbour loop, for the entry `x` of the current node `u` of cost `gu`:
      a closed neighbour is skipped; otherwise, when `gu + weight` beats the neighbour's cost,
      the neighbour is linked to `u`, gets that cost, a score of cost plus estimate, and joins
      the open set. */
  method ExploreEntry(g: Graph, end: Id, sqrt: real -> real, x: AdjEntry, u: Id, gu: int, closed: set<Id>,
                      open: seq<Id>, gs: map<Id, Ext>, fs: map<Id, ExtReal>, prev: map<Id, Link>)
    returns (open': seq<Id>, gs': map<Id, Ext>, fs': map<Id, ExtReal>, prev': map<Id, Link>, improved: bool)
    ensures EntryEffect(x, u, gu, closed, gs, prev, improved, gs', prev')
    ensures !improved ==> open' == open && fs' == fs
    ensures improved ==> open' == Add(open, x.nodeId)
                         && fs' == fs[x.nodeId := Estimate(g, end, sqrt, x.nodeId, gu + x.weight)]
  {
    open', gs', fs', prev', improved := open, gs, fs, prev, false;
    if x.nodeId in closed {
      return;
    }
    var tentative := gu + x.weight;
    if Fin(tentative).Less(if x.nodeId in gs then gs[x.nodeId] else Inf) {
      prev' := prev[x.nodeId := Link(u, x.edgeId)];
      gs' := gs[x.nodeId := Fin(tentative)];
      fs' := fs[x.nodeId := Estimate(g, end, sqrt, x.nodeId, tentative)];
      open' := Add(open, x.nodeId);
      improved := true;
    }
  }

  /** The invariant of the neighbour loop after the first `i` entries: the open set grew only by
      the improved nodes, appended in order; costs and links changed as `TrackedSoFar` says;
      each improved node's score is its new cost plus its estimate, other scores are unchanged;
      the costs and the recorded edges agree with `Replay`, so the edges are those of the
      improving entries, in entry order. */
  ghost predicate ExploreInvariant(g: Graph, end: Id, sqrt: real -> real, entries: seq<AdjEntry>, i: int,
                                   u: Id, gu: int, closed: set<Id>,
                                   open: seq<Id>, gs: map<Id, Ext>, fs: map<Id, ExtReal>, prev: map<Id, Link>,
                                   open': seq<Id>, gs': map<Id, Ext>, fs': map<Id, ExtReal>, prev': map<Id, Link>,
                                   relaxed: seq<Id>, via: map<Id, nat>) {
    && ExploreTracked(g, end, sqrt, entries, i, u, gu, closed, open, gs, fs, prev, open', gs', fs', prev', relaxed, via)
    && Replayed(entries, i, gu, closed, gs, gs', relaxed)
  }

  /** The part of `ExploreInvariant` the search needs. */
  ghost predicate ExploreTracked(g: Graph, end: Id, sqrt: real -> real, entries: seq<AdjEntry>, i: int,
                                 u: Id, gu: int, closed: set<Id>,
                                 open: seq<Id>, gs: map<Id, Ext>, fs: map<Id, ExtReal>, prev: map<Id, Link>,
                                 open': seq<Id>, gs': map<Id, Ext>, fs': map<Id, ExtReal>, prev': map<Id, Link>,
                                 relaxed: seq<Id>, via: map<Id, nat>) {
    && OpenGrown(open, open', via)
    && TrackedSoFar(entries, i, u, gu, closed, gs, prev, gs', prev', via)
    && BoundSoFar(entries, i, gu, closed, gs')
    && ScoresTracked(g, end, sqrt, gs', fs, fs', via)
    && EdgesRecorded(entries, i, relaxed, via)
  }

  /** The open set grew only by the nodes in `via`, appended after the old ones. */
  ghost predicate OpenGrown(open: seq<Id>, open': seq<Id>, via: map<Id, nat>) {
    && Distinct(open') && |open'| >= |open| && open'[..|open|] == open
    && (forall v :: v in open' <==> v in open || v in via)
  }

  /** Each node in `via` scores its new cost plus its estimate; every other score is unchanged. */
  ghost predicate ScoresTracked(g: Graph, end: Id, sqrt: real -> real, gs': map<Id, Ext>,
                                fs: map<Id, ExtReal>, fs': map<Id, ExtReal>, via: map<Id, nat>) {
    && (forall v :: v in via ==> Scored(g, end, sqrt, gs', fs', v))
    && (forall v :: v !in via ==> (v in fs' <==> v in fs) && (v in fs ==> fs'[v] == fs[v]))
  }

  /** The recorded edges are those of the improving entries among the first `i`. */
  ghost predicate EdgesRecorded(entries: seq<AdjEntry>, i: int, relaxed: seq<Id>, via: map<Id, nat>) {
    && (relaxed == [] <==> via == map[])
    && (forall e :: e in relaxed ==> exists j :: 0 <= j < i && j < |entries| && entries[j].edgeId == e)
  }

  /** The body of the neighbour loop, for entry `i`. */
  method ExploreStep(g: Graph, end: Id, sqrt: real -> real, entries: seq<AdjEntry>, i: nat,
                     u: Id, gu: int, closed: set<Id>,
                     open: seq<Id>, gs: map<Id, Ext>, fs: map<Id, ExtReal>, prev: map<Id, Link>,
                     open0: seq<Id>, gs0: map<Id, Ext>, fs0: map<Id, ExtReal>, prev0: map<Id, Link>,
                     relaxed0: seq<Id>, ghost via0: map<Id, nat>)
    returns (open': seq<Id>, gs': map<Id, Ext>, fs': map<Id, ExtReal>, prev': map<Id, Link>,
             relaxed: seq<Id>, ghost via: map<Id, nat>)
    requires i < |entries|
    requires ExploreInvariant(g, end, sqrt, entries, i, u, gu, closed, open, gs, fs, prev,
                              open0, gs0, fs0, prev0, relaxed0, via0)
    ensures ExploreTracked(g, end, sqrt, entries, i + 1, u, gu, closed, open, gs, fs, prev,
                             open', gs', fs', prev', relaxed, via)
    ensures Replayed(entries, i + 1, gu, closed, gs, gs', relaxed)
  {
    var improved;
    open', gs', fs', prev', improved := ExploreEntry(g, end, sqrt, entries[i], u, gu, closed, open0, gs0, fs0, prev0);
    relaxed := if improved then relaxed0 + [entries[i].edgeId] else relaxed0;
    via := if improved then via0[entries[i].nodeId := i] else via0;
    EntryKeepsInvariant(g, end, sqrt, entries, i, u, gu, closed, open, gs, fs, prev,
                        open0, gs0, fs0, prev0, relaxed0, via0, improved, open', gs', fs', prev', relaxed, via);
  }

  /** One more entry keeps `ExploreInvariant`. */
  lemma EntryKeepsInvariant(g: Graph, end: Id, sqrt: real -> real, entries: seq<AdjEntry>, i: nat,
                            u: Id, gu: int, closed: set<Id>,
                            open: seq<Id>, gs: map<Id, Ext>, fs: map<Id, ExtReal>, prev: map<Id, Link>,
                            open0: seq<Id>, gs0: map<Id, Ext>, fs0: map<Id, ExtReal>, prev0: map<Id, Link>,
                            relaxed0: seq<Id>, via0: map<Id, nat>, improved: bool,
                            open': seq<Id>, gs': map<Id, Ext>, fs': map<Id, ExtReal>, prev': map<Id, Link>,
                            relaxed: seq<Id>, via: map<Id, nat>)
    requires i < |entries|
    requires ExploreInvariant(g, end, sqrt, entries, i, u, gu, closed, open, gs, fs, prev,
                              open0, gs0, fs0, prev0, relaxed0, via0)
    requires EntryEffect(entries[i], u, gu, closed, gs0, prev0, improved, gs', prev')
    requires !improved ==> open' == open0 && fs' == fs0
    requires improved ==>
               && open' == Add(open0, entries[i].nodeId)
               && fs' == fs0[entries[i].nodeId := Estimate(g, end, sqrt, entries[i].nodeId, gu + entries[i].weight)]
    requires relaxed == if improved then relaxed0 + [entries[i].edgeId] else relaxed0
    requires via == if improved then via0[entries[i].nodeId := i] else via0
    ensures ExploreInvariant(g, end, sqrt, entries, i + 1, u, gu, closed, open, gs, fs, prev,
                             open', gs', fs', prev', relaxed, via)
  {
    ExploreOneMore(g, end, sqrt, entries, i, u, gu, closed, open, gs, fs, prev,
                   open0, gs0, fs0, prev0, relaxed0, via0, improved, open', gs', fs', prev', relaxed, via);
    ReplayOneMore(entries, i, u, gu, closed, gs, prev0, gs0, relaxed0, improved, gs', prev', relaxed);
  }

  /** One more entry keeps `ExploreTracked`. */
  lemma ExploreOneMore(g: Graph, end: Id, sqrt: real -> real, entries: seq<AdjEntry>, i: nat,
                       u: Id, gu: int, closed: set<Id>,
                       open: seq<Id>, gs: map<Id, Ext>, fs: map<Id, ExtReal>, prev: map<Id, Link>,
                       open0: seq<Id>, gs0: map<Id, Ext>, fs0: map<Id, ExtReal>, prev0: map<Id, Link>,
                       relaxed0: seq<Id>, via0: map<Id, nat>, improved: bool,
                       open': seq<Id>, gs': map<Id, Ext>, fs': map<Id, ExtReal>, prev': map<Id, Link>,
                       relaxed: seq<Id>, via: map<Id, nat>)
    requires i < |entries|
    requires ExploreTracked(g, end, sqrt, entries, i, u, gu, closed, open, gs, fs, prev,
                              open0, gs0, fs0, prev0, relaxed0, via0)
    requires EntryEffect(entries[i], u, gu, closed, gs0, prev0, improved, gs', prev')
    requires !improved ==> open' == open0 && fs' == fs0 && relaxed == relaxed0 && via == via0
    requires improved ==>
               && open' == Add(open0, entries[i].nodeId)
               && fs' == fs0[entries[i].nodeId := Estimate(g, end, sqrt, entries[i].nodeId, gu + entries[i].weight)]
               && relaxed == relaxed0 + [entries[i].edgeId] && via == via0[entries[i].nodeId := i]
    ensures ExploreTracked(g, end, sqrt, entries, i + 1, u, gu, closed, open, gs, fs, prev,
                             open', gs', fs', prev', relaxed, via)
  {
    var w := entries[i].nodeId;
    GrowOpen(open, open0, via0, w, improved, open', via);
    ScoresOneMore(g, end, sqrt, w, gu + entries[i].weight, improved, gs0, gs', fs, fs0, fs', via0, via);
    RecordEdge(entries, i, improved, relaxed0, via0, relaxed, via);
    TrackedOneMore(entries, i, u, gu, closed, gs, prev, gs0, prev0, via0, improved, gs', prev', via);
    BoundOneMore(entries, i, gu, closed, gs0, improved, gs');
  }

  /** Opening one more improved node `w`, or none, keeps `OpenGrown`. */
  lemma GrowOpen(open: seq<Id>, open0: seq<Id>, via0: map<Id, nat>, w: Id, improved: bool,
                 open': seq<Id>, via: map<Id, nat>)
    requires OpenGrown(open, open0, via0)
    requires !improved ==> open' == open0 && via.Keys == via0.Keys
    requires improved ==> open' == Add(open0, w) && via.Keys == via0.Keys + {w}
    ensures OpenGrown(open, open', via)
  {
    if improved {
      assert Add(open0, w)[..|open|] == open0[..|open|];
    }
  }

  /** Recording the edge of one more improving entry, or of none, keeps `EdgesRecorded`. */
  lemma RecordEdge(entries: seq<AdjEntry>, i: nat, improved: bool, relaxed0: seq<Id>, via0: map<Id, nat>,
                   relaxed: seq<Id>, via: map<Id, nat>)
    requires i < |entries| && EdgesRecorded(entries, i, relaxed0, via0)
    requires !improved ==> relaxed == relaxed0 && via == via0
    requires improved ==> relaxed == relaxed0 + [entries[i].edgeId] && via == via0[entries[i].nodeId := i]
    ensures EdgesRecorded(entries, i + 1, relaxed, via)
  {
    if improved {
      assert entries[i].nodeId in via;
    }
    forall e | e in relaxed ensures exists j :: 0 <= j < i + 1 && j < |entries| && entries[j].edgeId == e {
      if e !in relaxed0 {
        assert entries[i].edgeId == e;
      }
    }
  }

  /** Scoring one more improved node `w`, or none, keeps `ScoresTracked`. */
  lemma ScoresOneMore(g: Graph, end: Id, sqrt: real -> real, w: Id, cost: int, improved: bool,
                      gs0: map<Id, Ext>, gs': map<Id, Ext>,
                      fs: map<Id, ExtReal>, fs0: map<Id, ExtReal>, fs': map<Id, ExtReal>,
                      via0: map<Id, nat>, via: map<Id, nat>)
    requires ScoresTracked(g, end, sqrt, gs0, fs, fs0, via0)
    requires !improved ==> gs' == gs0 && fs' == fs0 && via.Keys == via0.Keys
    requires improved ==>
               && gs' == gs0[w := Fin(cost)]
               && fs' == fs0[w := Estimate(g, end, sqrt, w, cost)]
               && via.Keys == via0.Keys + {w}
    ensures ScoresTracked(g, end, sqrt, gs', fs, fs', via)
  {
    if improved {
      forall v | v in via ensures Scored(g, end, sqrt, gs', fs', v) {
        if v != w {
          ScoredKept(g, end, sqrt, v, gs0, fs0, gs', fs');
        }
      }
      forall v | v !in via ensures (v in fs' <==> v in fs) && (v in fs ==> fs'[v] == fs[v]) {
        assert v != w && v !in via0;
      }
    }
  }

  /** A scored node whose cost and score are unchanged stays scored. */
  lemma ScoredKept(g: Graph, end: Id, sqrt: real -> real, v: Id,
                   gs0: map<Id, Ext>, fs0: map<Id, ExtReal>, gs': map<Id, Ext>, fs': map<Id, ExtReal>)
    requires Scored(g, end, sqrt, gs0, fs0, v)
    requires v in gs' && gs'[v] == gs0[v] && v in fs' && fs'[v] == fs0[v]
    ensures Scored(g, end, sqrt, gs', fs', v)
  {
  }

  /** The neighbour loop of the current node `u` of cost `gu`. */
  method Explore(g: Graph, end: Id, sqrt: real -> real, entries: seq<AdjEntry>, u: Id, gu: int, closed: set<Id>,
                 open: seq<Id>, gs: map<Id, Ext>, fs: map<Id, ExtReal>, prev: map<Id, Link>)
    returns (open': seq<Id>, gs': map<Id, Ext>, fs': map<Id, ExtReal>, prev': map<Id, Link>,
             relaxed: seq<Id>, ghost via: map<Id, nat>)
    requires Distinct(open)
    ensures ExploreInvariant(g, end, sqrt, entries, |entries|, u, gu, closed, open, gs, fs, prev,
                             open', gs', fs', prev', relaxed, via)
  {
    open', gs', fs', prev', relaxed, via := open, gs, fs, prev, [], map[];
    assert open'[..|open|] == open;
    for i := 0 to |entries|
      invariant ExploreInvariant(g, end, sqrt, entries, i, u, gu, closed, open, gs, fs, prev,
                                 open', gs', fs', prev', relaxed, via)
    {
      open', gs', fs', prev', relaxed, via :=
        ExploreStep(g, end, sqrt, entries, i, u, gu, closed, open, gs, fs, prev, open', gs', fs', prev', relaxed, via);
    }
  }

  /** A node is open with a finite cost and a score equal to that cost plus its estimate. */
  ghost predicate Scored(g: Graph, end: Id, sqrt: real -> real, gs: map<Id, Ext>, fs: map<Id, ExtReal>, v: Id) {
    v in gs && gs[v].Fin? && v in fs && fs[v] == Estimate(g, end, sqrt, v, gs[v].n)
  }

  /** The engine's search state between iterations.
      - The links and the closed nodes form a `Linked` search state.
      - The open set has no repetitions and no closed node; every open node is `Scored`.
      - Every node with a finite cost is open or closed.
      - The start keeps cost 0; before anything is closed the open set is just the start, and
        once anything is closed the start is.
      - Every node with a cost is the start or an id the graph mentions. */
  ghost predicate Frontier(g: Graph, adj: map<Id, seq<AdjEntry>>, start: Id, end: Id, sqrt: real -> real,
                           open: seq<Id>, gs: map<Id, Ext>, fs: map<Id, ExtReal>, prev: map<Id, Link>,
                           closed: set<Id>, pos: map<Id, nat>) {
    && Linked(g, adj, start, gs, prev, closed, pos)
    && OpenSet(g, start, end, sqrt, open, gs, fs, closed)
  }

  /** The part of `Frontier` about the open set, the costs and the scores. */
  ghost predicate OpenSet(g: Graph, start: Id, end: Id, sqrt: real -> real,
                          open: seq<Id>, gs: map<Id, Ext>, fs: map<Id, ExtReal>, closed: set<Id>) {
    && Distinct(open)
    && (forall v :: v in open ==> v !in closed && Scored(g, end, sqrt, gs, fs, v))
    && (forall v :: v in gs && gs[v].Fin? ==> v in open || v in closed)
    && start in gs && gs[start] == Fin(0)
    && (closed == {} ==> open == [start])
    && (closed != {} ==> start in closed)
    && (forall v :: v in gs ==> v == start || v in Endpoints(g))
  }

  /** Step `j` of a run, after `init` and before the outcome: a select step reports the cost of
      its node, the node's estimate and their sum, and a non-empty open set; an explore step
      follows the select of its node and reports at least one improved neighbour; both report
      as closed-set size the number of selects before them. */
  ghost predicate StepAt(g: Graph, end: Id, sqrt: real -> real, steps: seq<Step>, j: int)
    requires 1 <= j < |steps|
  {
    var s := steps[j].state;
    && (s.AStarSelect? || s.AStarExplore?)
    && (s.AStarSelect? ==>
          s.h == Heuristic(g, s.currentNode, end, sqrt) && s.f == s.g as real + s.h && s.openSetSize > 0)
    && (s.AStarExplore? ==>
          && steps[j - 1].state.AStarSelect? && steps[j - 1].state.currentNode == s.currentNode
          && s.neighborsExplored > 0)
    && s.closedSetSize == |SelectedNodes(steps[..j])|
  }

  ghost predicate Middle(g: Graph, end: Id, sqrt: real -> real, steps: seq<Step>, n: int)
    requires 0 <= n <= |steps|
  {
    forall j :: 1 <= j < n ==> StepAt(g, end, sqrt, steps, j)
  }

  /** The steps emitted before an iteration: `init`, then select and explore steps; the selected
      nodes are distinct, are exactly the closed nodes, and start with the start node. */
  ghost predicate StepsSoFar(g: Graph, start: Id, end: Id, sqrt: real -> real, steps: seq<Step>, closed: set<Id>) {
    && |steps| >= 1 && Numbered(steps)
    && steps[0].state == AStarInit(1, 0)
    && Middle(g, end, sqrt, steps, |steps|)
    && Distinct(SelectedNodes(steps))
    && (forall v :: v in closed <==> v in SelectedNodes(steps))
    && (SelectedNodes(steps) != [] ==> SelectedNodes(steps)[0] == start)
  }

  /** The whole loop invariant. */
  ghost predicate Loop(g: Graph, adj: map<Id, seq<AdjEntry>>, start: Id, end: Id, sqrt: real -> real,
                       open: seq<Id>, gs: map<Id, Ext>, fs: map<Id, ExtReal>, prev: map<Id, Link>,
                       closed: set<Id>, pos: map<Id, nat>, steps: seq<Step>) {
    && Frontier(g, adj, start, end, sqrt, open, gs, fs, prev, closed, pos)
    && Closed(adj, gs, closed)
    && end !in closed
    && StepsSoFar(g, start, end, sqrt, steps, closed)
  }

  /** The state in the middle of an iteration, right after `u` was selected and closed. */
  ghost predicate Selected(g: Graph, adj: map<Id, seq<AdjEntry>>, start: Id, end: Id, sqrt: real -> real, u: Id,
                           open: seq<Id>, gs: map<Id, Ext>, fs: map<Id, ExtReal>, prev: map<Id, Link>,
                           closed: set<Id>, pos: map<Id, nat>, steps: seq<Step>) {
    && u in closed
    && Frontier(g, adj, start, end, sqrt, open, gs, fs, prev, closed, pos)
    && Closed(adj, gs, closed - {u})
    && StepsSoFar(g, start, end, sqrt, steps, closed)
    && steps[|steps| - 1].state.AStarSelect?
    && steps[|steps| - 1].state.currentNode == u && steps[|steps| - 1].state.g == gs[u].n
  }

  /** What an A* run emits. Without a truthy start and end, or without nodes, nothing.
      Otherwise `init` (open set of size 1, nothing closed), select and explore steps, the first
      select being the start and no node selected twice, and an outcome step:
      - `found`: the step before it selects the end node with the reported distance as its cost;
        the reported path ends at the end node and follows graph edges; when no id is empty it
        starts at the start node and the distance is the cost of a route along it; the visited
        count is the number of selections;
      - `not found`: the end node was never selected and no walk of the graph leads from the
        start to the end. */
  ghost predicate AStarOutcome(g: Graph, params: AlgorithmParams, sqrt: real -> real, steps: seq<Step>) {
    if !Truthy(params.startNode) || !Truthy(params.endNode) || |g.nodes| == 0 then steps == []
    else
      var start, end := params.startNode.value, params.endNode.value;
      && |steps| >= 3 && Numbered(steps)
      && steps[0].state == AStarInit(1, 0)
      && Middle(g, end, sqrt, steps, |steps| - 1)
      && Distinct(SelectedNodes(steps))
      && SelectedNodes(steps) != [] && SelectedNodes(steps)[0] == start
      && var last := steps[|steps| - 1];
         && (last.state.NotFound? || last.state.Found?)
         && (last.state.NotFound? ==>
               && end !in SelectedNodes(steps)
               && forall p :: Walk(g, p) && p[0] == start ==> p[|p| - 1] != end)
         && (last.state.Found? ==>
               var path, before := last.state.path, steps[|steps| - 2].state;
               && before.AStarSelect? && before.currentNode == end && before.g == last.state.distance
               && last.highlightNodes == path && last.state.pathLength == |path|
               && last.state.nodesVisited == |SelectedNodes(steps)|
               && |path| >= 1 && path[|path| - 1] == end
               && Along(g, path, last.highlightEdges)
               && (NamedEverywhere(g) ==> path[0] == start && |last.highlightEdges| == |path| - 1)
               && (NamedEverywhere(g) ==> exists hops :: Route(g, path, hops) && Cost(g, hops) == last.state.distance))
  }

  /** The costs right after initialisation: Infinity for every node, 0 for the start. */
  function InitialCosts(g: Graph, start: Id): (gs: map<Id, Ext>)
    ensures forall v :: v in gs <==> v in NodeIds(g) || v == start
    ensures forall v :: v in gs ==> (gs[v].Fin? <==> v == start)
    ensures gs[start] == Fin(0)
  {
    map v | v in NodeIds(g) + [start] :: if v == start then Fin(0) else Inf
  }

  /** The scores right after initialisation: Infinity for every node, the start's estimate for
      the start. */
  function InitialScores(g: Graph, start: Id, end: Id, sqrt: real -> real): (fs: map<Id, ExtReal>)
    ensures forall v :: v in fs <==> v in NodeIds(g) || v == start
    ensures fs[start] == Estimate(g, end, sqrt, start, 0)
  {
    map v | v in NodeIds(g) + [start] :: if v == start then Estimate(g, end, sqrt, start, 0) else InfR
  }

  /** The initialisation: the adjacency, the costs and scores, no links, the open set holding
      the start, nothing closed, and the `init` step. */
  method Initialize(g: Graph, start: Id, end: Id, sqrt: real -> real)
    returns (adj: map<Id, seq<AdjEntry>>, open: seq<Id>, gs: map<Id, Ext>, fs: map<Id, ExtReal>,
             prev: map<Id, Link>, closed: set<Id>, ghost pos: map<Id, nat>, steps: seq<Step>)
    requires start != ""
    ensures Loop(g, adj, start, end, sqrt, open, gs, fs, prev, closed, pos, steps)
  {
    adj := BuildWeightedAdjacency(g);
    gs := InitialCosts(g, start);
    fs := InitialScores(g, start, end, sqrt);
    prev, closed, pos := map[], {}, map[];
    open := [start];
    var init := Step(0, [start, end], [], map[start := StartStyle][end := EndStyle], map[], AStarInit(1, 0));
    steps := [init];
    InitialFrontier(g, adj, start, end, sqrt);
    InitialSteps(g, start, end, sqrt, init);
  }

  /** Right after initialisation the search state is a `Frontier` and trivially closed. */
  lemma InitialFrontier(g: Graph, adj: map<Id, seq<AdjEntry>>, start: Id, end: Id, sqrt: real -> real)
    requires IsWeightedAdjacency(g, adj) && start != ""
    ensures Frontier(g, adj, start, end, sqrt, [start], InitialCosts(g, start), InitialScores(g, start, end, sqrt),
                     map[], {}, map[])
    ensures Closed(adj, InitialCosts(g, start), {})
  {
    var gs, fs := InitialCosts(g, start), InitialScores(g, start, end, sqrt);
    assert Settling(start, gs, map[], {}, map[]);
    assert LinksBack(adj, gs, map[], {}, map[]);
    assert forall v :: v in gs ==> v == start || v in Endpoints(g);
    assert Scored(g, end, sqrt, gs, fs, start);
  }

  /** The `init` step alone is a valid prefix of the steps. */
  lemma InitialSteps(g: Graph, start: Id, end: Id, sqrt: real -> real, init: Step)
    requires init.stepNumber == 0 && init.state == AStarInit(1, 0)
    ensures StepsSoFar(g, start, end, sqrt, [init], {})
  {
    assert SelectedNodes([init]) == SelectedNodes([]) + [];
  }

  /** Closing an open node keeps the search state. */
  lemma CloseKeeps(g: Graph, adj: map<Id, seq<AdjEntry>>, start: Id, end: Id, sqrt: real -> real,
                   open: seq<Id>, gs: map<Id, Ext>, fs: map<Id, ExtReal>, prev: map<Id, Link>,
                   closed: set<Id>, pos: map<Id, nat>, u: Id)
    requires Frontier(g, adj, start, end, sqrt, open, gs, fs, prev, closed, pos)
    requires Closed(adj, gs, closed)
    requires u in open
    ensures Frontier(g, adj, start, end, sqrt, Remove(open, u), gs, fs, prev, closed + {u}, pos[u := |closed|])
    ensures Closed(adj, gs, (closed + {u}) - {u})
    ensures closed == {} ==> u == start
  {
    CloseKeepsLinked(g, adj, start, gs, prev, closed, pos, u);
    assert (closed + {u}) - {u} == closed;
  }

  /** Closing a node of finite cost keeps the links. */
  lemma CloseKeepsLinked(g: Graph, adj: map<Id, seq<AdjEntry>>, start: Id, gs: map<Id, Ext>, prev: map<Id, Link>,
                         closed: set<Id>, pos: map<Id, nat>, u: Id)
    requires Linked(g, adj, start, gs, prev, closed, pos)
    requires u in gs && gs[u].Fin? && u !in closed
    ensures Linked(g, adj, start, gs, prev, closed + {u}, pos[u := |closed|])
  {
    SettleKeeps(start, gs, prev, closed, pos, u);
    VisitKeepsLinks(adj, gs, prev, closed, pos, u);
  }

  /** The select step for `u` extends the steps, `u` joining the selected nodes. */
  lemma AppendSelect(g: Graph, start: Id, end: Id, sqrt: real -> real, steps: seq<Step>, closed: set<Id>, sel: Step)
    requires StepsSoFar(g, start, end, sqrt, steps, closed)
    requires sel.stepNumber == |steps| && sel.state.AStarSelect?
    requires sel.state.currentNode !in closed && (closed == {} ==> sel.state.currentNode == start)
    requires sel.state.h == Heuristic(g, sel.state.currentNode, end, sqrt)
    requires sel.state.f == sel.state.g as real + sel.state.h && sel.state.openSetSize > 0
    requires sel.state.closedSetSize == |closed|
    ensures StepsSoFar(g, start, end, sqrt, steps + [sel], closed + {sel.state.currentNode})
  {
    var all, u := steps + [sel], sel.state.currentNode;
    AppendNumbered(steps, sel);
    AppendSelected(steps, sel);
    var old_ := SelectedNodes(steps);
    DistinctCard(old_);
    assert (set x | x in old_) == closed;
    assert all[..|steps|] == steps;
    forall j | 1 <= j < |all| ensures StepAt(g, end, sqrt, all, j) {
      if j < |steps| {
        assert all[j] == steps[j] && all[j - 1] == steps[j - 1] && all[..j] == steps[..j];
        assert StepAt(g, end, sqrt, steps, j);
      }
    }
    assert u !in old_;
    assert Add(old_, u) == old_ + [u];
    if old_ == [] {
      assert closed == {};
    } else {
      assert (old_ + [u])[0] == old_[0];
    }
  }

  /** An explore step right after the select of its node extends the steps. */
  lemma AppendExplore(g: Graph, start: Id, end: Id, sqrt: real -> real, steps: seq<Step>, closed: set<Id>, ex: Step)
    requires StepsSoFar(g, start, end, sqrt, steps, closed)
    requires steps[|steps| - 1].state.AStarSelect?
    requires ex.stepNumber == |steps| && ex.state.AStarExplore?
    requires ex.state.currentNode == steps[|steps| - 1].state.currentNode
    requires ex.state.neighborsExplored > 0 && ex.state.closedSetSize == |closed|
    ensures StepsSoFar(g, start, end, sqrt, steps + [ex], closed)
  {
    var all := steps + [ex];
    AppendNumbered(steps, ex);
    AppendSelected(steps, ex);
    DistinctCard(SelectedNodes(steps));
    assert (set x | x in SelectedNodes(steps)) == closed;
    assert all[..|steps|] == steps;
    forall j | 1 <= j < |all| ensures StepAt(g, end, sqrt, all, j) {
      if j < |steps| {
        assert all[j] == steps[j] && all[j - 1] == steps[j - 1] && all[..j] == steps[..j];
        assert StepAt(g, end, sqrt, steps, j);
      }
    }
  }

  /** The node styles of a select step: closed nodes as visited, the other open nodes as open,
      then the start, the end and the current node. */
  method SelectStyles(start: Id, end: Id, u: Id, open: seq<Id>, closed: set<Id>) returns (styles: map<Id, NodeStyle>)
    ensures u in styles && styles[u] == CurrentStyle && start in styles && end in styles
  {
    styles := Paint(map[], closed, VisitedStyle);
    styles := Paint(styles, (set o | o in open && o != u), OpenStyle);
    styles := styles[start := StartStyle][end := EndStyle][u := CurrentStyle];
  }

  /** The loop's select block: report `u` with its cost, its estimate (score minus cost) and its
      score, with the sizes of the open and closed sets, then close it. */
  method SelectPhase(start: Id, end: Id, u: Id, best: ExtReal, open: seq<Id>, gs: map<Id, Ext>,
                     closed: set<Id>, ghost pos: map<Id, nat>, steps: seq<Step>)
    returns (open': seq<Id>, closed': set<Id>, ghost pos': map<Id, nat>, steps': seq<Step>)
    requires u in gs && gs[u].Fin? && best.FinR?
    ensures open' == Remove(open, u) && closed' == closed + {u} && pos' == pos[u := |closed|]
    ensures |steps'| == |steps| + 1 && steps' == steps + [steps'[|steps|]]
    ensures steps'[|steps|].stepNumber == |steps|
    ensures steps'[|steps|].state == AStarSelect(u, gs[u].n, best.r - gs[u].n as real, best.r, |open|, |closed|)
  {
    var currentG := gs[u].n;
    var currentH := best.r - currentG as real;
    var styles := SelectStyles(start, end, u, open, closed);
    var sel := Step(|steps|, [u], [], styles, map[], AStarSelect(u, currentG, currentH, best.r, |open|, |closed|));
    open' := Remove(open, u);
    closed' := closed + {u};
    pos' := pos[u := |closed|];
    steps' := steps + [sel];
  }

  /** An open node is not closed and has a finite cost and a finite score. */
  lemma OpenIsScored(g: Graph, start: Id, end: Id, sqrt: real -> real,
                     open: seq<Id>, gs: map<Id, Ext>, fs: map<Id, ExtReal>, closed: set<Id>, u: Id)
    requires OpenSet(g, start, end, sqrt, open, gs, fs, closed) && u in open
    ensures u !in closed && u in gs && gs[u].Fin? && Score(fs, u).FinR?
  {
    assert Scored(g, end, sqrt, gs, fs, u);
  }

  /** Reporting the select step of an open node `u` and closing `u` leads from the loop
      invariant to the `Selected` state. */
  lemma SelectKeeps(g: Graph, adj: map<Id, seq<AdjEntry>>, start: Id, end: Id, sqrt: real -> real, u: Id,
                    best: ExtReal, open: seq<Id>, gs: map<Id, Ext>, fs: map<Id, ExtReal>, prev: map<Id, Link>,
                    closed: set<Id>, pos: map<Id, nat>, steps: seq<Step>, sel: Step)
    requires Loop(g, adj, start, end, sqrt, open, gs, fs, prev, closed, pos, steps)
    requires u in open && u in gs && gs[u].Fin? && best == Score(fs, u) && best.FinR?
    requires sel.stepNumber == |steps|
    requires sel.state == AStarSelect(u, gs[u].n, best.r - gs[u].n as real, best.r, |open|, |closed|)
    ensures u in Endpoints(g) + {start}
    ensures Selected(g, adj, start, end, sqrt, u, Remove(open, u), gs, fs, prev, closed + {u}, pos[u := |closed|],
                     steps + [sel])
  {
    CloseKeeps(g, adj, start, end, sqrt, open, gs, fs, prev, closed, pos, u);
    SelectStep(g, start, end, sqrt, u, best, open, gs, fs, closed, steps, sel);
  }

  /** The select step of an open node extends the steps. */
  lemma SelectStep(g: Graph, start: Id, end: Id, sqrt: real -> real, u: Id, best: ExtReal,
                   open: seq<Id>, gs: map<Id, Ext>, fs: map<Id, ExtReal>, closed: set<Id>, steps: seq<Step>, sel: Step)
    requires StepsSoFar(g, start, end, sqrt, steps, closed)
    requires u !in closed && (closed == {} ==> u == start) && |open| > 0
    requires Scored(g, end, sqrt, gs, fs, u) && best == Score(fs, u)
    requires sel.stepNumber == |steps|
    requires sel.state == AStarSelect(u, gs[u].n, best.r - gs[u].n as real, best.r, |open|, |closed|)
    ensures StepsSoFar(g, start, end, sqrt, steps + [sel], closed + {u})
    ensures (steps + [sel])[|steps|] == sel
  {
    AppendSelect(g, start, end, sqrt, steps, closed, sel);
  }

  /** Exploring the closed node's neighbours keeps the search state and closes it. */
  lemma ExploreKeeps(g: Graph, adj: map<Id, seq<AdjEntry>>, start: Id, end: Id, sqrt: real -> real, u: Id,
                     open: seq<Id>, gs: map<Id, Ext>, fs: map<Id, ExtReal>, prev: map<Id, Link>,
                     closed: set<Id>, pos: map<Id, nat>,
                     open': seq<Id>, gs': map<Id, Ext>, fs': map<Id, ExtReal>, prev': map<Id, Link>,
                     relaxed: seq<Id>, via: map<Id, nat>)
    requires Frontier(g, adj, start, end, sqrt, open, gs, fs, prev, closed, pos)
    requires Closed(adj, gs, closed - {u}) && u in closed
    requires ExploreInvariant(g, end, sqrt, Neighbors(adj, u), |Neighbors(adj, u)|, u, gs[u].n, closed,
                              open, gs, fs, prev, open', gs', fs', prev', relaxed, via)
    ensures Frontier(g, adj, start, end, sqrt, open', gs', fs', prev', closed, pos)
    ensures Closed(adj, gs', closed)
  {
    assert u !in via && gs'[u] == gs[u];
    ViaEndpoints(g, adj, u, gs[u].n, closed, gs, prev, gs', prev', via);
    ExploreKeepsLinked(g, adj, start, u, gs, prev, closed, pos, gs', prev', via);
    RelaxCloses(adj, gs, closed, u, gs', prev, prev', via);
    ExploreKeepsOpen(g, adj, start, end, sqrt, u, gs[u].n, open, gs, fs, closed, open', gs', fs', prev, prev', via);
  }

  /** Exploring keeps the links. */
  lemma ExploreKeepsLinked(g: Graph, adj: map<Id, seq<AdjEntry>>, start: Id, u: Id, gs: map<Id, Ext>,
                           prev: map<Id, Link>, closed: set<Id>, pos: map<Id, nat>,
                           gs': map<Id, Ext>, prev': map<Id, Link>, via: map<Id, nat>)
    requires Linked(g, adj, start, gs, prev, closed, pos)
    requires u in closed && start in closed
    requires TrackedSoFar(Neighbors(adj, u), |Neighbors(adj, u)|, u, gs[u].n, closed, gs, prev, gs', prev', via)
    requires forall v :: v in via ==> NamedEverywhere(g) ==> v != ""
    ensures Linked(g, adj, start, gs', prev', closed, pos)
  {
    RelaxKeepsLinks(adj, gs, prev, closed, pos, u, gs', prev', via);
  }

  /** Exploring keeps the open set, the costs and the scores in step. */
  lemma ExploreKeepsOpen(g: Graph, adj: map<Id, seq<AdjEntry>>, start: Id, end: Id, sqrt: real -> real, u: Id, gu: int,
                         open: seq<Id>, gs: map<Id, Ext>, fs: map<Id, ExtReal>, closed: set<Id>,
                         open': seq<Id>, gs': map<Id, Ext>, fs': map<Id, ExtReal>,
                         prev: map<Id, Link>, prev': map<Id, Link>, via: map<Id, nat>)
    requires OpenSet(g, start, end, sqrt, open, gs, fs, closed)
    requires u in closed
    requires OpenGrown(open, open', via)
    requires TrackedSoFar(Neighbors(adj, u), |Neighbors(adj, u)|, u, gu, closed, gs, prev, gs', prev', via)
    requires ScoresTracked(g, end, sqrt, gs', fs, fs', via)
    requires forall v :: v in via ==> v in Endpoints(g)
    ensures OpenSet(g, start, end, sqrt, open', gs', fs', closed)
  {
    assert start in closed && start !in via;
    OpenStaysScored(g, end, sqrt, open, gs, fs, closed, open', gs', fs', via);
    forall v | v in gs' && gs'[v].Fin? ensures v in open' || v in closed {
      if v !in via {
        assert v in gs && gs[v] == gs'[v];
      }
    }
    forall v | v in gs' ensures v == start || v in Endpoints(g) {
      if v !in via {
        assert v in gs;
      }
    }
  }

  /** After exploring, every open node is still unclosed and scored. */
  lemma OpenStaysScored(g: Graph, end: Id, sqrt: real -> real,
                        open: seq<Id>, gs: map<Id, Ext>, fs: map<Id, ExtReal>, closed: set<Id>,
                        open': seq<Id>, gs': map<Id, Ext>, fs': map<Id, ExtReal>, via: map<Id, nat>)
    requires forall v :: v in open ==> v !in closed && Scored(g, end, sqrt, gs, fs, v)
    requires forall v :: v in open' <==> v in open || v in via
    requires via.Keys !! closed
    requires forall v :: v !in via ==> (v in gs' <==> v in gs) && (v in gs ==> gs'[v] == gs[v])
    requires ScoresTracked(g, end, sqrt, gs', fs, fs', via)
    ensures forall v :: v in open' ==> v !in closed && Scored(g, end, sqrt, gs', fs', v)
  {
    forall v | v in open' ensures v !in closed && Scored(g, end, sqrt, gs', fs', v) {
      if v !in via {
        assert v in open && Scored(g, end, sqrt, gs, fs, v);
      }
    }
  }

  /** The loop's explore block: relax the neighbours of `u` and report the improved ones, if
      any. */
  method ExplorePhase(g: Graph, adj: map<Id, seq<AdjEntry>>, start: Id, end: Id, sqrt: real -> real, u: Id,
                      open: seq<Id>, gs: map<Id, Ext>, fs: map<Id, ExtReal>, prev: map<Id, Link>,
                      closed: set<Id>, ghost pos: map<Id, nat>, steps: seq<Step>)
    returns (open': seq<Id>, gs': map<Id, Ext>, fs': map<Id, ExtReal>, prev': map<Id, Link>, steps': seq<Step>)
    requires Selected(g, adj, start, end, sqrt, u, open, gs, fs, prev, closed, pos, steps)
    requires end !in closed
    ensures Loop(g, adj, start, end, sqrt, open', gs', fs', prev', closed, pos, steps')
  {
    var relaxed;
    ghost var via;
    open', gs', fs', prev', relaxed, via := Explore(g, end, sqrt, Neighbors(adj, u), u, gs[u].n, closed, open, gs, fs, prev);
    ExploreKeeps(g, adj, start, end, sqrt, u, open, gs, fs, prev, closed, pos, open', gs', fs', prev', relaxed, via);
    if |relaxed| > 0 {
      var styles := Paint(map[], closed, VisitedStyle);
      styles := Paint(styles, (set o | o in open'), OpenStyle);
      styles := styles[start := StartStyle][end := EndStyle][u := CurrentStyle];
      var edgeStyles := Paint(map[], (set e | e in relaxed), ExploredEdge);
      var ex := Step(|steps|, [u], relaxed, styles, edgeStyles, AStarExplore(u, |relaxed|, |open'|, |closed|));
      AppendExplore(g, start, end, sqrt, steps, closed, ex);
      steps' := steps + [ex];
    } else {
      steps' := steps;
    }
  }

  /** Appending the outcome step keeps the numbering, the middle steps and the selected nodes. */
  lemma AppendOutcome(g: Graph, start: Id, end: Id, sqrt: real -> real, steps: seq<Step>, closed: set<Id>, last: Step)
    requires StepsSoFar(g, start, end, sqrt, steps, closed) && closed != {}
    requires last.stepNumber == |steps| && (last.state.NotFound? || last.state.Found?)
    ensures var all := steps + [last];
            && |all| >= 3 && Numbered(all) && all[0].state == AStarInit(1, 0)
            && Middle(g, end, sqrt, all, |all| - 1) && SelectedNodes(all) == SelectedNodes(steps)
            && all[|all| - 2] == steps[|steps| - 1]
            && |SelectedNodes(steps)| == |closed|
  {
    var all := steps + [last];
    AppendNumbered(steps, last);
    AppendSelected(steps, last);
    DistinctCard(SelectedNodes(steps));
    assert (set x | x in SelectedNodes(steps)) == closed;
    forall j | 1 <= j < |all| - 1 ensures StepAt(g, end, sqrt, all, j) {
      assert all[j] == steps[j] && all[j - 1] == steps[j - 1] && all[..j] == steps[..j];
      assert StepAt(g, end, sqrt, steps, j);
    }
  }

  /** The loop stopped on the end node: rebuild the path and report it. */
  method FoundPhase(g: Graph, adj: map<Id, seq<AdjEntry>>, params: AlgorithmParams, sqrt: real -> real,
                    open: seq<Id>, gs: map<Id, Ext>, fs: map<Id, ExtReal>, prev: map<Id, Link>,
                    closed: set<Id>, ghost pos: map<Id, nat>, steps: seq<Step>)
    returns (steps': seq<Step>)
    requires Truthy(params.startNode) && Truthy(params.endNode) && |g.nodes| > 0
    requires Selected(g, adj, params.startNode.value, params.endNode.value, sqrt, params.endNode.value,
                      open, gs, fs, prev, closed, pos, steps)
    ensures AStarOutcome(g, params, sqrt, steps')
  {
    var start, end := params.startNode.value, params.endNode.value;
    var last := Finish(g, adj, start, end, gs, prev, closed, pos, |steps|);
    FoundExit(g, params, sqrt, steps, gs, closed, last);
    steps' := steps + [last];
  }

  /** The `found` step built from a search that closed the end node completes the outcome. */
  lemma FoundExit(g: Graph, params: AlgorithmParams, sqrt: real -> real, steps: seq<Step>,
                  gs: map<Id, Ext>, closed: set<Id>, last: Step)
    requires Truthy(params.startNode) && Truthy(params.endNode) && |g.nodes| > 0
    requires var start, end := params.startNode.value, params.endNode.value;
             && StepsSoFar(g, start, end, sqrt, steps, closed) && end in closed
             && start in gs && gs[start] == Fin(0) && end in gs && gs[end].Fin?
             && steps[|steps| - 1].state.AStarSelect?
             && steps[|steps| - 1].state.currentNode == end && steps[|steps| - 1].state.g == gs[end].n
             && FoundStep(g, start, end, gs, closed, |steps|, last)
    ensures AStarOutcome(g, params, sqrt, steps + [last])
  {
    var start, end := params.startNode.value, params.endNode.value;
    AppendOutcome(g, start, end, sqrt, steps, closed, last);
    WeightedAlongIsAlong(g, last.state.path, last.highlightEdges, gs);
    if NamedEverywhere(g) {
      FoundRoute(g, start, end, gs, closed, |steps|, last);
    }
  }

  /** The loop ended with no open node of finite score: every node with a finite cost is closed,
      so the end node has none and the outcome is `not found`; and as the closed nodes hold
      every neighbour of each of their members, no walk from the start reaches the end. */
  method ExhaustedPhase(g: Graph, adj: map<Id, seq<AdjEntry>>, params: AlgorithmParams, sqrt: real -> real,
                        open: seq<Id>, gs: map<Id, Ext>, fs: map<Id, ExtReal>, prev: map<Id, Link>,
                        closed: set<Id>, ghost pos: map<Id, nat>, steps: seq<Step>)
    returns (steps': seq<Step>)
    requires Truthy(params.startNode) && Truthy(params.endNode) && |g.nodes| > 0
    requires Loop(g, adj, params.startNode.value, params.endNode.value, sqrt, open, gs, fs, prev, closed, pos, steps)
    requires forall j :: 0 <= j < |open| ==> Score(fs, open[j]) == InfR
    ensures AStarOutcome(g, params, sqrt, steps')
  {
    var start, end := params.startNode.value, params.endNode.value;
    OpenScoresFinite(g, start, end, sqrt, open, gs, fs, closed);
    var last := Finish(g, adj, start, end, gs, prev, closed, pos, |steps|);
    NotFoundExit(g, adj, params, sqrt, gs, closed, steps, last);
    steps' := steps + [last];
  }

  /** Every open node has a finite score, so the open set is empty exactly when no open node
      scores less than Infinity. */
  lemma OpenScoresFinite(g: Graph, start: Id, end: Id, sqrt: real -> real,
                         open: seq<Id>, gs: map<Id, Ext>, fs: map<Id, ExtReal>, closed: set<Id>)
    requires OpenSet(g, start, end, sqrt, open, gs, fs, closed)
    ensures (forall j :: 0 <= j < |open| ==> Score(fs, open[j]) == InfR) <==> open == []
  {
    if open != [] {
      assert open[0] in open && Scored(g, end, sqrt, gs, fs, open[0]);
    }
  }

  /** With no open node left, the end node never closed: the outcome is `not found`, and as the
      closed nodes hold every neighbour of each of their members, no walk from the start reaches
      the end. */
  lemma NotFoundExit(g: Graph, adj: map<Id, seq<AdjEntry>>, params: AlgorithmParams, sqrt: real -> real,
                     gs: map<Id, Ext>, closed: set<Id>, steps: seq<Step>, last: Step)
    requires Truthy(params.startNode) && Truthy(params.endNode) && |g.nodes| > 0
    requires var start, end := params.startNode.value, params.endNode.value;
             && StepsSoFar(g, start, end, sqrt, steps, closed) && start in closed && end !in closed
             && IsWeightedAdjacency(g, adj) && Closed(adj, gs, closed)
             && (forall v :: v in gs && gs[v].Fin? ==> v in closed)
             && (forall v :: v in closed ==> v in gs && gs[v].Fin?)
             && last.stepNumber == |steps| && last.state.NotFound?
    ensures AStarOutcome(g, params, sqrt, steps + [last])
  {
    var start, end := params.startNode.value, params.endNode.value;
    AppendOutcome(g, start, end, sqrt, steps, closed, last);
    forall u, x | u in closed && x in Neighbors(adj, u) ensures x.nodeId in closed { }
    forall p | Walk(g, p) && p[0] == start ensures p[|p| - 1] != end {
      ClosedUnderWalks(g, adj, closed, p);
    }
  }

  /** `astar.run`: the step sequence of one search; `sqrt` stands for `Math.sqrt`. */
  method Run(g: Graph, params: AlgorithmParams, sqrt: real -> real) returns (steps: seq<Step>)
    ensures AStarOutcome(g, params, sqrt, steps)
  {
    steps := [];
    if !Truthy(params.startNode) || !Truthy(params.endNode) { return; }
    if |g.nodes| == 0 { return; }
    var start, end := params.startNode.value, params.endNode.value;
    var adj, open, gs, fs, prev, closed;
    ghost var pos;
    adj, open, gs, fs, prev, closed, pos, steps := Initialize(g, start, end, sqrt);
    while |open| > 0
      invariant Loop(g, adj, start, end, sqrt, open, gs, fs, prev, closed, pos, steps)
      decreases |(Endpoints(g) + {start}) - closed|
    {
      var k, best := SelectBest(open, fs);
      if k.None? {
        break;
      }
      var u := open[k.value];
      ghost var open0, closed0, pos0, steps0 := open, closed, pos, steps;
      OpenIsScored(g, start, end, sqrt, open, gs, fs, closed, u);
      open, closed, pos, steps := SelectPhase(start, end, u, best, open, gs, closed, pos, steps);
      SelectKeeps(g, adj, start, end, sqrt, u, best, open0, gs, fs, prev, closed0, pos0, steps0, steps[|steps0|]);
      SettleShrinks(Endpoints(g) + {start}, closed0, u);
      if u == end {
        steps := FoundPhase(g, adj, params, sqrt, open, gs, fs, prev, closed, pos, steps);
        return;
      }
      open, gs, fs, prev, steps := ExplorePhase(g, adj, start, end, sqrt, u, open, gs, fs, prev, closed, pos, steps);
    }
    steps := ExhaustedPhase(g, adj, params, sqrt, open, gs, fs, prev, closed, pos, steps);
  }

  /** `execute`: drain the run; success exactly when the last step reports a found path; the
      final state is the last step's, absent when there are no steps. There are no steps exactly
      when an endpoint is missing or empty or the graph has no node. A success reports a path
      from the start to the end node whose distance, when no id is empty, is the cost of a route
      along it; a failure on a run with steps means no walk leads from the start to the end. */
  method Execute(g: Graph, params: AlgorithmParams, sqrt: real -> real) returns (r: AlgorithmResult)
    ensures AStarOutcome(g, params, sqrt, r.steps)
    ensures r.steps == [] <==> !Truthy(params.startNode) || !Truthy(params.endNode) || |g.nodes| == 0
    ensures r.finalState == LastState(r.steps)
    ensures r.success <==> r.steps != [] && r.steps[|r.steps| - 1].state.Found?
    ensures r.success ==> Reported(g, params, r.steps[|r.steps| - 1].state)
    ensures !r.success && r.steps != [] ==> Unreachable(g, params)
  {
    var steps := Run(g, params, sqrt);
    r := AlgorithmResult(steps != [] && steps[|steps| - 1].state.Found?, steps, LastState(steps));
    ResultReports(g, params, sqrt, steps, r);
  }

  /** The result `execute` builds from a run's steps reports what the steps tell. */
  lemma ResultReports(g: Graph, params: AlgorithmParams, sqrt: real -> real, steps: seq<Step>, r: AlgorithmResult)
    requires AStarOutcome(g, params, sqrt, steps)
    requires r == AlgorithmResult(steps != [] && steps[|steps| - 1].state.Found?, steps, LastState(steps))
    ensures AStarOutcome(g, params, sqrt, r.steps)
    ensures r.steps == [] <==> !Truthy(params.startNode) || !Truthy(params.endNode) || |g.nodes| == 0
    ensures r.success ==> Reported(g, params, r.steps[|r.steps| - 1].state)
    ensures !r.success && r.steps != [] ==> Unreachable(g, params)
  {
    OutcomeReports(g, params, sqrt, steps);
  }

  /** What a run's steps tell its caller: none exactly when an endpoint is missing or empty or
      the graph has no node; a last `found` step reports a path from the start to the end node
      whose distance, when no id is empty, is the cost of a route along it; any other last step
      means no walk leads from the start to the end node. */
  lemma OutcomeReports(g: Graph, params: AlgorithmParams, sqrt: real -> real, steps: seq<Step>)
    ensures AStarOutcome(g, params, sqrt, steps) ==>
              (steps == [] <==> !Truthy(params.startNode) || !Truthy(params.endNode) || |g.nodes| == 0)
    ensures AStarOutcome(g, params, sqrt, steps) && steps != [] && steps[|steps| - 1].state.Found? ==>
              Reported(g, params, steps[|steps| - 1].state)
    ensures AStarOutcome(g, params, sqrt, steps) && steps != [] && !steps[|steps| - 1].state.Found? ==>
              Unreachable(g, params)
  {
  }

  /** A reported path ends at the end node; when no id is empty it starts at the start node and
      the reported distance is the cost of a route along it. */
  ghost predicate Reported(g: Graph, params: AlgorithmParams, found: StepState) {
    && params.startNode.Some? && params.endNode.Some? && found.Found? && |found.path| >= 1
    && found.path[|found.path| - 1] == params.endNode.value
    && (NamedEverywhere(g) ==> found.path[0] == params.startNode.value)
    && (NamedEverywhere(g) ==> exists hops :: Route(g, found.path, hops) && Cost(g, hops) == found.distance)
  }

  /** No walk of the graph leads from the start node to the end node. */
  ghost predicate Unreachable(g: Graph, params: AlgorithmParams) {
    && params.startNode.Some? && params.endNode.Some?
    && forall p :: Walk(g, p) && p[0] == params.startNode.value ==> p[|p| - 1] != params.endNode.value
  }
}
