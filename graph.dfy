/** The graph model shared by the engines and the editing store: plain records. */
module GraphTypes {
  import opened Common

  /** A node; its `data` bag is opaque to the core and left out. */
  datatype GraphNode = GraphNode(
    id: Id,
    nodeLabel: Option<string>,  // `label` in the source; a Dafny keyword
    x: Option<int>,
    y: Option<int>,
    color: Option<string>)

  /** An edge; a missing `weight` counts as 1 wherever it is consumed. */
  datatype GraphEdge = GraphEdge(id: Id, source: Id, target: Id, weight: Option<int>)

  datatype Graph = Graph(nodes: seq<GraphNode>, edges: seq<GraphEdge>, directed: bool, weighted: bool)

  /** The node ids in the order a `Map`/`Set` keyed by them iterates (first occurrence wins). */
  function NodeIds(g: Graph): (ids: seq<Id>)
    ensures Distinct(ids)
    ensures forall i :: 0 <= i < |g.nodes| ==> g.nodes[i].id in ids
    ensures forall v :: v in ids ==> exists i :: 0 <= i < |g.nodes| && g.nodes[i].id == v
    ensures |ids| == 0 <==> |g.nodes| == 0
  {
    var all := IdList(g);
    assert forall i :: 0 <= i < |g.nodes| ==> all[i] in all && all[i] == g.nodes[i].id;
    Dedup(all)
  }

  /** The id of every node, position by position, repeats included. */
  function IdList(g: Graph): (all: seq<Id>)
    ensures |all| == |g.nodes| && forall i :: 0 <= i < |g.nodes| ==> all[i] == g.nodes[i].id
  {
    seq(|g.nodes|, i requires 0 <= i < |g.nodes| => g.nodes[i].id)
  }

  /** The node ids follow the node list: of two ids, the one whose first node comes first is
      listed first. Tie-breaking "first in node order" rests on this. */
  lemma NodeIdsInNodeOrder(g: Graph)
    ensures forall i, j :: 0 <= i < j < |NodeIds(g)| ==>
              FirstIndex(IdList(g), NodeIds(g)[i]) < FirstIndex(IdList(g), NodeIds(g)[j])
  {
    DedupOrder(IdList(g));
  }

  /** Node ids are never empty: the editing store falls back to a generated id for an empty one,
      and the engines' truthiness tests on ids rely on it. */
  ghost predicate NonEmptyIds(g: Graph) {
    forall i :: 0 <= i < |g.nodes| ==> g.nodes[i].id != ""
  }

  /** Edge `e` leads from `v` to `u` in an engine's adjacency: source to target, and target to
      source as well when the graph is undirected. */
  predicate Links(directed: bool, e: GraphEdge, v: Id, u: Id) {
    (e.source == v && e.target == u) || (!directed && e.target == v && e.source == u)
  }

  ghost predicate Adjacent(g: Graph, v: Id, u: Id) {
    exists i :: 0 <= i < |g.edges| && Links(g.directed, g.edges[i], v, u)
  }

  /** `p` is a walk along the graph's edges; every node it leaves is a node of the graph, because
      the engines' adjacency maps are keyed by node ids only. */
  ghost predicate Walk(g: Graph, p: seq<Id>) {
    && |p| >= 1
    && forall k :: 0 <= k < |p| - 1 ==> p[k] in NodeIds(g) && Adjacent(g, p[k], p[k + 1])
  }

  /** Every id an engine can meet: the node ids and both endpoints of every edge. */
  ghost function Endpoints(g: Graph): set<Id> {
    (set v | v in NodeIds(g))
      + (set i | 0 <= i < |g.edges| :: g.edges[i].source)
      + (set i | 0 <= i < |g.edges| :: g.edges[i].target)
  }

  lemma AdjacentInEndpoints(g: Graph, v: Id, u: Id)
    requires Adjacent(g, v, u)
    ensures u in Endpoints(g)
  {
    var i :| 0 <= i < |g.edges| && Links(g.directed, g.edges[i], v, u);
    assert u == g.edges[i].source || u == g.edges[i].target;
  }

  /** No node id and no edge endpoint is the empty string. */
  ghost predicate NamedEverywhere(g: Graph) {
    && NonEmptyIds(g)
    && forall i :: 0 <= i < |g.edges| ==> g.edges[i].source != "" && g.edges[i].target != ""
  }

  /** The position of the first node with id `id`: `nodes.find(n => n.id === id)`. */
  function FindIndex(nodes: seq<GraphNode>, id: Id): (k: Option<nat>)
    ensures k.None? <==> forall i :: 0 <= i < |nodes| ==> nodes[i].id != id
    ensures k.Some? ==> k.value < |nodes| && nodes[k.value].id == id
    ensures k.Some? ==> forall i :: 0 <= i < k.value ==> nodes[i].id != id
  {
    if nodes == [] then None
    else if nodes[0].id == id then Some(0)
    else
      var rest := FindIndex(nodes[1..], id);
      if rest.None? then None else Some(rest.value + 1)
  }

  /** The first node of the graph with id `id`, if any. */
  function FindNode(g: Graph, id: Id): (r: Option<GraphNode>)
    ensures r.None? <==> forall i :: 0 <= i < |g.nodes| ==> g.nodes[i].id != id
    ensures r.Some? ==> exists i :: 0 <= i < |g.nodes| && g.nodes[i] == r.value && r.value.id == id
                                    && forall j :: 0 <= j < i ==> g.nodes[j].id != id
  {
    var k := FindIndex(g.nodes, id);
    if k.None? then None else Some(g.nodes[k.value])
  }

  /** The weight an engine reads for an edge: `edge.weight ?? 1`. */
  function WeightOf(e: GraphEdge): (w: int)
    ensures e.weight.None? ==> w == 1
    ensures e.weight.Some? ==> w == e.weight.value
  {
    e.weight.GetOr(1)
  }

  /** A fresh graph: no nodes, no edges, undirected and unweighted. */
  function CreateEmptyGraph(): (g: Graph)
    ensures g.nodes == [] && g.edges == []
    ensures !g.directed && !g.weighted
  {
    Graph([], [], false, false)
  }

  /** The id an edge from `source` to `target` receives: `e-<source>-<target>`. */
  function GenerateEdgeId(source: Id, target: Id): (id: Id)
    ensures |id| == |source| + |target| + 3
    ensures id[..2] == "e-" && id[|source| + 2] == '-'
    ensures id[2..|source| + 2] == source && id[|source| + 3..] == target
  {
    "e-" + source + "-" + target
  }

  /** The id is a function of the ordered pair only, and recovers the pair when the source
      holds no dash: two edges with the same endpoints in the same direction collide. */
  lemma {:induction false} EdgeIdDeterminesEndpoints(s1: Id, t1: Id, s2: Id, t2: Id)
    requires '-' !in s1 && '-' !in s2
    ensures GenerateEdgeId(s1, t1) == GenerateEdgeId(s2, t2) <==> s1 == s2 && t1 == t2
  {
    var a, b := GenerateEdgeId(s1, t1), GenerateEdgeId(s2, t2);
    if a == b {
    }
  }

  /** Without that restriction the id is ambiguous: a dash inside an id makes two different
      endpoint pairs share one edge id. */
  lemma EdgeIdCollides()
    ensures GenerateEdgeId("a-b", "c") == GenerateEdgeId("a", "b-c")
  {
  }
}
