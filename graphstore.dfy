/** The graph editing store: the graph being edited and the two selection lists, with the
    editing rules (no self-loop, no duplicate edge, removing a node removes its edges). */
module GraphStore {
  import opened Common
  import opened GraphTypes
  import opened AlgorithmTypes

  /** The entries a `Partial<GraphNode>` carries; None stands for an absent entry. */
  datatype NodePatch = NodePatch(id: Option<Id>, nodeLabel: Option<string>, x: Option<int>, y: Option<int>,
                                 color: Option<string>)

  /** The entries a `Partial<GraphEdge>` carries. */
  datatype EdgePatch = EdgePatch(id: Option<Id>, source: Option<Id>, target: Option<Id>, weight: Option<int>)

  /** `hasEdge` over an edge list: `Array.some` of an edge joining `s` to `t`, in either
      direction when the graph is undirected. */
  function SomeLinks(directed: bool, edges: seq<GraphEdge>, s: Id, t: Id): (b: bool)
    ensures b <==> exists i :: 0 <= i < |edges| && Links(directed, edges[i], s, t)
  {
    if edges == [] then false
    else if Links(directed, edges[0], s, t) then true
    else
      var rest := SomeLinks(directed, edges[1..], s, t);
      assert forall i :: 1 <= i < |edges| ==> edges[i] == edges[1..][i - 1];
      if rest then
        var i :| 0 <= i < |edges[1..]| && Links(directed, edges[1..][i], s, t);
        assert Links(directed, edges[i + 1], s, t);
        true
      else false
  }

  /** The store's duplicate test agrees with the engines' notion of adjacency. */
  function HasEdge(g: Graph, s: Id, t: Id): (b: bool)
    ensures b <==> Adjacent(g, s, t)
  {
    SomeLinks(g.directed, g.edges, s, t)
  }

  /** In an undirected graph the test is symmetric. */
  lemma HasEdgeSymmetric(g: Graph, s: Id, t: Id)
    requires !g.directed
    ensures HasEdge(g, s, t) <==> HasEdge(g, t, s)
  {
    if HasEdge(g, s, t) {
      var i :| 0 <= i < |g.edges| && Links(g.directed, g.edges[i], s, t);
      assert Links(g.directed, g.edges[i], t, s);
    }
    if HasEdge(g, t, s) {
      var i :| 0 <= i < |g.edges| && Links(g.directed, g.edges[i], t, s);
      assert Links(g.directed, g.edges[i], s, t);
    }
  }

  /** The editing rules: no edge is a self-loop, and no edge joins a pair an earlier edge
      already joins (in either direction when undirected). */
  ghost predicate EdgeRules(g: Graph) {
    && (forall i :: 0 <= i < |g.edges| ==> g.edges[i].source != g.edges[i].target)
    && (forall i, j :: 0 <= i < j < |g.edges| ==> !Links(g.directed, g.edges[i], g.edges[j].source, g.edges[j].target))
  }

  /** The edges that survive removing node `id`: `edges.filter(e => e.source !== id && e.target !== id)`. */
  function KeepEdgesAwayFrom(edges: seq<GraphEdge>, id: Id): (r: seq<GraphEdge>)
    ensures forall e :: e in r <==> e in edges && e.source != id && e.target != id
    ensures |r| <= |edges|
  {
    if edges == [] then []
    else
      var rest := KeepEdgesAwayFrom(edges[1..], id);
      assert forall e :: e in edges <==> e == edges[0] || e in edges[1..];
      if edges[0].source != id && edges[0].target != id then [edges[0]] + rest else rest
  }

  /** The edges that survive removing edge `id`: `edges.filter(e => e.id !== id)`. */
  function KeepEdgesNot(edges: seq<GraphEdge>, id: Id): (r: seq<GraphEdge>)
    ensures forall e :: e in r <==> e in edges && e.id != id
    ensures |r| <= |edges|
  {
    if edges == [] then []
    else
      var rest := KeepEdgesNot(edges[1..], id);
      assert forall e :: e in edges <==> e == edges[0] || e in edges[1..];
      if edges[0].id != id then [edges[0]] + rest else rest
  }

  /** The nodes that survive removing node `id`: `nodes.filter(n => n.id !== id)`. */
  function KeepNodesNot(nodes: seq<GraphNode>, id: Id): (r: seq<GraphNode>)
    ensures forall n :: n in r <==> n in nodes && n.id != id
    ensures |r| <= |nodes|
  {
    if nodes == [] then []
    else
      var rest := KeepNodesNot(nodes[1..], id);
      assert forall n :: n in nodes <==> n == nodes[0] || n in nodes[1..];
      if nodes[0].id != id then [nodes[0]] + rest else rest
  }

  /** Filtering keeps the order of what it keeps. */
  lemma {:induction false} KeepEdgesAwayFromOrdered(edges: seq<GraphEdge>, id: Id)
    ensures SubsequenceOf(KeepEdgesAwayFrom(edges, id), edges)
  {
    if edges != [] {
      KeepEdgesAwayFromOrdered(edges[1..], id);
      var rest := KeepEdgesAwayFrom(edges[1..], id);
      if edges[0].source != id && edges[0].target != id {
        assert ([edges[0]] + rest)[1..] == rest;
      } else {
        SkipOne(rest, edges);
      }
    }
  }

  lemma {:induction false} KeepNodesNotOrdered(nodes: seq<GraphNode>, id: Id)
    ensures SubsequenceOf(KeepNodesNot(nodes, id), nodes)
  {
    if nodes != [] {
      KeepNodesNotOrdered(nodes[1..], id);
      var rest := KeepNodesNot(nodes[1..], id);
      if nodes[0].id != id {
        assert ([nodes[0]] + rest)[1..] == rest;
      } else {
        SkipOne(rest, nodes);
      }
    }
  }

  lemma {:induction false} KeepEdgesNotOrdered(edges: seq<GraphEdge>, id: Id)
    ensures SubsequenceOf(KeepEdgesNot(edges, id), edges)
  {
    if edges != [] {
      KeepEdgesNotOrdered(edges[1..], id);
      var rest := KeepEdgesNot(edges[1..], id);
      if edges[0].id != id {
        assert ([edges[0]] + rest)[1..] == rest;
      } else {
        SkipOne(rest, edges);
      }
    }
  }

  /** A subsequence of an edge list that keeps the editing rules keeps them too. */
  lemma {:induction false} SubsequenceKeepsRules(directed: bool, s: seq<GraphEdge>, t: seq<GraphEdge>)
    requires SubsequenceOf(s, t)
    requires EdgeRules(Graph([], t, directed, false))
    ensures EdgeRules(Graph([], s, directed, false))
    decreases |t|
  {
    if s != [] && t != [] {
      var g := Graph([], t, directed, false);
      assert EdgeRules(Graph([], t[1..], directed, false)) by {
        forall i, j | 0 <= i < j < |t[1..]|
          ensures !Links(directed, t[1..][i], t[1..][j].source, t[1..][j].target)
        {
          assert t[1..][i] == t[i + 1] && t[1..][j] == t[j + 1];
        }
      }
      if s[0] == t[0] {
        SubsequenceKeepsRules(directed, s[1..], t[1..]);
        forall j | 0 < j < |s| ensures !Links(directed, s[0], s[j].source, s[j].target) {
          assert s[j] == s[1..][j - 1];
          assert s[1..][j - 1] in s[1..];
          SubsequenceMember(s[1..], t[1..], s[1..][j - 1]);
          var k :| 0 <= k < |t[1..]| && t[1..][k] == s[j];
          assert t[k + 1] == s[j];
        }
        forall i, j | 0 <= i < j < |s| ensures !Links(directed, s[i], s[j].source, s[j].target) {
          if i > 0 {
            assert s[i] == s[1..][i - 1] && s[j] == s[1..][j - 1];
          }
        }
      } else {
        SubsequenceKeepsRules(directed, s, t[1..]);
      }
    }
  }

  /** Every element of a subsequence occurs in the whole. */
  lemma {:induction false} SubsequenceMember<T>(s: seq<T>, t: seq<T>, x: T)
    requires SubsequenceOf(s, t) && x in s
    ensures exists k :: 0 <= k < |t| && t[k] == x
    decreases |t|
  {
    if s[0] == t[0] {
      if x == s[0] {
        assert t[0] == x;
      } else {
        assert x in s[1..];
        SubsequenceMember(s[1..], t[1..], x);
        var k :| 0 <= k < |t[1..]| && t[1..][k] == x;
        assert t[k + 1] == x;
      }
    } else {
      SubsequenceMember(s, t[1..], x);
      var k :| 0 <= k < |t[1..]| && t[1..][k] == x;
      assert t[k + 1] == x;
    }
  }

  /** `{ ...n, ...updates }`. */
  function PatchNode(n: GraphNode, p: NodePatch): (r: GraphNode)
    ensures r.id == p.id.GetOr(n.id)
    ensures r.nodeLabel == (if p.nodeLabel.Some? then p.nodeLabel else n.nodeLabel)
    ensures r.x == (if p.x.Some? then p.x else n.x) && r.y == (if p.y.Some? then p.y else n.y)
    ensures r.color == (if p.color.Some? then p.color else n.color)
    ensures p == NodePatch(None, None, None, None, None) ==> r == n
  {
    GraphNode(
      p.id.GetOr(n.id),
      if p.nodeLabel.Some? then p.nodeLabel else n.nodeLabel,
      if p.x.Some? then p.x else n.x,
      if p.y.Some? then p.y else n.y,
      if p.color.Some? then p.color else n.color)
  }

  /** `{ ...e, ...updates }`. */
  function PatchEdge(e: GraphEdge, p: EdgePatch): (r: GraphEdge)
    ensures r.id == p.id.GetOr(e.id) && r.source == p.source.GetOr(e.source) && r.target == p.target.GetOr(e.target)
    ensures r.weight == (if p.weight.Some? then p.weight else e.weight)
    ensures p == EdgePatch(None, None, None, None) ==> r == e
  {
    GraphEdge(
      p.id.GetOr(e.id), p.source.GetOr(e.source), p.target.GetOr(e.target),
      if p.weight.Some? then p.weight else e.weight)
  }

  /** `nodes.map(n => n.id === id ? { ...n, ...updates } : n)`. */
  function UpdateNodes(nodes: seq<GraphNode>, id: Id, p: NodePatch): (r: seq<GraphNode>)
    ensures |r| == |nodes|
    ensures forall i :: 0 <= i < |nodes| && nodes[i].id != id ==> r[i] == nodes[i]
    ensures forall i :: 0 <= i < |nodes| && nodes[i].id == id ==> r[i] == PatchNode(nodes[i], p)
  {
    if nodes == [] then []
    else
      [if nodes[0].id == id then PatchNode(nodes[0], p) else nodes[0]] + UpdateNodes(nodes[1..], id, p)
  }

  /** `edges.map(e => e.id === id ? { ...e, ...updates } : e)`. */
  function UpdateEdges(edges: seq<GraphEdge>, id: Id, p: EdgePatch): (r: seq<GraphEdge>)
    ensures |r| == |edges|
    ensures forall i :: 0 <= i < |edges| && edges[i].id != id ==> r[i] == edges[i]
    ensures forall i :: 0 <= i < |edges| && edges[i].id == id ==> r[i] == PatchEdge(edges[i], p)
  {
    if edges == [] then []
    else
      [if edges[0].id == id then PatchEdge(edges[0], p) else edges[0]] + UpdateEdges(edges[1..], id, p)
  }

  /** A patch that does not carry an id keeps every node id, so the graph's node ids stay. */
  lemma UpdateKeepsIds(nodes: seq<GraphNode>, id: Id, p: NodePatch)
    requires p.id.None?
    ensures forall i :: 0 <= i < |nodes| ==> UpdateNodes(nodes, id, p)[i].id == nodes[i].id
  {
  }

  /** The targets of edges leaving `v`, and the sources of edges entering it when undirected,
      in edge order and with repetitions: what `getAdjacentNodes` pushes. */
  function Pushed(directed: bool, edges: seq<GraphEdge>, v: Id): (r: seq<Id>)
    ensures forall u :: u in r <==> exists i :: 0 <= i < |edges| && Links(directed, edges[i], v, u)
  {
    if edges == [] then []
    else
      var e := edges[|edges| - 1];
      var front := Pushed(directed, edges[..|edges| - 1], v);
      assert forall i :: 0 <= i < |edges| - 1 ==> edges[..|edges| - 1][i] == edges[i];
      front + (if e.source == v then [e.target] else []) + (if !directed && e.target == v then [e.source] else [])
  }

  /** `s` with the duplicates dropped that a `Set` drops, kept in first-occurrence order. */
  method Dedupe(s: seq<Id>) returns (r: seq<Id>)
    ensures r == Dedup(s)
  {
    r := [];
    var i := 0;
    while i < |s|
      invariant 0 <= i <= |s|
      invariant r == Dedup(s[..i])
    {
      assert s[..i + 1][..i] == s[..i];
      if s[i] !in r {
        r := r + [s[i]];
      }
      i := i + 1;
    }
    assert s[..i] == s;
  }

  class GraphEditor {
    var graph: Graph
    var selectedNodes: seq<Id>
    var selectedEdges: seq<Id>

    constructor()
      ensures graph == CreateEmptyGraph() && selectedNodes == [] && selectedEdges == []
    {
      graph := CreateEmptyGraph();
      selectedNodes := [];
      selectedEdges := [];
    }

    /** Appends one node and returns its id: the given id when non-empty, else the generated
        `freshId`; the label is the given one when non-empty, else the counter's `freshLabel`. */
    method AddNode(node: NodePatch, freshId: Id, freshLabel: string) returns (id: Id)
      modifies this
      ensures id == (if Truthy(node.id) then node.id.value else freshId)
      ensures graph.nodes == old(graph.nodes)
                + [GraphNode(id, Some(if Truthy(node.nodeLabel) then node.nodeLabel.value else freshLabel),
                             node.x, node.y, node.color)]
      ensures graph.edges == old(graph.edges) && graph.directed == old(graph.directed)
      ensures graph.weighted == old(graph.weighted)
      ensures selectedNodes == old(selectedNodes) && selectedEdges == old(selectedEdges)
      ensures freshId != "" && old(NonEmptyIds(graph)) ==> NonEmptyIds(graph)
      ensures old(EdgeRules(graph)) ==> EdgeRules(graph)
    {
      id := if node.id.Some? && node.id.value != "" then node.id.value else freshId;
      var text := if node.nodeLabel.Some? && node.nodeLabel.value != "" then node.nodeLabel.value else freshLabel;
      var n := GraphNode(id, Some(text), node.x, node.y, node.color);
      graph := graph.(nodes := graph.nodes + [n]);
    }

    /** Removes the node, every edge it is an endpoint of, and its selection entries; the other
        nodes and edges keep their order and the edge selection is untouched. */
    method RemoveNode(id: Id)
      modifies this
      ensures graph.nodes == KeepNodesNot(old(graph.nodes), id)
      ensures graph.edges == KeepEdgesAwayFrom(old(graph.edges), id)
      ensures graph.directed == old(graph.directed) && graph.weighted == old(graph.weighted)
      ensures selectedNodes == Remove(old(selectedNodes), id) && selectedEdges == old(selectedEdges)
      ensures forall i :: 0 <= i < |graph.nodes| ==> graph.nodes[i].id != id
      ensures forall i :: 0 <= i < |graph.edges| ==> graph.edges[i].source != id && graph.edges[i].target != id
      ensures SubsequenceOf(graph.nodes, old(graph.nodes)) && SubsequenceOf(graph.edges, old(graph.edges))
      ensures old(EdgeRules(graph)) ==> EdgeRules(graph)
    {
      var nodes := KeepNodesNot(graph.nodes, id);
      var edges := KeepEdgesAwayFrom(graph.edges, id);
      KeepNodesNotOrdered(graph.nodes, id);
      KeepEdgesAwayFromOrdered(graph.edges, id);
      if EdgeRules(graph) {
        SubsequenceKeepsRules(graph.directed, edges, graph.edges);
        RulesOnEdges(graph, edges);
      }
      graph := graph.(nodes := nodes, edges := edges);
      selectedNodes := Remove(selectedNodes, id);
      assert forall i :: 0 <= i < |graph.nodes| ==> graph.nodes[i] in nodes;
      assert forall i :: 0 <= i < |graph.edges| ==> graph.edges[i] in edges;
    }

    /** Merges the patch into every node with that id; nothing else changes. */
    method UpdateNode(id: Id, p: NodePatch)
      modifies this
      ensures graph.nodes == UpdateNodes(old(graph.nodes), id, p)
      ensures graph.edges == old(graph.edges) && graph.directed == old(graph.directed)
      ensures graph.weighted == old(graph.weighted)
      ensures selectedNodes == old(selectedNodes) && selectedEdges == old(selectedEdges)
      ensures old(EdgeRules(graph)) ==> EdgeRules(graph)
    {
      graph := graph.(nodes := UpdateNodes(graph.nodes, id, p));
    }

    /** Refuses a self-loop and a pair `hasEdge` already joins (null); otherwise appends the
        edge `e-source-target` with weight `weight ?? 1` and returns its id. */
    method AddEdge(source: Id, target: Id, weight: Option<int>) returns (r: Option<Id>)
      modifies this
      ensures r.None? <==> source == target || old(HasEdge(graph, source, target))
      ensures r.None? ==> graph == old(graph)
      ensures r.Some? ==>
                r.value == GenerateEdgeId(source, target)
                && graph.edges == old(graph.edges) + [GraphEdge(r.value, source, target, Some(weight.GetOr(1)))]
      ensures r.Some? ==> HasEdge(graph, source, target)
      ensures graph.nodes == old(graph.nodes) && graph.directed == old(graph.directed)
      ensures graph.weighted == old(graph.weighted)
      ensures selectedNodes == old(selectedNodes) && selectedEdges == old(selectedEdges)
      ensures old(EdgeRules(graph)) ==> EdgeRules(graph)
    {
      if source == target {
        return None;
      }
      if HasEdge(graph, source, target) {
        return None;
      }
      var id := GenerateEdgeId(source, target);
      var e := GraphEdge(id, source, target, Some(if weight.Some? then weight.value else 1));
      ghost var g0 := graph;
      graph := graph.(edges := graph.edges + [e]);
      assert Links(graph.directed, graph.edges[|graph.edges| - 1], source, target);
      if EdgeRules(g0) {
        AppendKeepsRules(g0, e);
      }
      return Some(id);
    }

    /** Removes every edge with that id and drops it from the edge selection. */
    method RemoveEdge(id: Id)
      modifies this
      ensures graph.edges == KeepEdgesNot(old(graph.edges), id)
      ensures forall i :: 0 <= i < |graph.edges| ==> graph.edges[i].id != id
      ensures SubsequenceOf(graph.edges, old(graph.edges))
      ensures graph.nodes == old(graph.nodes) && graph.directed == old(graph.directed)
      ensures graph.weighted == old(graph.weighted)
      ensures selectedEdges == Remove(old(selectedEdges), id) && selectedNodes == old(selectedNodes)
      ensures old(EdgeRules(graph)) ==> EdgeRules(graph)
    {
      var edges := KeepEdgesNot(graph.edges, id);
      KeepEdgesNotOrdered(graph.edges, id);
      if EdgeRules(graph) {
        SubsequenceKeepsRules(graph.directed, edges, graph.edges);
        RulesOnEdges(graph, edges);
      }
      graph := graph.(edges := edges);
      selectedEdges := Remove(selectedEdges, id);
      assert forall i :: 0 <= i < |graph.edges| ==> graph.edges[i] in edges;
    }

    /** Merges the patch into every edge with that id; the editing rules are not re-checked. */
    method UpdateEdge(id: Id, p: EdgePatch)
      modifies this
      ensures graph.edges == UpdateEdges(old(graph.edges), id, p)
      ensures graph.nodes == old(graph.nodes) && graph.directed == old(graph.directed)
      ensures graph.weighted == old(graph.weighted)
      ensures selectedNodes == old(selectedNodes) && selectedEdges == old(selectedEdges)
    {
      graph := graph.(edges := UpdateEdges(graph.edges, id, p));
    }

    /** Without `addToSelection` the node becomes the only selection and the edge selection
        is emptied; with it the node is appended. */
    method SelectNode(id: Id, addToSelection: bool)
      modifies this
      ensures selectedNodes == (if addToSelection then old(selectedNodes) + [id] else [id])
      ensures selectedEdges == (if addToSelection then old(selectedEdges) else [])
      ensures graph == old(graph)
    {
      selectedNodes := if addToSelection then selectedNodes + [id] else [id];
      selectedEdges := if addToSelection then selectedEdges else [];
    }

    method SelectEdge(id: Id, addToSelection: bool)
      modifies this
      ensures selectedEdges == (if addToSelection then old(selectedEdges) + [id] else [id])
      ensures selectedNodes == (if addToSelection then old(selectedNodes) else [])
      ensures graph == old(graph)
    {
      selectedEdges := if addToSelection then selectedEdges + [id] else [id];
      selectedNodes := if addToSelection then selectedNodes else [];
    }

    method ClearSelection()
      modifies this
      ensures selectedNodes == [] && selectedEdges == [] && graph == old(graph)
    {
      selectedNodes, selectedEdges := [], [];
    }

    method LoadGraph(g: Graph)
      modifies this
      ensures graph == g && selectedNodes == [] && selectedEdges == []
    {
      graph, selectedNodes, selectedEdges := g, [], [];
    }

    method Clear()
      modifies this
      ensures graph == CreateEmptyGraph() && selectedNodes == [] && selectedEdges == []
      ensures EdgeRules(graph)
    {
      graph, selectedNodes, selectedEdges := CreateEmptyGraph(), [], [];
    }

    method SetDirected(directed: bool)
      modifies this
      ensures graph == old(graph).(directed := directed)
      ensures selectedNodes == old(selectedNodes) && selectedEdges == old(selectedEdges)
      ensures directed ==> (old(EdgeRules(graph)) ==> EdgeRules(graph))
    {
      ghost var g0 := graph;
      graph := graph.(directed := directed);
      if directed && EdgeRules(g0) {
        forall i, j | 0 <= i < j < |graph.edges|
          ensures !Links(graph.directed, graph.edges[i], graph.edges[j].source, graph.edges[j].target)
        {
          assert !Links(g0.directed, g0.edges[i], g0.edges[j].source, g0.edges[j].target);
        }
      }
    }

    method SetWeighted(weighted: bool)
      modifies this
      ensures graph == old(graph).(weighted := weighted)
      ensures selectedNodes == old(selectedNodes) && selectedEdges == old(selectedEdges)
      ensures old(EdgeRules(graph)) ==> EdgeRules(graph)
    {
      graph := graph.(weighted := weighted);
    }

    /** The first node with that id: `nodes.find(n => n.id === id)`. */
    function GetNode(id: Id): (r: Option<GraphNode>)
      reads this
      ensures r.None? <==> forall i :: 0 <= i < |graph.nodes| ==> graph.nodes[i].id != id
      ensures r.Some? ==> exists i :: 0 <= i < |graph.nodes| && graph.nodes[i] == r.value && r.value.id == id
                                      && forall j :: 0 <= j < i ==> graph.nodes[j].id != id
    {
      FindNode(graph, id)
    }

    /** The first edge with that id. */
    function GetEdge(id: Id): (r: Option<GraphEdge>)
      reads this
      ensures r.None? <==> forall i :: 0 <= i < |graph.edges| ==> graph.edges[i].id != id
      ensures r.Some? ==> exists i :: 0 <= i < |graph.edges| && graph.edges[i] == r.value && r.value.id == id
                                      && forall j :: 0 <= j < i ==> graph.edges[j].id != id
    {
      FindEdge(graph.edges, id)
    }

    /** The neighbours of `nodeId` in edge order, each once: exactly the nodes `hasEdge` joins
        it to. */
    method GetAdjacentNodes(nodeId: Id) returns (adjacent: seq<Id>)
      ensures Distinct(adjacent)
      ensures forall u :: u in adjacent <==> HasEdge(graph, nodeId, u)
      ensures adjacent == Dedup(Pushed(graph.directed, graph.edges, nodeId))
    {
      var pushed: seq<Id> := [];
      for i := 0 to |graph.edges|
        invariant pushed == Pushed(graph.directed, graph.edges[..i], nodeId)
      {
        var edge := graph.edges[i];
        assert graph.edges[..i + 1][..i] == graph.edges[..i];
        if edge.source == nodeId {
          pushed := pushed + [edge.target];
        }
        if !graph.directed && edge.target == nodeId {
          pushed := pushed + [edge.source];
        }
      }
      assert graph.edges[..|graph.edges|] == graph.edges;
      adjacent := Dedupe(pushed);
    }
  }

  /** The first edge of `edges` with id `id`. */
  function FindEdge(edges: seq<GraphEdge>, id: Id): (r: Option<GraphEdge>)
    ensures r.None? <==> forall i :: 0 <= i < |edges| ==> edges[i].id != id
    ensures r.Some? ==> exists i :: 0 <= i < |edges| && edges[i] == r.value && r.value.id == id
                                    && forall j :: 0 <= j < i ==> edges[j].id != id
  {
    if edges == [] then None
    else if edges[0].id == id then Some(edges[0])
    else
      var rest := FindEdge(edges[1..], id);
      assert forall i :: 1 <= i < |edges| ==> edges[i] == edges[1..][i - 1];
      rest
  }

  /** The editing rules depend on the edge list and the direction flag only. */
  lemma RulesOnEdges(g: Graph, edges: seq<GraphEdge>)
    requires EdgeRules(Graph([], edges, g.directed, false))
    ensures EdgeRules(g.(edges := edges))
  {
  }

  /** An edge that is no self-loop and joins a pair no edge joins yet keeps the rules. */
  lemma AppendKeepsRules(g: Graph, e: GraphEdge)
    requires EdgeRules(g) && e.source != e.target && !HasEdge(g, e.source, e.target)
    ensures EdgeRules(g.(edges := g.edges + [e]))
  {
    var g' := g.(edges := g.edges + [e]);
    forall i, j | 0 <= i < j < |g'.edges|
      ensures !Links(g'.directed, g'.edges[i], g'.edges[j].source, g'.edges[j].target)
    {
      if j < |g.edges| {
        assert g'.edges[i] == g.edges[i] && g'.edges[j] == g.edges[j];
      } else {
        assert g'.edges[i] == g.edges[i] && g'.edges[j] == e;
        if Links(g.directed, g.edges[i], e.source, e.target) {
          assert Adjacent(g, e.source, e.target);
        }
      }
    }
  }

  /** Switching a graph to undirected can break the rules: edges `a -> b` and `b -> a` keep
      them while the graph is directed and are a duplicate pair once it is not. */
  lemma UndirectingBreaksRules()
    ensures var g := Graph([], [GraphEdge("e-a-b", "a", "b", Some(1)), GraphEdge("e-b-a", "b", "a", Some(1))], true, false);
            EdgeRules(g) && !EdgeRules(g.(directed := false))
  {
    var g := Graph([], [GraphEdge("e-a-b", "a", "b", Some(1)), GraphEdge("e-b-a", "b", "a", Some(1))], true, false);
    assert Links(false, g.edges[0], g.edges[1].source, g.edges[1].target);
  }
}
