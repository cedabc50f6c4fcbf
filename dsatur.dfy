/** DSATUR colouring: greedy saturation-degree colouring with first-fit colour choice and an
    optional colour ceiling, emitting one step per decision. */
module Dsatur {
  import opened Common
  import opened GraphTypes
  import opened AlgorithmTypes

  /** The ten-entry display palette, indexed cyclically by colour number. */
  const COLORS: seq<string> := [
    "#E53935", "#43A047", "#1E88E5", "#FB8C00", "#8E24AA",
    "#00ACC1", "#D81B60", "#FFB300", "#546E7A", "#F06292"
  ]

  /** The neighbour set of `v`, empty for an id the adjacency does not know. */
  function Nbrs(adj: map<Id, set<Id>>, v: Id): set<Id> {
    if v in adj then adj[v] else {}
  }

  /** The distinct colours among the coloured members of `nbrs` (-1 and absent mean uncoloured). */
  ghost function NeighborColors(nbrs: set<Id>, colors: map<Id, int>): set<int> {
    set u | u in nbrs && u in colors && colors[u] >= 0 :: colors[u]
  }

  /** What the edges `es` add to the neighbour set of `v`, in the order the loop adds them. */
  function Contributed(directed: bool, es: seq<GraphEdge>, v: Id): set<Id> {
    if es == [] then {}
    else
      var e := es[|es| - 1];
      Contributed(directed, es[..|es| - 1], v)
        + (if e.source == v then {e.target} else {})
        + (if !directed && e.target == v then {e.source} else {})
  }

  /** One more edge adds its far end to the set of its near end, both ways when undirected. */
  lemma ContributedStep(directed: bool, es: seq<GraphEdge>, i: nat, v: Id)
    requires i < |es|
    ensures Contributed(directed, es[..i + 1], v)
              == Contributed(directed, es[..i], v)
                 + (if es[i].source == v then {es[i].target} else {})
                 + (if !directed && es[i].target == v then {es[i].source} else {})
  {
    assert es[..i + 1][..i] == es[..i];
  }

  lemma {:induction false} ContributedIsAdjacent(directed: bool, es: seq<GraphEdge>, v: Id, u: Id)
    ensures u in Contributed(directed, es, v) <==> exists i :: 0 <= i < |es| && Links(directed, es[i], v, u)
  {
    if es != [] {
      var front := es[..|es| - 1];
      ContributedIsAdjacent(directed, front, v, u);
      if u in Contributed(directed, front, v) {
        var i :| 0 <= i < |front| && Links(directed, front[i], v, u);
        assert es[i] == front[i];
      }
      if exists i :: 0 <= i < |es| && Links(directed, es[i], v, u) {
        var i :| 0 <= i < |es| && Links(directed, es[i], v, u);
        if i < |front| {
          assert front[i] == es[i];
        }
      }
    }
  }

  /** Builds the neighbour sets: one key per node id, and every edge adds its target to its
      source's set (both ways when undirected); an edge whose source is not a node adds nothing. */
  method BuildAdjacencyMap(g: Graph) returns (adj: map<Id, set<Id>>)
    ensures forall v :: v in adj <==> v in NodeIds(g)
    ensures forall v, u :: v in adj ==> (u in adj[v] <==> Adjacent(g, v, u))
  {
    adj := map[];
    for i := 0 to |g.nodes|
      invariant forall k :: 0 <= k < i ==> g.nodes[k].id in adj
      invariant forall v :: v in adj ==> exists k :: 0 <= k < i && g.nodes[k].id == v
      invariant forall v :: v in adj ==> adj[v] == {}
    {
      adj := adj[g.nodes[i].id := {}];
    }
    adj := AddEdges(g, adj);
    forall v, u | v in adj
      ensures u in adj[v] <==> Adjacent(g, v, u)
    {
      ContributedIsAdjacent(g.directed, g.edges, v, u);
    }
  }

  /** One pass of the edge loop: the target joins the source's set, and the source joins the
      target's set when the graph is undirected; an endpoint without a set is skipped. */
  method AddEdge(directed: bool, adj: map<Id, set<Id>>, e: GraphEdge) returns (adj': map<Id, set<Id>>)
    ensures adj'.Keys == adj.Keys
    ensures forall v :: v in adj' ==>
              adj'[v] == adj[v] + (if e.source == v then {e.target} else {})
                                + (if !directed && e.target == v then {e.source} else {})
  {
    adj' := adj;
    if e.source in adj' {
      adj' := adj'[e.source := adj'[e.source] + {e.target}];
    }
    if !directed && e.target in adj' {
      adj' := adj'[e.target := adj'[e.target] + {e.source}];
    }
  }

  /** The edge loop of `BuildAdjacencyMap`. */
  method AddEdges(g: Graph, empty: map<Id, set<Id>>) returns (adj: map<Id, set<Id>>)
    requires forall v :: v in empty ==> empty[v] == {}
    ensures adj.Keys == empty.Keys
    ensures forall v :: v in adj ==> adj[v] == Contributed(g.directed, g.edges, v)
  {
    adj := empty;
    for i := 0 to |g.edges|
      invariant adj.Keys == empty.Keys
      invariant forall v :: v in adj ==> adj[v] == Contributed(g.directed, g.edges[..i], v)
    {
      adj := AddEdge(g.directed, adj, g.edges[i]);
      forall v | v in adj ensures adj[v] == Contributed(g.directed, g.edges[..i + 1], v) {
        ContributedStep(g.directed, g.edges, i, v);
      }
    }
    assert g.edges[..|g.edges|] == g.edges;
  }

  /** The display colour of a colour index: the palette entry at the index modulo ten. */
  function GetColorStyle(colorIndex: nat): (c: string)
    ensures c in COLORS
  {
    COLORS[colorIndex % |COLORS|]
  }

  /** The palette is cyclic: colour indices ten apart share a display colour. */
  lemma PaletteCyclic(c: nat)
    ensures GetColorStyle(c + |COLORS|) == GetColorStyle(c)
  {
    var n := |COLORS|;
    assert (c + n) % n == c % n by {
      assert c + n == (c / n + 1) * n + c % n;
    }
  }

  /** The style snapshot: every coloured node gets its palette background; the highlighted
      node (when given and non-empty) additionally gets the selection border. */
  method BuildCurrentStyles(colors: map<Id, int>, highlight: Option<Id>) returns (styles: map<Id, NodeStyle>)
    ensures forall v :: v in styles <==> (v in colors && colors[v] >= 0) || (Truthy(highlight) && v == highlight.value)
    ensures forall v :: v in styles ==> styles[v] == ColorStyle(
      if v in colors && colors[v] >= 0 then Some(GetColorStyle(colors[v])) else None,
      Truthy(highlight) && v == highlight.value)
  {
    styles := map[];
    var rest := colors.Keys;
    while rest != {}
      invariant rest <= colors.Keys
      invariant forall v :: v in styles <==> v in colors && v !in rest && colors[v] >= 0
      invariant forall v :: v in styles ==> styles[v] == ColorStyle(Some(GetColorStyle(colors[v])), false)
      decreases rest
    {
      var v :| v in rest;
      if colors[v] >= 0 {
        styles := styles[v := ColorStyle(Some(GetColorStyle(colors[v])), false)];
      }
      rest := rest - {v};
    }
    if Truthy(highlight) {
      var h := highlight.value;
      var existing := if h in styles then styles[h].background else None;
      styles := styles[h := ColorStyle(existing, true)];
    }
  }

  /** Collects the colours in use around a node (`neighborColors`). */
  method CollectNeighborColors(nbrs: set<Id>, colors: map<Id, int>) returns (used: set<int>)
    ensures used == NeighborColors(nbrs, colors)
  {
    used := {};
    var rest := nbrs;
    while rest != {}
      invariant rest <= nbrs
      invariant used == NeighborColors(nbrs - rest, colors)
      decreases rest
    {
      var u :| u in rest;
      if u in colors && colors[u] >= 0 {
        used := used + {colors[u]};
      }
      rest := rest - {u};
      assert NeighborColors(nbrs - rest, colors) == used;
    }
  }

  /** A set holding every number below `n` has at least `n` elements. */
  lemma {:induction false} PrefixCard(used: set<int>, n: nat)
    requires forall k :: 0 <= k < n ==> k in used
    ensures n <= |used|
  {
    if n > 0 {
      PrefixCard(used - {n - 1}, n - 1);
    }
  }

  /** First fit: the least non-negative integer not in `used`. */
  method FirstFit(used: set<int>) returns (c: nat)
    ensures c !in used
    ensures forall k :: 0 <= k < c ==> k in used
  {
    c := 0;
    while c in used
      invariant forall k :: 0 <= k < c ==> k in used
      decreases |used| - c
    {
      PrefixCard(used, c + 1);
      c := c + 1;
    }
  }

  /** `saturation.get(id) || 0` and `degrees.get(id) || 0`. */
  function Lookup(m: map<Id, nat>, v: Id): nat {
    if v in m then m[v] else 0
  }

  /** `v` ranks strictly above `u`: larger saturation, or equal saturation and larger degree. */
  predicate Better(sat: map<Id, nat>, deg: map<Id, nat>, v: Id, u: Id) {
    Lookup(sat, v) > Lookup(sat, u) || (Lookup(sat, v) == Lookup(sat, u) && Lookup(deg, v) > Lookup(deg, u))
  }

  /** The selection scan: the uncoloured node of maximum saturation, ties to the larger degree,
      remaining ties to the first in iteration order. */
  method SelectNode(uncolored: seq<Id>, sat: map<Id, nat>, deg: map<Id, nat>) returns (k: nat)
    requires |uncolored| > 0
    ensures k < |uncolored|
    ensures forall i :: 0 <= i < k ==> Better(sat, deg, uncolored[k], uncolored[i])
    ensures forall i :: k < i < |uncolored| ==> !Better(sat, deg, uncolored[i], uncolored[k])
  {
    var maxSat: int, maxDegree: int := -1, -1;
    k := 0;
    for i := 0 to |uncolored|
      invariant i > 0 ==> k < i && maxSat == Lookup(sat, uncolored[k]) && maxDegree == Lookup(deg, uncolored[k])
      invariant i == 0 ==> k == 0 && maxSat == -1 && maxDegree == -1
      invariant forall j :: 0 <= j < k ==> Better(sat, deg, uncolored[k], uncolored[j])
      invariant forall j :: k < j < i ==> !Better(sat, deg, uncolored[j], uncolored[k])
    {
      var s, d := Lookup(sat, uncolored[i]), Lookup(deg, uncolored[i]);
      if s > maxSat || (s == maxSat && d > maxDegree) {
        maxSat, maxDegree, k := s, d, i;
      }
    }
  }

  /** Recomputes the saturation of every still-uncoloured neighbour of the node `x` just
      coloured, as the number of distinct colours among that neighbour's coloured neighbours. */
  method UpdateSaturation(adj: map<Id, set<Id>>, colors: map<Id, int>, uncolored: seq<Id>,
                          saturation: map<Id, nat>, x: Id) returns (sat: map<Id, nat>)
    requires forall v :: v in uncolored ==> v in saturation
    ensures sat.Keys == saturation.Keys
    ensures forall v :: v in sat ==>
      sat[v] == if v in Nbrs(adj, x) && v in uncolored then |NeighborColors(Nbrs(adj, v), colors)| else saturation[v]
  {
    sat := saturation;
    var rest := Nbrs(adj, x);
    while rest != {}
      invariant rest <= Nbrs(adj, x)
      invariant sat.Keys == saturation.Keys
      invariant forall v :: v in sat ==>
        sat[v] == if v in Nbrs(adj, x) - rest && v in uncolored then |NeighborColors(Nbrs(adj, v), colors)| else saturation[v]
      decreases rest
    {
      var v :| v in rest;
      if v in uncolored {
        var used := CollectNeighborColors(Nbrs(adj, v), colors);
        sat := sat[v := |used|];
      }
      rest := rest - {v};
    }
  }

  /** A truthy `maxColors` caps the palette; 0 or absent means no cap. */
  predicate Capped(maxColors: Option<int>) {
    maxColors.Some? && maxColors.value != 0
  }

  /** No two mutually adjacent coloured nodes share a colour. */
  ghost predicate ProperSoFar(adj: map<Id, set<Id>>, colors: map<Id, int>) {
    forall u, v ::
      (u in colors && v in colors && colors[u] >= 0 && colors[v] >= 0 && u != v
       && v in Nbrs(adj, u) && u in Nbrs(adj, v)) ==> colors[u] != colors[v]
  }

  /** Every edge that is not a self-loop and joins two coloured nodes joins different colours. */
  ghost predicate ProperOn(g: Graph, colors: map<Id, int>) {
    forall i ::
      (0 <= i < |g.edges| && g.edges[i].source != g.edges[i].target
       && g.edges[i].source in colors && g.edges[i].target in colors) ==>
      colors[g.edges[i].source] != colors[g.edges[i].target]
  }

  /** The final assignment of a completed run: every node coloured with a colour below the
      reported count, the count one more than the largest colour, the cap respected, and a
      proper colouring whenever the graph is undirected. */
  ghost predicate FullColoring(g: Graph, maxColors: Option<int>, colors: map<Id, int>, colorsUsed: int) {
    && (forall v :: v in colors <==> v in NodeIds(g))
    && (forall v :: v in colors ==> 0 <= colors[v] < colorsUsed)
    && (exists v :: v in colors && colors[v] == colorsUsed - 1)
    && (Capped(maxColors) ==> colorsUsed <= maxColors.value)
    && (!g.directed ==> ProperOn(g, colors))
  }

  /** After `init`, select steps sit at odd and assign steps at even positions, up to the
      terminal step; each select names the node the following assign colours. */
  ghost predicate Alternates(steps: seq<Step>) {
    && (forall j :: 1 <= j < |steps| - 1 ==>
          if j % 2 == 1 then steps[j].state.ColoringSelect? else steps[j].state.ColoringAssign?)
    && (forall j :: 1 <= j < |steps| - 2 && j % 2 == 1 ==>
          steps[j].state.selectedNode == steps[j + 1].state.node)
  }

  function InitialColors(ids: seq<Id>): map<Id, int> {
    map v | v in ids :: -1
  }

  function InitialSaturation(ids: seq<Id>): map<Id, int> {
    map v | v in ids :: 0
  }

  /** In an undirected graph the adjacency is symmetric between nodes. */
  lemma Symmetric(g: Graph, adj: map<Id, set<Id>>, u: Id, v: Id)
    requires !g.directed
    requires forall v :: v in adj ==> forall u :: u in adj[v] <==> Adjacent(g, v, u)
    requires u in adj && v in adj
    ensures v in adj[u] <==> u in adj[v]
  {
    if v in adj[u] {
      var i :| 0 <= i < |g.edges| && Links(g.directed, g.edges[i], u, v);
      assert Links(g.directed, g.edges[i], v, u);
    }
    if u in adj[v] {
      var i :| 0 <= i < |g.edges| && Links(g.directed, g.edges[i], v, u);
      assert Links(g.directed, g.edges[i], u, v);
    }
  }

  /** Colouring `x` with a colour none of its coloured neighbours has keeps the colouring proper. */
  lemma AssignKeepsProper(adj: map<Id, set<Id>>, colors: map<Id, int>, x: Id, c: int)
    requires ProperSoFar(adj, colors)
    requires c >= 0 && c !in NeighborColors(Nbrs(adj, x), colors)
    ensures ProperSoFar(adj, colors[x := c])
  {
    var colors' := colors[x := c];
    forall u, v | u in colors' && v in colors' && colors'[u] >= 0 && colors'[v] >= 0 && u != v
      && v in Nbrs(adj, u) && u in Nbrs(adj, v)
      ensures colors'[u] != colors'[v]
    {
      if u == x {
        assert colors[v] in NeighborColors(Nbrs(adj, x), colors);
      } else if v == x {
        assert colors[u] in NeighborColors(Nbrs(adj, x), colors);
      }
    }
  }

  /** Colouring a node outside `nbrs` leaves the colours seen around `nbrs` unchanged. */
  lemma NeighborColorsUnchanged(nbrs: set<Id>, colors: map<Id, int>, x: Id, c: int)
    requires x !in nbrs
    ensures NeighborColors(nbrs, colors[x := c]) == NeighborColors(nbrs, colors)
  {
    var colors' := colors[x := c];
    forall k | k in NeighborColors(nbrs, colors') ensures k in NeighborColors(nbrs, colors) {
      var u :| u in nbrs && u in colors' && colors'[u] >= 0 && colors'[u] == k;
      assert colors[u] == k;
    }
    forall k | k in NeighborColors(nbrs, colors) ensures k in NeighborColors(nbrs, colors') {
      var u :| u in nbrs && u in colors && colors[u] >= 0 && colors[u] == k;
      assert colors'[u] == k;
    }
  }

  /** On an undirected graph a proper colouring of the adjacency is proper on every edge. */
  lemma ProperOnEdges(g: Graph, adj: map<Id, set<Id>>, colors: map<Id, int>)
    requires !g.directed
    requires forall v, u :: v in adj ==> (u in adj[v] <==> Adjacent(g, v, u))
    requires forall v :: v in colors ==> v in adj && colors[v] >= 0
    requires ProperSoFar(adj, colors)
    ensures ProperOn(g, colors)
  {
    forall i | 0 <= i < |g.edges| && g.edges[i].source != g.edges[i].target
      && g.edges[i].source in colors && g.edges[i].target in colors
      ensures colors[g.edges[i].source] != colors[g.edges[i].target]
    {
      var e := g.edges[i];
      assert Links(g.directed, e, e.source, e.target);
      assert Links(g.directed, e, e.target, e.source);
      assert e.target in Nbrs(adj, e.source) && e.source in Nbrs(adj, e.target);
    }
  }

  /** `adj` is the adjacency `BuildAdjacencyMap` returns for `g`. */
  ghost predicate IsAdjacency(g: Graph, adj: map<Id, set<Id>>) {
    && (forall v :: v in adj <==> v in NodeIds(g))
    && (forall v, u :: v in adj ==> (u in adj[v] <==> Adjacent(g, v, u)))
  }

  /** The engine's colouring state between iterations: `colors` has one entry per node, -1 exactly
      on the uncoloured ones; the saturation of every uncoloured node is current (on undirected
      graphs, where the adjacency is symmetric); the colouring is proper and within the cap; and
      `maxColorUsed` is the largest colour in use, or -1. */
  ghost predicate ColoringState(g: Graph, adj: map<Id, set<Id>>, colors: map<Id, int>, uncolored: seq<Id>,
                                saturation: map<Id, nat>, maxColorUsed: int, maxColors: Option<int>) {
    && Distinct(uncolored)
    && (forall v :: v in uncolored ==> v in colors)
    && (forall v :: v in colors <==> v in NodeIds(g))
    && (forall v :: v in colors ==> colors[v] >= -1 && (colors[v] == -1 <==> v in uncolored))
    && (forall v :: v in colors ==> v in saturation)
    && (!g.directed ==>
          forall v :: v in uncolored ==> saturation[v] == |NeighborColors(Nbrs(adj, v), colors)|)
    && ProperSoFar(adj, colors)
    && (Capped(maxColors) ==> forall v :: v in colors && colors[v] >= 0 ==> colors[v] < maxColors.value)
    && -1 <= maxColorUsed
    && (forall v :: v in colors ==> colors[v] <= maxColorUsed)
    && (maxColorUsed >= 0 ==> exists v :: v in colors && colors[v] == maxColorUsed)
  }

  /** The steps emitted before an iteration: `init`, then a select/assign pair per coloured node,
      each assign recording the colour the node now has. */
  ghost predicate StepsSoFar(steps: seq<Step>, ids: seq<Id>, colors: map<Id, int>, uncolored: seq<Id>) {
    && |uncolored| <= |ids|
    && |steps| == 1 + 2 * (|ids| - |uncolored|)
    && Numbered(steps)
    && steps[0].state == ColoringInit(InitialColors(ids), InitialSaturation(ids))
    && (forall j :: 1 <= j < |steps| ==>
          if j % 2 == 1 then steps[j].state.ColoringSelect? else steps[j].state.ColoringAssign?)
    && (forall j :: 1 <= j < |steps| - 1 && j % 2 == 1 ==>
          steps[j].state.selectedNode == steps[j + 1].state.node)
    && (forall j :: 1 <= j < |steps| && j % 2 == 0 ==>
          steps[j].state.node in colors && colors[steps[j].state.node] == steps[j].state.color >= 0)
  }

  /** The assignment block of an iteration: colour `x` with `c`, drop it from the uncoloured set,
      raise `maxColorUsed`, and recompute the saturation of its uncoloured neighbours. */
  method AssignColor(g: Graph, adj: map<Id, set<Id>>, colors: map<Id, int>, uncolored: seq<Id>,
                     saturation: map<Id, nat>, maxColorUsed: int, maxColors: Option<int>, x: Id, c: nat)
    returns (colors': map<Id, int>, uncolored': seq<Id>, saturation': map<Id, nat>, maxColorUsed': int)
    requires IsAdjacency(g, adj)
    requires ColoringState(g, adj, colors, uncolored, saturation, maxColorUsed, maxColors)
    requires x in uncolored
    requires c !in NeighborColors(Nbrs(adj, x), colors)
    requires Capped(maxColors) ==> c < maxColors.value
    ensures ColoringState(g, adj, colors', uncolored', saturation', maxColorUsed', maxColors)
    ensures colors' == colors[x := c] && uncolored' == Remove(uncolored, x)
    ensures |uncolored'| == |uncolored| - 1
    ensures maxColorUsed' == if c > maxColorUsed then c else maxColorUsed
  {
    AssignKeepsProper(adj, colors, x, c);
    colors' := colors[x := c];
    uncolored' := Remove(uncolored, x);
    maxColorUsed' := if c > maxColorUsed then c else maxColorUsed;
    saturation' := UpdateSaturation(adj, colors', uncolored', saturation, x);
    if !g.directed {
      forall v | v in uncolored' && v !in Nbrs(adj, x)
        ensures saturation'[v] == |NeighborColors(Nbrs(adj, v), colors')|
      {
        Symmetric(g, adj, x, v);
        NeighborColorsUnchanged(Nbrs(adj, v), colors, x, c);
      }
    }
  }

  /** Appending a select step and the assign step for the same node keeps `StepsSoFar`. */
  lemma AppendPair(steps: seq<Step>, ids: seq<Id>, colors: map<Id, int>, uncolored: seq<Id>,
                   sel: Step, asg: Step, colors': map<Id, int>, uncolored': seq<Id>)
    requires StepsSoFar(steps, ids, colors, uncolored)
    requires sel.stepNumber == |steps| && sel.state.ColoringSelect?
    requires asg.stepNumber == |steps| + 1 && asg.state.ColoringAssign?
    requires sel.state.selectedNode == asg.state.node
    requires asg.state.node in colors && colors[asg.state.node] == -1
    requires forall v :: v in colors && colors[v] >= 0 ==> colors[v] != -1
    requires asg.state.color >= 0 && colors' == colors[asg.state.node := asg.state.color]
    requires |uncolored'| == |uncolored| - 1
    ensures StepsSoFar(steps + [sel, asg], ids, colors', uncolored')
  {
  }

  /** The colours the assign steps among the first `n` of `steps` have set, every node starting
      uncoloured (-1). */
  ghost function ColorsSet(ids: seq<Id>, steps: seq<Step>, n: nat): map<Id, int>
    requires n <= |steps|
  {
    if n == 0 then InitialColors(ids)
    else
      var before, s := ColorsSet(ids, steps, n - 1), steps[n - 1].state;
      if s.ColoringAssign? then before[s.node := s.color] else before
  }

  /** The colours the neighbours of `v` have after the first `n` of `steps`. */
  ghost function UsedAround(g: Graph, v: Id, steps: seq<Step>, n: nat): set<int>
    requires n <= |steps|
  {
    NeighborColors(Contributed(g.directed, g.edges, v), ColorsSet(NodeIds(g), steps, n))
  }

  /** `c` is the least non-negative colour outside `used`: the first-fit choice. */
  ghost predicate LeastFree(c: int, used: set<int>) {
    0 <= c && c !in used && AllBelow(c, used)
  }

  /** Every colour from 0 up to `cap` (excluded) is in `used`. */
  ghost predicate AllBelow(cap: int, used: set<int>) {
    forall k :: 0 <= k < cap ==> k in used
  }

  /** `v` is a node that `colors` leaves uncoloured (-1). */
  ghost predicate StillUncolored(colors: map<Id, int>, v: Id) {
    v in colors && colors[v] == -1
  }

  /** Every assign step among the first `n` of `steps` colours a node the steps before it left
      uncoloured, with the first-fit colour for the colours its neighbours have at that point
      (`FirstFitAt` states it step by step). */
  ghost predicate FirstFitChoices(g: Graph, steps: seq<Step>, n: nat)
    requires n <= |steps|
  {
    n > 0 ==>
      && FirstFitChoices(g, steps, n - 1)
      && (steps[n - 1].state.ColoringAssign? ==>
            && StillUncolored(ColorsSet(NodeIds(g), steps, n - 1), steps[n - 1].state.node)
            && LeastFree(steps[n - 1].state.color, UsedAround(g, steps[n - 1].state.node, steps, n - 1)))
  }

  /** With first-fit choices among the first `n` steps, the assign step at `j` has the first-fit
      colour for the colours the steps before it have set around its node. */
  lemma {:induction false} FirstFitAt(g: Graph, steps: seq<Step>, n: nat, j: nat)
    requires n <= |steps| && FirstFitChoices(g, steps, n)
    requires j < n && steps[j].state.ColoringAssign?
    ensures StillUncolored(ColorsSet(NodeIds(g), steps, j), steps[j].state.node)
    ensures LeastFree(steps[j].state.color, UsedAround(g, steps[j].state.node, steps, j))
  {
    if j < n - 1 {
      FirstFitAt(g, steps, n - 1, j);
    }
  }

  /** Steps appended later do not change the colours replayed from the first `n`. */
  lemma {:induction false} ColorsPrefix(ids: seq<Id>, steps: seq<Step>, more: seq<Step>, n: nat)
    requires n <= |steps|
    ensures ColorsSet(ids, steps + more, n) == ColorsSet(ids, steps, n)
  {
    if n > 0 {
      ColorsPrefix(ids, steps, more, n - 1);
      assert (steps + more)[n - 1] == steps[n - 1];
    }
  }

  /** Steps appended later keep the first-fit choices among the first `n`. */
  lemma {:induction false} FirstFitPrefix(g: Graph, steps: seq<Step>, more: seq<Step>, n: nat)
    requires n <= |steps| && FirstFitChoices(g, steps, n)
    ensures FirstFitChoices(g, steps + more, n)
  {
    if n > 0 {
      FirstFitPrefix(g, steps, more, n - 1);
      ColorsPrefix(NodeIds(g), steps, more, n - 1);
      assert (steps + more)[n - 1] == steps[n - 1];
    }
  }

  /** What a DSATUR run emits. An empty graph gives no steps. Otherwise: `init` (all nodes
      uncoloured, saturation 0), then a `select` and an `assign` per coloured node, each assign
      colouring a node still uncoloured with the first-fit colour for the colours its neighbours
      have at that point, ending either in `complete`, reporting exactly the colours the assign
      steps set, every node coloured properly below the reported count, or in `failed`
      right after the `select` of a node that no assign step colours and whose neighbours already
      use every colour below the cap. */
  ghost predicate DsaturOutcome(g: Graph, maxColors: Option<int>, steps: seq<Step>) {
    && (|g.nodes| == 0 ==> steps == [])
    && Numbered(steps)
    && (|g.nodes| > 0 ==>
          && |steps| >= 2
          && steps[0].state == ColoringInit(InitialColors(NodeIds(g)), InitialSaturation(NodeIds(g)))
          && Alternates(steps)
          && (steps[|steps| - 1].state.ColoringComplete? || steps[|steps| - 1].state.ColoringFailed?))
    && (forall j :: 1 <= j < |steps| - 1 && j % 2 == 0 && Capped(maxColors) ==>
          steps[j].state.color < maxColors.value)
    && (|steps| > 0 && steps[|steps| - 1].state.ColoringFailed? ==>
          && Capped(maxColors)
          && |steps| % 2 == 1 && |steps| <= 2 * |NodeIds(g)| + 1
          && (forall j :: 1 <= j < |steps| - 2 && j % 2 == 0 ==>
                steps[j].state.node != steps[|steps| - 2].state.selectedNode)
          && |steps| >= 3
          && AllBelow(maxColors.value, UsedAround(g, steps[|steps| - 2].state.selectedNode, steps, |steps| - 2)))
    && FirstFitChoices(g, steps, |steps|)
    && (|steps| > 0 && steps[|steps| - 1].state.ColoringComplete? ==>
          steps[|steps| - 1].state.colors == ColorsSet(NodeIds(g), steps, |steps|))
    && (|steps| > 0 && steps[|steps| - 1].state.ColoringComplete? && NonEmptyIds(g) ==>
          && |steps| == 2 * |NodeIds(g)| + 2
          && FullColoring(g, maxColors, steps[|steps| - 1].state.colors, steps[|steps| - 1].state.colorsUsed)
          && (forall j :: 1 <= j < |steps| - 1 && j % 2 == 0 ==>
                steps[j].state.node in steps[|steps| - 1].state.colors
                && steps[|steps| - 1].state.colors[steps[j].state.node] == steps[j].state.color))
  }

  /** A colour of at least 0 in the replay was set by an assign step naming that node. */
  lemma {:induction false} ColorsSetFrom(ids: seq<Id>, steps: seq<Step>, n: nat, v: Id)
    requires n <= |steps| && v in ColorsSet(ids, steps, n) && ColorsSet(ids, steps, n)[v] >= 0
    ensures exists j :: 0 <= j < n && steps[j].state.ColoringAssign? && steps[j].state.node == v
                        && steps[j].state.color == ColorsSet(ids, steps, n)[v]
  {
    if n > 0 {
      var s := steps[n - 1].state;
      if !(s.ColoringAssign? && s.node == v) {
        ColorsSetFrom(ids, steps, n - 1, v);
      }
    }
  }

  /** A node an assign step gave a colour of at least 0 keeps such a colour in the replay while
      every later assign step does too. */
  lemma {:induction false} ColorsSetKeeps(ids: seq<Id>, steps: seq<Step>, n: nat, i: nat)
    requires n <= |steps| && i < n && steps[i].state.ColoringAssign?
    requires forall j :: i <= j < n && steps[j].state.ColoringAssign? ==> steps[j].state.color >= 0
    ensures steps[i].state.node in ColorsSet(ids, steps, n)
    ensures ColorsSet(ids, steps, n)[steps[i].state.node] >= 0
  {
    if i < n - 1 {
      ColorsSetKeeps(ids, steps, n - 1, i);
    }
  }

  /** With first-fit choices no node is assigned twice: a coloured node is never uncoloured
      again, and every assign step colours an uncoloured node. */
  lemma AssignedOnce(g: Graph, steps: seq<Step>, n: nat, i: nat, j: nat)
    requires n <= |steps| && FirstFitChoices(g, steps, n)
    requires i < j < n && steps[i].state.ColoringAssign? && steps[j].state.ColoringAssign?
    ensures steps[i].state.node != steps[j].state.node
  {
    forall k | i <= k < j && steps[k].state.ColoringAssign?
      ensures steps[k].state.color >= 0
    {
      FirstFitAt(g, steps, n, k);
    }
    ColorsSetKeeps(NodeIds(g), steps, j, i);
    FirstFitAt(g, steps, n, j);
  }

  /** In a trace `DsaturOutcome` describes, no node is assigned twice. */
  lemma OutcomeAssignsOnce(g: Graph, maxColors: Option<int>, steps: seq<Step>)
    requires DsaturOutcome(g, maxColors, steps)
    ensures forall i, j :: 0 <= i < j < |steps| && steps[i].state.ColoringAssign? && steps[j].state.ColoringAssign?
              ==> steps[i].state.node != steps[j].state.node
  {
    forall i, j | 0 <= i < j < |steps| && steps[i].state.ColoringAssign? && steps[j].state.ColoringAssign?
      ensures steps[i].state.node != steps[j].state.node
    {
      AssignedOnce(g, steps, |steps|, i, j);
    }
  }

  /** A `complete` step reports for each coloured node the colour an assign step gave it; when
      no id is empty, the reported count is one more than a colour some assign step gave. */
  lemma CompleteColorsAssigned(g: Graph, maxColors: Option<int>, steps: seq<Step>)
    requires DsaturOutcome(g, maxColors, steps) && steps != [] && steps[|steps| - 1].state.ColoringComplete?
    ensures var last := steps[|steps| - 1].state;
            forall v :: v in last.colors && last.colors[v] >= 0 ==>
              exists j :: 0 <= j < |steps| && steps[j].state.ColoringAssign?
                          && steps[j].state.node == v && steps[j].state.color == last.colors[v]
    ensures var last := steps[|steps| - 1].state;
            NonEmptyIds(g) ==>
              exists j :: 0 <= j < |steps| && steps[j].state.ColoringAssign?
                          && steps[j].state.color == last.colorsUsed - 1
  {
    var last := steps[|steps| - 1].state;
    forall v | v in last.colors && last.colors[v] >= 0
      ensures exists j :: 0 <= j < |steps| && steps[j].state.ColoringAssign?
                          && steps[j].state.node == v && steps[j].state.color == last.colors[v]
    {
      ColorsSetFrom(NodeIds(g), steps, |steps|, v);
    }
    if NonEmptyIds(g) {
      var v :| v in last.colors && last.colors[v] == last.colorsUsed - 1;
      ColorsSetFrom(NodeIds(g), steps, |steps|, v);
    }
  }

  /** Without edges no node has a coloured neighbour, so the first-fit colour is always 0: a run
      fails only under a negative cap, which every colour reaches. */
  lemma EdgelessFailsOnlyBelowZero(g: Graph, maxColors: Option<int>, steps: seq<Step>)
    requires g.edges == [] && DsaturOutcome(g, maxColors, steps) && steps != []
    ensures steps[|steps| - 1].state.ColoringFailed? ==> maxColors.Some? && maxColors.value < 0
  {
    if steps[|steps| - 1].state.ColoringFailed? {
      var v := steps[|steps| - 2].state.selectedNode;
      assert UsedAround(g, v, steps, |steps| - 2) == {};
      NothingBelow(maxColors.value);
    }
  }

  /** Every colour below `cap` is used in the empty set exactly when `cap` is not positive. */
  lemma NothingBelow(cap: int)
    ensures AllBelow(cap, {}) <==> cap <= 0
  {
    var nothing: set<int> := {};
    if cap > 0 {
      assert 0 !in nothing;
    }
  }

  /** Appending a step that assigns nothing keeps the replayed colours and the first-fit choices. */
  lemma AppendUnassigned(g: Graph, steps: seq<Step>, st: Step)
    requires FirstFitChoices(g, steps, |steps|) && !st.state.ColoringAssign?
    ensures FirstFitChoices(g, steps + [st], |steps| + 1)
    ensures ColorsSet(NodeIds(g), steps + [st], |steps| + 1) == ColorsSet(NodeIds(g), steps, |steps|)
  {
    FirstFitPrefix(g, steps, [st], |steps|);
    ColorsPrefix(NodeIds(g), steps, [st], |steps|);
  }

  /** Appending an assign step with the first-fit colour keeps the first-fit choices, and the
      replayed colours gain that assignment. */
  lemma AppendAssigned(g: Graph, steps: seq<Step>, st: Step)
    requires FirstFitChoices(g, steps, |steps|) && st.state.ColoringAssign?
    requires StillUncolored(ColorsSet(NodeIds(g), steps, |steps|), st.state.node)
    requires LeastFree(st.state.color, UsedAround(g, st.state.node, steps, |steps|))
    ensures FirstFitChoices(g, steps + [st], |steps| + 1)
    ensures ColorsSet(NodeIds(g), steps + [st], |steps| + 1)
              == ColorsSet(NodeIds(g), steps, |steps|)[st.state.node := st.state.color]
  {
    FirstFitPrefix(g, steps, [st], |steps|);
    ColorsPrefix(NodeIds(g), steps, [st], |steps|);
    assert (steps + [st])[|steps|] == st;
  }

  /** Around a node, the replayed colours the neighbours use are those `colors` gives its
      neighbour set, when `colors` is the replay. */
  lemma UsedAroundIs(g: Graph, adj: map<Id, set<Id>>, steps: seq<Step>, n: nat, colors: map<Id, int>, v: Id)
    requires IsAdjacency(g, adj) && v in NodeIds(g)
    requires n <= |steps| && ColorsSet(NodeIds(g), steps, n) == colors
    ensures UsedAround(g, v, steps, n) == NeighborColors(Nbrs(adj, v), colors)
  {
    NbrsAreContributed(g, adj, v);
  }

  /** `AppendAssigned` after a select step. */
  lemma AppendPairAssigned(g: Graph, steps: seq<Step>, sel: Step, asg: Step)
    requires FirstFitChoices(g, steps + [sel], |steps| + 1) && asg.state.ColoringAssign?
    requires StillUncolored(ColorsSet(NodeIds(g), steps + [sel], |steps| + 1), asg.state.node)
    requires LeastFree(asg.state.color, UsedAround(g, asg.state.node, steps + [sel], |steps| + 1))
    ensures FirstFitChoices(g, steps + [sel, asg], |steps| + 2)
    ensures ColorsSet(NodeIds(g), steps + [sel, asg], |steps| + 2)
              == ColorsSet(NodeIds(g), steps + [sel], |steps| + 1)[asg.state.node := asg.state.color]
  {
    AppendAssigned(g, steps + [sel], asg);
    assert steps + [sel] + [asg] == steps + [sel, asg];
  }

  /** For a node, the adjacency `BuildAdjacencyMap` returns holds exactly what its edges
      contribute. */
  lemma NbrsAreContributed(g: Graph, adj: map<Id, set<Id>>, v: Id)
    requires IsAdjacency(g, adj) && v in NodeIds(g)
    ensures Nbrs(adj, v) == Contributed(g.directed, g.edges, v)
  {
    forall u ensures u in Nbrs(adj, v) <==> u in Contributed(g.directed, g.edges, v) {
      ContributedIsAdjacent(g.directed, g.edges, v, u);
    }
  }

  /** A run that stops at the cap has the `failed` shape. */
  lemma FailedOutcome(g: Graph, maxColors: Option<int>, steps: seq<Step>,
                      colors: map<Id, int>, uncolored: seq<Id>, sel: Step, fail: Step)
    requires |g.nodes| > 0 && Capped(maxColors)
    requires forall v :: v in colors && colors[v] >= 0 ==> colors[v] < maxColors.value
    requires forall v :: v in colors && colors[v] >= 0 ==> v !in uncolored
    requires StepsSoFar(steps, NodeIds(g), colors, uncolored)
    requires sel.stepNumber == |steps| && sel.state.ColoringSelect? && sel.state.selectedNode in uncolored
    requires fail.stepNumber == |steps| + 1 && fail.state == ColoringFailed
    requires AllBelow(maxColors.value, UsedAround(g, sel.state.selectedNode, steps, |steps|))
    requires FirstFitChoices(g, steps + [sel, fail], |steps| + 2)
    ensures DsaturOutcome(g, maxColors, steps + [sel, fail])
  {
    var all := steps + [sel, fail];
    ColorsPrefix(NodeIds(g), steps, [sel, fail], |steps|);
    FailedShape(steps, NodeIds(g), colors, uncolored, sel, fail);
    FailedColors(steps, NodeIds(g), colors, uncolored, maxColors.value, sel, fail);
    assert all[0] == steps[0] && all[|all| - 1] == fail && all[|all| - 2] == sel;
  }

  /** The colours of a run that stops at the cap are below the cap, and none of its assignments
      is to the node selected last. */
  lemma FailedColors(steps: seq<Step>, ids: seq<Id>, colors: map<Id, int>, uncolored: seq<Id>, cap: int,
                     sel: Step, fail: Step)
    requires StepsSoFar(steps, ids, colors, uncolored)
    requires forall v :: v in colors && colors[v] >= 0 ==> colors[v] < cap
    requires forall v :: v in colors && colors[v] >= 0 ==> v !in uncolored
    requires sel.state.ColoringSelect? && sel.state.selectedNode in uncolored
    ensures var all := steps + [sel, fail];
            && |all| % 2 == 1 && |all| <= 2 * |ids| + 1
            && (forall j :: 1 <= j < |all| - 1 && j % 2 == 0 ==> all[j].state.color < cap)
            && (forall j :: 1 <= j < |all| - 2 && j % 2 == 0 ==> all[j].state.node != sel.state.selectedNode)
  {
    var all := steps + [sel, fail];
    assert |steps| % 2 == 1 && |uncolored| >= 1;
    forall j | 1 <= j < |all| - 1 && j % 2 == 0
      ensures all[j].state.color < cap
    {
      assert j < |steps| && all[j] == steps[j];
    }
    forall j | 1 <= j < |all| - 2 && j % 2 == 0
      ensures all[j].state.node != sel.state.selectedNode
    {
      assert all[j] == steps[j];
    }
  }

  /** The numbering and the select/assign alternation of a run that stops at the cap. */
  lemma FailedShape(steps: seq<Step>, ids: seq<Id>, colors: map<Id, int>, uncolored: seq<Id>, sel: Step, fail: Step)
    requires StepsSoFar(steps, ids, colors, uncolored)
    requires sel.stepNumber == |steps| && sel.state.ColoringSelect?
    requires fail.stepNumber == |steps| + 1 && fail.state == ColoringFailed
    ensures Numbered(steps + [sel, fail]) && Alternates(steps + [sel, fail])
  {
    var all := steps + [sel, fail];
    assert all[|all| - 2] == sel && all[|all| - 1] == fail;
    forall j | 0 <= j < |all| ensures all[j].stepNumber == j {
      if j < |steps| { assert all[j] == steps[j]; }
    }
    forall j | 1 <= j < |all| - 1
      ensures if j % 2 == 1 then all[j].state.ColoringSelect? else all[j].state.ColoringAssign?
    {
      if j < |steps| { assert all[j] == steps[j]; }
    }
    forall j | 1 <= j < |all| - 2 && j % 2 == 1
      ensures all[j].state.selectedNode == all[j + 1].state.node
    {
      assert all[j] == steps[j] && all[j + 1] == steps[j + 1];
    }
  }

  /** A run that colours every node has the `complete` shape. */
  lemma CompleteOutcome(g: Graph, adj: map<Id, set<Id>>, maxColors: Option<int>, steps: seq<Step>,
                        colors: map<Id, int>, uncolored: seq<Id>, saturation: map<Id, nat>, maxColorUsed: int,
                        final: Step)
    requires |g.nodes| > 0
    requires IsAdjacency(g, adj)
    requires ColoringState(g, adj, colors, uncolored, saturation, maxColorUsed, maxColors)
    requires StepsSoFar(steps, NodeIds(g), colors, uncolored)
    requires NonEmptyIds(g) ==> uncolored == []
    requires final.stepNumber == |steps| && final.state == ColoringComplete(maxColorUsed + 1, colors)
    requires FirstFitChoices(g, steps + [final], |steps| + 1)
    requires ColorsSet(NodeIds(g), steps + [final], |steps| + 1) == colors
    ensures DsaturOutcome(g, maxColors, steps + [final])
  {
    CompleteShape(steps, NodeIds(g), colors, uncolored, final);
    if NonEmptyIds(g) {
      CompleteColoring(g, adj, maxColors, colors, saturation, maxColorUsed);
    }
    CompleteTrace(g, maxColors, steps, final);
  }

  /** The conditions `DsaturOutcome` puts on a trace that ends in `complete`. */
  lemma CompleteTrace(g: Graph, maxColors: Option<int>, steps: seq<Step>, final: Step)
    requires |g.nodes| > 0 && |steps| >= 1 && final.state.ColoringComplete?
    requires Numbered(steps + [final]) && Alternates(steps + [final])
    requires (steps + [final])[0].state == ColoringInit(InitialColors(NodeIds(g)), InitialSaturation(NodeIds(g)))
    requires forall j :: 1 <= j < |steps| && j % 2 == 0 && Capped(maxColors) ==>
               (steps + [final])[j].state.color < maxColors.value
    requires FirstFitChoices(g, steps + [final], |steps| + 1)
    requires ColorsSet(NodeIds(g), steps + [final], |steps| + 1) == final.state.colors
    requires NonEmptyIds(g) ==>
               && |steps| + 1 == 2 * |NodeIds(g)| + 2
               && FullColoring(g, maxColors, final.state.colors, final.state.colorsUsed)
               && (forall j :: 1 <= j < |steps| && j % 2 == 0 ==>
                     (steps + [final])[j].state.node in final.state.colors
                     && final.state.colors[(steps + [final])[j].state.node] == (steps + [final])[j].state.color)
    ensures DsaturOutcome(g, maxColors, steps + [final])
  {
    assert (steps + [final])[|steps|] == final;
  }

  /** The `complete` step closes the alternation of select and assign steps. */
  lemma CompleteShape(steps: seq<Step>, ids: seq<Id>, colors: map<Id, int>, uncolored: seq<Id>, final: Step)
    requires StepsSoFar(steps, ids, colors, uncolored)
    requires final.stepNumber == |steps| && final.state.ColoringComplete?
    ensures Numbered(steps + [final]) && Alternates(steps + [final])
    ensures (steps + [final])[0] == steps[0]
    ensures forall j :: 1 <= j < |steps| && j % 2 == 0 ==>
              (steps + [final])[j].state.node in colors
              && colors[(steps + [final])[j].state.node] == (steps + [final])[j].state.color
  {
    var all := steps + [final];
    AppendNumbered(steps, final);
    forall j | 1 <= j < |all| - 1
      ensures if j % 2 == 1 then all[j].state.ColoringSelect? else all[j].state.ColoringAssign?
    {
      assert all[j] == steps[j];
    }
    forall j | 1 <= j < |all| - 2 && j % 2 == 1
      ensures all[j].state.selectedNode == all[j + 1].state.node
    {
      assert all[j] == steps[j] && all[j + 1] == steps[j + 1];
    }
    forall j | 1 <= j < |steps| && j % 2 == 0
      ensures all[j].state.node in colors && colors[all[j].state.node] == all[j].state.color
    {
      assert all[j] == steps[j];
    }
  }

  /** With no node left uncoloured, the colouring is a full, proper colouring below
      `maxColorUsed + 1`. */
  lemma CompleteColoring(g: Graph, adj: map<Id, set<Id>>, maxColors: Option<int>, colors: map<Id, int>,
                         saturation: map<Id, nat>, maxColorUsed: int)
    requires |g.nodes| > 0 && NonEmptyIds(g)
    requires IsAdjacency(g, adj)
    requires ColoringState(g, adj, colors, [], saturation, maxColorUsed, maxColors)
    ensures FullColoring(g, maxColors, colors, maxColorUsed + 1)
  {
    var ids := NodeIds(g);
    assert ids[0] in colors;
    if !g.directed {
      ProperOnEdges(g, adj, colors);
    }
  }

  /** The state before the first iteration satisfies the loop invariants. */
  lemma InitialState(g: Graph, adj: map<Id, set<Id>>, maxColors: Option<int>, saturation: map<Id, nat>, init: Step)
    requires IsAdjacency(g, adj)
    requires saturation == map v | v in NodeIds(g) :: 0
    requires init == Step(0, [], [], map[], map[],
                          ColoringInit(InitialColors(NodeIds(g)), InitialSaturation(NodeIds(g))))
    ensures ColoringState(g, adj, InitialColors(NodeIds(g)), NodeIds(g), saturation, -1, maxColors)
    ensures StepsSoFar([init], NodeIds(g), InitialColors(NodeIds(g)), NodeIds(g))
    ensures FirstFitChoices(g, [init], 1) && ColorsSet(NodeIds(g), [init], 1) == InitialColors(NodeIds(g))
  {
    InitialColoring(g, adj, maxColors, saturation);
    assert FirstFitChoices(g, [init], 0);
  }

  /** Before the first iteration no node is coloured and every saturation is 0. */
  lemma InitialColoring(g: Graph, adj: map<Id, set<Id>>, maxColors: Option<int>, saturation: map<Id, nat>)
    requires IsAdjacency(g, adj)
    requires saturation == map v | v in NodeIds(g) :: 0
    ensures ColoringState(g, adj, InitialColors(NodeIds(g)), NodeIds(g), saturation, -1, maxColors)
  {
    var ids, colors := NodeIds(g), InitialColors(NodeIds(g));
    if !g.directed {
      forall v | v in ids ensures |NeighborColors(Nbrs(adj, v), colors)| == 0 {
        assert NeighborColors(Nbrs(adj, v), colors) == {};
      }
    }
  }

  /** A node with an empty id exists only when some node's id is empty. */
  lemma EmptyIdSelected(g: Graph, uncolored: seq<Id>, best: Id)
    requires forall v :: v in uncolored ==> v in NodeIds(g)
    requires best in uncolored && best == ""
    ensures !NonEmptyIds(g)
  {
  }

  /** The DSATUR engine: the steps it emits have the shape `DsaturOutcome` describes. */
  method Run(g: Graph, params: AlgorithmParams) returns (steps: seq<Step>)
    ensures DsaturOutcome(g, params.maxColors, steps)
  {
    steps := [];
    if |g.nodes| == 0 {
      return;
    }
    var ids := NodeIds(g);
    var adj := BuildAdjacencyMap(g);
    var colors := InitialColors(ids);
    var saturation: map<Id, nat> := map v | v in ids :: 0;
    var degrees: map<Id, nat> := map v | v in ids :: |Nbrs(adj, v)|;
    var uncolored := ids;
    var maxColorUsed := -1;
    var init := Step(0, [], [], map[], map[], ColoringInit(colors, InitialSaturation(ids)));
    InitialState(g, adj, params.maxColors, saturation, init);
    steps := [init];

    while |uncolored| > 0
      invariant ColoringState(g, adj, colors, uncolored, saturation, maxColorUsed, params.maxColors)
      invariant StepsSoFar(steps, ids, colors, uncolored)
      invariant FirstFitChoices(g, steps, |steps|) && ColorsSet(ids, steps, |steps|) == colors
      decreases |uncolored|
    {
      var k := SelectNode(uncolored, saturation, degrees);
      var best := uncolored[k];
      if best == "" {
        EmptyIdSelected(g, uncolored, best);
        break;
      }
      var selectStyles := BuildCurrentStyles(colors, Some(best));
      var sel := Step(|steps|, [best], [], selectStyles, map[],
                      ColoringSelect(best, Lookup(saturation, best), Lookup(degrees, best)));

      var failed;
      colors, uncolored, saturation, maxColorUsed, steps, failed :=
        ColorSelected(g, adj, params.maxColors, steps, colors, uncolored, saturation, maxColorUsed, sel, best);
      if failed {
        return;
      }
    }

    var finalStyles := BuildCurrentStyles(colors, None);
    var final := Step(|steps|, [], [], finalStyles, map[], ColoringComplete(maxColorUsed + 1, colors));
    AppendUnassigned(g, steps, final);
    CompleteOutcome(g, adj, params.maxColors, steps, colors, uncolored, saturation, maxColorUsed, final);
    steps := steps + [final];
  }

  /** The first-fit colour of the selected node `best`: at or above the cap the run fails,
      otherwise the node takes it. */
  method ColorSelected(g: Graph, adj: map<Id, set<Id>>, maxColors: Option<int>, steps: seq<Step>,
                       colors: map<Id, int>, uncolored: seq<Id>, saturation: map<Id, nat>, maxColorUsed: int,
                       sel: Step, best: Id)
    returns (colors': map<Id, int>, uncolored': seq<Id>, saturation': map<Id, nat>, maxColorUsed': int,
             steps': seq<Step>, failed: bool)
    requires |g.nodes| > 0 && IsAdjacency(g, adj)
    requires ColoringState(g, adj, colors, uncolored, saturation, maxColorUsed, maxColors)
    requires StepsSoFar(steps, NodeIds(g), colors, uncolored)
    requires FirstFitChoices(g, steps, |steps|) && ColorsSet(NodeIds(g), steps, |steps|) == colors
    requires sel.stepNumber == |steps| && sel.state.ColoringSelect? && sel.state.selectedNode == best
    requires best in uncolored
    ensures failed ==> DsaturOutcome(g, maxColors, steps')
    ensures !failed ==>
              && ColoringState(g, adj, colors', uncolored', saturation', maxColorUsed', maxColors)
              && StepsSoFar(steps', NodeIds(g), colors', uncolored')
              && FirstFitChoices(g, steps', |steps'|) && ColorsSet(NodeIds(g), steps', |steps'|) == colors'
              && |uncolored'| < |uncolored|
  {
    var used := CollectNeighborColors(Nbrs(adj, best), colors);
    var c := FirstFit(used);
    if Capped(maxColors) && c >= maxColors.value {
      steps' := FailPhase(g, adj, maxColors, steps, colors, uncolored, sel, best, used);
      colors', uncolored', saturation', maxColorUsed', failed := colors, uncolored, saturation, maxColorUsed, true;
      return;
    }
    colors', uncolored', saturation', maxColorUsed', steps' :=
      AssignPhase(g, adj, maxColors, steps, colors, uncolored, saturation, maxColorUsed, sel, best, used, c);
    failed := false;
  }

  /** The selected node cannot be coloured below the cap: emit `failed` and stop. */
  method FailPhase(g: Graph, adj: map<Id, set<Id>>, maxColors: Option<int>, steps: seq<Step>,
                   colors: map<Id, int>, uncolored: seq<Id>, sel: Step, best: Id, used: set<int>)
    returns (steps': seq<Step>)
    requires |g.nodes| > 0 && Capped(maxColors) && IsAdjacency(g, adj)
    requires forall v :: v in colors && colors[v] >= 0 ==> colors[v] < maxColors.value
    requires forall v :: v in colors && colors[v] >= 0 ==> v !in uncolored
    requires StepsSoFar(steps, NodeIds(g), colors, uncolored)
    requires sel.stepNumber == |steps| && sel.state.ColoringSelect? && sel.state.selectedNode == best
    requires best in uncolored && best in NodeIds(g)
    requires used == NeighborColors(Nbrs(adj, best), colors)
    requires forall k :: 0 <= k < maxColors.value ==> k in used
    requires FirstFitChoices(g, steps, |steps|) && ColorsSet(NodeIds(g), steps, |steps|) == colors
    ensures DsaturOutcome(g, maxColors, steps')
  {
    AppendUnassigned(g, steps, sel);
    UsedAroundIs(g, adj, steps, |steps|, colors, best);
    var failStyles := BuildCurrentStyles(colors, Some(best));
    var fail := Step(|steps| + 1, [best], [], failStyles, map[], ColoringFailed);
    AppendUnassigned(g, steps + [sel], fail);
    assert steps + [sel] + [fail] == steps + [sel, fail];
    FailedOutcome(g, maxColors, steps, colors, uncolored, sel, fail);
    steps' := steps + [sel, fail];
  }

  /** The selected node gets its first-fit colour `c`, below the cap: colour it and emit the
      select and assign steps. */
  method AssignPhase(g: Graph, adj: map<Id, set<Id>>, maxColors: Option<int>, steps: seq<Step>,
                     colors: map<Id, int>, uncolored: seq<Id>, saturation: map<Id, nat>, maxColorUsed: int,
                     sel: Step, best: Id, used: set<int>, c: nat)
    returns (colors': map<Id, int>, uncolored': seq<Id>, saturation': map<Id, nat>, maxColorUsed': int,
             steps': seq<Step>)
    requires IsAdjacency(g, adj)
    requires ColoringState(g, adj, colors, uncolored, saturation, maxColorUsed, maxColors)
    requires StepsSoFar(steps, NodeIds(g), colors, uncolored)
    requires sel.stepNumber == |steps| && sel.state.ColoringSelect? && sel.state.selectedNode == best
    requires best in uncolored
    requires FirstFitChoices(g, steps, |steps|) && ColorsSet(NodeIds(g), steps, |steps|) == colors
    requires used == NeighborColors(Nbrs(adj, best), colors)
    requires c !in used && forall k :: 0 <= k < c ==> k in used
    requires Capped(maxColors) ==> c < maxColors.value
    ensures ColoringState(g, adj, colors', uncolored', saturation', maxColorUsed', maxColors)
    ensures StepsSoFar(steps', NodeIds(g), colors', uncolored')
    ensures FirstFitChoices(g, steps', |steps'|) && ColorsSet(NodeIds(g), steps', |steps'|) == colors'
    ensures |uncolored'| < |uncolored|
  {
    AppendUnassigned(g, steps, sel);
    UsedAroundIs(g, adj, steps + [sel], |steps| + 1, colors, best);
    var asg;
    colors', uncolored', saturation', maxColorUsed', asg :=
      AssignStep(g, adj, maxColors, steps, colors, uncolored, saturation, maxColorUsed, sel, c);
    AppendPairAssigned(g, steps, sel, asg);
    steps' := steps + [sel, asg];
  }

  /** The assignment block and the assign step it emits. */
  method AssignStep(g: Graph, adj: map<Id, set<Id>>, maxColors: Option<int>, steps: seq<Step>,
                    colors: map<Id, int>, uncolored: seq<Id>, saturation: map<Id, nat>, maxColorUsed: int,
                    sel: Step, c: nat)
    returns (colors': map<Id, int>, uncolored': seq<Id>, saturation': map<Id, nat>, maxColorUsed': int,
             asg: Step)
    requires IsAdjacency(g, adj)
    requires ColoringState(g, adj, colors, uncolored, saturation, maxColorUsed, maxColors)
    requires StepsSoFar(steps, NodeIds(g), colors, uncolored)
    requires sel.stepNumber == |steps| && sel.state.ColoringSelect? && sel.state.selectedNode in uncolored
    requires c !in NeighborColors(Nbrs(adj, sel.state.selectedNode), colors)
    requires Capped(maxColors) ==> c < maxColors.value
    ensures ColoringState(g, adj, colors', uncolored', saturation', maxColorUsed', maxColors)
    ensures StepsSoFar(steps + [sel, asg], NodeIds(g), colors', uncolored')
    ensures asg.state == ColoringAssign(sel.state.selectedNode, c, maxColorUsed' + 1, |uncolored'|)
    ensures colors' == colors[sel.state.selectedNode := c] && |uncolored'| < |uncolored|
  {
    var best := sel.state.selectedNode;
    colors', uncolored', saturation', maxColorUsed' :=
      AssignColor(g, adj, colors, uncolored, saturation, maxColorUsed, maxColors, best, c);
    var assignStyles := BuildCurrentStyles(colors', None);
    asg := Step(|steps| + 1, [best], [], assignStyles, map[],
                ColoringAssign(best, c, maxColorUsed' + 1, |uncolored'|));
    AppendPair(steps, NodeIds(g), colors, uncolored, sel, asg, colors', uncolored');
  }

  /** `execute`: drain the run; success unless the last step is `failed` (an empty run, on a
      graph without nodes, counts as a success); the final state is the last step's, absent when
      there are no steps. A success on a graph with nodes ends in a complete colouring. */
  method Execute(g: Graph, params: AlgorithmParams) returns (r: AlgorithmResult)
    ensures DsaturOutcome(g, params.maxColors, r.steps)
    ensures r.finalState == LastState(r.steps)
    ensures r.success <==> r.steps == [] || r.steps[|r.steps| - 1].state.Phase() != Failed
    ensures r.success <==> |g.nodes| == 0 || r.steps[|r.steps| - 1].state.ColoringComplete?
    ensures r.success && NonEmptyIds(g) && |g.nodes| > 0 ==>
              var last := r.steps[|r.steps| - 1].state;
              FullColoring(g, params.maxColors, last.colors, last.colorsUsed)
  {
    var steps := Run(g, params);
    var success := steps == [] || steps[|steps| - 1].state.Phase() != Failed;
    r := AlgorithmResult(success, steps, LastState(steps));
  }
}
