/** The step model every engine emits, the parameters it reads and the result summary. */
module AlgorithmTypes {
  import opened Common

  datatype Phase = Init | Select | Assign | Relax | Explore | Complete | Failed

  /** The style overrides the engines write. The colouring engine's carry a palette colour and
      the amber "selected" border; the pathfinding engines use a fixed set of categories, one per
      colour triple they write (start, end, current, visited, open, path). */
  datatype NodeStyle =
    | ColorStyle(background: Option<string>, highlighted: bool)
    | StartStyle | EndStyle | CurrentStyle | VisitedStyle | OpenStyle
    | PathStyle | PathStartStyle | PathEndStyle

  datatype EdgeStyle = RelaxedEdge | ExploredEdge | PathEdge

  /** The per-step `state` bag, one variant per engine and phase. */
  datatype StepState =
    | ColoringInit(colors: map<Id, int>, saturationMap: map<Id, int>)
    | ColoringSelect(selectedNode: Id, saturation: int, degree: int)
    | ColoringAssign(node: Id, color: int, colorsUsed: int, remaining: int)
    | ColoringFailed
    | ColoringComplete(colorsUsed: int, colors: map<Id, int>)
    | DijkstraInit(distances: map<Id, Ext>)
    | DijkstraSelect(currentNode: Id, currentDistance: int, distances: map<Id, Ext>)
    | DijkstraRelax(currentNode: Id, relaxedCount: nat, distances: map<Id, Ext>)
    | AStarInit(openSetSize: nat, closedSetSize: nat)
    | AStarSelect(currentNode: Id, g: int, h: real, f: real, openSetSize: nat, closedSetSize: nat)
    | AStarExplore(currentNode: Id, neighborsExplored: nat, openSetSize: nat, closedSetSize: nat)
    | NotFound
    | Found(distance: int, pathLength: nat, path: seq<Id>, nodesVisited: nat)
  {
    /** The `phase` entry of the bag. */
    function Phase(): Phase {
      match this
      case ColoringInit(_, _) => Init
      case DijkstraInit(_) => Init
      case AStarInit(_, _) => Init
      case ColoringSelect(_, _, _) => Select
      case DijkstraSelect(_, _, _) => Select
      case AStarSelect(_, _, _, _, _, _) => Select
      case ColoringAssign(_, _, _, _) => Assign
      case DijkstraRelax(_, _, _) => Relax
      case AStarExplore(_, _, _, _) => Explore
      case ColoringFailed => Failed
      case ColoringComplete(_, _) => Complete
      case NotFound => Complete
      case Found(_, _, _, _) => Complete
    }
  }

  /** One replayable snapshot; the narration text is left out. */
  datatype Step = Step(
    stepNumber: nat,
    highlightNodes: seq<Id>,
    highlightEdges: seq<Id>,
    nodeStyles: map<Id, NodeStyle>,
    edgeStyles: map<Id, EdgeStyle>,
    state: StepState)

  /** The meaningful entries of the parameter bag. */
  datatype AlgorithmParams = AlgorithmParams(startNode: Option<Id>, endNode: Option<Id>, maxColors: Option<int>)

  /** JavaScript truthiness of an optional id: present and not the empty string. */
  predicate Truthy(id: Option<Id>) {
    id.Some? && id.value != ""
  }

  /** `finalState` is the last step's state, or the empty bag (None) when there is no step. */
  datatype AlgorithmResult = AlgorithmResult(success: bool, steps: seq<Step>, finalState: Option<StepState>)

  datatype AlgorithmCategory = Coloring | Pathfinding | Traversal | Mst

  /** Step numbers count 0, 1, 2, ... in emission order. */
  ghost predicate Numbered(steps: seq<Step>) {
    forall i :: 0 <= i < |steps| ==> steps[i].stepNumber == i
  }

  /** The nodes the pathfinding engines' select steps name, in emission order. */
  function SelectedNodes(steps: seq<Step>): (r: seq<Id>)
    ensures |r| <= |steps|
  {
    if steps == [] then []
    else
      var s := steps[|steps| - 1].state;
      SelectedNodes(steps[..|steps| - 1])
        + (if s.DijkstraSelect? || s.AStarSelect? then [s.currentNode] else [])
  }

  /** The selected nodes are exactly the nodes some select step names; `AppendSelected` gives
      their order, one step at a time. */
  lemma {:induction false} SelectedNodesAre(steps: seq<Step>)
    ensures forall x :: x in SelectedNodes(steps) <==>
              exists j :: 0 <= j < |steps| && (steps[j].state.DijkstraSelect? || steps[j].state.AStarSelect?)
                          && steps[j].state.currentNode == x
  {
    if steps != [] {
      var front := steps[..|steps| - 1];
      SelectedNodesAre(front);
      forall j | 0 <= j < |front|
        ensures front[j] == steps[j]
      {
      }
    }
  }

  /** The state of the last step, or None for an empty run. */
  function LastState(steps: seq<Step>): (s: Option<StepState>)
    ensures s.None? <==> steps == []
    ensures steps != [] ==> s.value == steps[|steps| - 1].state
  {
    if steps == [] then None else Some(steps[|steps| - 1].state)
  }

  /** Appending a step keeps the numbering and the earlier steps. */
  lemma AppendNumbered(steps: seq<Step>, st: Step)
    requires Numbered(steps) && st.stepNumber == |steps|
    ensures Numbered(steps + [st])
    ensures (steps + [st])[..|steps|] == steps
  {
    var all := steps + [st];
    forall i | 0 <= i < |all| ensures all[i].stepNumber == i {
      if i < |steps| { assert all[i] == steps[i]; }
    }
  }

  /** The selected nodes after one more step. */
  lemma AppendSelected(steps: seq<Step>, st: Step)
    ensures st.state.DijkstraSelect? || st.state.AStarSelect? ==>
              SelectedNodes(steps + [st]) == SelectedNodes(steps) + [st.state.currentNode]
    ensures !st.state.DijkstraSelect? && !st.state.AStarSelect? ==> SelectedNodes(steps + [st]) == SelectedNodes(steps)
  {
    assert (steps + [st])[..|steps|] == steps;
  }
}
