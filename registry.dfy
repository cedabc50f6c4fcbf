/** The algorithm registry: the three runners in a fixed order, lookups by category and by id,
    and the category listing the picker shows. */
module Registry {
  import opened Common
  import opened GraphTypes
  import opened AlgorithmTypes
  import Dsatur
  import Dijkstra
  import AStar

  /** Which engine a runner's `run` and `execute` dispatch to. */
  datatype Engine = DsaturEngine | DijkstraEngine | AStarEngine

  /** A registered runner; its description and complexity strings are left out. */
  datatype AlgorithmRunner = AlgorithmRunner(id: string, name: string, category: AlgorithmCategory, engine: Engine)

  const DsaturRunner := AlgorithmRunner("dsatur", "DSATUR", Coloring, DsaturEngine)
  const DijkstraRunner := AlgorithmRunner("dijkstra", "Dijkstra's", Pathfinding, DijkstraEngine)
  const AStarRunner := AlgorithmRunner("astar", "A*", Pathfinding, AStarEngine)

  /** The registry, in registration order. */
  const Algorithms: seq<AlgorithmRunner> := [DsaturRunner, DijkstraRunner, AStarRunner]

  /** The runners of `rs` whose category is `c`, in the order of `rs`: `Array.filter`. */
  function FilterByCategory(rs: seq<AlgorithmRunner>, c: AlgorithmCategory): (r: seq<AlgorithmRunner>)
    ensures forall a :: a in r <==> a in rs && a.category == c
    ensures |r| <= |rs|
  {
    if rs == [] then []
    else
      var rest := FilterByCategory(rs[1..], c);
      assert forall a :: a in rs <==> a == rs[0] || a in rs[1..];
      if rs[0].category == c then [rs[0]] + rest else rest
  }

  /** Filtering distributes over concatenation: the kept runners keep their relative order. */
  lemma {:induction false} FilterAppend(a: seq<AlgorithmRunner>, b: seq<AlgorithmRunner>, c: AlgorithmCategory)
    ensures FilterByCategory(a + b, c) == FilterByCategory(a, c) + FilterByCategory(b, c)
  {
    if a != [] {
      assert (a + b)[1..] == a[1..] + b;
      FilterAppend(a[1..], b, c);
    } else {
      assert a + b == b;
    }
  }

  function GetAlgorithmsByCategory(c: AlgorithmCategory): (r: seq<AlgorithmRunner>)
    ensures forall a :: a in r <==> a in Algorithms && a.category == c
  {
    FilterByCategory(Algorithms, c)
  }

  /** With the current registry: one colouring runner, Dijkstra before A* for pathfinding, and
      nothing for the two categories no runner implements. */
  lemma RegistryByCategory()
    ensures GetAlgorithmsByCategory(Coloring) == [DsaturRunner]
    ensures GetAlgorithmsByCategory(Pathfinding) == [DijkstraRunner, AStarRunner]
    ensures GetAlgorithmsByCategory(Traversal) == []
    ensures GetAlgorithmsByCategory(Mst) == []
  {
    assert Algorithms == [DsaturRunner] + ([DijkstraRunner] + [AStarRunner]);
    forall c: AlgorithmCategory
      ensures FilterByCategory(Algorithms, c)
                == FilterOne(DsaturRunner, c) + (FilterOne(DijkstraRunner, c) + FilterOne(AStarRunner, c))
    {
      FilterAppend([DsaturRunner], [DijkstraRunner] + [AStarRunner], c);
      FilterAppend([DijkstraRunner], [AStarRunner], c);
      FilterSingle(DsaturRunner, c);
      FilterSingle(DijkstraRunner, c);
      FilterSingle(AStarRunner, c);
    }
  }

  /** The runner alone when it has category `c`, nothing otherwise. */
  function FilterOne(a: AlgorithmRunner, c: AlgorithmCategory): seq<AlgorithmRunner> {
    if a.category == c then [a] else []
  }

  lemma FilterSingle(a: AlgorithmRunner, c: AlgorithmCategory)
    ensures FilterByCategory([a], c) == FilterOne(a, c)
  {
    assert [a][1..] == [];
  }

  /** The first runner of `rs` with id `id`: `Array.find`. */
  function FindById(rs: seq<AlgorithmRunner>, id: string): (r: Option<AlgorithmRunner>)
    ensures r.None? <==> forall i :: 0 <= i < |rs| ==> rs[i].id != id
    ensures r.Some? ==> exists i :: 0 <= i < |rs| && rs[i] == r.value && r.value.id == id
                                    && forall j :: 0 <= j < i ==> rs[j].id != id
  {
    if rs == [] then None
    else if rs[0].id == id then Some(rs[0])
    else
      var rest := FindById(rs[1..], id);
      assert forall i :: 1 <= i < |rs| ==> rs[i] == rs[1..][i - 1];
      rest
  }

  /** `undefined` for an unknown id. */
  function GetAlgorithmById(id: string): (r: Option<AlgorithmRunner>)
    ensures r.None? <==> forall a :: a in Algorithms ==> a.id != id
    ensures r.Some? ==> r.value in Algorithms && r.value.id == id
  {
    FindById(Algorithms, id)
  }

  /** The ids are distinct, so each registered runner is found by its own id. */
  lemma {:induction false} FoundByOwnId(a: AlgorithmRunner)
    requires a in Algorithms
    ensures GetAlgorithmById(a.id) == Some(a)
  {
    var r := GetAlgorithmById(a.id);
    var i :| 0 <= i < |Algorithms| && Algorithms[i] == r.value && r.value.id == a.id;
    assert Algorithms[0].id == "dsatur" && Algorithms[1].id == "dijkstra" && Algorithms[2].id == "astar";
    assert "dsatur" != "dijkstra" && "dsatur" != "astar" && "dijkstra" != "astar";
  }

  /** The display name of a category. */
  function CategoryName(c: AlgorithmCategory): string {
    match c
    case Coloring => "Graph Coloring"
    case Pathfinding => "Pathfinding"
    case Traversal => "Traversal"
    case Mst => "Minimum Spanning Tree"
  }

  datatype CategoryEntry = CategoryEntry(category: AlgorithmCategory, name: string, algorithms: seq<AlgorithmRunner>)

  /** The fixed order the picker lists categories in. */
  const CategoryOrder: seq<AlgorithmCategory> := [Coloring, Pathfinding, Traversal, Mst]

  /** One entry per category of `cats` that has a runner in `rs`, in the order of `cats`. */
  function Entries(rs: seq<AlgorithmRunner>, cats: seq<AlgorithmCategory>): (r: seq<CategoryEntry>)
    ensures |r| <= |cats|
    ensures forall e :: e in r ==>
              && e.category in cats && e.algorithms == FilterByCategory(rs, e.category)
              && e.name == CategoryName(e.category) && e.algorithms != []
    ensures forall c :: c in cats && FilterByCategory(rs, c) != [] ==>
              CategoryEntry(c, CategoryName(c), FilterByCategory(rs, c)) in r
  {
    if cats == [] then []
    else
      var rest := Entries(rs, cats[1..]);
      assert forall c :: c in cats <==> c == cats[0] || c in cats[1..];
      assert forall e :: e in EntryFor(rs, cats[0]) + rest <==> e in EntryFor(rs, cats[0]) || e in rest;
      EntryFor(rs, cats[0]) + rest
  }

  /** The entry of one category: none when no runner of `rs` has that category. */
  function EntryFor(rs: seq<AlgorithmRunner>, c: AlgorithmCategory): (r: seq<CategoryEntry>)
    ensures |r| <= 1
    ensures r != [] <==> FilterByCategory(rs, c) != []
    ensures r != [] ==> r[0] == CategoryEntry(c, CategoryName(c), FilterByCategory(rs, c))
  {
    var algorithms := FilterByCategory(rs, c);
    if algorithms != [] then [CategoryEntry(c, CategoryName(c), algorithms)] else []
  }

  /** Listing distributes over concatenation: the entries of `a + b` are those of `a`, in
      order, followed by those of `b`. */
  lemma {:induction false} EntriesAppend(rs: seq<AlgorithmRunner>, a: seq<AlgorithmCategory>, b: seq<AlgorithmCategory>)
    ensures Entries(rs, a + b) == Entries(rs, a) + Entries(rs, b)
  {
    if a != [] {
      assert (a + b)[0] == a[0] && (a + b)[1..] == a[1..] + b;
      EntriesAppend(rs, a[1..], b);
    } else {
      assert a + b == b;
    }
  }

  /** A single category lists as its own entry, or as nothing when it has no runner; with
      `EntriesAppend`, the listing is one entry per category that has a runner, in the order of
      `cats`. */
  lemma EntriesSingle(rs: seq<AlgorithmRunner>, c: AlgorithmCategory)
    ensures Entries(rs, [c]) == EntryFor(rs, c)
  {
    assert [c][1..] == [];
  }

  /** `getCategories`: every category in the fixed order, with its runners, empty ones dropped. */
  function GetCategories(): (r: seq<CategoryEntry>)
    ensures forall e :: e in r ==> e.algorithms == GetAlgorithmsByCategory(e.category) && e.algorithms != []
    ensures forall c :: GetAlgorithmsByCategory(c) != [] ==> exists e :: e in r && e.category == c
  {
    EveryCategoryListed();
    Entries(Algorithms, CategoryOrder)
  }

  lemma EveryCategoryListed()
    ensures forall c: AlgorithmCategory :: c in CategoryOrder
  {
    forall c: AlgorithmCategory ensures c in CategoryOrder {
      match c
      case Coloring => assert CategoryOrder[0] == c;
      case Pathfinding => assert CategoryOrder[1] == c;
      case Traversal => assert CategoryOrder[2] == c;
      case Mst => assert CategoryOrder[3] == c;
    }
  }

  /** With the current registry the listing is colouring (DSATUR) then pathfinding (Dijkstra,
      A*); traversal and minimum spanning tree have no runner and are dropped. */
  lemma CurrentCategories()
    ensures GetCategories() == [CategoryEntry(Coloring, "Graph Coloring", [DsaturRunner]),
                                CategoryEntry(Pathfinding, "Pathfinding", [DijkstraRunner, AStarRunner])]
  {
    RegistryByCategory();
    var rs := Algorithms;
    assert CategoryOrder == [Coloring] + ([Pathfinding] + ([Traversal] + [Mst]));
    EntriesAppend(rs, [Coloring], [Pathfinding] + ([Traversal] + [Mst]));
    EntriesAppend(rs, [Pathfinding], [Traversal] + [Mst]);
    EntriesAppend(rs, [Traversal], [Mst]);
    EntriesSingle(rs, Coloring);
    EntriesSingle(rs, Pathfinding);
    EntriesSingle(rs, Traversal);
    EntriesSingle(rs, Mst);
  }

  /** A runner's `run` produces no step at all: for the colouring engine exactly when the graph
      has no node; for the pathfinding engines also when an endpoint is missing or empty. */
  predicate NoSteps(runner: AlgorithmRunner, g: Graph, params: AlgorithmParams) {
    match runner.engine
    case DsaturEngine => |g.nodes| == 0
    case DijkstraEngine => !Truthy(params.startNode) || !Truthy(params.endNode) || |g.nodes| == 0
    case AStarEngine => !Truthy(params.startNode) || !Truthy(params.endNode) || |g.nodes| == 0
  }

  /** `steps` is what the runner's engine emits for `g` and `params`. */
  ghost predicate Produced(runner: AlgorithmRunner, g: Graph, params: AlgorithmParams, sqrt: real -> real, steps: seq<Step>) {
    match runner.engine
    case DsaturEngine => Dsatur.DsaturOutcome(g, params.maxColors, steps)
    case DijkstraEngine => Dijkstra.DijkstraOutcome(g, params, steps)
    case AStarEngine => AStar.AStarOutcome(g, params, sqrt, steps)
  }

  /** Drains `runner.run(graph, params)`: the steps of the runner's engine, in emission order. */
  method Generate(runner: AlgorithmRunner, g: Graph, params: AlgorithmParams, sqrt: real -> real)
    returns (steps: seq<Step>)
    ensures Produced(runner, g, params, sqrt, steps)
    ensures steps == [] <==> NoSteps(runner, g, params)
  {
    match runner.engine
    case DsaturEngine =>
      steps := Dsatur.Run(g, params);
    case DijkstraEngine =>
      steps := Dijkstra.Run(g, params);
    case AStarEngine =>
      steps := AStar.Run(g, params, sqrt);
      AStar.OutcomeReports(g, params, sqrt, steps);
  }

  /** Drains a run's generator: `while (!r.done) { list.push(r.value); r = gen.next() }`; the
      list holds the runner's steps in emission order. */
  method Drain(runner: AlgorithmRunner, g: Graph, params: AlgorithmParams, sqrt: real -> real)
    returns (steps: seq<Step>)
    ensures Produced(runner, g, params, sqrt, steps)
    ensures steps == [] <==> NoSteps(runner, g, params)
  {
    var generated := Generate(runner, g, params, sqrt);
    steps := [];
    var i := 0;
    while i < |generated|
      invariant 0 <= i <= |generated|
      invariant steps == generated[..i]
    {
      steps := steps + [generated[i]];
      i := i + 1;
    }
    assert steps == generated;
  }
}
