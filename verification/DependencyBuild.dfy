/** Building the dependency graph of a program body. */
module DependencyBuild {
  import opened Wrappers
  import opened Sequences
  import opened DependencyGraphs
  import opened DependencyNodes
  import opened DependencyVisits
  import opened ChainLatencies
  import opened CriticalPathSearch

  type EdgeMap = OrderedMap<Id, seq<Id>>

  datatype DependencyGraph = DependencyGraph(
    nodes: NodeMap, edges: EdgeMap, levels: map<nat, seq<Id>>, criticalPath: seq<Id>, totalLatency: real)

  // --------------------------------------------------- what a body declares

  /** The statement that counts for each id: the last one, in the place of the first. */
  function Declared(body: seq<Statement>): OrderedMap<Id, Statement> {
    if body == [] then OrderedMap([], map[])
    else Put(Declared(body[..|body| - 1]), body[|body| - 1].id, body[|body| - 1])
  }

  lemma {:induction false} DeclaredFromBody(body: seq<Statement>)
    ensures Declared(body).Valid()
    ensures forall id | id in Declared(body).at :: Declared(body).at[id].id == id && Declared(body).at[id] in body
    ensures forall s | s in body :: s.id in Declared(body).at
  {
    if body != [] {
      DeclaredFromBody(body[..|body| - 1]);
    }
  }

  lemma DeclaredMore(init: seq<Statement>, s: Statement)
    ensures Declared(init + [s]) == Put(Declared(init), s.id, s)
  {
    assert (init + [s])[..|init|] == init;
  }

  /** The last statement with an id counts. */
  lemma {:induction false} LastStatementCounts(body: seq<Statement>, i: nat)
    requires i < |body| && forall j | i < j < |body| :: body[j].id != body[i].id
    ensures body[i].id in Declared(body).at && Declared(body).at[body[i].id] == body[i]
  {
    var init, last := body[..|body| - 1], body[|body| - 1];
    DeclaredMore(init, last);
    assert body == init + [last];
    if i < |init| {
      assert last.id != body[i].id;
      LastStatementCounts(init, i);
    }
  }

  /** It takes the place of the first: the order is that of first occurrences. */
  lemma {:induction false} FirstOccurrenceOrders(body: seq<Statement>, i: nat)
    requires i < |body| && forall j | 0 <= j < i :: body[j].id != body[i].id
    ensures exists k: nat {:trigger Declared(body).order[k]} ::
        && k < |Declared(body).order| && Declared(body).order[k] == body[i].id
        && Declared(body).order[..k] == Declared(body[..i]).order
  {
    var init, last := body[..|body| - 1], body[|body| - 1];
    DeclaredMore(init, last);
    assert body == init + [last];
    if i < |init| {
      FirstOccurrenceOrders(init, i);
      assert init[..i] == body[..i];
      var k: nat :| k < |Declared(init).order| && Declared(init).order[k] == init[i].id
        && Declared(init).order[..k] == Declared(init[..i]).order;
      assert Declared(body).order[..k] == Declared(init).order[..k];
      assert Declared(body).order[k] == body[i].id;
    } else {
      assert body[..i] == init;
      NotDeclared(init, last.id);
      assert Declared(body).order[|Declared(init).order|] == last.id;
    }
  }

  lemma {:induction false} NotDeclared(body: seq<Statement>, id: Id)
    requires forall j | 0 <= j < |body| :: body[j].id != id
    ensures id !in Declared(body).at
  {
    if body != [] {
      NotDeclared(body[..|body| - 1], id);
    }
  }

  ghost function GraphOf(body: seq<Statement>): Graph {
    DepsOf(Declared(body).at)
  }

  ghost function DepsOf(m: map<Id, Statement>): Graph {
    map id | id in m :: m[id].Dependencies()
  }

  ghost function LatenciesOf(body: seq<Statement>): (lat: LatencyMap)
    ensures Weighted(GraphOf(body), lat)
  {
    StatementLatencies(Declared(body).at)
  }

  ghost function StatementLatencies(m: map<Id, Statement>): (lat: LatencyMap)
    ensures Weighted(DepsOf(m), lat)
  {
    map id | id in m :: m[id].Latency()
  }

  /** No two statements share an id. */
  ghost predicate UniqueIds(body: seq<Statement>) {
    forall i, j | 0 <= i < j < |body| :: body[i].id != body[j].id
  }

  /** How often the edge from `d` to `id` is recorded. */
  ghost function EdgeCount(edges: EdgeMap, d: Id, id: Id): nat {
    if d in edges.at then multiset(edges.at[d])[id] else 0
  }

  /** Everything that statements with this id list as dependencies. */
  ghost function Listed(body: seq<Statement>, id: Id): multiset<Id> {
    if body == [] then multiset{}
    else
      var last := body[|body| - 1];
      Listed(body[..|body| - 1], id) + (if last.id == id then multiset(last.Dependencies()) else multiset{})
  }

  lemma {:induction false} ListedOnce(body: seq<Statement>, id: Id)
    requires UniqueIds(body)
    ensures Listed(body, id) == if id in GraphOf(body) then multiset(GraphOf(body)[id]) else multiset{}
  {
    if body != [] {
      var init, last := body[..|body| - 1], body[|body| - 1];
      assert body == init + [last];
      ListedOnce(init, id);
      DeclaredFromBody(init);
      DeclaredMore(init, last);
    }
  }

  /** The edges are the transposed dependency lists, multiplicities included. */
  ghost predicate IsTranspose(edges: EdgeMap, body: seq<Statement>) {
    edges.Valid() && forall d, id :: EdgeCount(edges, d, id) == Listed(body, id)[d]
  }

  // --------------------------------------------------------------- first pass

  method AddEdge(e: EdgeMap, id: Id, dep: Id) returns (edges: EdgeMap)
    requires e.Valid()
    ensures edges.Valid()
    ensures forall d, x :: EdgeCount(edges, d, x) == EdgeCount(e, d, x) + if d == dep && x == id then 1 else 0
  {
    edges := e;
    if dep !in edges.at {
      edges := Put(edges, dep, []);
    }
    edges := Put(edges, dep, edges.at[dep] + [id]);
  }

  method AddEdges(e: EdgeMap, id: Id, deps: seq<Id>) returns (edges: EdgeMap)
    requires e.Valid()
    ensures edges.Valid()
    ensures forall d, x :: EdgeCount(edges, d, x) == EdgeCount(e, d, x) + if x == id then multiset(deps)[d] else 0
  {
    edges := e;
    for i := 0 to |deps|
      invariant edges.Valid()
      invariant forall d, x ::
        EdgeCount(edges, d, x) == EdgeCount(e, d, x) + if x == id then multiset(deps[..i])[d] else 0
    {
      PrefixGrows(deps, i);
      edges := AddEdge(edges, id, deps[i]);
    }
    assert deps[..|deps|] == deps;
  }

  lemma TransposeNext(before: EdgeMap, edges: EdgeMap, body: seq<Statement>, i: nat)
    requires i < |body| && IsTranspose(before, body[..i]) && edges.Valid()
    requires forall d, x ::
      EdgeCount(edges, d, x)
        == EdgeCount(before, d, x) + if x == body[i].id then multiset(body[i].Dependencies())[d] else 0
    ensures IsTranspose(edges, body[..i + 1])
  {
    assert body[..i + 1][..i] == body[..i];
  }

  /** The nodes hold what the statements say. */
  ghost predicate Represents(nodes: NodeMap, m: OrderedMap<Id, Statement>) {
    && nodes.order == m.order && nodes.at.Keys == m.at.Keys
    && (forall id | id in nodes.at :: IsNodeOf(nodes.at[id], m.at[id]))
  }

  ghost predicate IsNodeOf(n: DependencyNode, s: Statement) {
    && n.id == s.id && n.kind == s.kind && n.dependencies == s.Dependencies()
    && n.estimatedLatency == s.Latency() && n.estimatedCost == (if s.cost == None then 0.0 else s.cost.value)
  }

  lemma RepresentsGraph(nodes: NodeMap, body: seq<Statement>)
    requires Represents(nodes, Declared(body))
    ensures ValidNodes(nodes) && Deps(nodes) == GraphOf(body) && Latencies(nodes) == LatenciesOf(body)
  {
    DeclaredFromBody(body);
    RepresentsMap(nodes, Declared(body));
  }

  lemma RepresentsMap(nodes: NodeMap, m: OrderedMap<Id, Statement>)
    requires Represents(nodes, m) && m.Valid() && forall id | id in m.at :: m.at[id].id == id
    ensures ValidNodes(nodes) && Deps(nodes) == DepsOf(m.at) && Latencies(nodes) == StatementLatencies(m.at)
  {
  }

  method CreateNodes(body: seq<Statement>) returns (nodes: NodeMap, edges: EdgeMap)
    ensures Represents(nodes, Declared(body))
    ensures forall id | id in nodes.at :: fresh(nodes.at[id]) && nodes.at[id].dependents == []
    ensures IsTranspose(edges, body)
  {
    nodes, edges := OrderedMap([], map[]), OrderedMap([], map[]);
    for i := 0 to |body|
      invariant Represents(nodes, Declared(body[..i]))
      invariant forall id | id in nodes.at :: fresh(nodes.at[id]) && nodes.at[id].dependents == []
      invariant IsTranspose(edges, body[..i])
    {
      assert body[..i + 1][..i] == body[..i];
      var statement := body[i];
      var node := new DependencyNode(statement);
      nodes := Put(nodes, statement.id, node);
      ghost var before := edges;
      edges := AddEdges(edges, statement.id, statement.Dependencies());
      TransposeNext(before, edges, body, i);
    }
    assert body[..|body|] == body;
  }

  // -------------------------------------------------------------- second pass

  /** Every listed node receives `fromId` once for each time it is listed. */
  method PushDependents(nodes: NodeMap, fromId: Id, toIds: seq<Id>)
    requires Keyed(nodes)
    modifies nodes.at.Values`dependents
    ensures forall id, d | id in nodes.at ::
      multiset(nodes.at[id].dependents)[d]
        == old(multiset(nodes.at[id].dependents)[d]) + if d == fromId then multiset(toIds)[id] else 0
  {
    for j := 0 to |toIds|
      invariant forall id, d | id in nodes.at ::
        multiset(nodes.at[id].dependents)[d]
          == old(multiset(nodes.at[id].dependents)[d]) + if d == fromId then multiset(toIds[..j])[id] else 0
    {
      PrefixGrows(toIds, j);
      if toIds[j] in nodes.at {
        var node := nodes.at[toIds[j]];
        assert multiset(node.dependents + [fromId]) == multiset(node.dependents) + multiset{fromId};
        node.dependents := node.dependents + [fromId];
      }
    }
    assert toIds[..|toIds|] == toIds;
  }

  /** As written, this gives every node back its own dependencies: `fromId` is what `toId` depends on. */
  method ComputeDependents(nodes: NodeMap, edges: EdgeMap)
    requires Keyed(nodes) && edges.Valid()
    requires forall id | id in nodes.at :: nodes.at[id].dependents == []
    modifies nodes.at.Values`dependents
    ensures forall id, d | id in nodes.at :: multiset(nodes.at[id].dependents)[d] == EdgeCount(edges, d, id)
  {
    for i := 0 to |edges.order|
      invariant forall id, d | id in nodes.at ::
        multiset(nodes.at[id].dependents)[d] == if d in edges.order[..i] then EdgeCount(edges, d, id) else 0
    {
      PrefixGrows(edges.order, i);
      PushDependents(nodes, edges.order[i], edges.at[edges.order[i]]);
    }
    assert edges.order[..|edges.order|] == edges.order;
  }

  /** The latencies along the path added up. */
  method ComputeTotalLatency(nodes: NodeMap, path: seq<Id>) returns (total: real)
    ensures total == Latency(Latencies(nodes), path)
  {
    total := 0.0;
    for i := 0 to |path|
      invariant total == Latency(Latencies(nodes), path[..i])
    {
      assert path[..i + 1][..i] == path[..i];
      total := total + if path[i] in nodes.at then nodes.at[path[i]].estimatedLatency else 0.0;
    }
    assert path[..|path|] == path;
  }

  /** Every node's `dependents` list what its statements list as dependencies, multiplicities included. */
  ghost predicate DependentsMirror(nodes: NodeMap, body: seq<Statement>)
    reads nodes.at.Values`dependents
  {
    forall id, d | id in nodes.at :: multiset(nodes.at[id].dependents)[d] == Listed(body, id)[d]
  }

  /** Every node has its level and is listed under it once, in the order of the visits. */
  ghost predicate AreLevelsOf(levels: map<nat, seq<Id>>, level: map<Id, nat>, body: seq<Statement>) {
    && Complete(GraphOf(body), level) && Filed(levels, level)
    && InOrder(levels, level, VisitOrder(GraphOf(body), Declared(body).order))
  }

  /** What a successful build returns for `body`. */
  ghost predicate IsGraphOf(graph: DependencyGraph, body: seq<Statement>)
    reads graph.nodes.at.Values
  {
    && Represents(graph.nodes, Declared(body))
    && IsTranspose(graph.edges, body)
    && DependentsMirror(graph.nodes, body)
    && AreLevelsOf(graph.levels, NodeLevels(graph.nodes), body)
    && IsReturnedPath(
      GraphOf(body), LatenciesOf(body), NodeLevels(graph.nodes), Declared(body).order, graph.criticalPath)
    && graph.totalLatency == Latency(LatenciesOf(body), graph.criticalPath)
  }

  /** The first two passes. */
  method DeclareNodes(body: seq<Statement>) returns (nodes: NodeMap, edges: EdgeMap)
    ensures Represents(nodes, Declared(body)) && IsTranspose(edges, body)
    ensures DependentsMirror(nodes, body)
    ensures forall id | id in nodes.at :: fresh(nodes.at[id])
  {
    nodes, edges := CreateNodes(body);
    RepresentsGraph(nodes, body);
    ComputeDependents(nodes, edges);
  }

  /** The last pass: the path and its latency. */
  method FindPath(nodes: NodeMap, ghost level: map<Id, nat>, ghost body: seq<Statement>)
    returns (criticalPath: seq<Id>, totalLatency: real)
    requires Represents(nodes, Declared(body)) && nodes.order != [] && Complete(GraphOf(body), level)
    ensures IsReturnedPath(GraphOf(body), LatenciesOf(body), level, Declared(body).order, criticalPath)
    ensures totalLatency == Latency(LatenciesOf(body), criticalPath)
  {
    RepresentsGraph(nodes, body);
    criticalPath := FindCriticalPath(nodes, level);
    totalLatency := ComputeTotalLatency(nodes, criticalPath);
  }

  method FinishGraph(nodes: NodeMap, edges: EdgeMap, levels: map<nat, seq<Id>>, ghost body: seq<Statement>)
    returns (graph: DependencyGraph)
    requires Represents(nodes, Declared(body)) && IsTranspose(edges, body) && DependentsMirror(nodes, body)
    requires nodes.order != [] && AreLevelsOf(levels, NodeLevels(nodes), body)
    ensures graph.nodes == nodes && IsGraphOf(graph, body)
  {
    var criticalPath, totalLatency := FindPath(nodes, NodeLevels(nodes), body);
    graph := DependencyGraph(nodes, edges, levels, criticalPath, totalLatency);
  }

  /** A graph for every non-empty body whose dependencies are closed and acyclic; an error that
      the body justifies for every other. */
  method BuildDependencyGraph(body: seq<Statement>) returns (r: Result<DependencyGraph, BuildError>)
    requires body != []
    ensures r.Ok? <==> Closed(GraphOf(body)) && !Cyclic(GraphOf(body))
    ensures r.Err? ==> Justified(GraphOf(body), r.error)
    ensures r.Ok? ==> IsGraphOf(r.value, body)
  {
    var nodes, edges := DeclareNodes(body);
    RepresentsGraph(nodes, body);
    var levels := ComputeLevels(nodes);
    if levels.Err? {
      return Err(levels.error);
    }
    DeclaredFromBody(body);
    assert body[0].id in nodes.at;
    var graph := FinishGraph(nodes, edges, levels.value, body);
    return Ok(graph);
  }
}
