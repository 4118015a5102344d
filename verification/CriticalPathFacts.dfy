/** How far the returned path is a critical path. */
module CriticalPathFacts {
  import opened Sequences
  import opened DependencyGraphs
  import opened ChainLatencies
  import opened Wrappers
  import opened DependencyNodes
  import opened DependencyBuild
  import opened CriticalPathSearch

  /** Any returned path is the walk to the end that graph, latencies and order determine.  It is a
      repeat-free chain from a dependency-free node, and critical exactly when that end ends a heaviest
      chain of the graph and every node of the walk lists a heaviest dependency first. */
  lemma {:induction false} ReturnedPathIsCriticalIff(g: Graph, lat: LatencyMap, level: map<Id, nat>, order: seq<Id>,
                                  end: Id, path: seq<Id>)
    requires Weighted(g, lat) && Complete(g, level) && (forall i | 0 <= i < |order| :: order[i] in g)
    requires IsWalkEnd(g, lat, order, end) && IsReturnedPath(g, lat, level, order, path)
    ensures end in g && path == FirstWalk(g, level, end)
    ensures IsChain(g, path) && NoDuplicates(path) && g[path[0]] == []
    ensures forall p | IsHeaviestChain(g, lat, p) :: Latency(lat, path) <= Latency(lat, p)
    ensures IsHeaviestChain(g, lat, path) <==>
      && FirstIsHeaviest(g, lat, level, end)
      && forall id | id in g :: HeaviestTo(g, lat, level, id) <= HeaviestTo(g, lat, level, end)
  {
    WalkEndIsUnique(g, lat, order, end, path[|path| - 1]);
    FirstWalkIsCriticalIff(g, lat, level, end);
  }

  /** The same for a graph that was built: the end and the condition are those of the body. */
  lemma {:induction false} PathOfBodyIsCriticalIff(graph: DependencyGraph, body: seq<Statement>, end: Id)
    requires IsGraphOf(graph, body)
    requires IsWalkEnd(GraphOf(body), LatenciesOf(body), Declared(body).order, end)
    ensures Complete(GraphOf(body), NodeLevels(graph.nodes)) && end in GraphOf(body)
    ensures IsHeaviestChain(GraphOf(body), LatenciesOf(body), graph.criticalPath) <==>
      && FirstIsHeaviest(GraphOf(body), LatenciesOf(body), NodeLevels(graph.nodes), end)
      && forall id | id in GraphOf(body) ::
        HeaviestTo(GraphOf(body), LatenciesOf(body), NodeLevels(graph.nodes), id)
          <= HeaviestTo(GraphOf(body), LatenciesOf(body), NodeLevels(graph.nodes), end)
  {
    ReturnedPathIsCriticalIff(
      GraphOf(body), LatenciesOf(body), NodeLevels(graph.nodes), Declared(body).order, end, graph.criticalPath);
  }

  // ------------------------------------------------------------------ the empty body

  /** What the walk back holds: a node, the end of the walk, or a missing value. */
  datatype Cursor = At(id: Id) | Null | Undefined

  function Follow(parents: map<Id, Option<Id>>, c: Cursor): Cursor {
    match c
    case At(id) =>
      if id !in parents then Undefined else if parents[id].Some? then At(parents[id].value) else Null
    case Null => Null
    case Undefined => Undefined
  }

  function FollowTimes(parents: map<Id, Option<Id>>, c: Cursor, n: nat): Cursor {
    if n == 0 then c else Follow(parents, FollowTimes(parents, c, n - 1))
  }

  /** Where the walk starts when no distance is positive: at the first of the reversed order, if any. */
  function StartOf(order: seq<Id>): Cursor {
    if order == [] then Undefined else At(order[0])
  }

  /** Over nodes without dependencies the walk comes to its end if and only if there is a node at all. */
  lemma {:induction false} WalkEndsIffNotEmpty(order: seq<Id>, parents: map<Id, Option<Id>>)
    requires parents.Keys == Elements(order) && forall id | id in parents :: parents[id] == None
    ensures (exists n: nat :: FollowTimes(parents, StartOf(order), n) == Null) <==> order != []
  {
    if order == [] {
      forall n: nat ensures FollowTimes(parents, Undefined, n) == Undefined {
        MissingStaysMissing(parents, n);
      }
    } else {
      assert order[0] in parents;
      assert FollowTimes(parents, StartOf(order), 0) == StartOf(order);
      assert FollowTimes(parents, StartOf(order), 1) == Null;
    }
  }

  lemma {:induction false} MissingStaysMissing(parents: map<Id, Option<Id>>, n: nat)
    ensures FollowTimes(parents, Undefined, n) == Undefined
  {
    if n > 0 {
      MissingStaysMissing(parents, n - 1);
    }
  }

  // ----------------------------------------------------- a slow dependency listed second

  /** The facts of three statements of which only the last, `both`, lists anything: `fast`, then `slow`. */
  ghost predicate ListsSlowSecond(g: Graph, lat: LatencyMap, order: seq<Id>, slow: Id, fast: Id, both: Id) {
    && NoDuplicates(order) && order == [slow, fast, both] && g.Keys == {slow, fast, both} && Weighted(g, lat)
    && g[slow] == [] && g[fast] == [] && g[both] == [fast, slow] && lat[fast] < lat[slow]
  }

  /** For any three such statements the path that is returned misses the slow dependency. */
  lemma SlowSecondIsMissed(slow: Statement, fast: Statement, both: Statement)
    requires slow.id != fast.id && slow.id != both.id && fast.id != both.id
    requires slow.Dependencies() == fast.Dependencies() == [] && both.Dependencies() == [fast.id, slow.id]
    requires fast.Latency() < slow.Latency()
    ensures var body := [slow, fast, both]; var g, lat, order := GraphOf(body), LatenciesOf(body), Declared(body).order;
      && (exists level :: IsReturnedPath(g, lat, level, order, [fast.id, both.id]))
      && !IsHeaviestChain(g, lat, [fast.id, both.id])
  {
    var body := [slow, fast, both];
    ThreeDeclared(slow, fast, both);
    ThreeStatements(Declared(body), slow, fast, both);
    SlowIsMissed(GraphOf(body), LatenciesOf(body), Declared(body).order, slow.id, fast.id, both.id);
  }

  lemma SlowIsMissed(g: Graph, lat: LatencyMap, order: seq<Id>, slow: Id, fast: Id, both: Id)
    requires ListsSlowSecond(g, lat, order, slow, fast, both)
    ensures exists level :: IsReturnedPath(g, lat, level, order, [fast, both])
    ensures !IsHeaviestChain(g, lat, [fast, both])
  {
    var level := LevelsOfThree(g, lat, order, slow, fast, both);
    SlowSecond(g, lat, level, slow, fast, both);
    assert IsReturnedPath(g, lat, level, order, [fast, both]);
  }

  const SLOW := Statement("a", "Instruction", None, None, None)
  const FAST := Statement("b", "Instruction", None, None, Some(100))
  const BOTH := Statement("c", "Instruction", Some(["b", "a"]), None, Some(100))

  /** For instance, a chain of 101 milliseconds is missed for one of 2. */
  lemma ReturnedPathCanMissTheCriticalOne()
    ensures var body := [SLOW, FAST, BOTH]; var g, lat, order := GraphOf(body), LatenciesOf(body), Declared(body).order;
      && (exists level :: IsReturnedPath(g, lat, level, order, ["b", "c"])) && Latency(lat, ["b", "c"]) == 2.0
      && IsChain(g, ["a", "c"]) && Latency(lat, ["a", "c"]) == 101.0 && !IsHeaviestChain(g, lat, ["b", "c"])
  {
    SlowSecondIsMissed(SLOW, FAST, BOTH);
    LatenciesOfTwoChains(SLOW, FAST, BOTH);
  }

  lemma LatenciesOfTwoChains(slow: Statement, fast: Statement, both: Statement)
    requires slow.id != fast.id && slow.id != both.id && fast.id != both.id
    requires slow.Dependencies() == fast.Dependencies() == [] && both.Dependencies() == [fast.id, slow.id]
    requires fast.Latency() < slow.Latency()
    ensures var g, lat := GraphOf([slow, fast, both]), LatenciesOf([slow, fast, both]);
      && IsChain(g, [slow.id, both.id]) && Latency(lat, [slow.id, both.id]) == slow.Latency() + both.Latency()
      && Latency(lat, [fast.id, both.id]) == fast.Latency() + both.Latency()
  {
    ThreeDeclared(slow, fast, both);
    ThreeStatements(Declared([slow, fast, both]), slow, fast, both);
    var at := Declared([slow, fast, both]).at;
    ThreeInOrder(slow, fast, both);
    LatencyOfTwo(StatementLatencies(at), slow.id, both.id);
    LatencyOfTwo(StatementLatencies(at), fast.id, both.id);
    assert DepsOf(at)[both.id][1] == slow.id;
  }

  lemma LatencyOfTwo(lat: LatencyMap, a: Id, b: Id)
    requires a in lat && b in lat
    ensures Latency(lat, [a, b]) == lat[a] + lat[b]
  {
    assert [a, b][..1] == [a] && [a][..0] == [];
    assert Latency(lat, [a]) == lat[a];
  }

  function Three(a: Statement, b: Statement, c: Statement): OrderedMap<Id, Statement> {
    Put(Put(Put(OrderedMap([], map[]), a.id, a), b.id, b), c.id, c)
  }

  lemma ThreeDeclared(a: Statement, b: Statement, c: Statement)
    ensures Declared([a, b, c]) == Three(a, b, c)
  {
    Grow(a, b, c);
    DeclaredMore([], a);
    DeclaredMore([a], b);
    DeclaredMore([a, b], c);
  }

  lemma Grow<T>(a: T, b: T, c: T)
    ensures [] + [a] == [a] && [a] + [b] == [a, b] && [a, b] + [c] == [a, b, c]
  {
  }

  lemma ThreeStatements(m: OrderedMap<Id, Statement>, slow: Statement, fast: Statement, both: Statement)
    requires m == Three(slow, fast, both) && slow.id != fast.id && slow.id != both.id && fast.id != both.id
    requires slow.Dependencies() == fast.Dependencies() == [] && both.Dependencies() == [fast.id, slow.id]
    requires fast.Latency() < slow.Latency()
    ensures ListsSlowSecond(DepsOf(m.at), StatementLatencies(m.at), m.order, slow.id, fast.id, both.id)
  {
    ThreeInOrder(slow, fast, both);
    StatementsAt(m.at, m.order, slow, fast, both);
  }

  lemma ThreeInOrder(a: Statement, b: Statement, c: Statement)
    requires a.id != b.id && a.id != c.id && b.id != c.id
    ensures Three(a, b, c).order == [a.id, b.id, c.id]
    ensures Three(a, b, c).at == map[a.id := a, b.id := b, c.id := c]
  {
    var two := Put(Put(OrderedMap([], map[]), a.id, a), b.id, b);
    assert two.order == [a.id, b.id] && two.at == map[a.id := a, b.id := b];
  }

  lemma StatementsAt(at: map<Id, Statement>, order: seq<Id>, slow: Statement, fast: Statement, both: Statement)
    requires slow.id != fast.id && slow.id != both.id && fast.id != both.id
    requires order == [slow.id, fast.id, both.id] && at == map[slow.id := slow, fast.id := fast, both.id := both]
    requires slow.Dependencies() == fast.Dependencies() == [] && both.Dependencies() == [fast.id, slow.id]
    requires fast.Latency() < slow.Latency()
    ensures ListsSlowSecond(DepsOf(at), StatementLatencies(at), order, slow.id, fast.id, both.id)
  {
  }

  lemma LevelsOfThree(g: Graph, lat: LatencyMap, order: seq<Id>, slow: Id, fast: Id, both: Id)
    returns (level: map<Id, nat>)
    requires ListsSlowSecond(g, lat, order, slow, fast, both)
    ensures Complete(g, level) && IsWalkEnd(g, lat, order, both)
  {
    level := map[slow := 0, fast := 0, both := 1];
    assert order[0] == slow && order[1] == fast && order[2] == both;
    assert Placed(g, level, slow) && Placed(g, level, fast);
    assert g[both][0] == fast && g[both][1] == slow;
    assert Placed(g, level, both);
    assert IsFirstSlowest(g, lat, order, 2);
  }

  lemma SlowSecond(g: Graph, lat: LatencyMap, level: map<Id, nat>, slow: Id, fast: Id, id: Id)
    requires Complete(g, level) && Weighted(g, lat) && slow in g && fast in g && id in g
    requires g[slow] == [] && g[fast] == [] && g[id] == [fast, slow] && lat[fast] < lat[slow]
    ensures FirstWalk(g, level, id) == [fast, id]
    ensures !IsHeaviestChain(g, lat, [fast, id])
  {
    assert FirstWalk(g, level, id) == [fast] + [id];
    assert g[id][1] == slow;
    ChainGrows(g, lat, [], fast);
    ChainGrows(g, lat, [], slow);
    assert [] + [slow] == [slow] && [] + [fast] == [fast];
    ChainGrows(g, lat, [fast], id);
    ChainGrows(g, lat, [slow], id);
    assert [fast] + [id] == [fast, id];
    assert IsChain(g, [slow] + [id]);
  }

  const LATE_PEAK: Graph := map["a" := [], "b" := [], "c" := ["a"], "d" := ["b"]]
  const LATE_LATENCY: LatencyMap := map["a" := 100.0, "b" := 1.0, "c" := 1.0, "d" := 2.0]

  const LATE_ORDER: seq<Id> := ["a", "b", "c", "d"]

  /** Relaxing dependencies first would not be enough: distances leave out the first node of a chain,
      so d is the farthest node although no chain that ends at d is a heaviest one. */
  lemma DependenciesFirstCanMissTheCriticalOne(level: map<Id, nat>, fallback: Id)
    requires Complete(LATE_PEAK, level)
    ensures Weighted(LATE_PEAK, LATE_LATENCY) && Closed(LATE_PEAK) && IsPostorder(LATE_PEAK, LATE_ORDER)
    ensures var distances := RelaxAll(LATE_PEAK, LATE_LATENCY, Unrelaxed(LATE_PEAK), LATE_ORDER).distances;
      IsFarthest(LATE_ORDER, distances, fallback, "d")
    ensures forall p | IsChain(LATE_PEAK, p) && EndsAt(p, "d") :: !IsHeaviestChain(LATE_PEAK, LATE_LATENCY, p)
  {
    var g, lat := LATE_PEAK, LATE_LATENCY;
    assert LATE_ORDER[0] == "a" && LATE_ORDER[1] == "b" && LATE_ORDER[2] == "c" && LATE_ORDER[3] == "d";
    LatePeakOrder(g, LATE_ORDER);
    CompleteMeansAcyclic(g, level);
    RelaxedDependenciesFirst(g, lat, LATE_ORDER);
    var distances := RelaxAll(g, lat, Unrelaxed(g), LATE_ORDER).distances;
    FarthestOfTwo(g, lat, distances, LATE_ORDER);
    LighterEnd(g, lat, level, "a", "c", "b", "d");
  }

  ghost predicate IsLatePeak(g: Graph, order: seq<Id>) {
    && |order| == 4 && NoDuplicates(order) && Elements(order) == g.Keys
    && g[order[0]] == [] && g[order[1]] == [] && g[order[2]] == [order[0]] && g[order[3]] == [order[1]]
  }

  lemma LatePeakOrder(g: Graph, order: seq<Id>)
    requires IsLatePeak(g, order)
    ensures IsPostorder(g, order)
  {
    forall i | 0 <= i < 4 ensures DependenciesBefore(g, order, i) {
      assert i == 2 ==> order[..i][0] == order[0];
      assert i == 3 ==> order[..i][1] == order[1];
    }
  }

  lemma RelaxedDependenciesFirst(g: Graph, lat: LatencyMap, order: seq<Id>)
    requires IsPostorder(g, order) && Closed(g) && Weighted(g, lat) && Elements(order) == g.Keys
    ensures forall id | id in order :: id in g
    ensures forall id | id in g :: IsHeaviestTail(g, lat, id, RelaxAll(g, lat, Unrelaxed(g), order).distances[id])
  {
    assert order[..|order|] == order;
    DependenciesFirstFindsHeaviestTails(g, lat, order, |order|);
    forall id | id in g ensures IsHeaviestTail(g, lat, id, RelaxAll(g, lat, Unrelaxed(g), order).distances[id]) {
      assert id in Elements(order);
      assert TailOrNothing(g, lat, RelaxAll(g, lat, Unrelaxed(g), order), order, id);
    }
  }

  /** Two nodes without dependencies and two that depend on one each: the slower of those is farthest. */
  lemma FarthestOfTwo(g: Graph, lat: LatencyMap, distances: LatencyMap, order: seq<Id>)
    requires IsLatePeak(g, order) && Weighted(g, lat) && distances.Keys == g.Keys && lat[order[2]] < lat[order[3]]
    requires forall id | id in g :: IsHeaviestTail(g, lat, id, distances[id])
    ensures IsFirstFarthest(order, distances, 3)
  {
    NoTail(g, lat, order[0], distances[order[0]]);
    NoTail(g, lat, order[1], distances[order[1]]);
    SingleTail(g, lat, order[0], order[2], distances[order[2]]);
    SingleTail(g, lat, order[1], order[3], distances[order[3]]);
    LastIsFarthest(g, lat, distances, order);
  }

  lemma LastIsFarthest(g: Graph, lat: LatencyMap, distances: LatencyMap, order: seq<Id>)
    requires IsLatePeak(g, order) && Weighted(g, lat) && distances.Keys == g.Keys && lat[order[2]] < lat[order[3]]
    requires distances[order[0]] == distances[order[1]] == 0.0
    requires distances[order[2]] == lat[order[2]] && distances[order[3]] == lat[order[3]]
    ensures IsFirstFarthest(order, distances, 3)
  {
  }

  lemma LighterEnd(g: Graph, lat: LatencyMap, level: map<Id, nat>, a: Id, c: Id, b: Id, d: Id)
    requires Complete(g, level) && Weighted(g, lat) && a in g && b in g && c in g && d in g
    requires g[a] == [] && g[b] == [] && g[c] == [a] && g[d] == [b] && lat[b] + lat[d] < lat[a] + lat[c]
    ensures forall p | IsChain(g, p) && EndsAt(p, d) :: !IsHeaviestChain(g, lat, p)
  {
    SingleHeaviest(g, lat, level, a, c);
    SingleHeaviest(g, lat, level, b, d);
    var heavy := HeaviestChainTo(g, lat, level, c);
    forall p | IsChain(g, p) && EndsAt(p, d) ensures !IsHeaviestChain(g, lat, p) {
      HeaviestToIsUpperBound(g, lat, level, p);
      assert IsChain(g, heavy) && Latency(lat, heavy) > Latency(lat, p);
    }
  }

  lemma OnlyItself(g: Graph, p: seq<Id>)
    requires IsChain(g, p) && p != [] && g[p[|p| - 1]] == []
    ensures |p| == 1
  {
    forall i | 0 < i < |p| ensures g[p[i]] != [] {
      assert p[i - 1] in g[p[i]];
    }
  }

  lemma NoTail(g: Graph, lat: LatencyMap, id: Id, t: real)
    requires Weighted(g, lat) && id in g && g[id] == [] && IsHeaviestTail(g, lat, id, t)
    ensures t == 0.0
  {
    var p :| IsTail(g, lat, p, id, t);
    OnlyItself(g, p);
    ChainGrows(g, lat, [], id);
    assert p == [] + [id];
  }

  lemma SingleTail(g: Graph, lat: LatencyMap, d: Id, id: Id, t: real)
    requires Weighted(g, lat) && id in g && d in g && g[id] == [d] && g[d] == [] && id != d
    requires IsHeaviestTail(g, lat, id, t)
    ensures t == lat[id]
  {
    ChainGrows(g, lat, [], d);
    ChainGrows(g, lat, [] + [d], id);
    assert IsTail(g, lat, [] + [d] + [id], id, lat[id]);
    var p :| IsTail(g, lat, p, id, t);
    var q := p[..|p| - 1];
    if q != [] {
      assert p[|p| - 2] in g[id];
      OnlyItself(g, q);
      assert q == [d] && p[0] == d;
    }
  }

  lemma SingleHeaviest(g: Graph, lat: LatencyMap, level: map<Id, nat>, d: Id, id: Id)
    requires Complete(g, level) && Weighted(g, lat) && id in g && d in g && g[id] == [d] && g[d] == []
    ensures HeaviestTo(g, lat, level, id) == lat[id] + lat[d]
  {
    assert Placed(g, level, id) && Placed(g, level, d);
    assert [d][..0] == [];
  }
}
