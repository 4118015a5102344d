/** The search for the critical path: depth-first sort, relaxation, choice of an end, walk back. */
module CriticalPathSearch {
  import opened Wrappers
  import opened Sequences
  import opened DependencyGraphs
  import opened DependencyNodes
  import opened ChainLatencies

  /** The state shared by the nested calls of the sorting depth-first search. */
  class SortPass {
    const nodes: NodeMap
    ghost const level: map<Id, nat>
    var sorted: seq<Id>
    var visited: set<Id>

    ghost predicate Valid()
      reads this
    {
      && Complete(Deps(nodes), level)
      && IsPostorder(Deps(nodes), sorted)
      && Elements(sorted) <= visited <= nodes.at.Keys
    }

    constructor (nodes: NodeMap, ghost level: map<Id, nat>)
      requires Complete(Deps(nodes), level)
      ensures this.nodes == nodes && this.level == level && Valid() && sorted == [] && visited == {} && fresh(this)
    {
      this.nodes, this.level := nodes, level;
      sorted, visited := [], {};
    }

    method Dfs(nodeId: Id)
      requires Valid() && nodeId in nodes.at
      requires forall x | x in visited && x !in sorted :: level[nodeId] < level[x]
      modifies this
      ensures Valid() && nodeId in sorted
      ensures visited - Elements(sorted) == old(visited - Elements(sorted))
      ensures Elements(old(sorted)) <= Elements(sorted)
      ensures Deps(nodes)[nodeId] == [] ==>
        sorted == if nodeId in old(visited) then old(sorted) else old(sorted) + [nodeId]
      decreases level[nodeId]
    {
      if nodeId in visited {
        return;
      }
      ghost var g := Deps(nodes);
      assert Placed(g, level, nodeId);
      visited := visited + {nodeId};
      var node := nodes.at[nodeId];
      for i := 0 to |node.dependencies|
        invariant Valid() && nodeId in visited
        invariant visited - Elements(sorted) == old(visited - Elements(sorted)) + {nodeId}
        invariant Elements(old(sorted)) <= Elements(sorted)
        invariant forall j | 0 <= j < i :: node.dependencies[j] in sorted
        invariant i == 0 ==> sorted == old(sorted)
      {
        assert node.dependencies[i] in g[nodeId];
        forall x | x in visited && x !in sorted ensures level[node.dependencies[i]] < level[x] {
          assert x in visited - Elements(sorted);
        }
        ghost var before := sorted;
        Dfs(node.dependencies[i]);
        forall j | 0 <= j < i ensures node.dependencies[j] in sorted {
          assert node.dependencies[j] in Elements(before);
        }
      }
      assert nodeId in visited - Elements(sorted);
      PostorderAppend(g, sorted, nodeId);
      ghost var before := sorted;
      sorted := sorted + [nodeId];
      assert Elements(sorted) == Elements(before) + {nodeId};
    }
  }

  lemma OrderCoversGraph(nodes: NodeMap)
    requires ValidNodes(nodes)
    ensures Elements(nodes.order) == Deps(nodes).Keys == nodes.at.Keys
  {
  }

  /** A dependency-respecting order of all nodes; without any dependencies, the order of insertion. */
  method SortNodes(nodes: NodeMap, ghost level: map<Id, nat>) returns (sorted: seq<Id>)
    requires ValidNodes(nodes) && Complete(Deps(nodes), level)
    ensures IsPostorder(Deps(nodes), sorted) && Elements(sorted) == nodes.at.Keys
    ensures Edgeless(Deps(nodes)) ==> sorted == nodes.order
  {
    var pass := new SortPass(nodes, level);
    for i := 0 to |nodes.order|
      invariant pass.nodes == nodes && pass.level == level && fresh(pass) && pass.Valid()
      invariant pass.visited - Elements(pass.sorted) == {}
      invariant Elements(nodes.order[..i]) <= Elements(pass.sorted)
      invariant Edgeless(Deps(nodes)) ==> pass.sorted == nodes.order[..i]
    {
      PrefixGrows(nodes.order, i);
      assert forall x | x in pass.visited :: x in pass.visited - Elements(pass.sorted) || x in pass.sorted;
      if Edgeless(Deps(nodes)) {
        assert nodes.order[i] !in nodes.order[..i];
      }
      pass.Dfs(nodes.order[i]);
    }
    assert nodes.order[..|nodes.order|] == nodes.order;
    OrderCoversGraph(nodes);
    return pass.sorted;
  }

  /** Where the walk ends: the first of the slowest nodes that have dependencies, or, when no
      node has any, the node inserted last. */
  ghost predicate IsWalkEnd(g: Graph, lat: LatencyMap, order: seq<Id>, end: Id)
    requires lat.Keys == g.Keys && (forall i | 0 <= i < |order| :: order[i] in g)
  {
    if Edgeless(g) then EndsAt(order, end)
    else exists k | 0 <= k < |order| :: order[k] == end && IsFirstSlowest(g, lat, order, k)
  }

  ghost predicate IsFirstSlowest(g: Graph, lat: LatencyMap, order: seq<Id>, k: nat)
    requires lat.Keys == g.Keys && (forall i | 0 <= i < |order| :: order[i] in g) && k < |order|
  {
    && g[order[k]] != []
    && (forall i | 0 <= i < |order| && g[order[i]] != [] ::
      lat[order[i]] <= lat[order[k]] && (i < k ==> lat[order[i]] < lat[order[k]]))
  }

  /** A node against one dependency. */
  method RelaxStep(ghost lat: LatencyMap, nodeId: Id, depId: Id, latency: real, d0: LatencyMap, p0: map<Id, Option<Id>>)
    returns (distances: LatencyMap, parents: map<Id, Option<Id>>)
    requires nodeId in d0 && depId in d0 && nodeId in lat && lat[nodeId] == latency
    ensures Relaxation(distances, parents) == RelaxEdge(lat, Relaxation(d0, p0), nodeId, depId)
  {
    distances, parents := d0, p0;
    var newDist := distances[depId] + latency;
    if newDist > distances[nodeId] {
      distances, parents := distances[nodeId := newDist], parents[nodeId := Some(depId)];
    }
  }

  /** A node against each of its dependencies. */
  method RelaxOne(ghost g: Graph, ghost lat: LatencyMap, nodeId: Id, deps: seq<Id>, latency: real,
                  d0: LatencyMap, p0: map<Id, Option<Id>>)
    returns (distances: LatencyMap, parents: map<Id, Option<Id>>)
    requires Covers(Relaxation(d0, p0), g) && lat.Keys == g.Keys && nodeId in g && lat[nodeId] == latency
    requires forall d | d in deps :: d in g
    ensures Relaxation(distances, parents) == RelaxNode(g, lat, Relaxation(d0, p0), nodeId, deps)
  {
    distances, parents := d0, p0;
    for j := 0 to |deps|
      invariant Relaxation(distances, parents) == RelaxNode(g, lat, Relaxation(d0, p0), nodeId, deps[..j])
    {
      RelaxNodeNext(g, lat, Relaxation(d0, p0), nodeId, deps, j);
      distances, parents := RelaxStep(lat, nodeId, deps[j], latency, distances, parents);
    }
    assert deps[..|deps|] == deps;
  }

  method Initialize(order: seq<Id>) returns (distances: LatencyMap, parents: map<Id, Option<Id>>)
    ensures distances == map id | id in order :: 0.0
    ensures parents == map id | id in order :: None
  {
    distances, parents := map[], map[];
    for i := 0 to |order|
      invariant distances == map id | id in order[..i] :: 0.0
      invariant parents == map id | id in order[..i] :: None
    {
      PrefixGrows(order, i);
      distances, parents := distances[order[i] := 0.0], parents[order[i] := None];
    }
    assert order[..|order|] == order;
  }

  lemma InitiallyUnrelaxed(g: Graph, order: seq<Id>)
    requires Elements(order) == g.Keys
    ensures Relaxation(map id | id in order :: 0.0, map id | id in order :: None) == Unrelaxed(g)
  {
    assert forall id :: id in order <==> id in Elements(order);
  }

  /** One round of the relaxing loop. */
  method RelaxAt(nodes: NodeMap, nodeId: Id, d0: LatencyMap, p0: map<Id, Option<Id>>)
    returns (distances: LatencyMap, parents: map<Id, Option<Id>>)
    requires nodeId in nodes.at && Closed(Deps(nodes)) && Covers(Relaxation(d0, p0), Deps(nodes))
    ensures Relaxation(distances, parents) ==
      RelaxNode(Deps(nodes), Latencies(nodes), Relaxation(d0, p0), nodeId, Deps(nodes)[nodeId])
  {
    var node := nodes.at[nodeId];
    distances, parents := RelaxOne(
      Deps(nodes), Latencies(nodes), nodeId, node.dependencies, node.estimatedLatency, d0, p0);
  }

  /** The loop that fills `distances` and `parents`. */
  method RelaxInOrder(nodes: NodeMap, order: seq<Id>) returns (distances: LatencyMap, parents: map<Id, Option<Id>>)
    requires ValidNodes(nodes) && Closed(Deps(nodes)) && forall id | id in order :: id in nodes.at
    ensures Relaxation(distances, parents) ==
      RelaxAll(Deps(nodes), Latencies(nodes), Unrelaxed(Deps(nodes)), order)
  {
    distances, parents := Initialize(nodes.order);
    OrderCoversGraph(nodes);
    InitiallyUnrelaxed(Deps(nodes), nodes.order);
    for i := 0 to |order|
      invariant Relaxation(distances, parents) ==
        RelaxFirst(Deps(nodes), Latencies(nodes), Unrelaxed(Deps(nodes)), order, i)
    {
      distances, parents := RelaxAt(nodes, order[i], distances, parents);
    }
  }

  /** What the scan for the maximum distance finds: the first of the farthest nodes, or the
      fallback when no distance is positive. */
  ghost predicate IsFarthest(order: seq<Id>, distances: LatencyMap, fallback: Id, end: Id)
    requires forall i | 0 <= i < |order| :: order[i] in distances
  {
    if forall i | 0 <= i < |order| :: distances[order[i]] <= 0.0 then end == fallback
    else exists k | 0 <= k < |order| :: order[k] == end && IsFirstFarthest(order, distances, k)
  }

  ghost predicate IsFirstFarthest(order: seq<Id>, distances: LatencyMap, k: nat)
    requires k < |order| && forall i | 0 <= i < |order| :: order[i] in distances
  {
    && distances[order[k]] > 0.0
    && forall i | 0 <= i < |order| ::
      distances[order[i]] <= distances[order[k]] && (i < k ==> distances[order[i]] < distances[order[k]])
  }

  method ChooseEnd(order: seq<Id>, distances: LatencyMap, fallback: Id) returns (maxNode: Id)
    requires forall i | 0 <= i < |order| :: order[i] in distances
    ensures IsFarthest(order, distances, fallback, maxNode)
  {
    maxNode := fallback;
    var maxDist := 0.0;
    ghost var k: nat := |order|;
    for i := 0 to |order|
      invariant k <= |order|
      invariant k == |order| ==> maxDist == 0.0 && maxNode == fallback
      invariant k < |order| ==> k < i && order[k] == maxNode && maxDist == distances[order[k]] > 0.0
      invariant forall j | 0 <= j < i :: distances[order[j]] <= maxDist
      invariant forall j | 0 <= j < i && j < k :: k < |order| ==> distances[order[j]] < maxDist
    {
      var dist := distances[order[i]];
      if dist > maxDist {
        maxDist, maxNode, k := dist, order[i], i;
      }
    }
    assert k < |order| ==> IsFirstFarthest(order, distances, k);
  }

  /** Over distances that are the nodes' own latencies, the farthest is the slowest. */
  lemma {:induction false} FarthestIsWalkEnd(g: Graph, lat: LatencyMap, order: seq<Id>, distances: LatencyMap,
                          fallback: Id, end: Id)
    requires Weighted(g, lat) && distances.Keys == g.Keys && forall i | 0 <= i < |order| :: order[i] in g
    requires forall id | id in g :: distances[id] == if g[id] == [] then 0.0 else lat[id]
    requires Elements(order) == g.Keys && (Edgeless(g) ==> EndsAt(order, fallback))
    requires IsFarthest(order, distances, fallback, end)
    ensures IsWalkEnd(g, lat, order, end)
  {
    if forall i | 0 <= i < |order| :: distances[order[i]] <= 0.0 {
      forall id | id in g ensures g[id] == [] {
        assert id in order;
      }
    } else {
      var k :| 0 <= k < |order| && order[k] == end && IsFirstFarthest(order, distances, k);
      assert IsFirstSlowest(g, lat, order, k);
    }
  }

  /** The walk's end is determined by the graph, the latencies and the order of insertion. */
  lemma WalkEndIsUnique(g: Graph, lat: LatencyMap, order: seq<Id>, end: Id, other: Id)
    requires lat.Keys == g.Keys && (forall i | 0 <= i < |order| :: order[i] in g)
    requires IsWalkEnd(g, lat, order, end) && IsWalkEnd(g, lat, order, other)
    ensures end == other
  {
    if !Edgeless(g) {
      var k :| 0 <= k < |order| && order[k] == end && IsFirstSlowest(g, lat, order, k);
      var j :| 0 <= j < |order| && order[j] == other && IsFirstSlowest(g, lat, order, j);
      assert k == j;
    }
  }

  /** Follows the parents from `end` to a node without one. */
  method WalkBack(ghost g: Graph, ghost level: map<Id, nat>, parents: map<Id, Option<Id>>, end: Id)
    returns (path: seq<Id>)
    requires Complete(g, level) && end in g && parents.Keys == g.Keys
    requires forall id | id in g :: parents[id] == if g[id] == [] then None else Some(g[id][0])
    ensures path == FirstWalk(g, level, end)
  {
    path := [];
    var current := Some(end);
    ghost var rest := FirstWalk(g, level, end);
    while current.Some?
      invariant rest + Reversed(path) == FirstWalk(g, level, end)
      invariant if current.Some? then current.value in g && rest == FirstWalk(g, level, current.value) else rest == []
      decreases if current.Some? then level[current.value] + 1 else 0
    {
      var id := current.value;
      assert Placed(g, level, id);
      assert g[id] != [] ==> g[id][0] in g[id];
      rest := rest[..|rest| - 1];
      path := path + [id];
      current := parents[id];
    }
    return Reversed(path);
  }

  /** The walk along first dependencies to the walk's end. */
  ghost predicate IsReturnedPath(g: Graph, lat: LatencyMap, level: map<Id, nat>, order: seq<Id>, path: seq<Id>) {
    && Complete(g, level) && lat.Keys == g.Keys && (forall i | 0 <= i < |order| :: order[i] in g)
    && path != [] && path[|path| - 1] in g
    && IsWalkEnd(g, lat, order, path[|path| - 1])
    && path == FirstWalk(g, level, path[|path| - 1])
  }

  /** The end of the search, on the distances and parents that relaxing in reverse leaves. */
  method ReadPath(ghost g: Graph, ghost lat: LatencyMap, ghost level: map<Id, nat>, ghost post: seq<Id>,
                  order: seq<Id>, distances: LatencyMap, parents: map<Id, Option<Id>>, fallback: Id)
    returns (path: seq<Id>)
    requires Complete(g, level) && Closed(g) && Weighted(g, lat) && IsPostorder(g, post)
    requires Elements(post) == g.Keys == Elements(order) && (Edgeless(g) ==> post == order)
    requires (forall id | id in Reversed(post) :: id in g) && EndsAt(post, fallback)
    requires Relaxation(distances, parents) == RelaxAll(g, lat, Unrelaxed(g), Reversed(post))
    ensures IsReturnedPath(g, lat, level, order, path)
  {
    RelaxedValues(g, lat, post);
    assert forall i | 0 <= i < |order| :: order[i] in Elements(order);
    var end := ChooseEnd(order, distances, fallback);
    FarthestIsWalkEnd(g, lat, order, distances, fallback, end);
    assert fallback in Elements(post);
    path := WalkBack(g, level, parents, end);
  }

  /** What the code returns as the critical path: the walk along first dependencies to the walk's end. */
  method FindCriticalPath(nodes: NodeMap, ghost level: map<Id, nat>) returns (path: seq<Id>)
    requires ValidNodes(nodes) && nodes.order != [] && Complete(Deps(nodes), level)
    requires Weighted(Deps(nodes), Latencies(nodes))
    ensures IsReturnedPath(Deps(nodes), Latencies(nodes), level, nodes.order, path)
  {
    CompleteMeansAcyclic(Deps(nodes), level);
    var sorted := SortNodes(nodes, level);
    var order := Reversed(sorted);
    ReversedElements(sorted);
    OrderCoversGraph(nodes);
    assert forall id | id in order :: id in Elements(order);
    var distances, parents := RelaxInOrder(nodes, order);
    path := ReadPath(
      Deps(nodes), Latencies(nodes), level, sorted, nodes.order, distances, parents, order[0]);
  }
}
