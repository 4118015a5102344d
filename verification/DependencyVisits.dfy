/** Level assignment by depth-first visit, and the separate cycle detector. */
module DependencyVisits {
  import opened Wrappers
  import opened Sequences
  import opened DependencyGraphs
  import opened DependencyNodes

  /** Nodes on the stack are not finished, and those that are have their levels and are listed under them. */
  ghost predicate IsPass(
      g: Graph, stack: seq<Id>, temp: set<Id>, visited: set<Id>, levels: map<nat, seq<Id>>, level: map<Id, nat>,
      finished: seq<Id>)
  {
    && IsStack(g, stack)
    && temp == Elements(stack)
    && temp !! visited
    && level.Keys == visited
    && Layered(g, level)
    && Recorded(levels, level, finished)
  }

  lemma PassEnters(
      g: Graph, stack: seq<Id>, temp: set<Id>, visited: set<Id>, levels: map<nat, seq<Id>>, level: map<Id, nat>,
      finished: seq<Id>, id: Id)
    requires IsPass(g, stack, temp, visited, levels, level, finished)
    requires Follows(g, stack, id) && id in g && id !in temp && id !in visited
    ensures IsPass(g, stack + [id], temp + {id}, visited, levels, level, finished)
    ensures id !in finished
  {
    Push(g, stack, id);
  }

  lemma PassSettles(
      g: Graph, stack: seq<Id>, temp: set<Id>, visited: set<Id>, levels: map<nat, seq<Id>>, level: map<Id, nat>,
      finished: seq<Id>, id: Id, n: nat)
    requires IsPass(g, stack + [id], temp, visited, levels, level, finished)
    requires id in g && JustAbove(level, g[id], n)
    ensures IsPass(
        g, stack, temp - {id}, visited + {id}, FileUnder(levels, n, id), level[id := n], finished + [id])
    ensures id in temp && id !in visited
  {
    Pop(g, stack, id);
    assert id == (stack + [id])[|stack|];
    LayeredExtend(g, level, id, n);
    RecordedExtend(levels, level, finished, id, n);
  }

  /** The state shared by the nested calls of `visit`. */
  class LevelPass {
    const nodes: NodeMap
    var levels: map<nat, seq<Id>>
    var visited: set<Id>
    var temp: set<Id>
    ghost var level: map<Id, nat>  // the level field of every visited node
    ghost var finished: seq<Id>  // the visited nodes in the order in which they were

    ghost predicate Valid(stack: seq<Id>)
      reads this, nodes.at.Values
    {
      && Keyed(nodes)
      && IsPass(Deps(nodes), stack, temp, visited, levels, level, finished)
      && visited <= nodes.at.Keys
      && (forall id | id in visited :: nodes.at[id].level == level[id])
    }

    constructor (nodes: NodeMap)
      requires Keyed(nodes)
      ensures this.nodes == nodes && Valid([]) && finished == [] && fresh(this)
    {
      this.nodes := nodes;
      levels, visited, temp, level, finished := map[], {}, {}, map[], [];
    }

    method Visit(nodeId: Id, ghost stack: seq<Id>) returns (r: Result<nat, BuildError>)
      requires Valid(stack)
      requires Follows(Deps(nodes), stack, nodeId) && (stack == [] ==> nodeId in nodes.at)
      modifies this, nodes.at.Values`level
      ensures r.Err? ==> Justified(Deps(nodes), r.error)
      ensures r.Ok? ==>
        && Valid(stack) && temp == old(temp) && old(visited) <= visited
        && (forall id | id in old(visited) :: level[id] == old(level)[id])
        && nodeId in visited && r.value == level[nodeId]
        && Finishes(Deps(nodes), stack, old(finished), nodeId, finished)
      decreases nodes.at.Keys - temp, 0
    {
      ghost var g := Deps(nodes);
      if nodeId in visited {
        return Ok(nodes.at[nodeId].level);
      }
      if nodeId in temp {
        BackEdgeIsCycle(g, stack, nodeId);
        return Err(CircularDependency);
      }
      if nodeId in g {
        PassEnters(g, stack, temp, visited, levels, level, finished, nodeId);
      }
      temp := temp + {nodeId};
      if nodeId !in nodes.at {
        return Err(MissingNode(nodeId));
      }
      var d := VisitDependencies(nodes.at[nodeId], stack + [nodeId]);
      if d.Err? {
        return d;
      }
      FinishesAbove(g, stack, old(finished), nodeId, finished);
      Settle(nodes.at[nodeId], d.value, stack);
      return Ok(nodes.at[nodeId].level);
    }

    /** One more than the highest level among the dependencies of the node on top of the stack. */
    method VisitDependencies(node: DependencyNode, ghost stack: seq<Id>)
      returns (r: Result<nat, BuildError>)
      requires Valid(stack)
      requires node.id in nodes.at && node == nodes.at[node.id] && EndsAt(stack, node.id)
      modifies this, nodes.at.Values`level
      ensures r.Err? ==> Justified(Deps(nodes), r.error)
      ensures r.Ok? ==>
        && Valid(stack) && temp == old(temp) && old(visited) <= visited
        && (forall id | id in old(visited) :: level[id] == old(level)[id])
        && JustAbove(level, node.dependencies, r.value)
        && FinishesAll(Deps(nodes), stack, old(finished), node.dependencies, finished)
      decreases nodes.at.Keys - temp, 1
    {
      ghost var g := Deps(nodes);
      FinishesNone(g, stack, finished, node.dependencies);
      var maxDepLevel: int := -1;
      for i := 0 to |node.dependencies|
        invariant Valid(stack)
        invariant temp == old(temp) && old(visited) <= visited
        invariant forall id | id in old(visited) :: level[id] == old(level)[id]
        invariant maxDepLevel >= -1 && JustAbove(level, node.dependencies[..i], maxDepLevel + 1)
        invariant FinishesAll(g, stack, old(finished), node.dependencies[..i], finished)
      {
        ghost var before, mid := level, finished;
        var d := Visit(node.dependencies[i], stack);
        if d.Err? {
          return Err(d.error);
        }
        JustAboveLater(before, level, node.dependencies[..i], maxDepLevel + 1);
        JustAboveNext(level, node.dependencies[..i], maxDepLevel + 1, node.dependencies[i]);
        maxDepLevel := if maxDepLevel < d.value then d.value else maxDepLevel;
        PrefixGrows(node.dependencies, i);
        FinishesNext(g, stack, old(finished), node.dependencies, i, mid, finished);
      }
      assert node.dependencies[..|node.dependencies|] == node.dependencies;
      return Ok(maxDepLevel + 1);
    }

    /** Leaves the node on top of the stack with its level. */
    method Settle(node: DependencyNode, n: nat, ghost stack: seq<Id>)
      requires node.id in nodes.at && node == nodes.at[node.id]
      requires Valid(stack + [node.id]) && JustAbove(level, node.dependencies, n)
      modifies this, node`level
      ensures Valid(stack) && temp == old(temp) - {node.id} && visited == old(visited) + {node.id}
      ensures level == old(level)[node.id := n] && node.level == n && finished == old(finished) + [node.id]
    {
      PassSettles(Deps(nodes), stack, temp, visited, levels, level, finished, node.id, n);
      node.level := n;
      temp, visited := temp - {node.id}, visited + {node.id};
      levels := FileUnder(levels, node.level, node.id);
      level, finished := level[node.id := n], finished + [node.id];
    }

    lemma AllAreLevelled()
      requires Valid([]) && visited == nodes.at.Keys
      ensures NodeLevels(nodes) == level && Complete(Deps(nodes), level) && Recorded(levels, level, finished)
    {
    }

    /** Visits every node that was not reached before, in the order of insertion. */
    method VisitAll() returns (r: Result<(), BuildError>)
      requires Valid([]) && finished == [] && nodes.Valid()
      modifies this, nodes.at.Values`level
      ensures r.Err? ==> Justified(Deps(nodes), r.error)
      ensures r.Ok? ==>
        Valid([]) && visited == nodes.at.Keys && finished == VisitOrder(Deps(nodes), nodes.order)
    {
      ghost var g := Deps(nodes);
      FinishesNone(g, [], [], nodes.order);
      for i := 0 to |nodes.order|
        invariant Valid([]) && Elements(nodes.order[..i]) <= visited
        invariant FinishesAll(g, [], [], nodes.order[..i], finished)
      {
        PrefixGrows(nodes.order, i);
        ghost var mid := finished;
        if nodes.order[i] !in visited {
          var v := Visit(nodes.order[i], []);
          if v.Err? {
            return Err(v.error);
          }
        }
        FinishesNext(g, [], [], nodes.order, i, mid, finished);
      }
      assert nodes.order[..|nodes.order|] == nodes.order;
      FinishesOrder(g, nodes.order, finished);
      return Ok(());
    }
  }

  /** Either the levels of a closed acyclic graph, or a complaint that the graph justifies. */
  method ComputeLevels(nodes: NodeMap) returns (r: Result<map<nat, seq<Id>>, BuildError>)
    requires ValidNodes(nodes)
    modifies nodes.at.Values`level
    ensures r.Ok? <==> Closed(Deps(nodes)) && !Cyclic(Deps(nodes))
    ensures r.Err? ==> Justified(Deps(nodes), r.error)
    ensures r.Ok? ==> Complete(Deps(nodes), NodeLevels(nodes)) && Filed(r.value, NodeLevels(nodes))
    ensures r.Ok? ==> InOrder(r.value, NodeLevels(nodes), VisitOrder(Deps(nodes), nodes.order))
  {
    var pass := new LevelPass(nodes);
    var v := pass.VisitAll();
    if v.Err? {
      return Err(v.error);
    }
    pass.AllAreLevelled();
    CompleteMeansAcyclic(Deps(nodes), pass.level);
    return Ok(pass.levels);
  }

  /** The state shared by the nested calls of the cycle detector's depth-first search. */
  class CyclePass {
    const nodes: NodeMap
    var visited: set<Id>
    var recursionStack: set<Id>
    ghost var finished: seq<Id>  // visited nodes no longer on the stack, in the order they left it

    ghost predicate Valid(stack: seq<Id>)
      reads this
    {
      && Keyed(nodes)
      && IsStack(Deps(nodes), stack)
      && recursionStack == Elements(stack)
      && IsPostorder(Deps(nodes), finished)
      && (forall id :: id in visited <==> id in finished || id in stack)
      && (forall id | id in finished :: id !in stack)
    }

    constructor (nodes: NodeMap)
      requires Keyed(nodes)
      ensures this.nodes == nodes && Valid([]) && fresh(this)
    {
      this.nodes := nodes;
      visited, recursionStack, finished := {}, {}, [];
    }

    method Dfs(nodeId: Id, ghost stack: seq<Id>) returns (r: Result<bool, BuildError>)
      requires Valid(stack) && nodeId !in visited
      requires Follows(Deps(nodes), stack, nodeId) && (stack == [] ==> nodeId in nodes.at)
      modifies this
      ensures r.Err? ==> Justified(Deps(nodes), r.error)
      ensures r.Ok? ==>
        && !r.value
        && Valid(stack) && recursionStack == old(recursionStack) && old(visited) <= visited
        && nodeId in visited
      decreases nodes.at.Keys - visited
    {
      visited := visited + {nodeId};
      recursionStack := recursionStack + {nodeId};
      if nodeId !in nodes.at {
        return Err(MissingNode(nodeId));
      }
      Push(Deps(nodes), stack, nodeId);
      var node := nodes.at[nodeId];
      ghost var inner := stack + [nodeId];
      for i := 0 to |node.dependencies|
        invariant Valid(inner)
        invariant recursionStack == old(recursionStack) + {nodeId}
        invariant old(visited) + {nodeId} <= visited
        invariant forall d | d in node.dependencies[..i] :: d in finished
      {
        var depId := node.dependencies[i];
        if depId !in visited {
          var d := Dfs(depId, inner);
          if d.Err? || d.value {
            return d;
          }
        } else if depId in recursionStack {
          BackEdgeIsCycle(Deps(nodes), inner, depId);
          return Err(CircularDependency);
        }
        assert depId in finished;
      }
      Pop(Deps(nodes), stack, nodeId);
      recursionStack := recursionStack - {nodeId};
      PostorderAppend(Deps(nodes), finished, nodeId);
      finished := finished + [nodeId];
      return Ok(false);
    }
  }

  /** The detector throws on exactly the graphs on which no levels can be computed. */
  method DetectCycles(nodes: NodeMap) returns (r: Result<(), BuildError>)
    requires ValidNodes(nodes)
    ensures r.Ok? <==> Closed(Deps(nodes)) && !Cyclic(Deps(nodes))
    ensures r.Err? ==> Justified(Deps(nodes), r.error)
  {
    var pass := new CyclePass(nodes);
    for i := 0 to |nodes.order|
      invariant pass.nodes == nodes && fresh(pass)
      invariant pass.Valid([])
      invariant forall j | 0 <= j < i :: nodes.order[j] in pass.visited
    {
      if nodes.order[i] !in pass.visited {
        var v := pass.Dfs(nodes.order[i], []);
        if v.Err? {
          return Err(v.error);
        }
      }
    }
    PostorderMeansAcyclic(Deps(nodes), pass.finished);
    return Ok(());
  }
}
