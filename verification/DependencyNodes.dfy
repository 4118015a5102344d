/** The data of the parallel execution optimizer: statements, nodes and the graph they form. */
module DependencyNodes {
  import opened Wrappers
  import opened Sequences
  import opened DependencyGraphs

  /** What the optimizer reads of a statement; `dependencies` is None for kinds without the field. */
  datatype Statement = Statement(
    id: Id, kind: string, dependencies: Option<seq<Id>>, cost: Option<real>, tokens: Option<nat>)
  {
    function Dependencies(): seq<Id> {
      match dependencies
      case Some(deps) => deps
      case None => []
    }

    function Cost(): real {
      if cost.Some? then cost.value else 0.0
    }

    /** A hundredth of a millisecond a token; 100 when the count is missing or zero. */
    function Latency(): (latency: real)
      ensures latency > 0.0
      ensures tokens == None || tokens == Some(0) ==> latency == 100.0
      ensures tokens.Some? && tokens.value != 0 ==> 100.0 * latency == tokens.value as real
    {
      if tokens.Some? && tokens.value != 0 then tokens.value as real * 0.01 else 100.0
    }
  }

  class DependencyNode {
    const id: Id
    const kind: string
    const dependencies: seq<Id>
    const estimatedCost: real
    const estimatedLatency: real
    var dependents: seq<Id>
    var level: nat

    constructor (s: Statement)
      ensures id == s.id && kind == s.kind && dependencies == s.Dependencies()
      ensures estimatedCost == s.Cost() && estimatedLatency == s.Latency()
      ensures dependents == [] && level == 0
    {
      id, kind, dependencies := s.id, s.kind, s.Dependencies();
      estimatedCost, estimatedLatency := s.Cost(), s.Latency();
      dependents, level := [], 0;
    }
  }

  type NodeMap = OrderedMap<Id, DependencyNode>

  /** Nodes are filed under their own id, so distinct keys hold distinct objects. */
  ghost predicate Keyed(nodes: NodeMap) {
    forall id | id in nodes.at :: nodes.at[id].id == id
  }

  ghost predicate ValidNodes(nodes: NodeMap) {
    nodes.Valid() && Keyed(nodes)
  }

  ghost function Deps(nodes: NodeMap): Graph {
    map id | id in nodes.at :: nodes.at[id].dependencies
  }

  ghost function Latencies(nodes: NodeMap): map<Id, real> {
    map id | id in nodes.at :: nodes.at[id].estimatedLatency
  }

  ghost function NodeLevels(nodes: NodeMap): map<Id, nat>
    reads nodes.at.Values
  {
    map id | id in nodes.at :: nodes.at[id].level
  }

  datatype BuildError = CircularDependency | MissingNode(id: Id)

  /** The graph contains what the error complains about. */
  ghost predicate Justified(g: Graph, e: BuildError) {
    match e
    case CircularDependency => Cyclic(g)
    case MissingNode(id) => id !in g && exists x :: x in g && id in g[x]
  }

  /** Every node with a level is filed exactly once, under that level, and nothing else is filed. */
  ghost predicate Filed(levels: map<nat, seq<Id>>, level: map<Id, nat>) {
    && (forall n {:trigger IsBucket(levels, level, n)} | n in levels :: IsBucket(levels, level, n))
    && (forall id {:trigger IsFiled(levels, level, id)} | id in level :: IsFiled(levels, level, id))
  }

  ghost predicate IsBucket(levels: map<nat, seq<Id>>, level: map<Id, nat>, n: nat)
    requires n in levels
  {
    levels[n] != [] && NoDuplicates(levels[n]) && forall id | id in levels[n] :: id in level && level[id] == n
  }

  ghost predicate IsFiled(levels: map<nat, seq<Id>>, level: map<Id, nat>, id: Id)
    requires id in level
  {
    level[id] in levels && id in levels[level[id]]
  }

  /** The nodes of one level among `ids`, in their order. */
  function AtLevel(ids: seq<Id>, level: map<Id, nat>, n: nat): seq<Id> {
    if ids == [] then []
    else
      var id := ids[|ids| - 1];
      AtLevel(ids[..|ids| - 1], level, n) + if id in level && level[id] == n then [id] else []
  }

  /** Every level lists its nodes in the given order. */
  ghost predicate InOrder(levels: map<nat, seq<Id>>, level: map<Id, nat>, ids: seq<Id>) {
    forall n {:trigger IsListed(levels, level, ids, n)} | n in levels :: IsListed(levels, level, ids, n)
  }

  ghost predicate IsListed(levels: map<nat, seq<Id>>, level: map<Id, nat>, ids: seq<Id>, n: nat)
    requires n in levels
  {
    levels[n] == AtLevel(ids, level, n)
  }

  lemma {:induction false} AtLevelUnchanged(ids: seq<Id>, level: map<Id, nat>, id: Id, n: nat, k: nat)
    requires id !in ids
    ensures AtLevel(ids, level[id := n], k) == AtLevel(ids, level, k)
  {
    if ids != [] {
      AtLevelUnchanged(ids[..|ids| - 1], level, id, n, k);
    }
  }

  lemma {:induction false} NoneAtLevel(ids: seq<Id>, level: map<Id, nat>, n: nat)
    requires forall id | id in ids && id in level :: level[id] != n
    ensures AtLevel(ids, level, n) == []
  {
    if ids != [] {
      NoneAtLevel(ids[..|ids| - 1], level, n);
    }
  }

  lemma InOrderExtend(levels: map<nat, seq<Id>>, level: map<Id, nat>, ids: seq<Id>, id: Id, n: nat)
    requires Filed(levels, level) && InOrder(levels, level, ids) && id !in level && id !in ids
    ensures InOrder(FileUnder(levels, n, id), level[id := n], ids + [id])
  {
    var levels' := FileUnder(levels, n, id);
    forall k | k in levels' ensures IsListed(levels', level[id := n], ids + [id], k) {
      assert k in levels ==> IsListed(levels, level, ids, k);
      assert (ids + [id])[..|ids|] == ids;
      AtLevelUnchanged(ids, level, id, n, k);
      if k !in levels {
        assert forall x | x in ids && x in level :: IsFiled(levels, level, x);
        NoneAtLevel(ids, level, k);
      }
    }
  }

  /** Appends to the list of a level, starting the list if there is none. */
  function FileUnder(levels: map<nat, seq<Id>>, n: nat, id: Id): map<nat, seq<Id>> {
    levels[n := (if n in levels then levels[n] else []) + [id]]
  }

  /** The lists of the levels after the given nodes were finished in turn. */
  ghost predicate Recorded(levels: map<nat, seq<Id>>, level: map<Id, nat>, ids: seq<Id>) {
    Filed(levels, level) && InOrder(levels, level, ids) && forall id :: id in ids <==> id in level
  }

  lemma RecordedExtend(levels: map<nat, seq<Id>>, level: map<Id, nat>, ids: seq<Id>, id: Id, n: nat)
    requires Recorded(levels, level, ids) && id !in level
    ensures Recorded(FileUnder(levels, n, id), level[id := n], ids + [id])
  {
    assert id !in ids;
    FiledExtend(levels, level, id, n);
    InOrderExtend(levels, level, ids, id, n);
    assert forall x | x in ids + [id] :: x in ids || x == id;
    assert forall x | x in ids :: x in ids + [id];
    assert id in ids + [id];
  }

  lemma FiledExtend(levels: map<nat, seq<Id>>, level: map<Id, nat>, id: Id, n: nat)
    requires Filed(levels, level) && id !in level
    ensures Filed(FileUnder(levels, n, id), level[id := n])
  {
    var levels', level' := FileUnder(levels, n, id), level[id := n];
    forall k | k in levels' ensures IsBucket(levels', level', k) {
      assert k in levels ==> IsBucket(levels, level, k);
    }
    forall x | x in level' ensures IsFiled(levels', level', x) {
      if x == id {
        assert levels'[n][|levels'[n]| - 1] == id;
      } else {
        assert IsFiled(levels, level, x);
      }
    }
  }
}
