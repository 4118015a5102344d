/** Plans, schedules and parallel groups made from a dependency graph, and what they guarantee. */
module ExecutionPlan {
  import opened Wrappers
  import opened Sequences
  import opened DependencyGraphs
  import opened DependencyNodes
  import opened DependencyVisits
  import opened ChainLatencies
  import opened CriticalPathSearch
  import opened DependencyBuild

  datatype ParallelGroup = ParallelGroup(
    level: nat, nodes: seq<Id>, estimatedLatency: real, canExecuteInParallel: bool, maxParallelism: int)

  datatype Plan = Plan(
    groups: seq<ParallelGroup>, estimatedSequentialLatency: real, estimatedParallelLatency: real, speedupFactor: real)

  datatype Action = Start | End

  datatype Event = Event(time: real, group: ParallelGroup, action: Action)

  /** `x` is the highest latency among `ids`. */
  ghost predicate IsSlowest(lat: LatencyMap, ids: seq<Id>, x: real) {
    && (exists id | id in ids :: id in lat && lat[id] == x)
    && (forall id | id in ids :: id in lat && lat[id] <= x)
  }

  /** One group after the other: the running time of a barrier schedule. */
  function TotalTime(groups: seq<ParallelGroup>): real {
    if groups == [] then 0.0
    else TotalTime(groups[..|groups| - 1]) + groups[|groups| - 1].estimatedLatency
  }

  function GroupNodes(groups: seq<ParallelGroup>): seq<Id> {
    if groups == [] then [] else GroupNodes(groups[..|groups| - 1]) + groups[|groups| - 1].nodes
  }

  /** The group that is made of one level; the cap limits only `maxParallelism`. */
  ghost predicate IsGroupOf(group: ParallelGroup, lat: LatencyMap, ids: seq<Id>, cap: int) {
    && group.nodes == ids && IsSlowest(lat, ids, group.estimatedLatency)
    && group.canExecuteInParallel == (|ids| > 1)
    && group.maxParallelism == (if |ids| < cap then |ids| else cap)
  }

  /** Group `i` is level `i`, and every level has its group. */
  ghost predicate IsPlanOf(groups: seq<ParallelGroup>, lat: LatencyMap, levels: map<nat, seq<Id>>, cap: int) {
    && (forall n | n in levels :: n < |groups|)
    && (forall i | 0 <= i < |groups| ::
      groups[i].level == i && i in levels && IsGroupOf(groups[i], lat, levels[i], cap))
  }

  // ------------------------------------------------------------- generating a plan

  ghost predicate Ascending(s: seq<nat>) {
    forall i, j | 0 <= i < j < |s| :: s[i] < s[j]
  }

  lemma {:induction false} Smallest(s: set<nat>) returns (m: nat)
    requires s != {}
    ensures m in s && forall x | x in s :: m <= x
  {
    m :| m in s;
    if s != {m} {
      var rest := Smallest(s - {m});
      forall x | x in s ensures (if m < rest then m else rest) <= x {
        assert x == m || x in s - {m};
      }
      m := if m < rest then m else rest;
    }
  }

  /** The level numbers in increasing order. */
  method SortLevels(levels: map<nat, seq<Id>>) returns (sorted: seq<nat>)
    ensures Ascending(sorted) && Elements(sorted) == levels.Keys
  {
    sorted := [];
    var rest := levels.Keys;
    while rest != {}
      invariant Ascending(sorted) && rest <= levels.Keys && Elements(sorted) == levels.Keys - rest
      invariant forall x, y | x in sorted && y in rest :: x < y
      decreases rest
    {
      ghost var smallest := Smallest(rest);
      var least :| least in rest && forall x | x in rest :: least <= x;
      ghost var before := sorted;
      forall i | 0 <= i < |before| ensures before[i] < least {
        assert before[i] in before;
      }
      sorted, rest := sorted + [least], rest - {least};
      assert Elements(sorted) == Elements(before) + {least};
    }
  }

  /** In an increasing sequence of naturals whose elements are downward closed, position is value. */
  lemma {:induction false} AscendingIsContiguous(s: seq<nat>, i: nat)
    requires Ascending(s) && i < |s|
    requires forall n, k: nat | n in s && k <= n :: k in s
    ensures s[i] == i
    decreases i
  {
    assert i <= s[i] by {
      if i > 0 {
        AscendingIsContiguous(s, i - 1);
      }
    }
    assert i in s by {
      assert s[i] in s;
    }
    var j :| 0 <= j < |s| && s[j] == i;
    if j < i {
      AscendingIsContiguous(s, j);
    }
  }

  /** The maximum over a level's latencies. */
  method MaxLatency(nodes: NodeMap, ids: seq<Id>) returns (maxLatency: real)
    requires ids != [] && forall id | id in ids :: id in nodes.at
    ensures IsSlowest(Latencies(nodes), ids, maxLatency)
  {
    ghost var lat := Latencies(nodes);
    maxLatency := nodes.at[ids[0]].estimatedLatency;
    ghost var k := 0;
    for i := 1 to |ids|
      invariant 0 <= k < |ids| && lat[ids[k]] == maxLatency
      invariant forall j | 0 <= j < i :: lat[ids[j]] <= maxLatency
    {
      var latency := nodes.at[ids[i]].estimatedLatency;
      if latency > maxLatency {
        maxLatency, k := latency, i;
      }
    }
    assert ids[k] in ids;
  }

  lemma FiledLevelsAreClosed(g: Graph, level: map<Id, nat>, levels: map<nat, seq<Id>>, n: nat, k: nat)
    requires Complete(g, level) && Filed(levels, level) && n in levels && k <= n
    ensures k in levels
  {
    assert IsBucket(levels, level, n);
    var id := levels[n][0];
    LevelsAreContiguous(g, level, id, k);
    var x :| x in g && level[x] == k;
    assert IsFiled(levels, level, x);
  }

  method GenerateGroups(nodes: NodeMap, levels: map<nat, seq<Id>>, cap: int)
    returns (groups: seq<ParallelGroup>, total: real)
    requires Complete(Deps(nodes), NodeLevels(nodes)) && Filed(levels, NodeLevels(nodes))
    ensures IsPlanOf(groups, Latencies(nodes), levels, cap) && total == TotalTime(groups)
  {
    ghost var level := NodeLevels(nodes);
    var sorted := SortLevels(levels);
    forall i | 0 <= i < |sorted| ensures sorted[i] == i {
      forall n, k: nat | n in sorted && k <= n ensures k in sorted {
        assert n in Elements(sorted);
        FiledLevelsAreClosed(Deps(nodes), level, levels, n, k);
        assert k in Elements(sorted);
      }
      AscendingIsContiguous(sorted, i);
    }
    groups, total := [], 0.0;
    for i := 0 to |sorted|
      invariant |groups| == i && total == TotalTime(groups)
      invariant forall j | 0 <= j < i ::
        groups[j].level == j && j in levels && IsGroupOf(groups[j], Latencies(nodes), levels[j], cap)
    {
      assert sorted[i] in Elements(sorted);
      assert IsBucket(levels, level, sorted[i]);
      var ids := levels[sorted[i]];
      var maxLatency := MaxLatency(nodes, ids);
      var group := ParallelGroup(sorted[i], ids, maxLatency, |ids| > 1, if |ids| < cap then |ids| else cap);
      assert (groups + [group])[..i] == groups;
      groups, total := groups + [group], total + maxLatency;
    }
    forall n | n in levels ensures n < |groups| {
      assert n in Elements(sorted);
    }
  }

  /** The plan for a graph that was built, for any width cap. */
  method GenerateParallelExecutionPlan(graph: DependencyGraph, ghost body: seq<Statement>, maxParallelism: int)
    returns (plan: Plan)
    requires IsGraphOf(graph, body)
    ensures IsPlanOf(plan.groups, LatenciesOf(body), graph.levels, maxParallelism)
    ensures plan.estimatedSequentialLatency == graph.totalLatency
    ensures plan.estimatedParallelLatency == TotalTime(plan.groups) > 0.0
    ensures plan.speedupFactor == plan.estimatedSequentialLatency / plan.estimatedParallelLatency
    ensures 0.0 < plan.speedupFactor <= 1.0
  {
    RepresentsGraph(graph.nodes, body);
    var groups, parallel := GenerateGroups(graph.nodes, graph.levels, maxParallelism);
    ghost var g, lat, level := GraphOf(body), LatenciesOf(body), NodeLevels(graph.nodes);
    PathFitsPlan(g, lat, level, graph.levels, groups, maxParallelism, graph.criticalPath);
    var sequential := graph.totalLatency;
    RatioAtMostOne(sequential, parallel);
    plan := Plan(groups, sequential, parallel, sequential / parallel);
  }

  lemma RatioAtMostOne(x: real, y: real)
    requires 0.0 < x <= y
    ensures 0.0 < x / y <= 1.0
  {
  }

  // ------------------------------------------------------------------ the bounds

  lemma {:induction false} LatencyIsPositive(g: Graph, lat: LatencyMap, p: seq<Id>)
    requires Weighted(g, lat) && IsChain(g, p)
    ensures Latency(lat, p) >= 0.0 && (p != [] ==> Latency(lat, p) > 0.0)
  {
    if p != [] {
      LatencyIsPositive(g, lat, p[..|p| - 1]);
    }
  }

  lemma {:induction false} TimeGrows(g: Graph, lat: LatencyMap, levels: map<nat, seq<Id>>,
                                     groups: seq<ParallelGroup>, cap: int, i: nat, j: nat)
    requires Weighted(g, lat) && IsPlanOf(groups, lat, levels, cap) && i <= j <= |groups|
    ensures TotalTime(groups[..i]) <= TotalTime(groups[..j])
    decreases j
  {
    if i < j {
      TimeGrows(g, lat, levels, groups, cap, i, j - 1);
      assert groups[..j][..j - 1] == groups[..j - 1];
      assert IsGroupOf(groups[j - 1], lat, levels[j - 1], cap);
    }
  }

  lemma NodeFitsGroup(g: Graph, lat: LatencyMap, level: map<Id, nat>, levels: map<nat, seq<Id>>,
                      groups: seq<ParallelGroup>, cap: int, id: Id)
    requires Complete(g, level) && Filed(levels, level) && Weighted(g, lat) && IsPlanOf(groups, lat, levels, cap)
    requires id in g
    ensures level[id] < |groups|
    ensures TotalTime(groups[..level[id]]) + lat[id] <= TotalTime(groups[..level[id] + 1])
  {
    var n := level[id];
    assert IsFiled(levels, level, id) && IsGroupOf(groups[n], lat, levels[n], cap);
    assert groups[..n + 1][..n] == groups[..n];
  }

  /** By the end of the group of its last node, a barrier schedule has had time for the whole chain. */
  lemma {:induction false} ChainFitsPlan(g: Graph, lat: LatencyMap, level: map<Id, nat>, levels: map<nat, seq<Id>>,
                                         groups: seq<ParallelGroup>, cap: int, p: seq<Id>)
    requires Complete(g, level) && Filed(levels, level) && Weighted(g, lat) && IsPlanOf(groups, lat, levels, cap)
    requires IsChain(g, p) && p != []
    ensures level[p[|p| - 1]] < |groups|
    ensures Latency(lat, p) <= TotalTime(groups[..level[p[|p| - 1]] + 1])
  {
    var id, q := p[|p| - 1], p[..|p| - 1];
    var n := level[id];
    NodeFitsGroup(g, lat, level, levels, groups, cap, id);
    if q == [] {
      TimeGrows(g, lat, levels, groups, cap, 0, n);
    } else {
      assert Placed(g, level, id) && q[|q| - 1] in g[id];
      ChainFitsPlan(g, lat, level, levels, groups, cap, q);
      TimeGrows(g, lat, levels, groups, cap, level[q[|q| - 1]] + 1, n);
    }
  }

  /** No dependency chain takes longer than the plan. */
  lemma PathFitsPlan(g: Graph, lat: LatencyMap, level: map<Id, nat>, levels: map<nat, seq<Id>>,
                     groups: seq<ParallelGroup>, cap: int, p: seq<Id>)
    requires Complete(g, level) && Filed(levels, level) && Weighted(g, lat) && IsPlanOf(groups, lat, levels, cap)
    requires IsChain(g, p) && p != []
    ensures 0.0 < Latency(lat, p) <= TotalTime(groups)
  {
    LatencyIsPositive(g, lat, p);
    ChainFitsPlan(g, lat, level, levels, groups, cap, p);
    TimeGrows(g, lat, levels, groups, cap, level[p[|p| - 1]] + 1, |groups|);
    assert groups[..|groups|] == groups;
  }

  // --------------------------------------------------------------- the partition

  lemma {:induction false} GroupNodesCount(g: Graph, lat: LatencyMap, level: map<Id, nat>, levels: map<nat, seq<Id>>,
                                           groups: seq<ParallelGroup>, cap: int, k: nat, id: Id)
    requires Complete(g, level) && Filed(levels, level) && IsPlanOf(groups, lat, levels, cap) && k <= |groups|
    ensures multiset(GroupNodes(groups[..k]))[id] == if id in g && level[id] < k then 1 else 0
  {
    if k > 0 {
      GroupNodesCount(g, lat, level, levels, groups, cap, k - 1, id);
      assert groups[..k][..k - 1] == groups[..k - 1];
      var ids := levels[k - 1];
      assert IsBucket(levels, level, k - 1) && IsGroupOf(groups[k - 1], lat, ids, cap);
      if id in g {
        assert IsFiled(levels, level, id);
      }
      CountInBucket(ids, id);
    }
  }

  lemma {:induction false} CountInBucket(ids: seq<Id>, id: Id)
    requires NoDuplicates(ids)
    ensures multiset(ids)[id] == if id in ids then 1 else 0
  {
    if ids != [] {
      var init := ids[..|ids| - 1];
      assert ids == init + [ids[|ids| - 1]];
      CountInBucket(init, id);
    }
  }

  /** The groups hold every node of the graph exactly once. */
  lemma PlanPartitionsNodes(g: Graph, lat: LatencyMap, level: map<Id, nat>, levels: map<nat, seq<Id>>,
                            groups: seq<ParallelGroup>, cap: int, order: seq<Id>)
    requires Complete(g, level) && Filed(levels, level) && IsPlanOf(groups, lat, levels, cap)
    requires NoDuplicates(order) && Elements(order) == g.Keys
    ensures multiset(GroupNodes(groups)) == multiset(order)
  {
    forall id ensures multiset(GroupNodes(groups))[id] == multiset(order)[id] {
      GroupNodesCount(g, lat, level, levels, groups, cap, |groups|, id);
      assert groups[..|groups|] == groups;
      CountInBucket(order, id);
      assert id in Elements(order) <==> id in order;
      if id in g {
        assert IsFiled(levels, level, id);
      }
    }
  }

  lemma {:induction false} LatencyOfConcat(lat: LatencyMap, p: seq<Id>, q: seq<Id>)
    ensures Latency(lat, p + q) == Latency(lat, p) + Latency(lat, q)
  {
    if q == [] {
      assert p + q == p;
    } else {
      LatencyOfConcat(lat, p, q[..|q| - 1]);
      assert (p + q)[..|p + q| - 1] == p + q[..|q| - 1];
    }
  }

  function Without<T>(s: seq<T>, i: nat): (r: seq<T>)
    requires i < |s|
    ensures |r| == |s| - 1
  {
    s[..i] + s[i + 1..]
  }

  lemma WithoutOne<T>(s: seq<T>, i: nat)
    requires i < |s|
    ensures multiset(Without(s, i)) == multiset(s) - multiset{s[i]}
  {
    assert s == s[..i] + [s[i]] + s[i + 1..];
  }

  lemma LatencyWithoutOne(lat: LatencyMap, p: seq<Id>, i: nat)
    requires i < |p|
    ensures Latency(lat, p) == Latency(lat, Without(p, i)) + Latency(lat, [p[i]])
  {
    assert p == p[..i] + ([p[i]] + p[i + 1..]);
    LatencyOfConcat(lat, p[..i], [p[i]] + p[i + 1..]);
    LatencyOfConcat(lat, [p[i]], p[i + 1..]);
    LatencyOfConcat(lat, p[..i], p[i + 1..]);
  }

  /** The sum of latencies does not depend on the order. */
  lemma {:induction false} LatencyOfPermutation(lat: LatencyMap, p: seq<Id>, q: seq<Id>)
    requires multiset(p) == multiset(q)
    ensures Latency(lat, p) == Latency(lat, q)
    decreases |p|
  {
    assert |p| == |multiset(p)| == |q|;
    if p != [] {
      assert p[0] in multiset(q);
      var i :| 0 <= i < |q| && q[i] == p[0];
      WithoutOne(p, 0);
      WithoutOne(q, i);
      LatencyWithoutOne(lat, p, 0);
      LatencyWithoutOne(lat, q, i);
      LatencyOfPermutation(lat, Without(p, 0), Without(q, i));
    }
  }

  lemma {:induction false} SlowestIsAtMostSum(lat: LatencyMap, ids: seq<Id>, id: Id)
    requires (forall x | x in ids :: x in lat && lat[x] > 0.0) && id in ids
    ensures lat[id] <= Latency(lat, ids)
  {
    var init, last := ids[..|ids| - 1], ids[|ids| - 1];
    if init == [] {
    } else {
      SlowestIsAtMostSum(lat, init, if id in init then id else init[0]);
      assert id == last || id in init;
    }
  }

  lemma GroupAtMostSum(lat: LatencyMap, ids: seq<Id>, x: real)
    requires IsSlowest(lat, ids, x) && forall id | id in lat :: lat[id] > 0.0
    ensures x <= Latency(lat, ids)
  {
    var id :| id in ids && id in lat && lat[id] == x;
    SlowestIsAtMostSum(lat, ids, id);
  }

  lemma {:induction false} GroupsAtMostSum(g: Graph, lat: LatencyMap, levels: map<nat, seq<Id>>,
                                           groups: seq<ParallelGroup>, cap: int, k: nat)
    requires Weighted(g, lat) && IsPlanOf(groups, lat, levels, cap) && k <= |groups|
    ensures TotalTime(groups[..k]) <= Latency(lat, GroupNodes(groups[..k]))
  {
    if k > 0 {
      GroupsAtMostSum(g, lat, levels, groups, cap, k - 1);
      assert groups[..k][..k - 1] == groups[..k - 1];
      assert IsGroupOf(groups[k - 1], lat, levels[k - 1], cap);
      GroupAtMostSum(lat, levels[k - 1], groups[k - 1].estimatedLatency);
      LatencyOfConcat(lat, GroupNodes(groups[..k - 1]), levels[k - 1]);
    }
  }

  /** The plan takes at most as long as running every node after the other. */
  lemma PlanAtMostSequential(g: Graph, lat: LatencyMap, level: map<Id, nat>, levels: map<nat, seq<Id>>,
                             groups: seq<ParallelGroup>, cap: int, order: seq<Id>)
    requires Complete(g, level) && Filed(levels, level) && Weighted(g, lat) && IsPlanOf(groups, lat, levels, cap)
    requires NoDuplicates(order) && Elements(order) == g.Keys
    ensures TotalTime(groups) <= Latency(lat, order)
  {
    GroupsAtMostSum(g, lat, levels, groups, cap, |groups|);
    assert groups[..|groups|] == groups;
    PlanPartitionsNodes(g, lat, level, levels, groups, cap, order);
    LatencyOfPermutation(lat, GroupNodes(groups), order);
  }

  /** No split of the nodes into waves that respects the dependencies has fewer waves than the plan has groups. */
  lemma PlanHasFewestWaves(g: Graph, lat: LatencyMap, level: map<Id, nat>, levels: map<nat, seq<Id>>,
                           groups: seq<ParallelGroup>, cap: int, wave: map<Id, nat>, count: nat)
    requires Complete(g, level) && Filed(levels, level) && IsPlanOf(groups, lat, levels, cap)
    ensures IsWavePlan(g, level, |groups|)
    ensures IsWavePlan(g, wave, count) ==> |groups| <= count
  {
    forall id | id in g ensures level[id] < |groups| {
      assert IsFiled(levels, level, id);
    }
    LevelsAreAWavePlan(g, level, |groups|);
    if IsWavePlan(g, wave, count) && groups != [] {
      var top := |groups| - 1;
      assert IsBucket(levels, level, top);
      LevelIsEarliestWave(g, level, wave, count, levels[top][0]);
    }
  }

  // ---------------------------------------------------------------- the schedule

  /** Start and end of every group, in order, without gaps. */
  function ScheduleOf(groups: seq<ParallelGroup>): (schedule: seq<Event>)
    ensures |schedule| == 2 * |groups|
  {
    if groups == [] then []
    else
      var init, last := groups[..|groups| - 1], groups[|groups| - 1];
      ScheduleOf(init) + [Event(TotalTime(init), last, Start), Event(TotalTime(groups), last, End)]
  }

  method GenerateExecutionSchedule(groups: seq<ParallelGroup>) returns (schedule: seq<Event>, totalTime: real)
    ensures schedule == ScheduleOf(groups) && totalTime == TotalTime(groups)
  {
    schedule, totalTime := [], 0.0;
    for k := 0 to |groups|
      invariant schedule == ScheduleOf(groups[..k]) && totalTime == TotalTime(groups[..k])
    {
      assert groups[..k + 1][..k] == groups[..k];
      schedule := schedule + [Event(totalTime, groups[k], Start)];
      totalTime := totalTime + groups[k].estimatedLatency;
      schedule := schedule + [Event(totalTime, groups[k], End)];
    }
    assert groups[..|groups|] == groups;
  }

  function StartOf(groups: seq<ParallelGroup>, i: nat): Event
    requires i < |groups|
  {
    ScheduleOf(groups)[2 * i]
  }

  function EndOf(groups: seq<ParallelGroup>, i: nat): Event
    requires i < |groups|
  {
    ScheduleOf(groups)[2 * i + 1]
  }

  lemma {:induction false} ScheduleAt(groups: seq<ParallelGroup>, i: nat)
    requires i < |groups|
    ensures StartOf(groups, i) == Event(TotalTime(groups[..i]), groups[i], Start)
    ensures EndOf(groups, i) == Event(TotalTime(groups[..i + 1]), groups[i], End)
  {
    var init := groups[..|groups| - 1];
    if i < |init| {
      ScheduleAt(init, i);
      assert init[..i] == groups[..i] && init[..i + 1] == groups[..i + 1];
    } else {
      assert groups[..i + 1] == groups;
    }
  }

  lemma GroupIsLevel(g: Graph, lat: LatencyMap, level: map<Id, nat>, levels: map<nat, seq<Id>>,
                     groups: seq<ParallelGroup>, cap: int, i: nat, id: Id)
    requires Filed(levels, level) && IsPlanOf(groups, lat, levels, cap) && i < |groups|
    ensures id in groups[i].nodes <==> id in level && level[id] == i
  {
    assert IsBucket(levels, level, i) && IsGroupOf(groups[i], lat, levels[i], cap);
    if id in level {
      assert IsFiled(levels, level, id);
    }
  }

  /** A node's group starts no earlier than the end of the group of anything it depends on, directly or not. */
  lemma ScheduleRespectsDependencies(g: Graph, lat: LatencyMap, level: map<Id, nat>, levels: map<nat, seq<Id>>,
                                     groups: seq<ParallelGroup>, cap: int, p: seq<Id>, i: nat, j: nat)
    requires Complete(g, level) && Filed(levels, level) && Weighted(g, lat) && IsPlanOf(groups, lat, levels, cap)
    requires IsChain(g, p) && |p| > 1 && i < |groups| && j < |groups|
    requires p[0] in groups[i].nodes && p[|p| - 1] in groups[j].nodes
    ensures EndOf(groups, i).group == groups[i] && StartOf(groups, j).group == groups[j]
    ensures EndOf(groups, i).time <= StartOf(groups, j).time
  {
    GroupIsLevel(g, lat, level, levels, groups, cap, i, p[0]);
    GroupIsLevel(g, lat, level, levels, groups, cap, j, p[|p| - 1]);
    ChainRises(g, level, p);
    TimeGrows(g, lat, levels, groups, cap, i + 1, j);
    ScheduleAt(groups, i);
    ScheduleAt(groups, j);
  }

  // ---------------------------------------------------------- groups for the IR

  /** A quotient of two numbers; dividing a positive number by zero gives infinity. */
  datatype Quotient = Finite(value: real) | Infinite

  datatype IRParallelGroup = IRParallelGroup(level: nat, instructions: seq<Id>, estimatedSpeedup: Quotient)

  function Over(n: nat, d: int): Quotient {
    if d == 0 then Infinite else Finite(n as real / d as real)
  }

  /** The groups of more than one node, in order. */
  function IRGroups(groups: seq<ParallelGroup>): seq<IRParallelGroup> {
    if groups == [] then []
    else
      var rest, last := IRGroups(groups[..|groups| - 1]), groups[|groups| - 1];
      if last.canExecuteInParallel && |last.nodes| > 1
      then rest + [IRParallelGroup(last.level, last.nodes, Over(|last.nodes|, last.maxParallelism))]
      else rest
  }

  method OptimizeIRForParallel(groups: seq<ParallelGroup>) returns (parallelGroups: seq<IRParallelGroup>)
    ensures parallelGroups == IRGroups(groups)
  {
    parallelGroups := [];
    for k := 0 to |groups|
      invariant parallelGroups == IRGroups(groups[..k])
    {
      assert groups[..k + 1][..k] == groups[..k];
      var group := groups[k];
      if group.canExecuteInParallel && |group.nodes| > 1 {
        parallelGroups := parallelGroups + [
          IRParallelGroup(group.level, group.nodes, Over(|group.nodes|, group.maxParallelism))];
      }
    }
    assert groups[..|groups|] == groups;
  }

  /** A level of more than one node, no two of which are joined by a dependency chain. */
  ghost predicate IsIndependentLevel(g: Graph, levels: map<nat, seq<Id>>, ir: IRParallelGroup) {
    && |ir.instructions| > 1 && ir.level in levels && levels[ir.level] == ir.instructions
    && forall p | IsChain(g, p) && |p| > 1 && p[0] in ir.instructions :: p[|p| - 1] !in ir.instructions
  }

  lemma {:induction false} IRGroupsAreIndependent(
      g: Graph, lat: LatencyMap, level: map<Id, nat>, levels: map<nat, seq<Id>>,
      groups: seq<ParallelGroup>, cap: int, k: nat)
    requires Complete(g, level) && Filed(levels, level) && IsPlanOf(groups, lat, levels, cap)
    requires k <= |groups|
    ensures forall ir | ir in IRGroups(groups[..k]) :: IsIndependentLevel(g, levels, ir)
  {
    if k > 0 {
      IRGroupsAreIndependent(g, lat, level, levels, groups, cap, k - 1);
      assert groups[..k][..k - 1] == groups[..k - 1];
      assert IsGroupOf(groups[k - 1], lat, levels[k - 1], cap) && IsBucket(levels, level, k - 1);
      forall p | IsChain(g, p) && |p| > 1 && p[0] in levels[k - 1] ensures p[|p| - 1] !in levels[k - 1] {
        ChainRises(g, level, p);
      }
    }
  }

  /** Every group of more than one node is listed, and no other level is. */
  lemma {:induction false} IRGroupsAreComplete(
      lat: LatencyMap, levels: map<nat, seq<Id>>, groups: seq<ParallelGroup>, cap: int, k: nat, i: nat)
    requires IsPlanOf(groups, lat, levels, cap) && i < k <= |groups|
    ensures var n := |groups[i].nodes|;
      if n > 1 then IRParallelGroup(i, groups[i].nodes, Over(n, groups[i].maxParallelism)) in IRGroups(groups[..k])
      else forall ir | ir in IRGroups(groups[..k]) :: ir.level != i
  {
    assert groups[..k][..k - 1] == groups[..k - 1];
    assert IsGroupOf(groups[k - 1], lat, levels[k - 1], cap);
    if i < k - 1 {
      IRGroupsAreComplete(lat, levels, groups, cap, k - 1, i);
    } else {
      IRLevelsAreBelow(lat, levels, groups, cap, k - 1);
      assert |groups[i].nodes| > 1 ==> IRGroups(groups[..k])[|IRGroups(groups[..k - 1])|].level == i;
    }
  }

  /** The estimated speedup of a group is its size divided by its width, hence at least 1; with a cap
      of zero it is infinite. */
  lemma {:induction false} SpeedupIsAtLeastOne(
      lat: LatencyMap, levels: map<nat, seq<Id>>, groups: seq<ParallelGroup>, cap: int, k: nat)
    requires IsPlanOf(groups, lat, levels, cap) && cap >= 0 && k <= |groups|
    ensures forall ir | ir in IRGroups(groups[..k]) :: IsFairSpeedup(ir, cap)
  {
    if k > 0 {
      assert groups[..k][..k - 1] == groups[..k - 1];
      assert IsGroupOf(groups[k - 1], lat, levels[k - 1], cap);
      SpeedupIsAtLeastOne(lat, levels, groups, cap, k - 1);
      var n := |groups[k - 1].nodes|;
      if n > 1 && cap > 0 {
        FairQuotient(n, if n < cap then n else cap);
      }
    }
  }

  ghost predicate IsFairSpeedup(ir: IRParallelGroup, cap: int) {
    var n := |ir.instructions|;
    if cap == 0 then ir.estimatedSpeedup == Infinite
    else
      && ir.estimatedSpeedup.Finite? && ir.estimatedSpeedup.value >= 1.0
      && ir.estimatedSpeedup.value * (if n < cap then n else cap) as real == n as real
  }

  lemma FairQuotient(n: nat, d: nat)
    requires 0 < d <= n
    ensures n as real / d as real >= 1.0 && (n as real / d as real) * d as real == n as real
  {
  }

  lemma {:induction false} IRLevelsAreBelow(
      lat: LatencyMap, levels: map<nat, seq<Id>>, groups: seq<ParallelGroup>, cap: int, k: nat)
    requires IsPlanOf(groups, lat, levels, cap) && k <= |groups|
    ensures forall ir | ir in IRGroups(groups[..k]) :: ir.level < k
  {
    if k > 0 {
      assert groups[..k][..k - 1] == groups[..k - 1];
      IRLevelsAreBelow(lat, levels, groups, cap, k - 1);
    }
  }

  // ------------------------------------------------------------------- validation

  datatype Validation = Validation(valid: bool, errors: seq<BuildError>, orphans: seq<Id>, longPath: bool)

  /** Neither depends on anything nor has anything that depends on it. */
  ghost predicate IsOrphan(g: Graph, id: Id) {
    id in g && g[id] == [] && forall x | x in g :: id !in g[x]
  }

  /** Valid exactly when the dependencies are closed and acyclic, hence for every graph that was built.
      Because `dependents` repeats what the node's own statements list, a node is reported as orphaned
      exactly if they list nothing; with unique ids that report is right only without any dependencies. */
  method ValidateDependencyGraph(graph: DependencyGraph, ghost body: seq<Statement>) returns (v: Validation)
    requires ValidNodes(graph.nodes)
    ensures v.valid <==> Closed(Deps(graph.nodes)) && !Cyclic(Deps(graph.nodes))
    ensures v.valid <==> v.errors == []
    ensures forall e | e in v.errors :: Justified(Deps(graph.nodes), e)
    ensures v.longPath <==> |graph.criticalPath| > 10
    ensures Elements(v.orphans) ==
      set id | id in graph.nodes.at && graph.nodes.at[id].dependencies == [] && graph.nodes.at[id].dependents == []
    ensures IsGraphOf(graph, body) ==>
      v.valid && forall id :: id in v.orphans <==> id in GraphOf(body) && Listed(body, id) == multiset{}
    ensures IsGraphOf(graph, body) && UniqueIds(body) ==>
      ((forall id :: id in v.orphans <==> IsOrphan(GraphOf(body), id)) <==> Edgeless(GraphOf(body)))
  {
    var errors, orphans := [], [];
    var cycles := DetectCycles(graph.nodes);
    if cycles.Err? {
      errors := [cycles.error];
    }
    orphans := FindOrphans(graph.nodes);
    if IsGraphOf(graph, body) {
      RepresentsGraph(graph.nodes, body);
      CompleteMeansAcyclic(GraphOf(body), NodeLevels(graph.nodes));
      OrphansListNothing(graph.nodes, body, orphans);
      if UniqueIds(body) {
        ReportIsRightIff(body, NodeLevels(graph.nodes), orphans);
      }
    }
    v := Validation(errors == [], errors, orphans, |graph.criticalPath| > 10);
  }

  method FindOrphans(nodes: NodeMap) returns (orphans: seq<Id>)
    requires ValidNodes(nodes)
    ensures Elements(orphans) ==
      set id | id in nodes.at && nodes.at[id].dependencies == [] && nodes.at[id].dependents == []
  {
    orphans := [];
    for i := 0 to |nodes.order|
      invariant Elements(orphans) ==
        set id | id in nodes.order[..i] && nodes.at[id].dependencies == [] && nodes.at[id].dependents == []
    {
      PrefixGrows(nodes.order, i);
      var node := nodes.at[nodes.order[i]];
      if |node.dependencies| == 0 && |node.dependents| == 0 {
        ghost var before := orphans;
        orphans := orphans + [nodes.order[i]];
        assert Elements(orphans) == Elements(before) + {nodes.order[i]};
      }
    }
    assert nodes.order[..|nodes.order|] == nodes.order;
  }

  lemma OrphansListNothing(nodes: NodeMap, body: seq<Statement>, orphans: seq<Id>)
    requires Represents(nodes, Declared(body)) && DependentsMirror(nodes, body)
    requires Elements(orphans) ==
      set id | id in nodes.at && nodes.at[id].dependencies == [] && nodes.at[id].dependents == []
    ensures forall id :: id in orphans <==> id in GraphOf(body) && Listed(body, id) == multiset{}
  {
    RepresentsGraph(nodes, body);
    forall id ensures id in orphans <==> id in GraphOf(body) && Listed(body, id) == multiset{} {
      assert id in orphans <==> id in Elements(orphans);
      if id in GraphOf(body) {
        assert multiset(nodes.at[id].dependents) == Listed(body, id);
        assert |multiset(nodes.at[id].dependents)| == |nodes.at[id].dependents|;
        ListsItsDependencies(body, id);
      }
    }
  }

  /** Everything the counting statement of an id lists is recorded for the id. */
  lemma {:induction false} ListsItsDependencies(body: seq<Statement>, id: Id)
    requires id in GraphOf(body)
    ensures multiset(GraphOf(body)[id]) <= Listed(body, id)
  {
    var init, last := body[..|body| - 1], body[|body| - 1];
    if last.id != id {
      ListsItsDependencies(init, id);
    }
  }

  /** Dependency-free nodes are orphans only in a graph without any dependencies. */
  lemma OrphansIffEdgeless(g: Graph, level: map<Id, nat>)
    requires Complete(g, level)
    ensures (forall id | id in g && g[id] == [] :: IsOrphan(g, id)) <==> Edgeless(g)
  {
    if !Edgeless(g) {
      var x :| x in g && g[x] != [];
      var d := FirstWalk(g, level, x);
      assert |d| > 1 && d[0] in g[d[1]];
      assert !IsOrphan(g, d[0]);
    }
  }

  lemma ReportIsRightIff(body: seq<Statement>, level: map<Id, nat>, orphans: seq<Id>)
    requires Complete(GraphOf(body), level) && UniqueIds(body)
    requires forall id :: id in orphans <==> id in GraphOf(body) && Listed(body, id) == multiset{}
    ensures (forall id :: id in orphans <==> IsOrphan(GraphOf(body), id)) <==> Edgeless(GraphOf(body))
  {
    var g := GraphOf(body);
    OrphansIffEdgeless(g, level);
    forall id ensures id in orphans <==> id in g && g[id] == [] {
      ListedOnce(body, id);
      assert id in g ==> |multiset(g[id])| == |g[id]|;
    }
  }

  /** With unique ids, `dependents` is a permutation of the node's own dependencies. */
  lemma {:induction false} DependentsAreOwnDependencies(nodes: NodeMap, body: seq<Statement>)
    requires Represents(nodes, Declared(body)) && DependentsMirror(nodes, body) && UniqueIds(body)
    ensures forall id | id in nodes.at :: multiset(nodes.at[id].dependents) == multiset(nodes.at[id].dependencies)
    ensures forall id | id in nodes.at :: nodes.at[id].dependents == [] <==> nodes.at[id].dependencies == []
  {
    forall id | id in nodes.at
      ensures multiset(nodes.at[id].dependents) == multiset(nodes.at[id].dependencies)
      ensures nodes.at[id].dependents == [] <==> nodes.at[id].dependencies == []
    {
      ListedOnce(body, id);
      assert |multiset(nodes.at[id].dependents)| == |nodes.at[id].dependents|;
    }
  }
}
