/** What the plan of a program body promises, and what its validation gets wrong. */
module ExecutionPlanFacts {
  import opened Wrappers
  import opened Sequences
  import opened DependencyGraphs
  import opened DependencyNodes
  import opened ChainLatencies
  import opened DependencyBuild
  import opened ExecutionPlan

  /** Every node has its place in the groups once, and no split that respects the dependencies has fewer waves. */
  ghost predicate IsMinimalPartition(body: seq<Statement>, groups: seq<ParallelGroup>) {
    && multiset(GroupNodes(groups)) == multiset(Declared(body).order)
    && forall wave, count | IsWavePlan(GraphOf(body), wave, count) :: |groups| <= count
  }

  /** The end of a chain starts no earlier than the group of its start ends. */
  ghost predicate RespectsChain(groups: seq<ParallelGroup>, p: seq<Id>) {
    forall i, j | 0 <= i < |groups| && 0 <= j < |groups| && p != []
      && p[0] in groups[i].nodes && p[|p| - 1] in groups[j].nodes ::
      EndOf(groups, i).time <= StartOf(groups, j).time
  }

  ghost predicate IsSoundSchedule(body: seq<Statement>, groups: seq<ParallelGroup>) {
    && (forall p | IsChain(GraphOf(body), p) && |p| > 1 :: RespectsChain(groups, p))
    && (forall p | IsChain(GraphOf(body), p) :: Latency(LatenciesOf(body), p) <= TotalTime(groups))
    && TotalTime(groups) <= Latency(LatenciesOf(body), Declared(body).order)
  }

  /** The plan for any body for which a graph could be built. */
  lemma {:induction false} PlanOfBody(
      graph: DependencyGraph, body: seq<Statement>, groups: seq<ParallelGroup>, cap: int)
    requires IsGraphOf(graph, body) && IsPlanOf(groups, LatenciesOf(body), graph.levels, cap)
    ensures IsMinimalPartition(body, groups)
    ensures IsSoundSchedule(body, groups)
    ensures forall ir | ir in IRGroups(groups) :: IsIndependentLevel(GraphOf(body), graph.levels, ir)
  {
    PlanOfLevels(body, NodeLevels(graph.nodes), graph.levels, groups, cap);
  }

  lemma PlanOfLevels(body: seq<Statement>, level: map<Id, nat>, levels: map<nat, seq<Id>>,
                     groups: seq<ParallelGroup>, cap: int)
    requires Complete(GraphOf(body), level) && Filed(levels, level)
    requires IsPlanOf(groups, LatenciesOf(body), levels, cap)
    ensures IsMinimalPartition(body, groups) && IsSoundSchedule(body, groups)
    ensures forall ir | ir in IRGroups(groups) :: IsIndependentLevel(GraphOf(body), levels, ir)
  {
    PartitionIsMinimal(body, level, levels, groups, cap);
    ScheduleIsSound(body, level, levels, groups, cap);
    AllIRGroupsAreIndependent(GraphOf(body), LatenciesOf(body), level, levels, groups, cap);
  }

  lemma AllIRGroupsAreIndependent(g: Graph, lat: LatencyMap, level: map<Id, nat>, levels: map<nat, seq<Id>>,
                                  groups: seq<ParallelGroup>, cap: int)
    requires Complete(g, level) && Filed(levels, level) && IsPlanOf(groups, lat, levels, cap)
    ensures forall ir | ir in IRGroups(groups) :: IsIndependentLevel(g, levels, ir)
  {
    IRGroupsAreIndependent(g, lat, level, levels, groups, cap, |groups|);
    assert groups[..|groups|] == groups;
  }

  lemma PartitionIsMinimal(body: seq<Statement>, level: map<Id, nat>, levels: map<nat, seq<Id>>,
                           groups: seq<ParallelGroup>, cap: int)
    requires Complete(GraphOf(body), level) && Filed(levels, level)
    requires IsPlanOf(groups, LatenciesOf(body), levels, cap)
    ensures IsMinimalPartition(body, groups)
  {
    var g, lat, order := GraphOf(body), LatenciesOf(body), Declared(body).order;
    DeclaredFromBody(body);
    assert Elements(order) == g.Keys;
    PlanPartitionsNodes(g, lat, level, levels, groups, cap, order);
    forall wave, count | IsWavePlan(g, wave, count) ensures |groups| <= count {
      PlanHasFewestWaves(g, lat, level, levels, groups, cap, wave, count);
    }
  }

  lemma ScheduleIsSound(body: seq<Statement>, level: map<Id, nat>, levels: map<nat, seq<Id>>,
                        groups: seq<ParallelGroup>, cap: int)
    requires Complete(GraphOf(body), level) && Filed(levels, level)
    requires IsPlanOf(groups, LatenciesOf(body), levels, cap)
    ensures IsSoundSchedule(body, groups)
  {
    var g, lat, order := GraphOf(body), LatenciesOf(body), Declared(body).order;
    DeclaredFromBody(body);
    assert Elements(order) == g.Keys;
    forall p | IsChain(g, p) && |p| > 1 ensures RespectsChain(groups, p) {
      ChainIsRespected(g, lat, level, levels, groups, cap, p);
    }
    forall p | IsChain(g, p) ensures Latency(lat, p) <= TotalTime(groups) {
      if p != [] {
        PathFitsPlan(g, lat, level, levels, groups, cap, p);
      } else {
        TimeGrows(g, lat, levels, groups, cap, 0, |groups|);
        assert groups[..0] == [] && groups[..|groups|] == groups;
      }
    }
    PlanAtMostSequential(g, lat, level, levels, groups, cap, order);
  }

  lemma ChainIsRespected(g: Graph, lat: LatencyMap, level: map<Id, nat>, levels: map<nat, seq<Id>>,
                         groups: seq<ParallelGroup>, cap: int, p: seq<Id>)
    requires Complete(g, level) && Filed(levels, level) && Weighted(g, lat) && IsPlanOf(groups, lat, levels, cap)
    requires IsChain(g, p) && |p| > 1
    ensures RespectsChain(groups, p)
  {
    forall i, j | 0 <= i < |groups| && 0 <= j < |groups| && p[0] in groups[i].nodes && p[|p| - 1] in groups[j].nodes
      ensures EndOf(groups, i).time <= StartOf(groups, j).time
    {
      ScheduleRespectsDependencies(g, lat, level, levels, groups, cap, p, i, j);
    }
  }

  // ----------------------------------------------------------- a misreported orphan

  /** Of two statements the second depends on the first: nothing is listed for the first, which is
      therefore reported as orphaned, although the second depends on it. */
  lemma DependedUponIsReported(a: Statement, b: Statement)
    requires a.id != b.id && a.Dependencies() == [] && b.Dependencies() == [a.id]
    ensures UniqueIds([a, b]) && Complete(GraphOf([a, b]), map[a.id := 0, b.id := 1])
    ensures Listed([a, b], a.id) == multiset{} && !IsOrphan(GraphOf([a, b]), a.id)
  {
    GraphOfTwo(a, b);
    LevelsOfTwo(a.id, b.id);
    ListedOnce([a, b], a.id);
    assert a.id in GraphOf([a, b])[b.id];
  }

  lemma GraphOfTwo(a: Statement, b: Statement)
    requires a.id != b.id && a.Dependencies() == [] && b.Dependencies() == [a.id]
    ensures GraphOf([a, b]) == map[a.id := [], b.id := [a.id]]
  {
    DeclaredMore([], a);
    DeclaredMore([a], b);
    assert [] + [a] == [a] && [a] + [b] == [a, b];
    StatementsOfTwo(Declared([a, b]).at, a, b);
  }

  lemma StatementsOfTwo(at: map<Id, Statement>, a: Statement, b: Statement)
    requires a.id != b.id && at == map[][a.id := a][b.id := b]
    requires a.Dependencies() == [] && b.Dependencies() == [a.id]
    ensures DepsOf(at) == map[a.id := [], b.id := [a.id]]
  {
  }

  lemma LevelsOfTwo(a: Id, b: Id)
    requires a != b
    ensures Complete(map[a := [], b := [a]], map[a := 0, b := 1])
  {
    var g, level := map[a := [], b := [a]], map[a := 0, b := 1];
    assert Placed(g, level, a);
    assert g[b][0] == a;
    assert Placed(g, level, b);
  }

  const FIRST := Statement("a", "Instruction", None, None, None)
  const SECOND := Statement("b", "Instruction", Some(["a"]), None, None)

  lemma OrphanReportCanBeWrong()
    ensures Listed([FIRST, SECOND], "a") == multiset{} && !IsOrphan(GraphOf([FIRST, SECOND]), "a")
  {
    DependedUponIsReported(FIRST, SECOND);
  }
}
