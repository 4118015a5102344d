/**
 Dependency graphs as values: chains, cycles and the layering that a depth-first
 visit computes.  Nothing here refers to the heap; the optimizer's classes are
 specified by these definitions.
 */
module DependencyGraphs {
  import opened Sequences

  type Id = string

  /** For every node, the nodes it depends on, in the order they are listed. */
  type Graph = map<Id, seq<Id>>

  ghost predicate Closed(g: Graph) {
    forall id, d :: id in g && d in g[id] ==> d in g
  }

  ghost predicate Edgeless(g: Graph) {
    forall id | id in g :: g[id] == []
  }

  /** A dependency chain: every node depends on the one before it. */
  ghost predicate IsChain(g: Graph, p: seq<Id>) {
    && (forall i | 0 <= i < |p| :: p[i] in g)
    && (forall i | 0 < i < |p| :: p[i - 1] in g[p[i]])
  }

  ghost predicate EndsAt(p: seq<Id>, id: Id) {
    p != [] && p[|p| - 1] == id
  }

  ghost predicate Cyclic(g: Graph) {
    exists p :: IsChain(g, p) && |p| > 1 && p[0] == p[|p| - 1]
  }

  /** `level` is known for some nodes, with every dependency of a known node known and lower,
      and no gap between a node and its highest dependency. */
  ghost predicate Layered(g: Graph, level: map<Id, nat>) {
    forall id {:trigger Placed(g, level, id)} | id in level :: Placed(g, level, id)
  }

  ghost predicate Placed(g: Graph, level: map<Id, nat>, id: Id)
    requires id in level
  {
    id in g && JustAbove(level, g[id], level[id])
  }

  /** `n` is one more than the highest level among `deps`, or 0 if there are none. */
  ghost predicate JustAbove(level: map<Id, nat>, deps: seq<Id>, n: int) {
    && (forall d | d in deps :: d in level && level[d] < n)
    && (n == 0 || exists d | d in deps :: level[d] + 1 == n)
  }

  lemma JustAboveNext(level: map<Id, nat>, deps: seq<Id>, n: int, d: Id)
    requires JustAbove(level, deps, n) && n >= 0 && d in level
    ensures JustAbove(level, deps + [d], if n <= level[d] then level[d] + 1 else n)
  {
    var deps' := deps + [d];
    assert d == deps'[|deps|];
    if n > level[d] {
      var x :| x in deps && level[x] + 1 == n;
      assert x in deps';
    }
  }

  lemma JustAboveLater(level: map<Id, nat>, later: map<Id, nat>, deps: seq<Id>, n: int)
    requires JustAbove(level, deps, n)
    requires forall id | id in level :: id in later && later[id] == level[id]
    ensures JustAbove(later, deps, n)
  {
    if n != 0 {
      var d :| d in deps && level[d] + 1 == n;
      assert later[d] + 1 == n;
    }
  }

  lemma LayeredExtend(g: Graph, level: map<Id, nat>, id: Id, n: nat)
    requires Layered(g, level) && id in g && id !in level && JustAbove(level, g[id], n)
    ensures Layered(g, level[id := n])
  {
    var later := level[id := n];
    forall x | x in later ensures Placed(g, later, x) {
      if x != id {
        assert Placed(g, level, x);
      }
      JustAboveLater(level, later, g[x], later[x]);
    }
  }

  /** Every node of the graph has its level. */
  ghost predicate Complete(g: Graph, level: map<Id, nat>) {
    Layered(g, level) && level.Keys == g.Keys
  }

  /** `n` is the number of dependency steps on the longest chain that ends at `id`. */
  ghost predicate IsLongestChain(g: Graph, id: Id, n: nat) {
    && (exists p :: IsChain(g, p) && EndsAt(p, id) && |p| == n + 1)
    && (forall p | IsChain(g, p) && EndsAt(p, id) :: |p| <= n + 1)
  }

  // -------------------------------------------------- the order of a depth-first visit

  /** What is finished after a visit of `id`, which adds it behind everything it depends on; `free` bounds
      the number of nodes that are not on the stack. */
  function Finish(g: Graph, done: seq<Id>, id: Id, free: nat): seq<Id>
    decreases free, 0
  {
    if id in done || id !in g || free == 0 then done
    else FinishAll(g, done, g[id], free - 1) + [id]
  }

  /** The same for a list of nodes, one after the other. */
  function FinishAll(g: Graph, done: seq<Id>, ids: seq<Id>, free: nat): seq<Id>
    decreases free, |ids|
  {
    if ids == [] then done
    else Finish(g, FinishAll(g, done, ids[..|ids| - 1], free), ids[|ids| - 1], free)
  }

  /** The nodes in the order in which visits that begin in the given order finish them. */
  function VisitOrder(g: Graph, order: seq<Id>): seq<Id> {
    FinishAll(g, [], order, |g|)
  }

  /** Without dependencies nodes are finished in the order in which visits begin. */
  lemma EdgelessOrder(g: Graph, order: seq<Id>)
    requires Edgeless(g) && NoDuplicates(order) && forall i | 0 <= i < |order| :: order[i] in g
    ensures VisitOrder(g, order) == order
  {
    if order != [] {
      ElementsAreFewer([order[0]], g.Keys);
      EdgelessFinish(g, order, |g|);
    }
  }

  lemma {:induction false} EdgelessFinish(g: Graph, order: seq<Id>, free: nat)
    requires Edgeless(g) && NoDuplicates(order) && free > 0 && forall i | 0 <= i < |order| :: order[i] in g
    ensures FinishAll(g, [], order, free) == order
  {
    if order != [] {
      var init, last := order[..|order| - 1], order[|order| - 1];
      EdgelessFinish(g, init, free);
      assert FinishAll(g, init, g[last], free - 1) == init;
      assert order == init + [last] && last !in init;
    }
  }

  /** On top of the stack, the visit of `id` turns `before` into `after`, for every bound that leaves room. */
  ghost predicate Finishes(g: Graph, stack: seq<Id>, before: seq<Id>, id: Id, after: seq<Id>) {
    forall free {:trigger HasRoom(g, stack, free)} | HasRoom(g, stack, free) :: after == Finish(g, before, id, free)
  }

  ghost predicate FinishesAll(g: Graph, stack: seq<Id>, before: seq<Id>, ids: seq<Id>, after: seq<Id>) {
    forall free {:trigger HasRoom(g, stack, free)} | HasRoom(g, stack, free) :: after == FinishAll(g, before, ids, free)
  }

  lemma FinishesNone(g: Graph, stack: seq<Id>, before: seq<Id>, ids: seq<Id>)
    ensures FinishesAll(g, stack, before, ids[..0], before)
  {
    assert ids[..0] == [];
  }

  lemma FinishesNext(g: Graph, stack: seq<Id>, before: seq<Id>, ids: seq<Id>, i: nat, mid: seq<Id>, after: seq<Id>)
    requires i < |ids| && FinishesAll(g, stack, before, ids[..i], mid) && Finishes(g, stack, mid, ids[i], after)
    ensures FinishesAll(g, stack, before, ids[..i + 1], after)
  {
    assert ids[..i + 1][..i] == ids[..i];
  }

  /** A node is finished after its dependencies, which are visited with the node on the stack. */
  lemma FinishesAbove(g: Graph, stack: seq<Id>, before: seq<Id>, id: Id, after: seq<Id>)
    requires id in g && id !in before
    requires IsStack(g, stack + [id]) && FinishesAll(g, stack + [id], before, g[id], after)
    ensures Finishes(g, stack, before, id, after + [id])
  {
    forall free | HasRoom(g, stack, free) ensures after + [id] == Finish(g, before, id, free) {
      RoomAbove(g, stack, id, free);
    }
  }

  lemma FinishesOrder(g: Graph, order: seq<Id>, after: seq<Id>)
    requires FinishesAll(g, [], [], order, after)
    ensures after == VisitOrder(g, order)
  {
    assert HasRoom(g, [], |g|);
  }

  // ---------------------------------------------------------------- layering

  /** Along a chain levels rise by at least one a step. */
  lemma {:induction false} ChainRises(g: Graph, level: map<Id, nat>, p: seq<Id>)
    requires Complete(g, level) && IsChain(g, p) && p != []
    ensures level[p[0]] + |p| - 1 <= level[p[|p| - 1]]
  {
    if |p| > 1 {
      var q := p[..|p| - 1];
      assert Placed(g, level, p[|p| - 1]);
      assert p[|p| - 2] in g[p[|p| - 1]];
      ChainRises(g, level, q);
    }
  }

  lemma CompleteMeansAcyclic(g: Graph, level: map<Id, nat>)
    requires Complete(g, level)
    ensures Closed(g) && !Cyclic(g)
  {
    forall id, d | id in g && d in g[id] ensures d in g {
      assert Placed(g, level, id);
    }
    forall p | IsChain(g, p) && |p| > 1 ensures p[0] != p[|p| - 1] {
      ChainRises(g, level, p);
    }
  }

  /** A chain that climbs one level a step, from level 0 up to `id`. */
  ghost function Climb(g: Graph, level: map<Id, nat>, id: Id): (p: seq<Id>)
    requires Complete(g, level) && id in g
    ensures IsChain(g, p) && EndsAt(p, id) && |p| == level[id] + 1
    ensures forall i | 0 <= i < |p| :: level[p[i]] == i
    decreases level[id]
  {
    if level[id] == 0 then [id]
    else
      assert Placed(g, level, id);
      var d :| d in g[id] && level[d] + 1 == level[id];
      Climb(g, level, d) + [id]
  }

  lemma LevelIsLongestChain(g: Graph, level: map<Id, nat>, id: Id)
    requires Complete(g, level) && id in g
    ensures IsLongestChain(g, id, level[id])
  {
    var p := Climb(g, level, id);
    assert IsChain(g, p) && EndsAt(p, id) && |p| == level[id] + 1;
    forall p | IsChain(g, p) && EndsAt(p, id) ensures |p| <= level[id] + 1 {
      ChainRises(g, level, p);
    }
  }

  /** There are more nodes than levels below any of them. */
  lemma LevelIsBelowSize(g: Graph, level: map<Id, nat>, id: Id)
    requires Complete(g, level) && id in g
    ensures level[id] < |g|
  {
    var p := Climb(g, level, id);
    assert forall i, j | 0 <= i < j < |p| :: level[p[i]] != level[p[j]];
    ElementsAreFewer(p, g.Keys);
  }

  /** Levels are contiguous from 0: below a used level every level is used. */
  lemma LevelsAreContiguous(g: Graph, level: map<Id, nat>, id: Id, k: nat)
    requires Complete(g, level) && id in g && k <= level[id]
    ensures exists x | x in g :: level[x] == k
  {
    var p := Climb(g, level, id);
    assert p[k] in g && level[p[k]] == k;
  }

  /** An assignment of nodes to waves in which dependencies run in strictly earlier waves. */
  ghost predicate IsWavePlan(g: Graph, wave: map<Id, nat>, count: nat) {
    && wave.Keys == g.Keys
    && (forall id | id in g :: wave[id] < count)
    && (forall id, d | id in g && d in g[id] :: d in wave && wave[d] < wave[id])
  }

  /** No plan that respects the dependencies runs a node in an earlier wave than its level. */
  lemma {:induction false} LevelIsEarliestWave(g: Graph, level: map<Id, nat>, wave: map<Id, nat>, count: nat, id: Id)
    requires Complete(g, level) && IsWavePlan(g, wave, count) && id in g
    ensures level[id] <= wave[id]
    decreases level[id]
  {
    if level[id] > 0 {
      assert Placed(g, level, id);
      var d :| d in g[id] && level[d] + 1 == level[id];
      LevelIsEarliestWave(g, level, wave, count, d);
    }
  }

  /** The levels themselves are a wave plan. */
  lemma LevelsAreAWavePlan(g: Graph, level: map<Id, nat>, count: nat)
    requires Complete(g, level) && forall id | id in g :: level[id] < count
    ensures IsWavePlan(g, level, count)
  {
    forall id, d | id in g && d in g[id] ensures d in level && level[d] < level[id] {
      assert Placed(g, level, id);
    }
  }

  // ------------------------------------------------------------ cycle witness

  /** A depth-first stack: each entry is a dependency of the entry below it. */
  ghost predicate IsStack(g: Graph, stack: seq<Id>) {
    && NoDuplicates(stack)
    && (forall i | 0 <= i < |stack| :: stack[i] in g)
    && (forall i | 0 < i < |stack| :: stack[i] in g[stack[i - 1]])
  }

  /** May `id` be visited on top of `stack`? */
  ghost predicate Follows(g: Graph, stack: seq<Id>, id: Id) {
    stack == [] || (stack[|stack| - 1] in g && id in g[stack[|stack| - 1]])
  }

  lemma Push(g: Graph, stack: seq<Id>, id: Id)
    requires IsStack(g, stack) && Follows(g, stack, id) && id in g && id !in Elements(stack)
    ensures IsStack(g, stack + [id]) && Elements(stack + [id]) == Elements(stack) + {id}
  {
  }

  lemma Pop(g: Graph, stack: seq<Id>, id: Id)
    requires IsStack(g, stack + [id])
    ensures IsStack(g, stack) && Elements(stack) == Elements(stack + [id]) - {id}
  {
    var s := stack + [id];
    assert forall i | 0 <= i < |stack| :: stack[i] == s[i];
    assert s[|stack|] == id;
  }

  /** The nodes that are not on the stack are no more than `free`. */
  ghost predicate HasRoom(g: Graph, stack: seq<Id>, free: nat) {
    |g| <= |stack| + free
  }

  lemma RoomAbove(g: Graph, stack: seq<Id>, id: Id, free: nat)
    requires HasRoom(g, stack, free) && IsStack(g, stack + [id])
    ensures free > 0 && HasRoom(g, stack + [id], free - 1)
  {
    ElementsAreFewer(stack + [id], g.Keys);
  }

  lemma {:induction false} ElementsAreFewer(ids: seq<Id>, all: set<Id>)
    requires NoDuplicates(ids) && forall i | 0 <= i < |ids| :: ids[i] in all
    ensures |ids| <= |all|
  {
    if ids != [] {
      ElementsAreFewer(ids[..|ids| - 1], all - {ids[|ids| - 1]});
    }
  }

  /** Meeting a node that is still on the stack exhibits a cycle. */
  lemma BackEdgeIsCycle(g: Graph, stack: seq<Id>, id: Id)
    requires IsStack(g, stack) && Follows(g, stack, id) && id in stack
    ensures Cyclic(g)
  {
    var k :| 0 <= k < |stack| && stack[k] == id;
    var loop := stack[k..] + [id];
    var p := Reversed(loop);
    assert forall i | 0 < i < |loop| :: loop[i] in g[loop[i - 1]];
    forall i | 0 < i < |p| ensures p[i - 1] in g[p[i]] {
      var j := |p| - i;
      assert loop[j] in g[loop[j - 1]];
    }
    assert IsChain(g, p) && |p| > 1 && p[0] == p[|p| - 1];
  }

  // ------------------------------------------------------------- post-orders

  /** Dependencies are listed before the nodes that need them. */
  ghost predicate IsPostorder(g: Graph, order: seq<Id>) {
    && NoDuplicates(order)
    && (forall i {:trigger DependenciesBefore(g, order, i)} | 0 <= i < |order| :: DependenciesBefore(g, order, i))
  }

  ghost predicate DependenciesBefore(g: Graph, order: seq<Id>, i: nat)
    requires i < |order|
  {
    order[i] in g && forall d | d in g[order[i]] :: d in order[..i]
  }

  lemma PostorderAppend(g: Graph, order: seq<Id>, id: Id)
    requires IsPostorder(g, order) && id in g && id !in order
    requires forall d | d in g[id] :: d in order
    ensures IsPostorder(g, order + [id])
  {
    var o := order + [id];
    forall i | 0 <= i < |o| ensures DependenciesBefore(g, o, i) {
      if i < |order| {
        assert DependenciesBefore(g, order, i);
        assert o[i] == order[i] && o[..i] == order[..i];
      } else {
        assert o[..i] == order;
      }
    }
  }

  // ------------------------------------------------- the visiting order is a post-order

  /** `ids` are done, what was done before is still, and what was added lies below the bound. */
  ghost predicate Grows(level: map<Id, nat>, before: seq<Id>, ids: seq<Id>, after: seq<Id>, bound: nat) {
    && before <= after && (forall id | id in ids :: id in after)
    && (forall x | x in after && x !in before :: x in level && level[x] < bound)
  }

  lemma GrowsNext(
      level: map<Id, nat>, before: seq<Id>, ids: seq<Id>, mid: seq<Id>, id: Id, after: seq<Id>, bound: nat)
    requires Grows(level, before, ids, mid, bound) && id in level && level[id] < bound
    requires Grows(level, mid, [id], after, level[id] + 1)
    ensures Grows(level, before, ids + [id], after, bound)
  {
    assert id in [id];
    assert forall x | x in mid :: x in after;
  }

  lemma {:induction false} FinishIsPostorder(g: Graph, level: map<Id, nat>, done: seq<Id>, id: Id, free: nat)
    requires Complete(g, level) && IsPostorder(g, done) && id in g && level[id] < free
    ensures IsPostorder(g, Finish(g, done, id, free))
    ensures Grows(level, done, [id], Finish(g, done, id, free), level[id] + 1)
    decreases free, 0
  {
    if id !in done {
      assert Placed(g, level, id);
      FinishAllIsPostorder(g, level, done, g[id], free - 1, level[id]);
      PostorderAppend(g, FinishAll(g, done, g[id], free - 1), id);
    }
  }

  lemma {:induction false} FinishAllIsPostorder(
      g: Graph, level: map<Id, nat>, done: seq<Id>, ids: seq<Id>, free: nat, bound: nat)
    requires Complete(g, level) && IsPostorder(g, done) && bound <= free
    requires forall id | id in ids :: id in g && level[id] < bound
    ensures IsPostorder(g, FinishAll(g, done, ids, free))
    ensures Grows(level, done, ids, FinishAll(g, done, ids, free), bound)
    decreases free, |ids|
  {
    if ids != [] {
      var init, last := ids[..|ids| - 1], ids[|ids| - 1];
      FinishAllIsPostorder(g, level, done, init, free, bound);
      var mid := FinishAll(g, done, init, free);
      FinishIsPostorder(g, level, mid, last, free);
      GrowsNext(level, done, init, mid, last, Finish(g, mid, last, free), bound);
      assert init + [last] == ids;
    }
  }

  /** Where no node is on a cycle, the visits list all nodes, dependencies first. */
  lemma VisitOrderIsPostorder(g: Graph, level: map<Id, nat>, order: seq<Id>)
    requires Complete(g, level) && Elements(order) == g.Keys
    ensures IsPostorder(g, VisitOrder(g, order)) && Elements(VisitOrder(g, order)) == g.Keys
  {
    forall id | id in order ensures id in g && level[id] < |g| {
      assert id in Elements(order);
      LevelIsBelowSize(g, level, id);
    }
    FinishAllIsPostorder(g, level, [], order, |g|, |g|);
    forall id | id in g ensures id in VisitOrder(g, order) {
      assert id in Elements(order);
    }
  }

  /** A chain that lies in a post-order moves forward in it. */
  lemma {:induction false} PostorderChain(g: Graph, order: seq<Id>, p: seq<Id>, i: nat, j: nat)
    requires IsPostorder(g, order) && IsChain(g, p) && |p| > 1
    requires i < |order| && j < |order| && order[i] == p[0] && order[j] == p[|p| - 1]
    ensures i < j
  {
    var d := p[|p| - 2];
    assert DependenciesBefore(g, order, j);
    assert d in g[order[j]];
    assert d in order[..j];
    var k :| 0 <= k < j && order[k] == d;
    if |p| > 2 {
      PostorderChain(g, order, p[..|p| - 1], i, k);
    }
  }

  lemma PostorderMeansAcyclic(g: Graph, order: seq<Id>)
    requires IsPostorder(g, order) && forall id | id in g :: id in order
    ensures Closed(g) && !Cyclic(g)
  {
    forall id, d | id in g && d in g[id] ensures d in g {
      var i :| 0 <= i < |order| && order[i] == id;
      assert DependenciesBefore(g, order, i);
      assert d in order[..i] && d in order;
      var k :| 0 <= k < |order| && order[k] == d;
      assert DependenciesBefore(g, order, k);
    }
    forall p | IsChain(g, p) && |p| > 1 ensures p[0] != p[|p| - 1] {
      var i :| 0 <= i < |order| && order[i] == p[0];
      var j :| 0 <= j < |order| && order[j] == p[|p| - 1];
      PostorderChain(g, order, p, i, j);
    }
  }
}
