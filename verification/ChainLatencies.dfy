/** Latencies of dependency chains, and what relaxing the nodes in a given order computes. */
module ChainLatencies {
  import opened Wrappers
  import opened Sequences
  import opened DependencyGraphs

  type LatencyMap = map<Id, real>

  /** The latencies of the listed nodes added up; an unknown node adds nothing. */
  function Latency(lat: LatencyMap, p: seq<Id>): real {
    if p == [] then 0.0
    else Latency(lat, p[..|p| - 1]) + (if p[|p| - 1] in lat then lat[p[|p| - 1]] else 0.0)
  }

  ghost predicate Weighted(g: Graph, lat: LatencyMap) {
    lat.Keys == g.Keys && forall id | id in lat :: lat[id] > 0.0
  }

  /** No chain takes longer than `p`. */
  ghost predicate IsHeaviestChain(g: Graph, lat: LatencyMap, p: seq<Id>) {
    IsChain(g, p) && forall q | IsChain(g, q) :: Latency(lat, q) <= Latency(lat, p)
  }

  lemma ChainGrows(g: Graph, lat: LatencyMap, p: seq<Id>, id: Id)
    requires IsChain(g, p) && id in g && lat.Keys == g.Keys
    requires p == [] || p[|p| - 1] in g[id]
    ensures IsChain(g, p + [id]) && Latency(lat, p + [id]) == Latency(lat, p) + lat[id]
  {
    var q := p + [id];
    assert q[..|p|] == p && q[|p|] == id;
    forall i | 0 < i < |q| ensures q[i - 1] in g[q[i]] {
      if i < |p| {
        assert q[i - 1] == p[i - 1] && q[i] == p[i];
      } else {
        assert q[i - 1] == p[|p| - 1];
      }
    }
  }

  // ---------------------------------------------- the heaviest chain to a node

  /** The latency of the heaviest chain that ends at `id`. */
  ghost function HeaviestTo(g: Graph, lat: LatencyMap, level: map<Id, nat>, id: Id): real
    requires Complete(g, level) && lat.Keys == g.Keys && id in g
    decreases level[id], |g[id]| + 1
  {
    assert Placed(g, level, id);
    lat[id] + HeaviestAmong(g, lat, level, g[id], level[id])
  }

  /** The most that any of `deps`, all below level `n`, brings along. */
  ghost function HeaviestAmong(g: Graph, lat: LatencyMap, level: map<Id, nat>, deps: seq<Id>, n: nat): (h: real)
    requires Complete(g, level) && lat.Keys == g.Keys
    requires forall d | d in deps :: d in g && level[d] < n
    ensures deps == [] ==> h == 0.0
    ensures deps != [] ==> exists d | d in deps :: HeaviestTo(g, lat, level, d) == h
    ensures forall d | d in deps :: HeaviestTo(g, lat, level, d) <= h
    decreases n, |deps|
  {
    if deps == [] then 0.0
    else
      var last := deps[|deps| - 1];
      var here := HeaviestTo(g, lat, level, last);
      var rest := HeaviestAmong(g, lat, level, deps[..|deps| - 1], n);
      assert forall d | d in deps :: d == last || d in deps[..|deps| - 1];
      if |deps| == 1 || here > rest then here else rest
  }

  lemma {:induction false} HeaviestToCoversOwn(g: Graph, lat: LatencyMap, level: map<Id, nat>, id: Id)
    requires Complete(g, level) && Weighted(g, lat) && id in g
    ensures lat[id] <= HeaviestTo(g, lat, level, id)
    decreases level[id]
  {
    assert Placed(g, level, id);
    if g[id] != [] {
      assert g[id][0] in g[id];
      HeaviestToCoversOwn(g, lat, level, g[id][0]);
    }
  }

  lemma {:induction false} HeaviestToIsUpperBound(g: Graph, lat: LatencyMap, level: map<Id, nat>, p: seq<Id>)
    requires Complete(g, level) && Weighted(g, lat) && IsChain(g, p) && p != []
    ensures Latency(lat, p) <= HeaviestTo(g, lat, level, p[|p| - 1])
  {
    var id, q := p[|p| - 1], p[..|p| - 1];
    assert Placed(g, level, id);
    if q == [] {
      HeaviestToCoversOwn(g, lat, level, id);
    } else {
      HeaviestToIsUpperBound(g, lat, level, q);
      assert q[|q| - 1] in g[id];
    }
  }

  ghost function HeaviestChainTo(g: Graph, lat: LatencyMap, level: map<Id, nat>, id: Id): (p: seq<Id>)
    requires Complete(g, level) && Weighted(g, lat) && id in g
    ensures IsChain(g, p) && EndsAt(p, id)
    ensures Latency(lat, p) == HeaviestTo(g, lat, level, id)
    decreases level[id]
  {
    assert Placed(g, level, id);
    if g[id] == [] then
      ChainGrows(g, lat, [], id);
      [] + [id]
    else
      var h := HeaviestAmong(g, lat, level, g[id], level[id]);
      var d :| d in g[id] && HeaviestTo(g, lat, level, d) == h;
      var p := HeaviestChainTo(g, lat, level, d);
      ChainGrows(g, lat, p, id);
      p + [id]
  }

  // ------------------------------------------- the walk along first dependencies

  /** From a dependency-free node to `id`, always through the dependency that is listed first. */
  ghost function FirstWalk(g: Graph, level: map<Id, nat>, id: Id): (p: seq<Id>)
    requires Complete(g, level) && id in g
    ensures IsChain(g, p) && EndsAt(p, id) && g[p[0]] == []
    ensures forall i | 0 < i < |p| :: g[p[i]] != [] && p[i - 1] == g[p[i]][0]
    ensures NoDuplicates(p)
    decreases level[id]
  {
    if g[id] == [] then [id]
    else
      assert Placed(g, level, id) && g[id][0] in g[id];
      var p := FirstWalk(g, level, g[id][0]);
      WalkStaysBelow(g, level, p, id);
      p + [id]
  }

  lemma WalkStaysBelow(g: Graph, level: map<Id, nat>, p: seq<Id>, id: Id)
    requires Complete(g, level) && id in g && IsChain(g, p) && p != [] && p[|p| - 1] in g[id]
    ensures id !in p
  {
    assert Placed(g, level, id);
    forall i | 0 <= i < |p| ensures p[i] != id {
      ChainRises(g, level, p[i..]);
    }
  }

  /** At every node of the walk the first dependency ends a chain as heavy as any other dependency does. */
  ghost predicate FirstIsHeaviest(g: Graph, lat: LatencyMap, level: map<Id, nat>, id: Id)
    requires Complete(g, level) && lat.Keys == g.Keys && id in g
    decreases level[id]
  {
    assert Placed(g, level, id);
    g[id] == [] ||
    (assert g[id][0] in g[id];
     && (forall d | d in g[id] :: HeaviestTo(g, lat, level, d) <= HeaviestTo(g, lat, level, g[id][0]))
     && FirstIsHeaviest(g, lat, level, g[id][0]))
  }

  lemma {:induction false} FirstWalkLatency(g: Graph, lat: LatencyMap, level: map<Id, nat>, id: Id)
    requires Complete(g, level) && Weighted(g, lat) && id in g
    ensures Latency(lat, FirstWalk(g, level, id)) <= HeaviestTo(g, lat, level, id)
    ensures Latency(lat, FirstWalk(g, level, id)) == HeaviestTo(g, lat, level, id)
      <==> FirstIsHeaviest(g, lat, level, id)
    decreases level[id]
  {
    assert Placed(g, level, id);
    if g[id] == [] {
      ChainGrows(g, lat, [], id);
    } else {
      var d := g[id][0];
      assert d in g[id];
      FirstWalkLatency(g, lat, level, d);
      ChainGrows(g, lat, FirstWalk(g, level, d), id);
    }
  }

  /** The walk that ends at `start` is a heaviest chain if and only if `start` ends one and
      every step of the walk goes to a heaviest dependency. */
  lemma {:induction false} FirstWalkIsCriticalIff(g: Graph, lat: LatencyMap, level: map<Id, nat>, start: Id)
    requires Complete(g, level) && Weighted(g, lat) && start in g
    ensures IsHeaviestChain(g, lat, FirstWalk(g, level, start)) <==>
      && FirstIsHeaviest(g, lat, level, start)
      && forall id | id in g :: HeaviestTo(g, lat, level, id) <= HeaviestTo(g, lat, level, start)
  {
    var p := FirstWalk(g, level, start);
    FirstWalkLatency(g, lat, level, start);
    if IsHeaviestChain(g, lat, p) {
      forall id | id in g ensures HeaviestTo(g, lat, level, id) <= Latency(lat, p) {
        assert IsChain(g, HeaviestChainTo(g, lat, level, id));
      }
    }
    if FirstIsHeaviest(g, lat, level, start)
      && forall id | id in g :: HeaviestTo(g, lat, level, id) <= HeaviestTo(g, lat, level, start) {
      forall q | IsChain(g, q) ensures Latency(lat, q) <= Latency(lat, p) {
        if q != [] {
          HeaviestToIsUpperBound(g, lat, level, q);
        } else {
          HeaviestToCoversOwn(g, lat, level, start);
        }
      }
    }
  }

  // ------------------------------------------------------------------ relaxation

  datatype Relaxation = Relaxation(distances: LatencyMap, parents: map<Id, Option<Id>>)

  ghost predicate Covers(s: Relaxation, g: Graph) {
    s.distances.Keys == g.Keys && s.parents.Keys == g.Keys
  }

  function RelaxEdge(lat: LatencyMap, s: Relaxation, id: Id, d: Id): Relaxation
    requires id in s.distances && d in s.distances && id in lat
  {
    var newDist := s.distances[d] + lat[id];
    if newDist > s.distances[id] then
      Relaxation(s.distances[id := newDist], s.parents[id := Some(d)])
    else s
  }

  function RelaxNode(g: Graph, lat: LatencyMap, s: Relaxation, id: Id, deps: seq<Id>): (r: Relaxation)
    requires Covers(s, g) && lat.Keys == g.Keys && id in g && forall d | d in deps :: d in g
    ensures Covers(r, g)
  {
    if deps == [] then s
    else RelaxEdge(lat, RelaxNode(g, lat, s, id, deps[..|deps| - 1]), id, deps[|deps| - 1])
  }

  /** Relaxing a node changes nothing for the others. */
  lemma {:induction false} RelaxNodeKeepsOthers(g: Graph, lat: LatencyMap, s: Relaxation, id: Id, deps: seq<Id>)
    requires Covers(s, g) && lat.Keys == g.Keys && id in g && forall d | d in deps :: d in g
    ensures var r := RelaxNode(g, lat, s, id, deps);
      forall x | x in g && x != id :: r.distances[x] == s.distances[x] && r.parents[x] == s.parents[x]
  {
    if deps != [] {
      RelaxNodeKeepsOthers(g, lat, s, id, deps[..|deps| - 1]);
    }
  }

  /** The nodes of an order one after the other, up to number `k`. */
  function RelaxFirst(g: Graph, lat: LatencyMap, s: Relaxation, order: seq<Id>, k: nat): (r: Relaxation)
    requires Covers(s, g) && lat.Keys == g.Keys && Closed(g) && (forall id | id in order :: id in g) && k <= |order|
    ensures Covers(r, g)
  {
    if k == 0 then s
    else RelaxNode(g, lat, RelaxFirst(g, lat, s, order, k - 1), order[k - 1], g[order[k - 1]])
  }

  function RelaxAll(g: Graph, lat: LatencyMap, s: Relaxation, order: seq<Id>): (r: Relaxation)
    requires Covers(s, g) && lat.Keys == g.Keys && Closed(g) && forall id | id in order :: id in g
    ensures Covers(r, g)
  {
    RelaxFirst(g, lat, s, order, |order|)
  }

  lemma {:induction false} RelaxNodeNext(g: Graph, lat: LatencyMap, s: Relaxation, id: Id, deps: seq<Id>, i: nat)
    requires Covers(s, g) && lat.Keys == g.Keys && id in g && (forall d | d in deps :: d in g) && i < |deps|
    ensures RelaxNode(g, lat, s, id, deps[..i + 1]) == RelaxEdge(lat, RelaxNode(g, lat, s, id, deps[..i]), id, deps[i])
  {
    assert deps[..i + 1][..i] == deps[..i];
  }

  function Unrelaxed(g: Graph): (s: Relaxation)
    ensures Covers(s, g)
  {
    Relaxation(map id | id in g :: 0.0, map id | id in g :: None)
  }

  /** Untouched, or with the node's own latency as distance and its first dependency as parent. */
  ghost predicate OwnLatencyOnly(g: Graph, lat: LatencyMap, s: Relaxation, done: seq<Id>)
    requires Covers(s, g) && lat.Keys == g.Keys
  {
    forall x | x in g ::
      if x in done && g[x] != [] then s.distances[x] == lat[x] && s.parents[x] == Some(g[x][0])
      else s.distances[x] == 0.0 && s.parents[x] == None
  }

  lemma {:induction false} RelaxUntouched(g: Graph, lat: LatencyMap, s: Relaxation, id: Id, deps: seq<Id>)
    requires Covers(s, g) && Weighted(g, lat) && id in g
    requires forall d | d in deps :: d in g && d != id && s.distances[d] == 0.0
    requires s.distances[id] == 0.0 && s.parents[id] == None
    ensures var r := RelaxNode(g, lat, s, id, deps);
      if deps == [] then r == s else r.distances[id] == lat[id] && r.parents[id] == Some(deps[0])
  {
    if |deps| > 0 {
      RelaxNodeKeepsOthers(g, lat, s, id, deps[..|deps| - 1]);
      RelaxUntouched(g, lat, s, id, deps[..|deps| - 1]);
      assert deps[|deps| - 1] in deps;
    }
  }

  /** In a reversed post-order neither a node nor any of its dependencies comes earlier. */
  lemma {:induction false} NothingEarlier(g: Graph, post: seq<Id>, k: nat)
    requires IsPostorder(g, post) && k < |post|
    ensures var id := Reversed(post)[k];
      id in g && id !in Reversed(post)[..k]
      && forall d | d in g[id] :: d in g && d != id && d !in Reversed(post)[..k]
  {
    var i := |post| - 1 - k;
    assert Reversed(post)[k] == post[i];
    assert DependenciesBefore(g, post, i);
    forall x | x in post[..i + 1] ensures x !in Reversed(post)[..k] {
    }
    assert post[i] in post[..i + 1];
    forall d | d in g[post[i]] ensures d in g && d != post[i] && d !in Reversed(post)[..k] {
      assert d in post[..i];
      var j :| 0 <= j < i && post[j] == d;
      assert DependenciesBefore(g, post, j);
    }
  }

  /** One more node of the reversed order. */
  lemma OwnLatencyStep(g: Graph, lat: LatencyMap, s: Relaxation, done: seq<Id>, id: Id)
    requires Covers(s, g) && Weighted(g, lat) && id in g && OwnLatencyOnly(g, lat, s, done)
    requires id !in done && forall d | d in g[id] :: d in g && d != id && d !in done
    ensures OwnLatencyOnly(g, lat, RelaxNode(g, lat, s, id, g[id]), done + [id])
  {
    RelaxNodeKeepsOthers(g, lat, s, id, g[id]);
    RelaxUntouched(g, lat, s, id, g[id]);
  }

  lemma PostorderInGraph(g: Graph, post: seq<Id>)
    requires IsPostorder(g, post)
    ensures forall id | id in post :: id in g
    ensures forall id | id in Reversed(post) :: id in g
  {
    forall i | 0 <= i < |post| ensures post[i] in g {
      assert DependenciesBefore(g, post, i);
    }
    ReversedElements(post);
    assert forall id | id in Reversed(post) :: id in Elements(post);
  }

  /** Relaxing dependents before their dependencies, as the code does, never accumulates anything. */
  lemma {:induction false} DependentsFirstKeepsOwnLatency(g: Graph, lat: LatencyMap, post: seq<Id>, k: nat)
    requires Closed(g) && Weighted(g, lat) && IsPostorder(g, post) && k <= |post|
    ensures forall id | id in Reversed(post) :: id in g
    ensures OwnLatencyOnly(g, lat, RelaxFirst(g, lat, Unrelaxed(g), Reversed(post), k), Reversed(post)[..k])
  {
    PostorderInGraph(g, post);
    if k > 0 {
      var order := Reversed(post);
      DependentsFirstKeepsOwnLatency(g, lat, post, k - 1);
      PrefixGrows(order, k - 1);
      NothingEarlier(g, post, k - 1);
      OwnLatencyStep(g, lat, RelaxFirst(g, lat, Unrelaxed(g), order, k - 1), order[..k - 1], order[k - 1]);
    }
  }

  lemma {:induction false} RelaxedValues(g: Graph, lat: LatencyMap, post: seq<Id>)
    requires Closed(g) && Weighted(g, lat) && IsPostorder(g, post) && Elements(post) == g.Keys
    ensures forall id | id in Reversed(post) :: id in g
    ensures var s := RelaxAll(g, lat, Unrelaxed(g), Reversed(post));
      && (forall id | id in g :: s.distances[id] == if g[id] == [] then 0.0 else lat[id])
      && (forall id | id in g :: s.parents[id] == if g[id] == [] then None else Some(g[id][0]))
  {
    var order := Reversed(post);
    ReversedElements(post);
    assert order[..|post|] == order;
    DependentsFirstKeepsOwnLatency(g, lat, post, |post|);
    assert forall id | id in g :: id in Elements(order);
  }

  /** `t` is the most latency that a chain ending at `id` collects after its first node. */
  ghost predicate IsHeaviestTail(g: Graph, lat: LatencyMap, id: Id, t: real)
    requires lat.Keys == g.Keys
  {
    && (exists p :: IsTail(g, lat, p, id, t))
    && (forall p, u | IsTail(g, lat, p, id, u) :: u <= t)
  }

  ghost predicate IsTail(g: Graph, lat: LatencyMap, p: seq<Id>, id: Id, t: real)
    requires lat.Keys == g.Keys
  {
    IsChain(g, p) && EndsAt(p, id) && Latency(lat, p) - lat[p[0]] == t
  }

  lemma {:induction false} RelaxNodeTakesMaximum(g: Graph, lat: LatencyMap, s: Relaxation, id: Id, deps: seq<Id>)
    requires Covers(s, g) && lat.Keys == g.Keys && id in g && forall d | d in deps :: d in g && d != id
    ensures var r := RelaxNode(g, lat, s, id, deps).distances[id];
      && s.distances[id] <= r && (forall d | d in deps :: s.distances[d] + lat[id] <= r)
      && (r == s.distances[id] || exists d | d in deps :: r == s.distances[d] + lat[id])
  {
    if deps != [] {
      var init, last := deps[..|deps| - 1], deps[|deps| - 1];
      RelaxNodeKeepsOthers(g, lat, s, id, init);
      RelaxNodeTakesMaximum(g, lat, s, id, init);
      var before, r := RelaxNode(g, lat, s, id, init).distances[id], RelaxNode(g, lat, s, id, deps).distances[id];
      assert before <= r && s.distances[last] + lat[id] <= r && (r == before || r == s.distances[last] + lat[id]);
      forall d | d in deps ensures s.distances[d] + lat[id] <= r {
        assert d == last || d in init;
      }
      if r == before && r != s.distances[id] {
        var d :| d in init && r == s.distances[d] + lat[id];
        assert d in deps;
      } else {
        assert last in deps;
      }
    }
  }

  lemma HeaviestTailNext(g: Graph, lat: LatencyMap, s: Relaxation, id: Id)
    requires Covers(s, g) && Weighted(g, lat) && Closed(g) && id in g && id !in g[id] && s.distances[id] == 0.0
    requires forall d | d in g[id] :: IsHeaviestTail(g, lat, d, s.distances[d])
    ensures IsHeaviestTail(g, lat, id, RelaxNode(g, lat, s, id, g[id]).distances[id])
  {
    var r := RelaxNode(g, lat, s, id, g[id]).distances[id];
    RelaxNodeTakesMaximum(g, lat, s, id, g[id]);
    if r == 0.0 {
      ChainGrows(g, lat, [], id);
      assert IsTail(g, lat, [] + [id], id, r);
    } else {
      var d :| d in g[id] && r == s.distances[d] + lat[id];
      var p :| IsTail(g, lat, p, d, s.distances[d]);
      ChainGrows(g, lat, p, id);
      assert IsTail(g, lat, p + [id], id, r);
    }
    forall p, u | IsTail(g, lat, p, id, u) ensures u <= r {
      TailIsBounded(g, lat, s, id, r, p, u);
    }
  }

  lemma TailIsBounded(g: Graph, lat: LatencyMap, s: Relaxation, id: Id, r: real, p: seq<Id>, u: real)
    requires Covers(s, g) && lat.Keys == g.Keys && id in g && r >= 0.0 && IsTail(g, lat, p, id, u)
    requires forall d | d in g[id] ::
      d in g && IsHeaviestTail(g, lat, d, s.distances[d]) && s.distances[d] + lat[id] <= r
    ensures u <= r
  {
    var q := p[..|p| - 1];
    if q == [] {
      assert Latency(lat, p) == lat[id];
    } else {
      var d := p[|p| - 2];
      assert d in g[id];
      assert IsTail(g, lat, q, d, Latency(lat, q) - lat[q[0]]);
    }
  }

  /** Heaviest tails for the nodes that are done, nothing for the others. */
  ghost predicate TailsOnly(g: Graph, lat: LatencyMap, s: Relaxation, done: seq<Id>)
    requires Covers(s, g) && lat.Keys == g.Keys
  {
    forall id {:trigger TailOrNothing(g, lat, s, done, id)} | id in g :: TailOrNothing(g, lat, s, done, id)
  }

  ghost predicate TailOrNothing(g: Graph, lat: LatencyMap, s: Relaxation, done: seq<Id>, id: Id)
    requires Covers(s, g) && lat.Keys == g.Keys && id in g
  {
    if id in done then IsHeaviestTail(g, lat, id, s.distances[id]) else s.distances[id] == 0.0
  }

  lemma TailStep(g: Graph, lat: LatencyMap, s: Relaxation, done: seq<Id>, id: Id)
    requires Covers(s, g) && Weighted(g, lat) && Closed(g) && id in g && TailsOnly(g, lat, s, done)
    requires id !in done && forall d | d in g[id] :: d in done
    ensures TailsOnly(g, lat, RelaxNode(g, lat, s, id, g[id]), done + [id])
  {
    var after := RelaxNode(g, lat, s, id, g[id]);
    assert TailOrNothing(g, lat, s, done, id);
    forall d | d in g[id] ensures IsHeaviestTail(g, lat, d, s.distances[d]) {
      assert TailOrNothing(g, lat, s, done, d);
    }
    HeaviestTailNext(g, lat, s, id);
    RelaxNodeKeepsOthers(g, lat, s, id, g[id]);
    forall x | x in g ensures TailOrNothing(g, lat, after, done + [id], x) {
      assert TailOrNothing(g, lat, s, done, x);
    }
  }

  /** Every node of the order is new and all its dependencies are done. */
  ghost predicate IsReadyInTurn(g: Graph, order: seq<Id>) {
    forall k {:trigger IsReady(g, order, k)} | 0 <= k < |order| :: IsReady(g, order, k)
  }

  ghost predicate IsReady(g: Graph, order: seq<Id>, k: nat)
    requires k < |order|
  {
    order[k] in g && order[k] !in order[..k] && forall d | d in g[order[k]] :: d in order[..k]
  }

  lemma PostorderIsReady(g: Graph, post: seq<Id>)
    requires IsPostorder(g, post)
    ensures IsReadyInTurn(g, post)
  {
    forall k | 0 <= k < |post| ensures IsReady(g, post, k) {
      assert DependenciesBefore(g, post, k);
    }
  }

  lemma TailsNext(g: Graph, lat: LatencyMap, order: seq<Id>, k: nat)
    requires Closed(g) && Weighted(g, lat) && (forall id | id in order :: id in g)
    requires k < |order| && IsReady(g, order, k)
    requires TailsOnly(g, lat, RelaxFirst(g, lat, Unrelaxed(g), order, k), order[..k])
    ensures TailsOnly(g, lat, RelaxFirst(g, lat, Unrelaxed(g), order, k + 1), order[..k + 1])
  {
    PrefixGrows(order, k);
    TailStep(g, lat, RelaxFirst(g, lat, Unrelaxed(g), order, k), order[..k], order[k]);
  }

  lemma {:induction false} TailsInTurn(g: Graph, lat: LatencyMap, order: seq<Id>, k: nat)
    requires Closed(g) && Weighted(g, lat) && IsReadyInTurn(g, order) && k <= |order|
    requires forall id | id in order :: id in g
    ensures TailsOnly(g, lat, RelaxFirst(g, lat, Unrelaxed(g), order, k), order[..k])
  {
    if k > 0 {
      TailsInTurn(g, lat, order, k - 1);
      assert IsReady(g, order, k - 1);
      TailsNext(g, lat, order, k - 1);
    }
  }

  /** Relaxing dependencies before their dependents finds the heaviest tails: every distance
      leaves out the latency of the node the chain starts at. */
  lemma DependenciesFirstFindsHeaviestTails(g: Graph, lat: LatencyMap, post: seq<Id>, k: nat)
    requires Closed(g) && Weighted(g, lat) && IsPostorder(g, post) && k <= |post|
    ensures forall id | id in post :: id in g
    ensures TailsOnly(g, lat, RelaxFirst(g, lat, Unrelaxed(g), post, k), post[..k])
  {
    PostorderInGraph(g, post);
    PostorderIsReady(g, post);
    TailsInTurn(g, lat, post, k);
  }
}
