/** The shared store of circuit breaker entries and the service call that it guards. */
module CircuitBreakerStore {
  import opened Wrappers
  import B = CircuitBreaker
  import G = GuardedCalls

  const DEFAULT_MAX_FAILURES := 5
  const DEFAULT_RESET_TIMEOUT_MS := 60000

  /** An entry, updated where it lies. */
  class CircuitBreakerEntry {
    var state: B.CircuitState
    var failureCount: nat
    var lastFailureTime: int

    constructor ()
      ensures Value() == B.Entry(B.Closed, 0, 0)
    {
      state, failureCount, lastFailureTime := B.Closed, 0, 0;
    }

    ghost function Value(): B.Entry
      reads this
    {
      B.Entry(state, failureCount, lastFailureTime)
    }

    /** What recording a failure does to the entry. */
    method CountFailure(maxFailures: int, resetTimeoutMs: int, now: int)
      modifies this
      ensures Value() == B.Counted(old(Value()), now, B.Settings(maxFailures, resetTimeoutMs))
    {
      if state.HalfOpen? && now - lastFailureTime > resetTimeoutMs {
        state := B.Closed;
        failureCount := 0;
      }
      if state.Closed? && failureCount > 0 && now - lastFailureTime > resetTimeoutMs {
        failureCount := 0;
      }
      failureCount := failureCount + 1;
      lastFailureTime := now;
      if failureCount >= maxFailures {
        state := B.Open;
      }
    }
  }

  function Lookup<V>(m: map<string, V>, k: string): Option<V> {
    if k in m then Some(m[k]) else None
  }

  class Store {
    var store: map<string, CircuitBreakerEntry>
    ghost var contents: map<string, B.Entry>

    ghost predicate Valid()
      reads this, store.Values
    {
      && contents.Keys == store.Keys
      && (forall k | k in store :: store[k].Value() == contents[k])
      && (forall j, k | j in store && k in store && j != k :: store[j] != store[k])
    }

    constructor ()
      ensures Valid() && contents == map[] && store == map[]
    {
      store, contents := map[], map[];
    }

    /** The entry of a component, created closed if there is none. */
    method EntryFor(component: string) returns (entry: CircuitBreakerEntry)
      requires Valid()
      modifies this
      ensures Valid() && component in store && store[component] == entry
      ensures fresh(store.Values - old(store.Values))
      ensures contents == old(contents)[component :=
        if component in old(contents) then old(contents)[component] else B.Entry(B.Closed, 0, 0)]
    {
      if component !in store {
        var created := new CircuitBreakerEntry();
        store := store[component := created];
        contents := contents[component := B.Entry(B.Closed, 0, 0)];
      }
      entry := store[component];
    }

    method RecordFailure(component: string, maxFailures: int, resetTimeoutMs: int, now: int)
      requires Valid()
      modifies this, store.Values
      ensures Valid() && fresh(store.Values - old(store.Values))
      ensures contents == old(contents)[component :=
        B.Failed(Lookup(old(contents), component), now, B.Settings(maxFailures, resetTimeoutMs))]
    {
      var entry := EntryFor(component);
      CountFailureOf(component, entry, maxFailures, resetTimeoutMs, now);
    }

    /** Counts a failure on the entry that the store holds for the component. */
    method CountFailureOf(component: string, entry: CircuitBreakerEntry, maxFailures: int, resetTimeoutMs: int,
                          now: int)
      requires Valid() && component in store && store[component] == entry
      modifies this`contents, entry
      ensures Valid()
      ensures contents == old(contents)[component :=
        B.Counted(old(contents)[component], now, B.Settings(maxFailures, resetTimeoutMs))]
    {
      entry.CountFailure(maxFailures, resetTimeoutMs, now);
      contents := contents[component := entry.Value()];
    }

    method RecordSuccess(component: string)
      requires Valid()
      modifies this`contents, store.Values
      ensures Valid()
      ensures Lookup(contents, component) == B.Succeeded(Lookup(old(contents), component))
      ensures contents - {component} == old(contents) - {component}
    {
      if component in store {
        var entry := store[component];
        if entry.state.HalfOpen? {
          entry.state := B.Closed;
        }
        entry.failureCount := 0;
        contents := contents[component := entry.Value()];
      }
    }

    method TransitionToHalfOpen(component: string, resetTimeoutMs: int, now: int)
      requires Valid()
      modifies this`contents, store.Values
      ensures Valid()
      ensures Lookup(contents, component)
        == B.TriedHalfOpen(Lookup(old(contents), component), now, resetTimeoutMs)
      ensures contents - {component} == old(contents) - {component}
    {
      if component in store && store[component].state.Open? {
        var entry := store[component];
        if now - entry.lastFailureTime > resetTimeoutMs {
          entry.state := B.HalfOpen;
          entry.failureCount := 0;
          contents := contents[component := entry.Value()];
        }
      }
    }

    method IsOpen(component: string, resetTimeoutMs: int, now: int) returns (open: bool)
      requires Valid()
      modifies this`contents, store.Values
      ensures Valid()
      ensures open <==> B.Rejects(Lookup(old(contents), component), now, resetTimeoutMs)
      ensures Lookup(contents, component)
        == B.TriedHalfOpen(Lookup(old(contents), component), now, resetTimeoutMs)
      ensures contents - {component} == old(contents) - {component}
    {
      if component !in store {
        return false;
      }
      var entry := store[component];
      if entry.state.Closed? || entry.state.HalfOpen? {
        return false;
      }
      if now - entry.lastFailureTime > resetTimeoutMs {
        TransitionToHalfOpen(component, resetTimeoutMs, now);
        return false;
      }
      return true;
    }

    method IsOpenByWindow(component: string, maxFailures: int, windowMs: int, now: int) returns (open: bool)
      requires Valid()
      modifies this
      ensures Valid() && store.Values <= old(store.Values)
      ensures Lookup(contents, component) == B.Swept(Lookup(old(contents), component), now, windowMs)
      ensures contents - {component} == old(contents) - {component}
      ensures open <==> B.OpenByWindow(Lookup(old(contents), component), maxFailures, now, windowMs)
    {
      if component !in store {
        return false;
      }
      var entry := store[component];
      if now - entry.lastFailureTime > windowMs {
        store := store - {component};
        contents := contents - {component};
        return false;
      }
      return entry.failureCount >= maxFailures || entry.state.Open?;
    }
  }

  datatype CallOutcome = Rejected | Returned | Threw

  /** A service whose operations share the store, each under its own key. */
  class BaseService {
    const serviceName: string
    const circuitBreakerStore: Store
    const maxFailures := DEFAULT_MAX_FAILURES
    const resetTimeout := DEFAULT_RESET_TIMEOUT_MS

    constructor (serviceName: string, circuitBreakerStore: Store)
      ensures this.serviceName == serviceName && this.circuitBreakerStore == circuitBreakerStore
    {
      this.serviceName, this.circuitBreakerStore := serviceName, circuitBreakerStore;
    }

    /** The part before the operation runs: whether the call is let through. */
    method Enter(key: string, now: int) returns (admitted: bool)
      requires circuitBreakerStore.Valid()
      modifies circuitBreakerStore`contents, circuitBreakerStore.store.Values
      ensures circuitBreakerStore.Valid()
      ensures admitted <==> !B.Rejects(Lookup(old(circuitBreakerStore.contents), key), now, resetTimeout)
      ensures Lookup(circuitBreakerStore.contents, key)
        == B.TriedHalfOpen(Lookup(old(circuitBreakerStore.contents), key), now, resetTimeout)
      ensures circuitBreakerStore.contents - {key} == old(circuitBreakerStore.contents) - {key}
    {
      var open := circuitBreakerStore.IsOpen(key, resetTimeout, now);
      admitted := !open;
    }

    /** The part after the operation has ended, whatever other calls did to the store meanwhile:
        the outcome takes the step of that name. */
    method Leave(key: string, now: int, succeeds: bool)
      requires circuitBreakerStore.Valid()
      modifies circuitBreakerStore, circuitBreakerStore.store.Values
      ensures circuitBreakerStore.Valid()
      ensures Lookup(circuitBreakerStore.contents, key) ==
        B.Step(Lookup(old(circuitBreakerStore.contents), key),
               if succeeds then B.Success(now) else B.Failure(now), B.Settings(maxFailures, resetTimeout))
      ensures circuitBreakerStore.contents - {key} == old(circuitBreakerStore.contents) - {key}
    {
      if succeeds {
        circuitBreakerStore.RecordSuccess(key);
      } else {
        circuitBreakerStore.RecordFailure(key, maxFailures, resetTimeout, now);
      }
    }

    /** A call during which no other call touches the store: the operation asks at `call.started`; if
        it is let through it ends at `call.finished`, with a result or an error. */
    method ExecuteWithCircuitBreaker(operationName: string, call: B.Call) returns (outcome: CallOutcome)
      requires circuitBreakerStore.Valid()
      modifies circuitBreakerStore, circuitBreakerStore.store.Values
      ensures circuitBreakerStore.Valid()
      ensures
        var key := serviceName + "." + operationName;
        var settings := B.Settings(maxFailures, resetTimeout);
        var before := Lookup(old(circuitBreakerStore.contents), key);
        && (outcome == Rejected <==> B.Rejects(before, call.started, resetTimeout))
        && (outcome == Returned ==> call.succeeds) && (outcome == Threw ==> !call.succeeds)
        && Lookup(circuitBreakerStore.contents, key) == B.After(before, call, settings)
        && Lookup(circuitBreakerStore.contents, key) == (
          var asked := B.Step(before, B.Check(call.started), settings);
          match outcome
          case Rejected => asked
          case Returned => B.Step(asked, B.Success(call.finished), settings)
          case Threw => B.Step(asked, B.Failure(call.finished), settings))
        && circuitBreakerStore.contents - {key} == old(circuitBreakerStore.contents) - {key}
    {
      var key := serviceName + "." + operationName;
      var admitted := Enter(key, call.started);
      if !admitted {
        return Rejected;
      }
      Leave(key, call.finished, call.succeeds);
      return if call.succeeds then Returned else Threw;
    }
  }

  /** With a service's own settings, a call is rejected exactly if the last five outcomes of the calls
      that were let through before it are failures with at most a minute from each to the next, and
      from the last to the call. */
  lemma FiveFailuresReject(calls: seq<B.Call>, now: int, i: nat)
    requires B.Sequential(calls, now) && i < |calls|
    ensures var admitted := B.Admissions(None, calls, B.Settings(DEFAULT_MAX_FAILURES, DEFAULT_RESET_TIMEOUT_MS));
      var h := G.OutcomesOf(calls[..i], admitted[..i]);
      !admitted[i] <==>
        && |h| >= 5 && (forall k | |h| - 5 <= k < |h| :: h[k].Failure?)
        && (forall k | |h| - 5 < k < |h| :: h[k].at - h[k - 1].at <= 60000)
        && calls[i].started - h[|h| - 1].at <= 60000
  {
    var s := B.Settings(DEFAULT_MAX_FAILURES, DEFAULT_RESET_TIMEOUT_MS);
    G.RejectedIff(calls, now, s, i);
    var admitted := B.Admissions(None, calls, s);
    var h := G.OutcomesOf(calls[..i], admitted[..i]);
    if |h| >= 5 {
      LastFive(h, s);
    }
  }

  lemma LastFive(h: seq<B.Event>, s: B.Settings)
    requires |h| >= 5
    ensures B.IsBurst(h[|h| - 5..], s) <==>
      && (forall k | |h| - 5 <= k < |h| :: h[k].Failure?)
      && (forall k | |h| - 5 < k < |h| :: h[k].at - h[k - 1].at <= s.resetTimeout)
  {
    var last := h[|h| - 5..];
    assert forall k | 0 <= k < 5 :: last[k] == h[|h| - 5 + k];
    assert forall k | |h| - 5 <= k < |h| :: h[k] == last[k - (|h| - 5)];
  }
}
