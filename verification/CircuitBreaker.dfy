/** The circuit breaker of one key as a timed state machine, and what its runs show. */
module CircuitBreaker {
  import opened Wrappers

  datatype CircuitState = Closed | Open | HalfOpen

  datatype Entry = Entry(state: CircuitState, failureCount: nat, lastFailureTime: int)

  /** Constant for a key: how many failures open the circuit, and for how long. */
  datatype Settings = Settings(maxFailures: int, resetTimeout: int)

  // ------------------------------------------------------------------- the steps

  /** One failure more on an entry. */
  function Counted(e0: Entry, now: int, s: Settings): Entry {
    var e1 := if e0.state.HalfOpen? && now - e0.lastFailureTime > s.resetTimeout
              then e0.(state := Closed, failureCount := 0) else e0;
    var e2 := if e1.state.Closed? && e1.failureCount > 0 && now - e1.lastFailureTime > s.resetTimeout
              then e1.(failureCount := 0) else e1;
    var e3 := e2.(failureCount := e2.failureCount + 1, lastFailureTime := now);
    if e3.failureCount >= s.maxFailures then e3.(state := Open) else e3
  }

  /** A failure, on a new entry if there is none. */
  function Failed(e: Option<Entry>, now: int, s: Settings): Entry {
    Counted(if e.Some? then e.value else Entry(Closed, 0, 0), now, s)
  }

  /** An open entry loses its count but stays open. */
  function Succeeded(e: Option<Entry>): Option<Entry> {
    if e.None? then None
    else Some(e.value.(state := if e.value.state.HalfOpen? then Closed else e.value.state, failureCount := 0))
  }

  function TriedHalfOpen(e: Option<Entry>, now: int, resetTimeout: int): Option<Entry> {
    if e.Some? && e.value.state.Open? && now - e.value.lastFailureTime > resetTimeout
    then Some(e.value.(state := HalfOpen, failureCount := 0))
    else e
  }

  /** Does the check turn a call away?  An open entry whose time is over becomes half-open instead. */
  predicate Rejects(e: Option<Entry>, now: int, resetTimeout: int) {
    e.Some? && e.value.state.Open? && now - e.value.lastFailureTime <= resetTimeout
  }

  /** The check by window deletes an entry whose last failure is too long ago. */
  function Swept(e: Option<Entry>, now: int, windowMs: int): Option<Entry> {
    if e.Some? && now - e.value.lastFailureTime > windowMs then None else e
  }

  /** What the check by window answers. */
  predicate OpenByWindow(e: Option<Entry>, maxFailures: int, now: int, windowMs: int) {
    var left := Swept(e, now, windowMs);
    left.Some? && (left.value.failureCount >= maxFailures || left.value.state.Open?)
  }

  // ----------------------------------------------------------- runs of outcomes

  datatype Event =
    | Failure(at: int)
    | Success(at: int)
    | Check(at: int)

  function Step(e: Option<Entry>, ev: Event, s: Settings): Option<Entry> {
    match ev
    case Failure(now) => Some(Failed(e, now, s))
    case Success(_) => Succeeded(e)
    case Check(now) => TriedHalfOpen(e, now, s.resetTimeout)
  }

  function Run(events: seq<Event>, s: Settings): Option<Entry> {
    if events == [] then None else Step(Run(events[..|events| - 1], s), events[|events| - 1], s)
  }

  /** The clock never runs backwards. */
  ghost predicate Timely(events: seq<Event>) {
    forall i, j | 0 <= i < j < |events| :: events[i].at <= events[j].at
  }

  /** The recorded outcomes, without the checks between them. */
  function Outcomes(events: seq<Event>): seq<Event> {
    if events == [] then []
    else
      var rest, last := Outcomes(events[..|events| - 1]), events[|events| - 1];
      if last.Check? then rest else rest + [last]
  }

  /** Failures only, each at most the reset timeout after the one before. */
  ghost predicate IsBurst(h: seq<Event>, s: Settings) {
    && (forall i | 0 <= i < |h| :: h[i].Failure?)
    && (forall i | 0 < i < |h| :: h[i].at - h[i - 1].at <= s.resetTimeout)
  }

  /** The length of the burst that ends the outcomes. */
  function Streak(h: seq<Event>, s: Settings): (n: nat)
    ensures n <= |h|
  {
    if h == [] || !h[|h| - 1].Failure? then 0
    else if |h| > 1 && h[|h| - 2].Failure? && h[|h| - 1].at - h[|h| - 2].at <= s.resetTimeout
    then Streak(h[..|h| - 1], s) + 1
    else 1
  }

  lemma {:induction false} StreakIsLongestBurst(h: seq<Event>, s: Settings, m: nat)
    requires m <= |h|
    ensures IsBurst(h[|h| - m..], s) <==> m <= Streak(h, s)
  {
    if m > 0 {
      var init := h[..|h| - 1];
      StreakIsLongestBurst(init, s, m - 1);
      assert h[|h| - m..] == init[|init| - (m - 1)..] + [h[|h| - 1]];
      BurstGrows(init[|init| - (m - 1)..], h[|h| - 1], s);
      StreakNeedsFailure(init, s);
    }
  }

  lemma BurstGrows(h: seq<Event>, e: Event, s: Settings)
    ensures IsBurst(h + [e], s) <==>
      IsBurst(h, s) && e.Failure? && (h != [] ==> e.at - h[|h| - 1].at <= s.resetTimeout)
  {
    var t := h + [e];
    assert t[|h|] == e && (h != [] ==> t[|h| - 1] == h[|h| - 1]);
    assert forall i | 0 <= i < |h| :: t[i] == h[i];
    if IsBurst(t, s) {
      forall i | 0 < i < |h| ensures h[i].at - h[i - 1].at <= s.resetTimeout {
        assert t[i].at - t[i - 1].at <= s.resetTimeout;
      }
    }
  }

  function LastFailure(h: seq<Event>): Option<int> {
    if h == [] then None
    else if h[|h| - 1].Failure? then Some(h[|h| - 1].at)
    else LastFailure(h[..|h| - 1])
  }

  /** The entry, told by the outcomes. */
  ghost predicate Explains(e: Option<Entry>, h: seq<Event>, now: int, s: Settings) {
    match e
    case None => LastFailure(h) == None
    case Some(v) =>
      && LastFailure(h) == Some(v.lastFailureTime) && v.lastFailureTime <= now
      && (v.state.Closed? ==> v.failureCount == Streak(h, s) < s.maxFailures)
      && (v.state.HalfOpen? ==> v.failureCount == 0 && now - v.lastFailureTime > s.resetTimeout)
  }

  lemma FailureExtendsStreak(h: seq<Event>, at: int, s: Settings)
    ensures Streak(h + [Failure(at)], s) ==
      if h != [] && h[|h| - 1].Failure? && at - h[|h| - 1].at <= s.resetTimeout then Streak(h, s) + 1 else 1
    ensures LastFailure(h + [Failure(at)]) == Some(at)
  {
    assert (h + [Failure(at)])[..|h|] == h;
  }

  lemma SuccessEndsStreak(h: seq<Event>, at: int, s: Settings)
    ensures Streak(h + [Success(at)], s) == 0 && LastFailure(h + [Success(at)]) == LastFailure(h)
  {
    assert (h + [Success(at)])[..|h|] == h;
  }

  lemma LastFailureLast(h: seq<Event>)
    ensures h != [] && h[|h| - 1].Failure? ==> LastFailure(h) == Some(h[|h| - 1].at)
  {
  }

  lemma NoFailureNoStreak(h: seq<Event>, s: Settings)
    ensures LastFailure(h) == None ==> Streak(h, s) == 0
  {
  }

  lemma StreakNeedsFailure(h: seq<Event>, s: Settings)
    ensures Streak(h, s) > 0 <==> h != [] && h[|h| - 1].Failure?
  {
  }

  lemma FailureIsExplained(e: Option<Entry>, h: seq<Event>, before: int, at: int, s: Settings)
    requires s.maxFailures >= 1 && Explains(e, h, before, s) && before <= at
    ensures Explains(Some(Failed(e, at, s)), h + [Failure(at)], at, s)
    ensures (e.Some? && e.value.state.Open?)
      || (Failed(e, at, s).state.Open? <==> Streak(h + [Failure(at)], s) == s.maxFailures)
  {
    FailureExtendsStreak(h, at, s);
    StreakNeedsFailure(h, s);
    LastFailureLast(h);
    NoFailureNoStreak(h, s);
  }

  lemma StepIsExplained(e: Option<Entry>, h: seq<Event>, before: int, ev: Event, s: Settings)
    requires s.maxFailures >= 1 && Explains(e, h, before, s) && before <= ev.at
    ensures Explains(Step(e, ev, s), if ev.Check? then h else h + [ev], ev.at, s)
    ensures ev.Failure? ==>
      (e.Some? && e.value.state.Open?) || (Step(e, ev, s).value.state.Open? <==> Streak(h + [ev], s) == s.maxFailures)
  {
    match ev
    case Failure(at) => FailureIsExplained(e, h, before, at, s);
    case Success(at) => SuccessEndsStreak(h, at, s);
    case Check(_) =>
  }

  lemma {:induction false} RunIsExplained(events: seq<Event>, s: Settings)
    requires s.maxFailures >= 1 && events != [] && Timely(events)
    ensures Explains(Run(events, s), Outcomes(events), events[|events| - 1].at, s)
  {
    var init, last := events[..|events| - 1], events[|events| - 1];
    if init == [] {
      assert Outcomes(events) == if last.Check? then [] else [last];
      StepIsExplained(None, [], last.at, last, s);
      assert [] + [last] == [last];
    } else {
      RunIsExplained(init, s);
      StepIsExplained(Run(init, s), Outcomes(init), init[|init| - 1].at, last, s);
    }
  }

  /** While closed, the count is the length of the burst that ends the outcomes, and below the
      maximum; half-open entries have count 0 and are left by the next outcome. */
  lemma {:induction false} CountIsStreak(events: seq<Event>, s: Settings, next: Event)
    requires s.maxFailures >= 1 && Timely(events) && events != []
    requires events[|events| - 1].at <= next.at && !next.Check?
    ensures var e, n := Run(events, s), Streak(Outcomes(events), s);
      && (e.None? ==> n == 0)
      && (e.Some? && e.value.state.Closed? ==> e.value.failureCount == n < s.maxFailures)
      && (e.Some? && e.value.state.HalfOpen? ==>
        e.value.failureCount == 0 && !Step(e, next, s).value.state.HalfOpen?)
  {
    RunIsExplained(events, s);
    StreakNeedsFailure(Outcomes(events), s);
    NoFailureNoStreak(Outcomes(events), s);
  }

  /** A circuit that is not open is opened by a failure exactly when that failure completes a
      burst of the maximum length. */
  lemma {:induction false} OpensExactlyAtMaximum(events: seq<Event>, s: Settings, now: int)
    requires s.maxFailures >= 1 && Timely(events) && (events != [] ==> events[|events| - 1].at <= now)
    requires Run(events, s).None? || !Run(events, s).value.state.Open?
    ensures Run(events + [Failure(now)], s).value.state.Open?
      <==> Streak(Outcomes(events) + [Failure(now)], s) == s.maxFailures
  {
    var f := Failure(now);
    assert (events + [f])[..|events|] == events;
    if events == [] {
      StepIsExplained(None, [], now, f, s);
    } else {
      RunIsExplained(events, s);
      StepIsExplained(Run(events, s), Outcomes(events), events[|events| - 1].at, f, s);
    }
  }

  /** Whatever happened before, a failure in the half-open state counts as the first of a new burst:
      it closes the circuit, except that it opens it again when one failure is the maximum. */
  lemma HalfOpenFailureStartsOver(events: seq<Event>, s: Settings, now: int)
    requires s.maxFailures >= 1 && Timely(events) && events != [] && events[|events| - 1].at <= now
    requires Run(events, s).Some? && Run(events, s).value.state.HalfOpen?
    ensures Run(events + [Failure(now)], s) == Some(Entry(if s.maxFailures == 1 then Open else Closed, 1, now))
  {
    RunIsExplained(events, s);
    assert (events + [Failure(now)])[..|events|] == events;
  }

  /** A success in the half-open state closes the circuit, one in the open state only clears the count. */
  lemma {:induction false} SuccessKeepsOpen(events: seq<Event>, s: Settings, now: int)
    requires Run(events, s).Some?
    ensures var before, after := Run(events, s).value, Run(events + [Success(now)], s);
      after.Some? && after.value.failureCount == 0 && after.value.lastFailureTime == before.lastFailureTime
      && (after.value.state.Open? <==> before.state.Open?) && (after.value.state.Closed? <==> !before.state.Open?)
  {
    assert (events + [Success(now)])[..|events|] == events;
  }

  function Failures(n: nat, at: int): (events: seq<Event>)
    ensures |events| == n && forall e | e in events :: e == Failure(at)
  {
    if n == 0 then [] else Failures(n - 1, at) + [Failure(at)]
  }

  lemma {:induction false} FailuresCount(n: nat, at: int, s: Settings)
    requires s.resetTimeout >= 0 && 1 <= n <= s.maxFailures
    ensures Run(Failures(n, at), s) == Some(Entry(if n == s.maxFailures then Open else Closed, n, at))
  {
    assert Failures(n, at)[..n - 1] == Failures(n - 1, at);
    if n > 1 {
      FailuresCount(n - 1, at, s);
    }
  }

  /** Half-open is reachable: the maximum number of failures, then a check once the reset timeout is over. */
  lemma HalfOpenIsReachable(s: Settings, at: int)
    requires s.maxFailures >= 1 && s.resetTimeout >= 0
    ensures var events := Failures(s.maxFailures, at) + [Check(at + s.resetTimeout + 1)];
      Timely(events) && Run(events, s) == Some(Entry(HalfOpen, 0, at))
  {
    FailuresCount(s.maxFailures, at, s);
    var events := Failures(s.maxFailures, at) + [Check(at + s.resetTimeout + 1)];
    assert events[..s.maxFailures] == Failures(s.maxFailures, at);
    forall i | 0 <= i < s.maxFailures ensures events[i].at == at {
      assert events[i] in Failures(s.maxFailures, at);
    }
  }

  // ------------------------------------------------------ runs of guarded calls

  /** A guarded call: when it asks, when its operation ends if it is let through, and how. */
  datatype Call = Call(started: int, finished: int, succeeds: bool)

  function After(e: Option<Entry>, c: Call, s: Settings): Option<Entry> {
    if Rejects(e, c.started, s.resetTimeout) then e
    else
      var e' := TriedHalfOpen(e, c.started, s.resetTimeout);
      if c.succeeds then Succeeded(e') else Some(Failed(e', c.finished, s))
  }

  /** Which of the calls are let through. */
  function Admissions(e: Option<Entry>, calls: seq<Call>, s: Settings): (admitted: seq<bool>)
    ensures |admitted| == |calls|
    decreases |calls|
  {
    if calls == [] then []
    else [!Rejects(e, calls[0].started, s.resetTimeout)] + Admissions(After(e, calls[0], s), calls[1..], s)
  }

  /** One call after the other, none before `now`. */
  ghost predicate Sequential(calls: seq<Call>, now: int) {
    calls != [] ==>
      now <= calls[0].started <= calls[0].finished && Sequential(calls[1..], calls[0].finished)
  }

  ghost predicate Indistinguishable(e1: Option<Entry>, e2: Option<Entry>, now: int, s: Settings) {
    forall calls | Sequential(calls, now) :: Admissions(e1, calls, s) == Admissions(e2, calls, s)
  }

  /** Nothing counts any more: no entry, a closed one without failures, or one whose last failure is stale. */
  predicate Blank(e: Option<Entry>, now: int, s: Settings) {
    || e.None?
    || (e.value.state.Closed? && e.value.failureCount == 0)
    || now - e.value.lastFailureTime > s.resetTimeout
  }

  ghost predicate Alike(e1: Option<Entry>, e2: Option<Entry>, now: int, s: Settings) {
    e1 == e2 || (Blank(e1, now, s) && Blank(e2, now, s))
  }

  lemma AlikeStep(e1: Option<Entry>, e2: Option<Entry>, now: int, c: Call, s: Settings)
    requires Alike(e1, e2, now, s) && now <= c.started <= c.finished
    ensures Rejects(e1, c.started, s.resetTimeout) == Rejects(e2, c.started, s.resetTimeout)
    ensures Alike(After(e1, c, s), After(e2, c, s), c.finished, s)
  {
  }

  lemma {:induction false} AlikeIsIndistinguishable(
      e1: Option<Entry>, e2: Option<Entry>, now: int, calls: seq<Call>, s: Settings)
    requires Alike(e1, e2, now, s) && Sequential(calls, now)
    ensures Admissions(e1, calls, s) == Admissions(e2, calls, s)
    decreases |calls|
  {
    if calls != [] {
      var c := calls[0];
      AlikeStep(e1, e2, now, c, s);
      AlikeIsIndistinguishable(After(e1, c, s), After(e2, c, s), c.finished, calls[1..], s);
    }
  }

  /** What the entries of a run look like, from the time of its last event on. */
  ghost predicate WellFormed(e: Option<Entry>, now: int, s: Settings) {
    e.Some? ==>
      && e.value.lastFailureTime <= now
      && (e.value.state.Closed? ==> e.value.failureCount < s.maxFailures)
      && (e.value.state.HalfOpen? ==> now - e.value.lastFailureTime > s.resetTimeout)
  }

  lemma RunIsWellFormed(events: seq<Event>, s: Settings, now: int)
    requires s.maxFailures >= 1 && Timely(events) && events != [] && events[|events| - 1].at <= now
    ensures WellFormed(Run(events, s), now, s)
  {
    RunIsExplained(events, s);
  }

  /** `k` failing calls at one instant, then one more call. */
  function Probe(k: nat, now: int): (calls: seq<Call>)
    ensures |calls| == k + 1 && Sequential(calls, now)
  {
    if k == 0 then [Call(now, now, true)]
    else
      var rest := Probe(k - 1, now);
      var calls := [Call(now, now, false)] + rest;
      assert calls[1..] == rest;
      calls
  }

  lemma {:induction false} ProbeAdmission(e: Option<Entry>, k: nat, now: int, s: Settings)
    requires s.resetTimeout >= 0
    requires e.None? || (e.value.state.Closed?
      && (e.value.failureCount == 0 || now - e.value.lastFailureTime <= s.resetTimeout))
    requires var count := if e.None? then 0 else e.value.failureCount;
      count < s.maxFailures && count + k <= s.maxFailures
    ensures Admissions(e, Probe(k, now), s)[k]
      <==> (if e.None? then 0 else e.value.failureCount) + k < s.maxFailures
    decreases k
  {
    if k > 0 {
      var calls, e' := Probe(k, now), After(e, Call(now, now, false), s);
      assert calls[1..] == Probe(k - 1, now);
      if e'.value.state.Open? {
        assert k == 1;
        assert Admissions(e', Probe(0, now), s)[0] == !Rejects(e', now, s.resetTimeout);
      } else {
        ProbeAdmission(e', k - 1, now, s);
      }
    }
  }

  /** To every later sequence of calls an entry looks like no entry at all if and only if it is blank. */
  lemma LooksAbsentIffBlank(e: Option<Entry>, now: int, s: Settings)
    requires s.maxFailures >= 1 && s.resetTimeout >= 0 && WellFormed(e, now, s)
    ensures Indistinguishable(e, None, now, s) <==> Blank(e, now, s)
  {
    if Blank(e, now, s) {
      forall calls | Sequential(calls, now) ensures Admissions(e, calls, s) == Admissions(None, calls, s) {
        AlikeIsIndistinguishable(e, None, now, calls, s);
      }
    } else if e.value.state.Open? {
      var calls := Probe(0, now);
      assert Sequential(calls, now) && Admissions(e, calls, s)[0] != Admissions(None, calls, s)[0];
    } else {
      var k := s.maxFailures - e.value.failureCount;
      ProbeAdmission(e, k, now, s);
      ProbeAdmission(None, k, now, s);
      assert Sequential(Probe(k, now), now);
      assert Admissions(e, Probe(k, now), s)[k] != Admissions(None, Probe(k, now), s)[k];
    }
  }

  // -------------------------------------------------------- deletion by window

  /** Deleting by window is invisible to every later call if and only if the window is at least the
      reset timeout. */
  lemma SweepIsInvisibleIff(windowMs: int, s: Settings)
    requires s.maxFailures >= 1 && s.resetTimeout >= 0 && windowMs >= 0
    ensures windowMs >= s.resetTimeout <==>
      (forall e: Option<Entry>, now: int :: WellFormed(e, now, s) ==>
        Indistinguishable(e, Swept(e, now, windowMs), now, s))
  {
    if windowMs >= s.resetTimeout {
      forall e: Option<Entry>, now: int | WellFormed(e, now, s)
        ensures Indistinguishable(e, Swept(e, now, windowMs), now, s) {
        forall calls | Sequential(calls, now)
          ensures Admissions(e, calls, s) == Admissions(Swept(e, now, windowMs), calls, s) {
          AlikeIsIndistinguishable(e, Swept(e, now, windowMs), now, calls, s);
        }
      }
    } else {
      var e, now := Some(Entry(Open, s.maxFailures, 0)), windowMs + 1;
      var calls := Probe(0, now);
      assert Sequential(calls, now);
      assert Admissions(e, calls, s)[0] != Admissions(Swept(e, now, windowMs), calls, s)[0];
      assert WellFormed(e, now, s) && !Indistinguishable(e, Swept(e, now, windowMs), now, s);
    }
  }

  datatype Op = Guarded(call: Call) | Sweep(at: int)

  function AdmissionsWithSweeps(e: Option<Entry>, ops: seq<Op>, windowMs: int, s: Settings): seq<bool>
    decreases |ops|
  {
    if ops == [] then []
    else match ops[0]
      case Guarded(c) =>
        [!Rejects(e, c.started, s.resetTimeout)] + AdmissionsWithSweeps(After(e, c, s), ops[1..], windowMs, s)
      case Sweep(at) => AdmissionsWithSweeps(Swept(e, at, windowMs), ops[1..], windowMs, s)
  }

  function CallsOf(ops: seq<Op>): seq<Call> {
    if ops == [] then [] else (if ops[0].Guarded? then [ops[0].call] else []) + CallsOf(ops[1..])
  }

  ghost predicate InSequence(ops: seq<Op>, now: int) {
    ops != [] ==>
      match ops[0]
      case Guarded(c) => now <= c.started <= c.finished && InSequence(ops[1..], c.finished)
      case Sweep(at) => now <= at && InSequence(ops[1..], at)
  }

  /** However many checks by window happen between the calls, the same calls are let through. */
  lemma {:induction false} SweepsChangeNothing(
      e1: Option<Entry>, e2: Option<Entry>, now: int, ops: seq<Op>, windowMs: int, s: Settings)
    requires windowMs >= s.resetTimeout && Alike(e1, e2, now, s) && InSequence(ops, now)
    ensures AdmissionsWithSweeps(e1, ops, windowMs, s) == Admissions(e2, CallsOf(ops), s)
    decreases |ops|
  {
    if ops != [] {
      match ops[0]
      case Guarded(c) =>
        AlikeStep(e1, e2, now, c, s);
        SweepsChangeNothing(After(e1, c, s), After(e2, c, s), c.finished, ops[1..], windowMs, s);
        assert CallsOf(ops)[1..] == CallsOf(ops[1..]);
      case Sweep(at) =>
        SweepsChangeNothing(Swept(e1, at, windowMs), e2, at, ops[1..], windowMs, s);
        assert CallsOf(ops) == CallsOf(ops[1..]);
    }
  }
}
