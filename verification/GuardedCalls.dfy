/** What sequences of guarded calls do to the entry of their key, told by the calls and their answers. */
module GuardedCalls {
  import opened Wrappers
  import opened CircuitBreaker

  /** What a call records once it has been let through. */
  function OutcomeOf(c: Call): Event {
    if c.succeeds then Success(c.finished) else Failure(c.finished)
  }

  /** Every call asks; the ones that are let through record their outcome. */
  function EventsOf(calls: seq<Call>, admitted: seq<bool>): seq<Event>
    requires |admitted| == |calls|
    decreases |calls|
  {
    if calls == [] then []
    else
      [Check(calls[0].started)] + (if admitted[0] then [OutcomeOf(calls[0])] else [])
      + EventsOf(calls[1..], admitted[1..])
  }

  /** The recorded outcomes alone. */
  function OutcomesOf(calls: seq<Call>, admitted: seq<bool>): seq<Event>
    requires |admitted| == |calls|
    decreases |calls|
  {
    if calls == [] then []
    else (if admitted[0] then [OutcomeOf(calls[0])] else []) + OutcomesOf(calls[1..], admitted[1..])
  }

  /** The entry that a sequence of calls leaves. */
  function AfterAll(e: Option<Entry>, calls: seq<Call>, s: Settings): Option<Entry>
    decreases |calls|
  {
    if calls == [] then e else AfterAll(After(e, calls[0], s), calls[1..], s)
  }

  function StepAll(e: Option<Entry>, events: seq<Event>, s: Settings): Option<Entry>
    decreases |events|
  {
    if events == [] then e else StepAll(Step(e, events[0], s), events[1..], s)
  }

  lemma {:induction false} StepAllConcat(e: Option<Entry>, a: seq<Event>, b: seq<Event>, s: Settings)
    ensures StepAll(e, a + b, s) == StepAll(StepAll(e, a, s), b, s)
    decreases |a|
  {
    if a == [] {
      assert a + b == b;
    } else {
      assert (a + b)[1..] == a[1..] + b;
      StepAllConcat(Step(e, a[0], s), a[1..], b, s);
    }
  }

  lemma {:induction false} RunIsStepAll(events: seq<Event>, s: Settings)
    ensures Run(events, s) == StepAll(None, events, s)
  {
    if events != [] {
      var init, last := events[..|events| - 1], events[|events| - 1];
      RunIsStepAll(init, s);
      StepAllConcat(None, init, [last], s);
      assert events == init + [last] && [last][1..] == [];
      assert StepAll(Run(init, s), [last], s) == Step(Run(init, s), last, s);
    }
  }

  /** One call takes the step of its check and, if it is let through, the step of its outcome. */
  lemma CallTakesItsSteps(e: Option<Entry>, c: Call, s: Settings)
    ensures After(e, c, s) ==
      if Rejects(e, c.started, s.resetTimeout) then Step(e, Check(c.started), s)
      else Step(Step(e, Check(c.started), s), OutcomeOf(c), s)
  {
  }

  lemma {:induction false} CallsTakeTheirSteps(e: Option<Entry>, calls: seq<Call>, s: Settings)
    ensures AfterAll(e, calls, s) == StepAll(e, EventsOf(calls, Admissions(e, calls, s)), s)
    decreases |calls|
  {
    if calls != [] {
      var c, admitted := calls[0], Admissions(e, calls, s);
      CallTakesItsSteps(e, c, s);
      CallsTakeTheirSteps(After(e, c, s), calls[1..], s);
      assert admitted[1..] == Admissions(After(e, c, s), calls[1..], s);
      var now := [Check(c.started)] + if admitted[0] then [OutcomeOf(c)] else [];
      StepAllConcat(e, now, EventsOf(calls[1..], admitted[1..]), s);
      StepsOfOne(e, c, admitted[0], s);
    }
  }

  lemma StepsOfOne(e: Option<Entry>, c: Call, admitted: bool, s: Settings)
    ensures StepAll(e, [Check(c.started)] + (if admitted then [OutcomeOf(c)] else []), s) ==
      if admitted then Step(Step(e, Check(c.started), s), OutcomeOf(c), s) else Step(e, Check(c.started), s)
  {
    var events := [Check(c.started)] + if admitted then [OutcomeOf(c)] else [];
    if admitted {
      assert events[1..] == [OutcomeOf(c)] && [OutcomeOf(c)][1..] == [];
      var entered := Step(e, Check(c.started), s);
      assert StepAll(entered, [OutcomeOf(c)], s) == StepAll(Step(entered, OutcomeOf(c), s), [], s);
    } else {
      assert events[1..] == [];
    }
  }

  /** Every sequence of calls is a run of the events read off the calls and their answers. */
  lemma CallsAreARun(calls: seq<Call>, s: Settings)
    ensures AfterAll(None, calls, s) == Run(EventsOf(calls, Admissions(None, calls, s)), s)
  {
    CallsTakeTheirSteps(None, calls, s);
    RunIsStepAll(EventsOf(calls, Admissions(None, calls, s)), s);
  }

  // ------------------------------------------------------------------ who is rejected

  /** The last outcomes are as many failures as open the circuit, each at most the reset timeout after
      the one before, and at `now` the last is at most `within` ago. */
  ghost predicate IsBroken(h: seq<Event>, now: int, within: int, s: Settings) {
    && 1 <= s.maxFailures <= |h| && IsBurst(h[|h| - s.maxFailures..], s)
    && now - h[|h| - 1].at <= within
  }

  /** The entry between calls, told by the outcomes. */
  ghost predicate IsToldBy(e: Option<Entry>, h: seq<Event>, now: int, s: Settings) {
    match e
    case None => LastFailure(h) == None
    case Some(v) =>
      && LastFailure(h) == Some(v.lastFailureTime) && v.lastFailureTime <= now && Streak(h, s) <= s.maxFailures
      && (v.state.Closed? ==> v.failureCount == Streak(h, s) < s.maxFailures)
      && !v.state.HalfOpen?
      && (v.state.Open? ==> Streak(h, s) == s.maxFailures)
  }

  lemma ToldMeansRejects(e: Option<Entry>, h: seq<Event>, now: int, at: int, within: int, s: Settings)
    requires s.maxFailures >= 1 && IsToldBy(e, h, now, s) && now <= at
    ensures Rejects(e, at, within) <==> IsBroken(h, at, within, s)
    ensures OpenByWindow(e, s.maxFailures, at, within) <==> IsBroken(h, at, within, s)
  {
    NoFailureNoStreak(h, s);
    StreakNeedsFailure(h, s);
    LastFailureLast(h);
    if s.maxFailures <= |h| {
      StreakIsLongestBurst(h, s, s.maxFailures);
    }
  }

  lemma CallIsToldBy(e: Option<Entry>, h: seq<Event>, now: int, c: Call, s: Settings)
    requires s.maxFailures >= 1 && IsToldBy(e, h, now, s) && now <= c.started <= c.finished
    ensures var rejected := Rejects(e, c.started, s.resetTimeout);
      IsToldBy(After(e, c, s), if rejected then h else h + [OutcomeOf(c)], c.finished, s)
  {
    NoFailureNoStreak(h, s);
    StreakNeedsFailure(h, s);
    LastFailureLast(h);
    FailureExtendsStreak(h, c.finished, s);
    SuccessEndsStreak(h, c.finished, s);
  }

  lemma {:induction false} CallsAreToldBy(
      e: Option<Entry>, h: seq<Event>, now: int, calls: seq<Call>, s: Settings, i: nat)
    requires s.maxFailures >= 1 && IsToldBy(e, h, now, s) && Sequential(calls, now) && i < |calls|
    ensures var admitted := Admissions(e, calls, s);
      !admitted[i] <==> IsBroken(h + OutcomesOf(calls[..i], admitted[..i]), calls[i].started, s.resetTimeout, s)
    decreases |calls|
  {
    var c, admitted := calls[0], Admissions(e, calls, s);
    if i == 0 {
      assert calls[..0] == [] && h + [] == h;
      ToldMeansRejects(e, h, now, c.started, s.resetTimeout, s);
    } else {
      CallIsToldBy(e, h, now, c, s);
      var h' := if admitted[0] then h + [OutcomeOf(c)] else h;
      CallsAreToldBy(After(e, c, s), h', c.finished, calls[1..], s, i - 1);
      assert calls[..i][1..] == calls[1..][..i - 1] && admitted[..i][1..] == admitted[1..][..i - 1];
      assert admitted[1..] == Admissions(After(e, c, s), calls[1..], s);
      var rest := OutcomesOf(calls[1..][..i - 1], admitted[1..][..i - 1]);
      assert h + ((if admitted[0] then [OutcomeOf(c)] else []) + rest) == h' + rest;
    }
  }

  /** A call is rejected exactly if the outcomes of the calls that were let through before it end in a
      burst of failures that opens the circuit, the last of them within the reset timeout. */
  lemma RejectedIff(calls: seq<Call>, now: int, s: Settings, i: nat)
    requires s.maxFailures >= 1 && Sequential(calls, now) && i < |calls|
    ensures var admitted := Admissions(None, calls, s);
      !admitted[i] <==> IsBroken(OutcomesOf(calls[..i], admitted[..i]), calls[i].started, s.resetTimeout, s)
  {
    CallsAreToldBy(None, [], now, calls, s, i);
    var admitted := Admissions(None, calls, s);
    assert [] + OutcomesOf(calls[..i], admitted[..i]) == OutcomesOf(calls[..i], admitted[..i]);
  }

  /** When the last of the calls has ended. */
  function EndOf(calls: seq<Call>, now: int): int {
    if calls == [] then now else calls[|calls| - 1].finished
  }

  lemma {:induction false} AllAreToldBy(e: Option<Entry>, h: seq<Event>, now: int, calls: seq<Call>, s: Settings)
    requires s.maxFailures >= 1 && IsToldBy(e, h, now, s) && Sequential(calls, now)
    ensures IsToldBy(AfterAll(e, calls, s), h + OutcomesOf(calls, Admissions(e, calls, s)), EndOf(calls, now), s)
    decreases |calls|
  {
    if calls == [] {
      assert h + [] == h;
    } else {
      var c, admitted := calls[0], Admissions(e, calls, s);
      CallIsToldBy(e, h, now, c, s);
      var h' := if admitted[0] then h + [OutcomeOf(c)] else h;
      AllAreToldBy(After(e, c, s), h', c.finished, calls[1..], s);
      assert admitted[1..] == Admissions(After(e, c, s), calls[1..], s);
      var rest := OutcomesOf(calls[1..], admitted[1..]);
      assert h + ((if admitted[0] then [OutcomeOf(c)] else []) + rest) == h' + rest;
    }
  }

  /** The check by window answers by the same burst, after any calls and for any window. */
  lemma OpenByWindowIff(calls: seq<Call>, start: int, now: int, windowMs: int, s: Settings)
    requires s.maxFailures >= 1 && Sequential(calls, start) && EndOf(calls, start) <= now
    ensures OpenByWindow(AfterAll(None, calls, s), s.maxFailures, now, windowMs)
      <==> IsBroken(OutcomesOf(calls, Admissions(None, calls, s)), now, windowMs, s)
  {
    var h := OutcomesOf(calls, Admissions(None, calls, s));
    AllAreToldBy(None, [], start, calls, s);
    assert [] + h == h;
    ToldMeansRejects(AfterAll(None, calls, s), h, EndOf(calls, start), now, windowMs, s);
  }

  /** A success that was let through leaves no failure counted and the circuit not open. */
  lemma SuccessLeavesNoFailure(e: Option<Entry>, c: Call, s: Settings)
    requires c.succeeds && !Rejects(e, c.started, s.resetTimeout)
    ensures var after := After(e, c, s);
      after.Some? ==> after.value.failureCount == 0 && !after.value.state.Open?
  {
  }
}
