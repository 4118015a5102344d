/** The circuit breaker of one key under calls that overlap: checks and outcomes in any order. */
module OverlappingCalls {
  import opened Wrappers
  import opened CircuitBreaker

  /** In time, and none before `now`. */
  ghost predicate FromNow(events: seq<Event>, now: int)
    decreases |events|
  {
    events != [] ==> now <= events[0].at && FromNow(events[1..], events[0].at)
  }

  /** For every check, whether its call is let through. */
  function Answers(e: Option<Entry>, events: seq<Event>, s: Settings): seq<bool>
    decreases |events|
  {
    if events == [] then []
    else
      (if events[0].Check? then [!Rejects(e, events[0].at, s.resetTimeout)] else [])
      + Answers(Step(e, events[0], s), events[1..], s)
  }

  /** No events, however calls overlap, tell the entries apart. */
  ghost predicate AreInterchangeable(e1: Option<Entry>, e2: Option<Entry>, now: int, s: Settings) {
    forall events | FromNow(events, now) :: Answers(e1, events, s) == Answers(e2, events, s)
  }

  /** No outcome comes before the first check: every call begins here. */
  predicate AllBegin(events: seq<Event>) {
    events != [] ==> events[0].Check?
  }

  /** No calls that all begin from now on tell the entries apart. */
  ghost predicate AreInterchangeableWhenIdle(e1: Option<Entry>, e2: Option<Entry>, now: int, s: Settings) {
    forall events | FromNow(events, now) && AllBegin(events) ::
      Answers(e1, events, s) == Answers(e2, events, s)
  }

  /** Blank, and not open unless a single failure opens the circuit anyway. */
  predicate IsForgotten(e: Option<Entry>, now: int, s: Settings) {
    Blank(e, now, s) && (e.Some? && e.value.state.Open? ==> s.maxFailures == 1)
  }

  /** Open since the same failure, when the count does not matter. */
  predicate AreEquallyOpen(e1: Option<Entry>, e2: Option<Entry>, s: Settings) {
    && s.maxFailures == 1 && e1.Some? && e2.Some? && e1.value.state.Open? && e2.value.state.Open?
    && e1.value.lastFailureTime == e2.value.lastFailureTime
  }

  ghost predicate AreAlike(e1: Option<Entry>, e2: Option<Entry>, now: int, s: Settings) {
    e1 == e2 || (IsForgotten(e1, now, s) && IsForgotten(e2, now, s)) || AreEquallyOpen(e1, e2, s)
  }

  lemma StepKeepsAlike(e1: Option<Entry>, e2: Option<Entry>, now: int, ev: Event, s: Settings)
    requires s.maxFailures >= 1 && AreAlike(e1, e2, now, s) && now <= ev.at
    ensures AreAlike(Step(e1, ev, s), Step(e2, ev, s), ev.at, s)
    ensures ev.Check? ==> Rejects(e1, ev.at, s.resetTimeout) == Rejects(e2, ev.at, s.resetTimeout)
  {
  }

  lemma {:induction false} AlikeAnswers(e1: Option<Entry>, e2: Option<Entry>, now: int, events: seq<Event>, s: Settings)
    requires s.maxFailures >= 1 && AreAlike(e1, e2, now, s) && FromNow(events, now)
    ensures Answers(e1, events, s) == Answers(e2, events, s)
    decreases |events|
  {
    if events != [] {
      StepKeepsAlike(e1, e2, now, events[0], s);
      AlikeAnswers(Step(e1, events[0], s), Step(e2, events[0], s), events[0].at, events[1..], s);
    }
  }

  /** A check makes a blank entry forgotten: an open one becomes half-open. */
  lemma CheckForgets(e: Option<Entry>, now: int, at: int, s: Settings)
    requires Blank(e, now, s) && now <= at
    ensures IsForgotten(Step(e, Check(at), s), at, s) && !Rejects(e, at, s.resetTimeout)
  {
  }

  /** Blank entries give the same answers to all calls that begin from now on, however those overlap. */
  lemma BlankAnswers(e1: Option<Entry>, e2: Option<Entry>, now: int, events: seq<Event>, s: Settings)
    requires s.maxFailures >= 1 && Blank(e1, now, s) && Blank(e2, now, s)
    requires FromNow(events, now) && AllBegin(events)
    ensures Answers(e1, events, s) == Answers(e2, events, s)
  {
    if events != [] {
      CheckForgets(e1, now, events[0].at, s);
      CheckForgets(e2, now, events[0].at, s);
      AlikeAnswers(Step(e1, events[0], s), Step(e2, events[0], s), events[0].at, events[1..], s);
    }
  }

  // ------------------------------------------------------------ telling entries apart

  /** The answer to a check after failures at one instant. */
  lemma {:induction false} AnswerAfterFailures(e: Option<Entry>, n: nat, now: int, s: Settings)
    ensures Answers(e, Failures(n, now) + [Check(now)], s)
      == [!Rejects(AfterFailures(e, n, now, s), now, s.resetTimeout)]
    decreases n
  {
    var events := Failures(n, now) + [Check(now)];
    if n == 0 {
      assert events == [Check(now)] && events[1..] == [];
    } else {
      FailuresFirst(n, now);
      assert events[0] == Failure(now) && events[1..] == Failures(n - 1, now) + [Check(now)];
      AnswerAfterFailures(Step(e, Failure(now), s), n - 1, now, s);
    }
  }

  lemma {:induction false} FailuresFirst(n: nat, now: int)
    requires n > 0
    ensures Failures(n, now) == [Failure(now)] + Failures(n - 1, now)
  {
    if n > 1 {
      FailuresFirst(n - 1, now);
    } else {
      assert Failures(0, now) == [] && Failures(1, now) == [Failure(now)];
    }
  }

  function AfterFailures(e: Option<Entry>, n: nat, now: int, s: Settings): Option<Entry>
    decreases n
  {
    if n == 0 then e else AfterFailures(Step(e, Failure(now), s), n - 1, now, s)
  }

  lemma {:induction false} FailuresFromNow(n: nat, now: int)
    ensures FromNow(Failures(n, now) + [Check(now)], now)
    decreases n
  {
    var events := Failures(n, now) + [Check(now)];
    if n == 0 {
      assert events == [Check(now)] && events[1..] == [];
    } else {
      FailuresFirst(n, now);
      assert events[1..] == Failures(n - 1, now) + [Check(now)];
      FailuresFromNow(n - 1, now);
    }
  }

  /** What a burst at one instant makes of an entry that is closed or missing. */
  lemma {:induction false} BurstOpens(e: Option<Entry>, n: nat, now: int, s: Settings)
    requires s.resetTimeout >= 0 && n > 0
    requires e.None? || (e.value.state.Closed? && now - e.value.lastFailureTime <= s.resetTimeout)
    requires (if e.None? then 0 else e.value.failureCount) < s.maxFailures
    requires (if e.None? then 0 else e.value.failureCount) + n <= s.maxFailures
    ensures Rejects(AfterFailures(e, n, now, s), now, s.resetTimeout)
      <==> (if e.None? then 0 else e.value.failureCount) + n == s.maxFailures
    decreases n
  {
    if n > 1 {
      BurstOpens(Step(e, Failure(now), s), n - 1, now, s);
    }
  }

  /** To arbitrary overlapping calls, some perhaps under way already, an entry looks like no entry if
      and only if it is blank and not open (or one failure opens the circuit in any case). */
  lemma InterchangeableIff(e: Option<Entry>, now: int, s: Settings)
    requires s.maxFailures >= 1 && s.resetTimeout >= 0 && WellFormed(e, now, s)
    ensures AreInterchangeable(e, None, now, s) <==> IsForgotten(e, now, s)
  {
    if IsForgotten(e, now, s) {
      forall events | FromNow(events, now) ensures Answers(e, events, s) == Answers(None, events, s) {
        AlikeAnswers(e, None, now, events, s);
      }
    } else {
      var n := if Blank(e, now, s) then 1 else if e.value.state.Open? then 0 else s.maxFailures - e.value.failureCount;
      var events := Failures(n, now) + [Check(now)];
      FailuresFromNow(n, now);
      AnswerAfterFailures(e, n, now, s);
      AnswerAfterFailures(None, n, now, s);
      TellsApart(e, n, now, s);
      assert FromNow(events, now) && Answers(e, events, s)[0] != Answers(None, events, s)[0];
    }
  }

  lemma TellsApart(e: Option<Entry>, n: nat, now: int, s: Settings)
    requires s.maxFailures >= 1 && s.resetTimeout >= 0 && WellFormed(e, now, s) && !IsForgotten(e, now, s)
    requires n == if Blank(e, now, s) then 1
      else if e.value.state.Open? then 0 else s.maxFailures - e.value.failureCount
    ensures Rejects(AfterFailures(e, n, now, s), now, s.resetTimeout)
    ensures !Rejects(AfterFailures(None, n, now, s), now, s.resetTimeout)
  {
    if n > 0 {
      BurstOpens(None, n, now, s);
      if !Blank(e, now, s) {
        BurstOpens(e, n, now, s);
      } else {
        assert AfterFailures(e, 1, now, s) == AfterFailures(Step(e, Failure(now), s), 0, now, s);
      }
    }
  }

  /** If no call is under way, it looks like no entry if and only if it is blank. */
  lemma InterchangeableWhenIdleIff(e: Option<Entry>, now: int, s: Settings)
    requires s.maxFailures >= 1 && s.resetTimeout >= 0 && WellFormed(e, now, s)
    ensures AreInterchangeableWhenIdle(e, None, now, s) <==> Blank(e, now, s)
  {
    if Blank(e, now, s) {
      forall events | FromNow(events, now) && AllBegin(events)
        ensures Answers(e, events, s) == Answers(None, events, s)
      {
        BlankAnswers(e, None, now, events, s);
      }
    } else {
      var n := if e.value.state.Open? then 0 else s.maxFailures - e.value.failureCount;
      var tail := Failures(n, now) + [Check(now)];
      var events := [Check(now)] + tail;
      assert events[1..] == tail;
      FailuresFromNow(n, now);
      CheckAnswers(e, tail, now, s);
      CheckAnswers(None, tail, now, s);
      AnswerAfterFailures(Step(e, Check(now), s), n, now, s);
      AnswerAfterFailures(Step(None, Check(now), s), n, now, s);
      TellsApart(e, n, now, s);
      assert FromNow(events, now);
      assert Answers(e, events, s)[1] != Answers(None, events, s)[1];
    }
  }

  lemma CheckAnswers(e: Option<Entry>, tail: seq<Event>, now: int, s: Settings)
    ensures Answers(e, [Check(now)] + tail, s)
      == [!Rejects(e, now, s.resetTimeout)] + Answers(Step(e, Check(now), s), tail, s)
  {
    assert ([Check(now)] + tail)[1..] == tail;
  }

  // -------------------------------------------------------------- deletion by window

  /** Whatever calls are under way, deletion by window is invisible if and only if the window is at
      least the reset timeout and a single failure opens the circuit. */
  lemma SweepIsInvisibleToOverlapIff(windowMs: int, s: Settings)
    requires s.maxFailures >= 1 && s.resetTimeout >= 0 && windowMs >= 0
    ensures windowMs >= s.resetTimeout && s.maxFailures == 1 <==>
      (forall e: Option<Entry>, now: int :: WellFormed(e, now, s) ==>
        AreInterchangeable(e, Swept(e, now, windowMs), now, s))
  {
    forall e: Option<Entry>, now: int | WellFormed(e, now, s)
      ensures windowMs >= s.resetTimeout && s.maxFailures == 1 ==>
        AreInterchangeable(e, Swept(e, now, windowMs), now, s)
    {
      InterchangeableIff(e, now, s);
    }
    var e, now := Some(Entry(Open, s.maxFailures, 0)), windowMs + 1;
    InterchangeableIff(e, now, s);
    assert WellFormed(e, now, s) && Swept(e, now, windowMs) == None;
  }

  /** When no call is under way at the deletion, the window alone decides. */
  lemma SweepIsInvisibleWhenIdleIff(windowMs: int, s: Settings)
    requires s.maxFailures >= 1 && s.resetTimeout >= 0 && windowMs >= 0
    ensures windowMs >= s.resetTimeout <==>
      (forall e: Option<Entry>, now: int :: WellFormed(e, now, s) ==>
        AreInterchangeableWhenIdle(e, Swept(e, now, windowMs), now, s))
  {
    forall e: Option<Entry>, now: int | WellFormed(e, now, s)
      ensures windowMs >= s.resetTimeout ==> AreInterchangeableWhenIdle(e, Swept(e, now, windowMs), now, s)
    {
      InterchangeableWhenIdleIff(e, now, s);
    }
    var e, now := Some(Entry(Open, s.maxFailures, 0)), windowMs + 1;
    InterchangeableWhenIdleIff(e, now, s);
    assert WellFormed(e, now, s) && Swept(e, now, windowMs) == None;
  }

  /** A run in which it is noticed: a call is let through, others open the circuit, the entry is
      deleted after the window, and only then does the first call fail. */
  lemma SweepCanBeNoticed(windowMs: int, s: Settings)
    requires s.maxFailures >= 2 && windowMs >= s.resetTimeout >= 0
    ensures var e := Run([Check(0)] + Failures(s.maxFailures, 0), s);
      var now, rest := windowMs + 1, [Failure(windowMs + 1), Check(windowMs + 1)];
      && FromNow(rest, now) && Swept(e, now, windowMs) == None
      && Answers(e, rest, s) == [false] && Answers(Swept(e, now, windowMs), rest, s) == [true]
  {
    OpenAfter(s.maxFailures, s);
    var e, now := Run([Check(0)] + Failures(s.maxFailures, 0), s), windowMs + 1;
    var rest := [Failure(now), Check(now)];
    assert rest[1..] == [Check(now)] && [Check(now)][1..] == [];
    assert Answers(Step(e, rest[0], s), [Check(now)], s) == [!Rejects(Step(e, rest[0], s), now, s.resetTimeout)];
    assert Answers(Step(None, rest[0], s), [Check(now)], s) == [!Rejects(Step(None, rest[0], s), now, s.resetTimeout)];
  }

  lemma {:induction false} OpenAfter(n: nat, s: Settings)
    requires s.resetTimeout >= 0 && n <= s.maxFailures
    ensures Run([Check(0)] + Failures(n, 0), s) ==
      if n == 0 then None else Some(Entry(if n == s.maxFailures then Open else Closed, n, 0))
  {
    var events := [Check(0)] + Failures(n, 0);
    if n == 0 {
      assert events == [Check(0)] && events[..0] == [];
    } else {
      OpenAfter(n - 1, s);
      assert events[..|events| - 1] == [Check(0)] + Failures(n - 1, 0);
    }
  }

  // ------------------------------------------------------------- many deletions in a run

  datatype Act = Occurs(event: Event) | Deletes(at: int)

  function AnswersWithDeletions(e: Option<Entry>, acts: seq<Act>, windowMs: int, s: Settings): seq<bool>
    decreases |acts|
  {
    if acts == [] then []
    else match acts[0]
      case Occurs(ev) =>
        (if ev.Check? then [!Rejects(e, ev.at, s.resetTimeout)] else [])
        + AnswersWithDeletions(Step(e, ev, s), acts[1..], windowMs, s)
      case Deletes(at) => AnswersWithDeletions(Swept(e, at, windowMs), acts[1..], windowMs, s)
  }

  function EventsOf(acts: seq<Act>): seq<Event> {
    if acts == [] then [] else (if acts[0].Occurs? then [acts[0].event] else []) + EventsOf(acts[1..])
  }

  ghost predicate ActsFromNow(acts: seq<Act>, now: int)
    decreases |acts|
  {
    acts != [] ==>
      var at := if acts[0].Occurs? then acts[0].event.at else acts[0].at;
      now <= at && ActsFromNow(acts[1..], at)
  }

  /** The next event, if any, is the beginning of a call. */
  predicate NextIsCheck(acts: seq<Act>) {
    acts != [] ==> if acts[0].Deletes? then NextIsCheck(acts[1..]) else acts[0].event.Check?
  }

  /** Deletions happen only while no call is under way. */
  predicate DeletesWhenIdle(acts: seq<Act>) {
    acts != [] ==> (acts[0].Deletes? ==> NextIsCheck(acts[1..])) && DeletesWhenIdle(acts[1..])
  }

  /** However many deletions there are, and however calls overlap between them, the same calls are
      let through, provided that no call is under way at a deletion. */
  lemma {:induction false} IdleDeletionsChangeNothing(
      e1: Option<Entry>, e2: Option<Entry>, now: int, acts: seq<Act>, windowMs: int, s: Settings)
    requires s.maxFailures >= 1 && windowMs >= s.resetTimeout && ActsFromNow(acts, now) && DeletesWhenIdle(acts)
    requires AreAlike(e1, e2, now, s) || (Blank(e1, now, s) && Blank(e2, now, s) && NextIsCheck(acts))
    ensures AnswersWithDeletions(e1, acts, windowMs, s) == Answers(e2, EventsOf(acts), s)
    decreases |acts|
  {
    if acts != [] {
      match acts[0]
      case Occurs(ev) =>
        if AreAlike(e1, e2, now, s) {
          StepKeepsAlike(e1, e2, now, ev, s);
        } else {
          CheckForgets(e1, now, ev.at, s);
          CheckForgets(e2, now, ev.at, s);
        }
        IdleDeletionsChangeNothing(Step(e1, ev, s), Step(e2, ev, s), ev.at, acts[1..], windowMs, s);
        assert EventsOf(acts)[0] == ev && EventsOf(acts)[1..] == EventsOf(acts[1..]);
      case Deletes(at) =>
        IdleDeletionsChangeNothing(Swept(e1, at, windowMs), e2, at, acts[1..], windowMs, s);
        assert EventsOf(acts) == EventsOf(acts[1..]);
    }
  }
}
