/** What the span buffer guarantees in every reachable state and over every run. */
module SpanGuarantees {
  import opened Sequences
  import opened SpanBuffer

  // ------------------------------------------------------------ the invariant

  /** At most one export is under way, and `isExporting` says whether one is. */
  ghost predicate OneExport(s: State) {
    && |s.exports| <= 1 && (s.isExporting <==> |s.exports| == 1)
    && (|s.exports| == 1 && s.exports[0].Sending? ==> s.exports[0].batch != [])
  }

  /** The buffer exceeds its bound only by a batch that came back. */
  ghost predicate Bounded(s: State) {
    && |InFlight(s.exports)| <= BATCH_SIZE
    && |s.buffer| + |InFlight(s.exports)| <= MAX_BUFFER_SIZE + BATCH_SIZE
    && (InFlight(s.exports) != [] ==> |s.buffer| <= MAX_BUFFER_SIZE)
  }

  ghost predicate RetriesCounted(s: State) {
    && WithinRetries(s.buffer) && WithinRetries(InFlight(s.exports))
    && WithinRetries(s.exported) && WithinRetries(s.overflowed)
    && forall e | e in s.abandoned :: e.retryCount == MAX_RETRIES
  }

  /** The weight of everything that ended: `b` for entries that wait or were dropped waiting,
      `f` for entries that were handed over and are still out, accepted or given up. */
  ghost function Weight(s: State, b: Entry -> int, f: Entry -> int): int {
    Sum(b, s.buffer) + Sum(f, InFlight(s.exports)) + Sum(f, s.exported) + Sum(b, s.overflowed) + Sum(f, s.abandoned)
  }

  ghost predicate Conserved(s: State) {
    forall x :: multiset(s.ended)[x] == Weight(s, Occurrences(x), Occurrences(x))
  }

  ghost predicate AttemptsCounted(s: State) {
    forall x :: multiset(s.handed)[x] == Weight(s, Failures(x), Attempts(x))
  }

  ghost predicate Inv(s: State) {
    OneExport(s) && Bounded(s) && RetriesCounted(s) && Conserved(s) && AttemptsCounted(s)
  }

  // ---------------------------------------------------- how a step moves weight

  lemma AddMovesWeight(s: State, span: Span, now: int, b: Entry -> int, f: Entry -> int)
    ensures Weight(AddToBuffer(s, span, now), b, f) == Weight(s, b, f) + b(Entry(span, now, 0))
  {
    var e := Entry(span, now, 0);
    var grown := s.buffer + [e];
    SumConcat(b, s.buffer, [e]);
    SumSingle(b, e);
    if |grown| > MAX_BUFFER_SIZE {
      assert grown == [grown[0]] + grown[1..];
      SumConcat(b, [grown[0]], grown[1..]);
      SumConcat(b, s.overflowed, [grown[0]]);
    }
  }

  ghost function Batch(s: State): seq<Entry> {
    if s.isExporting then [] else s.buffer[..BatchLength(s)]
  }

  lemma StartMovesBatch(s: State)
    requires OneExport(s)
    ensures |Batch(s)| <= BATCH_SIZE && OneExport(StartExport(s))
    ensures s.buffer == Batch(s) + StartExport(s).buffer
    ensures StartExport(s).handed == s.handed + Spans(Batch(s))
    ensures InFlight(StartExport(s).exports) == if s.isExporting then InFlight(s.exports) else Batch(s)
  {
    if s.isExporting || s.buffer == [] {
      NothingStarts(s);
    } else {
      SomethingStarts(s);
      InFlightSingle(Sending(Batch(s)));
    }
  }

  lemma NothingStarts(s: State)
    requires s.isExporting || s.buffer == []
    ensures StartExport(s) == s && Batch(s) == [] && Spans(Batch(s)) == []
    ensures s.buffer == Batch(s) + s.buffer && s.handed == s.handed + Spans(Batch(s))
  {
  }

  lemma SomethingStarts(s: State)
    requires OneExport(s) && !s.isExporting && s.buffer != []
    ensures |Batch(s)| <= BATCH_SIZE && Batch(s) != []
    ensures s.buffer == Batch(s) + StartExport(s).buffer
    ensures StartExport(s).handed == s.handed + Spans(Batch(s))
    ensures StartExport(s).exports == [Sending(Batch(s))] && StartExport(s).isExporting
  {
    var n := BatchLength(s);
    assert s.buffer == s.buffer[..n] + s.buffer[n..];
    assert s.exports == [];
  }

  lemma StartMovesWeight(s: State, b: Entry -> int, f: Entry -> int)
    requires OneExport(s)
    ensures Weight(StartExport(s), b, f) == Weight(s, b, f) - Sum(b, Batch(s)) + Sum(f, Batch(s))
  {
    StartMovesBatch(s);
    SumConcat(b, Batch(s), StartExport(s).buffer);
  }

  lemma ReplyMovesWeight(s: State, call: nat, ok: bool, b: Entry -> int, f: Entry -> int)
    requires OneExport(s) && WithinRetries(InFlight(s.exports))
    requires forall e: Entry | e.retryCount < MAX_RETRIES :: b(e.(retryCount := e.retryCount + 1)) == f(e)
    ensures Weight(Reply(s, call, ok), b, f) == Weight(s, b, f)
  {
    if call < |s.exports| && s.exports[call].Sending? {
      OnlyCall(s);
      if ok {
        SumConcat(f, s.exported, s.exports[call].batch);
      } else {
        FailureMovesWeight(s.exports[call].batch, s.buffer, s.abandoned, b, f);
      }
    }
  }

  lemma FailureMovesWeight(batch: seq<Entry>, buffer: seq<Entry>, abandoned: seq<Entry>,
                           b: Entry -> int, f: Entry -> int)
    requires WithinRetries(batch)
    requires forall e: Entry | e.retryCount < MAX_RETRIES :: b(e.(retryCount := e.retryCount + 1)) == f(e)
    ensures Sum(b, Reversed(Retried(batch)) + buffer) + Sum(f, abandoned + GivenUp(batch))
      == Sum(b, buffer) + Sum(f, batch) + Sum(f, abandoned)
  {
    SumConcat(b, Reversed(Retried(batch)), buffer);
    SumReversed(b, Retried(batch));
    FailedBatch(f, b, f, batch);
    SumConcat(f, abandoned, GivenUp(batch));
  }

  /** What is in flight when there is a call, and that nothing is once it got its reply. */
  lemma OnlyCall(s: State)
    requires |s.exports| == 1
    ensures s.exports[0].Sending? ==> InFlight(s.exports) == s.exports[0].batch
    ensures s.exports[0].Settling? ==> InFlight(s.exports) == []
    ensures InFlight(s.exports[0 := Settling]) == []
  {
    assert s.exports == [s.exports[0]] && s.exports[0 := Settling] == [Settling];
    InFlightSingle(s.exports[0]);
    InFlightSingle(Settling);
  }

  lemma SettleKeepsAll(s: State, call: nat)
    requires OneExport(s)
    ensures InFlight(Settle(s, call).exports) == InFlight(s.exports) && OneExport(Settle(s, call))
  {
    if call < |s.exports| && s.exports[call].Settling? {
      OnlyCall(s);
    }
  }

  // --------------------------------------------------------- the invariant holds

  lemma AddKeepsInv(s: State, span: Span, now: int)
    requires Inv(s)
    ensures Inv(AddToBuffer(s, span, now))
  {
    var s' := AddToBuffer(s, span, now);
    AddKeepsShape(s, span, now);
    forall x ensures multiset(s'.ended)[x] == Weight(s', Occurrences(x), Occurrences(x)) {
      AddMovesWeight(s, span, now, Occurrences(x), Occurrences(x));
    }
    forall x ensures multiset(s'.handed)[x] == Weight(s', Failures(x), Attempts(x)) {
      AddMovesWeight(s, span, now, Failures(x), Attempts(x));
    }
  }

  lemma AddKeepsShape(s: State, span: Span, now: int)
    requires OneExport(s) && Bounded(s) && RetriesCounted(s)
    ensures var s' := AddToBuffer(s, span, now); OneExport(s') && Bounded(s') && RetriesCounted(s')
  {
    assert WithinRetries(s.buffer + [Entry(span, now, 0)]);
  }

  lemma {:induction false} StartKeepsShape(s: State)
    requires OneExport(s) && Bounded(s) && RetriesCounted(s)
    ensures var s' := StartExport(s); OneExport(s') && Bounded(s') && RetriesCounted(s')
  {
    StartMovesBatch(s);
    WithinRetriesSplit(Batch(s), StartExport(s).buffer);
  }

  lemma WithinRetriesSplit(a: seq<Entry>, b: seq<Entry>)
    requires WithinRetries(a + b)
    ensures WithinRetries(a) && WithinRetries(b)
  {
    assert forall e | e in a || e in b :: e in a + b;
  }

  lemma StartKeepsInv(s: State)
    requires Inv(s)
    ensures Inv(StartExport(s))
  {
    var s' := StartExport(s);
    StartKeepsShape(s);
    StartMovesBatch(s);
    forall x ensures multiset(s'.ended)[x] == Weight(s', Occurrences(x), Occurrences(x)) {
      StartMovesWeight(s, Occurrences(x), Occurrences(x));
    }
    forall x ensures multiset(s'.handed)[x] == Weight(s', Failures(x), Attempts(x)) {
      StartCountsAttempt(s, x);
    }
  }

  lemma StartCountsAttempt(s: State, x: Span)
    requires OneExport(s) && multiset(s.handed)[x] == Weight(s, Failures(x), Attempts(x))
    ensures var s' := StartExport(s); multiset(s'.handed)[x] == Weight(s', Failures(x), Attempts(x))
  {
    StartMovesBatch(s);
    StartMovesWeight(s, Failures(x), Attempts(x));
    SumAdds(Failures(x), Occurrences(x), Attempts(x), Batch(s));
    OccurrencesAreCounted(Batch(s), x);
  }

  lemma ReplyKeepsInv(s: State, call: nat, ok: bool)
    requires Inv(s)
    ensures Inv(Reply(s, call, ok))
  {
    var s' := Reply(s, call, ok);
    ReplyKeepsShape(s, call, ok);
    forall x ensures multiset(s'.ended)[x] == Weight(s', Occurrences(x), Occurrences(x)) {
      ReplyMovesWeight(s, call, ok, Occurrences(x), Occurrences(x));
    }
    forall x ensures multiset(s'.handed)[x] == Weight(s', Failures(x), Attempts(x)) {
      ReplyMovesWeight(s, call, ok, Failures(x), Attempts(x));
    }
  }

  lemma ReplyKeepsShape(s: State, call: nat, ok: bool)
    requires OneExport(s) && Bounded(s) && RetriesCounted(s)
    ensures var s' := Reply(s, call, ok); OneExport(s') && Bounded(s') && RetriesCounted(s')
  {
    if call < |s.exports| && s.exports[call].Sending? {
      OnlyCall(s);
      RetriedWithinRetries(s.exports[call].batch);
    }
  }

  lemma RetriedWithinRetries(batch: seq<Entry>)
    requires WithinRetries(batch)
    ensures WithinRetries(Reversed(Retried(batch))) && |Reversed(Retried(batch))| <= |batch|
    ensures forall e | e in GivenUp(batch) :: e.retryCount == MAX_RETRIES
  {
    FailedBatchRetries(batch);
    ReversedElements(Retried(batch));
    forall e | e in Reversed(Retried(batch)) ensures e.retryCount <= MAX_RETRIES {
      assert e in Elements(Reversed(Retried(batch)));
    }
  }

  lemma SettleKeepsInv(s: State, call: nat)
    requires Inv(s)
    ensures Inv(Settle(s, call))
  {
    SettleKeepsAll(s, call);
    var s' := Settle(s, call);
    assert forall b, f :: Weight(s', b, f) == Weight(s, b, f);
  }

  lemma StepKeepsInv(s: State, e: Event)
    requires Inv(s)
    ensures Inv(Step(s, e))
  {
    match e
    case SpanEnded(span, now) =>
      AddKeepsInv(s, span, now);
      StartKeepsInv(AddToBuffer(s, span, now));
    case ExportRequested => StartKeepsInv(s);
    case ExporterReplied(call, ok) => ReplyKeepsInv(s, call, ok);
    case Persisted(call) => SettleKeepsInv(s, call);
  }

  lemma {:induction false} ReachableInv(events: seq<Event>)
    ensures Inv(Run(INITIAL, events))
  {
    if events != [] {
      ReachableInv(events[..|events| - 1]);
      StepKeepsInv(Run(INITIAL, events[..|events| - 1]), events[|events| - 1]);
    }
  }

  // ------------------------------------------------------------------- theorems

  ghost predicate Reachable(s: State) {
    exists events :: s == Run(INITIAL, events)
  }

  ghost predicate EachInOnePlace(s: State) {
    multiset(s.ended) == multiset(Spans(s.buffer)) + multiset(Spans(InFlight(s.exports)))
      + multiset(Spans(s.exported)) + multiset(Spans(s.overflowed)) + multiset(Spans(s.abandoned))
  }

  /** Every ended span is in exactly one place: buffered, in flight, exported, dropped for
      overflow or dropped after its retries. */
  lemma NoSpanIsLostOrDuplicated(s: State)
    requires Reachable(s)
    ensures EachInOnePlace(s)
  {
    var events :| s == Run(INITIAL, events);
    ReachableInv(events);
    ConservedMeansPlaces(s);
  }

  lemma ConservedMeansPlaces(s: State)
    requires Conserved(s)
    ensures EachInOnePlace(s)
  {
    var a, b, c := multiset(Spans(s.buffer)), multiset(Spans(InFlight(s.exports))), multiset(Spans(s.exported));
    var d, e := multiset(Spans(s.overflowed)), multiset(Spans(s.abandoned));
    forall x ensures multiset(s.ended)[x] == (a + b + c + d + e)[x] {
      assert (a + b + c + d + e)[x] == a[x] + b[x] + c[x] + d[x] + e[x];
      OccurrencesAreCounted(s.buffer, x);
      OccurrencesAreCounted(InFlight(s.exports), x);
      OccurrencesAreCounted(s.exported, x);
      OccurrencesAreCounted(s.overflowed, x);
      OccurrencesAreCounted(s.abandoned, x);
    }
  }

  /** However ends and completions interleave, memory is bounded and one batch at most is in flight. */
  lemma {:induction false} MemoryIsBounded(events: seq<Event>)
    ensures var s := Run(INITIAL, events);
      && |s.exports| <= 1 && (s.isExporting <==> |s.exports| == 1)
      && |InFlight(s.exports)| <= 100
      && |s.buffer| + |InFlight(s.exports)| <= 1100
  {
    ReachableInv(events);
  }

  /** A span is handed over at most four times for each time it ended. */
  lemma AttemptsAreLimited(s: State, x: Span)
    requires Reachable(s)
    ensures multiset(s.handed)[x] <= 4 * multiset(s.ended)[x]
  {
    var events :| s == Run(INITIAL, events);
    ReachableInv(events);
    AtMostTimesOccurrences(s.buffer, x);
    AtMostTimesOccurrences(InFlight(s.exports), x);
    AtMostTimesOccurrences(s.exported, x);
    AtMostTimesOccurrences(s.overflowed, x);
    AtMostTimesOccurrences(s.abandoned, x);
  }

  /** Every time a span was abandoned took exactly four of the times it was handed over;
      the other times belong to entries that are buffered, in flight, exported or overflowed. */
  lemma {:induction false} AbandonedTookAllAttempts(s: State, x: Span)
    requires Reachable(s)
    ensures multiset(s.handed)[x] == 4 * multiset(Spans(s.abandoned))[x]
      + Sum(Failures(x), s.buffer) + Sum(Attempts(x), InFlight(s.exports))
      + Sum(Attempts(x), s.exported) + Sum(Failures(x), s.overflowed)
    ensures 4 * multiset(Spans(s.abandoned))[x] <= multiset(s.handed)[x]
  {
    var events :| s == Run(INITIAL, events);
    ReachableInv(events);
    AbandonedAttempts(s.abandoned, x);
    OccurrencesAreCounted(s.abandoned, x);
    AtMostTimesOccurrences(s.buffer, x);
    AtMostTimesOccurrences(InFlight(s.exports), x);
    AtMostTimesOccurrences(s.exported, x);
    AtMostTimesOccurrences(s.overflowed, x);
  }

  /** A span that ended once and was abandoned was handed over exactly that often. */
  lemma AbandonedOnce(s: State, x: Span)
    requires Reachable(s) && multiset(s.ended)[x] == 1 && x in Spans(s.abandoned)
    ensures multiset(s.handed)[x] == 4
    ensures x !in Spans(s.exported) && x !in Spans(s.buffer) && x !in Spans(InFlight(s.exports))
  {
    AttemptsAreLimited(s, x);
    AbandonedTookAllAttempts(s, x);
    NoSpanIsLostOrDuplicated(s);
    assert multiset(Spans(s.abandoned))[x] >= 1;
  }

  lemma {:induction false} AtMostTimesOccurrences(es: seq<Entry>, x: Span)
    requires WithinRetries(es)
    ensures 0 <= Sum(Failures(x), es) <= MAX_RETRIES * Sum(Occurrences(x), es)
    ensures 0 <= Sum(Attempts(x), es) <= (MAX_RETRIES + 1) * Sum(Occurrences(x), es)
  {
    if es != [] {
      AtMostTimesOccurrences(es[..|es| - 1], x);
    }
  }

  lemma {:induction false} AbandonedAttempts(es: seq<Entry>, x: Span)
    requires forall e | e in es :: e.retryCount == MAX_RETRIES
    ensures Sum(Attempts(x), es) == (MAX_RETRIES + 1) * Sum(Occurrences(x), es)
  {
    if es != [] {
      AbandonedAttempts(es[..|es| - 1], x);
    }
  }

  // ---------------------------------------------------------------------- draining

  /** The attempts left to everything that is buffered or in flight. */
  ghost function AttemptsLeft(s: State): int {
    Sum(Left(), s.buffer) + Sum(Left(), InFlight(s.exports))
  }

  /** Does the event complete an export? */
  ghost predicate Completes(s: State, e: Event) {
    e.ExporterReplied? && e.call < |s.exports| && s.exports[e.call].Sending?
  }

  lemma {:induction false} LeftIsPositive(es: seq<Entry>)
    requires WithinRetries(es)
    ensures |es| <= Sum(Left(), es)
  {
    if es != [] {
      LeftIsPositive(es[..|es| - 1]);
    }
  }

  /** Without new spans no step adds attempts, and completing an export uses up one for every span in it. */
  lemma AttemptsLeftFall(s: State, e: Event)
    requires Inv(s) && !e.SpanEnded?
    ensures AttemptsLeft(Step(s, e)) <= AttemptsLeft(s) - if Completes(s, e) then |InFlight(s.exports)| else 0
    ensures Completes(s, e) ==> AttemptsLeft(Step(s, e)) < AttemptsLeft(s)
  {
    match e
    case ExportRequested =>
      StartKeepsAttempts(s);
    case ExporterReplied(call, ok) =>
      ReplyUsesAttempts(s, call, ok);
    case Persisted(call) =>
      SettleKeepsAll(s, call);
  }

  lemma StartKeepsAttempts(s: State)
    requires OneExport(s)
    ensures AttemptsLeft(StartExport(s)) == AttemptsLeft(s)
  {
    StartMovesBatch(s);
    StartMovesWeight(s, Left(), Left());
  }

  lemma ReplyUsesAttempts(s: State, call: nat, ok: bool)
    requires OneExport(s) && WithinRetries(InFlight(s.exports))
    ensures var uses := Completes(s, ExporterReplied(call, ok));
      && AttemptsLeft(Reply(s, call, ok)) <= AttemptsLeft(s) - (if uses then |InFlight(s.exports)| else 0)
      && (uses ==> InFlight(s.exports) != [])
  {
    if Completes(s, ExporterReplied(call, ok)) {
      OnlyCall(s);
      FailureUsesAttempts(s.exports[call].batch, s.buffer);
    }
  }

  lemma FailureUsesAttempts(batch: seq<Entry>, buffer: seq<Entry>)
    requires WithinRetries(batch)
    ensures |batch| <= Sum(Left(), batch)
    ensures Sum(Left(), Reversed(Retried(batch)) + buffer) == Sum(Left(), buffer) + Sum(Left(), batch) - |batch|
  {
    LeftIsPositive(batch);
    SumConcat(Left(), Reversed(Retried(batch)), buffer);
    SumReversed(Left(), Retried(batch));
    var before := (e: Entry) => MAX_RETRIES - e.retryCount;
    FailedBatch(before, Left(), (e: Entry) => 0, batch);
    SumZero(GivenUp(batch));
    SumAdds(before, (e: Entry) => 1, Left(), batch);
    SumOne(batch);
  }

  lemma {:induction false} SumZero(es: seq<Entry>)
    ensures Sum((e: Entry) => 0, es) == 0
  {
    if es != [] {
      SumZero(es[..|es| - 1]);
    }
  }

  lemma {:induction false} SumOne(es: seq<Entry>)
    ensures Sum((e: Entry) => 1, es) == |es|
  {
    if es != [] {
      SumOne(es[..|es| - 1]);
    }
  }

  /** The exports that a run completes. */
  ghost function Completions(s: State, events: seq<Event>): nat {
    if events == [] then 0
    else
      var init, last := events[..|events| - 1], events[|events| - 1];
      Completions(s, init) + if Completes(Run(s, init), last) then 1 else 0
  }

  /** Whatever the exporter answers, without new spans only so many exports can complete. */
  lemma {:induction false} CompletionsAreLimited(s: State, events: seq<Event>)
    requires Inv(s) && NothingEnds(events)
    ensures Inv(Run(s, events))
    ensures Completions(s, events) + AttemptsLeft(Run(s, events)) <= AttemptsLeft(s)
  {
    if events != [] {
      var init, last := events[..|events| - 1], events[|events| - 1];
      CompletionsAreLimited(s, init);
      assert last in events;
      StepKeepsInv(Run(s, init), last);
      AttemptsLeftFall(Run(s, init), last);
    }
  }

  ghost predicate NothingEnds(events: seq<Event>) {
    forall e | e in events :: !e.SpanEnded?
  }

  /** However requests, replies and persistence interleave, a run without new spans that completes
      as many exports as there are attempts left empties the buffer, whatever the outcomes. */
  lemma {:induction false} BufferDrains(s: State, events: seq<Event>)
    requires Inv(s) && NothingEnds(events)
    requires Completions(s, events) >= AttemptsLeft(s)
    ensures Run(s, events).buffer == [] && InFlight(Run(s, events).exports) == []
  {
    CompletionsAreLimited(s, events);
    LeftIsPositive(Run(s, events).buffer);
    LeftIsPositive(InFlight(Run(s, events).exports));
  }

  /** As long as anything waits, an export can complete: the end of the call that is under way, if
      it has its reply, and one request lead to a batch for which a reply is awaited. */
  lemma ExportsCanComplete(s: State, ok: bool)
    requires OneExport(s) && (s.buffer != [] || InFlight(s.exports) != [])
    ensures Completes(Step(Step(s, Persisted(0)), ExportRequested), ExporterReplied(0, ok))
  {
    if |s.exports| == 1 {
      OnlyCall(s);
    }
  }

  // ------------------------------------------------------------------------- order

  /** `a` results from `b` by leaving elements out. */
  ghost predicate IsSubsequence<T>(a: seq<T>, b: seq<T>) {
    exists at: seq<nat> :: Embeds(a, b, at)
  }

  ghost predicate Embeds<T>(a: seq<T>, b: seq<T>, at: seq<nat>) {
    && |at| == |a|
    && (forall i | 0 <= i < |a| :: at[i] < |b| && b[at[i]] == a[i])
    && (forall i, j | 0 <= i < j < |a| :: at[i] < at[j])
  }

  lemma SubsequenceAppend<T>(a: seq<T>, b: seq<T>, x: T)
    requires IsSubsequence(a, b)
    ensures IsSubsequence(a + [x], b + [x])
  {
    var at: seq<nat> :| Embeds(a, b, at);
    assert Embeds(a + [x], b + [x], at + [|b|]);
  }

  lemma SubsequenceWithout<T>(a: seq<T>, b: seq<T>, k: nat)
    requires IsSubsequence(a, b) && k < |a|
    ensures IsSubsequence(a[..k] + a[k + 1..], b)
  {
    var at: seq<nat> :| Embeds(a, b, at);
    assert Embeds(a[..k] + a[k + 1..], b, at[..k] + at[k + 1..]);
  }

  /** Exported, then in flight, then buffered. */
  ghost function Kept(s: State): seq<Entry> {
    s.exported + InFlight(s.exports) + s.buffer
  }

  ghost predicate InOrder(s: State) {
    IsSubsequence(Spans(Kept(s)), s.ended)
  }

  lemma AddKeepsOrder(s: State, span: Span, now: int)
    requires InOrder(s)
    ensures InOrder(AddToBuffer(s, span, now))
  {
    var sent, grown := s.exported + InFlight(s.exports), s.buffer + [Entry(span, now, 0)];
    SubsequenceAppend(Spans(Kept(s)), s.ended, span);
    assert Kept(s) + [Entry(span, now, 0)] == sent + grown;
    SpansConcat(Kept(s), [Entry(span, now, 0)]);
    if |grown| > MAX_BUFFER_SIZE {
      DropKeepsSubsequence(sent, grown, s.ended + [span]);
    }
  }

  lemma DropKeepsSubsequence(sent: seq<Entry>, grown: seq<Entry>, ended: seq<Span>)
    requires grown != [] && IsSubsequence(Spans(sent + grown), ended)
    ensures IsSubsequence(Spans(sent + grown[1..]), ended)
  {
    assert grown == [grown[0]] + grown[1..];
    SpansConcat(sent, grown);
    SpansConcat([grown[0]], grown[1..]);
    SpansConcat(sent, grown[1..]);
    var all := Spans(sent + grown);
    SubsequenceWithout(all, ended, |sent|);
    assert all[..|sent|] == Spans(sent) && all[|sent| + 1..] == Spans(grown[1..]);
  }

  lemma StepKeepsOrder(s: State, e: Event)
    requires OneExport(s) && InOrder(s) && (e.ExporterReplied? ==> e.ok)
    ensures InOrder(Step(s, e))
  {
    match e
    case SpanEnded(span, now) =>
      AddKeepsOrder(s, span, now);
      StartKeepsKept(AddToBuffer(s, span, now));
      SameOrder(AddToBuffer(s, span, now), Step(s, e));
    case ExportRequested =>
      StartKeepsKept(s);
      SameOrder(s, Step(s, e));
    case ExporterReplied(call, ok) =>
      ReplyKeepsKept(s, call);
      SameOrder(s, Step(s, e));
    case Persisted(call) =>
      SettleKeepsAll(s, call);
      SameOrder(s, Step(s, e));
  }

  lemma SameOrder(s: State, s': State)
    requires InOrder(s) && Kept(s') == Kept(s) && s'.ended == s.ended
    ensures InOrder(s')
  {
  }

  lemma ReplyKeepsKept(s: State, call: nat)
    requires OneExport(s)
    ensures Kept(Reply(s, call, true)) == Kept(s) && Reply(s, call, true).ended == s.ended
  {
    if call < |s.exports| && s.exports[call].Sending? {
      OnlyCall(s);
    }
  }

  lemma StartKeepsKept(s: State)
    requires OneExport(s)
    ensures Kept(StartExport(s)) == Kept(s) && StartExport(s).ended == s.ended
  {
    StartMovesBatch(s);
    if !s.isExporting {
      assert InFlight(s.exports) == [];
      assert s.exported + Batch(s) + StartExport(s).buffer == s.exported + (Batch(s) + StartExport(s).buffer);
    } else {
      assert Batch(s) + StartExport(s).buffer == StartExport(s).buffer;
    }
  }

  /** As long as no export fails, spans are exported, in flight and buffered in the order they ended. */
  lemma {:induction false} OrderIsKeptWithoutFailures(events: seq<Event>)
    requires forall e | e in events :: e.ExporterReplied? ==> e.ok
    ensures InOrder(Run(INITIAL, events))
  {
    if events == [] {
      assert Embeds<Span>([], [], []);
    } else {
      var init, last := events[..|events| - 1], events[|events| - 1];
      assert last in events;
      OrderIsKeptWithoutFailures(init);
      ReachableInv(init);
      StepKeepsOrder(Run(INITIAL, init), last);
    }
  }
}
