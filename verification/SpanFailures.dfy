/** What a failed export does to the buffer: order, and how far the limit is exceeded. */
module SpanFailures {
  import opened Sequences
  import opened SpanBuffer
  import opened SpanGuarantees

  /** The entries of a batch that have retries left, in their order. */
  function Retryable(batch: seq<Entry>): seq<Entry> {
    if batch == [] then []
    else if batch[0].retryCount < MAX_RETRIES then [batch[0]] + Retryable(batch[1..])
    else Retryable(batch[1..])
  }

  function WithRetry(e: Entry): Entry {
    e.(retryCount := e.retryCount + 1)
  }

  lemma {:induction false} RetryableSnoc(batch: seq<Entry>, e: Entry)
    ensures Retryable(batch + [e]) == Retryable(batch) + if e.retryCount < MAX_RETRIES then [e] else []
  {
    if batch == [] {
      assert [e][1..] == [] && batch + [e] == [e];
    } else {
      RetryableSnoc(batch[1..], e);
      assert (batch + [e])[1..] == batch[1..] + [e];
    }
  }

  lemma {:induction false} RetriedIsRetryable(batch: seq<Entry>)
    ensures |Retried(batch)| == |Retryable(batch)|
    ensures forall i | 0 <= i < |Retried(batch)| :: Retried(batch)[i] == WithRetry(Retryable(batch)[i])
  {
    if batch != [] {
      var init, last := batch[..|batch| - 1], batch[|batch| - 1];
      RetriedIsRetryable(init);
      RetryableSnoc(init, last);
      assert batch == init + [last];
    }
  }

  /** Entry `i` of the returned ones, with one retry more, stands as far from the end of the returned
      part as it stood from the start. */
  ghost predicate StandsReversed(back: seq<Entry>, buffer: seq<Entry>, i: nat)
    requires i < |back| <= |buffer|
  {
    buffer[|back| - 1 - i] == WithRetry(back[i])
  }

  /** The returned entries stand reversed, and what was buffered since follows unchanged. */
  ghost predicate IsReturned(back: seq<Entry>, waiting: seq<Entry>, buffer: seq<Entry>) {
    && |buffer| == |back| + |waiting| && buffer[|back|..] == waiting
    && forall i {:trigger StandsReversed(back, buffer, i)} | 0 <= i < |back| :: StandsReversed(back, buffer, i)
  }

  /** So it is after any failure in any run. */
  lemma FailureReversesBatch(s: State, call: nat)
    requires Reachable(s) && Completes(s, ExporterReplied(call, false))
    ensures IsReturned(Retryable(InFlight(s.exports)), s.buffer, Step(s, ExporterReplied(call, false)).buffer)
  {
    var events :| s == Run(INITIAL, events);
    ReachableInv(events);
    FailureRequeues(s, call);
    ReversedIsReturned(InFlight(s.exports), s.buffer);
  }

  lemma ReversedIsReturned(batch: seq<Entry>, waiting: seq<Entry>)
    ensures IsReturned(Retryable(batch), waiting, Reversed(Retried(batch)) + waiting)
  {
    var back, retried := Retryable(batch), Retried(batch);
    RetriedIsRetryable(batch);
    var buffer := Reversed(retried) + waiting;
    forall i | 0 <= i < |back| ensures StandsReversed(back, buffer, i) {
      assert buffer[|back| - 1 - i] == Reversed(retried)[|retried| - 1 - i] == retried[i];
    }
  }

  lemma FailureRequeues(s: State, call: nat)
    requires OneExport(s) && Completes(s, ExporterReplied(call, false))
    ensures Reply(s, call, false).buffer == Reversed(Retried(InFlight(s.exports))) + s.buffer
  {
    OnlyCall(s);
  }

  // ------------------------------------------------------------------------- order

  lemma SubsequenceOfItself<T>(a: seq<T>)
    ensures IsSubsequence(a, a)
  {
    var at: seq<nat> := seq(|a|, i => i);
    assert Embeds(a, a, at);
  }

  lemma SubsequenceConcat<T>(a: seq<T>, b: seq<T>, c: seq<T>, d: seq<T>)
    requires IsSubsequence(a, b) && IsSubsequence(c, d)
    ensures IsSubsequence(a + c, b + d)
  {
    var at: seq<nat> :| Embeds(a, b, at);
    var ct: seq<nat> :| Embeds(c, d, ct);
    var both: seq<nat> := at + seq(|ct|, i requires 0 <= i < |ct| => |b| + ct[i]);
    assert Embeds(a + c, b + d, both);
  }

  lemma SubsequenceTransitive<T>(a: seq<T>, b: seq<T>, c: seq<T>)
    requires IsSubsequence(a, b) && IsSubsequence(b, c)
    ensures IsSubsequence(a, c)
  {
    var at: seq<nat> :| Embeds(a, b, at);
    var bt: seq<nat> :| Embeds(b, c, bt);
    var both: seq<nat> := seq(|at|, i requires 0 <= i < |at| => bt[at[i]]);
    assert Embeds(a, c, both);
  }

  lemma {:induction false} RetriedSpans(batch: seq<Entry>)
    ensures IsSubsequence(Spans(Retried(batch)), Spans(batch))
  {
    if batch == [] {
      SubsequenceOfItself<Span>([]);
    } else {
      var init, last := batch[..|batch| - 1], batch[|batch| - 1];
      RetriedSpans(init);
      SubsequenceAppend(Spans(Retried(init)), Spans(init), last.span);
      SubsequenceOfItself(Spans(init));
      SubsequenceConcat(Spans(Retried(init)), Spans(init), [], [last.span]) by {
        assert Embeds<Span>([], [last.span], []);
      }
      assert Spans(Retried(init)) + [] == Spans(Retried(init));
    }
  }

  /** Neighbours in the retryable part stand in the same order in the batch. */
  lemma {:induction false} RetryableInBatch(batch: seq<Entry>, k: nat) returns (i: nat, j: nat)
    requires k + 1 < |Retryable(batch)|
    ensures i < j < |batch| && batch[i] == Retryable(batch)[k] && batch[j] == Retryable(batch)[k + 1]
  {
    if batch[0].retryCount >= MAX_RETRIES {
      i, j := RetryableInBatch(batch[1..], k);
      i, j := i + 1, j + 1;
    } else if k > 0 {
      i, j := RetryableInBatch(batch[1..], k - 1);
      i, j := i + 1, j + 1;
    } else {
      j := FirstRetryable(batch[1..]);
      i, j := 0, j + 1;
    }
  }

  lemma {:induction false} FirstRetryable(batch: seq<Entry>) returns (i: nat)
    requires Retryable(batch) != []
    ensures i < |batch| && batch[i] == Retryable(batch)[0]
  {
    if batch[0].retryCount < MAX_RETRIES {
      i := 0;
    } else {
      i := FirstRetryable(batch[1..]);
      i := i + 1;
    }
  }

  lemma {:induction false} SpansAt(es: seq<Entry>, i: nat)
    requires i < |es|
    ensures Spans(es)[i] == es[i].span
  {
    if i < |es| - 1 {
      SpansAt(es[..|es| - 1], i);
    }
  }

  lemma OnePosition<T>(a: seq<T>, b: seq<T>, c: seq<T>, at: seq<nat>, bt: seq<nat>, i: nat, j: nat)
    requires NoDuplicates(c) && Embeds(a, c, at) && Embeds(b, c, bt)
    requires i < |a| && j < |b| && a[i] == b[j]
    ensures at[i] == bt[j]
  {
    assert c[at[i]] == c[bt[j]];
  }

  /** In a sequence without repetitions, elements cannot stand in both orders. */
  lemma OneOrderOnly<T>(a: seq<T>, b: seq<T>, c: seq<T>, i: nat, j: nat, k: nat)
    requires NoDuplicates(c) && IsSubsequence(a, c) && i < j < |a| && k + 1 < |b|
    requires b[k] == a[j] && b[k + 1] == a[i]
    ensures !IsSubsequence(b, c)
  {
    var at: seq<nat> :| Embeds(a, c, at);
    forall bt: seq<nat> ensures !Embeds(b, c, bt) {
      if Embeds(b, c, bt) {
        OnePosition(a, b, c, at, bt, j, k);
        OnePosition(a, b, c, at, bt, i, k + 1);
      }
    }
  }

  lemma KeptAfterFailure(s: State, call: nat)
    requires OneExport(s) && Completes(s, ExporterReplied(call, false))
    ensures Kept(s) == s.exported + InFlight(s.exports) + s.buffer
    ensures Kept(Reply(s, call, false)) == s.exported + Reversed(Retried(InFlight(s.exports))) + s.buffer
    ensures Reply(s, call, false).ended == s.ended
  {
    OnlyCall(s);
    var back := Reversed(Retried(InFlight(s.exports)));
    assert s.exported + [] + (back + s.buffer) == s.exported + back + s.buffer;
  }

  /** When no span ends twice, a failure keeps the order in which spans ended if and only if at most
      one span of the batch gets another try. */
  lemma FailureKeepsOrderIff(s: State, call: nat)
    requires OneExport(s) && Completes(s, ExporterReplied(call, false)) && InOrder(s) && NoDuplicates(s.ended)
    ensures InOrder(Step(s, ExporterReplied(call, false))) <==> |Retryable(InFlight(s.exports))| <= 1
  {
    var batch := InFlight(s.exports);
    KeptAfterFailure(s, call);
    RetriedIsRetryable(batch);
    if |Retryable(batch)| <= 1 {
      assert Reversed(Retried(batch)) == Retried(batch);
      FewerKeepOrder(s.exported, batch, s.buffer, s.ended);
    } else {
      TwoBreakOrder(s.exported, batch, s.buffer, s.ended);
    }
  }

  lemma FewerKeepOrder(exported: seq<Entry>, batch: seq<Entry>, buffer: seq<Entry>, ended: seq<Span>)
    requires IsSubsequence(Spans(exported + batch + buffer), ended)
    ensures IsSubsequence(Spans(exported + Retried(batch) + buffer), ended)
  {
    RetriedSpans(batch);
    SubsequenceOfItself(Spans(exported));
    SubsequenceOfItself(Spans(buffer));
    SubsequenceConcat(Spans(exported), Spans(exported), Spans(Retried(batch)), Spans(batch));
    SubsequenceConcat(
      Spans(exported) + Spans(Retried(batch)), Spans(exported) + Spans(batch), Spans(buffer), Spans(buffer));
    SpansOfThree(exported, Retried(batch), buffer);
    SpansOfThree(exported, batch, buffer);
    SubsequenceTransitive(Spans(exported + Retried(batch) + buffer), Spans(exported + batch + buffer), ended);
  }

  lemma SpansOfThree(a: seq<Entry>, b: seq<Entry>, c: seq<Entry>)
    ensures Spans(a + b + c) == Spans(a) + Spans(b) + Spans(c)
  {
    SpansConcat(a + b, c);
    SpansConcat(a, b);
  }

  lemma TwoBreakOrder(exported: seq<Entry>, batch: seq<Entry>, buffer: seq<Entry>, ended: seq<Span>)
    requires IsSubsequence(Spans(exported + batch + buffer), ended) && NoDuplicates(ended)
    requires |Retryable(batch)| >= 2
    ensures !IsSubsequence(Spans(exported + Reversed(Retried(batch)) + buffer), ended)
  {
    var n, m := |Retryable(batch)|, |exported|;
    var before, after := exported + batch + buffer, exported + Reversed(Retried(batch)) + buffer;
    var i, j := RetryableInBatch(batch, n - 2);
    RetriedIsRetryable(batch);
    assert before[m + i] == batch[i] && before[m + j] == batch[j];
    assert after[m] == Retried(batch)[n - 1] && after[m + 1] == Retried(batch)[n - 2];
    SpansAt(before, m + i);
    SpansAt(before, m + j);
    SpansAt(after, m);
    SpansAt(after, m + 1);
    OneOrderOnly(Spans(before), Spans(after), ended, m + i, m + j, m);
  }

  // ------------------------------------------------------------- the buffer's limit

  /** Within its limit the buffer stays, except when a batch fails whose retryable spans find no room. */
  lemma ExceedsLimitIff(s: State, e: Event)
    requires Inv(s) && |s.buffer| <= 1000
    ensures |Step(s, e).buffer| > 1000 <==>
      Completes(s, e) && !e.ok && |Retryable(InFlight(s.exports))| + |s.buffer| > 1000
  {
    if Completes(s, e) {
      OnlyCall(s);
      RetriedIsRetryable(s.exports[e.call].batch);
    }
  }

  /** Event number `k` of the run is a failure whose retryable spans find no room. */
  ghost predicate Overflows(events: seq<Event>, k: nat)
    requires k < |events|
  {
    var s := Run(INITIAL, events[..k]);
    Completes(s, events[k]) && !events[k].ok && |Retryable(InFlight(s.exports))| + |s.buffer| > MAX_BUFFER_SIZE
  }

  ghost predicate IsWithinLimit(events: seq<Event>, k: nat)
    requires k <= |events|
  {
    |Run(INITIAL, events[..k]).buffer| <= MAX_BUFFER_SIZE
  }

  /** Over whole runs: the limit holds throughout if and only if there is no such failure. */
  lemma LimitHoldsIff(events: seq<Event>)
    ensures (forall k | 0 <= k <= |events| :: IsWithinLimit(events, k))
      <==> (forall k | 0 <= k < |events| :: !Overflows(events, k))
  {
    if forall k | 0 <= k < |events| :: !Overflows(events, k) {
      forall k | 0 <= k <= |events| ensures IsWithinLimit(events, k) {
        StaysWithinLimit(events, k);
      }
    }
    if forall k | 0 <= k <= |events| :: IsWithinLimit(events, k) {
      forall k | 0 <= k < |events| ensures !Overflows(events, k) {
        LimitStep(events, k);
      }
    }
  }

  lemma {:induction false} StaysWithinLimit(events: seq<Event>, k: nat)
    requires k <= |events| && forall j | 0 <= j < k :: !Overflows(events, j)
    ensures IsWithinLimit(events, k)
  {
    if k > 0 {
      StaysWithinLimit(events, k - 1);
      LimitStep(events, k - 1);
    }
  }

  lemma LimitStep(events: seq<Event>, k: nat)
    requires k < |events| && IsWithinLimit(events, k)
    ensures IsWithinLimit(events, k + 1) <==> !Overflows(events, k)
  {
    assert events[..k + 1][..k] == events[..k];
    ReachableInv(events[..k]);
    ExceedsLimitIff(Run(INITIAL, events[..k]), events[k]);
  }

  /** In particular it holds in every run without failed exports. */
  lemma {:induction false} LimitHoldsWithoutFailures(events: seq<Event>)
    requires forall e | e in events :: e.ExporterReplied? ==> e.ok
    ensures |Run(INITIAL, events).buffer| <= MAX_BUFFER_SIZE
  {
    LimitHoldsIff(events);
    assert events[..|events|] == events;
    assert IsWithinLimit(events, |events|) by {
      forall k | 0 <= k < |events| ensures !Overflows(events, k) {
        assert events[k] in events;
      }
    }
  }

  // ---------------------------------------------------- a run that attains the bound

  const SOME_END := SpanEnded(Span("", "", ""), 0)

  function Endings(n: nat): (events: seq<Event>)
    ensures |events| == n
  {
    if n == 0 then [] else Endings(n - 1) + [SOME_END]
  }

  ghost predicate Unfailed(es: seq<Entry>) {
    forall e | e in es :: e.retryCount == 0
  }

  /** What ending spans leave of a state in which an export is under way, and how much they add. */
  ghost predicate IsFilled(s: State, s': State, n: nat) {
    s'.isExporting && s'.exports == s.exports && |s'.buffer| == |s.buffer| + n && Unfailed(s'.buffer)
  }

  lemma OneMoreEnds(s: State)
    requires s.isExporting && |s.buffer| < MAX_BUFFER_SIZE && Unfailed(s.buffer)
    ensures IsFilled(s, Step(s, SOME_END), 1)
  {
  }

  lemma EndingsMore(s: State, n: nat)
    requires n > 0
    ensures Run(s, Endings(n)) == Step(Run(s, Endings(n - 1)), SOME_END)
  {
    assert Endings(n)[..n - 1] == Endings(n - 1);
  }

  /** While an export is under way, ending spans fill the buffer up to its limit. */
  lemma {:induction false} EndingsFill(s: State, n: nat)
    requires s.isExporting && |s.buffer| + n <= MAX_BUFFER_SIZE && Unfailed(s.buffer)
    ensures IsFilled(s, Run(s, Endings(n)), n)
  {
    if n > 0 {
      EndingsFill(s, n - 1);
      OneMoreEnds(Run(s, Endings(n - 1)));
      EndingsMore(s, n);
    } else {
      NoEndings(s);
    }
  }

  lemma NoEndings(s: State)
    ensures Run(s, Endings(0)) == s
  {
  }

  lemma {:induction false} RunConcat(s: State, a: seq<Event>, b: seq<Event>)
    ensures Run(s, a + b) == Run(Run(s, a), b)
  {
    if b == [] {
      assert a + b == a;
    } else {
      RunConcat(s, a, b[..|b| - 1]);
      assert (a + b)[..|a + b| - 1] == a + b[..|b| - 1];
    }
  }

  lemma {:induction false} UnfailedIsRetryable(es: seq<Entry>)
    requires Unfailed(es)
    ensures Retryable(es) == es
  {
    if es != [] {
      UnfailedIsRetryable(es[1..]);
    }
  }

  /** A span ends and its export succeeds while the buffer fills; then the exporter takes a whole
      batch, the buffer fills again, and the batch fails. */
  function FillAndFail(): seq<Event> {
    Endings(1) + Endings(MAX_BUFFER_SIZE) + [ExporterReplied(0, true), Persisted(0), ExportRequested]
    + Endings(BATCH_SIZE) + [ExporterReplied(0, false)]
  }

  /** The bound on memory is sharp: a reachable buffer holds a whole batch more than its limit. */
  lemma BoundIsAttained()
    ensures |Run(INITIAL, FillAndFail()).buffer| == 1100
  {
    var replies := [ExporterReplied(0, true), Persisted(0), ExportRequested];
    var a, b := Endings(1), Endings(MAX_BUFFER_SIZE);
    RunConcat(INITIAL, a, b);
    RunConcat(INITIAL, a + b, replies);
    RunConcat(INITIAL, a + b + replies, Endings(BATCH_SIZE));
    RunConcat(INITIAL, a + b + replies + Endings(BATCH_SIZE), [ExporterReplied(0, false)]);
    var s1 := Run(INITIAL, a);
    FirstExport();
    EndingsFill(s1, MAX_BUFFER_SIZE);
    var s2 := Run(s1, b);
    SecondExport(s2);
    var s3 := Run(s2, replies);
    EndingsFill(s3, BATCH_SIZE);
    var s4 := Run(s3, Endings(BATCH_SIZE));
    BatchFails(s4);
  }

  lemma FirstExport()
    ensures var s := Run(INITIAL, Endings(1));
      s.isExporting && s.buffer == [] && |s.exports| == 1 && s.exports[0].Sending?
  {
    assert Endings(1)[..0] == [] && Endings(0) == [];
  }

  lemma SecondExport(s: State)
    requires s.isExporting && |s.exports| == 1 && s.exports[0].Sending?
    requires |s.buffer| == MAX_BUFFER_SIZE && Unfailed(s.buffer)
    ensures var s' := Run(s, [ExporterReplied(0, true), Persisted(0), ExportRequested]);
      && s'.isExporting && |s'.exports| == 1 && s'.exports[0].Sending?
      && |s'.exports[0].batch| == BATCH_SIZE && Unfailed(s'.exports[0].batch)
      && |s'.buffer| == MAX_BUFFER_SIZE - BATCH_SIZE && Unfailed(s'.buffer)
  {
    var r, p, q := ExporterReplied(0, true), Persisted(0), ExportRequested;
    RunConcat(s, [r, p], [q]);
    RunConcat(s, [r], [p]);
    OneStep(s, r);
    OneStep(Step(s, r), p);
    OneStep(Step(Step(s, r), p), q);
    assert [r, p] + [q] == [r, p, q] && [r] + [p] == [r, p];
  }

  lemma OneStep(s: State, e: Event)
    ensures Run(s, [e]) == Step(s, e)
  {
    assert [e][..0] == [];
  }

  lemma BatchFails(s: State)
    requires |s.exports| == 1 && s.exports[0].Sending? && Unfailed(s.exports[0].batch)
    ensures |Run(s, [ExporterReplied(0, false)]).buffer| == |s.exports[0].batch| + |s.buffer|
  {
    OneStep(s, ExporterReplied(0, false));
    UnfailedIsRetryable(s.exports[0].batch);
    RetriedIsRetryable(s.exports[0].batch);
  }
}
