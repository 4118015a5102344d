/** What becomes of a span when it ends: which spans a full buffer gives up, and what is exported next. */
module SpanArrivals {
  import opened Sequences
  import opened SpanBuffer
  import opened SpanGuarantees

  /** The last span to have ended, as it waits: at the end of the buffer, or of the batch just handed over. */
  ghost predicate IsNewest(s: State, e: Entry) {
    if s.buffer != [] then
      s.buffer[|s.buffer| - 1] == e
    else
      && |s.exports| == 1 && s.exports[0].Sending? && s.exports[0].batch != []
      && s.exports[0].batch[|s.exports[0].batch| - 1] == e
  }

  /** A span that ends is kept, and an export is under way afterwards.  Only a buffer that already held
      1000 spans gives one up, and that is its oldest. */
  lemma NewestIsKept(s: State, span: Span, now: int)
    requires Reachable(s)
    ensures var s' := Step(s, SpanEnded(span, now));
      && IsNewest(s', Entry(span, now, 0)) && s'.isExporting
      && s'.overflowed == s.overflowed + if |s.buffer| < 1000 then [] else [s.buffer[0]]
  {
    var events :| s == Run(INITIAL, events);
    ReachableInv(events);
    AddedIsNewest(s, span, now);
    StartKeepsNewest(AddToBuffer(s, span, now), Entry(span, now, 0));
  }

  lemma AddedIsNewest(s: State, span: Span, now: int)
    ensures var s' := AddToBuffer(s, span, now);
      && s'.buffer != [] && s'.buffer[|s'.buffer| - 1] == Entry(span, now, 0)
      && s'.exports == s.exports && s'.isExporting == s.isExporting
      && s'.overflowed == s.overflowed + if |s.buffer| < 1000 then [] else [s.buffer[0]]
  {
  }

  lemma StartKeepsNewest(s: State, e: Entry)
    requires OneExport(s) && s.buffer != [] && s.buffer[|s.buffer| - 1] == e
    ensures IsNewest(StartExport(s), e) && StartExport(s).isExporting && StartExport(s).overflowed == s.overflowed
  {
    if !s.isExporting {
      assert s.exports == [];
    }
  }

  /** Asked to export while it can, the processor hands over its oldest spans, a hundred of them or all. */
  lemma RequestTakesOldest(s: State)
    requires Reachable(s) && !s.isExporting && s.buffer != []
    ensures var s' := Step(s, ExportRequested); var batch := InFlight(s'.exports);
      && batch + s'.buffer == s.buffer && |batch| == (if |s.buffer| < 100 then |s.buffer| else 100)
      && s'.handed == s.handed + Spans(batch)
  {
    var events :| s == Run(INITIAL, events);
    ReachableInv(events);
    StartMovesBatch(s);
  }

  // ------------------------------------------------------------- runs without failures

  /** The buffer holds the spans that ended last, in their order. */
  ghost predicate HoldsLatest(s: State) {
    |s.buffer| <= |s.ended| && Spans(s.buffer) == s.ended[|s.ended| - |s.buffer|..]
  }

  lemma {:induction false} SpansAreElementwise(es: seq<Entry>)
    ensures forall i | 0 <= i < |es| :: Spans(es)[i] == es[i].span
  {
    if es != [] {
      SpansAreElementwise(es[..|es| - 1]);
    }
  }

  lemma SpansOfSuffix(es: seq<Entry>, n: nat)
    requires n <= |es|
    ensures Spans(es[n..]) == Spans(es)[n..]
  {
    SpansAreElementwise(es);
    SpansAreElementwise(es[n..]);
  }

  lemma SuffixDropped(s: State, n: nat, s': State)
    requires HoldsLatest(s) && n <= |s.buffer| && s'.buffer == s.buffer[n..] && s'.ended == s.ended
    ensures HoldsLatest(s')
  {
    SpansOfSuffix(s.buffer, n);
  }

  lemma AddKeepsLatest(s: State, span: Span, now: int)
    requires HoldsLatest(s)
    ensures HoldsLatest(AddToBuffer(s, span, now))
  {
    var grown := s.(buffer := s.buffer + [Entry(span, now, 0)], ended := s.ended + [span]);
    assert grown.buffer[..|s.buffer|] == s.buffer;
    assert HoldsLatest(grown);
    if |grown.buffer| > MAX_BUFFER_SIZE {
      SuffixDropped(grown, 1, AddToBuffer(s, span, now));
    }
  }

  lemma StartKeepsLatest(s: State)
    requires HoldsLatest(s)
    ensures HoldsLatest(StartExport(s))
  {
    SuffixDropped(s, if s.isExporting || s.buffer == [] then 0 else BatchLength(s), StartExport(s));
  }

  /** As long as no export fails, the buffer holds exactly the spans that ended last, in their order. */
  lemma {:induction false} BufferIsSuffix(events: seq<Event>)
    requires forall e | e in events :: e.ExporterReplied? ==> e.ok
    ensures HoldsLatest(Run(INITIAL, events))
  {
    if events != [] {
      var init, last := events[..|events| - 1], events[|events| - 1];
      assert last in events;
      BufferIsSuffix(init);
      var s := Run(INITIAL, init);
      match last
      case SpanEnded(span, now) =>
        AddKeepsLatest(s, span, now);
        StartKeepsLatest(AddToBuffer(s, span, now));
      case ExportRequested => StartKeepsLatest(s);
      case ExporterReplied(call, ok) =>
      case Persisted(call) =>
    }
  }
}
