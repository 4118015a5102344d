/**
 The self-healing span buffer as a state machine.  An export is a suspended call: it waits for
 the exporter's reply and then for the buffer to be persisted, and spans may end at any time
 between.  The last five fields of a state record the history that the guarantees speak of.
 */
module SpanBuffer {
  import opened Sequences

  const MAX_BUFFER_SIZE: nat := 1000
  const MAX_RETRIES: nat := 3
  const BATCH_SIZE: nat := 100

  datatype Span = Span(traceId: string, spanId: string, name: string)

  datatype Entry = Entry(span: Span, timestamp: int, retryCount: nat)

  /** An unfinished call of the export routine. */
  datatype Export = Sending(batch: seq<Entry>) | Settling

  datatype State = State(
    buffer: seq<Entry>,
    exports: seq<Export>,
    isExporting: bool,
    ended: seq<Span>,         // every span that ended
    handed: seq<Span>,        // every span handed to the exporter, once for each time
    exported: seq<Entry>,     // batches the exporter accepted
    overflowed: seq<Entry>,   // dropped because the buffer was full
    abandoned: seq<Entry>)    // dropped because the retries were used up

  datatype Event =
    | SpanEnded(span: Span, now: int)
    | ExportRequested                        // timer, forced flush or shutdown
    | ExporterReplied(call: nat, ok: bool)
    | Persisted(call: nat)

  const INITIAL := State([], [], false, [], [], [], [], [])

  function Spans(es: seq<Entry>): (spans: seq<Span>)
    ensures |spans| == |es|
  {
    if es == [] then [] else Spans(es[..|es| - 1]) + [es[|es| - 1].span]
  }

  /** What the calls that wait for the exporter hold. */
  function InFlight(exports: seq<Export>): seq<Entry> {
    if exports == [] then []
    else
      var last := exports[|exports| - 1];
      InFlight(exports[..|exports| - 1]) + if last.Sending? then last.batch else []
  }

  // ------------------------------------------------------------------ the steps

  function AddToBuffer(s: State, span: Span, now: int): State {
    var grown := s.buffer + [Entry(span, now, 0)];
    var s' := s.(ended := s.ended + [span]);
    if |grown| > MAX_BUFFER_SIZE then s'.(buffer := grown[1..], overflowed := s.overflowed + [grown[0]])
    else s'.(buffer := grown)
  }

  function BatchLength(s: State): (n: nat)
    ensures n <= |s.buffer|
  {
    if |s.buffer| < BATCH_SIZE then |s.buffer| else BATCH_SIZE
  }

  function StartExport(s: State): State {
    if s.isExporting || s.buffer == [] then s
    else
      var n := BatchLength(s);
      s.(buffer := s.buffer[n..], exports := s.exports + [Sending(s.buffer[..n])], isExporting := true,
         handed := s.handed + Spans(s.buffer[..n]))
  }

  /** The spans of a failed batch that get another try, with the failure counted. */
  function Retried(batch: seq<Entry>): seq<Entry> {
    if batch == [] then []
    else
      var rest, last := Retried(batch[..|batch| - 1]), batch[|batch| - 1];
      if last.retryCount < MAX_RETRIES then rest + [last.(retryCount := last.retryCount + 1)] else rest
  }

  function GivenUp(batch: seq<Entry>): seq<Entry> {
    if batch == [] then []
    else
      var rest, last := GivenUp(batch[..|batch| - 1]), batch[|batch| - 1];
      if last.retryCount < MAX_RETRIES then rest else rest + [last]
  }

  /** Taking the batch one span further. */
  lemma RequeueNext(batch: seq<Entry>, i: nat)
    requires i < |batch|
    ensures batch[i].retryCount < MAX_RETRIES ==>
      && Reversed(Retried(batch[..i + 1]))
        == [batch[i].(retryCount := batch[i].retryCount + 1)] + Reversed(Retried(batch[..i]))
      && GivenUp(batch[..i + 1]) == GivenUp(batch[..i])
    ensures batch[i].retryCount >= MAX_RETRIES ==>
      && Reversed(Retried(batch[..i + 1])) == Reversed(Retried(batch[..i]))
      && GivenUp(batch[..i + 1]) == GivenUp(batch[..i]) + [batch[i]]
  {
    assert batch[..i + 1][..i] == batch[..i];
    var rest, e := Retried(batch[..i]), batch[i].(retryCount := batch[i].retryCount + 1);
    assert Reversed(rest + [e]) == [e] + Reversed(rest);
  }

  /** What stands in front of the buffer after each span of a failed batch. */
  lemma Fronts(batch: seq<Entry>) returns (fronts: seq<seq<Entry>>)
    ensures |fronts| == |batch| + 1 && fronts[0] == [] && fronts[|batch|] == Reversed(Retried(batch))
    ensures forall i {:trigger IsNextFront(batch, fronts, i)} | 0 <= i < |batch| :: IsNextFront(batch, fronts, i)
  {
    fronts := seq(|batch| + 1, i requires 0 <= i <= |batch| => Reversed(Retried(batch[..i])));
    assert batch[..|batch|] == batch;
    forall i | 0 <= i < |batch| ensures IsNextFront(batch, fronts, i) {
      RequeueNext(batch, i);
    }
  }

  ghost predicate IsNextFront(batch: seq<Entry>, fronts: seq<seq<Entry>>, i: nat)
    requires i < |batch| && |fronts| == |batch| + 1
  {
    fronts[i + 1] ==
      if batch[i].retryCount < MAX_RETRIES then [batch[i].(retryCount := batch[i].retryCount + 1)] + fronts[i]
      else fronts[i]
  }

  /** A failed batch goes back in front of what was buffered since, last span first. */
  function Reply(s: State, call: nat, ok: bool): State {
    if call >= |s.exports| || s.exports[call].Settling? then s
    else
      var batch := s.exports[call].batch;
      var s' := s.(exports := s.exports[call := Settling]);
      if ok then s'.(exported := s.exported + batch)
      else s'.(buffer := Reversed(Retried(batch)) + s.buffer, abandoned := s.abandoned + GivenUp(batch))
  }

  function Settle(s: State, call: nat): State {
    if call >= |s.exports| || s.exports[call].Sending? then s
    else s.(exports := s.exports[..call] + s.exports[call + 1..], isExporting := false)
  }

  function Step(s: State, e: Event): State {
    match e
    case SpanEnded(span, now) => StartExport(AddToBuffer(s, span, now))
    case ExportRequested => StartExport(s)
    case ExporterReplied(call, ok) => Reply(s, call, ok)
    case Persisted(call) => Settle(s, call)
  }

  function Run(s: State, events: seq<Event>): State {
    if events == [] then s else Step(Run(s, events[..|events| - 1]), events[|events| - 1])
  }

  // ---------------------------------------------------------- weights of entries

  /** The weights of the entries added up. */
  function Sum(f: Entry -> int, es: seq<Entry>): int {
    if es == [] then 0 else Sum(f, es[..|es| - 1]) + f(es[|es| - 1])
  }

  function Occurrences(x: Span): Entry -> int {
    (e: Entry) => if e.span == x then 1 else 0
  }

  /** The failures that the entries of a span have counted. */
  function Failures(x: Span): Entry -> int {
    (e: Entry) => if e.span == x then e.retryCount else 0
  }

  /** The same with one attempt more for each entry, whose outcome is open or final. */
  function Attempts(x: Span): Entry -> int {
    (e: Entry) => if e.span == x then e.retryCount + 1 else 0
  }

  /** The attempts an entry has left. */
  function Left(): Entry -> int {
    (e: Entry) => MAX_RETRIES + 1 - e.retryCount
  }

  lemma {:induction false} SumConcat(f: Entry -> int, a: seq<Entry>, b: seq<Entry>)
    ensures Sum(f, a + b) == Sum(f, a) + Sum(f, b)
  {
    if b == [] {
      assert a + b == a;
    } else {
      SumConcat(f, a, b[..|b| - 1]);
      assert (a + b)[..|a + b| - 1] == a + b[..|b| - 1];
    }
  }

  lemma SumSingle(f: Entry -> int, e: Entry)
    ensures Sum(f, [e]) == f(e)
  {
    assert [e][..0] == [];
  }

  lemma {:induction false} SumAdds(f: Entry -> int, g: Entry -> int, h: Entry -> int, es: seq<Entry>)
    requires forall e: Entry :: h(e) == f(e) + g(e)
    ensures Sum(h, es) == Sum(f, es) + Sum(g, es)
  {
    if es != [] {
      SumAdds(f, g, h, es[..|es| - 1]);
    }
  }

  lemma {:induction false} SumAtMost(f: Entry -> int, g: Entry -> int, es: seq<Entry>)
    requires forall e | e in es :: f(e) <= g(e)
    ensures Sum(f, es) <= Sum(g, es)
  {
    if es != [] {
      SumAtMost(f, g, es[..|es| - 1]);
    }
  }

  lemma {:induction false} SumReversed(f: Entry -> int, es: seq<Entry>)
    ensures Sum(f, Reversed(es)) == Sum(f, es)
  {
    if es != [] {
      SumReversed(f, es[1..]);
      SumConcat(f, Reversed(es[1..]), [es[0]]);
      SumConcat(f, [es[0]], es[1..]);
      assert es == [es[0]] + es[1..];
    }
  }

  lemma {:induction false} OccurrencesAreCounted(es: seq<Entry>, x: Span)
    ensures multiset(Spans(es))[x] == Sum(Occurrences(x), es)
  {
    if es != [] {
      OccurrencesAreCounted(es[..|es| - 1], x);
    }
  }

  ghost predicate WithinRetries(es: seq<Entry>) {
    forall e | e in es :: e.retryCount <= MAX_RETRIES
  }

  /** A weight of a failed batch is what `r` gives to the retried entries and `d` to the given up ones. */
  lemma {:induction false} FailedBatch(f: Entry -> int, r: Entry -> int, d: Entry -> int, batch: seq<Entry>)
    requires WithinRetries(batch)
    requires forall e: Entry | e.retryCount < MAX_RETRIES :: r(e.(retryCount := e.retryCount + 1)) == f(e)
    requires forall e: Entry | e.retryCount == MAX_RETRIES :: d(e) == f(e)
    ensures Sum(f, batch) == Sum(r, Retried(batch)) + Sum(d, GivenUp(batch))
  {
    if batch != [] {
      FailedBatch(f, r, d, batch[..|batch| - 1]);
    }
  }

  lemma {:induction false} FailedBatchRetries(batch: seq<Entry>)
    requires WithinRetries(batch)
    ensures WithinRetries(Retried(batch)) && |Retried(batch)| <= |batch|
    ensures forall e | e in GivenUp(batch) :: e.retryCount == MAX_RETRIES
  {
    if batch != [] {
      FailedBatchRetries(batch[..|batch| - 1]);
    }
  }

  lemma {:induction false} InFlightConcat(a: seq<Export>, b: seq<Export>)
    ensures InFlight(a + b) == InFlight(a) + InFlight(b)
  {
    if b == [] {
      assert a + b == a;
    } else {
      InFlightConcat(a, b[..|b| - 1]);
      assert (a + b)[..|a + b| - 1] == a + b[..|b| - 1];
    }
  }

  lemma InFlightSingle(e: Export)
    ensures InFlight([e]) == if e.Sending? then e.batch else []
  {
    assert [e][..0] == [];
  }

  lemma {:induction false} SpansConcat(a: seq<Entry>, b: seq<Entry>)
    ensures Spans(a + b) == Spans(a) + Spans(b)
  {
    if b == [] {
      assert a + b == a;
    } else {
      SpansConcat(a, b[..|b| - 1]);
      assert (a + b)[..|a + b| - 1] == a + b[..|b| - 1];
    }
  }
}
