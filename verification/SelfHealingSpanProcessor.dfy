/** The span processor itself: every method takes the step of the state machine that it is named after. */
module SelfHealingSpanProcessors {
  import S = SpanBuffer
  import Q = Sequences

  /** A span in the buffer; its retry count is updated where it lies. */
  class BufferedSpan {
    const span: S.Span
    const timestamp: int
    var retryCount: nat

    constructor (span: S.Span, timestamp: int)
      ensures this.span == span && this.timestamp == timestamp && retryCount == 0
    {
      this.span, this.timestamp, this.retryCount := span, timestamp, 0;
    }

    ghost function Value(): S.Entry
      reads this
    {
      S.Entry(span, timestamp, retryCount)
    }
  }

  /** No object occurs twice. */
  ghost predicate Distinct(bs: seq<BufferedSpan>) {
    forall x {:trigger Once(bs, x)} | x in bs :: Once(bs, x)
  }

  ghost predicate Once(bs: seq<BufferedSpan>, x: BufferedSpan) {
    multiset(bs)[x] == 1
  }

  /** Adding one object that is new, and dropping the first of the second part or not. */
  lemma DistinctAppend(a: seq<BufferedSpan>, b: seq<BufferedSpan>, x: BufferedSpan)
    requires Distinct(a + b) && x !in a + b
    ensures Distinct(a + (b + [x])) && Distinct(a + (b + [x])[1..])
  {
    forall y | y in a + (b + [x]) ensures Once(a + (b + [x]), y) {
      assert a + (b + [x]) == a + b + [x] && multiset(a + b)[x] == 0;
      assert y != x ==> y in a + b && Once(a + b, y);
    }
    DistinctDrop(a, b + [x]);
  }

  lemma DistinctDrop(a: seq<BufferedSpan>, b: seq<BufferedSpan>)
    requires b != [] && Distinct(a + b)
    ensures Distinct(a + b[1..])
  {
    assert b == [b[0]] + b[1..];
    forall x | x in a + b[1..] ensures Once(a + b[1..], x) {
      assert x in a + b && Once(a + b, x) && x in multiset(a + b[1..]);
      assert multiset(a + b) == multiset(a + b[1..]) + multiset{b[0]};
    }
  }

  lemma DistinctSuffix(a: seq<BufferedSpan>, b: seq<BufferedSpan>)
    requires Distinct(a + b)
    ensures Distinct(b)
  {
    forall x | x in b ensures Once(b, x) {
      assert x in a + b && Once(a + b, x) && x in multiset(b);
      assert multiset(a + b) == multiset(a) + multiset(b);
    }
  }

  /** The first element may move behind the rest of its part. */
  lemma DistinctMove(x: BufferedSpan, a: seq<BufferedSpan>, b: seq<BufferedSpan>)
    requires Distinct([x] + a + b)
    ensures Distinct(a + ([x] + b)) && Distinct(a + b) && x !in a && x !in b
  {
    assert [x] + a + b == [x] + (a + b);
    DistinctSuffix([x], a + b);
    forall y | y in a + ([x] + b) ensures Once(a + ([x] + b), y) {
      assert y in [x] + a + b && Once([x] + a + b, y);
      assert multiset([x] + a + b) == multiset(a + ([x] + b));
    }
    assert x in [x] + a + b && Once([x] + a + b, x);
    assert multiset([x] + a + b) == multiset{x} + multiset(a) + multiset(b);
    assert multiset(a)[x] == 0 && multiset(b)[x] == 0;
  }

  /** The buffered spans are these entries. */
  ghost predicate Holds(bs: seq<BufferedSpan>, es: seq<S.Entry>)
    reads bs
  {
    |bs| == |es| && forall i | 0 <= i < |bs| :: bs[i].Value() == es[i]
  }

  lemma HoldsAppend(bs: seq<BufferedSpan>, es: seq<S.Entry>, x: BufferedSpan)
    requires Holds(bs, es)
    ensures Holds(bs + [x], es + [x.Value()]) && Holds((bs + [x])[1..], (es + [x.Value()])[1..])
  {
  }

  lemma HoldsFirst(x: BufferedSpan, bs: seq<BufferedSpan>, e: S.Entry, es: seq<S.Entry>)
    requires Holds([x] + bs, [e] + es)
    ensures x.Value() == e && Holds(bs, es)
  {
    var a, c := [x] + bs, [e] + es;
    assert a[0] == x && c[0] == e;
    forall i | 0 <= i < |bs| ensures bs[i].Value() == es[i] {
      assert a[i + 1].Value() == c[i + 1];
    }
  }

  lemma Whole<T>(s: seq<T>)
    ensures s[0..] == s
  {
  }

  lemma NoFront<T>(a: seq<T>, b: seq<T>)
    requires |a| == 0
    ensures a + b == b
  {
  }

  lemma FirstApart<T>(s: seq<T>, i: nat)
    requires i < |s|
    ensures s[i..] == [s[i]] + s[i + 1..]
  {
  }

  lemma Regroup<T>(x: T, a: seq<T>, b: seq<T>)
    ensures [x] + (a + b) == [x] + a + b
  {
  }

  /** A call of the export routine that has not returned. */
  datatype ExportCall = Sending(batch: seq<BufferedSpan>) | Settling

  class SelfHealingSpanProcessor {
    var buffer: seq<BufferedSpan>
    var exports: seq<ExportCall>
    var isExporting: bool
    ghost var state: S.State  // what the fields represent, and the history

    /** What the running call, if any, has handed to the exporter. */
    ghost function Batch(): seq<BufferedSpan>
      reads this
    {
      if exports != [] && exports[0].Sending? then exports[0].batch else []
    }

    ghost predicate Valid()
      reads this, buffer, Batch()
    {
      && |exports| <= 1 && (isExporting <==> |exports| == 1) && Distinct(Batch() + buffer)
      && Holds(buffer, state.buffer)
      && isExporting == state.isExporting && |exports| == |state.exports|
      && (exports != [] ==> exports[0].Sending? == state.exports[0].Sending?)
      && (exports != [] && exports[0].Sending? ==> Holds(Batch(), state.exports[0].batch))
    }

    constructor ()
      ensures Valid() && state == S.INITIAL
    {
      buffer, exports, isExporting := [], [], false;
      state := S.INITIAL;
    }

    method OnEnd(span: S.Span, now: int)
      requires Valid()
      modifies this
      ensures Valid() && state == S.Step(old(state), S.SpanEnded(span, now))
    {
      AddToBuffer(span, now);
      if !isExporting {
        ExportSpans();
      }
    }

    method AddToBuffer(span: S.Span, now: int)
      requires Distinct(Batch() + buffer) && Holds(buffer, state.buffer)
      modifies this`buffer, this`state
      ensures state == S.AddToBuffer(old(state), span, now)
      ensures Distinct(Batch() + buffer) && Holds(buffer, state.buffer)
    {
      var bufferedSpan := new BufferedSpan(span, now);
      Push(bufferedSpan, span, now);
      state := S.AddToBuffer(state, span, now);
    }

    /** Appends a span, and drops the oldest one when the buffer is then too long. */
    method Push(bufferedSpan: BufferedSpan, ghost span: S.Span, ghost now: int)
      requires Distinct(Batch() + buffer) && Holds(buffer, state.buffer)
      requires bufferedSpan !in Batch() + buffer && bufferedSpan.Value() == S.Entry(span, now, 0)
      modifies this`buffer
      ensures Distinct(Batch() + buffer) && Holds(buffer, S.AddToBuffer(state, span, now).buffer)
    {
      DistinctAppend(Batch(), buffer, bufferedSpan);
      HoldsAppend(buffer, state.buffer, bufferedSpan);
      buffer := buffer + [bufferedSpan];
      if |buffer| > S.MAX_BUFFER_SIZE {
        buffer := buffer[1..];
      }
    }

    /** The part of the export routine up to the wait for the exporter's reply. */
    method ExportSpans()
      requires Valid()
      modifies this
      ensures Valid() && state == S.StartExport(old(state))
    {
      if isExporting || |buffer| == 0 {
        return;
      }
      isExporting := true;
      var n := if |buffer| < S.BATCH_SIZE then |buffer| else S.BATCH_SIZE;
      var spansToExport := buffer[..n];
      assert Batch() + buffer == spansToExport + buffer[n..];
      exports := exports + [Sending(spansToExport)];
      buffer := buffer[n..];
      state := S.StartExport(state);
    }

    /** What the timer, a forced flush and the shutdown do. */
    method RequestExport()
      requires Valid()
      modifies this
      ensures Valid() && state == S.Step(old(state), S.ExportRequested)
    {
      ExportSpans();
    }

    /** The part of the export routine from the exporter's reply to the wait for persistence. */
    method OnExporterReply(ok: bool)
      requires Valid() && exports != [] && exports[0].Sending?
      modifies this, Batch()
      ensures Valid() && state == S.Step(old(state), S.ExporterReplied(0, ok))
    {
      TakeBack(exports[0].batch, ok);
      exports := [Settling];
      state := S.Reply(state, 0, ok);
      assert Batch() + buffer == buffer;
    }

    /** What the reply does to the buffer. */
    method TakeBack(spansToExport: seq<BufferedSpan>, ok: bool)
      requires Valid() && exports == [Sending(spansToExport)]
      modifies this`buffer, spansToExport
      ensures Distinct(buffer) && Holds(buffer, S.Reply(state, 0, ok).buffer)
    {
      DistinctSuffix(spansToExport, buffer);
      if !ok {
        Requeue(spansToExport, state.exports[0].batch, state.buffer);
      }
    }

    /** Puts failed spans back in front of the buffer, one by one, unless their retries are used up. */
    method Requeue(spansToExport: seq<BufferedSpan>, ghost batch: seq<S.Entry>, ghost waiting: seq<S.Entry>)
      requires Distinct(spansToExport + buffer) && Holds(spansToExport, batch) && Holds(buffer, waiting)
      modifies this`buffer, spansToExport
      ensures Distinct(buffer) && Holds(buffer, Q.Reversed(S.Retried(batch)) + waiting)
    {
      ghost var fronts := S.Fronts(batch);
      Whole(spansToExport);
      Whole(batch);
      NoFront(fronts[0], waiting);
      for i := 0 to |spansToExport|
        invariant Distinct(spansToExport[i..] + buffer) && Holds(spansToExport[i..], batch[i..])
        invariant Holds(buffer, fronts[i] + waiting)
      {
        FirstApart(spansToExport, i);
        FirstApart(batch, i);
        assert S.IsNextFront(batch, fronts, i);
        RequeueOne(
          spansToExport[i], spansToExport[i + 1..], batch[i], batch[i + 1..], fronts[i], fronts[i + 1], waiting);
      }
      NoFront(spansToExport[|spansToExport|..], buffer);
    }

    /** The first of the spans that are still to be looked at. */
    method RequeueOne(bufferedSpan: BufferedSpan, ghost rest: seq<BufferedSpan>,
                      ghost e: S.Entry, ghost es: seq<S.Entry>,
                      ghost front: seq<S.Entry>, ghost next: seq<S.Entry>, ghost waiting: seq<S.Entry>)
      requires Distinct([bufferedSpan] + rest + buffer) && Holds([bufferedSpan] + rest, [e] + es)
      requires Holds(buffer, front + waiting)
      requires next == if e.retryCount < S.MAX_RETRIES then [e.(retryCount := e.retryCount + 1)] + front else front
      modifies this`buffer, bufferedSpan
      ensures Distinct(rest + buffer) && Holds(rest, es) && Holds(buffer, next + waiting)
    {
      HoldsFirst(bufferedSpan, rest, e, es);
      DistinctMove(bufferedSpan, rest, buffer);
      if bufferedSpan.retryCount < S.MAX_RETRIES {
        PutBack(bufferedSpan, front + waiting);
        Regroup(bufferedSpan.Value(), front, waiting);
      }
    }

    /** One more failure for the span, which goes to the front of the buffer. */
    method PutBack(bufferedSpan: BufferedSpan, ghost es: seq<S.Entry>)
      requires bufferedSpan !in buffer && Holds(buffer, es)
      modifies this`buffer, bufferedSpan
      ensures bufferedSpan.retryCount == old(bufferedSpan.retryCount) + 1
      ensures buffer == [bufferedSpan] + old(buffer) && Holds(buffer, [bufferedSpan.Value()] + es)
    {
      bufferedSpan.retryCount := bufferedSpan.retryCount + 1;
      buffer := [bufferedSpan] + buffer;
    }

    /** The end of the export routine, after the buffer has been persisted. */
    method OnPersisted()
      requires Valid() && exports == [Settling]
      modifies this
      ensures Valid() && state == S.Step(old(state), S.Persisted(0))
    {
      exports := exports[1..];
      isExporting := false;
      state := S.Settle(state, 0);
    }
  }
}
