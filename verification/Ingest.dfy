/** From ingestors through the shards' queues into the databases (datastore.go). */
module Ingest {
  import opened Bytes
  import opened Spans
  import opened LevelDb
  import opened Index
  import opened Shards
  import opened Metrics

  const WRITESPANS_BATCH_SIZE := 128

  datatype IncomingSpan = IncomingSpan(addr: ByteString, span: Span)

  type Batch = seq<IncomingSpan>

  /** The batches waiting in one shard's channel, oldest first. */
  type Queue = seq<Batch>

  // ---------------------------------------------------------------- one ingestor

  /** An ingestor's fields as one value. */
  datatype Ing = Ing(
    addr: ByteString,
    defaultTrid: ByteString,
    batches: seq<Batch>,
    totalIngested: nat,
    serverDropped: nat)

  function WithTracer(s: Span, trid: ByteString): Span {
    if |s.data.tracerId| == 0 then s.(data := s.data.(tracerId := trid)) else s
  }

  /** The span as it is handed on. */
  function Entry(ing: Ing, s: Span): IncomingSpan {
    IncomingSpan(ing.addr, WithTracer(s, ing.defaultTrid))
  }

  /** A span is handed on if its id is valid and it can be encoded. */
  predicate Accepted(s: Span, encodes: bool) {
    ValidId(s.id) && encodes
  }

  /** The ingestor after `IngestSpan`, for a span that belongs to shard `i`. */
  function AfterIngest(ing: Ing, i: nat, s: Span, encodes: bool): Ing
    requires i < |ing.batches|
  {
    if !Accepted(s, encodes) then
      ing.(totalIngested := ing.totalIngested + 1, serverDropped := ing.serverDropped + 1)
    else
      ing.(totalIngested := ing.totalIngested + 1,
           batches := ing.batches[i := if Flushes(ing, i) then [Entry(ing, s)] else ing.batches[i] + [Entry(ing, s)]])
  }

  /** The batch is sent off when one more span would fill its buffer. */
  predicate Flushes(ing: Ing, i: nat)
    requires i < |ing.batches|
  {
    |ing.batches[i]| + 1 == WRITESPANS_BATCH_SIZE
  }

  function QueueAfterIngest(queue: Queue, ing: Ing, i: nat, s: Span, encodes: bool): Queue
    requires i < |ing.batches|
  {
    if Accepted(s, encodes) && Flushes(ing, i) then queue + [ing.batches[i]] else queue
  }

  function QueueAfterClose(queue: Queue, batch: Batch): Queue {
    if |batch| > 0 then queue + [batch] else queue
  }

  /** The shards' channels. */
  class Channels {
    var queues: seq<Queue>

    constructor (n: nat)
      ensures |queues| == n && forall i :: 0 <= i < n ==> queues[i] == []
    {
      queues := seq(n, _ => []);
    }

    method WriteSpans(shardIdx: nat, ispans: Batch)
      requires shardIdx < |queues|
      modifies this
      ensures queues == old(queues)[shardIdx := old(queues)[shardIdx] + [ispans]]
    {
      queues := queues[shardIdx := queues[shardIdx] + [ispans]];
    }
  }

  class SpanIngestor {
    const store: Channels
    const addr: ByteString
    const defaultTrid: ByteString
    var batches: seq<Batch>
    var totalIngested: nat
    var serverDropped: nat

    ghost function State(): Ing
      reads this
    {
      Ing(addr, defaultTrid, batches, totalIngested, serverDropped)
    }

    constructor (store: Channels, addr: ByteString, defaultTrid: ByteString)
      ensures this.store == store && State() == Opened(addr, defaultTrid, |store.queues|)
    {
      this.store, this.addr, this.defaultTrid := store, addr, defaultTrid;
      batches, totalIngested, serverDropped := seq(|store.queues|, _ => []), 0, 0;
    }

    /** `shardIdx` is the shard the id hashes to; `encodes` is what the msgpack encoder answers. */
    method IngestSpan(span: Span, shardIdx: nat, encodes: bool)
      requires shardIdx < |batches| == |store.queues|
      modifies this, store
      ensures State() == AfterIngest(old(State()), shardIdx, span, encodes)
      ensures store.queues == old(store.queues)[shardIdx :=
                QueueAfterIngest(old(store.queues)[shardIdx], old(State()), shardIdx, span, encodes)]
      ensures if Sendable(Call(span, encodes))
              then |batches[shardIdx]| > 0 && serverDropped == old(serverDropped) &&
                   HandedOn(addr, defaultTrid, span, batches[shardIdx][|batches[shardIdx]| - 1])
              else batches == old(batches) && serverDropped == old(serverDropped) + 1
    {
      ValidIdMeans(span.id);
      totalIngested := totalIngested + 1;
      if !ValidId(span.id) {
        serverDropped := serverDropped + 1;
        return;
      }
      var span' := span;
      if |span.data.tracerId| == 0 {
        span' := span.(data := span.data.(tracerId := defaultTrid));
      }
      if !encodes {
        serverDropped := serverDropped + 1;
        return;
      }
      var incoming := batches[shardIdx];
      if |incoming| + 1 == WRITESPANS_BATCH_SIZE {
        store.WriteSpans(shardIdx, incoming);
        batches := batches[shardIdx := [IncomingSpan(addr, span')]];
      } else {
        batches := batches[shardIdx := incoming + [IncomingSpan(addr, span')]];
      }
    }

    /** Flush what is left and report the totals. */
    method Close(msink: MetricsSink, latencyNs: int)
      requires msink.Valid() && |batches| == |store.queues|
      modifies this, store, msink, msink.wsLatencyCircBuf, msink.wsLatencyCircBuf.buf
      ensures msink.Valid()
      ensures |store.queues| == |old(store.queues)|
      ensures forall i :: 0 <= i < |store.queues| ==>
                store.queues[i] == QueueAfterClose(old(store.queues)[i], old(batches)[i])
      ensures msink.ingestedSpans == old(msink.ingestedSpans) + totalIngested
      ensures msink.serverDropped == old(msink.serverDropped) + serverDropped
      ensures msink.writtenSpans == old(msink.writtenSpans)
      ensures totalIngested == old(totalIngested) && serverDropped == old(serverDropped)
      ensures HostUpdated(old(msink.hostSpanMetrics), msink.hostSpanMetrics, addr, 0, serverDropped)
      ensures msink.wsLatencyCircBuf.history == old(msink.wsLatencyCircBuf.history) + [LatencyMs(latencyNs)]
    {
      FlushAll();
      msink.UpdateIngested(addr, totalIngested, serverDropped, latencyNs);
    }

    method FlushAll()
      requires |batches| == |store.queues|
      modifies this`batches, store
      ensures |store.queues| == |old(store.queues)|
      ensures forall i :: 0 <= i < |store.queues| ==>
                store.queues[i] == QueueAfterClose(old(store.queues)[i], old(batches)[i])
    {
      for shardIdx := 0 to |batches|
        invariant |batches| == |store.queues| == |old(store.queues)| == |old(batches)|
        invariant forall i :: 0 <= i < shardIdx ==>
                    store.queues[i] == QueueAfterClose(old(store.queues)[i], old(batches)[i])
        invariant forall i :: shardIdx <= i < |batches| ==>
                    store.queues[i] == old(store.queues)[i] && batches[i] == old(batches)[i]
      {
        if |batches[shardIdx]| > 0 {
          store.WriteSpans(shardIdx, batches[shardIdx]);
        }
        batches := batches[shardIdx := []];
      }
    }
  }

  function Opened(addr: ByteString, defaultTrid: ByteString, n: nat): Ing {
    Ing(addr, defaultTrid, seq(n, _ => []), 0, 0)
  }

  // ---------------------------------------------------------------- one shard worker

  /** The database after writing a batch, each write succeeding or failing as given. */
  function WriteAll(db: Db, batch: Batch, oks: seq<bool>): Db
    requires |oks| == |batch|
    decreases |batch|
  {
    if |batch| == 0 then db
    else
      var n := |batch| - 1;
      var db' := WriteAll(db, batch[..n], oks[..n]);
      if oks[n] then Written(db', batch[n].span) else db'
  }

  function Count(oks: seq<bool>, b: bool): (n: nat)
    ensures n == multiset(oks)[b]
    decreases |oks|
  {
    assert |oks| > 0 ==> oks == oks[..|oks| - 1] + [oks[|oks| - 1]];
    if |oks| == 0 then 0 else Count(oks[..|oks| - 1], b) + if oks[|oks| - 1] == b then 1 else 0
  }

  lemma {:induction false} CountsAddUp(oks: seq<bool>)
    ensures Count(oks, true) + Count(oks, false) == |oks|
    decreases |oks|
  {
    if |oks| > 0 {
      CountsAddUp(oks[..|oks| - 1]);
    }
  }

  /** One batch taken off a shard's channel; an empty one would have no address to report under. */
  method ProcessBatch(shd: Shard, msink: MetricsSink, spans: Batch, oks: seq<bool>)
    requires |spans| > 0 && |oks| == |spans| && msink.Valid()
    modifies shd, msink
    ensures msink.Valid() && shd.ldb == WriteAll(old(shd.ldb), spans, oks)
    ensures msink.writtenSpans == old(msink.writtenSpans) + Count(oks, true)
    ensures msink.serverDropped == old(msink.serverDropped) + Count(oks, false)
    ensures msink.ingestedSpans == old(msink.ingestedSpans)
    ensures HostUpdated(old(msink.hostSpanMetrics), msink.hostSpanMetrics, spans[0].addr,
                        Count(oks, true), Count(oks, false))
  {
    hide HostUpdated;
    var totalWritten, totalDropped := WriteBatchSpans(shd, spans, oks);
    msink.UpdatePersisted(spans[0].addr, totalWritten, totalDropped);
  }

  method WriteBatchSpans(shd: Shard, spans: Batch, oks: seq<bool>) returns (totalWritten: nat, totalDropped: nat)
    requires |oks| == |spans|
    modifies shd
    ensures shd.ldb == WriteAll(old(shd.ldb), spans, oks)
    ensures totalWritten == Count(oks, true) && totalDropped == Count(oks, false)
  {
    hide Written;
    totalWritten, totalDropped := 0, 0;
    for spanIdx := 0 to |spans|
      invariant shd.ldb == WriteAll(old(shd.ldb), spans[..spanIdx], oks[..spanIdx])
      invariant totalWritten == Count(oks[..spanIdx], true) && totalDropped == Count(oks[..spanIdx], false)
    {
      assert spans[..spanIdx + 1][..spanIdx] == spans[..spanIdx] && oks[..spanIdx + 1][..spanIdx] == oks[..spanIdx];
      var ok := shd.WriteSpan(spans[spanIdx].span, oks[spanIdx]);
      if !ok {
        totalDropped := totalDropped + 1;
      } else {
        totalWritten := totalWritten + 1;
      }
    }
    assert spans[..|spans|] == spans && oks[..|oks|] == oks;
  }

  // ---------------------------------------------------------------- exactly once, in order

  datatype Call = Call(span: Span, encodes: bool)

  /** Ids are routed to existing shards. */
  ghost predicate Routes(route: SpanId -> int, n: nat) {
    forall id :: 0 <= route(id) < n
  }

  /** The ingestor after a sequence of calls, each span routed by its id. */
  ghost function AfterCalls(ing: Ing, route: SpanId -> int, calls: seq<Call>): (r: Ing)
    requires Routes(route, |ing.batches|)
    ensures |r.batches| == |ing.batches| && r.addr == ing.addr && r.defaultTrid == ing.defaultTrid
    decreases |calls|
  {
    if |calls| == 0 then ing
    else
      var c := calls[|calls| - 1];
      AfterIngest(AfterCalls(ing, route, calls[..|calls| - 1]), route(c.span.id), c.span, c.encodes)
  }

  /** The batches those calls sent to one shard, in order. */
  ghost function SentTo(ing: Ing, route: SpanId -> int, calls: seq<Call>, i: nat): Queue
    requires i < |ing.batches| && Routes(route, |ing.batches|)
    decreases |calls|
  {
    if |calls| == 0 then []
    else
      var before, c := calls[..|calls| - 1], calls[|calls| - 1];
      if route(c.span.id) != i then SentTo(ing, route, before, i)
      else QueueAfterIngest(SentTo(ing, route, before, i), AfterCalls(ing, route, before), i, c.span, c.encodes)
  }

  /** The spans the shard should get: those accepted and routed to it, in the order of the calls. */
  ghost function DueTo(ing: Ing, route: SpanId -> int, calls: seq<Call>, i: nat): Batch
    decreases |calls|
  {
    if |calls| == 0 then []
    else DueTo(ing, route, calls[..|calls| - 1], i) + DueFor(ing, route, calls[|calls| - 1], i)
  }

  /** What one call adds to that. */
  ghost function DueFor(ing: Ing, route: SpanId -> int, c: Call, i: nat): Batch {
    if Accepted(c.span, c.encodes) && route(c.span.id) == i then [Entry(ing, c.span)] else []
  }

  /** The span has an id of sixteen bytes, not all zero, and can be encoded. */
  ghost predicate Sendable(c: Call) {
    |c.span.id| == 16 && (exists k :: 0 <= k < 16 && c.span.id[k] != 0) && c.encodes
  }

  /** The call is of such a span, and its id belongs to the shard. */
  ghost predicate IsDue(c: Call, route: SpanId -> int, i: nat) {
    Sendable(c) && route(c.span.id) == i
  }

  /** The spans of those calls, as they were received. */
  ghost function DueSpans(route: SpanId -> int, calls: seq<Call>, i: nat): (spans: seq<Span>)
    decreases |calls|
  {
    if |calls| == 0 then []
    else
      var c := calls[|calls| - 1];
      DueSpans(route, calls[..|calls| - 1], i) + if IsDue(c, route, i) then [c.span] else []
  }

  /**
   * What becomes of a received span: it goes on under the ingestor's address, unchanged but for
   * an empty tracer id, which is replaced by the default.
   */
  ghost predicate HandedOn(addr: ByteString, trid: ByteString, s: Span, e: IncomingSpan) {
    e.addr == addr && e.span.id == s.id &&
    e.span.data.begin == s.data.begin && e.span.data.end == s.data.end &&
    e.span.data.description == s.data.description && e.span.data.parents == s.data.parents &&
    e.span.data.info == s.data.info && e.span.data.annotations == s.data.annotations &&
    (s.data.tracerId != [] ==> e.span.data.tracerId == s.data.tracerId) &&
    (s.data.tracerId == [] ==> e.span.data.tracerId == trid)
  }

  /** The entries are the spans handed on, one for one and in order. */
  ghost predicate AllHandedOn(addr: ByteString, trid: ByteString, spans: seq<Span>, b: Batch) {
    |b| == |spans| && forall k :: 0 <= k < |b| ==> HandedOn(addr, trid, spans[k], b[k])
  }

  /** What is due to a shard, in terms of the calls alone. */
  lemma {:induction false} DueIsHandedOn(ing: Ing, route: SpanId -> int, calls: seq<Call>, i: nat)
    ensures AllHandedOn(ing.addr, ing.defaultTrid, DueSpans(route, calls, i), DueTo(ing, route, calls, i))
    decreases |calls|
  {
    hide ValidId;
    if |calls| > 0 {
      DueIsHandedOn(ing, route, calls[..|calls| - 1], i);
      ValidIdMeans(calls[|calls| - 1].span.id);
    }
  }

  function Flat(q: Queue): Batch
    decreases |q|
  {
    if |q| == 0 then [] else Flat(q[..|q| - 1]) + q[|q| - 1]
  }

  lemma FlatAppend(q: Queue, b: Batch)
    ensures Flat(q + [b]) == Flat(q) + b
  {
    assert (q + [b])[..|q|] == q;
  }

  /** Batches worth sending: neither empty nor full to the last place. */
  ghost predicate ProperBatches(q: Queue) {
    forall b :: b in q ==> 0 < |b| < WRITESPANS_BATCH_SIZE
  }

  /** The batch that a call of `IngestSpan` sends off; empty if it sends none. */
  function Flushed(ing: Ing, i: nat, s: Span, encodes: bool): Batch
    requires i < |ing.batches|
  {
    if Accepted(s, encodes) && Flushes(ing, i) then ing.batches[i] else []
  }

  lemma QueueGetsFlushed(q: Queue, ing: Ing, i: nat, s: Span, encodes: bool)
    requires i < |ing.batches|
    ensures Flat(QueueAfterIngest(q, ing, i, s, encodes)) == Flat(q) + Flushed(ing, i, s, encodes)
  {
    FlatAppend(q, ing.batches[i]);
  }

  /** One call keeps this: the spans sent to a shard and the batch in hand are what is due there. */
  lemma CallKeepsDue(ing: Ing, route: SpanId -> int, due: Batch, sent: Batch, c: Call, i: nat)
    requires i < |ing.batches| && 0 <= route(c.span.id) < |ing.batches|
    requires sent + ing.batches[i] == due
    ensures var k := route(c.span.id);
            sent + (if k == i then Flushed(ing, i, c.span, c.encodes) else []) +
            AfterIngest(ing, k, c.span, c.encodes).batches[i] == due + DueFor(ing, route, c, i)
  {
    var e := [Entry(ing, c.span)];
    assert sent + ing.batches[i] + e == sent + (ing.batches[i] + e);
    assert sent + [] == sent && due + [] == due;
  }

  /** Batches sent and the batch in hand are together exactly what is due. */
  lemma {:induction false} SentIsDue(ing: Ing, route: SpanId -> int, calls: seq<Call>, i: nat)
    requires i < |ing.batches| && ing.batches[i] == [] && Routes(route, |ing.batches|)
    ensures Flat(SentTo(ing, route, calls, i)) + AfterCalls(ing, route, calls).batches[i] == DueTo(ing, route, calls, i)
    decreases |calls|
  {
    if |calls| > 0 {
      var before, c := calls[..|calls| - 1], calls[|calls| - 1];
      SentIsDue(ing, route, before, i);
      var sent, x := SentTo(ing, route, before, i), AfterCalls(ing, route, before);
      hide AfterIngest, QueueAfterIngest, Flushed, Flat;
      CallKeepsDue(x, route, DueTo(ing, route, before, i), Flat(sent), c, i);
      assert DueFor(x, route, c, i) == DueFor(ing, route, c, i);
      QueueGetsFlushed(sent, x, i, c.span, c.encodes);
      assert Flat(sent) + [] == Flat(sent);
    }
  }

  lemma {:induction false} SentAreProper(ing: Ing, route: SpanId -> int, calls: seq<Call>, i: nat)
    requires i < |ing.batches| && ing.batches[i] == [] && Routes(route, |ing.batches|)
    ensures forall b :: b in SentTo(ing, route, calls, i) ==> |b| == WRITESPANS_BATCH_SIZE - 1
    ensures |AfterCalls(ing, route, calls).batches[i]| < WRITESPANS_BATCH_SIZE
    decreases |calls|
  {
    if |calls| > 0 {
      SentAreProper(ing, route, calls[..|calls| - 1], i);
    }
  }

  /** The counters are the number of calls and the number of spans not handed on. */
  lemma {:induction false} CallsCounted(ing: Ing, route: SpanId -> int, calls: seq<Call>)
    requires Routes(route, |ing.batches|)
    ensures var r := AfterCalls(ing, route, calls);
            r.totalIngested == ing.totalIngested + |calls| &&
            r.serverDropped == ing.serverDropped + Rejected(calls)
    decreases |calls|
  {
    hide ValidId;
    if |calls| > 0 {
      CallsCounted(ing, route, calls[..|calls| - 1]);
      ValidIdMeans(calls[|calls| - 1].span.id);
    }
  }

  ghost function Rejected(calls: seq<Call>): nat
    decreases |calls|
  {
    if |calls| == 0 then 0 else Rejected(calls[..|calls| - 1]) + if Sendable(calls[|calls| - 1]) then 0 else 1
  }

  /**
   * A closed ingestor has sent each accepted span exactly once, in order and unchanged but for a
   * missing tracer id, to the shard its id belongs to; each batch but the last is of 127 spans,
   * and none is empty.
   */
  lemma ClosedSendsAll(addr: ByteString, trid: ByteString, n: nat, route: SpanId -> int, calls: seq<Call>, i: nat)
    requires i < n && Routes(route, n)
    ensures var ing := Opened(addr, trid, n);
            var sent := QueueAfterClose(SentTo(ing, route, calls, i), AfterCalls(ing, route, calls).batches[i]);
            AllHandedOn(addr, trid, DueSpans(route, calls, i), Flat(sent)) &&
            Flat(sent) == DueTo(ing, route, calls, i) && ProperBatches(sent) &&
            forall k :: 0 <= k < |sent| - 1 ==> |sent[k]| == 127
  {
    var ing := Opened(addr, trid, n);
    SentIsDue(ing, route, calls, i);
    SentAreProper(ing, route, calls, i);
    FlatAppend(SentTo(ing, route, calls, i), AfterCalls(ing, route, calls).batches[i]);
    DueIsHandedOn(ing, route, calls, i);
  }
}
