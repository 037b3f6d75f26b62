/**
 * Every interleaving of ingestors, shard workers and reaping as one state machine (datastore.go).
 * A step is one access to shared state: a send on a channel or a receive from one, one write to
 * or delete from a database, or one update of the global counters.
 */
module Pipeline {
  import opened Bytes
  import opened Spans
  import opened LevelDb
  import opened Index
  import opened Ingest

  // ---------------------------------------------------------------- the machine

  /** How far an ingestor has come: open, flushing the batch of shard `next`, or done and counted. */
  datatype Phase = Open | Closing(next: nat) | Closed

  /** An ingestor, with the calls made of it so far. */
  datatype Client = Client(ing: Ing, phase: Phase, calls: seq<Call>)

  /** A batch in a channel; the sender is kept for the sake of the statements below. */
  datatype Sent = Sent(from: nat, spans: Batch)

  type Channel = seq<Sent>

  /** A shard's goroutine: waiting, or in the middle of a batch with its local counts. */
  datatype Worker = Idle | Busy(job: Sent, done: nat, wrote: nat, lost: nat)

  /** A span on its way, and the ingestor that sent it. */
  datatype Item = Item(from: nat, entry: IncomingSpan)

  datatype World = World(
    clients: seq<Client>,
    channels: seq<Channel>,
    workers: seq<Worker>,
    processed: seq<seq<Item>>, // per shard, every write tried so far
    dbs: seq<Db>,
    ingested: nat,
    written: nat,
    dropped: nat)

  datatype Event =
    | Connect(addr: ByteString, trid: ByteString)
    | Receive(j: nat, span: Span, encodes: bool)
    | StartClose(j: nat)
    | FlushNext(j: nat)
    | Report(j: nat)
    | TakeBatch(i: nat)
    | WriteNext(i: nat, ok: bool)
    | CountBatch(i: nat)
    | Expire(i: nat, expired: Span)

  ghost predicate Sized(w: World) {
    |w.channels| == |w.workers| == |w.processed| == |w.dbs| &&
    forall j :: 0 <= j < |w.clients| ==> |w.clients[j].ing.batches| == |w.channels|
  }

  /** Only an idle worker takes a batch or reaps; only spans read back from the shard are deleted. */
  ghost predicate Enabled(w: World, e: Event)
    requires Sized(w)
  {
    match e
    case Connect(_, _) => true
    case Receive(j, _, _) => j < |w.clients| && w.clients[j].phase == Open
    case StartClose(j) => j < |w.clients| && w.clients[j].phase == Open
    case FlushNext(j) => j < |w.clients| && w.clients[j].phase.Closing? && w.clients[j].phase.next < |w.channels|
    case Report(j) => j < |w.clients| && w.clients[j].phase == Closing(|w.channels|)
    case TakeBatch(i) => i < |w.workers| && w.workers[i].Idle? && |w.channels[i]| > 0
    case WriteNext(i, _) => i < |w.workers| && w.workers[i].Busy? && w.workers[i].done < |w.workers[i].job.spans|
    case CountBatch(i) => i < |w.workers| && w.workers[i].Busy? && w.workers[i].done == |w.workers[i].job.spans|
    case Expire(i, s) => i < |w.workers| && w.workers[i].Idle? && Stored(w.dbs[i], s)
  }

  /** Send a batch unless it is empty. */
  function Send(ch: Channel, j: nat, b: Batch): Channel {
    if |b| > 0 then ch + [Sent(j, b)] else ch
  }

  ghost function Step(w: World, route: SpanId -> int, e: Event): (w': World)
    requires Sized(w) && Routes(route, |w.channels|) && Enabled(w, e)
    ensures Sized(w') && |w'.channels| == |w.channels|
  {
    match e
    case Connect(addr, trid) => w.(clients := w.clients + [Client(Opened(addr, trid, |w.channels|), Open, [])])
    case Receive(j, s, encodes) =>
      var c, i := w.clients[j], route(s.id);
      w.(clients := w.clients[j := Client(AfterIngest(c.ing, i, s, encodes), Open, c.calls + [Call(s, encodes)])],
         channels := w.channels[i := Send(w.channels[i], j, Flushed(c.ing, i, s, encodes))])
    case StartClose(j) => w.(clients := w.clients[j := w.clients[j].(phase := Closing(0))])
    case FlushNext(j) =>
      var c := w.clients[j];
      var i := c.phase.next;
      w.(clients := w.clients[j := Client(c.ing.(batches := c.ing.batches[i := []]), Closing(i + 1), c.calls)],
         channels := w.channels[i := Send(w.channels[i], j, c.ing.batches[i])])
    case Report(j) =>
      var ing := w.clients[j].ing;
      w.(clients := w.clients[j := w.clients[j].(phase := Closed)],
         ingested := w.ingested + ing.totalIngested,
         dropped := w.dropped + ing.serverDropped)
    case TakeBatch(i) =>
      w.(channels := w.channels[i := w.channels[i][1..]],
         workers := w.workers[i := Busy(w.channels[i][0], 0, 0, 0)])
    case WriteNext(i, ok) =>
      var b := w.workers[i];
      var entry := b.job.spans[b.done];
      var wrote, lost := b.wrote + (if ok then 1 else 0), b.lost + if ok then 0 else 1;
      w.(workers := w.workers[i := Busy(b.job, b.done + 1, wrote, lost)],
         processed := w.processed[i := w.processed[i] + [Item(b.job.from, entry)]],
         dbs := w.dbs[i := if ok then Written(w.dbs[i], entry.span) else w.dbs[i]])
    case CountBatch(i) =>
      w.(workers := w.workers[i := Idle],
         written := w.written + w.workers[i].wrote,
         dropped := w.dropped + w.workers[i].lost)
    case Expire(i, s) => w.(dbs := w.dbs[i := Deleted(w.dbs[i], s)])
  }

  ghost predicate EnabledRun(w: World, route: SpanId -> int, run: seq<Event>)
    requires Sized(w) && Routes(route, |w.channels|)
    decreases |run|
  {
    |run| == 0 || (Enabled(w, run[0]) && EnabledRun(Step(w, route, run[0]), route, run[1..]))
  }

  ghost function After(w: World, route: SpanId -> int, run: seq<Event>): (w': World)
    requires Sized(w) && Routes(route, |w.channels|) && EnabledRun(w, route, run)
    ensures Sized(w') && |w'.channels| == |w.channels|
    decreases |run|
  {
    if |run| == 0 then w else After(Step(w, route, run[0]), route, run[1..])
  }

  /** A fresh store: every shard holds its own description and nothing else. */
  ghost predicate Fresh(w: World) {
    Sized(w) && w.clients == [] && w.ingested == w.written == w.dropped == 0 &&
    forall i :: 0 <= i < |w.channels| ==>
      w.channels[i] == [] && w.workers[i] == Idle && w.processed[i] == [] && w.dbs[i].Keys == {INFO_KEY}
  }

  /** What the channels hold, seen without the senders, changes as `IngestSpan` says. */
  lemma ReceiveIsIngestSpan(ch: Channel, j: nat, ing: Ing, i: nat, s: Span, encodes: bool)
    requires i < |ing.batches|
    ensures Batches(Send(ch, j, Flushed(ing, i, s, encodes))) == QueueAfterIngest(Batches(ch), ing, i, s, encodes)
  {
  }

  function Batches(ch: Channel): Queue {
    seq(|ch|, k requires 0 <= k < |ch| => ch[k].spans)
  }

  // ---------------------------------------------------------------- streams

  function Items(from: nat, b: Batch): (s: seq<Item>)
    ensures |s| == |b|
  {
    seq(|b|, k requires 0 <= k < |b| => Item(from, b[k]))
  }

  function ChannelItems(ch: Channel): seq<Item> {
    if |ch| == 0 then [] else ChannelItems(ch[..|ch| - 1]) + Items(ch[|ch| - 1].from, ch[|ch| - 1].spans)
  }

  /** What a worker still has to write of its batch. */
  function WorkerItems(b: Worker): seq<Item> {
    match b
    case Idle => []
    case Busy(job, done, _, _) => if done <= |job.spans| then Items(job.from, job.spans[done..]) else []
  }

  /** Everything ever sent to a shard, in order: processed, in the worker's hands, in the channel. */
  function Flow(processed: seq<Item>, b: Worker, ch: Channel): seq<Item> {
    processed + WorkerItems(b) + ChannelItems(ch)
  }

  function Stream(w: World, i: nat): seq<Item>
    requires i < |w.channels| == |w.workers| == |w.processed|
  {
    Flow(w.processed[i], w.workers[i], w.channels[i])
  }

  /** What an event adds to that. */
  ghost function SentNow(w: World, route: SpanId -> int, e: Event, i: nat): seq<Item>
    requires Sized(w) && Routes(route, |w.channels|) && Enabled(w, e) && i < |w.channels|
  {
    match e
    case Receive(j, s, encodes) => if route(s.id) == i then Items(j, Flushed(w.clients[j].ing, i, s, encodes)) else []
    case FlushNext(j) => if w.clients[j].phase.next == i then Items(j, w.clients[j].ing.batches[i]) else []
    case _ => []
  }

  lemma SendFlows(done: seq<Item>, b: Worker, ch: Channel, j: nat, batch: Batch)
    ensures Flow(done, b, Send(ch, j, batch)) == Flow(done, b, ch) + Items(j, batch)
  {
    assert (ch + [Sent(j, batch)])[..|ch|] == ch;
  }

  lemma {:induction false} FirstOut(ch: Channel)
    requires |ch| > 0
    ensures ChannelItems(ch) == Items(ch[0].from, ch[0].spans) + ChannelItems(ch[1..])
    decreases |ch|
  {
    if |ch| > 1 {
      var n := |ch| - 1;
      FirstOut(ch[..n]);
      assert ch[..n][1..] == ch[1..][..n - 1];
    }
  }

  lemma TakeFlows(done: seq<Item>, ch: Channel)
    requires |ch| > 0
    ensures Flow(done, Busy(ch[0], 0, 0, 0), ch[1..]) == Flow(done, Idle, ch)
  {
    FirstOut(ch);
    assert ch[0].spans[0..] == ch[0].spans;
  }

  lemma WriteFlows(done: seq<Item>, job: Sent, k: nat, wrote: nat, lost: nat, wrote': nat, lost': nat, ch: Channel)
    requires k < |job.spans|
    ensures Flow(done + [Item(job.from, job.spans[k])], Busy(job, k + 1, wrote', lost'), ch) ==
            Flow(done, Busy(job, k, wrote, lost), ch)
  {
    assert Items(job.from, job.spans[k..]) == [Item(job.from, job.spans[k])] + Items(job.from, job.spans[k + 1..]);
  }

  lemma CountFlows(done: seq<Item>, b: Worker, ch: Channel)
    requires b.Busy? && b.done == |b.job.spans|
    ensures Flow(done, Idle, ch) == Flow(done, b, ch)
  {
    assert WorkerItems(b) == [];
  }

  /** No step reorders, repeats or loses anything on its way to a shard. */
  lemma StepStream(w: World, route: SpanId -> int, e: Event, i: nat)
    requires Sized(w) && Routes(route, |w.channels|) && Enabled(w, e) && i < |w.channels|
    ensures Stream(Step(w, route, e), i) == Stream(w, i) + SentNow(w, route, e, i)
  {
    hide Flow, Items, Send, Flushed, AfterIngest, Written, Deleted;
    match e {
      case Receive(j, s, encodes) =>
        SendFlows(w.processed[i], w.workers[i], w.channels[i], j, Flushed(w.clients[j].ing, i, s, encodes));
      case FlushNext(j) =>
        SendFlows(w.processed[i], w.workers[i], w.channels[i], j, w.clients[j].ing.batches[i]);
      case TakeBatch(k) =>
        TakeFlows(w.processed[k], w.channels[k]);
      case WriteNext(k, ok) =>
        var b, b' := w.workers[k], Step(w, route, e).workers[k];
        WriteFlows(w.processed[k], b.job, b.done, b.wrote, b.lost, b'.wrote, b'.lost, w.channels[k]);
      case CountBatch(k) =>
        CountFlows(w.processed[k], w.workers[k], w.channels[k]);
      case _ =>
    }
  }

  // ---------------------------------------------------------------- exactly once, in order

  /** The entries of one ingestor in a stream, in order. */
  function Mine(s: seq<Item>, j: nat): Batch {
    if |s| == 0 then [] else Mine(s[..|s| - 1], j) + if s[|s| - 1].from == j then [s[|s| - 1].entry] else []
  }

  lemma {:induction false} MineConcat(a: seq<Item>, b: seq<Item>, j: nat)
    ensures Mine(a + b, j) == Mine(a, j) + Mine(b, j)
    decreases |b|
  {
    if |b| == 0 {
      assert a + b == a;
    } else {
      var n := |b| - 1;
      MineConcat(a, b[..n], j);
      assert (a + b)[..|a| + n] == a + b[..n];
    }
  }

  lemma {:induction false} MineOfItems(from: nat, b: Batch, j: nat)
    ensures Mine(Items(from, b), j) == if from == j then b else []
    decreases |b|
  {
    if |b| > 0 {
      var n := |b| - 1;
      MineOfItems(from, b[..n], j);
      assert Items(from, b)[..n] == Items(from, b[..n]);
      assert b == b[..n] + [b[n]];
    }
  }

  ghost predicate FromBelow(s: seq<Item>, n: nat) {
    forall k :: 0 <= k < |s| ==> s[k].from < n
  }

  lemma {:induction false} MineOfNobody(s: seq<Item>, j: nat)
    requires FromBelow(s, j)
    ensures Mine(s, j) == []
    decreases |s|
  {
    if |s| > 0 {
      MineOfNobody(s[..|s| - 1], j);
    }
  }

  /** What an ingestor has sent to a shard and holds for it is exactly what is due there, in order. */
  ghost predicate Delivers(stream: seq<Item>, c: Client, route: SpanId -> int, j: nat, i: nat)
    requires i < |c.ing.batches|
  {
    Mine(stream, j) + c.ing.batches[i] == DueTo(c.ing, route, c.calls, i)
  }

  ghost predicate AllDelivers(w: World, route: SpanId -> int)
    requires Sized(w)
  {
    forall i :: 0 <= i < |w.channels| ==>
      FromBelow(Stream(w, i), |w.clients|) &&
      forall j :: 0 <= j < |w.clients| ==> Delivers(Stream(w, i), w.clients[j], route, j, i)
  }

  lemma NothingSent(stream: seq<Item>, c: Client, c': Client, route: SpanId -> int, j: nat, i: nat)
    requires i < |c.ing.batches| && c'.ing == c.ing && c'.calls == c.calls && Delivers(stream, c, route, j, i)
    ensures Delivers(stream + [], c', route, j, i)
  {
    assert stream + [] == stream;
  }

  lemma OthersSend(stream: seq<Item>, c: Client, route: SpanId -> int, j: nat, i: nat, from: nat, b: Batch)
    requires i < |c.ing.batches| && Delivers(stream, c, route, j, i) && from != j
    ensures Delivers(stream + Items(from, b), c, route, j, i)
  {
    MineConcat(stream, Items(from, b), j);
    MineOfItems(from, b, j);
  }

  lemma {:induction false} DueSame(a: Ing, b: Ing, route: SpanId -> int, calls: seq<Call>, i: nat)
    requires a.addr == b.addr && a.defaultTrid == b.defaultTrid
    ensures DueTo(a, route, calls, i) == DueTo(b, route, calls, i)
    decreases |calls|
  {
    if |calls| > 0 {
      DueSame(a, b, route, calls[..|calls| - 1], i);
    }
  }

  lemma ReceiveDelivers(stream: seq<Item>, c: Client, c': Client, route: SpanId -> int, j: nat, i: nat, call: Call)
    requires i < |c.ing.batches| && 0 <= route(call.span.id) < |c.ing.batches| && Delivers(stream, c, route, j, i)
    requires c'.ing == AfterIngest(c.ing, route(call.span.id), call.span, call.encodes) && c'.calls == c.calls + [call]
    ensures var b := if route(call.span.id) == i then Flushed(c.ing, i, call.span, call.encodes) else [];
            Delivers(stream + Items(j, b), c', route, j, i)
  {
    var b := if route(call.span.id) == i then Flushed(c.ing, i, call.span, call.encodes) else [];
    MineConcat(stream, Items(j, b), j);
    MineOfItems(j, b, j);
    CallKeepsDue(c.ing, route, DueTo(c.ing, route, c.calls, i), Mine(stream, j), call, i);
    assert c'.calls[..|c.calls|] == c.calls;
    DueSame(c.ing, c'.ing, route, c.calls, i);
    assert DueFor(c'.ing, route, call, i) == DueFor(c.ing, route, call, i);
  }

  lemma FlushDelivers(stream: seq<Item>, c: Client, c': Client, route: SpanId -> int, j: nat, i: nat)
    requires i < |c.ing.batches| && Delivers(stream, c, route, j, i)
    requires c'.ing == c.ing.(batches := c.ing.batches[i := []]) && c'.calls == c.calls
    ensures Delivers(stream + Items(j, c.ing.batches[i]), c', route, j, i)
  {
    var b := c.ing.batches[i];
    MineConcat(stream, Items(j, b), j);
    MineOfItems(j, b, j);
    DueSame(c.ing, c'.ing, route, c.calls, i);
    assert Mine(stream, j) + b + [] == Mine(stream, j) + b;
  }

  lemma FlushElsewhere(stream: seq<Item>, c: Client, c': Client, route: SpanId -> int, j: nat, i: nat, k: nat)
    requires i < |c.ing.batches| && k < |c.ing.batches| && k != i && Delivers(stream, c, route, j, i)
    requires c'.ing == c.ing.(batches := c.ing.batches[k := []]) && c'.calls == c.calls
    ensures Delivers(stream + [], c', route, j, i)
  {
    DueSame(c.ing, c'.ing, route, c.calls, i);
    assert stream + [] == stream;
  }

  lemma ConnectDelivers(stream: seq<Item>, c: Client, route: SpanId -> int, j: nat, i: nat)
    requires i < |c.ing.batches| && c.ing.batches[i] == [] && c.calls == [] && FromBelow(stream, j)
    ensures Delivers(stream + [], c, route, j, i)
  {
    assert stream + [] == stream;
    MineOfNobody(stream, j);
  }

  lemma NoItems(from: nat)
    ensures Items(from, []) == []
  {
  }

  lemma StepDelivers(w: World, route: SpanId -> int, e: Event)
    requires Sized(w) && Routes(route, |w.channels|) && Enabled(w, e) && AllDelivers(w, route)
    ensures AllDelivers(Step(w, route, e), route)
  {
    hide Stream, Delivers;
    var w' := Step(w, route, e);
    forall i | 0 <= i < |w.channels|
      ensures FromBelow(Stream(w', i), |w'.clients|)
      ensures forall j :: 0 <= j < |w'.clients| ==> Delivers(Stream(w', i), w'.clients[j], route, j, i)
    {
      StepStream(w, route, e, i);
      assert FromBelow(Stream(w, i), |w.clients|);
      FromAppends(w, route, e, i, Stream(w, i));
      forall j | 0 <= j < |w'.clients| ensures Delivers(Stream(w', i), w'.clients[j], route, j, i) {
        StepDeliversTo(w, route, e, j, i, Stream(w, i));
      }
    }
  }

  lemma FromAppends(w: World, route: SpanId -> int, e: Event, i: nat, stream: seq<Item>)
    requires Sized(w) && Routes(route, |w.channels|) && Enabled(w, e) && i < |w.channels|
    requires FromBelow(stream, |w.clients|)
    ensures FromBelow(stream + SentNow(w, route, e, i), |Step(w, route, e).clients|)
  {
  }

  lemma StepDeliversTo(w: World, route: SpanId -> int, e: Event, j: nat, i: nat, stream: seq<Item>)
    requires Sized(w) && Routes(route, |w.channels|) && Enabled(w, e) && i < |w.channels|
    requires j < |Step(w, route, e).clients| && FromBelow(stream, |w.clients|)
    requires j < |w.clients| ==> Delivers(stream, w.clients[j], route, j, i)
    ensures Delivers(stream + SentNow(w, route, e, i), Step(w, route, e).clients[j], route, j, i)
  {
    hide Delivers, FromBelow, Items, Flushed, AfterIngest, Send, Written, Deleted;
    var c' := Step(w, route, e).clients[j];
    if e.Connect? && j == |w.clients| {
      ConnectDelivers(stream, c', route, j, i);
    } else {
      var c := w.clients[j];
      match e {
        case Receive(k, s, encodes) =>
          NoItems(j);
          if k == j {
            ReceiveDelivers(stream, c, c', route, j, i, Call(s, encodes));
          } else {
            var b := if route(s.id) == i then Flushed(w.clients[k].ing, i, s, encodes) else [];
            OthersSend(stream, c, route, j, i, k, b);
            NoItems(k);
          }
        case FlushNext(k) =>
          var n := w.clients[k].phase.next;
          if k != j {
            OthersSend(stream, c, route, j, i, k, if n == i then w.clients[k].ing.batches[i] else []);
            NoItems(k);
          } else if n == i {
            FlushDelivers(stream, c, c', route, j, i);
          } else {
            FlushElsewhere(stream, c, c', route, j, i, n);
          }
        case _ =>
          NothingSent(stream, c, c', route, j, i);
      }
    }
  }

  /**
   * Over every run: each ingestor's accepted spans reach the shards their ids belong to exactly
   * once and in order, however the ingestors and workers interleave; what is not yet sent is in
   * the ingestor's hands.
   */
  lemma {:induction false} RunDelivers(w: World, route: SpanId -> int, run: seq<Event>)
    requires Sized(w) && Routes(route, |w.channels|) && EnabledRun(w, route, run) && AllDelivers(w, route)
    ensures AllDelivers(After(w, route, run), route)
    decreases |run|
  {
    if |run| > 0 {
      StepDelivers(w, route, run[0]);
      RunDelivers(Step(w, route, run[0]), route, run[1..]);
    }
  }

  // ---------------------------------------------------------------- a batch without interruption

  lemma {:induction false} AfterAppend(w: World, route: SpanId -> int, run: seq<Event>, e: Event)
    requires Sized(w) && Routes(route, |w.channels|) && EnabledRun(w, route, run) && Enabled(After(w, route, run), e)
    ensures EnabledRun(w, route, run + [e]) && After(w, route, run + [e]) == Step(After(w, route, run), route, e)
    decreases |run|
  {
    hide Step, Enabled;
    if |run| == 0 {
      assert run + [e] == [e] && [e][1..] == [];
    } else {
      assert (run + [e])[1..] == run[1..] + [e];
      AfterAppend(Step(w, route, run[0]), route, run[1..], e);
    }
  }

  function Writes(i: nat, oks: seq<bool>): (run: seq<Event>) {
    seq(|oks|, k requires 0 <= k < |oks| => WriteNext(i, oks[k]))
  }

  /** The worker has tried the first writes of its batch, with these outcomes, and nothing else has happened. */
  ghost predicate Wrote(w: World, w': World, i: nat, job: Sent, oks: seq<bool>)
    requires Sized(w) && Sized(w') && i < |w.dbs| == |w'.dbs| && |oks| <= |job.spans|
  {
    w'.workers == w.workers[i := Busy(job, |oks|, Count(oks, true), Count(oks, false))] &&
    w'.dbs == w.dbs[i := WriteAll(w.dbs[i], job.spans[..|oks|], oks)] &&
    w'.channels == w.channels && w'.clients == w.clients &&
    w'.ingested == w.ingested && w'.written == w.written && w'.dropped == w.dropped
  }

  lemma {:induction false} WritesInOneGo(w: World, route: SpanId -> int, i: nat, job: Sent, oks: seq<bool>)
    requires Sized(w) && Routes(route, |w.channels|) && i < |w.dbs| && w.workers[i] == Busy(job, 0, 0, 0)
    requires |oks| <= |job.spans|
    ensures EnabledRun(w, route, Writes(i, oks)) && Wrote(w, After(w, route, Writes(i, oks)), i, job, oks)
    decreases |oks|
  {
    hide Written;
    if |oks| == 0 {
      assert w.dbs[i := w.dbs[i]] == w.dbs && w.workers[i := w.workers[i]] == w.workers;
    } else {
      var n := |oks| - 1;
      WritesInOneGo(w, route, i, job, oks[..n]);
      var w' := After(w, route, Writes(i, oks[..n]));
      assert Writes(i, oks) == Writes(i, oks[..n]) + [WriteNext(i, oks[n])];
      AfterAppend(w, route, Writes(i, oks[..n]), WriteNext(i, oks[n]));
      hide After, EnabledRun;
      OneMoreWrite(w, w', route, i, job, oks);
    }
  }

  lemma OneMoreWrite(w: World, w': World, route: SpanId -> int, i: nat, job: Sent, oks: seq<bool>)
    requires Sized(w) && Sized(w') && i < |w.dbs| == |w'.dbs| && Routes(route, |w'.channels|)
    requires 0 < |oks| <= |job.spans| && Wrote(w, w', i, job, oks[..|oks| - 1])
    ensures Enabled(w', WriteNext(i, oks[|oks| - 1]))
    ensures Wrote(w, Step(w', route, WriteNext(i, oks[|oks| - 1])), i, job, oks)
  {
    hide Written;
    var n := |oks| - 1;
    assert job.spans[..|oks|][..n] == job.spans[..n];
  }

  /** Taken without interruption, a worker's steps on a batch are what `ProcessBatch` does in one go. */
  lemma BatchInOneGo(w: World, route: SpanId -> int, i: nat, oks: seq<bool>)
    requires Sized(w) && Routes(route, |w.channels|) && Enabled(w, TakeBatch(i)) && |oks| == |w.channels[i][0].spans|
    ensures var run := [TakeBatch(i)] + Writes(i, oks) + [CountBatch(i)];
            EnabledRun(w, route, run) &&
            var w' := After(w, route, run);
            w'.dbs == w.dbs[i := WriteAll(w.dbs[i], w.channels[i][0].spans, oks)] &&
            w'.channels == w.channels[i := w.channels[i][1..]] && w'.workers[i] == Idle &&
            w'.written == w.written + Count(oks, true) && w'.dropped == w.dropped + Count(oks, false)
  {
    hide Written, Count, WriteAll;
    var job, w1 := w.channels[i][0], Step(w, route, TakeBatch(i));
    WritesInOneGo(w1, route, i, job, oks);
    assert job.spans[..|oks|] == job.spans;
    var run := [TakeBatch(i)] + Writes(i, oks);
    assert run[1..] == Writes(i, oks);
    assert EnabledRun(w, route, run) && After(w, route, run) == After(w1, route, Writes(i, oks));
    AfterAppend(w, route, run, CountBatch(i));
  }
}
