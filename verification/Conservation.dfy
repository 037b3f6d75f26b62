/**
 * What every run of the pipeline conserves: the entries on their way to each shard, the counters,
 * the routing of spans, and the indexes that queries rely on.
 */
module Conservation {
  import opened Bytes
  import opened Spans
  import opened Keys
  import opened LevelDb
  import opened Index
  import opened Answers
  import opened Ingest
  import opened Pipeline

  // ---------------------------------------------------------------- nothing lost, nothing doubled

  function EntriesOf(s: seq<Item>): (b: Batch) {
    seq(|s|, k requires 0 <= k < |s| => s[k].entry)
  }

  /** What the ingestors hold for a shard. */
  function InHands(clients: seq<Client>, i: nat): multiset<IncomingSpan>
    requires forall j :: 0 <= j < |clients| ==> i < |clients[j].ing.batches|
  {
    if |clients| == 0 then multiset{}
    else InHands(clients[..|clients| - 1], i) + multiset(clients[|clients| - 1].ing.batches[i])
  }

  /** Every entry on its way to a shard or already there. */
  ghost function Ledger(w: World, i: nat): multiset<IncomingSpan>
    requires Sized(w) && i < |w.channels|
  {
    multiset(EntriesOf(Stream(w, i))) + InHands(w.clients, i)
  }

  /** What an event accepts for a shard. */
  ghost function AcceptedBy(w: World, route: SpanId -> int, e: Pipeline.Event, i: nat): Batch
    requires Sized(w) && Enabled(w, e)
  {
    match e
    case Receive(j, s, encodes) => DueFor(w.clients[j].ing, route, Call(s, encodes), i)
    case _ => []
  }

  lemma EntriesAppend(a: seq<Item>, b: seq<Item>)
    ensures multiset(EntriesOf(a + b)) == multiset(EntriesOf(a)) + multiset(EntriesOf(b))
  {
    assert EntriesOf(a + b) == EntriesOf(a) + EntriesOf(b);
  }

  lemma EntriesOfItems(j: nat, b: Batch)
    ensures EntriesOf(Items(j, b)) == b
  {
  }

  lemma AddToBoth<T>(a: multiset<T>, b: multiset<T>, c: multiset<T>, d: multiset<T>, x: multiset<T>)
    requires a + b == c + d
    ensures (a + x) + b == (c + x) + d
  {
    assert (a + x) + b == (a + b) + x;
    assert (c + x) + d == (c + d) + x;
  }

  lemma Cancel<T>(a: multiset<T>, b: multiset<T>, c: multiset<T>, d: multiset<T>, e: multiset<T>, f: multiset<T>)
    requires a + b == c + d && e + d == b + f
    ensures a + e == c + f
  {
    assert (a + e) + (b + d) == (a + b) + (e + d);
    assert (c + f) + (b + d) == (c + d) + (b + f);
    Cancelled(a + e, c + f, b + d);
  }

  lemma Cancelled<T>(a: multiset<T>, b: multiset<T>, x: multiset<T>)
    requires a + x == b + x
    ensures a == b
  {
    assert a == (a + x) - x && b == (b + x) - x;
  }

  lemma {:induction false} HandsUpdate(clients: seq<Client>, j: nat, c: Client, i: nat)
    requires forall k :: 0 <= k < |clients| ==> i < |clients[k].ing.batches|
    requires j < |clients| && i < |c.ing.batches|
    ensures InHands(clients[j := c], i) + multiset(clients[j].ing.batches[i]) ==
            InHands(clients, i) + multiset(c.ing.batches[i])
    decreases |clients|
  {
    var n := |clients| - 1;
    if j == n {
      assert clients[j := c][..n] == clients[..n];
    } else {
      HandsUpdate(clients[..n], j, c, i);
      assert clients[j := c][..n] == clients[..n][j := c];
      AddToBoth(InHands(clients[..n][j := c], i), multiset(clients[j].ing.batches[i]), InHands(clients[..n], i),
                multiset(c.ing.batches[i]), multiset(clients[n].ing.batches[i]));
    }
  }

  lemma SameHands(clients: seq<Client>, j: nat, c: Client, i: nat)
    requires forall k :: 0 <= k < |clients| ==> i < |clients[k].ing.batches|
    requires j < |clients| && i < |c.ing.batches| && c.ing.batches[i] == clients[j].ing.batches[i]
    ensures InHands(clients[j := c], i) == InHands(clients, i)
  {
    HandsUpdate(clients, j, c, i);
    Cancelled(InHands(clients[j := c], i), InHands(clients, i), multiset(c.ing.batches[i]));
  }

  lemma HandsAppend(clients: seq<Client>, c: Client, i: nat)
    requires forall k :: 0 <= k < |clients| ==> i < |clients[k].ing.batches|
    requires i < |c.ing.batches| && c.ing.batches[i] == []
    ensures InHands(clients + [c], i) == InHands(clients, i)
  {
    assert (clients + [c])[..|clients|] == clients;
  }

  /** Each step adds to a shard's ledger exactly what it accepts for the shard. */
  lemma StepLedger(w: World, route: SpanId -> int, e: Pipeline.Event, i: nat)
    requires Sized(w) && Routes(route, |w.channels|) && Enabled(w, e) && i < |w.channels|
    ensures Ledger(Pipeline.Step(w, route, e), i) == Ledger(w, i) + multiset(AcceptedBy(w, route, e, i))
  {
    hide Stream, EntriesOf, InHands, SentNow, AcceptedBy, Pipeline.Step;
    var w', sent := Pipeline.Step(w, route, e), SentNow(w, route, e, i);
    StepStream(w, route, e, i);
    EntriesAppend(Stream(w, i), sent);
    StepHands(w, route, e, i);
    var s, t := multiset(EntriesOf(Stream(w, i))), multiset(EntriesOf(sent));
    var h, h', a := InHands(w.clients, i), InHands(w'.clients, i), multiset(AcceptedBy(w, route, e, i));
    assert (s + t) + h' == s + (h' + t);
    assert (s + h) + a == s + (h + a);
  }

  /** The other half of it: what leaves the ingestors' hands is what is sent. */
  lemma StepHands(w: World, route: SpanId -> int, e: Pipeline.Event, i: nat)
    requires Sized(w) && Routes(route, |w.channels|) && Enabled(w, e) && i < |w.channels|
    ensures InHands(Pipeline.Step(w, route, e).clients, i) + multiset(EntriesOf(SentNow(w, route, e, i))) ==
            InHands(w.clients, i) + multiset(AcceptedBy(w, route, e, i))
  {
    hide InHands, EntriesOf, Items, AfterIngest, Flushed, DueFor, Send;
    NoEntries();
    match e {
      case Connect(addr, trid) =>
        HandsAppend(w.clients, Pipeline.Step(w, route, e).clients[|w.clients|], i);
      case Receive(j, s, encodes) =>
        var ing, k := w.clients[j].ing, route(s.id);
        HandsUpdate(w.clients, j, Pipeline.Step(w, route, e).clients[j], i);
        var flushed := if k == i then Flushed(ing, i, s, encodes) else [];
        CallKeepsDue(ing, route, ing.batches[i], [], Call(s, encodes), i);
        var after, due := AfterIngest(ing, k, s, encodes).batches[i], DueFor(ing, route, Call(s, encodes), i);
        Balance(flushed, after, ing.batches[i], due);
        Cancel(InHands(Pipeline.Step(w, route, e).clients, i), multiset(ing.batches[i]), InHands(w.clients, i),
               multiset(after), multiset(flushed), multiset(due));
        EntriesOfItems(j, flushed);
        NoItems(j);
      case FlushNext(j) =>
        if w.clients[j].phase.next == i {
          HandsUpdate(w.clients, j, Pipeline.Step(w, route, e).clients[j], i);
          EntriesOfItems(j, w.clients[j].ing.batches[i]);
        } else {
          SameHands(w.clients, j, Pipeline.Step(w, route, e).clients[j], i);
        }
      case StartClose(j) => SameHands(w.clients, j, Pipeline.Step(w, route, e).clients[j], i);
      case Report(j) => SameHands(w.clients, j, Pipeline.Step(w, route, e).clients[j], i);
      case _ =>
    }
  }

  lemma NoEntries()
    ensures EntriesOf([]) == []
  {
  }

  lemma Balance(flushed: Batch, after: Batch, before: Batch, due: Batch)
    requires [] + before == before ==> [] + flushed + after == before + due
    ensures multiset(flushed) + multiset(after) == multiset(before) + multiset(due)
  {
    assert [] + before == before && [] + flushed == flushed;
    assert multiset(flushed + after) == multiset(before + due);
  }

  ghost function AcceptedDuring(w: World, route: SpanId -> int, run: seq<Pipeline.Event>, i: nat)
    : multiset<IncomingSpan>
    requires Sized(w) && Routes(route, |w.channels|) && EnabledRun(w, route, run)
    decreases |run|
  {
    if |run| == 0 then multiset{}
    else multiset(AcceptedBy(w, route, run[0], i)) + AcceptedDuring(Pipeline.Step(w, route, run[0]), route, run[1..], i)
  }

  /**
   * Over every run and for every shard: the entries processed, in the worker's hands, in the
   * channel and in the ingestors' hands are, counted with repetitions, those there at the start
   * and those accepted since. None is lost and none is doubled.
   */
  lemma {:induction false} RunLedger(w: World, route: SpanId -> int, run: seq<Pipeline.Event>, i: nat)
    requires Sized(w) && Routes(route, |w.channels|) && EnabledRun(w, route, run) && i < |w.channels|
    ensures Ledger(After(w, route, run), i) == Ledger(w, i) + AcceptedDuring(w, route, run, i)
    decreases |run|
  {
    if |run| > 0 {
      StepLedger(w, route, run[0], i);
      RunLedger(Pipeline.Step(w, route, run[0]), route, run[1..], i);
      hide Ledger, AcceptedBy;
    }
  }

  // ---------------------------------------------------------------- routing

  /** Every span of the batch has a valid id that belongs to the shard. */
  ghost predicate ForShard(b: Batch, route: SpanId -> int, i: int) {
    forall e :: e in b ==> ValidId(e.span.id) && route(e.span.id) == i
  }

  /** What an ingestor holds for a shard: routed there, and short of a full buffer. */
  ghost predicate HoldsFor(b: Batch, route: SpanId -> int, i: int) {
    |b| < WRITESPANS_BATCH_SIZE && ForShard(b, route, i)
  }

  /** An ingestor's batches are routed, and those it has flushed on closing are empty. */
  ghost predicate ClientOk(c: Client, route: SpanId -> int) {
    forall k :: 0 <= k < |c.ing.batches| ==>
      HoldsFor(c.ing.batches[k], route, k) &&
      (c.phase == Closed || (c.phase.Closing? && k < c.phase.next) ==> c.ing.batches[k] == [])
  }

  /** A shard's channel holds only non-empty, routed batches. */
  ghost predicate ChannelOk(ch: Channel, route: SpanId -> int, i: int) {
    forall s :: s in ch ==> 0 < |s.spans| && HoldsFor(s.spans, route, i)
  }

  /** A worker's batch is routed, and its local counts add up to the writes it has tried. */
  ghost predicate WorkerOk(b: Worker, route: SpanId -> int, i: int) {
    b.Busy? ==> ForShard(b.job.spans, route, i) && b.wrote + b.lost == b.done <= |b.job.spans|
  }

  /** A shard's database keeps every index key, and stores only spans that belong to it. */
  ghost predicate StoresFor(db: Db, route: SpanId -> int, i: int) {
    Complete(db) && forall s :: Stored(db, s) ==> route(s.id) == i
  }

  ghost predicate ShardOk(ch: Channel, b: Worker, db: Db, route: SpanId -> int, i: int) {
    ChannelOk(ch, route, i) && WorkerOk(b, route, i) && StoresFor(db, route, i)
  }

  ghost predicate WellRouted(w: World, route: SpanId -> int) {
    Sized(w) &&
    (forall j :: 0 <= j < |w.clients| ==> ClientOk(w.clients[j], route)) &&
    forall i :: 0 <= i < |w.channels| ==> ShardOk(w.channels[i], w.workers[i], w.dbs[i], route, i)
  }

  lemma ConnectOk(addr: ByteString, trid: ByteString, n: nat, route: SpanId -> int)
    ensures ClientOk(Client(Opened(addr, trid, n), Open, []), route)
  {
  }

  lemma ReceiveOk(c: Client, route: SpanId -> int, s: Span, encodes: bool)
    requires 0 <= route(s.id) < |c.ing.batches| && c.phase == Open && ClientOk(c, route)
    ensures ClientOk(Client(AfterIngest(c.ing, route(s.id), s, encodes), Open, c.calls + [Call(s, encodes)]), route)
    ensures HoldsFor(Flushed(c.ing, route(s.id), s, encodes), route, route(s.id))
  {
    assert HoldsFor(c.ing.batches[route(s.id)], route, route(s.id));
    assert Entry(c.ing, s).span.id == s.id;
  }

  lemma FlushOk(c: Client, route: SpanId -> int)
    requires c.phase.Closing? && c.phase.next < |c.ing.batches| && ClientOk(c, route)
    ensures var i := c.phase.next;
            ClientOk(Client(c.ing.(batches := c.ing.batches[i := []]), Closing(i + 1), c.calls), route) &&
            HoldsFor(c.ing.batches[i], route, i)
  {
  }

  lemma StartOk(c: Client, route: SpanId -> int)
    requires ClientOk(c, route)
    ensures c.phase == Open ==> ClientOk(c.(phase := Closing(0)), route)
  {
  }

  lemma ReportOk(c: Client, route: SpanId -> int)
    requires ClientOk(c, route) && c.phase == Closing(|c.ing.batches|)
    ensures ClientOk(c.(phase := Closed), route)
  {
  }

  lemma SendOk(ch: Channel, b: Worker, db: Db, route: SpanId -> int, i: int, j: nat, batch: Batch)
    requires ShardOk(ch, b, db, route, i) && HoldsFor(batch, route, i)
    ensures ShardOk(Send(ch, j, batch), b, db, route, i)
  {
  }

  lemma TakeOk(ch: Channel, db: Db, route: SpanId -> int, i: int)
    requires ShardOk(ch, Idle, db, route, i) && |ch| > 0
    ensures ShardOk(ch[1..], Busy(ch[0], 0, 0, 0), db, route, i)
  {
    assert ch[0] in ch;
  }

  lemma WriteOk(ch: Channel, b: Worker, db: Db, route: SpanId -> int, i: int, ok: bool)
    requires ShardOk(ch, b, db, route, i) && b.Busy? && b.done < |b.job.spans|
    ensures var s := b.job.spans[b.done].span;
            ValidId(s.id) &&
            ShardOk(ch, Busy(b.job, b.done + 1, b.wrote + (if ok then 1 else 0), b.lost + if ok then 0 else 1),
                    if ok then Written(db, s) else db, route, i)
  {
    var entry := b.job.spans[b.done];
    assert entry in b.job.spans;
    WriteStores(db, entry.span, route, i);
  }

  lemma WriteStores(db: Db, s: Span, route: SpanId -> int, i: int)
    requires StoresFor(db, route, i) && ValidId(s.id) && route(s.id) == i
    ensures StoresFor(Written(db, s), route, i)
  {
    WriteKeepsComplete(db, s);
    forall t | Stored(Written(db, s), t) ensures route(t.id) == i {
      WrittenFinds(db, s, t.id);
    }
  }

  lemma DeleteOk(ch: Channel, b: Worker, db: Db, s: Span, route: SpanId -> int, i: int)
    requires ShardOk(ch, b, db, route, i) && Stored(db, s)
    ensures ShardOk(ch, b, Deleted(db, s), route, i)
  {
    assert ValidId(s.id);
    DeleteKeepsComplete(db, s);
    forall t | Stored(Deleted(db, s), t) ensures Stored(db, t) {
      DeletedFinds(db, s, t.id);
    }
  }

  lemma StepRoutes(w: World, route: SpanId -> int, e: Pipeline.Event)
    requires WellRouted(w, route) && Routes(route, |w.channels|) && Enabled(w, e)
    ensures WellRouted(Pipeline.Step(w, route, e), route)
  {
    hide AfterIngest, Flushed, Send, ShardOk, ClientOk, HoldsFor, Written, Deleted, Stored;
    match e {
      case Connect(addr, trid) => ConnectOk(addr, trid, |w.channels|, route);
      case Receive(j, s, encodes) =>
        var c, i := w.clients[j], route(s.id);
        ReceiveOk(c, route, s, encodes);
        SendOk(w.channels[i], w.workers[i], w.dbs[i], route, i, j, Flushed(c.ing, i, s, encodes));
      case StartClose(j) => StartOk(w.clients[j], route);
      case FlushNext(j) =>
        var c := w.clients[j];
        var i := c.phase.next;
        FlushOk(c, route);
        SendOk(w.channels[i], w.workers[i], w.dbs[i], route, i, j, c.ing.batches[i]);
      case Report(j) => ReportOk(w.clients[j], route);
      case TakeBatch(i) => TakeOk(w.channels[i], w.dbs[i], route, i);
      case WriteNext(i, ok) => WriteOk(w.channels[i], w.workers[i], w.dbs[i], route, i, ok);
      case CountBatch(i) => CountOk(w.channels[i], w.workers[i], w.dbs[i], route, i);
      case Expire(i, s) => DeleteOk(w.channels[i], w.workers[i], w.dbs[i], s, route, i);
    }
  }

  lemma CountOk(ch: Channel, b: Worker, db: Db, route: SpanId -> int, i: int)
    requires ShardOk(ch, b, db, route, i)
    ensures ShardOk(ch, Idle, db, route, i)
  {
  }

  lemma {:induction false} RunRoutes(w: World, route: SpanId -> int, run: seq<Pipeline.Event>)
    requires WellRouted(w, route) && Routes(route, |w.channels|) && EnabledRun(w, route, run)
    ensures WellRouted(After(w, route, run), route)
    decreases |run|
  {
    if |run| > 0 {
      StepRoutes(w, route, run[0]);
      RunRoutes(Pipeline.Step(w, route, run[0]), route, run[1..]);
    }
  }

  // ---------------------------------------------------------------- counters

  function IntSum(s: seq<int>): int
    decreases |s|
  {
    if |s| == 0 then 0 else IntSum(s[..|s| - 1]) + s[|s| - 1]
  }

  lemma {:induction false} SumUpdate(s: seq<int>, i: nat, v: int)
    requires i < |s|
    ensures IntSum(s[i := v]) == IntSum(s) - s[i] + v
    decreases |s|
  {
    var n := |s| - 1;
    if i == n {
      assert s[i := v][..n] == s[..n];
    } else {
      SumUpdate(s[..n], i, v);
      assert s[i := v][..n] == s[..n][i := v];
    }
  }

  lemma SumAppend(s: seq<int>, v: int)
    ensures IntSum(s + [v]) == IntSum(s) + v
  {
    assert (s + [v])[..|s|] == s;
  }

  lemma {:induction false} SumZero(s: seq<int>)
    requires forall i :: 0 <= i < |s| ==> s[i] == 0
    ensures IntSum(s) == 0
    decreases |s|
  {
    if |s| > 0 {
      SumZero(s[..|s| - 1]);
    }
  }

  /** How many spans an ingestor holds. */
  function Held(bs: seq<Batch>): int {
    IntSum(seq(|bs|, i requires 0 <= i < |bs| => |bs[i]|))
  }

  lemma HeldUpdate(bs: seq<Batch>, i: nat, b: Batch)
    requires i < |bs|
    ensures Held(bs[i := b]) == Held(bs) - |bs[i]| + |b|
  {
    var lens := seq(|bs|, i requires 0 <= i < |bs| => |bs[i]|);
    SumUpdate(lens, i, |b|);
    assert seq(|bs|, k requires 0 <= k < |bs| => |bs[i := b][k]|) == lens[i := |b|];
  }

  lemma HeldNone(bs: seq<Batch>)
    requires forall i :: 0 <= i < |bs| ==> bs[i] == []
    ensures Held(bs) == 0
  {
    SumZero(seq(|bs|, i requires 0 <= i < |bs| => |bs[i]|));
  }

  /** How many spans an ingestor has sent off that are not yet in the global count. */
  function SentBy(c: Client): int {
    if c.phase == Closed then 0 else c.ing.totalIngested - c.ing.serverDropped - Held(c.ing.batches)
  }

  function SentEach(clients: seq<Client>): (s: seq<int>) {
    seq(|clients|, j requires 0 <= j < |clients| => SentBy(clients[j]))
  }

  /** How many spans of a shard are in the channel or in a batch whose outcome is not yet counted. */
  function Waiting(b: Worker, ch: Channel): int {
    |ChannelItems(ch)| + match b case Idle => 0 case Busy(job, _, _, _) => |job.spans|
  }

  function WaitingEach(w: World): (s: seq<int>)
    requires |w.channels| == |w.workers|
  {
    seq(|w.channels|, i requires 0 <= i < |w.channels| => Waiting(w.workers[i], w.channels[i]))
  }

  /**
   * The spans counted as ingested, and those sent by ingestors not yet counted, are written,
   * dropped, or waiting.
   */
  ghost predicate Conserved(w: World)
    requires Sized(w)
  {
    w.ingested + IntSum(SentEach(w.clients)) == w.written + w.dropped + IntSum(WaitingEach(w))
  }

  lemma SentUpdate(clients: seq<Client>, j: nat, c: Client)
    requires j < |clients|
    ensures IntSum(SentEach(clients[j := c])) == IntSum(SentEach(clients)) - SentBy(clients[j]) + SentBy(c)
  {
    SumUpdate(SentEach(clients), j, SentBy(c));
    assert SentEach(clients[j := c]) == SentEach(clients)[j := SentBy(c)];
  }

  lemma SentAppend(clients: seq<Client>, c: Client)
    ensures IntSum(SentEach(clients + [c])) == IntSum(SentEach(clients)) + SentBy(c)
  {
    SumAppend(SentEach(clients), SentBy(c));
    assert SentEach(clients + [c]) == SentEach(clients) + [SentBy(c)];
  }

  lemma WaitingUpdate(w: World, w': World, i: nat)
    requires |w.channels| == |w.workers| == |w'.channels| == |w'.workers| && i < |w.channels|
    requires forall k :: 0 <= k < |w.channels| && k != i ==>
               w'.channels[k] == w.channels[k] && w'.workers[k] == w.workers[k]
    ensures IntSum(WaitingEach(w')) ==
            IntSum(WaitingEach(w)) - Waiting(w.workers[i], w.channels[i]) + Waiting(w'.workers[i], w'.channels[i])
  {
    var v := Waiting(w'.workers[i], w'.channels[i]);
    SumUpdate(WaitingEach(w), i, v);
    assert WaitingEach(w') == WaitingEach(w)[i := v];
  }

  lemma SendWaits(b: Worker, ch: Channel, j: nat, batch: Batch)
    ensures Waiting(b, Send(ch, j, batch)) == Waiting(b, ch) + |batch|
  {
    SendFlows([], b, ch, j, batch);
    assert (ch + [Sent(j, batch)])[..|ch|] == ch;
  }

  lemma IngestSends(c: Client, i: nat, s: Span, encodes: bool)
    requires i < |c.ing.batches| && c.phase == Open
    ensures SentBy(Client(AfterIngest(c.ing, i, s, encodes), Open, c.calls + [Call(s, encodes)])) ==
            SentBy(c) + |Flushed(c.ing, i, s, encodes)|
  {
    if Accepted(s, encodes) {
      HeldUpdate(c.ing.batches, i, AfterIngest(c.ing, i, s, encodes).batches[i]);
    }
  }

  /** Every single step of an ingestor, a worker or the reaper balances the counters. */
  lemma StepConserves(w: World, route: SpanId -> int, e: Pipeline.Event)
    requires WellRouted(w, route) && Routes(route, |w.channels|) && Enabled(w, e) && Conserved(w)
    ensures Conserved(Pipeline.Step(w, route, e))
  {
    hide Conserved, Pipeline.Step, ClientOk, StoresFor, ChannelOk, WorkerOk;
    match e {
      case Connect(_, _) => ClientConserves(w, route, e);
      case Receive(_, _, _) => SendConserves(w, route, e);
      case StartClose(_) => ClientConserves(w, route, e);
      case FlushNext(_) => SendConserves(w, route, e);
      case Report(_) => ClientConserves(w, route, e);
      case _ =>
        assert ShardOk(w.channels[e.i], w.workers[e.i], w.dbs[e.i], route, e.i);
        WorkerConserves(w, route, e);
    }
  }

  lemma ClientConserves(w: World, route: SpanId -> int, e: Pipeline.Event)
    requires WellRouted(w, route) && Routes(route, |w.channels|) && Enabled(w, e) && Conserved(w)
    requires e.Connect? || e.StartClose? || e.Report?
    ensures Conserved(Pipeline.Step(w, route, e))
  {
    hide IntSum, SentEach, WaitingEach, SentBy, ClientOk, ShardOk;
    var w' := Pipeline.Step(w, route, e);
    SameWaiting(w, w');
    if e.Connect? {
      SentAppend(w.clients, w'.clients[|w.clients|]);
      NothingSentYet(e.addr, e.trid, |w.channels|);
    } else {
      SentUpdate(w.clients, e.j, w'.clients[e.j]);
      if e.StartClose? {
        StartSends(w.clients[e.j]);
      } else {
        ReportSends(w.clients[e.j], route);
      }
    }
  }

  lemma SendConserves(w: World, route: SpanId -> int, e: Pipeline.Event)
    requires Sized(w) && Routes(route, |w.channels|) && Enabled(w, e) && Conserved(w)
    requires e.Receive? || e.FlushNext?
    ensures Conserved(Pipeline.Step(w, route, e))
  {
    hide IntSum, SentEach, WaitingEach, SentBy, Waiting, AfterIngest, Flushed, Send;
    var w', c := Pipeline.Step(w, route, e), w.clients[e.j];
    SentUpdate(w.clients, e.j, w'.clients[e.j]);
    if e.Receive? {
      var i := route(e.span.id);
      IngestSends(c, i, e.span, e.encodes);
      WaitingUpdate(w, w', i);
      SendWaits(w.workers[i], w.channels[i], e.j, Flushed(c.ing, i, e.span, e.encodes));
    } else {
      var i := c.phase.next;
      FlushSends(c, w'.clients[e.j]);
      WaitingUpdate(w, w', i);
      SendWaits(w.workers[i], w.channels[i], e.j, c.ing.batches[i]);
    }
  }

  lemma WorkerConserves(w: World, route: SpanId -> int, e: Pipeline.Event)
    requires Sized(w) && Routes(route, |w.channels|) && Enabled(w, e) && Conserved(w)
    requires (e.TakeBatch? || e.WriteNext? || e.CountBatch? || e.Expire?) && WorkerOk(w.workers[e.i], route, e.i)
    ensures Conserved(Pipeline.Step(w, route, e))
  {
    hide IntSum, SentEach, WaitingEach, Waiting, Written, Deleted, Stored;
    var w' := Pipeline.Step(w, route, e);
    if e.Expire? {
      SameWaiting(w, w');
    } else {
      WorkerWaits(w.workers[e.i], w.channels[e.i], w'.workers[e.i], w'.channels[e.i]);
      WaitingUpdate(w, w', e.i);
    }
  }

  /** A worker's step leaves the number of waiting spans alone, until it counts its batch. */
  lemma WorkerWaits(b: Worker, ch: Channel, b': Worker, ch': Channel)
    ensures b.Idle? && |ch| > 0 && b' == Busy(ch[0], 0, 0, 0) && ch' == ch[1..] ==> Waiting(b', ch') == Waiting(b, ch)
    ensures b.Busy? && b'.Busy? && b'.job == b.job && ch' == ch ==> Waiting(b', ch') == Waiting(b, ch)
    ensures b.Busy? && b'.Idle? && ch' == ch ==> Waiting(b', ch') == Waiting(b, ch) - |b.job.spans|
  {
    if |ch| > 0 {
      FirstOut(ch);
    }
  }

  lemma NothingSentYet(addr: ByteString, trid: ByteString, n: nat)
    ensures SentBy(Client(Opened(addr, trid, n), Open, [])) == 0
  {
    HeldNone(Opened(addr, trid, n).batches);
  }

  lemma SameWaiting(w: World, w': World)
    requires |w.channels| == |w.workers| && w'.channels == w.channels && w'.workers == w.workers
    ensures WaitingEach(w') == WaitingEach(w)
  {
  }

  lemma StartSends(c: Client)
    requires c.phase == Open
    ensures SentBy(c.(phase := Closing(0))) == SentBy(c)
  {
  }

  lemma FlushSends(c: Client, c': Client)
    requires c.phase.Closing? && c.phase.next < |c.ing.batches|
    requires c' == Client(c.ing.(batches := c.ing.batches[c.phase.next := []]), Closing(c.phase.next + 1), c.calls)
    ensures SentBy(c') == SentBy(c) + |c.ing.batches[c.phase.next]|
  {
    HeldUpdate(c.ing.batches, c.phase.next, []);
  }

  lemma ReportSends(c: Client, route: SpanId -> int)
    requires ClientOk(c, route) && c.phase == Closing(|c.ing.batches|)
    ensures SentBy(c) == c.ing.totalIngested - c.ing.serverDropped && SentBy(c.(phase := Closed)) == 0
  {
    HeldNone(c.ing.batches);
  }

  /**
   * Over every run: the counters balance, no batch in a channel is empty, and every span on its
   * way or stored is in the shard its id belongs to, with its index.
   */
  lemma {:induction false} RunInvariant(w: World, route: SpanId -> int, run: seq<Pipeline.Event>)
    requires WellRouted(w, route) && Routes(route, |w.channels|) && EnabledRun(w, route, run) && Conserved(w)
    ensures WellRouted(After(w, route, run), route) && Conserved(After(w, route, run))
    decreases |run|
  {
    if |run| > 0 {
      StepConserves(w, route, run[0]);
      StepRoutes(w, route, run[0]);
      RunInvariant(Pipeline.Step(w, route, run[0]), route, run[1..]);
    }
  }

  lemma FreshIsGood(w: World, route: SpanId -> int)
    requires Fresh(w)
    ensures Conserved(w) && WellRouted(w, route) && AllDelivers(w, route) && AllExact(w)
  {
    assert SentEach(w.clients) == [];
    SumZero(WaitingEach(w));
    forall i | 0 <= i < |w.dbs| ensures Exact(w.dbs[i]) && StoresFor(w.dbs[i], route, i) {
      EmptyShardIsExact(w.dbs[i]);
    }
  }

  ghost predicate AllExact(w: World) {
    forall i :: 0 <= i < |w.dbs| ==> Exact(w.dbs[i])
  }

  lemma EmptyShardIsExact(db: Db)
    requires db.Keys == {INFO_KEY}
    ensures Exact(db) && forall s :: !Stored(db, s)
  {
    forall id: SpanId ensures PrimaryKey(id) !in db {
      assert PrimaryKey(id)[0] == SPAN_ID_INDEX_PREFIX;
    }
  }

  /** Every ingestor is closed and counted, every channel empty, every worker idle. */
  ghost predicate Quiet(w: World)
    requires Sized(w)
  {
    (forall j :: 0 <= j < |w.clients| ==> w.clients[j].phase == Closed) &&
    forall i :: 0 <= i < |w.channels| ==> w.channels[i] == [] && w.workers[i] == Idle
  }

  /**
   * After any run of a fresh store that ends quiet, each ingested span was written or dropped,
   * and each shard has processed, of each ingestor's spans, exactly those due to it, in order.
   */
  lemma Drained(w: World, route: SpanId -> int, run: seq<Pipeline.Event>)
    requires Fresh(w) && Routes(route, |w.channels|) && EnabledRun(w, route, run) && Quiet(After(w, route, run))
    ensures var w' := After(w, route, run);
            w'.ingested == w'.written + w'.dropped &&
            forall i, j :: 0 <= i < |w'.channels| && 0 <= j < |w'.clients| ==>
              Mine(w'.processed[i], j) == DueTo(w'.clients[j].ing, route, w'.clients[j].calls, i)
  {
    FreshIsGood(w, route);
    RunInvariant(w, route, run);
    RunDelivers(w, route, run);
    var w' := After(w, route, run);
    hide After, EnabledRun, ShardOk;
    SumZero(SentEach(w'.clients));
    SumZero(WaitingEach(w'));
    forall i, j | 0 <= i < |w'.channels| && 0 <= j < |w'.clients|
      ensures Mine(w'.processed[i], j) == DueTo(w'.clients[j].ing, route, w'.clients[j].calls, i)
    {
      assert Stream(w', i) == w'.processed[i];
      assert ClientOk(w'.clients[j], route) && w'.clients[j].ing.batches[i] == [];
      assert Delivers(Stream(w', i), w'.clients[j], route, j, i);
    }
  }

  // ---------------------------------------------------------------- the databases

  /** What an event does to one shard's database. */
  ghost function DbEvent(w: World, e: Pipeline.Event, i: nat): seq<Index.Event>
    requires Sized(w) && Enabled(w, e)
  {
    match e
    case WriteNext(k, ok) =>
      if k == i && ok then [Index.Write(w.workers[k].job.spans[w.workers[k].done].span)] else []
    case Expire(k, s) => if k == i then [Index.Remove(s)] else []
    case _ => []
  }

  ghost function DbEvents(w: World, route: SpanId -> int, run: seq<Pipeline.Event>, i: nat): seq<Index.Event>
    requires Sized(w) && Routes(route, |w.channels|) && EnabledRun(w, route, run)
    decreases |run|
  {
    if |run| == 0 then []
    else DbEvent(w, run[0], i) + DbEvents(Pipeline.Step(w, route, run[0]), route, run[1..], i)
  }

  lemma StepDb(w: World, route: SpanId -> int, e: Pipeline.Event, i: nat, rest: seq<Index.Event>)
    requires WellRouted(w, route) && Routes(route, |w.channels|) && Enabled(w, e) && i < |w.dbs|
    ensures var db' := Pipeline.Step(w, route, e).dbs[i];
            var all := DbEvent(w, e, i) + rest;
            RunFrom(w.dbs[i], all) == RunFrom(db', rest) &&
            (AllowedRun(db', rest) ==> AllowedRun(w.dbs[i], all)) &&
            (NoLossyRewrite(w.dbs[i], all) ==> NoLossyRewrite(db', rest))
  {
    hide Written, Deleted, AfterIngest, ShardOk, ClientOk;
    var now := DbEvent(w, e, i);
    if |now| > 0 {
      if e.WriteNext? {
        WriteOk(w.channels[i], w.workers[i], w.dbs[i], route, i, e.ok);
      }
      FirstEvent(w.dbs[i], now[0], rest);
      assert now == [now[0]];
    } else {
      assert now + rest == rest;
    }
  }

  lemma FirstEvent(db: Db, e: Index.Event, rest: seq<Index.Event>)
    ensures RunFrom(db, [e] + rest) == RunFrom(Index.Step(db, e), rest)
    ensures AllowedRun(db, [e] + rest) <==> Allowed(db, e) && AllowedRun(Index.Step(db, e), rest)
    ensures NoLossyRewrite(db, [e] + rest) ==> NoLossyRewrite(Index.Step(db, e), rest)
  {
    assert ([e] + rest)[1..] == rest;
  }

  /** Over every run each database does exactly the writes and deletes of its shard, in order, all allowed. */
  lemma {:induction false} RunIsIndexRun(w: World, route: SpanId -> int, run: seq<Pipeline.Event>, i: nat)
    requires WellRouted(w, route) && Routes(route, |w.channels|) && EnabledRun(w, route, run) && i < |w.dbs|
    ensures After(w, route, run).dbs[i] == RunFrom(w.dbs[i], DbEvents(w, route, run, i))
    ensures AllowedRun(w.dbs[i], DbEvents(w, route, run, i))
    decreases |run|
  {
    if |run| > 0 {
      var w' := Pipeline.Step(w, route, run[0]);
      StepRoutes(w, route, run[0]);
      RunIsIndexRun(w', route, run[1..], i);
      StepDb(w, route, run[0], i, DbEvents(w', route, run[1..], i));
    }
  }

  /**
   * The pipeline builds the stores that queries rely on: over every run in which no span is
   * replaced by one lacking some of its keys, all indexes are exact and all spans are where
   * their ids belong; and each shard's map of spans is the plain replay of its writes and deletes.
   */
  lemma RunBuildsGoodStore(w: World, route: SpanId -> int, run: seq<Pipeline.Event>)
    requires WellRouted(w, route) && AllExact(w) && Routes(route, |w.channels|) && EnabledRun(w, route, run)
    ensures forall i :: 0 <= i < |w.dbs| ==>
              Contents(After(w, route, run).dbs[i]) == MapRun(Contents(w.dbs[i]), DbEvents(w, route, run, i))
    ensures (forall i :: 0 <= i < |w.dbs| ==> NoLossyRewrite(w.dbs[i], DbEvents(w, route, run, i))) ==>
              GoodStore(After(w, route, run).dbs, route)
  {
    RunRoutes(w, route, run);
    forall i | 0 <= i < |w.dbs|
      ensures Contents(After(w, route, run).dbs[i]) == MapRun(Contents(w.dbs[i]), DbEvents(w, route, run, i))
      ensures NoLossyRewrite(w.dbs[i], DbEvents(w, route, run, i)) ==> Exact(After(w, route, run).dbs[i])
    {
      RunIsIndexRun(w, route, run, i);
      RunRefinesMap(w.dbs[i], DbEvents(w, route, run, i));
    }
    var w' := After(w, route, run);
    forall i | 0 <= i < |w'.dbs| ensures forall s :: Stored(w'.dbs[i], s) ==> route(s.id) == i {
      assert ShardOk(w'.channels[i], w'.workers[i], w'.dbs[i], route, i);
    }
  }
}
