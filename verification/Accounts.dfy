/**
 * A finished run of the pipeline told from its events alone: who connected, what was received,
 * which writes succeeded, and what the shards and the counters make of it (datastore.go).
 */
module Accounts {
  import opened Bytes
  import opened Spans
  import opened Ingest
  import opened Pipeline
  import opened Conservation

  // ---------------------------------------------------------------- who called

  /** An ingestor's address and default tracer id. */
  datatype Opener = Opener(addr: ByteString, trid: ByteString)

  /** The ingestors that a run opens, in order. */
  ghost function Connects(run: seq<Event>): seq<Opener>
    decreases |run|
  {
    if |run| == 0 then []
    else (match run[0] case Connect(addr, trid) => [Opener(addr, trid)] case _ => []) + Connects(run[1..])
  }

  /** The calls that a run makes of one ingestor, in order. */
  ghost function CallsTo(run: seq<Event>, j: nat): seq<Call>
    decreases |run|
  {
    if |run| == 0 then [] else CallBy(run[0], j) + CallsTo(run[1..], j)
  }

  ghost function CallBy(e: Event, j: nat): seq<Call> {
    match e case Receive(k, s, encodes) => (if k == j then [Call(s, encodes)] else []) case _ => []
  }

  ghost function Openers(w: World): (os: seq<Opener>) {
    seq(|w.clients|, j requires 0 <= j < |w.clients| =>
      Opener(w.clients[j].ing.addr, w.clients[j].ing.defaultTrid))
  }

  ghost function CallsSoFar(w: World, j: nat): seq<Call> {
    if j < |w.clients| then w.clients[j].calls else []
  }

  lemma StepCalls(w: World, route: SpanId -> int, e: Event, j: nat)
    requires Sized(w) && Routes(route, |w.channels|) && Enabled(w, e)
    ensures Openers(Step(w, route, e)) == Openers(w) + Connects([e])
    ensures CallsSoFar(Step(w, route, e), j) == CallsSoFar(w, j) + CallBy(e, j)
  {
    hide Flushed, Send;
    assert Connects([e]) == (match e case Connect(addr, trid) => [Opener(addr, trid)] case _ => []) + Connects([]);
  }

  lemma FirstConnect(run: seq<Event>)
    requires |run| > 0
    ensures Connects(run) == Connects([run[0]]) + Connects(run[1..])
  {
    assert [run[0]][1..] == [];
  }

  /** The machine's record of openers and calls is that of the run. */
  lemma {:induction false} RunCalls(w: World, route: SpanId -> int, run: seq<Event>, j: nat)
    requires Sized(w) && Routes(route, |w.channels|) && EnabledRun(w, route, run)
    ensures Openers(After(w, route, run)) == Openers(w) + Connects(run)
    ensures CallsSoFar(After(w, route, run), j) == CallsSoFar(w, j) + CallsTo(run, j)
    decreases |run|
  {
    hide Step, Openers, CallsSoFar, CallBy;
    if |run| > 0 {
      StepCalls(w, route, run[0], j);
      RunCalls(Step(w, route, run[0]), route, run[1..], j);
      FirstConnect(run);
    }
  }

  // ---------------------------------------------------------------- what is counted

  ghost function Tally(run: seq<Event>, counts: Event -> bool): nat
    decreases |run|
  {
    if |run| == 0 then 0 else (if counts(run[0]) then 1 else 0) + Tally(run[1..], counts)
  }

  ghost predicate IsReceived(e: Event) {
    e.Receive?
  }

  ghost predicate IsWrite(e: Event) {
    e.WriteNext? && e.ok
  }

  /** A span that cannot be sent, or a write that fails. */
  ghost predicate IsLoss(e: Event) {
    (e.Receive? && !Sendable(Call(e.span, e.encodes))) || (e.WriteNext? && !e.ok)
  }

  ghost function TotalOf(c: Client): int {
    if c.phase == Closed then 0 else c.ing.totalIngested
  }

  ghost function DroppedOf(c: Client): int {
    if c.phase == Closed then 0 else c.ing.serverDropped
  }

  ghost function WroteOf(b: Worker): int {
    match b case Idle => 0 case Busy(_, _, wrote, _) => wrote
  }

  ghost function LostOf(b: Worker): int {
    match b case Idle => 0 case Busy(_, _, _, lost) => lost
  }

  ghost function SumOver<T>(s: seq<T>, f: T -> int): int {
    IntSum(seq(|s|, i requires 0 <= i < |s| => f(s[i])))
  }

  lemma SumOverUpdate<T>(s: seq<T>, f: T -> int, i: nat, x: T)
    requires i < |s|
    ensures SumOver(s[i := x], f) == SumOver(s, f) - f(s[i]) + f(x)
  {
    var t := seq(|s|, i requires 0 <= i < |s| => f(s[i]));
    SumUpdate(t, i, f(x));
    assert seq(|s|, k requires 0 <= k < |s| => f(s[i := x][k])) == t[i := f(x)];
  }

  lemma SumOverAppend<T>(s: seq<T>, f: T -> int, x: T)
    ensures SumOver(s + [x], f) == SumOver(s, f) + f(x)
  {
    var t := seq(|s|, i requires 0 <= i < |s| => f(s[i]));
    SumAppend(t, f(x));
    assert seq(|s| + 1, k requires 0 <= k < |s| + 1 => f((s + [x])[k])) == t + [f(x)];
  }

  lemma SumOverZero<T>(s: seq<T>, f: T -> int)
    requires forall i :: 0 <= i < |s| ==> f(s[i]) == 0
    ensures SumOver(s, f) == 0
  {
    SumZero(seq(|s|, i requires 0 <= i < |s| => f(s[i])));
  }

  /** The global counters, with what ingestors and workers have counted but not yet reported. */
  ghost function Counters(w: World): (int, int, int) {
    (w.ingested + SumOver(w.clients, TotalOf),
     w.written + SumOver(w.workers, WroteOf),
     w.dropped + SumOver(w.clients, DroppedOf) + SumOver(w.workers, LostOf))
  }

  ghost function One(b: bool): int {
    if b then 1 else 0
  }

  lemma StepCounts(w: World, route: SpanId -> int, e: Event)
    requires Sized(w) && Routes(route, |w.channels|) && Enabled(w, e)
    ensures var (a, b, c) := Counters(w);
            Counters(Step(w, route, e)) == (a + One(IsReceived(e)), b + One(IsWrite(e)), c + One(IsLoss(e)))
  {
    if e.Connect? || e.Receive? || e.StartClose? || e.FlushNext? || e.Report? {
      ClientCounts(w, route, e);
    } else {
      WorkerCounts(w, route, e);
    }
  }

  lemma ClientCounts(w: World, route: SpanId -> int, e: Event)
    requires Sized(w) && Routes(route, |w.channels|) && Enabled(w, e)
    requires e.Connect? || e.Receive? || e.StartClose? || e.FlushNext? || e.Report?
    ensures var (a, b, c) := Counters(w);
            Counters(Step(w, route, e)) == (a + One(IsReceived(e)), b + One(IsWrite(e)), c + One(IsLoss(e)))
  {
    hide SumOver, Flushed, Send, Sendable, ValidId;
    var w' := Step(w, route, e);
    if e.Connect? {
      SumOverAppend(w.clients, TotalOf, w'.clients[|w.clients|]);
      SumOverAppend(w.clients, DroppedOf, w'.clients[|w.clients|]);
    } else {
      SumOverUpdate(w.clients, TotalOf, e.j, w'.clients[e.j]);
      SumOverUpdate(w.clients, DroppedOf, e.j, w'.clients[e.j]);
      if e.Receive? {
        SendableIsAccepted(e.span, e.encodes);
      }
    }
  }

  lemma SendableIsAccepted(s: Span, encodes: bool)
    ensures Sendable(Call(s, encodes)) <==> Accepted(s, encodes)
  {
    ValidIdMeans(s.id);
  }

  lemma WorkerCounts(w: World, route: SpanId -> int, e: Event)
    requires Sized(w) && Routes(route, |w.channels|) && Enabled(w, e)
    requires e.TakeBatch? || e.WriteNext? || e.CountBatch? || e.Expire?
    ensures var (a, b, c) := Counters(w);
            Counters(Step(w, route, e)) == (a + One(IsReceived(e)), b + One(IsWrite(e)), c + One(IsLoss(e)))
  {
    hide SumOver, Index.Written, Index.Deleted, Index.Stored;
    if !e.Expire? {
      var w' := Step(w, route, e);
      SumOverUpdate(w.workers, WroteOf, e.i, w'.workers[e.i]);
      SumOverUpdate(w.workers, LostOf, e.i, w'.workers[e.i]);
    }
  }

  lemma {:induction false} RunCounts(w: World, route: SpanId -> int, run: seq<Event>)
    requires Sized(w) && Routes(route, |w.channels|) && EnabledRun(w, route, run)
    ensures var (a, b, c) := Counters(w);
            Counters(After(w, route, run)) ==
            (a + Tally(run, IsReceived), b + Tally(run, IsWrite), c + Tally(run, IsLoss))
    decreases |run|
  {
    hide Counters, Step, IsReceived, IsWrite, IsLoss;
    if |run| > 0 {
      StepCounts(w, route, run[0]);
      RunCounts(Step(w, route, run[0]), route, run[1..]);
    }
  }

  lemma NothingPending(w: World)
    requires Sized(w) && Quiet(w)
    ensures Counters(w) == (w.ingested, w.written, w.dropped)
  {
    hide SumOver;
    SumOverZero(w.clients, TotalOf);
    SumOverZero(w.clients, DroppedOf);
    SumOverZero(w.workers, WroteOf);
    SumOverZero(w.workers, LostOf);
  }

  /**
   * After any run of a fresh store that ends quiet: the counters say how many spans were
   * received, how many writes succeeded, and how many spans could not be sent or written; and
   * each shard has tried to write, of what each ingestor was given, exactly the spans that
   * belong to it, in order, unchanged but for a missing tracer id.
   */
  lemma RunAccounted(w: World, route: SpanId -> int, run: seq<Event>)
    requires Fresh(w) && Routes(route, |w.channels|) && EnabledRun(w, route, run) && Quiet(After(w, route, run))
    ensures var w' := After(w, route, run);
            w'.ingested == Tally(run, IsReceived) &&
            w'.written == Tally(run, IsWrite) &&
            w'.dropped == Tally(run, IsLoss)
    ensures forall i, j :: 0 <= i < |w.channels| && 0 <= j < |Connects(run)| ==>
              AllHandedOn(Connects(run)[j].addr, Connects(run)[j].trid, DueSpans(route, CallsTo(run, j), i),
                          Mine(After(w, route, run).processed[i], j))
  {
    var w' := After(w, route, run);
    hide Tally, Connects, CallsTo, DueSpans, AllHandedOn, EnabledRun, After, Mine, DueTo;
    NothingPending(w);
    NothingPending(w');
    RunCounts(w, route, run);
    Drained(w, route, run);
    forall i, j | 0 <= i < |w.channels| && 0 <= j < |Connects(run)|
      ensures AllHandedOn(Connects(run)[j].addr, Connects(run)[j].trid, DueSpans(route, CallsTo(run, j), i),
                          Mine(w'.processed[i], j))
    {
      RunCalls(w, route, run, j);
      assert Openers(w') == Connects(run) && CallsSoFar(w', j) == CallsTo(run, j);
      DueIsHandedOn(w'.clients[j].ing, route, w'.clients[j].calls, i);
    }
  }
}
