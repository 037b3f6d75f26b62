/** The reaper: which spans are too old, and deleting them through the begin-time index (datastore.go). */
module Reaping {
  import opened Bytes
  import opened Spans
  import opened Keys
  import opened LevelDb
  import opened Index
  import opened Options
  import opened Predicates
  import opened Scans
  import opened Merging
  import opened Shards
  import opened Sources

  // ---------------------------------------------------------------- the reaper's date

  const MAX_SPAN_EXPIRY_MS: Int64 := 0x7ff_ffff_ffff_ffff

  /** `TimeToUnixMs`: nanoseconds to milliseconds, rounded toward zero. */
  function UnixMs(ns: Int64): (ms: Int64)
    ensures -MAX_SPAN_EXPIRY_MS < ms < MAX_SPAN_EXPIRY_MS
  {
    if ns >= 0 then ns / 1_000_000 else -(-(ns as int) / 1_000_000)
  }

  lemma UnixMsTruncates(ns: Int64)
    ensures ns >= 0 ==> UnixMs(ns) * 1_000_000 <= ns < (UnixMs(ns) + 1) * 1_000_000
    ensures ns <= 0 ==> (UnixMs(ns) - 1) * 1_000_000 < ns <= UnixMs(ns) * 1_000_000
  {
  }

  class Reaper {
    const spanExpiryMs: Int64
    var reaperDate: Int64
    var reapedSpans: nat
    /** The date last set from outside, and the clock's readings at the heartbeats since. */
    ghost var base: Int64
    ghost var readings: seq<Int64>

    ghost predicate Valid()
      reads this
    {
      0 < spanExpiryMs <= MAX_SPAN_EXPIRY_MS && reaperDate == DateAfterRun(base, spanExpiryMs, readings)
    }

    /** A period that is not positive, or beyond the maximum, means "never". */
    constructor (configuredMs: Int64)
      ensures Valid() && spanExpiryMs == ExpiryOf(configuredMs) && reaperDate == 0 && reapedSpans == 0
      ensures base == 0 && readings == []
      ensures 0 < configuredMs < MAX_SPAN_EXPIRY_MS ==> spanExpiryMs == configuredMs
    {
      if configuredMs >= MAX_SPAN_EXPIRY_MS {
        spanExpiryMs := MAX_SPAN_EXPIRY_MS;
      } else if configuredMs <= 0 {
        spanExpiryMs := MAX_SPAN_EXPIRY_MS;
      } else {
        spanExpiryMs := configuredMs;
      }
      reaperDate, reapedSpans, base, readings := 0, 0, 0, [];
    }

    /** `ns` is what the system clock reads. The date moves forward or stays. */
    method HandleHeartbeat(ns: Int64)
      requires Valid()
      modifies this`reaperDate, this`readings
      ensures Valid() && readings == old(readings) + [ns]
      ensures reaperDate >= old(reaperDate) && reaperDate >= UnixMs(ns) - spanExpiryMs
      ensures reaperDate == old(reaperDate) || reaperDate == UnixMs(ns) - spanExpiryMs
    {
      var now := UnixMs(ns);
      NoWrap(ns, spanExpiryMs);
      var newReaperDate := Wrap64(now - spanExpiryMs);
      assert (readings + [ns])[..|readings|] == readings;
      if newReaperDate > reaperDate {
        reaperDate := newReaperDate;
      }
      readings := readings + [ns];
    }

    method SetReaperDate(rdate: Int64)
      requires Valid()
      modifies this`reaperDate, this`base, this`readings
      ensures Valid() && reaperDate == base == rdate && readings == []
    {
      reaperDate, base, readings := rdate, rdate, [];
    }
  }

  function ExpiryOf(configuredMs: Int64): (e: Int64)
    ensures 0 < e <= MAX_SPAN_EXPIRY_MS
  {
    if 0 < configuredMs < MAX_SPAN_EXPIRY_MS then configuredMs else MAX_SPAN_EXPIRY_MS
  }

  /** No clock can make the subtraction leave the int64 range. */
  lemma NoWrap(ns: Int64, expiry: Int64)
    requires 0 < expiry <= MAX_SPAN_EXPIRY_MS
    ensures Wrap64(UnixMs(ns) - expiry) == UnixMs(ns) - expiry
  {
  }

  /** The date after a run of heartbeats, computed as the reaper does, in int64 arithmetic. */
  function DateAfterRun(base: Int64, expiry: Int64, readings: seq<Int64>): Int64
    decreases |readings|
  {
    if |readings| == 0 then base
    else
      var date := DateAfterRun(base, expiry, readings[..|readings| - 1]);
      var newDate := Wrap64(UnixMs(readings[|readings| - 1]) - expiry);
      if newDate > date then newDate else date
  }

  /** The latest time, in milliseconds, that the clock has shown. */
  function Latest(readings: seq<Int64>): (m: int)
    requires |readings| > 0
    ensures (exists r :: r in readings && m == UnixMs(r)) && forall r :: r in readings ==> UnixMs(r) <= m
    decreases |readings|
  {
    var n := |readings| - 1;
    assert readings[n] in readings;
    if n == 0 then UnixMs(readings[0])
    else
      var m := Latest(readings[..n]);
      assert readings == readings[..n] + [readings[n]];
      if m < UnixMs(readings[n]) then UnixMs(readings[n]) else m
  }

  /**
   * Over every run of heartbeats since the date was last set, however the clock jumps about, the
   * date is the latest time shown less the expiry, or the date that was set if that is later; so
   * heartbeats never move it back.
   */
  lemma {:induction false} DateIsLatest(base: Int64, expiry: Int64, readings: seq<Int64>)
    requires 0 < expiry <= MAX_SPAN_EXPIRY_MS
    ensures DateAfterRun(base, expiry, readings) ==
            if |readings| > 0 && Latest(readings) - expiry > base then Latest(readings) - expiry else base
    decreases |readings|
  {
    hide Wrap64, Latest, UnixMs;
    if |readings| > 0 {
      var n := |readings| - 1;
      DateIsLatest(base, expiry, readings[..n]);
      LatestStep(readings);
      NoWrap(readings[n], expiry);
    }
  }

  lemma LatestStep(readings: seq<Int64>)
    requires |readings| > 0
    ensures var n := |readings| - 1;
            var now := UnixMs(readings[n]);
            Latest(readings) == if n > 0 && Latest(readings[..n]) >= now then Latest(readings[..n]) else now
  {
    hide UnixMs;
  }

  /** With expiry disabled the date stays at zero whatever the clock shows, and no span counts as expired. */
  lemma DisabledExpiry(configuredMs: Int64, readings: seq<Int64>)
    requires configuredMs <= 0 || configuredMs >= MAX_SPAN_EXPIRY_MS
    ensures DateAfterRun(0, ExpiryOf(configuredMs), readings) == 0
    ensures forall s: Span :: !Expired(s, DateAfterRun(0, ExpiryOf(configuredMs), readings))
  {
    DateIsLatest(0, ExpiryOf(configuredMs), readings);
    if |readings| > 0 {
      var r :| r in readings && Latest(readings) == UnixMs(r);
    }
  }

  /**
   * With an expiry of c milliseconds the date after any readings of the clock is the latest of
   * them less c, or zero while that is not positive; and a span the reaper can see counts as
   * expired exactly if it began more than c before the latest reading.
   */
  lemma EnabledExpiry(c: Int64, readings: seq<Int64>, s: Span)
    requires 0 < c < MAX_SPAN_EXPIRY_MS
    ensures var date := DateAfterRun(0, ExpiryOf(c), readings);
            (readings == [] ==> date == 0) &&
            (readings != [] ==> date == if Latest(readings) <= c then 0 else Latest(readings) - c) &&
            (Expired(s, date) <==> Visible(s) && readings != [] && s.data.begin + c < Latest(readings))
  {
    hide Latest, UnixMs;
    DateIsLatest(0, ExpiryOf(c), readings);
  }

  // ---------------------------------------------------------------- the reaper's source

  /** Begin times from zero on. */
  function ReaperPredicate(): (p: PredicateData)
    ensures IsSource(p)
  {
    PredicateData(GreaterThanOrEquals, BeginTime, Int64Key(0))
  }

  /** The key is appended twice, so the seek also constrains the id. */
  function ReaperSearchKey(): (k: ByteString) {
    [BEGIN_TIME_INDEX_PREFIX] + Int64Key(0) + Int64Key(0)
  }

  /** What the reaper can see: a positive begin time, or zero and an id in the upper half. */
  predicate Visible(s: Span) {
    s.data.begin > 0 || (s.data.begin == 0 && |s.id| > 0 && s.id[0] >= 0x80)
  }

  /** What the reaper deletes at a date. */
  predicate Expired(s: Span, date: Int64) {
    Visible(s) && s.data.begin < date
  }

  lemma ZeroKeyBytes()
    ensures Int64Key(0) == [0x80] + Repeat(0, 7)
  {
  }

  lemma ZeroKeyOrder(id: SpanId)
    requires |id| == SPAN_ID_BYTES
    ensures AtMost(Int64Key(0), id) <==> id[0] >= 0x80
  {
    ZeroKeyBytes();
    assert id == [id[0]] + id[1..];
    LessConcat([0x80], Repeat(0, 7), [id[0]], id[1..]);
    ZerosBelow(7, id[1..]);
  }

  lemma {:induction false} ZerosBelow(n: nat, s: ByteString)
    requires |s| > n
    ensures Less(Repeat(0, n), s)
    decreases n
  {
    if n > 0 {
      ZerosBelow(n - 1, s[1..]);
      assert Repeat(0, n)[1..] == Repeat(0, n - 1);
    }
  }

  /** The reaper's scan yields exactly the visible spans. */
  lemma ReaperYields(db: Db, s: Span)
    requires Complete(db)
    ensures Yields(db, ReaperPredicate(), ReaperSearchKey(), s) <==> Stored(db, s) && Visible(s)
  {
    if Stored(db, s) {
      IndexKeyStored(db, BeginTime, s);
      ReaperOrder(s);
      Int64KeyOrder(s.data.begin, 0);
      Int64KeyOrder(0, s.data.begin);
    }
  }

  lemma ReaperOrder(s: Span)
    requires |s.id| == SPAN_ID_BYTES
    ensures AtMost(ReaperSearchKey(), IndexKey(BeginTime, s)) <==> Visible(s)
  {
    var pre, z, b := [BEGIN_TIME_INDEX_PREFIX], Int64Key(0), Int64Key(s.data.begin);
    Int64KeyOrder(0, s.data.begin);
    LessIrreflexive(pre);
    LessConcat(pre, z, pre, b);
    LessConcat(pre + z, z, pre + b, s.id);
    assert (pre + z)[1..] == z && (pre + b)[1..] == b;
    ZeroKeyOrder(s.id);
    assert |ReaperSearchKey()| < |IndexKey(BeginTime, s)|;
  }

  method CreateReaperSource(shd: Shard) returns (src: Source)
    requires forall k :: k in shd.ldb ==> WellShaped(k)
    ensures fresh(src) && src.Valid() && src.shards == [shd] && src.pred == ReaperPredicate()
    ensures src.nexts == [None] && src.iters == [Some(SeekTo(shd.ldb, ReaperSearchKey()))]
  {
    src := new Source(ReaperPredicate(), [shd], ReaperSearchKey());
  }

  // ---------------------------------------------------------------- pruning

  function Removals(spans: seq<Span>): (run: seq<Event>) {
    seq(|spans|, i requires 0 <= i < |spans| => Remove(spans[i]))
  }

  lemma {:induction false} RunAppend(db: Db, run: seq<Event>, e: Event)
    ensures RunFrom(db, run + [e]) == Step(RunFrom(db, run), e)
    ensures AllowedRun(db, run + [e]) <==> AllowedRun(db, run) && Allowed(RunFrom(db, run), e)
    decreases |run|
  {
    if |run| == 0 {
      assert run + [e] == [e] && [e][1..] == [];
    } else {
      assert (run + [e])[1..] == run[1..] + [e];
      RunAppend(Step(db, run[0]), run[1..], e);
    }
  }

  /** The begin index of an exact shard has one entry per span. */
  lemma OneEntryPerSpan(db: Db, k: ByteString, k': ByteString)
    requires Exact(db) && k in db && k' in db && |k| > SPAN_ID_BYTES && |k'| > SPAN_ID_BYTES
    requires k[0] == k'[0] == BEGIN_TIME_INDEX_PREFIX && IdOfKey(k) == IdOfKey(k')
    ensures k == k'
  {
    assert Owned(db, k) && Owned(db, k');
    hide Exact, Complete, KeysOf, FindSpan;
    SectionKeyOf(BeginTime, FindSpan(db, IdOfKey(k)).value, k);
    SectionKeyOf(BeginTime, FindSpan(db, IdOfKey(k)).value, k');
  }

  /** What the scan emits is stored in the live database and begins at zero or later. */
  lemma MovedEmitsStored(db: Db, a: Iter, b: Iter, t: Span)
    requires Scannable(b) && Moved(db, ReaperPredicate(), a, b, t)
    ensures Stored(db, t) && t.data.begin >= 0
    ensures b.snap == a.snap && Ahead(ReaperPredicate(), b) < Ahead(ReaperPredicate(), a)
  {
    Int64KeyOrder(t.data.begin, 0);
  }

  lemma MergeOne(p: PredicateData, spans: seq<Span>)
    requires IsSource(p)
    ensures Merge(p, [spans]) == spans
    decreases |spans|
  {
    var rests := [spans];
    assert Heads(rests)[..0] == [];
    if |spans| > 0 {
      assert BestOf(p, Heads(rests)) == 0;
      MergeOne(p, spans[1..]);
      assert rests[0 := spans[1..]] == [spans[1..]];
    }
  }

  /** The spans that the deletes of a run concern, and no others, are gone afterwards. */
  lemma {:induction false} RemovalsFind(db: Db, spans: seq<Span>, id: SpanId)
    ensures FindSpan(RunFrom(db, Removals(spans)), id) ==
            if exists s :: s in spans && s.id == id then None else FindSpan(db, id)
    decreases |spans|
  {
    hide Step, Deleted, FindSpan;
    if |spans| > 0 {
      var n := |spans| - 1;
      RemovalsFind(db, spans[..n], id);
      assert Removals(spans) == Removals(spans[..n]) + [Remove(spans[n])];
      RunAppend(db, Removals(spans[..n]), Remove(spans[n]));
      StepFinds(RunFrom(db, Removals(spans[..n])), Remove(spans[n]), id);
      assert spans == spans[..n] + [spans[n]];
    }
  }

  lemma {:induction false} RemovalsKeepExact(db: Db, spans: seq<Span>)
    requires Exact(db) && AllowedRun(db, Removals(spans))
    ensures Exact(RunFrom(db, Removals(spans)))
  {
    RemovalsNotLossy(db, Removals(spans));
    RunRefinesMap(db, Removals(spans));
  }

  lemma {:induction false} RemovalsNotLossy(db: Db, run: seq<Event>)
    requires forall e :: e in run ==> e.Remove?
    ensures NoLossyRewrite(db, run)
    decreases |run|
  {
    hide Step, CoversOldKeys;
    if |run| > 0 {
      assert run[0] in run;
      RemovalsNotLossy(Step(db, run[0]), run[1..]);
    }
  }

  /** The outcome of a complete prune of an exact shard. */
  ghost predicate Pruned(before: Db, after: Db, date: Int64, reaped: seq<Span>) {
    Exact(after) &&
    (forall s :: Stored(after, s) <==> Stored(before, s) && !Expired(s, date)) &&
    (forall s :: s in reaped <==> Stored(before, s) && Expired(s, date)) &&
    forall i, j :: 0 <= i < j < |reaped| ==> reaped[i] != reaped[j]
  }

  lemma RemovalsStored(db: Db, spans: seq<Span>, s: Span)
    requires forall r :: r in spans ==> Stored(db, r)
    ensures Stored(RunFrom(db, Removals(spans)), s) <==> Stored(db, s) && s !in spans
  {
    hide RunFrom;
    RemovalsFind(db, spans, s.id);
    if r :| r in spans && r.id == s.id {
      assert Stored(db, r);
    }
  }
}
