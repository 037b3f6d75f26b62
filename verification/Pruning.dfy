/** `pruneExpired`: one pass of the reaper over a shard, deleting as it goes (datastore.go). */
module Pruning {
  import opened Spans
  import opened Keys
  import opened LevelDb
  import opened Index
  import opened Options
  import opened Scans
  import opened Merging
  import opened Shards
  import opened Sources
  import opened Reaping
  import opened StrayKeys

  /** Everything a pass without database errors deletes. */
  ghost function WholePass(db: Db, date: Int64): seq<Span>
    requires forall k :: k in db ==> WellShaped(k)
  {
    Reap(db, date, SeekTo(db, ReaperSearchKey()))
  }

  ghost function Rest(db: Db, date: Int64, it: Option<Iter>): seq<Span>
    requires it.Some? ==> Scannable(it.value)
  {
    if it.Some? then Reap(db, date, it.value) else []
  }

  /** A source over one shard with an empty buffer has its scan to give. */
  lemma RemainingOfOne(src: Source)
    requires src.Valid() && |src.shards| == 1 && src.nexts[0].None? && src.iters[0].Some?
    ensures src.Remaining() == Scan(src.shards[0].ldb, src.pred, src.iters[0].value)
  {
    hide Merge, Scan;
    var scan := Scan(src.shards[0].ldb, src.pred, src.iters[0].value);
    assert [] + scan == scan;
    assert src.Rests() == [scan];
    MergeOne(src.pred, scan);
  }

  /** From one database to the other by deleting stored spans that began before the date. */
  ghost predicate OnlyOldDeleted(before: Db, after: Db, date: Int64, reaped: seq<Span>) {
    Complete(after) && AllowedRun(before, Removals(reaped)) && after == RunFrom(before, Removals(reaped)) &&
    forall s :: s in reaped ==> 0 <= s.data.begin < date
  }

  /** What every prune does, with or without database errors. */
  ghost predicate PruneOutcome(before: Db, after: Db, date: Int64, reaped: seq<Span>) {
    OnlyOldDeleted(before, after, date, reaped) &&
    forall s :: s in reaped ==> Stored(before, s) && (Exact(before) ==> Expired(s, date))
  }

  /** The state between two steps of a pass that began on `db0`. */
  ghost predicate InPass(shd: Shard, src: Source, db0: Db, date: Int64, reaped: seq<Span>)
    reads shd, src
  {
    Complete(db0) && OnlyOldDeleted(db0, shd.ldb, date, reaped) &&
    src.Valid() && src.shards == [shd] && src.pred == ReaperPredicate() && src.nexts[0].None? &&
    reaped + Rest(shd.ldb, date, src.iters[0]) == WholePass(db0, date)
  }

  /** How far the pass can still go. */
  ghost function Left(src: Source): int
    reads src
  {
    if |src.iters| > 0 && src.iters[0].Some? then Ahead(ReaperPredicate(), src.iters[0].value) + 1 else 0
  }

  /** The next span, if it is too old; none when the pass is over. */
  method TakeOld(shd: Shard, src: Source, date: Int64, ghost db0: Db, ghost reaped: seq<Span>)
    returns (span: Option<Span>)
    requires InPass(shd, src, db0, date, reaped)
    modifies src
    ensures span.None? ==> reaped == WholePass(db0, date)
    ensures span.Some? ==>
              src.Valid() && src.nexts[0].None? && src.iters[0].Some? && 0 <= Left(src) < old(Left(src)) &&
              Stored(shd.ldb, span.value) && 0 <= span.value.data.begin < date &&
              reaped + [span.value] + Reap(Deleted(shd.ldb, span.value), date, src.iters[0].value) ==
              WholePass(db0, date)
  {
    hide Complete, OnlyOldDeleted, Stored, Scan, Merge, Deleted, Reap, WholePass, FirstOf, Examine;
    ghost var before := src.iters[0];
    NextReaped(src, shd.ldb, date);
    span := src.Next();
    if span.Some? {
      MovedEmitsStored(shd.ldb, before.value, src.iters[0].value, span.value);
      if S2U64(span.value.data.begin) >= S2U64(date) {
        return None;
      }
      ghost var rest := Reap(Deleted(shd.ldb, span.value), date, src.iters[0].value);
      assert reaped + ([span.value] + rest) == (reaped + [span.value]) + rest;
    }
  }

  /** One step of the pass: take the next span and delete it if it is too old. */
  method ReapNext(shd: Shard, src: Source, date: Int64, dbOk: bool, ghost db0: Db, ghost reaped: seq<Span>)
    returns (more: bool, ghost reaped': seq<Span>)
    requires InPass(shd, src, db0, date, reaped)
    modifies shd, src
    ensures more ==> InPass(shd, src, db0, date, reaped') && |reaped'| == |reaped| + 1
    ensures more ==> 0 <= Left(src) < old(Left(src))
    ensures !more ==> reaped' == reaped && OnlyOldDeleted(db0, shd.ldb, date, reaped)
    ensures !more ==> reaped <= WholePass(db0, date) && (dbOk ==> reaped == WholePass(db0, date))
  {
    hide Complete, AllowedRun, RunFrom, Removals, Stored, Deleted, Reap, WholePass;
    reaped' := reaped;
    var span := TakeOld(shd, src, date, db0, reaped);
    if span.None? {
      return false, reaped;
    }
    StepOfPass(db0, reaped, span.value);
    more := shd.DeleteSpan(span.value, dbOk);
    if more {
      reaped' := reaped + [span.value];
    }
  }

  /** What the source gives next, in terms of the pass. */
  lemma NextReaped(src: Source, db: Db, date: Int64)
    requires src.Valid() && |src.shards| == 1 && src.shards[0].ldb == db && src.pred == ReaperPredicate()
    requires src.nexts[0].None?
    ensures src.iters[0].None? ==> src.Remaining() == []
    ensures src.iters[0].Some? ==>
              var it := src.iters[0].value;
              (src.Remaining() == [] <==> FirstOf(db, ReaperPredicate(), it).None?) &&
              Reap(db, date, it) ==
              match FirstOf(db, ReaperPredicate(), it)
              case None => []
              case Some((s, it')) =>
                if s.data.begin >= date || !Scannable(it') then [] else [s] + Reap(Deleted(db, s), date, it')
  {
    hide Scan, Merge, Reap, FirstOf;
    if src.iters[0].Some? {
      RemainingOfOne(src);
      ReapStep(db, date, src.iters[0].value);
    } else {
      assert src.Rests() == [[]];
      MergeOne(src.pred, []);
    }
  }

  lemma PassBegins(shd: Shard, src: Source, date: Int64)
    requires Complete(shd.ldb) && src.Valid() && src.shards == [shd] && src.pred == ReaperPredicate()
    requires src.nexts == [None] && src.iters == [Some(SeekTo(shd.ldb, ReaperSearchKey()))]
    ensures InPass(shd, src, shd.ldb, date, []) && Removals([]) == []
  {
    hide Scan, Merge, Reap;
    assert [] + WholePass(shd.ldb, date) == WholePass(shd.ldb, date);
  }

  lemma StepOfPass(db0: Db, reaped: seq<Span>, s: Span)
    requires Complete(db0) && AllowedRun(db0, Removals(reaped)) && Stored(RunFrom(db0, Removals(reaped)), s)
    ensures AllowedRun(db0, Removals(reaped + [s])) && Complete(RunFrom(db0, Removals(reaped + [s])))
    ensures RunFrom(db0, Removals(reaped + [s])) == Deleted(RunFrom(db0, Removals(reaped)), s)
  {
    RunAppend(db0, Removals(reaped), Remove(s));
    assert Removals(reaped + [s]) == Removals(reaped) + [Remove(s)];
    RunKeepsComplete(db0, Removals(reaped + [s]));
  }

  // ---------------------------------------------------------------- the outcome

  lemma {:induction false} AllowedEach(db: Db, spans: seq<Span>, j: nat)
    requires AllowedRun(db, Removals(spans)) && j < |spans|
    ensures Stored(RunFrom(db, Removals(spans[..j])), spans[j])
    decreases |spans|
  {
    hide Stored, Step;
    var n := |spans| - 1;
    assert Removals(spans) == Removals(spans[..n]) + [Remove(spans[n])];
    RunAppend(db, Removals(spans[..n]), Remove(spans[n]));
    if j < n {
      AllowedEach(db, spans[..n], j);
      assert spans[..n][..j] == spans[..j];
    }
  }

  /** No span is deleted twice. */
  lemma ReapedOnce(db: Db, spans: seq<Span>, i: nat, j: nat)
    requires AllowedRun(db, Removals(spans)) && i < j < |spans|
    ensures spans[i] != spans[j]
  {
    hide RunFrom, AllowedRun, Removals;
    AllowedEach(db, spans, j);
    RemovalsFind(db, spans[..j], spans[j].id);
    assert spans[i] in spans[..j];
  }

  lemma ReapedWereStored(db: Db, after: Db, date: Int64, reaped: seq<Span>)
    requires Complete(db) && reaped <= WholePass(db, date) && OnlyOldDeleted(db, after, date, reaped)
    ensures PruneOutcome(db, after, date, reaped)
  {
    hide WholePass, Exact, Complete, WillBeReaped, Expired, OnlyOldDeleted;
    forall s | s in reaped ensures Stored(db, s) && (Exact(db) ==> Expired(s, date)) {
      WholePassMeans(db, date, s);
      if Exact(db) {
        ExactReaps(db, date, s);
      }
    }
  }

  lemma WholePassMeans(db: Db, date: Int64, s: Span)
    requires Complete(db)
    ensures s in WholePass(db, date) <==> WillBeReaped(db, date, s)
    ensures s in WholePass(db, date) ==> Stored(db, s)
  {
    ReapMeans(db, date, s);
    hide Reap, Clear, InReach;
    if WillBeReaped(db, date, s) {
      var k :| InReach(db, k) && Names(db, k, s) && Clear(db, date, k);
      NamesId(db, k, s);
    }
  }

  lemma PassIsPrune(db: Db, after: Db, date: Int64, reaped: seq<Span>)
    requires Exact(db) && OnlyOldDeleted(db, after, date, reaped) && reaped == WholePass(db, date)
    ensures Pruned(db, after, date, reaped)
  {
    hide Exact, Complete, RunFrom, AllowedRun, Removals, Stored, WholePass, WillBeReaped, Expired;
    ExactComplete(db);
    RemovalsKeepExact(db, reaped);
    forall s ensures s in reaped <==> Stored(db, s) && Expired(s, date) {
      WholePassMeans(db, date, s);
      ExactReaps(db, date, s);
    }
    forall s ensures Stored(after, s) <==> Stored(db, s) && !Expired(s, date) {
      RemovalsStored(db, reaped, s);
    }
    forall i, j | 0 <= i < j < |reaped| ensures reaped[i] != reaped[j] {
      ReapedOnce(db, reaped, i, j);
    }
  }

  lemma ExactComplete(db: Db)
    requires Exact(db)
    ensures Complete(db)
  {
  }

  /**
   * `pruneExpired`. Whatever the state of the index, only stored spans that began before the date
   * are deleted, each once and each counted; without a database error they are exactly those that
   * no stray key shields. On an exact index they are expired ones, and without an error all of them.
   */
  method PruneExpired(shd: Shard, rpr: Reaper, dbOk: nat -> bool) returns (ghost reaped: seq<Span>)
    requires Complete(shd.ldb)
    modifies shd, rpr`reapedSpans
    ensures PruneOutcome(old(shd.ldb), shd.ldb, rpr.reaperDate, reaped)
    ensures rpr.reapedSpans == old(rpr.reapedSpans) + |reaped|
    ensures (forall n :: dbOk(n)) ==> forall s :: s in reaped <==> WillBeReaped(old(shd.ldb), rpr.reaperDate, s)
    ensures Exact(old(shd.ldb)) && (forall n :: dbOk(n)) ==> Pruned(old(shd.ldb), shd.ldb, rpr.reaperDate, reaped)
  {
    ghost var db0 := shd.ldb;
    var src := CreateReaperSource(shd);
    PassBegins(shd, src, rpr.reaperDate);
    hide Exact, Complete, OnlyOldDeleted, PruneOutcome, Pruned, InPass, WholePass, WillBeReaped;
    var totalReaped := 0;
    reaped := [];
    while true
      invariant fresh(src) && totalReaped == |reaped| && rpr.reapedSpans == old(rpr.reapedSpans)
      invariant InPass(shd, src, db0, rpr.reaperDate, reaped)
      decreases Left(src)
    {
      var more;
      more, reaped := ReapNext(shd, src, rpr.reaperDate, dbOk(totalReaped), db0, reaped);
      if !more {
        break;
      }
      totalReaped := totalReaped + 1;
    }
    ReapedWereStored(db0, shd.ldb, rpr.reaperDate, reaped);
    if reaped == WholePass(db0, rpr.reaperDate) {
      forall s ensures s in reaped <==> WillBeReaped(db0, rpr.reaperDate, s) {
        WholePassMeans(db0, rpr.reaperDate, s);
      }
      if Exact(db0) {
        PassIsPrune(db0, shd.ldb, rpr.reaperDate, reaped);
      }
    }
    rpr.reapedSpans := rpr.reapedSpans + totalReaped;
  }
}
