/** Sources of spans: one iterator and at most one buffered span per shard (datastore.go). */
module Sources {
  import opened Bytes
  import opened Spans
  import opened LevelDb
  import opened Index
  import opened Options
  import opened Predicates
  import opened Scans
  import opened Merging
  import opened Shards

  /** What one shard has still to give: the buffered span, then the rest of the scan. */
  ghost function RestOf(db: Db, p: PredicateData, iter: Option<Iter>, next: Option<Span>): (spans: seq<Span>)
    requires IsSource(p) && (iter.Some? ==> Scannable(iter.value))
  {
    (if next.Some? then [next.value] else []) + (if iter.Some? then Scan(db, p, iter.value) else [])
  }

  /** The databases of a list of shards. */
  function Dbs(shards: seq<Shard>): (dbs: seq<Db>)
    reads shards
    ensures |dbs| == |shards| && forall i :: 0 <= i < |shards| ==> dbs[i] == shards[i].ldb
  {
    seq(|shards|, i requires 0 <= i < |shards| reads shards => shards[i].ldb)
  }

  /** From one position to the next the scan has emitted just this span. */
  ghost predicate Moved(db: Db, p: PredicateData, a: Iter, b: Iter, s: Span)
    requires IsSource(p) && Scannable(b)
  {
    b.snap == a.snap && b.keys == a.keys &&
    var at := if p.op.IsDescending() then b.pos + 1 else b.pos - 1;
    0 <= at < |b.keys| && Ahead(p, b) < Ahead(p, a) &&
    b.keys[at] in b.snap && Examine(db, p, b.snap, b.keys[at]) == Emit(s) &&
    Scannable(a) && FirstOf(db, p, a) == Some((s, b))
  }

  class Source {
    const pred: PredicateData
    const shards: seq<Shard>
    var iters: seq<Option<Iter>>
    var nexts: seq<Option<Span>>

    ghost predicate Valid()
      reads this
    {
      IsSource(pred) && |iters| == |nexts| == |shards| &&
      forall i :: 0 <= i < |iters| && iters[i].Some? ==> Scannable(iters[i].value)
    }

    ghost function Rests(): (rests: seq<seq<Span>>)
      requires Valid()
      reads this, shards
      ensures |rests| == |shards|
      ensures forall i :: 0 <= i < |shards| ==> rests[i] == RestOf(shards[i].ldb, pred, iters[i], nexts[i])
    {
      seq(|shards|, i requires 0 <= i < |shards| && Valid() reads this, shards =>
        RestOf(shards[i].ldb, pred, iters[i], nexts[i]))
    }

    /** Everything the source will still hand out, in order. */
    ghost function Remaining(): (spans: seq<Span>)
      requires Valid()
      reads this, shards
    {
      Merge(pred, Rests())
    }

    /** One iterator per shard, each moved to the search key. */
    constructor (pred: PredicateData, shards: seq<Shard>, searchKey: ByteString)
      requires IsSource(pred)
      requires forall i :: 0 <= i < |shards| ==> forall k :: k in shards[i].ldb ==> WellShaped(k)
      ensures Valid() && this.pred == pred && this.shards == shards
      ensures forall i :: 0 <= i < |shards| ==> iters[i] == Some(SeekTo(shards[i].ldb, searchKey)) && nexts[i] == None
    {
      this.pred, this.shards := pred, shards;
      var its: seq<Option<Iter>>, ns: seq<Option<Span>> := [], [];
      for i := 0 to |shards|
        invariant |its| == |ns| == i
        invariant forall j :: 0 <= j < i ==> its[j] == Some(SeekTo(shards[j].ldb, searchKey)) && ns[j] == None
      {
        its, ns := its + [Some(SeekTo(shards[i].ldb, searchKey))], ns + [None];
      }
      iters, nexts := its, ns;
    }

    /** Make sure the shard's next span, if it has one, is in the buffer. */
    method PopulateNextFromShard(idx: nat)
      requires Valid() && idx < |shards|
      modifies this
      ensures Valid() && Rests() == old(Rests())
      ensures nexts[idx] == Head(Rests()[idx])
      ensures nexts == old(nexts)[idx := nexts[idx]]
      ensures old(nexts)[idx].None? && nexts[idx].Some? ==>
                old(iters)[idx].Some? && iters[idx].Some? &&
                Moved(shards[idx].ldb, pred, old(iters)[idx].value, iters[idx].value, nexts[idx].value)
    {
      hide Scan, Moved;
      if iters[idx].None? || nexts[idx].Some? {
        return;
      }
      var it, span := ScanOn(shards[idx].ldb, pred, iters[idx].value);
      if span.Some? {
        iters, nexts := iters[idx := Some(it)], nexts[idx := span];
      } else {
        iters := iters[idx := None];
      }
      assert Rests()[idx] == old(Rests())[idx];
    }

    /** The first span, by the source field, among the shards' next ones; it leaves the source. */
    method Next() returns (best: Option<Span>)
      requires Valid()
      modifies this
      ensures Valid()
      ensures old(Remaining()) == if best.Some? then [best.value] + Remaining() else []
      ensures |shards| == 1 && old(nexts)[0].None? ==>
                nexts[0].None? && (best.Some? ==> StepOf(old(iters)[0], best.value))
    {
      hide Scan, Examine, Moved, SpanIsBefore;
      FillNexts();
      ghost var rests := Rests();
      var bestIdx;
      best, bestIdx := PickBest(pred, nexts);
      if bestIdx >= 0 {
        TakeNext(bestIdx);
      }
      MergeStep(pred, rests, Rests(), best);
    }

    /** The first shard's iterator has moved on past this span. */
    ghost predicate StepOf(before: Option<Iter>, s: Span)
      requires Valid() && |shards| > 0
      reads this, shards
    {
      before.Some? && iters[0].Some? && Moved(shards[0].ldb, pred, before.value, iters[0].value, s)
    }

    /** Fill in every shard's entry. */
    method FillNexts()
      requires Valid()
      modifies this
      ensures Valid() && Rests() == old(Rests()) && nexts == Heads(Rests())
      ensures |shards| == 1 && old(nexts)[0].None? && nexts[0].Some? ==> StepOf(old(iters)[0], nexts[0].value)
    {
      hide Scan, Examine, Moved;
      for i := 0 to |shards|
        invariant Valid() && Rests() == old(Rests())
        invariant forall j :: 0 <= j < i ==> nexts[j] == Head(Rests()[j])
        invariant i == 0 ==> nexts == old(nexts) && iters == old(iters)
        invariant |shards| == 1 && i == 1 && old(nexts)[0].None? && nexts[0].Some? ==>
                    StepOf(old(iters)[0], nexts[0].value)
      {
        PopulateNextFromShard(i);
      }
    }

    /** `nexts[bestIdx] = nil`. */
    method TakeNext(b: nat)
      requires Valid() && b < |shards| && nexts[b].Some?
      modifies this`nexts
      ensures Valid() && Rests() == old(Rests())[b := old(Rests())[b][1..]]
      ensures nexts == old(nexts)[b := None]
    {
      hide Scan;
      ghost var rests := Rests();
      nexts := nexts[b := None];
      assert Rests()[b] == rests[b][1..];
      assert Rests() == rests[b := rests[b][1..]];
    }
  }

  lemma MergeStep(p: PredicateData, rests: seq<seq<Span>>, rests': seq<seq<Span>>, best: Option<Span>)
    requires IsSource(p)
    requires var b := BestOf(p, Heads(rests));
             if b < 0 then best == None && rests' == rests
             else best == Some(rests[b][0]) && rests' == rests[b := rests[b][1..]]
    ensures Merge(p, rests) == if best.Some? then [best.value] + Merge(p, rests') else []
  {
  }

  lemma AtEntry(p: PredicateData, it: Iter)
    requires Scannable(it) && it.Valid()
    ensures it.Key() in it.snap && WellShaped(it.Key())
    ensures Scannable(Advance(p, it)) && Ahead(p, Advance(p, it)) == Ahead(p, it) - 1
  {
    assert it.Key() in it.keys;
  }

  /** Walk one iterator to the next span of the scan; none is left when no span is found. */
  method ScanOn(db: Db, pred: PredicateData, start: Iter) returns (it: Iter, span: Option<Span>)
    requires IsSource(pred) && Scannable(start)
    ensures Scannable(it)
    ensures Scan(db, pred, start) == if span.Some? then [span.value] + Scan(db, pred, it) else []
    ensures span.Some? ==> Moved(db, pred, start, it, span.value)
  {
    hide SatisfiedBy, FindSpan, Scannable;
    it, span := start, None;
    while it.Valid()
      invariant Scannable(it) && Scan(db, pred, it) == Scan(db, pred, start)
      invariant FirstOf(db, pred, it) == FirstOf(db, pred, start)
      invariant it.snap == start.snap && it.keys == start.keys && Ahead(pred, it) <= Ahead(pred, start)
      decreases Ahead(pred, it)
    {
      AtEntry(pred, it);
      var key := it.Key();
      var ret := CheckKeyPrefix(key[0], IndexPrefix(pred.field), pred.op.IsDescending());
      if ret == NotSatisfied {
        return it, None; // past the indexed section
      } else if ret == NotYetSatisfied {
        it := Advance(pred, it);
        continue; // not yet at the indexed section
      }
      span := Rehydrate(db, pred.field, it.snap, key);
      if span.None? {
        return it, None;
      }
      it := Advance(pred, it);
      ret := SatisfiedBy(pred, span.value);
      if ret == Satisfied {
        return; // found a valid entry
      }
      if ret == NotSatisfied {
        return it, None; // this and later entries do not satisfy the predicate
      }
    }
    return it, None; // past the end of the database
  }

  /** The first buffered span in source order, the lowest shard winning ties. */
  method PickBest(pred: PredicateData, nexts: seq<Option<Span>>) returns (best: Option<Span>, bestIdx: int)
    requires IsSource(pred)
    ensures bestIdx == BestOf(pred, nexts)
    ensures best == if bestIdx < 0 then None else nexts[bestIdx]
  {
    best, bestIdx := None, -1;
    for i := 0 to |nexts|
      invariant bestIdx == BestOf(pred, nexts[..i])
      invariant best == if bestIdx < 0 then None else nexts[bestIdx]
    {
      assert nexts[..i + 1][..i] == nexts[..i];
      var span := nexts[i];
      if SpanIsBefore(pred, span, best) {
        best, bestIdx := span, i;
      }
    }
    assert nexts[..|nexts|] == nexts;
  }

  // ---------------------------------------------------------------- continuation tokens

  /** The id a continued query starts from. */
  function StartId(p: PredicateData, prev: Span): SpanId
    requires IsSource(p)
  {
    match p.op
    case Equals => if p.field.SpanIdField? then ZeroId() else Successor(prev.id)
    case LessThanOrEquals => Predecessor(prev.id)
    case _ => prev.id
  }

  /** The predicate a query really scans with: a continued one is rewritten to start after `prev`. */
  function ResumePredicate(p: PredicateData, prev: Option<Span>): (p': PredicateData)
    requires IsSource(p)
    ensures IsSource(p') && p'.field == p.field && p'.op.IsDescending() == p.op.IsDescending()
  {
    match prev
    case None => p
    case Some(s) =>
      PredicateData(if p.op.GreaterThanOrEquals? then GreaterThan else p.op, p.field,
                    if p.field.SpanIdField? then StartId(p, s) else FieldBytes(p.field, s))
  }

  /** The key the iterators are moved to. */
  function SearchKey(p: PredicateData, prev: Option<Span>): (k: ByteString)
    requires IsSource(p)
  {
    match prev
    case None => PlainSearchKey(p)
    case Some(s) =>
      if p.field.SpanIdField? then [IndexPrefix(p.field)] + StartId(p, s)
      else [IndexPrefix(p.field)] + FieldBytes(p.field, s) + StartId(p, s)
  }

  /** What each shard will give to a query that is about to start. */
  ghost function StartRests(dbs: seq<Db>, p: PredicateData, prev: Option<Span>): (rests: seq<seq<Span>>)
    requires IsSource(p)
    requires forall i :: 0 <= i < |dbs| ==> forall k :: k in dbs[i] ==> WellShaped(k)
    ensures |rests| == |dbs|
  {
    seq(|dbs|, i requires 0 <= i < |dbs| => Scan(dbs[i], ResumePredicate(p, prev), SeekTo(dbs[i], SearchKey(p, prev))))
  }

  /** `createSource`. */
  method CreateSource(p: PredicateData, shards: seq<Shard>, prev: Option<Span>) returns (src: Source)
    requires IsSource(p)
    requires forall i :: 0 <= i < |shards| ==> forall k :: k in shards[i].ldb ==> WellShaped(k)
    ensures fresh(src) && src.Valid() && src.shards == shards && src.pred == ResumePredicate(p, prev)
    ensures src.Rests() == StartRests(Dbs(shards), p, prev)
  {
    var pred, searchKey := p, [];
    if prev.Some? {
      var startId := prev.value.id;
      match p.op {
        case Equals =>
          if p.field.SpanIdField? {
            startId := ZeroId();
          } else {
            startId := Spans.Next(prev.value.id);
          }
        case LessThanOrEquals =>
          startId := Spans.Prev(prev.value.id);
        case GreaterThanOrEquals =>
          pred := pred.(op := GreaterThan);
        case GreaterThan =>
      }
      if p.field.SpanIdField? {
        pred := pred.(key := startId);
        searchKey := [IndexPrefix(p.field)] + startId;
      } else {
        pred := pred.(key := FieldBytes(p.field, prev.value));
        searchKey := [IndexPrefix(p.field)] + pred.key + startId;
      }
    } else {
      searchKey := [IndexPrefix(p.field)] + pred.key;
    }
    src := new Source(pred, shards, searchKey);
    FreshRests(src, p, prev);
  }

  lemma FreshRests(src: Source, p: PredicateData, prev: Option<Span>)
    requires IsSource(p) && src.Valid() && src.pred == ResumePredicate(p, prev)
    requires forall i :: 0 <= i < |src.shards| ==> forall k :: k in src.shards[i].ldb ==> WellShaped(k)
    requires forall i :: 0 <= i < |src.shards| ==>
               src.iters[i] == Some(SeekTo(src.shards[i].ldb, SearchKey(p, prev))) && src.nexts[i] == None
    ensures src.Rests() == StartRests(Dbs(src.shards), p, prev)
  {
    forall i | 0 <= i < |src.shards|
      ensures src.Rests()[i] == StartRests(Dbs(src.shards), p, prev)[i]
    {
      var scan := Scan(src.shards[i].ldb, src.pred, src.iters[i].value);
      assert [] + scan == scan;
    }
  }
}
