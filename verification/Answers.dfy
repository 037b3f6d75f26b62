/** What a query's answer is, stated over the stored spans alone. */
module Answers {
  import opened Bytes
  import opened Spans
  import opened Keys
  import opened LevelDb
  import opened Index
  import opened Options
  import opened Predicates
  import opened Scans
  import opened Merging
  import opened Sources
  import opened Queries

  /** Every shard's index is exact, and every span lies in the shard its id is routed to. */
  ghost predicate GoodStore(dbs: seq<Db>, route: SpanId -> int) {
    forall i :: 0 <= i < |dbs| ==> Exact(dbs[i]) && forall s :: Stored(dbs[i], s) ==> route(s.id) == i
  }

  ghost predicate StoredIn(dbs: seq<Db>, s: Span) {
    exists i :: 0 <= i < |dbs| && Stored(dbs[i], s)
  }

  /** Some shard's scan yields the span. */
  ghost predicate YieldedBySome(dbs: seq<Db>, p: PredicateData, prev: Option<Span>, s: Span)
    requires IsSource(p)
  {
    exists i :: 0 <= i < |dbs| && Yields(dbs[i], ResumePredicate(p, prev), SearchKey(p, prev), s)
  }

  /** Iterators never start before the section's share that the predicate can accept. */
  lemma SearchKeyFits(p: PredicateData, prev: Option<Span>)
    requires IsSource(p)
    ensures IsIndexed(SearchKey(p, prev))
    ensures var p' := ResumePredicate(p, prev); AtMost([IndexPrefix(p'.field)] + p'.key, SearchKey(p, prev))
  {
    if prev.Some? && !p.field.SpanIdField? {
      var k := [IndexPrefix(p.field)] + FieldBytes(p.field, prev.value);
      LessConcat(k, [], k, StartId(p, prev.value));
      assert k + [] == k;
    }
  }

  lemma StartRestsMean(dbs: seq<Db>, route: SpanId -> int, p: PredicateData, prev: Option<Span>)
    requires GoodStore(dbs, route) && IsSource(p)
    ensures var p', rests := ResumePredicate(p, prev), StartRests(dbs, p, prev);
            Mergeable(p', route, rests) &&
            forall s :: InSome(rests, s) <==> YieldedBySome(dbs, p, prev, s)
  {
    var p', key, rests := ResumePredicate(p, prev), SearchKey(p, prev), StartRests(dbs, p, prev);
    SearchKeyFits(p, prev);
    forall i | 0 <= i < |dbs|
      ensures InVisitOrder(p', rests[i])
      ensures forall s :: s in rests[i] <==> Yields(dbs[i], p', key, s)
      ensures forall s: Span :: s in rests[i] ==> |s.id| == SPAN_ID_BYTES && route(s.id) == i
    {
      ScanFromSeek(dbs[i], p', key);
      forall s: Span | s in rests[i] ensures |s.id| == SPAN_ID_BYTES {
        IndexKeyStored(dbs[i], p.field, s);
      }
    }
    forall s: Span ensures InSome(rests, s) <==> YieldedBySome(dbs, p, prev, s) {
      if InSome(rests, s) {
        var i :| 0 <= i < |rests| && s in rests[i];
        assert Yields(dbs[i], p', key, s);
      }
      if YieldedBySome(dbs, p, prev, s) {
        var i :| 0 <= i < |dbs| && Yields(dbs[i], p', key, s);
        assert s in rests[i];
      }
    }
  }

  lemma {:induction false} FilterMeans(ps: seq<PredicateData>, p: PredicateData, route: SpanId -> int, spans: seq<Span>)
    requires (forall q :: q in ps ==> WellFormed(q)) && IsSource(p) && InResultOrder(p, route, spans)
    ensures forall s :: s in Filter(ps, spans) <==> s in spans && AcceptsAll(ps, s)
    ensures InResultOrder(p, route, Filter(ps, spans))
    decreases |spans|
  {
    if |spans| > 0 {
      var h, rest := spans[0], spans[1..];
      FilterMeans(ps, p, route, rest);
      assert spans == [h] + rest;
      forall s | s in Filter(ps, rest) ensures Precedes(p, route, h, s) {
        assert s in rest;
      }
    }
  }

  /** The unlimited answer: the yielded spans that pass the other predicates, once each, in result order. */
  lemma UnlimitedMeans(dbs: seq<Db>, route: SpanId -> int, ps: seq<PredicateData>, prev: Option<Span>)
    requires GoodStore(dbs, route) && forall p :: p in ps ==> WellFormed(p)
    ensures forall s :: s in Unlimited(dbs, ps, prev) <==>
              YieldedBySome(dbs, SourceOf(ps), prev, s) && AcceptsAll(OthersOf(ps), s)
    ensures InResultOrder(ResumePredicate(SourceOf(ps), prev), route, Unlimited(dbs, ps, prev))
  {
    var p := SourceOf(ps);
    var p' := ResumePredicate(p, prev);
    StartRestsMean(dbs, route, p, prev);
    MergeSorts(p', route, StartRests(dbs, p, prev));
    FilterMeans(OthersOf(ps), p', route, Merge(p', StartRests(dbs, p, prev)));
  }

  // ---------------------------------------------------------------- first pages

  /**
   * A span the scan passes over: LE on a secondary index, the span equals the bound, and its
   * shard holds another such span with a smaller id.
   */
  ghost predicate Missed(db: Db, p: PredicateData, s: Span)
    requires IsSource(p)
  {
    p.op.LessThanOrEquals? && !p.field.SpanIdField? && FieldBytes(p.field, s) == p.key && !LeastTie(db, p.field, s)
  }

  lemma SourceAndOthers(ps: seq<PredicateData>, s: Span)
    requires (forall p :: p in ps ==> WellFormed(p)) && |s.id| == SPAN_ID_BYTES
    ensures AcceptsAll(ps, s) <==> Accepts(SourceOf(ps), s) && AcceptsAll(OthersOf(ps), s)
  {
    var i := SourceIndex(ps);
    if i < |ps| {
      assert ps == ps[..i] + [ps[i]] + ps[i + 1..];
    } else {
      ZeroIsLeast(s.id);
      if Less(ZeroId(), s.id) {
        LessAsymmetric(ZeroId(), s.id);
      }
      LessIrreflexive(s.id);
    }
  }

  /** The first page of a query, span by span. */
  lemma FirstPage(dbs: seq<Db>, route: SpanId -> int, ps: seq<PredicateData>, s: Span)
    requires GoodStore(dbs, route) && forall p :: p in ps ==> WellFormed(p)
    ensures s in Unlimited(dbs, ps, None) <==>
            exists i :: 0 <= i < |dbs| && Stored(dbs[i], s) && AcceptsAll(ps, s) && !Missed(dbs[i], SourceOf(ps), s)
  {
    UnlimitedMeans(dbs, route, ps, None);
    forall i | 0 <= i < |dbs|
      ensures Yields(dbs[i], SourceOf(ps), SearchKey(SourceOf(ps), None), s) && AcceptsAll(OthersOf(ps), s) <==>
              Stored(dbs[i], s) && AcceptsAll(ps, s) && !Missed(dbs[i], SourceOf(ps), s)
    {
      PlainYields(dbs[i], SourceOf(ps), s);
      if Stored(dbs[i], s) {
        IndexKeyStored(dbs[i], SpanIdField, s);
        SourceAndOthers(ps, s);
      }
    }
  }

  /** The list holds each stored span that satisfies every predicate, once, in result order. */
  ghost predicate IsFullAnswer(dbs: seq<Db>, route: SpanId -> int, ps: seq<PredicateData>, spans: seq<Span>)
    requires forall p :: p in ps ==> WellFormed(p)
  {
    InResultOrder(SourceOf(ps), route, spans) &&
    forall s :: s in spans <==> StoredIn(dbs, s) && AcceptsAll(ps, s)
  }

  /**
   * A query computes the filter over the stored spans exactly when its scan misses none of them;
   * it always does for EQ, GE, GT, for LE on the span id and for the default scan.
   */
  lemma QueryIsFilterIff(dbs: seq<Db>, route: SpanId -> int, ps: seq<PredicateData>)
    requires GoodStore(dbs, route) && forall p :: p in ps ==> WellFormed(p)
    ensures IsFullAnswer(dbs, route, ps, Unlimited(dbs, ps, None)) <==>
            forall i, s :: 0 <= i < |dbs| && Stored(dbs[i], s) && AcceptsAll(ps, s) ==> !Missed(dbs[i], SourceOf(ps), s)
    ensures !SourceOf(ps).op.LessThanOrEquals? || SourceOf(ps).field.SpanIdField? ==>
            IsFullAnswer(dbs, route, ps, Unlimited(dbs, ps, None))
  {
    UnlimitedMeans(dbs, route, ps, None);
    var all := Unlimited(dbs, ps, None);
    forall s: Span
      ensures s in all <==>
              exists i :: 0 <= i < |dbs| && Stored(dbs[i], s) && AcceptsAll(ps, s) && !Missed(dbs[i], SourceOf(ps), s)
    {
      FirstPage(dbs, route, ps, s);
    }
    if IsFullAnswer(dbs, route, ps, all) {
      forall i, s | 0 <= i < |dbs| && Stored(dbs[i], s) && AcceptsAll(ps, s)
        ensures !Missed(dbs[i], SourceOf(ps), s)
      {
        assert StoredIn(dbs, s) && s in all;
        var j :| 0 <= j < |dbs| && Stored(dbs[j], s) && !Missed(dbs[j], SourceOf(ps), s);
        assert route(s.id) == i == j;
      }
    }
  }

  /** Two distinct stored spans of one shard whose field equals the bound. */
  ghost predicate HoldsTies(db: Db, p: PredicateData)
    requires IsSource(p)
  {
    exists s, t :: Stored(db, s) && Stored(db, t) && s != t &&
                   FieldBytes(p.field, s) == p.key && FieldBytes(p.field, t) == p.key
  }

  /** For a single LE predicate on a time or the duration: complete exactly when no shard holds ties at the bound. */
  lemma LessOrEqualComplete(dbs: seq<Db>, route: SpanId -> int, p: PredicateData)
    requires GoodStore(dbs, route) && IsSource(p) && p.op.LessThanOrEquals? && !p.field.SpanIdField?
    ensures IsFullAnswer(dbs, route, [p], Unlimited(dbs, [p], None)) <==>
            forall i :: 0 <= i < |dbs| ==> !HoldsTies(dbs[i], p)
  {
    QueryIsFilterIff(dbs, route, [p]);
    assert SourceOf([p]) == p;
    forall i | 0 <= i < |dbs|
      ensures (exists s :: Stored(dbs[i], s) && AcceptsAll([p], s) && Missed(dbs[i], p, s)) <==> HoldsTies(dbs[i], p)
    {
      TiesAreMissed(dbs[i], p);
    }
  }

  lemma TiesAreMissed(db: Db, p: PredicateData)
    requires Exact(db) && IsSource(p) && p.op.LessThanOrEquals? && !p.field.SpanIdField?
    ensures (exists s :: Stored(db, s) && AcceptsAll([p], s) && Missed(db, p, s)) <==> HoldsTies(db, p)
  {
    hide Exact, AcceptsAll, Less;
    if s :| Stored(db, s) && AcceptsAll([p], s) && Missed(db, p, s) {
      var t :| Stored(db, t) && FieldBytes(p.field, t) == FieldBytes(p.field, s) && !AtMost(s.id, t.id);
      assert s != t;
    }
    if HoldsTies(db, p) {
      var s, t :| Stored(db, s) && Stored(db, t) && s != t &&
                  FieldBytes(p.field, s) == p.key && FieldBytes(p.field, t) == p.key;
      LessTotal(s.id, t.id);
      if Less(s.id, t.id) {
        HigherTieMissed(db, p, s, t);
      } else {
        HigherTieMissed(db, p, t, s);
      }
    }
  }

  lemma HigherTieMissed(db: Db, p: PredicateData, lo: Span, hi: Span)
    requires IsSource(p) && p.op.LessThanOrEquals? && !p.field.SpanIdField?
    requires Stored(db, lo) && Stored(db, hi) && Less(lo.id, hi.id)
    requires FieldBytes(p.field, lo) == FieldBytes(p.field, hi) == p.key
    ensures Missed(db, p, hi) && AcceptsAll([p], hi)
  {
    LessAsymmetric(lo.id, hi.id);
    assert !AtMost(hi.id, lo.id);
  }

  // ---------------------------------------------------------------- in the client's terms

  /** The value by which a query orders spans; ids are numbers of 128 bits. */
  function SortValue(f: Field, s: Span): int {
    match f
    case BeginTime => s.data.begin
    case EndTime => s.data.end
    case DurationField => Wrap64(s.data.end - s.data.begin)
    case _ => Bytes.Value(s.id)
  }

  /** By value, then by shard, then by id; values and ids go down for LE and up otherwise. */
  ghost predicate Follows(op: Op, f: Field, route: SpanId -> int, a: Span, b: Span) {
    var x, y, m, n := SortValue(f, a), SortValue(f, b), Bytes.Value(a.id), Bytes.Value(b.id);
    var i, j := route(a.id), route(b.id);
    if op == LessThanOrEquals then x > y || (x == y && (i < j || (i == j && m > n)))
    else x < y || (x == y && (i < j || (i == j && m < n)))
  }

  /** The predicate that decides the order: the first on an id, a time or a duration; ids upwards if there is none. */
  ghost predicate Orders(ps: seq<Predicate>, op: Op, f: Field) {
    if exists p :: p in ps && HasIndex(p.field) then
      exists i :: 0 <= i < |ps| && ps[i].op == op && ps[i].field == f && HasIndex(f) &&
                  forall j :: 0 <= j < i ==> !HasIndex(ps[j].field)
    else op == GreaterThanOrEquals && f == SpanIdField
  }

  lemma SortValueOrder(f: Field, a: Span, b: Span)
    requires f in {SpanIdField, BeginTime, EndTime, DurationField} && |a.id| == |b.id|
    ensures Less(FieldBytes(f, a), FieldBytes(f, b)) <==> SortValue(f, a) < SortValue(f, b)
    ensures FieldBytes(f, a) == FieldBytes(f, b) <==> SortValue(f, a) == SortValue(f, b)
  {
    hide Less, Int64Key, Bytes.Value;
    if f == SpanIdField {
      LessIsNumeric(a.id, b.id);
      if Bytes.Value(a.id) == Bytes.Value(b.id) {
        ValueInjective(a.id, b.id);
      }
    } else {
      Int64KeyOrder(SortValue(f, a), SortValue(f, b));
    }
  }

  lemma FollowsIsPrecedes(p: PredicateData, route: SpanId -> int, a: Span, b: Span)
    requires IsSource(p) && |a.id| == |b.id|
    ensures Precedes(p, route, a, b) <==> Follows(p.op, p.field, route, a, b)
  {
    hide Less, FieldBytes, SortValue, Bytes.Value;
    SortValueOrder(p.field, a, b);
    SortValueOrder(p.field, b, a);
    LessIsNumeric(a.id, b.id);
    LessIsNumeric(b.id, a.id);
  }

  /** Ordered as the deciding predicate says. */
  ghost predicate InOrder(preds: seq<Predicate>, route: SpanId -> int, spans: seq<Span>) {
    forall op, f :: Orders(preds, op, f) ==>
      forall i, j :: 0 <= i < j < |spans| ==> Follows(op, f, route, spans[i], spans[j])
  }

  /** Every predicate of a query holds of the span. */
  ghost predicate AllHold(preds: seq<Predicate>, parsers: Parsers, s: Span) {
    forall p :: p in preds ==> Holds(p, parsers, s)
  }

  /** The list a client should get: each stored span that satisfies every predicate, once, in order. */
  ghost predicate IsAnswerTo(dbs: seq<Db>, route: SpanId -> int, preds: seq<Predicate>, parsers: Parsers,
                             spans: seq<Span>)
  {
    InOrder(preds, route, spans) && forall s :: s in spans <==> StoredIn(dbs, s) && AllHold(preds, parsers, s)
  }

  /** On stored spans, the order a client is promised is the order of the merge. */
  lemma OrderedAlike(dbs: seq<Db>, route: SpanId -> int, preds: seq<Predicate>, parsers: Parsers, spans: seq<Span>)
    requires GoodStore(dbs, route) && (forall p :: p in preds ==> Loadable(p, parsers))
    requires forall s :: s in spans ==> StoredIn(dbs, s)
    ensures InResultOrder(SourceOf(LoadAll(preds, parsers).value), route, spans) <==>
            InOrder(preds, route, spans)
  {
    hide LoadAll, SourceOf, Orders, Loadable, Stored, Precedes, Follows;
    var p := SourceOf(LoadAll(preds, parsers).value);
    OrdersSource(preds, parsers);
    forall op, f | Orders(preds, op, f) ensures op == p.op && f == p.field {
      OrdersUnique(preds, op, f, p.op, p.field);
    }
    forall i, j | 0 <= i < j < |spans|
      ensures Precedes(p, route, spans[i], spans[j]) <==> Follows(p.op, p.field, route, spans[i], spans[j])
    {
      StoredIdLength(dbs, route, spans[i]);
      StoredIdLength(dbs, route, spans[j]);
      FollowsIsPrecedes(p, route, spans[i], spans[j]);
    }
  }

  lemma StoredIdLength(dbs: seq<Db>, route: SpanId -> int, s: Span)
    requires GoodStore(dbs, route) && StoredIn(dbs, s)
    ensures |s.id| == SPAN_ID_BYTES
  {
    var k :| 0 <= k < |dbs| && Stored(dbs[k], s);
    IndexKeyStored(dbs[k], SpanIdField, s);
  }

  lemma OrdersUnique(preds: seq<Predicate>, op: Op, f: Field, op': Op, f': Field)
    requires Orders(preds, op, f) && Orders(preds, op', f')
    ensures op == op' && f == f'
  {
    hide HasIndex;
  }

  lemma LoadedAlike(preds: seq<Predicate>, parsers: Parsers, i: nat)
    requires (forall p :: p in preds ==> Loadable(p, parsers)) && i < |preds|
    ensures var ds := LoadAll(preds, parsers).value; ds[i].field == preds[i].field && ds[i].op == preds[i].op
  {
    hide LoadAll;
    assert LoadPredicateData(preds[i], parsers) == Ok(LoadAll(preds, parsers).value[i]);
  }

  lemma OrdersSource(preds: seq<Predicate>, parsers: Parsers)
    requires forall p :: p in preds ==> Loadable(p, parsers)
    ensures var p := SourceOf(LoadAll(preds, parsers).value); Orders(preds, p.op, p.field)
  {
    hide LoadAll, SourceOf, Loadable, LoadPredicateData, HasIndex, WellFormed;
    var ds := LoadAll(preds, parsers).value;
    forall i | 0 <= i < |preds| ensures ds[i].field == preds[i].field && ds[i].op == preds[i].op {
      LoadedAlike(preds, parsers, i);
    }
    var p := SourceOf(ds);
    SourceIsFirstIndexed(ds);
    if FirstIndexed(ds, p) {
      var i :| 0 <= i < |ds| && ds[i] == p && HasIndex(p.field) && forall j :: 0 <= j < i ==> !HasIndex(ds[j].field);
      assert preds[i] in preds;
    } else {
      forall q | q in preds ensures !HasIndex(q.field) {
        var i :| 0 <= i < |preds| && preds[i] == q;
        assert ds[i] in ds;
      }
    }
  }

  /**
   * End to end: if all predicates load, the answer to a first-page query is a prefix, as long as
   * the limit allows, of a list that is what the client should get exactly if the source passes
   * over no stored span of which all the predicates hold.
   */
  lemma QueryAnswer(dbs: seq<Db>, route: SpanId -> int, q: Query, parsers: Parsers)
    requires GoodStore(dbs, route) && q.prev.None? && forall p :: p in q.predicates ==> Loadable(p, parsers)
    ensures var ps := LoadAll(q.predicates, parsers).value;
            var full := Unlimited(dbs, ps, None);
            Answer(dbs, q, parsers) == Ok(full[..if q.lim <= |full| then q.lim else |full|]) &&
            (IsAnswerTo(dbs, route, q.predicates, parsers, full) <==>
             forall i, s :: 0 <= i < |dbs| && Stored(dbs[i], s) && AllHold(q.predicates, parsers, s) ==>
               !Missed(dbs[i], SourceOf(ps), s))
  {
    hide LoadAll, SourceOf, Unlimited, Missed, AllHold, IsAnswerTo, Loadable, Stored;
    var ps := LoadAll(q.predicates, parsers).value;
    var full := Unlimited(dbs, ps, None);
    TakeMeans(full, q.lim);
    AnswerIff(dbs, route, q.predicates, parsers, ps);
  }

  lemma AnswerIff(dbs: seq<Db>, route: SpanId -> int, preds: seq<Predicate>, parsers: Parsers, ps: seq<PredicateData>)
    requires GoodStore(dbs, route) && (forall p :: p in preds ==> Loadable(p, parsers))
    requires LoadAll(preds, parsers) == Ok(ps)
    ensures IsAnswerTo(dbs, route, preds, parsers, Unlimited(dbs, ps, None)) <==>
            forall i, s :: 0 <= i < |dbs| && Stored(dbs[i], s) && AllHold(preds, parsers, s) ==>
              !Missed(dbs[i], SourceOf(ps), s)
  {
    hide LoadAll, SourceOf, Unlimited, AcceptsAll, AllHold, Missed, InOrder, InResultOrder, Loadable, Stored;
    forall s: Span ensures AcceptsAll(ps, s) <==> AllHold(preds, parsers, s) {
      AcceptsAllIsHolds(preds, parsers, s);
    }
    QueryIsFilterIff(dbs, route, ps);
    var full := Unlimited(dbs, ps, None);
    UnlimitedStored(dbs, route, ps);
    OrderedAlike(dbs, route, preds, parsers, full);
  }

  lemma UnlimitedStored(dbs: seq<Db>, route: SpanId -> int, ps: seq<PredicateData>)
    requires GoodStore(dbs, route) && forall p :: p in ps ==> WellFormed(p)
    ensures forall s :: s in Unlimited(dbs, ps, None) ==> StoredIn(dbs, s)
    ensures InResultOrder(SourceOf(ps), route, Unlimited(dbs, ps, None))
  {
    hide SourceOf, Unlimited, Yields;
    UnlimitedMeans(dbs, route, ps, None);
    forall s | s in Unlimited(dbs, ps, None) ensures StoredIn(dbs, s) {
      FirstPage(dbs, route, ps, s);
    }
  }

  /** There is no other such list. */
  lemma AnswerUnique(dbs: seq<Db>, route: SpanId -> int, preds: seq<Predicate>, parsers: Parsers,
                     a: seq<Span>, b: seq<Span>)
    requires GoodStore(dbs, route) && forall p :: p in preds ==> Loadable(p, parsers)
    requires IsAnswerTo(dbs, route, preds, parsers, a) && IsAnswerTo(dbs, route, preds, parsers, b)
    ensures a == b
  {
    hide LoadAll, SourceOf, AllHold, InOrder, InResultOrder, Loadable, Stored;
    OrderedAlike(dbs, route, preds, parsers, a);
    OrderedAlike(dbs, route, preds, parsers, b);
    OrderedListUnique(SourceOf(LoadAll(preds, parsers).value), route, a, b);
  }

  lemma AcceptsAllIsHolds(preds: seq<Predicate>, parsers: Parsers, s: Span)
    requires forall p :: p in preds ==> Loadable(p, parsers)
    ensures AcceptsAll(LoadAll(preds, parsers).value, s) <==> AllHold(preds, parsers, s)
  {
    var ds := LoadAll(preds, parsers).value;
    forall i | 0 <= i < |preds| ensures Accepts(ds[i], s) <==> Holds(preds[i], parsers, s) {
      AcceptsIsHolds(preds[i], parsers, s);
    }
    assert AcceptsAll(ds, s) <==> forall i :: 0 <= i < |ds| ==> Accepts(ds[i], s);
    assert (forall p :: p in preds ==> Holds(p, parsers, s)) <==>
           forall i :: 0 <= i < |preds| ==> Holds(preds[i], parsers, s);
  }
}
