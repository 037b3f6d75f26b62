/** Continuation tokens: when repeating a query from its last result reads on without loss. */
module Paging {
  import opened Bytes
  import opened Spans
  import opened LevelDb
  import opened Index
  import opened Options
  import opened Predicates
  import opened Scans
  import opened Merging
  import opened Sources
  import opened Queries
  import opened Answers

  /** Resuming changes neither the order of results nor their direction. */
  lemma SameOrder(p: PredicateData, prev: Option<Span>, route: SpanId -> int, a: Span, b: Span)
    requires IsSource(p)
    ensures Precedes(ResumePredicate(p, prev), route, a, b) <==> Precedes(p, route, a, b)
  {
  }

  lemma UnlimitedOrder(dbs: seq<Db>, route: SpanId -> int, ps: seq<PredicateData>, prev: Option<Span>)
    requires GoodStore(dbs, route) && forall p :: p in ps ==> WellFormed(p)
    ensures InResultOrder(SourceOf(ps), route, Unlimited(dbs, ps, prev))
  {
    UnlimitedMeans(dbs, route, ps, prev);
    var all := Unlimited(dbs, ps, prev);
    forall i, j | 0 <= i < j < |all| ensures Precedes(SourceOf(ps), route, all[i], all[j]) {
      SameOrder(SourceOf(ps), prev, route, all[i], all[j]);
    }
  }

  /** In an ordered list, the elements after the n-th are those it precedes. */
  lemma TailMembers(p: PredicateData, route: SpanId -> int, all: seq<Span>, n: nat, s: Span)
    requires IsSource(p) && InResultOrder(p, route, all) && 1 <= n <= |all|
    ensures s in all[n..] <==> s in all && Precedes(p, route, all[n - 1], s)
  {
    if s in all && s !in all[n..] {
      var i :| 0 <= i < n && all[i] == s;
      if i < n - 1 {
        PrecedesAsymmetric(p, route, s, all[n - 1]);
      } else if Precedes(p, route, s, s) {
        PrecedesAsymmetric(p, route, s, s);
      }
    }
  }

  /** A continuation is exact when it accepts precisely what comes after the last result. */
  lemma ContinuationFromMembers(p: PredicateData, route: SpanId -> int, all: seq<Span>, n: nat, next: seq<Span>)
    requires IsSource(p) && InResultOrder(p, route, all) && InResultOrder(p, route, next) && 1 <= n <= |all|
    ensures next == all[n..] <==>
            forall s :: s in next <==> s in all && Precedes(p, route, all[n - 1], s)
  {
    forall s: Span ensures s in all[n..] <==> s in all && Precedes(p, route, all[n - 1], s) {
      TailMembers(p, route, all, n, s);
    }
    if forall s :: s in next <==> s in all && Precedes(p, route, all[n - 1], s) {
      OrderedListUnique(p, route, next, all[n..]);
    }
  }

  // ---------------------------------------------------------------- span-id sources

  /** On the span id a resumed scan is a plain scan with the rewritten predicate. */
  lemma IdPageMembers(dbs: seq<Db>, route: SpanId -> int, ps: seq<PredicateData>, prev: Option<Span>, s: Span)
    requires GoodStore(dbs, route) && (forall p :: p in ps ==> WellFormed(p)) && SourceOf(ps).field.SpanIdField?
    ensures s in Unlimited(dbs, ps, prev) <==>
            StoredIn(dbs, s) && Accepts(ResumePredicate(SourceOf(ps), prev), s) && AcceptsAll(OthersOf(ps), s)
  {
    var p := SourceOf(ps);
    var p' := ResumePredicate(p, prev);
    assert SearchKey(p, prev) == PlainSearchKey(p');
    UnlimitedMeans(dbs, route, ps, prev);
    forall i | 0 <= i < |dbs|
      ensures Yields(dbs[i], p', SearchKey(p, prev), s) <==> Stored(dbs[i], s) && Accepts(p', s)
    {
      PlainYields(dbs[i], p', s);
    }
  }

  lemma StoredInIsValid(dbs: seq<Db>, route: SpanId -> int, s: Span)
    requires GoodStore(dbs, route) && StoredIn(dbs, s)
    ensures ValidId(s.id)
  {
    var i :| 0 <= i < |dbs| && Stored(dbs[i], s);
    IndexKeyStored(dbs[i], SpanIdField, s);
  }

  /** By span id, the result order is the id order in the direction of the scan. */
  lemma IdOrder(p: PredicateData, route: SpanId -> int, a: Span, b: Span)
    requires IsSource(p) && p.field.SpanIdField?
    ensures Precedes(p, route, a, b) <==> if p.op.IsDescending() then Less(b.id, a.id) else Less(a.id, b.id)
  {
    LessIrreflexive(a.id);
  }

  /** The rewritten predicate accepts what the previous page's predicate accepts beyond its last span. */
  lemma RewrittenAccepts(p: PredicateData, prev: Option<Span>, last: Span, s: Span)
    requires IsSource(p) && p.field.SpanIdField? && ValidId(last.id) && ValidId(s.id)
    requires Accepts(ResumePredicate(p, prev), last)
    ensures Accepts(ResumePredicate(p, Some(last)), s) <==>
            Accepts(ResumePredicate(p, prev), s) &&
            if p.op.IsDescending() then Less(s.id, last.id) else Less(last.id, s.id)
  {
    var key := ResumePredicate(p, prev).key;
    LessIrreflexive(s.id);
    LessTotal(s.id, last.id);
    LessTotal(s.id, key);
    LessTotal(last.id, key);
    if p.op.IsDescending() {
      PredecessorIsPrev(last.id, s.id);
      if Less(s.id, last.id) && Less(last.id, key) {
        LessTransitive(s.id, last.id, key);
      }
    } else {
      if Less(last.id, s.id) {
        LessAsymmetric(last.id, s.id);
        if Less(key, last.id) {
          LessTransitive(key, last.id, s.id);
          LessAsymmetric(key, s.id);
        }
      }
    }
  }

  /** One page further: the query continued after its n-th result returns the results after the n-th. */
  lemma Continue(dbs: seq<Db>, route: SpanId -> int, ps: seq<PredicateData>, prev: Option<Span>, n: nat)
    requires GoodStore(dbs, route) && (forall p :: p in ps ==> WellFormed(p)) && SourceOf(ps).field.SpanIdField?
    requires 1 <= n <= |Unlimited(dbs, ps, prev)|
    ensures Unlimited(dbs, ps, Some(Unlimited(dbs, ps, prev)[n - 1])) == Unlimited(dbs, ps, prev)[n..]
  {
    var p, all := SourceOf(ps), Unlimited(dbs, ps, prev);
    var last := all[n - 1];
    var next := Unlimited(dbs, ps, Some(last));
    UnlimitedOrder(dbs, route, ps, prev);
    UnlimitedOrder(dbs, route, ps, Some(last));
    IdPageMembers(dbs, route, ps, prev, last);
    StoredInIsValid(dbs, route, last);
    forall s: Span ensures s in next <==> s in all && Precedes(p, route, last, s) {
      IdPageMembers(dbs, route, ps, prev, s);
      IdPageMembers(dbs, route, ps, Some(last), s);
      IdOrder(p, route, last, s);
      if StoredIn(dbs, s) {
        StoredInIsValid(dbs, route, s);
        RewrittenAccepts(p, prev, last, s);
      }
    }
    ContinuationFromMembers(p, route, all, n, next);
  }

  /** The unlimited answer as a function of the continuation token. */
  ghost function AnswerBy(dbs: seq<Db>, ps: seq<PredicateData>): (answer: Option<Span> -> seq<Span>)
    requires forall p :: p in ps ==> WellFormed(p)
    requires forall i :: 0 <= i < |dbs| ==> forall k :: k in dbs[i] ==> WellShaped(k)
    ensures forall prev :: answer(prev) == Unlimited(dbs, ps, prev)
  {
    prev => Unlimited(dbs, ps, prev)
  }

  /** The answer to a query that is continued after the n-th result of a page. */
  ghost function Onward(answer: Option<Span> -> seq<Span>, prev: Option<Span>, n: nat): seq<Span>
    requires 1 <= n <= |answer(prev)|
  {
    answer(Some(answer(prev)[n - 1]))
  }

  /** Answers by continuation token: asking on after the n-th result gives the results after the n-th. */
  ghost predicate ReadsOn(answer: Option<Span> -> seq<Span>) {
    forall prev, n: nat :: 1 <= n <= |answer(prev)| ==> Onward(answer, prev, n) == answer(prev)[n..]
  }

  /** Asking on after the n-th result gives no more than the results after the n-th are. */
  ghost predicate Shrinks(answer: Option<Span> -> seq<Span>) {
    forall prev, n: nat :: 1 <= n <= |answer(prev)| ==> |Onward(answer, prev, n)| <= |answer(prev)| - n
  }

  /** What a client gathers that asks for page after page until one comes back empty. */
  ghost function Pages(answer: Option<Span> -> seq<Span>, lim: nat, prev: Option<Span>): (spans: seq<Span>)
    requires Shrinks(answer)
    decreases |answer(prev)|
  {
    var page := Take(answer(prev), lim);
    if |page| == 0 then []
    else
      assert |Onward(answer, prev, |page|)| <= |answer(prev)| - |page|;
      page + Pages(answer, lim, Some(page[|page| - 1]))
  }

  lemma {:induction false} PagesAreAll(answer: Option<Span> -> seq<Span>, lim: nat, prev: Option<Span>)
    requires ReadsOn(answer) && Shrinks(answer) && lim >= 1
    ensures Pages(answer, lim, prev) == answer(prev)
    decreases |answer(prev)|
  {
    var all := answer(prev);
    var page := Take(all, lim);
    TakeMeans(all, lim);
    hide Take;
    if |page| > 0 {
      assert page[|page| - 1] == all[|page| - 1];
      assert Onward(answer, prev, |page|) == all[|page|..];
      PagesAreAll(answer, lim, Some(page[|page| - 1]));
    }
  }

  /**
   * Paging by span id, with any limit of at least one, yields the unlimited answer: nothing is
   * lost and nothing is repeated.
   */
  lemma PagingExact(dbs: seq<Db>, route: SpanId -> int, ps: seq<PredicateData>, lim: nat, prev: Option<Span>)
    requires GoodStore(dbs, route) && (forall p :: p in ps ==> WellFormed(p)) && SourceOf(ps).field.SpanIdField?
    requires lim >= 1
    ensures var answer := AnswerBy(dbs, ps);
            ReadsOn(answer) && Shrinks(answer) && Pages(answer, lim, prev) == Unlimited(dbs, ps, prev)
  {
    hide Unlimited;
    var answer := AnswerBy(dbs, ps);
    forall pv, n: nat | 1 <= n <= |answer(pv)| ensures Onward(answer, pv, n) == answer(pv)[n..] {
      Continue(dbs, route, ps, pv, n);
    }
    PagesAreAll(answer, lim, prev);
  }
}
