/**
 * Whole runs of pages on the time and duration indexes by EQ and LE, where a run need not come
 * to an end.
 */
module SecondaryRuns {
  import opened Bytes
  import opened Spans
  import opened LevelDb
  import opened Index
  import opened Options
  import opened Predicates
  import opened Scans
  import opened Merging
  import opened Sources
  import opened Queries
  import opened Answers
  import opened Paging
  import opened SecondaryPaging

  /**
   * What a client has gathered once a page comes back empty, if that happens within the given
   * number of pages.
   */
  ghost function Gather(answer: Option<Span> -> seq<Span>, lim: nat, prev: Option<Span>, pages: nat)
    : Option<seq<Span>>
    decreases pages
  {
    if pages == 0 then None
    else
      var page := Take(answer(prev), lim);
      if |page| == 0 then Some([])
      else
        match Gather(answer, lim, Some(page[|page| - 1]), pages - 1)
        case None => None
        case Some(more) => Some(page + more)
  }

  /** The run comes to an end, and what it has gathered is the whole answer, in order and once each. */
  ghost predicate GathersAll(answer: Option<Span> -> seq<Span>, lim: nat, prev: Option<Span>) {
    exists pages :: Gather(answer, lim, prev, pages) == Some(answer(prev))
  }

  /** However many pages are asked for, none of them is empty. */
  ghost predicate NeverEnds(answer: Option<Span> -> seq<Span>, lim: nat, prev: Option<Span>) {
    forall pages :: Gather(answer, lim, prev, pages).None?
  }

  // ---------------------------------------------------------------- EQ

  /** Every page of `lim` results, and the whole list, ends with the greatest id so far, smaller than all later ones. */
  ghost predicate PagesById(all: seq<Span>, lim: nat)
    requires lim >= 1
  {
    forall n :: 0 < n <= |all| && (n % lim == 0 || n == |all|) ==> CutsById(all, n)
  }

  /** The store, as an EQ query on a time or the duration sees it. */
  ghost predicate EqualsStore(dbs: seq<Db>, route: SpanId -> int, ps: seq<PredicateData>) {
    GoodStore(dbs, route) && (forall p :: p in ps ==> WellFormed(p)) &&
    SourceOf(ps).op.Equals? && IsSecondary(SourceOf(ps))
  }

  /** Once the greatest id is among the results, every page has a next one. */
  lemma {:induction false} GreatestGoesOn(dbs: seq<Db>, route: SpanId -> int, ps: seq<PredicateData>, lim: nat,
                                          prev: Option<Span>, top: Span, pages: nat)
    requires EqualsStore(dbs, route, ps) && lim >= 1 && top in Unlimited(dbs, ps, prev) && top.id == MaxId()
    ensures Gather(AnswerBy(dbs, ps), lim, prev, pages).None?
    decreases pages
  {
    hide Unlimited;
    if pages > 0 {
      var all := Unlimited(dbs, ps, prev);
      var page := Take(all, lim);
      var last := page[|page| - 1];
      assert last in all;
      EqualsContinuation(dbs, route, ps, prev, last, top);
      if last.id != MaxId() {
        BelowGreatest(dbs, route, ps, prev, last);
      }
      GreatestGoesOn(dbs, route, ps, lim, Some(last), top, pages - 1);
    }
  }

  lemma BelowGreatest(dbs: seq<Db>, route: SpanId -> int, ps: seq<PredicateData>, prev: Option<Span>, s: Span)
    requires EqualsStore(dbs, route, ps) && s in Unlimited(dbs, ps, prev) && s.id != MaxId()
    ensures Less(s.id, MaxId())
  {
    hide Unlimited;
    EqualsMembers(dbs, route, ps, prev, s);
    StoredInIsValid(dbs, route, s);
    MaxIsGreatest(s.id);
  }

  ghost predicate NoGreatest(all: seq<Span>) {
    forall s :: s in all ==> s.id != MaxId()
  }

  /** Without the greatest id, a continued page holds the results with greater ids, and a run gathers nothing else. */
  lemma NextById(dbs: seq<Db>, route: SpanId -> int, ps: seq<PredicateData>, prev: Option<Span>, last: Span)
    requires EqualsStore(dbs, route, ps) && last in Unlimited(dbs, ps, prev) && NoGreatest(Unlimited(dbs, ps, prev))
    ensures forall s :: s in Unlimited(dbs, ps, Some(last)) <==> s in Unlimited(dbs, ps, prev) && Less(last.id, s.id)
    ensures NoGreatest(Unlimited(dbs, ps, Some(last)))
  {
    hide Unlimited;
    forall s: Span
      ensures s in Unlimited(dbs, ps, Some(last)) <==> s in Unlimited(dbs, ps, prev) && Less(last.id, s.id)
    {
      EqualsContinuation(dbs, route, ps, prev, last, s);
    }
  }

  lemma {:induction false} GatheredAreResults(dbs: seq<Db>, route: SpanId -> int, ps: seq<PredicateData>, lim: nat,
                                              prev: Option<Span>, pages: nat)
    requires EqualsStore(dbs, route, ps) && NoGreatest(Unlimited(dbs, ps, prev))
    ensures var g := Gather(AnswerBy(dbs, ps), lim, prev, pages);
            g.Some? ==> forall s :: s in g.value ==> s in Unlimited(dbs, ps, prev)
    decreases pages
  {
    hide Unlimited;
    if pages > 0 {
      var all := Unlimited(dbs, ps, prev);
      var page := Take(all, lim);
      if |page| > 0 {
        var last := page[|page| - 1];
        assert last in all;
        NextById(dbs, route, ps, prev, last);
        GatheredAreResults(dbs, route, ps, lim, Some(last), pages - 1);
      }
    }
  }

  /** A continuation that is not the rest of the answer is not made up for by the pages after it. */
  lemma WrongNext(p: PredicateData, route: SpanId -> int, all: seq<Span>, n: nat, next: seq<Span>, more: seq<Span>)
    requires IsSource(p) && InResultOrder(p, route, all) && InResultOrder(p, route, next) && 1 <= n <= |all|
    requires forall s :: s in next <==> s in all && Less(all[n - 1].id, s.id)
    requires (forall s :: s in more ==> s in next) && (|next| > 0 ==> |more| > 0 && more[0] == next[0])
    requires all[n - 1].id != MaxId() && !CutsById(all, n)
    ensures more != all[n..]
  {
    var i :| 0 <= i < |all| && !(n <= i <==> Less(all[n - 1].id, all[i].id));
    if n <= i {
      assert all[i] in all[n..] && all[i] !in more;
    } else {
      assert all[i] in next;
      var j :| 0 <= j < |next| && next[j] == all[i];
      if n < |all| {
        PrecedesAsymmetric(p, route, all[i], all[n]);
        assert j > 0 ==> Precedes(p, route, next[0], next[j]);
        assert next[0] != all[n];
      }
    }
  }

  lemma PagesByIdShift(all: seq<Span>, lim: nat)
    requires lim >= 1 && |all| > 0
    ensures var n := |Take(all, lim)|;
            CutsById(all, n) ==> (PagesById(all, lim) <==> PagesById(all[n..], lim))
    ensures PagesById(all, lim) ==> CutsById(all, |Take(all, lim)|)
  {
    var n := |Take(all, lim)|;
    ModShift(0, lim);
    assert n == |all| || n % lim == 0;
    if CutsById(all, n) {
      var rest := all[n..];
      forall m | 0 < m <= |rest| ensures CutsById(rest, m) <==> CutsById(all, m + n) {
        CutShift(all, n, m);
      }
      if |rest| > 0 {
        RestPages(all, lim);
      } else {
        forall m | 0 < m < |all| && m % lim == 0 ensures false {
          Multiples(m, lim);
        }
      }
    }
  }

  lemma CutShift(all: seq<Span>, n: nat, m: nat)
    requires 1 <= n <= |all| && CutsById(all, n) && 0 < m <= |all| - n
    ensures CutsById(all[n..], m) <==> CutsById(all, m + n)
  {
    var rest := all[n..];
    assert rest[m - 1] == all[m + n - 1];
    if CutsById(rest, m) {
      forall i | 0 <= i < |all| ensures m + n <= i <==> Less(all[m + n - 1].id, all[i].id) {
        if i >= n {
          assert rest[i - n] == all[i];
        } else {
          assert Less(all[n - 1].id, all[m + n - 1].id);
          NotAbove(all, n, i, all[m + n - 1].id);
        }
      }
    }
    if CutsById(all, m + n) {
      forall i | 0 <= i < |rest| ensures m <= i <==> Less(rest[m - 1].id, rest[i].id) {
        assert rest[i] == all[i + n];
      }
    }
  }

  /** What is not above one id is not above a greater one. */
  lemma NotAbove(all: seq<Span>, n: nat, i: nat, id: SpanId)
    requires 1 <= n <= |all| && i < n && CutsById(all, n) && Less(all[n - 1].id, id)
    ensures !Less(id, all[i].id)
  {
    if Less(id, all[i].id) {
      LessTransitive(all[n - 1].id, id, all[i].id);
    }
  }

  lemma RestPages(all: seq<Span>, lim: nat)
    requires lim >= 1 && lim < |all|
    requires forall m :: 0 < m <= |all| - lim ==> (CutsById(all[lim..], m) <==> CutsById(all, m + lim))
    requires CutsById(all, lim)
    ensures PagesById(all, lim) <==> PagesById(all[lim..], lim)
  {
    hide CutsById;
    var rest := all[lim..];
    if PagesById(all, lim) {
      forall m | 0 < m <= |rest| && (m % lim == 0 || m == |rest|) ensures CutsById(rest, m) {
        ModShift(m, lim);
        assert CutsById(all, m + lim);
      }
    }
    if PagesById(rest, lim) {
      forall m | 0 < m <= |all| && (m % lim == 0 || m == |all|) ensures CutsById(all, m) {
        if m % lim == 0 {
          Multiples(m, lim);
        }
        if m > lim {
          ModShift(m - lim, lim);
          assert CutsById(rest, m - lim);
        }
      }
    }
  }

  /** If every page ends rightly, the pages are the answer. */
  lemma {:induction false} GoodPagesGather(dbs: seq<Db>, route: SpanId -> int, ps: seq<PredicateData>, lim: nat,
                                           prev: Option<Span>)
    requires EqualsStore(dbs, route, ps) && lim >= 1 && PagesById(Unlimited(dbs, ps, prev), lim)
    ensures GathersAll(AnswerBy(dbs, ps), lim, prev)
    decreases |Unlimited(dbs, ps, prev)|
  {
    hide Unlimited, PagesById, CutsById;
    var answer, all := AnswerBy(dbs, ps), Unlimited(dbs, ps, prev);
    if |all| == 0 {
      assert Gather(answer, lim, prev, 1) == Some([]);
    } else {
      var n := |Take(all, lim)|;
      var last := all[n - 1];
      PagesByIdShift(all, lim);
      EqualsContinuesIff(dbs, route, ps, prev, n);
      GoodPagesGather(dbs, route, ps, lim, Some(last));
      var pages: nat :| Gather(answer, lim, Some(last), pages) == Some(answer(Some(last)));
      assert Gather(answer, lim, prev, pages + 1) == Some(Take(all, lim) + all[n..]);
      TakeMeans(all, lim);
    }
  }

  /** If the pages are the answer, every page ends rightly. */
  lemma {:induction false} GatheredPagesAreGood(dbs: seq<Db>, route: SpanId -> int, ps: seq<PredicateData>, lim: nat,
                                                prev: Option<Span>, pages: nat)
    requires EqualsStore(dbs, route, ps) && lim >= 1
    requires Gather(AnswerBy(dbs, ps), lim, prev, pages) == Some(Unlimited(dbs, ps, prev))
    ensures PagesById(Unlimited(dbs, ps, prev), lim)
    decreases pages
  {
    hide Unlimited, PagesById, CutsById, Gather, TiesByIdAfter;
    var answer, all := AnswerBy(dbs, ps), Unlimited(dbs, ps, prev);
    if |all| == 0 {
      NoPages(all, lim);
    } else {
      NotGreatest(dbs, route, ps, lim, prev, pages);
      GatherStep(answer, lim, prev, pages);
      var n := |Take(all, lim)|;
      PagesByIdShift(all, lim);
      EqualsContinuesIff(dbs, route, ps, prev, n);
      if CutsById(all, n) {
        GatheredPagesAreGood(dbs, route, ps, lim, Some(all[n - 1]), pages - 1);
      } else {
        StrayPages(dbs, route, ps, lim, prev, n, pages - 1, all[n..]);
      }
    }
  }

  lemma GatherStep(answer: Option<Span> -> seq<Span>, lim: nat, prev: Option<Span>, pages: nat)
    requires lim >= 1 && |answer(prev)| > 0 && Gather(answer, lim, prev, pages) == Some(answer(prev))
    ensures var all := answer(prev);
            var n := |Take(all, lim)|;
            pages > 0 && Gather(answer, lim, Some(all[n - 1]), pages - 1) == Some(all[n..])
  {
    var all := answer(prev);
    var page := Take(all, lim);
    var more := Gather(answer, lim, Some(page[|page| - 1]), pages - 1).value;
    assert (page + more)[|page|..] == more;
  }

  lemma NoPages(all: seq<Span>, lim: nat)
    requires lim >= 1 && |all| == 0
    ensures PagesById(all, lim)
  {
  }

  lemma NotGreatest(dbs: seq<Db>, route: SpanId -> int, ps: seq<PredicateData>, lim: nat, prev: Option<Span>,
                    pages: nat)
    requires EqualsStore(dbs, route, ps) && lim >= 1 && Gather(AnswerBy(dbs, ps), lim, prev, pages).Some?
    ensures NoGreatest(Unlimited(dbs, ps, prev))
  {
    hide Unlimited, Gather;
    forall s | s in Unlimited(dbs, ps, prev) ensures s.id != MaxId() {
      if s.id == MaxId() {
        GreatestGoesOn(dbs, route, ps, lim, prev, s, pages);
      }
    }
  }

  lemma StrayPages(dbs: seq<Db>, route: SpanId -> int, ps: seq<PredicateData>, lim: nat, prev: Option<Span>, n: nat,
                   pages: nat, more: seq<Span>)
    requires EqualsStore(dbs, route, ps) && lim >= 1 && NoGreatest(Unlimited(dbs, ps, prev))
    requires 1 <= n <= |Unlimited(dbs, ps, prev)| && !CutsById(Unlimited(dbs, ps, prev), n)
    requires Gather(AnswerBy(dbs, ps), lim, Some(Unlimited(dbs, ps, prev)[n - 1]), pages) == Some(more)
    ensures more != Unlimited(dbs, ps, prev)[n..]
  {
    hide Unlimited, CutsById;
    var all := Unlimited(dbs, ps, prev);
    var last := all[n - 1];
    assert last in all;
    NextById(dbs, route, ps, prev, last);
    GatheredAreResults(dbs, route, ps, lim, Some(last), pages);
    UnlimitedOrder(dbs, route, ps, prev);
    UnlimitedOrder(dbs, route, ps, Some(last));
    WrongNext(SourceOf(ps), route, all, n, Unlimited(dbs, ps, Some(last)), more);
  }

  /**
   * Paging through an EQ query on a time or the duration comes to an end with the whole answer
   * exactly when every page, the last included, ends with an id that is greater than those before
   * it, smaller than those after it, and not the greatest id there is.
   */
  lemma EqualsPagingIff(dbs: seq<Db>, route: SpanId -> int, ps: seq<PredicateData>, lim: nat, prev: Option<Span>)
    requires EqualsStore(dbs, route, ps) && lim >= 1
    ensures GathersAll(AnswerBy(dbs, ps), lim, prev) <==> PagesById(Unlimited(dbs, ps, prev), lim)
  {
    hide Unlimited, PagesById, Gather;
    if PagesById(Unlimited(dbs, ps, prev), lim) {
      GoodPagesGather(dbs, route, ps, lim, prev);
    }
    if GathersAll(AnswerBy(dbs, ps), lim, prev) {
      var pages: nat :| Gather(AnswerBy(dbs, ps), lim, prev, pages) == Some(AnswerBy(dbs, ps)(prev));
      GatheredPagesAreGood(dbs, route, ps, lim, prev, pages);
    }
  }

  // ---------------------------------------------------------------- LE

  /** No stored span that the other predicates accept has just below it a tie that they reject. */
  ghost predicate NoRejectedTieBelow(dbs: seq<Db>, ps: seq<PredicateData>)
    requires (forall p :: p in ps ==> WellFormed(p)) && IsSecondary(SourceOf(ps))
  {
    forall i, s, t :: 0 <= i < |dbs| && Stored(dbs[i], s) && Stored(dbs[i], t) ==>
      (AcceptsAll(OthersOf(ps), s) && IsTieBelow(SourceOf(ps).field, s, t) ==> AcceptsAll(OthersOf(ps), t))
  }

  predicate IsTieBelow(f: Field, s: Span, t: Span)
    requires !f.UnknownField?
  {
    FieldBytes(f, t) == FieldBytes(f, s) && t.id == Predecessor(s.id)
  }

  /** After a result of a LE query there is always a next page: it holds that result, or the tie just below it. */
  lemma LessOrEqualGoesOn(dbs: seq<Db>, route: SpanId -> int, ps: seq<PredicateData>, prev: Option<Span>, last: Span)
    requires GoodStore(dbs, route) && forall p :: p in ps ==> WellFormed(p)
    requires SourceOf(ps).op.LessThanOrEquals? && IsSecondary(SourceOf(ps)) && NoRejectedTieBelow(dbs, ps)
    requires last in Unlimited(dbs, ps, prev)
    ensures Unlimited(dbs, ps, Some(last)) != []
  {
    hide Unlimited, Predecessor, NoRejectedTieBelow;
    PageMembers(dbs, route, ps, prev, last);
    var i :| 0 <= i < |dbs| && Yields(dbs[i], ResumePredicate(SourceOf(ps), prev), SearchKey(SourceOf(ps), prev), last);
    LessOrEqualRepeats(dbs, route, ps, prev, i, last);
    if HasTieWithId(dbs[i], SourceOf(ps).field, last, Predecessor(last.id)) {
      var t :| Stored(dbs[i], t) && FieldBytes(SourceOf(ps).field, t) == FieldBytes(SourceOf(ps).field, last) &&
               t.id == Predecessor(last.id);
      TieBelowIsNext(dbs, route, ps, i, last, t);
    }
  }

  lemma TieBelowIsNext(dbs: seq<Db>, route: SpanId -> int, ps: seq<PredicateData>, i: nat, last: Span, t: Span)
    requires GoodStore(dbs, route) && forall p :: p in ps ==> WellFormed(p)
    requires SourceOf(ps).op.LessThanOrEquals? && IsSecondary(SourceOf(ps)) && NoRejectedTieBelow(dbs, ps)
    requires i < |dbs| && Stored(dbs[i], last) && Stored(dbs[i], t) && AcceptsAll(OthersOf(ps), last)
    requires IsTieBelow(SourceOf(ps).field, last, t)
    ensures t in Unlimited(dbs, ps, Some(last))
  {
    hide Unlimited, Predecessor, FieldBytes, Stored, Less;
    LessOrEqualMembers(dbs, route, ps, Some(last), i, t);
    LessIrreflexive(FieldBytes(SourceOf(ps).field, t));
    assert Reached(dbs[i], SourceOf(ps).field, Predecessor(last.id), t);
  }

  /**
   * Paging through a LE query on a time or the duration never comes to an end once it has a
   * result: whatever the limit, the number of shards and the page it starts from, no page is
   * empty, unless another predicate rejects the tie just below a result.
   */
  lemma {:induction false} LessOrEqualNeverEnds(dbs: seq<Db>, route: SpanId -> int, ps: seq<PredicateData>, lim: nat,
                                                prev: Option<Span>, pages: nat)
    requires GoodStore(dbs, route) && forall p :: p in ps ==> WellFormed(p)
    requires SourceOf(ps).op.LessThanOrEquals? && IsSecondary(SourceOf(ps)) && NoRejectedTieBelow(dbs, ps)
    requires lim >= 1 && Unlimited(dbs, ps, prev) != []
    ensures Gather(AnswerBy(dbs, ps), lim, prev, pages).None?
    decreases pages
  {
    hide Unlimited, NoRejectedTieBelow;
    if pages > 0 {
      var all := Unlimited(dbs, ps, prev);
      var last := all[|Take(all, lim)| - 1];
      assert last in all;
      LessOrEqualGoesOn(dbs, route, ps, prev, last);
      LessOrEqualNeverEnds(dbs, route, ps, lim, Some(last), pages - 1);
    }
  }

  /** In particular for a query of that one predicate, on every store. */
  lemma LessOrEqualAloneNeverEnds(dbs: seq<Db>, route: SpanId -> int, p: PredicateData, lim: nat, prev: Option<Span>)
    requires GoodStore(dbs, route) && IsSecondary(p) && p.op.LessThanOrEquals? && lim >= 1
    requires Unlimited(dbs, [p], prev) != []
    ensures NeverEnds(AnswerBy(dbs, [p]), lim, prev)
  {
    hide Unlimited, Gather;
    assert SourceOf([p]) == p && OthersOf([p]) == [];
    forall pages: nat ensures Gather(AnswerBy(dbs, [p]), lim, prev, pages).None? {
      LessOrEqualNeverEnds(dbs, route, [p], lim, prev, pages);
    }
  }
}
