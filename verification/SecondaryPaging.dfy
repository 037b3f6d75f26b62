/**
 * Continuation tokens on the time and duration indexes: for every token, the exact condition
 * under which the continued query returns the rest of the answer.
 */
module SecondaryPaging {
  import opened Bytes
  import opened Spans
  import opened Keys
  import opened LevelDb
  import opened Index
  import opened Options
  import opened Predicates
  import opened Scans
  import opened Merging
  import opened Sources
  import opened Queries
  import opened Answers
  import opened Paging

  /** A source on a time or the duration. */
  predicate IsSecondary(p: PredicateData) {
    IsSource(p) && !p.field.SpanIdField?
  }

  /** The id that a page starts from; the first page starts below every id. */
  function FromId(p: PredicateData, prev: Option<Span>): (id: SpanId)
    requires IsSource(p)
  {
    match prev case None => ZeroId() case Some(s) => StartId(p, s)
  }

  /** A continued scan of a secondary index starts at the key that a span like `last` would have. */
  lemma SearchKeyIsIndexKey(p: PredicateData, last: Span)
    requires IsSecondary(p)
    ensures SearchKey(p, Some(last)) == IndexKey(p.field, last.(id := StartId(p, last)))
  {
    hide FieldBytes, StartId;
    SameField(p.field, last, StartId(p, last));
  }

  lemma PageMembers(dbs: seq<Db>, route: SpanId -> int, ps: seq<PredicateData>, prev: Option<Span>, s: Span)
    requires GoodStore(dbs, route) && forall p :: p in ps ==> WellFormed(p)
    ensures s in Unlimited(dbs, ps, prev) <==>
            YieldedBySome(dbs, SourceOf(ps), prev, s) && AcceptsAll(OthersOf(ps), s)
  {
    UnlimitedMeans(dbs, route, ps, prev);
  }

  lemma StoredUniquely(dbs: seq<Db>, route: SpanId -> int, i: nat, j: nat, s: Span)
    requires GoodStore(dbs, route) && i < |dbs| && j < |dbs| && Stored(dbs[i], s) && Stored(dbs[j], s)
    ensures i == j
  {
    assert route(s.id) == i;
  }

  /** Among spans of one field value, index order is id order. */
  lemma TieOrder(f: Field, a: Span, b: Span)
    requires IndexPrefix(f) != 0 && |a.id| == |b.id| == SPAN_ID_BYTES && FieldBytes(f, a) == FieldBytes(f, b)
    ensures AtMost(IndexKey(f, a), IndexKey(f, b)) <==> AtMost(a.id, b.id)
  {
    IndexKeyOrder(f, a, b);
    LessIrreflexive(FieldBytes(f, a));
    if IndexKey(f, a) == IndexKey(f, b) {
      IndexKeyInjective(f, a, b);
    }
  }

  lemma NotAmongLater(p: PredicateData, route: SpanId -> int, all: seq<Span>, n: nat)
    requires IsSource(p) && InResultOrder(p, route, all) && 1 <= n <= |all|
    ensures all[n - 1] !in all[n..]
  {
    if all[n - 1] in all[n..] {
      var i :| n <= i < |all| && all[i] == all[n - 1];
      assert Precedes(p, route, all[n - 1], all[i]);
      PrecedesAsymmetric(p, route, all[i], all[i]);
    }
  }

  // ---------------------------------------------------------------- GE and GT

  /** A greater field value comes later in the index, whatever the ids. */
  lemma GreaterFieldLater(f: Field, a: Span, id: SpanId, b: Span)
    requires IndexPrefix(f) != 0 && !f.SpanIdField? && Less(FieldBytes(f, a), FieldBytes(f, b))
    ensures AtMost([IndexPrefix(f)] + FieldBytes(f, a) + id, IndexKey(f, b))
  {
    var pre, x, y := [IndexPrefix(f)], FieldBytes(f, a), FieldBytes(f, b);
    LessConcat(pre, x, pre, y);
    LessConcat(pre + x, id, pre + y, b.id);
  }

  /** A page of a GE or GT query holds what its rewritten predicate accepts. */
  lemma GreaterMembers(dbs: seq<Db>, route: SpanId -> int, ps: seq<PredicateData>, prev: Option<Span>, s: Span)
    requires GoodStore(dbs, route) && forall p :: p in ps ==> WellFormed(p)
    requires SourceOf(ps).op in {GreaterThanOrEquals, GreaterThan} && IsSecondary(SourceOf(ps))
    ensures s in Unlimited(dbs, ps, prev) <==>
            StoredIn(dbs, s) && Accepts(ResumePredicate(SourceOf(ps), prev), s) && AcceptsAll(OthersOf(ps), s)
  {
    hide Unlimited, Yields, SearchKey, ResumePredicate;
    PageMembers(dbs, route, ps, prev, s);
    forall i | 0 <= i < |dbs| {
      GreaterYields(dbs[i], SourceOf(ps), prev, s);
    }
  }

  lemma GreaterYields(db: Db, p: PredicateData, prev: Option<Span>, s: Span)
    requires Exact(db) && IsSecondary(p) && p.op in {GreaterThanOrEquals, GreaterThan}
    ensures Yields(db, ResumePredicate(p, prev), SearchKey(p, prev), s) <==>
            Stored(db, s) && Accepts(ResumePredicate(p, prev), s)
  {
    hide Exact, IndexKey;
    match prev
    case None =>
      PlainYields(db, p, s);
    case Some(last) =>
      var x, y := FieldBytes(p.field, last), FieldBytes(p.field, s);
      LessTotal(y, x);
      if Less(x, y) {
        GreaterFieldLater(p.field, last, StartId(p, last), s);
      }
  }

  /** The rewritten predicate accepts what the previous page's predicate accepts beyond its last field value. */
  lemma GreaterRewritten(p: PredicateData, prev: Option<Span>, last: Span, s: Span)
    requires IsSecondary(p) && p.op in {GreaterThanOrEquals, GreaterThan}
    requires Accepts(ResumePredicate(p, prev), last)
    ensures Accepts(ResumePredicate(p, Some(last)), s) <==>
            Accepts(ResumePredicate(p, prev), s) && FieldBefore(p, last, s)
  {
    var key, x, y := ResumePredicate(p, prev).key, FieldBytes(p.field, last), FieldBytes(p.field, s);
    LessTotal(x, y);
    LessIrreflexive(x);
    LessTotal(key, x);
    LessTotal(key, y);
    if Less(x, y) {
      LessAsymmetric(x, y);
      if Less(key, x) {
        LessTransitive(key, x, y);
      }
      if Less(y, key) {
        LessTransitive(x, y, key);
      }
    }
    if Less(key, y) {
      LessAsymmetric(key, y);
    }
  }

  /** The continued page: the results beyond the last one's field value. */
  lemma GreaterContinuation(dbs: seq<Db>, route: SpanId -> int, ps: seq<PredicateData>, prev: Option<Span>, last: Span)
    requires GoodStore(dbs, route) && forall p :: p in ps ==> WellFormed(p)
    requires SourceOf(ps).op in {GreaterThanOrEquals, GreaterThan} && IsSecondary(SourceOf(ps))
    requires last in Unlimited(dbs, ps, prev)
    ensures forall s :: s in Unlimited(dbs, ps, Some(last)) <==>
                        s in Unlimited(dbs, ps, prev) && FieldBefore(SourceOf(ps), last, s)
  {
    GreaterMembers(dbs, route, ps, prev, last);
    forall s: Span
      ensures s in Unlimited(dbs, ps, Some(last)) <==>
              s in Unlimited(dbs, ps, prev) && FieldBefore(SourceOf(ps), last, s)
    {
      GreaterMembers(dbs, route, ps, prev, s);
      GreaterMembers(dbs, route, ps, Some(last), s);
      GreaterRewritten(SourceOf(ps), prev, last, s);
    }
  }

  /** A list cut after its n-th element, when the continuation holds only strictly later field values. */
  lemma CutAtTies(p: PredicateData, route: SpanId -> int, all: seq<Span>, n: nat, next: seq<Span>)
    requires IsSource(p) && InResultOrder(p, route, all) && InResultOrder(p, route, next) && 1 <= n <= |all|
    requires forall s :: s in next <==> s in all && FieldBefore(p, all[n - 1], s)
    ensures next == all[n..] <==> NoTieAt(p.field, all, n)
    ensures |next| <= |all| - n && (|next| == |all| - n ==> next == all[n..])
  {
    var last := all[n - 1];
    ContinuationFromMembers(p, route, all, n, next);
    forall s | s in next ensures s in all[n..] {
      TailMembers(p, route, all, n, s);
    }
    NoLonger(p, route, next, all[n..]);
    if n < |all| {
      var t := all[n];
      assert t in all && Precedes(p, route, last, t);
      FieldBeforeTotal(p, last, t);
      if FieldBytes(p.field, t) != FieldBytes(p.field, last) {
        forall s | s in all && Precedes(p, route, last, s) ensures FieldBefore(p, last, s) {
          TailMembers(p, route, all, n, s);
          var i :| n <= i < |all| && all[i] == s;
          assert i > n ==> Precedes(p, route, t, s);
          if i > n && FieldBefore(p, t, s) {
            FieldBeforeTransitive(p, last, t, s);
          }
        }
      }
    } else {
      forall s: Span ensures !(s in all && Precedes(p, route, last, s)) {
        TailMembers(p, route, all, n, s);
      }
    }
  }

  /** An ordered list without members outside another is shorter than that one, or equals it. */
  lemma NoLonger(p: PredicateData, route: SpanId -> int, a: seq<Span>, b: seq<Span>)
    requires IsSource(p) && InResultOrder(p, route, a) && InResultOrder(p, route, b) && forall s :: s in a ==> s in b
    ensures |a| <= |b| && (|a| == |b| ==> a == b)
  {
    var xs, ys := set s | s in a, set s | s in b;
    assert ys == xs + (ys - xs);
    OrderedSize(p, route, a);
    OrderedSize(p, route, b);
    if |a| == |b| {
      assert |ys - xs| == 0;
      forall s | s in b ensures s in a {
        assert s in ys - xs || s in xs;
      }
      OrderedListUnique(p, route, a, b);
    }
  }

  lemma {:induction false} OrderedSize(p: PredicateData, route: SpanId -> int, a: seq<Span>)
    requires IsSource(p) && InResultOrder(p, route, a)
    ensures |set s | s in a| == |a|
    decreases |a|
  {
    if |a| > 0 {
      OrderedSize(p, route, a[1..]);
      NotInTail(p, route, a, a[0]);
      assert (set s | s in a) == {a[0]} + set s | s in a[1..];
    }
  }

  /** The list has no two neighbours of one field value at this cut. */
  ghost predicate NoTieAt(f: Field, all: seq<Span>, n: nat)
    requires !f.UnknownField?
  {
    0 < n < |all| ==> FieldBytes(f, all[n]) != FieldBytes(f, all[n - 1])
  }

  /** Stored, accepted by the predicates other than the source, and of one field value with this span. */
  ghost predicate IsTie(dbs: seq<Db>, ps: seq<PredicateData>, last: Span, s: Span)
    requires forall p :: p in ps ==> WellFormed(p)
  {
    StoredIn(dbs, s) && AcceptsAll(OthersOf(ps), s) &&
    FieldBytes(SourceOf(ps).field, s) == FieldBytes(SourceOf(ps).field, last)
  }

  /** No tie of the span comes after it. */
  ghost predicate LastOfTies(dbs: seq<Db>, route: SpanId -> int, ps: seq<PredicateData>, last: Span)
    requires forall p :: p in ps ==> WellFormed(p)
  {
    forall s :: IsTie(dbs, ps, last, s) ==> !TieBefore(SourceOf(ps), route, last, s)
  }

  lemma GreaterLastOfTies(dbs: seq<Db>, route: SpanId -> int, ps: seq<PredicateData>, prev: Option<Span>, n: nat)
    requires GoodStore(dbs, route) && forall p :: p in ps ==> WellFormed(p)
    requires SourceOf(ps).op in {GreaterThanOrEquals, GreaterThan} && IsSecondary(SourceOf(ps))
    requires 1 <= n <= |Unlimited(dbs, ps, prev)|
    ensures var all := Unlimited(dbs, ps, prev);
            Unlimited(dbs, ps, Some(all[n - 1])) == all[n..] <==> LastOfTies(dbs, route, ps, all[n - 1])
  {
    hide Unlimited;
    var p, all := SourceOf(ps), Unlimited(dbs, ps, prev);
    var last := all[n - 1];
    var next := Unlimited(dbs, ps, Some(last));
    UnlimitedOrder(dbs, route, ps, prev);
    UnlimitedOrder(dbs, route, ps, Some(last));
    GreaterContinuation(dbs, route, ps, prev, last);
    ContinuationFromMembers(p, route, all, n, next);
    GreaterMembers(dbs, route, ps, prev, last);
    forall s: Span
      ensures IsTie(dbs, ps, last, s) <==> s in all && FieldBytes(p.field, s) == FieldBytes(p.field, last)
    {
      GreaterMembers(dbs, route, ps, prev, s);
    }
    hide GoodStore, AcceptsAll, TieBefore, IsTie;
    forall s: Span ensures FieldBefore(p, last, s) ==> FieldBytes(p.field, s) != FieldBytes(p.field, last) {
      FieldBeforeTotal(p, last, s);
    }
    NoLaterTie(p, route, dbs, ps, all, last, next);
  }

  lemma NoLaterTie(p: PredicateData, route: SpanId -> int, dbs: seq<Db>, ps: seq<PredicateData>, all: seq<Span>,
                   last: Span, next: seq<Span>)
    requires (forall p :: p in ps ==> WellFormed(p)) && p == SourceOf(ps) && IsSource(p)
    requires forall s :: s in next <==> s in all && FieldBefore(p, last, s)
    requires forall s :: IsTie(dbs, ps, last, s) <==> s in all && FieldBytes(p.field, s) == FieldBytes(p.field, last)
    requires forall s :: FieldBefore(p, last, s) ==> FieldBytes(p.field, s) != FieldBytes(p.field, last)
    ensures (forall s :: s in next <==> s in all && Precedes(p, route, last, s)) <==> LastOfTies(dbs, route, ps, last)
  {
    hide FieldBefore, FieldBytes, TieBefore, IsTie;
    if forall s :: s in next <==> s in all && Precedes(p, route, last, s) {
      forall s | IsTie(dbs, ps, last, s) ensures !TieBefore(p, route, last, s) {
        assert s in next <==> s in all && Precedes(p, route, last, s);
      }
    }
    if LastOfTies(dbs, route, ps, last) {
      forall s: Span ensures s in next <==> s in all && Precedes(p, route, last, s) {
        assert IsTie(dbs, ps, last, s) ==> !TieBefore(p, route, last, s);
      }
    }
  }

  /**
   * From any page, a GE or GT query on a time or the duration reads on without loss after the
   * n-th result exactly when that result is the last of its stored ties, which is to say that the
   * next result has a different field value; ties are dropped.
   */
  lemma GreaterContinuesIff(dbs: seq<Db>, route: SpanId -> int, ps: seq<PredicateData>, prev: Option<Span>, n: nat)
    requires GoodStore(dbs, route) && forall p :: p in ps ==> WellFormed(p)
    requires SourceOf(ps).op in {GreaterThanOrEquals, GreaterThan} && IsSecondary(SourceOf(ps))
    requires 1 <= n <= |Unlimited(dbs, ps, prev)|
    ensures var all := Unlimited(dbs, ps, prev);
            var next := Unlimited(dbs, ps, Some(all[n - 1]));
            (next == all[n..] <==> LastOfTies(dbs, route, ps, all[n - 1])) &&
            (next == all[n..] <==> NoTieAt(SourceOf(ps).field, all, n)) &&
            |next| <= |all| - n && (|next| == |all| - n ==> next == all[n..])
  {
    hide Unlimited, LastOfTies, NoTieAt;
    var all := Unlimited(dbs, ps, prev);
    UnlimitedOrder(dbs, route, ps, prev);
    UnlimitedOrder(dbs, route, ps, Some(all[n - 1]));
    GreaterContinuation(dbs, route, ps, prev, all[n - 1]);
    GreaterLastOfTies(dbs, route, ps, prev, n);
    CutAtTies(SourceOf(ps), route, all, n, Unlimited(dbs, ps, Some(all[n - 1])));
  }

  /** No page of `lim` results ends between two of one field value. */
  ghost predicate NoSplitTies(f: Field, all: seq<Span>, lim: nat)
    requires !f.UnknownField? && lim >= 1
  {
    forall n :: 0 < n < |all| && n % lim == 0 ==> NoTieAt(f, all, n)
  }

  /** Answers that read on exactly where no tie is cut, and lose results elsewhere. */
  ghost predicate DropsTies(answer: Option<Span> -> seq<Span>, f: Field)
    requires !f.UnknownField?
  {
    Shrinks(answer) &&
    forall prev, n: nat :: 1 <= n <= |answer(prev)| ==>
      (Onward(answer, prev, n) == answer(prev)[n..] <==> NoTieAt(f, answer(prev), n)) &&
      (|Onward(answer, prev, n)| == |answer(prev)| - n ==> Onward(answer, prev, n) == answer(prev)[n..])
  }

  lemma {:induction false} PagesNoLonger(answer: Option<Span> -> seq<Span>, lim: nat, prev: Option<Span>)
    requires Shrinks(answer)
    ensures |Pages(answer, lim, prev)| <= |answer(prev)|
    decreases |answer(prev)|
  {
    var page := Take(answer(prev), lim);
    if |page| > 0 {
      assert |Onward(answer, prev, |page|)| <= |answer(prev)| - |page|;
      PagesNoLonger(answer, lim, Some(page[|page| - 1]));
    }
  }

  lemma SplitTiesShift(f: Field, all: seq<Span>, lim: nat)
    requires !f.UnknownField? && 1 <= lim < |all|
    ensures NoSplitTies(f, all, lim) <==> NoTieAt(f, all, lim) && NoSplitTies(f, all[lim..], lim)
  {
    var rest := all[lim..];
    forall n | 0 < n < |rest| ensures NoTieAt(f, rest, n) <==> NoTieAt(f, all, n + lim) {
    }
    forall n | 0 <= n ensures (n + lim) % lim == n % lim {
      ModShift(n, lim);
    }
    if NoSplitTies(f, all, lim) {
      ModShift(0, lim);
      assert NoTieAt(f, all, lim);
      forall n | 0 < n < |rest| && n % lim == 0 ensures NoTieAt(f, rest, n) {
        assert NoTieAt(f, all, n + lim);
      }
    }
    if NoTieAt(f, all, lim) && NoSplitTies(f, rest, lim) {
      forall n | 0 < n < |all| && n % lim == 0 ensures NoTieAt(f, all, n) {
        Multiples(n, lim);
        if n > lim {
          ModShift(n - lim, lim);
          assert NoTieAt(f, rest, n - lim);
        }
      }
    }
  }

  lemma ModShift(n: nat, m: nat)
    requires m > 0
    ensures (n + m) % m == n % m
  {
    var q, r := n / m, n % m;
    assert n == q * m + r;
    assert n + m == (q + 1) * m + r;
    ModUnique(n + m, q + 1, r, m);
  }

  lemma ModUnique(x: nat, q: nat, r: nat, m: nat)
    requires m > 0 && r < m && x == q * m + r
    ensures x % m == r
  {
    var d := x / m - q;
    assert x == (x / m) * m + x % m;
    assert d * m == r - x % m;
    MulGrows(d, m);
  }

  lemma MulGrows(d: int, m: int)
    requires m > 0
    ensures d >= 1 ==> d * m >= m
    ensures d <= -1 ==> d * m <= 0 - m
  {
    if d >= 1 {
      assert (d - 1) * m >= 0;
    } else if d <= -1 {
      assert (d + 1) * m <= 0;
    }
  }

  lemma Multiples(n: nat, m: nat)
    requires n > 0 && m > 0 && n % m == 0
    ensures n >= m
  {
  }

  lemma {:induction false} PagesAreAllIff(answer: Option<Span> -> seq<Span>, f: Field, lim: nat, prev: Option<Span>)
    requires !f.UnknownField? && DropsTies(answer, f) && lim >= 1
    ensures Pages(answer, lim, prev) == answer(prev) <==> NoSplitTies(f, answer(prev), lim)
    decreases |answer(prev)|
  {
    var all := answer(prev);
    var page := Take(all, lim);
    if |page| > 0 {
      var last, next := Some(page[|page| - 1]), Onward(answer, prev, |page|);
      assert next == all[|page|..] <==> NoTieAt(f, all, |page|);
      assert |next| <= |all| - |page| && (|next| == |all| - |page| ==> next == all[|page|..]);
      PagesAreAllIff(answer, f, lim, last);
      PagesNoLonger(answer, lim, last);
      var more := Pages(answer, lim, last);
      hide DropsTies, Shrinks, NoSplitTies, NoTieAt;
      assert Pages(answer, lim, prev) == page + more;
      OnePage(f, all, lim, next, more);
    } else {
      NoCuts(f, all, lim);
    }
  }

  /** One page in front of what the rest of the run gathers. */
  lemma OnePage(f: Field, all: seq<Span>, lim: nat, next: seq<Span>, more: seq<Span>)
    requires !f.UnknownField? && lim >= 1 && |all| > 0 && |more| <= |next| <= |all| - |Take(all, lim)|
    requires next == all[|Take(all, lim)|..] <==> NoTieAt(f, all, |Take(all, lim)|)
    requires |next| == |all| - |Take(all, lim)| ==> next == all[|Take(all, lim)|..]
    requires more == next <==> NoSplitTies(f, next, lim)
    ensures Take(all, lim) + more == all <==> NoSplitTies(f, all, lim)
  {
    hide NoSplitTies, NoTieAt;
    var page := Take(all, lim);
    assert all == page + all[|page|..];
    if lim < |all| {
      SplitTiesShift(f, all, lim);
      assert (page + more)[|page|..] == more;
    } else {
      NoCuts(f, all, lim);
    }
  }

  lemma NoCuts(f: Field, all: seq<Span>, lim: nat)
    requires !f.UnknownField? && lim >= 1 && |all| <= lim
    ensures NoSplitTies(f, all, lim)
  {
    forall n | 0 < n < |all| ensures n % lim != 0 {
      Below(n, lim);
    }
  }

  lemma Below(n: nat, m: nat)
    requires n < m
    ensures n % m == n
  {
  }

  /**
   * Paging through a GE or GT query on a time or the duration gathers the whole answer exactly
   * when no page boundary falls between two results of one field value.
   */
  lemma GreaterPagingIff(dbs: seq<Db>, route: SpanId -> int, ps: seq<PredicateData>, lim: nat, prev: Option<Span>)
    requires GoodStore(dbs, route) && forall p :: p in ps ==> WellFormed(p)
    requires SourceOf(ps).op in {GreaterThanOrEquals, GreaterThan} && IsSecondary(SourceOf(ps)) && lim >= 1
    ensures var answer := AnswerBy(dbs, ps);
            Shrinks(answer) &&
            (Pages(answer, lim, prev) == Unlimited(dbs, ps, prev) <==>
             NoSplitTies(SourceOf(ps).field, Unlimited(dbs, ps, prev), lim))
  {
    hide Unlimited, NoTieAt, NoSplitTies;
    var answer, f := AnswerBy(dbs, ps), SourceOf(ps).field;
    forall pv, n: nat | 1 <= n <= |answer(pv)|
      ensures |Onward(answer, pv, n)| <= |answer(pv)| - n
      ensures |Onward(answer, pv, n)| == |answer(pv)| - n ==> Onward(answer, pv, n) == answer(pv)[n..]
      ensures Onward(answer, pv, n) == answer(pv)[n..] <==> NoTieAt(f, answer(pv), n)
    {
      GreaterContinuesIff(dbs, route, ps, pv, n);
    }
    PagesAreAllIff(answer, f, lim, prev);
  }

  // ---------------------------------------------------------------- LE

  /**
   * The span lies below the id `from`, or is the first of its shard's ties at or after it: the
   * spans that a descending scan reaches from there.
   */
  ghost predicate Reached(db: Db, f: Field, from: SpanId, s: Span)
    requires IndexPrefix(f) != 0
  {
    forall t :: Stored(db, t) && FieldBytes(f, t) == FieldBytes(f, s) && AtMost(from, t.id) ==> AtMost(s.id, t.id)
  }

  /** What a descending scan yields that starts at an id among the ties of its bound. */
  lemma DescendingYields(db: Db, p: PredicateData, like: Span, from: SpanId, s: Span)
    requires Exact(db) && IsSecondary(p) && p.op.LessThanOrEquals?
    requires p.key == FieldBytes(p.field, like) && |from| == SPAN_ID_BYTES
    ensures Yields(db, p, IndexKey(p.field, like.(id := from)), s) <==>
            Stored(db, s) && Accepts(p, s) && (FieldBytes(p.field, s) == p.key ==> Reached(db, p.field, from, s))
  {
    hide IndexKey, Exact, Complete, Reached, Less;
    var low := like.(id := from);
    SameField(p.field, like, from);
    if Stored(db, s) && Accepts(p, s) {
      if FieldBytes(p.field, s) == p.key {
        TieReached(db, p, low, s);
      } else {
        forall k | k in db && AtMost(IndexKey(p.field, low), k) ensures AtMost(IndexKey(p.field, s), k) {
          LowerFieldEarlier(db, p.field, s, low);
          AtMostTransitive(IndexKey(p.field, s), IndexKey(p.field, low), k);
        }
      }
    }
  }

  lemma SameField(f: Field, like: Span, from: SpanId)
    requires !f.UnknownField? && !f.SpanIdField?
    ensures FieldBytes(f, like.(id := from)) == FieldBytes(f, like)
  {
  }

  lemma LowerFieldEarlier(db: Db, f: Field, s: Span, low: Span)
    requires Exact(db) && IndexPrefix(f) != 0 && Stored(db, s) && |low.id| == SPAN_ID_BYTES
    requires Less(FieldBytes(f, s), FieldBytes(f, low))
    ensures AtMost(IndexKey(f, s), IndexKey(f, low))
  {
    IndexKeyStored(db, f, s);
    IndexKeyOrder(f, s, low);
  }

  lemma TieReached(db: Db, p: PredicateData, low: Span, s: Span)
    requires Exact(db) && IsSecondary(p) && |low.id| == SPAN_ID_BYTES && Stored(db, s)
    requires FieldBytes(p.field, s) == FieldBytes(p.field, low)
    ensures (forall k :: k in db && AtMost(IndexKey(p.field, low), k) ==> AtMost(IndexKey(p.field, s), k))
       <==> Reached(db, p.field, low.id, s)
  {
    hide IndexKey, Complete, Less, KeysOf;
    var f := p.field;
    IndexKeyStored(db, f, s);
    if Reached(db, f, low.id, s) {
      forall k | k in db && AtMost(IndexKey(f, low), k) ensures AtMost(IndexKey(f, s), k) {
        LaterKey(db, f, low, s, k);
      }
    } else {
      var t :| Stored(db, t) && FieldBytes(f, t) == FieldBytes(f, s) && AtMost(low.id, t.id) && !AtMost(s.id, t.id);
      IndexKeyStored(db, f, t);
      TieOrder(f, low, t);
      TieOrder(f, s, t);
    }
  }

  lemma LaterKey(db: Db, f: Field, low: Span, s: Span, k: ByteString)
    requires Exact(db) && IndexPrefix(f) != 0 && |low.id| == SPAN_ID_BYTES && Stored(db, s)
    requires FieldBytes(f, s) == FieldBytes(f, low) && Reached(db, f, low.id, s)
    requires k in db && AtMost(IndexKey(f, low), k)
    ensures AtMost(IndexKey(f, s), k)
  {
    IndexKeyStored(db, f, s);
    IndexKeyInKeysOf(f, s);
    IndexKeyInKeysOf(f, low);
    if k[0] == IndexPrefix(f) {
      assert Owned(db, k);
      var t := FindSpan(db, IdOfKey(k)).value;
      SectionKeyOf(f, t, k);
      IndexKeyStored(db, f, t);
      LaterTie(db, f, low, s, t);
    }
  }

  lemma LaterTie(db: Db, f: Field, low: Span, s: Span, t: Span)
    requires IndexPrefix(f) != 0 && |low.id| == |s.id| == |t.id| == SPAN_ID_BYTES && Stored(db, t)
    requires FieldBytes(f, s) == FieldBytes(f, low) && Reached(db, f, low.id, s)
    requires AtMost(IndexKey(f, low), IndexKey(f, t))
    ensures AtMost(IndexKey(f, s), IndexKey(f, t))
  {
    IndexKeyOrder(f, low, t);
    IndexKeyOrder(f, s, t);
    if IndexKey(f, low) == IndexKey(f, t) {
      IndexKeyInjective(f, low, t);
    }
    if FieldBytes(f, t) == FieldBytes(f, s) {
      TieOrder(f, low, t);
      TieOrder(f, s, t);
    }
  }

  lemma ReachedFromZero(db: Db, f: Field, s: Span)
    requires Complete(db) && IndexPrefix(f) != 0
    ensures Reached(db, f, ZeroId(), s) <==> LeastTie(db, f, s)
  {
    forall t | Stored(db, t) ensures AtMost(ZeroId(), t.id) {
      IndexKeyStored(db, f, t);
      ZeroIsLeast(t.id);
    }
  }

  /** The spans of one shard that a page of a LE query holds. */
  ghost predicate OnPage(db: Db, p: PredicateData, prev: Option<Span>, s: Span)
    requires IsSecondary(p)
  {
    var p' := ResumePredicate(p, prev);
    Stored(db, s) && Accepts(p', s) && (FieldBytes(p.field, s) == p'.key ==> Reached(db, p.field, FromId(p, prev), s))
  }

  lemma LessOrEqualYields(db: Db, p: PredicateData, prev: Option<Span>, s: Span)
    requires Exact(db) && IsSecondary(p) && p.op.LessThanOrEquals?
    ensures Yields(db, ResumePredicate(p, prev), SearchKey(p, prev), s) <==> OnPage(db, p, prev, s)
  {
    hide Exact, Yields, Reached, IndexKey, Predecessor;
    match prev
    case None =>
      PlainYields(db, p, s);
      ReachedFromZero(db, p.field, s) by { ExactIsComplete(db); }
    case Some(last) =>
      SearchKeyIsIndexKey(p, last);
      DescendingYields(db, ResumePredicate(p, prev), last, StartId(p, last), s);
  }

  lemma ExactIsComplete(db: Db)
    requires Exact(db)
    ensures Complete(db)
  {
  }

  lemma LessOrEqualMembers(dbs: seq<Db>, route: SpanId -> int, ps: seq<PredicateData>, prev: Option<Span>,
                           i: nat, s: Span)
    requires GoodStore(dbs, route) && forall p :: p in ps ==> WellFormed(p)
    requires SourceOf(ps).op.LessThanOrEquals? && IsSecondary(SourceOf(ps)) && i < |dbs| && Stored(dbs[i], s)
    ensures s in Unlimited(dbs, ps, prev) <==> OnPage(dbs[i], SourceOf(ps), prev, s) && AcceptsAll(OthersOf(ps), s)
  {
    hide Exact, Yields, OnPage, Unlimited, SearchKey, ResumePredicate;
    PageMembers(dbs, route, ps, prev, s);
    LessOrEqualYields(dbs[i], SourceOf(ps), prev, s);
    forall j | 0 <= j < |dbs| && Yields(dbs[j], ResumePredicate(SourceOf(ps), prev), SearchKey(SourceOf(ps), prev), s)
      ensures j == i
    {
      YieldedIsStored(dbs[j], SourceOf(ps), prev, s);
      StoredUniquely(dbs, route, i, j, s);
    }
  }

  lemma YieldedIsStored(db: Db, p: PredicateData, prev: Option<Span>, s: Span)
    requires IsSource(p) && Yields(db, ResumePredicate(p, prev), SearchKey(p, prev), s)
    ensures Stored(db, s)
  {
  }

  /** For one span that ties with the last result: is it on the next page just if it should be? */
  ghost predicate TieContinues(db: Db, p: PredicateData, route: SpanId -> int, prev: Option<Span>, last: Span, s: Span)
    requires IsSecondary(p)
  {
    Reached(db, p.field, Predecessor(last.id), s) <==>
    TieBefore(p, route, last, s) &&
    (FieldBytes(p.field, s) == ResumePredicate(p, prev).key ==> Reached(db, p.field, FromId(p, prev), s))
  }

  /** The continuation treats one stored span as it should: always if it does not tie with the last result. */
  lemma LessOrEqualAgrees(db: Db, p: PredicateData, route: SpanId -> int, prev: Option<Span>, last: Span, s: Span)
    requires IsSecondary(p) && p.op.LessThanOrEquals? && Stored(db, s) && Accepts(ResumePredicate(p, prev), last)
    ensures (OnPage(db, p, Some(last), s) <==> OnPage(db, p, prev, s) && Precedes(p, route, last, s)) <==>
            (FieldBytes(p.field, s) == FieldBytes(p.field, last) ==> TieContinues(db, p, route, prev, last, s))
  {
    hide Reached, Predecessor;
    var key, x, y := ResumePredicate(p, prev).key, FieldBytes(p.field, last), FieldBytes(p.field, s);
    LessTotal(x, y);
    LessIrreflexive(x);
    if Less(y, x) {
      LessAsymmetric(y, x);
      AtMostTransitive(y, x, key);
      LessIrreflexive(key);
      if y == key {
        LessAsymmetric(y, x);
      }
    } else if Less(x, y) {
      LessAsymmetric(x, y);
    }
  }

  /**
   * From any page, a LE query on a time or the duration reads on without loss after the n-th
   * result exactly when, among the stored spans that tie with it and pass the other predicates,
   * those below its id or first at the id just below, shard by shard, are those that come later
   * in the answer.
   */
  lemma LessOrEqualContinuesIff(dbs: seq<Db>, route: SpanId -> int, ps: seq<PredicateData>, prev: Option<Span>, n: nat)
    requires GoodStore(dbs, route) && forall p :: p in ps ==> WellFormed(p)
    requires SourceOf(ps).op.LessThanOrEquals? && IsSecondary(SourceOf(ps))
    requires 1 <= n <= |Unlimited(dbs, ps, prev)|
    ensures var all := Unlimited(dbs, ps, prev);
            var last := all[n - 1];
            Unlimited(dbs, ps, Some(last)) == all[n..] <==>
            forall i, s :: 0 <= i < |dbs| && Stored(dbs[i], s) ==> TieOk(dbs[i], ps, route, prev, last, s)
  {
    hide Unlimited, TieContinues, Precedes;
    var p, all := SourceOf(ps), Unlimited(dbs, ps, prev);
    var last := all[n - 1];
    var next := Unlimited(dbs, ps, Some(last));
    UnlimitedOrder(dbs, route, ps, prev);
    UnlimitedOrder(dbs, route, ps, Some(last));
    ContinuationFromMembers(p, route, all, n, next);
    forall i, s | 0 <= i < |dbs| && Stored(dbs[i], s)
      ensures GoesOn(p, route, all, last, next, s) <==> TieOk(dbs[i], ps, route, prev, last, s)
    {
      LessOrEqualAgreesIn(dbs, route, ps, prev, last, i, s);
    }
    forall s | !StoredIn(dbs, s) ensures GoesOn(p, route, all, last, next, s) {
      NotStored(dbs, route, ps, prev, s);
      NotStored(dbs, route, ps, Some(last), s);
    }
    AllGoOn(p, route, all, last, next);
    hide GoodStore, GoesOn, TieOk, AcceptsAll;
    AllOfEach(dbs, p, ps, route, prev, all, last, next);
  }

  /** The next page holds the span just if it comes later in the answer. */
  ghost predicate GoesOn(p: PredicateData, route: SpanId -> int, all: seq<Span>, last: Span, next: seq<Span>, s: Span)
    requires IsSource(p)
  {
    s in next <==> s in all && Precedes(p, route, last, s)
  }

  lemma AllGoOn(p: PredicateData, route: SpanId -> int, all: seq<Span>, last: Span, next: seq<Span>)
    requires IsSource(p)
    ensures (forall s :: GoesOn(p, route, all, last, next, s)) <==>
            forall s :: s in next <==> s in all && Precedes(p, route, last, s)
  {
    if forall s :: GoesOn(p, route, all, last, next, s) {
      forall s: Span ensures s in next <==> s in all && Precedes(p, route, last, s) {
        assert GoesOn(p, route, all, last, next, s);
      }
    }
  }

  /** The span does not tie with the last result, or does not pass the other predicates, or continues rightly. */
  ghost predicate TieOk(db: Db, ps: seq<PredicateData>, route: SpanId -> int, prev: Option<Span>, last: Span, s: Span)
    requires (forall p :: p in ps ==> WellFormed(p)) && IsSecondary(SourceOf(ps))
  {
    var p := SourceOf(ps);
    AcceptsAll(OthersOf(ps), s) && FieldBytes(p.field, s) == FieldBytes(p.field, last) ==>
      TieContinues(db, p, route, prev, last, s)
  }

  lemma AllOfEach(dbs: seq<Db>, p: PredicateData, ps: seq<PredicateData>, route: SpanId -> int, prev: Option<Span>,
                  all: seq<Span>, last: Span, next: seq<Span>)
    requires (forall p :: p in ps ==> WellFormed(p)) && p == SourceOf(ps) && IsSecondary(p)
    requires forall i, s :: 0 <= i < |dbs| && Stored(dbs[i], s) ==>
               (GoesOn(p, route, all, last, next, s) <==> TieOk(dbs[i], ps, route, prev, last, s))
    requires forall s :: !StoredIn(dbs, s) ==> GoesOn(p, route, all, last, next, s)
    ensures (forall s :: GoesOn(p, route, all, last, next, s)) <==>
            forall i, s :: 0 <= i < |dbs| && Stored(dbs[i], s) ==> TieOk(dbs[i], ps, route, prev, last, s)
  {
    hide GoesOn, TieOk;
    if forall s :: GoesOn(p, route, all, last, next, s) {
      forall i, s | 0 <= i < |dbs| && Stored(dbs[i], s) ensures TieOk(dbs[i], ps, route, prev, last, s) {
        assert GoesOn(p, route, all, last, next, s);
      }
    }
    if forall i, s :: 0 <= i < |dbs| && Stored(dbs[i], s) ==> TieOk(dbs[i], ps, route, prev, last, s) {
      forall s ensures GoesOn(p, route, all, last, next, s) {
        if StoredIn(dbs, s) {
          var i :| 0 <= i < |dbs| && Stored(dbs[i], s);
          assert TieOk(dbs[i], ps, route, prev, last, s);
        }
      }
    }
  }

  lemma NotStored(dbs: seq<Db>, route: SpanId -> int, ps: seq<PredicateData>, prev: Option<Span>, s: Span)
    requires GoodStore(dbs, route) && (forall p :: p in ps ==> WellFormed(p)) && !StoredIn(dbs, s)
    ensures s !in Unlimited(dbs, ps, prev)
  {
    PageMembers(dbs, route, ps, prev, s);
  }

  lemma LessOrEqualAgreesIn(dbs: seq<Db>, route: SpanId -> int, ps: seq<PredicateData>, prev: Option<Span>,
                            last: Span, i: nat, s: Span)
    requires GoodStore(dbs, route) && forall p :: p in ps ==> WellFormed(p)
    requires SourceOf(ps).op.LessThanOrEquals? && IsSecondary(SourceOf(ps)) && i < |dbs| && Stored(dbs[i], s)
    requires last in Unlimited(dbs, ps, prev)
    ensures GoesOn(SourceOf(ps), route, Unlimited(dbs, ps, prev), last, Unlimited(dbs, ps, Some(last)), s) <==>
            TieOk(dbs[i], ps, route, prev, last, s)
  {
    hide Unlimited, TieContinues, OnPage, Precedes, AcceptsAll;
    LastAccepted(dbs, route, ps, prev, last);
    LessOrEqualMembers(dbs, route, ps, prev, i, s);
    LessOrEqualMembers(dbs, route, ps, Some(last), i, s);
    LessOrEqualAgrees(dbs[i], SourceOf(ps), route, prev, last, s);
  }

  lemma LastAccepted(dbs: seq<Db>, route: SpanId -> int, ps: seq<PredicateData>, prev: Option<Span>, last: Span)
    requires GoodStore(dbs, route) && (forall p :: p in ps ==> WellFormed(p)) && last in Unlimited(dbs, ps, prev)
    ensures Accepts(ResumePredicate(SourceOf(ps), prev), last)
  {
    PageMembers(dbs, route, ps, prev, last);
  }

  /** A stored span with the given id and the same field value as this one. */
  ghost predicate HasTieWithId(db: Db, f: Field, s: Span, id: SpanId)
    requires IndexPrefix(f) != 0
  {
    exists t :: Stored(db, t) && FieldBytes(f, t) == FieldBytes(f, s) && t.id == id
  }

  lemma JustBelow(db: Db, last: Span, t: Span)
    requires Complete(db) && Stored(db, last) && Stored(db, t)
    ensures AtMost(Predecessor(last.id), t.id) <==> t.id == Predecessor(last.id) || AtMost(last.id, t.id)
    ensures !AtMost(last.id, Predecessor(last.id))
  {
    IndexKeyStored(db, SpanIdField, last);
    IndexKeyStored(db, SpanIdField, t);
    var below := Predecessor(last.id);
    hide Predecessor;
    PredecessorIsPrev(last.id, t.id);
    PredecessorIsPrev(last.id, below);
    LessTotal(t.id, last.id);
    LessTotal(t.id, below);
    LessAsymmetric(below, last.id);
    if AtMost(last.id, t.id) {
      AtMostTransitive(below, last.id, t.id);
    }
    if Less(below, t.id) {
      LessAsymmetric(below, t.id);
    }
  }

  /**
   * A LE query on a time or the duration, continued after a result of any page, returns that
   * result again unless its shard also holds the very next lower id under the same field value.
   */
  lemma LessOrEqualRepeats(dbs: seq<Db>, route: SpanId -> int, ps: seq<PredicateData>, prev: Option<Span>,
                           i: nat, last: Span)
    requires GoodStore(dbs, route) && forall p :: p in ps ==> WellFormed(p)
    requires SourceOf(ps).op.LessThanOrEquals? && IsSecondary(SourceOf(ps))
    requires last in Unlimited(dbs, ps, prev) && i < |dbs| && Stored(dbs[i], last)
    ensures last in Unlimited(dbs, ps, Some(last)) <==>
            !HasTieWithId(dbs[i], SourceOf(ps).field, last, Predecessor(last.id))
  {
    hide Unlimited, Exact, Complete, Predecessor;
    var p := SourceOf(ps);
    LessOrEqualMembers(dbs, route, ps, prev, i, last);
    LessOrEqualMembers(dbs, route, ps, Some(last), i, last);
    ExactIsComplete(dbs[i]);
    forall t | Stored(dbs[i], t)
      ensures AtMost(Predecessor(last.id), t.id) <==> t.id == Predecessor(last.id) || AtMost(last.id, t.id)
      ensures !AtMost(last.id, Predecessor(last.id))
    {
      JustBelow(dbs[i], last, t);
    }
  }

  /** So reading on exactly takes a stored span with the very next lower id and the same field value. */
  lemma LessOrEqualNeedsTie(dbs: seq<Db>, route: SpanId -> int, ps: seq<PredicateData>, prev: Option<Span>,
                            n: nat, i: nat)
    requires GoodStore(dbs, route) && forall p :: p in ps ==> WellFormed(p)
    requires SourceOf(ps).op.LessThanOrEquals? && IsSecondary(SourceOf(ps))
    requires 1 <= n <= |Unlimited(dbs, ps, prev)| && i < |dbs| && Stored(dbs[i], Unlimited(dbs, ps, prev)[n - 1])
    ensures var all := Unlimited(dbs, ps, prev);
            var last := all[n - 1];
            Unlimited(dbs, ps, Some(last)) == all[n..] ==>
              HasTieWithId(dbs[i], SourceOf(ps).field, last, Predecessor(last.id))
  {
    hide Unlimited, Predecessor, HasTieWithId;
    var all := Unlimited(dbs, ps, prev);
    UnlimitedOrder(dbs, route, ps, prev);
    NotAmongLater(SourceOf(ps), route, all, n);
    LessOrEqualRepeats(dbs, route, ps, prev, i, all[n - 1]);
  }

  // ---------------------------------------------------------------- EQ

  /** A page of an EQ query holds the ties from its first id on, in every shard. */
  lemma EqualsMembers(dbs: seq<Db>, route: SpanId -> int, ps: seq<PredicateData>, prev: Option<Span>, s: Span)
    requires GoodStore(dbs, route) && forall p :: p in ps ==> WellFormed(p)
    requires SourceOf(ps).op.Equals? && IsSecondary(SourceOf(ps))
    ensures s in Unlimited(dbs, ps, prev) <==>
            StoredIn(dbs, s) && FieldBytes(SourceOf(ps).field, s) == ResumePredicate(SourceOf(ps), prev).key &&
            AcceptsAll(OthersOf(ps), s) && AtMost(FromId(SourceOf(ps), prev), s.id)
  {
    hide Unlimited, Yields, SearchKey, Successor;
    PageMembers(dbs, route, ps, prev, s);
    forall i | 0 <= i < |dbs| {
      EqualsYields(dbs[i], SourceOf(ps), prev, s);
    }
  }

  lemma EqualsYields(db: Db, p: PredicateData, prev: Option<Span>, s: Span)
    requires Exact(db) && IsSecondary(p) && p.op.Equals?
    ensures Yields(db, ResumePredicate(p, prev), SearchKey(p, prev), s) <==>
            Stored(db, s) && FieldBytes(p.field, s) == ResumePredicate(p, prev).key && AtMost(FromId(p, prev), s.id)
  {
    if Stored(db, s) && FieldBytes(p.field, s) == ResumePredicate(p, prev).key {
      IndexKeyStored(db, p.field, s);
      match prev
      case None =>
        PlainYields(db, p, s);
        ZeroIsLeast(s.id);
      case Some(v) =>
        SearchKeyIsIndexKey(p, v);
        SameField(p.field, v, StartId(p, v));
        TieOrder(p.field, v.(id := StartId(p, v)), s);
    }
  }

  lemma AfterLast(last: SpanId, id: SpanId)
    requires |last| == |id| == SPAN_ID_BYTES
    ensures AtMost(Successor(last), id) <==> last == MaxId() || Less(last, id)
  {
    if last == MaxId() {
      SuccessorOfMax();
      ZeroIsLeast(id);
    } else {
      SuccessorIsNext(last, id);
    }
  }

  /** The continued page of an EQ query. */
  lemma EqualsContinuation(dbs: seq<Db>, route: SpanId -> int, ps: seq<PredicateData>, prev: Option<Span>, last: Span,
                           s: Span)
    requires GoodStore(dbs, route) && forall p :: p in ps ==> WellFormed(p)
    requires SourceOf(ps).op.Equals? && IsSecondary(SourceOf(ps)) && last in Unlimited(dbs, ps, prev)
    ensures last.id != MaxId() ==>
              (s in Unlimited(dbs, ps, Some(last)) <==> s in Unlimited(dbs, ps, prev) && Less(last.id, s.id))
    ensures last.id == MaxId() && s in Unlimited(dbs, ps, prev) ==> s in Unlimited(dbs, ps, Some(last))
  {
    hide Unlimited, Successor;
    EqualsMembers(dbs, route, ps, prev, last);
    EqualsMembers(dbs, route, ps, prev, s);
    EqualsMembers(dbs, route, ps, Some(last), s);
    StoredInIsValid(dbs, route, last);
    if StoredIn(dbs, s) {
      StoredInIsValid(dbs, route, s);
      AfterLast(last.id, s.id);
      if Less(last.id, s.id) {
        AtMostTransitive(FromId(SourceOf(ps), prev), last.id, s.id);
      }
    }
  }

  /** From the id that the page started from on, the ties that come after the span are those with greater ids. */
  ghost predicate TiesByIdAfter(dbs: seq<Db>, route: SpanId -> int, ps: seq<PredicateData>, prev: Option<Span>,
                                last: Span)
    requires forall p :: p in ps ==> WellFormed(p)
  {
    forall s :: IsTie(dbs, ps, last, s) && AtMost(FromId(SourceOf(ps), prev), s.id) ==>
      (TieBefore(SourceOf(ps), route, last, s) <==> Less(last.id, s.id))
  }

  /** In the list, the elements after this cut are those with greater ids than the one before it. */
  ghost predicate CutsById(all: seq<Span>, n: nat)
    requires 1 <= n <= |all|
  {
    all[n - 1].id != MaxId() && forall i :: 0 <= i < |all| ==> (n <= i <==> Less(all[n - 1].id, all[i].id))
  }

  lemma EqualsTies(dbs: seq<Db>, route: SpanId -> int, ps: seq<PredicateData>, prev: Option<Span>, n: nat)
    requires GoodStore(dbs, route) && forall p :: p in ps ==> WellFormed(p)
    requires SourceOf(ps).op.Equals? && IsSecondary(SourceOf(ps))
    requires 1 <= n <= |Unlimited(dbs, ps, prev)|
    ensures var all := Unlimited(dbs, ps, prev);
            TiesByIdAfter(dbs, route, ps, prev, all[n - 1]) <==>
            forall i :: 0 <= i < |all| ==> (n <= i <==> Less(all[n - 1].id, all[i].id))
  {
    hide Unlimited, FromId, TiesByIdAfter, Precedes, IsTie, TieBefore;
    var p, all := SourceOf(ps), Unlimited(dbs, ps, prev);
    var last := all[n - 1];
    UnlimitedOrder(dbs, route, ps, prev);
    forall s: Span ensures s in all <==> IsTie(dbs, ps, last, s) && AtMost(FromId(p, prev), s.id) {
      EqualsMemberIsTie(dbs, route, ps, prev, last, s);
    }
    forall i | 0 <= i < |all| ensures TieBefore(p, route, last, all[i]) <==> n <= i {
      assert all[i] in all;
      TieIsOrder(dbs, route, ps, last, all[i]);
      PlaceInList(p, route, all, n, i);
    }
    TiesInList(dbs, route, ps, prev, all, n);
  }

  lemma EqualsMemberIsTie(dbs: seq<Db>, route: SpanId -> int, ps: seq<PredicateData>, prev: Option<Span>, last: Span,
                          s: Span)
    requires GoodStore(dbs, route) && forall p :: p in ps ==> WellFormed(p)
    requires SourceOf(ps).op.Equals? && IsSecondary(SourceOf(ps)) && last in Unlimited(dbs, ps, prev)
    ensures s in Unlimited(dbs, ps, prev) <==> IsTie(dbs, ps, last, s) && AtMost(FromId(SourceOf(ps), prev), s.id)
  {
    hide Unlimited, FromId;
    EqualsMembers(dbs, route, ps, prev, last);
    EqualsMembers(dbs, route, ps, prev, s);
  }

  lemma TieIsOrder(dbs: seq<Db>, route: SpanId -> int, ps: seq<PredicateData>, last: Span, s: Span)
    requires (forall p :: p in ps ==> WellFormed(p)) && IsTie(dbs, ps, last, s)
    ensures Precedes(SourceOf(ps), route, last, s) <==> TieBefore(SourceOf(ps), route, last, s)
  {
    hide TieBefore;
    FieldBeforeTotal(SourceOf(ps), last, s);
  }

  lemma TiesInList(dbs: seq<Db>, route: SpanId -> int, ps: seq<PredicateData>, prev: Option<Span>, all: seq<Span>,
                   n: nat)
    requires (forall p :: p in ps ==> WellFormed(p)) && 1 <= n <= |all|
    requires forall s :: s in all <==> IsTie(dbs, ps, all[n - 1], s) && AtMost(FromId(SourceOf(ps), prev), s.id)
    requires forall i :: 0 <= i < |all| ==> (TieBefore(SourceOf(ps), route, all[n - 1], all[i]) <==> n <= i)
    ensures TiesByIdAfter(dbs, route, ps, prev, all[n - 1]) <==>
            forall i :: 0 <= i < |all| ==> (n <= i <==> Less(all[n - 1].id, all[i].id))
  {
    hide IsTie, Less, TieBefore, FromId, AtMost;
    var p, last := SourceOf(ps), all[n - 1];
    if TiesByIdAfter(dbs, route, ps, prev, last) {
      forall i | 0 <= i < |all| ensures n <= i <==> Less(last.id, all[i].id) {
        assert all[i] in all;
      }
    } else {
      var s :| s in all && !(TieBefore(p, route, last, s) <==> Less(last.id, s.id));
      var i :| 0 <= i < |all| && all[i] == s;
    }
  }

  /** In an ordered list, place is order. */
  lemma PlaceInList(p: PredicateData, route: SpanId -> int, all: seq<Span>, n: nat, i: nat)
    requires IsSource(p) && InResultOrder(p, route, all) && 1 <= n <= |all| && i < |all|
    ensures Precedes(p, route, all[n - 1], all[i]) <==> n <= i
  {
    if i < n - 1 {
      PrecedesAsymmetric(p, route, all[i], all[n - 1]);
    } else if i == n - 1 && Precedes(p, route, all[i], all[i]) {
      PrecedesAsymmetric(p, route, all[i], all[i]);
    }
  }

  /**
   * From any page, an EQ query on a time or the duration, whose results are ordered by shard
   * before id, reads on without loss after the n-th result exactly when the stored ties that come
   * later are the ones with greater ids; after the greatest id, whose successor wraps round, it
   * starts again.
   */
  lemma EqualsContinuesIff(dbs: seq<Db>, route: SpanId -> int, ps: seq<PredicateData>, prev: Option<Span>, n: nat)
    requires GoodStore(dbs, route) && forall p :: p in ps ==> WellFormed(p)
    requires SourceOf(ps).op.Equals? && IsSecondary(SourceOf(ps))
    requires 1 <= n <= |Unlimited(dbs, ps, prev)|
    ensures var all := Unlimited(dbs, ps, prev);
            (Unlimited(dbs, ps, Some(all[n - 1])) == all[n..] <==>
             all[n - 1].id != MaxId() && TiesByIdAfter(dbs, route, ps, prev, all[n - 1])) &&
            (Unlimited(dbs, ps, Some(all[n - 1])) == all[n..] <==> CutsById(all, n))
  {
    hide Unlimited, TiesByIdAfter;
    EqualsTies(dbs, route, ps, prev, n);
    var p, all := SourceOf(ps), Unlimited(dbs, ps, prev);
    var last := all[n - 1];
    var next := Unlimited(dbs, ps, Some(last));
    UnlimitedOrder(dbs, route, ps, prev);
    UnlimitedOrder(dbs, route, ps, Some(last));
    forall s: Span
      ensures last.id != MaxId() ==> (s in next <==> s in all && Less(last.id, s.id))
      ensures last.id == MaxId() && s in all ==> s in next
    {
      EqualsContinuation(dbs, route, ps, prev, last, s);
    }
    if last.id == MaxId() {
      NotAmongLater(p, route, all, n);
      assert last in next;
    } else {
      CutById(p, route, all, n, next);
    }
  }

  lemma CutById(p: PredicateData, route: SpanId -> int, all: seq<Span>, n: nat, next: seq<Span>)
    requires IsSource(p) && InResultOrder(p, route, all) && InResultOrder(p, route, next) && 1 <= n <= |all|
    requires forall s :: s in next <==> s in all && Less(all[n - 1].id, s.id)
    ensures next == all[n..] <==> forall i :: 0 <= i < |all| ==> (n <= i <==> Less(all[n - 1].id, all[i].id))
  {
    var last := all[n - 1];
    ContinuationFromMembers(p, route, all, n, next);
    forall i | 0 <= i < |all| ensures Precedes(p, route, last, all[i]) <==> n <= i {
      PlaceInList(p, route, all, n, i);
    }
    forall s | s in all ensures exists i :: 0 <= i < |all| && all[i] == s {
    }
  }
}
