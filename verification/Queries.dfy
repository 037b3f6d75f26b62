/** Query execution (`HandleQuery` in datastore.go) against the filter it stands for. */
module Queries {
  import opened Spans
  import opened LevelDb
  import opened Index
  import opened Options
  import opened Predicates
  import opened Scans
  import opened Merging
  import opened Shards
  import opened Sources

  datatype Query = Query(predicates: seq<Predicate>, lim: nat, prev: Option<Span>)

  // ---------------------------------------------------------------- choosing the source

  /** The error is that of the first predicate that does not load. */
  ghost predicate FirstError(ps: seq<Predicate>, parsers: Parsers, e: QueryError) {
    exists i :: 0 <= i < |ps| && LoadPredicateData(ps[i], parsers) == Err(e) &&
                forall j :: 0 <= j < i ==> Loadable(ps[j], parsers)
  }

  /** Parse the predicates in order; the first error wins. */
  function LoadAll(ps: seq<Predicate>, parsers: Parsers): (r: Result<seq<PredicateData>>)
    ensures r.Ok? <==> forall p :: p in ps ==> Loadable(p, parsers)
    ensures r.Err? ==> FirstError(ps, parsers, r.error)
    ensures r.Ok? ==> |r.value| == |ps| && forall p :: p in r.value ==> WellFormed(p)
    ensures r.Ok? ==> forall i :: 0 <= i < |ps| ==> LoadPredicateData(ps[i], parsers) == Ok(r.value[i])
    decreases |ps|
  {
    if |ps| == 0 then Ok([])
    else
      assert ps == ps[..|ps| - 1] + [ps[|ps| - 1]];
      match LoadAll(ps[..|ps| - 1], parsers)
      case Err(e) => Err(e)
      case Ok(ds) =>
        match LoadPredicateData(ps[|ps| - 1], parsers)
        case Err(e) => Err(e)
        case Ok(d) => Ok(ds + [d])
  }

  /** The position of the first indexed predicate, or the length if there is none. */
  function SourceIndex(ps: seq<PredicateData>): (i: nat)
    ensures i <= |ps| && (i < |ps| ==> IndexPrefix(ps[i].field) != 0)
    ensures forall j :: 0 <= j < i ==> IndexPrefix(ps[j].field) == 0
    decreases |ps|
  {
    if |ps| == 0 then 0
    else
      var i := SourceIndex(ps[..|ps| - 1]);
      if i < |ps| - 1 || IndexPrefix(ps[i].field) != 0 then i else |ps|
  }

  /** With no indexed predicate, read everything in order of span id. */
  function DefaultSource(): PredicateData {
    PredicateData(GreaterThanOrEquals, SpanIdField, ZeroId())
  }

  function SourceOf(ps: seq<PredicateData>): (p: PredicateData)
    requires forall p :: p in ps ==> WellFormed(p)
    ensures IsSource(p)
  {
    var i := SourceIndex(ps);
    if i < |ps| then ps[i] else DefaultSource()
  }

  /** The first predicate on an indexed field. */
  ghost predicate FirstIndexed(ps: seq<PredicateData>, p: PredicateData) {
    exists i :: 0 <= i < |ps| && ps[i] == p && HasIndex(p.field) &&
                forall j :: 0 <= j < i ==> !HasIndex(ps[j].field)
  }

  /** The source is the first indexed predicate; with none, every span from the zero id up. */
  lemma SourceIsFirstIndexed(ps: seq<PredicateData>)
    requires forall p :: p in ps ==> WellFormed(p)
    ensures var p := SourceOf(ps);
            if exists q :: q in ps && HasIndex(q.field) then FirstIndexed(ps, p)
            else p == PredicateData(GreaterThanOrEquals, SpanIdField, Repeat(0, 16))
  {
    hide HasIndex, WellFormed;
    forall p | p in ps ensures IndexPrefix(p.field) != 0 <==> HasIndex(p.field) {
      IndexPrefixMeans(p.field);
    }
  }

  function OthersOf(ps: seq<PredicateData>): (others: seq<PredicateData>)
    ensures forall p :: p in others ==> p in ps
  {
    var i := SourceIndex(ps);
    if i < |ps| then ps[..i] + ps[i + 1..] else ps
  }

  // ---------------------------------------------------------------- the answer

  function Filter(ps: seq<PredicateData>, spans: seq<Span>): (r: seq<Span>)
    requires forall p :: p in ps ==> WellFormed(p)
    decreases |spans|
  {
    if |spans| == 0 then []
    else (if AcceptsAll(ps, spans[0]) then [spans[0]] else []) + Filter(ps, spans[1..])
  }

  function Take(spans: seq<Span>, n: nat): (r: seq<Span>) {
    if n < |spans| then spans[..n] else spans
  }

  /** As many spans as there are, up to the limit, from the front. */
  lemma TakeMeans(spans: seq<Span>, n: nat)
    ensures var m := if n <= |spans| then n else |spans|; Take(spans, n) == spans[..m]
    ensures Take(spans, n) + spans[|Take(spans, n)|..] == spans
  {
  }

  /** Everything a query would return with no limit. */
  ghost function Unlimited(dbs: seq<Db>, ps: seq<PredicateData>, prev: Option<Span>): (spans: seq<Span>)
    requires forall p :: p in ps ==> WellFormed(p)
    requires forall i :: 0 <= i < |dbs| ==> forall k :: k in dbs[i] ==> WellShaped(k)
  {
    var p := SourceOf(ps);
    Filter(OthersOf(ps), Merge(ResumePredicate(p, prev), StartRests(dbs, p, prev)))
  }

  /** What a query is answered with: an error if some predicate does not load, or a prefix of the unlimited list. */
  ghost function Answer(dbs: seq<Db>, q: Query, parsers: Parsers): (r: Result<seq<Span>>)
    requires forall i :: 0 <= i < |dbs| ==> forall k :: k in dbs[i] ==> WellShaped(k)
    ensures r.Ok? <==> forall p :: p in q.predicates ==> Loadable(p, parsers)
    ensures r.Err? ==> FirstError(q.predicates, parsers, r.error)
  {
    match LoadAll(q.predicates, parsers)
    case Err(e) => Err(e)
    case Ok(ps) => Ok(Take(Unlimited(dbs, ps, q.prev), q.lim))
  }

  class DataStore {
    const shards: seq<Shard>

    /** Every key of every shard has the length its index calls for. */
    ghost predicate Shaped()
      reads shards
    {
      forall i :: 0 <= i < |shards| ==> forall k :: k in shards[i].ldb ==> WellShaped(k)
    }

    constructor (shards: seq<Shard>)
      ensures this.shards == shards
    {
      this.shards := shards;
    }

    method LoadPredicates(ps: seq<Predicate>, parsers: Parsers) returns (r: Result<seq<PredicateData>>)
      ensures r == LoadAll(ps, parsers)
    {
      var ds := [];
      for i := 0 to |ps|
        invariant LoadAll(ps[..i], parsers) == Ok(ds)
      {
        assert ps[..i + 1][..i] == ps[..i];
        match LoadPredicateData(ps[i], parsers) {
          case Err(e) =>
            LoadAllError(ps, i + 1, parsers);
            return Err(e);
          case Ok(d) => ds := ds + [d];
        }
      }
      assert ps[..|ps|] == ps;
      return Ok(ds);
    }

    /** Take the first indexed predicate out of the list and open a source on it. */
    method ObtainSource(ps: seq<PredicateData>, prev: Option<Span>)
      returns (src: Source, others: seq<PredicateData>)
      requires Shaped() && forall p :: p in ps ==> WellFormed(p)
      ensures fresh(src) && src.Valid() && src.shards == shards && others == OthersOf(ps)
      ensures src.pred == ResumePredicate(SourceOf(ps), prev)
      ensures src.Remaining() == Merge(src.pred, StartRests(Dbs(shards), SourceOf(ps), prev))
    {
      var i := 0;
      while i < |ps| && IndexPrefix(ps[i].field) == 0
        invariant 0 <= i <= |ps|
        invariant forall j :: 0 <= j < i ==> IndexPrefix(ps[j].field) == 0
      {
        i := i + 1;
      }
      assert i == SourceIndex(ps);
      if i < |ps| {
        src := CreateSource(ps[i], shards, prev);
        others := ps[..i] + ps[i + 1..];
      } else {
        src := CreateSource(DefaultSource(), shards, prev);
        others := ps;
      }
    }

    method HandleQuery(query: Query, parsers: Parsers) returns (r: Result<seq<Span>>)
      requires Shaped()
      ensures r == Answer(Dbs(shards), query, parsers)
      ensures r.Ok? <==> forall p :: p in query.predicates ==> Loadable(p, parsers)
      ensures r.Err? ==> FirstError(query.predicates, parsers, r.error)
    {
      var preds := LoadPredicates(query.predicates, parsers);
      if preds.Err? {
        return Err(preds.error);
      }
      var src, others := ObtainSource(preds.value, query.prev);
      var ret := Drain(src, others, query.lim);
      return Ok(ret);
    }
  }

  /** Filter the source's spans through the remaining predicates until the limit is reached. */
  method Drain(src: Source, others: seq<PredicateData>, lim: nat) returns (ret: seq<Span>)
    requires src.Valid() && forall p :: p in others ==> WellFormed(p)
    modifies src
    ensures ret == Take(Filter(others, old(src.Remaining())), lim)
  {
    ghost var todo := src.Remaining();
    ret := [];
    while |ret| < lim
      invariant src.Valid() && |ret| <= lim && todo == src.Remaining()
      invariant Filter(others, old(src.Remaining())) == ret + Filter(others, todo)
      decreases |todo|
    {
      var span := src.Next();
      if span.None? {
        break; // the source has no more spans to give
      }
      FilterStep(others, ret, span.value, src.Remaining());
      todo := src.Remaining();
      var satisfied := SatisfiesAll(others, span.value);
      if satisfied {
        ret := ret + [span.value];
      }
    }
  }

  method SatisfiesAll(others: seq<PredicateData>, span: Span) returns (satisfied: bool)
    requires forall p :: p in others ==> WellFormed(p)
    ensures satisfied == AcceptsAll(others, span)
  {
    for i := 0 to |others|
      invariant forall p :: p in others[..i] ==> Accepts(p, span)
    {
      if SatisfiedBy(others[i], span) != Satisfied {
        assert others[i] in others && !Accepts(others[i], span);
        return false;
      }
    }
    return true;
  }

  lemma {:induction false} LoadAllError(ps: seq<Predicate>, n: nat, parsers: Parsers)
    requires n <= |ps| && LoadAll(ps[..n], parsers).Err?
    ensures LoadAll(ps, parsers) == LoadAll(ps[..n], parsers)
    decreases |ps|
  {
    if n == |ps| {
      assert ps[..n] == ps;
    } else {
      assert ps[..|ps| - 1][..n] == ps[..n];
      LoadAllError(ps[..|ps| - 1], n, parsers);
    }
  }

  lemma FilterStep(ps: seq<PredicateData>, before: seq<Span>, s: Span, spans: seq<Span>)
    requires forall p :: p in ps ==> WellFormed(p)
    ensures before + Filter(ps, [s] + spans) ==
            (if AcceptsAll(ps, s) then before + [s] else before) + Filter(ps, spans)
  {
    assert ([s] + spans)[1..] == spans;
  }
}
