/** Dumping a whole store page by page (`DumpAll` in client/client.go). */
module Dump {
  import opened Bytes
  import opened Spans
  import opened LevelDb
  import opened Index
  import opened Options
  import opened Predicates
  import opened Scans
  import opened Merging
  import opened Sources
  import opened Queries
  import opened Answers
  import opened Paging

  /** The loaded form of the dump's query: every span with this id or a greater one. */
  function FromId(id: SpanId): (ps: seq<PredicateData>)
    ensures forall p :: p in ps ==> WellFormed(p)
  {
    [PredicateData(GreaterThanOrEquals, SpanIdField, id)]
  }

  /** Every stored span, in ascending id order. */
  ghost predicate IsWholeStore(dbs: seq<Db>, spans: seq<Span>) {
    (forall s :: s in spans <==> StoredIn(dbs, s)) &&
    forall i, j :: 0 <= i < j < |spans| ==> Less(spans[i].id, spans[j].id)
  }

  lemma FromIdMembers(dbs: seq<Db>, route: SpanId -> int, id: SpanId, s: Span)
    requires GoodStore(dbs, route)
    ensures SourceOf(FromId(id)) == FromId(id)[0]
    ensures s in Unlimited(dbs, FromId(id), None) <==> StoredIn(dbs, s) && AtMost(id, s.id)
  {
    assert SourceIndex(FromId(id)) == 0;
    assert OthersOf(FromId(id)) == [];
    IdPageMembers(dbs, route, FromId(id), None, s);
    LessTotal(id, s.id);
    LessIrreflexive(id);
    if Less(id, s.id) {
      LessAsymmetric(id, s.id);
    }
  }

  lemma FromIdOrder(dbs: seq<Db>, route: SpanId -> int, id: SpanId)
    requires GoodStore(dbs, route)
    ensures forall p :: IsSource(p) && p.field.SpanIdField? && !p.op.IsDescending() ==>
              InResultOrder(p, route, Unlimited(dbs, FromId(id), None))
    ensures var all := Unlimited(dbs, FromId(id), None);
            forall i, j :: 0 <= i < j < |all| ==> Less(all[i].id, all[j].id)
  {
    var all := Unlimited(dbs, FromId(id), None);
    UnlimitedOrder(dbs, route, FromId(id), None);
    assert SourceIndex(FromId(id)) == 0;
    forall i, j | 0 <= i < j < |all| ensures Less(all[i].id, all[j].id) {
      IdOrder(SourceOf(FromId(id)), route, all[i], all[j]);
    }
    forall p, i, j | IsSource(p) && p.field.SpanIdField? && !p.op.IsDescending() && 0 <= i < j < |all|
      ensures Precedes(p, route, all[i], all[j])
    {
      IdOrder(p, route, all[i], all[j]);
    }
  }

  /** The zero id asks for the whole store. */
  lemma FromZeroIsWholeStore(dbs: seq<Db>, route: SpanId -> int)
    requires GoodStore(dbs, route)
    ensures IsWholeStore(dbs, Unlimited(dbs, FromId(ZeroId()), None))
  {
    FromIdOrder(dbs, route, ZeroId());
    forall s: Span ensures s in Unlimited(dbs, FromId(ZeroId()), None) <==> StoredIn(dbs, s) {
      FromIdMembers(dbs, route, ZeroId(), s);
      if StoredIn(dbs, s) {
        StoredInIsValid(dbs, route, s);
        ZeroIsLeast(s.id);
      }
    }
  }

  /** Asking from the successor of the n-th result on gives the results after the n-th. */
  lemma NextPage(dbs: seq<Db>, route: SpanId -> int, id: SpanId, n: nat)
    requires GoodStore(dbs, route) && 1 <= n <= |Unlimited(dbs, FromId(id), None)|
    requires Unlimited(dbs, FromId(id), None)[n - 1].id != MaxId()
    ensures var all := Unlimited(dbs, FromId(id), None);
            Unlimited(dbs, FromId(Successor(all[n - 1].id)), None) == all[n..]
  {
    var all := Unlimited(dbs, FromId(id), None);
    var last := all[n - 1];
    var succ := Successor(last.id);
    var next := Unlimited(dbs, FromId(succ), None);
    var p := FromId(id)[0];
    FromIdOrder(dbs, route, id);
    FromIdOrder(dbs, route, succ);
    FromIdMembers(dbs, route, id, last);
    StoredInIsValid(dbs, route, last);
    forall s: Span ensures s in next <==> s in all && Precedes(p, route, last, s) {
      FromIdMembers(dbs, route, id, s);
      FromIdMembers(dbs, route, succ, s);
      IdOrder(p, route, last, s);
      if StoredIn(dbs, s) {
        StoredInIsValid(dbs, route, s);
        SuccessorIsNext(last.id, s.id);
        if Less(last.id, s.id) {
          AtMostTransitive(id, last.id, s.id);
        }
      }
    }
    ContinuationFromMembers(p, route, all, n, next);
  }

  /**
   * `DumpAll`: query, emit, go on from the successor of the last id, until a page comes back empty.
   * The ids travel as text, so the text form has to read back.
   */
  method DumpAll(store: DataStore, parsers: Parsers, show: FullId -> ByteString, lim: nat, ghost route: SpanId -> int)
    returns (out: seq<Span>)
    requires GoodStore(Dbs(store.shards), route) && store.Shaped()
    requires forall id: FullId :: parsers.spanId(show(id)) == Some(id)
    requires forall s :: StoredIn(Dbs(store.shards), s) ==> s.id != MaxId()
    ensures lim >= 1 ==> IsWholeStore(Dbs(store.shards), out)
    ensures lim == 0 ==> out == []
  {
    hide Unlimited;
    ghost var dbs := Dbs(store.shards);
    ghost var all := Unlimited(dbs, FromId(ZeroId()), None);
    FromZeroIsWholeStore(dbs, route);
    out := [];
    var searchId: FullId := ZeroId();
    while true
      invariant |out| <= |all| && out == all[..|out|]
      invariant lim == 0 ==> out == []
      invariant Unlimited(dbs, FromId(searchId), None) == all[|out|..]
      decreases |all| - |out|
    {
      var spans := QueryFrom(store, parsers, show, searchId, lim);
      AdvancePage(all, out, spans, lim);
      if |spans| == 0 {
        return;
      }
      var last := spans[|spans| - 1];
      NextPage(dbs, route, searchId, |spans|);
      out := out + spans;
      searchId := Spans.Next(last.id);
    }
  }

  /** One round trip: the query a client sends for the spans from an id on. */
  method QueryFrom(store: DataStore, parsers: Parsers, show: FullId -> ByteString, searchId: FullId, lim: nat)
    returns (spans: seq<Span>)
    requires store.Shaped() && parsers.spanId(show(searchId)) == Some(searchId)
    ensures spans == Take(Unlimited(Dbs(store.shards), FromId(searchId), None), lim)
  {
    var p := Predicate(GreaterThanOrEquals, SpanIdField, show(searchId));
    LoadOne(p, parsers);
    var r := store.HandleQuery(Query([p], lim, None), parsers);
    spans := r.value;
  }

  lemma LoadOne(p: Predicate, parsers: Parsers)
    requires LoadPredicateData(p, parsers).Ok?
    ensures LoadAll([p], parsers) == Ok([LoadPredicateData(p, parsers).value])
  {
    assert [p][..0] == [];
    assert LoadAll([p][..0], parsers) == Ok([]);
    assert [] + [LoadPredicateData(p, parsers).value] == [LoadPredicateData(p, parsers).value];
  }

  lemma AdvancePage(all: seq<Span>, out: seq<Span>, spans: seq<Span>, lim: nat)
    requires |out| <= |all| && out == all[..|out|] && spans == Take(all[|out|..], lim)
    ensures |out + spans| <= |all| && out + spans == all[..|out + spans|]
    ensures all[|out|..][|spans|..] == all[|out + spans|..]
    ensures |spans| == 0 && lim >= 1 ==> out == all
    ensures |spans| > 0 ==> spans[|spans| - 1] == all[|out|..][|spans| - 1] && spans[|spans| - 1] in all
  {
    if |spans| > 0 {
      assert spans[|spans| - 1] == all[|out| + |spans| - 1];
    }
  }

  // ---------------------------------------------------------------- the id that never ends

  /** One round of the dump's loop: the next search id, or none when it stops. */
  ghost function Round(dbs: seq<Db>, lim: nat, searchId: SpanId): Option<SpanId>
    requires forall i :: 0 <= i < |dbs| ==> forall k :: k in dbs[i] ==> WellShaped(k)
  {
    var page := Take(Unlimited(dbs, FromId(searchId), None), lim);
    if |page| == 0 then None else Some(Successor(page[|page| - 1].id))
  }

  /** The search id after a number of rounds, if the loop is still going. */
  ghost function Rounds(round: SpanId -> Option<SpanId>, n: nat): Option<SpanId> {
    if n == 0 then Some(ZeroId())
    else match Rounds(round, n - 1)
      case None => None
      case Some(id) => round(id)
  }

  lemma {:induction false} GoesOnForEver(round: SpanId -> Option<SpanId>, n: nat)
    requires forall id :: |id| == SPAN_ID_BYTES ==> round(id).Some? && |round(id).value| == SPAN_ID_BYTES
    ensures Rounds(round, n).Some? && |Rounds(round, n).value| == SPAN_ID_BYTES
    decreases n
  {
    if n > 0 {
      GoesOnForEver(round, n - 1);
    }
  }

  lemma RoundGoesOn(dbs: seq<Db>, route: SpanId -> int, lim: nat, top: Span, id: SpanId)
    requires GoodStore(dbs, route) && lim >= 1 && StoredIn(dbs, top) && AtMost(id, top.id)
    ensures Round(dbs, lim, id).Some? && |Round(dbs, lim, id).value| == SPAN_ID_BYTES
  {
    FromIdMembers(dbs, route, id, top);
    NonEmptyPage(Unlimited(dbs, FromId(id), None), top, lim);
  }

  lemma NonEmptyPage(all: seq<Span>, s: Span, lim: nat)
    requires s in all && lim >= 1
    ensures |Take(all, lim)| > 0
  {
  }

  /** A store that holds the greatest id is dumped for ever: its successor wraps round to the start. */
  lemma DumpNeverEnds(dbs: seq<Db>, route: SpanId -> int, lim: nat, top: Span, n: nat)
    requires GoodStore(dbs, route) && lim >= 1 && StoredIn(dbs, top) && top.id == MaxId()
    ensures Rounds(id => Round(dbs, lim, id), n).Some?
  {
    var round := id => Round(dbs, lim, id);
    forall id: SpanId | |id| == SPAN_ID_BYTES ensures round(id).Some? && |round(id).value| == SPAN_ID_BYTES {
      MaxIsGreatest(id);
      RoundGoesOn(dbs, route, lim, top, id);
    }
    GoesOnForEver(round, n);
  }
}
