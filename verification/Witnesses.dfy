/** Stores and inputs on which the obvious properties fail, one for each failure the theorems delimit. */
module Witnesses {
  import opened Bytes
  import opened Spans
  import opened Keys
  import opened LevelDb
  import opened Index
  import opened Options
  import opened Predicates
  import opened Scans
  import opened Merging
  import opened Queries
  import opened Answers
  import opened SecondaryPaging
  import opened Conservation
  import Dump
  import Reaping
  import StrayKeys
  import Pruning
  import Children
  import Loader
  import SpanCodec
  import SpanReader

  // ---------------------------------------------------------------- small stores

  function EmptyShard(): Db {
    map[INFO_KEY := InfoRecord(ShardInfo(3, 1, 1, 0))]
  }

  /** An id of sixteen equal bytes. */
  function Id(b: Byte): (id: SpanId)
    ensures |id| == SPAN_ID_BYTES && id[0] == b
  {
    Repeat(b, SPAN_ID_BYTES)
  }

  function Sample(id: SpanId, begin: Int64, parents: seq<SpanId>): Span {
    Span(id, SpanData(begin, 9, [], parents, map[], [], []))
  }

  ghost predicate HoldsJust(db: Db, spans: set<Span>) {
    Exact(db) && forall s :: Stored(db, s) <==> s in spans
  }

  lemma OneSpan(s: Span)
    requires ValidId(s.id)
    ensures HoldsJust(Written(EmptyShard(), s), {s})
  {
    var db := EmptyShard();
    EmptyShardIsExact(db);
    hide Written, EmptyShard, Exact;
    WriteExactIff(db, s);
    forall x ensures Stored(Written(db, s), x) <==> x in {s} {
      WrittenFinds(db, s, x.id);
    }
  }

  lemma TwoSpans(db: Db, s: Span, t: Span)
    requires HoldsJust(db, {s}) && ValidId(t.id) && s.id != t.id
    ensures HoldsJust(Written(db, t), {s, t})
  {
    hide Written, Exact;
    assert FindSpan(db, t.id).None?;
    WriteExactIff(db, t);
    forall x ensures Stored(Written(db, t), x) <==> x in {s, t} {
      WrittenFinds(db, t, x.id);
    }
  }

  lemma ValidIds(b: Byte)
    requires b > 0
    ensures ValidId(Id(b))
  {
    assert ZeroId()[0] == 0;
  }

  function OneShard(): SpanId -> int {
    _ => 0
  }

  lemma OneGoodShard(db: Db, spans: set<Span>)
    requires HoldsJust(db, spans)
    ensures GoodStore([db], OneShard())
  {
  }

  /** Two spans with one begin time, and a shard that holds just them. */
  const TIED_1: Span := Sample(Id(1), 5, [])
  const TIED_2: Span := Sample(Id(2), 5, [])

  function TiedDb(): Db {
    Written(Written(EmptyShard(), TIED_1), TIED_2)
  }

  lemma TiedIds()
    ensures ValidId(TIED_1.id) && ValidId(TIED_2.id) && Less(TIED_1.id, TIED_2.id)
  {
    ValidIds(1);
    ValidIds(2);
  }

  lemma TiedStore()
    ensures HoldsJust(TiedDb(), {TIED_1, TIED_2}) && GoodStore([TiedDb()], OneShard())
    ensures TIED_1.id != TIED_2.id
  {
    TiedIds();
    hide Written, EmptyShard, HoldsJust, GoodStore, Sample;
    LessIrreflexive(TIED_1.id);
    OneSpan(TIED_1);
    TwoSpans(Written(EmptyShard(), TIED_1), TIED_1, TIED_2);
    OneGoodShard(TiedDb(), {TIED_1, TIED_2});
  }

  function BeginPredicate(op: Op): (p: PredicateData)
    requires op in {Equals, LessThanOrEquals, GreaterThanOrEquals, GreaterThan}
    ensures IsSecondary(p) && p.op == op && p.field == BeginTime
    ensures p.key == FieldBytes(BeginTime, TIED_1) == FieldBytes(BeginTime, TIED_2)
  {
    PredicateData(op, BeginTime, Int64Key(5))
  }

  lemma SinglePredicate(p: PredicateData)
    requires IsSource(p)
    ensures SourceOf([p]) == p && OthersOf([p]) == []
  {
  }

  // ---------------------------------------------------------------- queries

  /** Asking for begin <= 5 returns one of the two spans that begin at 5. */
  lemma LessOrEqualLosesATie()
    ensures GoodStore([TiedDb()], OneShard())
    ensures var ps := [BeginPredicate(LessThanOrEquals)];
            !IsFullAnswer([TiedDb()], OneShard(), ps, Unlimited([TiedDb()], ps, None))
  {
    TiedStore();
    hide TiedDb, GoodStore, IsFullAnswer, Unlimited, Sample, BeginPredicate, FieldBytes;
    var p := BeginPredicate(LessThanOrEquals);
    LessOrEqualComplete([TiedDb()], OneShard(), p);
    assert Stored(TiedDb(), TIED_1) && Stored(TiedDb(), TIED_2);
    assert HoldsTies([TiedDb()][0], p);
  }

  /** The answer to a GE query for the common field value of two spans. */
  lemma BothInAnswer(db: Db, p: PredicateData, s: Span, t: Span)
    requires HoldsJust(db, {s, t}) && GoodStore([db], OneShard()) && IsSecondary(p) && p.op.GreaterThanOrEquals?
    requires FieldBytes(p.field, s) == FieldBytes(p.field, t) == p.key
    ensures forall x :: x in Unlimited([db], [p], None) <==> x in {s, t}
  {
    hide Unlimited, FieldBytes, Stored;
    SinglePredicate(p);
    LessIrreflexive(p.key);
    forall x: Span ensures x in Unlimited([db], [p], None) <==> x in {s, t} {
      GreaterMembers([db], OneShard(), [p], None, x);
      assert StoredIn([db], x) <==> Stored([db][0], x);
    }
  }

  /** A query with two results or more that, continued after the first, does not return the rest. */
  ghost predicate LosesAfterFirst(dbs: seq<Db>, ps: seq<PredicateData>) {
    (forall p :: p in ps ==> WellFormed(p)) &&
    (forall i :: 0 <= i < |dbs| ==> forall k :: k in dbs[i] ==> WellShaped(k)) &&
    var all := Unlimited(dbs, ps, None);
    |all| >= 2 && Unlimited(dbs, ps, Some(all[0])) != all[1..]
  }

  lemma GreaterDropsTie(db: Db, p: PredicateData, s: Span, t: Span)
    requires HoldsJust(db, {s, t}) && GoodStore([db], OneShard()) && IsSecondary(p) && p.op.GreaterThanOrEquals?
    requires FieldBytes(p.field, s) == FieldBytes(p.field, t) == p.key && s != t
    ensures LosesAfterFirst([db], [p])
  {
    var all := Unlimited([db], [p], None);
    hide Unlimited, FieldBytes, HoldsJust, NoTieAt;
    BothInAnswer(db, p, s, t);
    SinglePredicate(p);
    TieAtOne(p.field, all, s, t);
    GreaterContinuesIff([db], OneShard(), [p], None, 1);
  }

  lemma TieAtOne(f: Field, all: seq<Span>, s: Span, t: Span)
    requires !f.UnknownField? && FieldBytes(f, s) == FieldBytes(f, t) && s != t
    requires forall x :: x in all <==> x in {s, t}
    ensures |all| >= 2 && !NoTieAt(f, all, 1)
  {
    hide FieldBytes;
    TwoMembers(all, s, t);
    assert all[0] in all && all[1] in all;
  }

  lemma TwoMembers(all: seq<Span>, s: Span, t: Span)
    requires s in all && t in all && s != t
    ensures |all| >= 2
  {
    var i, j :| 0 <= i < |all| && 0 <= j < |all| && all[i] == s && all[j] == t;
  }

  /** Reading begin >= 5 on after the first of the two loses the second. */
  lemma GreaterOrEqualDropsATie()
    ensures GoodStore([TiedDb()], OneShard()) && LosesAfterFirst([TiedDb()], [BeginPredicate(GreaterThanOrEquals)])
  {
    TiedStore();
    hide TiedDb, Sample, BeginPredicate, FieldBytes, LosesAfterFirst, GoodStore, HoldsJust;
    GreaterDropsTie(TiedDb(), BeginPredicate(GreaterThanOrEquals), TIED_1, TIED_2);
  }

  lemma LastAgain(db: Db, p: PredicateData, s: Span)
    requires HoldsJust(db, {s}) && GoodStore([db], OneShard()) && ValidId(s.id)
    requires IsSecondary(p) && p.op.LessThanOrEquals? && FieldBytes(p.field, s) == p.key
    ensures s in Unlimited([db], [p], None) && s in Unlimited([db], [p], Some(s))
  {
    hide Unlimited, FieldBytes, Stored, Predecessor, Less;
    SinglePredicate(p);
    assert Stored(db, s);
    LessOrEqualMembers([db], OneShard(), [p], None, 0, s);
    PredecessorIsPrev(s.id, Predecessor(s.id));
    LessIrreflexive(s.id);
    LessOrEqualRepeats([db], OneShard(), [p], None, 0, s);
  }

  /** Continuing begin <= 5 after its only result returns that result again. */
  lemma LessOrEqualReturnsLastAgain()
    ensures GoodStore([Written(EmptyShard(), TIED_1)], OneShard())
    ensures var dbs, ps := [Written(EmptyShard(), TIED_1)], [BeginPredicate(LessThanOrEquals)];
            TIED_1 in Unlimited(dbs, ps, None) && TIED_1 in Unlimited(dbs, ps, Some(TIED_1))
  {
    TiedIds();
    var db := Written(EmptyShard(), TIED_1);
    OneSpan(TIED_1);
    hide Written, EmptyShard, Unlimited, Sample, BeginPredicate, FieldBytes, Less;
    OneGoodShard(db, {TIED_1});
    LastAgain(db, BeginPredicate(LessThanOrEquals), TIED_1);
  }

  /** Ids that start with 1 live in the second shard. */
  function TwoShards(): SpanId -> int {
    id => if |id| > 0 && id[0] == 1 then 1 else 0
  }

  lemma SplitStored(dbs: seq<Db>, s: Span, t: Span, x: Span)
    requires |dbs| == 2 && HoldsJust(dbs[0], {t}) && HoldsJust(dbs[1], {s}) && ValidId(s.id) && ValidId(t.id)
    ensures StoredIn(dbs, x) <==> x == s || x == t
    ensures StoredIn(dbs, x) ==> AtMost(ZeroId(), x.id)
  {
    hide Stored, Exact;
    assert Stored(dbs[0], x) <==> x == t;
    assert Stored(dbs[1], x) <==> x == s;
    ZeroIsLeast(s.id);
    ZeroIsLeast(t.id);
  }

  lemma SkipsShard(dbs: seq<Db>, route: SpanId -> int, p: PredicateData, s: Span, t: Span)
    requires |dbs| == 2 && HoldsJust(dbs[0], {t}) && HoldsJust(dbs[1], {s}) && GoodStore(dbs, route)
    requires ValidId(s.id) && ValidId(t.id) && Less(s.id, t.id) && route(t.id) == 0 && route(s.id) == 1
    requires IsSecondary(p) && p.op.Equals? && FieldBytes(p.field, s) == FieldBytes(p.field, t) == p.key
    ensures LosesAfterFirst(dbs, [p])
  {
    hide Unlimited, FieldBytes, HoldsJust, Less, ValidId;
    SinglePredicate(p);
    var all, both := Unlimited(dbs, [p], None), [t, s];
    forall x: Span ensures x in all <==> x in both {
      EqualsMembers(dbs, route, [p], None, x);
      SplitStored(dbs, s, t, x);
    }
    Paging.UnlimitedOrder(dbs, route, [p], None);
    assert InResultOrder(p, route, both);
    OrderedListUnique(p, route, all, both);
    EqualsContinuesIff(dbs, route, [p], None, 1);
    LessAsymmetric(s.id, t.id);
    assert !Less(all[0].id, all[1].id);
    assert all[1..] == [s];
  }

  function SplitDbs(): seq<Db> {
    [Written(EmptyShard(), TIED_2), Written(EmptyShard(), TIED_1)]
  }

  lemma SplitStore()
    ensures var dbs := SplitDbs();
            HoldsJust(dbs[0], {TIED_2}) && HoldsJust(dbs[1], {TIED_1}) && GoodStore(dbs, TwoShards())
  {
    TiedIds();
    assert TIED_1.id[0] == 1 && TIED_2.id[0] == 2;
    hide Written, EmptyShard, Sample, Less, HoldsJust, GoodStore;
    OneSpan(TIED_2);
    OneSpan(TIED_1);
    TwoGoodShards(Written(EmptyShard(), TIED_2), Written(EmptyShard(), TIED_1), TwoShards(), TIED_1, TIED_2);
  }

  lemma TwoGoodShards(a: Db, b: Db, route: SpanId -> int, s: Span, t: Span)
    requires HoldsJust(a, {t}) && HoldsJust(b, {s}) && route(t.id) == 0 && route(s.id) == 1
    ensures GoodStore([a, b], route)
  {
    hide Exact, Stored;
  }

  /** Reading begin = 5 on after the first result skips the smaller id, which lies in the later shard. */
  lemma EqualsSkipsAShard()
    ensures GoodStore(SplitDbs(), TwoShards()) && LosesAfterFirst(SplitDbs(), [BeginPredicate(Equals)])
  {
    SplitStore();
    TiedIds();
    assert TIED_1.id[0] == 1 && TIED_2.id[0] == 2;
    hide SplitDbs, Sample, BeginPredicate, FieldBytes, Less, LosesAfterFirst, GoodStore, HoldsJust;
    SkipsShard(SplitDbs(), TwoShards(), BeginPredicate(Equals), TIED_1, TIED_2);
  }

  // ---------------------------------------------------------------- writes and reaping

  lemma StrayKey(db: Db, s: Span, s': Span)
    requires HoldsJust(db, {s}) && ValidId(s.id) && s'.id == s.id && s'.data.begin != s.data.begin
    ensures BeginKey(s) in Written(db, s') && !Exact(Written(db, s'))
  {
    hide Exact, Written, KeysOf, FieldBytes;
    var k := IndexKey(BeginTime, s);
    assert Stored(db, s) && FindSpan(db, s'.id) == Some(s);
    StrayInKeys(s, s');
    IndexKeyStored(db, BeginTime, s) by { SecondaryPaging.ExactIsComplete(db); }
    StaysWritten(db, s', k);
    WriteExactIff(db, s');
  }

  lemma StrayInKeys(s: Span, s': Span)
    requires |s.id| == SPAN_ID_BYTES && s'.id == s.id && s'.data.begin != s.data.begin
    ensures IndexKey(BeginTime, s) == BeginKey(s) && BeginKey(s) in KeysOf(s) && BeginKey(s) !in KeysOf(s')
  {
    IndexKeyInKeysOf(BeginTime, s);
    assert IndexKey(BeginTime, s) == BeginKey(s);
    hide KeysOf;
    if BeginKey(s) in KeysOf(s') {
      SectionKeyOf(BeginTime, s', BeginKey(s));
      IndexKeyInjective(BeginTime, s, s');
      Int64KeyOrder(s.data.begin, s'.data.begin);
    }
  }

  lemma StaysWritten(db: Db, s: Span, k: ByteString)
    requires k in db
    ensures k in Written(db, s)
  {
  }

  /** Writing an id again with another begin time leaves the old begin key behind. */
  lemma RewriteLeavesAKey()
    ensures var s' := Sample(Id(1), 6, []);
            var db := Written(EmptyShard(), TIED_1);
            Exact(db) && BeginKey(TIED_1) in Written(db, s') && !Exact(Written(db, s'))
  {
    TiedIds();
    OneSpan(TIED_1);
    StrayKey(Written(EmptyShard(), TIED_1), TIED_1, Sample(Id(1), 6, []));
  }

  /** A span with begin time zero and a small id outlives every prune, with or without database errors. */
  lemma ReaperOverlooksZero(date: Int64, after: Db, reaped: seq<Span>)
    requires date > 0
    ensures var s := Sample(Id(1), 0, []);
            var db := Written(EmptyShard(), s);
            Exact(db) && Stored(db, s) && s.data.begin < date &&
            (Pruning.PruneOutcome(db, after, date, reaped) ==> Stored(after, s))
  {
    var s := Sample(Id(1), 0, []);
    ValidIds(1);
    OneSpan(s);
    hide Written, EmptyShard;
    var db := Written(EmptyShard(), s);
    if Pruning.PruneOutcome(db, after, date, reaped) {
      Reaping.RemovalsStored(db, reaped, s);
    }
  }

  /** A begin key that a rewrite left behind, and that now leads to a newer span, shields older spans. */
  lemma ShieldedBy(db: Db, s: Span, t: Span, t': Span, date: Int64)
    requires HoldsJust(db, {s}) && ValidId(s.id) && ValidId(t.id) && t'.id == t.id != s.id
    requires 0 <= t.data.begin < s.data.begin < date <= t'.data.begin && Reaping.Visible(t)
    ensures !StrayKeys.WillBeReaped(Written(Written(db, t), t'), date, s)
  {
    var db' := Written(Written(db, t), t');
    var k' := IndexKey(BeginTime, t);
    IndexKeyInKeysOf(BeginTime, t);
    KeysNameOwner(t, k');
    Reaping.ReaperOrder(t);
    WrittenFinds(Written(db, t), t', t.id);
    hide KeysOf, Exact, IndexKey, Less, FindSpan;
    assert StrayKeys.InReach(db', k') && StrayKeys.Blocks(db', date, k');
    hide StrayKeys.Blocks, Written;
    forall k | StrayKeys.InReach(db', k) && StrayKeys.Names(db', k, s) ensures !StrayKeys.Clear(db', date, k) {
      BeyondStray(db, s, t, t', k);
    }
  }

  lemma BeyondStray(db: Db, s: Span, t: Span, t': Span, k: ByteString)
    requires HoldsJust(db, {s}) && ValidId(s.id) && ValidId(t.id) && t'.id == t.id != s.id
    requires t.data.begin < s.data.begin && StrayKeys.InReach(Written(Written(db, t), t'), k)
    requires |k| > SPAN_ID_BYTES && IdOfKey(k) == s.id
    ensures AtMost(IndexKey(BeginTime, t), k)
  {
    hide KeysOf, Exact, Stored, Less;
    OldKey(db, t, t', k);
    OwnBeginKey(db, s, t, k);
  }

  lemma OldKey(db: Db, t: Span, t': Span, k: ByteString)
    requires |t.id| == |t'.id| == SPAN_ID_BYTES && k in Written(Written(db, t), t')
    requires |k| > SPAN_ID_BYTES && IdOfKey(k) != t.id && IdOfKey(k) != t'.id
    ensures k in db
  {
    hide KeysOf;
    if k in KeysOf(t) {
      KeysNameOwner(t, k);
    } else if k in KeysOf(t') {
      KeysNameOwner(t', k);
    }
  }

  lemma OwnBeginKey(db: Db, s: Span, t: Span, k: ByteString)
    requires HoldsJust(db, {s}) && |s.id| == |t.id| == SPAN_ID_BYTES && t.data.begin < s.data.begin
    requires k in db && |k| > SPAN_ID_BYTES && IdOfKey(k) == s.id && AtMost(Reaping.ReaperSearchKey(), k)
    ensures AtMost(IndexKey(BeginTime, t), k)
  {
    hide KeysOf, Exact;
    IndexKeyInKeysOf(BeginTime, t);
    if k[0] == BEGIN_TIME_INDEX_PREFIX {
      StrayKeys.ExactEntry(db, k);
      var x := FindSpan(db, IdOfKey(k)).value;
      assert Stored(db, x) && x == s;
      hide IndexKey, Less, FindSpan, Stored;
      IndexKeyOrder(BeginTime, t, s);
      Int64KeyOrder(t.data.begin, s.data.begin);
    }
  }

  /** An expired span that survives a prune because an older key of another span now leads to a newer one. */
  lemma StrayKeyShieldsOldSpans()
    ensures var s, t, t' := TIED_1, Sample(Id(2), 1, []), Sample(Id(2), 100, []);
            var db := Written(EmptyShard(), s);
            Complete(Written(Written(db, t), t')) && Reaping.Expired(s, 50) &&
            !StrayKeys.WillBeReaped(Written(Written(db, t), t'), 50, s)
  {
    TiedIds();
    ValidIds(2);
    var s, t, t' := TIED_1, Sample(Id(2), 1, []), Sample(Id(2), 100, []);
    LessIrreflexive(s.id);
    var db := Written(EmptyShard(), s);
    OneSpan(s);
    hide EmptyShard;
    WriteKeepsComplete(db, t);
    WriteKeepsComplete(Written(db, t), t');
    hide Written;
    ShieldedBy(db, s, t, t', 50);
  }

  // ---------------------------------------------------------------- dump, children, loader

  /** With a span under the greatest id, the dump goes on for any number of rounds. */
  lemma DumpOfGreatestId(lim: nat, n: nat)
    requires lim >= 1
    ensures var dbs := [Written(EmptyShard(), Sample(MaxId(), 5, []))];
            GoodStore(dbs, OneShard()) && Dump.Rounds(id => Dump.Round(dbs, lim, id), n).Some?
  {
    var top := Sample(MaxId(), 5, []);
    var dbs := [Written(EmptyShard(), top)];
    assert MaxId()[0] == 0xff && ZeroId()[0] == 0;
    OneSpan(top);
    hide Written, EmptyShard;
    OneGoodShard(dbs[0], {top});
    assert Stored(dbs[0], top);
    Dump.DumpNeverEnds(dbs, OneShard(), lim, top, n);
  }

  /** A 17-byte parent id makes its span appear among the children of its first 16 bytes. */
  lemma LongParentLooksAlike()
    ensures var sid := Id(3);
            var db := Written(EmptyShard(), Sample(Id(1), 5, [sid + [7]]));
            Exact(db) && !forall id :: id in Children.ChildList(db, sid) <==> Children.StoredChild(db, sid, id)
  {
    var sid := Id(3);
    var s := Sample(Id(1), 5, [sid + [7]]);
    ValidIds(1);
    OneSpan(s);
    LookAlike(Written(EmptyShard(), s), s, sid, [7]);
  }

  lemma LookAlike(db: Db, s: Span, sid: SpanId, more: ByteString)
    requires HoldsJust(db, {s}) && |sid| == SPAN_ID_BYTES && more != [] && sid + more in s.data.parents
    ensures !forall id :: id in Children.ChildList(db, sid) <==> Children.StoredChild(db, sid, id)
  {
    hide Exact, Children.ChildList, Children.StoredChild;
    assert Stored(db, s);
    var k := ParentKey(sid + more, s.id);
    assert k == Children.ChildSearchKey(sid) + (more + s.id);
    assert Children.HasPrefix(k, Children.ChildSearchKey(sid));
    assert !Children.NoLookAlike(db, sid);
    Children.ChildListExactIff(db, sid);
  }

  /** A single shard numbered 5 passes every check and then indexes out of range. */
  lemma FirstIndexUnchecked()
    ensures var shards := [Loader.ShardLoader([], true, Some(ShardInfo(3, 7, 1, 5)), false)];
            Loader.SameDaemon(shards) && Loader.IndexesInRange(shards, 1) && !Loader.IndexesInRange(shards, 0)
  {
    var shards := [Loader.ShardLoader([], true, Some(ShardInfo(3, 7, 1, 5)), false)];
    assert shards[0].info.value.shardIndex == 5;
  }

  // ---------------------------------------------------------------- the wire

  function WireSpan(desc: ByteString): SpanCodec.CSpan {
    SpanCodec.CSpan(desc, 1, 2, SpanCodec.CId(3, 4), None, [])
  }

  /** A span with an empty description, or one of 65536 bytes, does not read back. */
  lemma DescriptionsThatDoNotReadBack(rest: ByteString)
    ensures var s := WireSpan([]);
            SpanReader.ParseSpan(SpanCodec.SpanBytes(s) + rest) != Some((s, rest))
    ensures var s := WireSpan(Repeat(0x61, 0x1_0000));
            SpanReader.ParseSpan(SpanCodec.SpanBytes(s) + rest) != Some((s, rest))
  {
    hide *;
    NotCarried();
    SpanReader.SpanRoundTripIff(WireSpan([]), rest);
    SpanReader.SpanRoundTripIff(WireSpan(Repeat(0x61, 0x1_0000)), rest);
  }

  lemma NotCarried()
    ensures !SpanReader.Carried(WireSpan([])) && !SpanReader.Carried(WireSpan(Repeat(0x61, 0x1_0000)))
  {
  }
}
