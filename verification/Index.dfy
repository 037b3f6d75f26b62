/**
 * What one shard's leveldb holds: the primary record of every span together with its
 * secondary-index keys, how writes and deletes change that key set, and the invariants
 * that every run of them keeps.
 */
module Index {
  import opened Bytes
  import opened Spans
  import opened Keys
  import opened LevelDb
  import opened Options

  // ---------------------------------------------------------------- stored spans

  ghost predicate Stored(db: Db, s: Span) {
    PrimaryKey(s.id) in db && db[PrimaryKey(s.id)] == SpanRecord(s.data)
  }

  /** `shard.FindSpan`: read and decode the primary record. */
  function FindSpan(db: Db, id: SpanId): (r: Option<Span>)
    ensures r.Some? ==> r.value.id == id && Stored(db, r.value)
    ensures r.None? ==> forall s: Span :: s.id == id ==> !Stored(db, s)
  {
    var k := PrimaryKey(id);
    if k in db && db[k].SpanRecord? then Some(Span(id, db[k].data)) else None
  }

  predicate IsPrimaryKey(k: ByteString) {
    |k| > 0 && k[0] == SPAN_ID_INDEX_PREFIX
  }

  /** The shard seen as a finite map from id to span data. */
  function Contents(db: Db): (m: map<SpanId, SpanData>)
  {
    map id | id in (set k | k in db && IsPrimaryKey(k) && db[k].SpanRecord? :: k[1..]) && FindSpan(db, id).Some?
      :: FindSpan(db, id).value.data
  }

  lemma ContentsAreStored(db: Db, s: Span)
    ensures s.id in Contents(db) && Contents(db)[s.id] == s.data <==> Stored(db, s)
    ensures s.id in Contents(db) <==> FindSpan(db, s.id).Some?
  {
    var k := PrimaryKey(s.id);
    assert k[1..] == s.id;
    if k in db && db[k].SpanRecord? {
      assert IsPrimaryKey(k);
    }
  }

  // ---------------------------------------------------------------- one write, one delete

  function RecordFor(s: Span, k: ByteString): Value {
    if k == PrimaryKey(s.id) then SpanRecord(s.data) else EmptyValue
  }

  /** The shard after `writeSpan`. */
  function Written(db: Db, s: Span): Db {
    db + map k | k in KeysOf(s) :: RecordFor(s, k)
  }

  /** The shard after `DeleteSpan`. */
  function Deleted(db: Db, s: Span): Db {
    db - KeysOf(s)
  }

  // ---------------------------------------------------------------- invariants

  const INFO_KEY: ByteString := [SHARD_INFO_KEY]

  /** The key is as long as the index its first byte selects calls for. */
  predicate WellShaped(k: ByteString) {
    |k| > 0 &&
    (k[0] == SPAN_ID_INDEX_PREFIX ==> |k| == 1 + SPAN_ID_BYTES) &&
    (k[0] in {BEGIN_TIME_INDEX_PREFIX, END_TIME_INDEX_PREFIX, DURATION_INDEX_PREFIX} ==> |k| == 9 + SPAN_ID_BYTES)
  }

  /** Every primary record is a span with a valid id and has all of its index keys. */
  ghost predicate Complete(db: Db) {
    INFO_KEY in db &&
    (forall k :: k in db ==> WellShaped(k)) &&
    forall id: SpanId :: PrimaryKey(id) in db ==>
      ValidId(id) && db[PrimaryKey(id)].SpanRecord? && KeysOf(Span(id, db[PrimaryKey(id)].data)) <= db.Keys
  }

  /** The key belongs to the span stored under the id it ends with. */
  ghost predicate Owned(db: Db, k: ByteString) {
    |k| > SPAN_ID_BYTES && FindSpan(db, IdOfKey(k)).Some? && k in KeysOf(FindSpan(db, IdOfKey(k)).value)
  }

  /** The key set is the shard-info key and the keys of the stored spans, and nothing else. */
  ghost predicate Exact(db: Db) {
    Complete(db) && forall k :: k in db && k != INFO_KEY ==> Owned(db, k)
  }

  /** Exactness says outright which keys exist. */
  lemma ExactKeys(db: Db, k: ByteString)
    requires Exact(db)
    ensures k in db <==> k == INFO_KEY || exists s :: Stored(db, s) && k in KeysOf(s)
    ensures k in db <==> k == ['w' as int] || exists s :: Stored(db, s) && NamesSpan(k, s)
  {
    hide NamesSpan, KeysOf;
    forall s: Span ensures k in KeysOf(s) <==> NamesSpan(k, s) {
      KeyLayout(s, k);
    }
    if k in db && k != INFO_KEY {
      assert Owned(db, k);
      var s := FindSpan(db, IdOfKey(k)).value;
      assert Stored(db, s) && k in KeysOf(s);
    }
    if s :| Stored(db, s) && k in KeysOf(s) {
      assert PrimaryKey(s.id) in db;
    }
  }

  lemma PrimaryKeyInKeysOf(s: Span, id: SpanId)
    ensures PrimaryKey(id) in KeysOf(s) <==> id == s.id
  {
    assert PrimaryKey(id)[1..] == id && PrimaryKey(s.id)[1..] == s.id;
    assert PrimaryKey(id)[0] == SPAN_ID_INDEX_PREFIX;
    assert BeginKey(s)[0] == BEGIN_TIME_INDEX_PREFIX;
    assert EndKey(s)[0] == END_TIME_INDEX_PREFIX;
    assert DurationKey(s)[0] == DURATION_INDEX_PREFIX;
    forall p | p in s.data.parents
      ensures ParentKey(p, s.id) != PrimaryKey(id)
    {
      assert ParentKey(p, s.id)[0] == PARENT_ID_INDEX_PREFIX;
    }
  }

  lemma KeysWellShaped(s: Span, k: ByteString)
    requires |s.id| == SPAN_ID_BYTES && k in KeysOf(s)
    ensures WellShaped(k)
  {
    if k in ParentKeys(s) {
      var p :| p in s.data.parents && k == ParentKey(p, s.id);
      assert k[0] == PARENT_ID_INDEX_PREFIX;
    }
  }

  lemma InfoKeyNotInKeysOf(s: Span)
    requires |s.id| == SPAN_ID_BYTES
    ensures INFO_KEY !in KeysOf(s)
  {
    if INFO_KEY in KeysOf(s) {
      KeysNameOwner(s, INFO_KEY);
    }
  }

  /** A write changes exactly one span of the map. */
  lemma WrittenFinds(db: Db, s: Span, id: SpanId)
    ensures FindSpan(Written(db, s), id) == if id == s.id then Some(s) else FindSpan(db, id)
  {
    PrimaryKeyInKeysOf(s, id);
  }

  /** A delete removes exactly one span of the map. */
  lemma DeletedFinds(db: Db, s: Span, id: SpanId)
    ensures FindSpan(Deleted(db, s), id) == if id == s.id then None else FindSpan(db, id)
  {
    PrimaryKeyInKeysOf(s, id);
  }

  lemma WriteKeepsComplete(db: Db, s: Span)
    requires Complete(db) && ValidId(s.id)
    ensures Complete(Written(db, s))
  {
    var db' := Written(db, s);
    forall k | k in db' ensures WellShaped(k) {
      if k in KeysOf(s) {
        KeysWellShaped(s, k);
      }
    }
    forall id: SpanId | PrimaryKey(id) in db'
      ensures ValidId(id) && db'[PrimaryKey(id)].SpanRecord?
      ensures KeysOf(Span(id, db'[PrimaryKey(id)].data)) <= db'.Keys
    {
      WrittenFinds(db, s, id);
      PrimaryKeyInKeysOf(s, id);
      if id != s.id {
        assert PrimaryKey(id) in db;
      }
    }
  }

  lemma DeleteKeepsComplete(db: Db, s: Span)
    requires Complete(db) && ValidId(s.id)
    ensures Complete(Deleted(db, s))
  {
    var db' := Deleted(db, s);
    InfoKeyNotInKeysOf(s);
    forall id: SpanId | PrimaryKey(id) in db'
      ensures KeysOf(Span(id, db'[PrimaryKey(id)].data)) <= db'.Keys
    {
      PrimaryKeyInKeysOf(s, id);
      KeysDisjoint(Span(id, db[PrimaryKey(id)].data), s);
    }
  }

  /** The span's stored version, if any, has no key that the given version lacks. */
  ghost predicate CoversOldKeys(db: Db, s: Span) {
    FindSpan(db, s.id).Some? ==> KeysOf(FindSpan(db, s.id).value) <= KeysOf(s)
  }

  /** A write leaves no stray key exactly when it covers the keys of the version it replaces. */
  lemma WriteExactIff(db: Db, s: Span)
    requires Exact(db) && ValidId(s.id)
    ensures Exact(Written(db, s)) <==> CoversOldKeys(db, s)
  {
    var db' := Written(db, s);
    WriteKeepsComplete(db, s);
    WrittenFinds(db, s, s.id);
    InfoKeyNotInKeysOf(s);
    if CoversOldKeys(db, s) {
      forall k | k in db' && k != INFO_KEY
        ensures Owned(db', k)
      {
        if k in KeysOf(s) {
          KeysNameOwner(s, k);
        } else {
          WrittenFinds(db, s, IdOfKey(k));
        }
      }
    } else {
      var t := FindSpan(db, s.id).value;
      var k :| k in KeysOf(t) && k !in KeysOf(s);
      assert PrimaryKey(s.id) in db;
      assert k in db && k in db';
      KeysNameOwner(t, k);
      assert !Owned(db', k);
      InfoKeyNotInKeysOf(t);
    }
  }

  /** A delete leaves no stray key exactly when it names every key of the stored version. */
  lemma DeleteExactIff(db: Db, s: Span)
    requires Exact(db) && ValidId(s.id)
    ensures Exact(Deleted(db, s)) <==> CoversOldKeys(db, s)
  {
    var db' := Deleted(db, s);
    DeleteKeepsComplete(db, s);
    DeletedFinds(db, s, s.id);
    if CoversOldKeys(db, s) {
      forall k | k in db' && k != INFO_KEY
        ensures Owned(db', k)
      {
        DeletedFinds(db, s, IdOfKey(k));
        assert Owned(db, k);
      }
    } else {
      var t := FindSpan(db, s.id).value;
      var k :| k in KeysOf(t) && k !in KeysOf(s);
      assert PrimaryKey(s.id) in db;
      assert k in db && k in db';
      KeysNameOwner(t, k);
      assert !Owned(db', k);
      InfoKeyNotInKeysOf(t);
    }
  }

  // ---------------------------------------------------------------- runs

  /** What a shard goroutine does to its database: store a span, or delete a stored one. */
  datatype Event = Write(span: Span) | Remove(span: Span)

  function Step(db: Db, e: Event): Db {
    match e
    case Write(s) => Written(db, s)
    case Remove(s) => Deleted(db, s)
  }

  /** Ids were validated on ingest; only spans read back from the shard are deleted. */
  ghost predicate Allowed(db: Db, e: Event) {
    match e
    case Write(s) => ValidId(s.id)
    case Remove(s) => Stored(db, s)
  }

  ghost predicate AllowedRun(db: Db, run: seq<Event>)
    decreases |run|
  {
    |run| == 0 || (Allowed(db, run[0]) && AllowedRun(Step(db, run[0]), run[1..]))
  }

  function RunFrom(db: Db, run: seq<Event>): Db
    decreases |run|
  {
    if |run| == 0 then db else RunFrom(Step(db, run[0]), run[1..])
  }

  /** No write replaces a stored span by one that lacks some of its keys. */
  ghost predicate NoLossyRewrite(db: Db, run: seq<Event>)
    decreases |run|
  {
    |run| == 0 ||
    ((run[0].Write? ==> CoversOldKeys(db, run[0].span)) && NoLossyRewrite(Step(db, run[0]), run[1..]))
  }

  /** The same event on the abstract map. */
  function MapStep(m: map<SpanId, SpanData>, e: Event): map<SpanId, SpanData> {
    match e
    case Write(s) => m[s.id := s.data]
    case Remove(s) => m - {s.id}
  }

  function MapRun(m: map<SpanId, SpanData>, run: seq<Event>): map<SpanId, SpanData>
    decreases |run|
  {
    if |run| == 0 then m else MapRun(MapStep(m, run[0]), run[1..])
  }

  lemma AllowedKeepsComplete(db: Db, e: Event)
    requires Complete(db) && Allowed(db, e)
    ensures Complete(Step(db, e)) && ValidId(e.span.id)
  {
    match e
    case Write(s) => WriteKeepsComplete(db, s);
    case Remove(s) => DeleteKeepsComplete(db, s);
  }

  lemma StepFinds(db: Db, e: Event, id: SpanId)
    ensures FindSpan(Step(db, e), id) ==
            if id != e.span.id then FindSpan(db, id) else if e.Write? then Some(e.span) else None
  {
    match e
    case Write(s) => WrittenFinds(db, s, id);
    case Remove(s) => DeletedFinds(db, s, id);
  }

  lemma ContentsFromFind(db: Db, m: map<SpanId, SpanData>)
    requires forall id :: FindSpan(db, id) == if id in m then Some(Span(id, m[id])) else None
    ensures Contents(db) == m
  {
    forall id: SpanId
      ensures id in Contents(db) <==> id in m
    {
      if id in m {
        ContentsAreStored(db, Span(id, m[id]));
      }
    }
  }

  lemma StepRefinesMap(db: Db, e: Event)
    ensures Contents(Step(db, e)) == MapStep(Contents(db), e)
  {
    var m, db' := Contents(db), Step(db, e);
    var m' := MapStep(m, e);
    forall id: SpanId
      ensures FindSpan(db', id) == if id in m' then Some(Span(id, m'[id])) else None
    {
      StepFinds(db, e, id);
      ContentsAreStored(db, Span(id, e.span.data));
    }
    ContentsFromFind(db', m');
  }

  /** Every run keeps every index key of every stored span, rewrites included. */
  lemma {:induction false} RunKeepsComplete(db: Db, run: seq<Event>)
    requires Complete(db) && AllowedRun(db, run)
    ensures Complete(RunFrom(db, run))
    decreases |run|
  {
    if |run| > 0 {
      AllowedKeepsComplete(db, run[0]);
      RunKeepsComplete(Step(db, run[0]), run[1..]);
    }
  }

  /**
   * Every run is the same run on a map from id to span; and without lossy rewrites the key
   * set at its end is exactly what that map calls for.
   */
  lemma {:induction false} RunRefinesMap(db: Db, run: seq<Event>)
    requires Complete(db) && AllowedRun(db, run)
    ensures Contents(RunFrom(db, run)) == MapRun(Contents(db), run)
    ensures Exact(db) && NoLossyRewrite(db, run) ==> Exact(RunFrom(db, run))
    decreases |run|
  {
    if |run| > 0 {
      var e := run[0];
      AllowedKeepsComplete(db, e);
      StepRefinesMap(db, e);
      if Exact(db) && NoLossyRewrite(db, run) {
        match e
        case Write(s) => WriteExactIff(db, s);
        case Remove(s) => DeleteExactIff(db, s);
      }
      RunRefinesMap(Step(db, e), run[1..]);
    }
  }

  /** No run touches the shard's own description. */
  lemma {:induction false} RunKeepsInfo(db: Db, run: seq<Event>)
    requires Complete(db) && AllowedRun(db, run)
    ensures INFO_KEY in RunFrom(db, run) && RunFrom(db, run)[INFO_KEY] == db[INFO_KEY]
    decreases |run|
  {
    if |run| > 0 {
      AllowedKeepsComplete(db, run[0]);
      InfoKeyNotInKeysOf(run[0].span);
      RunKeepsInfo(Step(db, run[0]), run[1..]);
    }
  }

  /** Two shards that are exact and hold the same spans have the same keys, however they got there. */
  lemma ExactDetermined(a: Db, b: Db)
    requires Exact(a) && Exact(b) && Contents(a) == Contents(b)
    ensures a.Keys == b.Keys
  {
    forall k: ByteString
      ensures k in a <==> k in b
    {
      ExactKeys(a, k);
      ExactKeys(b, k);
      forall s | Stored(a, s) || Stored(b, s)
        ensures Stored(a, s) && Stored(b, s)
      {
        ContentsAreStored(a, s);
        ContentsAreStored(b, s);
      }
    }
  }
}
