/** A shard: one leveldb instance, written and pruned by one goroutine (datastore.go). */
module Shards {
  import opened Bytes
  import opened Spans
  import opened Keys
  import opened LevelDb
  import opened Index

  function ParentKeyList(s: Span, n: nat): (ks: seq<ByteString>)
    requires n <= |s.data.parents|
  {
    seq(n, i requires 0 <= i < n => ParentKey(s.data.parents[i], s.id))
  }

  /** The keys in the order in which a batch names them. */
  function KeyList(s: Span): (ks: seq<ByteString>) {
    [PrimaryKey(s.id)] + ParentKeyList(s, |s.data.parents|) + [BeginKey(s), EndKey(s), DurationKey(s)]
  }

  function PutOps(s: Span, ks: seq<ByteString>): (ops: seq<BatchOp>) {
    seq(|ks|, i requires 0 <= i < |ks| => Put(ks[i], RecordFor(s, ks[i])))
  }

  function DeleteOps(ks: seq<ByteString>): (ops: seq<BatchOp>) {
    seq(|ks|, i requires 0 <= i < |ks| => Delete(ks[i]))
  }

  lemma KeyListIsKeysOf(s: Span)
    ensures (set k | k in KeyList(s)) == KeysOf(s)
  {
    var list := ParentKeyList(s, |s.data.parents|);
    forall k ensures k in list <==> k in ParentKeys(s) {
      if k in ParentKeys(s) {
        var p :| p in s.data.parents && k == ParentKey(p, s.id);
        var i :| 0 <= i < |s.data.parents| && s.data.parents[i] == p;
        assert list[i] == k;
      }
    }
  }

  lemma {:induction false} ApplyPuts(db: Db, s: Span, ks: seq<ByteString>)
    ensures ApplyBatch(db, PutOps(s, ks)) == db + map k | k in ks :: RecordFor(s, k)
    decreases |ks|
  {
    if |ks| > 0 {
      var n := |ks| - 1;
      ApplyPuts(db, s, ks[..n]);
      assert PutOps(s, ks)[..n] == PutOps(s, ks[..n]);
      assert forall k :: k in ks <==> k in ks[..n] || k == ks[n];
    }
  }

  lemma {:induction false} ApplyDeletes(db: Db, ks: seq<ByteString>)
    ensures ApplyBatch(db, DeleteOps(ks)) == db - set k | k in ks
    decreases |ks|
  {
    if |ks| > 0 {
      var n := |ks| - 1;
      ApplyDeletes(db, ks[..n]);
      assert DeleteOps(ks)[..n] == DeleteOps(ks[..n]);
      assert forall k :: k in ks <==> k in ks[..n] || k == ks[n];
    }
  }

  lemma WriteBatchMeans(db: Db, s: Span)
    ensures ApplyBatch(db, PutOps(s, KeyList(s))) == Written(db, s)
  {
    KeyListIsKeysOf(s);
    ApplyPuts(db, s, KeyList(s));
    forall k ensures k in KeyList(s) <==> k in KeysOf(s) {
      assert k in (set x | x in KeyList(s)) <==> k in KeyList(s);
    }
  }

  lemma IndexRecordsAreEmpty(s: Span, parent: SpanId)
    ensures RecordFor(s, ParentKey(parent, s.id)) == EmptyValue
    ensures RecordFor(s, BeginKey(s)) == RecordFor(s, EndKey(s)) == RecordFor(s, DurationKey(s)) == EmptyValue
  {
    assert PrimaryKey(s.id)[0] == SPAN_ID_INDEX_PREFIX && ParentKey(parent, s.id)[0] == PARENT_ID_INDEX_PREFIX;
    assert BeginKey(s)[0] == BEGIN_TIME_INDEX_PREFIX && EndKey(s)[0] == END_TIME_INDEX_PREFIX;
    assert DurationKey(s)[0] == DURATION_INDEX_PREFIX;
  }

  class Shard {
    var ldb: Db

    constructor (db: Db)
      ensures ldb == db
    {
      ldb := db;
    }

    /** `ldb.Write`: the whole batch or, when leveldb reports an error, nothing. */
    method WriteBatch(batch: seq<BatchOp>, dbOk: bool) returns (ok: bool)
      modifies this
      ensures ok == dbOk
      ensures ok ==> ldb == ApplyBatch(old(ldb), batch)
      ensures !ok ==> ldb == old(ldb)
    {
      ok := dbOk;
      if ok {
        ldb := ApplyBatch(ldb, batch);
      }
    }

    method WriteSpan(span: Span, dbOk: bool) returns (ok: bool)
      modifies this
      ensures ok == dbOk
      ensures ok ==> ldb == Written(old(ldb), span)
      ensures !ok ==> ldb == old(ldb)
    {
      var batch := PutBatch(span);
      WriteBatchMeans(ldb, span);
      ok := WriteBatch(batch, dbOk);
    }

    /** The primary record, the parent index, then the other secondary indices. */
    method PutBatch(span: Span) returns (batch: seq<BatchOp>)
      ensures batch == PutOps(span, KeyList(span))
    {
      batch := [Put(PrimaryKey(span.id), SpanRecord(span.data))];
      ghost var ks := [PrimaryKey(span.id)];
      for i := 0 to |span.data.parents|
        invariant ks == [PrimaryKey(span.id)] + ParentKeyList(span, i)
        invariant batch == PutOps(span, ks)
      {
        IndexRecordsAreEmpty(span, span.data.parents[i]);
        batch, ks := AddPut(span, ParentKey(span.data.parents[i], span.id), batch, ks);
      }
      IndexRecordsAreEmpty(span, []);
      batch, ks := AddPut(span, BeginKey(span), batch, ks);
      batch, ks := AddPut(span, EndKey(span), batch, ks);
      batch, ks := AddPut(span, DurationKey(span), batch, ks);
      assert ks == KeyList(span);
    }

    /** `batch.Put` of an index entry. */
    method AddPut(span: Span, k: ByteString, batch: seq<BatchOp>, ghost ks: seq<ByteString>)
      returns (batch': seq<BatchOp>, ghost ks': seq<ByteString>)
      requires batch == PutOps(span, ks) && RecordFor(span, k) == EmptyValue
      ensures batch' == batch + [Put(k, EmptyValue)]
      ensures ks' == ks + [k] && batch' == PutOps(span, ks')
    {
      batch' := batch + [Put(k, EmptyValue)];
      ks' := ks + [k];
    }

    /** Removes the record and the index keys that this version of the span has. */
    method DeleteSpan(span: Span, dbOk: bool) returns (ok: bool)
      modifies this
      ensures ok == dbOk
      ensures ok ==> ldb == Deleted(old(ldb), span)
      ensures !ok ==> ldb == old(ldb)
    {
      var batch := DeleteBatch(span);
      KeyListIsKeysOf(span);
      ApplyDeletes(ldb, KeyList(span));
      ok := WriteBatch(batch, dbOk);
    }

    method DeleteBatch(span: Span) returns (batch: seq<BatchOp>)
      ensures batch == DeleteOps(KeyList(span))
    {
      batch := [Delete(PrimaryKey(span.id))];
      for i := 0 to |span.data.parents|
        invariant batch == DeleteOps([PrimaryKey(span.id)] + ParentKeyList(span, i))
      {
        batch := batch + [Delete(ParentKey(span.data.parents[i], span.id))];
      }
      batch := batch + [Delete(BeginKey(span))];
      batch := batch + [Delete(EndKey(span))];
      batch := batch + [Delete(DurationKey(span))];
    }
  }
}
