/**
 * leveldb as the data store uses it: an ordered map from byte strings to values, atomic
 * write batches, and iterators that walk a snapshot of the keys in byte order.
 *
 * A value is kept in decoded form, so the Go msgpack library does not appear: a span record,
 * the empty value of an index entry, or the shard's own description.
 */
module LevelDb {
  import opened Bytes
  import opened Spans

  datatype ShardInfo = ShardInfo(layoutVersion: UInt64, daemonId: UInt64, totalShards: nat, shardIndex: nat)

  datatype Value = SpanRecord(data: SpanData) | EmptyValue | InfoRecord(info: ShardInfo)

  type Db = map<ByteString, Value>

  // ---------------------------------------------------------------- write batches

  datatype BatchOp = Put(key: ByteString, value: Value) | Delete(key: ByteString)

  function ApplyOp(db: Db, op: BatchOp): Db {
    match op
    case Put(k, v) => db[k := v]
    case Delete(k) => db - {k}
  }

  /** The operations of a batch take effect in order, as one atomic step. */
  function ApplyBatch(db: Db, batch: seq<BatchOp>): Db
    decreases |batch|
  {
    if |batch| == 0 then db else ApplyOp(ApplyBatch(db, batch[..|batch| - 1]), batch[|batch| - 1])
  }

  // ---------------------------------------------------------------- ordered enumeration

  ghost predicate StrictlySorted(keys: seq<ByteString>) {
    forall i, j :: 0 <= i < j < |keys| ==> Less(keys[i], keys[j])
  }

  ghost predicate Enumerates(keys: seq<ByteString>, s: set<ByteString>) {
    StrictlySorted(keys) && forall k :: k in keys <==> k in s
  }

  predicate IsMax(m: ByteString, s: set<ByteString>) {
    m in s && forall x :: x in s ==> AtMost(x, m)
  }

  lemma {:induction false} MaxExists(s: set<ByteString>)
    requires s != {}
    ensures exists m :: IsMax(m, s)
    decreases |s|
  {
    var x :| x in s;
    var t := s - {x};
    if t == {} {
      assert s == {x};
      assert IsMax(x, s);
    } else {
      MaxExists(t);
      var m :| IsMax(m, t);
      LessTotal(x, m);
      if Less(x, m) {
        assert IsMax(m, s);
      } else {
        forall y | y in s ensures AtMost(y, x) {
          if y != x && y != m {
            assert y in t && Less(m, x);
            LessTransitive(y, m, x);
          }
        }
        assert IsMax(x, s);
      }
    }
  }

  lemma MaxUnique(s: set<ByteString>, m: ByteString, n: ByteString)
    requires IsMax(m, s) && IsMax(n, s)
    ensures m == n
  {
    if m != n {
      LessAsymmetric(m, n);
    }
  }

  lemma AppendMax(keys: seq<ByteString>, m: ByteString, s: set<ByteString>)
    requires IsMax(m, s) && Enumerates(keys, s - {m})
    ensures Enumerates(keys + [m], s)
  {
    var all := keys + [m];
    forall i, j | 0 <= i < j < |all|
      ensures Less(all[i], all[j])
    {
      if j == |keys| {
        assert all[i] == keys[i] && keys[i] in keys && keys[i] in s - {m};
      }
    }
  }

  /** The keys of a finite set in ascending byte order. */
  function SortedKeys(s: set<ByteString>): (keys: seq<ByteString>)
    ensures Enumerates(keys, s)
    decreases |s|
  {
    if s == {} then []
    else
      MaxExists(s);
      assert forall m, n | IsMax(m, s) && IsMax(n, s) :: m == n by {
        forall m, n | IsMax(m, s) && IsMax(n, s) ensures m == n { MaxUnique(s, m, n); }
      }
      var m :| IsMax(m, s);
      AppendMax(SortedKeys(s - {m}), m, s);
      SortedKeys(s - {m}) + [m]
  }

  // ---------------------------------------------------------------- iterators

  /** A position in the key-ordered snapshot taken when the iterator was made. */
  datatype Iter = Iter(snap: Db, keys: seq<ByteString>, pos: int) {

    /** The iterator stands on an entry. */
    predicate Valid() {
      0 <= pos < |keys|
    }

    ghost predicate Sound() {
      Enumerates(keys, snap.Keys) && -1 <= pos <= |keys|
    }

    function Key(): ByteString
      requires Valid()
    {
      keys[pos]
    }

    function Next(): Iter
      requires Valid()
    {
      this.(pos := pos + 1)
    }

    function Prev(): Iter
      requires Valid()
    {
      this.(pos := pos - 1)
    }

    /** Moves to the first entry whose key is not below the target. */
    function Seek(target: ByteString): Iter {
      this.(pos := LowerBound(keys, target, 0))
    }
  }

  function NewIterator(db: Db): (it: Iter)
    ensures it.snap == db && it.Sound()
  {
    Iter(db, SortedKeys(db.Keys), -1)
  }

  /** The first index at or after `from` whose key is not below the target. */
  function LowerBound(keys: seq<ByteString>, target: ByteString, from: nat): (p: nat)
    requires from <= |keys|
    ensures from <= p <= |keys|
    ensures forall i :: from <= i < p ==> Less(keys[i], target)
    ensures p < |keys| ==> !Less(keys[p], target)
    decreases |keys| - from
  {
    if from == |keys| || !Less(keys[from], target) then from else LowerBound(keys, target, from + 1)
  }

  /** In a sorted key list, seeking splits the list exactly at the target. */
  lemma SeekSplits(keys: seq<ByteString>, target: ByteString, i: nat)
    requires StrictlySorted(keys) && i < |keys|
    ensures i < LowerBound(keys, target, 0) <==> Less(keys[i], target)
  {
    var p := LowerBound(keys, target, 0);
    if p < i && Less(keys[i], target) {
      LessTransitive(keys[p], keys[i], target);
    }
  }
}
