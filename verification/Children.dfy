/** Finding a span's children through the parent index, shard after shard (datastore.go). */
module Children {
  import opened Bytes
  import opened Counting
  import opened Spans
  import opened Keys
  import opened LevelDb
  import opened Index
  import opened Scans
  import opened Sources
  import opened Queries
  import opened Answers

  predicate HasPrefix(k: ByteString, prefix: ByteString) {
    |prefix| <= |k| && k[..|prefix|] == prefix
  }

  function ChildSearchKey(sid: SpanId): (k: ByteString) {
    [PARENT_ID_INDEX_PREFIX] + sid
  }

  /** The ids read off the run of keys with the search key as prefix, from an iterator position on. */
  function ChildrenFrom(keys: seq<ByteString>, pos: nat, prefix: ByteString): (ids: seq<SpanId>)
    decreases |keys| - pos
  {
    if pos >= |keys| || !HasPrefix(keys[pos], prefix) then []
    else [keys[pos][|prefix|..]] + ChildrenFrom(keys, pos + 1, prefix)
  }

  /** Every id one shard lists under a parent. */
  function ChildList(db: Db, sid: SpanId): (ids: seq<SpanId>) {
    var it := SeekTo(db, ChildSearchKey(sid));
    ChildrenFrom(it.keys, it.pos, ChildSearchKey(sid))
  }

  /** A negative limit is never reached by counting down. */
  function TakeIds(ids: seq<SpanId>, lim: int): (r: seq<SpanId>) {
    if 0 <= lim < |ids| then ids[..lim] else ids
  }

  /** `shard.FindChildren`. */
  method FindInShard(db: Db, sid: SpanId, childIds: seq<SpanId>, lim: int)
    returns (childIds': seq<SpanId>, lim': int)
    requires |sid| == SPAN_ID_BYTES
    ensures childIds' == childIds + TakeIds(ChildList(db, sid), lim)
    ensures lim' == lim - |TakeIds(ChildList(db, sid), lim)|
  {
    var searchKey := ChildSearchKey(sid);
    var iter := SeekTo(db, searchKey);
    ghost var all := ChildList(db, sid);
    assert all == [] + ChildrenFrom(iter.keys, iter.pos, searchKey);
    hide SeekTo, ChildList, TakeIds, ChildrenFrom;
    childIds', lim' := childIds, lim;
    ghost var found: seq<SpanId> := [];
    while iter.Valid() && lim' != 0 && HasPrefix(iter.Key(), searchKey)
      invariant 0 <= iter.pos
      invariant childIds' == childIds + found && lim' == lim - |found| && (lim >= 0 <==> lim' >= 0)
      invariant all == found + ChildrenFrom(iter.keys, iter.pos, searchKey)
      decreases |iter.keys| - iter.pos
    {
      var id := iter.Key()[17..];
      NextChild(iter.keys, iter.pos, searchKey, found);
      childIds' := childIds' + [id];
      found := found + [id];
      lim' := lim' - 1;
      iter := iter.Next();
    }
    NoMoreChildren(iter.keys, iter.pos, searchKey);
    TakeFound(found, ChildrenFrom(iter.keys, iter.pos, searchKey), lim);
  }

  lemma NextChild(keys: seq<ByteString>, pos: nat, prefix: ByteString, found: seq<SpanId>)
    requires pos < |keys| && HasPrefix(keys[pos], prefix)
    ensures found + ChildrenFrom(keys, pos, prefix) ==
            (found + [keys[pos][|prefix|..]]) + ChildrenFrom(keys, pos + 1, prefix)
  {
  }

  lemma NoMoreChildren(keys: seq<ByteString>, pos: nat, prefix: ByteString)
    ensures pos >= |keys| || !HasPrefix(keys[pos], prefix) ==> ChildrenFrom(keys, pos, prefix) == []
  {
  }

  lemma TakeFound(found: seq<SpanId>, rest: seq<SpanId>, lim: int)
    requires rest == [] || lim == |found|
    requires lim >= 0 ==> |found| <= lim
    ensures TakeIds(found + rest, lim) == found
  {
  }

  // ---------------------------------------------------------------- what one shard lists

  ghost predicate StoredChild(db: Db, sid: SpanId, id: SpanId) {
    FindSpan(db, id).Some? && sid in FindSpan(db, id).value.data.parents
  }

  /** No parent id of another length makes a key that looks like one of this parent's. */
  ghost predicate NoLookAlike(db: Db, sid: SpanId) {
    forall s, p :: Stored(db, s) && p in s.data.parents && |p| != SPAN_ID_BYTES ==>
      !HasPrefix(ParentKey(p, s.id), ChildSearchKey(sid))
  }

  /** The run of prefixed keys is exactly the keys with that prefix, and its ids ascend. */
  lemma {:induction false} ChildrenFromMeans(keys: seq<ByteString>, pos: nat, prefix: ByteString)
    requires StrictlySorted(keys) && pos <= |keys|
    requires forall i :: pos <= i < |keys| ==> AtMost(prefix, keys[i])
    ensures forall id :: id in ChildrenFrom(keys, pos, prefix) <==> prefix + id in keys[pos..]
    ensures StrictlySorted(ChildrenFrom(keys, pos, prefix))
    decreases |keys| - pos
  {
    if pos < |keys| {
      var k := keys[pos];
      assert keys[pos..] == [k] + keys[pos + 1..];
      if HasPrefix(k, prefix) {
        var id := k[|prefix|..];
        assert k == prefix + id;
        ChildrenFromMeans(keys, pos + 1, prefix);
        forall x ensures prefix + x == k <==> x == id {
          assert (prefix + x)[|prefix|..] == x;
        }
        forall x | x in ChildrenFrom(keys, pos + 1, prefix) ensures Less(id, x) {
          assert prefix + x in keys[pos + 1..];
          var j :| pos < j < |keys| && keys[j] == prefix + x;
          LessConcat(prefix, id, prefix, x);
          LessIrreflexive(prefix);
        }
      } else {
        forall id ensures prefix + id !in keys[pos..] {
          if prefix + id in keys[pos..] {
            var i :| pos <= i < |keys| && keys[i] == prefix + id;
            PrefixRunEnds(prefix, k, id);
            LessAsymmetric(k, prefix + id);
          }
        }
      }
    }
  }

  /** Past a key that is at least the prefix but lacks it, no key has it. */
  lemma PrefixRunEnds(prefix: ByteString, k: ByteString, id: SpanId)
    requires AtMost(prefix, k) && !HasPrefix(k, prefix)
    ensures Less(prefix + id, k)
    decreases |prefix|
  {
    assert |prefix| > 0;
    if prefix[0] == k[0] {
      assert (prefix + id)[1..] == prefix[1..] + id;
      assert prefix == [prefix[0]] + prefix[1..];
      assert |k| >= |prefix| ==> k[..|prefix|] == [k[0]] + k[1..][..|prefix| - 1];
      PrefixRunEnds(prefix[1..], k[1..], id);
    }
  }

  lemma ChildListMeans(db: Db, sid: SpanId)
    ensures forall id :: id in ChildList(db, sid) <==> ChildSearchKey(sid) + id in db
    ensures StrictlySorted(ChildList(db, sid))
  {
    var prefix := ChildSearchKey(sid);
    var it := SeekTo(db, prefix);
    forall i | it.pos <= i < |it.keys| ensures AtMost(prefix, it.keys[i]) {
      SeekPosition(db, prefix, i);
    }
    ChildrenFromMeans(it.keys, it.pos, prefix);
    hide ChildrenFrom;
    forall id: SpanId ensures prefix + id in it.keys[it.pos..] <==> prefix + id in db {
      if prefix + id in db {
        LessConcat(prefix, [], prefix, id);
        assert prefix + [] == prefix;
        KeyFromSeek(db, prefix, prefix + id);
      }
    }
  }

  /** A shard lists exactly its stored children of the id when and only when no look-alike key interferes. */
  lemma ChildListExactIff(db: Db, sid: SpanId)
    requires Exact(db) && |sid| == SPAN_ID_BYTES
    ensures (forall id :: id in ChildList(db, sid) <==> StoredChild(db, sid, id)) <==> NoLookAlike(db, sid)
    ensures StrictlySorted(ChildList(db, sid)) && Distinct(ChildList(db, sid))
  {
    hide Exact, ChildList, StoredChild;
    ChildListMeans(db, sid);
    ListDistinct(db, sid);
    if NoLookAlike(db, sid) {
      forall id: SpanId ensures ChildSearchKey(sid) + id in db <==> StoredChild(db, sid, id) {
        ListedIsStored(db, sid, id);
      }
    } else {
      var s, p :| Stored(db, s) && p in s.data.parents && |p| != SPAN_ID_BYTES &&
                  HasPrefix(ParentKey(p, s.id), ChildSearchKey(sid));
      LookAlikeListed(db, sid, s, p);
    }
  }

  lemma ParentKeyStored(db: Db, s: Span, p: SpanId)
    requires Complete(db) && Stored(db, s) && p in s.data.parents
    ensures ParentKey(p, s.id) in db && ValidId(s.id)
  {
    assert PrimaryKey(s.id) in db;
    assert ParentKey(p, s.id) in ParentKeys(s);
  }

  lemma ListedIsStored(db: Db, sid: SpanId, id: SpanId)
    requires Exact(db) && |sid| == SPAN_ID_BYTES && NoLookAlike(db, sid)
    ensures ChildSearchKey(sid) + id in db <==> StoredChild(db, sid, id)
  {
    var k := ChildSearchKey(sid) + id;
    assert k == ParentKey(sid, id);
    if StoredChild(db, sid, id) {
      ParentKeyStored(db, FindSpan(db, id).value, sid);
    }
    if k in db {
      assert k[0] == PARENT_ID_INDEX_PREFIX && k != INFO_KEY;
      assert Owned(db, k);
      var s := FindSpan(db, IdOfKey(k)).value;
      var p := OwnedParent(db, s, k);
      assert k[..17] == ChildSearchKey(sid);
      assert |p| == SPAN_ID_BYTES;
      assert k[1..17] == sid && ParentKey(p, s.id)[1..17] == p && ParentKey(p, s.id)[17..] == s.id && k[17..] == id;
    }
  }

  lemma OwnedParent(db: Db, s: Span, k: ByteString) returns (p: SpanId)
    requires k in KeysOf(s) && |k| > 0 && k[0] == PARENT_ID_INDEX_PREFIX
    ensures p in s.data.parents && k == ParentKey(p, s.id)
  {
    assert PrimaryKey(s.id)[0] == SPAN_ID_INDEX_PREFIX;
    assert BeginKey(s)[0] == BEGIN_TIME_INDEX_PREFIX && EndKey(s)[0] == END_TIME_INDEX_PREFIX;
    assert DurationKey(s)[0] == DURATION_INDEX_PREFIX;
    p :| p in s.data.parents && k == ParentKey(p, s.id);
  }

  lemma LookAlikeListed(db: Db, sid: SpanId, s: Span, p: SpanId)
    requires Exact(db) && |sid| == SPAN_ID_BYTES && Stored(db, s) && p in s.data.parents && |p| != SPAN_ID_BYTES
    requires HasPrefix(ParentKey(p, s.id), ChildSearchKey(sid))
    ensures var id := ParentKey(p, s.id)[17..];
            ChildSearchKey(sid) + id in db && |id| != SPAN_ID_BYTES && !StoredChild(db, sid, id)
  {
    var k := ParentKey(p, s.id);
    ParentKeyStored(db, s, p);
    assert k == ChildSearchKey(sid) + k[17..];
    assert |k[17..]| != SPAN_ID_BYTES;
    assert PrimaryKey(k[17..]) !in db;
  }

  // ---------------------------------------------------------------- the ring of shards

  /** Division with remainder. */
  ghost predicate Quotient(n: nat, size: nat, q: int, r: int) {
    n == q * size + r
  }

  /** `getShardIndex`: the shard an id belongs to. */
  function ShardIndex(hash: SpanId -> nat, size: nat, id: SpanId): (i: nat)
    requires size > 0
    ensures i < size && exists q :: Quotient(hash(id), size, q, i)
  {
    assert Quotient(hash(id), size, hash(id) / size, hash(id) % size);
    hash(id) % size
  }

  /** The lists of the first `n` shards of the ring, one after the other. */
  function RingConcat(lists: seq<seq<SpanId>>, start: nat, n: nat): (ids: seq<SpanId>)
    requires start < |lists| && n <= |lists|
  {
    if n == 0 then [] else RingConcat(lists, start, n - 1) + lists[RingIndex(start, n - 1, |lists|)]
  }

  ghost function ChildLists(dbs: seq<Db>, sid: SpanId): (lists: seq<seq<SpanId>>)
    ensures |lists| == |dbs| && forall i :: 0 <= i < |dbs| ==> lists[i] == ChildList(dbs[i], sid)
  {
    seq(|dbs|, i requires 0 <= i < |dbs| => ChildList(dbs[i], sid))
  }

  lemma TakeConcat(a: seq<SpanId>, b: seq<SpanId>, lim: int)
    ensures TakeIds(a + b, lim) == TakeIds(a, lim) + TakeIds(b, lim - |TakeIds(a, lim)|)
    ensures |TakeIds(a, lim)| == lim ==> TakeIds(a + b, lim) == TakeIds(a, lim)
  {
  }

  lemma {:induction false} RingStops(lists: seq<seq<SpanId>>, start: nat, n: nat, lim: int)
    requires start < |lists| && n <= |lists| && |TakeIds(RingConcat(lists, start, n), lim)| == lim
    ensures TakeIds(RingConcat(lists, start, |lists|), lim) == TakeIds(RingConcat(lists, start, n), lim)
    decreases |lists| - n
  {
    hide TakeIds;
    if n < |lists| {
      TakeConcat(RingConcat(lists, start, n), lists[RingIndex(start, n, |lists|)], lim);
      RingStops(lists, start, n + 1, lim);
    }
  }

  /** `dataStore.FindChildren`: walk the shards round the ring, from the parent's own, until the limit or a full lap. */
  method FindChildren(store: DataStore, hash: SpanId -> nat, sid: SpanId, lim: int) returns (childIds: seq<SpanId>)
    requires |sid| == SPAN_ID_BYTES && |store.shards| > 0
    ensures childIds ==
            TakeIds(RingConcat(ChildLists(Dbs(store.shards), sid), ShardIndex(hash, |store.shards|, sid),
                               |store.shards|), lim)
  {
    hide ShardIndex;
    var startIdx := ShardIndex(hash, |store.shards|, sid);
    childIds := WalkRing(Dbs(store.shards), sid, startIdx, lim);
  }

  method WalkRing(dbs: seq<Db>, sid: SpanId, startIdx: nat, lim: int) returns (childIds: seq<SpanId>)
    requires |sid| == SPAN_ID_BYTES && startIdx < |dbs|
    ensures childIds == TakeIds(RingConcat(ChildLists(dbs, sid), startIdx, |dbs|), lim)
  {
    var size := |dbs|;
    ghost var n, lists := 0, ChildLists(dbs, sid);
    hide ChildList, TakeIds, ChildLists, RingConcat;
    RingBegins(lists, startIdx, lim);
    childIds := [];
    var idx, rem := startIdx, lim;
    while rem != 0
      invariant 0 <= n < size && idx == RingIndex(startIdx, n, size)
      invariant childIds == TakeIds(RingConcat(lists, startIdx, n), lim) && rem == lim - |childIds|
      decreases size - n
    {
      RingStep(lists, startIdx, n, lim);
      childIds, rem := FindInShard(dbs[idx], sid, childIds, rem);
      n := n + 1;
      idx := idx + 1;
      if idx >= size {
        idx := 0;
      }
      if idx == startIdx {
        return;
      }
    }
    RingStops(lists, startIdx, n, lim);
  }

  lemma RingBegins(lists: seq<seq<SpanId>>, start: nat, lim: int)
    requires start < |lists|
    ensures TakeIds(RingConcat(lists, start, 0), lim) == []
  {
  }

  lemma RingStep(lists: seq<seq<SpanId>>, start: nat, n: nat, lim: int)
    requires start < |lists| && n < |lists|
    ensures var so := TakeIds(RingConcat(lists, start, n), lim);
            TakeIds(RingConcat(lists, start, n + 1), lim) ==
            so + TakeIds(lists[RingIndex(start, n, |lists|)], lim - |so|)
  {
    TakeConcat(RingConcat(lists, start, n), lists[RingIndex(start, n, |lists|)], lim);
  }

  // ---------------------------------------------------------------- what the walk finds

  /** Each list is free of repetition, and no id is in two of them. */
  ghost predicate Separate(lists: seq<seq<SpanId>>) {
    (forall i :: 0 <= i < |lists| ==> Distinct(lists[i])) &&
    forall i, j, id :: 0 <= i < |lists| && 0 <= j < |lists| && id in lists[i] && id in lists[j] ==> i == j
  }

  ghost predicate OnRing(lists: seq<seq<SpanId>>, start: nat, n: nat, id: SpanId)
    requires start < |lists| && n <= |lists|
  {
    exists m :: 0 <= m < n && id in lists[RingIndex(start, m, |lists|)]
  }

  lemma {:induction false} RingMembers(lists: seq<seq<SpanId>>, start: nat, n: nat, id: SpanId)
    requires start < |lists| && n <= |lists|
    ensures id in RingConcat(lists, start, n) <==> OnRing(lists, start, n, id)
    decreases n
  {
    if n > 0 {
      var i := RingIndex(start, n - 1, |lists|);
      RingMembers(lists, start, n - 1, id);
      if OnRing(lists, start, n, id) {
        var m :| 0 <= m < n && id in lists[RingIndex(start, m, |lists|)];
      }
      assert id in lists[i] ==> OnRing(lists, start, n, id);
    }
  }

  lemma {:induction false} RingConcatMeans(lists: seq<seq<SpanId>>, start: nat, n: nat)
    requires Separate(lists) && start < |lists| && n <= |lists|
    ensures forall id :: id in RingConcat(lists, start, n) <==> OnRing(lists, start, n, id)
    ensures Distinct(RingConcat(lists, start, n))
    decreases n
  {
    forall id ensures id in RingConcat(lists, start, n) <==> OnRing(lists, start, n, id) {
      RingMembers(lists, start, n, id);
    }
    if n > 0 {
      var i := RingIndex(start, n - 1, |lists|);
      RingConcatMeans(lists, start, n - 1);
      forall id | OnRing(lists, start, n - 1, id) ensures id !in lists[i] {
        var m :| 0 <= m < n - 1 && id in lists[RingIndex(start, m, |lists|)];
      }
      DistinctConcat(RingConcat(lists, start, n - 1), lists[i]);
    }
  }

  lemma DistinctConcat(a: seq<SpanId>, b: seq<SpanId>)
    requires Distinct(a) && Distinct(b) && forall id :: id in a ==> id !in b
    ensures Distinct(a + b)
  {
    var ab := a + b;
    forall i, j | 0 <= i < j < |ab| ensures ab[i] != ab[j] {
      if i < |a| && j >= |a| {
        assert a[i] in a && b[j - |a|] in b;
      }
    }
  }

  /** One full lap passes every shard. */
  lemma FullLap(lists: seq<seq<SpanId>>, start: nat, i: nat, id: SpanId)
    requires start < |lists| && i < |lists| && id in lists[i]
    ensures OnRing(lists, start, |lists|, id)
  {
    var m := if i >= start then i - start else i - start + |lists|;
    assert RingIndex(start, m, |lists|) == i;
  }

  lemma ChildInOneShard(dbs: seq<Db>, route: SpanId -> int, sid: SpanId, id: SpanId, i: nat, j: nat)
    requires GoodStore(dbs, route) && i < |dbs| && j < |dbs|
    requires StoredChild(dbs[i], sid, id) && StoredChild(dbs[j], sid, id)
    ensures i == j
  {
    assert Stored(dbs[i], FindSpan(dbs[i], id).value) && Stored(dbs[j], FindSpan(dbs[j], id).value);
    assert route(id) == i && route(id) == j;
  }

  lemma ListDistinct(db: Db, sid: SpanId)
    ensures Distinct(ChildList(db, sid))
  {
    hide ChildList;
    ChildListMeans(db, sid);
    var ids := ChildList(db, sid);
    forall i, j | 0 <= i < j < |ids| ensures ids[i] != ids[j] {
      LessIrreflexive(ids[i]);
    }
  }

  lemma ChildListsMean(dbs: seq<Db>, route: SpanId -> int, sid: SpanId)
    requires GoodStore(dbs, route) && |sid| == SPAN_ID_BYTES
    requires forall i :: 0 <= i < |dbs| ==> NoLookAlike(dbs[i], sid)
    ensures Separate(ChildLists(dbs, sid))
    ensures forall i, id :: 0 <= i < |dbs| ==> (id in ChildLists(dbs, sid)[i] <==> StoredChild(dbs[i], sid, id))
  {
    var lists := ChildLists(dbs, sid);
    forall i | 0 <= i < |dbs|
      ensures Distinct(lists[i]) && forall id :: id in lists[i] <==> StoredChild(dbs[i], sid, id)
    {
      ListDistinct(dbs[i], sid);
      ChildListExactIff(dbs[i], sid);
    }
    forall i, j, id | 0 <= i < |lists| && 0 <= j < |lists| && id in lists[i] && id in lists[j] ensures i == j {
      ChildInOneShard(dbs, route, sid, id, i, j);
    }
  }

  /** Some stored span with this id lists the parent. */
  ghost predicate IsChild(dbs: seq<Db>, sid: SpanId, id: SpanId) {
    exists i :: 0 <= i < |dbs| && StoredChild(dbs[i], sid, id)
  }

  /** The children of an id. */
  ghost function ChildrenOf(dbs: seq<Db>, sid: SpanId): set<SpanId> {
    set i, id | 0 <= i < |dbs| && id in Contents(dbs[i]).Keys && StoredChild(dbs[i], sid, id) :: id
  }

  lemma ChildrenOfMembers(dbs: seq<Db>, sid: SpanId, id: SpanId)
    ensures id in ChildrenOf(dbs, sid) <==> IsChild(dbs, sid, id)
  {
    if IsChild(dbs, sid, id) {
      var i :| 0 <= i < |dbs| && StoredChild(dbs[i], sid, id);
      ContentsAreStored(dbs[i], FindSpan(dbs[i], id).value);
    }
  }

  lemma {:induction false} DistinctSize(ids: seq<SpanId>, s: set<SpanId>)
    requires Distinct(ids) && forall id :: id in ids <==> id in s
    ensures |ids| == |s|
    decreases |ids|
  {
    if |ids| > 0 {
      var n := |ids| - 1;
      assert ids == ids[..n] + [ids[n]];
      DistinctSize(ids[..n], s - {ids[n]});
    } else {
      assert s == {};
    }
  }

  /**
   * Wherever the walk starts, it finds distinct children only, and as many as there are or as
   * the limit allows; a negative limit is none.
   */
  lemma ChildrenFound(dbs: seq<Db>, route: SpanId -> int, sid: SpanId, start: nat, lim: int)
    requires GoodStore(dbs, route) && |sid| == SPAN_ID_BYTES && start < |dbs|
    requires forall i :: 0 <= i < |dbs| ==> NoLookAlike(dbs[i], sid)
    ensures var r, n := TakeIds(RingConcat(ChildLists(dbs, sid), start, |dbs|), lim), |ChildrenOf(dbs, sid)|;
            Distinct(r) && (forall id :: id in r ==> id in ChildrenOf(dbs, sid)) &&
            |r| == if 0 <= lim < n then lim else n
  {
    RingOfChildren(dbs, route, sid, start);
    hide *;
    TakeSome(RingConcat(ChildLists(dbs, sid), start, |dbs|), ChildrenOf(dbs, sid), lim);
  }

  /**
   * Without a limit the walk finds exactly the children when and only when no shard holds a key
   * that looks like one of theirs.
   */
  lemma ChildrenExactIff(dbs: seq<Db>, route: SpanId -> int, sid: SpanId, start: nat)
    requires GoodStore(dbs, route) && |sid| == SPAN_ID_BYTES && start < |dbs|
    ensures (forall id :: id in RingConcat(ChildLists(dbs, sid), start, |dbs|) <==> id in ChildrenOf(dbs, sid)) <==>
            forall i :: 0 <= i < |dbs| ==> NoLookAlike(dbs[i], sid)
  {
    hide RingConcat, ChildrenOf, StoredChild;
    if forall i :: 0 <= i < |dbs| ==> NoLookAlike(dbs[i], sid) {
      RingOfChildren(dbs, route, sid, start);
    } else {
      var i :| 0 <= i < |dbs| && !NoLookAlike(dbs[i], sid);
      var id := LookAlikeOnRing(dbs, sid, start, i);
      ChildrenOfMembers(dbs, sid, id);
      NoShortChild(dbs, route, sid, id);
    }
  }

  lemma LookAlikeOnRing(dbs: seq<Db>, sid: SpanId, start: nat, i: nat) returns (id: SpanId)
    requires i < |dbs| && start < |dbs| && Exact(dbs[i]) && |sid| == SPAN_ID_BYTES && !NoLookAlike(dbs[i], sid)
    ensures |id| != SPAN_ID_BYTES && id in RingConcat(ChildLists(dbs, sid), start, |dbs|)
  {
    hide Exact, RingConcat, ChildList, StoredChild;
    var s, p :| Stored(dbs[i], s) && p in s.data.parents && |p| != SPAN_ID_BYTES &&
                HasPrefix(ParentKey(p, s.id), ChildSearchKey(sid));
    id := ParentKey(p, s.id)[17..];
    LookAlikeListed(dbs[i], sid, s, p);
    ChildListMeans(dbs[i], sid);
    FullLap(ChildLists(dbs, sid), start, i, id);
    RingMembers(ChildLists(dbs, sid), start, |dbs|, id);
  }

  lemma NoShortChild(dbs: seq<Db>, route: SpanId -> int, sid: SpanId, id: SpanId)
    requires GoodStore(dbs, route) && |id| != SPAN_ID_BYTES
    ensures !IsChild(dbs, sid, id)
  {
    forall i | 0 <= i < |dbs| ensures !StoredChild(dbs[i], sid, id) {
      assert Complete(dbs[i]);
      assert PrimaryKey(id) !in dbs[i];
    }
  }

  lemma TakeSome(ids: seq<SpanId>, kids: set<SpanId>, lim: int)
    requires Distinct(ids) && forall id :: id in ids <==> id in kids
    ensures var r := TakeIds(ids, lim);
            Distinct(r) && (forall id :: id in r ==> id in kids) && |r| == if 0 <= lim < |kids| then lim else |kids|
  {
    DistinctSize(ids, kids);
  }

  lemma RingOfChildren(dbs: seq<Db>, route: SpanId -> int, sid: SpanId, start: nat)
    requires GoodStore(dbs, route) && |sid| == SPAN_ID_BYTES && start < |dbs|
    requires forall i :: 0 <= i < |dbs| ==> NoLookAlike(dbs[i], sid)
    ensures var r := RingConcat(ChildLists(dbs, sid), start, |dbs|);
            Distinct(r) && forall id :: id in r <==> id in ChildrenOf(dbs, sid)
  {
    var lists := ChildLists(dbs, sid);
    ChildListsMean(dbs, route, sid);
    hide GoodStore, NoLookAlike, StoredChild, ChildLists, RingConcat, Separate, ChildrenOf;
    RingConcatMeans(lists, start, |dbs|);
    forall id ensures OnRing(lists, start, |dbs|, id) <==> id in ChildrenOf(dbs, sid) {
      ChildrenOfMembers(dbs, sid, id);
      if IsChild(dbs, sid, id) {
        var i :| 0 <= i < |dbs| && StoredChild(dbs[i], sid, id);
        FullLap(lists, start, i, id);
      }
    }
  }
}
