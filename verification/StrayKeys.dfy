/**
 * One pass of the reaper over a shard that may hold stray keys, entry by entry: which spans it
 * deletes, read off the shard's key set (datastore.go).
 */
module StrayKeys {
  import opened Bytes
  import opened Spans
  import opened Keys
  import opened LevelDb
  import opened Index
  import opened Options
  import opened Predicates
  import opened Scans
  import opened Sources
  import opened Reaping

  /** What a pass deletes from here on, each entry looked up in the database as it then is. */
  ghost function Reap(db: Db, date: Int64, it: Iter): (spans: seq<Span>)
    requires Scannable(it)
    decreases Ahead(ReaperPredicate(), it)
  {
    if !it.Valid() then []
    else
      AtEntry(ReaperPredicate(), it);
      match Examine(db, ReaperPredicate(), it.snap, it.Key())
      case Stop => []
      case Skip => Reap(db, date, Advance(ReaperPredicate(), it))
      case Emit(s) =>
        if s.data.begin >= date then [] else [s] + Reap(Deleted(db, s), date, Advance(ReaperPredicate(), it))
  }

  /** The entry leads to a stored span that began in time, and no earlier entry leads to the same one. */
  ghost predicate GoodEntry(db: Db, date: Int64, keys: seq<ByteString>, from: nat, i: nat)
    requires i < |keys|
  {
    GoodBegin(db, date, keys[i]) && forall j :: from <= j < i ==> !SameId(keys[j], keys[i])
  }

  ghost predicate GoodBegin(db: Db, date: Int64, k: ByteString) {
    |k| > SPAN_ID_BYTES && k[0] == BEGIN_TIME_INDEX_PREFIX && FindSpan(db, IdOfKey(k)).Some? &&
    0 <= FindSpan(db, IdOfKey(k)).value.data.begin < date
  }

  predicate SameId(k: ByteString, k': ByteString) {
    |k| > SPAN_ID_BYTES && |k'| > SPAN_ID_BYTES && IdOfKey(k) == IdOfKey(k')
  }

  ghost predicate NamedAmong(keys: seq<ByteString>, from: nat, to: nat, id: SpanId)
    requires to <= |keys|
  {
    exists j :: from <= j < to && |keys[j]| > SPAN_ID_BYTES && IdOfKey(keys[j]) == id
  }

  /** The live database is the one of the start without the spans that the entries passed so far name. */
  ghost predicate Without(db0: Db, db: Db, keys: seq<ByteString>, from: nat, to: nat)
    requires to <= |keys|
  {
    forall id :: FindSpan(db, id) == if NamedAmong(keys, from, to, id) then None else FindSpan(db0, id)
  }

  lemma StepWithout(db0: Db, db: Db, keys: seq<ByteString>, from: nat, i: nat, s: Span)
    requires from <= i < |keys| && Without(db0, db, keys, from, i) && |keys[i]| > SPAN_ID_BYTES
    requires s.id == IdOfKey(keys[i])
    ensures Without(db0, Deleted(db, s), keys, from, i + 1)
  {
    forall id ensures FindSpan(Deleted(db, s), id) ==
                      if NamedAmong(keys, from, i + 1, id) then None else FindSpan(db0, id)
    {
      DeletedFinds(db, s, id);
      if NamedAmong(keys, from, i, id) {
        var j :| from <= j < i && |keys[j]| > SPAN_ID_BYTES && IdOfKey(keys[j]) == id;
        assert NamedAmong(keys, from, i + 1, id);
      }
      assert id == s.id ==> NamedAmong(keys, from, i + 1, id);
    }
  }

  predicate InOrAfterBegins(k: ByteString) {
    |k| > 0 && k[0] >= BEGIN_TIME_INDEX_PREFIX
  }

  /** A good entry's span is emitted; at any other entry the pass ends. */
  lemma EntryMeans(db0: Db, db: Db, date: Int64, it: Iter, from: nat)
    requires Scannable(it) && it.Valid() && from <= it.pos && Without(db0, db, it.keys, from, it.pos)
    requires it.Key() in it.snap && WellShaped(it.Key()) && InOrAfterBegins(it.Key())
    ensures var k, e := it.Key(), Examine(db, ReaperPredicate(), it.snap, it.Key());
            if GoodEntry(db0, date, it.keys, from, it.pos)
            then e.Emit? && Names(db0, k, e.span) && e.span.data.begin < date
            else e == Stop || (e.Emit? && e.span.data.begin >= date)
  {
    var k := it.Key();
    if k[0] == BEGIN_TIME_INDEX_PREFIX {
      assert k[9..25] == IdOfKey(k);
      var f := FindSpan(db, IdOfKey(k));
      NamedIsSameId(it.keys, from, it.pos);
      if f.Some? {
        Int64KeyOrder(f.value.data.begin, 0);
      }
    }
  }

  /** The key leads to this stored span. */
  predicate Names(db: Db, k: ByteString, s: Span) {
    |k| > SPAN_ID_BYTES && FindSpan(db, IdOfKey(k)) == Some(s)
  }

  lemma NamedIsSameId(keys: seq<ByteString>, from: nat, i: nat)
    requires i < |keys| && |keys[i]| > SPAN_ID_BYTES
    ensures NamedAmong(keys, from, i, IdOfKey(keys[i])) <==> exists j :: from <= j < i && SameId(keys[j], keys[i])
  {
    if NamedAmong(keys, from, i, IdOfKey(keys[i])) {
      var j :| from <= j < i && |keys[j]| > SPAN_ID_BYTES && IdOfKey(keys[j]) == IdOfKey(keys[i]);
      assert SameId(keys[j], keys[i]);
    }
  }

  /** Some entry leads to the span, and it and all entries from `lo` up to it are good. */
  ghost predicate Doomed(db: Db, date: Int64, keys: seq<ByteString>, from: nat, lo: nat, s: Span) {
    exists i :: lo <= i < |keys| && GoodUpTo(db, date, keys, from, lo, i) && Names(db, keys[i], s)
  }

  ghost predicate GoodUpTo(db: Db, date: Int64, keys: seq<ByteString>, from: nat, lo: nat, i: nat)
    requires i < |keys|
  {
    forall j :: lo <= j <= i ==> GoodEntry(db, date, keys, from, j)
  }

  lemma DoomedStep(db: Db, date: Int64, keys: seq<ByteString>, from: nat, lo: nat, s: Span)
    requires lo < |keys|
    ensures Doomed(db, date, keys, from, lo, s) <==>
            GoodEntry(db, date, keys, from, lo) && (Names(db, keys[lo], s) || Doomed(db, date, keys, from, lo + 1, s))
  {
    hide GoodEntry, Names;
    if Doomed(db, date, keys, from, lo, s) {
      var i :| lo <= i < |keys| && GoodUpTo(db, date, keys, from, lo, i) && Names(db, keys[i], s);
      if i > lo {
        assert GoodUpTo(db, date, keys, from, lo + 1, i);
      }
    }
    if GoodEntry(db, date, keys, from, lo) && Doomed(db, date, keys, from, lo + 1, s) {
      var i :| lo < i < |keys| && GoodUpTo(db, date, keys, from, lo + 1, i) && Names(db, keys[i], s);
      assert GoodUpTo(db, date, keys, from, lo, i);
    }
    if GoodEntry(db, date, keys, from, lo) && Names(db, keys[lo], s) {
      assert GoodUpTo(db, date, keys, from, lo, lo);
    }
  }

  /** The pass deletes the spans of the entries before the first that is not good. */
  lemma {:induction false} ReapFrom(db0: Db, db: Db, date: Int64, it: Iter, from: nat, s: Span)
    requires Scannable(it) && from <= it.pos && Without(db0, db, it.keys, from, it.pos)
    requires forall i :: it.pos <= i < |it.keys| ==> InOrAfterBegins(it.keys[i])
    ensures s in Reap(db, date, it) <==> Doomed(db0, date, it.keys, from, it.pos, s)
    decreases |it.keys| - it.pos
  {
    if it.Valid() {
      AtEntry(ReaperPredicate(), it);
      EntryMeans(db0, db, date, it, from);
      DoomedStep(db0, date, it.keys, from, it.pos, s);
      hide Examine, Without, FindSpan, Deleted, Doomed;
      if GoodEntry(db0, date, it.keys, from, it.pos) {
        var t := Examine(db, ReaperPredicate(), it.snap, it.Key()).span;
        NamesId(db0, it.Key(), t);
        StepWithout(db0, db, it.keys, from, it.pos, t);
        ReapFrom(db0, Deleted(db, t), date, it.Next(), from, s);
        assert Names(db0, it.Key(), s) <==> s == t;
      }
    }
  }

  lemma NamesId(db: Db, k: ByteString, s: Span)
    requires Names(db, k, s)
    ensures s.id == IdOfKey(k) && Stored(db, s) && forall t :: Names(db, k, t) ==> t == s
  {
  }

  /** The pass goes by the spans that the scan of the live database yields next. */
  lemma {:induction false} ReapStep(db: Db, date: Int64, it: Iter)
    requires Scannable(it)
    ensures Reap(db, date, it) ==
            match FirstOf(db, ReaperPredicate(), it)
            case None => []
            case Some((s, it')) =>
              if s.data.begin >= date || !Scannable(it') then [] else [s] + Reap(Deleted(db, s), date, it')
    ensures FirstOf(db, ReaperPredicate(), it).Some? ==> Scannable(FirstOf(db, ReaperPredicate(), it).value.1)
    ensures FirstOf(db, ReaperPredicate(), it).None? <==> Scan(db, ReaperPredicate(), it) == []
    decreases |it.keys| - it.pos
  {
    if it.Valid() {
      AtEntry(ReaperPredicate(), it);
      ReapStep(db, date, it.Next());
    }
  }

  // ---------------------------------------------------------------- in terms of the key set

  /** A key of the shard at or after the place where the reaper starts. */
  ghost predicate InReach(db: Db, k: ByteString) {
    k in db && AtMost(ReaperSearchKey(), k)
  }

  /** The key stops the pass: it is no begin key, names no span or one that is too new, or repeats a name. */
  ghost predicate Blocks(db: Db, date: Int64, k: ByteString) {
    !GoodBegin(db, date, k) || exists k' :: InReach(db, k') && Less(k', k) && SameId(k', k)
  }

  /** Some key in reach leads to the span, and neither it nor any key in reach before it stops the pass. */
  ghost predicate WillBeReaped(db: Db, date: Int64, s: Span) {
    exists k :: InReach(db, k) && Names(db, k, s) && Clear(db, date, k)
  }

  ghost predicate Clear(db: Db, date: Int64, k: ByteString) {
    forall k' :: InReach(db, k') && AtMost(k', k) ==> !Blocks(db, date, k')
  }

  lemma EntryBlocks(db: Db, date: Int64, it: Iter, i: nat)
    requires it == SeekTo(db, ReaperSearchKey()) && it.pos <= i < |it.keys|
    ensures GoodEntry(db, date, it.keys, it.pos, i) <==> !Blocks(db, date, it.keys[i])
  {
    hide GoodBegin, SeekTo, SameId;
    if GoodEntry(db, date, it.keys, it.pos, i) {
      forall k | InReach(db, k) && Less(k, it.keys[i]) ensures !SameId(k, it.keys[i]) {
        var j := PlaceOf(db, it, k);
        LessAsymmetric(k, it.keys[i]);
      }
    } else if GoodBegin(db, date, it.keys[i]) {
      var j :| it.pos <= j < i && SameId(it.keys[j], it.keys[i]);
      ReachOf(db, it, j);
      assert Less(it.keys[j], it.keys[i]);
    }
  }

  lemma PlaceOf(db: Db, it: Iter, k: ByteString) returns (j: nat)
    requires it == SeekTo(db, ReaperSearchKey()) && InReach(db, k)
    ensures it.pos <= j < |it.keys| && it.keys[j] == k
  {
    assert k in it.keys;
    j :| 0 <= j < |it.keys| && it.keys[j] == k;
    SeekPosition(db, ReaperSearchKey(), j);
  }

  lemma ReachOf(db: Db, it: Iter, j: nat)
    requires it == SeekTo(db, ReaperSearchKey()) && it.pos <= j < |it.keys|
    ensures InReach(db, it.keys[j])
  {
    assert it.keys[j] in it.keys;
    SeekPosition(db, ReaperSearchKey(), j);
  }

  lemma ClearUpTo(db: Db, date: Int64, it: Iter, i: nat)
    requires it == SeekTo(db, ReaperSearchKey()) && it.pos <= i < |it.keys|
    ensures GoodUpTo(db, date, it.keys, it.pos, it.pos, i) <==> Clear(db, date, it.keys[i])
  {
    hide GoodEntry, Blocks, SeekTo;
    if GoodUpTo(db, date, it.keys, it.pos, it.pos, i) {
      forall k | InReach(db, k) && AtMost(k, it.keys[i]) ensures !Blocks(db, date, k) {
        var j := PlaceOf(db, it, k);
        if j > i {
          LessAsymmetric(it.keys[i], it.keys[j]);
        }
        EntryBlocks(db, date, it, j);
      }
    }
    if Clear(db, date, it.keys[i]) {
      forall j | it.pos <= j <= i ensures GoodEntry(db, date, it.keys, it.pos, j) {
        ReachOf(db, it, j);
        EntryBlocks(db, date, it, j);
      }
    }
  }

  /** Which spans a whole pass without database errors deletes, whatever stray keys the shard holds. */
  lemma ReapMeans(db: Db, date: Int64, s: Span)
    requires forall k :: k in db ==> WellShaped(k)
    ensures s in Reap(db, date, SeekTo(db, ReaperSearchKey())) <==> WillBeReaped(db, date, s)
  {
    var it := SeekTo(db, ReaperSearchKey());
    forall i | it.pos <= i < |it.keys| ensures InOrAfterBegins(it.keys[i]) {
      ReachOf(db, it, i);
    }
    ReapFrom(db, db, date, it, it.pos, s);
    hide GoodUpTo, Clear, Names, SeekTo, Reap;
    if Doomed(db, date, it.keys, it.pos, it.pos, s) {
      var i :| it.pos <= i < |it.keys| && GoodUpTo(db, date, it.keys, it.pos, it.pos, i) && Names(db, it.keys[i], s);
      ReachOf(db, it, i);
      ClearUpTo(db, date, it, i);
    }
    if WillBeReaped(db, date, s) {
      var k :| InReach(db, k) && Names(db, k, s) && Clear(db, date, k);
      var i := PlaceOf(db, it, k);
      ClearUpTo(db, date, it, i);
    }
  }

  /** On an exact shard nothing stands in the way: the expired visible spans go, and no others. */
  lemma ExactReaps(db: Db, date: Int64, s: Span)
    requires Exact(db)
    ensures WillBeReaped(db, date, s) <==> Stored(db, s) && Expired(s, date)
  {
    hide Exact, WillBeReaped, Expired, Stored;
    if WillBeReaped(db, date, s) {
      ReapedIsExpired(db, date, s);
    }
    if Stored(db, s) && Expired(s, date) {
      ExpiredIsReaped(db, date, s);
    }
  }

  lemma ReapedIsExpired(db: Db, date: Int64, s: Span)
    requires Exact(db) && WillBeReaped(db, date, s)
    ensures Stored(db, s) && Expired(s, date)
  {
    hide Exact, IndexKey, ReaperSearchKey, Less;
    var k :| InReach(db, k) && Names(db, k, s) && Clear(db, date, k);
    assert !Blocks(db, date, k);
    ExactEntry(db, k);
    ReaperOrder(s);
  }

  lemma ExpiredIsReaped(db: Db, date: Int64, s: Span)
    requires Exact(db) && Stored(db, s) && Expired(s, date)
    ensures WillBeReaped(db, date, s)
  {
    var k := IndexKey(BeginTime, s);
    IndexKeyStored(db, BeginTime, s);
    IndexKeyInKeysOf(BeginTime, s);
    KeysNameOwner(s, k);
    ReaperOrder(s);
    hide Exact, KeysOf, ReaperSearchKey, Less, Blocks, IndexKey;
    forall k' | InReach(db, k') && AtMost(k', k) ensures !Blocks(db, date, k') {
      NotBlocked(db, date, s, k');
    }
    assert InReach(db, k) && Names(db, k, s) && Clear(db, date, k);
  }

  lemma ExactEntry(db: Db, k: ByteString)
    requires Exact(db) && k in db && |k| > 0 && k[0] == BEGIN_TIME_INDEX_PREFIX
    ensures |k| > SPAN_ID_BYTES && FindSpan(db, IdOfKey(k)).Some?
    ensures k == IndexKey(BeginTime, FindSpan(db, IdOfKey(k)).value)
    ensures |FindSpan(db, IdOfKey(k)).value.id| == SPAN_ID_BYTES
  {
    OwnedBegin(db, k);
    hide Exact, KeysOf, FindSpan, IndexKey;
    SectionKeyOf(BeginTime, FindSpan(db, IdOfKey(k)).value, k);
  }

  lemma OwnedBegin(db: Db, k: ByteString)
    requires Exact(db) && k in db && |k| > 0 && k[0] == BEGIN_TIME_INDEX_PREFIX
    ensures |k| > SPAN_ID_BYTES && FindSpan(db, IdOfKey(k)).Some? && k in KeysOf(FindSpan(db, IdOfKey(k)).value)
  {
    hide Complete, FindSpan, KeysOf;
    assert INFO_KEY[0] == SHARD_INFO_KEY;
    assert Owned(db, k);
  }

  lemma BeginSection(s: Span, k: ByteString)
    requires |k| > 0 && AtMost(ReaperSearchKey(), k) && AtMost(k, IndexKey(BeginTime, s))
    ensures k[0] == BEGIN_TIME_INDEX_PREFIX
  {
  }

  lemma NotBlocked(db: Db, date: Int64, s: Span, k: ByteString)
    requires Exact(db) && Stored(db, s) && s.data.begin < date && InReach(db, k) && AtMost(k, IndexKey(BeginTime, s))
    ensures !Blocks(db, date, k)
  {
    hide Exact, FindSpan, Stored, IndexKey, Less, ReaperSearchKey, Int64Key;
    Lengths(db, s, k);
    BeginSection(s, k);
    ExactEntry(db, k);
    var t := FindSpan(db, IdOfKey(k)).value;
    BeganNoLater(t, s);
    forall k' | InReach(db, k') && Less(k', k) ensures !SameId(k', k) {
      NoRepeat(db, s, k', k);
    }
  }

  lemma Lengths(db: Db, s: Span, k: ByteString)
    requires Exact(db) && Stored(db, s) && k in db
    ensures |s.id| == SPAN_ID_BYTES && |k| > 0
  {
    IndexKeyStored(db, BeginTime, s);
    assert WellShaped(k);
  }

  lemma BeganNoLater(t: Span, s: Span)
    requires |s.id| == |t.id| == SPAN_ID_BYTES && AtMost(IndexKey(BeginTime, t), IndexKey(BeginTime, s))
    requires AtMost(ReaperSearchKey(), IndexKey(BeginTime, t))
    ensures 0 <= t.data.begin <= s.data.begin
  {
    hide IndexKey, ReaperSearchKey, Less, Int64Key;
    ReaperOrder(t);
    IndexKeyOrder(BeginTime, t, s);
    Int64KeyOrder(t.data.begin, s.data.begin);
    if IndexKey(BeginTime, t) == IndexKey(BeginTime, s) {
      IndexKeyInjective(BeginTime, t, s);
    }
  }

  lemma NoRepeat(db: Db, s: Span, k': ByteString, k: ByteString)
    requires Exact(db) && InReach(db, k') && Less(k', k) && k in db && |k| > SPAN_ID_BYTES
    requires k[0] == BEGIN_TIME_INDEX_PREFIX
    ensures !SameId(k', k)
  {
    LessIrreflexive(k);
    if SameId(k', k) {
      FirstByte(k', k);
      OneEntryPerSpan(db, k, k');
    }
  }

  lemma FirstByte(k': ByteString, k: ByteString)
    requires |k'| > 0 && |k| > 0 && AtMost(ReaperSearchKey(), k') && Less(k', k) && k[0] == BEGIN_TIME_INDEX_PREFIX
    ensures k'[0] == BEGIN_TIME_INDEX_PREFIX
  {
  }
}
