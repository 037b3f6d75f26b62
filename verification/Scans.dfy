/**
 * Walking one index of one shard: what `populateNextFromShard` finds, entry by entry, and
 * which spans that turns out to be.
 */
module Scans {
  import opened Bytes
  import opened Spans
  import opened Keys
  import opened LevelDb
  import opened Index
  import opened Options
  import opened Predicates

  /** A predicate that can drive a scan: well formed and on an indexed field. */
  predicate IsSource(p: PredicateData) {
    WellFormed(p) && IndexPrefix(p.field) != 0
  }

  /** The key under which a field's index lists a span. */
  function IndexKey(f: Field, s: Span): (k: ByteString)
    requires IndexPrefix(f) != 0
  {
    if f.SpanIdField? then PrimaryKey(s.id) else [IndexPrefix(f)] + FieldBytes(f, s) + s.id
  }

  /** `checkKeyPrefix`: where a key lies relative to the section being scanned. */
  function CheckKeyPrefix(kp: Byte, prefix: Byte, descending: bool): Verdict {
    if kp == prefix then Satisfied
    else if kp < prefix then (if descending then NotSatisfied else NotYetSatisfied)
    else (if descending then NotYetSatisfied else NotSatisfied)
  }

  /** Every key the iterator can stand on has a length that fits its index. */
  ghost predicate Scannable(it: Iter) {
    it.Sound() && forall k :: k in it.snap ==> WellShaped(k)
  }

  /** The span an index entry stands for: decoded in place, or looked up by id in the shard. */
  function Rehydrate(db: Db, f: Field, snap: Db, key: ByteString): Option<Span>
    requires key in snap && WellShaped(key) && key[0] == IndexPrefix(f)
  {
    if f.SpanIdField? then
      if snap[key].SpanRecord? then Some(Span(key[1..17], snap[key].data)) else None
    else if f in {BeginTime, EndTime, DurationField} then FindSpan(db, key[9..25])
    else None
  }

  datatype Examination = Stop | Skip | Emit(span: Span)

  /** What the loop does with one entry. */
  function Examine(db: Db, p: PredicateData, snap: Db, key: ByteString): Examination
    requires IsSource(p) && key in snap && WellShaped(key)
  {
    match CheckKeyPrefix(key[0], IndexPrefix(p.field), p.op.IsDescending())
    case NotSatisfied => Stop
    case NotYetSatisfied => Skip
    case Satisfied =>
      match Rehydrate(db, p.field, snap, key)
      case None => Stop
      case Some(s) =>
        match SatisfiedBy(p, s)
        case NotSatisfied => Stop
        case NotYetSatisfied => Skip
        case Satisfied => Emit(s)
  }

  function Advance(p: PredicateData, it: Iter): Iter
    requires it.Valid()
  {
    if p.op.IsDescending() then it.Prev() else it.Next()
  }

  /** How many entries a scan can still visit. */
  function Ahead(p: PredicateData, it: Iter): (n: int)
    ensures it.Valid() ==> n >= 1
  {
    if p.op.IsDescending() then it.pos + 1 else |it.keys| - it.pos
  }

  /** Every span a scan will yield from here on, in order. */
  ghost function Scan(db: Db, p: PredicateData, it: Iter): (spans: seq<Span>)
    requires IsSource(p) && Scannable(it)
    decreases Ahead(p, it)
  {
    if !it.Valid() then []
    else
      match Examine(db, p, it.snap, it.Key())
      case Stop => []
      case Skip => Scan(db, p, Advance(p, it))
      case Emit(s) => [s] + Scan(db, p, Advance(p, it))
  }

  /** The next span a scan yields, and where the iterator then stands. */
  ghost function FirstOf(db: Db, p: PredicateData, it: Iter): Option<(Span, Iter)>
    requires IsSource(p) && Scannable(it)
    decreases Ahead(p, it)
  {
    if !it.Valid() then None
    else
      match Examine(db, p, it.snap, it.Key())
      case Stop => None
      case Skip => FirstOf(db, p, Advance(p, it))
      case Emit(s) => Some((s, Advance(p, it)))
  }

  // ---------------------------------------------------------------- keys of one section

  lemma IndexKeyInKeysOf(f: Field, s: Span)
    requires IndexPrefix(f) != 0
    ensures IndexKey(f, s) in KeysOf(s) && IndexKey(f, s)[0] == IndexPrefix(f)
  {
  }

  /** Inside one section, a key of a span is its index key. */
  lemma SectionKeyOf(f: Field, s: Span, k: ByteString)
    requires IndexPrefix(f) != 0 && k in KeysOf(s) && |k| > 0 && k[0] == IndexPrefix(f)
    ensures k == IndexKey(f, s)
  {
    assert PrimaryKey(s.id)[0] == SPAN_ID_INDEX_PREFIX;
    assert BeginKey(s)[0] == BEGIN_TIME_INDEX_PREFIX;
    assert EndKey(s)[0] == END_TIME_INDEX_PREFIX;
    assert DurationKey(s)[0] == DURATION_INDEX_PREFIX;
  }

  /** An index key tells both the id and the field it was made from. */
  lemma IndexKeyInjective(f: Field, s: Span, t: Span)
    requires IndexPrefix(f) != 0 && |s.id| == |t.id| && IndexKey(f, s) == IndexKey(f, t)
    ensures s.id == t.id && FieldBytes(f, s) == FieldBytes(f, t)
  {
    var n := |IndexKey(f, s)| - |s.id|;
    assert IndexKey(f, s)[n..] == s.id && IndexKey(f, t)[n..] == t.id;
    if !f.SpanIdField? {
      assert IndexKey(f, s)[1..n] == FieldBytes(f, s) && IndexKey(f, t)[1..n] == FieldBytes(f, t);
    }
  }

  /** Index order: the field first, then the id. */
  lemma IndexKeyOrder(f: Field, s: Span, t: Span)
    requires IndexPrefix(f) != 0 && |s.id| == |t.id| == SPAN_ID_BYTES
    ensures Less(IndexKey(f, s), IndexKey(f, t)) <==>
            Less(FieldBytes(f, s), FieldBytes(f, t)) || (FieldBytes(f, s) == FieldBytes(f, t) && Less(s.id, t.id))
  {
    var pre := [IndexPrefix(f)];
    LessIrreflexive(pre);
    LessIrreflexive(s.id);
    if f.SpanIdField? {
      LessConcat(pre, s.id, pre, t.id);
    } else {
      var a, b := FieldBytes(f, s), FieldBytes(f, t);
      LessConcat(pre + a, s.id, pre + b, t.id);
      LessConcat(pre, a, pre, b);
      assert (pre + a)[1..] == a && (pre + b)[1..] == b;
    }
  }

  /**
   * The live database answers for the entries of the snapshot from `lo` up to `hi`: each key of
   * the section rehydrates to the stored span that the key was made for.
   */
  ghost predicate Faithful(db: Db, f: Field, it: Iter, lo: int, hi: int)
    requires IndexPrefix(f) != 0
  {
    (f.SpanIdField? ==> it.snap == db) &&
    forall i :: 0 <= lo <= i < hi <= |it.keys| && |it.keys[i]| > 0 && it.keys[i][0] == IndexPrefix(f) ==>
      Owner(db, f, it.keys[i])
  }

  ghost predicate Owner(db: Db, f: Field, k: ByteString)
    requires IndexPrefix(f) != 0
  {
    |k| > SPAN_ID_BYTES && FindSpan(db, IdOfKey(k)).Some? && IndexKey(f, FindSpan(db, IdOfKey(k)).value) == k
  }

  lemma ExactIsFaithful(db: Db, f: Field, it: Iter)
    requires Exact(db) && IndexPrefix(f) != 0 && it.snap == db && it.Sound()
    ensures Faithful(db, f, it, 0, |it.keys|)
  {
    forall i | 0 <= i < |it.keys| && |it.keys[i]| > 0 && it.keys[i][0] == IndexPrefix(f)
      ensures Owner(db, f, it.keys[i])
    {
      var k := it.keys[i];
      assert k in it.keys;
      assert Owned(db, k);
      SectionKeyOf(f, FindSpan(db, IdOfKey(k)).value, k);
    }
  }

  lemma RehydrateFaithful(db: Db, f: Field, it: Iter, i: nat)
    requires IndexPrefix(f) != 0 && Scannable(it) && i < |it.keys|
    requires Faithful(db, f, it, i, i + 1)
    requires it.keys[i] in it.snap && |it.keys[i]| > 0 && it.keys[i][0] == IndexPrefix(f)
    ensures WellShaped(it.keys[i])
    ensures Rehydrate(db, f, it.snap, it.keys[i]) == FindSpan(db, IdOfKey(it.keys[i])) != None
    ensures IndexKey(f, FindSpan(db, IdOfKey(it.keys[i])).value) == it.keys[i]
  {
    var k := it.keys[i];
    assert Owner(db, f, k);
    if f.SpanIdField? {
      assert k[1..17] == IdOfKey(k) && PrimaryKey(IdOfKey(k)) == k;
    } else {
      assert k[9..25] == IdOfKey(k);
    }
  }

  /** The search key of a plain query separates spans by the field alone. */
  lemma SearchKeyOrder(p: PredicateData, s: Span)
    requires IsSource(p) && |s.id| == SPAN_ID_BYTES
    ensures AtMost([IndexPrefix(p.field)] + p.key, IndexKey(p.field, s)) <==> AtMost(p.key, FieldBytes(p.field, s))
  {
    var pre, a := [IndexPrefix(p.field)], FieldBytes(p.field, s);
    LessIrreflexive(pre);
    LessConcat(pre, p.key, pre, a);
    assert (pre + p.key)[1..] == p.key && (pre + a)[1..] == a;
    if !p.field.SpanIdField? {
      LessConcat(pre + p.key, [], pre + a, s.id);
      assert pre + p.key + [] == pre + p.key;
      assert |pre + p.key| < |IndexKey(p.field, s)|;
    }
  }

  // ---------------------------------------------------------------- what a scan yields

  /** The order in which a scan visits spans: index order, or its reverse for a descending one. */
  ghost predicate VisitedBefore(p: PredicateData, a: Span, b: Span)
    requires IsSource(p)
  {
    if p.op.IsDescending() then Less(IndexKey(p.field, b), IndexKey(p.field, a))
    else Less(IndexKey(p.field, a), IndexKey(p.field, b))
  }

  ghost predicate InVisitOrder(p: PredicateData, spans: seq<Span>)
    requires IsSource(p)
  {
    forall i, j :: 0 <= i < j < |spans| ==> VisitedBefore(p, spans[i], spans[j])
  }

  /** The span is stored, is listed by one of these index keys, and satisfies the predicate. */
  ghost predicate Listed(db: Db, p: PredicateData, keys: seq<ByteString>, s: Span)
    requires IsSource(p)
  {
    |s.id| == SPAN_ID_BYTES && Stored(db, s) && IndexKey(p.field, s) in keys && Accepts(p, s)
  }

  lemma OwnerUnique(db: Db, f: Field, k: ByteString, s: Span)
    requires IndexPrefix(f) != 0 && Owner(db, f, k) && |s.id| == SPAN_ID_BYTES && Stored(db, s)
    requires IndexKey(f, s) == k
    ensures s == FindSpan(db, IdOfKey(k)).value
  {
    KeysNameOwner(s, k) by { IndexKeyInKeysOf(f, s); }
  }

  /** One step of the loop, in terms of stored spans. */
  lemma ExamineMeans(db: Db, p: PredicateData, it: Iter)
    requires IsSource(p) && Scannable(it) && it.Valid() && it.Key() in it.snap
    requires Faithful(db, p.field, it, it.pos, it.pos + 1)
    ensures var e := Examine(db, p, it.snap, it.Key());
            forall s :: Listed(db, p, [it.Key()], s) <==> e == Emit(s)
  {
    var k := it.Key();
    var e := Examine(db, p, it.snap, k);
    if k[0] == IndexPrefix(p.field) {
      RehydrateFaithful(db, p.field, it, it.pos);
      var t := FindSpan(db, IdOfKey(k)).value;
      forall s ensures Listed(db, p, [k], s) <==> e == Emit(s) {
        if Listed(db, p, [k], s) {
          OwnerUnique(db, p.field, k, s);
        }
      }
    } else {
      forall s ensures !Listed(db, p, [k], s) {
        IndexKeyInKeysOf(p.field, s);
      }
    }
  }

  /** Where an ascending scan stops, nothing further on is wanted. */
  lemma StopAscending(db: Db, p: PredicateData, it: Iter, j: nat, s: Span)
    requires IsSource(p) && !p.op.IsDescending() && Scannable(it) && it.Valid() && it.Key() in it.snap
    requires Faithful(db, p.field, it, it.pos, |it.keys|)
    requires AtMost([IndexPrefix(p.field)] + p.key, it.Key())
    requires Examine(db, p, it.snap, it.Key()) == Stop
    requires it.pos <= j < |it.keys| && it.keys[j] == IndexKey(p.field, s) && |s.id| == SPAN_ID_BYTES && Stored(db, s)
    ensures !Accepts(p, s)
  {
    hide KeysOf, Rehydrate, IndexKey;
    var k := it.Key();
    IndexKeyInKeysOf(p.field, s);
    FirstBytes(it, it.pos, j);
    assert k[0] == IndexPrefix(p.field);
    RehydrateFaithful(db, p.field, it, it.pos);
    var t := FindSpan(db, IdOfKey(k)).value;
    SearchKeyOrder(p, t);
    var a, b := FieldBytes(p.field, t), FieldBytes(p.field, s);
    if p.op == GreaterThanOrEquals {
      LessAsymmetric(a, p.key);
    } else if j == it.pos {
      OwnerUnique(db, p.field, k, s);
    } else {
      IndexKeyOrder(p.field, t, s);
      LessIrreflexive(a);
      if Less(p.key, a) && Less(a, b) {
        LessTransitive(p.key, a, b);
      }
      LessIrreflexive(b);
    }
  }

  lemma NoneAfterStop(db: Db, p: PredicateData, it: Iter)
    requires IsSource(p) && !p.op.IsDescending() && Scannable(it) && it.Valid() && it.Key() in it.snap
    requires Faithful(db, p.field, it, it.pos, |it.keys|)
    requires AtMost([IndexPrefix(p.field)] + p.key, it.Key())
    requires Examine(db, p, it.snap, it.Key()) == Stop
    ensures forall s :: !Listed(db, p, it.keys[it.pos..], s)
  {
    hide Examine, SatisfiedBy, FieldBytes, IndexKey, Faithful;
    forall s: Span ensures !Listed(db, p, it.keys[it.pos..], s) {
      if Listed(db, p, it.keys[it.pos..], s) {
        var j :| it.pos <= j < |it.keys| && it.keys[j] == IndexKey(p.field, s);
        StopAscending(db, p, it, j, s);
      }
    }
  }

  /** One more entry in front of a scan that is already understood. */
  lemma ScanStep(db: Db, p: PredicateData, k: ByteString, rest: seq<ByteString>, e: Examination, tail: seq<Span>)
    requires IsSource(p)
    requires forall s :: Listed(db, p, [k], s) <==> e == Emit(s)
    requires forall s :: s in tail <==> Listed(db, p, rest, s)
    requires InVisitOrder(p, tail)
    requires forall x :: x in rest ==> if p.op.IsDescending() then Less(x, k) else Less(k, x)
    ensures var r := if e.Emit? then [e.span] + tail else tail;
            InVisitOrder(p, r) && forall s :: s in r <==> Listed(db, p, [k], s) || Listed(db, p, rest, s)
  {
    if e.Emit? {
      assert Listed(db, p, [k], e.span);
      forall x | x in tail ensures VisitedBefore(p, e.span, x) {
        assert Listed(db, p, rest, x);
      }
    }
  }

  lemma ListedSplits(db: Db, p: PredicateData, k: ByteString, rest: seq<ByteString>, s: Span)
    requires IsSource(p)
    ensures Listed(db, p, [k] + rest, s) <==> Listed(db, p, [k], s) || Listed(db, p, rest, s)
    ensures Listed(db, p, rest + [k], s) <==> Listed(db, p, [k], s) || Listed(db, p, rest, s)
  {
  }

  lemma AscendOne(db: Db, p: PredicateData, it: Iter, tail: seq<Span>, keys: seq<ByteString>, rest: seq<ByteString>)
    requires IsSource(p) && !p.op.IsDescending() && Scannable(it) && it.Valid() && it.Key() in it.snap
    requires Faithful(db, p.field, it, it.pos, it.pos + 1) && Examine(db, p, it.snap, it.Key()) != Stop
    requires keys == it.keys[it.pos..] && rest == it.keys[it.pos + 1..]
    requires InVisitOrder(p, tail) && forall s :: s in tail <==> Listed(db, p, rest, s)
    ensures var e := Examine(db, p, it.snap, it.Key());
            var r := if e.Emit? then [e.span] + tail else tail;
            InVisitOrder(p, r) && forall s :: s in r <==> Listed(db, p, keys, s)
  {
    hide Examine, SatisfiedBy, FieldBytes, IndexKey, Stored, Listed, VisitedBefore;
    var k := it.Key();
    ExamineMeans(db, p, it);
    forall x | x in rest ensures Less(k, x) {
      var j :| it.pos < j < |it.keys| && it.keys[j] == x;
    }
    ScanStep(db, p, k, rest, Examine(db, p, it.snap, k), tail);
    assert keys == [k] + rest;
    forall s: Span ensures Listed(db, p, keys, s) <==> Listed(db, p, [k], s) || Listed(db, p, rest, s) {
      ListedSplits(db, p, k, rest, s);
    }
  }

  /**
   * An ascending scan yields exactly the listed spans from its position on, in index order;
   * stopping early loses nothing.
   */
  lemma {:induction false} ScanAscending(db: Db, p: PredicateData, it: Iter)
    requires IsSource(p) && !p.op.IsDescending() && Scannable(it) && 0 <= it.pos
    requires Faithful(db, p.field, it, it.pos, |it.keys|)
    requires forall i :: it.pos <= i < |it.keys| ==> AtMost([IndexPrefix(p.field)] + p.key, it.keys[i])
    ensures forall s :: s in Scan(db, p, it) <==> Listed(db, p, it.keys[it.pos..], s)
    ensures InVisitOrder(p, Scan(db, p, it))
    decreases |it.keys| - it.pos
  {
    if it.Valid() {
      hide Examine, Listed, InVisitOrder, Less, AtMost;
      assert it.Key() in it.keys;
      if Examine(db, p, it.snap, it.Key()) == Stop {
        NoneAfterStop(db, p, it);
        NothingInOrder(p);
      } else {
        var it' := it.Next();
        ScanAscending(db, p, it');
        AscendOne(db, p, it, Scan(db, p, it'), it.keys[it.pos..], it'.keys[it'.pos..]);
      }
    }
  }

  lemma NothingInOrder(p: PredicateData)
    requires IsSource(p)
    ensures InVisitOrder(p, [])
  {
  }

  /** Where a descending scan stops, nothing further down is wanted. */
  lemma StopDescending(db: Db, p: PredicateData, it: Iter, j: nat, s: Span)
    requires IsSource(p) && p.op.IsDescending() && Scannable(it) && it.Valid() && it.Key() in it.snap
    requires Faithful(db, p.field, it, it.pos, it.pos + 1)
    requires Examine(db, p, it.snap, it.Key()) == Stop
    requires j <= it.pos
    ensures it.keys[j] != IndexKey(p.field, s)
  {
    hide KeysOf, FindSpan, Rehydrate, Faithful, IndexKey;
    FirstBytes(it, j, it.pos);
    IndexKeyInKeysOf(p.field, s);
    if it.Key()[0] == IndexPrefix(p.field) {
      RehydrateFaithful(db, p.field, it, it.pos);
    }
  }

  lemma FirstBytes(it: Iter, i: nat, j: nat)
    requires Scannable(it) && i <= j < |it.keys|
    ensures |it.keys[i]| > 0 && |it.keys[j]| > 0 && it.keys[i][0] <= it.keys[j][0]
  {
    assert it.keys[i] in it.keys && it.keys[j] in it.keys;
    assert i < j ==> Less(it.keys[i], it.keys[j]);
  }

  lemma NoneBeforeStop(db: Db, p: PredicateData, it: Iter, keys: seq<ByteString>)
    requires IsSource(p) && p.op.IsDescending() && Scannable(it) && it.Valid() && it.Key() in it.snap
    requires Faithful(db, p.field, it, it.pos, it.pos + 1)
    requires Examine(db, p, it.snap, it.Key()) == Stop
    requires keys == it.keys[..it.pos + 1]
    ensures forall s :: !Listed(db, p, keys, s)
  {
    hide Examine, SatisfiedBy, FieldBytes, IndexKey, Faithful;
    forall s: Span ensures !Listed(db, p, keys, s) {
      if Listed(db, p, keys, s) {
        var j :| 0 <= j <= it.pos && it.keys[j] == IndexKey(p.field, s);
        StopDescending(db, p, it, j, s);
      }
    }
  }

  /** A descending scan yields exactly the listed spans from its position down, in reverse index order. */
  lemma {:induction false} ScanDescending(db: Db, p: PredicateData, it: Iter)
    requires IsSource(p) && p.op.IsDescending() && Scannable(it) && it.pos < |it.keys|
    requires Faithful(db, p.field, it, 0, it.pos + 1)
    ensures forall s :: s in Scan(db, p, it) <==> Listed(db, p, it.keys[..it.pos + 1], s)
    ensures InVisitOrder(p, Scan(db, p, it))
    decreases it.pos + 1
  {
    if it.Valid() {
      hide Examine, SatisfiedBy, FieldBytes, IndexKey, Stored, Listed, VisitedBefore, Less, AtMost;
      var k, rest := it.Key(), it.keys[..it.pos];
      assert k in it.keys;
      assert it.keys[..it.pos + 1] == rest + [k];
      var e := Examine(db, p, it.snap, k);
      if e == Stop {
        NoneBeforeStop(db, p, it, rest + [k]);
      } else {
        ExamineMeans(db, p, it);
        ScanDescending(db, p, it.Prev());
        ScanStep(db, p, k, rest, e, Scan(db, p, it.Prev()));
        forall s: Span ensures Listed(db, p, rest + [k], s) <==> Listed(db, p, [k], s) || Listed(db, p, rest, s) {
          ListedSplits(db, p, k, rest, s);
        }
      }
    }
  }

  // ---------------------------------------------------------------- scans from a search key

  function SeekTo(db: Db, searchKey: ByteString): (it: Iter)
    ensures it.snap == db && it.Sound() && 0 <= it.pos
  {
    NewIterator(db).Seek(searchKey)
  }

  /**
   * Which stored spans a scan from a search key yields: ascending, those listed at or after the
   * key; descending, those not beyond the first key of the shard at or after it.
   */
  ghost predicate Yields(db: Db, p: PredicateData, searchKey: ByteString, s: Span)
    requires IsSource(p)
  {
    Stored(db, s) && Accepts(p, s) &&
    if p.op.IsDescending() then
      forall k :: k in db && AtMost(searchKey, k) ==> AtMost(IndexKey(p.field, s), k)
    else
      AtMost(searchKey, IndexKey(p.field, s))
  }

  lemma SeekPosition(db: Db, searchKey: ByteString, i: nat)
    requires i < |SeekTo(db, searchKey).keys|
    ensures var it := SeekTo(db, searchKey); i < it.pos <==> !AtMost(searchKey, it.keys[i])
  {
    var it := SeekTo(db, searchKey);
    SeekSplits(it.keys, searchKey, i);
    LessTotal(searchKey, it.keys[i]);
    LessIrreflexive(searchKey);
    if Less(searchKey, it.keys[i]) {
      LessAsymmetric(searchKey, it.keys[i]);
    }
  }

  lemma IndexKeyStored(db: Db, f: Field, s: Span)
    requires Complete(db) && IndexPrefix(f) != 0 && Stored(db, s)
    ensures ValidId(s.id) && IndexKey(f, s) in db
  {
    assert PrimaryKey(s.id) in db;
    IndexKeyInKeysOf(f, s);
  }

  /** The scan of an exact shard from a search key yields precisely those spans, once each, in order. */
  lemma ScanFromSeek(db: Db, p: PredicateData, searchKey: ByteString)
    requires Exact(db) && IsSource(p)
    requires if p.op.IsDescending() then IsIndexed(searchKey) else AtMost([IndexPrefix(p.field)] + p.key, searchKey)
    ensures forall s :: s in Scan(db, p, SeekTo(db, searchKey)) <==> Yields(db, p, searchKey, s)
    ensures InVisitOrder(p, Scan(db, p, SeekTo(db, searchKey)))
  {
    var it := SeekTo(db, searchKey);
    ExactIsFaithful(db, p.field, it);
    if p.op.IsDescending() {
      SeekHitsInfoKey(db, searchKey);
      ScanDescending(db, p, it);
      forall s: Span ensures Listed(db, p, it.keys[..it.pos + 1], s) <==> Yields(db, p, searchKey, s) {
        ListedDescending(db, p, searchKey, s);
      }
    } else {
      forall i | it.pos <= i < |it.keys| ensures AtMost([IndexPrefix(p.field)] + p.key, it.keys[i]) {
        SeekPosition(db, searchKey, i);
        AtMostTransitive([IndexPrefix(p.field)] + p.key, searchKey, it.keys[i]);
      }
      ScanAscending(db, p, it);
      forall s: Span ensures Listed(db, p, it.keys[it.pos..], s) <==> Yields(db, p, searchKey, s) {
        ListedAscending(db, p, searchKey, s);
      }
    }
  }

  lemma AtMostTransitive(a: ByteString, b: ByteString, c: ByteString)
    requires AtMost(a, b) && AtMost(b, c)
    ensures AtMost(a, c)
  {
    if Less(a, b) && Less(b, c) {
      LessTransitive(a, b, c);
    }
  }

  /** The key starts with the prefix of an index, all of which sort before the shard-info record. */
  predicate IsIndexed(k: ByteString) {
    |k| > 0 && k[0] < SHARD_INFO_KEY
  }

  lemma IndexedBelowInfo(k: ByteString)
    requires IsIndexed(k)
    ensures Less(k, INFO_KEY)
  {
  }

  /** The shard-info record sorts after every index, so a seek into any index lands on an entry. */
  lemma SeekHitsInfoKey(db: Db, searchKey: ByteString)
    requires INFO_KEY in db && IsIndexed(searchKey)
    ensures SeekTo(db, searchKey).Valid()
  {
    IndexedBelowInfo(searchKey);
    var it := SeekTo(db, searchKey);
    assert INFO_KEY in it.keys;
    var i :| 0 <= i < |it.keys| && it.keys[i] == INFO_KEY;
    SeekPosition(db, searchKey, i);
  }

  /** The keys from the landing position on are those at or after the search key. */
  lemma KeyFromSeek(db: Db, searchKey: ByteString, k: ByteString)
    requires k in db
    ensures var it := SeekTo(db, searchKey); k in it.keys[it.pos..] <==> AtMost(searchKey, k)
  {
    var it := SeekTo(db, searchKey);
    assert k in it.keys;
    if k in it.keys[it.pos..] {
      var i :| it.pos <= i < |it.keys| && it.keys[i] == k;
      SeekPosition(db, searchKey, i);
    } else {
      var i :| 0 <= i < it.pos && it.keys[i] == k;
      SeekPosition(db, searchKey, i);
    }
  }

  /** The keys up to the landing position are those not beyond any key at or after the search key. */
  lemma KeyUpToSeek(db: Db, searchKey: ByteString, k: ByteString)
    requires k in db && SeekTo(db, searchKey).Valid()
    ensures var it := SeekTo(db, searchKey);
            k in it.keys[..it.pos + 1] <==> forall x :: x in db && AtMost(searchKey, x) ==> AtMost(k, x)
  {
    var it := SeekTo(db, searchKey);
    if k in it.keys[..it.pos + 1] {
      var i :| 0 <= i <= it.pos && it.keys[i] == k;
      forall x | x in db && AtMost(searchKey, x) ensures AtMost(k, x) {
        assert x in it.keys;
        var j :| 0 <= j < |it.keys| && it.keys[j] == x;
        SeekPosition(db, searchKey, j);
      }
    } else {
      assert k in it.keys;
      var i :| it.pos < i < |it.keys| && it.keys[i] == k;
      var c := it.keys[it.pos];
      SeekPosition(db, searchKey, it.pos);
      assert c in it.keys && c in db && Less(c, k);
      LessAsymmetric(c, k);
    }
  }

  lemma ListedAscending(db: Db, p: PredicateData, searchKey: ByteString, s: Span)
    requires Exact(db) && IsSource(p) && !p.op.IsDescending()
    ensures var it := SeekTo(db, searchKey); Listed(db, p, it.keys[it.pos..], s) <==> Yields(db, p, searchKey, s)
  {
    if Stored(db, s) {
      IndexKeyStored(db, p.field, s);
      KeyFromSeek(db, searchKey, IndexKey(p.field, s));
    }
  }

  lemma ListedDescending(db: Db, p: PredicateData, searchKey: ByteString, s: Span)
    requires Exact(db) && IsSource(p) && p.op.IsDescending() && SeekTo(db, searchKey).Valid()
    ensures var it := SeekTo(db, searchKey); Listed(db, p, it.keys[..it.pos + 1], s) <==> Yields(db, p, searchKey, s)
  {
    if Stored(db, s) {
      IndexKeyStored(db, p.field, s);
      KeyUpToSeek(db, searchKey, IndexKey(p.field, s));
    }
  }

  // ---------------------------------------------------------------- plain queries

  function PlainSearchKey(p: PredicateData): ByteString {
    [IndexPrefix(p.field)] + p.key
  }

  /**
   * The span has the least id among the shard's spans with its field value. The descending scan
   * over a secondary index starts at that tie and moves away from the others.
   */
  ghost predicate LeastTie(db: Db, f: Field, s: Span)
    requires IndexPrefix(f) != 0
  {
    forall t :: Stored(db, t) && FieldBytes(f, t) == FieldBytes(f, s) ==> AtMost(s.id, t.id)
  }

  /**
   * Which spans a plain scan yields: all that satisfy the predicate, except that LE on a
   * secondary index keeps only the least-id span among those equal to the bound.
   */
  lemma PlainYields(db: Db, p: PredicateData, s: Span)
    requires Exact(db) && IsSource(p)
    ensures Yields(db, p, PlainSearchKey(p), s) <==>
            Stored(db, s) && Accepts(p, s) &&
            (p.op.LessThanOrEquals? && !p.field.SpanIdField? && FieldBytes(p.field, s) == p.key ==>
               LeastTie(db, p.field, s))
  {
    if Stored(db, s) && Accepts(p, s) {
      IndexKeyStored(db, p.field, s);
      SearchKeyOrder(p, s);
      var a := FieldBytes(p.field, s);
      LessTotal(a, p.key);
      if p.op.IsDescending() {
        PlainDescending(db, p, s);
      }
    }
  }

  lemma PlainDescending(db: Db, p: PredicateData, s: Span)
    requires Exact(db) && IsSource(p) && p.op.IsDescending() && Stored(db, s) && Accepts(p, s)
    ensures Yields(db, p, PlainSearchKey(p), s) <==>
            (!p.field.SpanIdField? && FieldBytes(p.field, s) == p.key ==> LeastTie(db, p.field, s))
  {
    var key, k, a := PlainSearchKey(p), IndexKey(p.field, s), FieldBytes(p.field, s);
    IndexKeyStored(db, p.field, s);
    SearchKeyOrder(p, s);
    if a != p.key {
      // strictly below the bound: every key at or after the search key lies beyond
      assert !AtMost(key, k) by { LessAsymmetric(a, p.key); }
      LessTotal(key, k);
      forall x | x in db && AtMost(key, x) ensures AtMost(k, x) {
        AtMostTransitive(k, key, x);
      }
    } else if p.field.SpanIdField? {
      assert k == key;
    } else {
      TieYields(db, p, s);
    }
  }

  lemma TieYields(db: Db, p: PredicateData, s: Span)
    requires Exact(db) && IsSource(p) && p.op.IsDescending() && !p.field.SpanIdField?
    requires Stored(db, s) && FieldBytes(p.field, s) == p.key
    ensures (forall k :: k in db && AtMost(PlainSearchKey(p), k) ==> AtMost(IndexKey(p.field, s), k))
       <==> LeastTie(db, p.field, s)
  {
    var key, k := PlainSearchKey(p), IndexKey(p.field, s);
    IndexKeyStored(db, p.field, s);
    if LeastTie(db, p.field, s) {
      forall x | x in db && AtMost(key, x) ensures AtMost(k, x) {
        LeastTieFirst(db, p, s, x);
      }
    } else {
      var t :| Stored(db, t) && FieldBytes(p.field, t) == FieldBytes(p.field, s) && !AtMost(s.id, t.id);
      IndexKeyStored(db, p.field, t);
      SearchKeyOrder(p, t);
      LessTotal(s.id, t.id);
      IndexKeyOrder(p.field, t, s);
      LessAsymmetric(IndexKey(p.field, t), k);
    }
  }

  lemma LeastTieFirst(db: Db, p: PredicateData, s: Span, x: ByteString)
    requires Exact(db) && IsSource(p) && p.op.IsDescending() && !p.field.SpanIdField?
    requires Stored(db, s) && FieldBytes(p.field, s) == p.key && LeastTie(db, p.field, s)
    requires x in db && AtMost(PlainSearchKey(p), x)
    ensures AtMost(IndexKey(p.field, s), x)
  {
    var k := IndexKey(p.field, s);
    IndexKeyStored(db, p.field, s);
    IndexKeyInKeysOf(p.field, s);
    assert x[0] >= IndexPrefix(p.field);
    if x[0] == IndexPrefix(p.field) {
      assert Owned(db, x);
      var t := FindSpan(db, IdOfKey(x)).value;
      SectionKeyOf(p.field, t, x);
      IndexKeyStored(db, p.field, t);
      SearchKeyOrder(p, t);
      IndexKeyOrder(p.field, s, t);
      if FieldBytes(p.field, t) == p.key && t.id == s.id {
        assert x == k;
      }
    }
  }
}
