/**
 * The leveldb key layout of datastore.go: one primary key per span and one key per
 * secondary-index entry, each ending in the span's id.
 */
module Keys {
  import opened Bytes
  import opened Spans

  const SPAN_ID_INDEX_PREFIX: Byte := 0x73   // 's'
  const BEGIN_TIME_INDEX_PREFIX: Byte := 0x62 // 'b'
  const END_TIME_INDEX_PREFIX: Byte := 0x65 // 'e'
  const DURATION_INDEX_PREFIX: Byte := 0x64 // 'd'
  const PARENT_ID_INDEX_PREFIX: Byte := 0x70 // 'p'
  const SHARD_INFO_KEY: Byte := 0x77 // 'w'

  /** `s2u64`: reinterpret as uint64, then flip the highest bit. */
  function S2U64(v: Int64): UInt64 {
    var u := if v < 0 then v + 0x1_0000_0000_0000_0000 else v;
    if u >= 0x8000_0000_0000_0000 then u - 0x8000_0000_0000_0000 else u + 0x8000_0000_0000_0000
  }

  /** `u64toSlice`: the eight bytes, most significant first. */
  function U64ToSlice(v: UInt64): (s: ByteString)
    ensures |s| == 8
  {
    [(v / 0x100_0000_0000_0000) % 256,
     (v / 0x1_0000_0000_0000) % 256,
     (v / 0x100_0000_0000) % 256,
     (v / 0x1_0000_0000) % 256,
     (v / 0x100_0000) % 256,
     (v / 0x1_0000) % 256,
     (v / 0x100) % 256,
     v % 256]
  }

  lemma ValueOfSlice(v: UInt64)
    ensures Value(U64ToSlice(v)) == v
  {
    HighShifts(v);
    LowShifts(v);
    ValueOfDigits(U64ToSlice(v),
                  [0, v / 0x100_0000_0000_0000, v / 0x1_0000_0000_0000, v / 0x100_0000_0000, v / 0x1_0000_0000,
                   v / 0x100_0000, v / 0x1_0000, v / 0x100, v]);
  }

  /** A string whose bytes are the last digits of successive quotients writes the last quotient. */
  lemma {:induction false} ValueOfDigits(s: ByteString, quotients: seq<nat>)
    requires |quotients| == |s| + 1 && quotients[0] == 0
    requires forall i :: 0 <= i < |s| ==> quotients[i] == quotients[i + 1] / 256 && s[i] == quotients[i + 1] % 256
    ensures Value(s) == quotients[|s|]
    decreases |s|
  {
    if |s| > 0 {
      ValueOfDigits(s[..|s| - 1], quotients[..|s|]);
    }
  }

  lemma HighShifts(v: UInt64)
    ensures v / 0x100_0000_0000_0000 / 256 == 0
    ensures v / 0x1_0000_0000_0000 / 256 == v / 0x100_0000_0000_0000
    ensures v / 0x100_0000_0000 / 256 == v / 0x1_0000_0000_0000
    ensures v / 0x1_0000_0000 / 256 == v / 0x100_0000_0000
  {
  }

  lemma LowShifts(v: UInt64)
    ensures v / 0x100_0000 / 256 == v / 0x1_0000_0000
    ensures v / 0x1_0000 / 256 == v / 0x100_0000
    ensures v / 0x100 / 256 == v / 0x1_0000
  {
  }

  /** The bytes under which a signed field is indexed. */
  function Int64Key(v: Int64): (s: ByteString)
    ensures |s| == 8
  {
    U64ToSlice(S2U64(v))
  }

  /** Byte order of the indexed form is numeric order, negative values included. */
  lemma Int64KeyOrder(a: Int64, b: Int64)
    ensures Less(Int64Key(a), Int64Key(b)) <==> a < b
    ensures Int64Key(a) == Int64Key(b) <==> a == b
  {
    ValueOfSlice(S2U64(a));
    ValueOfSlice(S2U64(b));
    LessIsNumeric(Int64Key(a), Int64Key(b));
  }

  function PrimaryKey(id: SpanId): (k: ByteString) {
    [SPAN_ID_INDEX_PREFIX] + id
  }

  function ParentKey(parent: SpanId, id: SpanId): (k: ByteString) {
    [PARENT_ID_INDEX_PREFIX] + parent + id
  }

  function TimeKey(prefix: Byte, v: Int64, id: SpanId): (k: ByteString) {
    [prefix] + Int64Key(v) + id
  }

  function BeginKey(s: Span): (k: ByteString) { TimeKey(BEGIN_TIME_INDEX_PREFIX, s.data.begin, s.id) }

  function EndKey(s: Span): (k: ByteString) { TimeKey(END_TIME_INDEX_PREFIX, s.data.end, s.id) }

  function DurationKey(s: Span): (k: ByteString) { TimeKey(DURATION_INDEX_PREFIX, Duration(s), s.id) }

  function ParentKeys(s: Span): (ks: set<ByteString>) {
    set p | p in s.data.parents :: ParentKey(p, s.id)
  }

  /** Every key that `writeSpan` puts and `DeleteSpan` removes for a span. */
  function KeysOf(s: Span): (ks: set<ByteString>) {
    {PrimaryKey(s.id), BeginKey(s), EndKey(s), DurationKey(s)} + ParentKeys(s)
  }

  // ---------------------------------------------------------------- the layout on disk

  /** The index's letter, the number plus 2^63 in eight bytes, most significant first, and the id. */
  ghost predicate HoldsNumber(k: ByteString, letter: char, n: int, id: SpanId) {
    |k| == 9 + |id| && k[0] == letter as int && Value(k[1..9]) == n + 0x8000_0000_0000_0000 && k[9..] == id
  }

  /** The keys of a span, spelled out; a duration that overflows is kept modulo 2^64. */
  ghost predicate NamesSpan(k: ByteString, s: Span) {
    k == ['s' as int] + s.id ||
    HoldsNumber(k, 'b', s.data.begin, s.id) ||
    HoldsNumber(k, 'e', s.data.end, s.id) ||
    (exists d: Int64 :: HoldsNumber(k, 'd', d, s.id) &&
                        (s.data.begin + d - s.data.end) % 0x1_0000_0000_0000_0000 == 0) ||
    exists p :: p in s.data.parents && k == ['p' as int] + p + s.id
  }

  lemma TimeKeyLayout(prefix: Byte, letter: char, v: Int64, id: SpanId, k: ByteString)
    requires prefix == letter as int
    ensures k == TimeKey(prefix, v, id) <==> HoldsNumber(k, letter, v, id)
  {
    hide U64ToSlice, Value;
    ValueOfSlice(S2U64(v));
    var key := TimeKey(prefix, v, id);
    assert key[1..9] == Int64Key(v) && key[9..] == id;
    if HoldsNumber(k, letter, v, id) {
      ValueInjective(k[1..9], Int64Key(v));
      assert k == [k[0]] + k[1..9] + k[9..];
    }
  }

  lemma SameDuration(d: Int64, e: Int64, span: int)
    requires (d - span) % 0x1_0000_0000_0000_0000 == 0 && (e - span) % 0x1_0000_0000_0000_0000 == 0
    ensures d == e
  {
  }

  lemma DurationKeyLayout(s: Span, k: ByteString)
    ensures k == DurationKey(s) <==>
            exists d: Int64 :: HoldsNumber(k, 'd', d, s.id) &&
                               (s.data.begin + d - s.data.end) % 0x1_0000_0000_0000_0000 == 0
  {
    hide HoldsNumber, TimeKey;
    DurationMeans(s);
    TimeKeyLayout(DURATION_INDEX_PREFIX, 'd', Duration(s), s.id, k);
    if d: Int64 :| HoldsNumber(k, 'd', d, s.id) &&
                   (s.data.begin + d - s.data.end) % 0x1_0000_0000_0000_0000 == 0 {
      SameDuration(d, Duration(s), s.data.end - s.data.begin);
    }
  }

  /** What `writeSpan` puts: one primary key, three numbers under their letters, one key per parent. */
  lemma KeyLayout(s: Span, k: ByteString)
    ensures k in KeysOf(s) <==> NamesSpan(k, s)
  {
    hide HoldsNumber, TimeKey;
    TimeKeyLayout(BEGIN_TIME_INDEX_PREFIX, 'b', s.data.begin, s.id, k);
    TimeKeyLayout(END_TIME_INDEX_PREFIX, 'e', s.data.end, s.id, k);
    DurationKeyLayout(s, k);
  }

  /** Order of one secondary index: first the field, numerically, then the id. */
  lemma TimeKeyOrder(prefix: Byte, v: Int64, id: SpanId, w: Int64, other: SpanId)
    ensures Less(TimeKey(prefix, v, id), TimeKey(prefix, w, other))
       <==> v < w || (v == w && Less(id, other))
  {
    Int64KeyOrder(v, w);
    LessConcat([prefix] + Int64Key(v), id, [prefix] + Int64Key(w), other);
    LessConcat([prefix], Int64Key(v), [prefix], Int64Key(w));
    LessIrreflexive([prefix]);
    if [prefix] + Int64Key(v) == [prefix] + Int64Key(w) {
      assert ([prefix] + Int64Key(v))[1..] == Int64Key(v);
      assert ([prefix] + Int64Key(w))[1..] == Int64Key(w);
    }
  }

  /** The id a key belongs to: its last sixteen bytes. */
  function IdOfKey(k: ByteString): (id: SpanId)
    requires |k| >= SPAN_ID_BYTES
  {
    k[|k| - SPAN_ID_BYTES..]
  }

  /** Keys name their owner, so spans with different ids never share one. */
  lemma KeysNameOwner(s: Span, k: ByteString)
    requires |s.id| == SPAN_ID_BYTES
    requires k in KeysOf(s)
    ensures |k| >= SPAN_ID_BYTES + 1 && IdOfKey(k) == s.id
  {
  }

  lemma KeysDisjoint(s: Span, t: Span)
    requires |s.id| == SPAN_ID_BYTES && |t.id| == SPAN_ID_BYTES && s.id != t.id
    ensures KeysOf(s) !! KeysOf(t)
  {
    forall k | k in KeysOf(s) && k in KeysOf(t)
      ensures false
    {
      KeysNameOwner(s, k);
      KeysNameOwner(t, k);
    }
  }
}
