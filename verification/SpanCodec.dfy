/**
 * Span ids and spans on the wire between the C client and htraced (core/span_id.c,
 * core/span.c, receiver/htraced.c, and the matching reader in test/span_util.c).
 */
module SpanCodec {
  import opened Bytes
  import opened Spans
  import opened Keys
  import opened Options
  import opened Msgpack
  import opened Contexts
  import opened Cmp

  /** `struct htrace_span_id`. */
  datatype CId = CId(high: UInt64, low: UInt64)

  /** `struct htrace_span`; the length of `parents` is `num_parents`, an int. */
  datatype CSpan = CSpan(desc: ByteString, beginMs: UInt64, endMs: UInt64, id: CId,
                         trid: Option<ByteString>, parents: seq<CId>)

  // ---------------------------------------------------------------- span ids

  function IdBytes(id: CId): (s: ByteString)
    ensures |s| == SPAN_ID_BYTES
  {
    U64ToSlice(id.high) + U64ToSlice(id.low)
  }

  /** The shifts and ors that put eight bytes together again. */
  function FromEight(b: ByteString): (x: UInt64)
    requires |b| == 8
  {
    var hi: int := b[0] as int * 0x100_0000 + b[1] as int * 0x1_0000 + b[2] as int * 0x100 + b[3];
    var lo: int := b[4] as int * 0x100_0000 + b[5] as int * 0x1_0000 + b[6] as int * 0x100 + b[7];
    hi * 0x1_0000_0000 + lo
  }

  function IdOf(b: ByteString): CId
    requires |b| == SPAN_ID_BYTES
  {
    CId(FromEight(b[..8]), FromEight(b[8..]))
  }

  lemma EightRoundTrip(x: UInt64)
    ensures FromEight(U64ToSlice(x)) == x
  {
    FromEightIsValue(U64ToSlice(x));
    ValueOfSlice(x);
  }

  lemma FromEightIsValue(b: ByteString)
    requires |b| == 8
    ensures FromEight(b) == Value(b)
  {
    assert b[..8] == b;
    assert b[..7][..6] == b[..6] && b[..6][..5] == b[..5] && b[..5][..4] == b[..4];
    assert b[..4][..3] == b[..3] && b[..3][..2] == b[..2] && b[..2][..1] == b[..1] && b[..1][..0] == [];
    assert Value(b[..1]) == b[0];
    assert Value(b[..2]) == Value(b[..1]) * 256 + b[1];
    assert Value(b[..3]) == Value(b[..2]) * 256 + b[2];
    assert Value(b[..4]) == Value(b[..3]) * 256 + b[3];
    assert Value(b[..5]) == Value(b[..4]) * 256 + b[4];
    assert Value(b[..6]) == Value(b[..5]) * 256 + b[5];
    assert Value(b[..7]) == Value(b[..6]) * 256 + b[6];
  }

  /** `htrace_span_id_compare`. */
  function Compare(a: CId, b: CId): int {
    if a.high < b.high then -1
    else if a.high > b.high then 1
    else if a.low < b.low then -1
    else if a.low > b.low then 1
    else 0
  }

  /** The C comparison of ids is the byte comparison that the Go side makes of their wire form. */
  lemma CompareIsByteOrder(a: CId, b: CId)
    ensures Compare(a, b) < 0 <==> Less(IdBytes(a), IdBytes(b))
    ensures Compare(a, b) == 0 <==> IdBytes(a) == IdBytes(b)
    ensures Compare(a, b) > 0 <==> Less(IdBytes(b), IdBytes(a))
  {
    hide U64ToSlice, FromEight, Less, Value;
    EightOrder(a.high, b.high);
    EightOrder(a.low, b.low);
    EightOrder(b.high, a.high);
    EightOrder(b.low, a.low);
    LessConcat(U64ToSlice(a.high), U64ToSlice(a.low), U64ToSlice(b.high), U64ToSlice(b.low));
    LessConcat(U64ToSlice(b.high), U64ToSlice(b.low), U64ToSlice(a.high), U64ToSlice(a.low));
    assert IdBytes(a)[..8] == U64ToSlice(a.high) && IdBytes(a)[8..] == U64ToSlice(a.low);
    assert IdBytes(b)[..8] == U64ToSlice(b.high) && IdBytes(b)[8..] == U64ToSlice(b.low);
  }

  lemma EightOrder(x: UInt64, y: UInt64)
    ensures |U64ToSlice(x)| == 8
    ensures Less(U64ToSlice(x), U64ToSlice(y)) <==> x < y
    ensures U64ToSlice(x) == U64ToSlice(y) <==> x == y
  {
    hide Less, Value;
    ValueOfSlice(x);
    ValueOfSlice(y);
    LessIsNumeric(U64ToSlice(x), U64ToSlice(y));
  }

  /** An id as a byte array on the wire. */
  function IdWire(id: CId): ByteString {
    BinBytes(IdBytes(id))
  }

  function ParseId(s: ByteString): Option<(CId, ByteString)> {
    match ParseBin(s, SPAN_ID_BYTES)
    case Some((b, rest)) => if |b| == SPAN_ID_BYTES then Some((IdOf(b), rest)) else None
    case None => None
  }

  lemma IdRoundTrip(id: CId, rest: ByteString)
    ensures ParseId(IdWire(id) + rest) == Some((id, rest))
  {
    hide U64ToSlice, FromEight, BinBytes, ParseBin;
    BinRoundTrip(IdBytes(id), SPAN_ID_BYTES, rest);
    EightRoundTrip(id.high);
    EightRoundTrip(id.low);
    EightOrder(id.high, id.low);
    EightOrder(id.low, id.high);
    assert IdBytes(id)[..8] == U64ToSlice(id.high) && IdBytes(id)[8..] == U64ToSlice(id.low);
  }

  /** `htrace_span_id_write_msgpack`. */
  method WriteId(c: Ctx, id: CId) returns (ok: bool)
    requires c.Valid() && c.CanTake(|IdWire(id)|)
    modifies c`error, c`count, c`off, c`sent, c.buf
    ensures c.Valid() && c.sent == c.Kept(old(c.sent) + IdWire(id))
    ensures c.Fits(old(c.sent) + IdWire(id)) ==> ok && c.error == old(c.error)
  {
    ok := WriteBin(c, IdBytes(id));
  }

  /** `htrace_span_id_read_msgpack`. */
  method ReadId(c: Ctx, stale: ByteString, dest: nat -> Byte) returns (ok: bool, id: CId)
    requires c.Readable() && |stale| == 8
    modifies c`error, c`off
    ensures c.Readable()
    ensures ParseId(old(c.Unread())).Some? ==>
              ok && (id, c.Unread()) == ParseId(old(c.Unread())).value && c.error == old(c.error)
    ensures Parse(old(c.Unread())).Some? && BinSize(Parse(old(c.Unread())).value.0) != Some(SPAN_ID_BYTES) ==> !ok
  {
    hide ParseBin, Parse;
    id := CId(0, 0);
    var data, size;
    ok, data, size := ReadBin(c, SPAN_ID_BYTES, stale, dest);
    if ok {
      if size != SPAN_ID_BYTES {
        ok := false;
        return;
      }
      id := IdOf(data);
    }
  }

  // ---------------------------------------------------------------- the span on the wire

  /** A one-letter key and its value. */
  function Field(key: Byte, o: Object, data: ByteString): ByteString
    requires Canonical(o)
  {
    WithData(Fixstr(1), [key]) + WithData(o, data)
  }

  /** What is left of a length in the 16 bits it is written with. */
  function Cut16(n: nat): (r: UInt16)
    ensures r <= n && (r == n <==> n < 0x1_0000)
  {
    n % 0x1_0000
  }

  function StrField(key: Byte, s: ByteString): ByteString {
    Field(key, Str(W16, Cut16(|s|)), s[..Cut16(|s|)])
  }

  function IdField(key: Byte, id: CId): ByteString {
    Field(key, BinObject(SPAN_ID_BYTES), IdBytes(id))
  }

  function U64Field(key: Byte, x: UInt64): ByteString {
    Field(key, Uint(W64, x), [])
  }

  function IdsWire(ids: seq<CId>): ByteString {
    if |ids| == 0 then [] else IdsWire(ids[..|ids| - 1]) + IdWire(ids[|ids| - 1])
  }

  const KEY_ID: Byte := 0x61
  const KEY_BEGIN: Byte := 0x62
  const KEY_DESC: Byte := 0x64
  const KEY_END: Byte := 0x65
  const KEY_PARENTS: Byte := 0x70
  const KEY_TRID: Byte := 0x72

  function MapSize(s: CSpan): UInt16 {
    4 + (if s.trid.Some? then 1 else 0) + if |s.parents| > 0 then 1 else 0
  }

  function MapHeader(s: CSpan): ByteString {
    WithData(Map(W16, MapSize(s)), [])
  }

  function TridBytes(s: CSpan): ByteString {
    if s.trid.Some? then StrField(KEY_TRID, s.trid.value) else []
  }

  function ParentsHeader(s: CSpan): ByteString {
    Field(KEY_PARENTS, Array(W16, Cut16(|s.parents|)), [])
  }

  function ParentsBytes(s: CSpan): ByteString {
    if |s.parents| > 0 then ParentsHeader(s) + IdsWire(s.parents) else []
  }

  /** Everything up to the optional fields. */
  function CoreBytes(s: CSpan): ByteString {
    MapHeader(s) + IdField(KEY_ID, s.id) + StrField(KEY_DESC, s.desc) + U64Field(KEY_BEGIN, s.beginMs)
    + U64Field(KEY_END, s.endMs)
  }

  /** What `span_write_msgpack` emits. */
  function SpanBytes(s: CSpan): ByteString {
    CoreBytes(s) + TridBytes(s) + ParentsBytes(s)
  }

  method WriteField(c: Ctx, key: Byte, o: Object, data: ByteString) returns (ok: bool)
    requires c.Valid() && Canonical(o) && c.CanTake(|Field(key, o, data)|)
    modifies c`error, c`count, c`off, c`sent, c.buf
    ensures c.Valid() && c.sent == c.Kept(old(c.sent) + Field(key, o, data))
    ensures c.Fits(old(c.sent) + Field(key, o, data)) ==> ok && c.error == old(c.error)
  {
    hide WithData, Ctx.Valid, Ctx.Kept, Ctx.Fits;
    KeptChain(c, c.sent, WithData(Fixstr(1), [key]), WithData(o, data));
    ok := WriteWithData(c, Fixstr(1), [key]);
    if ok {
      ok := WriteWithData(c, o, data);
    }
  }

  method WriteCore(c: Ctx, s: CSpan) returns (ok: bool)
    requires c.Valid() && c.CanTake(|CoreBytes(s)|)
    modifies c`error, c`count, c`off, c`sent, c.buf
    ensures c.Valid() && c.sent == c.Kept(old(c.sent) + CoreBytes(s))
    ensures c.Fits(old(c.sent) + CoreBytes(s)) ==> ok && c.error == old(c.error)
  {
    hide Field, WithData, Ctx.Valid, Ctx.Kept, Ctx.Fits;
    var fa, fd := IdField(KEY_ID, s.id), StrField(KEY_DESC, s.desc);
    var fb, fe := U64Field(KEY_BEGIN, s.beginMs), U64Field(KEY_END, s.endMs);
    var p0 := MapHeader(s);
    var p1 := p0 + fa;
    var p2 := p1 + fd;
    var p3 := p2 + fb;
    KeptChain(c, c.sent, p0, fa);
    KeptChain(c, c.sent, p1, fd);
    KeptChain(c, c.sent, p2, fb);
    KeptChain(c, c.sent, p3, fe);
    ok := WriteWithData(c, Map(W16, MapSize(s)), []);
    if ok {
      ok := WriteField(c, KEY_ID, BinObject(SPAN_ID_BYTES), IdBytes(s.id));
    }
    if ok {
      ok := WriteField(c, KEY_DESC, Str(W16, Cut16(|s.desc|)), s.desc[..Cut16(|s.desc|)]);
    }
    if ok {
      ok := WriteField(c, KEY_BEGIN, Uint(W64, s.beginMs), []);
    }
    if ok {
      ok := WriteField(c, KEY_END, Uint(W64, s.endMs), []);
    }
  }

  method WriteParents(c: Ctx, s: CSpan) returns (ok: bool)
    requires |s.parents| > 0 && c.Valid() && c.CanTake(|ParentsBytes(s)|)
    modifies c`error, c`count, c`off, c`sent, c.buf
    ensures c.Valid() && c.sent == c.Kept(old(c.sent) + ParentsBytes(s))
    ensures c.Fits(old(c.sent) + ParentsBytes(s)) ==> ok && c.error == old(c.error)
  {
    hide Field, IdWire, Ctx.Valid, Ctx.Kept, Ctx.Fits;
    ghost var was, head := c.sent, ParentsHeader(s);
    ok := WriteField(c, KEY_PARENTS, Array(W16, Cut16(|s.parents|)), []);
    var i := 0;
    assert head + IdsWire(s.parents[..0]) == head;
    while ok && i < |s.parents|
      invariant 0 <= i <= |s.parents| && c.Valid()
      invariant c.sent == c.Kept(was + (head + IdsWire(s.parents[..i])))
      invariant c.Fits(was + (head + IdsWire(s.parents[..i]))) ==> ok && c.error == old(c.error)
    {
      NextParent(c, was, s, i);
      ok := WriteId(c, s.parents[i]);
      i := i + 1;
    }
    AllParents(c, was, s, i);
  }

  lemma NextParent(c: Ctx, was: ByteString, s: CSpan, i: nat)
    requires i < |s.parents| && c.sent == c.Kept(was + (ParentsHeader(s) + IdsWire(s.parents[..i])))
    requires c.kind.Unchecked? ==> c.base + |was| + |ParentsBytes(s)| <= c.buf.Length
    ensures var next := was + (ParentsHeader(s) + IdsWire(s.parents[..i + 1]));
            c.Kept(c.sent + IdWire(s.parents[i])) == c.Kept(next) &&
            (c.Fits(next) ==>
               c.Fits(c.sent + IdWire(s.parents[i])) &&
               c.Fits(was + (ParentsHeader(s) + IdsWire(s.parents[..i]))))
    ensures c.CanTake(|IdWire(s.parents[i])|)
  {
    hide Field, IdWire;
    NextId(s.parents, i);
    var done, id := ParentsHeader(s) + IdsWire(s.parents[..i]), IdWire(s.parents[i]);
    KeptChain(c, was, done, id);
    assert done + id == ParentsHeader(s) + IdsWire(s.parents[..i + 1]);
  }

  lemma AllParents(c: Ctx, was: ByteString, s: CSpan, i: nat)
    requires i <= |s.parents| && |s.parents| > 0
    ensures var done := was + (ParentsHeader(s) + IdsWire(s.parents[..i]));
            (i == |s.parents| || !c.Fits(done) ==> c.Kept(done) == c.Kept(was + ParentsBytes(s))) &&
            (c.Fits(was + ParentsBytes(s)) ==> c.Fits(done))
  {
    hide Field, IdWire, IdsWire;
    IdsSplit(s.parents, i);
    var head := ParentsHeader(s);
    KeptChain(c, was, head + IdsWire(s.parents[..i]), IdsWire(s.parents[i..]));
    assert head + IdsWire(s.parents[..i]) + IdsWire(s.parents[i..]) == ParentsBytes(s);
    if i == |s.parents| {
      assert s.parents[..i] == s.parents;
    }
  }

  lemma NextId(ids: seq<CId>, i: nat)
    requires i < |ids|
    ensures IdsWire(ids[..i + 1]) == IdsWire(ids[..i]) + IdWire(ids[i])
    ensures |IdsWire(ids[..i + 1])| <= |IdsWire(ids)|
  {
    assert ids[..i + 1][..i] == ids[..i];
    IdsSplit(ids, i + 1);
  }

  lemma {:induction false} IdsSplit(ids: seq<CId>, i: nat)
    requires i <= |ids|
    ensures IdsWire(ids) == IdsWire(ids[..i]) + IdsWire(ids[i..])
    decreases |ids|
  {
    hide IdWire;
    if i == |ids| {
      assert ids[..i] == ids;
    } else {
      var n := |ids| - 1;
      IdsSplit(ids[..n], i);
      assert ids[..n][..i] == ids[..i] && ids[..n][i..] == ids[i..][..n - i] && ids[i..][n - i] == ids[n];
    }
  }

  /**
   * `span_write_msgpack`. Over any context with room it emits `SpanBytes`; so the counter's
   * count is the number of bytes the copying writer emits.
   */
  method WriteSpan(c: Ctx, s: CSpan) returns (ok: bool)
    requires c.Valid() && c.CanTake(|SpanBytes(s)|)
    modifies c`error, c`count, c`off, c`sent, c.buf
    ensures c.Valid() && c.sent == c.Kept(old(c.sent) + SpanBytes(s))
    ensures c.Fits(old(c.sent) + SpanBytes(s)) ==> ok && c.error == old(c.error)
  {
    hide CoreBytes, StrField, ParentsBytes, Ctx.Valid, Ctx.Kept, Ctx.Fits;
    var core, trid, parents := CoreBytes(s), TridBytes(s), ParentsBytes(s);
    KeptChain(c, c.sent, core, trid);
    KeptChain(c, c.sent, core + trid, parents);
    ok := WriteCore(c, s);
    assert s.trid.None? ==> core + trid == core;
    if ok && s.trid.Some? {
      ok := WriteTrid(c, s.trid.value);
    }
    if |s.parents| > 0 {
      if ok {
        ok := WriteParents(c, s);
      }
    } else {
      NoParents(s);
      assert core + trid + parents == core + trid;
    }
  }

  lemma NoParents(s: CSpan)
    requires |s.parents| == 0
    ensures ParentsBytes(s) == []
  {
  }

  method WriteTrid(c: Ctx, trid: ByteString) returns (ok: bool)
    requires c.Valid() && c.CanTake(|StrField(KEY_TRID, trid)|)
    modifies c`error, c`count, c`off, c`sent, c.buf
    ensures c.Valid() && c.sent == c.Kept(old(c.sent) + StrField(KEY_TRID, trid))
    ensures c.Fits(old(c.sent) + StrField(KEY_TRID, trid)) ==> ok && c.error == old(c.error)
  {
    hide Field, Ctx.Valid;
    ok := WriteField(c, KEY_TRID, Str(W16, Cut16(|trid|)), trid[..Cut16(|trid|)]);
  }
}
