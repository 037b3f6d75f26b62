/**
 * The reader of serialized spans (test/span_util.c) on complete input, and the exact condition
 * under which a span that the client writes reads back as the same span.
 */
module SpanReader {
  import opened Bytes
  import opened Spans
  import opened Options
  import opened Msgpack
  import opened SpanCodec

  const KEY_BUFFER := 8

  function EmptySpan(): CSpan {
    CSpan([], 0, 0, CId(0, 0), None, [])
  }

  /** `cmp_read_malloced_string`: any length but zero. */
  function ParseString(s: ByteString): Option<(ByteString, ByteString)> {
    match Parse(s)
    case None => None
    case Some((o, rest)) =>
      match StrSize(o)
      case None => None
      case Some(n) => TakeData(n, rest)
  }

  /** `span_read_key_str`, and the letter its caller looks at. */
  function ParseKey(s: ByteString): Option<(Byte, ByteString)> {
    match ParseString(s)
    case Some((k, rest)) => if 0 < |k| < KEY_BUFFER then Some((k[0], rest)) else None
    case None => None
  }

  /** `cmp_read_u64`: no other integer type will do. */
  function ParseU64(s: ByteString): Option<(UInt64, ByteString)> {
    match Parse(s)
    case Some((Uint(W64, u), rest)) => Some((u, rest))
    case _ => None
  }

  function ParseIds(n: nat, s: ByteString): Option<(seq<CId>, ByteString)> {
    if n == 0 then Some(([], s))
    else
      match ParseId(s)
      case None => None
      case Some((id, rest)) =>
        match ParseIds(n - 1, rest)
        case None => None
        case Some((ids, end)) => Some(([id] + ids, end))
  }

  /** `span_parse_msgpack_parents`. */
  function ParseParents(s: ByteString): Option<(seq<CId>, ByteString)> {
    match Parse(s)
    case Some((Fixarray(n), rest)) => ParseIds(n, rest)
    case Some((Array(_, n), rest)) => ParseIds(n, rest)
    case _ => None
  }

  /** One key and its value. */
  function ParseField(s: ByteString, acc: CSpan): Option<(CSpan, ByteString)> {
    match ParseKey(s)
    case None => None
    case Some((key, rest)) =>
      if key == KEY_ID then
        match ParseId(rest) case Some((id, end)) => Some((acc.(id := id), end)) case None => None
      else if key == KEY_DESC then
        match ParseString(rest) case Some((d, end)) => Some((acc.(desc := d), end)) case None => None
      else if key == KEY_BEGIN then
        match ParseU64(rest) case Some((x, end)) => Some((acc.(beginMs := x), end)) case None => None
      else if key == KEY_END then
        match ParseU64(rest) case Some((x, end)) => Some((acc.(endMs := x), end)) case None => None
      else if key == KEY_TRID then
        match ParseString(rest) case Some((r, end)) => Some((acc.(trid := Some(r)), end)) case None => None
      else if key == KEY_PARENTS then
        match ParseParents(rest) case Some((ps, end)) => Some((acc.(parents := ps), end)) case None => None
      else None
  }

  function ParseFields(n: nat, s: ByteString, acc: CSpan): Option<(CSpan, ByteString)> {
    if n == 0 then Some((acc, s))
    else
      match ParseField(s, acc)
      case None => None
      case Some((acc', rest)) => ParseFields(n - 1, rest, acc')
  }

  /** `span_read_msgpack`. */
  function ParseSpan(s: ByteString): Option<(CSpan, ByteString)> {
    match Parse(s)
    case Some((Fixmap(n), rest)) => ParseFields(n, rest, EmptySpan())
    case Some((Map(_, n), rest)) => ParseFields(n, rest, EmptySpan())
    case _ => None
  }

  // ---------------------------------------------------------------- one field

  lemma ReadsKey(key: Byte, o: Object, data: ByteString, rest: ByteString)
    requires Canonical(o)
    ensures ParseKey(Field(key, o, data) + rest) == Some((key, WithData(o, data) + rest))
  {
    hide Parse, WithData;
    HeaderThenData(Fixstr(1), [key], WithData(o, data) + rest);
    assert Field(key, o, data) + rest == WithData(Fixstr(1), [key]) + (WithData(o, data) + rest);
  }

  /** Any string of one to seven bytes will do for a key; only its first byte counts. */
  lemma KeyReadIff(k: ByteString, rest: ByteString)
    requires |k| < 0x1_0000_0000
    ensures ParseKey(StrBytes(k) + rest) == if 1 <= |k| <= 7 then Some((k[0], rest)) else None
  {
    hide Parse, WithData;
    HeaderThenData(StrObject(|k|), k, rest);
  }

  lemma ReadsId(key: Byte, id: CId, rest: ByteString, acc: CSpan)
    requires key == KEY_ID
    ensures ParseField(IdField(key, id) + rest, acc) == Some((acc.(id := id), rest))
  {
    hide Field, ParseKey, ParseId;
    ReadsKey(key, BinObject(SPAN_ID_BYTES), IdBytes(id), rest);
    IdRoundTrip(id, rest);
  }

  lemma ReadsU64(key: Byte, x: UInt64, rest: ByteString, acc: CSpan)
    requires key == KEY_BEGIN || key == KEY_END
    ensures ParseField(U64Field(key, x) + rest, acc) ==
            Some((if key == KEY_BEGIN then acc.(beginMs := x) else acc.(endMs := x), rest))
  {
    hide Field, ParseKey, Parse;
    ReadsKey(key, Uint(W64, x), [], rest);
    HeaderThenData(Uint(W64, x), [], rest);
    assert [] + rest == rest;
  }

  /** What is left of a string whose length is cut to 16 bits. */
  function CutString(s: ByteString): ByteString {
    s[..Cut16(|s|)]
  }

  lemma ReadsString(key: Byte, d: ByteString, rest: ByteString, acc: CSpan)
    requires key == KEY_DESC || key == KEY_TRID
    ensures ParseField(StrField(key, d) + rest, acc) ==
            if CutString(d) == [] then None
            else Some((if key == KEY_DESC then acc.(desc := CutString(d)) else acc.(trid := Some(CutString(d))), rest))
  {
    hide Field, ParseKey, Parse;
    ReadsKey(key, Str(W16, Cut16(|d|)), CutString(d), rest);
    HeaderThenData(Str(W16, Cut16(|d|)), CutString(d), rest);
  }

  lemma {:induction false} ReadsIds(ids: seq<CId>, n: nat, rest: ByteString)
    requires n <= |ids|
    ensures ParseIds(n, IdsWire(ids) + rest) == Some((ids[..n], IdsWire(ids[n..]) + rest))
    decreases n
  {
    hide ParseId, IdWire, IdsWire;
    if n == 0 {
      assert ids[0..] == ids;
    } else {
      FirstId(ids, rest);
      IdRoundTrip(ids[0], IdsWire(ids[1..]) + rest);
      ReadsIds(ids[1..], n - 1, rest);
      assert ids[1..][n - 1..] == ids[n..] && [ids[0]] + ids[1..][..n - 1] == ids[..n];
    }
  }

  lemma FirstId(ids: seq<CId>, rest: ByteString)
    requires |ids| > 0
    ensures IdsWire(ids) + rest == IdWire(ids[0]) + (IdsWire(ids[1..]) + rest)
  {
    hide IdWire, IdsWire;
    IdsSplit(ids, 1);
    OneId(ids[0]);
    assert ids[..1] == [ids[0]];
  }

  lemma OneId(id: CId)
    ensures IdsWire([id]) == IdWire(id)
  {
    hide IdWire;
    assert [id][..0] == [];
  }

  lemma ReadsParents(s: CSpan, rest: ByteString, acc: CSpan)
    requires |s.parents| > 0
    ensures var n := Cut16(|s.parents|);
            ParseField(ParentsBytes(s) + rest, acc) ==
            Some((acc.(parents := s.parents[..n]), IdsWire(s.parents[n..]) + rest))
  {
    hide Field, ParseKey, Parse, IdsWire, ParseIds;
    var n := Cut16(|s.parents|);
    var tail := IdsWire(s.parents) + rest;
    ReadsKey(KEY_PARENTS, Array(W16, n), [], tail);
    HeaderThenData(Array(W16, n), [], tail);
    assert [] + tail == tail;
    ReadsIds(s.parents, n, rest);
    assert ParentsBytes(s) + rest == ParentsHeader(s) + tail;
  }

  // ---------------------------------------------------------------- the whole span

  /** The span as the wire can carry it: lengths and the number of parents are cut to 16 bits. */
  function CutSpan(s: CSpan): CSpan {
    s.(desc := CutString(s.desc),
       trid := if s.trid.Some? then Some(CutString(s.trid.value)) else None,
       parents := s.parents[..Cut16(|s.parents|)])
  }

  /** No string arrives empty. */
  predicate Readable(s: CSpan) {
    CutString(s.desc) != [] && (s.trid.Some? ==> CutString(s.trid.value) != [])
  }

  /** The four fields that every span has. */
  lemma ReadsCore(s: CSpan, n: nat, tail: ByteString)
    ensures var fs := IdField(KEY_ID, s.id) + StrField(KEY_DESC, s.desc) + U64Field(KEY_BEGIN, s.beginMs)
                      + U64Field(KEY_END, s.endMs);
            ParseFields(n + 4, fs + tail, EmptySpan()) ==
            if CutString(s.desc) == [] then None
            else ParseFields(n, tail, CSpan(CutString(s.desc), s.beginMs, s.endMs, s.id, None, []))
  {
    hide ParseField, IdField, StrField, U64Field, CutString;
    var fa, fd := IdField(KEY_ID, s.id), StrField(KEY_DESC, s.desc);
    var fb, fe := U64Field(KEY_BEGIN, s.beginMs), U64Field(KEY_END, s.endMs);
    var s0 := EmptySpan();
    var s1 := s0.(id := s.id);
    var s2 := s1.(desc := CutString(s.desc));
    var s3 := s2.(beginMs := s.beginMs);
    var t3 := fe + tail;
    var t2 := fb + t3;
    var t1 := fd + t2;
    assert fa + fd + fb + fe + tail == fa + t1;
    ReadsId(KEY_ID, s.id, t1, s0);
    ReadsString(KEY_DESC, s.desc, t2, s1);
    ReadsU64(KEY_BEGIN, s.beginMs, t3, s2);
    ReadsU64(KEY_END, s.endMs, tail, s3);
    assert ParseFields(n + 4, fa + t1, s0) == ParseFields(n + 3, t1, s1);
    if CutString(s.desc) != [] {
      assert ParseFields(n + 3, t1, s1) == ParseFields(n + 2, t2, s2);
      assert ParseFields(n + 2, t2, s2) == ParseFields(n + 1, t3, s3);
    }
  }

  /** The optional fields, after the others. */
  lemma ReadsTail(s: CSpan, acc: CSpan, rest: ByteString)
    requires acc.trid == None && acc.parents == []
    ensures var n := Cut16(|s.parents|);
            ParseFields(MapSize(s) - 4, TridBytes(s) + (ParentsBytes(s) + rest), acc) ==
            if s.trid.Some? && CutString(s.trid.value) == [] then None
            else Some((acc.(trid := CutSpan(s).trid, parents := s.parents[..n]), IdsWire(s.parents[n..]) + rest))
  {
    hide ParseField, StrField, CutString, IdsWire;
    var ps := ParentsBytes(s) + rest;
    var acc' := if s.trid.Some? then acc.(trid := Some(CutString(s.trid.value))) else acc;
    NoIds();
    if s.trid.Some? {
      ReadsString(KEY_TRID, s.trid.value, ps, acc);
    } else {
      assert TridBytes(s) + ps == ps;
    }
    if |s.parents| > 0 {
      ReadsParents(s, rest, acc');
      assert ParseFields(1, ps, acc') == ParseFields(0, ParseField(ps, acc').value.1, ParseField(ps, acc').value.0);
    } else {
      assert ps == rest && IdsWire(s.parents[0..]) + rest == rest;
    }
  }

  lemma NoIds()
    ensures IdsWire([]) == []
  {
  }

  /** What the reader makes of a written span, whatever follows it. */
  lemma ReadsSpan(s: CSpan, rest: ByteString)
    ensures ParseSpan(SpanBytes(s) + rest) ==
            if Readable(s) then Some((CutSpan(s), IdsWire(s.parents[Cut16(|s.parents|)..]) + rest)) else None
  {
    hide Parse, ParseFields, IdField, StrField, U64Field, CutString, IdsWire, WithData;
    var fs := IdField(KEY_ID, s.id) + StrField(KEY_DESC, s.desc) + U64Field(KEY_BEGIN, s.beginMs)
              + U64Field(KEY_END, s.endMs);
    var tail := TridBytes(s) + (ParentsBytes(s) + rest);
    Regroup(MapHeader(s), IdField(KEY_ID, s.id), StrField(KEY_DESC, s.desc), U64Field(KEY_BEGIN, s.beginMs),
            U64Field(KEY_END, s.endMs), TridBytes(s), ParentsBytes(s), rest);
    HeaderThenData(Map(W16, MapSize(s)), [], fs + tail);
    assert [] + (fs + tail) == fs + tail;
    ReadsCore(s, MapSize(s) - 4, tail);
    ReadsTail(s, CSpan(CutString(s.desc), s.beginMs, s.endMs, s.id, None, []), rest);
  }

  lemma Regroup(m: ByteString, a: ByteString, d: ByteString, b: ByteString, e: ByteString,
                t: ByteString, p: ByteString, rest: ByteString)
    ensures (m + a + d + b + e) + t + p + rest == m + ((a + d + b + e) + (t + (p + rest)))
  {
  }

  /** The lengths that survive the trip. */
  predicate Carried(s: CSpan) {
    0 < |s.desc| < 0x1_0000 && (s.trid.Some? ==> 0 < |s.trid.value| < 0x1_0000) && |s.parents| < 0x1_0000
  }

  /**
   * A span reads back as itself, with what follows untouched, exactly if its description and
   * tracer id are neither empty nor 64 kB long and it has fewer than 65536 parents.
   */
  lemma SpanRoundTripIff(s: CSpan, rest: ByteString)
    ensures ParseSpan(SpanBytes(s) + rest) == Some((s, rest)) <==> Carried(s)
  {
    hide SpanBytes, ParseSpan;
    ReadsSpan(s, rest);
    CutIsIdentityIff(s.desc);
    if s.trid.Some? {
      CutIsIdentityIff(s.trid.value);
    }
    if Carried(s) {
      assert s.parents[..|s.parents|] == s.parents && s.parents[|s.parents|..] == [];
      assert IdsWire([]) + rest == rest;
    }
  }

  lemma CutIsIdentityIff(d: ByteString)
    ensures CutString(d) == d && d != [] <==> 0 < |d| < 0x1_0000
  {
    assert |d| < 0x1_0000 ==> CutString(d) == d;
  }
}
