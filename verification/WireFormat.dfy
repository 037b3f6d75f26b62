/** The bytes of a span on the wire, written out (core/span.c). */
module WireFormat {
  import opened Bytes
  import opened Spans
  import opened Keys
  import opened Msgpack
  import opened SpanCodec

  /** A key: a string of one letter. */
  function Letter(c: char): ByteString
    requires c as int < 128
  {
    [0xa1, c as int]
  }

  /** A number in two bytes, most significant first, cut to 16 bits. */
  function TwoBytes(n: nat): ByteString {
    [n / 256 % 256, n % 256]
  }

  /** A str16 of as many bytes as its length in 16 bits says. */
  function Text(s: ByteString): ByteString {
    [0xda] + TwoBytes(|s|) + s[..|s| % 0x1_0000]
  }

  /** A uint64. */
  function Number64(x: UInt64): ByteString {
    [0xcf] + U64ToSlice(x)
  }

  /** A bin8 of sixteen bytes. */
  function IdArray(id: CId): ByteString {
    [0xc4, 16] + U64ToSlice(id.high) + U64ToSlice(id.low)
  }

  function IdArrays(ids: seq<CId>): ByteString {
    if |ids| == 0 then [] else IdArrays(ids[..|ids| - 1]) + IdArray(ids[|ids| - 1])
  }

  /** A map16 of four to six entries: id, description, begin, end, tracer id if any, parents if any. */
  function Layout(s: CSpan): ByteString {
    var entries := (if s.trid.None? then 4 else 5) + if s.parents == [] then 0 else 1;
    [0xde, 0, entries]
    + (Letter('a') + IdArray(s.id))
    + (Letter('d') + Text(s.desc))
    + (Letter('b') + Number64(s.beginMs))
    + (Letter('e') + Number64(s.endMs))
    + (if s.trid.None? then [] else Letter('r') + Text(s.trid.value))
    + (if s.parents == [] then [] else Letter('p') + [0xdc] + TwoBytes(|s.parents|) + IdArrays(s.parents))
  }

  lemma Number16(n: UInt16)
    ensures Number(W16, n) == TwoBytes(n)
  {
    hide Value;
    NumberInverse(W16, n, TwoBytes(n));
    ValueOfTwo(n);
    ValueInjective(Number(W16, n), TwoBytes(n));
  }

  lemma ValueOfTwo(n: UInt16)
    ensures Value(TwoBytes(n)) == n
  {
    var t := TwoBytes(n);
    assert t[..1] == [n / 256 % 256] && t[..1][..0] == [];
    assert Value(t[..1]) == n / 256;
  }

  lemma NumberOf64(x: UInt64)
    ensures Number(W64, x) == U64ToSlice(x)
  {
    hide Value, U64ToSlice;
    NumberInverse(W64, x, U64ToSlice(x));
    ValueOfSlice(x);
    ValueInjective(Number(W64, x), U64ToSlice(x));
  }

  lemma LetterLayout(key: Byte, c: char)
    requires c as int < 128 && key == c as int
    ensures WithData(Fixstr(1), [key]) == Letter(c)
  {
  }

  lemma StrLayout(key: Byte, c: char, s: ByteString)
    requires c as int < 128 && key == c as int
    ensures StrField(key, s) == Letter(c) + Text(s)
  {
    hide Number, FromValue;
    LetterLayout(key, c);
    Number16(Cut16(|s|));
    CutTwoBytes(|s|);
  }

  lemma CutTwoBytes(n: nat)
    ensures TwoBytes(Cut16(n)) == TwoBytes(n)
  {
    var m := n % 0x1_0000;
    assert n == n / 0x1_0000 * 0x1_0000 + m;
    assert n / 256 == n / 0x1_0000 * 256 + m / 256;
  }

  lemma U64Layout(key: Byte, c: char, x: UInt64)
    requires c as int < 128 && key == c as int
    ensures U64Field(key, x) == Letter(c) + Number64(x)
  {
    hide Number, FromValue, U64ToSlice;
    LetterLayout(key, c);
    NumberOf64(x);
  }

  lemma IdWireLayout(id: CId)
    ensures IdWire(id) == IdArray(id)
  {
    hide FromValue, U64ToSlice, Number;
    ByteNumber(16);
    assert Encode(BinObject(16)).value == [0xc4] + Number(W8, 16);
  }

  lemma IdLayout(key: Byte, c: char, id: CId)
    requires c as int < 128 && key == c as int
    ensures IdField(key, id) == Letter(c) + IdArray(id)
  {
    hide IdArray, IdBytes, WithData, Letter;
    LetterLayout(key, c);
    IdWireLayout(id);
  }

  lemma {:induction false} IdsLayout(ids: seq<CId>)
    ensures IdsWire(ids) == IdArrays(ids)
    decreases |ids|
  {
    hide IdWire, IdArray;
    if |ids| > 0 {
      IdsLayout(ids[..|ids| - 1]);
      IdWireLayout(ids[|ids| - 1]);
    }
  }

  lemma ParentsLayout(s: CSpan)
    requires s.parents != []
    ensures ParentsBytes(s) == Letter('p') + [0xdc] + TwoBytes(|s.parents|) + IdArrays(s.parents)
  {
    hide Number, FromValue, IdsWire, IdArrays;
    LetterLayout(KEY_PARENTS, 'p');
    Number16(Cut16(|s.parents|));
    CutTwoBytes(|s.parents|);
    IdsLayout(s.parents);
  }

  lemma MapLayout(s: CSpan)
    ensures MapHeader(s) == [0xde, 0, (if s.trid.None? then 4 else 5) + if s.parents == [] then 0 else 1]
  {
    hide Number, FromValue;
    Number16(MapSize(s));
  }

  /** What `span_write_msgpack` emits, byte for byte. */
  lemma SpanLayout(s: CSpan)
    ensures SpanBytes(s) == Layout(s)
  {
    hide MapHeader, IdField, StrField, U64Field, ParentsBytes, Letter, IdArray, Text, Number64, IdArrays, TwoBytes;
    MapLayout(s);
    IdLayout(KEY_ID, 'a', s.id);
    StrLayout(KEY_DESC, 'd', s.desc);
    U64Layout(KEY_BEGIN, 'b', s.beginMs);
    U64Layout(KEY_END, 'e', s.endMs);
    if s.trid.Some? {
      StrLayout(KEY_TRID, 'r', s.trid.value);
    }
    if s.parents != [] {
      ParentsLayout(s);
    } else {
      NoParents(s);
    }
  }
}
