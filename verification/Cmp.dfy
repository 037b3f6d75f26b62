/**
 * The codec's writers and readers over a context (util/cmp.c). A writer that has room emits
 * exactly the bytes that module Msgpack defines; a checked buffer that runs out keeps as much
 * of them as fits. A reader of a complete header consumes exactly that header.
 */
module Cmp {
  import opened Bytes
  import opened Spans
  import opened Options
  import opened Msgpack
  import opened Contexts

  // ---------------------------------------------------------------- writing

  /** One write call; it fails only if the context took nothing. */
  method WritePart(c: Ctx, data: ByteString, err: Error) returns (ok: bool)
    requires c.Valid() && c.CanTake(|data|) && |data| > 0
    modifies c`error, c`count, c`off, c`sent, c.buf
    ensures c.Valid() && c.sent == c.Kept(old(c.sent) + data)
    ensures c.Fits(old(c.sent) + data) ==> ok
    ensures c.error == if ok then old(c.error) else err
  {
    var n := c.Write(data);
    ok := n > 0;
    if !ok {
      c.error := err;
    }
  }

  /** A type marker and then a number or a size; most writers of the codec have this body. */
  method WriteMarked(c: Ctx, marker: Byte, payload: ByteString, err: Error) returns (ok: bool)
    requires c.Valid() && |payload| > 0 && c.CanTake(1 + |payload|)
    modifies c`error, c`count, c`off, c`sent, c.buf
    ensures c.Valid() && c.sent == c.Kept(old(c.sent) + ([marker] + payload))
    ensures c.Fits(old(c.sent) + ([marker] + payload)) ==> ok && c.error == old(c.error)
  {
    KeptChain(c, c.sent, [marker], payload);
    ok := WritePart(c, [marker], TYPE_MARKER_WRITING_ERROR);
    if ok {
      ok := WritePart(c, payload, err);
    }
  }

  /** A small value that shares its byte with the marker. */
  method WriteFixed(c: Ctx, fits: bool, b: int) returns (ok: bool)
    requires c.Valid() && (fits ==> 0 <= b < 256 && c.CanTake(1))
    modifies c`error, c`count, c`off, c`sent, c.buf
    ensures c.Valid()
    ensures !fits ==> !ok && c.sent == old(c.sent) && c.error == INPUT_VALUE_TOO_LARGE_ERROR
    ensures fits ==> c.sent == c.Kept(old(c.sent) + [b])
    ensures fits && c.Fits(old(c.sent) + [b]) ==> ok && c.error == old(c.error)
  {
    if fits {
      ok := WritePart(c, [b], FIXED_VALUE_WRITING_ERROR);
    } else {
      c.error := INPUT_VALUE_TOO_LARGE_ERROR;
      ok := false;
    }
  }

  /** The writers of the types whose header is one byte. */
  method WriteShort(c: Ctx, o: Object) returns (ok: bool)
    requires c.Valid() && IsObject(o) && IsShort(o) && c.CanTake(1)
    modifies c`error, c`count, c`off, c`sent, c.buf
    ensures c.Valid()
    ensures Encode(o).None? ==> !ok && c.sent == old(c.sent) && c.error == INPUT_VALUE_TOO_LARGE_ERROR
    ensures Encode(o).Some? ==> c.sent == c.Kept(old(c.sent) + Encode(o).value)
    ensures Encode(o).Some? && c.Fits(old(c.sent) + Encode(o).value) ==> ok && c.error == old(c.error)
  {
    hide Ctx.Valid, Ctx.Kept, Number, FromValue;
    match o
    case PositiveFixnum(v) => ok := WriteFixed(c, v <= 0x7f, v);
    case NegativeFixnum(v) => ok := WriteFixed(c, -32 <= v <= -1, 0x100 + v);
    case Fixmap(n) => ok := WriteFixed(c, n % 0x100 <= 0xf, 0x80 + n % 0x100);
    case Fixarray(n) => ok := WriteFixed(c, n % 0x100 <= 0xf, 0x90 + n % 0x100);
    case Fixstr(n) => ok := WriteFixed(c, n % 0x100 <= 0x1f, 0xa0 + n % 0x100);
    case Nil => ok := WritePart(c, [0xc0], TYPE_MARKER_WRITING_ERROR);
    case Boolean(b) => ok := WritePart(c, [if b then 0xc3 else 0xc2], TYPE_MARKER_WRITING_ERROR);
  }

  predicate IsShort(o: Object) {
    o.PositiveFixnum? || o.NegativeFixnum? || o.Fixmap? || o.Fixarray? || o.Fixstr? || o.Nil? || o.Boolean?
  }

  /** The type marker of a longer header, and the error its writer reports if the number does not go out. */
  function LongHeader(o: Object, was: Error): (Byte, ByteString, Error)
    requires IsObject(o) && !IsShort(o)
  {
    match o
    case Bin(w, n) => (0xc4 + w.Log(), Number(w, n), LENGTH_WRITING_ERROR)
    case Ext(w, _, n) => (0xc7 + w.Log(), Number(w, n), LENGTH_WRITING_ERROR)
    case Float(b) => (0xca, Number(W32, b), was)
    case Double(b) => (0xcb, Number(W64, b), was)
    case Uint(w, u) => (0xcc + w.Log(), Number(w, u), was)
    case Sint(w, s) => (0xd0 + w.Log(), Number(w, s), was)
    case Fixext(k, t) => (0xd4 + k, Number(W8, t), EXT_TYPE_WRITING_ERROR)
    case Str(w, n) => (0xd9 + w.Log(), Number(w, n), LENGTH_WRITING_ERROR)
    case Array(w, n) => (0xdb + w.Log(), Number(w, n), LENGTH_WRITING_ERROR)
    case Map(w, n) => (0xdd + w.Log(), Number(w, n), LENGTH_WRITING_ERROR)
  }

  lemma LongHeaderEncodes(o: Object, was: Error)
    requires IsObject(o) && !IsShort(o)
    ensures var (m, p, _) := LongHeader(o, was);
            |p| > 0 && Encode(o) == Some(if o.Ext? then [m] + p + Number(W8, o.extType) else [m] + p)
  {
    hide Number, FromValue;
  }

  /** `cmp_write_object`, and with it the writer of each single type. */
  method WriteObject(c: Ctx, o: Object) returns (ok: bool)
    requires c.Valid() && IsObject(o) && c.CanTake(if Encode(o).Some? then |Encode(o).value| else 1)
    modifies c`error, c`count, c`off, c`sent, c.buf
    ensures c.Valid()
    ensures Encode(o).None? ==> !ok && c.sent == old(c.sent) && c.error == INPUT_VALUE_TOO_LARGE_ERROR
    ensures Encode(o).Some? ==> c.sent == c.Kept(old(c.sent) + Encode(o).value) && Marks(Encode(o).value[0], o)
    ensures Encode(o).Some? && c.Fits(old(c.sent) + Encode(o).value) ==> ok && c.error == old(c.error)
  {
    hide Ctx.Valid, Number, FromValue, Encode, LongHeader, IsShort, IsObject, Marks;
    if Encode(o).Some? {
      EncodeMarks(o);
    }
    if IsShort(o) {
      ok := WriteShort(c, o);
      return;
    }
    var (m, p, err) := LongHeader(o, c.error);
    LongHeaderEncodes(o, c.error);
    ok := WriteMarked(c, m, p, err);
    if o.Ext? {
      var t := Number(W8, o.extType);
      KeptChain(c, old(c.sent), [m] + p, t);
      if ok {
        ok := WritePart(c, t, EXT_TYPE_WRITING_ERROR);
      }
    }
  }

  /** `cmp_write_uint`. */
  method WriteUint(c: Ctx, u: UInt64) returns (ok: bool)
    requires c.Valid() && c.CanTake(|IntBytes(u)|)
    modifies c`error, c`count, c`off, c`sent, c.buf
    ensures c.Valid() && c.sent == c.Kept(old(c.sent) + IntBytes(u))
    ensures c.Fits(old(c.sent) + IntBytes(u)) ==> ok && c.error == old(c.error)
  {
    hide Ctx.Valid, Ctx.Kept, Number, FromValue;
    if u <= 0x7f {
      ok := WriteObject(c, PositiveFixnum(u));
    } else if u <= 0xff {
      ok := WriteObject(c, Uint(W8, u));
    } else if u <= 0xffff {
      ok := WriteObject(c, Uint(W16, u));
    } else if u <= 0xffff_ffff {
      ok := WriteObject(c, Uint(W32, u));
    } else {
      ok := WriteObject(c, Uint(W64, u));
    }
  }

  /** `cmp_write_sint`. */
  method WriteSint(c: Ctx, d: Int64) returns (ok: bool)
    requires c.Valid() && c.CanTake(|IntBytes(d)|)
    modifies c`error, c`count, c`off, c`sent, c.buf
    ensures c.Valid() && c.sent == c.Kept(old(c.sent) + IntBytes(d))
    ensures c.Fits(old(c.sent) + IntBytes(d)) ==> ok && c.error == old(c.error)
  {
    hide Ctx.Valid, Ctx.Kept, Number, FromValue;
    if d >= 0 {
      ok := WriteUint(c, d);
    } else if d >= -32 {
      ok := WriteObject(c, NegativeFixnum(d));
    } else if d >= -0x80 {
      ok := WriteObject(c, Sint(W8, d));
    } else if d >= -0x8000 {
      ok := WriteObject(c, Sint(W16, d));
    } else if d >= -0x8000_0000 {
      ok := WriteObject(c, Sint(W32, d));
    } else {
      ok := WriteObject(c, Sint(W64, d));
    }
  }

  /** A header and then the bytes it announces, unless there are none. */
  method WriteWithData(c: Ctx, o: Object, data: ByteString) returns (ok: bool)
    requires c.Valid() && Canonical(o) && c.CanTake(|WithData(o, data)|)
    modifies c`error, c`count, c`off, c`sent, c.buf
    ensures c.Valid() && c.sent == c.Kept(old(c.sent) + WithData(o, data))
    ensures c.Fits(old(c.sent) + WithData(o, data)) ==> ok && c.error == old(c.error)
  {
    hide Ctx.Valid, Encode, Canonical;
    PayloadOf(o);
    KeptChain(c, c.sent, Encode(o).value, data);
    assert Encode(o).value + [] == Encode(o).value;
    ok := WriteObject(c, o);
    if ok && |data| > 0 {
      ok := WritePart(c, data, DATA_WRITING_ERROR);
    }
  }

  /** `cmp_write_str`. */
  method WriteStr(c: Ctx, data: ByteString) returns (ok: bool)
    requires |data| < 0x1_0000_0000 && c.Valid() && c.CanTake(|StrBytes(data)|)
    modifies c`error, c`count, c`off, c`sent, c.buf
    ensures c.Valid() && c.sent == c.Kept(old(c.sent) + StrBytes(data))
    ensures c.Fits(old(c.sent) + StrBytes(data)) ==> ok && c.error == old(c.error)
  {
    hide Ctx.Valid, Ctx.Kept, WithData;
    var size := |data|;
    if size <= 0x1f {
      ok := WriteWithData(c, Fixstr(size), data);
    } else if size <= 0xff {
      ok := WriteWithData(c, Str(W8, size), data);
    } else if size <= 0xffff {
      ok := WriteWithData(c, Str(W16, size), data);
    } else {
      ok := WriteWithData(c, Str(W32, size), data);
    }
  }

  /** `cmp_write_bin`. */
  method WriteBin(c: Ctx, data: ByteString) returns (ok: bool)
    requires |data| < 0x1_0000_0000 && c.Valid() && c.CanTake(|BinBytes(data)|)
    modifies c`error, c`count, c`off, c`sent, c.buf
    ensures c.Valid() && c.sent == c.Kept(old(c.sent) + BinBytes(data))
    ensures c.Fits(old(c.sent) + BinBytes(data)) ==> ok && c.error == old(c.error)
  {
    hide Ctx.Valid, Ctx.Kept, WithData;
    var size := |data|;
    if size <= 0xff {
      ok := WriteWithData(c, Bin(W8, size), data);
    } else if size <= 0xffff {
      ok := WriteWithData(c, Bin(W16, size), data);
    } else {
      ok := WriteWithData(c, Bin(W32, size), data);
    }
  }

  // ---------------------------------------------------------------- reading

  /** A number of the given width, over whatever its destination held before. */
  method ReadNumber(c: Ctx, w: Width, stale: ByteString, err: Error) returns (ok: bool, v: nat)
    requires c.Readable() && |stale| == w.Octets()
    modifies c`error, c`off
    ensures c.Readable() && v < w.Modulus()
    ensures |old(c.Unread())| >= w.Octets() ==>
              ok && v == Value(old(c.Unread())[..w.Octets()]) && c.Unread() == old(c.Unread())[w.Octets()..]
    ensures |old(c.Unread())| == 0 ==> !ok
    ensures c.error == if ok then old(c.error) else err
  {
    hide Value;
    var n, data := c.Read(stale);
    ok := n > 0;
    if !ok {
      c.error := err;
    }
    NumberInverse(w, 0, data);
    v := Value(data);
    assert |old(c.Unread())| >= w.Octets() ==> data == old(c.Unread())[..w.Octets()];
  }

  /**
   * `cmp_read_object`. On a complete header it succeeds; with no input, or with none where a
   * number or an extension type is due, it fails, and so it does on the unassigned marker 0xc1.
   */
  method ReadObject(c: Ctx, stale: ByteString) returns (ok: bool, o: Object)
    requires c.Readable() && |stale| == 8
    modifies c`error, c`off
    ensures c.Readable() && IsObject(o)
    ensures ok ==> |old(c.Unread())| > 0 && Marks(old(c.Unread())[0], o)
    ensures Parse(old(c.Unread())).Some? ==>
              ok && (o, c.Unread()) == Parse(old(c.Unread())).value && c.error == old(c.error)
    ensures |old(c.Unread())| == 0 ==> !ok && c.error == TYPE_MARKER_READING_ERROR
    ensures |old(c.Unread())| > 0 && old(c.Unread())[0] == 0xc1 ==> !ok && c.error == INVALID_TYPE_ERROR
    ensures |old(c.Unread())| == 1 && HeaderLength(old(c.Unread())[0]) > 1 ==>
              !ok && c.error == ReadError(old(c.Unread())[0])
    ensures LacksExtType(old(c.Unread())) ==> !ok && c.error == EXT_TYPE_READING_ERROR
  {
    hide Value, ObjectFrom, Marks;
    ghost var s := c.Unread();
    var m, v, t := 0, 0, 0;
    ok, m := ReadNumber(c, W8, stale[..1], TYPE_MARKER_READING_ERROR);
    o := Nil;
    if !ok {
      return;
    }
    OneByteValue(s);
    if m == 0xc1 {
      c.error := INVALID_TYPE_ERROR;
      ok := false;
      return;
    }
    if 0xc4 <= m <= 0xdf {
      var w := FieldWidth(m);
      ok, v := ReadNumber(c, w, stale[..w.Octets()], ReadError(m));
      assert Complete(s) ==> s[1..][..w.Octets()] == s[1..HeaderLength(m)][..w.Octets()];
      if ok && 0xc7 <= m <= 0xc9 {
        ghost var rest := c.Unread();
        ok, t := ReadNumber(c, W8, stale[..1], EXT_TYPE_READING_ERROR);
        if |rest| > 0 {
          OneByteValue(rest);
        }
      }
    }
    FromMarks(m, v, t);
    o := ObjectFrom(m, v, t);
  }

  /** An extension header that ends just before its type byte. */
  predicate LacksExtType(s: ByteString) {
    |s| > 0 && 0xc7 <= s[0] <= 0xc9 && |s| == HeaderLength(s[0]) - 1
  }

  /** The error that `cmp_read_object` reports when the number after a marker is missing. */
  function ReadError(m: Byte): Error {
    if 0xc4 <= m <= 0xc9 then LENGTH_READING_ERROR
    else if 0xd4 <= m <= 0xd8 then EXT_TYPE_READING_ERROR
    else DATA_READING_ERROR
  }

  /** The error by type: a missing extension type, length of a byte array or extension, or any other number. */
  lemma ReadErrorMeans(m: Byte, o: Object)
    requires IsObject(o) && Marks(m, o) && HeaderLength(m) > 1
    ensures ReadError(m) == if o.Fixext? then EXT_TYPE_READING_ERROR
                            else if o.Bin? || o.Ext? then LENGTH_READING_ERROR
                            else DATA_READING_ERROR
  {
  }

  /** `cmp_read_ulong`. */
  method ReadUlong(c: Ctx, stale: ByteString) returns (ok: bool, u: UInt64)
    requires c.Readable() && |stale| == 8
    modifies c`error, c`off
    ensures c.Readable()
    ensures match Parse(old(c.Unread()))
            case Some((o, rest)) =>
              c.Unread() == rest && ok == AsUlong(o).Some? && (ok ==> u == AsUlong(o).value) &&
              c.error == (if ok then old(c.error) else INVALID_TYPE_ERROR)
            case None => |old(c.Unread())| == 0 ==> !ok
  {
    hide Parse;
    var o;
    u := 0;
    ok, o := ReadObject(c, stale);
    if ok {
      match o
      case PositiveFixnum(v) => u := v;
      case Uint(_, v) => u := v;
      case _ =>
        c.error := INVALID_TYPE_ERROR;
        ok := false;
    }
  }

  /** `cmp_read_long`. */
  method ReadLong(c: Ctx, stale: ByteString) returns (ok: bool, d: Int64)
    requires c.Readable() && |stale| == 8
    modifies c`error, c`off
    ensures c.Readable()
    ensures match Parse(old(c.Unread()))
            case Some((o, rest)) =>
              c.Unread() == rest && ok == AsLong(o).Some? && (ok ==> d == AsLong(o).value) &&
              c.error == (if ok then old(c.error) else INVALID_TYPE_ERROR)
            case None => |old(c.Unread())| == 0 ==> !ok
  {
    hide Parse;
    var o;
    d := 0;
    ok, o := ReadObject(c, stale);
    if ok {
      match o
      case PositiveFixnum(v) => d := W8.Signed(v);
      case NegativeFixnum(v) => d := v;
      case Sint(_, v) => d := v;
      case Uint(_, v) =>
        if v <= 0x7fff_ffff_ffff_ffff {
          d := v;
        } else {
          c.error := INVALID_TYPE_ERROR;
          ok := false;
        }
      case _ =>
        c.error := INVALID_TYPE_ERROR;
        ok := false;
    }
  }

  /** n bytes of data, over whatever their destination held before; none at all is an error. */
  method ReadData(c: Ctx, n: nat, dest: nat -> Byte) returns (ok: bool, data: ByteString)
    requires c.Readable()
    modifies c`error, c`off
    ensures c.Readable() && |data| == n
    ensures TakeData(n, old(c.Unread())).Some? ==> ok && (data, c.Unread()) == TakeData(n, old(c.Unread())).value
    ensures ok <==> n > 0 && |old(c.Unread())| > 0
    ensures c.error == if ok then old(c.error) else DATA_READING_ERROR
  {
    var stale: seq<Byte> := seq(n, i requires 0 <= i < n => dest(i));
    var k;
    k, data := c.Read(stale);
    ok := k > 0;
    if !ok {
      c.error := DATA_READING_ERROR;
    }
    assert k == n ==> data == old(c.Unread())[..n];
  }

  /** `cmp_read_str`: the string before its terminating zero, and the size reported back. */
  method ReadStr(c: Ctx, cap: UInt32, stale: ByteString, dest: nat -> Byte)
    returns (ok: bool, data: ByteString, size: UInt32)
    requires c.Readable() && |stale| == 8
    modifies c`error, c`off
    ensures c.Readable()
    ensures ParseStr(old(c.Unread()), cap).Some? ==>
              ok && (data, c.Unread()) == ParseStr(old(c.Unread()), cap).value && size == |data| &&
              c.error == old(c.error)
    ensures match Parse(old(c.Unread()))
            case Some((o, rest)) =>
              if StrSize(o).None? then !ok && size == cap && c.error == INVALID_TYPE_ERROR
              else if (StrSize(o).value + 1) % 0x1_0000_0000 > cap then
                !ok && size == StrSize(o).value && c.error == STR_DATA_LENGTH_TOO_LONG_ERROR
              else StrSize(o).value == 0 || |rest| == 0 ==> !ok && size == cap && c.error == DATA_READING_ERROR
            case None => |old(c.Unread())| == 0 ==> !ok
  {
    hide Parse;
    data, size := [], cap;
    var o;
    ok, o := ReadObject(c, stale);
    if !ok {
      return;
    }
    if StrSize(o).None? {
      c.error := INVALID_TYPE_ERROR;
      ok := false;
      return;
    }
    var strSize := StrSize(o).value;
    if (strSize + 1) % 0x1_0000_0000 > cap {
      size := strSize;
      c.error := STR_DATA_LENGTH_TOO_LONG_ERROR;
      ok := false;
      return;
    }
    ok, data := ReadData(c, strSize, dest);
    if ok {
      size := strSize;
    }
  }

  /** `cmp_read_bin`. */
  method ReadBin(c: Ctx, cap: UInt32, stale: ByteString, dest: nat -> Byte)
    returns (ok: bool, data: ByteString, size: UInt32)
    requires c.Readable() && |stale| == 8
    modifies c`error, c`off
    ensures c.Readable() && (ok ==> size == |data|)
    ensures ParseBin(old(c.Unread()), cap).Some? ==>
              ok && (data, c.Unread()) == ParseBin(old(c.Unread()), cap).value && c.error == old(c.error)
    ensures match Parse(old(c.Unread()))
            case Some((o, rest)) =>
              if BinSize(o).None? then !ok && size == cap && c.error == INVALID_TYPE_ERROR
              else if BinSize(o).value > cap then !ok && size == cap && c.error == BIN_DATA_LENGTH_TOO_LONG_ERROR
              else
                (BinSize(o).value == 0 || |rest| == 0 ==> !ok && size == cap && c.error == DATA_READING_ERROR) &&
                (ok ==> size == BinSize(o).value)
            case None => |old(c.Unread())| == 0 ==> !ok
  {
    hide Parse;
    data, size := [], cap;
    var o;
    ok, o := ReadObject(c, stale);
    if !ok {
      return;
    }
    if BinSize(o).None? {
      c.error := INVALID_TYPE_ERROR;
      ok := false;
      return;
    }
    var binSize := BinSize(o).value;
    if binSize > cap {
      c.error := BIN_DATA_LENGTH_TOO_LONG_ERROR;
      ok := false;
      return;
    }
    ok, data := ReadData(c, binSize, dest);
    if ok {
      size := binSize;
    }
  }

  lemma OneByteValue(s: ByteString)
    requires |s| > 0
    ensures Value(s[..1]) == s[0]
  {
    assert s[..1][..0] == [];
  }
}
