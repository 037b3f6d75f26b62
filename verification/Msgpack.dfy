/**
 * The MessagePack objects of the C client's codec and their headers on the wire: a value such
 * as an integer in full, or the marker and length that announce a string, array, map or
 * extension (util/cmp.c). Numbers are written big-endian.
 */
module Msgpack {
  import opened Bytes
  import opened Spans
  import opened Options

  type UInt8 = x: int | 0 <= x < 0x100
  type UInt16 = x: int | 0 <= x < 0x1_0000
  type UInt32 = x: int | 0 <= x < 0x1_0000_0000
  type Int8 = x: int | -0x80 <= x < 0x80

  // ---------------------------------------------------------------- fixed-width numbers

  /** The width of a number or a length: 1, 2, 4 or 8 bytes. */
  datatype Width = W8 | W16 | W32 | W64 {
    function Octets(): nat {
      match this case W8 => 1 case W16 => 2 case W32 => 4 case W64 => 8
    }

    /** How many numbers there are of this width. */
    function Modulus(): (m: int)
      ensures m > 0
    {
      match this
      case W8 => 0x100
      case W16 => 0x1_0000
      case W32 => 0x1_0000_0000
      case W64 => 0x1_0000_0000_0000_0000
    }

    function Log(): nat {
      match this case W8 => 0 case W16 => 1 case W32 => 2 case W64 => 3
    }

    /** Reading an unsigned number as a two's-complement one. */
    function Signed(u: int): int {
      if 2 * u >= Modulus() then u - Modulus() else u
    }
  }

  /** A number cut to a width, as a C conversion does, and written big-endian. */
  function Number(w: Width, v: int): (s: ByteString)
    ensures |s| == w.Octets()
  {
    FromValue(w.Octets(), v % w.Modulus())
  }

  lemma ModulusIsPower(w: Width)
    ensures w.Modulus() == Pow256(w.Octets())
  {
    assert Pow256(1) == 0x100;
    assert Pow256(2) == 0x1_0000;
    assert Pow256(3) == 0x100_0000;
    assert Pow256(4) == 0x1_0000_0000;
    assert Pow256(5) == 0x100_0000_0000;
    assert Pow256(6) == 0x1_0000_0000_0000;
    assert Pow256(7) == 0x100_0000_0000_0000;
    assert Pow256(8) == 0x1_0000_0000_0000_0000;
  }

  /** Writing and reading a number are inverse, in both directions. */
  lemma NumberInverse(w: Width, v: int, s: ByteString)
    requires |s| == w.Octets()
    ensures Value(Number(w, v)) == v % w.Modulus()
    ensures Value(s) < w.Modulus() && Number(w, Value(s)) == s
  {
    hide Value, FromValue, Pow256, Width.Octets, Width.Modulus;
    ModulusIsPower(w);
    ValueBound(s);
    Mod(v, w.Modulus());
    Mod(Value(s), w.Modulus());
    FromValueRoundTrip(w.Octets(), v % w.Modulus());
    FromValueRoundTrip(w.Octets(), Value(s));
    ValueInjective(Number(w, Value(s)), s);
  }

  lemma Mod(v: int, m: int)
    requires m > 0
    ensures 0 <= v % m < m && (0 <= v < m ==> v % m == v)
  {
  }

  // ---------------------------------------------------------------- objects

  /** An object as `cmp_object_t` holds it; a size field is 32 bits wide whatever the type. */
  datatype Object =
    | PositiveFixnum(u8: UInt8)
    | NegativeFixnum(s8: Int8)
    | Fixmap(mapSize: UInt32)
    | Fixarray(arraySize: UInt32)
    | Fixstr(strSize: UInt32)
    | Nil
    | Boolean(boolean: bool)
    | Bin(width: Width, binSize: UInt32)
    | Ext(width: Width, extType: Int8, extSize: UInt32)
    | Float(float: UInt32)
    | Double(double: UInt64)
    | Uint(width: Width, u: UInt64)
    | Sint(width: Width, s: Int64)
    | Fixext(log: UInt8, extType: Int8)
    | Str(width: Width, strSize: UInt32)
    | Array(width: Width, arraySize: UInt32)
    | Map(width: Width, mapSize: UInt32)

  /** The 35 object types: which widths exist for which kind, and what an integer field can hold. */
  predicate IsObject(o: Object) {
    match o
    case Bin(w, _) => w != W64
    case Ext(w, _, _) => w != W64
    case Str(w, _) => w != W64
    case Array(w, _) => w == W16 || w == W32
    case Map(w, _) => w == W16 || w == W32
    case Uint(w, u) => u < w.Modulus()
    case Sint(w, s) => -w.Modulus() <= 2 * s < w.Modulus()
    case Fixext(k, _) => k <= 4
    case _ => true
  }

  /** What `cmp_write_object` emits; None where the value does not suit the type. */
  function Encode(o: Object): (r: Option<ByteString>)
    requires IsObject(o)
    ensures r.Some? ==> |r.value| > 0
  {
    match o
    case PositiveFixnum(c) => if c <= 0x7f then Some([c]) else None
    case NegativeFixnum(c) => if -32 <= c <= -1 then Some([0x100 + c]) else None
    case Fixmap(n) => if n % 0x100 <= 0xf then Some([0x80 + n % 0x100]) else None
    case Fixarray(n) => if n % 0x100 <= 0xf then Some([0x90 + n % 0x100]) else None
    case Fixstr(n) => if n % 0x100 <= 0x1f then Some([0xa0 + n % 0x100]) else None
    case Nil => Some([0xc0])
    case Boolean(b) => Some([if b then 0xc3 else 0xc2])
    case Bin(w, n) => Some([0xc4 + w.Log()] + Number(w, n))
    case Ext(w, t, n) => Some([0xc7 + w.Log()] + Number(w, n) + Number(W8, t))
    case Float(b) => Some([0xca] + Number(W32, b))
    case Double(b) => Some([0xcb] + Number(W64, b))
    case Uint(w, u) => Some([0xcc + w.Log()] + Number(w, u))
    case Sint(w, s) => Some([0xd0 + w.Log()] + Number(w, s))
    case Fixext(k, t) => Some([0xd4 + k] + Number(W8, t))
    case Str(w, n) => Some([0xd9 + w.Log()] + Number(w, n))
    case Array(w, n) => Some([0xdb + w.Log()] + Number(w, n))
    case Map(w, n) => Some([0xdd + w.Log()] + Number(w, n))
  }

  function WidthOf(log: nat): Width
    requires log < 4
  {
    if log == 0 then W8 else if log == 1 then W16 else if log == 2 then W32 else W64
  }

  /** The width of the number or size after a marker that has one. */
  function FieldWidth(m: Byte): Width
    requires 0xc4 <= m <= 0xdf
  {
    if m <= 0xc6 then WidthOf(m - 0xc4)
    else if m <= 0xc9 then WidthOf(m - 0xc7)
    else if m <= 0xcb then WidthOf(m - 0xc8)
    else if m <= 0xcf then WidthOf(m - 0xcc)
    else if m <= 0xd3 then WidthOf(m - 0xd0)
    else if m <= 0xd8 then W8
    else if m <= 0xdb then WidthOf(m - 0xd9)
    else if m <= 0xdd then WidthOf(m - 0xdb)
    else WidthOf(m - 0xdd)
  }

  /** The number of bytes an object's header has, by its first byte. */
  function HeaderLength(m: Byte): nat {
    if m <= 0xc3 || m >= 0xe0 then 1
    else if 0xc7 <= m <= 0xc9 then 2 + FieldWidth(m).Octets()
    else 1 + FieldWidth(m).Octets()
  }

  predicate Complete(s: ByteString) {
    |s| > 0 && s[0] != 0xc1 && |s| >= HeaderLength(s[0])
  }

  /** The object announced by a marker, the number v after it and the extension type byte t. */
  function ObjectFrom(m: Byte, v: nat, t: Byte): (o: Object)
    requires m != 0xc1 && (0xc4 <= m <= 0xdf ==> v < FieldWidth(m).Modulus())
    ensures IsObject(o)
  {
    if m <= 0x7f then PositiveFixnum(m)
    else if m <= 0x8f then Fixmap(m - 0x80)
    else if m <= 0x9f then Fixarray(m - 0x90)
    else if m <= 0xbf then Fixstr(m - 0xa0)
    else if m == 0xc0 then Nil
    else if m == 0xc2 then Boolean(false)
    else if m == 0xc3 then Boolean(true)
    else if m <= 0xc6 then Bin(FieldWidth(m), v)
    else if m <= 0xc9 then Ext(FieldWidth(m), W8.Signed(t), v)
    else if m == 0xca then Float(v)
    else if m == 0xcb then Double(v)
    else if m <= 0xcf then Uint(FieldWidth(m), v)
    else if m <= 0xd3 then Sint(FieldWidth(m), FieldWidth(m).Signed(v))
    else if m <= 0xd8 then Fixext(m - 0xd4, W8.Signed(v))
    else if m <= 0xdb then Str(FieldWidth(m), v)
    else if m <= 0xdd then Array(FieldWidth(m), v)
    else if m <= 0xdf then Map(FieldWidth(m), v)
    else NegativeFixnum(m - 0x100)
  }

  /** The object that a complete header announces: its marker m and the bytes p that follow. */
  function ObjectOf(m: Byte, p: ByteString): (o: Object)
    requires m != 0xc1 && |p| == HeaderLength(m) - 1
    ensures IsObject(o)
  {
    if |p| == 0 then ObjectFrom(m, 0, 0)
    else
      var k := FieldWidth(m).Octets();
      NumberInverse(FieldWidth(m), 0, p[..k]);
      ObjectFrom(m, Value(p[..k]), if k < |p| then p[k] else 0)
  }

  /** Read one header; what follows it is left over. */
  function Parse(s: ByteString): (r: Option<(Object, ByteString)>)
    ensures r.Some? <==> Complete(s)
    ensures r.Some? ==> IsObject(r.value.0)
  {
    if Complete(s) then
      var n := HeaderLength(s[0]);
      Some((ObjectOf(s[0], s[1..n]), s[n..]))
    else None
  }

  /** A two's-complement number is cut back to the bits it was read from. */
  lemma SameBits(w: Width, u: int)
    requires 0 <= u < w.Modulus()
    ensures Number(w, w.Signed(u)) == Number(w, u)
  {
    hide FromValue;
    match w
    case W8 =>
    case W16 =>
    case W32 =>
    case W64 =>
  }

  /** Writing back the object that was read gives exactly the bytes consumed. */
  lemma HeaderInverse(s: ByteString)
    requires Complete(s)
    ensures var (o, rest) := Parse(s).value;
            Encode(o).Some? && Encode(o).value + rest == s && |Encode(o).value| == HeaderLength(s[0]) && Marks(s[0], o)
  {
    ParseFollowsTable(s, Parse(s).value.0);
    hide Value, FromValue, Number, Marks;
    var n := HeaderLength(s[0]);
    EncodeObjectOf(s[0], s[1..n]);
    assert [s[0]] + s[1..n] + s[n..] == s;
  }

  lemma EncodeObjectOf(m: Byte, p: ByteString)
    requires m != 0xc1 && |p| == HeaderLength(m) - 1
    ensures Encode(ObjectOf(m, p)) == Some([m] + p)
  {
    hide Value, FromValue, Number, Encode, ObjectFrom;
    if |p| == 0 {
      EncodeOneByte(m);
      assert [m] + p == [m];
    } else {
      var w := FieldWidth(m);
      var k := w.Octets();
      NumberInverse(w, 0, p[..k]);
      EncodeFrom(m, Value(p[..k]), if k < |p| then p[k] else 0);
      assert p == p[..k] + p[k..];
      if k < |p| {
        ByteNumber(p[k]);
        assert [m] + p == [m] + p[..k] + [p[k]];
      } else {
        assert p[..k] == p;
      }
    }
  }

  lemma EncodeOneByte(m: Byte)
    requires m != 0xc1 && HeaderLength(m) == 1
    ensures Encode(ObjectFrom(m, 0, 0)) == Some([m])
  {
    hide Number, FromValue;
  }

  lemma EncodeFrom(m: Byte, v: nat, t: Byte)
    requires 0xc4 <= m <= 0xdf && v < FieldWidth(m).Modulus()
    ensures Encode(ObjectFrom(m, v, t)) ==
            Some(if 0xc7 <= m <= 0xc9 then [m] + Number(FieldWidth(m), v) + Number(W8, t)
                 else [m] + Number(FieldWidth(m), v))
  {
    hide Number, FromValue;
    if 0xc7 <= m <= 0xc9 {
      SameBits(W8, t);
    } else if 0xd0 <= m <= 0xd8 {
      SameBits(FieldWidth(m), v);
    }
  }

  lemma ByteNumber(t: Byte)
    ensures Number(W8, t) == [t]
  {
    assert FromValue(0, t / 256) == [];
  }

  /** An object whose fields its own header can carry. */
  predicate Canonical(o: Object) {
    IsObject(o) &&
    match o
    case PositiveFixnum(c) => c <= 0x7f
    case NegativeFixnum(c) => -32 <= c <= -1
    case Fixmap(n) => n <= 0xf
    case Fixarray(n) => n <= 0xf
    case Fixstr(n) => n <= 0x1f
    case Bin(w, n) => n < w.Modulus()
    case Ext(w, _, n) => n < w.Modulus()
    case Str(w, n) => n < w.Modulus()
    case Array(w, n) => n < w.Modulus()
    case Map(w, n) => n < w.Modulus()
    case _ => true
  }

  /** Reading back what was written gives the object, and leaves what follows alone. */
  lemma ObjectRoundTrip(o: Object, rest: ByteString)
    requires Canonical(o)
    ensures Encode(o).Some? && Parse(Encode(o).value + rest) == Some((o, rest))
  {
    hide Value, FromValue, Number;
    var e := Encode(o).value;
    var m, p := e[0], e[1..];
    PayloadOf(o);
    var s := e + rest;
    assert s[0] == m && s[1..|e|] == p && s[|e|..] == rest;
  }

  /** And no other object reads back: its header cannot carry the value or length it holds. */
  lemma ObjectRoundTripIff(o: Object, rest: ByteString)
    requires IsObject(o)
    ensures Encode(o).Some? && Parse(Encode(o).value + rest) == Some((o, rest)) <==> Canonical(o)
  {
    hide Encode, Parse, Canonical;
    if Canonical(o) {
      ObjectRoundTrip(o, rest);
    } else if Encode(o).Some? && Parse(Encode(o).value + rest).Some? {
      ReadIsCanonical(Encode(o).value + rest);
    }
  }

  lemma ReadIsCanonical(s: ByteString)
    requires Complete(s)
    ensures Canonical(Parse(s).value.0)
  {
    hide Value, ObjectFrom, Canonical, FieldWidth;
    var n := HeaderLength(s[0]);
    if n == 1 {
      FromIsCanonical(s[0], 0, 0);
    } else {
      var w, p := FieldWidth(s[0]), s[1..n];
      NumberInverse(w, 0, p[..w.Octets()]);
      FromIsCanonical(s[0], Value(p[..w.Octets()]), if w.Octets() < |p| then p[w.Octets()] else 0);
    }
  }

  lemma FromIsCanonical(m: Byte, v: nat, t: Byte)
    requires m != 0xc1 && (0xc4 <= m <= 0xdf ==> v < FieldWidth(m).Modulus())
    ensures Canonical(ObjectFrom(m, v, t))
  {
  }

  /** The header of an object is complete and announces that object. */
  lemma PayloadOf(o: Object)
    requires Canonical(o)
    ensures Encode(o).Some? &&
            var e := Encode(o).value;
            e[0] != 0xc1 && |e| == HeaderLength(e[0]) && ObjectOf(e[0], e[1..]) == o
  {
    CanonicalEncodes(o);
    hide Value, FromValue, Number, ObjectFrom, Encode, Canonical, FieldWidth, Fields;
    var e := Encode(o).value;
    if |e| == 1 {
      OneBytePayload(o);
    } else {
      FieldsRead(o);
      FieldBytes(o);
      var (w, v, t) := Fields(o);
      Mod(v, w.Modulus());
    }
  }

  lemma CanonicalEncodes(o: Object)
    requires Canonical(o)
    ensures Encode(o).Some?
  {
    hide Number;
  }

  lemma FieldBytes(o: Object)
    requires Canonical(o) && Encode(o).Some? && |Encode(o).value| > 1
    ensures var e := Encode(o).value; var (w, v, t) := Fields(o);
            |e| == 1 + w.Octets() + (if o.Ext? then 1 else 0) &&
            Value(e[1..][..w.Octets()]) == v % w.Modulus() && (o.Ext? ==> e[1..][w.Octets()] == t)
  {
    hide Value, FromValue, Number;
    var e := Encode(o).value;
    var (w, v, t) := Fields(o);
    NumberInverse(w, v, Number(w, v));
    match o {
      case Sint(_, s) => NumberMod(w, s);
      case Fixext(_, x) => NumberMod(W8, x);
      case Ext(_, x, _) =>
        NumberMod(W8, x);
        ByteNumber(t);
      case _ =>
    }
    assert e[1..][..w.Octets()] == Number(w, v);
  }

  lemma OneBytePayload(o: Object)
    requires Canonical(o) && Encode(o).Some? && |Encode(o).value| == 1
    ensures var m := Encode(o).value[0]; m != 0xc1 && HeaderLength(m) == 1 && ObjectFrom(m, 0, 0) == o
  {
    hide Value, FromValue, Number;
  }

  /** The width and value of the number in a longer header, and its extension type byte. */
  function Fields(o: Object): (Width, int, Byte) {
    match o
    case Bin(w, n) => (w, n, 0)
    case Str(w, n) => (w, n, 0)
    case Array(w, n) => (w, n, 0)
    case Map(w, n) => (w, n, 0)
    case Float(b) => (W32, b, 0)
    case Double(b) => (W64, b, 0)
    case Uint(w, u) => (w, u, 0)
    case Sint(w, s) => (w, s % w.Modulus(), 0)
    case Fixext(_, t) => (W8, t % 0x100, 0)
    case Ext(w, t, n) => (w, n, t % 0x100)
    case _ => (W8, 0, 0)
  }

  lemma FieldsRead(o: Object)
    requires Canonical(o) && Encode(o).Some? && |Encode(o).value| > 1
    ensures var m := Encode(o).value[0]; var (w, v, t) := Fields(o);
            0xc4 <= m <= 0xdf && FieldWidth(m) == w && 0 <= v < w.Modulus() && ObjectFrom(m, v, t) == o &&
            (0xc7 <= m <= 0xc9 <==> o.Ext?) && (!o.Ext? ==> t == 0)
  {
    hide Number, FromValue;
    match o
    case Sint(w, s) => CutBack(w, s);
    case Fixext(_, t) => CutBack(W8, t);
    case Ext(_, t, _) => CutBack(W8, t);
    case _ =>
  }

  lemma CutBack(w: Width, v: int)
    requires -w.Modulus() <= 2 * v < w.Modulus()
    ensures 0 <= v % w.Modulus() < w.Modulus() && w.Signed(v % w.Modulus()) == v
  {
    match w
    case W8 =>
    case W16 =>
    case W32 =>
    case W64 =>
  }

  lemma NumberMod(w: Width, v: int)
    ensures Number(w, v % w.Modulus()) == Number(w, v)
  {
    Mod(v, w.Modulus());
    Mod(v % w.Modulus(), w.Modulus());
  }

  // ---------------------------------------------------------------- the format table

  /** The table of first bytes in the MessagePack specification, type by type. */
  predicate Marks(b: Byte, o: Object)
    requires IsObject(o)
  {
    match o
    case PositiveFixnum(_) => 0x00 <= b <= 0x7f
    case Fixmap(_) => 0x80 <= b <= 0x8f
    case Fixarray(_) => 0x90 <= b <= 0x9f
    case Fixstr(_) => 0xa0 <= b <= 0xbf
    case Nil => b == 0xc0
    case Boolean(v) => b == if v then 0xc3 else 0xc2
    case Bin(W8, _) => b == 0xc4
    case Bin(W16, _) => b == 0xc5
    case Bin(W32, _) => b == 0xc6
    case Ext(W8, _, _) => b == 0xc7
    case Ext(W16, _, _) => b == 0xc8
    case Ext(W32, _, _) => b == 0xc9
    case Float(_) => b == 0xca
    case Double(_) => b == 0xcb
    case Uint(W8, _) => b == 0xcc
    case Uint(W16, _) => b == 0xcd
    case Uint(W32, _) => b == 0xce
    case Uint(W64, _) => b == 0xcf
    case Sint(W8, _) => b == 0xd0
    case Sint(W16, _) => b == 0xd1
    case Sint(W32, _) => b == 0xd2
    case Sint(W64, _) => b == 0xd3
    case Fixext(k, _) => b == if k == 0 then 0xd4 else if k == 1 then 0xd5 else if k == 2 then 0xd6
                              else if k == 3 then 0xd7 else 0xd8
    case Str(W8, _) => b == 0xd9
    case Str(W16, _) => b == 0xda
    case Str(W32, _) => b == 0xdb
    case Array(W16, _) => b == 0xdc
    case Array(W32, _) => b == 0xdd
    case Map(W16, _) => b == 0xde
    case Map(W32, _) => b == 0xdf
    case NegativeFixnum(_) => 0xe0 <= b <= 0xff
    case _ => false
  }

  /** What the first byte itself says of a value or a length. */
  predicate Says(b: Byte, o: Object) {
    match o
    case PositiveFixnum(c) => b == c
    case NegativeFixnum(c) => b == 0x100 + c
    case Fixmap(n) => b == 0x80 + n
    case Fixarray(n) => b == 0x90 + n
    case Fixstr(n) => b == 0xa0 + n
    case _ => true
  }

  /** One type of the table, whatever the value or length. */
  predicate SameType(o: Object, p: Object) {
    match o
    case PositiveFixnum(_) => p.PositiveFixnum?
    case NegativeFixnum(_) => p.NegativeFixnum?
    case Fixmap(_) => p.Fixmap?
    case Fixarray(_) => p.Fixarray?
    case Fixstr(_) => p.Fixstr?
    case Nil => p.Nil?
    case Boolean(v) => p == Boolean(v)
    case Bin(w, _) => p.Bin? && p.width == w
    case Ext(w, _, _) => p.Ext? && p.width == w
    case Float(_) => p.Float?
    case Double(_) => p.Double?
    case Uint(w, _) => p.Uint? && p.width == w
    case Sint(w, _) => p.Sint? && p.width == w
    case Fixext(k, _) => p.Fixext? && p.log == k
    case Str(w, _) => p.Str? && p.width == w
    case Array(w, _) => p.Array? && p.width == w
    case Map(w, _) => p.Map? && p.width == w
  }

  /**
   * A written header starts with its type's byte, which carries a small value or length itself;
   * a number follows most significant byte first, and an extension's type comes last.
   */
  lemma EncodeFollowsTable(o: Object)
    requires IsObject(o) && Encode(o).Some?
    ensures var e := Encode(o).value;
            Marks(e[0], o) && (Canonical(o) ==> Says(e[0], o)) &&
            (|e| > 1 && Canonical(o) ==>
               var (w, v, t) := Fields(o);
               |e| == 1 + w.Octets() + (if o.Ext? then 1 else 0) &&
               Value(e[1..1 + w.Octets()]) == v && (o.Ext? ==> e[1 + w.Octets()] == t))
  {
    EncodeMarks(o);
    hide Value, FromValue, Encode, Canonical, Fields, Marks, Says;
    var e := Encode(o).value;
    if |e| > 1 && Canonical(o) {
      FieldBytes(o);
      FieldsRead(o);
      var (w, v, t) := Fields(o);
      assert e[1..][..w.Octets()] == e[1..1 + w.Octets()];
      Mod(v, w.Modulus());
    }
  }

  lemma EncodeMarks(o: Object)
    requires IsObject(o) && Encode(o).Some?
    ensures Marks(Encode(o).value[0], o) && (Canonical(o) ==> Says(Encode(o).value[0], o))
  {
    hide Number, FromValue;
  }

  /** A header is read as an object of the type that its first byte marks, and of no other. */
  lemma ParseFollowsTable(s: ByteString, o: Object)
    requires Complete(s) && IsObject(o)
    ensures var p := Parse(s).value.0; Marks(s[0], o) <==> SameType(o, p)
    ensures Says(s[0], Parse(s).value.0)
  {
    hide Value, ObjectFrom, Marks, Says, SameType, IsObject, FieldWidth;
    var n := HeaderLength(s[0]);
    if n == 1 {
      FromMarks(s[0], 0, 0);
    } else {
      var w, p := FieldWidth(s[0]), s[1..n];
      var k := w.Octets();
      NumberInverse(w, 0, p[..k]);
      FromMarks(s[0], Value(p[..k]), if k < |p| then p[k] else 0);
    }
    TableIsOneToOne(s[0], o, Parse(s).value.0);
  }

  lemma FromMarks(m: Byte, v: nat, t: Byte)
    requires m != 0xc1 && (0xc4 <= m <= 0xdf ==> v < FieldWidth(m).Modulus())
    ensures Marks(m, ObjectFrom(m, v, t)) && Says(m, ObjectFrom(m, v, t))
  {
  }

  lemma TableIsOneToOne(b: Byte, o: Object, p: Object)
    requires IsObject(o) && IsObject(p) && Marks(b, p)
    ensures Marks(b, o) <==> SameType(o, p)
  {
  }

  // ---------------------------------------------------------------- integers

  /** The integer an object of the int format family denotes. */
  function IntValue(o: Object): Option<int> {
    match o
    case PositiveFixnum(c) => Some(c)
    case NegativeFixnum(c) => Some(c)
    case Uint(_, u) => Some(u)
    case Sint(_, s) => Some(s)
    case _ => None
  }

  /** The object that the generic integer writers choose, down the ladders of `cmp_write_uint` and `cmp_write_sint`. */
  function IntObject(v: int): (o: Object)
    requires -0x8000_0000_0000_0000 <= v < 0x1_0000_0000_0000_0000
    ensures Canonical(o) && IntValue(o) == Some(v)
  {
    if v >= 0 then
      if v <= 0x7f then PositiveFixnum(v)
      else Uint(if v <= 0xff then W8 else if v <= 0xffff then W16 else if v <= 0xffff_ffff then W32 else W64, v)
    else if v >= -32 then NegativeFixnum(v)
    else Sint(if v >= -0x80 then W8 else if v >= -0x8000 then W16 else if v >= -0x8000_0000 then W32 else W64, v)
  }

  function IntBytes(v: int): (s: ByteString)
    requires -0x8000_0000_0000_0000 <= v < 0x1_0000_0000_0000_0000
  {
    Encode(IntObject(v)).value
  }

  /** No other encoding of the int format family is shorter. */
  lemma IntShortest(o: Object, v: int)
    requires Canonical(o) && IntValue(o) == Some(v)
    ensures |IntBytes(v)| <= |Encode(o).value|
  {
    hide FromValue, Number;
  }

  /** `cmp_read_ulong`'s choice of types. */
  function AsUlong(o: Object): (r: Option<UInt64>)
    requires IsObject(o)
    ensures r == if o.Sint? || o.NegativeFixnum? then None else IntValue(o)
  {
    match o
    case PositiveFixnum(c) => Some(c)
    case Uint(_, u) => Some(u)
    case _ => None
  }

  /** `cmp_read_long`'s choice of types: unsigned values above the int64 range are refused. */
  function AsLong(o: Object): (r: Option<Int64>)
    requires IsObject(o)
    ensures Canonical(o) ==> r == if IntValue(o) == None || IntValue(o).value >= 0x8000_0000_0000_0000 then None
                                  else IntValue(o)
  {
    match o
    case PositiveFixnum(c) => Some(W8.Signed(c))
    case NegativeFixnum(c) => Some(c)
    case Uint(_, u) => if u <= 0x7fff_ffff_ffff_ffff then Some(u) else None
    case Sint(_, s) => Some(s)
    case _ => None
  }

  /** Integers survive the trip: through `ulong` if not negative, through `long` if below 2^63. */
  lemma IntRoundTrip(v: int, rest: ByteString)
    requires -0x8000_0000_0000_0000 <= v < 0x1_0000_0000_0000_0000
    ensures Parse(IntBytes(v) + rest) == Some((IntObject(v), rest))
    ensures AsUlong(IntObject(v)) == if v >= 0 then Some(v) else None
    ensures AsLong(IntObject(v)) == if v < 0x8000_0000_0000_0000 then Some(v) else None
  {
    hide Encode, Parse, Number;
    ObjectRoundTrip(IntObject(v), rest);
  }

  // ---------------------------------------------------------------- strings

  function StrObject(n: UInt32): (o: Object)
    ensures Canonical(o) && StrSize(o) == Some(n)
  {
    if n <= 0x1f then Fixstr(n) else Str(if n <= 0xff then W8 else if n <= 0xffff then W16 else W32, n)
  }

  function BinObject(n: UInt32): (o: Object)
    ensures Canonical(o) && BinSize(o) == Some(n)
  {
    Bin(if n <= 0xff then W8 else if n <= 0xffff then W16 else W32, n)
  }

  function StrSize(o: Object): Option<UInt32> {
    match o
    case Fixstr(n) => Some(n)
    case Str(_, n) => Some(n)
    case _ => None
  }

  function BinSize(o: Object): Option<UInt32> {
    match o case Bin(_, n) => Some(n) case _ => None
  }

  /** No other header of a string or byte array of that length is shorter. */
  lemma HeaderShortest(o: Object, n: UInt32)
    requires Canonical(o)
    ensures StrSize(o) == Some(n) ==> |Encode(StrObject(n)).value| <= |Encode(o).value|
    ensures BinSize(o) == Some(n) ==> |Encode(BinObject(n)).value| <= |Encode(o).value|
  {
    hide FromValue, Number;
  }

  /** A header followed by the bytes it announces. */
  function WithData(o: Object, data: ByteString): ByteString
    requires Canonical(o)
  {
    PayloadOf(o);
    Encode(o).value + data
  }

  function StrBytes(data: ByteString): ByteString
    requires |data| < 0x1_0000_0000
  {
    WithData(StrObject(|data|), data)
  }

  function BinBytes(data: ByteString): ByteString
    requires |data| < 0x1_0000_0000
  {
    WithData(BinObject(|data|), data)
  }

  /**
   * Read a string into a buffer of `cap` bytes that must also hold a terminating zero; the
   * comparison is made in 32 bits. A read of no bytes counts as a failure.
   */
  function ParseStr(s: ByteString, cap: UInt32): Option<(ByteString, ByteString)> {
    match Parse(s)
    case None => None
    case Some((o, rest)) =>
      match StrSize(o)
      case None => None
      case Some(n) => if (n + 1) % 0x1_0000_0000 > cap then None else TakeData(n, rest)
  }

  /** Read a byte array into a buffer of `cap` bytes. */
  function ParseBin(s: ByteString, cap: UInt32): Option<(ByteString, ByteString)> {
    match Parse(s)
    case None => None
    case Some((o, rest)) =>
      match BinSize(o)
      case None => None
      case Some(n) => if n > cap then None else TakeData(n, rest)
  }

  /** The announced bytes, all present and at least one. */
  function TakeData(n: nat, s: ByteString): Option<(ByteString, ByteString)> {
    if 0 < n <= |s| then Some((s[..n], s[n..])) else None
  }

  lemma HeaderThenData(o: Object, data: ByteString, rest: ByteString)
    requires Canonical(o)
    ensures Parse(WithData(o, data) + rest) == Some((o, data + rest))
    ensures TakeData(|data|, data + rest) == if |data| > 0 then Some((data, rest)) else None
  {
    hide Canonical, Parse, Encode;
    ObjectRoundTrip(o, data + rest);
    assert WithData(o, data) + rest == Encode(o).value + (data + rest);
    assert (data + rest)[..|data|] == data && (data + rest)[|data|..] == rest;
  }

  /** A string reads back, with the rest untouched, exactly if it is not empty and the buffer is large enough. */
  lemma StrRoundTrip(data: ByteString, cap: UInt32, rest: ByteString)
    requires |data| < 0x1_0000_0000
    ensures ParseStr(StrBytes(data) + rest, cap) ==
            if 0 < |data| < cap || |data| == 0xffff_ffff then Some((data, rest)) else None
  {
    hide Parse, Encode;
    HeaderThenData(StrObject(|data|), data, rest);
  }

  lemma BinRoundTrip(data: ByteString, cap: UInt32, rest: ByteString)
    requires |data| < 0x1_0000_0000
    ensures ParseBin(BinBytes(data) + rest, cap) == if 0 < |data| <= cap then Some((data, rest)) else None
  {
    hide Parse, Encode;
    HeaderThenData(BinObject(|data|), data, rest);
  }
}
