/** Byte strings and the order that leveldb and Go's `bytes.Compare` put on them. */
module Bytes {

  type Byte = b: int | 0 <= b < 256

  type ByteString = seq<Byte>

  /** Byte-lexicographic order; a proper prefix comes first. */
  predicate Less(a: ByteString, b: ByteString)
    decreases |a|
  {
    |b| > 0 && (|a| == 0 || a[0] < b[0] || (a[0] == b[0] && Less(a[1..], b[1..])))
  }

  predicate AtMost(a: ByteString, b: ByteString) {
    a == b || Less(a, b)
  }

  lemma {:induction false} LessIrreflexive(a: ByteString)
    ensures !Less(a, a)
    decreases |a|
  {
    if |a| > 0 {
      LessIrreflexive(a[1..]);
    }
  }

  lemma {:induction false} LessTransitive(a: ByteString, b: ByteString, c: ByteString)
    requires Less(a, b) && Less(b, c)
    ensures Less(a, c)
    decreases |a|
  {
    if |a| > 0 && a[0] == b[0] == c[0] {
      LessTransitive(a[1..], b[1..], c[1..]);
    }
  }

  lemma {:induction false} LessTotal(a: ByteString, b: ByteString)
    ensures Less(a, b) || a == b || Less(b, a)
    decreases |a|
  {
    if |a| > 0 && |b| > 0 && a[0] == b[0] {
      LessTotal(a[1..], b[1..]);
      assert a == [a[0]] + a[1..] && b == [b[0]] + b[1..];
    }
  }

  lemma LessAsymmetric(a: ByteString, b: ByteString)
    requires Less(a, b)
    ensures !Less(b, a) && a != b
  {
    LessIrreflexive(a);
    if Less(b, a) {
      LessTransitive(a, b, a);
    }
  }

  /** Comparing two concatenations whose first parts have equal length is comparing pairs. */
  lemma {:induction false} LessConcat(a: ByteString, x: ByteString, b: ByteString, y: ByteString)
    requires |a| == |b|
    ensures Less(a + x, b + y) <==> Less(a, b) || (a == b && Less(x, y))
    decreases |a|
  {
    if |a| == 0 {
      assert a + x == x && b + y == y;
    } else {
      LessConcat(a[1..], x, b[1..], y);
      assert (a + x)[1..] == a[1..] + x && (b + y)[1..] == b[1..] + y;
      assert a == [a[0]] + a[1..] && b == [b[0]] + b[1..];
    }
  }

  // ---------------------------------------------------------------- big-endian values

  function Pow256(n: nat): (p: int)
    ensures p >= 1
  {
    if n == 0 then 1 else 256 * Pow256(n - 1)
  }

  /** The number that a byte string writes in big-endian notation. */
  function Value(s: ByteString): (v: nat)
  {
    if |s| == 0 then 0 else Value(s[..|s| - 1]) * 256 + s[|s| - 1]
  }

  lemma {:induction false} ValueBound(s: ByteString)
    ensures Value(s) < Pow256(|s|)
    decreases |s|
  {
    if |s| > 0 {
      ValueBound(s[..|s| - 1]);
    }
  }

  /** For strings of one length the byte order is the numeric order. */
  lemma {:induction false} LessIsNumeric(a: ByteString, b: ByteString)
    requires |a| == |b|
    ensures Less(a, b) <==> Value(a) < Value(b)
    decreases |a|
  {
    if |a| > 0 {
      var n := |a| - 1;
      LessIsNumeric(a[..n], b[..n]);
      LessIsNumeric(b[..n], a[..n]);
      LessConcat(a[..n], [a[n]], b[..n], [b[n]]);
      assert a == a[..n] + [a[n]] && b == b[..n] + [b[n]];
      LessTotal(a[..n], b[..n]);
      LessIrreflexive(a[..n]);
    }
  }

  /** A fixed-width big-endian string is determined by its value. */
  lemma ValueInjective(a: ByteString, b: ByteString)
    requires |a| == |b| && Value(a) == Value(b)
    ensures a == b
  {
    LessIsNumeric(a, b);
    LessIsNumeric(b, a);
    LessTotal(a, b);
  }

  lemma {:induction false} ValueConcat(a: ByteString, b: ByteString)
    ensures Value(a + b) == Value(a) * Pow256(|b|) + Value(b)
    decreases |b|
  {
    if |b| == 0 {
      assert a + b == a;
    } else {
      var n := |b| - 1;
      ValueConcat(a, b[..n]);
      assert (a + b)[..|a + b| - 1] == a + b[..n];
      calc {
        Value(a + b);
        Value(a + b[..n]) * 256 + b[n];
        (Value(a) * Pow256(n) + Value(b[..n])) * 256 + b[n];
        { Distribute(Value(a), Pow256(n), Value(b[..n])); }
        Value(a) * (256 * Pow256(n)) + (Value(b[..n]) * 256 + b[n]);
      }
    }
  }

  lemma Distribute(x: int, p: int, y: int)
    ensures (x * p + y) * 256 == x * (256 * p) + y * 256
  {
    assert x * (256 * p) == (x * p) * 256;
  }
}
