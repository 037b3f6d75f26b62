/** Span ids, span records and the fixed-width numbers they carry (common/span.go). */
module Spans {
  import opened Bytes

  type Int64 = x: int | -0x8000_0000_0000_0000 <= x < 0x8000_0000_0000_0000
  type UInt64 = x: int | 0 <= x < 0x1_0000_0000_0000_0000

  /** Two's-complement reduction of a mathematical integer to an int64. */
  function Wrap64(x: int): (r: Int64)
    ensures (r - x) % 0x1_0000_0000_0000_0000 == 0
  {
    (x + 0x8000_0000_0000_0000) % 0x1_0000_0000_0000_0000 - 0x8000_0000_0000_0000
  }

  /** A span id as the program carries it: a byte slice of whatever length the peer sent. */
  type SpanId = ByteString

  const SPAN_ID_BYTES := 16

  /** The all-zero id, `INVALID_SPAN_ID`. */
  function ZeroId(): (id: SpanId)
    ensures |id| == SPAN_ID_BYTES
  {
    Repeat(0, SPAN_ID_BYTES)
  }

  /** The greatest id, sixteen 0xff bytes. */
  function MaxId(): (id: SpanId)
    ensures |id| == SPAN_ID_BYTES
  {
    Repeat(0xff, SPAN_ID_BYTES)
  }

  /** `SpanId.FindProblem` reports nothing. */
  predicate ValidId(id: SpanId) {
    |id| == SPAN_ID_BYTES && id != ZeroId()
  }

  lemma ValidIdMeans(id: SpanId)
    ensures ValidId(id) <==> |id| == 16 && exists k :: 0 <= k < 16 && id[k] != 0
  {
    if |id| == 16 && forall k :: 0 <= k < 16 ==> id[k] == 0 {
      assert id == Repeat(0, 16);
    }
  }

  datatype TimelineAnnotation = TimelineAnnotation(time: Int64, msg: ByteString)

  datatype SpanData = SpanData(
    begin: Int64,
    end: Int64,
    description: ByteString,
    parents: seq<SpanId>,
    info: map<ByteString, ByteString>,
    tracerId: ByteString,
    annotations: seq<TimelineAnnotation>)

  datatype Span = Span(id: SpanId, data: SpanData)

  /** `Span.Duration`: an int64 subtraction, which may wrap. */
  function Duration(s: Span): Int64 {
    Wrap64(s.data.end - s.data.begin)
  }

  /** From begin to end it is exact wherever an int64 can hold it, and exact modulo 2^64 elsewhere. */
  lemma DurationMeans(s: Span)
    ensures (s.data.begin + Duration(s) - s.data.end) % 0x1_0000_0000_0000_0000 == 0
    ensures -0x8000_0000_0000_0000 <= s.data.end - s.data.begin < 0x8000_0000_0000_0000 <==>
            s.data.begin + Duration(s) == s.data.end
  {
  }

  // ---------------------------------------------------------------- successor and predecessor

  function Repeat(b: Byte, n: nat): (s: ByteString)
    ensures |s| == n && forall i :: 0 <= i < n ==> s[i] == b
  {
    seq(n, i => b)
  }

  /** The n-byte big-endian notation of a number. */
  function FromValue(n: nat, v: nat): (s: ByteString)
    ensures |s| == n
  {
    if n == 0 then [] else FromValue(n - 1, v / 256) + [v % 256]
  }

  lemma {:induction false} FromValueRoundTrip(n: nat, v: nat)
    requires v < Pow256(n)
    ensures Value(FromValue(n, v)) == v
    decreases n
  {
    if n > 0 {
      FromValueRoundTrip(n - 1, v / 256);
      var s := FromValue(n, v);
      assert s[..|s| - 1] == FromValue(n - 1, v / 256);
    }
  }

  /** Go's `copy` into a fresh 16-byte slice: truncates or pads with zeros. */
  function Fit16(id: SpanId): (r: SpanId)
    ensures |r| == SPAN_ID_BYTES
    ensures |id| == SPAN_ID_BYTES ==> r == id
  {
    seq(SPAN_ID_BYTES, i requires 0 <= i < SPAN_ID_BYTES => if i < |id| then id[i] else 0)
  }

  /** Too long an id loses its end, too short a one gets zeros. */
  lemma Fit16Means(id: SpanId)
    ensures |id| >= 16 ==> Fit16(id) == id[..16]
    ensures |id| <= 16 ==> Fit16(id) == id + Repeat(0, 16 - |id|)
  {
  }

  /** The next byte string of the same length, counting modulo 256^length. */
  function Increment(s: ByteString): (r: ByteString)
    ensures |r| == |s|
  {
    FromValue(|s|, if Value(s) + 1 == Pow256(|s|) then 0 else Value(s) + 1)
  }

  /** The previous byte string of the same length, counting modulo 256^length. */
  function Decrement(s: ByteString): (r: ByteString)
    ensures |r| == |s|
  {
    FromValue(|s|, if Value(s) == 0 then Pow256(|s|) - 1 else Value(s) - 1)
  }

  /** The id after this one, counting modulo 2^128. */
  function Successor(id: SpanId): (r: SpanId)
    ensures |r| == SPAN_ID_BYTES
  {
    Increment(Fit16(id))
  }

  /** The id before this one, counting modulo 2^128. */
  function Predecessor(id: SpanId): (r: SpanId)
    ensures |r| == SPAN_ID_BYTES
  {
    Decrement(Fit16(id))
  }

  lemma {:induction false} ValueOfRepeats(n: nat)
    ensures Value(Repeat(0, n)) == 0
    ensures Value(Repeat(0xff, n)) == Pow256(n) - 1
    decreases n
  {
    if n > 0 {
      ValueOfRepeats(n - 1);
      assert Repeat(0, n)[..n - 1] == Repeat(0, n - 1);
      assert Repeat(0xff, n)[..n - 1] == Repeat(0xff, n - 1);
    }
  }

  /** Incrementing the last byte that is not 0xff and clearing the 0xff tail adds one. */
  lemma CarryAddsOne(head: ByteString, b: Byte, n: nat)
    requires b < 0xff
    ensures Value(head + [b + 1] + Repeat(0, n)) == Value(head + [b] + Repeat(0xff, n)) + 1
  {
    ValueOfRepeats(n);
    ValueConcat(head + [b + 1], Repeat(0, n));
    ValueConcat(head + [b], Repeat(0xff, n));
    assert (head + [b + 1])[..|head|] == head && (head + [b])[..|head|] == head;
    var h := Value(head) * 256 + b;
    assert Value(head + [b + 1]) == h + 1 && Value(head + [b]) == h;
    assert (h + 1) * Pow256(n) == h * Pow256(n) + Pow256(n);
  }

  lemma IncrementFromValue(s: ByteString, r: ByteString)
    requires |r| == |s|
    requires Value(r) == if Value(s) + 1 == Pow256(|s|) then 0 else Value(s) + 1
    ensures r == Increment(s)
  {
    ValueBound(r);
    FromValueRoundTrip(|s|, Value(r));
    ValueInjective(r, Increment(s));
  }

  lemma DecrementFromValue(s: ByteString, r: ByteString)
    requires |r| == |s|
    requires Value(r) == if Value(s) == 0 then Pow256(|s|) - 1 else Value(s) - 1
    ensures r == Decrement(s)
  {
    ValueBound(r);
    FromValueRoundTrip(|s|, Value(r));
    ValueInjective(r, Decrement(s));
  }

  /** `SpanId.Next`: propagate a carry from the last byte. */
  method Next(id: SpanId) returns (next: SpanId)
    ensures next == Successor(id)
  {
    var start := Fit16(id);
    var buf := new Byte[|start|](i requires 0 <= i < |start| => start[i]);
    var i := buf.Length - 1;
    while i >= 0
      invariant -1 <= i < |start| == buf.Length
      invariant buf[..] == start[..i + 1] + Repeat(0, |start| - 1 - i)
      invariant start == start[..i + 1] + Repeat(0xff, |start| - 1 - i)
    {
      if buf[i] == 0xff {
        buf[i] := 0;
        i := i - 1;
      } else {
        buf[i] := buf[i] + 1;
        CarryStops(start, i, buf[..]);
        return buf[..];
      }
    }
    next := buf[..];
    ValueOfRepeats(|start|);
    assert next == Repeat(0, |start|) && start == Repeat(0xff, |start|);
    IncrementFromValue(start, next);
  }

  /** `SpanId.Prev`: propagate a borrow from the last byte. */
  method Prev(id: SpanId) returns (prev: SpanId)
    ensures prev == Predecessor(id)
  {
    var start := Fit16(id);
    var buf := new Byte[|start|](i requires 0 <= i < |start| => start[i]);
    var i := buf.Length - 1;
    while i >= 0
      invariant -1 <= i < |start| == buf.Length
      invariant buf[..] == start[..i + 1] + Repeat(0xff, |start| - 1 - i)
      invariant start == start[..i + 1] + Repeat(0, |start| - 1 - i)
    {
      if buf[i] == 0x00 {
        buf[i] := 0xff;
        i := i - 1;
      } else {
        buf[i] := buf[i] - 1;
        BorrowStops(start, i, buf[..]);
        return buf[..];
      }
    }
    prev := buf[..];
    ValueOfRepeats(|start|);
    assert prev == Repeat(0xff, |start|) && start == Repeat(0, |start|);
    DecrementFromValue(start, prev);
  }

  lemma CarryStops(s: ByteString, i: nat, r: ByteString)
    requires i < |s| == |r| && s[i] < 0xff
    requires s[i + 1..] == Repeat(0xff, |s| - 1 - i)
    requires r == s[..i] + [s[i] + 1] + Repeat(0, |s| - 1 - i)
    ensures r == Increment(s)
  {
    CarryAddsOne(s[..i], s[i], |s| - 1 - i);
    assert s == s[..i] + [s[i]] + Repeat(0xff, |s| - 1 - i);
    ValueBound(r);
    IncrementFromValue(s, r);
  }

  lemma BorrowStops(s: ByteString, i: nat, r: ByteString)
    requires i < |s| == |r| && s[i] > 0
    requires s[i + 1..] == Repeat(0, |s| - 1 - i)
    requires r == s[..i] + [s[i] - 1] + Repeat(0xff, |s| - 1 - i)
    ensures r == Decrement(s)
  {
    CarryAddsOne(s[..i], s[i] - 1, |s| - 1 - i);
    assert s == s[..i] + [s[i]] + Repeat(0, |s| - 1 - i);
    DecrementFromValue(s, r);
  }

  /** On 16-byte ids the two steps undo each other, wrap-around included. */
  lemma NextPrevInverse(id: SpanId)
    requires |id| == SPAN_ID_BYTES
    ensures Predecessor(Successor(id)) == id
    ensures Successor(Predecessor(id)) == id
  {
    StepsInverse(id);
  }

  lemma StepsInverse(s: ByteString)
    ensures Decrement(Increment(s)) == s
    ensures Increment(Decrement(s)) == s
  {
    ValueBound(s);
    FromValueRoundTrip(|s|, if Value(s) + 1 == Pow256(|s|) then 0 else Value(s) + 1);
    FromValueRoundTrip(|s|, if Value(s) == 0 then Pow256(|s|) - 1 else Value(s) - 1);
    DecrementFromValue(Increment(s), s);
    IncrementFromValue(Decrement(s), s);
  }

  /** Below the greatest id, `Next` is the immediate successor in byte order. */
  lemma SuccessorIsNext(id: SpanId, other: SpanId)
    requires |id| == |other| == SPAN_ID_BYTES
    requires id != MaxId()
    ensures Less(id, other) <==> AtMost(Successor(id), other)
  {
    IncrementIsNext(id, other);
  }

  lemma IncrementValue(s: ByteString)
    requires s != Repeat(0xff, |s|)
    ensures Value(Increment(s)) == Value(s) + 1
  {
    hide Value, FromValue, Pow256, Repeat;
    ValueOfRepeats(|s|);
    ValueBound(s);
    if Value(s) == Pow256(|s|) - 1 {
      ValueInjective(s, Repeat(0xff, |s|));
    }
    FromValueRoundTrip(|s|, Value(s) + 1);
  }

  lemma IncrementIsNext(s: ByteString, other: ByteString)
    requires |s| == |other|
    requires s != Repeat(0xff, |s|)
    ensures Less(s, other) <==> AtMost(Increment(s), other)
  {
    hide Value, Increment, Less, Repeat;
    var t := Increment(s);
    assert Value(t) == Value(s) + 1 by { IncrementValue(s); }
    LessIsNumeric(s, other);
    LessIsNumeric(t, other);
    if Value(t) == Value(other) {
      ValueInjective(t, other);
    }
  }

  /** Above the zero id, `Prev` is the immediate predecessor in byte order. */
  lemma PredecessorIsPrev(id: SpanId, other: SpanId)
    requires |id| == |other| == SPAN_ID_BYTES
    requires id != ZeroId()
    ensures Less(other, id) <==> AtMost(other, Predecessor(id))
  {
    DecrementIsPrev(id, other);
  }

  lemma DecrementIsPrev(s: ByteString, other: ByteString)
    requires |s| == |other|
    requires s != Repeat(0, |s|)
    ensures Less(other, s) <==> AtMost(other, Decrement(s))
  {
    hide Value, FromValue, Pow256, Repeat, Less;
    ValueOfRepeats(|s|);
    ValueBound(s);
    if Value(s) == 0 {
      ValueInjective(s, Repeat(0, |s|));
    }
    FromValueRoundTrip(|s|, Value(s) - 1);
    LessIsNumeric(other, s);
    LessIsNumeric(other, Decrement(s));
    if Value(Decrement(s)) == Value(other) {
      ValueInjective(Decrement(s), other);
    }
  }

  /** The greatest id wraps round to the zero id. */
  lemma SuccessorOfMax()
    ensures Successor(MaxId()) == ZeroId()
  {
    IncrementOfMax(SPAN_ID_BYTES);
  }

  lemma IncrementOfMax(n: nat)
    ensures Increment(Repeat(0xff, n)) == Repeat(0, n)
  {
    ValueOfRepeats(n);
    IncrementFromValue(Repeat(0xff, n), Repeat(0, n));
  }

  lemma ZeroIsLeast(id: SpanId)
    requires |id| == SPAN_ID_BYTES
    ensures AtMost(ZeroId(), id)
  {
    ZerosLeast(id);
  }

  lemma ZerosLeast(s: ByteString)
    ensures AtMost(Repeat(0, |s|), s)
  {
    ValueOfRepeats(|s|);
    LessIsNumeric(Repeat(0, |s|), s);
    if Value(s) == 0 {
      ValueInjective(s, Repeat(0, |s|));
    }
  }

  lemma MaxIsGreatest(id: SpanId)
    requires |id| == SPAN_ID_BYTES
    ensures AtMost(id, MaxId())
  {
    GreatestOfLength(id);
  }

  lemma GreatestOfLength(s: ByteString)
    ensures AtMost(s, Repeat(0xff, |s|))
  {
    ValueOfRepeats(|s|);
    ValueBound(s);
    LessIsNumeric(s, Repeat(0xff, |s|));
    if Value(s) == Pow256(|s|) - 1 {
      ValueInjective(s, Repeat(0xff, |s|));
    }
  }
}
