/** The span buffer of the C client's htraced receiver (receiver/htraced.c). */
module Receiver {
  import opened Bytes
  import opened Options
  import opened Contexts
  import opened SpanCodec
  import opened SpanReader

  /** The bytes of a list of spans, one after another. */
  ghost function Stream(spans: seq<CSpan>): ByteString {
    if |spans| == 0 then [] else Stream(spans[..|spans| - 1]) + SpanBytes(spans[|spans| - 1])
  }

  datatype AddResult = Added | Overrun

  /** `struct htraced_sbuf`; its `len` is the length of the array. */
  class SpanBuffer {
    const buf: array<Byte>
    var off: nat
    var numSpans: nat
    ghost var spans: seq<CSpan>

    /** The used part of the buffer holds exactly the spans added. */
    ghost predicate Valid()
      reads this, buf
    {
      off <= buf.Length && numSpans == |spans| && buf[..off] == Stream(spans)
    }

    constructor (len: nat)
      ensures Valid() && spans == [] && buf.Length == len && fresh(buf)
    {
      buf := new Byte[len];
      off, numSpans, spans := 0, 0, [];
    }

    /**
     * `htraced_rcv_add_span`: count first, then copy without checks. With enough room the copy
     * stays inside the counted space and no other byte changes. Without it the retry loop is left
     * by its `continue` and the copy would run over the end; nothing is said of the buffer then.
     */
    method AddSpan(s: CSpan) returns (r: AddResult)
      requires Valid()
      modifies this, buf
      ensures r == Added <==> old(off) + |SpanBytes(s)| <= buf.Length
      ensures r == Added ==> Valid() && spans == old(spans) + [s] && off == old(off) + |SpanBytes(s)|
      ensures r == Added ==> buf[..] == Overlay(old(buf[..]), old(off), SpanBytes(s))
    {
      hide SpanBytes, Ctx.Fits;
      var cctx := new Ctx.CounterCtx();
      var empty: ByteString := [];
      assert empty + SpanBytes(s) == SpanBytes(s);
      CounterTakesAll(cctx, SpanBytes(s));
      var ok := WriteSpan(cctx, s);
      assert ok; // the counter takes everything, so the source's error return is never used
      var msgpackLen := cctx.count;
      if buf.Length - off < msgpackLen {
        return Overrun;
      }
      Append(s, msgpackLen);
      r := Added;
    }

    /** The copying pass into the space that was counted. */
    method Append(s: CSpan, msgpackLen: nat)
      requires Valid() && msgpackLen == |SpanBytes(s)| && off + msgpackLen <= buf.Length
      modifies this, buf
      ensures Valid() && spans == old(spans) + [s]
      ensures off == old(off) + |SpanBytes(s)|
      ensures buf[..] == Overlay(old(buf[..]), old(off), SpanBytes(s))
    {
      hide SpanBytes, Stream;
      var bctx := new Ctx.BcopyCtx(buf, off, msgpackLen, true);
      var empty: ByteString := [];
      assert empty + SpanBytes(s) == SpanBytes(s);
      var _ := WriteSpan(bctx, s);
      StreamExtends(spans, s);
      assert bctx.sent == SpanBytes(s);
      assert buf[..] == Overlay(old(buf[..]), off, SpanBytes(s));
      assert buf[..off + msgpackLen] == buf[..][..off] + buf[..][off..off + msgpackLen];
      off := off + msgpackLen;
      numSpans := numSpans + 1;
      spans := spans + [s];
    }
  }

  lemma CounterTakesAll(c: Ctx, s: ByteString)
    requires c.kind.Counter?
    ensures c.Fits(s)
  {
  }

  lemma StreamExtends(spans: seq<CSpan>, s: CSpan)
    ensures Stream(spans + [s]) == Stream(spans) + SpanBytes(s)
  {
    hide SpanBytes;
    assert (spans + [s])[..|spans|] == spans;
  }

  /** Reading n spans, one after another. */
  ghost function ParseSpans(n: nat, s: ByteString): Option<(seq<CSpan>, ByteString)> {
    if n == 0 then Some(([], s))
    else
      match ParseSpans(n - 1, s)
      case None => None
      case Some((spans, rest)) =>
        match ParseSpan(rest)
        case None => None
        case Some((span, end)) => Some((spans + [span], end))
  }

  /** A full buffer reads back as the spans added, in order, whatever bytes follow them. */
  lemma {:induction false} BufferReadsBack(spans: seq<CSpan>, rest: ByteString)
    requires forall i :: 0 <= i < |spans| ==> Carried(spans[i])
    ensures ParseSpans(|spans|, Stream(spans) + rest) == Some((spans, rest))
    decreases |spans|
  {
    hide SpanBytes, ParseSpan, Carried;
    if |spans| > 0 {
      var n := |spans| - 1;
      var last := SpanBytes(spans[n]) + rest;
      BufferReadsBack(spans[..n], last);
      SpanRoundTripIff(spans[n], rest);
      assert Stream(spans) + rest == Stream(spans[..n]) + last;
      assert spans == spans[..n] + [spans[n]];
    } else {
      assert Stream(spans) + rest == rest;
    }
  }
}
