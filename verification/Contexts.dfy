/** The counting and copying contexts that the serializer writes into and reads from (util/cmp_util.c). */
module Contexts {
  import opened Bytes

  /** Which write function the context holds. */
  datatype Kind = Counter | Checked | Unchecked

  datatype Error =
    | ERROR_NONE
    | STR_DATA_LENGTH_TOO_LONG_ERROR
    | BIN_DATA_LENGTH_TOO_LONG_ERROR
    | INPUT_VALUE_TOO_LARGE_ERROR
    | FIXED_VALUE_WRITING_ERROR
    | TYPE_MARKER_READING_ERROR
    | TYPE_MARKER_WRITING_ERROR
    | DATA_READING_ERROR
    | DATA_WRITING_ERROR
    | EXT_TYPE_READING_ERROR
    | EXT_TYPE_WRITING_ERROR
    | INVALID_TYPE_ERROR
    | LENGTH_READING_ERROR
    | LENGTH_WRITING_ERROR

  /** A buffer's contents once `sent` has been copied into it at `base`. */
  ghost function Overlay(orig: ByteString, base: nat, sent: ByteString): (s: ByteString)
    requires base + |sent| <= |orig|
    ensures |s| == |orig|
    ensures s[base..base + |sent|] == sent
    ensures s[..base] == orig[..base] && s[base + |sent|..] == orig[base + |sent|..]
  {
    orig[..base] + sent + orig[base + |sent|..]
  }

  class Ctx {
    var error: Error
    const kind: Kind
    /** The memory the context points into, and where in it its buffer starts. */
    const buf: array<Byte>
    const base: nat
    const len: nat
    var count: nat
    var off: nat
    /** What the buffer held at the start, and every byte accepted since. */
    ghost const orig: ByteString
    ghost var sent: ByteString

    /** The accepted bytes are counted, or lie in the buffer with everything around them as it was. */
    ghost predicate Valid()
      reads this, buf
    {
      match kind
      case Counter => count == |sent|
      case _ =>
        off == |sent| && Fits(sent) && |orig| == buf.Length && base + |sent| <= buf.Length &&
        buf[..] == Overlay(orig, base, sent) && (kind.Checked? ==> base + len <= buf.Length)
    }

    /** Only the checked writer has a limit of its own. */
    ghost predicate Fits(s: ByteString) {
      kind.Checked? ==> |s| <= len
    }

    /** What such a context keeps of the bytes sent to it. */
    ghost function Kept(s: ByteString): (k: ByteString)
      ensures Fits(s) ==> k == s
      ensures !Fits(s) ==> k == s[..len]
      ensures kind.Unchecked? ==> k == s
    {
      if Fits(s) then s else s[..len]
    }

    /** Callers of the unchecked writer must have made room themselves. */
    ghost predicate CanTake(n: nat)
      reads this
    {
      kind.Unchecked? ==> base + |sent| + n <= buf.Length
    }

    constructor CounterCtx()
      ensures Valid() && kind == Counter && sent == [] && error == ERROR_NONE && fresh(buf)
    {
      kind, error, sent, count, off, len, base, orig := Counter, ERROR_NONE, [], 0, 0, 0, 0, [];
      buf := new Byte[0];
    }

    /** `nocheck` replaces the write function, as the receiver does before it appends a span. */
    constructor BcopyCtx(buf: array<Byte>, base: nat, len: nat, nocheck: bool)
      requires base + len <= buf.Length
      ensures Valid() && kind == (if nocheck then Unchecked else Checked) && sent == [] && error == ERROR_NONE
      ensures this.buf == buf && this.base == base && this.len == len && orig == buf[..]
    {
      kind, error := if nocheck then Unchecked else Checked, ERROR_NONE;
      this.buf, this.base, this.len, off, count := buf, base, len, 0, 0;
      orig, sent := buf[..], [];
      new;
      assert buf[..] == buf[..base] + [] + buf[base..];
    }

    /** Count or copy as many bytes as the context takes. */
    method Write(data: ByteString) returns (n: nat)
      requires Valid() && CanTake(|data|)
      modifies this`count, this`off, this`sent, buf
      ensures Valid() && sent == Kept(old(sent) + data)
      ensures n == |sent| - old(|sent|)
    {
      n := |data|;
      if kind.Counter? {
        count := count + n;
        sent := sent + data;
      } else {
        if kind.Checked? && len - off < n {
          n := len - off;
        }
        Copy(data[..n]);
        assert sent + data[..n] == Kept(sent + data);
        off := off + n;
        sent := sent + data[..n];
      }
    }

    /** `memcpy` to the current offset. */
    method Copy(data: ByteString)
      requires Valid() && !kind.Counter? && base + off + |data| <= buf.Length
      modifies buf
      ensures buf[..] == Overlay(orig, base, sent + data)
    {
      ghost var before := buf[..];
      forall i | 0 <= i < |data| {
        buf[base + off + i] := data[i];
      }
      CopyOverlays(orig, base, sent, data, before, buf[..]);
    }

    // -------------------------------------------------------------- reading

    ghost predicate Readable()
      reads this
    {
      kind.Checked? && base + len <= buf.Length && off <= len
    }

    /** The bytes not yet read. */
    ghost function Unread(): ByteString
      requires Readable()
      reads this, buf
    {
      buf[base + off..base + len]
    }

    /** Copy up to |stale| bytes over `stale`, the destination's former contents. */
    method Read(stale: ByteString) returns (n: nat, data: ByteString)
      requires Readable()
      modifies this`off
      ensures Readable() && n == (if |stale| <= |old(Unread())| then |stale| else |old(Unread())|)
      ensures data == old(Unread())[..n] + stale[n..]
      ensures Unread() == old(Unread())[n..]
    {
      n := len - off;
      if n > |stale| {
        n := |stale|;
      }
      data := buf[base + off..base + off + n] + stale[n..];
      off := off + n;
    }
  }

  lemma CopyOverlays(orig: ByteString, base: nat, sent: ByteString, data: ByteString, before: ByteString,
                     now: ByteString)
    requires base + |sent| + |data| <= |orig| && before == Overlay(orig, base, sent) && |now| == |before|
    requires forall i :: 0 <= i < |now| ==>
               now[i] == if base + |sent| <= i < base + |sent| + |data| then data[i - base - |sent|] else before[i]
    ensures now == Overlay(orig, base, sent + data)
  {
  }

  /** Sending a then b is sending a + b; once something did not fit, nothing more is kept. */
  lemma KeptChain(c: Ctx, s: ByteString, a: ByteString, b: ByteString)
    ensures c.Kept(c.Kept(s + a) + b) == c.Kept(s + (a + b))
    ensures !c.Fits(s + a) ==> c.Kept(s + a) == c.Kept(s + (a + b)) && !c.Fits(s + (a + b))
    ensures c.Fits(s + (a + b)) ==> c.Fits(c.Kept(s + a) + b)
  {
    assert s + (a + b) == (s + a) + b;
    if !c.Fits(s + a) {
      assert (s + (a + b))[..c.len] == (s + a)[..c.len] == (c.Kept(s + a) + b)[..c.len];
    }
  }
}
