/** The metrics sink: global counters, per-host counters and recent latencies (metrics.go). */
module Metrics {
  import opened Bytes

  type UInt32 = x: int | 0 <= x < 0x1_0000_0000

  const LATENCY_CIRC_BUF_SIZE := 4096

  // ---------------------------------------------------------------- recent values

  function Sum(s: seq<UInt32>): (t: nat)
    decreases |s|
  {
    if |s| == 0 then 0 else Sum(s[..|s| - 1]) + s[|s| - 1]
  }

  lemma {:induction false} SumConcat(a: seq<UInt32>, b: seq<UInt32>)
    ensures Sum(a + b) == Sum(a) + Sum(b)
    decreases |b|
  {
    if |b| == 0 {
      assert a + b == a;
    } else {
      SumConcat(a, b[..|b| - 1]);
      assert (a + b)[..|a + b| - 1] == a + b[..|b| - 1];
    }
  }

  lemma {:induction false} SumBound(s: seq<UInt32>)
    ensures Sum(s) <= |s| * 0xffff_ffff
    decreases |s|
  {
    if |s| > 0 {
      SumBound(s[..|s| - 1]);
    }
  }

  /** The last n values, or all of them if there are fewer. */
  function LastOf(s: seq<UInt32>, n: nat): (r: seq<UInt32>) {
    if |s| <= n then s else s[|s| - n..]
  }

  /** The values in a circular buffer whose next slot to fill is given, oldest first. */
  function WindowOf(b: seq<UInt32>, slot: nat, full: bool): (w: seq<UInt32>)
    requires slot <= |b|
  {
    if full then b[slot..] + b[..slot] else b[..slot]
  }

  lemma WindowAppend(b: seq<UInt32>, slot: nat, full: bool, val: UInt32)
    requires slot < |b|
    ensures var next := slot + 1;
            WindowOf(b[slot := val], if next == |b| then 0 else next, full || next == |b|) ==
            LastOf(WindowOf(b, slot, full) + [val], |b|)
  {
    var b' := b[slot := val];
    var w := WindowOf(b, slot, full) + [val];
    if full {
      assert w[1..] == b[slot + 1..] + (b[..slot] + [val]);
      assert b'[slot + 1..] == b[slot + 1..] && b'[..slot + 1] == b[..slot] + [val];
    } else {
      assert b'[..slot + 1] == b[..slot] + [val];
    }
  }

  lemma WindowMembers(b: seq<UInt32>, slot: nat, full: bool)
    requires slot <= |b|
    ensures forall v :: v in WindowOf(b, slot, full) <==> v in b[..if full then |b| else slot]
  {
    if full {
      assert b[..|b|] == b[..slot] + b[slot..];
    }
  }

  lemma WindowSum(b: seq<UInt32>, slot: nat, full: bool)
    requires slot <= |b|
    ensures Sum(WindowOf(b, slot, full)) == Sum(b[..if full then |b| else slot])
  {
    if full {
      assert b[..|b|] == b[..slot] + b[slot..];
      SumConcat(b[..slot], b[slot..]);
      SumConcat(b[slot..], b[..slot]);
    }
  }

  lemma LastOfAppend(s: seq<UInt32>, n: nat, val: UInt32)
    requires n > 0
    ensures LastOf(LastOf(s, n) + [val], n) == LastOf(s + [val], n)
  {
  }

  /** A fixed-size buffer that always holds the most recent values. */
  class CircBufU32 {
    var slot: nat
    var slotsUsed: int
    const buf: array<UInt32>
    ghost var history: seq<UInt32>

    /** The buffered values, oldest first. */
    ghost function Window(): (w: seq<UInt32>)
      requires slot <= buf.Length
      reads this, buf
    {
      WindowOf(buf[..], slot, slotsUsed == buf.Length)
    }

    ghost predicate Valid()
      reads this, buf
    {
      0 < buf.Length <= 0x1_0000_0000 && slot < buf.Length &&
      (slotsUsed < buf.Length ==> slotsUsed == if slot == 0 then -1 else slot) && slotsUsed <= buf.Length &&
      Window() == LastOf(history, buf.Length)
    }

    constructor (size: nat)
      requires 0 < size <= 0x1_0000_0000
      ensures Valid() && history == [] && buf.Length == size && fresh(buf)
    {
      slot, slotsUsed, history := 0, -1, [];
      buf := new UInt32[size](_ => 0);
    }

    method Append(val: UInt32)
      requires Valid()
      modifies this, buf
      ensures Valid() && history == old(history) + [val]
    {
      WindowAppend(buf[..], slot, slotsUsed == buf.Length, val);
      LastOfAppend(history, buf.Length, val);
      buf[slot] := val;
      history := history + [val];
      slot := slot + 1;
      if slotsUsed < slot {
        slotsUsed := slot;
      }
      if slot >= buf.Length {
        slot := 0;
      }
    }

    /** The greatest recent value; zero when there is none. */
    method Max() returns (max: UInt32)
      requires Valid()
      ensures forall v :: v in LastOf(history, buf.Length) ==> v <= max
      ensures max in LastOf(history, buf.Length) || (history == [] && max == 0)
    {
      max := 0;
      var bufIdx := 0;
      while bufIdx < slotsUsed
        invariant 0 <= bufIdx <= if slotsUsed < 0 then 0 else slotsUsed
        invariant forall i :: 0 <= i < bufIdx ==> buf[i] <= max
        invariant if bufIdx == 0 then max == 0 else max in buf[..bufIdx]
      {
        if buf[bufIdx] > max {
          max := buf[bufIdx];
        }
        bufIdx := bufIdx + 1;
      }
      WindowMembers(buf[..], slot, slotsUsed == buf.Length);
    }

    /** The mean of the recent values, rounded down; zero when there are none. */
    method Average() returns (avg: UInt32)
      requires Valid()
      ensures avg == if history == [] then 0 else Mean(LastOf(history, buf.Length))
    {
      hide Mean;
      var total: nat := 0;
      var bufIdx := 0;
      while bufIdx < slotsUsed
        invariant 0 <= bufIdx <= if slotsUsed < 0 then 0 else slotsUsed
        invariant total == Sum(buf[..bufIdx])
      {
        assert buf[..bufIdx + 1][..bufIdx] == buf[..bufIdx];
        total := total + buf[bufIdx];
        bufIdx := bufIdx + 1;
      }
      SumBound(buf[..bufIdx]);
      assert total < 0x1_0000_0000_0000_0000; // the uint64 accumulator does not wrap
      if slotsUsed < 0 {
        avg := total / 0xffff_ffff_ffff_ffff; // the divisor is uint64(-1)
      } else {
        WindowSum(buf[..], slot, slotsUsed == buf.Length);
        assert buf[..slotsUsed] == buf[..][..slotsUsed];
        avg := Divide(total, slotsUsed, Window());
      }
    }
  }

  function Mean(s: seq<UInt32>): (m: nat)
    requires |s| > 0
    ensures m * |s| <= Sum(s) < (m + 1) * |s|
  {
    Sum(s) / |s|
  }

  method Divide(total: nat, n: nat, ghost s: seq<UInt32>) returns (q: UInt32)
    requires n == |s| > 0 && total == Sum(s)
    ensures q == Mean(s)
  {
    SumBound(s);
    q := total / n;
  }

  // ---------------------------------------------------------------- counters

  datatype SpanMetrics = SpanMetrics(written: nat, serverDropped: nat)

  type HostMap = map<ByteString, SpanMetrics>

  /** A counter added up over some hosts. */
  ghost function TotalOver(m: HostMap, hosts: set<ByteString>, counter: SpanMetrics -> nat): (t: nat)
    requires hosts <= m.Keys
    decreases |hosts|
  {
    if hosts == {} then 0
    else
      var k :| k in hosts;
      counter(m[k]) + TotalOver(m, hosts - {k}, counter)
  }

  ghost function Total(m: HostMap, counter: SpanMetrics -> nat): (t: nat) {
    TotalOver(m, m.Keys, counter)
  }

  /** The order in which hosts are added up does not matter. */
  lemma {:induction false} TotalSplits(m: HostMap, hosts: set<ByteString>, counter: SpanMetrics -> nat, k: ByteString)
    requires k in hosts && hosts <= m.Keys
    ensures TotalOver(m, hosts, counter) == counter(m[k]) + TotalOver(m, hosts - {k}, counter)
    decreases |hosts|
  {
    var k0 :| k0 in hosts && TotalOver(m, hosts, counter) == counter(m[k0]) + TotalOver(m, hosts - {k0}, counter);
    if k != k0 {
      TotalSplits(m, hosts - {k0}, counter, k);
      TotalSplits(m, hosts - {k}, counter, k0);
      assert hosts - {k0} - {k} == hosts - {k} - {k0};
    }
  }

  lemma {:induction false} TotalAgrees(m: HostMap, m': HostMap, hosts: set<ByteString>, counter: SpanMetrics -> nat)
    requires hosts <= m.Keys && hosts <= m'.Keys && forall k :: k in hosts ==> m[k] == m'[k]
    ensures TotalOver(m, hosts, counter) == TotalOver(m', hosts, counter)
    decreases |hosts|
  {
    if hosts != {} {
      var k :| k in hosts;
      TotalSplits(m, hosts, counter, k);
      TotalSplits(m', hosts, counter, k);
      TotalAgrees(m, m', hosts - {k}, counter);
    }
  }

  lemma TotalRemoves(m: HostMap, counter: SpanMetrics -> nat, k: ByteString)
    requires k in m
    ensures Total(m, counter) == counter(m[k]) + Total(m - {k}, counter)
  {
    TotalSplits(m, m.Keys, counter, k);
    TotalAgrees(m, m - {k}, m.Keys - {k}, counter);
    assert (m - {k}).Keys == m.Keys - {k};
  }

  lemma TotalInserts(m: HostMap, counter: SpanMetrics -> nat, k: ByteString, v: SpanMetrics)
    requires k !in m
    ensures Total(m[k := v], counter) == counter(v) + Total(m, counter)
  {
    TotalRemoves(m[k := v], counter, k);
    assert m[k := v] - {k} == m;
  }

  const WRITTEN: SpanMetrics -> nat := (m: SpanMetrics) => m.written
  const DROPPED: SpanMetrics -> nat := (m: SpanMetrics) => m.serverDropped

  /** The host map stays small, and its counters never exceed the global ones. */
  ghost predicate Accounted(m: HostMap, maxMtx: int, written: nat, dropped: nat) {
    |m| <= (if maxMtx < 1 then 1 else maxMtx) && Total(m, WRITTEN) <= written && Total(m, DROPPED) <= dropped
  }

  class MetricsSink {
    const maxMtx: int
    var ingestedSpans: nat
    var writtenSpans: nat
    var serverDropped: nat
    var hostSpanMetrics: HostMap
    const wsLatencyCircBuf: CircBufU32

    ghost predicate Valid()
      reads this, wsLatencyCircBuf, wsLatencyCircBuf.buf
    {
      wsLatencyCircBuf.Valid() && Accounted(hostSpanMetrics, maxMtx, writtenSpans, serverDropped)
    }

    constructor (maxMtx: int)
      ensures Valid() && ingestedSpans == writtenSpans == serverDropped == 0 && hostSpanMetrics == map[]
    {
      this.maxMtx := maxMtx;
      ingestedSpans, writtenSpans, serverDropped, hostSpanMetrics := 0, 0, 0, map[];
      wsLatencyCircBuf := new CircBufU32(LATENCY_CIRC_BUF_SIZE);
    }

    /** The per-host part of an update, after the global counters have been raised. */
    method UpdateSpanMetrics(addr: ByteString, numWritten: nat, dropped: nat)
      requires numWritten <= writtenSpans && dropped <= serverDropped
      requires Accounted(hostSpanMetrics, maxMtx, writtenSpans - numWritten, serverDropped - dropped)
      modifies this`hostSpanMetrics
      ensures Accounted(hostSpanMetrics, maxMtx, writtenSpans, serverDropped)
      ensures HostUpdated(old(hostSpanMetrics), hostSpanMetrics, addr, numWritten, dropped)
      ensures addr in old(hostSpanMetrics) || |old(hostSpanMetrics)| < maxMtx ==>
                KeepsHosts(old(hostSpanMetrics), hostSpanMetrics)
    {
      hide Accounted, Total, LosesAtMostOne, HostUpdated, KeepsHosts;
      var m, mtx := MakeRoom(hostSpanMetrics, addr, maxMtx, writtenSpans - numWritten, serverDropped - dropped);
      InsertUpdates(hostSpanMetrics, m, addr, mtx, numWritten, dropped);
      mtx := SpanMetrics(mtx.written + numWritten, mtx.serverDropped + dropped);
      InsertAccounted(m, addr, mtx, maxMtx, writtenSpans, serverDropped);
      hostSpanMetrics := m[addr := mtx];
    }

    method UpdateIngested(addr: ByteString, totalIngested: nat, dropped: nat, wsLatencyNs: int)
      requires Valid()
      modifies this, wsLatencyCircBuf, wsLatencyCircBuf.buf
      ensures Valid()
      ensures ingestedSpans == old(ingestedSpans) + totalIngested && serverDropped == old(serverDropped) + dropped
      ensures writtenSpans == old(writtenSpans)
      ensures HostUpdated(old(hostSpanMetrics), hostSpanMetrics, addr, 0, dropped)
      ensures wsLatencyCircBuf.history == old(wsLatencyCircBuf.history) + [LatencyMs(wsLatencyNs)]
    {
      hide HostUpdated;
      ingestedSpans := ingestedSpans + totalIngested;
      serverDropped := serverDropped + dropped;
      UpdateSpanMetrics(addr, 0, dropped);
      wsLatencyCircBuf.Append(LatencyMs(wsLatencyNs));
    }

    method UpdatePersisted(addr: ByteString, totalWritten: nat, dropped: nat)
      requires Valid()
      modifies this
      ensures Valid()
      ensures writtenSpans == old(writtenSpans) + totalWritten && serverDropped == old(serverDropped) + dropped
      ensures ingestedSpans == old(ingestedSpans)
      ensures HostUpdated(old(hostSpanMetrics), hostSpanMetrics, addr, totalWritten, dropped)
    {
      hide HostUpdated;
      writtenSpans := writtenSpans + totalWritten;
      serverDropped := serverDropped + dropped;
      UpdateSpanMetrics(addr, totalWritten, dropped);
    }
  }

  ghost predicate LosesAtMostOne(before: set<ByteString>, after: set<ByteString>) {
    forall x, y :: x in before && x !in after && y in before && y !in after ==> x == y
  }

  /** The host's counters are raised, at most one other host is gone, and the rest are as they were. */
  ghost predicate HostUpdated(before: HostMap, after: HostMap, addr: ByteString, numWritten: nat, dropped: nat) {
    var was := if addr in before then before[addr] else SpanMetrics(0, 0);
    addr in after && after[addr] == SpanMetrics(was.written + numWritten, was.serverDropped + dropped) &&
    LosesAtMostOne(before.Keys, after.Keys) &&
    forall k :: k in after && k != addr ==> k in before && after[k] == before[k]
  }

  ghost predicate KeepsHosts(before: HostMap, after: HostMap) {
    forall k :: k in before ==> k in after
  }

  lemma InsertUpdates(before: HostMap, m: HostMap, k: ByteString, was: SpanMetrics, numWritten: nat, dropped: nat)
    requires LosesAtMostOne(before.Keys, m.Keys) && was == if k in before then before[k] else SpanMetrics(0, 0)
    requires forall x :: x in m ==> x in before && m[x] == before[x]
    ensures var after := m[k := SpanMetrics(was.written + numWritten, was.serverDropped + dropped)];
            HostUpdated(before, after, k, numWritten, dropped) &&
            (before.Keys <= m.Keys + {k} ==> KeepsHosts(before, after))
  {
  }

  /** Take the host's own entry out of the map, or make room for a new one by evicting some host. */
  method MakeRoom(m: HostMap, addr: ByteString, maxMtx: int, ghost written: nat, ghost dropped: nat)
    returns (m': HostMap, mtx: SpanMetrics)
    requires Accounted(m, maxMtx, written, dropped)
    ensures addr !in m' && m'.Keys <= m.Keys && |m'| < (if maxMtx < 1 then 1 else maxMtx)
    ensures LosesAtMostOne(m.Keys, m'.Keys)
    ensures addr in m || |m| < maxMtx ==> m.Keys <= m'.Keys + {addr}
    ensures forall k :: k in m' ==> k in m && m'[k] == m[k]
    ensures mtx == if addr in m then m[addr] else SpanMetrics(0, 0)
    ensures Total(m', WRITTEN) + mtx.written <= written && Total(m', DROPPED) + mtx.serverDropped <= dropped
  {
    hide Total;
    m', mtx := m, SpanMetrics(0, 0);
    if addr in m {
      mtx := m[addr];
      m' := RemoveHost(m, addr);
    } else if |m| >= maxMtx && |m| > 0 {
      var victim :| victim in m; // Go's map iteration starts anywhere
      m' := RemoveHost(m, victim);
    }
  }

  method RemoveHost(m: HostMap, k: ByteString) returns (m': HostMap)
    requires k in m
    ensures m' == m - {k} && |m'| == |m| - 1
    ensures Total(m', WRITTEN) + m[k].written == Total(m, WRITTEN)
    ensures Total(m', DROPPED) + m[k].serverDropped == Total(m, DROPPED)
  {
    m' := m - {k};
    TotalRemoves(m, WRITTEN, k);
    TotalRemoves(m, DROPPED, k);
    assert m'.Keys == m.Keys - {k};
  }

  lemma InsertAccounted(m: HostMap, k: ByteString, v: SpanMetrics, maxMtx: int, written: nat, dropped: nat)
    requires k !in m && |m| < (if maxMtx < 1 then 1 else maxMtx)
    requires Total(m, WRITTEN) + v.written <= written && Total(m, DROPPED) + v.serverDropped <= dropped
    ensures Accounted(m[k := v], maxMtx, written, dropped)
  {
    hide Total;
    TotalInserts(m, WRITTEN, k, v);
    TotalInserts(m, DROPPED, k, v);
    assert m[k := v].Keys == m.Keys + {k};
  }

  /** Whole milliseconds, rounded toward zero, capped at the uint32 maximum, a negative count wrapping. */
  function LatencyMs(ns: int): (ms: UInt32)
    ensures 0 <= ns < 0x1_0000_0000 * 1_000_000 ==> ms * 1_000_000 <= ns < (ms + 1) * 1_000_000
    ensures ns >= 0x1_0000_0000 * 1_000_000 ==> ms == 0xffff_ffff
    ensures ns < 0 ==> exists q: nat :: q * 1_000_000 <= -ns < (q + 1) * 1_000_000 && (ms + q) % 0x1_0000_0000 == 0
  {
    assert ns < 0 ==> var q := -ns / 1_000_000; q * 1_000_000 <= -ns < (q + 1) * 1_000_000;
    var q := if ns >= 0 then ns / 1000000 else -(-ns / 1000000);
    if q > 0xffff_ffff then 0xffff_ffff else q % 0x1_0000_0000
  }
}
