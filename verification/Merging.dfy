/** The k-way merge of the shards' scans (`source.next` in datastore.go). */
module Merging {
  import opened Bytes
  import opened Spans
  import opened Options
  import opened Predicates
  import opened Scans

  /** `spanPtrIsBefore`: nil is after everything; spans compare by the source field only. */
  predicate SpanIsBefore(p: PredicateData, a: Option<Span>, b: Option<Span>)
    requires IsSource(p)
  {
    a.Some? && (b.None? || FieldBefore(p, a.value, b.value))
  }

  predicate FieldBefore(p: PredicateData, a: Span, b: Span)
    requires IsSource(p)
  {
    var x, y := FieldBytes(p.field, a), FieldBytes(p.field, b);
    if p.op.IsDescending() then Less(y, x) else Less(x, y)
  }

  /** The shard whose head comes first, the lowest-numbered one among equals; -1 if there is none. */
  function BestOf(p: PredicateData, heads: seq<Option<Span>>): (b: int)
    requires IsSource(p)
    ensures -1 <= b < |heads| && (b >= 0 ==> heads[b].Some?)
    ensures b < 0 ==> forall i :: 0 <= i < |heads| ==> heads[i].None?
    decreases |heads|
  {
    if |heads| == 0 then -1
    else
      var n := |heads| - 1;
      var b := BestOf(p, heads[..n]);
      if SpanIsBefore(p, heads[n], if b < 0 then None else heads[b]) then n else b
  }

  function Head(spans: seq<Span>): Option<Span> {
    if |spans| == 0 then None else Some(spans[0])
  }

  function Heads(rests: seq<seq<Span>>): (hs: seq<Option<Span>>) {
    seq(|rests|, i requires 0 <= i < |rests| => Head(rests[i]))
  }

  function Total(rests: seq<seq<Span>>): nat
    decreases |rests|
  {
    if |rests| == 0 then 0 else Total(rests[..|rests| - 1]) + |rests[|rests| - 1]|
  }

  lemma {:induction false} TotalDrops(rests: seq<seq<Span>>, b: nat)
    requires b < |rests| && |rests[b]| > 0
    ensures Total(rests[b := rests[b][1..]]) == Total(rests) - 1
    decreases |rests|
  {
    var n := |rests| - 1;
    var rests' := rests[b := rests[b][1..]];
    if b == n {
      assert rests'[..n] == rests[..n];
    } else {
      TotalDrops(rests[..n], b);
      assert rests'[..n] == rests[..n][b := rests[b][1..]];
    }
  }

  /** Everything the merge hands out, in order. */
  ghost function Merge(p: PredicateData, rests: seq<seq<Span>>): (spans: seq<Span>)
    requires IsSource(p)
    decreases Total(rests)
  {
    var b := BestOf(p, Heads(rests));
    if b < 0 then []
    else
      TotalDrops(rests, b);
      [rests[b][0]] + Merge(p, rests[b := rests[b][1..]])
  }

  // ---------------------------------------------------------------- order of the result

  /** Among spans of one field value: by shard, then by id in the direction of the scan. */
  ghost predicate TieBefore(p: PredicateData, route: SpanId -> int, a: Span, b: Span) {
    route(a.id) < route(b.id) ||
    (route(a.id) == route(b.id) && if p.op.IsDescending() then Less(b.id, a.id) else Less(a.id, b.id))
  }

  /** The order in which a query returns spans: source field, shard, id. */
  ghost predicate Precedes(p: PredicateData, route: SpanId -> int, a: Span, b: Span)
    requires IsSource(p)
  {
    FieldBefore(p, a, b) || (FieldBytes(p.field, a) == FieldBytes(p.field, b) && TieBefore(p, route, a, b))
  }

  ghost predicate InResultOrder(p: PredicateData, route: SpanId -> int, spans: seq<Span>)
    requires IsSource(p)
  {
    forall i, j :: 0 <= i < j < |spans| ==> Precedes(p, route, spans[i], spans[j])
  }

  lemma FieldBeforeTotal(p: PredicateData, a: Span, b: Span)
    requires IsSource(p)
    ensures FieldBefore(p, a, b) || FieldBefore(p, b, a) || FieldBytes(p.field, a) == FieldBytes(p.field, b)
    ensures !(FieldBefore(p, a, b) && FieldBefore(p, b, a))
    ensures FieldBefore(p, a, b) ==> FieldBytes(p.field, a) != FieldBytes(p.field, b)
  {
    var x, y := FieldBytes(p.field, a), FieldBytes(p.field, b);
    LessTotal(x, y);
    LessIrreflexive(x);
    if Less(x, y) {
      LessAsymmetric(x, y);
    }
  }

  lemma FieldBeforeTransitive(p: PredicateData, a: Span, b: Span, c: Span)
    requires IsSource(p) && FieldBefore(p, a, b) && FieldBefore(p, b, c)
    ensures FieldBefore(p, a, c)
  {
    var x, y, z := FieldBytes(p.field, a), FieldBytes(p.field, b), FieldBytes(p.field, c);
    if p.op.IsDescending() {
      LessTransitive(z, y, x);
    } else {
      LessTransitive(x, y, z);
    }
  }

  /** Within one shard, visiting order is the result order. */
  lemma VisitedIsPrecedes(p: PredicateData, route: SpanId -> int, a: Span, b: Span)
    requires IsSource(p) && |a.id| == |b.id| == SPAN_ID_BYTES
    requires route(a.id) == route(b.id) && VisitedBefore(p, a, b)
    ensures Precedes(p, route, a, b)
  {
    IndexKeyOrder(p.field, a, b);
    IndexKeyOrder(p.field, b, a);
  }

  /** No head comes before the best one, and lower-numbered shards' heads come strictly after it. */
  lemma {:induction false} BestIsBest(p: PredicateData, heads: seq<Option<Span>>, j: nat)
    requires IsSource(p) && j < |heads| && heads[j].Some?
    ensures var b := BestOf(p, heads);
            b >= 0 && !FieldBefore(p, heads[j].value, heads[b].value) &&
            (j < b ==> FieldBefore(p, heads[b].value, heads[j].value))
    decreases |heads|
  {
    var n := |heads| - 1;
    var b0, b := BestOf(p, heads[..n]), BestOf(p, heads);
    FieldBeforeTotal(p, heads[j].value, heads[b].value);
    if j < n {
      BestIsBest(p, heads[..n], j);
      assert heads[..n][j] == heads[j] && heads[..n][b0] == heads[b0];
      if b == n {
        // the newcomer beats the old best, which nothing beats
        var x, y, z := heads[n].value, heads[b0].value, heads[j].value;
        FieldBeforeTotal(p, y, z);
        if FieldBefore(p, y, z) {
          FieldBeforeTransitive(p, x, y, z);
        }
      }
    }
  }

  // ---------------------------------------------------------------- the merge is a sort

  ghost predicate InSome(rests: seq<seq<Span>>, s: Span) {
    exists i :: 0 <= i < |rests| && s in rests[i]
  }

  /** Each shard's scan is in visiting order and holds only spans routed to that shard. */
  ghost predicate Mergeable(p: PredicateData, route: SpanId -> int, rests: seq<seq<Span>>)
    requires IsSource(p)
  {
    forall i :: 0 <= i < |rests| ==>
      InVisitOrder(p, rests[i]) && forall s :: s in rests[i] ==> |s.id| == SPAN_ID_BYTES && route(s.id) == i
  }

  lemma BestPrecedes(p: PredicateData, route: SpanId -> int, rests: seq<seq<Span>>, j: nat, k: nat)
    requires IsSource(p) && Mergeable(p, route, rests)
    requires j < |rests| && k < |rests[j]|
    ensures var b := BestOf(p, Heads(rests));
            b >= 0 && ((j == b ==> k > 0) ==> Precedes(p, route, rests[b][0], rests[j][k]))
  {
    var hs := Heads(rests);
    var b := BestOf(p, hs);
    BestIsBest(p, hs, j);
    var h, g, x := rests[b][0], rests[j][0], rests[j][k];
    assert h in rests[b] && g in rests[j] && x in rests[j];
    if j == b {
      if k > 0 {
        VisitedIsPrecedes(p, route, h, x);
      }
    } else {
      if k > 0 {
        VisitedIsPrecedes(p, route, g, x);
      }
      FieldBeforeTotal(p, h, g);
      if FieldBefore(p, h, g) && FieldBefore(p, g, x) {
        FieldBeforeTransitive(p, h, g, x);
      }
    }
  }

  lemma DropHead(p: PredicateData, route: SpanId -> int, rests: seq<seq<Span>>, b: nat, s: Span)
    requires IsSource(p) && Mergeable(p, route, rests) && b < |rests| && |rests[b]| > 0
    ensures Mergeable(p, route, rests[b := rests[b][1..]])
    ensures InSome(rests, s) <==> s == rests[b][0] || InSome(rests[b := rests[b][1..]], s)
  {
    var rests' := rests[b := rests[b][1..]];
    forall i | 0 <= i < |rests'|
      ensures s in rests[i] <==> s in rests'[i] || (i == b && s == rests[b][0])
    {
      if i == b {
        assert rests[b] == [rests[b][0]] + rests[b][1..];
      }
    }
    if InSome(rests, s) {
      var i :| 0 <= i < |rests| && s in rests[i];
      assert s in rests'[i] || s == rests[b][0];
    }
    if InSome(rests', s) {
      var i :| 0 <= i < |rests'| && s in rests'[i];
      assert s in rests[i];
    }
  }

  /** Merging yields every span of every shard's scan, in result order (so no span twice). */
  lemma {:induction false} MergeSorts(p: PredicateData, route: SpanId -> int, rests: seq<seq<Span>>)
    requires IsSource(p) && Mergeable(p, route, rests)
    ensures forall s :: s in Merge(p, rests) <==> InSome(rests, s)
    ensures InResultOrder(p, route, Merge(p, rests))
    decreases Total(rests)
  {
    var b := BestOf(p, Heads(rests));
    if b >= 0 {
      var h, rests' := rests[b][0], rests[b := rests[b][1..]];
      TotalDrops(rests, b);
      forall s: Span ensures InSome(rests, s) <==> s == h || InSome(rests', s) {
        DropHead(p, route, rests, b, s);
      }
      DropHead(p, route, rests, b, h);
      MergeSorts(p, route, rests');
      forall x | InSome(rests', x) ensures Precedes(p, route, h, x) {
        var j :| 0 <= j < |rests'| && x in rests'[j];
        var k :| 0 <= k < |rests'[j]| && rests'[j][k] == x;
        BestPrecedes(p, route, rests, j, if j == b then k + 1 else k);
      }
      assert Merge(p, rests) == [h] + Merge(p, rests');
    } else {
      forall s: Span ensures !InSome(rests, s) {
        assert forall i :: 0 <= i < |rests| ==> Heads(rests)[i] == Head(rests[i]);
      }
    }
  }

  // ---------------------------------------------------------------- the order determines the answer

  lemma PrecedesAsymmetric(p: PredicateData, route: SpanId -> int, a: Span, b: Span)
    requires IsSource(p) && Precedes(p, route, a, b)
    ensures !Precedes(p, route, b, a) && a != b
  {
    FieldBeforeTotal(p, a, b);
    FieldBeforeTotal(p, a, a);
    LessIrreflexive(a.id);
    if Less(a.id, b.id) {
      LessAsymmetric(a.id, b.id);
    } else if Less(b.id, a.id) {
      LessAsymmetric(b.id, a.id);
    }
  }

  /** Two lists in result order with the same members are the same list. */
  lemma {:induction false} OrderedListUnique(p: PredicateData, route: SpanId -> int, a: seq<Span>, b: seq<Span>)
    requires IsSource(p) && InResultOrder(p, route, a) && InResultOrder(p, route, b)
    requires forall s :: s in a <==> s in b
    ensures a == b
    decreases |a|
  {
    if |a| == 0 || |b| == 0 {
      NoMembers(a, b);
      NoMembers(b, a);
    } else {
      assert a[0] in b;
      assert b[0] in a;
      if a[0] != b[0] {
        var i :| 0 < i < |a| && a[i] == b[0];
        var j :| 0 < j < |b| && b[j] == a[0];
        PrecedesAsymmetric(p, route, a[0], b[0]);
      }
      forall s: Span ensures s in a[1..] <==> s in b[1..] {
        NotInTail(p, route, a, s);
        NotInTail(p, route, b, s);
      }
      OrderedListUnique(p, route, a[1..], b[1..]);
      assert a == [a[0]] + a[1..] && b == [b[0]] + b[1..];
    }
  }

  lemma NoMembers(a: seq<Span>, b: seq<Span>)
    requires forall s :: s in b ==> s in a
    ensures |b| > 0 ==> |a| > 0
  {
    if |b| > 0 {
      var s := b[0];
      assert s in a;
    }
  }

  lemma NotInTail(p: PredicateData, route: SpanId -> int, a: seq<Span>, s: Span)
    requires IsSource(p) && InResultOrder(p, route, a) && |a| > 0
    ensures s in a[1..] <==> s in a && s != a[0]
  {
    if s in a[1..] {
      var i :| 0 < i < |a| && a[i] == s;
      PrecedesAsymmetric(p, route, a[0], s);
    }
  }
}
