/** Sorting and deduplicating a span's parents in place (core/span.c). */
module Parents {
  import opened SpanCodec

  /** Strictly ascending in the order of `htrace_span_id_compare`. */
  ghost predicate Ascending(s: seq<CId>) {
    forall i, j :: 0 <= i < j < |s| ==> Compare(s[i], s[j]) < 0
  }

  ghost predicate Sorted(s: seq<CId>) {
    forall i, j :: 0 <= i < j < |s| ==> Compare(s[i], s[j]) <= 0
  }

  ghost predicate SameIds(a: seq<CId>, b: seq<CId>) {
    forall x :: x in a <==> x in b
  }

  /** An ascending list is determined by its set of ids. */
  lemma {:induction false} AscendingUnique(a: seq<CId>, b: seq<CId>)
    requires Ascending(a) && Ascending(b) && SameIds(a, b)
    ensures a == b
    decreases |a|
  {
    assert |b| > 0 ==> b[0] in a;
    assert |a| > 0 ==> a[0] in b;
    if |a| > 0 && |b| > 0 {
      var m, n := |a| - 1, |b| - 1;
      assert a[m] in b && b[n] in a;
      LastIsGreatest(a, b[n]);
      LastIsGreatest(b, a[m]);
      DropLast(a, b);
      AscendingUnique(a[..m], b[..n]);
      assert a == a[..m] + [a[m]] && b == b[..n] + [b[n]];
    }
  }

  lemma LastIsGreatest(a: seq<CId>, x: CId)
    requires Ascending(a) && x in a
    ensures Compare(x, a[|a| - 1]) <= 0
  {
  }

  lemma DropLast(a: seq<CId>, b: seq<CId>)
    requires |a| > 0 && |b| > 0 && Ascending(a) && Ascending(b) && SameIds(a, b) && a[|a| - 1] == b[|b| - 1]
    ensures SameIds(a[..|a| - 1], b[..|b| - 1])
  {
    var m, n := |a| - 1, |b| - 1;
    forall x ensures x in a[..m] <==> x in b[..n] {
      assert x in a[..m] <==> x in a && x != a[m] by { assert a == a[..m] + [a[m]]; }
      assert x in b[..n] <==> x in b && x != b[n] by { assert b == b[..n] + [b[n]]; }
    }
  }

  // ---------------------------------------------------------------- qsort

  function Insert(x: CId, s: seq<CId>): seq<CId> {
    if |s| == 0 || Compare(x, s[0]) <= 0 then [x] + s else [s[0]] + Insert(x, s[1..])
  }

  /** The C library's `qsort`, as far as callers can tell: ids that compare equal are equal. */
  function Qsort(s: seq<CId>): seq<CId> {
    if |s| == 0 then [] else Insert(s[0], Qsort(s[1..]))
  }

  lemma {:induction false} InsertIds(x: CId, s: seq<CId>)
    ensures multiset(Insert(x, s)) == multiset{x} + multiset(s)
    decreases |s|
  {
    if |s| > 0 && Compare(x, s[0]) > 0 {
      InsertIds(x, s[1..]);
      assert s == [s[0]] + s[1..];
    }
  }

  lemma SortedCons(x: CId, s: seq<CId>)
    requires Sorted(s) && forall y :: y in s ==> Compare(x, y) <= 0
    ensures Sorted([x] + s)
  {
    var r := [x] + s;
    forall i, j | 0 <= i < j < |r| ensures Compare(r[i], r[j]) <= 0 {
      assert r[j] == s[j - 1];
      if i > 0 {
        assert r[i] == s[i - 1];
      }
    }
  }

  lemma FirstIsLeast(x: CId, s: seq<CId>, y: CId)
    requires Sorted(s) && y in s && Compare(x, s[0]) <= 0
    ensures Compare(x, y) <= 0
  {
    var k :| 0 <= k < |s| && s[k] == y;
    assert k > 0 ==> Compare(s[0], s[k]) <= 0;
  }

  lemma {:induction false} InsertKeepsSorted(x: CId, s: seq<CId>)
    requires Sorted(s)
    ensures Sorted(Insert(x, s))
    decreases |s|
  {
    hide Compare, Sorted;
    if |s| == 0 {
      SortedCons(x, s);
    } else if Compare(x, s[0]) <= 0 {
      forall y | y in s ensures Compare(x, y) <= 0 {
        FirstIsLeast(x, s, y);
      }
      SortedCons(x, s);
    } else {
      SortedTail(s);
      InsertKeepsSorted(x, s[1..]);
      InsertIds(x, s[1..]);
      forall y | y in Insert(x, s[1..]) ensures Compare(s[0], y) <= 0 {
        assert y in multiset(Insert(x, s[1..]));
        Opposite(x, s[0]);
        if y != x {
          assert y in s[1..];
          FirstOfTail(s, y);
        }
      }
      SortedCons(s[0], Insert(x, s[1..]));
    }
  }

  lemma SortedTail(s: seq<CId>)
    requires Sorted(s) && |s| > 0
    ensures Sorted(s[1..])
  {
  }

  lemma FirstOfTail(s: seq<CId>, y: CId)
    requires Sorted(s) && |s| > 0 && y in s[1..]
    ensures Compare(s[0], y) <= 0
  {
    var k :| 0 <= k < |s[1..]| && s[1..][k] == y;
    assert y == s[k + 1];
  }

  lemma Opposite(x: CId, y: CId)
    ensures Compare(x, y) > 0 ==> Compare(y, x) <= 0
  {
  }

  lemma {:induction false} QsortSorts(s: seq<CId>)
    ensures Sorted(Qsort(s)) && multiset(Qsort(s)) == multiset(s) && |Qsort(s)| == |s|
    decreases |s|
  {
    if |s| > 0 {
      QsortSorts(s[1..]);
      InsertKeepsSorted(s[0], Qsort(s[1..]));
      InsertIds(s[0], Qsort(s[1..]));
      assert s == [s[0]] + s[1..];
      assert |multiset(Qsort(s))| == |Qsort(s)|;
    }
  }

  // ---------------------------------------------------------------- the span's parents

  class ParentList {
    var numParents: nat
    /** The members of a C union: `single` counts for one parent, `list` for more. */
    var single: CId
    var list: array<CId>

    ghost predicate Valid()
      reads this
    {
      numParents > 1 ==> numParents <= list.Length
    }

    ghost function Parents(): seq<CId>
      requires Valid()
      reads this, list
    {
      if numParents == 0 then [] else if numParents == 1 then [single] else list[..numParents]
    }

    /** `htrace_span_sort_and_dedupe_parents`. */
    method SortAndDedupe(reallocOk: bool)
      requires Valid()
      modifies this, list
      ensures Valid() && Ascending(Parents()) && SameIds(Parents(), old(Parents()))
      ensures list == old(list) || fresh(list)
    {
      if numParents <= 1 {
        return;
      }
      var n := numParents;
      ghost var before := list[..n];
      SortPrefix(list, n);
      ghost var s := list[..n];
      var prev, j := Compact(list, n);
      KeptAll(before, s, list[..j]);
      numParents := j;
      if j == 1 {
        single := prev;
        assert list[..j] == [prev];
      } else if j != n && reallocOk {
        var nlist := new CId[j](i requires 0 <= i < list.Length reads this, list => list[i]);
        assert nlist[..j] == list[..j];
        list := nlist;
      }
    }
  }

  lemma KeptAll(before: seq<CId>, s: seq<CId>, after: seq<CId>)
    requires multiset(s) == multiset(before) && SameIds(after, s)
    ensures SameIds(after, before)
  {
    forall x ensures x in after <==> x in before {
      assert x in s <==> x in multiset(s);
      assert x in before <==> x in multiset(before);
    }
  }

  method SortPrefix(list: array<CId>, n: nat)
    requires n <= list.Length
    modifies list
    ensures Sorted(list[..n]) && multiset(list[..n]) == multiset(old(list[..n]))
  {
    var s := Qsort(list[..n]);
    QsortSorts(list[..n]);
    forall i | 0 <= i < n {
      list[i] := s[i];
    }
    assert list[..n] == s;
  }

  lemma OneIsAscending(x: CId)
    ensures Ascending([x]) && SameIds([x], [x])
  {
  }

  lemma SameIdsNext(a: seq<CId>, b: seq<CId>, x: CId)
    requires SameIds(a, b)
    ensures SameIds(a + [x], b + [x]) && (x in b ==> SameIds(a, b + [x]))
  {
  }

  lemma EqualIds(x: CId, y: CId)
    ensures Compare(x, y) == 0 <==> x == y
  {
  }

  lemma AppendAscending(s: seq<CId>, x: CId)
    requires |s| > 0 && Ascending(s) && Compare(s[|s| - 1], x) < 0
    ensures Ascending(s + [x])
  {
  }

  /** Move the first of each run of equal ids to the front; j of them are left. */
  method Compact(list: array<CId>, n: nat) returns (prev: CId, j: nat)
    requires 1 < n <= list.Length && Sorted(list[..n])
    modifies list
    ensures 1 <= j <= n && prev == list[j - 1]
    ensures Ascending(list[..j]) && SameIds(list[..j], old(list[..n]))
  {
    hide Compare, SameIds, Ascending;
    ghost var s := list[..n];
    prev := list[0];
    j := 1;
    OneIsAscending(s[0]);
    assert list[..1] == s[..1] == [s[0]];
    for i := 1 to n
      invariant 1 <= j <= i && prev == list[j - 1] == s[i - 1]
      invariant forall k :: i <= k < n ==> list[k] == s[k]
      invariant Ascending(list[..j]) && SameIds(list[..j], s[..i])
    {
      assert s[..i + 1] == s[..i] + [s[i]];
      assert Compare(s[i - 1], s[i]) <= 0;
      EqualIds(s[i - 1], s[i]);
      SameIdsNext(list[..j], s[..i], s[i]);
      if Compare(prev, list[i]) != 0 {
        ghost var kept := list[..j];
        AppendAscending(kept, s[i]);
        prev := list[i];
        list[j] := list[i];
        j := j + 1;
        assert list[..j] == kept + [s[i]];
      } else {
        assert s[i] == s[i - 1] && s[i - 1] in s[..i];
      }
    }
    assert s[..n] == s;
  }
}
