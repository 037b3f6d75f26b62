/** The linear-probing hash table of the C client (util/htable.c). */
module HashTable {
  import opened Counting
  import opened Options

  datatype Slot<+K, +V> = Free | Used(key: K, val: V)

  /** What a call returns; past 2^31 slots the 32-bit capacity doubles to zero and the outcome is undefined. */
  datatype Errno = OK | EINVAL | ENOMEM | Undefined

  const HTABLE_MIN_SIZE := 4
  const MAX_UINT32 := 0xffff_ffff

  // ---------------------------------------------------------------- probing

  /** How many probe steps lead from `start` to `j`. */
  function Offset(start: nat, j: nat, n: nat): (t: nat)
    requires start < n && j < n
    ensures t < n && RingIndex(start, t, n) == j
  {
    if start <= j then j - start else j - start + n
  }

  lemma OffsetOfAt(start: nat, t: nat, n: nat)
    requires start < n && t < n
    ensures Offset(start, RingIndex(start, t, n), n) == t
  {
  }

  /** A hash function, as the table requires it: always below the capacity it is given. */
  ghost predicate HashesBelow<K(!new)>(hash: (K, nat) -> nat) {
    forall k: K, n: nat :: n > 0 ==> hash(k, n) < n
  }

  /** The first t slots of a probe sequence are taken. */
  ghost predicate Taken<K(!new), V(!new)>(es: seq<Slot<K, V>>, start: nat, t: nat)
    requires start < |es| && t <= |es|
  {
    forall u :: 0 <= u < t ==> es[RingIndex(start, u, |es|)].Used?
  }

  /** Every entry is reached from its key's hash slot without meeting a free slot. */
  ghost predicate Chained<K(!new), V(!new)>(es: seq<Slot<K, V>>, hash: (K, nat) -> nat) {
    HashesBelow(hash) &&
    forall j :: 0 <= j < |es| && es[j].Used? ==>
      Taken(es, hash(es[j].key, |es|), Offset(hash(es[j].key, |es|), j, |es|))
  }

  /** Everything stored, with repetitions. */
  ghost function Contents<K(!new), V(!new)>(es: seq<Slot<K, V>>): (m: multiset<(K, V)>)
    decreases |es|
  {
    if |es| == 0 then multiset{}
    else
      var n := |es| - 1;
      Contents(es[..n]) + match es[n] case Free => multiset{} case Used(k, v) => multiset{(k, v)}
  }

  lemma {:induction false} ContentsUpdate<K(!new), V(!new)>(es: seq<Slot<K, V>>, p: nat, k: K, v: V)
    requires p < |es| && es[p].Free?
    ensures Contents(es[p := Used(k, v)]) == Contents(es) + multiset{(k, v)}
    decreases |es|
  {
    var n := |es| - 1;
    var es' := es[p := Used(k, v)];
    if p == n {
      assert es'[..n] == es[..n];
    } else {
      ContentsUpdate(es[..n], p, k, v);
      assert es'[..n] == es[..n][p := Used(k, v)];
    }
  }

  lemma {:induction false} ContentsMembers<K(!new), V(!new)>(es: seq<Slot<K, V>>, k: K, v: V)
    ensures (k, v) in Contents(es) <==> Used(k, v) in es
    decreases |es|
  {
    if |es| > 0 {
      var n := |es| - 1;
      ContentsMembers(es[..n], k, v);
      assert es == es[..n] + [es[n]];
    }
  }

  /** A table with fewer entries than slots has a free slot. */
  lemma {:induction false} SomeFree<K(!new), V(!new)>(es: seq<Slot<K, V>>)
    ensures |Contents(es)| <= |es|
    ensures |Contents(es)| < |es| ==> exists e :: 0 <= e < |es| && es[e].Free?
    decreases |es|
  {
    if |es| > 0 {
      var n := |es| - 1;
      SomeFree(es[..n]);
      if |Contents(es[..n])| < n {
        var e :| 0 <= e < n && es[..n][e].Free?;
        assert es[e].Free?;
      } else if es[n].Free? {
        assert es[n].Free?;
      }
    }
  }

  lemma {:induction false} PrefixContents<K(!new), V(!new)>(es: seq<Slot<K, V>>, i: nat)
    requires i <= |es|
    ensures |Contents(es[..i])| <= |Contents(es)|
    decreases |es| - i
  {
    if i == |es| {
      assert es[..i] == es;
    } else {
      PrefixContents(es, i + 1);
      assert es[..i + 1][..i] == es[..i];
    }
  }

  lemma {:induction false} AllFree<K(!new), V(!new)>(es: seq<Slot<K, V>>)
    requires forall i :: 0 <= i < |es| ==> es[i].Free?
    ensures Contents(es) == multiset{}
    decreases |es|
  {
    if |es| > 0 {
      AllFree(es[..|es| - 1]);
    }
  }

  /** Filling the first free slot of a key's probe sequence keeps every chain. */
  lemma FillKeepsChains<K(!new), V(!new)>(es: seq<Slot<K, V>>, hash: (K, nat) -> nat, t: nat, k: K, v: V)
    requires Chained(es, hash) && t < |es| && Taken(es, hash(k, |es|), t)
    ensures Chained(es[RingIndex(hash(k, |es|), t, |es|) := Used(k, v)], hash)
  {
    var n := |es|;
    var p := RingIndex(hash(k, n), t, n);
    var es' := es[p := Used(k, v)];
    OffsetOfAt(hash(k, n), t, n);
    forall j | 0 <= j < n && es'[j].Used?
      ensures Taken(es', hash(es'[j].key, n), Offset(hash(es'[j].key, n), j, n))
    {
      if j != p {
        assert Taken(es, hash(es[j].key, n), Offset(hash(es[j].key, n), j, n));
      }
    }
  }

  /** Insert at the first free slot of the probe sequence; there must be one. */
  method InsertInternal<K(!new), V(!new)>(nelem: array<Slot<K, V>>, hash: (K, nat) -> nat, key: K, val: V)
    requires Chained(nelem[..], hash) && |Contents(nelem[..])| < nelem.Length
    modifies nelem
    ensures Chained(nelem[..], hash)
    ensures Contents(nelem[..]) == old(Contents(nelem[..])) + multiset{(key, val)}
  {
    ghost var es := nelem[..];
    SomeFree(es);
    var start := hash(key, nelem.Length);
    ghost var e :| 0 <= e < |es| && es[e].Free?;
    ghost var t, stop := 0, Offset(start, e, |es|);
    var i := start;
    while nelem[i].Used?
      invariant 0 <= t <= stop && i == RingIndex(start, t, |es|)
      invariant Taken(es, start, t)
      decreases stop - t
    {
      i := i + 1;
      if i == nelem.Length {
        i := 0;
      }
      t := t + 1;
    }
    FillKeepsChains(es, hash, t, key, val);
    ContentsUpdate(es, i, key, val);
    nelem[i] := Used(key, val);
    assert nelem[..] == es[i := Used(key, val)];
  }

  /** The entries of the old array, in slot order, go into an empty larger one. */
  method CopyEntries<K(!new), V(!new)>(elem: array<Slot<K, V>>, nelem: array<Slot<K, V>>, hash: (K, nat) -> nat)
    requires elem != nelem && elem.Length < nelem.Length
    requires Chained(nelem[..], hash) && Contents(nelem[..]) == multiset{}
    modifies nelem
    ensures Chained(nelem[..], hash) && Contents(nelem[..]) == Contents(elem[..])
  {
    ghost var es := elem[..];
    SomeFree(es);
    for i := 0 to elem.Length
      invariant elem[..] == es
      invariant Chained(nelem[..], hash) && Contents(nelem[..]) == Contents(es[..i])
    {
      hide Chained;
      PrefixContents(es, i);
      NextEntry(es, i);
      if elem[i].Used? {
        InsertInternal(nelem, hash, elem[i].key, elem[i].val);
      }
    }
    assert es[..|es|] == es;
  }

  lemma NextEntry<K(!new), V(!new)>(es: seq<Slot<K, V>>, i: nat)
    requires i < |es|
    ensures Contents(es[..i + 1]) ==
            Contents(es[..i]) + match es[i] case Free => multiset{} case Used(k, v) => multiset{(k, v)}
  {
    assert es[..i + 1][..i] == es[..i];
  }

  // ---------------------------------------------------------------- searching

  /** The first t slots of a probe sequence do not hold the key. */
  ghost predicate Missing<K(!new), V(!new)>(es: seq<Slot<K, V>>, start: nat, t: nat, key: K)
    requires start < |es| && t <= |es|
  {
    forall u :: 0 <= u < t ==> es[RingIndex(start, u, |es|)] != Free && es[RingIndex(start, u, |es|)].key != key
  }

  /** A probe sequence that ends at a free slot, or comes full circle, has seen every place the key can be. */
  lemma SearchIsComplete<K(!new), V(!new)>(es: seq<Slot<K, V>>, hash: (K, nat) -> nat, key: K, t: nat)
    requires Chained(es, hash) && |es| > 0 && t <= |es| && Missing(es, hash(key, |es|), t, key)
    requires t < |es| ==> es[RingIndex(hash(key, |es|), t, |es|)].Free?
    ensures forall j :: 0 <= j < |es| && es[j].Used? ==> es[j].key != key
  {
    var start := hash(key, |es|);
    forall j | 0 <= j < |es| && es[j].Used? ensures es[j].key != key {
      var u := Offset(start, j, |es|);
      if u >= t {
        assert es[RingIndex(start, t, |es|)].Free?;
        assert !Taken(es, start, u);
      }
    }
  }

  /** `round_up_to_power_of_2`: smear the highest bit of i - 1 downwards, then add one. */
  function RoundUpToPowerOf2(i: bv32): bv32 {
    var a := i - 1;
    var b := a | (a >> 1);
    var c := b | (b >> 2);
    var d := c | (c >> 4);
    var e := d | (d >> 8);
    var f := e | (e >> 16);
    f + 1
  }

  /** The least power of two not below i; zero, by overflow, when 32 bits cannot hold it, and for zero. */
  lemma RoundUpIsLeastPower(i: bv32)
    ensures var r := RoundUpToPowerOf2(i);
            if 1 <= i <= 0x8000_0000 then r != 0 && r & (r - 1) == 0 && r >= i && (r >> 1) < i else r == 0
  {
  }

  /** The capacity a table of a requested size starts with. */
  function InitialCapacity(size: bv32): (n: nat)
    ensures n >= HTABLE_MIN_SIZE && n >= RoundUpToPowerOf2(size) as nat
    ensures n == HTABLE_MIN_SIZE || n == RoundUpToPowerOf2(size) as nat
  {
    var n := RoundUpToPowerOf2(size) as nat;
    if n < HTABLE_MIN_SIZE then HTABLE_MIN_SIZE else n
  }

  // ---------------------------------------------------------------- the table

  /** What a lookup may answer: a value that was put under the key, or nothing if none was. */
  ghost predicate Answers<K(!new), V(!new)>(puts: multiset<(K, V)>, key: K, val: Option<V>) {
    match val
    case Some(v) => (key, v) in puts
    case None => forall v :: (key, v) !in puts
  }

  class HTable<K(!new, ==), V(!new)> {
    /** Its length is `capacity` in the source. */
    var elem: array<Slot<K, V>>
    var used: nat
    const hash: (K, nat) -> nat
    ghost var puts: multiset<(K, V)>

    ghost predicate Valid()
      reads this, elem
    {
      HTABLE_MIN_SIZE <= elem.Length && used < elem.Length / 2 && used == |puts| &&
      Chained(elem[..], hash) && Contents(elem[..]) == puts
    }

    constructor (size: bv32, hash: (K, nat) -> nat)
      requires HashesBelow(hash)
      ensures Valid() && fresh(elem) && puts == multiset{} && this.hash == hash
      ensures elem.Length == InitialCapacity(size)
    {
      hide RoundUpToPowerOf2, Contents;
      var capacity := InitialCapacity(size);
      this.hash, used, puts := hash, 0, multiset{};
      elem := new Slot<K, V>[capacity](_ => Free);
      new;
      AllFree(elem[..]);
    }

    /** Move every entry, in slot order, into a larger array. */
    method Realloc(newCapacity: nat, allocOk: bool) returns (ret: Errno)
      requires Valid() && newCapacity > elem.Length
      modifies this
      ensures ret == if allocOk then OK else ENOMEM
      ensures Valid() && puts == old(puts)
      ensures ret == OK ==> elem.Length == newCapacity && fresh(elem)
      ensures ret != OK ==> elem == old(elem)
    {
      if !allocOk {
        return ENOMEM;
      }
      var nelem := new Slot<K, V>[newCapacity](_ => Free);
      AllFree(nelem[..]);
      CopyEntries(elem, nelem, hash);
      elem := nelem;
      ret := OK;
    }

    /** NULL keys and values are refused; the table grows before it is half full. */
    method Put(key: Option<K>, val: Option<V>, allocOk: bool) returns (ret: Errno)
      requires Valid()
      modifies this, elem
      ensures Valid()
      ensures ret == EINVAL <==> key.None? || val.None?
      ensures ret == ENOMEM <==> key.Some? && val.Some? && old(used) + 1 >= old(elem.Length) / 2 && !allocOk
      ensures ret == Undefined <==> key.Some? && val.Some? && old(used) + 1 >= old(elem.Length) / 2 && allocOk &&
                                    old(elem.Length) * 2 > MAX_UINT32
      ensures puts == if ret == OK then old(puts) + multiset{(key.value, val.value)} else old(puts)
      ensures elem == old(elem) || fresh(elem)
      ensures ret == OK ==> elem.Length == if old(used) + 1 < old(elem.Length) / 2 then old(elem.Length)
                                           else 2 * old(elem.Length)
    {
      hide Chained, Contents;
      if key.None? || val.None? {
        return EINVAL;
      }
      var nused := used + 1;
      if nused >= elem.Length / 2 {
        if allocOk && elem.Length * 2 > MAX_UINT32 {
          return Undefined;
        }
        ret := Realloc(elem.Length * 2, allocOk);
        if ret != OK {
          return;
        }
      }
      InsertInternal(elem, hash, key.value, val.value);
      used := used + 1;
      puts := puts + multiset{(key.value, val.value)};
      ret := OK;
    }

    /** The slot that holds the key, if any does. */
    method GetInternal(key: K) returns (found: Option<nat>)
      requires Valid()
      ensures found.Some? ==> found.value < elem.Length && elem[found.value].Used? && elem[found.value].key == key
      ensures found.None? ==> forall j :: 0 <= j < elem.Length && elem[j].Used? ==> elem[j].key != key
    {
      ghost var es := elem[..];
      var start := hash(key, elem.Length);
      var idx := start;
      ghost var t := 0;
      while true
        invariant 0 <= t < |es| && idx == RingIndex(start, t, |es|)
        invariant Missing(es, start, t, key)
        decreases |es| - t
      {
        if elem[idx].Free? {
          SearchIsComplete(es, hash, key, t);
          return None;
        } else if elem[idx].key == key {
          return Some(idx);
        }
        idx := idx + 1;
        if idx == elem.Length {
          idx := 0;
        }
        t := t + 1;
        if idx == start {
          SearchIsComplete(es, hash, key, t);
          return None;
        }
      }
    }

    /** Finds a key exactly when it was put, and then a value that was put under it. */
    method Get(key: K) returns (val: Option<V>)
      requires Valid()
      ensures Answers(puts, key, val)
    {
      var found := GetInternal(key);
      if found.None? {
        forall v ensures (key, v) !in puts {
          ContentsMembers(elem[..], key, v);
        }
        return None;
      }
      val := Some(elem[found.value].val);
      ContentsMembers(elem[..], key, val.value);
      assert elem[..][found.value] == Used(key, val.value);
    }
  }

  /** The map that a sequence of puts builds. */
  ghost function MapOf<K(!new), V(!new)>(puts: seq<(K, V)>): map<K, V> {
    if |puts| == 0 then map[] else MapOf(puts[..|puts| - 1])[puts[|puts| - 1].0 := puts[|puts| - 1].1]
  }

  lemma {:induction false} MapOfMembers<K(!new), V(!new)>(puts: seq<(K, V)>, key: K, val: V)
    requires forall i, j :: 0 <= i < j < |puts| ==> puts[i].0 != puts[j].0
    ensures (key, val) in puts <==> key in MapOf(puts) && MapOf(puts)[key] == val
    ensures key in MapOf(puts) ==> (key, MapOf(puts)[key]) in puts
  {
    if |puts| > 0 {
      var n := |puts| - 1;
      assert puts == puts[..n] + [puts[n]];
      MapOfMembers(puts[..n], key, val);
      if key in MapOf(puts[..n]) {
        assert (key, MapOf(puts[..n])[key]) in puts[..n];
      }
    }
  }

  /** After puts under distinct keys the table is the map they build: `Get` has one possible answer. */
  lemma DistinctKeysMakeAMap<K(!new), V(!new)>(puts: seq<(K, V)>, key: K, val: Option<V>)
    requires forall i, j :: 0 <= i < j < |puts| ==> puts[i].0 != puts[j].0
    ensures Answers(multiset(puts), key, val) <==>
            val == if key in MapOf(puts) then Some(MapOf(puts)[key]) else None
  {
    forall v ensures (key, v) in multiset(puts) <==> key in MapOf(puts) && MapOf(puts)[key] == v {
      MapOfMembers(puts, key, v);
    }
    if key in MapOf(puts) {
      assert (key, MapOf(puts)[key]) in multiset(puts);
    }
  }
}
