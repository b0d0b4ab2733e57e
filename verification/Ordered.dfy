// std::map and std::set as the strictly ascending sequence of their entries,
// for any comparator. An iterator is a position, |entries| being end().
module Ordered {
  import opened Options

  datatype Entry<+K, +V> = Entry(key: K, value: V)

  ghost predicate StrictTotalOrder<K(!new)>(less: (K, K) -> bool) {
    && (forall a, b :: a == b <==> !less(a, b) && !less(b, a))
    && (forall a, b :: !(less(a, b) && less(b, a)))
    && (forall a, b, c :: less(a, b) && less(b, c) ==> less(a, c))
  }

  ghost predicate Sorted<K, V>(es: seq<Entry<K, V>>, less: (K, K) -> bool) {
    forall i, j :: 0 <= i < j < |es| ==> less(es[i].key, es[j].key)
  }

  /** std::upper_bound and std::lower_bound on a range partitioned by p: the first element satisfying p. */
  function PartitionPoint<T>(s: seq<T>, p: T -> bool): (i: nat)
    ensures i <= |s|
    ensures forall j :: 0 <= j < i ==> !p(s[j])
    ensures i < |s| ==> p(s[i])
  {
    if s == [] || p(s[0]) then 0 else 1 + PartitionPoint(s[1..], p)
  }

  lemma PartitionPointIsUnique<T>(s: seq<T>, p: T -> bool, i: nat)
    requires i <= |s| && (forall j :: 0 <= j < i ==> !p(s[j])) && (i < |s| ==> p(s[i]))
    ensures PartitionPoint(s, p) == i
  {}

  /** The first entry whose key sorts after k. */
  function UpperBound<K, V>(es: seq<Entry<K, V>>, k: K, less: (K, K) -> bool): nat {
    PartitionPoint(es, (e: Entry<K, V>) => less(k, e.key))
  }

  /** The first entry whose key does not sort before k. */
  function LowerBound<K, V>(es: seq<Entry<K, V>>, k: K, less: (K, K) -> bool): nat {
    PartitionPoint(es, (e: Entry<K, V>) => !less(e.key, k))
  }

  /** The element before upper_bound, or begin() when upper_bound is begin(). */
  function FindLastLessOrEqual<K, V>(es: seq<Entry<K, V>>, k: K, less: (K, K) -> bool): nat {
    var iter := UpperBound(es, k, less);
    if iter != 0 then iter - 1 else iter
  }

  /** Insertion of an absent key; a hint does not change the place. */
  function Insert<K, V>(es: seq<Entry<K, V>>, k: K, v: V, less: (K, K) -> bool): seq<Entry<K, V>> {
    var at := UpperBound(es, k, less);
    es[..at] + [Entry(k, v)] + es[at..]
  }

  function Find<K(==), V>(es: seq<Entry<K, V>>, k: K, less: (K, K) -> bool): Option<V> {
    var at := LowerBound(es, k, less);
    if at < |es| && es[at].key == k then Some(es[at].value) else None
  }

  function InsertIfNotPresent<K(==), V>(es: seq<Entry<K, V>>, k: K, v: V, less: (K, K) -> bool): (bool,
                                        seq<Entry<K, V>>) {
    if Find(es, k, less).Some? then (false, es) else (true, Insert(es, k, v, less))
  }

  ghost predicate Has<K, V>(es: seq<Entry<K, V>>, k: K) {
    exists i :: 0 <= i < |es| && es[i].key == k
  }

  lemma UpperBoundSplits<K(!new), V>(es: seq<Entry<K, V>>, k: K, less: (K, K) -> bool)
    requires StrictTotalOrder(less) && Sorted(es, less)
    ensures forall i :: 0 <= i < UpperBound(es, k, less) ==> !less(k, es[i].key)
    ensures forall i :: UpperBound(es, k, less) <= i < |es| ==> less(k, es[i].key)
  {}

  lemma LowerBoundSplits<K(!new), V>(es: seq<Entry<K, V>>, k: K, less: (K, K) -> bool)
    requires StrictTotalOrder(less) && Sorted(es, less)
    ensures forall i :: 0 <= i < LowerBound(es, k, less) ==> less(es[i].key, k)
    ensures forall i :: LowerBound(es, k, less) <= i < |es| ==> !less(es[i].key, k)
  {}

  lemma UpperBoundIsUnique<K, V>(es: seq<Entry<K, V>>, k: K, less: (K, K) -> bool, u: nat)
    requires u <= |es|
    requires forall i :: 0 <= i < u ==> !less(k, es[i].key)
    requires forall i :: u <= i < |es| ==> less(k, es[i].key)
    ensures UpperBound(es, k, less) == u
  {
    PartitionPointIsUnique(es, (e: Entry<K, V>) => less(k, e.key), u);
  }

  lemma SortedKeysAreDistinct<K(!new), V>(es: seq<Entry<K, V>>, less: (K, K) -> bool)
    requires StrictTotalOrder(less) && Sorted(es, less)
    ensures forall i, j :: 0 <= i < |es| && 0 <= j < |es| && es[i].key == es[j].key ==> i == j
  {
    forall i, j | 0 <= i < j < |es| ensures es[i].key != es[j].key {
      assert less(es[i].key, es[j].key);
    }
  }

  /** A lookup finds exactly the entries that are present. */
  lemma FindIsExact<K(!new), V>(es: seq<Entry<K, V>>, k: K, less: (K, K) -> bool)
    requires StrictTotalOrder(less) && Sorted(es, less)
    ensures Find(es, k, less) == None <==> !Has(es, k)
    ensures forall i :: 0 <= i < |es| && es[i].key == k ==> Find(es, k, less) == Some(es[i].value)
  {
    LowerBoundSplits(es, k, less);
    SortedKeysAreDistinct(es, less);
    forall i | 0 <= i < |es| && es[i].key == k ensures i == LowerBound(es, k, less) {}
  }

  lemma InsertKeepsOrder<K(!new), V>(es: seq<Entry<K, V>>, k: K, v: V, less: (K, K) -> bool)
    requires StrictTotalOrder(less) && Sorted(es, less) && !Has(es, k)
    ensures Sorted(Insert(es, k, v, less), less)
  {
    UpperBoundSplits(es, k, less);
    var at, out := UpperBound(es, k, less), Insert(es, k, v, less);
    forall i, j | 0 <= i < j < |out| ensures less(out[i].key, out[j].key) {
      assert i != at ==> out[i] == es[if i < at then i else i - 1];
      assert j != at ==> out[j] == es[if j < at then j else j - 1];
    }
  }

  /** Where old entries go, and where entries of the result come from. */
  lemma InsertPlaces<K, V>(es: seq<Entry<K, V>>, k: K, v: V, less: (K, K) -> bool)
    ensures var at, out := UpperBound(es, k, less), Insert(es, k, v, less);
            && |out| == |es| + 1 && out[at] == Entry(k, v)
            && (forall i :: 0 <= i < at ==> out[i] == es[i])
            && (forall i :: at <= i < |es| ==> out[i + 1] == es[i])
            && (forall i :: at < i < |out| ==> out[i] == es[i - 1])
  {}

  lemma InsertAddsOnlyItsEntry<K, V>(es: seq<Entry<K, V>>, k: K, v: V, less: (K, K) -> bool)
    ensures forall e :: e in Insert(es, k, v, less) <==> e in es || e == Entry(k, v)
  {
    InsertPlaces(es, k, v, less);
    var at := UpperBound(es, k, less);
    assert es == es[..at] + es[at..];
  }

  /** Inserting a key moves the bound of a query up by one exactly when the key is not above it. */
  lemma InsertShiftsBound<K(!new), V>(es: seq<Entry<K, V>>, q: K, k: K, v: V, less: (K, K) -> bool)
    requires StrictTotalOrder(less) && Sorted(es, less)
    ensures UpperBound(Insert(es, k, v, less), q, less) == UpperBound(es, q, less) + if less(q, k) then 0 else 1
    ensures if less(q, k) then UpperBound(es, q, less) <= UpperBound(es, k, less)
                          else UpperBound(es, k, less) <= UpperBound(es, q, less)
  {
    UpperBoundSplits(es, q, less);
    UpperBoundSplits(es, k, less);
    InsertPlaces(es, k, v, less);
    var at, u, out := UpperBound(es, k, less), UpperBound(es, q, less), Insert(es, k, v, less);
    if less(q, k) {
      assert at < u ==> less(k, es[at].key);
      UpperBoundIsUnique(out, q, less, u);
    } else {
      assert u < at ==> less(q, es[u].key);
      UpperBoundIsUnique(out, q, less, u + 1);
    }
  }

  /** Adding an absent key changes the lookup of that key and of no other. */
  lemma FindAfterInsert<K(!new), V>(es: seq<Entry<K, V>>, q: K, k: K, v: V, less: (K, K) -> bool)
    requires StrictTotalOrder(less) && Sorted(es, less) && !Has(es, k)
    ensures Find(Insert(es, k, v, less), q, less) == if q == k then Some(v) else Find(es, q, less)
  {
    InsertKeepsOrder(es, k, v, less);
    InsertPlaces(es, k, v, less);
    var at, out := UpperBound(es, k, less), Insert(es, k, v, less);
    FindIsExact(es, q, less);
    FindIsExact(out, q, less);
    assert forall i :: 0 <= i < |es| ==> es[i] == out[if i < at then i else i + 1];
  }

  lemma InsertIfNotPresentKeeps<K(!new), V>(es: seq<Entry<K, V>>, k: K, v: V, less: (K, K) -> bool)
    requires StrictTotalOrder(less) && Sorted(es, less)
    ensures var (ok, out) := InsertIfNotPresent(es, k, v, less);
            && Sorted(out, less)
            && (ok <==> !Has(es, k))
            && (forall q :: Find(out, q, less) == if ok && q == k then Some(v) else Find(es, q, less))
  {
    FindIsExact(es, k, less);
    if !Has(es, k) {
      InsertKeepsOrder(es, k, v, less);
      forall q ensures Find(Insert(es, k, v, less), q, less) == if q == k then Some(v) else Find(es, q, less) {
        FindAfterInsert(es, q, k, v, less);
      }
    }
  }

  // ------------------------------------------------------------------ merging

  /** std::merge: stable, with equivalent elements of the first range first. */
  function Merge<T>(a: seq<T>, b: seq<T>, less: (T, T) -> bool): seq<T> {
    if a == [] then b
    else if b == [] then a
    else if less(b[0], a[0]) then [b[0]] + Merge(a, b[1..], less)
    else [a[0]] + Merge(a[1..], b, less)
  }

  function ByKey<K, V>(less: (K, K) -> bool): (Entry<K, V>, Entry<K, V>) -> bool {
    (x: Entry<K, V>, y: Entry<K, V>) => less(x.key, y.key)
  }

  lemma {:induction false} MergeHasBoth<T>(a: seq<T>, b: seq<T>, less: (T, T) -> bool)
    ensures forall x :: x in Merge(a, b, less) <==> x in a || x in b
    decreases |a| + |b|
  {
    if a != [] && b != [] {
      if less(b[0], a[0]) {
        MergeHasBoth(a, b[1..], less);
        assert b == [b[0]] + b[1..];
      } else {
        MergeHasBoth(a[1..], b, less);
        assert a == [a[0]] + a[1..];
      }
    }
  }

  ghost predicate Disjoint<K, V>(a: seq<Entry<K, V>>, b: seq<Entry<K, V>>) {
    forall i, j :: 0 <= i < |a| && 0 <= j < |b| ==> a[i].key != b[j].key
  }

  lemma SortedFromHead<K(!new), V>(es: seq<Entry<K, V>>, less: (K, K) -> bool)
    requires StrictTotalOrder(less) && es != [] && Sorted(es[1..], less)
    requires forall e :: e in es[1..] ==> less(es[0].key, e.key)
    ensures Sorted(es, less)
  {
    forall i, j | 0 <= i < j < |es| ensures less(es[i].key, es[j].key) {
      assert es[j] == es[1..][j - 1];
      if i > 0 { assert es[i] == es[1..][i - 1]; }
    }
  }

  lemma TailOfSorted<K, V>(es: seq<Entry<K, V>>, less: (K, K) -> bool)
    requires es != [] && Sorted(es, less)
    ensures Sorted(es[1..], less)
    ensures forall e :: e in es[1..] ==> less(es[0].key, e.key)
  {}

  lemma HeadIsBelow<K(!new), V>(h: Entry<K, V>, es: seq<Entry<K, V>>, less: (K, K) -> bool)
    requires StrictTotalOrder(less) && Sorted(es, less) && es != [] && less(h.key, es[0].key)
    ensures forall e :: e in es ==> less(h.key, e.key)
  {
    forall i | 0 <= i < |es| ensures less(h.key, es[i].key) {
      if i > 0 { assert less(es[0].key, es[i].key); }
    }
  }

  lemma {:induction false} MergeKeepsOrder<K(!new), V>(a: seq<Entry<K, V>>, b: seq<Entry<K, V>>, less: (K, K) -> bool)
    requires StrictTotalOrder(less) && Sorted(a, less) && Sorted(b, less) && Disjoint(a, b)
    ensures Sorted(Merge(a, b, ByKey(less)), less)
    decreases |a| + |b|
  {
    if a != [] && b != [] {
      hide StrictTotalOrder, Sorted, Disjoint;
      TailOfSorted(a, less);
      TailOfSorted(b, less);
      var m := Merge(a, b, ByKey(less));
      HeadsDiffer(a, b, less);
      if less(b[0].key, a[0].key) {
        HeadIsBelow(b[0], a, less);
        MergeKeepsOrder(a, b[1..], less);
        MergeHasBoth(a, b[1..], ByKey(less));
        assert m[1..] == Merge(a, b[1..], ByKey(less));
        assert forall e :: e in m[1..] ==> less(b[0].key, e.key);
      } else {
        HeadIsBelow(a[0], b, less);
        MergeKeepsOrder(a[1..], b, less);
        MergeHasBoth(a[1..], b, ByKey(less));
        assert m[1..] == Merge(a[1..], b, ByKey(less));
        assert forall e :: e in m[1..] ==> less(a[0].key, e.key);
      }
      SortedFromHead(m, less);
    }
  }

  lemma HeadsDiffer<K(!new), V>(a: seq<Entry<K, V>>, b: seq<Entry<K, V>>, less: (K, K) -> bool)
    requires StrictTotalOrder(less) && Disjoint(a, b) && a != [] && b != []
    ensures less(a[0].key, b[0].key) || less(b[0].key, a[0].key)
    ensures Disjoint(a[1..], b) && Disjoint(a, b[1..])
  {
    assert a[0].key != b[0].key;
  }

  /** A strictly ascending sequence is determined by its entries. */
  lemma {:induction false} SortedIsUnique<K(!new), V>(a: seq<Entry<K, V>>, b: seq<Entry<K, V>>, less: (K, K) -> bool)
    requires StrictTotalOrder(less) && Sorted(a, less) && Sorted(b, less)
    requires forall e :: e in a <==> e in b
    ensures a == b
    decreases |a|
  {
    assert |b| > 0 ==> b[0] in a by { assert |b| > 0 ==> b[0] in b; }
    if a != [] {
      assert a[0] in b;
      TailOfSorted(a, less);
      TailOfSorted(b, less);
      assert a == [a[0]] + a[1..] && b == [b[0]] + b[1..];
      assert b[0] in a;
      assert a[0] == b[0];
      forall e ensures e in a[1..] <==> e in b[1..] {
        assert e in a <==> e in b;
        assert less(a[0].key, a[0].key) == false;
      }
      SortedIsUnique(a[1..], b[1..], less);
    }
  }

  lemma MergeHasKeys<K(!new), V>(a: seq<Entry<K, V>>, b: seq<Entry<K, V>>, k: K, less: (K, K) -> bool)
    ensures Has(Merge(a, b, ByKey(less)), k) <==> Has(a, k) || Has(b, k)
  {
    MergeHasBoth(a, b, ByKey(less));
    var m := Merge(a, b, ByKey(less));
    HasByMembership(a, k);
    HasByMembership(b, k);
    HasByMembership(m, k);
  }

  lemma HasByMembership<K, V>(es: seq<Entry<K, V>>, k: K)
    ensures Has(es, k) <==> exists e :: e in es && e.key == k
  {
    if Has(es, k) {
      var i :| 0 <= i < |es| && es[i].key == k;
      assert es[i] in es;
    }
  }

  lemma InsertStaysDisjoint<K, V>(a: seq<Entry<K, V>>, b: seq<Entry<K, V>>, k: K, v: V, less: (K, K) -> bool)
    requires Disjoint(a, b) && !Has(b, k)
    ensures Disjoint(Insert(a, k, v, less), b)
  {
    InsertPlaces(a, k, v, less);
    var at, a' := UpperBound(a, k, less), Insert(a, k, v, less);
    forall i, j | 0 <= i < |a'| && 0 <= j < |b| ensures a'[i].key != b[j].key {
      if i != at { assert a'[i] == a[if i < at then i else i - 1]; }
    }
  }

  /** Inserting into the tree part or into the merged table is the same. */
  lemma InsertThenMerge<K(!new), V>(a: seq<Entry<K, V>>, b: seq<Entry<K, V>>, k: K, v: V, less: (K, K) -> bool)
    requires StrictTotalOrder(less) && Sorted(a, less) && Sorted(b, less) && Disjoint(a, b)
    requires !Has(a, k) && !Has(b, k)
    ensures Disjoint(Insert(a, k, v, less), b)
    ensures Merge(Insert(a, k, v, less), b, ByKey(less)) == Insert(Merge(a, b, ByKey(less)), k, v, less)
  {
    var a', m := Insert(a, k, v, less), Merge(a, b, ByKey(less));
    InsertStaysDisjoint(a, b, k, v, less);
    InsertKeepsOrder(a, k, v, less);
    MergeKeepsOrder(a', b, less);
    MergeKeepsOrder(a, b, less);
    MergeHasKeys(a, b, k, less);
    InsertKeepsOrder(m, k, v, less);
    SameEntries(a, b, k, v, less);
    SortedIsUnique(Merge(a', b, ByKey(less)), Insert(m, k, v, less), less);
  }

  lemma SameEntries<K(!new), V>(a: seq<Entry<K, V>>, b: seq<Entry<K, V>>, k: K, v: V, less: (K, K) -> bool)
    ensures forall e :: e in Merge(Insert(a, k, v, less), b, ByKey(less))
                   <==> e in Insert(Merge(a, b, ByKey(less)), k, v, less)
  {
    InsertAddsOnlyItsEntry(a, k, v, less);
    InsertAddsOnlyItsEntry(Merge(a, b, ByKey(less)), k, v, less);
    MergeHasBoth(Insert(a, k, v, less), b, ByKey(less));
    MergeHasBoth(a, b, ByKey(less));
  }

  function MapSeq<T, U>(f: T -> U, s: seq<T>): (r: seq<U>)
    ensures |r| == |s|
  {
    seq(|s|, i requires 0 <= i < |s| => f(s[i]))
  }

  /** Merging commutes with a change of representation that keeps the order of the elements at hand. */
  lemma {:induction false} MergeMaps<T, U>(a: seq<T>, b: seq<T>, f: T -> U, less: (T, T) -> bool, less': (U, U) -> bool)
    requires forall i, j :: 0 <= i < |a| && 0 <= j < |b| ==> less(b[j], a[i]) == less'(f(b[j]), f(a[i]))
    ensures MapSeq(f, Merge(a, b, less)) == Merge(MapSeq(f, a), MapSeq(f, b), less')
    decreases |a| + |b|
  {
    if a != [] && b != [] {
      assert MapSeq(f, a)[1..] == MapSeq(f, a[1..]);
      assert MapSeq(f, b)[1..] == MapSeq(f, b[1..]);
      if less(b[0], a[0]) {
        MergeMaps(a, b[1..], f, less, less');
      } else {
        MergeMaps(a[1..], b, f, less, less');
      }
    }
  }
}
