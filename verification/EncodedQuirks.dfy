// Refused duplicates in the encoded index: the tree takes the entry before the
// flat part is searched, so a refused file answers afterwards.
module EncodedQuirks {
  import opened Names
  import opened Options
  import opened Descriptors
  import opened Ordered
  import opened SymbolOrder
  import opened SymbolLookup
  import opened EncodedIndex
  import opened EncodedRefinement
  import SimpleIndex

  lemma FindStep<K(!new), V>(es: seq<Entry<K, V>>, k: K, less: (K, K) -> bool)
    requires StrictTotalOrder(less) && es != []
    ensures Find(es, k, less) ==
            if less(es[0].key, k) then Find(es[1..], k, less) else if es[0].key == k then Some(es[0].value) else None
  {}

  /** After a merge the tree's entry answers, even if the flat part has the same key. */
  lemma {:induction false} MergePrefersTree<K(!new), V>(a: seq<Entry<K, V>>, b: seq<Entry<K, V>>, k: K,
                                                        less: (K, K) -> bool)
    requires StrictTotalOrder(less)
    ensures Find(Merge(a, b, ByKey(less)), k, less) ==
            if Find(a, k, less) != None then Find(a, k, less) else Find(b, k, less)
    decreases |a| + |b|
  {
    if a != [] && b != [] {
      var m := Merge(a, b, ByKey(less));
      FindStep(a, k, less);
      FindStep(b, k, less);
      FindStep(m, k, less);
      if less(b[0].key, a[0].key) {
        assert m[1..] == Merge(a, b[1..], ByKey(less));
        MergePrefersTree(a, b[1..], k, less);
      } else {
        assert m[1..] == Merge(a[1..], b, ByKey(less));
        MergePrefersTree(a[1..], b, k, less);
      }
    }
  }

  /** The answer of a table after an insertion that is accepted or refused. */
  lemma AnswerAfterInsertUnique<K(!new)>(t: Table<Entry<K, nat>>, k: K, o: nat, q: K, less: (K, K) -> bool)
    requires StrictTotalOrder(less) && Sorted(t.tree, less)
    ensures var t' := InsertUnique(t, k, o, less).1;
            && Sorted(t'.tree, less) && t'.flat == t.flat
            && Find(Merge(t'.tree, t'.flat, ByKey(less)), q, less) ==
               if q == k && Find(t.tree, k, less) == None then Some(o)
               else Find(Merge(t.tree, t.flat, ByKey(less)), q, less)
  {
    InsertIfNotPresentKeeps(t.tree, k, o, less);
    FindIsExact(t.tree, k, less);
    MergePrefersTree(t.tree, t.flat, q, less);
    MergePrefersTree(InsertUnique(t, k, o, less).1.tree, t.flat, q, less);
  }

  ghost predicate OffsetsInRange<K>(es: seq<Entry<K, nat>>, n: nat) {
    forall i :: 0 <= i < |es| ==> es[i].value < n
  }

  /** The flat part may hold a key twice after a takeover. */
  ghost predicate PartsInRange<K>(t: Table<Entry<K, nat>>, n: nat, less: (K, K) -> bool) {
    Sorted(t.tree, less) && OffsetsInRange(t.tree, n) && OffsetsInRange(t.flat, n)
  }

  lemma DuplicateIsRefused<K(!new)>(t: Table<Entry<K, nat>>, k: K, o: nat, less: (K, K) -> bool)
    requires StrictTotalOrder(less) && Sorted(t.tree, less)
    requires Find(t.tree, k, less) != None || Find(t.flat, k, less) != None
    ensures !InsertUnique(t, k, o, less).0
  {
    InsertIfNotPresentKeeps(t.tree, k, o, less);
    FindIsExact(t.tree, k, less);
  }

  lemma FlattenFind<K>(t: Table<Entry<K, nat>>, k: K, less: (K, K) -> bool)
    ensures Find(Flatten(t, ByKey(less)).flat, k, less) == Find(Merge(t.tree, t.flat, ByKey(less)), k, less)
  {}

  /** The lookup in a table after a refused duplicate, the last value being the one refused. */
  lemma RefusedEntryAnswers<K(!new), V>(values: seq<EncodedEntry<V>>, t: Table<Entry<K, nat>>, k: K,
                                        less: (K, K) -> bool)
    requires StrictTotalOrder(less) && values != [] && PartsInRange(t, |values|, less)
    requires FindFlat(values, Flatten(t, ByKey(less)), k, less) != None
    ensures !InsertUnique(t, k, |values| - 1, less).0
    ensures FindFlat(values, Flatten(InsertUnique(t, k, |values| - 1, less).1, ByKey(less)), k, less) ==
            if Find(t.tree, k, less) != None then FindFlat(values, Flatten(t, ByKey(less)), k, less)
            else Some(values[|values| - 1].value)
  {
    hide StrictTotalOrder, InsertUnique, Merge, Find, Flatten, Sorted, OffsetsInRange;
    var o: nat := |values| - 1;
    MergePrefersTree(t.tree, t.flat, k, less);
    FlattenFind(t, k, less);
    DuplicateIsRefused(t, k, o, less);
    AnswerAfterInsertUnique(t, k, o, k, less);
    FlattenFind(InsertUnique(t, k, o, less).1, k, less);
  }

  /**
   * A second Add under a known file name is always refused. The lookup of
   * that name nevertheless gives the refused file from then on, unless the
   * first file is still in the tree, that is, unless no lookup has merged it
   * into the flat part.
   */
  lemma RefusedDuplicateAnswers<V>(e: Index<V>, file: File, v: V)
    requires PartsInRange(e.byName, |e.values|, Less)
    requires ValidateSymbolName(file.Package()) && FindFile(e, file.name) != None
    ensures !AddFile(e, file, v).0
    ensures FindFile(AddFile(e, file, v).1, file.name) ==
            if Find(e.byName.tree, file.name, Less) != None then FindFile(e, file.name) else Some(v)
  {
    hide Common, Less, ValidateSymbolName, FileOps, AddAll, InsertUnique, Merge, Find, Flatten;
    LessIsStrictTotalOrder();
    var values := e.values + [EncodedEntry(v, file.Package())];
    FindGrows(e.values, e.byName, file.name, values[|e.values|], Less);
    RefusedEntryAnswers(values, e.byName, file.name, Less);
  }

  /** Appending a value changes no answer of a table whose positions are in range. */
  lemma FindGrows<K(!new), V>(values: seq<EncodedEntry<V>>, t: Table<Entry<K, nat>>, k: K, x: EncodedEntry<V>,
                              less: (K, K) -> bool)
    requires StrictTotalOrder(less) && PartsInRange(t, |values|, less)
    ensures FindFlat(values + [x], Flatten(t, ByKey(less)), k, less) ==
              FindFlat(values, Flatten(t, ByKey(less)), k, less)
  {
    MergePrefersTree(t.tree, t.flat, k, less);
    FlattenFind(t, k, less);
  }

  /** The same for a duplicate extension: the file being added has been pushed already and answers for it. */
  lemma RefusedExtensionAnswers<V>(e: Index<V>, field: Field)
    requires e.values != [] && PartsInRange(e.byExtension, |e.values|, ExtLess) && FullyQualified(field)
    requires FindExtension(e, field.extendee[1..], field.number) != None
    ensures !AddExtension(e, field).0
    ensures FindExtension(AddExtension(e, field).1, field.extendee[1..], field.number) ==
            if Find(e.byExtension.tree, KeyOf(field), ExtLess) != None
            then FindExtension(e, field.extendee[1..], field.number)
            else Some(e.values[|e.values| - 1].value)
  {
    hide Less, InsertUnique, Merge, Find, Flatten;
    ExtLessIsStrictTotalOrder();
    RefusedEntryAnswers(e.values, e.byExtension, KeyOf(field), ExtLess);
  }

  function Spliced<T>(s: seq<T>, p: nat, x: T): seq<T>
    requires p <= |s|
  {
    s[..p] + [x] + s[p..]
  }

  lemma SplicedAfterHead<T>(h: T, s: seq<T>, p: nat, x: T)
    requires p <= |s|
    ensures [h] + Spliced(s, p, x) == Spliced([h] + s, p + 1, x)
  {
    assert ([h] + s)[..p + 1] == [h] + s[..p] && ([h] + s)[p + 1..] == s[p..];
  }

  lemma InsertByHead<K(!new), V>(es: seq<Entry<K, V>>, k: K, v: V, less: (K, K) -> bool)
    requires StrictTotalOrder(less) && Sorted(es, less) && !Has(es, k)
    ensures Insert(es, k, v, less) == if es != [] && less(es[0].key, k) then [es[0]] + Insert(es[1..], k, v, less)
                                      else [Entry(k, v)] + es
    ensures es != [] ==> !Has(es[1..], k)
  {
    if es != [] {
      assert es[0].key != k;
      assert forall i :: 0 <= i < |es[1..]| ==> es[1..][i] == es[i + 1];
    }
  }

  lemma MergeByHead<T>(a: seq<T>, b: seq<T>, less: (T, T) -> bool)
    requires b != []
    ensures a != [] && !less(b[0], a[0]) ==> Merge(a, b, less) == [a[0]] + Merge(a[1..], b, less)
    ensures a == [] || less(b[0], a[0]) ==> Merge(a, b, less) == [b[0]] + Merge(a, b[1..], less)
  {
    assert b == [b[0]] + b[1..];
  }

  /** A key that only the flat part has is doubled by the merge, the tree's entry first. */
  lemma {:induction false} MergeDoubles<K(!new)>(a: seq<Entry<K, nat>>, b: seq<Entry<K, nat>>, k: K, o: nat,
                                                 less: (K, K) -> bool)
      returns (p: nat)
    requires StrictTotalOrder(less) && Sorted(a, less) && Sorted(b, less) && !Has(a, k) && Has(b, k)
    ensures var m := Merge(a, b, ByKey(less));
            p < |m| && m[p].key == k && Merge(Insert(a, k, o, less), b, ByKey(less)) == Spliced(m, p, Entry(k, o))
    decreases |a| + |b|
  {
    hide Insert, Merge, Spliced, Sorted, Has;
    var m, a', x := Merge(a, b, ByKey(less)), Insert(a, k, o, less), Entry(k, o);
    HasHead(b, k, less);
    InsertByHead(a, k, o, less);
    MergeByHead(a, b, ByKey(less));
    MergeByHead(a', b, ByKey(less));
    if a != [] && less(a[0].key, k) && !less(b[0].key, a[0].key) {
      TailOfSorted(a, less);
      p := MergeDoubles(a[1..], b, k, o, less);
      assert a'[1..] == Insert(a[1..], k, o, less);
      SplicedAfterHead(a[0], Merge(a[1..], b, ByKey(less)), p, x);
      p := p + 1;
    } else if less(b[0].key, k) {
      TailOfSorted(b, less);
      p := MergeDoubles(a, b[1..], k, o, less);
      SplicedAfterHead(b[0], Merge(a, b[1..], ByKey(less)), p, x);
      p := p + 1;
    } else {
      assert a'[1..] == a;
      p := 0;
      SplicedFirst(m, x);
    }
  }

  lemma SplicedFirst<T>(s: seq<T>, x: T)
    ensures Spliced(s, 0, x) == [x] + s
  {}

  lemma HasHead<K(!new), V>(es: seq<Entry<K, V>>, k: K, less: (K, K) -> bool)
    requires StrictTotalOrder(less) && Sorted(es, less) && Has(es, k)
    ensures es != [] && (es[0].key == k || (less(es[0].key, k) && Has(es[1..], k)))
  {
    var i :| 0 <= i < |es| && es[i].key == k;
    if i > 0 { assert es[1..][i - 1] == es[i]; }
  }

  lemma {:induction false} NumbersFromShift<V>(xs: seq<Entry<ExtKey, V>>, ys: seq<Entry<ExtKey, V>>, i: nat, t: string)
    requires i <= |xs| && |ys| == |xs| + 1 && forall j :: i <= j < |xs| ==> ys[j + 1] == xs[j]
    ensures SimpleIndex.NumbersFrom(ys, i + 1, t) == SimpleIndex.NumbersFrom(xs, i, t)
    decreases |xs| - i
  {
    if i < |xs| { NumbersFromShift(xs, ys, i + 1, t); }
  }

  lemma SplicedPlaces<T>(s: seq<T>, p: nat, x: T)
    requires p <= |s|
    ensures |Spliced(s, p, x)| == |s| + 1 && Spliced(s, p, x)[p] == x
    ensures forall i :: 0 <= i < p ==> Spliced(s, p, x)[i] == s[i]
    ensures forall i :: p <= i < |s| ==> Spliced(s, p, x)[i + 1] == s[i]
  {}

  /** A doubled entry doubles its number in the list. */
  lemma {:induction false} NumbersDouble<V>(xs: seq<Entry<ExtKey, V>>, x: Entry<ExtKey, V>, p: nat, i: nat)
    requires i <= p < |xs| && xs[p].key == x.key && forall j :: i <= j <= p ==> xs[j].key.extendee == x.key.extendee
    ensures var old', c := SimpleIndex.NumbersFrom(xs, i, x.key.extendee), p - i;
            && c < |old'| && old'[c] == x.key.number && |Spliced(xs, p, x)| == |xs| + 1
            && SimpleIndex.NumbersFrom(Spliced(xs, p, x), i, x.key.extendee) == Spliced(old', c, x.key.number)
    decreases p - i
  {
    hide Spliced;
    var t := x.key.extendee;
    SplicedPlaces(xs, p, x);
    if i == p {
      NumbersFromShift(xs, Spliced(xs, p, x), p, t);
      SplicedFirst(SimpleIndex.NumbersFrom(xs, p, t), x.key.number);
    } else {
      NumbersDouble(xs, x, p, i + 1);
      SplicedAfterHead(xs[i].key.number, SimpleIndex.NumbersFrom(xs, i + 1, t), p - i - 1, x.key.number);
    }
  }

  /** The old list with one of its numbers written twice. */
  ghost predicate Doubled(before: seq<int>, n: int, after: seq<int>) {
    exists i :: 0 <= i < |before| && before[i] == n && after == Spliced(before, i, n)
  }

  /** After such a refusal the list of extension numbers has the number twice, unless it is negative. */
  lemma RefusedExtensionIsListedTwice<V>(e: Index<V>, field: Field)
    requires e.values != [] && TableWf(e.byExtension.tree, e.byExtension.flat, ExtLess) && FullyQualified(field)
    requires !Has(e.byExtension.tree, KeyOf(field)) && Has(e.byExtension.flat, KeyOf(field)) && field.number >= 0
    ensures !AddExtension(e, field).0
    ensures Doubled(FindAllExtensionNumbers(e, field.extendee[1..]), field.number,
                    FindAllExtensionNumbers(AddExtension(e, field).1, field.extendee[1..]))
  {
    hide Less, Common, Insert, Merge;
    ExtLessIsStrictTotalOrder();
    var k, o: nat, tree, flat := KeyOf(field), |e.values| - 1, e.byExtension.tree, e.byExtension.flat;
    FindIsExact(tree, k, ExtLess);
    FindIsExact(flat, k, ExtLess);
    var m := Merge(tree, flat, ByKey(ExtLess));
    MergeKeepsOrder(tree, flat, ExtLess);
    var p := MergeDoubles(tree, flat, k, o, ExtLess);
    EmptyMerge(flat, ByKey(ExtLess));
    assert EnsureFlat(e).byExtension.flat == m;
    var e' := AddExtension(e, field).1;
    assert e'.byExtension.tree == Insert(tree, k, o, ExtLess);
    InsertPlaces(tree, k, o, ExtLess);
    assert EnsureFlat(e').byExtension.flat == Spliced(m, p, Entry(k, o));
    DoubledInFlat(m, k, o, p);
  }

  lemma EmptyMerge<T>(b: seq<T>, less: (T, T) -> bool)
    ensures Merge([], b, less) == b
  {}

  lemma DoubledInFlat(m: seq<Entry<ExtKey, nat>>, k: ExtKey, o: nat, p: nat)
    requires Sorted(m, ExtLess) && p < |m| && m[p].key == k && k.number >= 0
    ensures Doubled(SimpleIndex.FindAllExtensionNumbers(m, k.extendee), k.number,
                    SimpleIndex.FindAllExtensionNumbers(Spliced(m, p, Entry(k, o)), k.extendee))
  {
    hide Less, Common, Sorted, SimpleIndex.NumbersFrom;
    var m', first := Spliced(m, p, Entry(k, o)), ExtKey(k.extendee, 0);
    var u := LowerBound(m, first, ExtLess);
    LowerBoundBefore(m, k, p);
    PartitionPointIsUnique(m', (x: Entry<ExtKey, nat>) => !ExtLess(x.key, first), u);
    NumbersDouble(m, Entry(k, o), p, u);
  }

  /** The entries from number 0 to a key of the same type all have that type. */
  lemma LowerBoundBefore<V>(m: seq<Entry<ExtKey, V>>, k: ExtKey, p: nat)
    requires Sorted(m, ExtLess) && p < |m| && m[p].key == k && k.number >= 0
    ensures LowerBound(m, ExtKey(k.extendee, 0), ExtLess) <= p
    ensures forall j :: LowerBound(m, ExtKey(k.extendee, 0), ExtLess) <= j <= p ==> m[j].key.extendee == k.extendee
  {
    hide Less, Common;
    ExtLessIsStrictTotalOrder();
    var first := ExtKey(k.extendee, 0);
    LowerBoundSplits(m, first, ExtLess);
    LessIsTotal(k.extendee, k.extendee);
    forall j | LowerBound(m, first, ExtLess) <= j <= p ensures m[j].key.extendee == k.extendee {
      LessIsTotal(m[j].key.extendee, k.extendee);
      assert j == p || ExtLess(m[j].key, k);
    }
  }

  /**
   * An accepted symbol is dropped by the set, unnoticed, exactly if the entry
   * before its place collides with it: one of the two has an empty symbol and
   * the other, without a package, is that one's package.
   */
  lemma AcceptedSymbolIsDroppedIff<V>(e: Index<V>, symbol: string)
    requires e.values != [] && AddSymbol(e, symbol).0
    ensures var key := KeyOfEntry(e.values, SymbolEntry(|e.values| - 1, symbol));
            var at := SymbolUpperBound(e.values, e.bySymbol.tree, key);
            AddSymbol(e, symbol).1 == e <==>
              at > 0 && var before := KeyOfEntry(e.values, e.bySymbol.tree[at - 1]);
                        Collides(before, key) || Collides(key, before)
  {
    hide Common, Less, SymbolCompare, AsString, ValidateSymbolName, Collides;
    var key := KeyOfEntry(e.values, SymbolEntry(|e.values| - 1, symbol));
    var tree := e.bySymbol.tree;
    var at := SymbolUpperBound(e.values, tree, key);
    if at > 0 { EquivalentIffCollides(KeyOfEntry(e.values, tree[at - 1]), key); }
    assert |AddSymbol(e, symbol).1.bySymbol.tree| ==
           |tree| + if at > 0 && Equivalent(KeyOfEntry(e.values, tree[at - 1]), key) then 0 else 1;
  }

  /** A file without a package and with one message. */
  function OneMessage(name: string, m: string): File {
    File(name, None, [Message(m, [], [])], [], [], [])
  }

  lemma OneMessageOps(name: string, m: string)
    ensures FileOps(OneMessage(name, m)) == [Symbol(m)]
  {
    var ms := [Message(m, [], [])];
    assert ms[..0] == [] && NestedExtensions(ms[0]) == [];
    assert MessageOps(ms[..0]) == [];
    assert MessageOps(ms) == [] + [Symbol(m)] + [] == [Symbol(m)];
    assert SymbolOps([]) == [];
  }

  /** Adding such a file under a new name is one AddSymbol call. */
  lemma AddOneMessage<V>(e: Index<V>, name: string, m: string, v: V)
    requires Find(e.byName.tree, name, Less) == None && Find(e.byName.flat, name, Less) == None
    ensures var o: nat := |e.values|;
            var names := e.byName.(tree := Insert(e.byName.tree, name, o, Less));
            var pushed := e.(values := e.values + [EncodedEntry(v, "")], byName := names);
            AddFile(e, OneMessage(name, m), v) == AddSymbol(pushed, m)
  {
    hide Less, Common, Find, FileOps, AddSymbol;
    OneMessageOps(name, m);
    var o: nat := |e.values|;
    var names := e.byName.(tree := Insert(e.byName.tree, name, o, Less));
    var pushed := e.(values := e.values + [EncodedEntry(v, "")], byName := names);
    AddAllOfOne(pushed, Symbol(m));
  }

  lemma AddAllOfOne<V>(e: Index<V>, op: Op)
    requires e.values != []
    ensures AddAll(e, [op]) == AddOne(e, op)
  {
    hide AddOne;
    assert [op][1..] == [];
  }
}
