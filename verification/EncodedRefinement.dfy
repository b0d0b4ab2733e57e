// The encoded index answers every query as the simple index does, over all runs
// of accepted Adds with lookups interleaved anywhere.
module EncodedRefinement {
  import opened Names
  import opened Descriptors
  import opened Ordered
  import opened SymbolOrder
  import opened SymbolLookup
  import opened EncodedIndex
  import SimpleIndex
  import SimpleRuns

  // ------------------------------------------------- symbol entries by full name

  /** A sequence of symbol entries as a table keyed by full name. */
  function Rendered<V>(values: seq<EncodedEntry<V>>, es: seq<SymbolEntry>): (r: seq<Entry<string, nat>>)
    ensures |r| == |es|
    ensures forall i :: 0 <= i < |es| ==> r[i] == Entry(FullName(values, es[i]), es[i].offset)
  {
    MapSeq((e: SymbolEntry) => Entry(FullName(values, e), e.offset), es)
  }

  ghost predicate NamedSymbols(es: seq<SymbolEntry>) {
    forall i :: 0 <= i < |es| ==> es[i].symbol != ""
  }

  lemma RenderedUpperBound<V>(values: seq<EncodedEntry<V>>, es: seq<SymbolEntry>, k: Key)
    requires NamedSymbols(es)
    ensures SymbolUpperBound(values, es, k) == UpperBound(Rendered(values, es), AsString(k), Less)
  {
    var r := Rendered(values, es);
    forall i | 0 <= i < |es| ensures SymbolCompare(k, KeyOfEntry(values, es[i])) <==> Less(AsString(k), r[i].key) {
      SymbolCompareIsLessOnNames(k, KeyOfEntry(values, es[i]));
    }
    PartitionPointIsUnique(es, (e: SymbolEntry) => SymbolCompare(k, KeyOfEntry(values, e)),
                           UpperBound(r, AsString(k), Less));
  }

  lemma RenderedMerge<V>(values: seq<EncodedEntry<V>>, a: seq<SymbolEntry>, b: seq<SymbolEntry>)
    requires NamedSymbols(a) && NamedSymbols(b)
    ensures Rendered(values, Merge(a, b, EntryLess(values))) ==
              Merge(Rendered(values, a), Rendered(values, b), ByKey(Less))
  {
    var f := (e: SymbolEntry) => Entry(FullName(values, e), e.offset);
    forall i, j | 0 <= i < |a| && 0 <= j < |b|
      ensures EntryLess(values)(b[j], a[i]) == ByKey(Less)(f(b[j]), f(a[i]))
    {
      SymbolCompareIsLessOnNames(KeyOfEntry(values, b[j]), KeyOfEntry(values, a[i]));
    }
    MergeMaps(a, b, f, EntryLess(values), ByKey(Less));
    assert MapSeq(f, a) == Rendered(values, a) && MapSeq(f, b) == Rendered(values, b);
    assert MapSeq(f, Merge(a, b, EntryLess(values))) == Rendered(values, Merge(a, b, EntryLess(values)));
  }

  // ------------------------------------------------------------- the refinement

  ghost predicate TableWf<K>(tree: seq<Entry<K, nat>>, flat: seq<Entry<K, nat>>, less: (K, K) -> bool) {
    Sorted(tree, less) && Sorted(flat, less) && Disjoint(tree, flat)
  }

  /** A table of positions stands for a table of values. */
  ghost predicate Deref<K, V>(values: seq<EncodedEntry<V>>, m: seq<Entry<K, nat>>, s: seq<Entry<K, V>>) {
    && |m| == |s|
    && forall i :: 0 <= i < |m| ==>
         m[i].key == s[i].key && m[i].value < |values| && values[m[i].value].value == s[i].value
  }

  ghost predicate InRange(es: seq<SymbolEntry>, n: nat) {
    forall i :: 0 <= i < |es| ==> es[i].offset < n
  }

  ghost predicate SymbolsRefine<V>(values: seq<EncodedEntry<V>>, t: Table<SymbolEntry>, s: seq<Entry<string, V>>) {
    var tree, flat := Rendered(values, t.tree), Rendered(values, t.flat);
    && NamedSymbols(t.tree) && NamedSymbols(t.flat)
    && InRange(t.tree, |values|) && InRange(t.flat, |values|)
    && TableWf(tree, flat, Less)
    && Deref(values, Merge(tree, flat, ByKey(Less)), s)
  }

  ghost predicate TableRefines<K, V>(values: seq<EncodedEntry<V>>, t: Table<Entry<K, nat>>, s: seq<Entry<K, V>>,
                                     less: (K, K) -> bool) {
    && TableWf(t.tree, t.flat, less)
    && Deref(values, Merge(t.tree, t.flat, ByKey(less)), s)
  }

  /** Tree and flat parts together hold what the simple index holds. */
  ghost predicate Refines<V>(e: Index<V>, s: SimpleIndex.Index<V>) {
    && TableRefines(e.values, e.byName, s.byName, Less)
    && SymbolsRefine(e.values, e.bySymbol, s.bySymbol)
    && TableRefines(e.values, e.byExtension, s.byExtension, ExtLess)
  }

  lemma DerefBounds<K, V>(values: seq<EncodedEntry<V>>, m: seq<Entry<K, nat>>, s: seq<Entry<K, V>>, k: K,
                          less: (K, K) -> bool)
    requires Deref(values, m, s)
    ensures UpperBound(m, k, less) == UpperBound(s, k, less)
    ensures LowerBound(m, k, less) == LowerBound(s, k, less)
  {
    PartitionPointIsUnique(m, (e: Entry<K, nat>) => less(k, e.key), UpperBound(s, k, less));
    PartitionPointIsUnique(m, (e: Entry<K, nat>) => !less(e.key, k), LowerBound(s, k, less));
  }

  lemma DerefInsert<K, V>(values: seq<EncodedEntry<V>>, m: seq<Entry<K, nat>>, s: seq<Entry<K, V>>, k: K, o: nat,
                          less: (K, K) -> bool)
    requires Deref(values, m, s) && o < |values|
    ensures Deref(values, Insert(m, k, o, less), Insert(s, k, values[o].value, less))
  {
    DerefBounds(values, m, s, k, less);
  }

  lemma DerefGrows<K, V>(values: seq<EncodedEntry<V>>, m: seq<Entry<K, nat>>, s: seq<Entry<K, V>>, x: EncodedEntry<V>)
    requires Deref(values, m, s)
    ensures Deref(values + [x], m, s)
  {}

  /** One accepted insertion into a table of names or extensions. */
  lemma InsertUniqueRefines<K(!new), V>(values: seq<EncodedEntry<V>>, t: Table<Entry<K, nat>>, s: seq<Entry<K, V>>,
                                        k: K, o: nat, less: (K, K) -> bool)
    requires StrictTotalOrder(less) && TableRefines(values, t, s, less) && o < |values|
    requires InsertUnique(t, k, o, less).0 && InsertIfNotPresent(s, k, values[o].value, less).0
    ensures TableRefines(values, InsertUnique(t, k, o, less).1, InsertIfNotPresent(s, k, values[o].value, less).1, less)
  {
    FindIsExact(t.tree, k, less);
    FindIsExact(t.flat, k, less);
    InsertKeepsOrder(t.tree, k, o, less);
    InsertThenMerge(t.tree, t.flat, k, o, less);
    DerefInsert(values, Merge(t.tree, t.flat, ByKey(less)), s, k, o, less);
  }

  /** The test of one part is the pair of neighbour tests of the simple index on that part. */
  lemma PartTest<V>(values: seq<EncodedEntry<V>>, es: seq<SymbolEntry>, key: Key, o: nat)
    requires NamedSymbols(es)
    ensures SimpleIndex.AddSymbol(Rendered(values, es), AsString(key), o).0 <==>
            && ValidateSymbolName(AsString(key))
            && CheckForMutualSubsymbols(values, AsString(key), FindLastSymbol(values, es, key), es)
  {
    hide ValidateSymbolName, AsString, Common, Less, SymbolCompare;
    RenderedUpperBound(values, es, key);
  }

  /** A symbol is accepted exactly when the simple index would accept its full name into each part. */
  lemma AddSymbolTestsEachPart<V>(ix: Index<V>, symbol: string)
    requires ix.values != [] && symbol != ""
    requires ValidateSymbolName(PackageOf(ix.values, |ix.values| - 1))
    requires NamedSymbols(ix.bySymbol.tree) && NamedSymbols(ix.bySymbol.flat)
    ensures var o: nat := |ix.values| - 1;
            var name := FullName(ix.values, SymbolEntry(o, symbol));
            var tree, flat := Rendered(ix.values, ix.bySymbol.tree), Rendered(ix.values, ix.bySymbol.flat);
            AddSymbol(ix, symbol).0 <==>
              SimpleIndex.AddSymbol(tree, name, o).0 && SimpleIndex.AddSymbol(flat, name, o).0
  {
    hide Common, Less, SymbolCompare, CheckForMutualSubsymbols, FindLastSymbol, ValidateSymbolName,
         SimpleIndex.AddSymbol;
    var o: nat := |ix.values| - 1;
    var key := KeyOfEntry(ix.values, SymbolEntry(o, symbol));
    ValidParts(key);
    PartTest(ix.values, ix.bySymbol.tree, key, o);
    PartTest(ix.values, ix.bySymbol.flat, key, o);
  }

  lemma ValidParts(key: Key)
    requires key.Stored? && ValidateSymbolName(key.package)
    ensures ValidateSymbolName(AsString(key)) <==> ValidateSymbolName(key.symbol)
  {
    var n, head := AsString(key), if key.package == "" then "" else key.package + ".";
    assert n == head + key.symbol;
    assert forall i :: 0 <= i < |key.symbol| ==> key.symbol[i] == n[|head| + i];
    assert forall i :: 0 <= i < |n| ==> n[i] == if i < |head| then head[i] else key.symbol[i - |head|];
  }

  /** Inserting a raw entry inserts its full name. */
  lemma RenderedSplice<V>(values: seq<EncodedEntry<V>>, es: seq<SymbolEntry>, entry: SymbolEntry, at: nat)
    requires at <= |es|
    ensures Rendered(values, es[..at] + [entry] + es[at..])
         == Rendered(values, es)[..at] + [Entry(FullName(values, entry), entry.offset)] + Rendered(values, es)[at..]
  {
    hide FullName;
  }

  /** With non-empty symbols only an equal full name would be equivalent, and that is refused. */
  lemma NamedIsNotDropped<V>(values: seq<EncodedEntry<V>>, es: seq<SymbolEntry>, entry: SymbolEntry)
    requires NamedSymbols(es) && entry.symbol != ""
    requires var key := KeyOfEntry(values, entry);
             CheckForMutualSubsymbols(values, AsString(key), FindLastSymbol(values, es, key), es)
    ensures var at := SymbolUpperBound(values, es, KeyOfEntry(values, entry));
            at > 0 ==> !Equivalent(KeyOfEntry(values, es[at - 1]), KeyOfEntry(values, entry))
  {
    hide Common, Less, SymbolCompare, AsString;
    var key := KeyOfEntry(values, entry);
    var at := SymbolUpperBound(values, es, key);
    if at > 0 {
      var before := KeyOfEntry(values, es[at - 1]);
      SymbolCompareIsLessOnNames(key, before);
      SymbolCompareIsLessOnNames(before, key);
      LessIsTotal(AsString(before), AsString(key));
    }
  }

  lemma RenderedInsert<V>(values: seq<EncodedEntry<V>>, es: seq<SymbolEntry>, entry: SymbolEntry, es': seq<SymbolEntry>)
    requires NamedSymbols(es) && entry.symbol != "" && InRange(es, |values|) && entry.offset < |values|
    requires es' == InsertSymbol(values, es, entry)
    requires var key := KeyOfEntry(values, entry);
             CheckForMutualSubsymbols(values, AsString(key), FindLastSymbol(values, es, key), es)
    ensures Rendered(values, es') == Insert(Rendered(values, es), FullName(values, entry), entry.offset, Less)
    ensures NamedSymbols(es') && InRange(es', |values|)
  {
    hide Common, Less, SymbolCompare, AsString, Rendered, Equivalent;
    NamedIsNotDropped(values, es, entry);
    RenderedUpperBound(values, es, KeyOfEntry(values, entry));
    RenderedSplice(values, es, entry, SymbolUpperBound(values, es, KeyOfEntry(values, entry)));
  }

  /** Symbol tables by full name: both parts and the simple index accept the same name. */
  lemma InsertRefines<V>(values: seq<EncodedEntry<V>>, tree: seq<Entry<string, nat>>, flat: seq<Entry<string, nat>>,
                         s: seq<Entry<string, V>>, name: string, o: nat)
    requires TableWf(tree, flat, Less) && Deref(values, Merge(tree, flat, ByKey(Less)), s) && o < |values|
    requires SimpleIndex.ValidKeys(tree) && SimpleIndex.ValidKeys(flat)
    requires SimpleIndex.AddSymbol(tree, name, o).0 && SimpleIndex.AddSymbol(flat, name, o).0
    ensures TableWf(Insert(tree, name, o, Less), flat, Less)
    ensures Deref(values, Merge(Insert(tree, name, o, Less), flat, ByKey(Less)), Insert(s, name, values[o].value, Less))
  {
    hide Common, Less;
    LessIsStrictTotalOrder();
    AddSymbolKeepsOrder(tree, name, o);
    AddSymbolKeepsOrder(flat, name, o);
    InsertThenMerge(tree, flat, name, o, Less);
    DerefInsert(values, Merge(tree, flat, ByKey(Less)), s, name, o, Less);
  }

  /** A symbol that the encoded index accepts is inserted in order, whether or not the simple one would accept it. */
  lemma AddSymbolInserts<V>(e: Index<V>, s: seq<Entry<string, V>>, symbol: string)
    requires e.values != [] && symbol != "" && ValidateSymbolName(PackageOf(e.values, |e.values| - 1))
    requires SymbolsRefine(e.values, e.bySymbol, s) && SimpleIndex.ValidKeys(s) && AddSymbol(e, symbol).0
    ensures var name := FullName(e.values, SymbolEntry(|e.values| - 1, symbol));
            var v := e.values[|e.values| - 1].value;
            && ValidateSymbolName(name)
            && SymbolsRefine(e.values, AddSymbol(e, symbol).1.bySymbol, Insert(s, name, v, Less))
  {
    hide Common, Less, SymbolCompare, CheckForMutualSubsymbols, ValidateSymbolName, AsString, TableWf, Deref, Merge;
    var o: nat := |e.values| - 1;
    var name, t := FullName(e.values, SymbolEntry(o, symbol)), e.bySymbol;
    AddSymbolTestsEachPart(e, symbol);
    PartsAreValid(e.values, t, s);
    InsertRefines(e.values, Rendered(e.values, t.tree), Rendered(e.values, t.flat), s, name, o);
    RenderedInsert(e.values, t.tree, SymbolEntry(o, symbol), AddSymbol(e, symbol).1.bySymbol.tree);
  }

  lemma AddSymbolRefines<V>(e: Index<V>, s: SimpleIndex.Index<V>, path: string, symbol: string, v: V)
    requires e.values != [] && symbol != "" && ValidateSymbolName(PackageOf(e.values, |e.values| - 1))
    requires SymbolsRefine(e.values, e.bySymbol, s.bySymbol) && SimpleIndex.ValidKeys(s.bySymbol)
    requires path + symbol == FullName(e.values, SymbolEntry(|e.values| - 1, symbol))
    requires v == e.values[|e.values| - 1].value
    requires AddSymbol(e, symbol).0 && SimpleIndex.AddSymbol(s.bySymbol, path + symbol, v).0
    ensures SymbolsRefine(e.values, AddSymbol(e, symbol).1.bySymbol,
                          SimpleIndex.AddSymbol(s.bySymbol, path + symbol, v).1)
  {
    hide SymbolsRefine, AddSymbol, ValidateSymbolName, FullName, Less;
    AddSymbolInserts(e, s.bySymbol, symbol);
  }

  lemma PartsAreValid<V>(values: seq<EncodedEntry<V>>, t: Table<SymbolEntry>, s: seq<Entry<string, V>>)
    requires SymbolsRefine(values, t, s) && SimpleIndex.ValidKeys(s)
    ensures SimpleIndex.ValidKeys(Rendered(values, t.tree)) && SimpleIndex.ValidKeys(Rendered(values, t.flat))
  {
    var tree, flat := Rendered(values, t.tree), Rendered(values, t.flat);
    var m := Merge(tree, flat, ByKey(Less));
    MergeHasBoth(tree, flat, ByKey(Less));
    forall e | e in tree || e in flat ensures ValidateSymbolName(e.key) {
      assert e in m;
      var i :| 0 <= i < |m| && m[i] == e;
      assert s[i].key == e.key;
    }
  }

  // --------------------------------------------------------------- whole runs

  lemma SymbolsRefineGrows<V>(values: seq<EncodedEntry<V>>, t: Table<SymbolEntry>, s: seq<Entry<string, V>>,
                              x: EncodedEntry<V>)
    requires SymbolsRefine(values, t, s)
    ensures SymbolsRefine(values + [x], t, s)
  {
    hide AsString, TableWf, Merge;
    assert Rendered(values + [x], t.tree) == Rendered(values, t.tree);
    assert Rendered(values + [x], t.flat) == Rendered(values, t.flat);
    DerefGrows(values, Merge(Rendered(values, t.tree), Rendered(values, t.flat), ByKey(Less)), s, x);
  }

  /** Every top-level name in the file is non-empty, as the two-part comparator needs. */
  predicate NamesItsSymbols(ops: seq<Op>) {
    forall i :: 0 <= i < |ops| && ops[i].Symbol? ==> ops[i].name != ""
  }

  lemma AddOneRefines<V(!new)>(e: Index<V>, s: SimpleIndex.Index<V>, path: string, op: Op, v: V)
    requires e.values != [] && e.values[|e.values| - 1].value == v && Refines(e, s) && SimpleIndex.Wf(s)
    requires var package := e.values[|e.values| - 1].package;
             ValidateSymbolName(package) && path == if package == "" then "" else package + "."
    requires op.Symbol? ==> op.name != ""
    requires AddOne(e, op).0 && SimpleIndex.AddOne(s, path, op, v).0
    ensures Refines(AddOne(e, op).1, SimpleIndex.AddOne(s, path, op, v).1)
  {
    hide SymbolsRefine, TableRefines, ValidateSymbolName, SimpleIndex.AddSymbol, AddSymbol, InsertUnique,
         InsertIfNotPresent;
    match op
    case Symbol(name) =>
      AddSymbolRefines(e, s, path, name, v);
      AddSymbolFrame(e, name);
    case Extension(field) =>
      ExtLessIsStrictTotalOrder();
      if FullyQualified(field) {
        InsertUniqueRefines(e.values, e.byExtension, s.byExtension, KeyOf(field), |e.values| - 1, ExtLess);
      }
  }

  lemma AddSymbolFrame<V>(e: Index<V>, name: string)
    requires e.values != []
    ensures AddSymbol(e, name).1 == e.(bySymbol := AddSymbol(e, name).1.bySymbol)
  {
    hide SymbolCompare, ValidateSymbolName, CheckForMutualSubsymbols;
  }

  lemma {:induction false} AddAllRefines<V(!new)>(e: Index<V>, s: SimpleIndex.Index<V>, path: string, ops: seq<Op>,
                                                  v: V)
    requires e.values != [] && e.values[|e.values| - 1].value == v && Refines(e, s) && SimpleIndex.Wf(s)
    requires var package := e.values[|e.values| - 1].package;
             ValidateSymbolName(package) && path == if package == "" then "" else package + "."
    requires NamesItsSymbols(ops) && AddAll(e, ops).0 && SimpleIndex.AddAll(s, path, ops, v).0
    ensures Refines(AddAll(e, ops).1, SimpleIndex.AddAll(s, path, ops, v).1)
    decreases |ops|
  {
    hide Refines, SimpleIndex.Wf, ValidateSymbolName, AddOne, SimpleIndex.AddOne;
    if ops != [] {
      AddOneRefines(e, s, path, ops[0], v);
      SimpleRuns.AddOneKeeps(s, path, ops[0], v);
      AddAllRefines(AddOne(e, ops[0]).1, SimpleIndex.AddOne(s, path, ops[0], v).1, path, ops[1..], v);
    }
  }

  lemma AddFileRefines<V(!new)>(e: Index<V>, s: SimpleIndex.Index<V>, file: File, v: V)
    requires Refines(e, s) && SimpleIndex.Wf(s) && NamesItsSymbols(FileOps(file))
    requires AddFile(e, file, v).0 && SimpleIndex.AddFile(s, file, v).0
    ensures Refines(AddFile(e, file, v).1, SimpleIndex.AddFile(s, file, v).1)
  {
    hide SymbolsRefine, ValidateSymbolName, InsertUnique, InsertIfNotPresent, AddAll, SimpleIndex.AddAll, FileOps,
         Deref, TableWf;
    var x := EncodedEntry(v, file.Package());
    SymbolsRefineGrows(e.values, e.bySymbol, s.bySymbol, x);
    DerefGrows(e.values, Merge(e.byName.tree, e.byName.flat, ByKey(Less)), s.byName, x);
    DerefGrows(e.values, Merge(e.byExtension.tree, e.byExtension.flat, ByKey(ExtLess)), s.byExtension, x);
    var pushed := e.(values := e.values + [x]);
    LessIsStrictTotalOrder();
    InsertUniqueRefines(pushed.values, pushed.byName, s.byName, file.name, |e.values|, Less);
    InsertIfNotPresentKeeps(s.byName, file.name, v, Less);
    var names := InsertUnique(pushed.byName, file.name, |e.values|, Less).1;
    var names' := InsertIfNotPresent(s.byName, file.name, v, Less).1;
    AddAllRefines(pushed.(byName := names), s.(byName := names'), file.Path(), FileOps(file), v);
  }

  lemma FlattenRefines<K(!new), V>(values: seq<EncodedEntry<V>>, t: Table<Entry<K, nat>>, s: seq<Entry<K, V>>,
                                   less: (K, K) -> bool)
    requires StrictTotalOrder(less) && TableRefines(values, t, s, less)
    ensures TableRefines(values, Flatten(t, ByKey(less)), s, less)
    ensures Flatten(t, ByKey(less)).tree == [] && Deref(values, Flatten(t, ByKey(less)).flat, s)
  {
    MergeKeepsOrder(t.tree, t.flat, less);
  }

  lemma FlattenSymbolsRefines<V>(values: seq<EncodedEntry<V>>, t: Table<SymbolEntry>, s: seq<Entry<string, V>>)
    requires SymbolsRefine(values, t, s)
    ensures SymbolsRefine(values, Flatten(t, EntryLess(values)), s)
    ensures NamedSymbols(Flatten(t, EntryLess(values)).flat)
    ensures Deref(values, Rendered(values, Flatten(t, EntryLess(values)).flat), s)
  {
    hide Common, Less, SymbolCompare, AsString;
    var tree, flat := Rendered(values, t.tree), Rendered(values, t.flat);
    LessIsStrictTotalOrder();
    MergeKeepsOrder(tree, flat, Less);
    RenderedMerge(values, t.tree, t.flat);
    MergeHasBoth(t.tree, t.flat, EntryLess(values));
    var m := Merge(t.tree, t.flat, EntryLess(values));
    forall i | 0 <= i < |m| ensures m[i].symbol != "" && m[i].offset < |values| {
      assert m[i] in m;
    }
    assert Rendered(values, []) == [];
  }

  lemma EnsureFlatRefines<V>(e: Index<V>, s: SimpleIndex.Index<V>)
    requires Refines(e, s)
    ensures Refines(EnsureFlat(e), s)
  {
    hide TableRefines, SymbolsRefine, Flatten;
    LessIsStrictTotalOrder();
    ExtLessIsStrictTotalOrder();
    FlattenRefines(e.values, e.byName, s.byName, Less);
    FlattenSymbolsRefines(e.values, e.bySymbol, s.bySymbol);
    FlattenRefines(e.values, e.byExtension, s.byExtension, ExtLess);
  }

  lemma DerefFind<K(!new), V>(values: seq<EncodedEntry<V>>, t: Table<Entry<K, nat>>, s: seq<Entry<K, V>>, k: K,
                              less: (K, K) -> bool)
    requires Deref(values, t.flat, s)
    ensures FindFlat(values, t, k, less) == Find(s, k, less)
  {
    DerefBounds(values, t.flat, s, k, less);
  }

  lemma {:induction false} DerefNumbers<V>(values: seq<EncodedEntry<V>>, m: seq<Entry<ExtKey, nat>>,
                                           s: seq<Entry<ExtKey, V>>, i: nat, t: string)
    requires Deref(values, m, s) && i <= |m|
    ensures SimpleIndex.NumbersFrom(m, i, t) == SimpleIndex.NumbersFrom(s, i, t)
    decreases |m| - i
  {
    if i < |m| { DerefNumbers(values, m, s, i + 1, t); }
  }

  lemma SameSymbolAnswer<V>(e: Index<V>, s: SimpleIndex.Index<V>, q: string)
    requires NamedSymbols(e.bySymbol.flat) && Deref(e.values, Rendered(e.values, e.bySymbol.flat), s.bySymbol)
    ensures FindSymbolOnlyFlat(e, q) == SimpleIndex.FindSymbol(s.bySymbol, q)
  {
    hide Common, Less, SymbolCompare, IsSubSymbol;
    RenderedUpperBound(e.values, e.bySymbol.flat, Plain(q));
    DerefBounds(e.values, Rendered(e.values, e.bySymbol.flat), s.bySymbol, q, Less);
  }

  /** Every lookup gives the same result. */
  lemma SameAnswers<V>(e: Index<V>, s: SimpleIndex.Index<V>, q: string, n: int)
    requires Refines(e, s)
    ensures FindFile(e, q) == SimpleIndex.FindFile(s, q)
    ensures FindSymbol(e, q) == SimpleIndex.FindSymbol(s.bySymbol, q)
    ensures FindExtension(e, q, n) == SimpleIndex.FindExtension(s.byExtension, q, n)
    ensures FindAllExtensionNumbers(e, q) == SimpleIndex.FindAllExtensionNumbers(s.byExtension, q)
  {
    hide TableWf, Flatten, Deref, FindFlat, Find, FindSymbolOnlyFlat, SimpleIndex.FindSymbol, SimpleIndex.NumbersFrom;
    LessIsStrictTotalOrder();
    ExtLessIsStrictTotalOrder();
    FlattenRefines(e.values, e.byName, s.byName, Less);
    FlattenSymbolsRefines(e.values, e.bySymbol, s.bySymbol);
    FlattenRefines(e.values, e.byExtension, s.byExtension, ExtLess);
    var f := EnsureFlat(e);
    DerefFind(e.values, f.byName, s.byName, q, Less);
    SameSymbolAnswer(f, s, q);
    DerefFind(e.values, f.byExtension, s.byExtension, ExtKey(q, n), ExtLess);
    DerefBounds(e.values, f.byExtension.flat, s.byExtension, ExtKey(q, 0), ExtLess);
    DerefNumbers(e.values, f.byExtension.flat, s.byExtension, LowerBound(s.byExtension, ExtKey(q, 0), ExtLess), q);
  }

  /** A client's calls: an Add, or any lookup, which flattens the encoded tables first. */
  datatype Call<+V> = Add(file: File, value: V) | Lookup

  /** Plays the calls on both databases; false once an Add is refused by either. */
  function Play<V>(calls: seq<Call<V>>, e: Index<V>, s: SimpleIndex.Index<V>): (bool, Index<V>, SimpleIndex.Index<V>)
    decreases |calls|
  {
    if calls == [] then (true, e, s)
    else match calls[0]
      case Lookup => Play(calls[1..], EnsureFlat(e), s)
      case Add(file, v) =>
        var (okE, e') := AddFile(e, file, v);
        var (okS, s') := SimpleIndex.AddFile(s, file, v);
        if okE && okS then Play(calls[1..], e', s') else (false, e', s')
  }

  ghost predicate NamedCalls<V>(calls: seq<Call<V>>) {
    forall i :: 0 <= i < |calls| && calls[i].Add? ==> NamesItsSymbols(FileOps(calls[i].file))
  }

  lemma {:induction false} PlayRefines<V(!new)>(calls: seq<Call<V>>, e: Index<V>, s: SimpleIndex.Index<V>)
    requires Refines(e, s) && SimpleIndex.Wf(s) && NamedCalls(calls) && Play(calls, e, s).0
    ensures Refines(Play(calls, e, s).1, Play(calls, e, s).2)
    decreases |calls|
  {
    hide Refines, SimpleIndex.Wf, AddFile, SimpleIndex.AddFile, EnsureFlat, NamesItsSymbols;
    if calls != [] {
      match calls[0]
      case Lookup =>
        EnsureFlatRefines(e, s);
        PlayRefines(calls[1..], EnsureFlat(e), s);
      case Add(file, v) =>
        AddFileRefines(e, s, file, v);
        SimpleRuns.AddFileKeeps(s, file, v);
        PlayRefines(calls[1..], AddFile(e, file, v).1, SimpleIndex.AddFile(s, file, v).1);
    }
  }

  /**
   * The encoded database refines the simple one: after every run whose Adds
   * both accept, however lookups were interleaved, the same file, symbol,
   * extension and extension-number queries have the same answers.
   */
  lemma EncodedRefinesSimple<V(!new)>(calls: seq<Call<V>>, q: string, n: int)
    requires NamedCalls(calls) && Play(calls, EncodedIndex.Empty(), SimpleIndex.Empty()).0
    ensures var (_, e, s) := Play(calls, EncodedIndex.Empty(), SimpleIndex.Empty());
            && FindFile(e, q) == SimpleIndex.FindFile(s, q)
            && FindSymbol(e, q) == SimpleIndex.FindSymbol(s.bySymbol, q)
            && FindExtension(e, q, n) == SimpleIndex.FindExtension(s.byExtension, q, n)
            && FindAllExtensionNumbers(e, q) == SimpleIndex.FindAllExtensionNumbers(s.byExtension, q)
  {
    PlayRefines(calls, EncodedIndex.Empty(), SimpleIndex.Empty());
    var (_, e, s) := Play(calls, EncodedIndex.Empty(), SimpleIndex.Empty());
    SameAnswers(e, s, q, n);
  }
}
