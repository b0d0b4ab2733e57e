// Which symbols the encoded index accepts, and exactly where that differs from
// the simple index.
module EncodedAcceptance {
  import opened Names
  import opened Options
  import opened Descriptors
  import opened Ordered
  import opened SymbolOrder
  import opened SymbolLookup
  import opened EncodedIndex
  import opened EncodedRefinement
  import opened EncodedQuirks
  import SimpleIndex
  import SimpleRuns

  lemma SmallerIsPrefixFree<V, W>(es: seq<Entry<string, V>>, all: seq<Entry<string, W>>)
    requires SimpleIndex.PrefixFree(all) && Sorted(es, Less)
    requires forall i :: 0 <= i < |es| ==> Has(all, es[i].key)
    ensures SimpleIndex.PrefixFree(es)
  {
    hide Common, Less;
    LessIsStrictTotalOrder();
    SortedKeysAreDistinct(es, Less);
    forall i, j | 0 <= i < |es| && 0 <= j < |es| && i != j ensures !IsSubSymbol(es[i].key, es[j].key) {
      var i' :| 0 <= i' < |all| && all[i'].key == es[i].key;
      var j' :| 0 <= j' < |all| && all[j'].key == es[j].key;
      assert i' != j';
    }
  }

  /** A part of the map accepts every name that the whole map accepts. */
  lemma PartAcceptsToo<V, W>(es: seq<Entry<string, V>>, all: seq<Entry<string, W>>, name: string, v: V, w: W)
    requires Sorted(es, Less) && Sorted(all, Less) && SimpleIndex.ValidKeys(es) && SimpleIndex.ValidKeys(all)
    requires SimpleIndex.PrefixFree(all) && SimpleIndex.AddSymbol(all, name, w).0
    requires forall i :: 0 <= i < |es| ==> Has(all, es[i].key)
    ensures SimpleIndex.AddSymbol(es, name, v).0
  {
    hide Common, Less, SimpleIndex.AddSymbol, IsSubSymbol, ValidateSymbolName;
    LessIsStrictTotalOrder();
    SmallerIsPrefixFree(es, all);
    AddSymbolKeepsPrefixFree(all, name, w);
    AddSymbolIsValid(all, name, w);
    forall i | 0 <= i < |es| && Related(es[i].key, name) ensures i == 0 && !HasFloor(es, name) {
      var j :| 0 <= j < |all| && all[j].key == es[i].key;
      assert j == 0 && !HasFloor(all, name);
      assert all[0].key == es[i].key;
      forall h | 0 <= h < |es| ensures AtMost(es[i].key, es[h].key) {
        var g :| 0 <= g < |all| && all[g].key == es[h].key;
        assert g == 0 || Less(all[0].key, all[g].key);
      }
      assert AtMost(es[i].key, es[0].key);
    }
    if HasFloor(es, name) { AddSymbolDecidesAllKeys(es, name, v); } else { AddSymbolBelowLeastKey(es, name, v); }
  }

  lemma AddSymbolIsValid<V>(es: seq<Entry<string, V>>, name: string, v: V)
    requires SimpleIndex.AddSymbol(es, name, v).0
    ensures ValidateSymbolName(name)
  {}

  /** While the map invariant holds, the encoded index accepts every symbol that the simple one accepts. */
  lemma EncodedAcceptsSymbol<V>(e: Index<V>, s: seq<Entry<string, V>>, symbol: string, v: V)
    requires e.values != [] && symbol != "" && ValidateSymbolName(PackageOf(e.values, |e.values| - 1))
    requires SymbolsRefine(e.values, e.bySymbol, s)
    requires Sorted(s, Less) && SimpleIndex.ValidKeys(s) && SimpleIndex.PrefixFree(s)
    requires SimpleIndex.AddSymbol(s, FullName(e.values, SymbolEntry(|e.values| - 1, symbol)), v).0
    ensures AddSymbol(e, symbol).0
  {
    hide Common, Less, SymbolCompare, AsString, ValidateSymbolName, AddSymbol, SimpleIndex.AddSymbol,
         SimpleIndex.PrefixFree;
    var o: nat := |e.values| - 1;
    var name, t := FullName(e.values, SymbolEntry(o, symbol)), e.bySymbol;
    var tree, flat := Rendered(e.values, t.tree), Rendered(e.values, t.flat);
    PartsAreValid(e.values, t, s);
    PartsAreKeys(e.values, tree, flat, s);
    PartAcceptsToo(tree, s, name, o, v);
    PartAcceptsToo(flat, s, name, o, v);
    AddSymbolTestsEachPart(e, symbol);
  }

  lemma PartsAreKeys<V>(values: seq<EncodedEntry<V>>, tree: seq<Entry<string, nat>>, flat: seq<Entry<string, nat>>,
                        s: seq<Entry<string, V>>)
    requires Deref(values, Merge(tree, flat, ByKey(Less)), s)
    ensures forall i :: 0 <= i < |tree| ==> Has(s, tree[i].key)
    ensures forall i :: 0 <= i < |flat| ==> Has(s, flat[i].key)
  {
    hide Less;
    var m := Merge(tree, flat, ByKey(Less));
    MergeHasBoth(tree, flat, ByKey(Less));
    forall x | x in tree || x in flat ensures Has(s, x.key) {
      assert x in m;
      var i :| 0 <= i < |m| && m[i] == x;
      assert s[i].key == x.key;
    }
  }

  lemma InsertUniqueAccepts<K(!new), V>(values: seq<EncodedEntry<V>>, t: Table<Entry<K, nat>>, s: seq<Entry<K, V>>,
                                        k: K, o: nat, v: V, less: (K, K) -> bool)
    requires StrictTotalOrder(less) && Sorted(s, less) && TableRefines(values, t, s, less)
    requires InsertIfNotPresent(s, k, v, less).0
    ensures InsertUnique(t, k, o, less).0
  {
    var m := Merge(t.tree, t.flat, ByKey(less));
    DerefBounds(values, m, s, k, less);
    FindIsExact(s, k, less);
    MergePrefersTree(t.tree, t.flat, k, less);
  }

  /** Symbol keys are never dropped. */
  lemma {:induction false} AddAllKeepsKeys<V>(s: SimpleIndex.Index<V>, path: string, ops: seq<Op>, v: V, k: string)
    requires Has(s.bySymbol, k)
    ensures Has(SimpleIndex.AddAll(s, path, ops, v).1.bySymbol, k)
    decreases |ops|
  {
    if ops != [] {
      var (ok, s') := SimpleIndex.AddOne(s, path, ops[0], v);
      HasByMembership(s.bySymbol, k);
      HasByMembership(s'.bySymbol, k);
      if ops[0].Symbol? { InsertAddsOnlyItsEntry(s.bySymbol, path + ops[0].name, v, Less); }
      if ok { AddAllKeepsKeys(s', path, ops[1..], v, k); }
    }
  }

  lemma EncodedAcceptsOne<V(!new)>(e: Index<V>, s: SimpleIndex.Index<V>, path: string, op: Op, v: V)
    requires e.values != [] && Refines(e, s) && SimpleIndex.Wf(s) && SimpleIndex.PrefixFree(s.bySymbol)
    requires var package := e.values[|e.values| - 1].package;
             ValidateSymbolName(package) && path == if package == "" then "" else package + "."
    requires (op.Symbol? ==> op.name != "") && SimpleIndex.AddOne(s, path, op, v).0
    ensures AddOne(e, op).0
  {
    hide SymbolsRefine, TableRefines, ValidateSymbolName, SimpleIndex.AddSymbol, AddSymbol, InsertUnique,
         InsertIfNotPresent;
    match op
    case Symbol(name) =>
      assert path + name == FullName(e.values, SymbolEntry(|e.values| - 1, name));
      EncodedAcceptsSymbol(e, s.bySymbol, name, v);
    case Extension(field) =>
      ExtLessIsStrictTotalOrder();
      if FullyQualified(field) {
        InsertUniqueAccepts(e.values, e.byExtension, s.byExtension, KeyOf(field), |e.values| - 1, v, ExtLess);
      }
  }

  lemma {:induction false} EncodedAcceptsAll<V(!new)>(e: Index<V>, s: SimpleIndex.Index<V>, path: string, ops: seq<Op>,
                                                      v: V)
    requires e.values != [] && e.values[|e.values| - 1].value == v && Refines(e, s) && SimpleIndex.Wf(s)
    requires var package := e.values[|e.values| - 1].package;
             ValidateSymbolName(package) && path == if package == "" then "" else package + "."
    requires NamesItsSymbols(ops) && SimpleIndex.AddAll(s, path, ops, v).0
    requires SimpleIndex.Wf(SimpleIndex.AddAll(s, path, ops, v).1)
    requires SimpleIndex.PrefixFree(SimpleIndex.AddAll(s, path, ops, v).1.bySymbol)
    ensures AddAll(e, ops).0
    decreases |ops|
  {
    hide Refines, ValidateSymbolName, AddOne, SimpleIndex.AddOne, SimpleIndex.PrefixFree, Sorted, SimpleIndex.ValidKeys;
    if ops != [] {
      var end := SimpleIndex.AddAll(s, path, ops, v).1;
      forall i | 0 <= i < |s.bySymbol| ensures Has(end.bySymbol, s.bySymbol[i].key) {
        AddAllKeepsKeys(s, path, ops, v, s.bySymbol[i].key);
      }
      SmallerIsPrefixFree(s.bySymbol, end.bySymbol);
      EncodedAcceptsOne(e, s, path, ops[0], v);
      AddOneRefines(e, s, path, ops[0], v);
      SimpleRuns.AddOneKeeps(s, path, ops[0], v);
      EncodedAcceptsAll(AddOne(e, ops[0]).1, SimpleIndex.AddOne(s, path, ops[0], v).1, path, ops[1..], v);
    }
  }

  /**
   * Acceptance carries over too, as long as the map invariant holds: a file
   * with a valid package that the simple index accepts without breaking the
   * invariant is accepted by the encoded index.
   */
  lemma EncodedAcceptsFile<V(!new)>(e: Index<V>, s: SimpleIndex.Index<V>, file: File, v: V)
    requires Refines(e, s) && SimpleIndex.Wf(s) && NamesItsSymbols(FileOps(file)) && ValidateSymbolName(file.Package())
    requires SimpleIndex.AddFile(s, file, v).0 && SimpleIndex.PrefixFree(SimpleIndex.AddFile(s, file, v).1.bySymbol)
    ensures AddFile(e, file, v).0
  {
    hide SymbolsRefine, ValidateSymbolName, InsertUnique, InsertIfNotPresent, AddAll, SimpleIndex.AddAll, FileOps,
         Deref, TableWf,
         SimpleIndex.PrefixFree;
    var x := EncodedEntry(v, file.Package());
    SymbolsRefineGrows(e.values, e.bySymbol, s.bySymbol, x);
    DerefGrows(e.values, Merge(e.byName.tree, e.byName.flat, ByKey(Less)), s.byName, x);
    DerefGrows(e.values, Merge(e.byExtension.tree, e.byExtension.flat, ByKey(ExtLess)), s.byExtension, x);
    var pushed := e.(values := e.values + [x]);
    LessIsStrictTotalOrder();
    InsertUniqueAccepts(pushed.values, pushed.byName, s.byName, file.name, |e.values|, v, Less);
    InsertUniqueRefines(pushed.values, pushed.byName, s.byName, file.name, |e.values|, Less);
    InsertIfNotPresentKeeps(s.byName, file.name, v, Less);
    var names := InsertUnique(pushed.byName, file.name, |e.values|, Less).1;
    var names' := InsertIfNotPresent(s.byName, file.name, v, Less).1;
    SimpleRuns.AddFileKeeps(s, file, v);
    EncodedAcceptsAll(pushed.(byName := names), s.(byName := names'), file.Path(), FileOps(file), v);
  }

  // --------------------------------------------------- exactly when they differ

  /** The least key of one part is a child of the name, and the other part has a smaller key. */
  predicate HidesChild<V>(part: seq<Entry<string, V>>, other: seq<Entry<string, V>>, name: string) {
    part != [] && other != [] && IsStrictChild(part[0].key, name) && Less(other[0].key, part[0].key)
  }

  /** A sorted table, and two parts with the same entries. */
  ghost predicate IsWhole<V(!new)>(m: seq<Entry<string, V>>, a: seq<Entry<string, V>>, b: seq<Entry<string, V>>) {
    Sorted(m, Less) && Sorted(a, Less) && Sorted(b, Less) && forall x :: x in m <==> x in a || x in b
  }

  lemma SmallerIsBefore<V>(m: seq<Entry<string, V>>, j: nat, i: nat)
    requires Sorted(m, Less) && j < |m| && i < |m| && Less(m[j].key, m[i].key)
    ensures j < i
  {
    hide Common, Less;
    LessIsStrictTotalOrder();
  }

  lemma HeadIsAtMost<V>(es: seq<Entry<string, V>>, x: Entry<string, V>)
    requires Sorted(es, Less) && x in es
    ensures es[0] == x || Less(es[0].key, x.key)
  {
    hide Common, Less;
    var i :| 0 <= i < |es| && es[i] == x;
  }

  /** The floor of the whole is the floor of its part. */
  lemma FloorOfWhole<V>(m: seq<Entry<string, V>>, part: seq<Entry<string, V>>, name: string, i: nat, p: nat)
    requires Sorted(m, Less) && Sorted(part, Less) && (forall x :: x in part ==> x in m)
    requires i < |m| && p < |part| && part[p] == m[i] && IsFloor(m, name, i)
    ensures IsFloor(part, name, p)
  {
    hide Common, Less;
    LessIsStrictTotalOrder();
    if p + 1 < |part| {
      assert part[p + 1] in m;
      var j :| 0 <= j < |m| && m[j] == part[p + 1];
      SmallerIsBefore(m, i, j);
      assert j > i + 1 ==> Less(m[i + 1].key, m[j].key);
    }
  }

  lemma FloorIsParentInPart<V(!new)>(m: seq<Entry<string, V>>, a: seq<Entry<string, V>>, b: seq<Entry<string, V>>,
                                     name: string)
    requires IsWhole(m, a, b) && FloorIsParent(m, name)
    ensures FloorIsParent(a, name) || FloorIsParent(b, name)
  {
    hide Common, Less, IsSubSymbol, IsFloor, Sorted;
    var i :| 0 <= i < |m| && IsFloor(m, name, i) && IsSubSymbol(m[i].key, name);
    assert m[i] in m;
    if m[i] in a {
      var p :| 0 <= p < |a| && a[p] == m[i];
      FloorOfWhole(m, a, name, i, p);
    } else {
      var p :| 0 <= p < |b| && b[p] == m[i];
      FloorOfWhole(m, b, name, i, p);
    }
  }

  /** A child that only the least key of a part is, is the least of the whole if the other part does not hide it. */
  lemma ChildInWhole<V(!new)>(m: seq<Entry<string, V>>, part: seq<Entry<string, V>>, other: seq<Entry<string, V>>,
                              name: string, i: nat)
    requires IsWhole(m, part, other) && OnlyLeastIsChild(part, name) && !HidesChild(part, other, name)
    requires i < |m| && m[i] in part && IsStrictChild(m[i].key, name)
    ensures i == 0
  {
    hide Common, Less, IsStrictChild;
    LessIsStrictTotalOrder();
    var p :| 0 <= p < |part| && part[p] == m[i];
    assert m[0] in m;
    if m[0] in part { HeadIsAtMost(part, m[0]); } else { HeadIsAtMost(other, m[0]); }
  }

  lemma HiddenChildIsLater<V(!new)>(m: seq<Entry<string, V>>, part: seq<Entry<string, V>>,
                                    other: seq<Entry<string, V>>, name: string)
    requires IsWhole(m, part, other) && HidesChild(part, other, name)
    ensures !OnlyLeastIsChild(m, name)
  {
    hide Common, Less, IsStrictChild, Sorted;
    assert part[0] in part && other[0] in other;
    var i :| 0 <= i < |m| && m[i] == part[0];
    var j :| 0 <= j < |m| && m[j] == other[0];
    SmallerIsBefore(m, j, i);
  }

  lemma OnlyLeastInPart<V>(m: seq<Entry<string, V>>, part: seq<Entry<string, V>>, name: string)
    requires Sorted(m, Less) && Sorted(part, Less) && (forall x :: x in part ==> x in m) && OnlyLeastIsChild(m, name)
    ensures OnlyLeastIsChild(part, name)
  {
    hide Common, Less, IsStrictChild;
    LessIsStrictTotalOrder();
    forall p | 0 <= p < |part| && IsStrictChild(part[p].key, name) ensures p == 0 {
      assert part[p] in m && part[0] in m;
      var i :| 0 <= i < |m| && m[i] == part[p];
      var j :| 0 <= j < |m| && m[j] == part[0];
    }
  }

  /** Two parts let a name in that the whole does not, exactly if one hides the child that is the least of the other. */
  lemma PartsLetInMoreIff<V(!new)>(m: seq<Entry<string, V>>, a: seq<Entry<string, V>>, b: seq<Entry<string, V>>,
                                   name: string)
    requires IsWhole(m, a, b)
    ensures LetsIn(a, name) && LetsIn(b, name) && !LetsIn(m, name) <==>
              LetsIn(a, name) && LetsIn(b, name) && (HidesChild(a, b, name) || HidesChild(b, a, name))
  {
    hide Common, Less, IsStrictChild, Sorted, HidesChild, FloorIsParent, IsWhole;
    if FloorIsParent(m, name) { FloorIsParentInPart(m, a, b, name); }
    WholeIsSymmetric(m, a, b);
    if HidesChild(a, b, name) { HiddenChildIsLater(m, a, b, name); }
    if HidesChild(b, a, name) { HiddenChildIsLater(m, b, a, name); }
    if LetsIn(a, name) && LetsIn(b, name) && !HidesChild(a, b, name) && !HidesChild(b, a, name) {
      forall i | 0 <= i < |m| && IsStrictChild(m[i].key, name) ensures i == 0 {
        assert m[i] in m;
        InOneOfTwo(m, a, b, m[i]);
        if m[i] in a { ChildInWhole(m, a, b, name, i); } else { ChildInWhole(m, b, a, name, i); }
      }
    }
  }

  lemma WholeIsSymmetric<V(!new)>(m: seq<Entry<string, V>>, a: seq<Entry<string, V>>, b: seq<Entry<string, V>>)
    requires IsWhole(m, a, b)
    ensures IsWhole(m, b, a)
  {}

  lemma InOneOfTwo<V(!new)>(m: seq<Entry<string, V>>, a: seq<Entry<string, V>>, b: seq<Entry<string, V>>,
                            x: Entry<string, V>)
    requires IsWhole(m, a, b)
    ensures x in m <==> x in a || x in b
  {}

  /** The whole lets a name in that a part does not, exactly if the part's floor is the name's parent. */
  lemma WholeLetsInMoreIff<V(!new)>(m: seq<Entry<string, V>>, a: seq<Entry<string, V>>, b: seq<Entry<string, V>>,
                                    name: string)
    requires IsWhole(m, a, b)
    ensures LetsIn(m, name) && !(LetsIn(a, name) && LetsIn(b, name)) <==>
              LetsIn(m, name) && (FloorIsParent(a, name) || FloorIsParent(b, name))
  {
    hide Common, Less, IsStrictChild, Sorted, FloorIsParent;
    if LetsIn(m, name) {
      OnlyLeastInPart(m, a, name);
      OnlyLeastInPart(m, b, name);
    }
  }

  lemma WholeOfParts<V>(values: seq<EncodedEntry<V>>, t: Table<SymbolEntry>, s: seq<Entry<string, V>>)
    requires SymbolsRefine(values, t, s)
    ensures var tree, flat := Rendered(values, t.tree), Rendered(values, t.flat);
            IsWhole(Merge(tree, flat, ByKey(Less)), tree, flat) && Sorted(s, Less)
  {
    hide Common, Less, AsString, ValidateSymbolName;
    LessIsStrictTotalOrder();
    var tree, flat := Rendered(values, t.tree), Rendered(values, t.flat);
    MergeKeepsOrder(tree, flat, Less);
    MergeHasBoth(tree, flat, ByKey(Less));
  }

  lemma SameKeysLetIn<V>(values: seq<EncodedEntry<V>>, m: seq<Entry<string, nat>>, s: seq<Entry<string, V>>,
                         name: string)
    requires Deref(values, m, s)
    ensures LetsIn(m, name) <==> LetsIn(s, name)
  {
    hide Less, IsSubSymbol;
    assert forall i :: 0 <= i < |m| ==> m[i].key == s[i].key;
    assert forall i :: 0 <= i < |m| ==> (IsFloor(m, name, i) <==> IsFloor(s, name, i));
    assert forall i :: 0 <= i < |m| ==> (IsStrictChild(m[i].key, name) <==> IsStrictChild(s[i].key, name));
  }

  /**
   * What the encoded index accepts, whether or not the map invariant holds: a
   * valid name is accepted exactly if tree and flat part each let it in. The
   * simple index asks the same of the whole map.
   */
  lemma EncodedAcceptsIff<V>(e: Index<V>, s: seq<Entry<string, V>>, symbol: string, v: V)
    requires e.values != [] && symbol != "" && ValidateSymbolName(PackageOf(e.values, |e.values| - 1))
    requires SymbolsRefine(e.values, e.bySymbol, s) && SimpleIndex.ValidKeys(s)
    ensures var name := FullName(e.values, SymbolEntry(|e.values| - 1, symbol));
            var tree, flat := Rendered(e.values, e.bySymbol.tree), Rendered(e.values, e.bySymbol.flat);
            && (AddSymbol(e, symbol).0 <==> ValidateSymbolName(name) && LetsIn(tree, name) && LetsIn(flat, name))
            && (SimpleIndex.AddSymbol(s, name, v).0 <==> ValidateSymbolName(name) && LetsIn(s, name))
  {
    hide Common, Less, SymbolCompare, FullName, ValidateSymbolName, AddSymbol, SimpleIndex.AddSymbol, LetsIn, Merge;
    var o: nat := |e.values| - 1;
    var name := FullName(e.values, SymbolEntry(o, symbol));
    PartsAreValid(e.values, e.bySymbol, s);
    WholeOfParts(e.values, e.bySymbol, s);
    AddSymbolTestsEachPart(e, symbol);
    AddSymbolAcceptsExactly(Rendered(e.values, e.bySymbol.tree), name, o);
    AddSymbolAcceptsExactly(Rendered(e.values, e.bySymbol.flat), name, o);
    AddSymbolAcceptsExactly(s, name, v);
  }

  /**
   * Exactly when the two indexes disagree about a symbol, in each direction.
   * The encoded index accepts what the simple one refuses if both parts let
   * the name in and a child of it, the least key of one part, has a smaller
   * key in the other. The simple index accepts what the encoded one refuses
   * if the whole map lets the name in and the floor of one part is its
   * parent, which another key hides in the whole. So which names are accepted
   * depends on when lookups happen.
   */
  lemma IndexesDisagreeIff<V>(e: Index<V>, s: seq<Entry<string, V>>, symbol: string, v: V)
    requires e.values != [] && symbol != "" && ValidateSymbolName(PackageOf(e.values, |e.values| - 1))
    requires SymbolsRefine(e.values, e.bySymbol, s) && SimpleIndex.ValidKeys(s)
    ensures var name := FullName(e.values, SymbolEntry(|e.values| - 1, symbol));
            var tree, flat := Rendered(e.values, e.bySymbol.tree), Rendered(e.values, e.bySymbol.flat);
            && (AddSymbol(e, symbol).0 && !SimpleIndex.AddSymbol(s, name, v).0 <==>
                && ValidateSymbolName(name) && LetsIn(tree, name) && LetsIn(flat, name)
                && (HidesChild(tree, flat, name) || HidesChild(flat, tree, name)))
            && (SimpleIndex.AddSymbol(s, name, v).0 && !AddSymbol(e, symbol).0 <==>
                && ValidateSymbolName(name) && LetsIn(s, name)
                && (FloorIsParent(tree, name) || FloorIsParent(flat, name)))
  {
    hide Common, Less, SymbolCompare, FullName, ValidateSymbolName, AddSymbol, SimpleIndex.AddSymbol, LetsIn, Merge,
         IsWhole, HidesChild, FloorIsParent, AsString;
    var name := FullName(e.values, SymbolEntry(|e.values| - 1, symbol));
    var tree, flat := Rendered(e.values, e.bySymbol.tree), Rendered(e.values, e.bySymbol.flat);
    var m := Merge(tree, flat, ByKey(Less));
    EncodedAcceptsIff(e, s, symbol, v);
    WholeOfParts(e.values, e.bySymbol, s);
    SameKeysLetIn(e.values, m, s, name);
    PartsLetInMoreIff(m, tree, flat, name);
    WholeLetsInMoreIff(m, tree, flat, name);
  }

  // ------------------------------------------------------- runs that differ

  /** The encoded index after Add of a message a, a lookup, and Add of a message b. */
  function Apart<V>(n: string, a: string, v: V, n': string, b: string, v': V): Index<V> {
    Index([EncodedEntry(v, ""), EncodedEntry(v', "")], Table([Entry(n', 1)], [Entry(n, 0)]),
          Table([SymbolEntry(1, b)], [SymbolEntry(0, a)]), Table([], []))
  }

  /** A new message goes through the tests of both parts, each with at most one entry. */
  lemma AddSymbolToFlat<V>(e: Index<V>, m: string, flat: seq<SymbolEntry>)
    requires e.values != [] && e.bySymbol == Table([], flat) && |flat| <= 1 && NamedSymbols(flat) && m != ""
    requires PackageOf(e.values, |e.values| - 1) == "" && ValidateSymbolName(m)
    requires flat != [] ==>
               var key := FullName(e.values, flat[0]); ValidateSymbolName(key) && (Related(key, m) ==> Less(m, key))
    ensures AddSymbol(e, m) == (true, e.(bySymbol := Table([SymbolEntry(|e.values| - 1, m)], flat)))
  {
    hide Common, Less, SymbolCompare, ValidateSymbolName, IsSubSymbol, SimpleIndex.AddSymbol, CheckForMutualSubsymbols,
         FindLastSymbol;
    var o: nat := |e.values| - 1;
    assert ValidateSymbolName("") by { EmptyIsValid(); }
    assert FullName(e.values, SymbolEntry(o, m)) == m;
    AddSymbolTestsEachPart(e, m);
    assert Rendered(e.values, []) == [];
    AddToOneEntry(m, o, m, o);
    if flat != [] {
      var r := Rendered(e.values, flat);
      assert r == [Entry(FullName(e.values, flat[0]), flat[0].offset)];
      AddToOneEntry(r[0].key, r[0].value, m, o);
    } else {
      assert Rendered(e.values, flat) == [];
    }
    assert AddSymbol(e, m).0;
    assert AddSymbol(e, m).1.bySymbol.tree == [SymbolEntry(o, m)];
  }

  lemma EmptyIsValid()
    ensures ValidateSymbolName("")
  {}

  lemma FirstMessage<V>(n: string, a: string, v: V)
    requires a != "" && ValidateSymbolName(a)
    ensures var (ok, e) := AddFile(EncodedIndex.Empty(), OneMessage(n, a), v);
            && ok
            && e == Index([EncodedEntry(v, "")], Table([Entry(n, 0)], []), Table([SymbolEntry(0, a)], []),
                          Table([], []))
  {
    hide Common, Less, SymbolCompare, ValidateSymbolName, IsSubSymbol, AddSymbol, AddFile, Related, FileOps;
    var empty: Index<V> := EncodedIndex.Empty();
    AddOneMessage(empty, n, a, v);
    assert Insert([], n, 0 as nat, Less) == [Entry(n, 0 as nat)];
    var first := Index([EncodedEntry(v, "")], Table([Entry(n, 0)], []), Table([], []), Table([], []));
    assert empty.values + [EncodedEntry(v, "")] == first.values;
    AddSymbolToFlat(first, a, []);
  }

  lemma EncodedApart<V>(n: string, a: string, v: V, n': string, b: string, v': V)
    requires n != n' && a != "" && b != "" && ValidateSymbolName(a) && ValidateSymbolName(b)
    requires Related(a, b) ==> Less(b, a)
    ensures var (ok, e) := AddFile(EncodedIndex.Empty(), OneMessage(n, a), v);
            var (ok', e') := AddFile(EnsureFlat(e), OneMessage(n', b), v');
            ok && ok' && e' == Apart(n, a, v, n', b, v')
  {
    hide Common, Less, SymbolCompare, ValidateSymbolName, IsSubSymbol, AddSymbol, AddFile, Related, FileOps;
    FirstMessage(n, a, v);
    var e := AddFile(EncodedIndex.Empty(), OneMessage(n, a), v).1;
    var flat := EnsureFlat(e);
    assert flat == Index([EncodedEntry(v, "")], Table([], [Entry(n, 0)]), Table([], [SymbolEntry(0, a)]),
                         Table([], []));
    OneNameFind(n, n', 0);
    AddOneMessage(flat, n', b, v');
    assert Insert([], n', 1 as nat, Less) == [Entry(n', 1 as nat)];
    var second := flat.(values := [EncodedEntry(v, ""), EncodedEntry(v', "")],
                        byName := Table([Entry(n', 1)], [Entry(n, 0)]));
    assert flat.values + [EncodedEntry(v', "")] == second.values;
    AddSymbolToFlat(second, b, [SymbolEntry(0, a)]);
  }

  lemma OneNameFind<V>(n: string, q: string, v: V)
    ensures Find([Entry(n, v)], q, Less) == if n == q then Some(v) else None
  {
    hide Common, Less;
    LessIsStrictTotalOrder();
    var es := [Entry(n, v)];
    FindIsExact(es, q, Less);
    assert Has(es, q) <==> es[0].key == q;
  }

  lemma SimpleApart<V>(n: string, a: string, v: V, n': string, b: string, v': V)
    requires n != n' && a != b && ValidateSymbolName(a) && ValidateSymbolName(b) && (Related(a, b) ==> Less(b, a))
    ensures var (ok, s) := SimpleIndex.AddFile(SimpleIndex.Empty(), OneMessage(n, a), v);
            var (ok', s') := SimpleIndex.AddFile(s, OneMessage(n', b), v');
            && ok && ok'
            && s'.bySymbol == if Less(a, b) then [Entry(a, v), Entry(b, v')] else [Entry(b, v'), Entry(a, v)]
  {
    hide Common, Less, ValidateSymbolName, IsSubSymbol, SimpleIndex.AddSymbol, SimpleIndex.AddFile, Related, FileOps,
         Insert;
    AddOneMessageToSimple(SimpleIndex.Empty(), n, a, v);
    AddToOneEntry(a, v, a, v);
    AddSymbolKeepsOrder([], a, v);
    var s := SimpleIndex.AddFile(SimpleIndex.Empty(), OneMessage(n, a), v).1;
    InsertFirst(n, v);
    InsertFirst(a, v);
    OneNameFind(n, n', v);
    AddOneMessageToSimple(s, n', b, v');
    AddToOneEntry(a, v, b, v');
    AddSymbolKeepsOrder([Entry(a, v)], b, v');
    LessIsTotal(a, b);
    if Less(a, b) { InsertAfterOne(a, v, b, v'); } else { InsertBelow(b, v', a, v); }
  }

  lemma InsertAfterOne<V>(a: string, v: V, b: string, v': V)
    requires Less(a, b)
    ensures Insert([Entry(a, v)], b, v', Less) == [Entry(a, v), Entry(b, v')]
  {
    hide Less;
    LessIsTotal(a, b);
    UpperBoundIsUnique([Entry(a, v)], b, Less, 1);
  }

  /** Adding a file of one message under a new name is one AddSymbol call in the simple index too. */
  lemma AddOneMessageToSimple<V>(s: SimpleIndex.Index<V>, name: string, m: string, v: V)
    requires Find(s.byName, name, Less) == None
    ensures var (ok, s') := SimpleIndex.AddFile(s, OneMessage(name, m), v);
            && (ok, s'.bySymbol) == SimpleIndex.AddSymbol(s.bySymbol, m, v)
            && s'.byName == Insert(s.byName, name, v, Less)
  {
    hide Common, Less, FileOps, SimpleIndex.AddSymbol, Find, Insert;
    OneMessageOps(name, m);
    var f := OneMessage(name, m);
    assert f.Path() == "" && "" + m == m;
    AddAllOfOneToSimple(s.(byName := Insert(s.byName, name, v, Less)), "", Symbol(m), v);
  }

  lemma AddAllOfOneToSimple<V>(s: SimpleIndex.Index<V>, path: string, op: Op, v: V)
    ensures SimpleIndex.AddAll(s, path, [op], v) == SimpleIndex.AddOne(s, path, op, v)
  {
    hide SimpleIndex.AddOne;
    assert [op][1..] == [];
  }

  /** The third Add is tested against each of the two messages by itself. */
  lemma ThirdIsAcceptedIff<V>(n: string, a: string, v: V, n': string, b: string, v': V,
                              n'': string, name: string, v'': V)
    requires n != n'' && n' != n'' && name != "" && a != "" && b != ""
    requires ValidateSymbolName(a) && ValidateSymbolName(b) && ValidateSymbolName(name)
    ensures AddFile(Apart(n, a, v, n', b, v'), OneMessage(n'', name), v'').0 <==>
              (Related(a, name) ==> Less(name, a)) && (Related(b, name) ==> Less(name, b))
  {
    hide Common, Less, ValidateSymbolName, SimpleIndex.AddSymbol, AddFile, AddSymbol, SymbolCompare, Find, Insert,
         Related;
    var e := Apart(n, a, v, n', b, v');
    OneNameFind<nat>(n, n'', 0);
    OneNameFind<nat>(n', n'', 1);
    AddOneMessage(e, n'', name, v'');
    var values := e.values + [EncodedEntry(v'', "")];
    var o: nat := 2;
    var pushed := e.(values := values, byName := e.byName.(tree := Insert(e.byName.tree, n'', o, Less)));
    EmptyIsValid();
    AddSymbolTestsEachPart(pushed, name);
    assert FullName(values, SymbolEntry(2, name)) == name;
    assert Rendered(values, e.bySymbol.tree) == [Entry(b, 1)];
    assert Rendered(values, e.bySymbol.flat) == [Entry(a, 0)];
    AddToOneEntry<nat>(b, 1, name, o);
    AddToOneEntry<nat>(a, 0, name, o);
  }

  lemma LongerThanParent(parent: string, b: string)
    requires IsSubSymbol(parent, b) && parent != b
    ensures b != ""
  {}

  lemma PlayThree<V>(f: File, v: V, g: File, v': V)
    ensures var (ok, e) := AddFile(EncodedIndex.Empty(), f, v);
            var (okS, s) := SimpleIndex.AddFile(SimpleIndex.Empty(), f, v);
            var (ok', e') := AddFile(EnsureFlat(e), g, v');
            var (okS', s') := SimpleIndex.AddFile(s, g, v');
            ok && okS && ok' && okS' ==>
              Play([Call.Add(f, v), Lookup, Add(g, v')], EncodedIndex.Empty(), SimpleIndex.Empty()) == (true, e', s')
  {
    hide AddFile, SimpleIndex.AddFile, EnsureFlat;
    var calls := [Call.Add(f, v), Lookup, Add(g, v')];
    var (ok, e) := AddFile(EncodedIndex.Empty(), f, v);
    var (okS, s) := SimpleIndex.AddFile(SimpleIndex.Empty(), f, v);
    if ok && okS {
      assert calls[1..] == [Lookup, Add(g, v')];
      assert Play(calls, EncodedIndex.Empty(), SimpleIndex.Empty()) == Play([Lookup, Add(g, v')], e, s);
      assert [Lookup, Call.Add(g, v')][1..] == [Add(g, v')];
      assert Play([Lookup, Call.Add(g, v')], e, s) == Play([Add(g, v')], EnsureFlat(e), s);
      assert [Call.Add(g, v')][1..] == [];
    }
  }

  /** A name related to a parent of b, but not to b, is a child of the parent. */
  lemma ParentOfUnrelated(a: string, b: string, parent: string)
    requires Related(a, parent) && IsSubSymbol(parent, b) && !Related(a, b)
    ensures IsSubSymbol(parent, a) && parent != a
  {
    if a < parent { assert parent[|a|] == b[|a|]; }
  }

  lemma ParentIsRefused<V>(s: SimpleIndex.Index<V>, a: string, v: V, b: string, v': V, n: string, parent: string, w: V)
    requires s.bySymbol == [Entry(a, v), Entry(b, v')] && Less(a, b) && !Related(a, b) && IsSubSymbol(parent, b)
    requires ValidateSymbolName(a) && ValidateSymbolName(b)
    ensures !SimpleIndex.AddFile(s, OneMessage(n, parent), w).0
  {
    hide Common, Less, ValidateSymbolName, IsSubSymbol, SimpleIndex.AddSymbol;
    if Find(s.byName, n, Less) == None {
      AddOneMessageToSimple(s, n, parent, w);
      AddSymbolAcceptsIff(s.bySymbol, parent, w);
      assert Related(s.bySymbol[1].key, parent);
    }
  }

  /**
   * The first disagreement is real, in both shapes it can have: Add a message
   * a, look anything up, Add a message b above it, and Add a parent of b.
   * Whether a is also a child of the parent or lies below it, the encoded
   * index accepts all three, and the simple one refuses the last.
   */
  lemma EncodedCanAcceptMore<V(!new)>(n: string, a: string, v: V, n': string, b: string, v': V,
                                      n'': string, parent: string, v'': V)
    requires n != n' && n != n'' && n' != n'' && a != "" && parent != ""
    requires ValidateSymbolName(a) && ValidateSymbolName(b) && ValidateSymbolName(parent)
    requires Less(a, b) && !Related(a, b) && IsSubSymbol(parent, b) && parent != b
    ensures var calls := [Call.Add(OneMessage(n, a), v), Lookup, Add(OneMessage(n', b), v')];
            var (ok, e, s) := Play(calls, EncodedIndex.Empty(), SimpleIndex.Empty());
            && ok
            && AddFile(e, OneMessage(n'', parent), v'').0
            && !SimpleIndex.AddFile(s, OneMessage(n'', parent), v'').0
  {
    hide Common, Less, ValidateSymbolName, IsSubSymbol, SimpleIndex.AddSymbol, SimpleIndex.AddFile, AddFile, EnsureFlat,
         Related;
    LongerThanParent(parent, b);
    var calls := [Call.Add(OneMessage(n, a), v), Lookup, Add(OneMessage(n', b), v')];
    EncodedApart(n, a, v, n', b, v');
    LessIsTotal(a, b);
    SimpleApart(n, a, v, n', b, v');
    var (ok, e, s) := Play(calls, EncodedIndex.Empty(), SimpleIndex.Empty());
    PlayThree(OneMessage(n, a), v, OneMessage(n', b), v');
    SubSymbolIsAtMost(parent, b);
    if Related(a, parent) {
      ParentOfUnrelated(a, b, parent);
      SubSymbolIsAtMost(parent, a);
    }
    ThirdIsAcceptedIff(n, a, v, n', b, v', n'', parent, v'');
    ParentIsRefused(s, a, v, b, v', n'', parent, v'');
  }

  /** Between a parent and a new child of it lies an unrelated child, which is what the simple index finds. */
  lemma ChildIsAccepted<V>(s: SimpleIndex.Index<V>, parent: string, v: V, b: string, v': V, n: string, c: string, w: V)
    requires s.bySymbol == [Entry(parent, v), Entry(b, v')] && Find(s.byName, n, Less) == None
    requires ValidateSymbolName(parent) && ValidateSymbolName(b) && ValidateSymbolName(c)
    requires IsStrictChild(b, parent) && IsStrictChild(c, parent) && Less(b, c) && !Related(b, c)
    ensures SimpleIndex.AddFile(s, OneMessage(n, c), w).0
  {
    hide Common, Less, ValidateSymbolName, IsSubSymbol, SimpleIndex.AddSymbol, SimpleIndex.AddFile, Find;
    AddOneMessageToSimple(s, n, c, w);
    SubSymbolIsAtMost(parent, b);
    SubSymbolIsAtMost(parent, c);
    LessIsTotal(parent, c);
    LessIsTotal(b, c);
    assert Sorted(s.bySymbol, Less);
    AddSymbolAcceptsExactly(s.bySymbol, c, w);
    if IsSubSymbol(c, parent) { SubSymbolIsAtMost(c, parent); }
  }

  /**
   * So is the second: Add a message b, look anything up, Add a parent of b,
   * which both indexes accept below b, and Add another child of that parent
   * above b. The simple index finds b and accepts it; the encoded one finds
   * the parent in its tree and refuses.
   */
  lemma SimpleCanAcceptMore<V(!new)>(n: string, b: string, v: V, n': string, parent: string, v': V,
                                     n'': string, c: string, v'': V)
    requires n != n' && n != n'' && n' != n'' && parent != ""
    requires ValidateSymbolName(b) && ValidateSymbolName(parent) && ValidateSymbolName(c)
    requires IsStrictChild(b, parent) && IsStrictChild(c, parent) && Less(b, c) && !Related(b, c)
    ensures var calls := [Call.Add(OneMessage(n, b), v), Lookup, Add(OneMessage(n', parent), v')];
            var (ok, e, s) := Play(calls, EncodedIndex.Empty(), SimpleIndex.Empty());
            && ok
            && !AddFile(e, OneMessage(n'', c), v'').0
            && SimpleIndex.AddFile(s, OneMessage(n'', c), v'').0
  {
    hide Common, Less, ValidateSymbolName, IsSubSymbol, SimpleIndex.AddSymbol, SimpleIndex.AddFile, AddFile, EnsureFlat;
    LongerThanParent(parent, b);
    LongerThanParent(parent, c);
    SubSymbolIsAtMost(parent, b);
    SubSymbolIsAtMost(parent, c);
    LessIsTotal(parent, b);
    LessIsTotal(parent, c);
    var calls := [Call.Add(OneMessage(n, b), v), Lookup, Add(OneMessage(n', parent), v')];
    EncodedApart(n, b, v, n', parent, v');
    SimpleApart(n, b, v, n', parent, v');
    var (ok, e, s) := Play(calls, EncodedIndex.Empty(), SimpleIndex.Empty());
    PlayThree(OneMessage(n, b), v, OneMessage(n', parent), v');
    ThirdIsAcceptedIff(n, b, v, n', parent, v', n'', c, v'');
    ThirdNameIsNew(n, b, v, n', parent, v', n'');
    ChildIsAccepted(s, parent, v', b, v, n'', c, v'');
  }

  lemma ThirdNameIsNew<V(!new)>(n: string, a: string, v: V, n': string, b: string, v': V, n'': string)
    requires n != n' && n'' != n && n'' != n'
    ensures var s := SimpleIndex.AddFile(SimpleIndex.Empty(), OneMessage(n, a), v).1;
            Find(SimpleIndex.AddFile(s, OneMessage(n', b), v').1.byName, n'', Less) == None
  {
    hide Common, Less, FileOps, SimpleIndex.AddSymbol, Find, Insert, SimpleIndex.AddFile, Sorted;
    LessIsStrictTotalOrder();
    NothingIsFound<V>(n);
    AddOneMessageToSimple(SimpleIndex.Empty(), n, a, v);
    InsertFirst(n, v);
    OneNameFind(n, n', v);
    OneNameFind(n, n'', v);
    var s := SimpleIndex.AddFile(SimpleIndex.Empty(), OneMessage(n, a), v).1;
    AddOneMessageToSimple(s, n', b, v');
    OneIsSorted(n, v);
    FindIsExact([Entry(n, v)], n', Less);
    FindAfterInsert([Entry(n, v)], n'', n', v', Less);
  }

  lemma NothingIsFound<V>(n: string)
    ensures Find<string, V>([], n, Less) == None
  {}

  lemma OneIsSorted<V>(n: string, v: V)
    ensures Sorted([Entry(n, v)], Less)
  {}
}
