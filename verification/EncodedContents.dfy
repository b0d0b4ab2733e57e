// Adding a file to the encoded index makes exactly what the file declares known,
// after any calls before it: accepted Adds, refused ones and lookups.
module EncodedContents {
  import opened Names
  import opened Options
  import opened Descriptors
  import opened Ordered
  import opened SymbolOrder
  import opened SymbolLookup
  import opened EncodedIndex
  import opened EncodedRefinement
  import opened EncodedQuirks
  import opened FileContents
  import SimpleIndex
  import EncodedRuns

  type Symbols<+V> = seq<Entry<string, V>>

  /** Symbol tables in order, with valid names, and no position that is not there. */
  ghost predicate Sound<V(!new)>(e: Index<V>) {
    && (exists s :: StandsFor(e, s))
    && PartsInRange(e.byName, |e.values|, Less)
    && PartsInRange(e.byExtension, |e.values|, ExtLess)
  }

  /** The symbols of the index with their values, in order. */
  ghost predicate StandsFor<V>(e: Index<V>, s: Symbols<V>) {
    SymbolsRefine(e.values, e.bySymbol, s) && SimpleIndex.ValidKeys(s)
  }

  /** All names are non-empty, as the two-part comparator needs. */
  ghost predicate HasNames(f: File) {
    forall n :: Declares(f, n) ==> n != ""
  }

  lemma NamesAreThere(f: File)
    requires HasNames(f)
    ensures NamesItsSymbols(FileOps(f))
  {
    hide FileOps, Declares, HasExtension;
    forall i | 0 <= i < |FileOps(f)| && FileOps(f)[i].Symbol? ensures FileOps(f)[i].name != "" {
      CallsAreContents(f, FileOps(f)[i]);
    }
  }

  // ------------------------------------------------------------------- symbols

  ghost predicate LastIsNamed<V>(e: Index<V>, path: string, v: V) {
    && e.values != [] && e.values[|e.values| - 1].value == v
    && var package := e.values[|e.values| - 1].package;
       ValidateSymbolName(package) && path == if package == "" then "" else package + "."
  }

  /** What accepted calls insert. */
  function InsertAll<V>(s: Symbols<V>, path: string, ops: seq<Op>, v: V): Symbols<V>
    decreases |ops|
  {
    if ops == [] then s
    else InsertAll(if ops[0].Symbol? then Insert(s, path + ops[0].name, v, Less) else s, path, ops[1..], v)
  }

  lemma InsertKeepsValid<V>(s: Symbols<V>, name: string, v: V)
    requires SimpleIndex.ValidKeys(s) && ValidateSymbolName(name)
    ensures SimpleIndex.ValidKeys(Insert(s, name, v, Less))
  {
    hide Less, ValidateSymbolName;
    InsertPlaces(s, name, v, Less);
  }

  lemma AddOneInserts<V>(e: Index<V>, s: Symbols<V>, path: string, op: Op, v: V)
    requires LastIsNamed(e, path, v) && StandsFor(e, s) && (op.Symbol? ==> op.name != "")
    ensures var (ok, e') := AddOne(e, op);
            && LastIsNamed(e', path, v)
            && StandsFor(e', if ok && op.Symbol? then Insert(s, path + op.name, v, Less) else s)
  {
    hide SymbolsRefine, AddSymbol, ValidateSymbolName, Less, InsertUnique, SimpleIndex.ValidKeys;
    match op
    case Symbol(name) =>
      assert path + name == FullName(e.values, SymbolEntry(|e.values| - 1, name));
      AddSymbolFrame(e, name);
      if AddSymbol(e, name).0 {
        AddSymbolInserts(e, s, name);
        InsertKeepsValid(s, path + name, v);
      } else {
        RefusedChangesNothing(e, name);
      }
    case Extension(_) =>
  }

  lemma RefusedChangesNothing<V>(e: Index<V>, symbol: string)
    requires e.values != [] && !AddSymbol(e, symbol).0
    ensures AddSymbol(e, symbol).1 == e
  {
    hide SymbolCompare, ValidateSymbolName, CheckForMutualSubsymbols;
  }

  lemma {:induction false} AddAllInserts<V>(e: Index<V>, s: Symbols<V>, path: string, ops: seq<Op>, v: V)
    requires e.values != [] && LastIsNamed(e, path, v) && StandsFor(e, s) && NamesItsSymbols(ops)
    ensures AddAll(e, ops).0 ==> StandsFor(AddAll(e, ops).1, InsertAll(s, path, ops, v))
    ensures exists s' :: StandsFor(AddAll(e, ops).1, s')
    decreases |ops|
  {
    hide LastIsNamed, StandsFor, AddOne, Less;
    if ops != [] {
      AddOneInserts(e, s, path, ops[0], v);
      var s' := if ops[0].Symbol? then Insert(s, path + ops[0].name, v, Less) else s;
      if AddOne(e, ops[0]).0 {
        AddAllInserts(AddOne(e, ops[0]).1, s', path, ops[1..], v);
      } else {
        assert StandsFor(AddAll(e, ops).1, s);
      }
    }
  }

  lemma OneStores(op: Op, path: string, k: string)
    ensures StoresSymbol([op], path, k) ==> op.Symbol? && path + op.name == k
  {}

  lemma {:induction false} InsertAllHas<V>(s: Symbols<V>, path: string, ops: seq<Op>, v: V, x: Entry<string, V>)
    ensures x in s || (x.value == v && StoresSymbol(ops, path, x.key)) ==> x in InsertAll(s, path, ops, v)
    decreases |ops|
  {
    hide Less, StoresSymbol;
    if ops == [] {
      NothingStores(path);
    } else {
      StoresParts(ops[0], ops[1..], path);
      assert ops == [ops[0]] + ops[1..];
      OneStores(ops[0], path, x.key);
      if ops[0].Symbol? { InsertAddsOnlyItsEntry(s, path + ops[0].name, v, Less); }
      InsertAllHas(if ops[0].Symbol? then Insert(s, path + ops[0].name, v, Less) else s, path, ops[1..], v, x);
    }
  }

  /** A key that is in the table is the key that a lookup finds for it. */
  lemma OwnKeyIsFound<V>(s: Symbols<V>, i: nat)
    requires Sorted(s, Less) && i < |s|
    ensures SimpleIndex.FindSymbol(s, s[i].key) == Some(s[i].value)
  {
    hide Common, Less;
    LessIsStrictTotalOrder();
    UpperBoundIsUnique(s, s[i].key, Less, i + 1);
  }

  lemma StandsSorted<V>(e: Index<V>, s: Symbols<V>)
    requires StandsFor(e, s)
    ensures Sorted(s, Less)
  {
    hide Common, Less;
    LessIsStrictTotalOrder();
    MergeKeepsOrder(Rendered(e.values, e.bySymbol.tree), Rendered(e.values, e.bySymbol.flat), Less);
  }

  lemma StandsAnswers<V>(e: Index<V>, s: Symbols<V>, q: string)
    requires StandsFor(e, s)
    ensures FindSymbol(e, q) == SimpleIndex.FindSymbol(s, q)
  {
    hide Common, Less, SymbolCompare, Flatten, SymbolsRefine, SimpleIndex.FindSymbol, FindSymbolOnlyFlat;
    FlattenSymbolsRefines(e.values, e.bySymbol, s);
    SameSymbolAnswer(EnsureFlat(e), SimpleIndex.Index([], s, []), q);
  }

  /** The entries of the symbol table after accepted calls. */
  lemma {:induction false} AddAllEntries<V>(e: Index<V>, s: Symbols<V>, path: string, ops: seq<Op>, v: V,
                                            x: SymbolEntry)
    requires e.values != [] && LastIsNamed(e, path, v) && StandsFor(e, s) && NamesItsSymbols(ops) && AddAll(e, ops).0
    ensures EncodedRuns.In(x, AddAll(e, ops).1.bySymbol) <==>
              EncodedRuns.In(x, e.bySymbol) || (x.offset == |e.values| - 1 && Symbol(x.symbol) in ops)
    decreases |ops|
  {
    hide LastIsNamed, StandsFor, AddOne, Less, EncodedRuns.In;
    if ops != [] {
      AddOneInserts(e, s, path, ops[0], v);
      AddOneEntries(e, s, path, ops[0], v, x);
      var s' := if ops[0].Symbol? then Insert(s, path + ops[0].name, v, Less) else s;
      AddAllEntries(AddOne(e, ops[0]).1, s', path, ops[1..], v, x);
      assert ops == [ops[0]] + ops[1..];
    }
  }

  lemma AddOneEntries<V>(e: Index<V>, s: Symbols<V>, path: string, op: Op, v: V, x: SymbolEntry)
    requires LastIsNamed(e, path, v) && StandsFor(e, s) && (op.Symbol? ==> op.name != "") && AddOne(e, op).0
    ensures EncodedRuns.In(x, AddOne(e, op).1.bySymbol) <==>
              EncodedRuns.In(x, e.bySymbol) || (x.offset == |e.values| - 1 && Symbol(x.symbol) == op)
  {
    hide AddSymbol, InsertUnique, SymbolsRefine, ValidateSymbolName, SimpleIndex.ValidKeys;
    if op.Symbol? {
      StandsNamed(e, s);
      AddSymbolEntries(e, op.name);
    }
  }

  lemma StandsNamed<V>(e: Index<V>, s: Symbols<V>)
    requires StandsFor(e, s)
    ensures NamedSymbols(e.bySymbol.tree)
  {}

  lemma AddSymbolEntries<V>(e: Index<V>, symbol: string)
    requires e.values != [] && symbol != "" && NamedSymbols(e.bySymbol.tree) && AddSymbol(e, symbol).0
    ensures var entry := SymbolEntry(|e.values| - 1, symbol);
            && AddSymbol(e, symbol).1.bySymbol.flat == e.bySymbol.flat
            && forall x :: x in AddSymbol(e, symbol).1.bySymbol.tree <==> x in e.bySymbol.tree || x == entry
  {
    hide SymbolCompare, ValidateSymbolName, CheckForMutualSubsymbols, AsString, Equivalent, NamedSymbols, InsertSymbol;
    var entry, es := SymbolEntry(|e.values| - 1, symbol), e.bySymbol.tree;
    NamedIsNotDropped(e.values, es, entry);
    InsertSymbolEntries(e.values, es, entry);
  }

  lemma InsertSymbolEntries<V>(values: seq<EncodedEntry<V>>, es: seq<SymbolEntry>, entry: SymbolEntry)
    requires var at := SymbolUpperBound(values, es, KeyOfEntry(values, entry));
             at > 0 ==> !Equivalent(KeyOfEntry(values, es[at - 1]), KeyOfEntry(values, entry))
    ensures forall x :: x in InsertSymbol(values, es, entry) <==> x in es || x == entry
  {
    hide SymbolCompare, AsString, Equivalent, KeyOfEntry;
    var at := SymbolUpperBound(values, es, KeyOfEntry(values, entry));
    assert es == es[..at] + es[at..];
  }

  // ------------------------------------------------------ names and extensions

  lemma {:induction false} AddAllExtensions<V>(e: Index<V>, ops: seq<Op>, k: ExtKey)
    requires e.values != [] && Sorted(e.byExtension.tree, ExtLess) && AddAll(e, ops).0
    ensures var o: nat := |e.values| - 1;
            var (t, t') := (e.byExtension, AddAll(e, ops).1.byExtension);
            && Sorted(t'.tree, ExtLess)
            && Find(Merge(t'.tree, t'.flat, ByKey(ExtLess)), k, ExtLess) ==
               if StoresExtension(ops, k) then Some(o)
               else Find(Merge(t.tree, t.flat, ByKey(ExtLess)), k, ExtLess)
    decreases |ops|
  {
    hide AddOne, StoresExtension, ExtLess, Find, Merge, Sorted;
    if ops == [] {
      NothingStores("");
    } else {
      AddOneExtension(e, ops[0], k);
      AddAllExtensions(AddOne(e, ops[0]).1, ops[1..], k);
      StoresParts(ops[0], ops[1..], "");
      assert ops == [ops[0]] + ops[1..];
    }
  }

  lemma AddOneExtension<V>(e: Index<V>, op: Op, k: ExtKey)
    requires e.values != [] && Sorted(e.byExtension.tree, ExtLess) && AddOne(e, op).0
    ensures var o: nat := |e.values| - 1;
            var (t, t') := (e.byExtension, AddOne(e, op).1.byExtension);
            && Sorted(t'.tree, ExtLess)
            && Find(Merge(t'.tree, t'.flat, ByKey(ExtLess)), k, ExtLess) ==
               if StoresExtension([op], k) then Some(o)
               else Find(Merge(t.tree, t.flat, ByKey(ExtLess)), k, ExtLess)
  {
    hide AddSymbol, ExtLess, Find, Merge, Sorted, Insert;
    ExtLessIsStrictTotalOrder();
    assert op in [op];
    var o: nat := |e.values| - 1;
    match op
    case Symbol(name) => AddSymbolFrame(e, name);
    case Extension(field) =>
      if FullyQualified(field) { AnswerAfterInsertUnique(e.byExtension, KeyOf(field), o, k, ExtLess); }
  }

  /** The index while a file is added: its value is pushed and its name is in the table of names. */
  function Pushed<V>(e: Index<V>, f: File, v: V): Index<V> {
    e.(values := e.values + [EncodedEntry(v, f.Package())],
       byName := InsertUnique(e.byName, f.name, |e.values|, Less).1)
  }

  lemma PushedStands<V>(e: Index<V>, s: Symbols<V>, f: File, v: V)
    requires StandsFor(e, s) && ValidateSymbolName(f.Package())
    ensures StandsFor(Pushed(e, f, v), s) && LastIsNamed(Pushed(e, f, v), f.Path(), v)
  {
    hide SymbolsRefine, ValidateSymbolName, InsertUnique;
    SymbolsRefineGrows(e.values, e.bySymbol, s, EncodedEntry(v, f.Package()));
  }

  // --------------------------------------------------------------- the theorems

  /** After an accepted Add each name that the file declares gives the file, and the table has no other new entry. */
  lemma EncodedSymbolsAreFound<V(!new)>(e: Index<V>, f: File, v: V)
    requires Sound(e) && HasNames(f) && AddFile(e, f, v).0
    ensures var e' := AddFile(e, f, v).1;
            && (forall n :: Declares(f, n) ==> FindSymbol(e', Qualified(f, n)) == Some(v))
            && (forall x :: EncodedRuns.In(x, e'.bySymbol) <==>
                  EncodedRuns.In(x, e.bySymbol) || (x.offset == |e.values| && Declares(f, x.symbol)))
  {
    hide StandsFor, Declares, HasExtension, FileOps, HasNames, InsertUnique, ValidateSymbolName, InsertAll, AddAll,
         FindSymbol, Less, SimpleIndex.FindSymbol, EncodedRuns.In, StoresSymbol, LastIsNamed;
    var s :| StandsFor(e, s);
    NamesAreThere(f);
    PushedStands(e, s, f, v);
    var pushed, e' := Pushed(e, f, v), AddFile(e, f, v).1;
    AddAllInserts(pushed, s, f.Path(), FileOps(f), v);
    var s' := InsertAll(s, f.Path(), FileOps(f), v);
    StandsSorted(e', s');
    forall n | Declares(f, n) ensures FindSymbol(e', Qualified(f, n)) == Some(v) {
      FileStores(f, Qualified(f, n), ExtKey("", 0));
      InsertAllHas(s, f.Path(), FileOps(f), v, Entry(Qualified(f, n), v));
      var i :| 0 <= i < |s'| && s'[i] == Entry(Qualified(f, n), v);
      OwnKeyIsFound(s', i);
      StandsAnswers(e', s', Qualified(f, n));
    }
    forall x ensures EncodedRuns.In(x, e'.bySymbol) <==>
                       EncodedRuns.In(x, e.bySymbol) || (x.offset == |e.values| && Declares(f, x.symbol))
    {
      AddAllEntries(pushed, s, f.Path(), FileOps(f), v, x);
      CallsAreContents(f, Symbol(x.symbol));
    }
  }

  /** Its own name and its extensions give the file too; other names and extensions have the answers they had. */
  lemma EncodedExtensionsAreFound<V(!new)>(e: Index<V>, f: File, v: V, n: string, k: ExtKey)
    requires Sound(e) && AddFile(e, f, v).0
    ensures var e' := AddFile(e, f, v).1;
            && FindFile(e', n) == (if n == f.name then Some(v) else FindFile(e, n))
            && FindExtension(e', k.extendee, k.number) ==
               if exists x :: HasExtension(f, x) && IsAbsolute(x) && ExtKey(x.extendee[1..], x.number) == k
               then Some(v)
               else FindExtension(e, k.extendee, k.number)
  {
    hide HasExtension, FileOps, Declares, ValidateSymbolName, AddAll, Find, Merge, Flatten, Less, Common,
         StoresExtension, StandsFor, OffsetsInRange, ExtLess;
    LessIsStrictTotalOrder();
    ExtLessIsStrictTotalOrder();
    var x, o: nat := EncodedEntry(v, f.Package()), |e.values|;
    var pushed, e' := Pushed(e, f, v), AddFile(e, f, v).1;
    AnswerAfterInsertUnique(e.byName, f.name, o, n, Less);
    FlattenFind(e.byName, n, Less);
    FlattenFind(e'.byName, n, Less);
    FindGrows(e.values, e.byName, n, x, Less);
    FileStores(f, "", k);
    AddAllExtensions(pushed, FileOps(f), k);
    FlattenFind(e.byExtension, k, ExtLess);
    FlattenFind(e'.byExtension, k, ExtLess);
    FindGrows(e.values, e.byExtension, k, x, ExtLess);
  }

  // ------------------------------------------------------------------ all runs

  lemma {:induction false} AddAllInRange<V>(e: Index<V>, ops: seq<Op>)
    requires e.values != [] && PartsInRange(e.byExtension, |e.values|, ExtLess)
    ensures PartsInRange(AddAll(e, ops).1.byExtension, |e.values|, ExtLess)
    decreases |ops|
  {
    hide AddOne, PartsInRange;
    if ops != [] {
      AddOneInRange(e, ops[0]);
      if AddOne(e, ops[0]).0 { AddAllInRange(AddOne(e, ops[0]).1, ops[1..]); }
    }
  }

  lemma AddOneInRange<V>(e: Index<V>, op: Op)
    requires e.values != [] && PartsInRange(e.byExtension, |e.values|, ExtLess)
    ensures PartsInRange(AddOne(e, op).1.byExtension, |e.values|, ExtLess)
  {
    hide AddSymbol, ExtLess, PartsInRange, InsertUnique;
    ExtLessIsStrictTotalOrder();
    match op
    case Symbol(name) => AddSymbolFrame(e, name);
    case Extension(field) =>
      if FullyQualified(field) { InsertInRange(e.byExtension, KeyOf(field), |e.values| - 1, |e.values|, ExtLess); }
  }

  lemma InsertInRange<K(!new)>(t: Table<Entry<K, nat>>, k: K, o: nat, size: nat, less: (K, K) -> bool)
    requires StrictTotalOrder(less) && PartsInRange(t, size, less) && o < size
    ensures PartsInRange(InsertUnique(t, k, o, less).1, size, less)
  {
    hide StrictTotalOrder, Insert;
    InsertIfNotPresentKeeps(t.tree, k, o, less);
    InsertAddsOnlyItsEntry(t.tree, k, o, less);
    var tree := InsertUnique(t, k, o, less).1.tree;
    forall i | 0 <= i < |tree| ensures tree[i].value < size { assert tree[i] in tree; }
  }

  lemma MoreInRange<K>(t: Table<Entry<K, nat>>, n: nat, m: nat, less: (K, K) -> bool)
    requires PartsInRange(t, n, less) && n <= m
    ensures PartsInRange(t, m, less)
  {}

  lemma FlattenInRange<K(!new)>(t: Table<Entry<K, nat>>, n: nat, less: (K, K) -> bool)
    requires PartsInRange(t, n, less)
    ensures PartsInRange(Flatten(t, ByKey(less)), n, less)
  {
    MergeHasBoth(t.tree, t.flat, ByKey(less));
    var m := Merge(t.tree, t.flat, ByKey(less));
    forall i | 0 <= i < |m| ensures m[i].value < n { assert m[i] in m; }
  }

  lemma AddFileIsSound<V(!new)>(e: Index<V>, f: File, v: V)
    requires Sound(e) && HasNames(f)
    ensures Sound(AddFile(e, f, v).1)
  {
    hide StandsFor, HasNames, FileOps, ValidateSymbolName, AddAll, InsertUnique, PartsInRange, Less, ExtLess,
         LastIsNamed;
    LessIsStrictTotalOrder();
    NamesAreThere(f);
    var s :| StandsFor(e, s);
    var n, e' := |e.values|, AddFile(e, f, v).1;
    MoreInRange(e.byName, n, n + 1, Less);
    MoreInRange(e.byExtension, n, n + 1, ExtLess);
    InsertInRange(e.byName, f.name, n, n + 1, Less);
    if ValidateSymbolName(f.Package()) {
      PushedStands(e, s, f, v);
      var pushed := Pushed(e, f, v);
      if InsertUnique(e.byName, f.name, n, Less).0 {
        AddAllInserts(pushed, s, f.Path(), FileOps(f), v);
        AddAllInRange(pushed, FileOps(f));
      } else {
        assert e' == pushed;
      }
    } else {
      PushStands(e, s, EncodedEntry(v, ""));
    }
  }

  lemma PushStands<V>(e: Index<V>, s: Symbols<V>, x: EncodedEntry<V>)
    requires StandsFor(e, s)
    ensures StandsFor(e.(values := e.values + [x]), s)
  {
    hide SymbolsRefine;
    SymbolsRefineGrows(e.values, e.bySymbol, s, x);
  }

  lemma EnsureFlatIsSound<V(!new)>(e: Index<V>)
    requires Sound(e)
    ensures Sound(EnsureFlat(e))
  {
    hide SymbolsRefine, Flatten, PartsInRange, Less, ExtLess;
    var s :| StandsFor(e, s);
    FlattenSymbolsRefines(e.values, e.bySymbol, s);
    assert StandsFor(EnsureFlat(e), s);
    FlattenInRange(e.byName, |e.values|, Less);
    FlattenInRange(e.byExtension, |e.values|, ExtLess);
  }

  ghost predicate AllHaveNames(calls: seq<Call<File>>) {
    forall i :: 0 <= i < |calls| && calls[i].Add? ==> HasNames(calls[i].file)
  }

  lemma {:induction false} RunIsSound(calls: seq<Call<File>>, e: Index<File>)
    requires Sound(e) && AllHaveNames(calls)
    ensures Sound(EncodedRuns.Run(calls, e))
    decreases |calls|
  {
    hide Sound, AddFile, EnsureFlat, HasNames;
    if calls != [] {
      match calls[0]
      case Lookup =>
        EnsureFlatIsSound(e);
        RunIsSound(calls[1..], EnsureFlat(e));
      case Add(file, _) =>
        AddFileIsSound(e, file, file);
        RunIsSound(calls[1..], AddFile(e, file, file).1);
    }
  }

  lemma EmptyIsSound()
    ensures Sound(EncodedIndex.Empty<File>())
  {
    assert Rendered(EncodedIndex.Empty<File>().values, []) == [];
    assert StandsFor(EncodedIndex.Empty<File>(), []);
  }

  /**
   * After any calls, accepted, refused or refused half-way, with lookups
   * anywhere: an accepted Add makes the file known under its name, under each
   * name that it declares, and for each absolute extension that it has.
   */
  lemma AcceptedFileIsFoundAfterRun(calls: seq<Call<File>>, f: File)
    requires AllHaveNames(calls) && HasNames(f)
    requires AddFile(EncodedRuns.Run(calls, EncodedIndex.Empty()), f, f).0
    ensures var e' := AddFile(EncodedRuns.Run(calls, EncodedIndex.Empty()), f, f).1;
            && FindFile(e', f.name) == Some(f)
            && (forall n :: Declares(f, n) ==> FindSymbol(e', Qualified(f, n)) == Some(f))
            && (forall x :: HasExtension(f, x) && IsAbsolute(x) ==>
                  FindExtension(e', x.extendee[1..], x.number) == Some(f))
  {
    hide Sound, HasNames, Declares, HasExtension, AddFile, FindFile, FindSymbol, FindExtension, EncodedRuns.Run;
    var e := EncodedRuns.Run(calls, EncodedIndex.Empty());
    EmptyIsSound();
    RunIsSound(calls, EncodedIndex.Empty());
    EncodedSymbolsAreFound(e, f, f);
    EncodedExtensionsAreFound(e, f, f, f.name, ExtKey("", 0));
    forall x | HasExtension(f, x) && IsAbsolute(x)
      ensures FindExtension(AddFile(e, f, f).1, x.extendee[1..], x.number) == Some(f)
    {
      EncodedExtensionsAreFound(e, f, f, f.name, ExtKey(x.extendee[1..], x.number));
    }
  }
}
