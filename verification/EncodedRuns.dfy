// Properties of whole runs of an encoded descriptor index by itself: every file
// found is the one under its own name, until a refused Add takes a name over.
module EncodedRuns {
  import opened Names
  import opened Options
  import opened Descriptors
  import opened Ordered
  import opened SymbolLookup
  import opened EncodedIndex
  import opened EncodedRefinement
  import opened EncodedQuirks

  /** The answers of an index fit together: a file found under whatever key is the one under its own name. */
  ghost predicate AnswersFit(ix: Index<File>) {
    && (forall q, f :: FindSymbol(ix, q) == Some(f) ==> FindFile(ix, f.name) == Some(f))
    && (forall t, n, f :: FindExtension(ix, t, n) == Some(f) ==> FindFile(ix, f.name) == Some(f))
    && (forall n, f :: FindFile(ix, n) == Some(f) ==> f.name == n)
  }

  predicate In<E(==)>(x: E, t: Table<E>) {
    x in t.tree || x in t.flat
  }

  /** Each entry of the name table is for a file of that name, and no name is in both parts. */
  ghost predicate NamesAreOwn(values: seq<EncodedEntry<File>>, t: Table<Entry<string, nat>>) {
    && TableWf(t.tree, t.flat, Less)
    && forall e: Entry<string, nat> :: In(e, t) ==> e.value < |values| && values[e.value].value.name == e.key
  }

  /** The file at this position is in the name table. */
  ghost predicate Listed(t: Table<Entry<string, nat>>, offset: nat) {
    exists e: Entry<string, nat> :: In(e, t) && e.value == offset
  }

  ghost predicate SymbolsAreListed(ix: Index<File>) {
    forall x :: In(x, ix.bySymbol) ==> Listed(ix.byName, x.offset)
  }

  ghost predicate ExtensionsAreListed(ix: Index<File>) {
    forall x: Entry<ExtKey, nat> :: In(x, ix.byExtension) ==> Listed(ix.byName, x.value)
  }

  ghost predicate Coherent(ix: Index<File>) {
    NamesAreOwn(ix.values, ix.byName) && SymbolsAreListed(ix) && ExtensionsAreListed(ix)
  }

  // ------------------------------------------------------------------ answers

  lemma FlattenHasBoth<E>(t: Table<E>, less: (E, E) -> bool)
    ensures forall x :: In(x, Flatten(t, less)) <==> In(x, t)
    ensures Flatten(t, less).tree == []
  {
    MergeHasBoth(t.tree, t.flat, less);
  }

  lemma ListedFileIsFound(ix: Index<File>, offset: nat)
    requires NamesAreOwn(ix.values, ix.byName) && Listed(ix.byName, offset)
    ensures offset < |ix.values| && FindFile(ix, ix.values[offset].value.name) == Some(ix.values[offset].value)
  {
    hide Less, Common;
    LessIsStrictTotalOrder();
    var t := Flatten(ix.byName, ByKey(Less));
    var e: Entry<string, nat> :| In(e, ix.byName) && e.value == offset;
    MergeKeepsOrder(ix.byName.tree, ix.byName.flat, Less);
    FlattenHasBoth(ix.byName, ByKey(Less));
    assert In(e, t);
    var i :| 0 <= i < |t.flat| && t.flat[i] == e;
    FindIsExact(t.flat, e.key, Less);
  }

  lemma CoherentAnswersFit(ix: Index<File>)
    requires Coherent(ix)
    ensures AnswersFit(ix)
  {
    hide NamesAreOwn, Listed, FullName, Less, Common, Flatten;
    forall q, f | FindSymbol(ix, q) == Some(f) ensures FindFile(ix, f.name) == Some(f) {
      var flat := EnsureFlat(ix).bySymbol.flat;
      var x := flat[FindLastSymbol(ix.values, flat, SymbolOrder.Plain(q))];
      FlattenHasBoth(ix.bySymbol, EntryLess(ix.values));
      assert In(x, EnsureFlat(ix).bySymbol);
      ListedFileIsFound(ix, x.offset);
    }
    forall t, n, f | FindExtension(ix, t, n) == Some(f) ensures FindFile(ix, f.name) == Some(f) {
      var x := FoundEntry(EnsureFlat(ix).byExtension, ExtKey(t, n), ExtLess);
      FlattenHasBoth(ix.byExtension, ByKey(ExtLess));
      ListedFileIsFound(ix, x.value);
    }
    forall n, f | FindFile(ix, n) == Some(f) ensures f.name == n { FoundFileIsNamed(ix, n, f); }
  }

  lemma FoundEntry<K>(t: Table<Entry<K, nat>>, k: K, less: (K, K) -> bool) returns (x: Entry<K, nat>)
    requires Find(t.flat, k, less) != None
    ensures In(x, t) && x.key == k && Find(t.flat, k, less) == Some(x.value)
  {
    x := t.flat[LowerBound(t.flat, k, less)];
  }

  lemma FoundFileIsNamed(ix: Index<File>, n: string, f: File)
    requires NamesAreOwn(ix.values, ix.byName) && FindFile(ix, n) == Some(f)
    ensures f.name == n
  {
    hide Less, Common;
    var x := FoundEntry(EnsureFlat(ix).byName, n, Less);
    FlattenHasBoth(ix.byName, ByKey(Less));
  }

  // -------------------------------------------------------------------- steps

  /** The Add takes over a name: it is refused for a file already merged, but its entry goes into the tree. */
  predicate TakesOver(ix: Index<File>, file: File) {
    && ValidateSymbolName(file.Package())
    && Find(ix.byName.tree, file.name, Less) == None
    && Find(ix.byName.flat, file.name, Less) != None
  }

  lemma ListedStays(t: Table<Entry<string, nat>>, t': Table<Entry<string, nat>>, offset: nat)
    requires (forall e: Entry<string, nat> :: In(e, t) ==> In(e, t')) && Listed(t, offset)
    ensures Listed(t', offset)
  {
    var e: Entry<string, nat> :| In(e, t) && e.value == offset;
  }

  lemma AddOneIsCoherent(ix: Index<File>, op: Op)
    requires ix.values != [] && Coherent(ix) && Listed(ix.byName, |ix.values| - 1)
    ensures Coherent(AddOne(ix, op).1)
  {
    hide NamesAreOwn, Listed, FullName, Less, Common, SymbolUpperBound, ValidateSymbolName, CheckForMutualSubsymbols;
    var ix', o: nat := AddOne(ix, op).1, |ix.values| - 1;
    match op
    case Symbol(name) =>
      forall x | In(x, ix'.bySymbol) ensures Listed(ix'.byName, x.offset) {
        assert x == SymbolEntry(o, name) || In(x, ix.bySymbol);
      }
    case Extension(field) =>
      if FullyQualified(field) { InsertAddsOnlyItsEntry(ix.byExtension.tree, KeyOf(field), o, ExtLess); }
  }

  lemma {:induction false} AddAllIsCoherent(ix: Index<File>, ops: seq<Op>)
    requires ix.values != [] && Coherent(ix) && Listed(ix.byName, |ix.values| - 1)
    ensures Coherent(AddAll(ix, ops).1)
    decreases |ops|
  {
    hide Coherent, Listed, AddOne;
    if ops != [] {
      AddOneIsCoherent(ix, ops[0]);
      if AddOne(ix, ops[0]).0 { AddAllIsCoherent(AddOne(ix, ops[0]).1, ops[1..]); }
    }
  }

  lemma PushIsCoherent(ix: Index<File>, x: EncodedEntry<File>)
    requires Coherent(ix)
    ensures Coherent(ix.(values := ix.values + [x]))
  {
    hide TableWf, Listed;
  }

  /** A name that neither part has goes into the tree. */
  lemma NewNameIsCoherent(ix: Index<File>, n: string, o: nat)
    requires Coherent(ix) && o < |ix.values| && ix.values[o].value.name == n
    requires Find(ix.byName.tree, n, Less) == None && Find(ix.byName.flat, n, Less) == None
    ensures var names := InsertUnique(ix.byName, n, o, Less).1;
            Coherent(ix.(byName := names)) && Listed(names, o)
  {
    hide Less, Common, Insert;
    LessIsStrictTotalOrder();
    var t, names := ix.byName, InsertUnique(ix.byName, n, o, Less).1;
    FindIsExact(t.tree, n, Less);
    FindIsExact(t.flat, n, Less);
    InsertKeepsOrder(t.tree, n, o, Less);
    InsertStaysDisjoint(t.tree, t.flat, n, o, Less);
    InsertAddsOnlyItsEntry(t.tree, n, o, Less);
    assert In(Entry(n, o), names);
    forall offset: nat | Listed(t, offset) ensures Listed(names, offset) { ListedStays(t, names, offset); }
  }

  /** An Add keeps the names in order, accepted, refused or refused half-way, unless it takes over a name. */
  lemma AddFileIsCoherent(ix: Index<File>, file: File)
    requires Coherent(ix) && !TakesOver(ix, file)
    ensures Coherent(AddFile(ix, file, file).1)
  {
    hide Coherent, Listed, Less, Common, ValidateSymbolName, AddAll, FileOps, Find;
    if !ValidateSymbolName(file.Package()) {
      PushIsCoherent(ix, EncodedEntry(file, ""));
    } else {
      var pushed := ix.(values := ix.values + [EncodedEntry(file, file.Package())]);
      PushIsCoherent(ix, EncodedEntry(file, file.Package()));
      var names := InsertUnique(pushed.byName, file.name, |ix.values|, Less).1;
      if Find(ix.byName.tree, file.name, Less) == None {
        NewNameIsCoherent(pushed, file.name, |ix.values|);
        AddAllIsCoherent(pushed.(byName := names), FileOps(file));
      } else {
        assert pushed.(byName := names) == pushed;
      }
    }
  }

  lemma EnsureFlatIsCoherent(ix: Index<File>)
    requires Coherent(ix)
    ensures Coherent(EnsureFlat(ix))
  {
    hide Less, Common, Listed, Flatten, NamesAreOwn;
    var flat := EnsureFlat(ix);
    FlattenHasBoth(ix.byName, ByKey(Less));
    FlattenHasBoth(ix.bySymbol, EntryLess(ix.values));
    FlattenHasBoth(ix.byExtension, ByKey(ExtLess));
    FlattenKeepsNames(ix);
    forall o: nat | Listed(ix.byName, o) ensures Listed(flat.byName, o) { ListedStays(ix.byName, flat.byName, o); }
    forall x | In(x, flat.bySymbol) ensures Listed(flat.byName, x.offset) { assert In(x, ix.bySymbol); }
    forall x: Entry<ExtKey, nat> | In(x, flat.byExtension)
      ensures Listed(flat.byName, x.value)
    {
      assert In(x, ix.byExtension);
    }
  }

  lemma FlattenKeepsNames(ix: Index<File>)
    requires NamesAreOwn(ix.values, ix.byName)
    ensures NamesAreOwn(ix.values, EnsureFlat(ix).byName)
  {
    hide Less, Common;
    LessIsStrictTotalOrder();
    FlattenHasBoth(ix.byName, ByKey(Less));
    MergeKeepsOrder(ix.byName.tree, ix.byName.flat, Less);
    var t' := EnsureFlat(ix).byName;
    assert TableWf(t'.tree, t'.flat, Less);
    forall e: Entry<string, nat> | In(e, t') ensures e.value < |ix.values| && ix.values[e.value].value.name == e.key {
      assert In(e, ix.byName);
    }
  }

  // --------------------------------------------------------------------- runs

  /** The calls of a client on an encoded database alone; failed Adds go on with what they left behind. */
  function Run(calls: seq<Call<File>>, ix: Index<File>): Index<File>
    decreases |calls|
  {
    if calls == [] then ix
    else match calls[0]
      case Lookup => Run(calls[1..], EnsureFlat(ix))
      case Add(file, _) => Run(calls[1..], AddFile(ix, file, file).1)
  }

  /** Every Add of the run is accepted. */
  predicate AllAccepted(calls: seq<Call<File>>, ix: Index<File>)
    decreases |calls|
  {
    calls == [] ||
    match calls[0]
    case Lookup => AllAccepted(calls[1..], EnsureFlat(ix))
    case Add(file, _) => AddFile(ix, file, file).0 && AllAccepted(calls[1..], AddFile(ix, file, file).1)
  }

  /** No Add of the run takes over a name. */
  predicate NothingTakenOver(calls: seq<Call<File>>, ix: Index<File>)
    decreases |calls|
  {
    calls == [] ||
    match calls[0]
    case Lookup => NothingTakenOver(calls[1..], EnsureFlat(ix))
    case Add(file, _) => !TakesOver(ix, file) && NothingTakenOver(calls[1..], AddFile(ix, file, file).1)
  }

  lemma {:induction false} AcceptedTakesNothingOver(calls: seq<Call<File>>, ix: Index<File>)
    requires AllAccepted(calls, ix)
    ensures NothingTakenOver(calls, ix)
    decreases |calls|
  {
    hide ValidateSymbolName, AddAll, Find, InsertIfNotPresent, Less;
    if calls != [] {
      match calls[0]
      case Lookup => AcceptedTakesNothingOver(calls[1..], EnsureFlat(ix));
      case Add(file, _) => AcceptedTakesNothingOver(calls[1..], AddFile(ix, file, file).1);
    }
  }

  lemma {:induction false} RunIsCoherent(calls: seq<Call<File>>, ix: Index<File>)
    requires Coherent(ix) && NothingTakenOver(calls, ix)
    ensures Coherent(Run(calls, ix))
    decreases |calls|
  {
    hide Coherent, AddFile, EnsureFlat, TakesOver;
    if calls != [] {
      match calls[0]
      case Lookup =>
        EnsureFlatIsCoherent(ix);
        RunIsCoherent(calls[1..], EnsureFlat(ix));
      case Add(file, _) =>
        AddFileIsCoherent(ix, file);
        RunIsCoherent(calls[1..], AddFile(ix, file, file).1);
    }
  }

  /**
   * Over every run of an encoded database, refused and half-way refused Adds
   * included, a file found by symbol, extension or name is the one under its
   * own name, as long as no Add takes over a name that a lookup has merged.
   */
  lemma RunAnswersFit(calls: seq<Call<File>>)
    requires NothingTakenOver(calls, EncodedIndex.Empty())
    ensures AnswersFit(Run(calls, EncodedIndex.Empty()))
  {
    RunIsCoherent(calls, EncodedIndex.Empty());
    CoherentAnswersFit(Run(calls, EncodedIndex.Empty()));
  }

  /** In particular so for every run whose Adds are all accepted. */
  lemma AcceptedRunAnswersFit(calls: seq<Call<File>>)
    requires AllAccepted(calls, EncodedIndex.Empty())
    ensures AnswersFit(Run(calls, EncodedIndex.Empty()))
  {
    AcceptedTakesNothingOver(calls, EncodedIndex.Empty());
    RunAnswersFit(calls);
  }

  // ---------------------------------------------------------------- takeovers

  /** Some symbol or extension is answered with f. */
  ghost predicate AnswersWith(ix: Index<File>, f: File) {
    (exists q :: FindSymbol(ix, q) == Some(f)) || (exists t, n :: FindExtension(ix, t, n) == Some(f))
  }

  lemma {:induction false} MergeAgrees<E>(a: seq<E>, b: seq<E>, less: (E, E) -> bool, less': (E, E) -> bool)
    requires forall x, y :: x in a && y in b ==> less(y, x) == less'(y, x)
    ensures Merge(a, b, less) == Merge(a, b, less')
    decreases |a| + |b|
  {
    if a != [] && b != [] {
      if less(b[0], a[0]) { MergeAgrees(a, b[1..], less, less'); } else { MergeAgrees(a[1..], b, less, less'); }
    }
  }

  ghost predicate EntriesInRange(t: Table<SymbolEntry>, n: nat) {
    forall x :: In(x, t) ==> x.offset < n
  }

  /** A value appended changes no answer for a symbol. */
  lemma SymbolAnswerStays(ix: Index<File>, x: EncodedEntry<File>, q: string)
    requires EntriesInRange(ix.bySymbol, |ix.values|)
    ensures FindSymbol(ix.(values := ix.values + [x]), q) == FindSymbol(ix, q)
  {
    hide Less, Common, SymbolOrder.SymbolCompare, IsSubSymbol, FullName, SymbolUpperBound, Flatten;
    var values, values', t := ix.values, ix.values + [x], ix.bySymbol;
    var flat := Flatten(t, EntryLess(values));
    FlattenHasBoth(t, EntryLess(values));
    FlattenAgrees(values, t, x);
    SearchStays(values, flat.flat, x, q);
    forall i | 0 <= i < |flat.flat|
      ensures ValueAt(values', flat.flat[i].offset) == ValueAt(values, flat.flat[i].offset)
    {
      assert In(flat.flat[i], t);
    }
  }

  lemma FlattenAgrees(values: seq<EncodedEntry<File>>, t: Table<SymbolEntry>, x: EncodedEntry<File>)
    requires EntriesInRange(t, |values|)
    ensures Flatten(t, EntryLess(values + [x])) == Flatten(t, EntryLess(values))
  {
    hide Less, Common, SymbolOrder.SymbolCompare, Merge;
    forall a, b | a in t.tree && b in t.flat ensures EntryLess(values)(b, a) == EntryLess(values + [x])(b, a) {
      assert In(a, t) && In(b, t);
    }
    MergeAgrees(t.tree, t.flat, EntryLess(values), EntryLess(values + [x]));
  }

  lemma SearchStays(values: seq<EncodedEntry<File>>, flat: seq<SymbolEntry>, x: EncodedEntry<File>, q: string)
    requires EntriesInRange(Table([], flat), |values|)
    ensures forall i :: 0 <= i < |flat| ==> FullName(values + [x], flat[i]) == FullName(values, flat[i])
    ensures SymbolUpperBound(values + [x], flat, SymbolOrder.Plain(q)) ==
              SymbolUpperBound(values, flat, SymbolOrder.Plain(q))
  {
    hide Less, Common, SymbolOrder.SymbolCompare;
    var values', k := values + [x], SymbolOrder.Plain(q);
    forall i | 0 <= i < |flat| ensures KeyOfEntry(values', flat[i]) == KeyOfEntry(values, flat[i]) {
      assert In(flat[i], Table([], flat));
    }
    PartitionPointIsUnique(flat, (e: SymbolEntry) => SymbolOrder.SymbolCompare(k, KeyOfEntry(values', e)),
                           SymbolUpperBound(values, flat, k));
  }

  lemma ExtensionAnswerStays(ix: Index<File>, x: EncodedEntry<File>, t: string, n: int)
    requires ExtensionsInRange(ix)
    ensures FindExtension(ix.(values := ix.values + [x]), t, n) == FindExtension(ix, t, n)
  {
    hide Less, Flatten;
    var flat := EnsureFlat(ix).byExtension;
    FlattenHasBoth(ix.byExtension, ByKey(ExtLess));
    if Find(flat.flat, ExtKey(t, n), ExtLess) != None {
      var e := FoundEntry(flat, ExtKey(t, n), ExtLess);
      assert In(e, ix.byExtension);
    }
  }

  ghost predicate ExtensionsInRange(ix: Index<File>) {
    forall x: Entry<ExtKey, nat> :: In(x, ix.byExtension) ==> x.value < |ix.values|
  }

  lemma CoherentIsInRange(ix: Index<File>)
    requires Coherent(ix)
    ensures EntriesInRange(ix.bySymbol, |ix.values|) && ExtensionsInRange(ix)
    ensures PartsInRange(ix.byName, |ix.values|, Less)
  {
    hide TableWf;
    assert TableWf(ix.byName.tree, ix.byName.flat, Less);
    forall i | 0 <= i < |ix.byName.tree| ensures ix.byName.tree[i].value < |ix.values| {
      assert In(ix.byName.tree[i], ix.byName);
    }
    forall i | 0 <= i < |ix.byName.flat| ensures ix.byName.flat[i].value < |ix.values| {
      assert In(ix.byName.flat[i], ix.byName);
    }
    SortedParts(ix.byName);
  }

  lemma SortedParts(t: Table<Entry<string, nat>>)
    requires TableWf(t.tree, t.flat, Less)
    ensures Sorted(t.tree, Less) && Sorted(t.flat, Less)
  {}

  /** What a takeover changes: the answer under the one name, and nothing else. */
  lemma TakeoverAnswers(ix: Index<File>, file: File)
    requires Coherent(ix) && TakesOver(ix, file)
    ensures var (ok, ix') := AddFile(ix, file, file);
            && !ok
            && (forall n :: FindFile(ix', n) == if n == file.name then Some(file) else FindFile(ix, n))
            && (forall q :: FindSymbol(ix', q) == FindSymbol(ix, q))
            && (forall t, n :: FindExtension(ix', t, n) == FindExtension(ix, t, n))
  {
    hide Less, Common, ValidateSymbolName, FileOps, AddAll, Find, Flatten, Merge, FullName, SymbolUpperBound;
    LessIsStrictTotalOrder();
    CoherentIsInRange(ix);
    var x, o: nat := EncodedEntry(file, file.Package()), |ix.values|;
    var names := InsertUnique(ix.byName, file.name, o, Less).1;
    var pushed, ix' := ix.(values := ix.values + [x]), AddFile(ix, file, file).1;
    assert ix' == pushed.(byName := names);
    forall n ensures FindFile(ix', n) == if n == file.name then Some(file) else FindFile(ix, n) {
      AnswerAfterInsertUnique(ix.byName, file.name, o, n, Less);
      FlattenFind(ix.byName, n, Less);
      FlattenFind(names, n, Less);
      FindGrows(ix.values, ix.byName, n, x, Less);
    }
    forall q ensures FindSymbol(ix', q) == FindSymbol(ix, q) { SymbolAnswerStays(ix, x, q); }
    forall t, n ensures FindExtension(ix', t, n) == FindExtension(ix, t, n) { ExtensionAnswerStays(ix, x, t, n); }
  }

  lemma MergedNameIsFound(ix: Index<File>, file: File)
    requires Coherent(ix) && TakesOver(ix, file)
    ensures FindFile(ix, file.name) != None
  {
    hide Less, Common, Flatten, ValidateSymbolName, TableWf;
    var e := FoundEntry(ix.byName, file.name, Less);
    ListedFileIsFound(ix, e.value);
  }

  /**
   * A takeover parts the answers exactly if a symbol or extension is still
   * answered with another file of that name.
   */
  lemma TakeoverAnswersFit(ix: Index<File>, file: File)
    requires Coherent(ix) && TakesOver(ix, file)
    ensures FindFile(ix, file.name) != None
    ensures var old' := FindFile(ix, file.name).value;
            AnswersFit(AddFile(ix, file, file).1) <==> old' == file || !AnswersWith(ix, old')
  {
    hide Coherent, TakesOver, AddFile, FindFile, FindSymbol, FindExtension;
    MergedNameIsFound(ix, file);
    TakeoverAnswers(ix, file);
    CoherentAnswersFit(ix);
  }

  // ----------------------------------------------------- takeovers over runs

  /** Which file each name gives, and which names were added since the last lookup. */
  datatype Owners = Owners(owner: map<string, File>, recent: set<string>)

  /**
   * The history of the names alone: after a lookup the first Add under a name
   * owns it, be it accepted, refused half-way, or refused and a takeover.
   */
  function OwnersAfter(calls: seq<Call<File>>, h: Owners): Owners
    decreases |calls|
  {
    if calls == [] then h
    else match calls[0]
      case Lookup => OwnersAfter(calls[1..], h.(recent := {}))
      case Add(file, _) => OwnersAfter(calls[1..], OwnersAfterAdd(h, file))
  }

  function OwnersAfterAdd(h: Owners, file: File): Owners {
    if !ValidateSymbolName(file.Package()) || file.name in h.recent then h
    else Owners(h.owner[file.name := file], h.recent + {file.name})
  }

  function OwnerOf(h: Owners, n: string): Option<File> {
    if n in h.owner then Some(h.owner[n]) else None
  }

  ghost predicate Tracks(ix: Index<File>, h: Owners) {
    && PartsInRange(ix.byName, |ix.values|, Less)
    && (forall n :: FindFile(ix, n) == OwnerOf(h, n))
    && (forall n :: n in h.recent <==> Find(ix.byName.tree, n, Less) != None)
    && (forall n :: n in h.owner ==> h.owner[n].name == n)
  }

  lemma LookupTracks(ix: Index<File>, h: Owners)
    requires Tracks(ix, h)
    ensures Tracks(EnsureFlat(ix), h.(recent := {}))
  {
    hide Less, Common, Merge;
    LessIsStrictTotalOrder();
    var flat := EnsureFlat(ix);
    assert flat.byName.tree == [];
    FlattenHasBoth(ix.byName, ByKey(Less));
    forall i | 0 <= i < |flat.byName.flat| ensures flat.byName.flat[i].value < |ix.values| {
      assert In(flat.byName.flat[i], flat.byName);
      assert In(flat.byName.flat[i], ix.byName);
    }
    assert EnsureFlat(flat).byName == flat.byName;
    forall n ensures FindFile(flat, n) == OwnerOf(h, n) { assert FindFile(ix, n) == OwnerOf(h, n); }
  }

  /** The names after the first Add under a name since a lookup. */
  lemma FirstAddTracks(ix: Index<File>, h: Owners, file: File, x: EncodedEntry<File>)
    requires Tracks(ix, h) && file.name !in h.recent && x.value == file
    ensures var names := InsertUnique(ix.byName, file.name, |ix.values|, Less).1;
            Tracks(ix.(values := ix.values + [x], byName := names),
                   Owners(h.owner[file.name := file], h.recent + {file.name}))
  {
    hide Less, Common, Find, Flatten, Merge, OffsetsInRange;
    LessIsStrictTotalOrder();
    var o: nat := |ix.values|;
    var names := InsertUnique(ix.byName, file.name, o, Less).1;
    var ix' := ix.(values := ix.values + [x], byName := names);
    var h' := Owners(h.owner[file.name := file], h.recent + {file.name});
    InsertUniqueRange(ix.byName, file.name, o);
    forall n ensures FindFile(ix', n) == OwnerOf(h', n) && (n in h'.recent <==> Find(names.tree, n, Less) != None) {
      AnswerAfterInsertUnique(ix.byName, file.name, o, n, Less);
      FlattenFind(ix.byName, n, Less);
      FlattenFind(names, n, Less);
      FindGrows(ix.values, ix.byName, n, x, Less);
      assert FindFile(ix, n) == OwnerOf(h, n);
      InsertIfNotPresentKeeps(ix.byName.tree, file.name, o, Less);
      FindIsExact(ix.byName.tree, file.name, Less);
    }
  }

  lemma InsertUniqueRange(t: Table<Entry<string, nat>>, k: string, o: nat)
    requires PartsInRange(t, o, Less)
    ensures PartsInRange(InsertUnique(t, k, o, Less).1, o + 1, Less)
  {
    hide Less, Common;
    LessIsStrictTotalOrder();
    InsertIfNotPresentKeeps(t.tree, k, o, Less);
    InsertPlaces(t.tree, k, o, Less);
    var tree := InsertUnique(t, k, o, Less).1.tree;
    InsertAddsOnlyItsEntry(t.tree, k, o, Less);
    forall i | 0 <= i < |tree| ensures tree[i].value < o + 1 { assert tree[i] in tree; }
  }

  lemma PushTracks(ix: Index<File>, h: Owners, x: EncodedEntry<File>)
    requires Tracks(ix, h)
    ensures Tracks(ix.(values := ix.values + [x]), h)
  {
    hide Less, Common, Find, Flatten, Merge;
    LessIsStrictTotalOrder();
    forall n ensures FindFile(ix.(values := ix.values + [x]), n) == OwnerOf(h, n) {
      assert FindFile(ix, n) == OwnerOf(h, n);
      FindGrows(ix.values, ix.byName, n, x, Less);
    }
  }

  lemma AddTracks(ix: Index<File>, h: Owners, file: File)
    requires Tracks(ix, h)
    ensures Tracks(AddFile(ix, file, file).1, OwnersAfterAdd(h, file))
  {
    hide Less, Common, ValidateSymbolName, FileOps, AddAll, Find, Tracks, Insert;
    var x := EncodedEntry(file, if ValidateSymbolName(file.Package()) then file.Package() else "");
    var pushed, ix' := ix.(values := ix.values + [x]), AddFile(ix, file, file).1;
    if ValidateSymbolName(file.Package()) && file.name !in h.recent {
      FirstAddTracks(ix, h, file, x);
      var names := InsertUnique(ix.byName, file.name, |ix.values|, Less).1;
      SameNamesTrack(pushed.(byName := names), ix', OwnersAfterAdd(h, file));
    } else {
      PushTracks(ix, h, x);
      assert file.name in h.recent ==> Find(ix.byName.tree, file.name, Less) != None by { RecentIsInTree(ix, h); }
      SameNamesTrack(pushed, ix', h);
    }
  }

  lemma RecentIsInTree(ix: Index<File>, h: Owners)
    requires Tracks(ix, h)
    ensures forall n :: n in h.recent <==> Find(ix.byName.tree, n, Less) != None
  {}

  lemma SameNamesTrack(ix: Index<File>, ix': Index<File>, h: Owners)
    requires Tracks(ix, h) && ix'.values == ix.values && ix'.byName == ix.byName
    ensures Tracks(ix', h)
  {
    hide Less, Find, Flatten;
    forall n ensures FindFile(ix', n) == OwnerOf(h, n) { assert FindFile(ix, n) == OwnerOf(h, n); }
  }

  lemma {:induction false} RunTracks(calls: seq<Call<File>>, ix: Index<File>, h: Owners)
    requires Tracks(ix, h)
    ensures Tracks(Run(calls, ix), OwnersAfter(calls, h))
    decreases |calls|
  {
    hide Tracks, AddFile, EnsureFlat, OwnersAfterAdd;
    if calls != [] {
      match calls[0]
      case Lookup =>
        LookupTracks(ix, h);
        RunTracks(calls[1..], EnsureFlat(ix), h.(recent := {}));
      case Add(file, _) =>
        AddTracks(ix, h, file);
        RunTracks(calls[1..], AddFile(ix, file, file).1, OwnersAfterAdd(h, file));
    }
  }

  const NO_OWNERS := Owners(map[], {})

  /** Over every run, takeovers included, a name gives the file that the history says. */
  lemma NameGivesOwner(calls: seq<Call<File>>, n: string)
    ensures FindFile(Run(calls, EncodedIndex.Empty()), n) == OwnerOf(OwnersAfter(calls, NO_OWNERS), n)
  {
    hide Run, OwnersAfter;
    EmptyIsTracked();
    RunTracks(calls, EncodedIndex.Empty(), NO_OWNERS);
  }

  lemma EmptyIsTracked()
    ensures Tracks(EncodedIndex.Empty(), NO_OWNERS)
  {}

  /** An Add takes over a name exactly if the name has an owner but was not added since the last lookup. */
  lemma TakesOverIff(calls: seq<Call<File>>, file: File)
    ensures var h := OwnersAfter(calls, NO_OWNERS);
            TakesOver(Run(calls, EncodedIndex.Empty()), file) <==>
              ValidateSymbolName(file.Package()) && file.name in h.owner && file.name !in h.recent
  {
    hide Run, OwnersAfter, ValidateSymbolName, Tracks, Find;
    EmptyIsTracked();
    RunTracks(calls, EncodedIndex.Empty(), NO_OWNERS);
    var ix, h := Run(calls, EncodedIndex.Empty()), OwnersAfter(calls, NO_OWNERS);
    RecentIsInTree(ix, h);
    OwnedIsListed(ix, h, file.name);
  }

  lemma OwnedIsListed(ix: Index<File>, h: Owners, n: string)
    requires Tracks(ix, h)
    ensures n in h.owner <==> Find(ix.byName.tree, n, Less) != None || Find(ix.byName.flat, n, Less) != None
  {
    hide Less, Common, Merge;
    LessIsStrictTotalOrder();
    assert FindFile(ix, n) == OwnerOf(h, n);
    FlattenFind(ix.byName, n, Less);
    MergePrefersTree(ix.byName.tree, ix.byName.flat, n, Less);
    FoundIsInRange(ix.byName.tree, n, |ix.values|);
    FoundIsInRange(ix.byName.flat, n, |ix.values|);
  }

  lemma FoundIsInRange(es: seq<Entry<string, nat>>, n: string, size: nat)
    requires OffsetsInRange(es, size)
    ensures Find(es, n, Less) != None ==> Find(es, n, Less).value < size
  {
    hide Less;
  }

  /**
   * So over every run the answers fit together exactly if every file that a
   * symbol or extension is answered with still owns its name: no later file
   * of that name was the first to be added after a lookup.
   */
  lemma RunAnswersFitIff(calls: seq<Call<File>>)
    ensures var ix, h := Run(calls, EncodedIndex.Empty()), OwnersAfter(calls, NO_OWNERS);
            AnswersFit(ix) <==> forall f :: AnswersWith(ix, f) ==> OwnerOf(h, f.name) == Some(f)
  {
    hide Run, OwnersAfter, FindFile, FindSymbol, FindExtension;
    var ix, h := Run(calls, EncodedIndex.Empty()), OwnersAfter(calls, NO_OWNERS);
    forall n ensures FindFile(ix, n) == OwnerOf(h, n) { NameGivesOwner(calls, n); }
    if AnswersFit(ix) {
      forall f | AnswersWith(ix, f) ensures OwnerOf(h, f.name) == Some(f) {
        assert FindFile(ix, f.name) == Some(f);
      }
    }
    if forall f :: AnswersWith(ix, f) ==> OwnerOf(h, f.name) == Some(f) {
      forall q, f | FindSymbol(ix, q) == Some(f) ensures FindFile(ix, f.name) == Some(f) {
        assert AnswersWith(ix, f);
        assert FindFile(ix, f.name) == OwnerOf(h, f.name);
      }
      forall t, n, f | FindExtension(ix, t, n) == Some(f) ensures FindFile(ix, f.name) == Some(f) {
        assert AnswersWith(ix, f);
        assert FindFile(ix, f.name) == OwnerOf(h, f.name);
      }
      forall n, f | FindFile(ix, n) == Some(f) ensures f.name == n {
        assert FindFile(ix, n) == OwnerOf(h, n);
        OwnerIsNamed(calls, n);
      }
    }
  }

  lemma OwnerIsNamed(calls: seq<Call<File>>, n: string)
    ensures var h := OwnersAfter(calls, NO_OWNERS); n in h.owner ==> h.owner[n].name == n
  {
    hide Run, OwnersAfter;
    EmptyIsTracked();
    RunTracks(calls, EncodedIndex.Empty(), NO_OWNERS);
  }

  /** One file with one message, merged by a lookup. */
  function OneMerged(f: File, m: string): Index<File> {
    EncodedIndex.Index([EncodedEntry(f, "")], Table([], [Entry(f.name, 0)]), Table([], [SymbolEntry(0, m)]),
                       Table([], []))
  }

  predicate IsOneMessage(f: File, m: string) {
    f == OneMessage(f.name, m) && ValidateSymbolName(m)
  }

  lemma OneMessageMerged(f: File, m: string)
    requires IsOneMessage(f, m)
    ensures Run([Add(f, f), Lookup], EncodedIndex.Empty()) == OneMerged(f, m)
  {
    hide Less, Common, SymbolOrder.SymbolCompare, FileOps, ValidateSymbolName, AddFile;
    AddOneMessage(EncodedIndex.Empty(), f.name, m, f);
    var added := AddFile(EncodedIndex.Empty(), f, f).1;
    assert Insert([], f.name, 0 as nat, Less) == [Entry(f.name, 0 as nat)];
    assert added.bySymbol.tree == [SymbolEntry(0, m)];
    assert EnsureFlat(added) == OneMerged(f, m);
    assert Run([Add(f, f), Lookup], EncodedIndex.Empty()) == Run([Lookup], added);
  }

  /**
   * Such a takeover is real: Add a file with one message, look anything up,
   * and Add any other file under its name. The message is then found in the
   * first file, and its name gives the second.
   */
  lemma TakeoverCanPart(f: File, g: File, m: string)
    requires IsOneMessage(f, m) && g.name == f.name && g != f && ValidateSymbolName(g.Package())
    ensures !AnswersFit(Run([Add(f, f), Lookup, Add(g, g)], EncodedIndex.Empty()))
  {
    hide AddFile, EnsureFlat, ValidateSymbolName, AnswersFit, Coherent;
    var calls: seq<Call<File>> := [Add(f, f), Lookup];
    var ix := OneMerged(f, m);
    OneMessageMerged(f, m);
    OneMergedAnswers(f, g, m);
    assert Run([Add(f, f), Lookup, Add(g, g)], EncodedIndex.Empty()) == AddFile(ix, g, g).1 by {
      assert [Add(f, f), Lookup, Add(g, g)] == calls + [Add(g, g)];
      RunAppends(calls, [Add(g, g)], EncodedIndex.Empty());
    }
    TakeoverAnswersFit(ix, g);
  }

  lemma {:induction false} RunAppends(calls: seq<Call<File>>, more: seq<Call<File>>, ix: Index<File>)
    ensures Run(calls + more, ix) == Run(more, Run(calls, ix))
    decreases |calls|
  {
    if calls == [] {
      assert calls + more == more;
    } else {
      assert (calls + more)[1..] == calls[1..] + more;
      match calls[0]
      case Lookup => RunAppends(calls[1..], more, EnsureFlat(ix));
      case Add(file, _) => RunAppends(calls[1..], more, AddFile(ix, file, file).1);
    }
  }

  lemma OneMergedAnswers(f: File, g: File, m: string)
    requires IsOneMessage(f, m) && g.name == f.name && ValidateSymbolName(g.Package())
    ensures var ix := OneMerged(f, m);
            Coherent(ix) && TakesOver(ix, g) && FindFile(ix, f.name) == Some(f) && AnswersWith(ix, f)
  {
    hide Less, Common, SymbolOrder.SymbolCompare, ValidateSymbolName;
    var ix := OneMerged(f, m);
    assert In(Entry(f.name, 0 as nat), ix.byName);
    assert Listed(ix.byName, 0);
    LessIsTotal(f.name, f.name);
    assert EnsureFlat(ix) == ix;
    assert FindSymbol(ix, m) == Some(f);
  }
}
