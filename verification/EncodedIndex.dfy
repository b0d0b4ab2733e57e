// EncodedDescriptorDatabase::DescriptorIndex as functions on values. Each table
// is a std::set that takes insertions and a flat sorted vector it is merged into
// on lookup; an entry stores the position of its file in `values`.
module EncodedIndex {
  import opened Names
  import opened Options
  import opened Descriptors
  import opened Ordered
  import opened SymbolOrder
  import SimpleIndex

  datatype EncodedEntry<+V> = EncodedEntry(value: V, package: string)
  datatype SymbolEntry = SymbolEntry(offset: nat, symbol: string)

  datatype Table<+E> = Table(tree: seq<E>, flat: seq<E>)

  datatype Index<+V> = Index(values: seq<EncodedEntry<V>>, byName: Table<Entry<string, nat>>,
                             bySymbol: Table<SymbolEntry>, byExtension: Table<Entry<ExtKey, nat>>)

  function Empty<V>(): Index<V> {
    Index([], Table([], []), Table([], []), Table([], []))
  }

  function PackageOf<V>(values: seq<EncodedEntry<V>>, offset: nat): string {
    if offset < |values| then values[offset].package else ""
  }

  function ValueAt<V>(values: seq<EncodedEntry<V>>, offset: nat): Option<V> {
    if offset < |values| then Some(values[offset].value) else None
  }

  function KeyOfEntry<V>(values: seq<EncodedEntry<V>>, e: SymbolEntry): Key {
    Stored(PackageOf(values, e.offset), e.symbol)
  }

  function FullName<V>(values: seq<EncodedEntry<V>>, e: SymbolEntry): string {
    AsString(KeyOfEntry(values, e))
  }

  function EntryLess<V>(values: seq<EncodedEntry<V>>): (SymbolEntry, SymbolEntry) -> bool {
    (x: SymbolEntry, y: SymbolEntry) => SymbolCompare(KeyOfEntry(values, x), KeyOfEntry(values, y))
  }

  function SymbolUpperBound<V>(values: seq<EncodedEntry<V>>, es: seq<SymbolEntry>, k: Key): nat {
    PartitionPoint(es, (e: SymbolEntry) => SymbolCompare(k, KeyOfEntry(values, e)))
  }

  function FindLastSymbol<V>(values: seq<EncodedEntry<V>>, es: seq<SymbolEntry>, k: Key): nat {
    var iter := SymbolUpperBound(values, es, k);
    if iter != 0 then iter - 1 else iter
  }

  /** True if neither the entry at iter nor the one after it is related to the name. */
  predicate CheckForMutualSubsymbols<V>(values: seq<EncodedEntry<V>>, name: string, iter: nat, es: seq<SymbolEntry>) {
    iter < |es| ==>
      && !IsSubSymbol(FullName(values, es[iter]), name)
      && (iter + 1 != |es| ==> !IsSubSymbol(name, FullName(values, es[iter + 1])))
  }

  /** The comparator tells neither of the two from the other. */
  predicate Equivalent(a: Key, b: Key) {
    !SymbolCompare(a, b) && !SymbolCompare(b, a)
  }

  /** std::set::insert of a symbol entry: one that is equivalent to an entry of the set is dropped. */
  function InsertSymbol<V>(values: seq<EncodedEntry<V>>, es: seq<SymbolEntry>, entry: SymbolEntry): seq<SymbolEntry> {
    var key := KeyOfEntry(values, entry);
    var at := SymbolUpperBound(values, es, key);
    if at > 0 && Equivalent(KeyOfEntry(values, es[at - 1]), key) then es else es[..at] + [entry] + es[at..]
  }

  /** A dropped entry counts as added. */
  function AddSymbol<V>(ix: Index<V>, symbol: string): (bool, Index<V>)
    requires ix.values != []
  {
    var entry := SymbolEntry(|ix.values| - 1, symbol);
    var key := KeyOfEntry(ix.values, entry);
    var name := AsString(key);
    var t := ix.bySymbol;
    if !ValidateSymbolName(symbol) then (false, ix)
    else if !CheckForMutualSubsymbols(ix.values, name, FindLastSymbol(ix.values, t.tree, key), t.tree) then (false, ix)
    else if !CheckForMutualSubsymbols(ix.values, name, FindLastSymbol(ix.values, t.flat, key), t.flat) then (false, ix)
    else (true, ix.(bySymbol := t.(tree := InsertSymbol(ix.values, t.tree, entry))))
  }

  /** InsertIfNotPresent on the tree first, and only then the search of the flat part. */
  function InsertUnique<K(==)>(t: Table<Entry<K, nat>>, k: K, offset: nat, less: (K, K) -> bool)
    : (bool, Table<Entry<K, nat>>)
  {
    var (ok, tree) := InsertIfNotPresent(t.tree, k, offset, less);
    (ok && Find(t.flat, k, less) == None, t.(tree := tree))
  }

  function AddExtension<V>(ix: Index<V>, field: Field): (bool, Index<V>)
    requires ix.values != []
  {
    if FullyQualified(field) then
      var (ok, t) := InsertUnique(ix.byExtension, KeyOf(field), |ix.values| - 1, ExtLess);
      (ok, ix.(byExtension := t))
    else (true, ix)
  }

  function AddOne<V>(ix: Index<V>, op: Op): (r: (bool, Index<V>))
    requires ix.values != []
    ensures r.1.values == ix.values && r.1.byName == ix.byName
  {
    match op
    case Symbol(name) => AddSymbol(ix, name)
    case Extension(field) => AddExtension(ix, field)
  }

  function AddAll<V>(ix: Index<V>, ops: seq<Op>): (r: (bool, Index<V>))
    requires ix.values != []
    ensures r.1.values == ix.values && r.1.byName == ix.byName
    decreases |ops|
  {
    if ops == [] then (true, ix)
    else
      var (ok, ix') := AddOne(ix, ops[0]);
      if ok then AddAll(ix', ops[1..]) else (false, ix')
  }

  /** The value is appended before anything is checked, and stays. */
  function AddFile<V>(ix: Index<V>, file: File, v: V): (bool, Index<V>) {
    if !ValidateSymbolName(file.Package()) then (false, ix.(values := ix.values + [EncodedEntry(v, "")]))
    else
      var pushed := ix.(values := ix.values + [EncodedEntry(v, file.Package())]);
      var (ok, names) := InsertUnique(pushed.byName, file.name, |pushed.values| - 1, Less);
      if !ok then (false, pushed.(byName := names))
      else AddAll(pushed.(byName := names), FileOps(file))
  }

  /** MergeIntoFlat. */
  function Flatten<E>(t: Table<E>, less: (E, E) -> bool): Table<E> {
    if t.tree == [] then t else Table([], Merge(t.tree, t.flat, less))
  }

  function EnsureFlat<V>(ix: Index<V>): Index<V> {
    ix.(byName := Flatten(ix.byName, ByKey(Less)),
        bySymbol := Flatten(ix.bySymbol, EntryLess(ix.values)),
        byExtension := Flatten(ix.byExtension, ByKey(ExtLess)))
  }

  function FindSymbolOnlyFlat<V>(ix: Index<V>, name: string): Option<V> {
    var flat := ix.bySymbol.flat;
    var iter := FindLastSymbol(ix.values, flat, Plain(name));
    if iter < |flat| && IsSubSymbol(FullName(ix.values, flat[iter]), name) then ValueAt(ix.values, flat[iter].offset)
    else None
  }

  /** std::lower_bound on the flat part, then the test for equality. */
  function FindFlat<K(==), V>(values: seq<EncodedEntry<V>>, t: Table<Entry<K, nat>>, k: K,
                              less: (K, K) -> bool): Option<V> {
    match Find(t.flat, k, less)
    case Some(offset) => ValueAt(values, offset)
    case None => None
  }

  function FindFile<V>(ix: Index<V>, name: string): Option<V> {
    FindFlat(ix.values, EnsureFlat(ix).byName, name, Less)
  }

  function FindSymbol<V>(ix: Index<V>, name: string): Option<V> {
    FindSymbolOnlyFlat(EnsureFlat(ix), name)
  }

  function FindExtension<V>(ix: Index<V>, containingType: string, number: int): Option<V> {
    FindFlat(ix.values, EnsureFlat(ix).byExtension, ExtKey(containingType, number), ExtLess)
  }

  function FindAllExtensionNumbers<V>(ix: Index<V>, containingType: string): seq<int> {
    SimpleIndex.FindAllExtensionNumbers(EnsureFlat(ix).byExtension.flat, containingType)
  }
}
