// SimpleDescriptorDatabase::DescriptorIndex as functions on values.
module SimpleIndex {
  import opened Names
  import opened Options
  import opened Descriptors
  import opened Ordered

  type Symbols<+V> = seq<Entry<string, V>>
  type Extensions<+V> = seq<Entry<ExtKey, V>>

  datatype Index<+V> = Index(byName: Symbols<V>, bySymbol: Symbols<V>, byExtension: Extensions<V>)

  function Empty<V>(): Index<V> {
    Index([], [], [])
  }

  ghost predicate ValidKeys<V>(es: Symbols<V>) {
    forall i :: 0 <= i < |es| ==> ValidateSymbolName(es[i].key)
  }

  /** The header's map invariant: no key is a sub-symbol of another. */
  ghost predicate PrefixFree<V>(es: Symbols<V>) {
    forall i, j :: 0 <= i < |es| && 0 <= j < |es| && i != j ==> !IsSubSymbol(es[i].key, es[j].key)
  }

  function AddSymbol<V>(es: Symbols<V>, name: string, v: V): (bool, Symbols<V>) {
    if !ValidateSymbolName(name) then (false, es)
    else
      var iter := FindLastLessOrEqual(es, name, Less);
      if iter >= |es| then (true, Insert(es, name, v, Less))
      else if IsSubSymbol(es[iter].key, name) then (false, es)
      else if iter + 1 != |es| && IsSubSymbol(name, es[iter + 1].key) then (false, es)
      else (true, Insert(es, name, v, Less))
  }

  function FindSymbol<V>(es: Symbols<V>, name: string): Option<V> {
    var iter := FindLastLessOrEqual(es, name, Less);
    if iter < |es| && IsSubSymbol(es[iter].key, name) then Some(es[iter].value) else None
  }

  function AddExtension<V>(xs: Extensions<V>, field: Field, v: V): (bool, Extensions<V>) {
    if FullyQualified(field) then InsertIfNotPresent(xs, KeyOf(field), v, ExtLess) else (true, xs)
  }

  function FindExtension<V>(xs: Extensions<V>, containingType: string, number: int): Option<V> {
    Find(xs, ExtKey(containingType, number), ExtLess)
  }

  /** The numbers of the run of entries for containingType that starts at position i. */
  function NumbersFrom<V>(xs: Extensions<V>, i: nat, containingType: string): seq<int>
    requires i <= |xs|
    decreases |xs| - i
  {
    if i == |xs| || xs[i].key.extendee != containingType then []
    else [xs[i].key.number] + NumbersFrom(xs, i + 1, containingType)
  }

  function FindAllExtensionNumbers<V>(xs: Extensions<V>, containingType: string): seq<int> {
    NumbersFrom(xs, LowerBound(xs, ExtKey(containingType, 0), ExtLess), containingType)
  }

  function FindFile<V>(ix: Index<V>, name: string): Option<V> {
    Find(ix.byName, name, Less)
  }

  /** One AddSymbol or AddExtension call made while a file is added. */
  function AddOne<V>(ix: Index<V>, path: string, op: Op, v: V): (bool, Index<V>) {
    match op
    case Symbol(name) =>
      var (ok, es) := AddSymbol(ix.bySymbol, path + name, v);
      (ok, ix.(bySymbol := es))
    case Extension(field) =>
      var (ok, xs) := AddExtension(ix.byExtension, field, v);
      (ok, ix.(byExtension := xs))
  }

  /** Performs the calls in order and stops at the first that fails. */
  function AddAll<V>(ix: Index<V>, path: string, ops: seq<Op>, v: V): (bool, Index<V>)
    decreases |ops|
  {
    if ops == [] then (true, ix)
    else
      var (ok, ix') := AddOne(ix, path, ops[0], v);
      if ok then AddAll(ix', path, ops[1..], v) else (false, ix')
  }

  /** Adds a file; after a conflict everything indexed before the conflict stays. */
  function AddFile<V>(ix: Index<V>, file: File, v: V): (bool, Index<V>) {
    var (ok, names) := InsertIfNotPresent(ix.byName, file.name, v, Less);
    if !ok then (false, ix)
    else AddAll(ix.(byName := names), file.Path(), FileOps(file), v)
  }

  /** The index after a run of AddFile calls, accepted and rejected alike. */
  function Run<V>(ix: Index<V>, calls: seq<(File, V)>): Index<V>
    decreases |calls|
  {
    if calls == [] then ix else Run(AddFile(ix, calls[0].0, calls[0].1).1, calls[1..])
  }

  ghost predicate Wf<V>(ix: Index<V>) {
    && Sorted(ix.byName, Less)
    && Sorted(ix.bySymbol, Less)
    && ValidKeys(ix.bySymbol)
    && Sorted(ix.byExtension, ExtLess)
  }
}
