// Properties of whole runs of a simple descriptor index: answers never change
// once given, and every stored file is the one bound to its own name.
module SimpleRuns {
  import opened Names
  import opened Options
  import opened Descriptors
  import opened Ordered
  import opened SimpleIndex
  import opened SymbolLookup

  /** An insertion outside the range from the found key to the query does not disturb the search. */
  lemma InsertElsewhere<V>(es: Symbols<V>, query: string, name: string, v: V)
    requires Sorted(es, Less) && FindSymbol(es, query) != None
    requires Less(query, name) || Less(name, es[FindLastLessOrEqual(es, query, Less)].key)
    ensures FindSymbol(Insert(es, name, v, Less), query) == FindSymbol(es, query)
  {
    hide Common, Less, IsSubSymbol;
    LessIsStrictTotalOrder();
    UpperBoundSplits(es, query, Less);
    UpperBoundSplits(es, name, Less);
    InsertShiftsBound(es, query, name, v, Less);
    InsertPlaces(es, name, v, Less);
    var f := FindLastLessOrEqual(es, query, Less);
    SubSymbolIsAtMost(es[f].key, query);
  }

  /**
   * Once a query is answered, adding any other symbol leaves the answer alone:
   * a name that came between the found key and the query would be a child of
   * the found key and is refused. The map invariant is not needed.
   */
  lemma AddSymbolKeepsAnswers<V>(es: Symbols<V>, query: string, name: string, v: V)
    requires Sorted(es, Less) && ValidKeys(es) && FindSymbol(es, query) != None
    ensures FindSymbol(AddSymbol(es, name, v).1, query) == FindSymbol(es, query)
  {
    hide Sorted, Insert, FindSymbol, Less;
    if AddSymbol(es, name, v).0 {
      if AtMost(name, query) { RefusedIfBetween(es, query, name, v); }
      InsertElsewhere(es, query, name, v);
    }
  }

  lemma RefusedIfBetween<V>(es: Symbols<V>, query: string, name: string, v: V)
    requires Sorted(es, Less) && ValidKeys(es) && FindSymbol(es, query) != None && AtMost(name, query)
    requires AddSymbol(es, name, v).0
    ensures Less(name, es[FindLastLessOrEqual(es, query, Less)].key)
  {
    hide Common, Less;
    var f := FindLastLessOrEqual(es, query, Less);
    if AtMost(es[f].key, name) {
      LessIsStrictTotalOrder();
      UpperBoundSplits(es, query, Less);
      SubSymbolIsAtMost(es[f].key, query);
      UpperBoundSplits(es, name, Less);
      InsertShiftsBound(es, query, name, v, Less);
      assert UpperBound(es, name, Less) == f + 1;
      BetweenParentAndChild(es[f].key, name, query);
    }
  }

  /** Every answer the first index gives, the second gives too. */
  ghost predicate Keeps<V(!new)>(ix: Index<V>, ix': Index<V>) {
    && (forall q :: FindSymbol(ix.bySymbol, q) != None ==> FindSymbol(ix'.bySymbol, q) == FindSymbol(ix.bySymbol, q))
    && (forall k: ExtKey :: FindExtension(ix.byExtension, k.extendee, k.number) != None ==>
          FindExtension(ix'.byExtension, k.extendee, k.number) == FindExtension(ix.byExtension, k.extendee, k.number))
    && (forall n :: FindFile(ix, n) != None ==> FindFile(ix', n) == FindFile(ix, n))
  }

  lemma AddOneKeeps<V(!new)>(ix: Index<V>, path: string, op: Op, v: V)
    requires Wf(ix)
    ensures Wf(AddOne(ix, path, op, v).1) && Keeps(ix, AddOne(ix, path, op, v).1)
    ensures AddOne(ix, path, op, v).1.byName == ix.byName
  {
    match op
    case Symbol(name) =>
      AddSymbolKeepsOrder(ix.bySymbol, path + name, v);
      forall q | FindSymbol(ix.bySymbol, q) != None
        ensures FindSymbol(AddOne(ix, path, op, v).1.bySymbol, q) == FindSymbol(ix.bySymbol, q)
      {
        AddSymbolKeepsAnswers(ix.bySymbol, q, path + name, v);
      }
    case Extension(field) =>
      ExtLessIsStrictTotalOrder();
      if FullyQualified(field) {
        InsertIfNotPresentKeeps(ix.byExtension, KeyOf(field), v, ExtLess);
        FindIsExact(ix.byExtension, KeyOf(field), ExtLess);
      }
  }

  lemma {:induction false} AddAllKeeps<V(!new)>(ix: Index<V>, path: string, ops: seq<Op>, v: V)
    requires Wf(ix)
    ensures Wf(AddAll(ix, path, ops, v).1) && Keeps(ix, AddAll(ix, path, ops, v).1)
    ensures AddAll(ix, path, ops, v).1.byName == ix.byName
    decreases |ops|
  {
    if ops != [] {
      AddOneKeeps(ix, path, ops[0], v);
      var (ok, ix') := AddOne(ix, path, ops[0], v);
      if ok { AddAllKeeps(ix', path, ops[1..], v); }
    }
  }

  lemma AddFileKeeps<V(!new)>(ix: Index<V>, file: File, v: V)
    requires Wf(ix)
    ensures Wf(AddFile(ix, file, v).1) && Keeps(ix, AddFile(ix, file, v).1)
  {
    LessIsStrictTotalOrder();
    InsertIfNotPresentKeeps(ix.byName, file.name, v, Less);
    FindIsExact(ix.byName, file.name, Less);
    var (ok, names) := InsertIfNotPresent(ix.byName, file.name, v, Less);
    if ok { AddAllKeeps(ix.(byName := names), file.Path(), FileOps(file), v); }
  }

  /**
   * Answers are stable over whole runs: a file found for a symbol, an
   * extension or a file name stays the answer through every later sequence
   * of calls, whether they are accepted, refused or refused half-way.
   */
  lemma {:induction false} RunKeepsAnswers<V(!new)>(ix: Index<V>, calls: seq<(File, V)>)
    requires Wf(ix)
    ensures Wf(Run(ix, calls)) && Keeps(ix, Run(ix, calls))
    decreases |calls|
  {
    if calls != [] {
      AddFileKeeps(ix, calls[0].0, calls[0].1);
      RunKeepsAnswers(AddFile(ix, calls[0].0, calls[0].1).1, calls[1..]);
    }
  }

  // ----------------------------------------------------------- accepted files

  /** The entry that an index operation is for. */
  ghost predicate Indexed<V>(ix: Index<V>, path: string, op: Op, v: V) {
    match op
    case Symbol(name) => FindSymbol(ix.bySymbol, path + name) == Some(v)
    case Extension(field) =>
      FullyQualified(field) ==> FindExtension(ix.byExtension, field.extendee[1..], field.number) == Some(v)
  }

  lemma AddOneIndexes<V>(ix: Index<V>, path: string, op: Op, v: V)
    requires Wf(ix) && AddOne(ix, path, op, v).0
    ensures Indexed(AddOne(ix, path, op, v).1, path, op, v)
  {
    match op
    case Symbol(name) =>
      var es, k := ix.bySymbol, path + name;
      LessIsStrictTotalOrder();
      InsertShiftsBound(es, k, k, v, Less);
      InsertPlaces(es, k, v, Less);
    case Extension(field) =>
      ExtLessIsStrictTotalOrder();
      if FullyQualified(field) { InsertIfNotPresentKeeps(ix.byExtension, KeyOf(field), v, ExtLess); }
  }

  lemma {:induction false} AddAllIndexes<V(!new)>(ix: Index<V>, path: string, ops: seq<Op>, v: V)
    requires Wf(ix) && AddAll(ix, path, ops, v).0
    ensures forall op :: op in ops ==> Indexed(AddAll(ix, path, ops, v).1, path, op, v)
    decreases |ops|
  {
    hide Wf, AddOne, FindSymbol;
    if ops != [] {
      AddOneKeeps(ix, path, ops[0], v);
      AddOneIndexes(ix, path, ops[0], v);
      var ix' := AddOne(ix, path, ops[0], v).1;
      AddAllKeeps(ix', path, ops[1..], v);
      AddAllIndexes(ix', path, ops[1..], v);
      assert ops == [ops[0]] + ops[1..];
      match ops[0]
      case Symbol(name) =>
      case Extension(field) => if FullyQualified(field) { var k := KeyOf(field); }
    }
  }

  /** An accepted file is found by its name, by each symbol and by each fully-qualified extension in it. */
  lemma AcceptedFileIsIndexed<V(!new)>(ix: Index<V>, file: File, v: V)
    requires Wf(ix) && AddFile(ix, file, v).0
    ensures FindFile(AddFile(ix, file, v).1, file.name) == Some(v)
    ensures forall op :: op in FileOps(file) ==> Indexed(AddFile(ix, file, v).1, file.Path(), op, v)
  {
    LessIsStrictTotalOrder();
    InsertIfNotPresentKeeps(ix.byName, file.name, v, Less);
    var names := InsertIfNotPresent(ix.byName, file.name, v, Less).1;
    AddAllKeeps(ix.(byName := names), file.Path(), FileOps(file), v);
    AddAllIndexes(ix.(byName := names), file.Path(), FileOps(file), v);
  }

  // ---------------------------------------------------------------- coherence

  /** Looking a file up by its own name gives that file. */
  predicate Bound(ix: Index<File>, f: File) {
    FindFile(ix, f.name) == Some(f)
  }

  /** Every file that is stored, under whatever key, is the one bound to its own name. */
  ghost predicate Coherent(ix: Index<File>) {
    && (forall e :: e in ix.byName ==> e.value.name == e.key)
    && (forall e :: e in ix.bySymbol ==> Bound(ix, e.value))
    && (forall e :: e in ix.byExtension ==> Bound(ix, e.value))
  }

  lemma AddOneStoresOnly<V>(ix: Index<V>, path: string, op: Op, v: V)
    ensures var ix' := AddOne(ix, path, op, v).1;
            && ix'.byName == ix.byName
            && (forall e :: e in ix'.bySymbol ==> e in ix.bySymbol || e.value == v)
            && (forall e :: e in ix'.byExtension ==> e in ix.byExtension || e.value == v)
  {
    match op
    case Symbol(name) => InsertAddsOnlyItsEntry(ix.bySymbol, path + name, v, Less);
    case Extension(field) =>
      if FullyQualified(field) { InsertAddsOnlyItsEntry(ix.byExtension, KeyOf(field), v, ExtLess); }
  }

  lemma {:induction false} AddAllIsCoherent(ix: Index<File>, path: string, ops: seq<Op>, f: File)
    requires Coherent(ix) && Bound(ix, f)
    ensures Coherent(AddAll(ix, path, ops, f).1)
    decreases |ops|
  {
    if ops != [] {
      AddOneStoresOnly(ix, path, ops[0], f);
      var (ok, ix') := AddOne(ix, path, ops[0], f);
      assert forall g :: Bound(ix', g) == Bound(ix, g);
      if ok { AddAllIsCoherent(ix', path, ops[1..], f); }
    }
  }

  lemma AddFileIsCoherent(ix: Index<File>, f: File)
    requires Wf(ix) && Coherent(ix)
    ensures Coherent(AddFile(ix, f, f).1)
  {
    var (ok, names) := InsertIfNotPresent(ix.byName, f.name, f, Less);
    if ok {
      LessIsStrictTotalOrder();
      InsertIfNotPresentKeeps(ix.byName, f.name, f, Less);
      InsertAddsOnlyItsEntry(ix.byName, f.name, f, Less);
      assert forall g :: Bound(ix, g) ==> Bound(ix.(byName := names), g);
      AddAllIsCoherent(ix.(byName := names), f.Path(), FileOps(f), f);
    }
  }

  /** Calls of SimpleDescriptorDatabase::Add, where the stored value is the file itself. */
  function Adds(files: seq<File>): seq<(File, File)> {
    seq(|files|, i requires 0 <= i < |files| => (files[i], files[i]))
  }

  lemma {:induction false} RunIsCoherent(ix: Index<File>, files: seq<File>)
    requires Wf(ix) && Coherent(ix)
    ensures Coherent(Run(ix, Adds(files)))
    decreases |files|
  {
    if files != [] {
      AddFileIsCoherent(ix, files[0]);
      AddFileKeeps(ix, files[0], files[0]);
      RunIsCoherent(AddFile(ix, files[0], files[0]).1, files[1..]);
      assert Adds(files)[1..] == Adds(files[1..]);
    }
  }

  /**
   * Over every run of Add calls, failed ones included, a file found by
   * symbol, extension or name is the file bound to its own name.
   */
  lemma FoundFilesAreBound(files: seq<File>, q: string, n: int, f: File)
    ensures var ix := Run(Empty(), Adds(files));
            && (FindSymbol(ix.bySymbol, q) == Some(f) ==> FindFile(ix, f.name) == Some(f))
            && (FindExtension(ix.byExtension, q, n) == Some(f) ==> FindFile(ix, f.name) == Some(f))
            && (FindFile(ix, q) == Some(f) ==> f.name == q)
  {
    RunIsCoherent(Empty(), files);
  }

  // -------------------------------------------------------- extension numbers

  predicate Ascending(ns: seq<int>) {
    forall i, j :: 0 <= i < j < |ns| ==> ns[i] < ns[j]
  }

  lemma {:induction false} NumbersFromAreExact<V>(xs: Extensions<V>, i: nat, t: string)
    requires Sorted(xs, ExtLess) && i <= |xs|
    requires forall j :: i <= j < |xs| ==> xs[j].key.extendee == t || Less(t, xs[j].key.extendee)
    ensures Ascending(NumbersFrom(xs, i, t))
    ensures forall n :: n in NumbersFrom(xs, i, t) <==> exists j :: i <= j < |xs| && xs[j].key == ExtKey(t, n)
    decreases |xs| - i
  {
    hide Common, Less;
    if i < |xs| {
      var head := xs[i].key;
      if head.extendee == t {
        NumbersFromAreExact(xs, i + 1, t);
        var rest := NumbersFrom(xs, i + 1, t);
        assert NumbersFrom(xs, i, t) == [head.number] + rest;
        forall n | n in rest ensures head.number < n {
          var j :| i + 1 <= j < |xs| && xs[j].key == ExtKey(t, n);
          LessIsTotal(t, t);
          assert ExtLess(xs[i].key, xs[j].key);
        }
        assert forall j :: 0 <= j < |rest| ==> rest[j] in rest;
        forall n | exists j :: i <= j < |xs| && xs[j].key == ExtKey(t, n) ensures n == head.number || n in rest {
          var j :| i <= j < |xs| && xs[j].key == ExtKey(t, n);
          if j > i { assert i + 1 <= j; }
        }
      } else {
        forall j | i <= j < |xs| ensures xs[j].key.extendee != t {
          LessIsTotal(t, t);
          if j > i { LessIsTotal(t, head.extendee); }
        }
      }
    }
  }

  /**
   * The extension numbers are listed in strictly ascending order, and exactly
   * those listed can be looked up, except that negative numbers are skipped.
   */
  lemma ExtensionNumbersAreExact<V>(xs: Extensions<V>, t: string)
    requires Sorted(xs, ExtLess)
    ensures Ascending(FindAllExtensionNumbers(xs, t))
    ensures forall n :: n in FindAllExtensionNumbers(xs, t) <==> n >= 0 && FindExtension(xs, t, n) != None
  {
    var k := ExtKey(t, 0);
    var u := LowerBound(xs, k, ExtLess);
    ExtLessIsStrictTotalOrder();
    LessIsStrictTotalOrder();
    LowerBoundSplits(xs, k, ExtLess);
    NumbersFromAreExact(xs, u, t);
    forall n ensures n in FindAllExtensionNumbers(xs, t) <==> n >= 0 && FindExtension(xs, t, n) != None {
      FindIsExact(xs, ExtKey(t, n), ExtLess);
    }
  }
}
