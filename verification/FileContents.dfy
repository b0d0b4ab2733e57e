// What a file declares, said of the file itself, and that adding it to the simple
// index makes exactly that known.
module FileContents {
  import opened Names
  import opened Options
  import opened Descriptors
  import opened Ordered
  import opened SimpleIndex
  import opened SymbolLookup
  import opened SimpleRuns

  /** A message, enum, extension or service of the file has this name. */
  predicate Declares(f: File, n: string) {
    || (exists i :: 0 <= i < |f.messages| && f.messages[i].name == n)
    || n in f.enums
    || (exists i :: 0 <= i < |f.extensions| && f.extensions[i].name == n)
    || n in f.services
  }

  /** The message, or a type nested in it at any depth, has the extension. */
  predicate Extends(m: Message, x: Field)
    decreases m
  {
    x in m.extensions || exists i :: 0 <= i < |m.nested| && Extends(m.nested[i], x)
  }

  predicate HasExtension(f: File, x: Field) {
    x in f.extensions || exists i :: 0 <= i < |f.messages| && Extends(f.messages[i], x)
  }

  /** The name with the package in front, if there is one. */
  function Qualified(f: File, n: string): string {
    if f.package == None || f.package.value == "" then n else f.package.value + "." + n
  }

  /** The type that the extension extends is given from the root. */
  predicate IsAbsolute(x: Field) {
    |x.extendee| > 0 && x.extendee[0] == '.'
  }

  // ---------------------------------------------------- the calls that are made

  lemma {:induction false} NestedCalls(m: Message, op: Op)
    ensures op in NestedExtensions(m) <==> op.Extension? && Extends(m, op.field)
    decreases m, 0
  {
    AllNestedCalls(m.nested, op);
    ExtensionCalls(m.extensions, op);
    hide AllNestedExtensions, ExtensionOps;
  }

  lemma ExtensionCalls(fs: seq<Field>, op: Op)
    ensures op in ExtensionOps(fs) <==> op.Extension? && op.field in fs
  {
    if op.Extension? && op.field in fs {
      var i :| 0 <= i < |fs| && fs[i] == op.field;
      assert ExtensionOps(fs)[i] == op;
    }
  }

  lemma {:induction false} AllNestedCalls(ms: seq<Message>, op: Op)
    ensures op in AllNestedExtensions(ms) <==> op.Extension? && exists i :: 0 <= i < |ms| && Extends(ms[i], op.field)
    decreases ms, 1
  {
    hide Extends, NestedExtensions;
    if ms != [] {
      var front, last := ms[..|ms| - 1], ms[|ms| - 1];
      AllNestedCalls(front, op);
      NestedCalls(last, op);
      assert forall i :: 0 <= i < |front| ==> ms[i] == front[i];
    }
  }

  lemma SymbolCalls(names: seq<string>, op: Op)
    ensures op in SymbolOps(names) <==> op.Symbol? && op.name in names
  {
    if op.Symbol? && op.name in names {
      var i :| 0 <= i < |names| && names[i] == op.name;
      assert SymbolOps(names)[i] == op;
    }
  }

  lemma {:induction false} MessageCalls(ms: seq<Message>, op: Op)
    ensures op in MessageOps(ms) <==>
              match op
              case Symbol(n) => exists i :: 0 <= i < |ms| && ms[i].name == n
              case Extension(x) => exists i :: 0 <= i < |ms| && Extends(ms[i], x)
    decreases |ms|
  {
    hide Extends, NestedExtensions;
    if ms != [] {
      var n := |ms| - 1;
      var front, last := ms[..n], ms[n];
      MessageCalls(front, op);
      NestedCalls(last, op);
      match op
      case Symbol(name) =>
        assert (exists i :: 0 <= i < |ms| && ms[i].name == name) <==>
               last.name == name || exists i :: 0 <= i < |front| && front[i].name == name by {
          assert forall i :: 0 <= i < n ==> ms[i] == front[i];
        }
      case Extension(x) =>
        assert (exists i :: 0 <= i < |ms| && Extends(ms[i], x)) <==>
               Extends(last, x) || exists i :: 0 <= i < |front| && Extends(front[i], x) by {
          assert forall i :: 0 <= i < n ==> ms[i] == front[i];
        }
    }
  }

  lemma {:induction false} TopExtensionCalls(fs: seq<Field>, op: Op)
    ensures op in TopExtensionOps(fs) <==>
              match op
              case Symbol(n) => exists i :: 0 <= i < |fs| && fs[i].name == n
              case Extension(x) => x in fs
    decreases |fs|
  {
    if fs != [] {
      var front, last := fs[..|fs| - 1], fs[|fs| - 1];
      TopExtensionCalls(front, op);
      assert fs == front + [last];
      assert forall i :: 0 <= i < |front| ==> fs[i] == front[i];
    }
  }

  /** Adding a file makes one call for each name that it declares and each extension that it has, and no other. */
  lemma CallsAreContents(f: File, op: Op)
    ensures op in FileOps(f) <==>
              match op case Symbol(n) => Declares(f, n) case Extension(x) => HasExtension(f, x)
  {
    hide Extends, MessageOps, TopExtensionOps, SymbolOps;
    MessageCalls(f.messages, op);
    SymbolCalls(f.enums, op);
    TopExtensionCalls(f.extensions, op);
    SymbolCalls(f.services, op);
  }

  // ------------------------------------------------------------ what they store

  /** One of the calls stores this name. */
  ghost predicate StoresSymbol(ops: seq<Op>, path: string, k: string) {
    exists op :: op in ops && op.Symbol? && path + op.name == k
  }

  ghost predicate StoresExtension(ops: seq<Op>, k: ExtKey) {
    exists op :: op in ops && op.Extension? && IsAbsolute(op.field)
                 && ExtKey(op.field.extendee[1..], op.field.number) == k
  }

  lemma AddOneStores<V(!new)>(ix: Index<V>, path: string, op: Op, v: V)
    ensures var (ok, ix') := AddOne(ix, path, op, v);
            && (forall e :: e in ix'.bySymbol <==>
                  e in ix.bySymbol || (ok && StoresSymbol([op], path, e.key) && e.value == v))
            && (forall e :: e in ix'.byExtension <==>
                  e in ix.byExtension || (ok && StoresExtension([op], e.key) && e.value == v))
  {
    hide Less, Common, ValidateSymbolName, IsSubSymbol;
    assert op in [op];
    match op
    case Symbol(name) => InsertAddsOnlyItsEntry(ix.bySymbol, path + name, v, Less);
    case Extension(field) =>
      if FullyQualified(field) { InsertAddsOnlyItsEntry(ix.byExtension, KeyOf(field), v, ExtLess); }
  }

  lemma StoresParts(op: Op, ops: seq<Op>, path: string)
    ensures forall k :: StoresSymbol([op] + ops, path, k) <==> StoresSymbol([op], path, k) || StoresSymbol(ops, path, k)
    ensures forall k :: StoresExtension([op] + ops, k) <==> StoresExtension([op], k) || StoresExtension(ops, k)
  {
    assert forall o :: o in [op] + ops <==> o in [op] || o in ops;
  }

  /** Whether or not all calls succeed, what is stored is theirs; if they do, all of it is. */
  lemma {:induction false} AddAllStores<V(!new)>(ix: Index<V>, path: string, ops: seq<Op>, v: V)
    ensures var (ok, ix') := AddAll(ix, path, ops, v);
            && (forall e :: e in ix'.bySymbol ==> e in ix.bySymbol || (StoresSymbol(ops, path, e.key) && e.value == v))
            && (forall e :: e in ix'.byExtension ==>
                  e in ix.byExtension || (StoresExtension(ops, e.key) && e.value == v))
            && (forall e :: e in ix.bySymbol || (ok && StoresSymbol(ops, path, e.key) && e.value == v) ==>
                  e in ix'.bySymbol)
            && (forall e :: e in ix.byExtension || (ok && StoresExtension(ops, e.key) && e.value == v) ==>
                  e in ix'.byExtension)
    decreases |ops|
  {
    hide AddOne, StoresSymbol, StoresExtension;
    if ops == [] {
      NothingStores(path);
    } else {
      AddOneStores(ix, path, ops[0], v);
      StoresParts(ops[0], ops[1..], path);
      assert ops == [ops[0]] + ops[1..];
      var (ok, ix') := AddOne(ix, path, ops[0], v);
      if ok { AddAllStores(ix', path, ops[1..], v); }
    }
  }

  lemma NothingStores(path: string)
    ensures forall k :: !StoresSymbol([], path, k)
    ensures forall k :: !StoresExtension([], k)
  {}

  lemma FileStores(f: File, k: string, x: ExtKey)
    ensures StoresSymbol(FileOps(f), f.Path(), k) <==> exists n :: Declares(f, n) && Qualified(f, n) == k
    ensures StoresExtension(FileOps(f), x) <==>
              exists y :: HasExtension(f, y) && IsAbsolute(y) && ExtKey(y.extendee[1..], y.number) == x
  {
    hide FileOps, Declares, HasExtension;
    forall op ensures op in FileOps(f) <==>
              match op case Symbol(n) => Declares(f, n) case Extension(y) => HasExtension(f, y)
    {
      CallsAreContents(f, op);
    }
    forall n ensures f.Path() + n == Qualified(f, n) {}
    if n :| Declares(f, n) && Qualified(f, n) == k { assert Symbol(n) in FileOps(f); }
    if y :| HasExtension(f, y) && IsAbsolute(y) && ExtKey(y.extendee[1..], y.number) == x {
      assert Extension(y) in FileOps(f);
    }
  }

  // --------------------------------------------------------------- the theorems

  /**
   * After an accepted Add the file is found by its name, by each name that it
   * declares, under its package, and by each extension with an absolute
   * extendee, at top level or in a type nested at any depth.
   */
  lemma AcceptedFileIsFound<V(!new)>(ix: Index<V>, f: File, v: V)
    requires Wf(ix) && AddFile(ix, f, v).0
    ensures var ix' := AddFile(ix, f, v).1;
            && FindFile(ix', f.name) == Some(v)
            && (forall n :: Declares(f, n) ==> FindSymbol(ix'.bySymbol, Qualified(f, n)) == Some(v))
            && (forall x :: HasExtension(f, x) && IsAbsolute(x) ==>
                  FindExtension(ix'.byExtension, x.extendee[1..], x.number) == Some(v))
  {
    hide FileOps, AddFile, Declares, HasExtension, Wf, FindSymbol, FindExtension;
    AcceptedFileIsIndexed(ix, f, v);
    var ix' := AddFile(ix, f, v).1;
    forall n | Declares(f, n) ensures FindSymbol(ix'.bySymbol, Qualified(f, n)) == Some(v) {
      CallsAreContents(f, Symbol(n));
      assert Indexed(ix', f.Path(), Symbol(n), v);
      assert f.Path() + n == Qualified(f, n);
    }
    forall x | HasExtension(f, x) && IsAbsolute(x)
      ensures FindExtension(ix'.byExtension, x.extendee[1..], x.number) == Some(v)
    {
      CallsAreContents(f, Extension(x));
      assert Indexed(ix', f.Path(), Extension(x), v);
    }
  }

  /** And the tables have got nothing else; nor do they after a refused Add. */
  lemma NothingElseIsAdded<V(!new)>(ix: Index<V>, f: File, v: V)
    ensures var (ok, ix') := AddFile(ix, f, v);
            && (forall e :: e in ix'.byName ==> e in ix.byName || e == Entry(f.name, v))
            && (forall e :: e in ix'.bySymbol ==>
                  e in ix.bySymbol || (e.value == v && exists n :: Declares(f, n) && Qualified(f, n) == e.key))
            && (forall e :: e in ix'.byExtension ==>
                  e in ix.byExtension
                  || (e.value == v && exists x :: HasExtension(f, x) && IsAbsolute(x)
                                                  && ExtKey(x.extendee[1..], x.number) == e.key))
            && (forall e :: e in ix.byName ==> e in ix'.byName)
            && (forall e :: e in ix.bySymbol ==> e in ix'.bySymbol)
            && (forall e :: e in ix.byExtension ==> e in ix'.byExtension)
  {
    hide Less, Common, FileOps, Declares, HasExtension, AddAll, StoresSymbol, StoresExtension, Insert;
    InsertAddsOnlyItsEntry(ix.byName, f.name, v, Less);
    var (ok, names) := InsertIfNotPresent(ix.byName, f.name, v, Less);
    var ix' := AddFile(ix, f, v).1;
    if ok {
      AddAllStores(ix.(byName := names), f.Path(), FileOps(f), v);
      AddAllKeepsNames(ix.(byName := names), f.Path(), FileOps(f), v);
      forall e | e in ix'.bySymbol && e !in ix.bySymbol
        ensures e.value == v && exists n :: Declares(f, n) && Qualified(f, n) == e.key
      {
        FileStores(f, e.key, ExtKey("", 0));
      }
      forall e | e in ix'.byExtension && e !in ix.byExtension
        ensures e.value == v && exists x :: HasExtension(f, x) && IsAbsolute(x)
                                            && ExtKey(x.extendee[1..], x.number) == e.key
      {
        FileStores(f, "", e.key);
      }
    }
  }

  lemma {:induction false} AddAllKeepsNames<V>(ix: Index<V>, path: string, ops: seq<Op>, v: V)
    ensures AddAll(ix, path, ops, v).1.byName == ix.byName
    decreases |ops|
  {
    hide AddSymbol, AddExtension;
    if ops != [] && AddOne(ix, path, ops[0], v).0 {
      AddAllKeepsNames(AddOne(ix, path, ops[0], v).1, path, ops[1..], v);
    }
  }
}
