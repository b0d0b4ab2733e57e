// Which files the simple index accepts: for names that are not parents or
// children of each other, exactly those that bring nothing known and nothing twice.
module FileAcceptance {
  import opened Names
  import opened Options
  import opened Descriptors
  import opened Ordered
  import opened SimpleIndex
  import opened SymbolLookup
  import opened SimpleRuns
  import opened FileContents

  function MessageNames(ms: seq<Message>): seq<string> {
    seq(|ms|, i requires 0 <= i < |ms| => ms[i].name)
  }

  function FieldNames(fs: seq<Field>): seq<string> {
    seq(|fs|, i requires 0 <= i < |fs| => fs[i].name)
  }

  /** All names that a file declares, one for each declaration. */
  function DeclaredNames(f: File): seq<string> {
    MessageNames(f.messages) + f.enums + FieldNames(f.extensions) + f.services
  }

  /** The keys of the extensions with an absolute extendee, one for each. */
  function Keys(fs: seq<Field>): seq<ExtKey> {
    if fs == [] then []
    else (if IsAbsolute(fs[0]) then [ExtKey(fs[0].extendee[1..], fs[0].number)] else []) + Keys(fs[1..])
  }

  function KeysIn(m: Message): seq<ExtKey> {
    Keys(m.extensions) + KeysInAll(m.nested)
  }

  function KeysInAll(ms: seq<Message>): seq<ExtKey> {
    if ms == [] then [] else KeysIn(ms[0]) + KeysInAll(ms[1..])
  }

  function FileKeys(f: File): seq<ExtKey> {
    Keys(f.extensions) + KeysInAll(f.messages)
  }

  ghost predicate Distinct<T(!new)>(s: seq<T>) {
    forall i, j :: 0 <= i < j < |s| ==> s[i] != s[j]
  }

  // ------------------------------------------------------------ calls as lists

  function SymbolNames(ops: seq<Op>): seq<string> {
    if ops == [] then []
    else (if ops[0].Symbol? then [ops[0].name] else []) + SymbolNames(ops[1..])
  }

  function CallKeys(ops: seq<Op>): seq<ExtKey> {
    if ops == [] then [] else (if ops[0].Extension? then Keys([ops[0].field]) else []) + CallKeys(ops[1..])
  }

  lemma {:induction false} NamesOfTwo(a: seq<Op>, b: seq<Op>)
    ensures SymbolNames(a + b) == SymbolNames(a) + SymbolNames(b)
    decreases |a|
  {
    if a == [] {
      assert a + b == b;
    } else {
      var own := if a[0].Symbol? then [a[0].name] else [];
      assert (a + b)[1..] == a[1..] + b && (a + b)[0] == a[0];
      assert SymbolNames(a + b) == own + SymbolNames(a[1..] + b) && SymbolNames(a) == own + SymbolNames(a[1..]);
      hide SymbolNames;
      NamesOfTwo(a[1..], b);
    }
  }

  lemma {:induction false} CallKeysOfTwo(a: seq<Op>, b: seq<Op>)
    ensures CallKeys(a + b) == CallKeys(a) + CallKeys(b)
    decreases |a|
  {
    hide Keys;
    if a == [] {
      assert a + b == b;
    } else {
      var own := if a[0].Extension? then Keys([a[0].field]) else [];
      assert (a + b)[1..] == a[1..] + b && (a + b)[0] == a[0];
      assert CallKeys(a + b) == own + CallKeys(a[1..] + b) && CallKeys(a) == own + CallKeys(a[1..]);
      hide CallKeys;
      CallKeysOfTwo(a[1..], b);
    }
  }

  lemma CallsOfTwo(a: seq<Op>, b: seq<Op>)
    ensures SymbolNames(a + b) == SymbolNames(a) + SymbolNames(b) && CallKeys(a + b) == CallKeys(a) + CallKeys(b)
  {
    hide SymbolNames, CallKeys;
    NamesOfTwo(a, b);
    CallKeysOfTwo(a, b);
  }

  lemma {:induction false} KeysInTwo(a: seq<Message>, b: seq<Message>)
    ensures KeysInAll(a + b) == KeysInAll(a) + KeysInAll(b)
    decreases |a|
  {
    hide KeysIn;
    if a == [] {
      assert a + b == b;
    } else {
      assert (a + b)[1..] == a[1..] + b;
      KeysInTwo(a[1..], b);
    }
  }

  lemma {:induction false} KeysOfTwo(a: seq<Field>, b: seq<Field>)
    ensures Keys(a + b) == Keys(a) + Keys(b)
    decreases |a|
  {
    if a == [] {
      assert a + b == b;
    } else {
      var own := if IsAbsolute(a[0]) then [ExtKey(a[0].extendee[1..], a[0].number)] else [];
      assert (a + b)[1..] == a[1..] + b && (a + b)[0] == a[0];
      assert Keys(a + b) == own + Keys(a[1..] + b) && Keys(a) == own + Keys(a[1..]);
      hide Keys;
      KeysOfTwo(a[1..], b);
    }
  }

  lemma {:induction false} ExtensionCallLists(fs: seq<Field>)
    ensures SymbolNames(ExtensionOps(fs)) == [] && CallKeys(ExtensionOps(fs)) == Keys(fs)
    decreases |fs|
  {
    if fs != [] {
      ExtensionCallLists(fs[1..]);
      assert ExtensionOps(fs)[1..] == ExtensionOps(fs[1..]);
      assert Keys([fs[0]]) + Keys(fs[1..]) == Keys(fs) by {
        KeysOfTwo([fs[0]], fs[1..]);
        assert [fs[0]] + fs[1..] == fs;
      }
    }
  }

  lemma {:induction false} SymbolCallLists(names: seq<string>)
    ensures SymbolNames(SymbolOps(names)) == names && CallKeys(SymbolOps(names)) == []
    decreases |names|
  {
    if names != [] {
      SymbolCallLists(names[1..]);
      assert SymbolOps(names)[1..] == SymbolOps(names[1..]);
    }
  }

  lemma {:induction false} NestedCallLists(m: Message)
    ensures SymbolNames(NestedExtensions(m)) == []
    ensures multiset(CallKeys(NestedExtensions(m))) == multiset(KeysIn(m))
    decreases m, 0
  {
    AllNestedCallLists(m.nested);
    ExtensionCallLists(m.extensions);
    CallsOfTwo(AllNestedExtensions(m.nested), ExtensionOps(m.extensions));
    hide AllNestedExtensions, ExtensionOps, CallKeys, SymbolNames, Keys, KeysInAll;
  }

  lemma {:induction false} AllNestedCallLists(ms: seq<Message>)
    ensures SymbolNames(AllNestedExtensions(ms)) == []
    ensures multiset(CallKeys(AllNestedExtensions(ms))) == multiset(KeysInAll(ms))
    decreases ms, 1
  {
    hide NestedExtensions, KeysIn;
    if ms != [] {
      var front, last := ms[..|ms| - 1], ms[|ms| - 1];
      AllNestedCallLists(front);
      NestedCallLists(last);
      CallsOfTwo(AllNestedExtensions(front), NestedExtensions(last));
      KeysInFrontAndLast(ms);
    }
  }

  lemma KeysInFrontAndLast(ms: seq<Message>)
    requires ms != []
    ensures KeysInAll(ms) == KeysInAll(ms[..|ms| - 1]) + KeysIn(ms[|ms| - 1])
  {
    hide KeysIn;
    var front, last := ms[..|ms| - 1], ms[|ms| - 1];
    KeysInTwo(front, [last]);
    assert front + [last] == ms && KeysInAll([last]) == KeysIn(last);
  }

  lemma {:induction false} MessageCallLists(ms: seq<Message>)
    ensures SymbolNames(MessageOps(ms)) == MessageNames(ms)
    ensures multiset(CallKeys(MessageOps(ms))) == multiset(KeysInAll(ms))
    decreases |ms|
  {
    if ms != [] {
      var front, last := ms[..|ms| - 1], ms[|ms| - 1];
      var a, b, c := MessageOps(front), [Symbol(last.name)], NestedExtensions(last);
      assert MessageOps(ms) == a + b + c;
      assert MessageNames(ms) == MessageNames(front) + [last.name];
      OneSymbolCall(last.name);
      hide NestedExtensions, KeysIn, SymbolNames, CallKeys, MessageOps, MessageNames, KeysInAll;
      MessageCallLists(front);
      NestedCallLists(last);
      CallsOfTwo(a + b, c);
      CallsOfTwo(a, b);
      KeysInFrontAndLast(ms);
    }
  }

  lemma OneSymbolCall(name: string)
    ensures SymbolNames([Symbol(name)]) == [name] && CallKeys([Symbol(name)]) == []
  {
    assert [Symbol(name)][1..] == [];
  }

  lemma {:induction false} TopExtensionCallLists(fs: seq<Field>)
    ensures SymbolNames(TopExtensionOps(fs)) == FieldNames(fs) && CallKeys(TopExtensionOps(fs)) == Keys(fs)
    decreases |fs|
  {
    if fs != [] {
      var front, last := fs[..|fs| - 1], fs[|fs| - 1];
      TopExtensionCallLists(front);
      CallsOfTwo(TopExtensionOps(front) + [Symbol(last.name)], [Extension(last)]);
      CallsOfTwo(TopExtensionOps(front), [Symbol(last.name)]);
      KeysOfTwo(front, [last]);
      assert front + [last] == fs;
      OneSymbolCall(last.name);
      assert SymbolNames([Extension(last)]) == [] && CallKeys([Extension(last)]) == Keys([last]);
      assert FieldNames(fs) == FieldNames(front) + [last.name];
    }
  }

  lemma FileCallLists(f: File)
    ensures SymbolNames(FileOps(f)) == DeclaredNames(f)
    ensures multiset(CallKeys(FileOps(f))) == multiset(FileKeys(f))
  {
    var a, b, c, d := MessageOps(f.messages), SymbolOps(f.enums), TopExtensionOps(f.extensions), SymbolOps(f.services);
    MessageCallLists(f.messages);
    SymbolCallLists(f.enums);
    TopExtensionCallLists(f.extensions);
    SymbolCallLists(f.services);
    CallsOfTwo(a + b + c, d);
    CallsOfTwo(a + b, c);
    CallsOfTwo(a, b);
    hide SymbolNames, CallKeys, MessageOps, SymbolOps, TopExtensionOps, Keys, KeysInAll, MessageNames, FieldNames;
  }

  lemma {:induction false} DistinctIffCounted<T(!new)>(s: seq<T>)
    ensures Distinct(s) <==> forall x :: multiset(s)[x] <= 1
    decreases |s|
  {
    if s != [] {
      DistinctIffCounted(s[1..]);
      DistinctParts(s[0], s[1..]);
      assert s == [s[0]] + s[1..];
      var rest := multiset(s[1..]);
      assert multiset(s) == multiset{s[0]} + rest;
      assert s[0] in s[1..] <==> rest[s[0]] > 0;
      if Distinct(s) {
        forall x ensures multiset(s)[x] <= 1 { assert rest[x] <= 1; }
      } else if s[0] in s[1..] {
        assert multiset(s)[s[0]] > 1;
      } else {
        var x :| rest[x] > 1;
        assert multiset(s)[x] > 1;
      }
    }
  }

  lemma DistinctParts<T(!new)>(x: T, s: seq<T>)
    ensures Distinct([x] + s) <==> x !in s && Distinct(s)
  {
    assert forall i :: 0 < i < |[x] + s| ==> ([x] + s)[i] == s[i - 1];
    if Distinct([x] + s) {
      forall i | 0 <= i < |s| ensures s[i] != x { assert ([x] + s)[i + 1] != ([x] + s)[0]; }
      forall i, j | 0 <= i < j < |s| ensures s[i] != s[j] { assert ([x] + s)[i + 1] != ([x] + s)[j + 1]; }
    }
  }

  // ----------------------------------------------------------------- acceptance

  /** A name that is no parent and no child of any key is accepted exactly if it is valid and new. */
  lemma UnrelatedIsAcceptedIff<V>(es: Symbols<V>, name: string, v: V)
    requires Sorted(es, Less) && ValidKeys(es)
    requires forall i :: 0 <= i < |es| && Related(es[i].key, name) ==> es[i].key == name
    ensures AddSymbol(es, name, v).0 <==> ValidateSymbolName(name) && !Has(es, name)
  {
    hide Common, Less, ValidateSymbolName, Sorted, ValidKeys, IsFloor, AddSymbol;
    AddSymbolAcceptsExactly(es, name, v);
    AddSymbolKeepsOrder(es, name, v);
    hide IsSubSymbol;
  }

  /** No name is a parent or child of another one, or of a key. */
  ghost predicate NoRelatives<V>(es: Symbols<V>, path: string, names: seq<string>) {
    && (forall i, j :: 0 <= i < |names| && 0 <= j < |names| && Related(path + names[i], path + names[j]) ==>
          names[i] == names[j])
    && (forall i, j :: 0 <= i < |es| && 0 <= j < |names| && Related(es[i].key, path + names[j]) ==>
          es[i].key == path + names[j])
  }

  /** Valid names and keys, none of which the index has. */
  ghost predicate AreNew<V>(ix: Index<V>, path: string, names: seq<string>, keys: seq<ExtKey>) {
    && (forall i :: 0 <= i < |names| ==> ValidateSymbolName(path + names[i]) && !Has(ix.bySymbol, path + names[i]))
    && (forall i :: 0 <= i < |keys| ==> !Has(ix.byExtension, keys[i]))
  }

  lemma HasAfterInsert<K(!new), V>(es: seq<Entry<K, V>>, k: K, v: V, q: K, less: (K, K) -> bool)
    ensures Has(Insert(es, k, v, less), q) <==> q == k || Has(es, q)
  {
    InsertAddsOnlyItsEntry(es, k, v, less);
    HasByMembership(es, q);
    HasByMembership(Insert(es, k, v, less), q);
  }

  lemma NewParts<V>(ix: Index<V>, path: string, name: string, names: seq<string>, keys: seq<ExtKey>)
    ensures AreNew(ix, path, [name] + names, keys) <==>
              ValidateSymbolName(path + name) && !Has(ix.bySymbol, path + name) && AreNew(ix, path, names, keys)
  {
    hide ValidateSymbolName, Has;
    assert forall i :: 0 < i < |[name] + names| ==> ([name] + names)[i] == names[i - 1];
    if AreNew(ix, path, [name] + names, keys) {
      forall i | 0 <= i < |names| ensures ValidateSymbolName(path + names[i]) && !Has(ix.bySymbol, path + names[i]) {
        assert ([name] + names)[i + 1] == names[i];
      }
      assert ([name] + names)[0] == name;
    }
  }

  lemma NewKeyParts<V>(ix: Index<V>, path: string, names: seq<string>, key: ExtKey, keys: seq<ExtKey>)
    ensures AreNew(ix, path, names, [key] + keys) <==> !Has(ix.byExtension, key) && AreNew(ix, path, names, keys)
  {
    hide ValidateSymbolName, Has;
    assert forall i :: 0 < i < |[key] + keys| ==> ([key] + keys)[i] == keys[i - 1];
    if AreNew(ix, path, names, [key] + keys) {
      forall i | 0 <= i < |keys| ensures !Has(ix.byExtension, keys[i]) { assert ([key] + keys)[i + 1] == keys[i]; }
      assert ([key] + keys)[0] == key;
    }
  }

  lemma AfterSymbol<V>(ix: Index<V>, path: string, name: string, v: V, names: seq<string>, keys: seq<ExtKey>)
    requires NoRelatives(ix.bySymbol, path, [name] + names)
    ensures var ix' := ix.(bySymbol := Insert(ix.bySymbol, path + name, v, Less));
            && NoRelatives(ix'.bySymbol, path, names)
            && (AreNew(ix', path, names, keys) <==> AreNew(ix, path, names, keys) && name !in names)
  {
    hide ValidateSymbolName, Has, Insert, Less, IsSubSymbol;
    var es' := Insert(ix.bySymbol, path + name, v, Less);
    forall q ensures Has(es', q) <==> q == path + name || Has(ix.bySymbol, q) {
      HasAfterInsert(ix.bySymbol, path + name, v, q, Less);
    }
    SamePath(path);
    var all := [name] + names;
    forall i, j | 0 <= i < |names| && 0 <= j < |names| && Related(path + names[i], path + names[j])
      ensures names[i] == names[j]
    {
      assert all[i + 1] == names[i] && all[j + 1] == names[j];
    }
    forall i, j | 0 <= i < |es'| && 0 <= j < |names| && Related(es'[i].key, path + names[j])
      ensures es'[i].key == path + names[j]
    {
      KeyIsThere(es', i);
      assert all[j + 1] == names[j] && all[0] == name;
      if es'[i].key == path + name {
        assert Related(path + all[0], path + all[j + 1]);
      } else {
        var k := WhereKeyIs(ix.bySymbol, es'[i].key);
        assert Related(ix.bySymbol[k].key, path + all[j + 1]);
      }
    }
  }

  lemma KeyIsThere<V>(es: Symbols<V>, i: nat)
    requires i < |es|
    ensures Has(es, es[i].key)
  {}

  lemma WhereKeyIs<V>(es: Symbols<V>, key: string) returns (i: nat)
    requires Has(es, key)
    ensures i < |es| && es[i].key == key
  {
    i :| 0 <= i < |es| && es[i].key == key;
  }

  lemma SamePath(path: string)
    ensures forall a, b :: path + a == path + b ==> a == b
  {
    forall a, b | path + a == path + b ensures a == b {
      assert a == (path + a)[|path|..] && b == (path + b)[|path|..];
    }
  }

  lemma FirstSymbol<V(!new)>(ix: Index<V>, path: string, ops: seq<Op>, v: V)
    requires ops != [] && ops[0].Symbol? && Wf(ix) && NoRelatives(ix.bySymbol, path, SymbolNames(ops))
    ensures SymbolNames(ops) == [ops[0].name] + SymbolNames(ops[1..]) && CallKeys(ops) == CallKeys(ops[1..])
    ensures var (ok, ix') := AddOne(ix, path, ops[0], v);
            var (name, names, keys) := (ops[0].name, SymbolNames(ops[1..]), CallKeys(ops));
            && (ok <==> ValidateSymbolName(path + name) && !Has(ix.bySymbol, path + name))
            && (AreNew(ix, path, SymbolNames(ops), keys) <==> ok && AreNew(ix, path, names, keys))
            && (ok ==> NoRelatives(ix'.bySymbol, path, names)
                       && (AreNew(ix', path, names, keys) <==> AreNew(ix, path, names, keys) && name !in names))
  {
    hide ValidateSymbolName, Has, Insert, Less, IsSubSymbol, AddSymbol, AreNew;
    var name, names, keys := ops[0].name, SymbolNames(ops[1..]), CallKeys(ops);
    assert SymbolNames(ops)[0] == name;
    UnrelatedIsAcceptedIff(ix.bySymbol, path + name, v);
    AddSymbolKeepsOrder(ix.bySymbol, path + name, v);
    NewParts(ix, path, name, names, keys);
    AfterSymbol(ix, path, name, v, names, keys);
  }

  lemma FirstExtension<V(!new)>(ix: Index<V>, path: string, ops: seq<Op>, v: V)
    requires ops != [] && ops[0].Extension? && Wf(ix)
    ensures SymbolNames(ops) == SymbolNames(ops[1..])
    ensures IsAbsolute(ops[0].field) ==> CallKeys(ops) == [KeyOf(ops[0].field)] + CallKeys(ops[1..])
    ensures !IsAbsolute(ops[0].field) ==> CallKeys(ops) == CallKeys(ops[1..])
    ensures var (ok, ix') := AddOne(ix, path, ops[0], v);
            var (field, names, keys) := (ops[0].field, SymbolNames(ops), CallKeys(ops[1..]));
            && ix'.bySymbol == ix.bySymbol
            && (ok <==> IsAbsolute(field) ==> !Has(ix.byExtension, KeyOf(field)))
            && (AreNew(ix, path, names, CallKeys(ops)) <==> ok && AreNew(ix, path, names, keys))
            && (ok ==> (AreNew(ix', path, names, keys) <==>
                          AreNew(ix, path, names, keys) && (IsAbsolute(field) ==> KeyOf(field) !in keys)))
  {
    hide ValidateSymbolName, Has, Insert, ExtLess, AreNew;
    ExtLessIsStrictTotalOrder();
    var field, names, keys := ops[0].field, SymbolNames(ops), CallKeys(ops[1..]);
    assert Keys([field]) == if IsAbsolute(field) then [KeyOf(field)] else [] by { assert [field][1..] == []; }
    if IsAbsolute(field) {
      var k := KeyOf(field);
      NewKeyParts(ix, path, names, k, keys);
      InsertIfNotPresentKeeps(ix.byExtension, k, v, ExtLess);
      FindIsExact(ix.byExtension, k, ExtLess);
      AfterExtension(ix, path, k, v, names, keys);
    }
  }

  lemma AfterExtension<V>(ix: Index<V>, path: string, k: ExtKey, v: V, names: seq<string>, keys: seq<ExtKey>)
    ensures var ix' := ix.(byExtension := Insert(ix.byExtension, k, v, ExtLess));
            AreNew(ix', path, names, keys) <==> AreNew(ix, path, names, keys) && k !in keys
  {
    hide ValidateSymbolName, Has, Insert, ExtLess;
    forall q ensures Has(Insert(ix.byExtension, k, v, ExtLess), q) <==> q == k || Has(ix.byExtension, q) {
      HasAfterInsert(ix.byExtension, k, v, q, ExtLess);
    }
  }

  lemma {:induction false} CallsAreAcceptedIff<V(!new)>(ix: Index<V>, path: string, ops: seq<Op>, v: V)
    requires Wf(ix) && NoRelatives(ix.bySymbol, path, SymbolNames(ops))
    ensures AddAll(ix, path, ops, v).0 <==>
              && AreNew(ix, path, SymbolNames(ops), CallKeys(ops))
              && Distinct(SymbolNames(ops)) && Distinct(CallKeys(ops))
    decreases |ops|
  {
    hide Wf, Distinct, AddOne;
    if ops == [] {
      NothingIsDistinct<string>();
      NothingIsDistinct<ExtKey>();
    } else {
      AddOneKeeps(ix, path, ops[0], v);
      var ix' := AddOne(ix, path, ops[0], v).1;
      match ops[0]
      case Symbol(name) =>
        FirstSymbol(ix, path, ops, v);
        if AddOne(ix, path, ops[0], v).0 { CallsAreAcceptedIff(ix', path, ops[1..], v); }
        DistinctParts(name, SymbolNames(ops[1..]));
      case Extension(field) =>
        FirstExtension(ix, path, ops, v);
        if AddOne(ix, path, ops[0], v).0 { CallsAreAcceptedIff(ix', path, ops[1..], v); }
        if IsAbsolute(field) { DistinctParts(KeyOf(field), CallKeys(ops[1..])); }
    }
  }

  lemma NothingIsDistinct<T(!new)>()
    ensures Distinct<T>([])
  {}

  /** No name that the file declares is a parent or child of another one, or of a key. */
  ghost predicate BringsNoRelatives<V(!new)>(es: Symbols<V>, f: File) {
    var names := DeclaredNames(f);
    && (forall m, n :: m in names && n in names && m != n ==> !Related(Qualified(f, m), Qualified(f, n)))
    && (forall e, n :: e in es && n in names && e.key != Qualified(f, n) ==> !Related(e.key, Qualified(f, n)))
  }

  /**
   * If no name that the file declares is a parent or child of another one or
   * of a symbol in the index, the file is accepted exactly if its own name is
   * new, each name it declares is valid, new, and declared once, and each of
   * its extensions with an absolute extendee is new and there once.
   */
  lemma FileIsAcceptedIff<V(!new)>(ix: Index<V>, f: File, v: V)
    requires Wf(ix) && BringsNoRelatives(ix.bySymbol, f)
    ensures AddFile(ix, f, v).0 <==>
              && FindFile(ix, f.name) == None
              && (forall n :: n in DeclaredNames(f) ==>
                    ValidateSymbolName(Qualified(f, n)) && !Has(ix.bySymbol, Qualified(f, n)))
              && Distinct(DeclaredNames(f))
              && (forall k :: k in FileKeys(f) ==> FindExtension(ix.byExtension, k.extendee, k.number) == None)
              && Distinct(FileKeys(f))
  {
    hide ValidateSymbolName, Has, Insert, Less, IsSubSymbol, DeclaredNames, FileKeys, FileOps, SymbolNames, CallKeys,
         AddAll, Distinct;
    LessIsStrictTotalOrder();
    ExtLessIsStrictTotalOrder();
    FindIsExact(ix.byName, f.name, Less);
    InsertIfNotPresentKeeps(ix.byName, f.name, v, Less);
    forall k: ExtKey ensures FindExtension(ix.byExtension, k.extendee, k.number) == None <==> !Has(ix.byExtension, k) {
      FindIsExact(ix.byExtension, k, ExtLess);
    }
    FileCallLists(f);
    forall n ensures f.Path() + n == Qualified(f, n) {}
    SameKeys(f);
    var pushed := ix.(byName := InsertIfNotPresent(ix.byName, f.name, v, Less).1);
    assert forall i :: 0 <= i < |DeclaredNames(f)| ==> DeclaredNames(f)[i] in DeclaredNames(f);
    assert forall i :: 0 <= i < |ix.bySymbol| ==> ix.bySymbol[i] in ix.bySymbol;
    CallsAreAcceptedIff(pushed, f.Path(), FileOps(f), v);
    assert forall i :: 0 <= i < |CallKeys(FileOps(f))| ==> CallKeys(FileOps(f))[i] in FileKeys(f);
  }

  lemma SameKeys(f: File)
    ensures forall k :: k in CallKeys(FileOps(f)) <==> k in FileKeys(f)
    ensures Distinct(CallKeys(FileOps(f))) <==> Distinct(FileKeys(f))
  {
    hide CallKeys, FileKeys, FileOps, SymbolNames, DeclaredNames;
    FileCallLists(f);
    DistinctIffCounted(CallKeys(FileOps(f)));
    DistinctIffCounted(FileKeys(f));
    forall k ensures k in CallKeys(FileOps(f)) <==> k in FileKeys(f) {
      assert k in CallKeys(FileOps(f)) <==> k in multiset(CallKeys(FileOps(f)));
      assert k in FileKeys(f) <==> k in multiset(FileKeys(f));
    }
  }
}
