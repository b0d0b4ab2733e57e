// EncodedDescriptorDatabase::DescriptorIndex as the object it is: every table is
// a tree and a flat vector updated in place, and lookups flatten first.
module EncodedDatabase {
  import opened Names
  import opened Options
  import opened Descriptors
  import opened Ordered
  import opened SymbolOrder
  import opened EncodedIndex
  import SimpleDatabase

  lemma {:induction false} AddAllAppends<V>(ix: Index<V>, done: seq<Op>, more: seq<Op>)
    requires ix.values != []
    ensures var (ok, ix') := AddAll(ix, done); AddAll(ix, done + more) == if ok then AddAll(ix', more) else (ok, ix')
    decreases |done|
  {
    if done == [] {
      assert done + more == more;
    } else {
      var (ok, ix') := AddOne(ix, done[0]);
      assert (done + more)[1..] == done[1..] + more;
      if ok { AddAllAppends(ix', done[1..], more); }
    }
  }

  /** One more step after those already done; a failure part of the way decides the whole. */
  lemma Advance<V>(start: Index<V>, done: seq<Op>, more: seq<Op>, all: seq<Op>, now: Index<V>)
    requires start.values != [] && AddAll(start, done) == (true, now) && done + more <= all
    ensures var (ok, next) := AddAll(now, more);
            && AddAll(start, done + more) == (ok, next)
            && (!ok ==> AddAll(start, all) == (false, next))
    ensures |more| == 1 ==> AddAll(now, more) == AddOne(now, more[0])
  {
    AddAllAppends(start, done, more);
    assert all == done + more + all[|done + more|..];
    AddAllAppends(start, done + more, all[|done + more|..]);
  }

  lemma FileOpsInFour<V>(ix: Index<V>, f: File)
    requires ix.values != []
    ensures var (ok1, ix1) := AddAll(ix, MessageOps(f.messages));
            var (ok2, ix2) := AddAll(ix1, SymbolOps(f.enums));
            var (ok3, ix3) := AddAll(ix2, TopExtensionOps(f.extensions));
            AddAll(ix, FileOps(f)) ==
            if !ok1 then (false, ix1) else if !ok2 then (false, ix2) else if !ok3 then (false, ix3)
            else AddAll(ix3, SymbolOps(f.services))
  {
    var a, b, c, d := MessageOps(f.messages), SymbolOps(f.enums), TopExtensionOps(f.extensions), SymbolOps(f.services);
    AddAllAppends(ix, a, b);
    AddAllAppends(ix, a + b, c);
    AddAllAppends(ix, a + b + c, d);
  }

  class DescriptorIndex<V> {
    var values: seq<EncodedEntry<V>>
    var byName: Table<Entry<string, nat>>
    var bySymbol: Table<SymbolEntry>
    var byExtension: Table<Entry<ExtKey, nat>>

    function View(): Index<V> reads this {
      Index(values, byName, bySymbol, byExtension)
    }

    constructor ()
      ensures View() == EncodedIndex.Empty()
    {
      values, byName, bySymbol, byExtension := [], Table([], []), Table([], []), Table([], []);
    }

    method AddSymbol(symbol: string) returns (ok: bool)
      requires values != []
      modifies this`bySymbol
      ensures (ok, View()) == EncodedIndex.AddSymbol(old(View()), symbol)
    {
      hide CheckForMutualSubsymbols, ValidateSymbolName, FindLastSymbol, AsString, SymbolCompare, Equivalent;
      var entry := SymbolEntry(|values| - 1, symbol);
      var key := KeyOfEntry(values, entry);
      var name := AsString(key);
      if !ValidateSymbolName(symbol) { return false; }
      var iter := FindLastSymbol(values, bySymbol.tree, key);
      if !CheckForMutualSubsymbols(values, name, iter, bySymbol.tree) { return false; }
      iter := FindLastSymbol(values, bySymbol.flat, key);
      if !CheckForMutualSubsymbols(values, name, iter, bySymbol.flat) { return false; }
      var at := SymbolUpperBound(values, bySymbol.tree, key);
      if at == 0 || !Equivalent(KeyOfEntry(values, bySymbol.tree[at - 1]), key) {
        bySymbol := bySymbol.(tree := bySymbol.tree[..at] + [entry] + bySymbol.tree[at..]);
      }
      ok := true;
    }

    method AddExtension(field: Field) returns (ok: bool)
      requires values != []
      modifies this`byExtension
      ensures (ok, View()) == EncodedIndex.AddExtension(old(View()), field)
    {
      ok := true;
      if field.extendee != "" && field.extendee[0] == '.' {
        ok, byExtension := InsertUnique(byExtension, KeyOf(field), |values| - 1, ExtLess).0,
                           InsertUnique(byExtension, KeyOf(field), |values| - 1, ExtLess).1;
      }
    }

    method AddNestedExtensions(m: Message) returns (ok: bool)
      requires values != []
      modifies this`byExtension
      ensures (ok, View()) == AddAll(old(View()), NestedExtensions(m))
      decreases m
    {
      hide EncodedIndex.AddSymbol, EncodedIndex.AddExtension;
      ghost var start, all := View(), NestedExtensions(m);
      ghost var done: seq<Op> := [];
      for i := 0 to |m.nested|
        invariant done == AllNestedExtensions(m.nested[..i])
        invariant AddAll(start, done) == (true, View())
      {
        SimpleDatabase.NestedPrefix(m.nested, i + 1);
        Advance(start, done, NestedExtensions(m.nested[i]), all, View());
        ok := AddNestedExtensions(m.nested[i]);
        if !ok { return; }
        done := done + NestedExtensions(m.nested[i]);
      }
      assert m.nested[..|m.nested|] == m.nested;
      for i := 0 to |m.extensions|
        invariant done == AllNestedExtensions(m.nested) + ExtensionOps(m.extensions)[..i]
        invariant AddAll(start, done) == (true, View())
      {
        ghost var op := Extension(m.extensions[i]);
        Advance(start, done, [op], all, View());
        ok := AddExtension(m.extensions[i]);
        if !ok { return; }
        done := done + [op];
      }
      assert done == all;
      ok := true;
    }

    /** The loop of AddFile over message types. */
    method AddMessages(ms: seq<Message>) returns (ok: bool)
      requires values != []
      modifies this`bySymbol, this`byExtension
      ensures (ok, View()) == AddAll(old(View()), MessageOps(ms))
    {
      hide EncodedIndex.AddSymbol;
      ghost var start, all := View(), MessageOps(ms);
      for i := 0 to |ms|
        invariant AddAll(start, MessageOps(ms[..i])) == (true, View())
      {
        SimpleDatabase.MessageOpsPrefix(ms, i + 1);
        ghost var done, op := MessageOps(ms[..i]), Symbol(ms[i].name);
        Advance(start, done, [op], all, View());
        ok := AddSymbol(ms[i].name);
        if !ok { return; }
        Advance(start, done + [op], NestedExtensions(ms[i]), all, View());
        ok := AddNestedExtensions(ms[i]);
        if !ok { return; }
      }
      assert ms[..|ms|] == ms;
      ok := true;
    }

    /** The loops of AddFile over enum and service names. */
    method AddSymbols(names: seq<string>) returns (ok: bool)
      requires values != []
      modifies this`bySymbol
      ensures (ok, View()) == AddAll(old(View()), SymbolOps(names))
    {
      hide EncodedIndex.AddSymbol;
      ghost var start, all := View(), SymbolOps(names);
      for i := 0 to |names|
        invariant AddAll(start, all[..i]) == (true, View())
      {
        ghost var op := Symbol(names[i]);
        assert all[..i] + [op] == all[..i + 1];
        Advance(start, all[..i], [op], all, View());
        ok := AddSymbol(names[i]);
        if !ok { return; }
      }
      assert all[..|names|] == all;
      ok := true;
    }

    /** The loop of AddFile over top-level extensions. */
    method AddTopExtensions(fs: seq<Field>) returns (ok: bool)
      requires values != []
      modifies this`bySymbol, this`byExtension
      ensures (ok, View()) == AddAll(old(View()), TopExtensionOps(fs))
    {
      hide EncodedIndex.AddSymbol, EncodedIndex.AddExtension;
      ghost var start, all := View(), TopExtensionOps(fs);
      for i := 0 to |fs|
        invariant AddAll(start, TopExtensionOps(fs[..i])) == (true, View())
      {
        SimpleDatabase.TopExtensionOpsPrefix(fs, i + 1);
        ghost var done, op := TopExtensionOps(fs[..i]), Symbol(fs[i].name);
        Advance(start, done, [op], all, View());
        ok := AddSymbol(fs[i].name);
        if !ok { return; }
        Advance(start, done + [op], [Extension(fs[i])], all, View());
        ok := AddExtension(fs[i]);
        if !ok { return; }
      }
      assert fs[..|fs|] == fs;
      ok := true;
    }

    method AddFile(file: File, v: V) returns (ok: bool)
      modifies this
      ensures (ok, View()) == EncodedIndex.AddFile(old(View()), file, v)
    {
      values := values + [EncodedEntry(v, "")];
      if !ValidateSymbolName(file.Package()) { return false; }
      values := values[|values| - 1 := EncodedEntry(v, file.Package())];
      assert values == old(values) + [EncodedEntry(v, file.Package())];
      ok, byName := InsertUnique(byName, file.name, |values| - 1, Less).0,
                    InsertUnique(byName, file.name, |values| - 1, Less).1;
      if !ok { return; }
      FileOpsInFour(View(), file);
      ok := AddMessages(file.messages);
      if !ok { return; }
      ok := AddSymbols(file.enums);
      if !ok { return; }
      ok := AddTopExtensions(file.extensions);
      if !ok { return; }
      ok := AddSymbols(file.services);
    }

    method EnsureFlat()
      modifies this`byName, this`bySymbol, this`byExtension
      ensures View() == EncodedIndex.EnsureFlat(old(View()))
    {
      byName := Flatten(byName, ByKey(Less));
      bySymbol := Flatten(bySymbol, EntryLess(values));
      byExtension := Flatten(byExtension, ByKey(ExtLess));
    }

    method FindSymbol(name: string) returns (file: Option<V>)
      modifies this`byName, this`bySymbol, this`byExtension
      ensures View() == EncodedIndex.EnsureFlat(old(View()))
      ensures file == EncodedIndex.FindSymbol(old(View()), name)
    {
      EnsureFlat();
      file := FindSymbolOnlyFlat(View(), name);
    }

    method FindFile(name: string) returns (file: Option<V>)
      modifies this`byName, this`bySymbol, this`byExtension
      ensures View() == EncodedIndex.EnsureFlat(old(View()))
      ensures file == EncodedIndex.FindFile(old(View()), name)
    {
      EnsureFlat();
      file := FindFlat(values, byName, name, Less);
    }
  }
}
