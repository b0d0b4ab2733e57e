// SimpleDescriptorDatabase::DescriptorIndex as the object it is: three tables
// updated in place, each method tied to its function in SimpleIndex.
module SimpleDatabase {
  import opened Names
  import opened Options
  import opened Descriptors
  import opened Ordered
  import SimpleIndex

  lemma {:induction false} AddAllAppends<V>(ix: SimpleIndex.Index<V>, path: string, done: seq<Op>, more: seq<Op>, v: V)
    ensures var (ok, ix') := SimpleIndex.AddAll(ix, path, done, v);
            SimpleIndex.AddAll(ix, path, done + more, v) ==
            if ok then SimpleIndex.AddAll(ix', path, more, v) else (ok, ix')
    decreases |done|
  {
    if done == [] {
      assert done + more == more;
    } else {
      var (ok, ix') := SimpleIndex.AddOne(ix, path, done[0], v);
      assert (done + more)[1..] == done[1..] + more;
      if ok { AddAllAppends(ix', path, done[1..], more, v); }
    }
  }

  /** One more step after those already done; a failure part of the way decides the whole. */
  lemma Advance<V>(start: SimpleIndex.Index<V>, path: string, done: seq<Op>, more: seq<Op>, all: seq<Op>, v: V,
                   now: SimpleIndex.Index<V>)
    requires SimpleIndex.AddAll(start, path, done, v) == (true, now) && done + more <= all
    ensures var (ok, next) := SimpleIndex.AddAll(now, path, more, v);
            && SimpleIndex.AddAll(start, path, done + more, v) == (ok, next)
            && (!ok ==> SimpleIndex.AddAll(start, path, all, v) == (false, next))
  {
    AddAllAppends(start, path, done, more, v);
    assert all == done + more + all[|done + more|..];
    AddAllAppends(start, path, done + more, all[|done + more|..], v);
  }

  lemma AddAllOfOne<V>(ix: SimpleIndex.Index<V>, path: string, op: Op, v: V)
    ensures SimpleIndex.AddAll(ix, path, [op], v) == SimpleIndex.AddOne(ix, path, op, v)
  {}

  lemma {:induction false} MessageOpsPrefix(ms: seq<Message>, i: nat)
    requires i <= |ms|
    ensures MessageOps(ms[..i]) <= MessageOps(ms)
    ensures i > 0 ==>
              MessageOps(ms[..i]) == MessageOps(ms[..i - 1]) + [Symbol(ms[i - 1].name)] + NestedExtensions(ms[i - 1])
  {
    if i > 0 { assert ms[..i][..i - 1] == ms[..i - 1]; }
    if i == |ms| {
      assert ms[..i] == ms;
    } else {
      MessageOpsPrefix(ms[..|ms| - 1], i);
      assert ms[..|ms| - 1][..i] == ms[..i];
    }
  }

  lemma {:induction false} TopExtensionOpsPrefix(fs: seq<Field>, i: nat)
    requires i <= |fs|
    ensures TopExtensionOps(fs[..i]) <= TopExtensionOps(fs)
    ensures i > 0 ==>
              TopExtensionOps(fs[..i]) ==
              TopExtensionOps(fs[..i - 1]) + [Symbol(fs[i - 1].name)] + [Extension(fs[i - 1])]
  {
    if i > 0 { assert fs[..i][..i - 1] == fs[..i - 1]; }
    if i == |fs| {
      assert fs[..i] == fs;
    } else {
      TopExtensionOpsPrefix(fs[..|fs| - 1], i);
      assert fs[..|fs| - 1][..i] == fs[..i];
    }
  }

  lemma {:induction false} NestedPrefix(ms: seq<Message>, i: nat)
    requires i <= |ms|
    ensures AllNestedExtensions(ms[..i]) <= AllNestedExtensions(ms)
    ensures i > 0 ==> AllNestedExtensions(ms[..i]) == AllNestedExtensions(ms[..i - 1]) + NestedExtensions(ms[i - 1])
  {
    if i > 0 { assert ms[..i][..i - 1] == ms[..i - 1]; }
    if i == |ms| {
      assert ms[..i] == ms;
    } else {
      NestedPrefix(ms[..|ms| - 1], i);
      assert ms[..|ms| - 1][..i] == ms[..i];
    }
  }

  lemma FileOpsInFour<V>(ix: SimpleIndex.Index<V>, path: string, f: File, v: V)
    ensures var (ok1, ix1) := SimpleIndex.AddAll(ix, path, MessageOps(f.messages), v);
            var (ok2, ix2) := SimpleIndex.AddAll(ix1, path, SymbolOps(f.enums), v);
            var (ok3, ix3) := SimpleIndex.AddAll(ix2, path, TopExtensionOps(f.extensions), v);
            SimpleIndex.AddAll(ix, path, FileOps(f), v) ==
            if !ok1 then (false, ix1) else if !ok2 then (false, ix2) else if !ok3 then (false, ix3)
            else SimpleIndex.AddAll(ix3, path, SymbolOps(f.services), v)
  {
    var a, b, c, d := MessageOps(f.messages), SymbolOps(f.enums), TopExtensionOps(f.extensions), SymbolOps(f.services);
    AddAllAppends(ix, path, a, b, v);
    AddAllAppends(ix, path, a + b, c, v);
    AddAllAppends(ix, path, a + b + c, d, v);
  }

  class DescriptorIndex<V> {
    var byName: seq<Entry<string, V>>
    var bySymbol: seq<Entry<string, V>>
    var byExtension: seq<Entry<ExtKey, V>>

    function View(): SimpleIndex.Index<V> reads this {
      SimpleIndex.Index(byName, bySymbol, byExtension)
    }

    constructor ()
      ensures View() == SimpleIndex.Empty()
    {
      byName, bySymbol, byExtension := [], [], [];
    }

    method AddSymbol(name: string, v: V) returns (ok: bool)
      modifies this`bySymbol
      ensures (ok, bySymbol) == SimpleIndex.AddSymbol(old(bySymbol), name, v)
    {
      if !ValidateSymbolName(name) { return false; }
      var iter := FindLastLessOrEqual(bySymbol, name, Less);
      if iter >= |bySymbol| {
        bySymbol := Insert(bySymbol, name, v, Less);
        return true;
      }
      if IsSubSymbol(bySymbol[iter].key, name) { return false; }
      iter := iter + 1;
      if iter != |bySymbol| && IsSubSymbol(name, bySymbol[iter].key) { return false; }
      bySymbol := Insert(bySymbol, name, v, Less);
      return true;
    }

    method AddExtension(field: Field, v: V) returns (ok: bool)
      modifies this`byExtension
      ensures (ok, byExtension) == SimpleIndex.AddExtension(old(byExtension), field, v)
    {
      ok := true;
      if field.extendee != "" && field.extendee[0] == '.' {
        ok, byExtension := InsertIfNotPresent(byExtension, KeyOf(field), v, ExtLess).0,
                           InsertIfNotPresent(byExtension, KeyOf(field), v, ExtLess).1;
      }
    }

    method AddNestedExtensions(m: Message, v: V, ghost path: string) returns (ok: bool)
      modifies this`byExtension
      ensures (ok, View()) == SimpleIndex.AddAll(old(View()), path, NestedExtensions(m), v)
      decreases m, 1
    {
      ghost var start, all := View(), NestedExtensions(m);
      ghost var done: seq<Op> := [];
      for i := 0 to |m.nested|
        invariant done == AllNestedExtensions(m.nested[..i])
        invariant SimpleIndex.AddAll(start, path, done, v) == (true, View())
      {
        NestedPrefix(m.nested, i + 1);
        Advance(start, path, done, NestedExtensions(m.nested[i]), all, v, View());
        ok := AddNestedExtensions(m.nested[i], v, path);
        if !ok { return; }
        done := done + NestedExtensions(m.nested[i]);
      }
      assert m.nested[..|m.nested|] == m.nested;
      for i := 0 to |m.extensions|
        invariant done == AllNestedExtensions(m.nested) + ExtensionOps(m.extensions)[..i]
        invariant SimpleIndex.AddAll(start, path, done, v) == (true, View())
      {
        ghost var op := Extension(m.extensions[i]);
        Advance(start, path, done, [op], all, v, View());
        AddAllOfOne(View(), path, op, v);
        ok := AddExtension(m.extensions[i], v);
        if !ok { return; }
        done := done + [op];
      }
      assert done == all;
      ok := true;
    }

    /** The loop of AddFile over message types. */
    method AddMessages(ms: seq<Message>, v: V, path: string) returns (ok: bool)
      modifies this`bySymbol, this`byExtension
      ensures (ok, View()) == SimpleIndex.AddAll(old(View()), path, MessageOps(ms), v)
    {
      ghost var start, all := View(), MessageOps(ms);
      for i := 0 to |ms|
        invariant SimpleIndex.AddAll(start, path, MessageOps(ms[..i]), v) == (true, View())
      {
        MessageOpsPrefix(ms, i + 1);
        ghost var done, op := MessageOps(ms[..i]), Symbol(ms[i].name);
        Advance(start, path, done, [op], all, v, View());
        AddAllOfOne(View(), path, op, v);
        ok := AddSymbol(path + ms[i].name, v);
        if !ok { return; }
        Advance(start, path, done + [op], NestedExtensions(ms[i]), all, v, View());
        ok := AddNestedExtensions(ms[i], v, path);
        if !ok { return; }
      }
      assert ms[..|ms|] == ms;
      ok := true;
    }

    /** The loops of AddFile over enum and service names. */
    method AddSymbols(names: seq<string>, v: V, path: string) returns (ok: bool)
      modifies this`bySymbol
      ensures (ok, View()) == SimpleIndex.AddAll(old(View()), path, SymbolOps(names), v)
    {
      ghost var start, all := View(), SymbolOps(names);
      for i := 0 to |names|
        invariant SimpleIndex.AddAll(start, path, all[..i], v) == (true, View())
      {
        ghost var op := Symbol(names[i]);
        assert all[..i] + [op] == all[..i + 1];
        Advance(start, path, all[..i], [op], all, v, View());
        AddAllOfOne(View(), path, op, v);
        ok := AddSymbol(path + names[i], v);
        if !ok { return; }
      }
      assert all[..|names|] == all;
      ok := true;
    }

    /** The loop of AddFile over top-level extensions. */
    method AddTopExtensions(fs: seq<Field>, v: V, path: string) returns (ok: bool)
      modifies this`bySymbol, this`byExtension
      ensures (ok, View()) == SimpleIndex.AddAll(old(View()), path, TopExtensionOps(fs), v)
    {
      ghost var start, all := View(), TopExtensionOps(fs);
      for i := 0 to |fs|
        invariant SimpleIndex.AddAll(start, path, TopExtensionOps(fs[..i]), v) == (true, View())
      {
        TopExtensionOpsPrefix(fs, i + 1);
        ghost var done, op := TopExtensionOps(fs[..i]), Symbol(fs[i].name);
        Advance(start, path, done, [op], all, v, View());
        AddAllOfOne(View(), path, op, v);
        ok := AddSymbol(path + fs[i].name, v);
        if !ok { return; }
        Advance(start, path, done + [op], [Extension(fs[i])], all, v, View());
        AddAllOfOne(View(), path, Extension(fs[i]), v);
        ok := AddExtension(fs[i], v);
        if !ok { return; }
      }
      assert fs[..|fs|] == fs;
      ok := true;
    }

    method AddFile(file: File, v: V) returns (ok: bool)
      modifies this
      ensures (ok, View()) == SimpleIndex.AddFile(old(View()), file, v)
    {
      ok, byName := InsertIfNotPresent(byName, file.name, v, Less).0, InsertIfNotPresent(byName, file.name, v, Less).1;
      if !ok { return; }
      var path := file.Path();
      FileOpsInFour(View(), path, file, v);
      ok := AddMessages(file.messages, v, path);
      if !ok { return; }
      ok := AddSymbols(file.enums, v, path);
      if !ok { return; }
      ok := AddTopExtensions(file.extensions, v, path);
      if !ok { return; }
      ok := AddSymbols(file.services, v, path);
    }

    method FindFile(name: string) returns (file: Option<V>)
      ensures file == SimpleIndex.FindFile(View(), name)
    {
      file := Find(byName, name, Less);
    }

    method FindSymbol(name: string) returns (file: Option<V>)
      ensures file == SimpleIndex.FindSymbol(bySymbol, name)
    {
      var iter := FindLastLessOrEqual(bySymbol, name, Less);
      file := if iter < |bySymbol| && IsSubSymbol(bySymbol[iter].key, name) then Some(bySymbol[iter].value) else None;
    }

    /** Appends the numbers to output; true if there was any. */
    method FindAllExtensionNumbers(containingType: string, output: seq<int>) returns (success: bool, output': seq<int>)
      ensures output' == output + SimpleIndex.FindAllExtensionNumbers(byExtension, containingType)
      ensures success <==> SimpleIndex.FindAllExtensionNumbers(byExtension, containingType) != []
    {
      var it := LowerBound(byExtension, ExtKey(containingType, 0), ExtLess);
      success, output' := false, output;
      ghost var all := SimpleIndex.FindAllExtensionNumbers(byExtension, containingType);
      while it != |byExtension| && byExtension[it].key.extendee == containingType
        invariant it <= |byExtension|
        invariant output + all == output' + SimpleIndex.NumbersFrom(byExtension, it, containingType)
        invariant |output'| >= |output| && (success <==> |output'| > |output|)
        decreases |byExtension| - it
      {
        output' := output' + [byExtension[it].key.number];
        it := it + 1;
        success := true;
      }
    }
  }
}
