// The prefix-lookup algorithm of the symbol map: the header's informal proof,
// and what the two neighbour tests of AddSymbol decide.
module SymbolLookup {
  import opened Names
  import opened Options
  import opened Ordered
  import opened SimpleIndex

  lemma LessIsStrictTotalOrder()
    ensures StrictTotalOrder(Less)
  {
    forall a, b ensures a == b <==> !Less(a, b) && !Less(b, a) ensures !(Less(a, b) && Less(b, a)) {
      LessIsTotal(a, b);
    }
    forall a, b, c | Less(a, b) && Less(b, c) ensures Less(a, c) {
      LessIsTransitive(a, b, c);
    }
  }

  /** Where the search stops if some key is at most k: at the last such key. */
  lemma FindLastIsLast<V>(es: Symbols<V>, k: string, i: nat)
    requires Sorted(es, Less) && i < |es| && AtMost(es[i].key, k)
    ensures i <= FindLastLessOrEqual(es, k, Less) < |es|
    ensures AtMost(es[FindLastLessOrEqual(es, k, Less)].key, k)
    ensures forall j :: FindLastLessOrEqual(es, k, Less) < j < |es| ==> Less(k, es[j].key)
    ensures AtMost(es[i].key, es[FindLastLessOrEqual(es, k, Less)].key)
  {
    LessIsStrictTotalOrder();
    UpperBoundSplits(es, k, Less);
  }

  /**
   * Steps 1 to 8 of the informal proof, without the map invariant: if a key
   * matches the query then the found key is that key or one of its children.
   */
  lemma FoundKeyIsBelowMatch<V>(es: Symbols<V>, query: string, i: nat)
    requires Sorted(es, Less) && ValidKeys(es) && i < |es| && IsSubSymbol(es[i].key, query)
    ensures FindLastLessOrEqual(es, query, Less) < |es|
    ensures IsSubSymbol(es[i].key, es[FindLastLessOrEqual(es, query, Less)].key)
  {
    SubSymbolIsAtMost(es[i].key, query);
    FindLastIsLast(es, query, i);
    BetweenParentAndChild(es[i].key, es[FindLastLessOrEqual(es, query, Less)].key, query);
  }

  /**
   * The algorithm of the header is sound and complete for every query string:
   * it answers with the unique key equal to the query or a dotted parent of
   * it, and with the default value exactly when there is no such key.
   */
  lemma LookupIsSoundAndComplete<V>(es: Symbols<V>, query: string)
    requires Sorted(es, Less) && ValidKeys(es) && PrefixFree(es)
    ensures FindSymbol(es, query) == None <==> forall i :: 0 <= i < |es| ==> !IsSubSymbol(es[i].key, query)
    ensures forall i, j | 0 <= i < |es| && 0 <= j < |es| ::
              IsSubSymbol(es[i].key, query) && IsSubSymbol(es[j].key, query) ==> i == j
    ensures forall i :: 0 <= i < |es| && IsSubSymbol(es[i].key, query) ==> FindSymbol(es, query) == Some(es[i].value)
  {
    forall i | 0 <= i < |es| && IsSubSymbol(es[i].key, query)
      ensures i == FindLastLessOrEqual(es, query, Less)
    {
      FoundKeyIsBelowMatch(es, query, i);
    }
  }

  /** A query that defeats the lookup when key p is a parent of key c. */
  function Spoiler(c: string): string {
    c + "!"
  }

  lemma SpoilerHidesParent<V>(es: Symbols<V>, p: nat, c: nat)
    requires Sorted(es, Less) && ValidKeys(es) && p < |es| && c < |es| && p != c && IsSubSymbol(es[p].key, es[c].key)
    ensures IsSubSymbol(es[p].key, Spoiler(es[c].key))
    ensures FindSymbol(es, Spoiler(es[c].key)) == None
  {
    LessIsStrictTotalOrder();
    SortedKeysAreDistinct(es, Less);
    var key, q := es[c].key, Spoiler(es[c].key);
    PrefixIsLess(key, q);
    LessIsTotal(key, q);
    FindLastIsLast(es, q, c);
    var f := FindLastLessOrEqual(es, q, Less);
    var found := es[f].key;
    assert !ValidChar(q[|key|]);
    assert found != q;
    assert found < q ==> found <= key;
    if found < key {
      PrefixIsLess(found, key);
      LessIsTotal(found, key);
    }
  }

  /** The map invariant is exactly what complete lookup needs. */
  lemma LookupIsCompleteIffPrefixFree<V>(es: Symbols<V>)
    requires Sorted(es, Less) && ValidKeys(es)
    ensures PrefixFree(es) <==>
            forall q, i :: 0 <= i < |es| && IsSubSymbol(es[i].key, q) ==> FindSymbol(es, q) != None
  {
    if PrefixFree(es) {
      forall q, i | 0 <= i < |es| && IsSubSymbol(es[i].key, q) ensures FindSymbol(es, q) != None {
        LookupIsSoundAndComplete(es, q);
      }
    } else {
      var p, c :| 0 <= p < |es| && 0 <= c < |es| && p != c && IsSubSymbol(es[p].key, es[c].key);
      SpoilerHidesParent(es, p, c);
    }
  }

  // ------------------------------------------------------------------- adding

  /** The code's guard: the map is empty or its least key is at most the new name. */
  predicate HasFloor<V>(es: Symbols<V>, name: string) {
    es == [] || AtMost(es[0].key, name)
  }

  /** Every parent of the name is a parent of the key found, and every child lies above it. */
  lemma RelatedKeysAreNeighbours<V>(es: Symbols<V>, name: string, i: nat)
    requires Sorted(es, Less) && ValidKeys(es) && ValidateSymbolName(name) && i < |es| && HasFloor(es, name)
    ensures var f := FindLastLessOrEqual(es, name, Less);
            && f < |es|
            && (IsSubSymbol(es[i].key, name) ==> IsSubSymbol(es[i].key, es[f].key))
            && (IsSubSymbol(name, es[i].key) && es[i].key != name ==> f + 1 < |es| && IsSubSymbol(name, es[f + 1].key))
  {
    FindLastIsLast(es, name, 0);
    if IsSubSymbol(es[i].key, name) { FoundKeyIsBelowMatch(es, name, i); }
    if IsSubSymbol(name, es[i].key) && es[i].key != name {
      SubSymbolIsAtMost(name, es[i].key);
      ChildrenFollow(es, name, FindLastLessOrEqual(es, name, Less) + 1, i);
    }
  }

  /** The first key above a name is its child if any later key is. */
  lemma ChildrenFollow<V>(es: Symbols<V>, name: string, first: nat, i: nat)
    requires Sorted(es, Less) && ValidKeys(es) && first < |es| && i < |es|
    requires Less(name, es[first].key) && Less(name, es[i].key) && IsSubSymbol(name, es[i].key)
    requires first <= i
    ensures IsSubSymbol(name, es[first].key)
  {
    LessIsTotal(name, es[first].key);
    LessIsTotal(es[first].key, es[i].key);
    BetweenParentAndChild(name, es[first].key, es[i].key);
  }

  /**
   * Two neighbour tests decide all keys: with the map invariant, and a least
   * key not above the new name, a valid name is accepted exactly when no key
   * equals it, is its parent or is its child.
   */
  lemma AddSymbolDecidesAllKeys<V>(es: Symbols<V>, name: string, v: V)
    requires Sorted(es, Less) && ValidKeys(es) && PrefixFree(es) && HasFloor(es, name)
    ensures AddSymbol(es, name, v).0 <==>
            ValidateSymbolName(name) && forall i :: 0 <= i < |es| ==> !Related(es[i].key, name)
  {
    if ValidateSymbolName(name) && es != [] {
      var f := FindLastLessOrEqual(es, name, Less);
      FindLastIsLast(es, name, 0);
      forall i | 0 <= i < |es| && Related(es[i].key, name)
        ensures !AddSymbol(es, name, v).0
      {
        RelatedKeysAreNeighbours(es, name, i);
      }
    }
  }

  /**
   * Below the least key the search stops on that key and steps past it, so it
   * is the second key that is tested.
   */
  lemma AddSymbolBelowLeastKey<V>(es: Symbols<V>, name: string, v: V)
    requires Sorted(es, Less) && ValidKeys(es) && !HasFloor(es, name)
    ensures AddSymbol(es, name, v).0 <==>
            ValidateSymbolName(name) && forall i :: 1 <= i < |es| ==> !Related(es[i].key, name)
    ensures !IsSubSymbol(es[0].key, name)
  {
    LessIsStrictTotalOrder();
    UpperBoundSplits(es, name, Less);
    forall i | 0 <= i < |es| ensures Less(name, es[i].key) && !IsSubSymbol(es[i].key, name) {
      if i > 0 { LessIsTransitive(name, es[0].key, es[i].key); }
      LessIsTotal(name, es[i].key);
      if IsSubSymbol(es[i].key, name) { SubSymbolIsAtMost(es[i].key, name); }
    }
    if ValidateSymbolName(name) {
      forall i | 1 <= i < |es| && IsSubSymbol(name, es[i].key) ensures IsSubSymbol(name, es[1].key) {
        LessIsTotal(name, es[1].key);
        LessIsTotal(es[1].key, es[i].key);
        BetweenParentAndChild(name, es[1].key, es[i].key);
      }
    }
  }

  /** The only key related to the name, if any, is the least key, and the name sorts below it. */
  ghost predicate OnlyLeastRelated<V>(es: Symbols<V>, name: string) {
    forall i :: 0 <= i < |es| && Related(es[i].key, name) ==> i == 0 && !HasFloor(es, name)
  }

  /** With the map invariant, what acceptance means in every case. */
  lemma AddSymbolAcceptsIff<V>(es: Symbols<V>, name: string, v: V)
    requires Sorted(es, Less) && ValidKeys(es) && PrefixFree(es)
    ensures AddSymbol(es, name, v).0 <==> ValidateSymbolName(name) && OnlyLeastRelated(es, name)
  {
    hide Common, Less, ValidateSymbolName, Related, AddSymbol;
    if HasFloor(es, name) { AddSymbolDecidesAllKeys(es, name, v); } else { AddSymbolBelowLeastKey(es, name, v); }
  }

  /** A symbol defined below the parent, at any depth. */
  predicate IsStrictChild(child: string, parent: string) {
    IsSubSymbol(parent, child) && parent != child
  }

  /** The greatest key that is at most the name equals it or is its parent. */
  ghost predicate FloorIsParent<V>(es: Symbols<V>, name: string) {
    exists i :: 0 <= i < |es| && IsFloor(es, name, i) && IsSubSymbol(es[i].key, name)
  }

  predicate IsFloor<V>(es: Symbols<V>, name: string, i: nat)
    requires i < |es|
  {
    AtMost(es[i].key, name) && (i + 1 < |es| ==> Less(name, es[i + 1].key))
  }

  /** No key but the least is a strict child of the name. */
  ghost predicate OnlyLeastIsChild<V>(es: Symbols<V>, name: string) {
    forall i :: 0 <= i < |es| && IsStrictChild(es[i].key, name) ==> i == 0
  }

  /** What the two neighbour tests amount to, whatever the map holds. */
  ghost predicate LetsIn<V>(es: Symbols<V>, name: string) {
    !FloorIsParent(es, name) && OnlyLeastIsChild(es, name)
  }

  lemma FloorIsFound<V>(es: Symbols<V>, name: string, i: nat)
    requires Sorted(es, Less) && i < |es| && HasFloor(es, name)
    ensures FindLastLessOrEqual(es, name, Less) < |es|
    ensures IsFloor(es, name, i) <==> i == FindLastLessOrEqual(es, name, Less)
  {
    hide Common, Less;
    LessIsStrictTotalOrder();
    FindLastIsLast(es, name, 0);
    if AtMost(es[i].key, name) { FindLastIsLast(es, name, i); }
  }

  lemma NoFloorBelowLeastKey<V>(es: Symbols<V>, name: string)
    requires Sorted(es, Less) && !HasFloor(es, name)
    ensures forall i :: 0 <= i < |es| ==> Less(name, es[i].key) && !IsSubSymbol(es[i].key, name)
  {
    hide Common, Less, IsSubSymbol;
    forall i | 0 <= i < |es| ensures Less(name, es[i].key) && !IsSubSymbol(es[i].key, name) {
      if i > 0 { LessIsTransitive(name, es[0].key, es[i].key); }
      LessIsTotal(name, es[i].key);
      if IsSubSymbol(es[i].key, name) { SubSymbolIsAtMost(es[i].key, name); }
    }
  }

  lemma LaterChildIsSecond<V>(es: Symbols<V>, name: string, i: nat)
    requires Sorted(es, Less) && ValidKeys(es) && ValidateSymbolName(name) && HasFloor(es, name)
    requires i < |es| && IsStrictChild(es[i].key, name)
    ensures var f := FindLastLessOrEqual(es, name, Less); f + 1 < |es| && IsSubSymbol(name, es[f + 1].key) && i > f
  {
    hide Common, Less, IsSubSymbol;
    RelatedKeysAreNeighbours(es, name, i);
    SubSymbolIsAtMost(name, es[i].key);
    LessIsStrictTotalOrder();
    UpperBoundSplits(es, name, Less);
  }

  /**
   * Acceptance without the map invariant, which accepted names can break: a
   * valid name is accepted exactly if its floor is not related to it and no
   * key but the least is its child. A parent that is not the floor goes unnoticed.
   */
  lemma AddSymbolAcceptsExactly<V>(es: Symbols<V>, name: string, v: V)
    requires Sorted(es, Less) && ValidKeys(es)
    ensures AddSymbol(es, name, v).0 <==> ValidateSymbolName(name) && LetsIn(es, name)
  {
    if ValidateSymbolName(name) && es != [] {
      if HasFloor(es, name) { AcceptsAboveFloor(es, name, v); } else { AcceptsBelowAll(es, name, v); }
    }
  }

  lemma AcceptsAboveFloor<V>(es: Symbols<V>, name: string, v: V)
    requires Sorted(es, Less) && ValidKeys(es) && ValidateSymbolName(name) && es != [] && HasFloor(es, name)
    ensures AddSymbol(es, name, v).0 <==> LetsIn(es, name)
  {
    hide Common, Less, IsSubSymbol, ValidateSymbolName, Sorted, ValidKeys, IsFloor, HasFloor;
    var f := FindLastLessOrEqual(es, name, Less);
    FloorIsFound(es, name, 0);
    forall i | 0 <= i < |es| ensures IsFloor(es, name, i) <==> i == f { FloorIsFound(es, name, i); }
    forall i | 0 <= i < |es| && IsStrictChild(es[i].key, name)
      ensures f + 1 < |es| && IsSubSymbol(name, es[f + 1].key) && i > 0
    {
      LaterChildIsSecond(es, name, i);
    }
    if f + 1 < |es| && IsSubSymbol(name, es[f + 1].key) { AboveFloorDiffers(es, name, f); }
  }

  lemma AboveFloorDiffers<V>(es: Symbols<V>, name: string, f: nat)
    requires f + 1 < |es| && IsFloor(es, name, f)
    ensures es[f + 1].key != name
  {
    hide Common;
    LessIsTotal(name, name);
  }

  lemma AcceptsBelowAll<V>(es: Symbols<V>, name: string, v: V)
    requires Sorted(es, Less) && ValidKeys(es) && ValidateSymbolName(name) && !HasFloor(es, name)
    ensures AddSymbol(es, name, v).0 <==> LetsIn(es, name)
  {
    hide Common, Less, IsSubSymbol, ValidateSymbolName, Sorted, ValidKeys, HasFloor, AddSymbol;
    NoFloorBelowLeastKey(es, name);
    AddSymbolBelowLeastKey(es, name, v);
    forall i | 1 <= i < |es| && Related(es[i].key, name) ensures IsStrictChild(es[i].key, name) {
      if es[i].key == name { SelfIsSubSymbol(name); }
    }
  }

  lemma SelfIsSubSymbol(name: string)
    ensures IsSubSymbol(name, name)
  {}

  /** An accepted name is inserted in order, whatever the map held before. */
  lemma AddSymbolKeepsOrder<V>(es: Symbols<V>, name: string, v: V)
    requires Sorted(es, Less) && ValidKeys(es)
    ensures Sorted(AddSymbol(es, name, v).1, Less) && ValidKeys(AddSymbol(es, name, v).1)
    ensures AddSymbol(es, name, v).1 == if AddSymbol(es, name, v).0 then Insert(es, name, v, Less) else es
    ensures AddSymbol(es, name, v).0 ==> !Has(es, name)
  {
    hide Common, Less;
    if AddSymbol(es, name, v).0 {
      LessIsStrictTotalOrder();
      forall i | 0 <= i < |es| ensures es[i].key != name {
        if es[i].key == name { FindLastIsLast(es, name, i); }
      }
      InsertKeepsOrder(es, name, v, Less);
    }
  }

  lemma UnrelatedNameKeepsPrefixFree<V>(es: Symbols<V>, name: string, v: V)
    requires PrefixFree(es) && forall i :: 0 <= i < |es| ==> !Related(es[i].key, name)
    ensures PrefixFree(Insert(es, name, v, Less))
  {
    var at, out := UpperBound(es, name, Less), Insert(es, name, v, Less);
    forall i, j | 0 <= i < |out| && 0 <= j < |out| && i != j ensures !IsSubSymbol(out[i].key, out[j].key) {
      var i', j' := if i < at then i else i - 1, if j < at then j else j - 1;
      if i == at { assert !Related(es[j'].key, name); }
      else if j == at { assert !Related(es[i'].key, name); }
      else { assert !IsSubSymbol(es[i'].key, es[j'].key); }
    }
  }

  lemma RelatedNameBreaksPrefixFree<V>(es: Symbols<V>, name: string, v: V, i: nat)
    requires i < |es| && Related(es[i].key, name)
    ensures !PrefixFree(Insert(es, name, v, Less))
  {
    var at, out := UpperBound(es, name, Less), Insert(es, name, v, Less);
    var i' := if i < at then i else i + 1;
    assert out[i'].key == es[i].key && out[at].key == name;
    assert IsSubSymbol(out[i'].key, out[at].key) || IsSubSymbol(out[at].key, out[i'].key);
  }

  /**
   * The map invariant survives an accepted name except in one case, which is
   * the branch that skips the least key: the name sorts below every key and
   * is a parent of the least one.
   */
  lemma AddSymbolKeepsPrefixFree<V>(es: Symbols<V>, name: string, v: V)
    requires Sorted(es, Less) && ValidKeys(es) && PrefixFree(es) && AddSymbol(es, name, v).0
    ensures PrefixFree(AddSymbol(es, name, v).1) <==> HasFloor(es, name) || !IsSubSymbol(name, es[0].key)
    ensures forall i :: 0 <= i < |es| && Related(es[i].key, name) ==> i == 0 && !HasFloor(es, name)
  {
    AddSymbolKeepsOrder(es, name, v);
    if HasFloor(es, name) { AddSymbolDecidesAllKeys(es, name, v); } else { AddSymbolBelowLeastKey(es, name, v); }
    if i: nat :| i < |es| && Related(es[i].key, name) {
      RelatedNameBreaksPrefixFree(es, name, v, i);
    } else {
      UnrelatedNameKeepsPrefixFree(es, name, v);
    }
  }

  lemma AddToOneEntry<V>(key: string, old': V, name: string, v: V)
    requires ValidateSymbolName(key) && ValidateSymbolName(name)
    ensures AddSymbol([Entry(key, old')], name, v).0 <==> (Related(key, name) ==> Less(name, key))
    ensures AddSymbol([], name, v).0
  {
    hide Common, Less, IsSubSymbol, ValidateSymbolName;
    LessIsTotal(key, name);
    AddSymbolAcceptsIff([Entry(key, old')], name, v);
  }

  /**
   * The exception is real: starting from an empty map, any valid name can be
   * followed by any of its parents. Both are accepted, and the lookup of some
   * name under the parent then fails although the parent is in the map.
   */
  lemma ParentCanEnterBelowItsChild<V>(parent: string, child: string, v: V, w: V)
    requires ValidateSymbolName(parent) && ValidateSymbolName(child) && parent != child && IsSubSymbol(parent, child)
    ensures var (ok, es) := AddSymbol([], child, v);
            var (ok', es') := AddSymbol(es, parent, w);
            && ok && ok' && !PrefixFree(es')
            && FindSymbol(es', parent) == Some(w)
            && IsSubSymbol(parent, Spoiler(child)) && FindSymbol(es', Spoiler(child)) == None
  {
    hide Common, Less, ValidateSymbolName, IsSubSymbol, AddSymbol, Insert, FindSymbol;
    LessIsStrictTotalOrder();
    var es, es' := [Entry(child, v)], [Entry(parent, w), Entry(child, v)];
    SubSymbolIsAtMost(parent, child);
    AddToOneEntry(child, v, child, v);
    AddSymbolKeepsOrder([], child, v);
    assert Insert([], child, v, Less) == es by { InsertFirst(child, v); }
    AddToOneEntry(child, v, parent, w);
    AddSymbolKeepsOrder(es, parent, w);
    InsertBelow(parent, w, child, v);
    SpoilerHidesParent(es', 0, 1);
    FoundFirst(parent, w, child, v);
  }

  lemma InsertFirst<V>(k: string, v: V)
    ensures Insert([], k, v, Less) == [Entry(k, v)]
  {}

  lemma InsertBelow<V>(k: string, w: V, child: string, v: V)
    requires Less(k, child)
    ensures Insert([Entry(child, v)], k, w, Less) == [Entry(k, w), Entry(child, v)]
  {
    hide Less;
    UpperBoundIsUnique([Entry(child, v)], k, Less, 0);
  }

  lemma FoundFirst<V>(k: string, w: V, child: string, v: V)
    requires Less(k, child)
    ensures FindSymbol([Entry(k, w), Entry(child, v)], k) == Some(w)
  {
    hide Less;
    LessIsTotal(k, k);
    UpperBoundIsUnique([Entry(k, w), Entry(child, v)], k, Less, 1);
  }
}
