// EncodedDescriptorDatabase keeps the package once per file, so symbols are
// ordered by a two-part comparator instead of by their full names.
module SymbolOrder {
  import opened Names

  /** An argument of SymbolCompare: a stored symbol with its file's package, or a plain query string. */
  datatype Key = Stored(package: string, symbol: string) | Plain(text: string)

  /** The full name: StrCat(package, ".", symbol), without the dot when there is no package. */
  function AsString(k: Key): string {
    match k
    case Stored(package, symbol) => if package == "" then symbol else package + "." + symbol
    case Plain(text) => text
  }

  function GetParts(k: Key): (string, string) {
    match k
    case Stored(package, symbol) => if package == "" then (symbol, "") else (package, symbol)
    case Plain(text) => (text, "")
  }

  /** StringPiece::substr(0, n), which stops at the end of the text. */
  function Head(s: string, n: nat): string {
    if n <= |s| then s[..n] else s
  }

  predicate SymbolCompare(lhs: Key, rhs: Key) {
    var (lhsFirst, lhsSecond) := GetParts(lhs);
    var (rhsFirst, rhsSecond) := GetParts(rhs);
    var l, r := Head(lhsFirst, |rhsFirst|), Head(rhsFirst, |lhsFirst|);
    if l != r then Less(l, r)
    else if |lhsFirst| == |rhsFirst| then Less(lhsSecond, rhsSecond)
    else Less(AsString(lhs), AsString(rhs))
  }

  /** A one-part argument. */
  predicate Bare(k: Key) {
    k.Plain? || k.package == ""
  }

  /**
   * The fast path compares two empty second parts: the left full name is the
   * right package, and the right symbol is empty.
   */
  predicate Collides(lhs: Key, rhs: Key) {
    Bare(lhs) && !Bare(rhs) && rhs.symbol == "" && AsString(lhs) == rhs.package
  }

  lemma LessByHeads(a: string, b: string)
    requires Head(a, |b|) != Head(b, |a|)
    ensures Less(a, b) <==> Less(Head(a, |b|), Head(b, |a|))
    ensures Common(a, b) < |a| && Common(a, b) < |b|
  {
    var h, g := Head(a, |b|), Head(b, |a|);
    var n := Common(h, g);
    assert h[..|h|] == h && g[..|g|] == g;
    assert a[..n] == h[..n] == g[..n] == b[..n];
    CommonIsUnique(a, b, n);
  }

  /** Text after the first difference does not matter. */
  lemma LessIgnoresTails(a: string, b: string, x: string, y: string)
    requires Common(a, b) < |a| && Common(a, b) < |b|
    ensures Less(a + x, b + y) <==> Less(a, b)
  {
    var n := Common(a, b);
    assert (a + x)[..n] == a[..n] && (b + y)[..n] == b[..n];
    CommonIsUnique(a + x, b + y, n);
  }

  lemma LessIgnoresHead(p: string, x: string, y: string)
    ensures Less(p + x, p + y) <==> Less(x, y)
  {
    var n := Common(x, y);
    assert (p + x)[..|p| + n] == p + x[..n];
    assert (p + y)[..|p| + n] == p + y[..n];
    CommonIsUnique(p + x, p + y, |p| + n);
  }

  /** The rest of the full name after the first part. */
  function Rest(k: Key): string {
    if Bare(k) then "" else "." + GetParts(k).1
  }

  lemma AsStringIsFirstAndRest(k: Key)
    ensures AsString(k) == GetParts(k).0 + Rest(k)
  {}

  /** When the first parts agree the order is that of the rests. */
  lemma SameFirstPart(lhs: Key, rhs: Key)
    requires GetParts(lhs).0 == GetParts(rhs).0
    ensures Less(AsString(lhs), AsString(rhs)) <==> Less(Rest(lhs), Rest(rhs))
    ensures Less(Rest(lhs), Rest(rhs)) <==>
            !Bare(rhs) && (Bare(lhs) || Less(GetParts(lhs).1, GetParts(rhs).1))
  {
    AsStringIsFirstAndRest(lhs);
    AsStringIsFirstAndRest(rhs);
    LessIgnoresHead(GetParts(lhs).0, Rest(lhs), Rest(rhs));
    if !Bare(lhs) && !Bare(rhs) {
      LessIgnoresHead(".", GetParts(lhs).1, GetParts(rhs).1);
    } else {
      LessIsTotal("", "");
      EmptyIsLeast(Rest(lhs));
      EmptyIsLeast(Rest(rhs));
    }
  }

  lemma EmptyIsLeast(s: string)
    ensures !Less(s, "") && (Less("", s) <==> s != "")
  {
    if s != "" { PrefixIsLess("", s); }
  }

  lemma DifferentHeads(lhs: Key, rhs: Key)
    requires Head(GetParts(lhs).0, |GetParts(rhs).0|) != Head(GetParts(rhs).0, |GetParts(lhs).0|)
    ensures SymbolCompare(lhs, rhs) <==> Less(AsString(lhs), AsString(rhs))
    ensures GetParts(lhs).0 != GetParts(rhs).0
  {
    hide Less, AsString;
    var a, b := GetParts(lhs).0, GetParts(rhs).0;
    AsStringIsFirstAndRest(lhs);
    AsStringIsFirstAndRest(rhs);
    LessByHeads(a, b);
    LessIgnoresTails(a, b, Rest(lhs), Rest(rhs));
  }

  /**
   * The two-part comparator, with its fast path and with entries and strings
   * mixed, is the lexicographic order on full names; it differs from it on
   * exactly one kind of pair.
   */
  lemma SymbolCompareIsLess(lhs: Key, rhs: Key)
    ensures SymbolCompare(lhs, rhs) == Less(AsString(lhs), AsString(rhs)) <==> !Collides(lhs, rhs)
  {
    hide Less, Common;
    var (a, x) := GetParts(lhs);
    var (b, y) := GetParts(rhs);
    if Head(a, |b|) != Head(b, |a|) {
      DifferentHeads(lhs, rhs);
    } else if |a| == |b| {
      SameFirstPart(lhs, rhs);
      EmptyIsLeast(x);
      EmptyIsLeast(y);
    }
  }

  /** So two different names are equivalent to the comparator exactly if they collide. */
  lemma EquivalentIffCollides(a: Key, b: Key)
    requires AsString(a) != AsString(b)
    ensures !SymbolCompare(a, b) && !SymbolCompare(b, a) <==> Collides(a, b) || Collides(b, a)
  {
    hide Less, Common, AsString, SymbolCompare;
    LessIsTotal(AsString(a), AsString(b));
    SymbolCompareIsLess(a, b);
    SymbolCompareIsLess(b, a);
    if Collides(a, b) { CollidingAreEquivalent(a, b); }
    if Collides(b, a) { CollidingAreEquivalent(b, a); }
  }

  lemma CollidingAreEquivalent(a: Key, b: Key)
    requires Collides(a, b)
    ensures !SymbolCompare(a, b) && !SymbolCompare(b, a)
  {
    LessIsTotal("", "");
  }

  /** With non-empty symbols the comparator is the order on full names, for every mix of arguments. */
  lemma SymbolCompareIsLessOnNames(lhs: Key, rhs: Key)
    requires rhs.Stored? ==> rhs.symbol != ""
    ensures SymbolCompare(lhs, rhs) <==> Less(AsString(lhs), AsString(rhs))
  {
    SymbolCompareIsLess(lhs, rhs);
  }
}
