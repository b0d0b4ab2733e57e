// Dotted symbol names: the byte-wise order used by std::map and StringPiece,
// and the parent relation that the descriptor index is built around.
module Names {

  /** Length of the longest common prefix. */
  function Common(a: string, b: string): (n: nat)
    ensures n <= |a| && n <= |b|
    ensures a[..n] == b[..n]
    ensures n < |a| && n < |b| ==> a[n] != b[n]
  {
    if a == "" || b == "" || a[0] != b[0] then 0
    else
      var n := 1 + Common(a[1..], b[1..]);
      assert a[..n] == [a[0]] + a[1..][..n - 1];
      assert b[..n] == [b[0]] + b[1..][..n - 1];
      n
  }

  /** Lexicographic order on bytes: the operator< of std::string and StringPiece. */
  predicate Less(a: string, b: string) {
    var n := Common(a, b);
    n < |b| && (n == |a| || a[n] < b[n])
  }

  predicate AtMost(a: string, b: string) {
    !Less(b, a)
  }

  /** True if the names are equal or `parent` is a dotted parent of `child`. */
  predicate IsSubSymbol(parent: string, child: string) {
    parent == child || (parent < child && child[|parent|] == '.')
  }

  predicate Related(a: string, b: string) {
    IsSubSymbol(a, b) || IsSubSymbol(b, a)
  }

  predicate ValidChar(c: char) {
    c == '.' || c == '_' || '0' <= c <= '9' || 'A' <= c <= 'Z' || 'a' <= c <= 'z'
  }

  /** True if every character is alphanumeric, an underscore or a period. */
  predicate ValidateSymbolName(name: string) {
    forall i :: 0 <= i < |name| ==> ValidChar(name[i])
  }

  /** The common prefix is the only cut after which two strings part. */
  lemma CommonIsUnique(a: string, b: string, n: nat)
    requires n <= |a| && n <= |b| && a[..n] == b[..n]
    requires n < |a| && n < |b| ==> a[n] != b[n]
    ensures Common(a, b) == n
  {
    var c := Common(a, b);
    assert forall i :: 0 <= i < n ==> a[..n][i] == b[..n][i];
    assert forall i :: 0 <= i < c ==> a[..c][i] == b[..c][i];
  }

  lemma CommonIsSymmetric(a: string, b: string)
    ensures Common(a, b) == Common(b, a)
  {
    CommonIsUnique(b, a, Common(a, b));
  }

  lemma LessIsTotal(a: string, b: string)
    ensures a == b <==> !Less(a, b) && !Less(b, a)
    ensures !(Less(a, b) && Less(b, a))
  {
    CommonIsSymmetric(a, b);
    var n := Common(a, b);
    assert a[..|a|] == a && b[..|b|] == b;
  }

  lemma LessIsTransitive(a: string, b: string, c: string)
    requires Less(a, b) && Less(b, c)
    ensures Less(a, c)
  {
    var m, n := Common(a, b), Common(b, c);
    var k := if m < n then m else n;
    assert a[..k] == a[..m][..k] == b[..m][..k] == b[..k] == b[..n][..k] == c[..n][..k] == c[..k];
    if m < n { assert b[..n][m] == c[..n][m]; }
    if n < m { assert a[..m][n] == b[..m][n]; }
    CommonIsUnique(a, c, k);
  }

  lemma LessMixed(a: string, b: string, c: string)
    ensures Less(a, b) && AtMost(b, c) ==> Less(a, c)
    ensures AtMost(a, b) && Less(b, c) ==> Less(a, c)
    ensures AtMost(a, b) && AtMost(b, c) ==> AtMost(a, c)
  {
    LessIsTotal(a, b);
    LessIsTotal(b, c);
    LessIsTotal(a, c);
    if Less(a, b) && Less(b, c) { LessIsTransitive(a, b, c); }
  }

  /** A proper prefix sorts first. */
  lemma PrefixIsLess(a: string, b: string)
    requires a < b
    ensures Less(a, b)
  {
    assert a[..|a|] == b[..|a|];
    CommonIsUnique(a, b, |a|);
  }

  lemma SubSymbolIsAtMost(parent: string, child: string)
    requires IsSubSymbol(parent, child)
    ensures AtMost(parent, child)
    ensures parent != child ==> Less(parent, child)
  {
    LessIsTotal(parent, child);
    if parent != child { PrefixIsLess(parent, child); }
  }

  /**
   * Steps 5 to 7 of the informal proof: any valid name that sorts between a
   * parent and one of its children is itself a child of that parent, because
   * '.' sorts before every other valid character.
   */
  lemma BetweenParentAndChild(parent: string, found: string, child: string)
    requires IsSubSymbol(parent, child)
    requires AtMost(parent, found) && AtMost(found, child)
    requires ValidateSymbolName(found)
    ensures IsSubSymbol(parent, found)
  {
    LessIsTotal(parent, found);
    if parent != found {
      LessMixed(parent, found, child);
      assert parent < child;
      var n := Common(parent, found);
      CommonIsSymmetric(found, child);
      LessIsTotal(found, child);
      var m := Common(found, child);
      if n < |parent| {
        assert child[..n] == parent[..n];
        CommonIsUnique(found, child, n);
      }
      assert n == |parent|;
      assert found[..n] == child[..n];
      if found != child && found[n] != '.' {
        CommonIsUnique(found, child, n);
      }
    }
  }

  // ------------------------------------------------------ what the tests mean

  /** A name is at or below a parent exactly if it is the parent, or the parent, a dot and more. */
  lemma SubSymbolIsDotted(parent: string, child: string)
    ensures IsSubSymbol(parent, child) <==> child == parent || exists rest :: child == parent + "." + rest
  {
    if parent < child && child[|parent|] == '.' {
      assert child == parent + "." + child[|parent| + 1..];
    }
  }

  /** A string sorts first where the two part: it ends there, or has the smaller character. */
  lemma LessIsLexicographic(a: string, b: string)
    ensures Less(a, b) <==>
              exists n :: 0 <= n <= |a| && n < |b| && a[..n] == b[..n] && (n == |a| || a[n] < b[n])
  {
    var c := Common(a, b);
    if n :| 0 <= n <= |a| && n < |b| && a[..n] == b[..n] && (n == |a| || a[n] < b[n]) { CommonIsUnique(a, b, n); }
    if Less(a, b) { assert a[..c] == b[..c]; }
  }

  const DIGITS := "0123456789"
  const UPPER := "ABCDEFGHIJKLMNOPQRSTUVWXYZ"
  const LOWER := "abcdefghijklmnopqrstuvwxyz"

  lemma Digits(c: char)
    ensures '0' <= c <= '9' <==> c in DIGITS
  {
    if '0' <= c <= '9' { assert DIGITS[c as int - '0' as int] == c; }
  }

  lemma Upper(c: char)
    ensures 'A' <= c <= 'Z' <==> c in UPPER
  {
    if 'A' <= c <= 'Z' { assert UPPER[c as int - 'A' as int] == c; }
  }

  lemma Lower(c: char)
    ensures 'a' <= c <= 'z' <==> c in LOWER
  {
    if 'a' <= c <= 'z' { assert LOWER[c as int - 'a' as int] == c; }
  }

  /** A name is valid exactly if it is spelled with letters, digits, underscores and periods. */
  lemma ValidNamesAreSpelled(name: string)
    ensures ValidateSymbolName(name) <==>
              forall c :: c in name ==> c == '.' || c == '_' || c in DIGITS || c in UPPER || c in LOWER
  {
    forall i | 0 <= i < |name|
      ensures ValidChar(name[i]) <==>
                name[i] == '.' || name[i] == '_' || name[i] in DIGITS || name[i] in UPPER || name[i] in LOWER
    {
      Digits(name[i]);
      Upper(name[i]);
      Lower(name[i]);
    }
    hide ValidChar, DIGITS, UPPER, LOWER;
  }
}
