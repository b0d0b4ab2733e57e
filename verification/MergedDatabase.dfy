// MergedDescriptorDatabase: several databases searched in order, where a file
// of an earlier source hides a file of the same name in a later one.
module MergedDatabase {
  import opened Options
  import opened Descriptors
  import opened SimpleRuns
  import SimpleIndex
  import EncodedIndex
  import EncodedRefinement
  import EncodedRuns

  /** Any database: simple, encoded, or itself merged from others. */
  datatype Source =
    | Simple(index: SimpleIndex.Index<File>)
    | Encoded(encoded: EncodedIndex.Index<File>)
    | Merged(sources: seq<Source>)

  function FindFileByName(source: Source, name: string): Option<File> {
    match source
    case Simple(ix) => SimpleIndex.FindFile(ix, name)
    case Encoded(ix) => EncodedIndex.FindFile(ix, name)
    case Merged(sources) => FirstFile(sources, name)
  }

  function FirstFile(sources: seq<Source>, name: string): Option<File> {
    if sources == [] then None
    else match FindFileByName(sources[0], name)
      case Some(f) => Some(f)
      case None => FirstFile(sources[1..], name)
  }

  /** A symbol, or an extension by containing type and field number. */
  datatype Query = SymbolQuery(name: string) | ExtensionQuery(containingType: string, number: int)

  /** FindFileContainingSymbol and FindFileContainingExtension. */
  function FindFileContaining(source: Source, q: Query): Option<File> {
    match source
    case Simple(ix) =>
      (match q
       case SymbolQuery(name) => SimpleIndex.FindSymbol(ix.bySymbol, name)
       case ExtensionQuery(t, n) => SimpleIndex.FindExtension(ix.byExtension, t, n))
    case Encoded(ix) =>
      (match q
       case SymbolQuery(name) => EncodedIndex.FindSymbol(ix, name)
       case ExtensionQuery(t, n) => EncodedIndex.FindExtension(ix, t, n))
    case Merged(sources) => FirstContaining(sources, [], q)
  }

  /** The search goes through `sources`; `previous` have been asked and do not have it. */
  function FirstContaining(sources: seq<Source>, previous: seq<Source>, q: Query): Option<File>
    decreases sources
  {
    if sources == [] then None
    else match FindFileContaining(sources[0], q)
      case None => FirstContaining(sources[1..], previous + [sources[0]], q)
      case Some(f) => if FirstFile(previous, f.name) != None then None else Some(f)
  }

  /** A set of numbers in the order std::set iterates it. */
  function InsertNumber(ns: seq<int>, n: int): seq<int> {
    if ns == [] || n < ns[0] then [n] + ns
    else if n == ns[0] then ns
    else [ns[0]] + InsertNumber(ns[1..], n)
  }

  function InsertNumbers(ns: seq<int>, more: seq<int>): seq<int>
    decreases |more|
  {
    if more == [] then ns else InsertNumbers(InsertNumber(ns, more[0]), more[1..])
  }

  function FindAllExtensionNumbers(source: Source, t: string): seq<int> {
    match source
    case Simple(ix) => SimpleIndex.FindAllExtensionNumbers(ix.byExtension, t)
    case Encoded(ix) => EncodedIndex.FindAllExtensionNumbers(ix, t)
    case Merged(sources) => MergedNumbers(sources, t)
  }

  function MergedNumbers(sources: seq<Source>, t: string): seq<int> {
    if sources == [] then []
    else InsertNumbers(MergedNumbers(sources[..|sources| - 1], t), FindAllExtensionNumbers(sources[|sources| - 1], t))
  }

  // --------------------------------------------------------- the layered search

  /** Source i has the file, and no earlier one has a file of that name. */
  predicate HasFirst(sources: seq<Source>, name: string, f: File, i: nat) {
    && i < |sources| && FindFileByName(sources[i], name) == Some(f)
    && forall j :: 0 <= j < i ==> FindFileByName(sources[j], name) == None
  }

  lemma {:induction false} NoFileIff(sources: seq<Source>, name: string)
    ensures FirstFile(sources, name) == None <==>
              forall i :: 0 <= i < |sources| ==> FindFileByName(sources[i], name) == None
    decreases |sources|
  {
    if sources != [] {
      NoFileIff(sources[1..], name);
      assert forall i :: 0 < i < |sources| ==> sources[i] == sources[1..][i - 1];
    }
  }

  lemma {:induction false} FirstFileIff(sources: seq<Source>, name: string, f: File)
    ensures FirstFile(sources, name) == Some(f) <==> exists i: nat :: HasFirst(sources, name, f, i)
    decreases |sources|
  {
    if sources != [] {
      var more := sources[1..];
      assert forall i :: 0 < i < |sources| ==> sources[i] == more[i - 1];
      FirstFileIff(more, name, f);
      if FindFileByName(sources[0], name) == None {
        if i: nat :| HasFirst(more, name, f, i) {
          assert sources[i + 1] == more[i];
          assert HasFirst(sources, name, f, i + 1);
        }
        if i: nat :| HasFirst(sources, name, f, i) { assert HasFirst(more, name, f, i - 1); }
      } else if FindFileByName(sources[0], name) == Some(f) {
        assert HasFirst(sources, name, f, 0);
      }
    }
  }

  /** A merged database has a file exactly if some source has it and no earlier one has a file of its name. */
  lemma MergedFileIff(sources: seq<Source>, name: string, f: File)
    ensures FindFileByName(Merged(sources), name) == Some(f) <==>
              exists i :: 0 <= i < |sources| && FindFileByName(sources[i], name) == Some(f)
                          && forall j :: 0 <= j < i ==> FindFileByName(sources[j], name) == None
  {
    FirstFileIff(sources, name, f);
    if i :| 0 <= i < |sources| && FindFileByName(sources[i], name) == Some(f)
            && forall j :: 0 <= j < i ==> FindFileByName(sources[j], name) == None {
      assert HasFirst(sources, name, f, i);
    }
  }

  /** Source i is the first that answers, and no earlier one hides its answer. */
  predicate DecidesAt(sources: seq<Source>, q: Query, f: File, i: nat) {
    && i < |sources| && FindFileContaining(sources[i], q) == Some(f)
    && forall j :: 0 <= j < i ==>
         FindFileContaining(sources[j], q) == None && FindFileByName(sources[j], f.name) == None
  }

  lemma {:induction false} SearchFrom(sources: seq<Source>, q: Query, f: File, k: nat)
    requires k <= |sources| && forall j :: 0 <= j < k ==> FindFileContaining(sources[j], q) == None
    ensures FirstContaining(sources[k..], sources[..k], q) == Some(f) <==> exists i: nat :: DecidesAt(sources, q, f, i)
    decreases |sources| - k
  {
    hide FindFileByName, FindFileContaining;
    if k < |sources| {
      var rest := sources[k..];
      assert rest[0] == sources[k] && rest[1..] == sources[k + 1..] && sources[..k] + [rest[0]] == sources[..k + 1];
      match FindFileContaining(sources[k], q)
      case None => SearchFrom(sources, q, f, k + 1);
      case Some(g) =>
        NoFileIff(sources[..k], g.name);
        if g == f && FirstFile(sources[..k], f.name) == None {
          assert forall j :: 0 <= j < k ==> sources[..k][j] == sources[j];
          assert DecidesAt(sources, q, f, k);
        }
        if i: nat :| DecidesAt(sources, q, f, i) { assert i == k; }
    }
  }

  /**
   * A merged database answers a query with a file exactly if some source
   * does, no earlier source answers the query, and none has a file of that name.
   */
  lemma MergedSearchIff(sources: seq<Source>, q: Query, f: File)
    ensures FindFileContaining(Merged(sources), q) == Some(f) <==>
              exists i :: 0 <= i < |sources| && FindFileContaining(sources[i], q) == Some(f)
                          && forall j :: 0 <= j < i ==> FindFileContaining(sources[j], q) == None
                                                        && FindFileByName(sources[j], f.name) == None
  {
    assert sources[0..] == sources && sources[..0] == [];
    SearchFrom(sources, q, f, 0);
    if i :| 0 <= i < |sources| && FindFileContaining(sources[i], q) == Some(f)
            && forall j :: 0 <= j < i ==> FindFileContaining(sources[j], q) == None
                                          && FindFileByName(sources[j], f.name) == None {
      assert DecidesAt(sources, q, f, i);
    }
  }

  // ---------------------------------------------------------------- coherence

  /** What an answer must satisfy for the answers about one source to fit together. */
  ghost predicate FitsTogether(source: Source) {
    && (forall q, f :: FindFileContaining(source, q) == Some(f) ==> FindFileByName(source, f.name) == Some(f))
    && (forall n, f :: FindFileByName(source, n) == Some(f) ==> f.name == n)
  }

  /**
   * A database that calls of Add and lookups can produce: any run of a simple
   * database; any run of an encoded one in which no Add takes over a merged
   * name, which includes every run whose Adds are accepted; or a merge of
   * such. Adds refused at once or half-way are part of these runs.
   */
  ghost predicate Reachable(source: Source) {
    match source
    case Simple(ix) => exists files :: ix == SimpleIndex.Run(SimpleIndex.Empty(), Adds(files))
    case Encoded(ix) => exists calls :: EncodedRun(calls, ix)
    case Merged(sources) => forall s :: s in sources ==> Reachable(s)
  }

  ghost predicate EncodedRun(calls: seq<EncodedRefinement.Call<File>>, ix: EncodedIndex.Index<File>) {
    && EncodedRuns.NothingTakenOver(calls, EncodedIndex.Empty())
    && ix == EncodedRuns.Run(calls, EncodedIndex.Empty())
  }

  lemma AcceptedRunIsReachable(calls: seq<EncodedRefinement.Call<File>>)
    requires EncodedRuns.AllAccepted(calls, EncodedIndex.Empty())
    ensures Reachable(Encoded(EncodedRuns.Run(calls, EncodedIndex.Empty())))
  {
    EncodedRuns.AcceptedTakesNothingOver(calls, EncodedIndex.Empty());
    assert EncodedRun(calls, EncodedRuns.Run(calls, EncodedIndex.Empty()));
  }

  lemma SimpleFitsTogether(ix: SimpleIndex.Index<File>)
    requires SimpleIndex.Wf(ix) && Coherent(ix)
    ensures FitsTogether(Simple(ix))
  {
    forall q, f | FindFileContaining(Simple(ix), q) == Some(f) ensures FindFileByName(Simple(ix), f.name) == Some(f) {
      assert (exists e :: e in ix.bySymbol && e.value == f) || (exists e :: e in ix.byExtension && e.value == f);
    }
  }

  lemma EncodedFitsTogether(ix: EncodedIndex.Index<File>, calls: seq<EncodedRefinement.Call<File>>)
    requires EncodedRun(calls, ix)
    ensures FitsTogether(Encoded(ix))
  {
    hide EncodedIndex.FindFile, EncodedIndex.FindSymbol, EncodedIndex.FindExtension;
    EncodedRuns.RunAnswersFit(calls);
    forall q, f | FindFileContaining(Encoded(ix), q) == Some(f) ensures FindFileByName(Encoded(ix), f.name) == Some(f) {
      match q
      case SymbolQuery(name) => assert EncodedIndex.FindSymbol(ix, name) == Some(f);
      case ExtensionQuery(t, n) => assert EncodedIndex.FindExtension(ix, t, n) == Some(f);
    }
  }

  lemma {:induction false} FirstFileOfTwo(a: seq<Source>, b: seq<Source>, n: string)
    ensures FirstFile(a + b, n) == if FirstFile(a, n) != None then FirstFile(a, n) else FirstFile(b, n)
    decreases |a|
  {
    if a == [] {
      assert a + b == b;
    } else {
      assert (a + b)[1..] == a[1..] + b;
      FirstFileOfTwo(a[1..], b, n);
    }
  }

  /** What the layered search finds is what the layered lookup by name finds. */
  lemma {:induction false} FirstContainingFits(sources: seq<Source>, previous: seq<Source>, q: Query, f: File)
    requires forall s :: s in sources ==> FitsTogether(s)
    requires FirstContaining(sources, previous, q) == Some(f)
    ensures FirstFile(previous + sources, f.name) == Some(f)
    decreases |sources|
  {
    FirstFileOfTwo(previous, sources, f.name);
    assert sources[0] in sources;
    if FindFileContaining(sources[0], q) == None {
      FirstContainingFits(sources[1..], previous + [sources[0]], q, f);
      assert previous + [sources[0]] + sources[1..] == previous + sources;
    }
  }

  lemma {:induction false} FirstFileIsNamed(sources: seq<Source>, n: string)
    requires forall s :: s in sources ==> FitsTogether(s)
    ensures FirstFile(sources, n) != None ==> FirstFile(sources, n).value.name == n
    decreases |sources|
  {
    if sources != [] {
      assert sources[0] in sources;
      FirstFileIsNamed(sources[1..], n);
    }
  }

  /**
   * Layered coherence: whenever any database, merged to any depth, finds a
   * symbol or extension in a file f, it finds that same file under f's name.
   */
  lemma {:induction false} EveryDatabaseFitsTogether(source: Source)
    requires Reachable(source)
    ensures FitsTogether(source)
    decreases source
  {
    match source
    case Simple(ix) =>
      var files :| ix == SimpleIndex.Run(SimpleIndex.Empty(), Adds(files));
      RunIsCoherent(SimpleIndex.Empty(), files);
      RunKeepsAnswers(SimpleIndex.Empty(), Adds(files));
      SimpleFitsTogether(ix);
    case Encoded(ix) =>
      var calls :| EncodedRun(calls, ix);
      EncodedFitsTogether(ix, calls);
    case Merged(sources) =>
      forall s | s in sources ensures FitsTogether(s) { EveryDatabaseFitsTogether(s); }
      forall q, f | FirstContaining(sources, [], q) == Some(f) ensures FirstFile(sources, f.name) == Some(f) {
        FirstContainingFits(sources, [], q, f);
        assert [] + sources == sources;
      }
      forall n ensures FindFileByName(source, n) != None ==> FindFileByName(source, n).value.name == n {
        FirstFileIsNamed(sources, n);
      }
  }

  // -------------------------------------------------------- extension numbers

  lemma HeadBelowAscending(h: int, rest: seq<int>)
    requires Ascending(rest) && forall m :: m in rest ==> h < m
    ensures Ascending([h] + rest)
  {
    forall i, j | 0 <= i < j < |[h] + rest| ensures ([h] + rest)[i] < ([h] + rest)[j] {
      assert ([h] + rest)[j] == rest[j - 1];
      if i > 0 { assert ([h] + rest)[i] == rest[i - 1]; } else { assert rest[j - 1] in rest; }
    }
  }

  lemma HeadOrRest(h: int, rest: seq<int>, m: int)
    ensures m in [h] + rest <==> m == h || m in rest
  {}

  lemma AscendingTail(ns: seq<int>)
    requires ns != [] && Ascending(ns)
    ensures Ascending(ns[1..]) && forall m :: m in ns[1..] ==> ns[0] < m
  {}

  lemma {:induction false} InsertNumberIsSet(ns: seq<int>, n: int)
    requires Ascending(ns)
    ensures Ascending(InsertNumber(ns, n))
    ensures forall m :: m in InsertNumber(ns, n) <==> m == n || m in ns
    decreases |ns|, 1
  {
    hide Ascending;
    if ns == [] || n < ns[0] {
      forall m | m in ns ensures n < m { if ns != [] { AscendingTail(ns); HeadOrRest(ns[0], ns[1..], m); } }
      HeadBelowAscending(n, ns);
      forall m ensures m in [n] + ns <==> m == n || m in ns { HeadOrRest(n, ns, m); }
    } else if n == ns[0] {
      assert n in ns;
    } else {
      InsertAboveHead(ns, n);
    }
  }

  lemma {:induction false} InsertAboveHead(ns: seq<int>, n: int)
    requires ns != [] && Ascending(ns) && ns[0] < n
    ensures Ascending(InsertNumber(ns, n))
    ensures forall m :: m in InsertNumber(ns, n) <==> m == n || m in ns
    decreases |ns|, 0
  {
    hide Ascending;
    var rest := InsertNumber(ns[1..], n);
    AscendingTail(ns);
    InsertNumberIsSet(ns[1..], n);
    HeadBelowAscending(ns[0], rest);
    assert ns == [ns[0]] + ns[1..];
    forall m ensures m in [ns[0]] + rest <==> m == n || m in ns {
      HeadOrRest(ns[0], rest, m);
      HeadOrRest(ns[0], ns[1..], m);
    }
  }

  lemma {:induction false} InsertNumbersIsUnion(ns: seq<int>, more: seq<int>)
    requires Ascending(ns)
    ensures Ascending(InsertNumbers(ns, more))
    ensures forall m :: m in InsertNumbers(ns, more) <==> m in ns || m in more
    decreases |more|
  {
    if more != [] {
      InsertNumberIsSet(ns, more[0]);
      InsertNumbersIsUnion(InsertNumber(ns, more[0]), more[1..]);
      assert more == [more[0]] + more[1..];
    }
  }

  /** The merged numbers are the union of the sources' numbers, in strictly ascending order. */
  lemma {:induction false} MergedNumbersAreUnion(sources: seq<Source>, t: string)
    ensures Ascending(MergedNumbers(sources, t))
    ensures forall n :: n in MergedNumbers(sources, t) <==>
              exists s :: s in sources && n in FindAllExtensionNumbers(s, t)
    decreases |sources|
  {
    if sources != [] {
      var front, last := sources[..|sources| - 1], sources[|sources| - 1];
      MergedNumbersAreUnion(front, t);
      InsertNumbersIsUnion(MergedNumbers(front, t), FindAllExtensionNumbers(last, t));
      forall n
        ensures n in MergedNumbers(sources, t) <==> exists s :: s in sources && n in FindAllExtensionNumbers(s, t)
      {
        InAnySource(front, last, n, t);
      }
      assert sources == front + [last];
    }
  }

  lemma InAnySource(front: seq<Source>, last: Source, n: int, t: string)
    ensures (exists s :: s in front + [last] && n in FindAllExtensionNumbers(s, t))
       <==> (exists s :: s in front && n in FindAllExtensionNumbers(s, t)) || n in FindAllExtensionNumbers(last, t)
  {
    assert last in front + [last];
  }

  lemma AnySourceHasNumbers(front: seq<Source>, last: Source, t: string)
    ensures (exists s :: s in front + [last] && FindAllExtensionNumbers(s, t) != [])
       <==> (exists s :: s in front && FindAllExtensionNumbers(s, t) != []) || FindAllExtensionNumbers(last, t) != []
  {
    assert last in front + [last];
  }

  // ------------------------------------------------------------------- object

  class MergedDescriptorDatabase {
    const sources: seq<Source>

    constructor (sources: seq<Source>)
      ensures this.sources == sources
    {
      this.sources := sources;
    }

    method FindFile(name: string) returns (file: Option<File>)
      ensures file == FindFileByName(Merged(sources), name)
    {
      for i := 0 to |sources|
        invariant FirstFile(sources, name) == FirstFile(sources[i..], name)
      {
        file := FindFileByName(sources[i], name);
        if file != None { return; }
      }
      file := None;
    }

    method FindContaining(q: Query) returns (file: Option<File>)
      ensures file == FindFileContaining(Merged(sources), q)
    {
      for i := 0 to |sources|
        invariant FirstContaining(sources, [], q) == FirstContaining(sources[i..], sources[..i], q)
      {
        file := FindFileContaining(sources[i], q);
        assert sources[i..][1..] == sources[i + 1..] && sources[..i] + [sources[i..][0]] == sources[..i + 1];
        if file != None {
          for j := 0 to i
            invariant FirstFile(sources[..i], file.value.name) == FirstFile(sources[..i][j..], file.value.name)
          {
            assert sources[..i][j..][1..] == sources[..i][j + 1..];
            if FindFileByName(sources[j], file.value.name) != None { return None; }
          }
          return;
        }
      }
      file := None;
    }

    /** True iff any source has numbers for the type; they are appended to output. */
    method FindAllNumbers(t: string, output: seq<int>) returns (success: bool, output': seq<int>)
      ensures output' == output + FindAllExtensionNumbers(Merged(sources), t)
      ensures success <==> exists s :: s in sources && FindAllExtensionNumbers(s, t) != []
    {
      var mergedResults: seq<int> := [];
      success := false;
      for i := 0 to |sources|
        invariant mergedResults == MergedNumbers(sources[..i], t)
        invariant success <==> exists s :: s in sources[..i] && FindAllExtensionNumbers(s, t) != []
      {
        var results := FindAllExtensionNumbers(sources[i], t);
        assert sources[..i + 1] == sources[..i] + [sources[i]];
        AnySourceHasNumbers(sources[..i], sources[i], t);
        if results != [] {
          mergedResults := InsertNumbers(mergedResults, results);
          success := true;
        }
      }
      assert sources[..|sources|] == sources;
      output' := output + mergedResults;
    }
  }
}
