// What every interleaving keeps: lists are well linked, only grow, and hold one
// serial arena a thread; caches that match an id point into its arena's list.
module ArenaSafety {
  import opened Options
  import opened ArenaSteps
  import LifecycleIds

  function At(chain: seq<Addr>, i: nat): Option<Addr> {
    if i < |chain| then Some(chain[i]) else None
  }

  function Owner(s: State, n: Addr): nat {
    NodeAt(s, n).owner
  }

  /** The pointers from head on visit exactly the chain. */
  ghost predicate Linked(s: State, ar: Arena) {
    && ar.head == At(ar.chain, 0)
    && forall i :: 0 <= i < |ar.chain| ==> ar.chain[i] in s.heap && s.heap[ar.chain[i]].next == At(ar.chain, i + 1)
  }

  /** At most one serial arena a thread; so the list has no cycle either. */
  ghost predicate OwnersDiffer(s: State, chain: seq<Addr>) {
    forall i, j :: 0 <= i < j < |chain| ==> Owner(s, chain[i]) != Owner(s, chain[j])
  }

  ghost predicate ArenaOk(s: State, ar: Arena) {
    && Linked(s, ar) && OwnersDiffer(s, ar.chain)
    && (ar.hint.Some? ==> ar.hint.value in ar.chain)
  }

  ghost predicate ArenasOk(s: State) {
    forall a :: a in s.arenas ==> ArenaOk(s, s.arenas[a])
  }

  ghost predicate Separate(s: State) {
    forall a, b, n :: a in s.arenas && b in s.arenas && a != b && n in s.arenas[a].chain ==> n !in s.arenas[b].chain
  }

  ghost predicate IdsOk(s: State) {
    && LifecycleIds.Inv(s.ids)
    && (forall a :: a in s.arenas ==> Id(s.arenas[a]) in LifecycleIds.HandedOut(s.ids))
    && (forall a, b :: a in s.arenas && b in s.arenas && a != b ==> Id(s.arenas[a]) != Id(s.arenas[b]))
  }

  /** In the list, and the thread's own. */
  ghost predicate Mine(s: State, a: nat, n: Addr, t: nat)
    requires a in s.arenas
  {
    n in s.arenas[a].chain && Owner(s, n) == t
  }

  ghost predicate CacheOk(s: State, t: nat) {
    && (CacheOf(s, t).seen == SENTINEL || CacheOf(s, t).seen in LifecycleIds.HandedOut(s.ids))
    && forall a :: a in s.arenas && CacheOf(s, t).seen == Id(s.arenas[a]) ==>
         CacheOf(s, t).serial.Some? && Mine(s, a, CacheOf(s, t).serial.value, t)
  }

  ghost predicate NoneOwned(s: State, chain: seq<Addr>, t: nat) {
    forall i :: 0 <= i < |chain| ==> Owner(s, chain[i]) != t
  }

  /** A node that a thread has made and not yet published. */
  function Private(pc: Pc): Option<Addr> {
    match pc
    case LoadAgain(_, n) => Some(n)
    case SetNext(_, n, _) => Some(n)
    case Cas(_, n, _) => Some(n)
    case _ => None
  }

  ghost predicate PrivateOk(s: State, t: nat) {
    Private(PcOf(s, t)).Some? ==>
      var n := Private(PcOf(s, t)).value;
      n in s.heap && Owner(s, n) == t && forall a :: a in s.arenas ==> n !in s.arenas[a].chain
  }

  ghost predicate PcOk(s: State, t: nat) {
    var pc := PcOf(s, t);
    !pc.Idle? ==>
      && pc.a in s.arenas
      && var ar := s.arenas[pc.a];
         match pc
         case FastCheck(a, id) => id == ar.tagAndId || id == Id(ar)
         case Search(a, at, left) =>
           left <= |ar.chain| && at == At(ar.chain, |ar.chain| - left) && NoneOwned(s, ar.chain[..|ar.chain| - left], t)
         case NewSerial(a) => NoneOwned(s, ar.chain, t)
         case LoadAgain(a, n) => NoneOwned(s, ar.chain, t)
         case SetNext(a, n, h) => NoneOwned(s, ar.chain, t)
         case Cas(a, n, h) => NoneOwned(s, ar.chain, t) && NodeAt(s, n).next == h
         case WriteCache(a, n) => Mine(s, a, n, t)
         case StoreHint(a, n) => Mine(s, a, n, t)
         case _ => true
  }

  /** What the lists need, whatever the ids are. */
  ghost predicate Lists(s: State) {
    && ArenasOk(s) && Separate(s)
    && (forall t :: PcOk(s, t) && PrivateOk(s, t))
  }

  /** A finished lookup has the thread's own serial arena; only an arena tagged like a new thread's cache is exempt. */
  ghost predicate DoneOk(s: State, t: nat) {
    var pc := PcOf(s, t);
    pc.Done? ==>
      && pc.a in s.arenas
      && (s.arenas[pc.a].tagAndId == SENTINEL || (pc.result.Some? && Mine(s, pc.a, pc.result.value, t)))
  }

  ghost predicate Inv(s: State) {
    && Lists(s) && IdsOk(s)
    && (forall t :: CacheOk(s, t) && DoneOk(s, t))
  }

  // -------------------------------------------------- what a thread's step is

  /** The list of an arena stays, or gets one node of thread t in front. */
  ghost predicate Extends(s: State, s': State, a: nat, t: nat)
    requires a in s.arenas && a in s'.arenas
  {
    var (c, c') := (s.arenas[a].chain, s'.arenas[a].chain);
    c' == c || (|c'| == |c| + 1 && c'[1..] == c && Owner(s', c'[0]) == t && Private(PcOf(s, t)) == Some(c'[0]))
  }

  /** A step of thread t as the others see it. */
  ghost predicate StepOf(s: State, s': State, t: nat) {
    && s'.arenas.Keys == s.arenas.Keys && s'.ids == s.ids
    && (forall a :: a in s.arenas ==> s'.arenas[a].tagAndId == s.arenas[a].tagAndId && Extends(s, s', a, t))
    && (forall n :: n in s.heap ==> n in s'.heap && Owner(s', n) == Owner(s, n))
    && (forall n :: n in s.heap && Private(PcOf(s, t)) != Some(n) ==> s'.heap[n] == s.heap[n])
    && (forall u :: u != t ==> PcOf(s', u) == PcOf(s, u) && CacheOf(s', u) == CacheOf(s, u))
  }

  // ------------------------------------------- steps that only move the thread

  /** Whether a place in the program fits the state, for thread t. */
  ghost predicate Fits(s: State, t: nat, pc: Pc) {
    PcOk(Goto(s, t, pc), t) && PrivateOk(Goto(s, t, pc), t)
  }

  lemma GotoChangesNothingElse(s: State, t: nat, pc: Pc, u: nat)
    requires u != t
    ensures PcOk(s, u) ==> PcOk(Goto(s, t, pc), u)
    ensures PrivateOk(s, u) ==> PrivateOk(Goto(s, t, pc), u)
  {}

  lemma GotoKeepsArenas(s: State, t: nat, pc: Pc)
    requires ArenasOk(s)
    ensures ArenasOk(Goto(s, t, pc))
  {
    forall a | a in s.arenas ensures ArenaOk(Goto(s, t, pc), s.arenas[a]) { assert ArenaOk(s, s.arenas[a]); }
  }

  lemma GotoKeepsLists(s: State, t: nat, pc: Pc)
    requires Lists(s) && Fits(s, t, pc)
    ensures Lists(Goto(s, t, pc))
  {
    hide PcOk, PrivateOk, ArenasOk;
    var s' := Goto(s, t, pc);
    GotoKeepsArenas(s, t, pc);
    forall u ensures PcOk(s', u) && PrivateOk(s', u) {
      assert PcOk(s, u) && PrivateOk(s, u);
      if u != t { GotoChangesNothingElse(s, t, pc, u); }
    }
  }

  lemma FastCheckFits(s: State, t: nat, a: nat)
    requires a in s.arenas
    ensures forall result :: Fits(s, t, Done(a, result))
    ensures Fits(s, t, FastCheck(a, Id(s.arenas[a]))) && Fits(s, t, HintCheck(a))
  {}

  lemma HintCheckFits(s: State, t: nat, a: nat)
    requires Lists(s) && PcOf(s, t) == HintCheck(a) && a in s.arenas
    ensures var hint := s.arenas[a].hint; hint.Some? && Owner(s, hint.value) == t ==> Fits(s, t, Done(a, hint))
    ensures Fits(s, t, LoadHead(a))
  {
    assert PcOk(s, t) && ArenaOk(s, s.arenas[a]);
    hide Lists, Fits, PcOk, Owner;
    LoadFits(s, t, a);
    var hint := s.arenas[a].hint;
    if hint.Some? && Owner(s, hint.value) == t { FoundFits(s, t, a, hint.value); }
  }

  lemma LoadFits(s: State, t: nat, a: nat)
    requires a in s.arenas
    ensures Fits(s, t, LoadHead(a))
  {}

  lemma LoadHeadFits(s: State, t: nat, a: nat)
    requires Lists(s) && PcOf(s, t) == LoadHead(a) && a in s.arenas
    ensures Fits(s, t, Search(a, s.arenas[a].head, |s.arenas[a].chain|))
  {
    hide Separate;
    assert PcOk(s, t) && ArenaOk(s, s.arenas[a]);
  }

  /** Where a search stands: everything before it in the list belongs to others. */
  ghost predicate Searched(s: State, t: nat, a: nat, at: Option<Addr>, left: nat) {
    && a in s.arenas && left <= |s.arenas[a].chain|
    && at == At(s.arenas[a].chain, |s.arenas[a].chain| - left)
    && NoneOwned(s, s.arenas[a].chain[..|s.arenas[a].chain| - left], t)
  }

  lemma SearchIsSearched(s: State, t: nat, a: nat, at: Option<Addr>, left: nat)
    requires Lists(s) && PcOf(s, t) == Search(a, at, left)
    ensures Searched(s, t, a, at, left) && ArenaOk(s, s.arenas[a])
  {
    hide ArenaOk, NoneOwned, Separate, PrivateOk;
    assert PcOk(s, t);
  }

  lemma SearchEnds(s: State, t: nat, a: nat, left: nat)
    requires Searched(s, t, a, None, left)
    ensures NoneOwned(s, s.arenas[a].chain, t)
  {
    hide Owner;
    assert s.arenas[a].chain[..|s.arenas[a].chain| - left] == s.arenas[a].chain;
  }

  lemma SearchGoesOn(s: State, t: nat, a: nat, n: Addr, left: nat)
    requires Searched(s, t, a, Some(n), left) && Linked(s, s.arenas[a])
    ensures n in s.arenas[a].chain
    ensures Owner(s, n) != t ==> left > 0 && Searched(s, t, a, NodeAt(s, n).next, left - 1)
  {
    hide Owner, NoneOwned;
    var chain := s.arenas[a].chain;
    var k := |chain| - left;
    assert s.heap[chain[k]].next == At(chain, k + 1);
    if Owner(s, n) != t { OneMoreOfOthers(s, chain, k, t); }
  }

  lemma OneMoreOfOthers(s: State, chain: seq<Addr>, k: nat, t: nat)
    requires k < |chain| && NoneOwned(s, chain[..k], t) && Owner(s, chain[k]) != t
    ensures NoneOwned(s, chain[..k + 1], t)
  {
    hide Owner;
    assert chain[..k + 1] == chain[..k] + [chain[k]];
  }

  lemma SearchFits(s: State, t: nat, a: nat, at: Option<Addr>, left: nat)
    requires Lists(s) && PcOf(s, t) == Search(a, at, left) && a in s.arenas
    ensures at.None? ==> Fits(s, t, NewSerial(a))
    ensures at.Some? && Owner(s, at.value) == t ==> Fits(s, t, WriteCache(a, at.value))
    ensures at.Some? && Owner(s, at.value) != t ==>
              left > 0 && Fits(s, t, Search(a, NodeAt(s, at.value).next, left - 1))
  {
    hide Lists, Linked, OwnersDiffer, Fits, Searched, NoneOwned, Owner;
    SearchIsSearched(s, t, a, at, left);
    if at.None? {
      SearchEnds(s, t, a, left);
      NewSerialFits(s, t, a);
    } else {
      SearchGoesOn(s, t, a, at.value, left);
      if Owner(s, at.value) == t { FoundFits(s, t, a, at.value); }
      else { SearchOnFits(s, t, a, NodeAt(s, at.value).next, left - 1); }
    }
  }

  lemma NewSerialFits(s: State, t: nat, a: nat)
    requires a in s.arenas && NoneOwned(s, s.arenas[a].chain, t)
    ensures Fits(s, t, NewSerial(a))
  {}

  lemma FoundFits(s: State, t: nat, a: nat, n: Addr)
    requires a in s.arenas && Mine(s, a, n, t)
    ensures Fits(s, t, WriteCache(a, n)) && Fits(s, t, Done(a, Some(n)))
  {}

  lemma SearchOnFits(s: State, t: nat, a: nat, at: Option<Addr>, left: nat)
    requires Searched(s, t, a, at, left)
    ensures Fits(s, t, Search(a, at, left))
  {}

  lemma PushFits(s: State, t: nat, a: nat, n: Addr, h: Option<Addr>)
    requires Lists(s) && (PcOf(s, t) == LoadAgain(a, n) || PcOf(s, t) == Cas(a, n, h)) && a in s.arenas
    ensures Fits(s, t, SetNext(a, n, s.arenas[a].head))
  {
    hide Separate, ArenasOk;
    assert PcOk(s, t) && PrivateOk(s, t);
  }

  predicate IsLocal(s: State, t: nat, spurious: bool) {
    match PcOf(s, t)
    case NewSerial(_) => false
    case SetNext(_, _, _) => false
    case WriteCache(_, _) => false
    case StoreHint(_, _) => false
    case Cas(a, n, h) => a in s.arenas && !(s.arenas[a].head == h && !spurious)
    case _ => true
  }

  lemma LocalStepKeepsLists(s: State, t: nat, mem: Addr, spurious: bool)
    requires Lists(s) && Enabled(s, Advance(t, mem, spurious)) && IsLocal(s, t, spurious)
    ensures Lists(Step(s, t, mem, spurious))
  {
    hide Lists, Fits;
    var s' := Step(s, t, mem, spurious);
    match PcOf(s, t) {
      case FastCheck(a, id) => FastCheckFits(s, t, a);
      case HintCheck(a) => HintCheckFits(s, t, a);
      case LoadHead(a) => LoadHeadFits(s, t, a);
      case Search(a, at, left) => SearchFits(s, t, a, at, left);
      case LoadAgain(a, n) => PushFits(s, t, a, n, None);
      case Cas(a, n, h) => PushFits(s, t, a, n, h);
      case _ => IdleFits(s, t);
    }
    if PcOf(s, t) != Idle { GotoKeepsLists(s, t, PcOf(s', t)); }
  }

  lemma IdleFits(s: State, t: nat)
    ensures Fits(s, t, Idle)
  {}

  // ------------------------------------------------- steps on shared memory

  lemma OthersKeepMine(s: State, s': State, t: nat, a: nat, n: Addr, u: nat)
    requires ArenasOk(s) && StepOf(s, s', t) && a in s.arenas && Mine(s, a, n, u)
    ensures Mine(s', a, n, u)
  {
    assert ArenaOk(s, s.arenas[a]);
    assert Extends(s, s', a, t);
    var (c, c') := (s.arenas[a].chain, s'.arenas[a].chain);
    assert c' == c || c'[1..] == c;
  }

  /** The part of a list that a thread has searched still has nothing of its own. */
  lemma OthersKeepNoneOwned(s: State, s': State, t: nat, a: nat, left: nat, u: nat)
    requires ArenasOk(s) && StepOf(s, s', t) && u != t && a in s.arenas && left <= |s.arenas[a].chain|
    requires NoneOwned(s, s.arenas[a].chain[..|s.arenas[a].chain| - left], u)
    ensures left <= |s'.arenas[a].chain|
    ensures At(s'.arenas[a].chain, |s'.arenas[a].chain| - left) == At(s.arenas[a].chain, |s.arenas[a].chain| - left)
    ensures NoneOwned(s', s'.arenas[a].chain[..|s'.arenas[a].chain| - left], u)
  {
    hide ArenasOk, StepOf, Owner, NoneOwned;
    StepExtends(s, s', t, a);
    var (c, c') := (s.arenas[a].chain, s'.arenas[a].chain);
    ListedNodesStayOthers(s, s', t, a, |c| - left, u);
    if c' != c { PushedPrefix(s', c, c', left, u); }
  }

  lemma ListedNodesStayOthers(s: State, s': State, t: nat, a: nat, k: nat, u: nat)
    requires ArenasOk(s) && StepOf(s, s', t) && a in s.arenas && k <= |s.arenas[a].chain|
    requires NoneOwned(s, s.arenas[a].chain[..k], u)
    ensures NoneOwned(s', s.arenas[a].chain[..k], u)
  {
    hide ArenasOk, StepOf, Owner;
    var c := s.arenas[a].chain;
    forall i | 0 <= i < k ensures Owner(s', c[..k][i]) != u {
      assert c[..k][i] == c[i];
      ListedNodesKeepOwner(s, s', t, a, i);
    }
  }

  lemma PushedPrefix(s: State, c: seq<Addr>, c': seq<Addr>, left: nat, u: nat)
    requires |c'| == |c| + 1 && c'[1..] == c && left <= |c|
    requires NoneOwned(s, c[..|c| - left], u) && Owner(s, c'[0]) != u
    ensures NoneOwned(s, c'[..|c'| - left], u)
    ensures At(c', |c'| - left) == At(c, |c| - left)
  {
    hide Owner;
    assert c'[..|c'| - left] == [c'[0]] + c[..|c| - left];
  }

  lemma StepExtends(s: State, s': State, t: nat, a: nat)
    requires StepOf(s, s', t) && a in s.arenas
    ensures a in s'.arenas && Extends(s, s', a, t)
  {}

  lemma ListedNodesKeepOwner(s: State, s': State, t: nat, a: nat, k: nat)
    requires ArenasOk(s) && StepOf(s, s', t) && a in s.arenas && k < |s.arenas[a].chain|
    ensures Owner(s', s.arenas[a].chain[k]) == Owner(s, s.arenas[a].chain[k])
  {
    assert ArenaOk(s, s.arenas[a]);
  }

  lemma OthersKeepPrivate(s: State, s': State, t: nat, u: nat)
    requires ArenasOk(s) && StepOf(s, s', t) && u != t && PrivateOk(s, u) && PrivateOk(s, t)
    ensures PrivateOk(s', u)
    ensures Private(PcOf(s, u)).Some? ==>
              NodeAt(s', Private(PcOf(s, u)).value) == NodeAt(s, Private(PcOf(s, u)).value)
  {
    if Private(PcOf(s, u)).Some? {
      var n := Private(PcOf(s, u)).value;
      forall a | a in s'.arenas ensures n !in s'.arenas[a].chain {
        assert Extends(s, s', a, t);
        var (c, c') := (s.arenas[a].chain, s'.arenas[a].chain);
        if c' != c { assert c' == [c'[0]] + c'[1..]; }
      }
    }
  }

  lemma OthersKeepPc(s: State, s': State, t: nat, u: nat)
    requires ArenasOk(s) && StepOf(s, s', t) && u != t && PcOk(s, u) && PrivateOk(s, u) && PrivateOk(s, t)
    ensures PcOk(s', u)
  {
    hide ArenasOk, PrivateOk, Mine, NoneOwned, At, Extends;
    var pc := PcOf(s, u);
    if pc != Idle {
      var chain := s.arenas[pc.a].chain;
      match pc
      case Search(a, at, left) => OthersKeepNoneOwned(s, s', t, a, left, u);
      case NewSerial(a) => WholeChain(s, s', t, a, u);
      case LoadAgain(a, n) => WholeChain(s, s', t, a, u);
      case SetNext(a, n, h) => WholeChain(s, s', t, a, u);
      case Cas(a, n, h) => WholeChain(s, s', t, a, u); OthersKeepPrivate(s, s', t, u);
      case WriteCache(a, n) => OthersKeepMine(s, s', t, a, n, u);
      case StoreHint(a, n) => OthersKeepMine(s, s', t, a, n, u);
      case _ =>
    }
  }

  lemma WholeChain(s: State, s': State, t: nat, a: nat, u: nat)
    requires ArenasOk(s) && StepOf(s, s', t) && u != t && a in s.arenas && NoneOwned(s, s.arenas[a].chain, u)
    ensures NoneOwned(s', s'.arenas[a].chain, u)
  {
    hide ArenasOk, StepOf, Owner;
    var c := s.arenas[a].chain;
    StepExtends(s, s', t, a);
    assert c[..|c| - 0] == c;
    OthersKeepNoneOwned(s, s', t, a, 0, u);
    assert s'.arenas[a].chain[..|s'.arenas[a].chain| - 0] == s'.arenas[a].chain;
  }

  /** An arena that the step leaves alone stays well linked: no node of a list is changed. */
  lemma OtherArenasStayOk(s: State, s': State, t: nat, a: nat)
    requires ArenasOk(s) && StepOf(s, s', t) && PrivateOk(s, t) && a in s.arenas && s'.arenas[a] == s.arenas[a]
    ensures ArenaOk(s', s'.arenas[a])
  {
    assert ArenaOk(s, s.arenas[a]);
  }

  lemma ListsStaySeparate(s: State, s': State, t: nat)
    requires Separate(s) && StepOf(s, s', t) && PrivateOk(s, t)
    requires forall a, b :: a in s.arenas && b in s.arenas && a != b ==>
               s'.arenas[a].chain == s.arenas[a].chain || s'.arenas[b].chain == s.arenas[b].chain
    ensures Separate(s')
  {
    forall a, b, n | a in s'.arenas && b in s'.arenas && a != b && n in s'.arenas[a].chain
      ensures n !in s'.arenas[b].chain
    {
      OnlyPrivateIsNew(s, s', t, a, n);
      if n in s'.arenas[b].chain { OnlyPrivateIsNew(s, s', t, b, n); }
    }
  }

  lemma OnlyPrivateIsNew(s: State, s': State, t: nat, a: nat, n: Addr)
    requires StepOf(s, s', t) && a in s.arenas && n in s'.arenas[a].chain
    ensures n in s.arenas[a].chain || (Private(PcOf(s, t)) == Some(n) && s'.arenas[a].chain != s.arenas[a].chain)
  {
    assert Extends(s, s', a, t);
    var (c, c') := (s.arenas[a].chain, s'.arenas[a].chain);
    if c' != c { assert c' == [c'[0]] + c'[1..]; }
  }

  /** What has to be shown of a step on shared memory. */
  lemma StepKeepsLists(s: State, s': State, t: nat)
    requires Lists(s) && StepOf(s, s', t)
    requires ArenasOk(s') && Separate(s') && PcOk(s', t) && PrivateOk(s', t)
    ensures Lists(s')
  {
    hide ArenasOk, Separate, PcOk, PrivateOk, Extends;
    forall u ensures PcOk(s', u) && PrivateOk(s', u) {
      assert PcOk(s, u) && PrivateOk(s, u);
      assert PrivateOk(s, t);
      if u != t {
        OthersKeepPc(s, s', t, u);
        OthersKeepPrivate(s, s', t, u);
      }
    }
  }

  /** Steps that change no list: only t's place, its private node, its cache or hints. */
  ghost predicate KeepsLists(s: State, s': State, t: nat) {
    && s'.arenas.Keys == s.arenas.Keys && s'.ids == s.ids
    && (forall a :: a in s.arenas ==>
          s'.arenas[a].tagAndId == s.arenas[a].tagAndId && s'.arenas[a].chain == s.arenas[a].chain)
    && (forall n :: n in s.heap ==> n in s'.heap && Owner(s', n) == Owner(s, n))
    && (forall n :: n in s.heap && Private(PcOf(s, t)) != Some(n) ==> s'.heap[n] == s.heap[n])
    && (forall u :: u != t ==> PcOf(s', u) == PcOf(s, u) && CacheOf(s', u) == CacheOf(s, u))
  }

  lemma KeepingListsIsAStep(s: State, s': State, t: nat)
    requires KeepsLists(s, s', t)
    ensures StepOf(s, s', t)
    ensures Separate(s) ==> Separate(s')
  {}

  lemma NewSerialIsStepOf(s: State, t: nat, a: nat, mem: Addr)
    requires PcOf(s, t) == NewSerial(a) && a in s.arenas && mem !in s.heap
    ensures KeepsLists(s, Step(s, t, mem, false), t)
    ensures (forall b :: b in s.arenas ==> mem !in s.arenas[b].chain) ==> PrivateOk(Step(s, t, mem, false), t)
    ensures NoneOwned(Step(s, t, mem, false), s.arenas[a].chain, t) ==> PcOk(Step(s, t, mem, false), t)
  {}

  lemma SetNextIsStepOf(s: State, t: nat, a: nat, n: Addr, h: Option<Addr>)
    requires PcOf(s, t) == SetNext(a, n, h) && a in s.arenas && PrivateOk(s, t)
    ensures KeepsLists(s, Step(s, t, 0, false), t)
    ensures PrivateOk(Step(s, t, 0, false), t)
    ensures NoneOwned(Step(s, t, 0, false), s.arenas[a].chain, t) ==> PcOk(Step(s, t, 0, false), t)
  {}

  /** A new node nobody points to yet. */
  lemma NewSerialKeepsLists(s: State, t: nat, a: nat, mem: Addr)
    requires Lists(s) && PcOf(s, t) == NewSerial(a) && a in s.arenas && mem !in s.heap
    ensures Lists(Step(s, t, mem, false))
  {
    hide Separate, StepOf, KeepsLists, PrivateOk, OwnersDiffer, NoneOwned;
    var s' := Step(s, t, mem, false);
    assert PcOk(s, t) && PrivateOk(s, t);
    NewSerialIsStepOf(s, t, a, mem);
    KeepingListsIsAStep(s, s', t);
    forall b | b in s'.arenas ensures ArenaOk(s', s'.arenas[b]) && mem !in s'.arenas[b].chain {
      assert ArenaOk(s, s.arenas[b]);
      OtherArenasStayOk(s, s', t, b);
    }
    WholeChainOfOwn(s, s', a, t);
    StepKeepsLists(s, s', t);
  }

  lemma WholeChainOfOwn(s: State, s': State, a: nat, t: nat)
    requires ArenasOk(s) && StepOf(s, s', t) && a in s.arenas && s'.arenas[a].chain == s.arenas[a].chain
    requires NoneOwned(s, s.arenas[a].chain, t)
    ensures NoneOwned(s', s'.arenas[a].chain, t)
  {
    forall i | 0 <= i < |s.arenas[a].chain| ensures Owner(s', s.arenas[a].chain[i]) != t {
      ListedNodesKeepOwner(s, s', t, a, i);
    }
  }

  lemma SetNextKeepsLists(s: State, t: nat, a: nat, n: Addr, h: Option<Addr>)
    requires Lists(s) && PcOf(s, t) == SetNext(a, n, h) && a in s.arenas
    ensures Lists(Step(s, t, 0, false))
  {
    hide Separate, StepOf, KeepsLists, PrivateOk, ArenaOk, NoneOwned;
    var s' := Step(s, t, 0, false);
    assert PcOk(s, t) && PrivateOk(s, t);
    SetNextIsStepOf(s, t, a, n, h);
    KeepingListsIsAStep(s, s', t);
    forall b | b in s'.arenas ensures ArenaOk(s', s'.arenas[b]) { OtherArenasStayOk(s, s', t, b); }
    WholeChainOfOwn(s, s', a, t);
    StepKeepsLists(s, s', t);
  }

  lemma PushIsStepOf(s: State, t: nat, a: nat, n: Addr, h: Option<Addr>)
    requires PcOf(s, t) == Cas(a, n, h) && a in s.arenas && s.arenas[a].head == h && PrivateOk(s, t)
    ensures StepOf(s, Step(s, t, 0, false), t)
    ensures PrivateOk(Step(s, t, 0, false), t)
    ensures PcOk(Step(s, t, 0, false), t)
  {
    assert ([n] + s.arenas[a].chain)[1..] == s.arenas[a].chain;
  }

  lemma PushKeepsArenas(s: State, t: nat, a: nat, n: Addr, h: Option<Addr>)
    requires ArenasOk(s) && PcOk(s, t) && PrivateOk(s, t)
    requires PcOf(s, t) == Cas(a, n, h) && a in s.arenas && s.arenas[a].head == h
    ensures ArenasOk(Step(s, t, 0, false))
  {
    hide ArenaOk;
    var s' := Step(s, t, 0, false);
    assert ArenaOk(s, s.arenas[a]);
    PushIsStepOf(s, t, a, n, h);
    PushedIsOk(s, s', t, a, n);
    forall b | b in s'.arenas && b != a ensures ArenaOk(s', s'.arenas[b]) { OtherArenasStayOk(s, s', t, b); }
  }

  /** The compare-exchange that succeeds: the head is still what next was set to. */
  lemma PushKeepsLists(s: State, t: nat, a: nat, n: Addr, h: Option<Addr>)
    requires Lists(s) && PcOf(s, t) == Cas(a, n, h) && a in s.arenas && s.arenas[a].head == h
    ensures Lists(Step(s, t, 0, false))
  {
    hide Separate, ArenasOk, PcOk, PrivateOk, StepOf;
    var s' := Step(s, t, 0, false);
    assert PcOk(s, t) && PrivateOk(s, t);
    PushIsStepOf(s, t, a, n, h);
    PushKeepsArenas(s, t, a, n, h);
    ListsStaySeparate(s, s', t);
    StepKeepsLists(s, s', t);
  }

  lemma PushedIsOk(s: State, s': State, t: nat, a: nat, n: Addr)
    requires a in s.arenas && ArenaOk(s, s.arenas[a]) && NoneOwned(s, s.arenas[a].chain, t)
    requires n in s.heap && Owner(s, n) == t && s.heap[n].next == s.arenas[a].head
    requires a in s'.arenas && s'.heap == s.heap
    requires s'.arenas[a] == s.arenas[a].(head := Some(n), chain := [n] + s.arenas[a].chain)
    ensures ArenaOk(s', s'.arenas[a])
  {
    var (c, c') := (s.arenas[a].chain, s'.arenas[a].chain);
    forall i | 0 <= i < |c'| ensures c'[i] in s'.heap && s'.heap[c'[i]].next == At(c', i + 1) {
      if i > 0 { assert c'[i] == c[i - 1]; }
    }
  }

  lemma WriteCacheIsStepOf(s: State, t: nat, a: nat, n: Addr)
    requires PcOf(s, t) == WriteCache(a, n) && a in s.arenas
    ensures KeepsLists(s, Step(s, t, 0, false), t)
    ensures PrivateOk(Step(s, t, 0, false), t)
    ensures Mine(s, a, n, t) ==> PcOk(Step(s, t, 0, false), t) && Mine(Step(s, t, 0, false), a, n, t)
  {}

  lemma WriteCacheKeepsLists(s: State, t: nat, a: nat, n: Addr)
    requires Lists(s) && PcOf(s, t) == WriteCache(a, n) && a in s.arenas
    ensures Lists(Step(s, t, 0, false))
  {
    hide Separate, ArenaOk, PrivateOk, StepOf, KeepsLists, Mine;
    var s' := Step(s, t, 0, false);
    assert PcOk(s, t) && PrivateOk(s, t);
    WriteCacheIsStepOf(s, t, a, n);
    KeepingListsIsAStep(s, s', t);
    forall b | b in s'.arenas ensures ArenaOk(s', s'.arenas[b]) { OtherArenasStayOk(s, s', t, b); }
    StepKeepsLists(s, s', t);
  }

  lemma StoreHintIsStepOf(s: State, t: nat, a: nat, n: Addr)
    requires PcOf(s, t) == StoreHint(a, n) && a in s.arenas
    ensures KeepsLists(s, Step(s, t, 0, false), t)
    ensures PrivateOk(Step(s, t, 0, false), t)
    ensures Mine(s, a, n, t) ==> PcOk(Step(s, t, 0, false), t)
    ensures Mine(s, a, n, t) && ArenaOk(s, s.arenas[a]) ==>
              ArenaOk(Step(s, t, 0, false), Step(s, t, 0, false).arenas[a])
  {}

  lemma StoreHintKeepsLists(s: State, t: nat, a: nat, n: Addr)
    requires Lists(s) && PcOf(s, t) == StoreHint(a, n) && a in s.arenas
    ensures Lists(Step(s, t, 0, false))
  {
    hide Separate, ArenaOk, PrivateOk, StepOf, KeepsLists, Mine;
    var s' := Step(s, t, 0, false);
    assert PcOk(s, t) && PrivateOk(s, t) && ArenaOk(s, s.arenas[a]);
    StoreHintIsStepOf(s, t, a, n);
    KeepingListsIsAStep(s, s', t);
    forall b | b in s'.arenas ensures ArenaOk(s', s'.arenas[b]) {
      if b != a { OtherArenasStayOk(s, s', t, b); }
    }
    StepKeepsLists(s, s', t);
  }

  /** One step of any thread keeps the lists; the ids play no part in it. */
  lemma AdvanceKeepsLists(s: State, t: nat, mem: Addr, spurious: bool)
    requires Lists(s) && Enabled(s, Advance(t, mem, spurious))
    ensures Lists(Step(s, t, mem, spurious))
  {
    hide Lists;
    if IsLocal(s, t, spurious) {
      LocalStepKeepsLists(s, t, mem, spurious);
    } else {
      match PcOf(s, t)
      case NewSerial(a) => NewSerialKeepsLists(s, t, a, mem);
      case SetNext(a, n, h) => SetNextKeepsLists(s, t, a, n, h);
      case Cas(a, n, h) => PushKeepsLists(s, t, a, n, h);
      case WriteCache(a, n) => WriteCacheKeepsLists(s, t, a, n);
      case StoreHint(a, n) => StoreHintKeepsLists(s, t, a, n);
    }
  }

  lemma BeginKeepsLists(s: State, t: nat, a: nat, tagged: bool)
    requires Lists(s) && Enabled(s, Begin(t, a, tagged))
    ensures Lists(Do(s, Begin(t, a, tagged)))
  {
    hide Lists;
    var id := if tagged then s.arenas[a].tagAndId else Id(s.arenas[a]);
    assert Fits(s, t, FastCheck(a, id)) by { BeginFits(s, t, a, id); }
    GotoKeepsLists(s, t, FastCheck(a, id));
  }

  lemma BeginFits(s: State, t: nat, a: nat, id: nat)
    requires a in s.arenas && (id == s.arenas[a].tagAndId || id == Id(s.arenas[a]))
    ensures Fits(s, t, FastCheck(a, id))
  {}

  // ---------------------------------------------------- caches and finished lookups

  /**
   * A thread cache that matches the id, tagged or not, holds the thread's own
   * serial arena of that arena, unless the arena's tag is all bits set.
   */
  lemma MatchingCacheIsMine(s: State, t: nat, a: nat, id: nat)
    requires IdsOk(s) && CacheOk(s, t) && a in s.arenas
    requires (id == s.arenas[a].tagAndId && id != SENTINEL) || id == Id(s.arenas[a])
    requires CacheOf(s, t).seen == id
    ensures CacheOf(s, t).serial.Some? && Mine(s, a, CacheOf(s, t).serial.value, t)
  {
    hide LifecycleIds.HandedOut, LifecycleIds.Inv;
    HandedOutIsEven(s, Id(s.arenas[a]));
    if CacheOf(s, t).seen != SENTINEL { HandedOutIsEven(s, CacheOf(s, t).seen); }
  }

  lemma HandedOutIsEven(s: State, id: nat)
    requires id in LifecycleIds.HandedOut(s.ids)
    ensures id % 2 == 0
  {
    var k :| 0 <= k < |s.ids.issued| && LifecycleIds.HandedOut(s.ids)[k] == id;
    LifecycleIds.IdsAreEven(s.ids.issued[k]);
  }

  lemma LocalIsStepOf(s: State, t: nat, mem: Addr, spurious: bool)
    requires Enabled(s, Advance(t, mem, spurious)) && IsLocal(s, t, spurious)
    ensures KeepsLists(s, Step(s, t, mem, spurious), t)
  {
    hide KeepsLists;
    if PcOf(s, t).Idle? { SameIsStepOf(s, t); } else { GotoIsStepOf(s, t, PcOf(Step(s, t, mem, spurious), t)); }
  }

  lemma SameIsStepOf(s: State, t: nat)
    ensures KeepsLists(s, s, t)
  {}

  lemma GotoIsStepOf(s: State, t: nat, pc: Pc)
    ensures KeepsLists(s, Goto(s, t, pc), t)
  {}

  lemma AdvanceIsStepOf(s: State, t: nat, mem: Addr, spurious: bool)
    requires Lists(s) && Enabled(s, Advance(t, mem, spurious))
    ensures StepOf(s, Step(s, t, mem, spurious), t)
  {
    hide StepOf, ArenasOk, Separate, KeepsLists, PrivateOk, PcOk;
    assert PcOk(s, t) && PrivateOk(s, t);
    var s' := Step(s, t, mem, spurious);
    if IsLocal(s, t, spurious) {
      LocalIsStepOf(s, t, mem, spurious);
      KeepingListsIsAStep(s, s', t);
    } else {
      match PcOf(s, t) {
        case NewSerial(a) => NewSerialIsStepOf(s, t, a, mem); KeepingListsIsAStep(s, s', t);
        case SetNext(a, n, h) => SetNextIsStepOf(s, t, a, n, h); KeepingListsIsAStep(s, s', t);
        case Cas(a, n, h) => PushIsStepOf(s, t, a, n, h);
        case WriteCache(a, n) => WriteCacheIsStepOf(s, t, a, n); KeepingListsIsAStep(s, s', t);
        case StoreHint(a, n) => StoreHintIsStepOf(s, t, a, n); KeepingListsIsAStep(s, s', t);
      }
    }
  }

  lemma OthersKeepCache(s: State, s': State, t: nat, u: nat)
    requires ArenasOk(s) && StepOf(s, s', t) && CacheOk(s, u) && CacheOf(s', u) == CacheOf(s, u)
    ensures CacheOk(s', u)
  {
    hide ArenasOk, Mine, Extends;
    forall a | a in s'.arenas && CacheOf(s', u).seen == Id(s'.arenas[a])
      ensures CacheOf(s', u).serial.Some? && Mine(s', a, CacheOf(s', u).serial.value, u)
    {
      OthersKeepMine(s, s', t, a, CacheOf(s, u).serial.value, u);
    }
  }

  lemma WrittenCacheIsOk(s: State, s': State, t: nat, a: nat, n: Addr)
    requires IdsOk(s) && a in s.arenas && s'.arenas == s.arenas && s'.ids == s.ids && Mine(s', a, n, t)
    requires CacheOf(s', t) == Cache(Id(s.arenas[a]), Some(n))
    ensures CacheOk(s', t)
  {}

  lemma AdvanceKeepsCaches(s: State, t: nat, mem: Addr, spurious: bool, u: nat)
    requires Inv(s) && Enabled(s, Advance(t, mem, spurious))
    ensures CacheOk(Step(s, t, mem, spurious), u)
  {
    hide ArenasOk, IdsOk, CacheOk, DoneOk, StepOf, Separate, Mine;
    var s' := Step(s, t, mem, spurious);
    AdvanceIsStepOf(s, t, mem, spurious);
    assert CacheOk(s, u) && PcOk(s, t);
    if u == t && PcOf(s, t).WriteCache? {
      var a, n := PcOf(s, t).a, PcOf(s, t).n;
      OthersKeepMine(s, s', t, a, n, t);
      WrittenCacheIsOk(s, s', t, a, n);
    } else {
      OtherCachesStay(s, t, mem, spurious, u);
      OthersKeepCache(s, s', t, u);
    }
  }

  lemma OtherCachesStay(s: State, t: nat, mem: Addr, spurious: bool, u: nat)
    requires Enabled(s, Advance(t, mem, spurious)) && !(u == t && PcOf(s, t).WriteCache?)
    ensures CacheOf(Step(s, t, mem, spurious), u) == CacheOf(s, u)
  {}

  /** Where a lookup ends: on a matching cache, on the own hint, or after the own hint was stored. */
  lemma EndsWithMine(s: State, t: nat, mem: Addr, spurious: bool)
    requires Inv(s) && Enabled(s, Advance(t, mem, spurious)) && PcOf(Step(s, t, mem, spurious), t).Done?
    ensures var pc := PcOf(Step(s, t, mem, spurious), t);
            && pc.a in s.arenas
            && (s.arenas[pc.a].tagAndId == SENTINEL || (pc.result.Some? && Mine(s, pc.a, pc.result.value, t)))
  {
    hide IdsOk, CacheOk, Separate;
    assert PcOk(s, t) && CacheOk(s, t);
    match PcOf(s, t) {
      case FastCheck(a, id) => if s.arenas[a].tagAndId != SENTINEL { MatchingCacheIsMine(s, t, a, id); }
      case HintCheck(a) => assert ArenaOk(s, s.arenas[a]);
      case _ =>
    }
  }

  lemma AdvanceKeepsDone(s: State, t: nat, mem: Addr, spurious: bool, u: nat)
    requires Inv(s) && Enabled(s, Advance(t, mem, spurious))
    ensures DoneOk(Step(s, t, mem, spurious), u)
  {
    hide Inv, StepOf, Mine, ArenasOk;
    var s' := Step(s, t, mem, spurious);
    assert DoneOk(s, u) && Lists(s) && ArenasOk(s) by { InvParts(s, u); }
    AdvanceIsStepOf(s, t, mem, spurious);
    StepKeepsPlaces(s, s', t, u);
    if PcOf(s', u).Done? {
      if u == t { EndsWithMine(s, t, mem, spurious); }
      var pc := PcOf(s', u);
      if s.arenas[pc.a].tagAndId != SENTINEL { OthersKeepMine(s, s', t, pc.a, pc.result.value, u); }
    }
  }

  lemma InvParts(s: State, u: nat)
    requires Inv(s)
    ensures Lists(s) && ArenasOk(s) && DoneOk(s, u)
  {
    hide ArenasOk, DoneOk, IdsOk;
  }

  lemma StepKeepsPlaces(s: State, s': State, t: nat, u: nat)
    requires StepOf(s, s', t)
    ensures u != t ==> PcOf(s', u) == PcOf(s, u)
    ensures s'.arenas.Keys == s.arenas.Keys
    ensures forall a :: a in s.arenas ==> s'.arenas[a].tagAndId == s.arenas[a].tagAndId
  {}

  lemma StepKeepsIdsOk(s: State, s': State, t: nat)
    requires IdsOk(s) && StepOf(s, s', t)
    ensures IdsOk(s')
  {
    hide LifecycleIds.Inv, LifecycleIds.HandedOut;
  }

  /** One step of any thread. */
  lemma AdvanceKeepsInv(s: State, t: nat, mem: Addr, spurious: bool)
    requires Inv(s) && Enabled(s, Advance(t, mem, spurious))
    ensures Inv(Step(s, t, mem, spurious))
  {
    hide Lists, IdsOk, CacheOk, DoneOk, StepOf;
    AdvanceKeepsLists(s, t, mem, spurious);
    AdvanceIsStepOf(s, t, mem, spurious);
    StepKeepsIdsOk(s, Step(s, t, mem, spurious), t);
    forall u ensures CacheOk(Step(s, t, mem, spurious), u) && DoneOk(Step(s, t, mem, spurious), u) {
      AdvanceKeepsCaches(s, t, mem, spurious, u);
      AdvanceKeepsDone(s, t, mem, spurious, u);
    }
  }

  lemma BeginKeepsInv(s: State, t: nat, a: nat, tagged: bool)
    requires Inv(s) && Enabled(s, Begin(t, a, tagged))
    ensures Inv(Do(s, Begin(t, a, tagged)))
  {
    hide Lists, IdsOk, ArenasOk;
    BeginKeepsLists(s, t, a, tagged);
    var s' := Do(s, Begin(t, a, tagged));
    assert IdsOk(s') by { SameIdsOk(s, s'); }
    forall u ensures CacheOk(s', u) && DoneOk(s', u) { assert CacheOk(s, u) && DoneOk(s, u); }
  }

  lemma SameIdsOk(s: State, s': State)
    requires IdsOk(s) && s'.arenas == s.arenas && s'.ids == s.ids
    ensures IdsOk(s')
  {}
}
