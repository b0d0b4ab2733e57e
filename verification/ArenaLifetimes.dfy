// Construction, Reset and destruction among all the other steps, and the
// theorems about every run.
module ArenaLifetimes {
  import opened Options
  import opened ArenaSteps
  import opened ArenaSafety
  import LifecycleIds

  /** Every node on a list of s, or in the hands of a thread, is the same in s'. */
  ghost predicate KeepsNodes(s: State, s': State) {
    && (forall a, i :: a in s'.arenas && a in s.arenas && 0 <= i < |s.arenas[a].chain| ==>
          NodeKept(s, s', s.arenas[a].chain[i]))
    && (forall t :: Private(PcOf(s, t)).Some? ==> NodeKept(s, s', Private(PcOf(s, t)).value))
  }

  ghost predicate NodeKept(s: State, s': State, n: Addr) {
    n in s.heap ==> n in s'.heap && s'.heap[n] == s.heap[n]
  }

  lemma ListedIsKept(s: State, s': State, a: nat, i: nat)
    requires KeepsNodes(s, s') && a in s.arenas && a in s'.arenas && i < |s.arenas[a].chain| && ArenaOk(s, s.arenas[a])
    ensures s.arenas[a].chain[i] in s'.heap && s.arenas[a].chain[i] in s.heap
    ensures s'.heap[s.arenas[a].chain[i]] == s.heap[s.arenas[a].chain[i]]
  {
    assert NodeKept(s, s', s.arenas[a].chain[i]);
  }

  lemma KeptArenaIsOk(s: State, s': State, a: nat)
    requires ArenasOk(s) && KeepsNodes(s, s') && a in s.arenas && a in s'.arenas && s'.arenas[a] == s.arenas[a]
    ensures ArenaOk(s', s'.arenas[a])
  {
    hide KeepsNodes, ArenasOk;
    assert ArenaOk(s, s.arenas[a]) by { assert ArenasOk(s); OneArenaIsOk(s, a); }
    var chain := s.arenas[a].chain;
    forall i | 0 <= i < |chain|
      ensures chain[i] in s'.heap && chain[i] in s.heap && s'.heap[chain[i]] == s.heap[chain[i]]
    {
      ListedIsKept(s, s', a, i);
    }
  }

  lemma OneArenaIsOk(s: State, a: nat)
    requires ArenasOk(s) && a in s.arenas
    ensures ArenaOk(s, s.arenas[a])
  {}

  lemma KeptMine(s: State, s': State, a: nat, n: Addr, t: nat)
    requires ArenasOk(s) && KeepsNodes(s, s') && a in s.arenas && a in s'.arenas && s'.arenas[a] == s.arenas[a]
    ensures Mine(s, a, n, t) ==> Mine(s', a, n, t)
  {
    hide KeepsNodes, ArenasOk;
    OneArenaIsOk(s, a);
    if Mine(s, a, n, t) {
      var i :| 0 <= i < |s.arenas[a].chain| && s.arenas[a].chain[i] == n;
      ListedIsKept(s, s', a, i);
    }
  }

  lemma KeptNoneOwned(s: State, s': State, a: nat, k: nat, t: nat)
    requires ArenasOk(s) && KeepsNodes(s, s') && a in s.arenas && a in s'.arenas && s'.arenas[a] == s.arenas[a]
    requires k <= |s.arenas[a].chain| && NoneOwned(s, s.arenas[a].chain[..k], t)
    ensures NoneOwned(s', s'.arenas[a].chain[..k], t)
  {
    hide KeepsNodes, ArenasOk;
    OneArenaIsOk(s, a);
    var chain := s.arenas[a].chain;
    forall i | 0 <= i < k ensures Owner(s', chain[i]) != t {
      assert chain[..k][i] == chain[i];
      ListedIsKept(s, s', a, i);
    }
  }

  /** A thread whose arena is left alone does not notice. */
  lemma KeptPc(s: State, s': State, t: nat)
    requires ArenasOk(s) && KeepsNodes(s, s') && PcOk(s, t) && PrivateOk(s, t) && PcOf(s', t) == PcOf(s, t)
    requires !PcOf(s, t).Idle? ==> var a := PcOf(s, t).a; a in s.arenas && a in s'.arenas && s'.arenas[a] == s.arenas[a]
    ensures PcOk(s', t)
  {
    hide ArenasOk, KeepsNodes, Mine, NoneOwned, PrivateOk;
    var pc := PcOf(s, t);
    if pc != Idle {
      var chain := s.arenas[pc.a].chain;
      assert chain[..|chain|] == chain;
      match pc
      case Search(a, at, left) => KeptNoneOwned(s, s', a, |chain| - left, t);
      case NewSerial(a) => KeptNoneOwned(s, s', a, |chain|, t);
      case LoadAgain(a, n) => KeptNoneOwned(s, s', a, |chain|, t);
      case SetNext(a, n, h) => KeptNoneOwned(s, s', a, |chain|, t);
      case Cas(a, n, h) => KeptNoneOwned(s, s', a, |chain|, t); KeptPrivate(s, s', t);
      case WriteCache(a, n) => KeptMine(s, s', a, n, t);
      case StoreHint(a, n) => KeptMine(s, s', a, n, t);
      case _ =>
    }
  }

  lemma KeptDone(s: State, s': State, t: nat)
    requires ArenasOk(s) && KeepsNodes(s, s') && DoneOk(s, t) && PcOf(s', t) == PcOf(s, t)
    requires PcOf(s, t).Done? ==> var a := PcOf(s, t).a; a in s.arenas && a in s'.arenas && s'.arenas[a] == s.arenas[a]
    ensures DoneOk(s', t)
  {
    hide ArenasOk, KeepsNodes, Mine;
    if PcOf(s, t).Done? && PcOf(s, t).result.Some? { KeptMine(s, s', PcOf(s, t).a, PcOf(s, t).result.value, t); }
  }

  lemma KeptPrivate(s: State, s': State, t: nat)
    requires KeepsNodes(s, s') && PrivateOk(s, t) && Private(PcOf(s, t)).Some?
    ensures var n := Private(PcOf(s, t)).value; n in s'.heap && s'.heap[n] == s.heap[n] && NodeAt(s', n) == NodeAt(s, n)
  {
    assert NodeKept(s, s', Private(PcOf(s, t)).value);
  }

  lemma KeptCache(s: State, s': State, t: nat)
    requires ArenasOk(s) && KeepsNodes(s, s') && CacheOk(s, t) && CacheOf(s', t) == CacheOf(s, t)
    requires CacheOf(s, t).seen == SENTINEL || CacheOf(s, t).seen in LifecycleIds.HandedOut(s'.ids)
    requires forall a :: a in s'.arenas ==>
               (a in s.arenas && s'.arenas[a] == s.arenas[a]) || Id(s'.arenas[a]) != CacheOf(s, t).seen
    ensures CacheOk(s', t)
  {
    hide ArenasOk, KeepsNodes, Mine, LifecycleIds.HandedOut;
    forall a | a in s'.arenas && CacheOf(s', t).seen == Id(s'.arenas[a])
      ensures CacheOf(s', t).serial.Some? && Mine(s', a, CacheOf(s', t).serial.value, t)
    {
      KeptMine(s, s', a, CacheOf(s, t).serial.value, t);
    }
  }

  // ------------------------------------------------------------- destruction

  lemma DestroyKeepsNodes(s: State, t: nat, a: nat)
    requires Lists(s) && Enabled(s, Destroy(t, a))
    ensures KeepsNodes(s, Do(s, Destroy(t, a)))
  {
    hide ArenasOk, PcOk;
    var s' := Do(s, Destroy(t, a));
    forall b, i | b in s'.arenas && 0 <= i < |s.arenas[b].chain| ensures NodeKept(s, s', s.arenas[b].chain[i]) {
      assert s.arenas[b].chain[i] !in s.arenas[a].chain;
    }
    forall u | Private(PcOf(s, u)).Some? ensures NodeKept(s, s', Private(PcOf(s, u)).value) {
      assert PrivateOk(s, u);
    }
  }

  /** Destroying an arena takes its nodes, which no other arena's list or thread needs. */
  lemma DestroyKeepsLists(s: State, t: nat, a: nat)
    requires Lists(s) && Enabled(s, Destroy(t, a))
    ensures Lists(Do(s, Destroy(t, a)))
  {
    hide ArenaOk, PcOk, PrivateOk, KeepsNodes;
    var s' := Do(s, Destroy(t, a));
    DestroyKeepsNodes(s, t, a);
    forall b | b in s'.arenas ensures ArenaOk(s', s'.arenas[b]) { KeptArenaIsOk(s, s', b); }
    forall u ensures PcOk(s', u) && PrivateOk(s', u) {
      assert PcOk(s, u) && PrivateOk(s, u);
      PcInArenas(s, u);
      KeptPc(s, s', u);
      KeptPrivateIsOk(s, s', u);
    }
  }

  /** And no cache match, nor the answer that a thread has just got. */
  lemma DestroyKeepsInv(s: State, t: nat, a: nat)
    requires Inv(s) && Enabled(s, Destroy(t, a))
    ensures Inv(Do(s, Destroy(t, a)))
  {
    hide IdsOk, CacheOk, DoneOk, PcOk, PrivateOk, ArenasOk, Separate, KeepsNodes;
    var s' := Do(s, Destroy(t, a));
    DestroyKeepsNodes(s, t, a);
    DestroyKeepsLists(s, t, a);
    assert IdsOk(s') by { FewerArenas(s, s', a); }
    forall u ensures CacheOk(s', u) && DoneOk(s', u) {
      assert CacheOk(s, u) && DoneOk(s, u) && PcOk(s, u);
      CacheIsKnown(s, u);
      KeptCache(s, s', u);
      PcInArenas(s, u);
      KeptDone(s, s', u);
    }
  }

  lemma FewerArenas(s: State, s': State, a: nat)
    requires IdsOk(s) && s'.ids == s.ids && s'.arenas == s.arenas - {a}
    ensures IdsOk(s')
  {
    hide LifecycleIds.HandedOut, LifecycleIds.Inv;
  }

  lemma CacheIsKnown(s: State, u: nat)
    requires CacheOk(s, u)
    ensures CacheOf(s, u).seen == SENTINEL || CacheOf(s, u).seen in LifecycleIds.HandedOut(s.ids)
  {}

  lemma PcInArenas(s: State, u: nat)
    requires PcOk(s, u)
    ensures !PcOf(s, u).Idle? ==> PcOf(s, u).a in s.arenas
  {}

  lemma KeptPrivateIsOk(s: State, s': State, u: nat)
    requires KeepsNodes(s, s') && PrivateOk(s, u) && PcOf(s', u) == PcOf(s, u)
    requires forall a :: a in s'.arenas && Private(PcOf(s, u)).Some? ==>
               (a in s.arenas && s'.arenas[a] == s.arenas[a]) || Private(PcOf(s, u)).value !in s'.arenas[a].chain
    ensures PrivateOk(s', u)
  {
    if Private(PcOf(s, u)).Some? { KeptPrivate(s, s', u); }
  }

  // ------------------------------------------------------------- construction

  ghost predicate CanInitialize(s: State, t: nat, a: nat, initial: Option<Addr>) {
    PcOf(s, t).Idle? && a !in s.arenas && (initial.Some? ==> initial.value !in s.heap)
  }

  lemma InitializeKeepsNodes(s: State, t: nat, a: nat, record: bool, initial: Option<Addr>)
    requires CanInitialize(s, t, a, initial)
    ensures KeepsNodes(s, Initialize(s, t, a, record, initial))
  {}

  /** The new id is that of no living arena and is in no cache. */
  lemma InitializeKeepsIds(s: State, t: nat, a: nat, record: bool, initial: Option<Addr>)
    requires IdsOk(s) && a !in s.arenas && LifecycleIds.Init(s.ids, t).fetches <= LifecycleIds.BATCHES
    ensures var s' := Initialize(s, t, a, record, initial);
            && IdsOk(s')
            && Id(s'.arenas[a]) == LifecycleIds.Id(s.ids, t)
            && Id(s'.arenas[a]) !in LifecycleIds.HandedOut(s.ids) && Id(s'.arenas[a]) % 2 == 0
            && LifecycleIds.HandedOut(s'.ids) == LifecycleIds.HandedOut(s.ids) + [Id(s'.arenas[a])]
  {
    hide LifecycleIds.Init, LifecycleIds.Id, LifecycleIds.Inv, LifecycleIds.HandedOut, Initialize;
    LifecycleIds.NewIdIsFresh(s.ids, t);
    LifecycleIds.InitKeepsInv(s.ids, t);
    InitializedArena(s, t, a, record, initial);
    IdsStayDistinct(s, Initialize(s, t, a, record, initial), a, LifecycleIds.Id(s.ids, t));
  }

  lemma InitializedArena(s: State, t: nat, a: nat, record: bool, initial: Option<Addr>)
    requires LifecycleIds.Id(s.ids, t) % 2 == 0
    ensures var s' := Initialize(s, t, a, record, initial);
            && s'.ids == LifecycleIds.Init(s.ids, t)
            && a in s'.arenas && s'.arenas == s.arenas[a := s'.arenas[a]]
            && Id(s'.arenas[a]) == LifecycleIds.Id(s.ids, t)
  {
    hide LifecycleIds.Init, LifecycleIds.Id;
  }

  lemma IdsStayDistinct(s: State, s': State, a: nat, id: nat)
    requires IdsOk(s) && a !in s.arenas && a in s'.arenas && s'.arenas == s.arenas[a := s'.arenas[a]]
    requires Id(s'.arenas[a]) == id && id !in LifecycleIds.HandedOut(s.ids) && LifecycleIds.Inv(s'.ids)
    requires LifecycleIds.HandedOut(s'.ids) == LifecycleIds.HandedOut(s.ids) + [id]
    ensures IdsOk(s')
  {
    hide LifecycleIds.Inv, LifecycleIds.HandedOut, Id;
  }

  lemma InitializeKeepsArenas(s: State, t: nat, a: nat, record: bool, initial: Option<Addr>)
    requires ArenasOk(s) && Separate(s) && CanInitialize(s, t, a, initial)
    ensures ArenasOk(Initialize(s, t, a, record, initial)) && Separate(Initialize(s, t, a, record, initial))
  {
    hide ArenaOk, LifecycleIds.Init, LifecycleIds.Id, KeepsNodes;
    var s' := Initialize(s, t, a, record, initial);
    InitializeKeepsNodes(s, t, a, record, initial);
    forall b | b in s'.arenas ensures ArenaOk(s', s'.arenas[b]) {
      if b != a { KeptArenaIsOk(s, s', b); } else { InitializedArenaIsOk(s, t, a, record, initial); }
    }
    if initial.Some? {
      forall b | b in s.arenas ensures initial.value !in s.arenas[b].chain { ListedIsInHeap(s, b); }
    }
  }

  lemma InitializedArenaIsOk(s: State, t: nat, a: nat, record: bool, initial: Option<Addr>)
    ensures var s' := Initialize(s, t, a, record, initial); ArenaOk(s', s'.arenas[a])
  {}

  lemma ListedIsInHeap(s: State, a: nat)
    requires a in s.arenas && ArenaOk(s, s.arenas[a])
    ensures forall n :: n in s.arenas[a].chain ==> n in s.heap
  {}

  lemma InitializedCacheIsOk(s: State, s': State, t: nat, a: nat, n: Addr)
    requires a in s'.arenas && s'.arenas[a].chain == [n] && Owner(s', n) == t
    requires CacheOf(s', t) == Cache(Id(s'.arenas[a]), Some(n)) && IdsOk(s')
    ensures CacheOk(s', t)
  {
    hide LifecycleIds.HandedOut, LifecycleIds.Inv;
  }

  lemma InitializeKeepsCaches(s: State, t: nat, a: nat, record: bool, initial: Option<Addr>, u: nat)
    requires ArenasOk(s) && IdsOk(s) && CacheOk(s, u) && CanInitialize(s, t, a, initial)
    requires LifecycleIds.Init(s.ids, t).fetches <= LifecycleIds.BATCHES
    ensures CacheOk(Initialize(s, t, a, record, initial), u)
  {
    hide CacheOk, IdsOk, ArenasOk, LifecycleIds.Init, LifecycleIds.Id, LifecycleIds.HandedOut, KeepsNodes;
    var s' := Initialize(s, t, a, record, initial);
    InitializeKeepsNodes(s, t, a, record, initial);
    InitializeKeepsIds(s, t, a, record, initial);
    if u == t && initial.Some? {
      InitializedCacheIsOk(s, s', t, a, initial.value);
    } else {
      CacheIsKnown(s, u);
      KeptCache(s, s', u);
    }
  }

  lemma InitializeKeepsThreads(s: State, t: nat, a: nat, record: bool, initial: Option<Addr>, u: nat)
    requires ArenasOk(s) && PcOk(s, u) && PrivateOk(s, u) && CanInitialize(s, t, a, initial)
    ensures PcOk(Initialize(s, t, a, record, initial), u) && PrivateOk(Initialize(s, t, a, record, initial), u)
  {
    hide ArenasOk, PcOk, PrivateOk, LifecycleIds.Init, LifecycleIds.Id, KeepsNodes;
    var s' := Initialize(s, t, a, record, initial);
    InitializeKeepsNodes(s, t, a, record, initial);
    PcInArenas(s, u);
    KeptPc(s, s', u);
    PrivateInHeap(s, u);
    KeptPrivateIsOk(s, s', u);
  }

  lemma PrivateInHeap(s: State, u: nat)
    requires PrivateOk(s, u)
    ensures Private(PcOf(s, u)).Some? ==> Private(PcOf(s, u)).value in s.heap
  {}

  lemma InitializeKeepsLists(s: State, t: nat, a: nat, record: bool, initial: Option<Addr>)
    requires Lists(s) && CanInitialize(s, t, a, initial)
    ensures Lists(Initialize(s, t, a, record, initial))
  {
    hide ArenasOk, Separate, PcOk, PrivateOk, Initialize, LifecycleIds.Init;
    InitializeKeepsArenas(s, t, a, record, initial);
    forall u
      ensures PcOk(Initialize(s, t, a, record, initial), u) && PrivateOk(Initialize(s, t, a, record, initial), u)
    {
      assert PcOk(s, u) && PrivateOk(s, u);
      InitializeKeepsThreads(s, t, a, record, initial, u);
    }
  }

  lemma InitializeKeepsDone(s: State, t: nat, a: nat, record: bool, initial: Option<Addr>, u: nat)
    requires ArenasOk(s) && DoneOk(s, u) && CanInitialize(s, t, a, initial)
    ensures DoneOk(Initialize(s, t, a, record, initial), u)
  {
    hide ArenasOk, LifecycleIds.Init, LifecycleIds.Id, KeepsNodes, Mine;
    InitializeKeepsNodes(s, t, a, record, initial);
    KeptDone(s, Initialize(s, t, a, record, initial), u);
  }

  lemma InitializeKeepsInv(s: State, t: nat, a: nat, record: bool, initial: Option<Addr>)
    requires Inv(s) && CanInitialize(s, t, a, initial) && LifecycleIds.Init(s.ids, t).fetches <= LifecycleIds.BATCHES
    ensures Inv(Initialize(s, t, a, record, initial))
  {
    hide ArenasOk, Separate, IdsOk, CacheOk, DoneOk, PcOk, PrivateOk, Initialize, LifecycleIds.Init;
    InitializeKeepsLists(s, t, a, record, initial);
    InitializeKeepsIds(s, t, a, record, initial);
    forall u
      ensures CacheOk(Initialize(s, t, a, record, initial), u) && DoneOk(Initialize(s, t, a, record, initial), u)
    {
      assert CacheOk(s, u) && DoneOk(s, u);
      InitializeKeepsCaches(s, t, a, record, initial, u);
      InitializeKeepsDone(s, t, a, record, initial, u);
    }
  }

  /** Reset is destruction followed by construction in the same place. */
  lemma ResetIsDestroyAndConstruct(s: State, t: nat, a: nat, initial: Option<Addr>)
    requires Enabled(s, Reset(t, a, initial))
    ensures var s' := Do(s, Destroy(t, a));
            && CanInitialize(s', t, a, initial)
            && Do(s, Reset(t, a, initial)) == Initialize(s', t, a, s.arenas[a].tagAndId % 2 == 1, initial)
  {
    hide LifecycleIds.Init, LifecycleIds.Id;
    var s' := Do(s, Destroy(t, a));
    var record := s.arenas[a].tagAndId % 2 == 1;
    var (r, r') := (Initialize(FreeChain(s, a), t, a, record, initial), Initialize(s', t, a, record, initial));
    assert r.arenas == r'.arenas;
  }

  // -------------------------------------------------------------- new threads

  lemma NewThreadKeepsLists(s: State, t: nat)
    requires Lists(s)
    ensures Lists(NewThread(s, t)) && ArenasOk(s) && KeepsNodes(s, NewThread(s, t))
  {
    hide PcOk, PrivateOk, ArenaOk, Separate, Owner;
    var s' := NewThread(s, t);
    assert Separate(s') by { SameListsStaySeparate(s, s'); }
    forall b | b in s'.arenas ensures ArenaOk(s', s'.arenas[b]) { KeptArenaIsOk(s, s', b); }
    forall u ensures PcOk(s', u) && PrivateOk(s', u) {
      assert PcOk(s, u) && PrivateOk(s, u);
      PcInArenas(s, u);
      KeptPc(s, s', u);
      KeptPrivateIsOk(s, s', u);
    }
  }

  lemma SameListsStaySeparate(s: State, s': State)
    requires Separate(s) && s'.arenas == s.arenas
    ensures Separate(s')
  {}

  /**
   * A thread at the address of one that has ended takes over its serial
   * arenas, and matches no id with its empty cache.
   */
  lemma NewThreadKeepsInv(s: State, t: nat)
    requires Inv(s)
    ensures Inv(NewThread(s, t))
  {
    hide IdsOk, CacheOk, DoneOk, PcOk, PrivateOk, ArenasOk, Separate, KeepsNodes;
    var s' := NewThread(s, t);
    NewThreadKeepsLists(s, t);
    NewThreadKeepsIds(s, t);
    forall u ensures CacheOk(s', u) && DoneOk(s', u) {
      assert CacheOk(s, u) && DoneOk(s, u) && PcOk(s, u);
      PcInArenas(s, u);
      KeptDone(s, s', u);
      if u == t {
        EmptyCacheIsOk(s', t);
      } else {
        CacheIsKnown(s, u);
        KeptCache(s, s', u);
      }
    }
  }

  lemma NewThreadKeepsIds(s: State, t: nat)
    requires IdsOk(s)
    ensures IdsOk(NewThread(s, t))
    ensures LifecycleIds.HandedOut(NewThread(s, t).ids) == LifecycleIds.HandedOut(s.ids)
  {
    hide LifecycleIds.Inv, LifecycleIds.HandedOut;
    LifecycleIds.ForgetKeepsInv(s.ids, t);
  }

  lemma EmptyCacheIsOk(s: State, t: nat)
    requires IdsOk(s) && t !in s.caches
    ensures CacheOk(s, t)
  {
    hide LifecycleIds.Inv, LifecycleIds.HandedOut;
    forall a | a in s.arenas ensures Id(s.arenas[a]) != SENTINEL { HandedOutIsEven(s, Id(s.arenas[a])); }
  }

  // ---------------------------------------------------------------- all runs

  /** The number of batches fetched never goes down. */
  lemma FetchesGrow(s: State, act: Action)
    requires Enabled(s, act)
    ensures s.ids.fetches <= Do(s, act).ids.fetches
  {
    match act
    case Advance(t, mem, spurious) => StepKeepsIds(s, t, mem, spurious);
    case _ =>
  }

  lemma StepKeepsIds(s: State, t: nat, mem: Addr, spurious: bool)
    requires Enabled(s, Advance(t, mem, spurious))
    ensures Step(s, t, mem, spurious).ids == s.ids
  {}

  lemma DoKeepsLists(s: State, act: Action)
    requires Lists(s) && Enabled(s, act)
    ensures Lists(Do(s, act))
  {
    hide Lists, Initialize;
    match act
    case Begin(t, a, tagged) => BeginKeepsLists(s, t, a, tagged);
    case Advance(t, mem, spurious) => AdvanceKeepsLists(s, t, mem, spurious);
    case Construct(t, a, record, initial) => InitializeKeepsLists(s, t, a, record, initial);
    case Reset(t, a, initial) =>
      DestroyKeepsLists(s, t, a);
      ResetIsDestroyAndConstruct(s, t, a, initial);
      InitializeKeepsLists(Do(s, Destroy(t, a)), t, a, s.arenas[a].tagAndId % 2 == 1, initial);
    case Destroy(t, a) => DestroyKeepsLists(s, t, a);
    case Restart(t) => NewThreadKeepsLists(s, t);
  }

  lemma DoKeepsInv(s: State, act: Action)
    requires Inv(s) && Enabled(s, act) && Do(s, act).ids.fetches <= LifecycleIds.BATCHES
    ensures Inv(Do(s, act))
  {
    hide Inv, Initialize, LifecycleIds.Init, LifecycleIds.Id;
    match act
    case Begin(t, a, tagged) => BeginKeepsInv(s, t, a, tagged);
    case Advance(t, mem, spurious) => AdvanceKeepsInv(s, t, mem, spurious);
    case Construct(t, a, record, initial) =>
      assert Do(s, act).ids == LifecycleIds.Init(s.ids, t) by { InitializeCallsInit(s, t, a, record, initial); }
      InitializeKeepsInv(s, t, a, record, initial);
    case Reset(t, a, initial) =>
      var s' := Do(s, Destroy(t, a));
      DestroyKeepsInv(s, t, a);
      ResetIsDestroyAndConstruct(s, t, a, initial);
      InitializeCallsInit(s', t, a, s.arenas[a].tagAndId % 2 == 1, initial);
      InitializeKeepsInv(s', t, a, s.arenas[a].tagAndId % 2 == 1, initial);
    case Destroy(t, a) => DestroyKeepsInv(s, t, a);
    case Restart(t) => NewThreadKeepsInv(s, t);
  }

  lemma InitializeCallsInit(s: State, t: nat, a: nat, record: bool, initial: Option<Addr>)
    ensures Initialize(s, t, a, record, initial).ids == LifecycleIds.Init(s.ids, t)
  {}

  lemma StartIsOk()
    ensures Inv(START)
  {
    LifecycleIds.StartIsOk();
    forall t ensures CacheOk(START, t) && DoneOk(START, t) && PcOk(START, t) && PrivateOk(START, t) {}
  }

  /** Every interleaving keeps the lists, for ever. */
  lemma {:induction false} RunKeepsLists(states: seq<State>, acts: seq<Action>, n: nat)
    requires IsRun(states, acts) && n < |states|
    ensures Lists(states[n])
  {
    hide Lists, Enabled, Do;
    if n == 0 {
      assert Lists(START) by { StartIsOk(); }
    } else {
      assert states[n - 1 + 1] == Do(states[n - 1], acts[n - 1]);
      RunKeepsLists(states, acts, n - 1);
      DoKeepsLists(states[n - 1], acts[n - 1]);
    }
  }

  /** Every interleaving keeps the invariant, until more batches are fetched than there are. */
  lemma {:induction false} RunKeepsInv(states: seq<State>, acts: seq<Action>, n: nat)
    requires IsRun(states, acts) && n < |states| && states[n].ids.fetches <= LifecycleIds.BATCHES
    ensures Inv(states[n])
  {
    hide Inv, Enabled, Do;
    if n == 0 {
      StartIsOk();
    } else {
      assert states[n - 1 + 1] == Do(states[n - 1], acts[n - 1]);
      FetchesGrow(states[n - 1], acts[n - 1]);
      RunKeepsInv(states, acts, n - 1);
      DoKeepsInv(states[n - 1], acts[n - 1]);
    }
  }

  /** The search that the slow path makes from head: the first node of the thread, if there is one. */
  function SlowSearch(s: State, chain: seq<Addr>, t: nat): Option<Addr> {
    if chain == [] then None
    else if Owner(s, chain[0]) == t then Some(chain[0])
    else SlowSearch(s, chain[1..], t)
  }

  lemma {:induction false} SlowSearchFindsTheOnlyOne(s: State, chain: seq<Addr>, t: nat, n: Addr)
    requires OwnersDiffer(s, chain) && n in chain && Owner(s, n) == t
    ensures SlowSearch(s, chain, t) == Some(n)
  {
    if Owner(s, chain[0]) == t {
      var i :| 0 <= i < |chain| && chain[i] == n;
    } else {
      SlowSearchFindsTheOnlyOne(s, chain[1..], t, n);
    }
  }

  /**
   * In every reachable state an operation returns only the serial arena that
   * is in this arena's present list and owned by the calling thread: the one
   * that the slow search would find. It does not matter if the answer came
   * from the thread cache, from hint_, from the search or from a push. It
   * takes that ids have not come back, and that the arena is not the one whose
   * tagged id is the value in a new thread's cache.
   */
  lemma LookupIsRight(states: seq<State>, acts: seq<Action>, n: nat, t: nat)
    requires IsRun(states, acts) && n < |states| && states[n].ids.fetches <= LifecycleIds.BATCHES
    requires PcOf(states[n], t).Done?
    ensures var (s, pc) := (states[n], PcOf(states[n], t));
            && pc.a in s.arenas
            && (s.arenas[pc.a].tagAndId != SENTINEL ==> AnswerIsRight(s, t))
  {
    hide IsRun, IdsOk, CacheOk, Separate;
    RunKeepsInv(states, acts, n);
    var (s, pc) := (states[n], PcOf(states[n], t));
    assert PcOk(s, t) && DoneOk(s, t) && ArenaOk(s, s.arenas[pc.a]);
    if s.arenas[pc.a].tagAndId != SENTINEL {
      SlowSearchFindsTheOnlyOne(s, s.arenas[pc.a].chain, t, pc.result.value);
    }
  }

  /** What a finished lookup owes its caller. */
  ghost predicate AnswerIsRight(s: State, t: nat)
    requires PcOf(s, t).Done? && PcOf(s, t).a in s.arenas
  {
    var (chain, result) := (s.arenas[PcOf(s, t).a].chain, PcOf(s, t).result);
    && result.Some? && result.value in chain && result.value in s.heap && s.heap[result.value].owner == t
    && SlowSearch(s, chain, t) == result
  }

  /** While a whole batch is left, no arena has that tag. */
  lemma NoLastIdWhileBatchLeft(s: State, a: nat)
    requires Inv(s) && a in s.arenas && s.ids.fetches < LifecycleIds.BATCHES
    ensures s.arenas[a].tagAndId != SENTINEL
  {
    hide LifecycleIds.HandedOut, LifecycleIds.Inv;
    LifecycleIds.IdsAreBelowLast(s.ids, Id(s.arenas[a]));
  }

  /** And if a cache would match, it is right as well: a stale one never matches. */
  lemma StaleEntriesNeverMatch(states: seq<State>, acts: seq<Action>, n: nat, t: nat, a: nat)
    requires IsRun(states, acts) && n < |states| && states[n].ids.fetches <= LifecycleIds.BATCHES
    requires a in states[n].arenas
    ensures var (s, ar) := (states[n], states[n].arenas[a]);
            (CacheOf(s, t).seen == ar.tagAndId && ar.tagAndId != SENTINEL) || CacheOf(s, t).seen == Id(ar) ==>
              CacheOf(s, t).serial.Some? && CacheOf(s, t).serial == SlowSearch(s, ar.chain, t)
  {
    hide IsRun, IdsOk, CacheOk, Separate;
    RunKeepsInv(states, acts, n);
    var (s, ar) := (states[n], states[n].arenas[a]);
    assert CacheOk(s, t) && ArenaOk(s, ar);
    if (CacheOf(s, t).seen == ar.tagAndId && ar.tagAndId != SENTINEL) || CacheOf(s, t).seen == Id(ar) {
      MatchingCacheIsMine(s, t, a, CacheOf(s, t).seen);
      SlowSearchFindsTheOnlyOne(s, ar.chain, t, CacheOf(s, t).serial.value);
    }
  }

  /**
   * In every reachable state, however many ids were used: lists are what the
   * pointers say, without a cycle, and hold at most one serial arena a
   * thread; and a hint is in the list, so that the thread's own is right.
   */
  lemma ListsAreSound(states: seq<State>, acts: seq<Action>, n: nat, a: nat)
    requires IsRun(states, acts) && n < |states| && a in states[n].arenas
    ensures var (s, ar) := (states[n], states[n].arenas[a]);
            && Linked(s, ar)
            && (forall i, j :: 0 <= i < j < |ar.chain| ==>
                  ar.chain[i] != ar.chain[j] && Owner(s, ar.chain[i]) != Owner(s, ar.chain[j]))
            && (ar.hint.Some? ==>
                  ar.hint.value in s.heap && ar.hint == SlowSearch(s, ar.chain, Owner(s, ar.hint.value)))
  {
    hide IsRun, Separate, SlowSearch;
    RunKeepsLists(states, acts, n);
    var (s, ar) := (states[n], states[n].arenas[a]);
    assert ArenaOk(s, ar);
    if ar.hint.Some? { SlowSearchFindsTheOnlyOne(s, ar.chain, Owner(s, ar.hint.value), ar.hint.value); }
  }

  /** Until the arena is reset or destroyed its list only grows, and only in front: nothing published is lost. */
  lemma {:induction false} ListOnlyGrows(states: seq<State>, acts: seq<Action>, m: nat, n: nat, a: nat)
    requires IsRun(states, acts) && m <= n < |states| && a in states[m].arenas
    requires forall i :: m <= i < n ==> !(acts[i].Reset? && acts[i].a == a) && !(acts[i].Destroy? && acts[i].a == a)
    ensures a in states[n].arenas
    ensures IsSuffix(states[m].arenas[a].chain, states[n].arenas[a].chain)
    decreases n - m
  {
    hide Enabled, Do, IsSuffix;
    var c := states[m].arenas[a].chain;
    if m < n {
      ListOnlyGrows(states, acts, m, n - 1, a);
      assert states[n - 1 + 1] == Do(states[n - 1], acts[n - 1]);
      ChainStep(states[n - 1], acts[n - 1], a);
      SuffixStep(c, states[n - 1].arenas[a].chain, states[n].arenas[a].chain);
    } else {
      SuffixStep(c, c, c);
    }
  }

  ghost predicate IsSuffix(c: seq<Addr>, d: seq<Addr>) {
    |c| <= |d| && d[|d| - |c|..] == c
  }

  lemma SuffixStep(c: seq<Addr>, b: seq<Addr>, d: seq<Addr>)
    requires IsSuffix(c, b) || b == c
    requires d == b || (|d| == |b| + 1 && d[1..] == b)
    ensures IsSuffix(c, d)
  {
    if |d| > |b| { assert d[|d| - |c|..] == d[1..][|b| - |c|..]; }
  }

  lemma ChainStep(s: State, act: Action, a: nat)
    requires Enabled(s, act) && a in s.arenas
    requires !(act.Reset? && act.a == a) && !(act.Destroy? && act.a == a)
    ensures a in Do(s, act).arenas
    ensures var (c, c') := (s.arenas[a].chain, Do(s, act).arenas[a].chain);
            c' == c || (|c'| == |c| + 1 && c'[1..] == c)
  {
    hide LifecycleIds.Init, LifecycleIds.Id;
  }

  // ------------------------------------------------- what happens beyond that

  ghost predicate Reachable(s: State) {
    exists states, acts :: IsRun(states, acts) && states[|acts|] == s
  }

  lemma StartIsReachable()
    ensures Reachable(START)
  {
    assert IsRun([START], []);
  }

  lemma StepIsReachable(s: State, act: Action)
    requires Reachable(s) && Enabled(s, act)
    ensures Reachable(Do(s, act))
  {
    hide Enabled, Do;
    var states, acts :| IsRun(states, acts) && states[|acts|] == s;
    var states', acts' := states + [Do(s, act)], acts + [act];
    forall i | 0 <= i < |acts'| ensures Enabled(states'[i], acts'[i]) && states'[i + 1] == Do(states'[i], acts'[i]) {
      if i < |acts| { assert states'[i] == states[i] && states'[i + 1] == states[i + 1] && acts'[i] == acts[i]; }
    }
    assert IsRun(states', acts');
  }

  /** n calls of Init by one thread. */
  function Inits(ids: LifecycleIds.Ids, t: nat, n: nat): LifecycleIds.Ids {
    if n == 0 then ids else LifecycleIds.Init(Inits(ids, t, n - 1), t)
  }

  /** A thread can use up ids by constructing and destroying an arena without an initial block. */
  lemma {:induction false} IdsAreUsedUp(s: State, t: nat, a: nat, n: nat)
    requires Reachable(s) && PcOf(s, t).Idle? && a !in s.arenas && (forall u :: PcOf(s, u).Idle?)
    ensures Reachable(s.(ids := Inits(s.ids, t, n)))
  {
    hide LifecycleIds.Init, LifecycleIds.Id, Reachable;
    if n > 0 {
      IdsAreUsedUp(s, t, a, n - 1);
      var s0 := s.(ids := Inits(s.ids, t, n - 1));
      assert forall u :: PcOf(s0, u) == PcOf(s, u);
      var s1 := Do(s0, Construct(t, a, false, None));
      StepIsReachable(s0, Construct(t, a, false, None));
      assert forall u :: PcOf(s1, u) == PcOf(s, u);
      StepIsReachable(s1, Destroy(t, a));
      var s2 := Do(s1, Destroy(t, a));
      assert s2.heap == s.heap;
      assert s2.arenas == s.arenas;
    } else {
      assert s.(ids := s.ids) == s;
    }
  }

  /** The ids of one thread alone are 0, 2, 4 and so on, round the 64 bits. */
  lemma {:induction false} OneThreadsIds(t: nat, n: nat)
    ensures var ids := Inits(LifecycleIds.START, t, n);
            && LifecycleIds.NextOf(ids, t) == 2 * n % LifecycleIds.WRAP
            && LifecycleIds.Id(ids, t) == 2 * n % LifecycleIds.WRAP
            && ids.fetches == (n + 255) / 256
  {
    if n > 0 {
      OneThreadsIds(t, n - 1);
      NextOfOne(n - 1);
    }
    FirstOfBatch(n);
  }

  lemma NextOfOne(n: nat)
    ensures (2 * n % LifecycleIds.WRAP + LifecycleIds.DELTA) % LifecycleIds.WRAP == 2 * (n + 1) % LifecycleIds.WRAP
    ensures (n + 1 + 255) / 256 ==
            (n + 255) / 256 + if 2 * n % LifecycleIds.WRAP % LifecycleIds.INCREMENT == 0 then 1 else 0
  {
    LifecycleIds.NextOfWrapped(2 * n);
    LifecycleIds.RemainderOfWrapped(2 * n);
    CeilingSteps(n);
  }

  lemma CeilingSteps(n: nat)
    ensures (n + 1 + 255) / 256 == (n + 255) / 256 + if 2 * n % 512 == 0 then 1 else 0
  {
    var k, r := n / 256, n % 256;
    assert n == 256 * k + r;
    assert 2 * n == 512 * k + 2 * r;
    assert (n + 255) / 256 == k + if r == 0 then 0 else 1;
    assert (n + 1 + 255) / 256 == k + 1;
  }

  /** At the start of a batch the counter is at the thread's own next id. */
  lemma FirstOfBatch(n: nat)
    ensures 2 * n % LifecycleIds.WRAP % LifecycleIds.INCREMENT == 0 ==>
              (n + 255) / 256 * LifecycleIds.INCREMENT % LifecycleIds.WRAP == 2 * n % LifecycleIds.WRAP
  {
    LifecycleIds.RemainderOfWrapped(2 * n);
    if 2 * n % LifecycleIds.INCREMENT == 0 {
      var k := n / 256;
      assert n == 256 * k;
      assert (n + 255) / 256 == k;
    }
  }

  /** All ids but the last of 64 bits. */
  const ALL_BUT_LAST: nat := LifecycleIds.WRAP / 2 - 1

  /**
   * The exempt arena exists: with all batches fetched and no id handed out
   * twice, an arena that records allocations gets the last id, whose tagged
   * form is what a new thread's cache holds; its lookup by any other thread
   * then ends at once with a null serial arena.
   */
  lemma LastIdMatchesNewThread(t: nat, a: nat)
    requires t != 0
    ensures exists s :: Reachable(s) && s.ids.fetches == LifecycleIds.BATCHES
                        && a in s.arenas && s.arenas[a].tagAndId == SENTINEL && PcOf(s, t) == Done(a, None)
  {
    hide LifecycleIds.Init, LifecycleIds.Id, Reachable, Inits;
    StartIsReachable();
    IdsAreUsedUp(START, 0, a, ALL_BUT_LAST);
    OneThreadsIds(0, ALL_BUT_LAST);
    OneThreadsIds(0, ALL_BUT_LAST + 1);
    var s0 := START.(ids := Inits(LifecycleIds.START, 0, ALL_BUT_LAST));
    assert forall u :: PcOf(s0, u).Idle?;
    StepIsReachable(s0, Construct(0, a, true, None));
    var s1 := Do(s0, Construct(0, a, true, None));
    assert s1.ids == Inits(LifecycleIds.START, 0, ALL_BUT_LAST + 1) by {
      OneMoreInit(LifecycleIds.START, 0, ALL_BUT_LAST);
    }
    assert s1.arenas[a].tagAndId == SENTINEL;
    assert PcOf(s1, t).Idle?;
    StepIsReachable(s1, Begin(t, a, true));
    var s2 := Do(s1, Begin(t, a, true));
    StepIsReachable(s2, Advance(t, 0, false));
    var s3 := Do(s2, Advance(t, 0, false));
    assert PcOf(s3, t) == Done(a, None);
  }

  lemma OneMoreInit(ids: LifecycleIds.Ids, t: nat, n: nat)
    ensures Inits(ids, t, n + 1) == LifecycleIds.Init(Inits(ids, t, n), t)
  {
    hide LifecycleIds.Init;
  }

  /** A thread whose cache holds a freed serial arena under the id 0, when all ids have been used. */
  function AllUsed(n: Addr): State {
    State(map[], map[], map[0 := Cache(0, Some(n))], map[], Inits(LifecycleIds.START, 0, LifecycleIds.WRAP / 2))
  }

  lemma AllUsedIsReachable(a: nat, n: Addr)
    ensures Reachable(AllUsed(n))
  {
    hide LifecycleIds.Init, LifecycleIds.Id, Reachable, Inits;
    StartIsReachable();
    OneThreadsIds(0, 0);
    assert Inits(LifecycleIds.START, 0, 0) == LifecycleIds.START by { NoInit(LifecycleIds.START, 0); }
    OneMoreInit(LifecycleIds.START, 0, 0);
    StepIsReachable(START, Construct(0, a, false, Some(n)));
    var s0 := Do(START, Construct(0, a, false, Some(n)));
    assert s0.arenas[a].chain == [n] && s0.caches == map[0 := Cache(0, Some(n))];
    assert forall u :: PcOf(s0, u).Idle?;
    StepIsReachable(s0, Destroy(0, a));
    var s1 := Do(s0, Destroy(0, a));
    assert s1.heap == map[] && s1.arenas == map[];
    IdsAreUsedUp(s1, 0, a, ALL_BUT_LAST);
    MoreInits(LifecycleIds.START, 0, 1, ALL_BUT_LAST);
  }

  /**
   * And with one batch more ids come back: a thread that constructed an arena
   * with an initial block and destroyed it finds the freed serial arena in
   * its cache when an arena gets the same id again.
   */
  lemma IdThatComesBackMatches(a: nat, n: Addr)
    ensures exists s :: Reachable(s) && s.ids.fetches == LifecycleIds.BATCHES + 1
                        && a in s.arenas && PcOf(s, 0) == Done(a, Some(n)) && n !in s.heap
  {
    hide LifecycleIds.Init, LifecycleIds.Id, Reachable, Inits;
    AllUsedIsReachable(a, n);
    OneThreadsIds(0, LifecycleIds.WRAP / 2);
    OneThreadsIds(0, LifecycleIds.WRAP / 2 + 1);
    OneMoreInit(LifecycleIds.START, 0, LifecycleIds.WRAP / 2);
    var s0 := AllUsed(n);
    StepIsReachable(s0, Construct(0, a, false, None));
    var s1 := Do(s0, Construct(0, a, false, None));
    assert s1.arenas[a].tagAndId == 0 && PcOf(s1, 0).Idle?;
    StepIsReachable(s1, Begin(0, a, true));
    var s2 := Do(s1, Begin(0, a, true));
    StepIsReachable(s2, Advance(0, 0, false));
    var s3 := Do(s2, Advance(0, 0, false));
    assert PcOf(s3, 0) == Done(a, Some(n));
  }

  lemma NoInit(ids: LifecycleIds.Ids, t: nat)
    ensures Inits(ids, t, 0) == ids
  {}

  lemma {:induction false} MoreInits(ids: LifecycleIds.Ids, t: nat, m: nat, n: nat)
    ensures Inits(Inits(ids, t, m), t, n) == Inits(ids, t, m + n)
  {
    hide LifecycleIds.Init;
    if n > 0 { MoreInits(ids, t, m, n - 1); }
  }
}
