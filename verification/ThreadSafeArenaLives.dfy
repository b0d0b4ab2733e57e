// Every life of a ThreadSafeArena, from construction through requests of any
// threads and resets to destruction.
module ThreadSafeArenaLives {
  import opened Options
  import opened SerialArena
  import opened SerialArenaRuns
  import opened SerialArenaCleanup
  import opened SerialArenaHistory
  import opened ThreadSafeArena
  import opened ThreadSafeArenaRuns

  datatype Step =
    | Request(thread: nat, r: SerialArenaRuns.Request, serialBase: nat, base: nat)
    | ResetBy(thread: nat, base: nat)

  ghost predicate AlignedSteps(steps: seq<Step>) {
    forall i :: 0 <= i < |steps| && steps[i].Request? ==> steps[i].r.n % 8 == 0
  }

  lemma ConstructKeeps(thread: nat, mem: Option<Memory>, config: Option<Config>, base: nat)
    ensures Inv(Construct(thread, mem, config, base), mem)
  {
    hide Inv, InitializeFrom, InitializeWithPolicy;
    var st := Construct(thread, mem, config, base);
    if config.None? || IsDefault(config.value) {
      InitializeFromKeeps(thread, mem, mem, st);
    } else {
      InitializeWithPolicyKeeps(thread, mem, config.value, base, mem, st);
    }
  }

  /** A user's block is used exactly if it is large enough, for the policy too if one is to be stored. */
  lemma UserBlockIsUsedIff(thread: nat, mem: Option<Memory>, config: Option<Config>, base: nat)
    ensures var st := Construct(thread, mem, config, base);
            && (st.arena.userOwned <==>
                  mem.Some? && mem.value.1 >= if st.arena.config.None? then 24 + 56 else 24 + 56 + 40)
            && (forall i :: 0 <= i < |st.arena.members| ==> st.arena.members[i].owner == thread)
            && (st.arena.userOwned ==> |st.arena.members| == 1 && st.heap == Heap(multiset{}, 0)
                                       && FirstMemory(st.arena.members[0].serial) == mem.value)
  {}

  /** The policy in use has a metrics collector. */
  predicate HasCollector(st: State) {
    st.arena.config.Some? && st.arena.config.value.hasCollector
  }

  /** The blocks of an arena that has just been reset. */
  function InitialBlocks(a: Arena, user: Option<Memory>, base: nat): seq<Memory> {
    if a.userOwned then Optional(user)
    else if a.config.Some? then [(base, NextSize(Some(a.config.value.policy), 0, MINIMUM_SIZE))]
    else []
  }

  /**
   * Reset returns what SpaceAllocated was, and reports it to the collector.
   * The user's block is kept; every other block goes back to the allocator.
   */
  lemma ResetKeeps(st: State, user: Option<Memory>, thread: nat, base: nat)
    requires Inv(st, user)
    ensures var (st', space) := Reset(st, thread, base);
            && Inv(st', user)
            && space == SpaceAllocated(st.arena.members)
            && st'.reports == st.reports + (if HasCollector(st) then [SpaceAllocated(st.arena.members)] else [])
            && (forall i :: 0 <= i < |st'.arena.members| ==> st'.arena.members[i].owner == thread)
            && st'.arena.config == st.arena.config && st'.arena.userOwned == st.arena.userOwned
            && AllBlocks(st'.arena.members) == InitialBlocks(st.arena, user, base)
  {
    hide FreeAll, Total, AllSound, OwnersAreDistinct, KeptByOwner, HeapIsExact, SpaceIsExact, FirstMemory;
    FreeAllIsExact(st, user);
    SpaceAllocatedIsSizes(st);
    var (st', space) := Reset(st, thread, base);
    var (freed, last, heap) := FreeAll(st);
    var kept := if st.arena.userOwned then last else None;
    if st.arena.config.Some? {
      InitializeWithPolicyKeeps(thread, kept, st.arena.config.value, base, user, st');
    } else {
      InitializeFromKeeps(thread, kept, user, st');
    }
  }

  lemma SpaceAllocatedIsSizes(st: State)
    requires SpaceIsExact(st)
    ensures SpaceAllocated(st.arena.members) == Sizes(AllBlocks(st.arena.members))
  {}

  /** After destruction nothing is left: every block was returned once, and nothing else ever was. */
  lemma DestroyReturnsAll(st: State, user: Option<Memory>)
    requires Inv(st, user)
    ensures Destroy(st).heap == Heap(multiset{}, 0)
    ensures Destroy(st).reports == st.reports + if HasCollector(st) then [SpaceAllocated(st.arena.members)] else []
  {
    hide FreeAll, Total, AllSound, OwnersAreDistinct, KeptByOwner, UserBlockIsLast, HeapIsExact, SpaceIsExact;
    FreeAllIsExact(st, user);
    SpaceAllocatedIsSizes(st);
  }

  function Do(st: State, step: Step): State
    requires Usable(st.arena)
  {
    match step
    case Request(thread, r, serialBase, base) => Allocate(st, thread, r, serialBase, base)
    case ResetBy(thread, base) => Reset(st, thread, base).0
  }

  /** A life is a sequence of states, each the result of a step on the one before. */
  ghost predicate IsLife(states: seq<State>, steps: seq<Step>) {
    && |states| == |steps| + 1
    && forall i :: 0 <= i < |steps| ==> Usable(states[i].arena) && states[i + 1] == Do(states[i], steps[i])
  }

  /**
   * At every point of every life: the live blocks are the arena's blocks but
   * the user's, which is the first block of the last serial arena; nothing
   * was returned twice or without having been obtained; SpaceUsed is what was
   * requested since the last reset; each thread has its own serial arena.
   */
  lemma {:induction false} LifeKeepsInv(states: seq<State>, steps: seq<Step>, user: Option<Memory>, n: nat)
    requires IsLife(states, steps) && AlignedSteps(steps) && Inv(states[0], user) && n < |states|
    ensures Inv(states[n], user)
  {
    hide Inv, Allocate, Reset;
    if n > 0 {
      LifeKeepsInv(states, steps, user, n - 1);
      var st := states[n - 1];
      assert states[n - 1 + 1] == Do(st, steps[n - 1]);
      match steps[n - 1]
      case Request(thread, r, serialBase, base) => AllocateKeeps(st, user, thread, r, serialBase, base);
      case ResetBy(thread, base) => ResetKeeps(st, user, thread, base);
    }
  }

  // ------------------------------------------------- what was asked for is there

  /** The bytes requested since the last reset, as told by the steps. */
  function BytesAsked(steps: seq<Step>): nat {
    if steps == [] then 0
    else
      match steps[|steps| - 1]
      case Request(_, r, _, _) => BytesAsked(steps[..|steps| - 1]) + r.n
      case ResetBy(_, _) => 0
  }

  /** The cleanups registered since then, each with its thread. */
  function CleanupsAsked(steps: seq<Step>): seq<(nat, Cleanup)> {
    if steps == [] then []
    else
      match steps[|steps| - 1]
      case Request(thread, r, _, _) =>
        CleanupsAsked(steps[..|steps| - 1]) + if r.Owned? then [(thread, r.c)] else []
      case ResetBy(_, _) => []
  }

  /** The threads with a request since then. */
  function ThreadsAsked(steps: seq<Step>): set<nat> {
    if steps == [] then {}
    else
      match steps[|steps| - 1]
      case Request(thread, _, _, _) => ThreadsAsked(steps[..|steps| - 1]) + {thread}
      case ResetBy(_, _) => {}
  }

  ghost predicate HasMember(ms: seq<Member>, t: nat) {
    exists i :: 0 <= i < |ms| && ms[i].owner == t
  }

  lemma AllocateAccounts(st: State, t: nat, r: SerialArenaRuns.Request, serialBase: nat, base: nat)
    requires Usable(st.arena)
    ensures var st' := Allocate(st, t, r, serialBase, base);
            && st'.requested == st.requested + r.n
            && st'.registered == st.registered + (if r.Owned? then [(t, r.c)] else [])
            && (forall u :: u == t || HasMember(st.arena.members, u) ==> HasMember(st'.arena.members, u))
  {
    hide Serve, InitialMember;
    var s1, st' := WithOwner(st, t, serialBase), Allocate(st, t, r, serialBase, base);
    var ms, ms1, ms' := st.arena.members, s1.arena.members, st'.arena.members;
    var k := FindOwner(ms1, t);
    WithOwnerHasOwner(st, t, serialBase);
    assert ms' == ms1[k := ms'[k]] && ms'[k].owner == t;
    forall u | HasMember(ms, u) ensures HasMember(ms', u) {
      var i :| 0 <= i < |ms| && ms[i].owner == u;
      assert ms1 == ms || ms1[1..] == ms;
      assert ms'[if ms1 == ms then i else i + 1].owner == u;
    }
  }

  lemma WithOwnerHasOwner(st: State, t: nat, base: nat)
    ensures var ms := WithOwner(st, t, base).arena.members; FindOwner(ms, t) < |ms|
    ensures Usable(st.arena) ==> Usable(WithOwner(st, t, base).arena)
  {}

  /**
   * At every point of every life, SpaceUsed is the sum of what was requested
   * since the last reset, each thread that requested something has a serial
   * arena, and that one has the thread's cleanups in the order registered.
   */
  lemma {:induction false} LifeServesRequests(states: seq<State>, steps: seq<Step>, user: Option<Memory>, n: nat)
    requires IsLife(states, steps) && AlignedSteps(steps) && Inv(states[0], user) && n < |states|
    requires states[0].requested == 0 && states[0].registered == []
    ensures ArenaSpaceUsed(states[n].arena) == states[n].requested == BytesAsked(steps[..n])
    ensures states[n].registered == CleanupsAsked(steps[..n])
    ensures forall t :: t in ThreadsAsked(steps[..n]) ==> HasMember(states[n].arena.members, t)
    ensures forall i :: 0 <= i < |states[n].arena.members| ==>
              var m := states[n].arena.members[i]; m.history.cleanups == By(CleanupsAsked(steps[..n]), m.owner)
  {
    hide Inv, Allocate, Reset, By, HasMember, ArenaSpaceUsed;
    LifeKeepsInv(states, steps, user, n);
    InvAccounts(states[n], user);
    if n > 0 {
      LifeServesRequests(states, steps, user, n - 1);
      var st := states[n - 1];
      assert states[n - 1 + 1] == Do(st, steps[n - 1]);
      assert steps[..n][..n - 1] == steps[..n - 1] && steps[..n][n - 1] == steps[n - 1];
      match steps[n - 1]
      case Request(thread, r, serialBase, base) => AllocateAccounts(st, thread, r, serialBase, base);
      case ResetBy(thread, base) => ResetForgets(st, thread, base);
    } else {
      assert steps[..0] == [];
    }
  }

  lemma InvAccounts(st: State, user: Option<Memory>)
    requires Inv(st, user)
    ensures ArenaSpaceUsed(st.arena) == st.requested && KeptByOwner(st.arena.members, st.registered)
  {}

  lemma ResetForgets(st: State, thread: nat, base: nat)
    ensures Reset(st, thread, base).0.requested == 0 && Reset(st, thread, base).0.registered == []
  {
    hide FreeAll, Total, InitializeFrom, InitializeWithPolicy;
  }

  /** The policy, and whether the user's block is in use, never change. */
  lemma {:induction false} LifeKeepsSettings(states: seq<State>, steps: seq<Step>, user: Option<Memory>, n: nat)
    requires IsLife(states, steps) && AlignedSteps(steps) && Inv(states[0], user) && n < |states|
    ensures states[n].arena.config == states[0].arena.config && states[n].arena.userOwned == states[0].arena.userOwned
  {
    hide Inv, Allocate, Reset;
    if n > 0 {
      LifeKeepsSettings(states, steps, user, n - 1);
      LifeKeepsInv(states, steps, user, n - 1);
      var st := states[n - 1];
      assert states[n - 1 + 1] == Do(st, steps[n - 1]);
      match steps[n - 1]
      case Request(thread, r, serialBase, base) => AllocateKeepsSettings(st, thread, r, serialBase, base);
      case ResetBy(thread, base) => ResetKeeps(st, user, thread, base);
    }
  }

  lemma AllocateKeepsSettings(st: State, t: nat, r: SerialArenaRuns.Request, serialBase: nat, base: nat)
    requires Usable(st.arena)
    ensures var a := Allocate(st, t, r, serialBase, base).arena;
            a.config == st.arena.config && a.userOwned == st.arena.userOwned
  {
    hide Serve, InitialMember;
    WithOwnerHasOwner(st, t, serialBase);
  }

  // -------------------------------------------------------------- first blocks

  /**
   * The size of the first block of the i-th serial arena of the list: the
   * start size of the policy, 256 without one, or what header and arena need;
   * the last one needs room for the stored policy, and counts the header
   * twice. But it is the user's block if that is in use.
   */
  function FirstSize(a: Arena, user: Option<Memory>, i: nat): nat {
    var last := i + 1 == |a.members|;
    if last && a.userOwned && user.Some? then user.value.1
    else if a.config.None? then 256
    else Max(a.config.value.policy.startBlockSize, if last then 24 + (24 + 56 + 40) else 24 + 56)
  }

  ghost predicate FirstSizes(a: Arena, user: Option<Memory>) {
    forall i :: 0 <= i < |a.members| ==> FirstMemory(a.members[i].serial).1 == FirstSize(a, user, i)
  }

  lemma InitializeFromSizes(thread: nat, mem: Option<Memory>, user: Option<Memory>)
    requires mem.Some? ==> mem == user
    ensures FirstSizes(InitializeFrom(thread, mem), user)
  {}

  lemma InitializeWithPolicySizes(thread: nat, mem: Option<Memory>, config: Config, heap: Heap, base: nat,
                                  user: Option<Memory>)
    requires mem.Some? ==> mem == user
    ensures FirstSizes(InitializeWithPolicy(thread, mem, config, heap, base).0, user)
  {
    var a := InitializeWithPolicy(thread, mem, config, heap, base).0;
    assert FirstMemory(a.members[0].serial).1 == FirstSize(a, user, 0);
  }

  lemma ConstructFirstSizes(thread: nat, mem: Option<Memory>, config: Option<Config>, base: nat)
    ensures FirstSizes(Construct(thread, mem, config, base).arena, mem)
  {
    hide InitializeFrom, InitializeWithPolicy, FirstSizes;
    if config.None? || IsDefault(config.value) {
      InitializeFromSizes(thread, mem, mem);
    } else {
      InitializeWithPolicySizes(thread, mem, config.value, Heap(multiset{}, 0), base, mem);
    }
  }

  lemma WithOwnerFirstSizes(st: State, user: Option<Memory>, t: nat, base: nat)
    requires FirstSizes(st.arena, user)
    requires st.arena.members == [] ==> !st.arena.userOwned && st.arena.config.None?
    ensures FirstSizes(WithOwner(st, t, base).arena, user)
  {
    var a, a' := st.arena, WithOwner(st, t, base).arena;
    forall i | 0 <= i < |a'.members| ensures FirstMemory(a'.members[i].serial).1 == FirstSize(a', user, i) {
      if a' != a && i > 0 {
        assert a'.members[i] == a.members[i - 1];
        assert FirstMemory(a.members[i - 1].serial).1 == FirstSize(a, user, i - 1);
      }
    }
  }

  lemma ServeByFirstSizes(st: State, user: Option<Memory>, i: nat, r: SerialArenaRuns.Request, base: nat)
    requires i < |st.arena.members| && Usable(st.arena) && FirstSizes(st.arena, user)
    ensures FirstSizes(ServeBy(st, i, r, base).arena, user)
  {
    hide ServeBy, FirstMemory, AllBlocks, SumSpaceUsed, SpaceAllocated, Sizes;
    var a' := ServeBy(st, i, r, base).arena;
    ServeByExtends(st, i, r, base);
    ServeByKeepsSettings(st, i, r, base);
    forall k | 0 <= k < |a'.members| ensures FirstMemory(a'.members[k].serial).1 == FirstSize(a', user, k) {
      assert FirstMemory(st.arena.members[k].serial).1 == FirstSize(st.arena, user, k);
    }
  }

  lemma AllocateFirstSizes(st: State, user: Option<Memory>, t: nat, r: SerialArenaRuns.Request, serialBase: nat,
                           base: nat)
    requires Inv(st, user) && Usable(st.arena) && FirstSizes(st.arena, user)
    ensures FirstSizes(Allocate(st, t, r, serialBase, base).arena, user)
  {
    hide AllSound, OwnersAreDistinct, KeptByOwner, HeapIsExact, SpaceIsExact, FirstSizes, ServeBy, WithOwner;
    WithOwnerHasOwner(st, t, serialBase);
    WithOwnerFirstSizes(st, user, t, serialBase);
    var s1 := WithOwner(st, t, serialBase);
    ServeByFirstSizes(s1, user, FindOwner(s1.arena.members, t), r, base);
  }

  lemma ServeByKeepsSettings(st: State, i: nat, r: SerialArenaRuns.Request, base: nat)
    requires i < |st.arena.members| && Usable(st.arena)
    ensures var a := ServeBy(st, i, r, base).arena;
            a.config == st.arena.config && a.userOwned == st.arena.userOwned && |a.members| == |st.arena.members|
  {
    hide Serve;
  }

  /** The first block of every serial arena in every life. */
  lemma {:induction false} LifeFirstSizes(states: seq<State>, steps: seq<Step>, user: Option<Memory>, n: nat)
    requires IsLife(states, steps) && AlignedSteps(steps) && Inv(states[0], user) && n < |states|
    requires FirstSizes(states[0].arena, user)
    ensures FirstSizes(states[n].arena, user)
  {
    hide Inv, Allocate, Reset, FirstSizes;
    if n > 0 {
      LifeFirstSizes(states, steps, user, n - 1);
      LifeKeepsInv(states, steps, user, n - 1);
      var st := states[n - 1];
      assert states[n - 1 + 1] == Do(st, steps[n - 1]);
      match steps[n - 1]
      case Request(thread, r, serialBase, base) => AllocateFirstSizes(st, user, thread, r, serialBase, base);
      case ResetBy(thread, base) => ResetFirstSizes(st, user, thread, base);
    }
  }

  lemma ResetFirstSizes(st: State, user: Option<Memory>, thread: nat, base: nat)
    requires Inv(st, user)
    ensures FirstSizes(Reset(st, thread, base).0.arena, user)
  {
    hide AllSound, OwnersAreDistinct, KeptByOwner, HeapIsExact, SpaceIsExact, FreeAll, Total, FirstSizes,
         InitializeFrom, InitializeWithPolicy;
    FreeAllIsExact(st, user);
    var (freed, last, heap) := FreeAll(st);
    var kept := if st.arena.userOwned then last else None;
    if st.arena.config.None? {
      InitializeFromSizes(thread, kept, user);
    } else {
      InitializeWithPolicySizes(thread, kept, st.arena.config.value, heap, base, user);
    }
  }

  // ----------------------------------------------------------------- cleanups

  ghost predicate WholeMembers(ms: seq<Member>) {
    forall i :: 0 <= i < |ms| ==> WholeBlocks(ms[i].serial)
  }

  /** Start sizes that are multiples of 4 and a maximum size that is a multiple of 8. */
  predicate EvenSizes(policy: Option<Policy>, user: Option<Memory>) {
    && (policy.Some? ==> policy.value.startBlockSize % 4 == 0)
    && MaxBlockSize(policy) % 8 == 0
    && (user.Some? ==> user.value.1 % 4 == 0)
  }

  /** The cleanups of each serial arena of the list in turn. */
  function InReverse(ms: seq<Member>, registered: seq<(nat, Cleanup)>): seq<Cleanup> {
    if ms == [] then [] else Reverse(By(registered, ms[0].owner)) + InReverse(ms[1..], registered)
  }

  lemma {:induction false} CleanupAllIsInReverse(ms: seq<Member>, registered: seq<(nat, Cleanup)>)
    requires AllSound(ms) && WholeMembers(ms)
    requires forall i :: 0 <= i < |ms| ==> ms[i].history.cleanups == By(registered, ms[i].owner)
    ensures CleanupAll(ms) == InReverse(ms, registered)
    decreases |ms|
  {
    hide By, CleanupList, WholeBlocks, Layout, Listed, Accounted;
    if ms != [] {
      assert SoundMember(ms[0]);
      WholeIsNeverPassedOver(ms[0].serial);
      CleanupOnceInReverse(ms[0].serial, ms[0].history);
      CleanupAllIsInReverse(ms[1..], registered);
    }
  }

  lemma WholeIsNeverPassedOver(s: Serial)
    requires WholeBlocks(s)
    ensures forall b :: 0 <= b <= s.Head() ==> !PassedOver(s, b)
  {}

  function Cleanups(registered: seq<(nat, Cleanup)>): seq<Cleanup> {
    if registered == [] then [] else Cleanups(registered[..|registered| - 1]) + [registered[|registered| - 1].1]
  }

  lemma {:induction false} ReverseIsPermutation<T>(s: seq<T>)
    ensures multiset(Reverse(s)) == multiset(s)
    decreases |s|
  {
    if s != [] {
      var front := s[..|s| - 1];
      ReverseIsPermutation(front);
      assert s == front + [s[|s| - 1]];
    }
  }

  lemma BySkips(before: seq<(nat, Cleanup)>, last: (nat, Cleanup), t: nat)
    requires last.0 != t
    ensures By(before + [last], t) == By(before, t)
  {
    ByAppends(before, [last], t);
    assert By(before, t) + [] == By(before, t);
  }

  lemma {:induction false} InReverseSkips(ms: seq<Member>, before: seq<(nat, Cleanup)>, last: (nat, Cleanup))
    requires forall i :: 0 <= i < |ms| ==> ms[i].owner != last.0
    ensures InReverse(ms, before + [last]) == InReverse(ms, before)
    decreases |ms|
  {
    hide By, Reverse;
    if ms != [] {
      BySkips(before, last, ms[0].owner);
      InReverseSkips(ms[1..], before, last);
    }
  }

  /** One more registration adds its cleanup to the serial arena of its owner, and to no other. */
  lemma {:induction false} InReverseGrows(ms: seq<Member>, i: nat, before: seq<(nat, Cleanup)>, last: (nat, Cleanup))
    requires OwnersAreDistinct(ms) && i < |ms| && ms[i].owner == last.0
    ensures multiset(InReverse(ms, before + [last])) == multiset(InReverse(ms, before)) + multiset{last.1}
    decreases |ms|
  {
    hide By, Reverse;
    var o := ms[0].owner;
    if i == 0 {
      ByAppends(before, [last], o);
      InReverseSkips(ms[1..], before, last);
      ReverseIsPermutation(By(before + [last], o));
      ReverseIsPermutation(By(before, o));
    } else {
      BySkips(before, last, o);
      InReverseGrows(ms[1..], i - 1, before, last);
    }
  }

  lemma {:induction false} EveryCleanupIsInReverse(ms: seq<Member>, registered: seq<(nat, Cleanup)>)
    requires OwnersAreDistinct(ms)
    requires forall k :: 0 <= k < |registered| ==> exists i :: 0 <= i < |ms| && ms[i].owner == registered[k].0
    ensures multiset(InReverse(ms, registered)) == multiset(Cleanups(registered))
    decreases |registered|
  {
    hide By, Reverse;
    if registered == [] {
      NothingInReverse(ms);
    } else {
      var n := |registered| - 1;
      var before, last := registered[..n], registered[n];
      EveryCleanupIsInReverse(ms, before);
      var i :| 0 <= i < |ms| && ms[i].owner == registered[n].0;
      InReverseGrows(ms, i, before, last);
      assert registered == before + [last];
    }
  }

  lemma {:induction false} NothingInReverse(ms: seq<Member>)
    ensures InReverse(ms, []) == []
    decreases |ms|
  {
    if ms != [] {
      assert By([], ms[0].owner) == [];
      NothingInReverse(ms[1..]);
    }
  }

  lemma {:induction false} ByFindsAll(registered: seq<(nat, Cleanup)>, k: nat)
    requires k < |registered|
    ensures By(registered, registered[k].0) != []
    decreases |registered|
  {
    if k < |registered| - 1 { ByFindsAll(registered[..|registered| - 1], k); }
  }

  /**
   * Reset calls every cleanup registered since the last one exactly once: for
   * each thread in the reverse of its order, one thread after the other.
   */
  lemma ResetCleansUpOnce(st: State, user: Option<Memory>, thread: nat, base: nat)
    requires Inv(st, user) && WholeMembers(st.arena.members)
    ensures var calls := InReverse(st.arena.members, st.registered);
            && Reset(st, thread, base).0.calls == st.calls + calls
            && Destroy(st).calls == st.calls + calls
            && multiset(calls) == multiset(Cleanups(st.registered))
  {
    hide WholeMembers, AllSound, UserBlockIsLast, HeapIsExact, SpaceIsExact, FreeAll, Total;
    var ms := st.arena.members;
    CleanupAllIsInReverse(ms, st.registered);
    forall k | 0 <= k < |st.registered| ensures exists i :: 0 <= i < |ms| && ms[i].owner == st.registered[k].0 {
      ByFindsAll(st.registered, k);
    }
    EveryCleanupIsInReverse(ms, st.registered);
  }

  // With sizes as EvenSizes asks, every block is one that CleanupList walks in full.

  lemma NewIsWhole(m: Memory)
    requires BLOCK_HEADER + SERIAL_ARENA <= m.1 && m.1 % 4 == 0
    ensures WholeBlocks(New(m.0, m.1))
    ensures WholeBlocks(New(m.0, m.1).(ptr := New(m.0, m.1).ptr + ALLOCATION_POLICY))
  {}

  lemma FirstSizeIsFourths(policy: Option<Policy>, min: nat)
    requires policy.Some? ==> policy.value.startBlockSize % 4 == 0
    requires min % 4 == 0
    ensures NextSize(policy, 0, min) % 4 == 0
  {}

  lemma ConstructIsWhole(thread: nat, mem: Option<Memory>, config: Option<Config>, base: nat)
    requires EvenSizes(PolicyOf(Construct(thread, mem, config, base).arena), mem)
    ensures WholeMembers(Construct(thread, mem, config, base).arena.members)
  {
    InitializeIsWhole(thread, mem, config, base, Heap(multiset{}, 0));
  }

  lemma InitializeIsWhole(thread: nat, mem: Option<Memory>, config: Option<Config>, base: nat, heap: Heap)
    requires mem.Some? ==> mem.value.1 % 4 == 0
    requires config.Some? ==> config.value.policy.startBlockSize % 4 == 0
    ensures WholeMembers(InitializeFrom(thread, mem).members)
    ensures config.Some? ==> WholeMembers(InitializeWithPolicy(thread, mem, config.value, heap, base).0.members)
  {
    hide WholeBlocks, New, NextSize;
    if mem.Some? && mem.value.1 >= BLOCK_HEADER + SERIAL_ARENA { NewIsWhole(mem.value); }
    if config.Some? {
      var first := (base, NextSize(Some(config.value.policy), 0, MINIMUM_SIZE));
      FirstSizeSuffices(Some(config.value.policy), MINIMUM_SIZE);
      FirstSizeIsFourths(Some(config.value.policy), MINIMUM_SIZE);
      NewIsWhole(first);
    }
  }

  lemma AllocateIsWhole(st: State, t: nat, r: SerialArenaRuns.Request, serialBase: nat, base: nat)
    requires Usable(st.arena) && WholeMembers(st.arena.members) && EvenSizes(PolicyOf(st.arena), None) && r.n % 8 == 0
    ensures WholeMembers(Allocate(st, t, r, serialBase, base).arena.members)
  {
    hide WholeBlocks, Serve, NextSize, MaxBlockSize, Mask8;
    var first := (serialBase, NextSize(PolicyOf(st.arena), 0, SERIAL_ARENA));
    FirstSizeSuffices(PolicyOf(st.arena), SERIAL_ARENA);
    FirstSizeIsFourths(PolicyOf(st.arena), SERIAL_ARENA);
    NewIsWhole(first);
    var st' := WithOwner(st, t, serialBase);
    var m := st'.arena.members[FindOwner(st'.arena.members, t)];
    ServeKeepsWholeBlocks(m.serial, m.history, r, PolicyOf(st.arena), base);
  }

  /** So over any life every reset and the destruction run each cleanup exactly once. */
  lemma {:induction false} LifeStaysWhole(states: seq<State>, steps: seq<Step>, user: Option<Memory>, n: nat)
    requires IsLife(states, steps) && AlignedSteps(steps) && Inv(states[0], user) && n < |states|
    requires WholeMembers(states[0].arena.members) && EvenSizes(PolicyOf(states[0].arena), user)
    ensures WholeMembers(states[n].arena.members) && states[n].arena.config == states[0].arena.config
  {
    hide Inv, WholeMembers, InitializeFrom, InitializeWithPolicy, FreeAll, Total, EvenSizes;
    if n > 0 {
      LifeStaysWhole(states, steps, user, n - 1);
      LifeKeepsInv(states, steps, user, n - 1);
      var st := states[n - 1];
      assert states[n - 1 + 1] == Do(st, steps[n - 1]);
      assert EvenSizes(PolicyOf(st.arena), None) by { EvenWithoutUser(PolicyOf(st.arena), user); }
      match steps[n - 1]
      case Request(thread, r, serialBase, base) => AllocateIsWhole(st, thread, r, serialBase, base);
      case ResetBy(thread, base) => ResetIsWhole(st, user, thread, base);
    }
  }

  lemma EvenWithoutUser(policy: Option<Policy>, user: Option<Memory>)
    requires EvenSizes(policy, user)
    ensures EvenSizes(policy, None)
  {}

  lemma ResetIsWhole(st: State, user: Option<Memory>, thread: nat, base: nat)
    requires Inv(st, user) && EvenSizes(PolicyOf(st.arena), user)
    ensures WholeMembers(Reset(st, thread, base).0.arena.members)
    ensures Reset(st, thread, base).0.arena.config == st.arena.config
  {
    hide InitializeFrom, InitializeWithPolicy, WholeMembers, AllSound, OwnersAreDistinct, KeptByOwner, FreeAll, Total,
         SpaceIsExact;
    FreeAllIsExact(st, user);
    ResetKeeps(st, user, thread, base);
    var (freed, last, heap) := FreeAll(st);
    InitializeIsWhole(thread, if st.arena.userOwned then last else None, st.arena.config, base, heap);
  }

  // ---------------------------------------------------- IsDefault, as written

  const DEFAULT_CONFIG := Config(DEFAULT_POLICY, false, false)
  /** The default in all but the start size, which is the default maximum. */
  const LARGE_START := Config(Policy(8192, 8192), false, false)

  /**
   * IsDefault compares the start size with the default maximum. It tells the
   * default policy from others for exactly the policies other than these two,
   * and a constructor so stores every policy but the wrong one of them.
   */
  lemma IsDefaultIsRightIff(c: Config, thread: nat, mem: Option<Memory>, base: nat)
    ensures (IsDefault(c) <==> c == DEFAULT_CONFIG) <==> c != DEFAULT_CONFIG && c != LARGE_START
    ensures Construct(thread, mem, Some(c), base).arena.config == if c == LARGE_START then None else Some(c)
  {
    hide InitialMember;
  }

  /**
   * So the default policy is kept as one of the caller's own, and one that
   * asks for a start size of 8192 is dropped: its first block has 256 bytes.
   */
  lemma IsDefaultMistakesStartSize(thread: nat, base: nat, n: nat, ownBase: nat)
    requires n % 8 == 0 && n <= 256 - BLOCK_HEADER - SERIAL_ARENA
    ensures !IsDefault(DEFAULT_CONFIG)
    ensures Construct(thread, None, Some(DEFAULT_CONFIG), base).arena.config == Some(DEFAULT_CONFIG)
    ensures var st := Construct(thread, None, Some(LARGE_START), base);
            && Usable(st.arena)
            && AllBlocks(Allocate(st, thread, Data(n), ownBase, base).arena.members) == [(ownBase, 256)]
  {
    var st := Construct(thread, None, Some(LARGE_START), base);
    var st' := WithOwner(st, thread, ownBase);
    assert st'.arena.members == [InitialMember(thread, (ownBase, 256))];
    OneNewBlockSuffices(New(ownBase, 256), History([], []), Data(n), None, base);
    OneMember(Allocate(st, thread, Data(n), ownBase, base).arena.members[0]);
  }
}
