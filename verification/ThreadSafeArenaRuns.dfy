// Conservation over whole lives of a ThreadSafeArena: blocks, space and cleanups.
module ThreadSafeArenaRuns {
  import opened Options
  import opened SerialArena
  import opened SerialArenaRuns
  import opened SerialArenaCleanup
  import opened SerialArenaHistory
  import opened ThreadSafeArena

  /** The blocks of a serial arena, newest first. */
  function Blocks(s: Serial): seq<Memory> {
    [(s.base, s.size)] + FreedBlocks(s.retired)
  }

  function AllBlocks(ms: seq<Member>): seq<Memory> {
    if ms == [] then [] else Blocks(ms[0].serial) + AllBlocks(ms[1..])
  }

  lemma {:induction false} FreedBlocksEndWithFirst(blocks: seq<Block>)
    requires blocks != []
    ensures FreedBlocks(blocks) == FreedBlocks(blocks[1..]) + [(blocks[0].base, blocks[0].size)]
    decreases |blocks|
  {
    var n := |blocks| - 1;
    if n > 0 {
      FreedBlocksEndWithFirst(blocks[..n]);
      assert blocks[..n][1..] == blocks[1..][..n - 1];
    } else {
      assert blocks[..n] == [] && blocks[1..] == [];
    }
  }

  /** SerialArena::Free gives up every block but the first, which it returns. */
  lemma FreeLeavesFirst(s: Serial)
    ensures Freed(s) + [FirstMemory(s)] == Blocks(s)
  {
    if s.retired != [] { FreedBlocksEndWithFirst(s.retired); }
  }

  function Optional(m: Option<Memory>): seq<Memory> {
    if m.Some? then [m.value] else []
  }

  /** Free visits every block of every serial arena once, and holds back the first block of the last one. */
  lemma {:induction false} FreeVisitsAllBlocks(ms: seq<Member>, pending: Option<Memory>)
    ensures var (freed, last) := Free(ms, pending);
            && freed + Optional(last) == Optional(pending) + AllBlocks(ms)
            && (ms != [] ==> last == Some(FirstMemory(ms[|ms| - 1].serial)))
    decreases |ms|
  {
    hide Freed, FreedBlocks, FirstMemory, Blocks;
    if ms == [] {
      assert Free(ms, pending) == ([], pending);
    } else {
      var s := ms[0].serial;
      FreeVisitsAllBlocks(ms[1..], Some(FirstMemory(s)));
      FreeLeavesFirst(s);
      var (rest, last) := Free(ms[1..], Some(FirstMemory(s)));
      var p, own, l, more := Optional(pending), Freed(s), Optional(last), AllBlocks(ms[1..]);
      assert rest + l == [FirstMemory(s)] + more;
      assert p + own + rest + l == p + (own + (rest + l));
      assert own + ([FirstMemory(s)] + more) == Blocks(s) + more;
    }
  }

  lemma {:induction false} DeallocAllIsExact(heap: Heap, ms: seq<Memory>)
    requires multiset(ms) <= heap.live
    ensures DeallocAll(heap, ms) == Heap(heap.live - multiset(ms), heap.faults)
    decreases |ms|
  {
    if ms != [] {
      assert ms == [ms[0]] + ms[1..];
      assert multiset(ms) == multiset{ms[0]} + multiset(ms[1..]);
      assert ms[0] in heap.live;
      DeallocAllIsExact(Dealloc(heap, ms[0]), ms[1..]);
    }
  }

  // --------------------------------------------------------------- invariant

  /** The cleanups one thread registered, in order. */
  function By(registered: seq<(nat, Cleanup)>, thread: nat): seq<Cleanup> {
    if registered == [] then []
    else
      var last := registered[|registered| - 1];
      By(registered[..|registered| - 1], thread) + if last.0 == thread then [last.1] else []
  }

  ghost predicate SoundMember(m: Member) {
    Layout(m.serial, m.history) && Listed(m.serial, m.history) && Accounted(m.serial, m.history)
  }

  ghost predicate AllSound(ms: seq<Member>) {
    forall i :: 0 <= i < |ms| ==> SoundMember(ms[i])
  }

  ghost predicate OwnersAreDistinct(ms: seq<Member>) {
    forall i, j :: 0 <= i < j < |ms| ==> ms[i].owner != ms[j].owner
  }

  /** Each thread's registrations are in its own serial arena. */
  ghost predicate KeptByOwner(ms: seq<Member>, registered: seq<(nat, Cleanup)>) {
    && (forall i :: 0 <= i < |ms| ==> ms[i].history.cleanups == By(registered, ms[i].owner))
    && (forall t :: (forall i :: 0 <= i < |ms| ==> ms[i].owner != t) ==> By(registered, t) == [])
  }

  /** The user's block, if it is in use, is the first block of the last serial arena. */
  ghost predicate UserBlockIsLast(a: Arena, user: Option<Memory>) {
    a.userOwned ==>
      && user.Some? && a.members != [] && FirstMemory(a.members[|a.members| - 1].serial) == user.value
      && user.value.1 >= if a.config.Some? then MINIMUM_SIZE else BLOCK_HEADER + SERIAL_ARENA
  }

  /** The live blocks are the arena's blocks without the user's. */
  ghost predicate HeapIsExact(st: State, user: Option<Memory>) {
    && st.heap.faults == 0
    && multiset(AllBlocks(st.arena.members)) ==
       st.heap.live + if st.arena.userOwned && user.Some? then multiset{user.value} else multiset{}
  }

  ghost predicate SpaceIsExact(st: State) {
    && ArenaSpaceUsed(st.arena) == st.requested
    && SpaceAllocated(st.arena.members) == Sizes(AllBlocks(st.arena.members))
  }

  ghost predicate Inv(st: State, user: Option<Memory>) {
    && AllSound(st.arena.members)
    && OwnersAreDistinct(st.arena.members)
    && KeptByOwner(st.arena.members, st.registered)
    && UserBlockIsLast(st.arena, user)
    && HeapIsExact(st, user)
    && SpaceIsExact(st)
    && (st.arena.config.Some? ==> st.arena.members != [])
  }

  // ---------------------------------------------------------------- requests

  lemma ServeBlocks(s: Serial, h: History, r: Request, policy: Option<Policy>, base: nat)
    requires BLOCK_HEADER <= s.ptr
    ensures var t := Serve(s, h, r, policy, base).0;
            && FirstMemory(t) == FirstMemory(s)
            && Blocks(t) == (if t.retired == s.retired then [] else [(t.base, t.size)]) + Blocks(s)
            && SpaceUsed(t) == SpaceUsed(s) + r.n
            && t.spaceAllocated == s.spaceAllocated + if t.retired == s.retired then 0 else t.size
  {
    hide Serve, NextSize;
    OneNewBlockSuffices(s, h, r, policy, base);
    var t := Serve(s, h, r, policy, base).0;
    if !HasSpace(s, Need(r)) {
      assert |t.retired| == |s.retired| + 1 && t.retired[..|s.retired|] == s.retired;
    }
  }

  /** Replacing one serial arena by one with more blocks. */
  lemma {:induction false} UpdateBlocks(ms: seq<Member>, i: nat, m: Member, extra: seq<Memory>)
    requires i < |ms| && Blocks(m.serial) == extra + Blocks(ms[i].serial)
    ensures multiset(AllBlocks(ms[i := m])) == multiset(extra) + multiset(AllBlocks(ms))
    ensures Sizes(AllBlocks(ms[i := m])) == Sizes(extra) + Sizes(AllBlocks(ms))
    ensures SumSpaceUsed(ms[i := m]) == SumSpaceUsed(ms) + SpaceUsed(m.serial) - SpaceUsed(ms[i].serial)
    ensures SpaceAllocated(ms[i := m]) == SpaceAllocated(ms) + m.serial.spaceAllocated - ms[i].serial.spaceAllocated
    decreases i
  {
    hide Blocks, SpaceUsed;
    var ms' := ms[i := m];
    if i == 0 {
      assert ms'[1..] == ms[1..];
      var own, rest := Blocks(ms[0].serial), AllBlocks(ms[1..]);
      assert AllBlocks(ms') == extra + (own + rest);
      SizesAdd(extra, own + rest);
    } else {
      assert ms'[1..] == ms[1..][i - 1 := m];
      UpdateBlocks(ms[1..], i - 1, m, extra);
      SizesAdd(Blocks(ms[0].serial), AllBlocks(ms[1..]));
      SizesAdd(Blocks(ms[0].serial), AllBlocks(ms'[1..]));
    }
  }

  lemma {:induction false} SizesAdd(a: seq<Memory>, b: seq<Memory>)
    ensures Sizes(a + b) == Sizes(a) + Sizes(b)
    decreases |a|
  {
    if a == [] {
      assert a + b == b;
    } else {
      assert (a + b)[1..] == a[1..] + b;
      SizesAdd(a[1..], b);
    }
  }

  lemma ServeSound(m: Member, r: Request, policy: Option<Policy>, base: nat)
    requires SoundMember(m) && r.n % 8 == 0
    ensures BLOCK_HEADER <= m.serial.ptr
    ensures var (s, h) := Serve(m.serial, m.history, r, policy, base); SoundMember(Member(m.owner, s, h))
  {
    hide Serve;
    ServeKeepsLayout(m.serial, m.history, r, policy, base);
    ServeKeepsList(m.serial, m.history, r, policy, base);
    ServeKeepsAccounts(m.serial, m.history, r, policy, base);
  }

  lemma SoundIsUsable(a: Arena)
    requires AllSound(a.members)
    ensures Usable(a)
  {
    forall i | 0 <= i < |a.members| ensures BLOCK_HEADER <= a.members[i].serial.ptr {
      LayoutPtr(a.members[i].serial, a.members[i].history);
    }
  }

  lemma ByAppends(registered: seq<(nat, Cleanup)>, more: seq<(nat, Cleanup)>, t: nat)
    requires |more| <= 1
    ensures By(registered + more, t) == By(registered, t) + if more != [] && more[0].0 == t then [more[0].1] else []
  {
    if more == [] { assert registered + more == registered; }
    else { assert (registered + more)[..|registered|] == registered; }
  }

  /** Serving a request keeps each thread's registrations with its own serial arena. */
  lemma ServeKeepsOwners(ms: seq<Member>, registered: seq<(nat, Cleanup)>, i: nat, m: Member, more: seq<(nat, Cleanup)>)
    requires OwnersAreDistinct(ms) && KeptByOwner(ms, registered) && i < |ms| && |more| <= 1
    requires m.owner == ms[i].owner && (more != [] ==> more[0].0 == m.owner)
    requires m.history.cleanups == ms[i].history.cleanups + if more != [] then [more[0].1] else []
    ensures OwnersAreDistinct(ms[i := m]) && KeptByOwner(ms[i := m], registered + more)
  {
    hide By;
    var ms' := ms[i := m];
    forall k | 0 <= k < |ms'| ensures ms'[k].history.cleanups == By(registered + more, ms'[k].owner) {
      ByAppends(registered, more, ms[k].owner);
    }
    forall t | forall k :: 0 <= k < |ms'| ==> ms'[k].owner != t ensures By(registered + more, t) == [] {
      assert forall k :: 0 <= k < |ms| ==> ms'[k].owner == ms[k].owner;
      assert ms'[i].owner != t;
      ByAppends(registered, more, t);
    }
  }

  lemma ServeKeepsUserBlock(a: Arena, user: Option<Memory>, i: nat, m: Member)
    requires UserBlockIsLast(a, user) && i < |a.members| && FirstMemory(m.serial) == FirstMemory(a.members[i].serial)
    ensures UserBlockIsLast(a.(members := a.members[i := m]), user)
  {}

  lemma ServeByKeepsMembers(st: State, i: nat, r: Request, base: nat)
    requires AllSound(st.arena.members) && OwnersAreDistinct(st.arena.members)
    requires KeptByOwner(st.arena.members, st.registered)
    requires i < |st.arena.members| && r.n % 8 == 0 && Usable(st.arena)
    ensures var st' := ServeBy(st, i, r, base);
            && AllSound(st'.arena.members)
            && OwnersAreDistinct(st'.arena.members) && KeptByOwner(st'.arena.members, st'.registered)
  {
    hide Serve, SoundMember, OwnersAreDistinct, KeptByOwner;
    var m := st.arena.members[i];
    ServeSound(m, r, PolicyOf(st.arena), base);
    var (s, h) := Serve(m.serial, m.history, r, PolicyOf(st.arena), base);
    var _ := ServeRecords(m.serial, m.history, r, PolicyOf(st.arena), base);
    ServeKeepsOwners(st.arena.members, st.registered, i, Member(m.owner, s, h),
                     if r.Owned? then [(m.owner, r.c)] else []);
  }

  /** The blocks that one request adds: none, or the new head block. */
  function Extra(s: Serial, s': Serial): seq<Memory> {
    if s'.retired == s.retired then [] else [(s'.base, s'.size)]
  }

  lemma ServeByExtends(st: State, i: nat, r: Request, base: nat)
    requires i < |st.arena.members| && Usable(st.arena)
    ensures var (st', m) := (ServeBy(st, i, r, base), st.arena.members[i]);
            var extra := Extra(m.serial, st'.arena.members[i].serial);
            && st'.arena.members == st.arena.members[i := st'.arena.members[i]]
            && FirstMemory(st'.arena.members[i].serial) == FirstMemory(m.serial)
            && multiset(AllBlocks(st'.arena.members)) == multiset(extra) + multiset(AllBlocks(st.arena.members))
            && Sizes(AllBlocks(st'.arena.members)) == Sizes(extra) + Sizes(AllBlocks(st.arena.members))
            && SumSpaceUsed(st'.arena.members) == SumSpaceUsed(st.arena.members) + r.n
            && SpaceAllocated(st'.arena.members) == SpaceAllocated(st.arena.members) + Sizes(extra)
            && st'.heap == Heap(st.heap.live + multiset(extra), st.heap.faults)
  {
    hide Serve, AllBlocks, Blocks, SumSpaceUsed, SpaceAllocated, SpaceUsed, FirstMemory, Sizes;
    var m := st.arena.members[i];
    ServeBlocks(m.serial, m.history, r, PolicyOf(st.arena), base);
    var (s, h) := Serve(m.serial, m.history, r, PolicyOf(st.arena), base);
    SizesOfOne((s.base, s.size));
    UpdateBlocks(st.arena.members, i, Member(m.owner, s, h), Extra(m.serial, s));
  }

  lemma ServeByKeepsBlocks(st: State, user: Option<Memory>, i: nat, r: Request, base: nat)
    requires UserBlockIsLast(st.arena, user) && HeapIsExact(st, user) && SpaceIsExact(st)
    requires i < |st.arena.members| && Usable(st.arena)
    ensures var st' := ServeBy(st, i, r, base);
            UserBlockIsLast(st'.arena, user) && HeapIsExact(st', user) && SpaceIsExact(st')
  {
    hide Serve, AllBlocks, SumSpaceUsed, SpaceAllocated, FirstMemory, UserBlockIsLast, Sizes;
    ServeByExtends(st, i, r, base);
    ServeKeepsUserBlock(st.arena, user, i, ServeBy(st, i, r, base).arena.members[i]);
  }

  lemma ServeByKeeps(st: State, user: Option<Memory>, i: nat, r: Request, base: nat)
    requires Inv(st, user) && i < |st.arena.members| && r.n % 8 == 0
    ensures Usable(st.arena) && Inv(ServeBy(st, i, r, base), user)
  {
    hide Serve, AllSound, OwnersAreDistinct, KeptByOwner, UserBlockIsLast, HeapIsExact, SpaceIsExact;
    SoundIsUsable(st.arena);
    ServeByKeepsMembers(st, i, r, base);
    ServeByKeepsBlocks(st, user, i, r, base);
  }

  lemma SizesOfOne(m: Memory)
    ensures Sizes([m]) == m.1 && Sizes([]) == 0
  {
    assert [m][1..] == [];
  }

  // ------------------------------------------------------------- new members

  lemma {:induction false} FindOwnerFails(ms: seq<Member>, t: nat)
    ensures FindOwner(ms, t) == |ms| <==> forall i :: 0 <= i < |ms| ==> ms[i].owner != t
    decreases |ms|
  {}

  lemma FreshMember(ms: seq<Member>, registered: seq<(nat, Cleanup)>, t: nat, m: Memory)
    requires AllSound(ms) && OwnersAreDistinct(ms) && KeptByOwner(ms, registered)
    requires BLOCK_HEADER + SERIAL_ARENA <= m.1 && FindOwner(ms, t) == |ms|
    ensures var ms' := [InitialMember(t, m)] + ms;
            && AllSound(ms') && OwnersAreDistinct(ms') && KeptByOwner(ms', registered)
            && AllBlocks(ms') == [m] + AllBlocks(ms)
            && SumSpaceUsed(ms') == SumSpaceUsed(ms)
            && SpaceAllocated(ms') == m.1 + SpaceAllocated(ms)
  {
    hide Layout, Listed, Accounted, By;
    NewKeepsAll(m.0, m.1);
    FindOwnerFails(ms, t);
    var ms' := [InitialMember(t, m)] + ms;
    assert ms'[1..] == ms;
    forall o | forall i :: 0 <= i < |ms'| ==> ms'[i].owner != o ensures By(registered, o) == [] {
      forall i | 0 <= i < |ms| ensures ms[i].owner != o { assert ms'[i + 1].owner != o; }
    }
  }

  lemma WithOwnerKeeps(st: State, user: Option<Memory>, t: nat, base: nat)
    requires Inv(st, user)
    ensures Inv(WithOwner(st, t, base), user)
    ensures FindOwner(WithOwner(st, t, base).arena.members, t) < |WithOwner(st, t, base).arena.members|
  {
    hide AllSound, OwnersAreDistinct, KeptByOwner, AllBlocks, SumSpaceUsed, SpaceAllocated, FirstMemory,
         UserBlockIsLast,
         HeapIsExact, SpaceIsExact, NextSize;
    var ms := st.arena.members;
    if FindOwner(ms, t) == |ms| {
      var m := (base, NextSize(PolicyOf(st.arena), 0, SERIAL_ARENA));
      assert BLOCK_HEADER + SERIAL_ARENA <= m.1 by { FirstSizeSuffices(PolicyOf(st.arena), SERIAL_ARENA); }
      FreshMember(ms, st.registered, t, m);
      FreshMemberKeepsBlocks(st, user, InitialMember(t, m), m);
    }
  }

  lemma FirstSizeSuffices(policy: Option<Policy>, min: nat)
    ensures BLOCK_HEADER + min <= NextSize(policy, 0, min)
  {}

  lemma FreshMemberKeepsBlocks(st: State, user: Option<Memory>, new_: Member, m: Memory)
    requires UserBlockIsLast(st.arena, user) && HeapIsExact(st, user) && SpaceIsExact(st)
    requires var (ms, ms') := (st.arena.members, [new_] + st.arena.members);
             && AllBlocks(ms') == [m] + AllBlocks(ms)
             && SumSpaceUsed(ms') == SumSpaceUsed(ms)
             && SpaceAllocated(ms') == m.1 + SpaceAllocated(ms)
    ensures var st' := st.(arena := st.arena.(members := [new_] + st.arena.members), heap := Malloc(st.heap, m));
            UserBlockIsLast(st'.arena, user) && HeapIsExact(st', user) && SpaceIsExact(st')
  {
    hide AllBlocks, SumSpaceUsed, SpaceAllocated, FirstMemory;
    assert multiset([m] + AllBlocks(st.arena.members)) == multiset{m} + multiset(AllBlocks(st.arena.members));
    assert ([m] + AllBlocks(st.arena.members))[1..] == AllBlocks(st.arena.members);
  }

  lemma AllocateKeeps(st: State, user: Option<Memory>, t: nat, r: Request, serialBase: nat, base: nat)
    requires Inv(st, user) && r.n % 8 == 0
    ensures Usable(st.arena) && Usable(WithOwner(st, t, serialBase).arena)
    ensures Inv(Allocate(st, t, r, serialBase, base), user)
  {
    hide Inv, WithOwner, ServeBy;
    InvIsUsable(st, user);
    WithOwnerKeeps(st, user, t, serialBase);
    InvIsUsable(WithOwner(st, t, serialBase), user);
    ServeByKeeps(WithOwner(st, t, serialBase), user, FindOwner(WithOwner(st, t, serialBase).arena.members, t), r, base);
  }

  lemma InvIsUsable(st: State, user: Option<Memory>)
    requires Inv(st, user)
    ensures Usable(st.arena)
  {
    SoundIsUsable(st.arena);
  }

  // ------------------------------------------------------- Free and Reset

  lemma Cancel<T>(a: multiset<T>, b: multiset<T>, x: T)
    requires a + multiset{x} == b + multiset{x}
    ensures a == b
  {
    assert a == (a + multiset{x}) - multiset{x};
    assert b == (b + multiset{x}) - multiset{x};
  }

  lemma OneMember(m: Member)
    ensures AllBlocks([m]) == Blocks(m.serial)
    ensures SumSpaceUsed([m]) == SpaceUsed(m.serial) && SpaceAllocated([m]) == m.serial.spaceAllocated
  {
    assert [m][1..] == [];
  }

  lemma OnlyUserBlockStays(freed: seq<Memory>, last: Option<Memory>, live: multiset<Memory>, user: multiset<Memory>)
    requires multiset(freed + Optional(last)) == live + user
    requires user == multiset{} || user == multiset(Optional(last))
    ensures user == multiset{} ==> live == multiset(freed) + multiset(Optional(last))
    ensures user != multiset{} ==> live == multiset(freed)
  {
    assert multiset(freed + Optional(last)) == multiset(freed) + multiset(Optional(last));
    if user == multiset{} {
      assert live + user == live;
    } else {
      Cancel(multiset(freed), live, last.value);
    }
  }

  lemma FreedBlocksAreLive(st: State, user: Option<Memory>)
    requires UserBlockIsLast(st.arena, user) && HeapIsExact(st, user)
    ensures var (freed, last) := Free(st.arena.members, None);
            && (st.arena.userOwned ==> last == user && user.Some? && st.heap.live == multiset(freed))
            && (!st.arena.userOwned ==> st.heap.live == multiset(freed) + multiset(Optional(last)))
            && Total(freed, last) == Sizes(AllBlocks(st.arena.members))
  {
    hide AllBlocks, FirstMemory, Free;
    FreeVisitsAllBlocks(st.arena.members, None);
    var (freed, last) := Free(st.arena.members, None);
    SizesAdd(freed, Optional(last));
    if last.Some? { SizesOfOne(last.value); }
    assert freed + Optional(last) == AllBlocks(st.arena.members);
    OnlyUserBlockStays(freed, last, st.heap.live, if st.arena.userOwned then multiset{user.value} else multiset{});
  }

  /** Free returns every live block to the allocator exactly once, nothing else, and never the user's block. */
  lemma FreeAllIsExact(st: State, user: Option<Memory>)
    requires UserBlockIsLast(st.arena, user) && HeapIsExact(st, user)
    ensures var (freed, last, heap) := FreeAll(st);
            && heap == Heap(multiset{}, 0)
            && st.heap.live == multiset(freed) + (if st.arena.userOwned then multiset{} else multiset(Optional(last)))
            && (st.arena.userOwned ==> last == user)
            && Total(freed, last) == Sizes(AllBlocks(st.arena.members))
  {
    hide AllBlocks, Free, HeapIsExact, UserBlockIsLast, DeallocAll, Total, Sizes;
    assert st.heap.faults == 0 by { NoFaults(st, user); }
    FreedBlocksAreLive(st, user);
    var (freed, last) := Free(st.arena.members, None);
    DeallocAllIsExact(st.heap, freed);
    if st.arena.userOwned || last.None? {
      assert st.heap.live - multiset(freed) == multiset{};
    } else {
      assert st.heap.live - multiset(freed) == multiset{last.value};
      assert multiset{last.value} - multiset{last.value} == multiset{};
    }
  }

  lemma NoFaults(st: State, user: Option<Memory>)
    requires HeapIsExact(st, user)
    ensures st.heap.faults == 0
  {}

  lemma InitializeFromKeeps(t: nat, mem: Option<Memory>, user: Option<Memory>, st: State)
    requires mem.Some? ==> mem == user
    requires st.arena == InitializeFrom(t, mem) && st.heap == Heap(multiset{}, 0) && st.requested == 0
    requires st.registered == []
    ensures Inv(st, user)
    ensures AllBlocks(st.arena.members) == if st.arena.userOwned then [mem.value] else []
  {
    hide Layout, Listed, Accounted;
    if st.arena.members != [] {
      var m := mem.value;
      NewKeepsAll(m.0, m.1);
      OneMember(st.arena.members[0]);
      assert AllBlocks(st.arena.members) == [m];
      SizesOfOne(m);
    } else {
      assert AllBlocks(st.arena.members) == [];
    }
  }

  /** The first region of an arena with a policy holds the policy. */
  lemma PolicyFits(m: Memory)
    requires MINIMUM_SIZE <= m.1
    ensures var s := New(m.0, m.1);
            var (s', h') := Serve(s, History([], []), Data(ALLOCATION_POLICY), None, 0);
            && s' == s.(ptr := s.ptr + ALLOCATION_POLICY)
            && h' == History([Region(0, s.ptr, s.ptr + ALLOCATION_POLICY)], [])
  {
    OneNewBlockSuffices(New(m.0, m.1), History([], []), Data(ALLOCATION_POLICY), None, 0);
  }

  lemma InitializeWithPolicyKeeps(t: nat, mem: Option<Memory>, config: Config, base: nat, user: Option<Memory>,
                                  st: State)
    requires mem.Some? ==> mem == user
    requires (st.arena, st.heap) == InitializeWithPolicy(t, mem, config, Heap(multiset{}, 0), base)
    requires st.requested == 0 && st.registered == []
    ensures Inv(st, user)
    ensures AllBlocks(st.arena.members) ==
            [if st.arena.userOwned then mem.value else (base, NextSize(Some(config.policy), 0, MINIMUM_SIZE))]
  {
    hide Layout, Listed, Accounted, Serve;
    var owned := mem.Some? && mem.value.1 >= MINIMUM_SIZE;
    var m := if owned then mem.value else (base, NextSize(Some(config.policy), 0, MINIMUM_SIZE));
    NewKeepsAll(m.0, m.1);
    PolicyFits(m);
    var first := Member(t, New(m.0, m.1), History([], []));
    assert SoundMember(first);
    ServeSound(first, Data(ALLOCATION_POLICY), None, 0);
    OneMember(st.arena.members[0]);
    assert AllBlocks(st.arena.members) == [m];
    SizesOfOne(m);
  }
}
