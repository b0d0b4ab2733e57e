// ThreadSafeArena as an object: loops over the list of serial arenas, and the
// initial block, policy and space account updated in place.
module ThreadSafeArenaObject {
  import opened Options
  import opened SerialArena
  import opened SerialArenaRuns
  import T = ThreadSafeArena

  class ThreadSafeArena {
    var members: seq<T.Member>
    var userOwned: bool
    var config: Option<T.Config>
    var heap: T.Heap
    ghost var requested: nat
    ghost var registered: seq<(nat, Cleanup)>
    var reports: seq<nat>
    var calls: seq<Cleanup>

    ghost function View(): T.State reads this {
      T.State(T.Arena(members, userOwned, config), heap, requested, registered, reports, calls)
    }

    constructor (thread: nat, mem: Option<T.Memory>, config: Option<T.Config>, base: nat)
      ensures View() == T.Construct(thread, mem, config, base)
    {
      heap, requested, registered, reports, calls := T.Heap(multiset{}, 0), 0, [], [], [];
      members, userOwned, this.config := [], false, None;
      new;
      if config.None? || T.IsDefault(config.value) {
        InitializeFrom(thread, mem);
      } else {
        InitializeWithPolicy(thread, mem, config.value, base);
      }
    }

    method InitializeFrom(thread: nat, mem: Option<T.Memory>)
      requires config.None? && (userOwned ==> mem.Some? && mem.value.1 >= BLOCK_HEADER + SERIAL_ARENA)
      modifies this`members, this`userOwned
      ensures View().arena == T.InitializeFrom(thread, mem)
    {
      members := [];
      if mem.Some? && mem.value.1 >= BLOCK_HEADER + SERIAL_ARENA {
        userOwned := true;
        members := [T.InitialMember(thread, mem.value)];
      }
    }

    method InitializeWithPolicy(thread: nat, mem: Option<T.Memory>, policy: T.Config, base: nat)
      modifies this`members, this`userOwned, this`config, this`heap
      ensures (View().arena, heap) == T.InitializeWithPolicy(thread, mem, policy, old(heap), base)
    {
      var block;
      if mem.Some? && mem.value.1 >= T.MINIMUM_SIZE {
        userOwned, block := true, mem.value;
      } else {
        userOwned, block := false, (base, NextSize(Some(policy.policy), 0, T.MINIMUM_SIZE));
        heap := T.Malloc(heap, block);
      }
      var s := New(block.0, block.1);
      assert HasSpace(s, T.ALLOCATION_POLICY);
      members := [T.Member(thread, s.(ptr := s.ptr + T.ALLOCATION_POLICY),
                           History([Region(0, s.ptr, s.ptr + T.ALLOCATION_POLICY)], []))];
      config := Some(policy);
    }

    /** The search for the thread's serial arena; if there is none, one is put in front. */
    method GetSerialArena(thread: nat, base: nat) returns (i: nat)
      modifies this`members, this`heap
      ensures View() == T.WithOwner(old(View()), thread, base)
      ensures i == T.FindOwner(members, thread) && i < |members|
    {
      hide NextSize, New;
      i := 0;
      assert members[0..] == members;
      while i < |members| && members[i].owner != thread
        invariant 0 <= i <= |members|
        invariant T.FindOwner(members, thread) == i + T.FindOwner(members[i..], thread)
      {
        assert members[i..][1..] == members[i + 1..];
        i := i + 1;
      }
      if i == |members| {
        var policy := if config.Some? then Some(config.value.policy) else None;
        var first := (base, NextSize(policy, 0, SERIAL_ARENA));
        assert first.1 >= BLOCK_HEADER + SERIAL_ARENA by { EnoughForSerialArena(policy); }
        heap := T.Malloc(heap, first);
        members := [T.InitialMember(thread, first)] + members;
        i := 0;
      }
    }

    method Allocate(thread: nat, r: Request, serialBase: nat, base: nat)
      requires T.Usable(View().arena)
      modifies this
      ensures View() == T.Allocate(old(View()), thread, r, serialBase, base)
    {
      hide Serve, NextSize, T.WithOwner, T.FindOwner;
      ghost var found := T.WithOwner(View(), thread, serialBase);
      assert T.Usable(found.arena) by { WithOwnerIsUsable(View(), thread, serialBase); }
      var i := GetSerialArena(thread, serialBase);
      assert View() == found;
      var policy := if config.Some? then Some(config.value.policy) else None;
      var m := members[i];
      var (s, h) := Serve(m.serial, m.history, r, policy, base);
      if s.retired != m.serial.retired { heap := T.Malloc(heap, (s.base, s.size)); }
      members := members[i := T.Member(m.owner, s, h)];
      requested := requested + r.n;
      registered := registered + if r.Owned? then [(m.owner, r.c)] else [];
    }

    method SpaceAllocated() returns (res: nat)
      ensures res == T.SpaceAllocated(members)
    {
      res := 0;
      for i := 0 to |members|
        invariant res + T.SpaceAllocated(members[i..]) == T.SpaceAllocated(members)
      {
        assert members[i..][1..] == members[i + 1..];
        res := res + members[i].serial.spaceAllocated;
      }
    }

    method SpaceUsed() returns (res: int)
      ensures res == T.ArenaSpaceUsed(View().arena)
    {
      res := 0;
      for i := 0 to |members|
        invariant res + T.SumSpaceUsed(members[i..]) == T.SumSpaceUsed(members)
      {
        assert members[i..][1..] == members[i + 1..];
        res := res + SerialArena.SpaceUsed(members[i].serial);
      }
      res := res - if config.Some? then T.ALLOCATION_POLICY else 0;
    }

    /** Each serial arena's cleanups, before any block goes: destructors may look at other blocks. */
    method CleanupList()
      modifies this`calls
      ensures calls == old(calls) + T.CleanupAll(members)
    {
      assert members[0..] == members;
      for i := 0 to |members|
        invariant calls + T.CleanupAll(members[i..]) == old(calls) + T.CleanupAll(members)
      {
        assert members[i..][1..] == members[i + 1..];
        var more := SerialArena.CleanupList(members[i].serial);
        assert calls + (more + T.CleanupAll(members[i + 1..])) == (calls + more) + T.CleanupAll(members[i + 1..]);
        calls := calls + more;
      }
    }

    /** The first block of each serial arena waits until the next one is visited. */
    method Free() returns (space: nat, mem: Option<T.Memory>)
      modifies this`heap
      ensures var (freed, last) := T.Free(members, None);
              heap == T.DeallocAll(old(heap), freed) && mem == last && space == T.Sizes(freed)
    {
      hide T.Free, T.DeallocAll, T.Sizes, Freed, FirstMemory;
      mem, space := None, 0;
      NothingFreed(heap);
      ghost var freed: seq<T.Memory> := [];
      assert members[0..] == members;
      assert freed + T.Free(members, None).0 == T.Free(members, None).0;
      for i := 0 to |members|
        invariant T.Free(members, None) == (freed + T.Free(members[i..], mem).0, T.Free(members[i..], mem).1)
        invariant heap == T.DeallocAll(old(heap), freed) && space == T.Sizes(freed)
      {
        var s := members[i].serial;
        var now := (if mem.Some? then [mem.value] else []) + Freed(s);
        FreeStep(members, i, mem, freed);
        DeallocAppends(old(heap), freed, now);
        heap, space := T.DeallocAll(heap, now), space + T.Sizes(now);
        freed := freed + now;
        mem := Some(FirstMemory(s));
      }
      assert members[|members|..] == [];
      FreeEnds(mem);
      assert freed + [] == freed;
    }

    /** What Reset and the destructor share: all blocks go but the user's, which is handed back. */
    method Drop() returns (space: nat, kept: Option<T.Memory>)
      modifies this`heap
      ensures var (freed, last, heap') := T.FreeAll(old(View()));
              heap == heap' && space == T.Total(freed, last) && kept == if userOwned then last else None
    {
      hide T.Free, T.DeallocAll, T.Sizes;
      space, kept := Free();
      if kept.Some? {
        space := space + kept.value.1;
        if !userOwned {
          heap := T.Dealloc(heap, kept.value);
          kept := None;
        }
      }
    }

    method Reset(thread: nat, base: nat) returns (space: nat)
      requires userOwned ==> members != []
      requires userOwned ==> FirstMemory(members[|members| - 1].serial).1 >= BLOCK_HEADER + SERIAL_ARENA
      modifies this
      ensures (View(), space) == T.Reset(old(View()), thread, base)
    {
      hide T.CleanupAll, T.Free, T.DeallocAll, T.Total, FirstMemory, T.InitializeFrom, T.InitializeWithPolicy;
      LastIsFirstMemory(members, None);
      CleanupList();
      var mem;
      space, mem := Drop();
      reports := T.Report(config, reports, space);
      requested, registered := 0, [];
      if config.Some? {
        InitializeWithPolicy(thread, mem, config.value, base);
      } else {
        InitializeFrom(thread, mem);
      }
    }

    /** The destructor. */
    method Destroy()
      modifies this
      ensures View() == T.Destroy(old(View()))
    {
      hide T.CleanupAll, T.Free, T.DeallocAll, T.Total;
      CleanupList();
      var space, _ := Drop();
      reports := T.Report(config, reports, space);
      requested, registered := 0, [];
      members, userOwned, config := [], false, None;
    }
  }

  lemma NothingFreed(heap: T.Heap)
    ensures T.DeallocAll(heap, []) == heap && T.Sizes([]) == 0
  {}

  lemma FreeEnds(mem: Option<T.Memory>)
    ensures T.Free([], mem) == ([], mem)
  {}

  lemma FreeStep(ms: seq<T.Member>, i: nat, mem: Option<T.Memory>, freed: seq<T.Memory>)
    requires i < |ms|
    ensures var now := (if mem.Some? then [mem.value] else []) + Freed(ms[i].serial);
            var next := T.Free(ms[i + 1..], Some(FirstMemory(ms[i].serial)));
            (freed + T.Free(ms[i..], mem).0, T.Free(ms[i..], mem).1) == (freed + now + next.0, next.1)
  {
    hide Freed, FirstMemory;
    assert ms[i..][1..] == ms[i + 1..];
    var now := (if mem.Some? then [mem.value] else []) + Freed(ms[i].serial);
    var rest := T.Free(ms[i + 1..], Some(FirstMemory(ms[i].serial))).0;
    assert freed + (now + rest) == freed + now + rest;
  }

  lemma EnoughForSerialArena(policy: Option<Policy>)
    ensures BLOCK_HEADER + SERIAL_ARENA <= NextSize(policy, 0, SERIAL_ARENA)
  {}

  lemma WithOwnerIsUsable(st: T.State, thread: nat, base: nat)
    requires T.Usable(st.arena)
    ensures T.Usable(T.WithOwner(st, thread, base).arena)
  {
    hide NextSize;
    EnoughForSerialArena(T.PolicyOf(st.arena));
  }

  lemma {:induction false} DeallocAppends(heap: T.Heap, a: seq<T.Memory>, b: seq<T.Memory>)
    ensures T.DeallocAll(heap, a + b) == T.DeallocAll(T.DeallocAll(heap, a), b)
    ensures T.Sizes(a + b) == T.Sizes(a) + T.Sizes(b)
    decreases |a|
  {
    if a == [] {
      assert a + b == b;
    } else {
      assert (a + b)[1..] == a[1..] + b;
      DeallocAppends(T.Dealloc(heap, a[0]), a[1..], b);
    }
  }

  lemma {:induction false} LastIsFirstMemory(ms: seq<T.Member>, pending: Option<T.Memory>)
    ensures T.Free(ms, pending).1 == if ms == [] then pending else Some(FirstMemory(ms[|ms| - 1].serial))
    decreases |ms|
  {
    if ms != [] { LastIsFirstMemory(ms[1..], Some(FirstMemory(ms[0].serial))); }
  }
}
