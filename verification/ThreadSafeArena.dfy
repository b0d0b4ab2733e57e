// ThreadSafeArena between concurrent operations: a list of serial arenas, the
// initial block, Free, Reset and destruction, and an account of every block
// obtained from the block allocator.
module ThreadSafeArena {
  import opened Options
  import opened SerialArena
  import opened SerialArenaRuns

  const ALLOCATION_POLICY: nat := 40
  const MINIMUM_SIZE: nat := BLOCK_HEADER + SERIAL_ARENA + ALLOCATION_POLICY

  /** An AllocationPolicy: sizes, and whether it brings its own allocator and a metrics collector. */
  datatype Config = Config(policy: Policy, ownAllocator: bool, hasCollector: bool)

  /** Compares the start size with the default maximum size. */
  predicate IsDefault(c: Config) {
    && c.policy.startBlockSize == DEFAULT_POLICY.maxBlockSize
    && c.policy.maxBlockSize == DEFAULT_POLICY.maxBlockSize
    && !c.ownAllocator && !c.hasCollector
  }

  type Memory = (nat, nat)

  /** A serial arena in the list, with its owner and what it has handed out. */
  datatype Member = Member(owner: nat, serial: Serial, history: History)

  /** members: the list from threads_, newest first. */
  datatype Arena = Arena(members: seq<Member>, userOwned: bool, config: Option<Config>)

  /** Blocks obtained from the allocator and not yet returned; and returns of anything else. */
  datatype Heap = Heap(live: multiset<Memory>, faults: nat)

  datatype State = State(arena: Arena, heap: Heap,
                         requested: nat, registered: seq<(nat, Cleanup)>,
                         reports: seq<nat>, calls: seq<Cleanup>)

  function Malloc(heap: Heap, m: Memory): Heap {
    heap.(live := heap.live + multiset{m})
  }

  function Dealloc(heap: Heap, m: Memory): Heap {
    if m in heap.live then heap.(live := heap.live - multiset{m}) else heap.(faults := heap.faults + 1)
  }

  function DeallocAll(heap: Heap, ms: seq<Memory>): Heap
    decreases ms
  {
    if ms == [] then heap else DeallocAll(Dealloc(heap, ms[0]), ms[1..])
  }

  function PolicyOf(a: Arena): Option<Policy> {
    if a.config.Some? then Some(a.config.value.policy) else None
  }

  // ----------------------------------------------------------- construction

  /** SetInitialBlock. */
  function InitialMember(thread: nat, m: Memory): Member
    requires BLOCK_HEADER + SERIAL_ARENA <= m.1
  {
    Member(thread, New(m.0, m.1), History([], []))
  }

  /** An initial block that is too small is ignored. */
  function InitializeFrom(thread: nat, mem: Option<Memory>): Arena {
    if mem.Some? && mem.value.1 >= BLOCK_HEADER + SERIAL_ARENA then
      Arena([InitialMember(thread, mem.value)], true, None)
    else Arena([], false, None)
  }

  /** The policy is stored in the first block, which is allocated if none of a sufficient size is given. */
  function InitializeWithPolicy(thread: nat, mem: Option<Memory>, config: Config, heap: Heap, base: nat): (Arena,
                                Heap) {
    var owned := mem.Some? && mem.value.1 >= MINIMUM_SIZE;
    var first := if owned then mem.value else (base, NextSize(Some(config.policy), 0, MINIMUM_SIZE));
    var s := New(first.0, first.1);
    var region := Region(0, s.ptr, s.ptr + ALLOCATION_POLICY);
    (Arena([Member(thread, s.(ptr := s.ptr + ALLOCATION_POLICY), History([region], []))], owned, Some(config)),
     if owned then heap else Malloc(heap, first))
  }

  /** The constructors; without a configuration, that of an arena with default options. */
  function Construct(thread: nat, mem: Option<Memory>, config: Option<Config>, base: nat): State {
    var heap := Heap(multiset{}, 0);
    var (a, heap') := if config.None? || IsDefault(config.value) then (InitializeFrom(thread, mem), heap)
                      else InitializeWithPolicy(thread, mem, config.value, heap, base);
    State(a, heap', 0, [], [], [])
  }

  // ------------------------------------------------------------- allocation

  function FindOwner(ms: seq<Member>, thread: nat): (i: nat)
    ensures i <= |ms|
    ensures i < |ms| ==> ms[i].owner == thread
    ensures forall j :: 0 <= j < i ==> ms[j].owner != thread
  {
    if ms == [] || ms[0].owner == thread then 0 else 1 + FindOwner(ms[1..], thread)
  }

  /** GetSerialArenaFallback: a thread without a serial arena gets one at the front of the list. */
  function WithOwner(st: State, thread: nat, base: nat): State {
    if FindOwner(st.arena.members, thread) < |st.arena.members| then st
    else
      var first := (base, NextSize(PolicyOf(st.arena), 0, SERIAL_ARENA));
      st.(arena := st.arena.(members := [InitialMember(thread, first)] + st.arena.members),
          heap := Malloc(st.heap, first))
  }

  ghost predicate Usable(a: Arena) {
    forall i :: 0 <= i < |a.members| ==> BLOCK_HEADER <= a.members[i].serial.ptr
  }

  /** One request served by the i-th serial arena of the list. */
  function ServeBy(st: State, i: nat, r: Request, base: nat): State
    requires i < |st.arena.members| && Usable(st.arena)
  {
    var m := st.arena.members[i];
    var (s, h) := Serve(m.serial, m.history, r, PolicyOf(st.arena), base);
    State(st.arena.(members := st.arena.members[i := Member(m.owner, s, h)]),
          if s.retired == m.serial.retired then st.heap else Malloc(st.heap, (s.base, s.size)),
          st.requested + r.n,
          st.registered + (if r.Owned? then [(m.owner, r.c)] else []),
          st.reports, st.calls)
  }

  /** A request by a thread; the bases are what the block allocator returns if asked. */
  function Allocate(st: State, thread: nat, r: Request, serialBase: nat, base: nat): State
    requires Usable(st.arena)
  {
    var st' := WithOwner(st, thread, serialBase);
    ServeBy(st', FindOwner(st'.arena.members, thread), r, base)
  }

  // ------------------------------------------------------------------ space

  function SpaceAllocated(ms: seq<Member>): nat {
    if ms == [] then 0 else ms[0].serial.spaceAllocated + SpaceAllocated(ms[1..])
  }

  function SumSpaceUsed(ms: seq<Member>): int {
    if ms == [] then 0 else SpaceUsed(ms[0].serial) + SumSpaceUsed(ms[1..])
  }

  function ArenaSpaceUsed(a: Arena): int {
    SumSpaceUsed(a.members) - if a.config.Some? then ALLOCATION_POLICY else 0
  }

  // -------------------------------------------------------- Free and Reset

  function CleanupAll(ms: seq<Member>): seq<Cleanup> {
    if ms == [] then [] else CleanupList(ms[0].serial) + CleanupAll(ms[1..])
  }

  /**
   * Free, after some serial arenas: what has gone to the deallocator, and the
   * first block of the last one, which is held back.
   */
  function Free(ms: seq<Member>, pending: Option<Memory>): (seq<Memory>, Option<Memory>) {
    if ms == [] then ([], pending)
    else
      var (rest, last) := Free(ms[1..], Some(FirstMemory(ms[0].serial)));
      ((if pending.Some? then [pending.value] else []) + Freed(ms[0].serial) + rest, last)
  }

  function Sizes(ms: seq<Memory>): nat {
    if ms == [] then 0 else ms[0].1 + Sizes(ms[1..])
  }

  function Report(config: Option<Config>, reports: seq<nat>, space: nat): seq<nat> {
    if config.Some? && config.value.hasCollector then reports + [space] else reports
  }

  /** Everything but the initial block goes; deleting a null pointer does nothing. */
  function FreeAll(st: State): (seq<Memory>, Option<Memory>, Heap) {
    var (freed, last) := Free(st.arena.members, None);
    var heap := DeallocAll(st.heap, freed);
    (freed, last, if st.arena.userOwned || last.None? then heap else Dealloc(heap, last.value))
  }

  function Total(freed: seq<Memory>, last: Option<Memory>): nat {
    Sizes(freed) + if last.Some? then last.value.1 else 0
  }

  /** Returns the space that was allocated. */
  function Reset(st: State, thread: nat, base: nat): (State, nat) {
    var (freed, last, heap) := FreeAll(st);
    var space := Total(freed, last);
    var kept := if st.arena.userOwned then last else None;
    var (a, heap') := if st.arena.config.None? then (InitializeFrom(thread, kept), heap)
                      else InitializeWithPolicy(thread, kept, st.arena.config.value, heap, base);
    (State(a, heap', 0, [], Report(st.arena.config, st.reports, space), st.calls + CleanupAll(st.arena.members)), space)
  }

  function Destroy(st: State): State {
    var (freed, last, heap) := FreeAll(st);
    State(Arena([], false, None), heap, 0, [],
          Report(st.arena.config, st.reports, Total(freed, last)), st.calls + CleanupAll(st.arena.members))
  }
}
