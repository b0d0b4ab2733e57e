// Many threads on many ThreadSafeArenas, one access to shared memory a step:
// the fast lookups through the thread cache and hint_, the search of the list,
// the lock-free push, and construction, reset and destruction.
module ArenaSteps {
  import opened Options
  import LifecycleIds

  type Addr = nat

  /** A SerialArena, as far as the list is concerned. */
  datatype Node = Node(owner: nat, next: Option<Addr>)

  /** chain is a history variable: the list that head starts, newest first. */
  datatype Arena = Arena(tagAndId: nat, head: Option<Addr>, hint: Option<Addr>, chain: seq<Addr>)

  /** last_lifecycle_id_seen and last_serial_arena. */
  datatype Cache = Cache(seen: nat, serial: Option<Addr>)

  /** What a thread does next; `left`, a history variable, is how much of the list a search has before it. */
  datatype Pc =
    | Idle
    | FastCheck(a: nat, id: nat)
    | HintCheck(a: nat)
    | LoadHead(a: nat)
    | Search(a: nat, at: Option<Addr>, left: nat)
    | NewSerial(a: nat)
    | LoadAgain(a: nat, n: Addr)
    | SetNext(a: nat, n: Addr, h: Option<Addr>)
    | Cas(a: nat, n: Addr, h: Option<Addr>)
    | WriteCache(a: nat, n: Addr)
    | StoreHint(a: nat, n: Addr)
    | Done(a: nat, result: Option<Addr>)

  datatype State = State(heap: map<Addr, Node>, arenas: map<nat, Arena>, caches: map<nat, Cache>,
                         pcs: map<nat, Pc>, ids: LifecycleIds.Ids)

  /** The value of last_lifecycle_id_seen in a new thread: all bits set. */
  const SENTINEL: nat := LifecycleIds.WRAP - 1

  const START: State := State(map[], map[], map[], map[], LifecycleIds.START)

  function CacheOf(s: State, t: nat): Cache {
    if t in s.caches then s.caches[t] else Cache(SENTINEL, None)
  }

  function PcOf(s: State, t: nat): Pc {
    if t in s.pcs then s.pcs[t] else Idle
  }

  function NodeAt(s: State, n: Addr): Node {
    if n in s.heap then s.heap[n] else Node(0, None)
  }

  /** tag_and_id without the tag. */
  function Id(ar: Arena): nat {
    ar.tagAndId - ar.tagAndId % 2
  }

  /** No thread is inside an operation on the arena, as Reset and the destructor demand. */
  ghost predicate Quiet(s: State, a: nat) {
    forall t :: PcOf(s, t).Idle? || PcOf(s, t).a != a
  }

  datatype Action =
    /** Enters AllocateAligned, or AddCleanup, which looks up the untagged id. */
    | Begin(t: nat, a: nat, tagged: bool)
    /** One step of t; `mem` is the address of a new SerialArena, and a weak compare-exchange may fail. */
    | Advance(t: nat, mem: Addr, spurious: bool)
    | Construct(t: nat, a: nat, record: bool, initial: Option<Addr>)
    | Reset(t: nat, a: nat, initial: Option<Addr>)
    | Destroy(t: nat, a: nat)
    /** Thread t ends, and another starts whose ThreadCache is at the same address. */
    | Restart(t: nat)

  function Goto(s: State, t: nat, pc: Pc): State {
    s.(pcs := s.pcs[t := pc])
  }

  function Put(s: State, a: nat, ar: Arena): State {
    s.(arenas := s.arenas[a := ar])
  }

  /** Init, and SetInitialBlock if there is an initial block. */
  function Initialize(s: State, t: nat, a: nat, record: bool, initial: Option<Addr>): State {
    var id := LifecycleIds.Id(s.ids, t);
    var s' := s.(ids := LifecycleIds.Init(s.ids, t));
    var tagged := id + if record then 1 else 0;
    match initial
    case None => Put(s', a, Arena(tagged, None, None, []))
    case Some(n) =>
      Put(s', a, Arena(tagged, Some(n), Some(n), [n]))
        .(heap := s.heap[n := Node(t, None)], caches := s.caches[t := Cache(id, Some(n))])
  }

  /** All serial arenas of the arena are deallocated. */
  function FreeChain(s: State, a: nat): State
    requires a in s.arenas
  {
    s.(heap := map n | n in s.heap && n !in s.arenas[a].chain :: s.heap[n])
  }

  /** All that is local to the thread starts anew; the serial arenas that it owns stay, with that owner. */
  function NewThread(s: State, t: nat): State {
    s.(caches := s.caches - {t}, ids := LifecycleIds.Forget(s.ids, t))
  }

  ghost predicate Enabled(s: State, act: Action) {
    match act
    case Begin(t, a, _) => PcOf(s, t).Idle? && a in s.arenas
    case Advance(t, mem, _) =>
      && (!PcOf(s, t).Idle? ==> PcOf(s, t).a in s.arenas)
      && (PcOf(s, t).NewSerial? ==> mem !in s.heap)
    case Construct(t, a, _, initial) =>
      PcOf(s, t).Idle? && a !in s.arenas && (initial.Some? ==> initial.value !in s.heap)
    case Reset(t, a, initial) =>
      && PcOf(s, t).Idle? && a in s.arenas && Quiet(s, a)
      && (initial.Some? ==> initial.value !in FreeChain(s, a).heap)
    case Destroy(t, a) => PcOf(s, t).Idle? && a in s.arenas && Quiet(s, a)
    case Restart(t) => PcOf(s, t).Idle?
  }

  function Step(s: State, t: nat, mem: Addr, spurious: bool): State
    requires !PcOf(s, t).Idle? ==> PcOf(s, t).a in s.arenas
  {
    match PcOf(s, t)
    case Idle => s
    case FastCheck(a, id) =>
      if CacheOf(s, t).seen == id then Goto(s, t, Done(a, CacheOf(s, t).serial))
      else if id % 2 == 1 then Goto(s, t, FastCheck(a, Id(s.arenas[a])))
      else Goto(s, t, HintCheck(a))
    case HintCheck(a) =>
      var hint := s.arenas[a].hint;
      if hint.Some? && NodeAt(s, hint.value).owner == t then Goto(s, t, Done(a, hint))
      else Goto(s, t, LoadHead(a))
    case LoadHead(a) => Goto(s, t, Search(a, s.arenas[a].head, |s.arenas[a].chain|))
    case Search(a, at, left) =>
      if at.None? then Goto(s, t, NewSerial(a))
      else if NodeAt(s, at.value).owner == t then Goto(s, t, WriteCache(a, at.value))
      else Goto(s, t, Search(a, NodeAt(s, at.value).next, if left > 0 then left - 1 else 0))
    case NewSerial(a) => Goto(s, t, LoadAgain(a, mem)).(heap := s.heap[mem := Node(t, None)])
    case LoadAgain(a, n) => Goto(s, t, SetNext(a, n, s.arenas[a].head))
    case SetNext(a, n, h) => Goto(s, t, Cas(a, n, h)).(heap := s.heap[n := Node(t, h)])
    case Cas(a, n, h) =>
      var ar := s.arenas[a];
      if ar.head == h && !spurious then
        Put(Goto(s, t, WriteCache(a, n)), a, ar.(head := Some(n), chain := [n] + ar.chain))
      else Goto(s, t, SetNext(a, n, ar.head))
    case WriteCache(a, n) => Goto(s, t, StoreHint(a, n)).(caches := s.caches[t := Cache(Id(s.arenas[a]), Some(n))])
    case StoreHint(a, n) => Put(Goto(s, t, Done(a, Some(n))), a, s.arenas[a].(hint := Some(n)))
    case Done(a, _) => Goto(s, t, Idle)
  }

  function Do(s: State, act: Action): State
    requires Enabled(s, act)
  {
    match act
    case Begin(t, a, tagged) => Goto(s, t, FastCheck(a, if tagged then s.arenas[a].tagAndId else Id(s.arenas[a])))
    case Advance(t, mem, spurious) => Step(s, t, mem, spurious)
    case Construct(t, a, record, initial) => Initialize(s, t, a, record, initial)
    case Reset(t, a, initial) => Initialize(FreeChain(s, a), t, a, s.arenas[a].tagAndId % 2 == 1, initial)
    case Destroy(t, a) => FreeChain(s, a).(arenas := s.arenas - {a})
    case Restart(t) => NewThread(s, t)
  }

  /** A run: states, and the action between each and the next. */
  ghost predicate IsRun(states: seq<State>, acts: seq<Action>) {
    && |states| == |acts| + 1 && states[0] == START
    && forall i :: 0 <= i < |acts| ==> Enabled(states[i], acts[i]) && states[i + 1] == Do(states[i], acts[i])
  }
}
