// A lookup that is let run ends, and with what it should: the thread's serial
// arena if the list has one, and otherwise a new one in front of the list.
module ArenaProgress {
  import opened Options
  import opened ArenaSteps
  import opened ArenaSafety
  import opened ArenaLifetimes
  import LifecycleIds

  // ---------------------------------------------------------------- how it ends

  /** An operation is left only from where it has its answer, and by a step of its own thread. */
  lemma OperationEndsAtDone(s: State, act: Action, t: nat)
    requires Enabled(s, act) && !PcOf(s, t).Idle? && PcOf(Do(s, act), t).Idle?
    ensures PcOf(s, t).Done? && act.Advance? && act.t == t
  {
    if !act.Advance? { hide LifecycleIds.Init, LifecycleIds.Id, LifecycleIds.Forget, Step; }
  }

  /** Over all runs: an operation that is over has given the right answer. */
  lemma OperationsAnswer(states: seq<State>, acts: seq<Action>, n: nat, t: nat)
    requires IsRun(states, acts) && n < |acts| && states[n].ids.fetches <= LifecycleIds.BATCHES
    requires !PcOf(states[n], t).Idle? && PcOf(states[n + 1], t).Idle?
    ensures var (s, pc) := (states[n], PcOf(states[n], t));
            && pc.Done? && pc.a in s.arenas
            && (s.arenas[pc.a].tagAndId != SENTINEL ==> AnswerIsRight(s, t))
  {
    RunStep(states, acts, n);
    hide IsRun, Enabled, Do, AnswerIsRight;
    OperationEndsAtDone(states[n], acts[n], t);
    LookupIsRight(states, acts, n, t);
  }

  lemma RunStep(states: seq<State>, acts: seq<Action>, n: nat)
    requires IsRun(states, acts) && n < |acts|
    ensures |states| == |acts| + 1 && Enabled(states[n], acts[n]) && states[n + 1] == Do(states[n], acts[n])
  {
    hide Enabled, Do;
  }

  // ------------------------------------------------------- one thread on its own

  /** At most n steps of thread t alone, until it has its answer; `mem` is where a new serial arena goes. */
  function Alone(s: State, t: nat, mem: Addr, n: nat): State
    decreases n
  {
    var pc := PcOf(s, t);
    if n == 0 || pc.Idle? || pc.Done? || pc.a !in s.arenas then s
    else Alone(Step(s, t, mem, false), t, mem, n - 1)
  }

  /** How many steps are left at most. */
  function StepsLeft(s: State, t: nat): nat {
    var pc := PcOf(s, t);
    if pc.Idle? || pc.a !in s.arenas then 0
    else
      var ar := s.arenas[pc.a];
      match pc
      case FastCheck(_, id) => |ar.chain| + if id % 2 == 1 then 11 else 10
      case HintCheck(_) => |ar.chain| + 9
      case LoadHead(_) => |ar.chain| + 8
      case Search(_, _, left) => left + 7
      case NewSerial(_) => 6
      case LoadAgain(_, _) => 5
      case SetNext(_, _, h) => if h == ar.head then 4 else 6
      case Cas(_, _, h) => if h == ar.head then 3 else 5
      case WriteCache(_, _) => 2
      case StoreHint(_, _) => 1
      case _ => 0
  }

  /** The address of the new serial arena, if the thread needs one: the one it has made already, or `mem`. */
  function NewNode(s: State, t: nat, mem: Addr): Addr {
    match Private(PcOf(s, t)) case Some(n) => n case None => mem
  }

  /** The thread still may have to make one. */
  predicate MayMake(pc: Pc) {
    pc.FastCheck? || pc.HintCheck? || pc.LoadHead? || pc.Search? || pc.NewSerial?
  }

  /** What an operation comes to: the answer, which is the thread's, and the list that it leaves. */
  ghost predicate Answers(s: State, s': State, t: nat, mem: Addr)
    requires !PcOf(s, t).Idle? && PcOf(s, t).a in s.arenas
  {
    var (a, chain) := (PcOf(s, t).a, s.arenas[PcOf(s, t).a].chain);
    var found := SlowSearch(s, chain, t);
    var n := if found.Some? then found.value else NewNode(s, t, mem);
    && a in s'.arenas && PcOf(s', t) == Done(a, Some(n)) && Owner(s', n) == t
    && s'.arenas[a].chain == if found.Some? then chain else [n] + chain
  }

  lemma {:induction false} SameOwnersSameSearch(s: State, s': State, chain: seq<Addr>, t: nat)
    requires forall i :: 0 <= i < |chain| ==> Owner(s', chain[i]) == Owner(s, chain[i])
    ensures SlowSearch(s', chain, t) == SlowSearch(s, chain, t)
    decreases |chain|
  {
    hide Owner;
    if chain != [] { SameOwnersSameSearch(s, s', chain[1..], t); }
  }

  lemma {:induction false} NoneOwnedNoneFound(s: State, chain: seq<Addr>, t: nat)
    requires NoneOwned(s, chain, t)
    ensures SlowSearch(s, chain, t) == None
    decreases |chain|
  {
    hide Owner;
    if chain != [] { NoneOwnedNoneFound(s, chain[1..], t); }
  }

  /** The search of the list has the same result after a step of any thread, as long as the list is the same. */
  lemma StepKeepsSearch(s: State, s': State, t: nat, a: nat)
    requires ArenasOk(s) && StepOf(s, s', t) && a in s.arenas && s'.arenas[a].chain == s.arenas[a].chain
    ensures SlowSearch(s', s.arenas[a].chain, t) == SlowSearch(s, s.arenas[a].chain, t)
  {
    hide ArenasOk, StepOf, Owner;
    var chain := s.arenas[a].chain;
    forall i | 0 <= i < |chain| ensures Owner(s', chain[i]) == Owner(s, chain[i]) {
      ListedNodesKeepOwner(s, s', t, a, i);
    }
    SameOwnersSameSearch(s, s', chain, t);
  }

  predicate Running(s: State, t: nat) {
    !PcOf(s, t).Idle? && !PcOf(s, t).Done? && PcOf(s, t).a in s.arenas
  }

  /** A push makes the list longer; every other step leaves it, and what the thread will put there, as they are. */
  lemma StepOnTheWay(s: State, t: nat, mem: Addr)
    requires Lists(s) && Running(s, t) && (MayMake(PcOf(s, t)) ==> mem !in s.heap)
    ensures var (s', a) := (Step(s, t, mem, false), PcOf(s, t).a);
            && !PcOf(s', t).Idle? && PcOf(s', t).a == a && a in s'.arenas
            && s'.arenas[a].tagAndId == s.arenas[a].tagAndId
            && (MayMake(PcOf(s', t)) ==> mem !in s'.heap)
            && var (chain, chain', n) := (s.arenas[a].chain, s'.arenas[a].chain, NewNode(s, t, mem));
               || (chain' == chain && NewNode(s', t, mem) == n)
               || (NoneOwned(s, chain, t) && chain' == [n] + chain && Owner(s', n) == t)
  {
    hide ArenasOk, Separate, Mine, At;
    assert PcOk(s, t) && PrivateOk(s, t);
    var pc := PcOf(s, t);
    if pc.Cas? && s.arenas[pc.a].head == pc.h {
      PushOnTheWay(s, t, pc.a, pc.n);
    } else {
      hide NoneOwned, PcOk, Owner;
    }
  }

  lemma PushOnTheWay(s: State, t: nat, a: nat, n: Addr)
    requires a in s.arenas && PcOf(s, t) == Cas(a, n, s.arenas[a].head) && Owner(s, n) == t
    ensures var s' := Step(s, t, 0, false);
            && PcOf(s', t) == WriteCache(a, n) && a in s'.arenas && s'.heap == s.heap && Owner(s', n) == t
            && s'.arenas[a].tagAndId == s.arenas[a].tagAndId && s'.arenas[a].chain == [n] + s.arenas[a].chain
  {}

  lemma StepsGoDown(s: State, t: nat, mem: Addr)
    requires Lists(s) && Running(s, t)
    ensures StepsLeft(Step(s, t, mem, false), t) < StepsLeft(s, t)
  {
    hide Lists, Step, StepsLeft, Enabled;
    match PcOf(s, t)
    case FastCheck(a, id) => FastCheckGoesDown(s, t, mem);
    case Search(a, at, left) =>
      SearchFits(s, t, a, at, left);
      SearchGoesDown(s, t, a, at, left, mem);
    case _ => OthersGoDown(s, t, mem);
  }

  lemma FastCheckGoesDown(s: State, t: nat, mem: Addr)
    requires PcOf(s, t).FastCheck? && Running(s, t)
    ensures StepsLeft(Step(s, t, mem, false), t) < StepsLeft(s, t)
  {
    IdIsEven(s.arenas[PcOf(s, t).a]);
    hide Id;
  }

  lemma IdIsEven(ar: Arena)
    ensures Id(ar) % 2 == 0
  {}

  lemma SearchGoesDown(s: State, t: nat, a: nat, at: Option<Addr>, left: nat, mem: Addr)
    requires PcOf(s, t) == Search(a, at, left) && a in s.arenas
    requires at.Some? && Owner(s, at.value) != t ==> left > 0
    ensures StepsLeft(Step(s, t, mem, false), t) < StepsLeft(s, t)
  {}

  lemma OthersGoDown(s: State, t: nat, mem: Addr)
    requires Running(s, t) && !PcOf(s, t).FastCheck? && !PcOf(s, t).Search?
    ensures StepsLeft(Step(s, t, mem, false), t) < StepsLeft(s, t)
  {
    hide Id;
  }

  /** An answer reached from the next state is the answer from this one. */
  lemma AnswersFromNext(s: State, s': State, t: nat, mem: Addr)
    requires Inv(s) && Running(s, t) && (MayMake(PcOf(s, t)) ==> mem !in s.heap)
    requires !PcOf(Step(s, t, mem, false), t).Idle? && PcOf(Step(s, t, mem, false), t).a in s.arenas
    requires var s1 := Step(s, t, mem, false);
             PcOf(s1, t).a in s1.arenas && Answers(s1, s', t, mem)
    ensures Answers(s, s', t, mem)
  {
    hide Inv, Owner, StepOf, Lists;
    InvParts(s, t);
    var s1, a := Step(s, t, mem, false), PcOf(s, t).a;
    StepOnTheWay(s, t, mem);
    AdvanceIsStepOf(s, t, mem, false);
    var chain := s.arenas[a].chain;
    if s1.arenas[a].chain == chain {
      StepKeepsSearch(s, s1, t, a);
    } else {
      NoneOwnedNoneFound(s, chain, t);
      var n := NewNode(s, t, mem);
      assert ([n] + chain)[0] == n;
    }
  }

  lemma DoneAnswers(s: State, t: nat, mem: Addr)
    requires Inv(s) && PcOf(s, t).Done? && PcOf(s, t).a in s.arenas && s.arenas[PcOf(s, t).a].tagAndId != SENTINEL
    ensures Answers(s, s, t, mem)
  {
    hide IdsOk, Separate, CacheOk;
    var pc := PcOf(s, t);
    assert DoneOk(s, t) && ArenaOk(s, s.arenas[pc.a]);
    SlowSearchFindsTheOnlyOne(s, s.arenas[pc.a].chain, t, pc.result.value);
  }

  /**
   * From every state that keeps the invariant, wherever the thread is inside
   * the operation: let run alone it has its answer after at most as many
   * steps as the list is long, and eleven. If it has a serial arena in the
   * list that is the answer and the list stays as it is; if it has none the
   * answer is a new one, which it owns and which is in front of the list.
   */
  lemma {:induction false} AloneAnswers(s: State, t: nat, mem: Addr, n: nat)
    requires Inv(s) && !PcOf(s, t).Idle? && PcOf(s, t).a in s.arenas
    requires s.arenas[PcOf(s, t).a].tagAndId != SENTINEL
    requires MayMake(PcOf(s, t)) ==> mem !in s.heap
    requires StepsLeft(s, t) <= n
    ensures Answers(s, Alone(s, t, mem, n), t, mem)
    decreases n
  {
    hide Inv, Step, Answers, StepsLeft;
    if PcOf(s, t).Done? {
      DoneAnswers(s, t, mem);
    } else {
      InvParts(s, t);
      StepsGoDown(s, t, mem);
      StepOnTheWay(s, t, mem);
      AdvanceKeepsInv(s, t, mem, false);
      AloneAnswers(Step(s, t, mem, false), t, mem, n - 1);
      AnswersFromNext(s, Alone(s, t, mem, n), t, mem);
    }
  }

  lemma BoundOnSteps(s: State, t: nat)
    requires Lists(s) && !PcOf(s, t).Idle? && PcOf(s, t).a in s.arenas
    ensures StepsLeft(s, t) <= |s.arenas[PcOf(s, t).a].chain| + 11
  {
    hide ArenasOk, Separate;
    assert PcOk(s, t);
  }

  /** So from every reachable state, and again until ids come back. */
  lemma LookupEnds(states: seq<State>, acts: seq<Action>, n: nat, t: nat, mem: Addr)
    requires IsRun(states, acts) && n < |states| && states[n].ids.fetches <= LifecycleIds.BATCHES
    requires !PcOf(states[n], t).Idle? && mem !in states[n].heap
    ensures var (s, a) := (states[n], PcOf(states[n], t).a);
            && a in s.arenas
            && (s.arenas[a].tagAndId != SENTINEL ==> Answers(s, Alone(s, t, mem, |s.arenas[a].chain| + 11), t, mem))
  {
    hide IsRun, Inv, Answers, Alone, StepsLeft;
    RunKeepsInv(states, acts, n);
    InvParts(states[n], t);
    var s := states[n];
    assert PcOk(s, t) by { ListsPc(s, t); }
    PcInArenas(s, t);
    var a := PcOf(s, t).a;
    if s.arenas[a].tagAndId != SENTINEL {
      BoundOnSteps(s, t);
      AloneAnswers(s, t, mem, |s.arenas[a].chain| + 11);
    }
  }

  lemma ListsPc(s: State, t: nat)
    requires Lists(s)
    ensures PcOk(s, t)
  {
    hide PcOk, PrivateOk, ArenasOk, Separate;
  }

  // ------------------------------------------------------ what is kept for later

  /** A new arena with an initial block has the serial arena in it as hint, and in the cache of the thread. */
  lemma InitialIsKept(s: State, t: nat, a: nat, record: bool, n: Addr)
    requires LifecycleIds.Inv(s.ids) && Enabled(s, Construct(t, a, record, Some(n)))
    ensures var s' := Do(s, Construct(t, a, record, Some(n)));
            && a in s'.arenas && s'.arenas[a].chain == [n] && s'.arenas[a].head == s'.arenas[a].hint == Some(n)
            && CacheOf(s', t) == Cache(Id(s'.arenas[a]), Some(n)) && Owner(s', n) == t
            && (s'.arenas[a].tagAndId != Id(s'.arenas[a]) <==> record)
  {
    NewIdIsEven(s, t);
    hide LifecycleIds.Init, LifecycleIds.Id, LifecycleIds.Inv;
  }

  lemma NewIdIsEven(s: State, t: nat)
    requires LifecycleIds.Inv(s.ids)
    ensures LifecycleIds.Id(s.ids, t) % 2 == 0
  {
    hide LifecycleIds.Inv, LifecycleIds.IdOf;
    LifecycleIds.IdIsIssued(s.ids, t);
    LifecycleIds.IdsAreEven(LifecycleIds.Init(s.ids, t).issued[|s.ids.issued|]);
  }

  /** A thread that is about to store the hint has written its cache. */
  ghost predicate CacheWritten(s: State, t: nat) {
    PcOf(s, t).StoreHint? ==>
      PcOf(s, t).a in s.arenas && CacheOf(s, t) == Cache(Id(s.arenas[PcOf(s, t).a]), Some(PcOf(s, t).n))
  }

  lemma DoKeepsWritten(s: State, act: Action, t: nat)
    requires Lists(s) && Enabled(s, act) && CacheWritten(s, t)
    ensures CacheWritten(Do(s, act), t)
  {
    if act.Advance? {
      hide Lists, CacheWritten;
      if act.t == t {
        OwnStepKeepsWritten(s, t, act.mem, act.spurious);
      } else {
        AdvanceIsStepOf(s, act.t, act.mem, act.spurious);
        OthersKeepWritten(s, Step(s, act.t, act.mem, act.spurious), act.t, t);
      }
    } else {
      hide LifecycleIds.Init, LifecycleIds.Id, LifecycleIds.Forget, Lists, Step;
    }
  }

  lemma OwnStepKeepsWritten(s: State, t: nat, mem: Addr, spurious: bool)
    requires Enabled(s, Advance(t, mem, spurious)) && CacheWritten(s, t)
    ensures CacheWritten(Step(s, t, mem, spurious), t)
  {}

  lemma OthersKeepWritten(s: State, s': State, u: nat, t: nat)
    requires StepOf(s, s', u) && u != t && CacheWritten(s, t)
    ensures CacheWritten(s', t)
  {}

  lemma NothingWrittenAtStart(t: nat)
    ensures CacheWritten(START, t)
  {}

  lemma {:induction false} RunKeepsWritten(states: seq<State>, acts: seq<Action>, n: nat, t: nat)
    requires IsRun(states, acts) && n < |states|
    ensures CacheWritten(states[n], t)
  {
    hide CacheWritten, Enabled, Do, Lists;
    if n == 0 {
      NothingWrittenAtStart(t);
    } else {
      assert states[n - 1 + 1] == Do(states[n - 1], acts[n - 1]);
      RunKeepsWritten(states, acts, n - 1, t);
      RunKeepsLists(states, acts, n - 1);
      DoKeepsWritten(states[n - 1], acts[n - 1], t);
    }
  }

  /**
   * The answer is kept for the next time: where a lookup ends, its answer is
   * what the hint has, or what the thread's cache has under the arena's id;
   * and after a search or a push it is both.
   */
  lemma AnswerIsKept(states: seq<State>, acts: seq<Action>, n: nat, t: nat)
    requires IsRun(states, acts) && n < |acts| && states[n].ids.fetches <= LifecycleIds.BATCHES
    requires !PcOf(states[n], t).Done? && PcOf(states[n + 1], t).Done?
    ensures var (s, pc, from) := (states[n + 1], PcOf(states[n + 1], t), PcOf(states[n], t));
            && pc.a in s.arenas
            && var inCache := CacheOf(s, t) == Cache(Id(s.arenas[pc.a]), pc.result);
               var inHint := s.arenas[pc.a].hint == pc.result;
               && (s.arenas[pc.a].tagAndId != SENTINEL ==> inCache || inHint)
               && (!from.FastCheck? && !from.HintCheck? ==> inCache && inHint)
  {
    RunStep(states, acts, n);
    RunKeepsInv(states, acts, n);
    RunKeepsWritten(states, acts, n, t);
    hide IsRun, Inv;
    EndIsKept(states[n], acts[n], t);
  }

  lemma EndIsKept(s: State, act: Action, t: nat)
    requires Inv(s) && CacheWritten(s, t) && Enabled(s, act) && !PcOf(s, t).Done? && PcOf(Do(s, act), t).Done?
    ensures var (s', pc, from) := (Do(s, act), PcOf(Do(s, act), t), PcOf(s, t));
            && pc.a in s'.arenas
            && var inCache := CacheOf(s', t) == Cache(Id(s'.arenas[pc.a]), pc.result);
               var inHint := s'.arenas[pc.a].hint == pc.result;
               && (s'.arenas[pc.a].tagAndId != SENTINEL ==> inCache || inHint)
               && (!from.FastCheck? && !from.HintCheck? ==> inCache && inHint)
  {
    hide Inv;
    EndIsAdvance(s, act, t);
    assert PcOk(s, t) by { InvParts(s, t); ListsPc(s, t); }
    var pc := PcOf(s, t);
    if pc.FastCheck? {
      if s.arenas[pc.a].tagAndId != SENTINEL && CacheOf(s, t).seen == pc.id { MatchIsUnderId(s, t, pc.a, pc.id); }
    }
  }

  lemma EndIsAdvance(s: State, act: Action, t: nat)
    requires Enabled(s, act) && !PcOf(s, t).Done? && PcOf(Do(s, act), t).Done?
    ensures act.Advance? && act.t == t && (PcOf(s, t).FastCheck? || PcOf(s, t).HintCheck? || PcOf(s, t).StoreHint?)
  {
    hide LifecycleIds.Init, LifecycleIds.Id, LifecycleIds.Forget;
  }

  lemma MatchIsUnderId(s: State, t: nat, a: nat, id: nat)
    requires Inv(s) && PcOf(s, t) == FastCheck(a, id) && a in s.arenas && s.arenas[a].tagAndId != SENTINEL
    requires CacheOf(s, t).seen == id
    ensures id == Id(s.arenas[a])
  {
    hide LifecycleIds.HandedOut, LifecycleIds.Inv, Separate, ArenasOk;
    assert PcOk(s, t) && CacheOk(s, t);
    HandedOutIsEven(s, Id(s.arenas[a]));
    if CacheOf(s, t).seen != SENTINEL { HandedOutIsEven(s, CacheOf(s, t).seen); }
  }
}
