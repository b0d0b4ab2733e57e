// Lifecycle ids: Init takes them from the thread's own batch, and a new batch
// from one global counter.
module LifecycleIds {
  const WRAP: nat := 0x1_0000_0000_0000_0000
  const PER_THREAD_IDS: nat := 256
  const DELTA: nat := 2
  const INCREMENT: nat := PER_THREAD_IDS * DELTA
  /** The number of batches before 64-bit ids wrap around: two to the power 55. */
  const BATCHES: nat := 0x80_0000_0000_0000

  /** The index-th id of a batch. */
  datatype Issue = Issue(batch: nat, index: nat)

  /**
   * The number of fetches from the counter, next_lifecycle_id of each thread,
   * and two histories: the batch each thread fetched last, and all that was
   * handed out.
   */
  datatype Ids = Ids(fetches: nat, next: map<nat, nat>, batch: map<nat, nat>, issued: seq<Issue>)

  const START: Ids := Ids(0, map[], map[], [])

  function NextOf(s: Ids, t: nat): nat {
    if t in s.next then s.next[t] else 0
  }

  function IdOf(i: Issue): nat {
    (i.batch * INCREMENT + i.index * DELTA) % WRAP
  }

  /** No bit of the next id below the increment is set. */
  predicate NeedsBatch(s: Ids, t: nat) {
    NextOf(s, t) % INCREMENT == 0
  }

  /** What Init by thread t hands out; the fetch_add is its only access to shared memory. */
  function Id(s: Ids, t: nat): nat {
    if NeedsBatch(s, t) then (s.fetches * INCREMENT) % WRAP else NextOf(s, t)
  }

  function Init(s: Ids, t: nat): Ids {
    var next := s.next[t := (Id(s, t) + DELTA) % WRAP];
    if NeedsBatch(s, t) then
      Ids(s.fetches + 1, next, s.batch[t := s.fetches], s.issued + [Issue(s.fetches, 0)])
    else
      var batch := if t in s.batch then s.batch[t] else 0;
      s.(next := next, issued := s.issued + [Issue(batch, NextOf(s, t) % INCREMENT / DELTA)])
  }

  /** A thread ends and a new one gets its thread-local storage, which starts at zero. */
  function Forget(s: Ids, t: nat): Ids {
    s.(next := s.next - {t}, batch := s.batch - {t})
  }

  /** Calls of Init, by the threads of the schedule in turn. */
  function Run(schedule: seq<nat>): Ids {
    if schedule == [] then START else Init(Run(schedule[..|schedule| - 1]), schedule[|schedule| - 1])
  }

  // ---------------------------------------------------------------- invariant

  /** How many ids of its batch a thread has used. */
  function Used(s: Ids, t: nat): nat {
    if NextOf(s, t) % INCREMENT == 0 then PER_THREAD_IDS else NextOf(s, t) % INCREMENT / DELTA
  }

  ghost predicate ThreadIsOk(s: Ids, t: nat) {
    t in s.next ==>
      && t in s.batch && s.batch[t] < s.fetches
      && s.next[t] == IdOf(Issue(s.batch[t], Used(s, t)))
  }

  ghost predicate Inv(s: Ids) {
    && s.batch.Keys == s.next.Keys
    && (forall t :: ThreadIsOk(s, t))
    && (forall t, u :: t in s.batch && u in s.batch && t != u ==> s.batch[t] != s.batch[u])
    && (forall k :: 0 <= k < |s.issued| ==> s.issued[k].batch < s.fetches && s.issued[k].index < PER_THREAD_IDS)
    && (forall k, t :: 0 <= k < |s.issued| && t in s.batch && s.issued[k].batch == s.batch[t] ==>
          s.issued[k].index < Used(s, t))
    && (forall b :: 0 <= b < s.fetches ==> Issue(b, 0) in s.issued)
  }

  ghost predicate Distinct<T(!new)>(s: seq<T>) {
    forall i, j :: 0 <= i < j < |s| ==> s[i] != s[j]
  }

  /** x % WRAP has the same remainder as x by any divisor of WRAP. */
  lemma RemainderOfWrapped(x: nat)
    ensures x % WRAP % INCREMENT == x % INCREMENT
  {
    var q := x / WRAP;
    assert x % WRAP == x - INCREMENT * (q * BATCHES);
  }

  lemma NextOfWrapped(x: nat)
    ensures (x % WRAP + DELTA) % WRAP == (x + DELTA) % WRAP
  {
    var q := x / WRAP;
    assert x + DELTA == x % WRAP + DELTA + WRAP * q;
  }

  lemma RemainderInBatch(b: nat, r: nat)
    requires r <= INCREMENT
    ensures (b * INCREMENT + r) % INCREMENT == if r < INCREMENT then r else 0
  {
    assert (b * INCREMENT + INCREMENT) % INCREMENT == 0;
  }

  lemma IdInBatch(i: Issue)
    ensures i.index < PER_THREAD_IDS ==> IdOf(i) % INCREMENT == i.index * DELTA
    ensures i.index == PER_THREAD_IDS ==> IdOf(i) % INCREMENT == 0
  {
    RemainderOfWrapped(i.batch * INCREMENT + i.index * DELTA);
    if i.index <= PER_THREAD_IDS { RemainderInBatch(i.batch, i.index * DELTA); }
  }

  lemma IdAfter(i: Issue)
    ensures IdOf(Issue(i.batch, i.index + 1)) == (IdOf(i) + DELTA) % WRAP
  {
    var x := i.batch * INCREMENT + i.index * DELTA;
    NextOfWrapped(x);
    assert i.batch * INCREMENT + (i.index + 1) * DELTA == x + DELTA;
  }

  /** What is handed out is the new issue. */
  lemma IdIsIssued(s: Ids, t: nat)
    requires Inv(s)
    ensures var i := Init(s, t).issued[|s.issued|];
            && Id(s, t) == IdOf(i) && i.index < PER_THREAD_IDS
            && (NeedsBatch(s, t) ==> i == Issue(s.fetches, 0))
            && (!NeedsBatch(s, t) ==> t in s.batch && i == Issue(s.batch[t], Used(s, t)))
            && Used(Init(s, t), t) == i.index + 1
            && ThreadIsOk(Init(s, t), t)
  {
    hide IdOf, Inv;
    ThreadsAreOk(s, t);
    if !NeedsBatch(s, t) {
      IdInBatch(Issue(s.batch[t], Used(s, t)));
    }
    var i := Init(s, t).issued[|s.issued|];
    assert Id(s, t) == IdOf(i) by { IdOfFirst(s.fetches); }
    IdAfter(i);
    IdInBatch(Issue(i.batch, i.index + 1));
  }

  lemma ThreadsAreOk(s: Ids, t: nat)
    requires Inv(s)
    ensures ThreadIsOk(s, t)
  {}

  lemma IdOfFirst(b: nat)
    ensures IdOf(Issue(b, 0)) == (b * INCREMENT) % WRAP
  {}

  lemma InitKeepsInv(s: Ids, t: nat)
    requires Inv(s)
    ensures Inv(Init(s, t))
    ensures Init(s, t).issued[|s.issued|] !in s.issued
  {
    hide IdOf;
    IdIsIssued(s, t);
    var s' := Init(s, t);
    forall u ensures ThreadIsOk(s', u) {
      if u != t { assert ThreadIsOk(s, u); }
    }
    forall u, v | u in s'.batch && v in s'.batch && u != v ensures s'.batch[u] != s'.batch[v] {
      ThreadsAreOk(s, u);
      ThreadsAreOk(s, v);
      ThreadsAreOk(s, t);
    }
    forall k, u | 0 <= k < |s'.issued| && u in s'.batch && s'.issued[k].batch == s'.batch[u]
      ensures s'.issued[k].index < Used(s', u)
    {
      ThreadsAreOk(s, u);
      ThreadsAreOk(s, t);
      assert u != t ==> u in s.batch && Used(s', u) == Used(s, u);
    }
    forall b | 0 <= b < s'.fetches ensures Issue(b, 0) in s'.issued {
      if b == s.fetches { assert s'.issued[|s.issued|] == Issue(b, 0); } else { assert Issue(b, 0) in s.issued; }
    }
  }

  /** What is left of the batch of a thread that ends is never handed out. */
  lemma ForgetKeepsInv(s: Ids, t: nat)
    requires Inv(s)
    ensures Inv(Forget(s, t)) && HandedOut(Forget(s, t)) == HandedOut(s) && NeedsBatch(Forget(s, t), t)
  {
    hide IdOf;
    forall u ensures ThreadIsOk(Forget(s, t), u) { assert ThreadIsOk(s, u); }
    forall k, u | 0 <= k < |s.issued| && u in Forget(s, t).batch && s.issued[k].batch == Forget(s, t).batch[u]
      ensures s.issued[k].index < Used(Forget(s, t), u)
    {
      assert u in s.batch && Used(Forget(s, t), u) == Used(s, u);
    }
  }

  lemma {:induction false} RunKeepsInv(schedule: seq<nat>)
    ensures Inv(Run(schedule)) && Distinct(Run(schedule).issued)
    ensures |Run(schedule).issued| == |schedule|
    decreases |schedule|
  {
    hide IdOf, Inv;
    if schedule == [] {
      assert Inv(START) by { StartIsOk(); }
    } else {
      var before, t := schedule[..|schedule| - 1], schedule[|schedule| - 1];
      RunKeepsInv(before);
      InitKeepsInv(Run(before), t);
      assert Run(schedule).issued[..|before|] == Run(before).issued;
    }
  }

  lemma StartIsOk()
    ensures Inv(START)
  {
    forall t ensures ThreadIsOk(START, t) {}
  }

  // -------------------------------------------------------------- the theorems

  function HandedOut(s: Ids): seq<nat> {
    seq(|s.issued|, k requires 0 <= k < |s.issued| => IdOf(s.issued[k]))
  }

  /** Below the wrap, ids tell batches and indexes apart. */
  lemma IdOfIsInjective(i: Issue, j: Issue)
    requires i.batch < BATCHES && j.batch < BATCHES && i.index < PER_THREAD_IDS && j.index < PER_THREAD_IDS
    ensures IdOf(i) == IdOf(j) ==> i == j
  {
    hide IdOf;
    NoWrap(i);
    NoWrap(j);
    if i.batch < j.batch || j.batch < i.batch { assert IdOf(i) != IdOf(j); }
  }

  lemma NoWrap(i: Issue)
    requires i.batch < BATCHES && i.index < PER_THREAD_IDS
    ensures IdOf(i) == i.batch * INCREMENT + i.index * DELTA
  {}

  lemma IdsAreEven(i: Issue)
    ensures IdOf(i) % 2 == 0
  {
    var x := i.batch * INCREMENT + i.index * DELTA;
    var q := x / WRAP;
    assert IdOf(i) == 2 * (i.batch * PER_THREAD_IDS + i.index - q * (WRAP / 2));
  }

  /** A new id differs from all before it, as long as the counter has not gone all the way round. */
  lemma NewIdIsFresh(s: Ids, t: nat)
    requires Inv(s) && Init(s, t).fetches <= BATCHES
    ensures Id(s, t) !in HandedOut(s) && Id(s, t) % 2 == 0
    ensures HandedOut(Init(s, t)) == HandedOut(s) + [Id(s, t)]
  {
    hide IdOf;
    IdIsIssued(s, t);
    InitKeepsInv(s, t);
    var i := Init(s, t).issued[|s.issued|];
    IdsAreEven(i);
    forall k | 0 <= k < |s.issued| ensures IdOf(s.issued[k]) != Id(s, t) {
      IdOfIsInjective(s.issued[k], i);
    }
  }

  /**
   * Over every interleaving of Init calls by any number of threads, all ids
   * are even, and they are pairwise distinct if and only if at most 2^55
   * batches were fetched.
   */
  lemma IdsAreDistinct(schedule: seq<nat>)
    ensures |HandedOut(Run(schedule))| == |schedule|
    ensures forall id :: id in HandedOut(Run(schedule)) ==> id % 2 == 0
    ensures Distinct(HandedOut(Run(schedule))) <==> Run(schedule).fetches <= BATCHES
  {
    hide IdOf, Run;
    RunKeepsInv(schedule);
    var s := Run(schedule);
    forall k | 0 <= k < |schedule| ensures HandedOut(s)[k] % 2 == 0 { IdsAreEven(s.issued[k]); }
    assert |s.issued| == |schedule|;
    if s.fetches <= BATCHES {
      forall k, l | 0 <= k < l < |s.issued| ensures HandedOut(s)[k] != HandedOut(s)[l] {
        IdOfIsInjective(s.issued[k], s.issued[l]);
      }
    } else {
      FirstBatchComesBack();
      var k :| 0 <= k < |s.issued| && s.issued[k] == Issue(0, 0);
      var l :| 0 <= l < |s.issued| && s.issued[l] == Issue(BATCHES, 0);
      assert HandedOut(s)[k] == HandedOut(s)[l];
    }
  }

  lemma FirstBatchComesBack()
    ensures IdOf(Issue(0, 0)) == IdOf(Issue(BATCHES, 0))
  {}

  function CountOf(schedule: seq<nat>, t: nat): nat {
    if schedule == [] then 0
    else CountOf(schedule[..|schedule| - 1], t) + if schedule[|schedule| - 1] == t then 1 else 0
  }

  /** The fetches that a thread made. */
  function FetchesOf(schedule: seq<nat>, t: nat): nat {
    if schedule == [] then 0
    else
      var before, u := schedule[..|schedule| - 1], schedule[|schedule| - 1];
      FetchesOf(before, t) + if u == t && NeedsBatch(Run(before), t) then 1 else 0
  }

  /** How fetches and uses of a batch follow the number of calls. */
  lemma CeilingSteps(count: nat)
    ensures var fetches := (count + PER_THREAD_IDS - 1) / PER_THREAD_IDS;
            (count + 1 + PER_THREAD_IDS - 1) / PER_THREAD_IDS ==
            if count - PER_THREAD_IDS * (fetches - 1) == PER_THREAD_IDS || count == 0 then fetches + 1 else fetches
  {}

  /** Each fetch covers exactly 256 ids of its thread, however the threads are interleaved. */
  lemma {:induction false} FetchCovers256(schedule: seq<nat>, t: nat)
    ensures FetchesOf(schedule, t) == (CountOf(schedule, t) + PER_THREAD_IDS - 1) / PER_THREAD_IDS
    ensures CountOf(schedule, t) > 0 ==> t in Run(schedule).next
    ensures CountOf(schedule, t) > 0 ==>
              Used(Run(schedule), t) == CountOf(schedule, t) - PER_THREAD_IDS * (FetchesOf(schedule, t) - 1)
    ensures CountOf(schedule, t) == 0 ==> t !in Run(schedule).next
    decreases |schedule|
  {
    hide IdOf, Inv;
    if schedule != [] {
      var before, u := schedule[..|schedule| - 1], schedule[|schedule| - 1];
      FetchCovers256(before, t);
      RunKeepsInv(before);
      if u == t {
        CallUses(Run(before), t);
        CeilingSteps(CountOf(before, t));
      }
    }
  }

  /** A call fetches when its batch is used up, or there is none yet. */
  lemma CallUses(s: Ids, t: nat)
    requires Inv(s)
    ensures NeedsBatch(s, t) <==> t !in s.next || Used(s, t) == PER_THREAD_IDS
    ensures Used(Init(s, t), t) == if NeedsBatch(s, t) then 1 else Used(s, t) + 1
  {
    hide IdOf, Inv;
    IdIsIssued(s, t);
  }

  /** While a batch is left, ids are even and stay below the last one of 64 bits. */
  lemma IdsAreBelowLast(s: Ids, id: nat)
    requires Inv(s) && s.fetches < BATCHES && id in HandedOut(s)
    ensures id % 2 == 0 && id + 2 < WRAP
  {
    hide IdOf;
    var k :| 0 <= k < |s.issued| && HandedOut(s)[k] == id;
    IdsAreEven(s.issued[k]);
    NoWrap(s.issued[k]);
  }
}
