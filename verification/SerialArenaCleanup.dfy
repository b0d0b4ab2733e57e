// CleanupList against the registrations: each cleanup once, newest first, over
// all blocks; and the one case in which a cleanup is passed over.
module SerialArenaCleanup {
  import opened Options
  import opened SerialArena
  import opened SerialArenaRuns

  function Reverse<T>(s: seq<T>): seq<T> {
    if s == [] then [] else [s[|s| - 1]] + Reverse(s[..|s| - 1])
  }

  /** The nodes stored in a block, lowest first, which is newest first. */
  function BlockNodes(s: Serial, b: nat): seq<Cleanup> {
    ReadNodes(s.nodes, b, s.Start(b), Top(s, b))
  }

  /** The nodes stored in blocks 0..n, newest first. */
  function AllNodes(s: Serial, n: nat): seq<Cleanup> {
    if n == 0 then [] else BlockNodes(s, n - 1) + AllNodes(s, n - 1)
  }

  /** Every slot between the lowest node and the top of its block has been written. */
  ghost predicate Written(s: Serial, b: nat) {
    forall offset :: s.Start(b) <= offset < Top(s, b) && (Top(s, b) - offset) % CLEANUP == 0 ==>
      Slot(b, offset) in s.nodes
  }

  /** The stored nodes are the registered cleanups, newest first. */
  ghost predicate Listed(s: Serial, h: History) {
    && (forall b :: 0 <= b <= s.Head() ==> Written(s, b))
    && AllNodes(s, s.Head() + 1) == Reverse(h.cleanups)
  }

  lemma {:induction false} ReadFrame(nodes: map<Slot, Cleanup>, nodes': map<Slot, Cleanup>, b: nat, from: nat, to: nat)
    requires forall o :: from <= o < to ==> (Slot(b, o) in nodes <==> Slot(b, o) in nodes')
    requires forall o :: from <= o < to && Slot(b, o) in nodes ==> nodes[Slot(b, o)] == nodes'[Slot(b, o)]
    ensures ReadNodes(nodes, b, from, to) == ReadNodes(nodes', b, from, to)
    decreases if from < to then to - from else 0
  {
    if from < to && Slot(b, from) in nodes { ReadFrame(nodes, nodes', b, from + CLEANUP, to); }
  }

  /** The lists of two arenas agree on blocks whose bounds and slots agree. */
  lemma {:induction false} AllNodesFrame(s: Serial, s': Serial, n: nat)
    requires forall b :: 0 <= b < n ==> s.Start(b) == s'.Start(b) && Top(s, b) == Top(s', b)
    requires forall b, o :: 0 <= b < n && s.Start(b) <= o ==> (Slot(b, o) in s.nodes <==> Slot(b, o) in s'.nodes)
    requires forall b, o :: 0 <= b < n && s.Start(b) <= o && Slot(b, o) in s.nodes ==>
              s.nodes[Slot(b, o)] == s'.nodes[Slot(b, o)]
    ensures AllNodes(s, n) == AllNodes(s', n)
  {
    if n > 0 {
      ReadFrame(s.nodes, s'.nodes, n - 1, s.Start(n - 1), Top(s, n - 1));
      AllNodesFrame(s, s', n - 1);
    }
  }

  lemma NewBlockKeepsList(s: Serial, h: History, n: nat, policy: Option<Policy>, base: nat)
    requires Layout(s, h) && Listed(s, h)
    ensures BLOCK_HEADER <= s.ptr
    ensures Listed(AllocateNewBlock(s, n, policy, base), h)
  {
    assert Stacked(s, s.Head());
    var s' := AllocateNewBlock(s, n, policy, base);
    forall b | 0 <= b <= s'.Head() ensures Written(s', b) {
      if b <= s.Head() { assert Written(s, b); }
    }
    AllNodesFrame(s, s', s.Head() + 1);
    assert BlockNodes(s', s'.Head()) == [];
  }

  /** Moving ptr does not touch the nodes. */
  lemma BumpKeepsList(s: Serial, h: History, ptr: nat, data: seq<Region>)
    requires Listed(s, h)
    ensures Listed(s.(ptr := ptr), h.(data := data))
  {
    var s' := s.(ptr := ptr);
    forall b | 0 <= b <= s'.Head() ensures Written(s', b) { assert Written(s, b); }
    AllNodesFrame(s, s', s.Head() + 1);
  }

  lemma PushKeepsWritten(s: Serial, h: History, c: Cleanup, b: nat)
    requires Layout(s, h) && Written(s, b) && HasSpace(s, CLEANUP) && b <= s.Head()
    ensures Written(WriteNode(s.(limit := s.limit - CLEANUP), Slot(s.Head(), s.limit - CLEANUP), c), b)
  {
    var s' := WriteNode(s.(limit := s.limit - CLEANUP), Slot(s.Head(), s.limit - CLEANUP), c);
    assert Stacked(s, b);
    forall o | s'.Start(b) <= o < Top(s', b) && (Top(s', b) - o) % CLEANUP == 0 ensures Slot(b, o) in s'.nodes {
      if b == s.Head() && o < s.limit { NoSlotBetween(Top(s, b), s.limit, o); }
    }
  }

  lemma PushExtendsBlock(s: Serial, h: History, c: Cleanup)
    requires Layout(s, h) && HasSpace(s, CLEANUP)
    ensures var s' := WriteNode(s.(limit := s.limit - CLEANUP), Slot(s.Head(), s.limit - CLEANUP), c);
            BlockNodes(s', s.Head()) == [c] + BlockNodes(s, s.Head())
  {
    var top := s.Head();
    var s' := WriteNode(s.(limit := s.limit - CLEANUP), Slot(top, s.limit - CLEANUP), c);
    assert Stacked(s, top);
    ReadFrame(s.nodes, s'.nodes, top, s.limit, Top(s, top));
  }

  lemma PushNode(s: Serial, h: History, c: Cleanup)
    requires Layout(s, h) && Listed(s, h) && HasSpace(s, CLEANUP)
    ensures var slot := Slot(s.Head(), s.limit - CLEANUP);
            Listed(WriteNode(s.(limit := s.limit - CLEANUP), slot, c), h.(cleanups := h.cleanups + [c]))
  {
    hide Layout, Written, BlockNodes;
    var top := s.Head();
    var s' := WriteNode(s.(limit := s.limit - CLEANUP), Slot(top, s.limit - CLEANUP), c);
    forall b | 0 <= b <= s'.Head() ensures Written(s', b) { PushKeepsWritten(s, h, c, b); }
    AllNodesFrame(s, s', top);
    PushExtendsBlock(s, h, c);
    assert AllNodes(s', top + 1) == [c] + AllNodes(s, top + 1);
    assert (h.cleanups + [c])[..|h.cleanups|] == h.cleanups;
  }

  /** Node offsets are a whole number of nodes apart. */
  lemma NoSlotBetween(top: nat, limit: nat, o: nat)
    requires (top - limit) % CLEANUP == 0 && (top - o) % CLEANUP == 0
    requires limit - CLEANUP <= o < limit <= top
    ensures o == limit - CLEANUP
  {}

  lemma ServeKeepsList(s: Serial, h: History, r: Request, policy: Option<Policy>, base: nat)
    requires Layout(s, h) && Listed(s, h) && r.n % 8 == 0
    ensures BLOCK_HEADER <= s.ptr
    ensures var (s', h') := Serve(s, h, r, policy, base); Listed(s', h')
  {
    hide Serve, Layout, Listed;
    LayoutPtr(s, h);
    OneNewBlockSuffices(s, h, r, policy, base);
    var t := Prepared(s, Need(r), policy, base);
    if !HasSpace(s, Need(r)) {
      NewBlockKeepsLayout(s, h, Need(r), policy, base);
      NewBlockKeepsList(s, h, Need(r), policy, base);
    }
    var data := h.data + [Region(t.Head(), t.ptr, t.ptr + r.n)];
    BumpKeepsList(t, h, t.ptr + r.n, data);
    if r.Owned? {
      BumpKeepsLayout(t, h, r.n, 0);
      assert t.(ptr := t.ptr + r.n, limit := t.limit - CLEANUP * 0) == t.(ptr := t.ptr + r.n);
      PushNode(t.(ptr := t.ptr + r.n), h.(data := data), r.c);
    }
  }

  lemma LayoutPtr(s: Serial, h: History)
    requires Layout(s, h)
    ensures BLOCK_HEADER <= s.ptr <= s.limit
  {
    assert Stacked(s, s.Head());
  }

  // --------------------------------------------------------------- CleanupList

  /** A block that CleanupList passes over: not the first, of a size that is no multiple of 8, with one node. */
  ghost predicate PassedOver(s: Serial, b: nat) {
    b > 0 && s.BlockSize(b) % 8 != 0 && Top(s, b) - s.Start(b) == CLEANUP
  }

  /** Cutting less than a node off the top loses no node. */
  lemma {:induction false} ReadTrim(nodes: map<Slot, Cleanup>, b: nat, from: nat, to: nat, cut: nat)
    requires from <= to && (to - from) % CLEANUP == 0 && cut < 8 && cut <= to
    ensures ReadNodes(nodes, b, from, to - cut) == ReadNodes(nodes, b, from, to)
    decreases if from < to then to - from else 0
  {
    if from < to {
      assert from + CLEANUP <= to;
      ReadTrim(nodes, b, from + CLEANUP, to, cut);
    }
  }

  lemma BlockCallsAreNodes(s: Serial, b: nat)
    requires Stacked(s, b) && Written(s, b)
    ensures PassedOver(s, b) ==> BlockCalls(s, b) == [] && |BlockNodes(s, b)| == 1
    ensures !PassedOver(s, b) ==> BlockCalls(s, b) == BlockNodes(s, b)
  {
    var top, start := Top(s, b), s.Start(b);
    var cut := top - Mask8(s.BlockSize(b));
    ReadTrim(s.nodes, b, start, top, cut);
    if PassedOver(s, b) {
      assert Slot(b, start) in s.nodes;
      assert ReadNodes(s.nodes, b, start + CLEANUP, top) == [];
    }
  }

  lemma {:induction false} CallsAreNodes(s: Serial, n: nat)
    requires forall b :: 0 <= b < n ==> Stacked(s, b) && Written(s, b)
    ensures |CleanupCalls(s, n)| <= |AllNodes(s, n)|
    ensures CleanupCalls(s, n) == AllNodes(s, n) <==> forall b :: 0 <= b < n ==> !PassedOver(s, b)
    ensures |CleanupCalls(s, n)| == |AllNodes(s, n)| ==> CleanupCalls(s, n) == AllNodes(s, n)
  {
    if n > 0 {
      assert Stacked(s, n - 1) && Written(s, n - 1);
      BlockCallsAreNodes(s, n - 1);
      CallsAreNodes(s, n - 1);
    }
  }

  /**
   * CleanupList calls each registered cleanup exactly once, in exact reverse
   * order of registration across all blocks, if and only if no block after
   * the first holds a single node while its size is no multiple of 8.
   */
  lemma CleanupOnceInReverse(s: Serial, h: History)
    requires Layout(s, h) && Listed(s, h)
    ensures CleanupList(s) == Reverse(h.cleanups) <==> forall b :: 0 <= b <= s.Head() ==> !PassedOver(s, b)
  {
    CallsAreNodes(s, s.Head() + 1);
  }
}
