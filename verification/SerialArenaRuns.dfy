// Whole allocation histories of a SerialArena: where everything lies, that each
// cleanup runs once and in reverse order, and how much space is held.
module SerialArenaRuns {
  import opened Options
  import opened SerialArena

  /** Requests to the arena. An owned request gets a cleanup node, which its caller fills in. */
  datatype Request = Data(n: nat) | Owned(n: nat, c: Cleanup)

  /** What has been handed out so far: data regions and cleanups, in order. */
  datatype History = History(data: seq<Region>, cleanups: seq<Cleanup>)

  function Serve(s: Serial, h: History, r: Request, policy: Option<Policy>, base: nat): (result: (Serial, History))
    requires BLOCK_HEADER <= s.ptr
    ensures BLOCK_HEADER <= result.0.ptr
  {
    match r
    case Data(n) =>
      var (s', region) := AllocateAligned(s, n, policy, base);
      (s', h.(data := h.data + [region]))
    case Owned(n, c) =>
      var (s', region, slot) := AllocateAlignedWithCleanup(s, n, policy, base);
      (WriteNode(s', slot, c), History(h.data + [region], h.cleanups + [c]))
  }

  // ------------------------------------------------------------------- layout

  /** The first byte of a block that allocations may use. */
  function Bottom(b: nat): nat {
    if b == 0 then BLOCK_HEADER + SERIAL_ARENA else BLOCK_HEADER
  }

  /** Where the cleanup nodes of a block end: only the first block's limit is masked. */
  function Top(s: Serial, b: nat): nat {
    if b == 0 then Mask8(s.BlockSize(b)) else s.BlockSize(b)
  }

  /** The end of the data of a block. */
  function DataEnd(s: Serial, b: nat): nat {
    if b < |s.retired| then s.retired[b].start else s.ptr
  }

  /** Header, data and nodes of a block lie one above the other, and nodes are whole. */
  ghost predicate Stacked(s: Serial, b: nat) {
    && Bottom(b) <= DataEnd(s, b) <= s.Start(b) <= Top(s, b) <= s.BlockSize(b)
    && (Top(s, b) - s.Start(b)) % CLEANUP == 0
  }

  ghost predicate Inside(s: Serial, r: Region) {
    && r.block <= s.Head()
    && Bottom(r.block) <= r.lo <= r.hi <= DataEnd(s, r.block)
    && r.lo % 8 == 0
  }

  predicate Apart(r: Region, q: Region) {
    r.block == q.block ==> r.hi <= q.lo || q.hi <= r.lo
  }

  /** Data regions lie inside the data part of their block, 8-aligned and pairwise disjoint. */
  ghost predicate Layout(s: Serial, h: History) {
    && s.ptr % 8 == 0
    && (forall b :: 0 <= b <= s.Head() ==> Stacked(s, b))
    && (forall i :: 0 <= i < |h.data| ==> Inside(s, h.data[i]))
    && (forall i, j :: 0 <= i < j < |h.data| ==> Apart(h.data[i], h.data[j]))
  }

  /** The bytes a request takes: its data and its cleanup node. */
  function Need(r: Request): nat {
    r.n + if r.Owned? then CLEANUP else 0
  }

  /** The arena in which the request is finally served: the same one, or with one more block. */
  function Prepared(s: Serial, n: nat, policy: Option<Policy>, base: nat): Serial
    requires BLOCK_HEADER <= s.ptr
  {
    if HasSpace(s, n) then s else AllocateNewBlock(s, n, policy, base)
  }

  /** The fallback allocates at most one block: the second attempt always finds room. */
  lemma OneNewBlockSuffices(s: Serial, h: History, r: Request, policy: Option<Policy>, base: nat)
    requires BLOCK_HEADER <= s.ptr
    ensures var t := Prepared(s, Need(r), policy, base);
            var region := Region(t.Head(), t.ptr, t.ptr + r.n);
            && HasSpace(t, Need(r))
            && Serve(s, h, r, policy, base) ==
               (match r
                case Data(n) => (t.(ptr := t.ptr + n), h.(data := h.data + [region]))
                case Owned(n, c) =>
                  (WriteNode(t.(ptr := t.ptr + n, limit := t.limit - CLEANUP), Slot(t.Head(), t.limit - CLEANUP), c),
                   History(h.data + [region], h.cleanups + [c])))
  {
    var t := Prepared(s, Need(r), policy, base);
    match r
    case Data(n) => assert AllocateAligned(s, n, policy, base) == AllocateAligned(t, n, policy, base);
    case Owned(n, c) =>
      assert AllocateAlignedWithCleanup(s, n, policy, base) == AllocateAlignedWithCleanup(t, n, policy, base);
  }

  lemma NewBlockKeepsLayout(s: Serial, h: History, n: nat, policy: Option<Policy>, base: nat)
    requires Layout(s, h)
    ensures Stacked(s, s.Head())
    ensures Layout(AllocateNewBlock(s, n, policy, base), h)
  {
    assert Stacked(s, s.Head());
    var s' := AllocateNewBlock(s, n, policy, base);
    forall b | 0 <= b <= s'.Head() ensures Stacked(s', b) {
      assert b <= s.Head() ==> Stacked(s, b);
    }
    forall i | 0 <= i < |h.data| ensures Inside(s', h.data[i]) {
      assert Inside(s, h.data[i]);
    }
  }

  /** Taking n bytes from the bottom and whole nodes from the top of the head block. */
  lemma BumpKeepsLayout(s: Serial, h: History, n: nat, nodes: nat)
    requires Layout(s, h) && n % 8 == 0 && HasSpace(s, n + CLEANUP * nodes)
    ensures Layout(s.(ptr := s.ptr + n, limit := s.limit - CLEANUP * nodes),
                   h.(data := h.data + [Region(s.Head(), s.ptr, s.ptr + n)]))
  {
    var s' := s.(ptr := s.ptr + n, limit := s.limit - CLEANUP * nodes);
    var region := Region(s.Head(), s.ptr, s.ptr + n);
    assert Stacked(s, s.Head());
    forall b | 0 <= b <= s'.Head() ensures Stacked(s', b) {
      assert Stacked(s, b);
    }
    forall i | 0 <= i < |h.data| ensures Inside(s', h.data[i]) && Apart(h.data[i], region) {
      assert Inside(s, h.data[i]);
    }
  }

  /** Node slots do not matter to the layout. */
  lemma WriteKeepsLayout(s: Serial, h: History, slot: Slot, c: Cleanup)
    requires Layout(s, h)
    ensures Layout(WriteNode(s, slot, c), h.(cleanups := h.cleanups + [c]))
  {
    var s' := WriteNode(s, slot, c);
    forall b | 0 <= b <= s'.Head() ensures Stacked(s', b) { assert Stacked(s, b); }
    forall i | 0 <= i < |h.data| ensures Inside(s', h.data[i]) { assert Inside(s, h.data[i]); }
  }

  lemma ServeKeepsLayout(s: Serial, h: History, r: Request, policy: Option<Policy>, base: nat)
    requires Layout(s, h) && r.n % 8 == 0
    ensures BLOCK_HEADER <= s.ptr
    ensures var (s', h') := Serve(s, h, r, policy, base); Layout(s', h')
  {
    hide Serve;
    assert Stacked(s, s.Head());
    OneNewBlockSuffices(s, h, r, policy, base);
    var t := Prepared(s, Need(r), policy, base);
    if !HasSpace(s, Need(r)) { NewBlockKeepsLayout(s, h, Need(r), policy, base); }
    var region := Region(t.Head(), t.ptr, t.ptr + r.n);
    BumpKeepsLayout(t, h, r.n, if r.Owned? then 1 else 0);
    if r.Owned? {
      WriteKeepsLayout(t.(ptr := t.ptr + r.n, limit := t.limit - CLEANUP), h.(data := h.data + [region]),
                       Slot(t.Head(), t.limit - CLEANUP), r.c);
    }
  }

  lemma NewHasLayout(base: nat, size: nat)
    requires BLOCK_HEADER + SERIAL_ARENA <= size
    ensures Layout(New(base, size), History([], []))
  {}
}
