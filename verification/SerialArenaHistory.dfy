// Everything a SerialArena can have done since New: layout, space accounting,
// the bound on the space held, and the cleanup order, over all histories.
module SerialArenaHistory {
  import opened Options
  import opened SerialArena
  import opened SerialArenaRuns
  import opened SerialArenaCleanup

  /** A request, with the address the block allocator returns if it is asked. */
  datatype Event = Event(request: Request, base: nat)

  ghost predicate Aligned(events: seq<Event>) {
    forall i :: 0 <= i < |events| ==> events[i].request.n % 8 == 0
  }

  function Run(base: nat, size: nat, policy: Option<Policy>, events: seq<Event>): (r: (Serial, History))
    requires BLOCK_HEADER + SERIAL_ARENA <= size
    ensures BLOCK_HEADER <= r.0.ptr
  {
    if events == [] then (New(base, size), History([], []))
    else
      var (s, h) := Run(base, size, policy, events[..|events| - 1]);
      Serve(s, h, events[|events| - 1].request, policy, events[|events| - 1].base)
  }

  // --------------------------------------------------------------- accounting

  function DataBytes(data: seq<Region>): int {
    if data == [] then 0 else DataBytes(data[..|data| - 1]) + (data[|data| - 1].hi - data[|data| - 1].lo)
  }

  function BlockBytes(blocks: seq<Block>): nat {
    if blocks == [] then 0 else BlockBytes(blocks[..|blocks| - 1]) + blocks[|blocks| - 1].size
  }

  /** The bytes between the bottom and the top of blocks 0..n. */
  function Capacity(s: Serial, n: nat): int {
    if n == 0 then 0 else Capacity(s, n - 1) + (Top(s, n - 1) - Bottom(n - 1))
  }

  /** All that requests have consumed: their data and their cleanup nodes. */
  function Consumed(h: History): int {
    DataBytes(h.data) + CLEANUP * |h.cleanups|
  }

  /** What the head block has given out. */
  function HeadConsumed(s: Serial): int {
    (s.ptr - Bottom(s.Head())) + (Top(s, s.Head()) - s.limit)
  }

  ghost predicate Accounted(s: Serial, h: History) {
    && SpaceUsed(s) == DataBytes(h.data)
    && s.spaceAllocated == BlockBytes(s.retired) + s.size
    && Capacity(s, s.Head()) + HeadConsumed(s) <= 2 * Consumed(h)
    && 0 <= HeadConsumed(s) <= Consumed(h)
  }

  lemma {:induction false} CapacityFrame(s: Serial, s': Serial, n: nat)
    requires forall b :: 0 <= b < n ==> s.BlockSize(b) == s'.BlockSize(b)
    ensures Capacity(s, n) == Capacity(s', n)
  {
    if n > 0 { CapacityFrame(s, s', n - 1); }
  }

  lemma DataBytesAppend(data: seq<Region>, r: Region)
    ensures DataBytes(data + [r]) == DataBytes(data) + (r.hi - r.lo)
  {
    assert (data + [r])[..|data|] == data;
  }

  /** Serving in the head block adds the same amount on both sides. */
  lemma BumpKeepsAccounts(s: Serial, s': Serial, r: Request)
    requires BLOCK_HEADER <= s.ptr && HasSpace(s, Need(r))
    requires s' == s.(ptr := s.ptr + r.n, limit := s.limit - if r.Owned? then CLEANUP else 0, nodes := s'.nodes)
    ensures SpaceUsed(s') == SpaceUsed(s) + r.n
    ensures HeadConsumed(s') == HeadConsumed(s) + Need(r)
    ensures Capacity(s', s'.Head()) == Capacity(s, s.Head())
  {
    CapacityFrame(s, s', s.Head());
  }

  lemma NewBlockAccounts(s: Serial, n: nat, policy: Option<Policy>, base: nat)
    requires BLOCK_HEADER <= s.ptr <= s.limit
    ensures var t := AllocateNewBlock(s, n, policy, base);
            && SpaceUsed(t) == SpaceUsed(s)
            && HeadConsumed(t) == 0
            && Capacity(t, t.Head()) == Capacity(s, s.Head()) + HeadConsumed(s) + (s.limit - s.ptr)
            && t.spaceAllocated == s.spaceAllocated + t.size
            && BlockBytes(t.retired) == BlockBytes(s.retired) + s.size
  {
    var t := AllocateNewBlock(s, n, policy, base);
    assert t.retired[..|s.retired|] == s.retired;
    CapacityFrame(s, t, s.Head());
    assert Capacity(t, t.Head()) == Capacity(t, s.Head()) + (Top(t, s.Head()) - Bottom(s.Head()));
  }

  /** A new block is allocated only if what is left of the old one is less than what is needed. */
  lemma PreparedAccounts(s: Serial, h: History, n: nat, policy: Option<Policy>, base: nat)
    requires BLOCK_HEADER <= s.ptr <= s.limit && Accounted(s, h)
    ensures var t := Prepared(s, n, policy, base);
            && BLOCK_HEADER <= t.ptr
            && SpaceUsed(t) == DataBytes(h.data)
            && t.spaceAllocated == BlockBytes(t.retired) + t.size
            && 0 <= HeadConsumed(t) <= Consumed(h)
            && Capacity(t, t.Head()) + HeadConsumed(t) <= 2 * Consumed(h) + n
  {
    if !HasSpace(s, n) {
      hide Capacity, HeadConsumed, BlockBytes, SpaceUsed, NextSize, Consumed;
      NewBlockAccounts(s, n, policy, base);
    }
  }

  lemma ServeKeepsAccounts(s: Serial, h: History, r: Request, policy: Option<Policy>, base: nat)
    requires Layout(s, h) && Accounted(s, h)
    ensures BLOCK_HEADER <= s.ptr
    ensures var (s', h') := Serve(s, h, r, policy, base); Accounted(s', h')
  {
    hide Serve, Capacity, HeadConsumed, BlockBytes, Layout, SpaceUsed, Prepared, DataBytes, HasSpace;
    LayoutPtr(s, h);
    OneNewBlockSuffices(s, h, r, policy, base);
    PreparedAccounts(s, h, Need(r), policy, base);
    var t := Prepared(s, Need(r), policy, base);
    var (s', h') := Serve(s, h, r, policy, base);
    BumpKeepsAccounts(t, s', r);
    DataBytesAppend(h.data, Region(t.Head(), t.ptr, t.ptr + r.n));
    assert Consumed(h') == Consumed(h) + Need(r);
  }

  // ------------------------------------------------------------ block sizes

  /** The sizes of all blocks after the first are multiples of 8. */
  ghost predicate WholeBlocks(s: Serial) {
    && s.size > 0 && s.size % 4 == 0
    && forall b :: 0 < b <= s.Head() ==> s.BlockSize(b) % 8 == 0
  }

  function MaxBlockSize(policy: Option<Policy>): nat {
    if policy.Some? then policy.value.maxBlockSize else DEFAULT_POLICY.maxBlockSize
  }

  lemma NextSizeIsWhole(policy: Option<Policy>, lastSize: nat, minBytes: nat)
    requires lastSize > 0 && lastSize % 4 == 0 && MaxBlockSize(policy) % 8 == 0 && minBytes % 8 == 0
    ensures var size := NextSize(policy, lastSize, minBytes); size > 0 && size % 8 == 0 && size % 4 == 0
  {
    EighthsAreFourths(2 * lastSize, lastSize);
    EighthsAreFourths(MaxBlockSize(policy), 0);
    EighthsAreFourths(BLOCK_HEADER + minBytes, 0);
  }

  /** Divisibility by 8, from that of the half by 4, and by 4. */
  lemma EighthsAreFourths(x: nat, half: nat)
    requires x % 8 == 0 || (x == 2 * half && half % 4 == 0)
    ensures x % 8 == 0 && x % 4 == 0
  {
    var k := half / 4;
    assert x % 8 != 0 ==> x == 8 * k;
    assert x == 4 * (2 * (x / 8));
  }

  lemma NewBlockIsWhole(s: Serial, n: nat, policy: Option<Policy>, base: nat)
    requires BLOCK_HEADER <= s.ptr && WholeBlocks(s) && MaxBlockSize(policy) % 8 == 0 && n % 8 == 0
    ensures WholeBlocks(AllocateNewBlock(s, n, policy, base))
  {
    hide NextSize, MaxBlockSize, HasSpace;
    NextSizeIsWhole(policy, s.size, n);
    AppendKeepsWhole(s, AllocateNewBlock(s, n, policy, base));
  }

  lemma AppendKeepsWhole(s: Serial, t: Serial)
    requires WholeBlocks(s) && t.size > 0 && t.size % 8 == 0 && t.size % 4 == 0
    requires t.retired == s.retired + [Block(s.base, s.size, s.limit)]
    ensures WholeBlocks(t)
  {
    forall b | 0 < b <= t.Head() ensures t.BlockSize(b) % 8 == 0 {
      if b <= s.Head() { assert t.BlockSize(b) == s.BlockSize(b); }
    }
  }

  lemma ServeKeepsWholeBlocks(s: Serial, h: History, r: Request, policy: Option<Policy>, base: nat)
    requires BLOCK_HEADER <= s.ptr && WholeBlocks(s) && MaxBlockSize(policy) % 8 == 0 && r.n % 8 == 0
    ensures WholeBlocks(Serve(s, h, r, policy, base).0)
  {
    hide Serve, MaxBlockSize, WholeBlocks, AllocateNewBlock;
    OneNewBlockSuffices(s, h, r, policy, base);
    if !HasSpace(s, Need(r)) { NewBlockIsWhole(s, Need(r), policy, base); }
    SameBlocksAreWhole(Prepared(s, Need(r), policy, base), Serve(s, h, r, policy, base).0);
  }

  lemma SameBlocksAreWhole(s: Serial, t: Serial)
    requires WholeBlocks(s) && s.retired == t.retired && s.size == t.size
    ensures WholeBlocks(t)
  {
    forall b | 0 < b <= t.Head() ensures t.BlockSize(b) % 8 == 0 { assert t.BlockSize(b) == s.BlockSize(b); }
  }

  // ------------------------------------------------------------ all histories

  /** What holds after every history of properly aligned requests. */
  lemma {:induction false} RunKeepsAll(base: nat, size: nat, policy: Option<Policy>, events: seq<Event>)
    requires BLOCK_HEADER + SERIAL_ARENA <= size && Aligned(events)
    ensures var (s, h) := Run(base, size, policy, events); Layout(s, h) && Listed(s, h) && Accounted(s, h)
    ensures size % 4 == 0 && MaxBlockSize(policy) % 8 == 0 ==> WholeBlocks(Run(base, size, policy, events).0)
    decreases |events|
  {
    hide Layout, Listed, Accounted, WholeBlocks, Serve;
    if events == [] {
      NewKeepsAll(base, size);
    } else {
      var before, last := events[..|events| - 1], events[|events| - 1];
      RunKeepsAll(base, size, policy, before);
      var (s, h) := Run(base, size, policy, before);
      ServeKeepsLayout(s, h, last.request, policy, last.base);
      ServeKeepsList(s, h, last.request, policy, last.base);
      ServeKeepsAccounts(s, h, last.request, policy, last.base);
      if size % 4 == 0 && MaxBlockSize(policy) % 8 == 0 {
        ServeKeepsWholeBlocks(s, h, last.request, policy, last.base);
      }
    }
  }

  lemma NewKeepsAll(base: nat, size: nat)
    requires BLOCK_HEADER + SERIAL_ARENA <= size
    ensures var (s, h) := (New(base, size), History([], [])); Layout(s, h) && Listed(s, h) && Accounted(s, h)
    ensures size % 4 == 0 ==> WholeBlocks(New(base, size))
  {
    NewHasLayout(base, size);
    var s := New(base, size);
    assert AllNodes(s, 1) == BlockNodes(s, 0) + AllNodes(s, 0);
  }

  /** The requests that registered a cleanup, in order. */
  function Registered(events: seq<Event>): seq<Cleanup> {
    if events == [] then []
    else
      var last := events[|events| - 1].request;
      Registered(events[..|events| - 1]) + if last.Owned? then [last.c] else []
  }

  /** The bytes asked for. */
  function Requested(events: seq<Event>): nat {
    if events == [] then 0 else Requested(events[..|events| - 1]) + events[|events| - 1].request.n
  }

  /** The history is what was asked for: no request is lost, reordered or cut short. */
  lemma {:induction false} HistoryIsRequests(base: nat, size: nat, policy: Option<Policy>, events: seq<Event>)
    requires BLOCK_HEADER + SERIAL_ARENA <= size
    ensures var (s, h) := Run(base, size, policy, events);
            && h.cleanups == Registered(events)
            && |h.data| == |events|
            && (forall i :: 0 <= i < |events| ==> h.data[i].hi - h.data[i].lo == events[i].request.n)
            && DataBytes(h.data) == Requested(events)
    decreases |events|
  {
    hide Run;
    if events == [] {
      assert Run(base, size, policy, events).1 == History([], []) by { RunNothing(base, size, policy); }
    } else {
      var before, last := events[..|events| - 1], events[|events| - 1];
      HistoryIsRequests(base, size, policy, before);
      RunRecords(base, size, policy, events);
    }
  }

  lemma RunNothing(base: nat, size: nat, policy: Option<Policy>)
    requires BLOCK_HEADER + SERIAL_ARENA <= size
    ensures Run(base, size, policy, []) == (New(base, size), History([], []))
  {}

  lemma RunRecords(base: nat, size: nat, policy: Option<Policy>, events: seq<Event>)
    requires BLOCK_HEADER + SERIAL_ARENA <= size && events != []
    requires |Run(base, size, policy, events[..|events| - 1]).1.data| == |events| - 1
    ensures var (h, h') := (Run(base, size, policy, events[..|events| - 1]).1, Run(base, size, policy, events).1);
            var last := events[|events| - 1].request;
            && h'.cleanups == h.cleanups + (if last.Owned? then [last.c] else [])
            && |h'.data| == |events| && h'.data[..|events| - 1] == h.data
            && h'.data[|events| - 1].hi - h'.data[|events| - 1].lo == last.n
  {
    hide Serve, New;
    var last := events[|events| - 1];
    var (s, h) := Run(base, size, policy, events[..|events| - 1]);
    var region := ServeRecords(s, h, last.request, policy, last.base);
  }

  lemma ServeRecords(s: Serial, h: History, r: Request, policy: Option<Policy>, base: nat) returns (region: Region)
    requires BLOCK_HEADER <= s.ptr
    ensures region.hi - region.lo == r.n
    ensures Serve(s, h, r, policy, base).1 == History(h.data + [region], h.cleanups + if r.Owned? then [r.c] else [])
  {
    hide Serve, AllocateNewBlock;
    OneNewBlockSuffices(s, h, r, policy, base);
    var t := Prepared(s, Need(r), policy, base);
    region := Region(t.Head(), t.ptr, t.ptr + r.n);
  }

  /** SpaceUsed is the sum of the bytes requested, and SpaceAllocated that of the block sizes. */
  lemma SpaceIsConserved(base: nat, size: nat, policy: Option<Policy>, events: seq<Event>)
    requires BLOCK_HEADER + SERIAL_ARENA <= size && Aligned(events)
    ensures var s := Run(base, size, policy, events).0;
            && SpaceUsed(s) == Requested(events)
            && s.spaceAllocated == BlockBytes(s.retired) + s.size
  {
    RunKeepsAll(base, size, policy, events);
    HistoryIsRequests(base, size, policy, events);
  }

  lemma {:induction false} CapacityIsBlocks(s: Serial, h: History, n: nat)
    requires n <= s.Head() && Layout(s, h)
    ensures BlockBytes(s.retired[..n]) <= Capacity(s, n) + BLOCK_HEADER * n + SERIAL_ARENA + 7
  {
    if n > 0 {
      CapacityIsBlocks(s, h, n - 1);
      assert s.retired[..n][..n - 1] == s.retired[..n - 1];
    }
  }

  /**
   * All blocks but the newest together can hold at most twice what was
   * consumed, whatever the request sizes and the policy; and so what is
   * allocated is the newest block, twice that, and the fixed overheads.
   */
  lemma SpaceIsAmortized(base: nat, size: nat, policy: Option<Policy>, events: seq<Event>)
    requires BLOCK_HEADER + SERIAL_ARENA <= size && Aligned(events)
    ensures var s, consumed := Run(base, size, policy, events).0, Requested(events) + CLEANUP * |Registered(events)|;
            && Capacity(s, s.Head()) <= 2 * consumed
            && s.spaceAllocated <= s.size + 2 * consumed + BLOCK_HEADER * s.Head() + SERIAL_ARENA + 7
  {
    RunKeepsAll(base, size, policy, events);
    HistoryIsRequests(base, size, policy, events);
    var (s, h) := Run(base, size, policy, events);
    CapacityIsBlocks(s, h, s.Head());
    assert s.retired[..s.Head()] == s.retired;
  }

  /** With block sizes that stay multiples of 8, every cleanup runs exactly once, in reverse order of registration. */
  lemma CleanupsRunOnceInReverse(base: nat, size: nat, policy: Option<Policy>, events: seq<Event>)
    requires BLOCK_HEADER + SERIAL_ARENA <= size && Aligned(events)
    requires size % 4 == 0 && MaxBlockSize(policy) % 8 == 0
    ensures CleanupList(Run(base, size, policy, events).0) == Reverse(Registered(events))
  {
    hide CleanupList;
    RunKeepsAll(base, size, policy, events);
    HistoryIsRequests(base, size, policy, events);
    var (s, h) := Run(base, size, policy, events);
    CleanupOnceInReverse(s, h);
  }

  /** The general case: a cleanup is missed exactly when some block is passed over. */
  lemma CleanupsRunUnlessPassedOver(base: nat, size: nat, policy: Option<Policy>, events: seq<Event>)
    requires BLOCK_HEADER + SERIAL_ARENA <= size && Aligned(events)
    ensures var s := Run(base, size, policy, events).0;
            CleanupList(s) == Reverse(Registered(events)) <==> forall b :: 0 <= b <= s.Head() ==> !PassedOver(s, b)
  {
    hide CleanupList;
    RunKeepsAll(base, size, policy, events);
    HistoryIsRequests(base, size, policy, events);
    var (s, h) := Run(base, size, policy, events);
    CleanupOnceInReverse(s, h);
  }

  /** Which happens with a maximum block size of 132, say: the only cleanup of the second block is never called. */
  lemma CleanupCanBeMissed(c: Cleanup)
    ensures var s := Run(0, 128, Some(Policy(128, 132)), [Event(Owned(48, c), 1000)]).0;
            CleanupList(s) == [] && s.nodes.Values == {c}
  {
    var e := Event(Owned(48, c), 1000);
    assert Run(0, 128, Some(Policy(128, 132)), [e][..0]) == (New(0, 128), History([], []));
    OneNewBlockSuffices(New(0, 128), History([], []), e.request, Some(Policy(128, 132)), 1000);
    var s := Run(0, 128, Some(Policy(128, 132)), [e]).0;
    assert s.retired == [Block(0, 128, 128)] && s.size == 132 && s.limit == 116;
    assert s.nodes == map[Slot(1, 116) := c];
    assert CleanupCalls(s, 2) == BlockCalls(s, 1) + CleanupCalls(s, 1);
  }

  // ------------------------------------------------------------ layout safety

  /** The cleanup nodes of a block, as regions. */
  ghost predicate IsNode(s: Serial, r: Region) {
    && r.block <= s.Head() && r.hi == r.lo + CLEANUP
    && s.Start(r.block) <= r.lo && r.hi <= Top(s, r.block)
    && (Top(s, r.block) - r.lo) % CLEANUP == 0
  }

  /** The header of a block, with the SerialArena that is embedded in the first one. */
  function Header(b: nat): Region {
    Region(b, 0, Bottom(b))
  }

  ghost predicate NodesAreApart(s: Serial, h: History) {
    forall node :: IsNode(s, node) ==>
      && Apart(Header(node.block), node)
      && node.hi <= s.BlockSize(node.block)
      && (forall i :: 0 <= i < |h.data| ==> Apart(h.data[i], node))
      && (forall other :: IsNode(s, other) && other != node ==> Apart(node, other))
  }

  ghost predicate DataIsApart(s: Serial, h: History) {
    && (forall i :: 0 <= i < |h.data| ==>
          && h.data[i].block <= s.Head() && h.data[i].lo % 8 == 0
          && h.data[i].hi <= s.BlockSize(h.data[i].block) && Apart(Header(h.data[i].block), h.data[i]))
    && (forall i, j :: 0 <= i < j < |h.data| ==> Apart(h.data[i], h.data[j]))
  }

  lemma DataStaysApart(s: Serial, h: History)
    requires Layout(s, h)
    ensures s.ptr <= s.limit && DataIsApart(s, h)
  {
    assert Stacked(s, s.Head());
    forall i | 0 <= i < |h.data|
      ensures h.data[i].hi <= s.BlockSize(h.data[i].block) && Apart(Header(h.data[i].block), h.data[i])
    {
      assert Inside(s, h.data[i]) && Stacked(s, h.data[i].block);
    }
  }

  lemma DataIsApartFromNode(s: Serial, h: History, node: Region, i: nat)
    requires Layout(s, h) && IsNode(s, node) && i < |h.data|
    ensures Apart(h.data[i], node)
  {
    assert Inside(s, h.data[i]) && Stacked(s, node.block);
  }

  lemma NodesStayApart(s: Serial, h: History)
    requires Layout(s, h)
    ensures NodesAreApart(s, h)
  {
    hide Layout;
    forall node, other | IsNode(s, node) && IsNode(s, other) && other != node ensures Apart(node, other) {
      if node.block == other.block { NodesApart(s, node, other); }
    }
    forall node, i | IsNode(s, node) && 0 <= i < |h.data| ensures Apart(h.data[i], node) {
      DataIsApartFromNode(s, h, node, i);
    }
    forall node | IsNode(s, node) ensures Apart(Header(node.block), node) && node.hi <= s.BlockSize(node.block) {
      BlockIsStacked(s, h, node.block);
    }
  }

  lemma BlockIsStacked(s: Serial, h: History, b: nat)
    requires Layout(s, h) && b <= s.Head()
    ensures Stacked(s, b)
  {}

  /**
   * After every history the data regions, cleanup nodes and headers are
   * pairwise disjoint and inside their blocks, and data is 8-aligned.
   */
  lemma EverythingIsApart(base: nat, size: nat, policy: Option<Policy>, events: seq<Event>)
    requires BLOCK_HEADER + SERIAL_ARENA <= size && Aligned(events)
    ensures var (s, h) := Run(base, size, policy, events); s.ptr <= s.limit && DataIsApart(s, h) && NodesAreApart(s, h)
  {
    hide Layout, DataIsApart, NodesAreApart, Run, Accounted, Listed;
    RunKeepsAll(base, size, policy, events);
    var (s, h) := Run(base, size, policy, events);
    DataStaysApart(s, h);
    NodesStayApart(s, h);
  }

  /** Nodes are 8-aligned as well when block sizes stay multiples of 8. */
  lemma NodesAreAligned(s: Serial, node: Region)
    requires WholeBlocks(s) && IsNode(s, node)
    ensures node.lo % 8 == 0
  {
    hide Mask8;
    MaskIsMultiple(s.BlockSize(0));
    BelowInNodes(Top(s, node.block), node.lo);
  }

  lemma MaskIsMultiple(n: nat)
    ensures Mask8(n) % 8 == 0
  {
    assert Mask8(n) == 8 * (n / 8);
  }

  lemma BelowInNodes(top: nat, at: nat)
    requires at <= top && top % 8 == 0 && (top - at) % CLEANUP == 0
    ensures at % 8 == 0
  {
    var k, q := (top - at) / CLEANUP, top / 8;
    assert at == 8 * (q - 2 * k);
  }

  lemma NodesApart(s: Serial, a: Region, b: Region)
    requires IsNode(s, a) && IsNode(s, b) && a.block == b.block
    ensures a == b || Apart(a, b)
  {
    var top := Top(s, a.block);
    if a.lo <= b.lo < a.lo + CLEANUP { NoSlotBetween(top, a.lo + CLEANUP, b.lo); }
    if b.lo <= a.lo < b.lo + CLEANUP { NoSlotBetween(top, b.lo + CLEANUP, a.lo); }
  }

  /**
   * Where the first request of a new arena goes: its data behind the header
   * of 24 bytes and the arena's own 56, and its node of 16 bytes at the top.
   */
  lemma FirstRequestIsPlaced(base: nat, size: nat, policy: Option<Policy>, n: nat, c: Cleanup, other: nat)
    requires size % 8 == 0 && 24 + 56 + n + 16 <= size
    ensures var (s, h) := Run(base, size, policy, [Event(Owned(n, c), other)]);
            && h == History([Region(0, 80, 80 + n)], [c])
            && s == Serial([], base, size, 80 + n, size - 16, 0, size, map[Slot(0, size - 16) := c])
  {
    var e := Event(Owned(n, c), other);
    assert Run(base, size, policy, [e][..0]) == (New(base, size), History([], []));
    OneNewBlockSuffices(New(base, size), History([], []), e.request, policy, other);
  }

  // ------------------------------------------------------------- block growth

  /** The most bytes that one request takes. */
  function LargestNeed(events: seq<Event>): nat {
    if events == [] then 0 else Max(LargestNeed(events[..|events| - 1]), Need(events[|events| - 1].request))
  }

  /** Sizes double up to the maximum, and exceed that only for a request that needs it. */
  ghost predicate GrowsInto(size: nat, next: nat, policy: Option<Policy>, largest: nat) {
    var doubled := Min(2 * size, MaxBlockSize(policy));
    doubled <= next <= Max(doubled, BLOCK_HEADER + largest)
  }

  ghost predicate SizesGrow(s: Serial, policy: Option<Policy>, largest: nat) {
    s.size > 0 && forall b :: 0 <= b < s.Head() ==> GrowsInto(s.BlockSize(b), s.BlockSize(b + 1), policy, largest)
  }

  lemma {:induction false} BlockSizesGrow(base: nat, size: nat, policy: Option<Policy>, events: seq<Event>)
    requires BLOCK_HEADER + SERIAL_ARENA <= size
    ensures SizesGrow(Run(base, size, policy, events).0, policy, LargestNeed(events))
    decreases |events|
  {
    hide Serve, GrowsInto;
    if events != [] {
      var before, last := events[..|events| - 1], events[|events| - 1];
      BlockSizesGrow(base, size, policy, before);
      var (s, h) := Run(base, size, policy, before);
      ServeGrows(s, h, last.request, policy, last.base, LargestNeed(before), LargestNeed(events));
    }
  }

  lemma ServeGrows(s: Serial, h: History, r: Request, policy: Option<Policy>, base: nat, largest: nat, largest': nat)
    requires BLOCK_HEADER <= s.ptr && SizesGrow(s, policy, largest) && largest' == Max(largest, Need(r))
    ensures SizesGrow(Serve(s, h, r, policy, base).0, policy, largest')
  {
    hide Serve, HasSpace, Need;
    OneNewBlockSuffices(s, h, r, policy, base);
    var t := Prepared(s, Need(r), policy, base);
    var s' := Serve(s, h, r, policy, base).0;
    assert s'.retired == t.retired && s'.size == t.size;
    forall b | 0 <= b < s'.Head() ensures GrowsInto(s'.BlockSize(b), s'.BlockSize(b + 1), policy, largest') {
      if b < s.Head() { assert GrowsInto(s.BlockSize(b), s.BlockSize(b + 1), policy, largest); }
    }
  }
}
