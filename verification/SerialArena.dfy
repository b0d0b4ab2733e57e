// SerialArena as functions on values. A block is a range of bytes addressed by
// offset: header, (in the first block the SerialArena itself), data growing up
// from the bottom to ptr, and cleanup nodes growing down from the top to limit.
module SerialArena {
  import opened Options

  const BLOCK_HEADER: nat := 24
  const SERIAL_ARENA: nat := 56
  const CLEANUP: nat := 16

  datatype Policy = Policy(startBlockSize: nat, maxBlockSize: nat)

  const DEFAULT_POLICY := Policy(256, 8192)

  datatype Cleanup = Cleanup(elem: nat, function_: nat)

  /** A block that is no longer the head; `start` is the lowest of its cleanup nodes. */
  datatype Block = Block(base: nat, size: nat, start: nat)

  /** Where a cleanup node is stored: block number, oldest first, and offset. */
  datatype Slot = Slot(block: nat, offset: nat)

  /** Bytes lo..hi of a block. */
  datatype Region = Region(block: nat, lo: nat, hi: nat)

  datatype Serial = Serial(retired: seq<Block>, base: nat, size: nat, ptr: nat, limit: nat,
                           spaceUsed: nat, spaceAllocated: nat, nodes: map<Slot, Cleanup>)
  {
    /** The number of the head block. */
    function Head(): nat {
      |retired|
    }

    function BlockSize(b: nat): nat {
      if b < |retired| then retired[b].size else size
    }

    /** Where the cleanup nodes of a block begin. */
    function Start(b: nat): nat {
      if b < |retired| then retired[b].start else limit
    }
  }

  /** n & -8 */
  function Mask8(n: nat): nat {
    n - n % 8
  }

  function AlignUpTo8(n: nat): nat {
    Mask8(n + 7)
  }

  /** (ptr + align - 1) & (~align + 1), for align a power of two. */
  function AlignTo(ptr: nat, align: nat): nat
    requires align > 0
  {
    (ptr + align - 1) - (ptr + align - 1) % align
  }

  function Min(a: nat, b: nat): nat {
    if a < b then a else b
  }

  function Max(a: nat, b: nat): nat {
    if a < b then b else a
  }

  /** The size that AllocateMemory asks for: doubling up to the policy's limit, and never too small. */
  function NextSize(policy: Option<Policy>, lastSize: nat, minBytes: nat): nat {
    var p := if policy.Some? then policy.value else DEFAULT_POLICY;
    var size := if lastSize != 0 then Min(2 * lastSize, p.maxBlockSize) else p.startBlockSize;
    Max(size, BLOCK_HEADER + minBytes)
  }

  /** SerialArena::New: the arena lives in its own first block. */
  function New(base: nat, size: nat): Serial
    requires BLOCK_HEADER + SERIAL_ARENA <= size
  {
    Serial([], base, size, BLOCK_HEADER + SERIAL_ARENA, Mask8(size), 0, size, map[])
  }

  /** n <= limit - ptr; the pointers are never crossed. */
  predicate HasSpace(s: Serial, n: nat) {
    s.ptr + n <= s.limit
  }

  /** AllocateNewBlock; `base` is the address the block allocator returns. */
  function AllocateNewBlock(s: Serial, n: nat, policy: Option<Policy>, base: nat): Serial
    requires BLOCK_HEADER <= s.ptr
  {
    var size := NextSize(policy, s.size, n);
    Serial(s.retired + [Block(s.base, s.size, s.limit)], base, size, BLOCK_HEADER, size,
           s.spaceUsed + (s.ptr - BLOCK_HEADER), s.spaceAllocated + size, s.nodes)
  }

  /** The recursion through the fallback ends because a new block always has room for the request. */
  function AllocateAligned(s: Serial, n: nat, policy: Option<Policy>, base: nat): (r: (Serial, Region))
    requires BLOCK_HEADER <= s.ptr
    ensures BLOCK_HEADER <= r.0.ptr
    decreases if HasSpace(s, n) then 0 else 1
  {
    if !HasSpace(s, n) then AllocateAligned(AllocateNewBlock(s, n, policy, base), n, policy, base)
    else (s.(ptr := s.ptr + n), Region(s.Head(), s.ptr, s.ptr + n))
  }

  /** Also returns where the caller is to write the cleanup node. */
  function AllocateAlignedWithCleanup(s: Serial, n: nat, policy: Option<Policy>, base: nat)
    : (r: (Serial, Region, Slot))
    requires BLOCK_HEADER <= s.ptr
    ensures BLOCK_HEADER <= r.0.ptr
    decreases if HasSpace(s, n + CLEANUP) then 0 else 1
  {
    if !HasSpace(s, n + CLEANUP) then
      AllocateAlignedWithCleanup(AllocateNewBlock(s, n + CLEANUP, policy, base), n, policy, base)
    else
      (s.(ptr := s.ptr + n, limit := s.limit - CLEANUP),
       Region(s.Head(), s.ptr, s.ptr + n),
       Slot(s.Head(), s.limit - CLEANUP))
  }

  /** The caller fills in the node it was given. */
  function WriteNode(s: Serial, slot: Slot, c: Cleanup): Serial {
    s.(nodes := s.nodes[slot := c])
  }

  /** SpaceUsed: unsigned, and never negative because ptr starts above the arena itself. */
  function SpaceUsed(s: Serial): int {
    s.ptr - BLOCK_HEADER + s.spaceUsed - SERIAL_ARENA
  }

  /** The nodes at offsets from, from + 16, ... below to. */
  function ReadNodes(nodes: map<Slot, Cleanup>, b: nat, from: nat, to: nat): seq<Cleanup>
    decreases if from < to then to - from else 0
  {
    if from >= to || Slot(b, from) !in nodes then []
    else [nodes[Slot(b, from)]] + ReadNodes(nodes, b, from + CLEANUP, to)
  }

  /** What CleanupList calls in one block; the count is a pointer difference in units of one node. */
  function BlockCalls(s: Serial, b: nat): seq<Cleanup> {
    var limit := Mask8(s.BlockSize(b));
    var num := (limit - s.Start(b)) / CLEANUP;
    if num > 0 then ReadNodes(s.nodes, b, s.Start(b), limit) else []
  }

  /** CleanupList over blocks 0..n, newest first. */
  function CleanupCalls(s: Serial, n: nat): seq<Cleanup> {
    if n == 0 then [] else BlockCalls(s, n - 1) + CleanupCalls(s, n - 1)
  }

  /** Every node of every block: the whole cleanup list. */
  function CleanupList(s: Serial): seq<Cleanup> {
    CleanupCalls(s, s.Head() + 1)
  }

  /** Free: the blocks handed to the deallocator, newest first, and the one that is returned. */
  function Freed(s: Serial): seq<(nat, nat)> {
    if s.retired == [] then [] else [(s.base, s.size)] + FreedBlocks(s.retired[1..])
  }

  function FreedBlocks(blocks: seq<Block>): seq<(nat, nat)> {
    if blocks == [] then []
    else [(blocks[|blocks| - 1].base, blocks[|blocks| - 1].size)] + FreedBlocks(blocks[..|blocks| - 1])
  }

  function FirstMemory(s: Serial): (nat, nat) {
    if s.retired == [] then (s.base, s.size) else (s.retired[0].base, s.retired[0].size)
  }
}
