// SerialArena as the object it is: pointers and counters moved in place, a list
// of blocks, and loops over blocks and nodes. Each method is tied to the function
// of the same name on the object's value.
module SerialArenaObject {
  import opened Options
  import S = SerialArena
  import opened SerialArenaRuns
  import opened SerialArenaCleanup

  lemma NodeIsWritten(s: S.Serial, b: nat, k: nat)
    requires Stacked(s, b) && Written(s, b) && s.Start(b) + S.CLEANUP * k < S.Mask8(s.BlockSize(b))
    ensures S.Slot(b, s.Start(b) + S.CLEANUP * k) in s.nodes
  {
    var o := s.Start(b) + S.CLEANUP * k;
    assert Top(s, b) - o == (Top(s, b) - s.Start(b)) - S.CLEANUP * k;
  }

  class SerialArena {
    var retired: seq<S.Block>
    var base: nat
    var size: nat
    var ptr: nat
    var limit: nat
    var spaceUsed: nat
    var spaceAllocated: nat
    var nodes: map<S.Slot, S.Cleanup>

    function View(): S.Serial reads this {
      S.Serial(retired, base, size, ptr, limit, spaceUsed, spaceAllocated, nodes)
    }

    constructor (base: nat, size: nat)
      requires S.BLOCK_HEADER + S.SERIAL_ARENA <= size
      ensures View() == S.New(base, size)
    {
      retired, nodes, spaceUsed, spaceAllocated := [], map[], 0, size;
      this.base, this.size := base, size;
      ptr, limit := S.BLOCK_HEADER + S.SERIAL_ARENA, S.Mask8(size);
    }

    method AllocateNewBlock(n: nat, policy: Option<S.Policy>, mem: nat)
      requires S.BLOCK_HEADER <= ptr
      modifies this
      ensures View() == S.AllocateNewBlock(old(View()), n, policy, mem)
    {
      spaceUsed := spaceUsed + (ptr - S.BLOCK_HEADER);
      var newSize := S.NextSize(policy, size, n);
      spaceAllocated := spaceAllocated + newSize;
      retired := retired + [S.Block(base, size, limit)];
      base, size := mem, newSize;
      ptr, limit := S.BLOCK_HEADER, newSize;
    }

    method AllocateAligned(n: nat, policy: Option<S.Policy>, mem: nat) returns (r: S.Region)
      requires S.BLOCK_HEADER <= ptr
      modifies this
      ensures (View(), r) == S.AllocateAligned(old(View()), n, policy, mem)
      decreases if S.HasSpace(View(), n) then 0 else 1
    {
      if !S.HasSpace(View(), n) {
        AllocateNewBlock(n, policy, mem);
        r := AllocateAligned(n, policy, mem);
      } else {
        r := S.Region(|retired|, ptr, ptr + n);
        ptr := ptr + n;
      }
    }

    method MaybeAllocateAligned(n: nat) returns (r: Option<S.Region>)
      requires S.BLOCK_HEADER <= ptr
      modifies this`ptr
      ensures r.Some? <==> S.HasSpace(old(View()), n)
      ensures r.None? ==> View() == old(View())
      ensures forall policy, mem :: r.Some? ==> (View(), r.value) == S.AllocateAligned(old(View()), n, policy, mem)
    {
      if !S.HasSpace(View(), n) { return None; }
      r := Some(S.Region(|retired|, ptr, ptr + n));
      ptr := ptr + n;
    }

    method AllocateAlignedWithCleanup(n: nat, policy: Option<S.Policy>, mem: nat) returns (r: S.Region, slot: S.Slot)
      requires S.BLOCK_HEADER <= ptr
      modifies this
      ensures (View(), r, slot) == S.AllocateAlignedWithCleanup(old(View()), n, policy, mem)
      decreases if S.HasSpace(View(), n + S.CLEANUP) then 0 else 1
    {
      if !S.HasSpace(View(), n + S.CLEANUP) {
        AllocateNewBlock(n + S.CLEANUP, policy, mem);
        r, slot := AllocateAlignedWithCleanup(n, policy, mem);
      } else {
        r := S.Region(|retired|, ptr, ptr + n);
        ptr, limit := ptr + n, limit - S.CLEANUP;
        slot := S.Slot(|retired|, limit);
      }
    }

    method AddCleanup(c: S.Cleanup, policy: Option<S.Policy>, mem: nat, ghost h: History)
      requires S.BLOCK_HEADER <= ptr
      modifies this
      ensures View() == Serve(old(View()), h, Owned(0, c), policy, mem).0
    {
      var _, slot := AllocateAlignedWithCleanup(0, policy, mem);
      nodes := nodes[slot := c];
    }

    /** The deallocator receives each block but the oldest as soon as the list has advanced past it. */
    method Free() returns (freed: seq<(nat, nat)>, mem: (nat, nat))
      ensures freed == S.Freed(View()) && mem == S.FirstMemory(View())
    {
      freed, mem := [], (base, size);
      var b := |retired|;
      while b > 0
        invariant 0 <= b <= |retired|
        invariant mem == if b == |retired| then (base, size) else (retired[b].base, retired[b].size)
        invariant if b == |retired| then freed == [] else S.Freed(View()) == freed + S.FreedBlocks(retired[1..b + 1])
      {
        assert retired[1..] == retired[1..|retired|];
        if b < |retired| {
          assert retired[1..b + 1][..b - 1] == retired[1..b];
          assert retired[1..b + 1][b - 1] == retired[b];
        }
        b := b - 1;
        freed := freed + [mem];
        mem := (retired[b].base, retired[b].size);
      }
    }

    /** Runs over every node of every block; each call is recorded. */
    method CleanupList() returns (calls: seq<S.Cleanup>)
      requires forall b :: 0 <= b <= |retired| ==> Stacked(View(), b) && Written(View(), b)
      ensures calls == S.CleanupList(View())
    {
      hide Stacked, Written, S.BlockCalls;
      calls := [];
      var n := |retired| + 1;
      while n > 0
        invariant 0 <= n <= |retired| + 1
        invariant calls + S.CleanupCalls(View(), n) == S.CleanupList(View())
      {
        n := n - 1;
        ghost var before, rest := calls, S.CleanupCalls(View(), n);
        assert Stacked(View(), n) && Written(View(), n);
        var more := CleanupBlock(n);
        calls := calls + more;
        assert calls + rest == before + (S.BlockCalls(View(), n) + rest);
      }
    }

    method CleanupBlock(b: nat) returns (calls: seq<S.Cleanup>)
      requires b <= |retired| && Stacked(View(), b) && Written(View(), b)
      ensures calls == S.BlockCalls(View(), b)
    {
      hide Stacked, Written, Top;
      calls := [];
      var top := S.Mask8(View().BlockSize(b));
      var it := View().Start(b);
      var num := (top - it) / S.CLEANUP;
      if num > 0 {
        ghost var k := 0;
        while it < top
          invariant it == View().Start(b) + S.CLEANUP * k
          invariant calls + S.ReadNodes(nodes, b, it, top) == S.BlockCalls(View(), b)
        {
          NodeIsWritten(View(), b, k);
          calls := calls + [nodes[S.Slot(b, it)]];
          it := it + S.CLEANUP;
          k := k + 1;
        }
      }
    }

    method SpaceUsed() returns (n: int)
      requires S.BLOCK_HEADER <= ptr
      ensures n == S.SpaceUsed(View())
    {
      n := ptr - S.BLOCK_HEADER;
      n := n + spaceUsed;
      n := n - S.SERIAL_ARENA;
    }
  }
}
