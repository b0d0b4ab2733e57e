// Objects in an arena: Arena::AllocateInternal and AllocateAligned over a
// SerialArena. Objects of any alignment lie inside the region reserved for them.
module ArenaObjects {
  import opened Options
  import opened SerialArena
  import opened SerialArenaRuns
  import opened SerialArenaCleanup

  predicate IsPowerOfTwo(n: nat) {
    n == 1 || (n > 1 && n % 2 == 0 && IsPowerOfTwo(n / 2))
  }

  /** An alignment, and a size that is a multiple of it, as for the types and arrays of the language. */
  predicate ValidType(size: nat, align: nat) {
    IsPowerOfTwo(align) && size % align == 0
  }

  /** The bytes reserved: for an alignment over 8, enough to slide the object up. */
  function Reserved(size: nat, align: nat): nat {
    if align <= 8 then AlignUpTo8(size) else size + align - 8
  }

  /** Where the object is put in what was reserved. */
  function ObjectAt(ptr: nat, align: nat): nat
    requires align > 0
  {
    if align <= 8 then ptr else AlignTo(ptr, align)
  }

  function BlockBase(s: Serial, b: nat): nat {
    if b < |s.retired| then s.retired[b].base else s.base
  }

  /** Arena::AllocateInternal: the object's address, and the cleanup node filled in with it. */
  function AllocateInternal(s: Serial, size: nat, align: nat, destructor: Option<nat>, policy: Option<Policy>,
                            base: nat)
    : (r: (Serial, nat))
    requires BLOCK_HEADER <= s.ptr && align > 0
    ensures BLOCK_HEADER <= r.0.ptr
  {
    if destructor.None? then
      var (s', region) := AllocateAligned(s, Reserved(size, align), policy, base);
      (s', ObjectAt(BlockBase(s', region.block) + region.lo, align))
    else
      var (s', region, slot) := AllocateAlignedWithCleanup(s, Reserved(size, align), policy, base);
      var ptr := ObjectAt(BlockBase(s', region.block) + region.lo, align);
      (WriteNode(s', slot, Cleanup(ptr, destructor.value)), ptr)
  }

  lemma {:induction false} PowersOfTwoDivide(n: nat)
    requires IsPowerOfTwo(n)
    ensures n >= 1
    ensures n <= 8 ==> 8 % n == 0
    ensures n > 8 ==> n % 16 == 0
  {
    if n > 1 {
      var m := n / 2;
      PowersOfTwoDivide(m);
      assert n == 2 * m;
      hide IsPowerOfTwo;
      if m <= 8 { SmallDivisors(m); } else { TwiceSixteenths(m); }
    }
  }

  lemma SmallDivisors(m: nat)
    requires 1 <= m <= 8 && 8 % m == 0
    ensures m == 1 || m == 2 || m == 4 || m == 8
  {
    assert 8 % 3 != 0 && 8 % 5 != 0 && 8 % 6 != 0 && 8 % 7 != 0;
  }

  lemma TwiceSixteenths(m: nat)
    requires m % 16 == 0
    ensures 2 * m % 16 == 0
  {}

  /** Divisibility, by a witness. */
  lemma MultipleHasNoRemainder(x: nat, b: nat, k: nat)
    requires b > 0 && x == b * k
    ensures x % b == 0
  {
    var q := x / b;
    assert x == b * q + x % b;
    if k > q {
      MulMonotone(b, q + 1, k);
    } else if k < q {
      MulMonotone(b, k + 1, q);
    }
  }

  lemma MulMonotone(a: nat, i: nat, j: nat)
    requires i <= j
    ensures a * i <= a * j && a * (i + 1) == a * i + a
  {
    assert a * (j - i) >= 0;
    assert a * j == a * i + a * (j - i);
  }

  lemma DividesTransitively(x: nat, a: nat, b: nat)
    requires a > 0 && b > 0 && a % b == 0 && x % a == 0
    ensures x % b == 0
  {
    var p, q := a / b, x / a;
    assert a == b * p && x == a * q;
    assert x == b * (p * q);
    MultipleHasNoRemainder(x, b, p * q);
  }

  /** AlignTo finds the least aligned address that is not below its argument. */
  lemma AlignToIsLeast(ptr: nat, align: nat, p: nat)
    requires align > 0
    ensures AlignTo(ptr, align) % align == 0
    ensures ptr <= AlignTo(ptr, align) < ptr + align
    ensures ptr <= p && p % align == 0 ==> AlignTo(ptr, align) <= p
  {
    var k := (ptr + align - 1) / align;
    AlignToIsProduct(ptr, align, k);
    MultipleHasNoRemainder(AlignTo(ptr, align), align, k);
    if ptr <= p && p % align == 0 { MultiplesAreSpaced(align, k, p); }
  }

  lemma AlignToIsProduct(ptr: nat, align: nat, k: nat)
    requires align > 0 && k == (ptr + align - 1) / align
    ensures AlignTo(ptr, align) == align * k
    ensures ptr <= align * k < ptr + align
  {
    var x := ptr + align - 1;
    assert x == align * k + x % align;
  }

  lemma MultiplesAreSpaced(align: nat, k: nat, p: nat)
    requires align > 0 && p % align == 0 && align * k < p + align
    ensures align * k <= p
  {
    var q := p / align;
    assert p == align * q;
    if q < k { MulMonotone(align, q + 1, k); } else { MulMonotone(align, k, q); }
  }

  /** The reserved size is what the serial arena demands, and the object fits in it, aligned. */
  lemma ObjectFits(ptr: nat, size: nat, align: nat)
    requires ValidType(size, align) && ptr % 8 == 0
    ensures Reserved(size, align) % 8 == 0
    ensures ObjectAt(ptr, align) % align == 0
    ensures ptr <= ObjectAt(ptr, align) && ObjectAt(ptr, align) + size <= ptr + Reserved(size, align)
  {
    hide IsPowerOfTwo;
    PowersOfTwoDivide(align);
    if align <= 8 {
      DividesTransitively(ptr, 8, align);
    } else {
      LargeObjectFits(ptr, size, align);
    }
  }

  lemma AlignEight(align: nat)
    requires align > 8
    ensures AlignTo(8, align) == align
  {
    hide IsPowerOfTwo;
    var x := align + 7;
    assert x == align * 1 + 7 && x / align == 1;
  }

  lemma AlignUpIsClose(size: nat, n: nat)
    requires n % 8 == 0 && n < AlignUpTo8(size)
    ensures n < size
  {}

  /** No less would do: some place needs all that is reserved. */
  lemma ReservedIsLeast(size: nat, align: nat, n: nat)
    requires ValidType(size, align) && n % 8 == 0 && n < Reserved(size, align)
    ensures align > 0 && exists ptr: nat :: ptr % 8 == 0 && ObjectAt(ptr, align) + size > ptr + n
  {
    PowersOfTwoDivide(align);
    hide ValidType, AlignUpTo8, AlignTo;
    if align <= 8 {
      AlignUpIsClose(size, n);
      assert ObjectAt(0, align) + size > 0 + n;
    } else {
      AlignEight(align);
      assert ObjectAt(8, align) + size > 8 + n;
    }
  }

  lemma LargeObjectFits(ptr: nat, size: nat, align: nat)
    requires align > 8 && align % 16 == 0 && size % align == 0 && ptr % 8 == 0
    ensures (size + align - 8) % 8 == 0
    ensures AlignTo(ptr, align) % align == 0
    ensures ptr <= AlignTo(ptr, align) <= ptr + align - 8
  {
    hide AlignTo;
    EighthsOf(size, align);
    AlignToIsLeast(ptr, align, 0);
    EighthsOf(AlignTo(ptr, align), align);
    GapOfEight(AlignTo(ptr, align), ptr, align, size);
  }

  lemma GapOfEight(at: nat, ptr: nat, align: nat, size: nat)
    requires at % 8 == 0 && ptr % 8 == 0 && align % 8 == 0 && size % 8 == 0 && align > 8 && at < ptr + align
    ensures at <= ptr + align - 8 && (size + align - 8) % 8 == 0
  {}

  lemma EighthsOf(x: nat, align: nat)
    requires align > 8 && align % 16 == 0 && x % align == 0
    ensures x % 8 == 0 && align % 8 == 0
  {
    DividesTransitively(x, align, 8);
  }

  /** AllocateInternal is one request to the serial arena, so every property of histories covers objects. */
  lemma ObjectIsServed(s: Serial, h: History, size: nat, align: nat, destructor: Option<nat>, policy: Option<Policy>,
                       base: nat)
    returns (r: Request, region: Region)
    requires Layout(s, h) && ValidType(size, align)
    requires base % 8 == 0 && forall b :: 0 <= b <= s.Head() ==> BlockBase(s, b) % 8 == 0
    ensures BLOCK_HEADER <= s.ptr
    ensures r.n == Reserved(size, align) && r.n % 8 == 0 && (r.Owned? <==> destructor.Some?)
    ensures var (s', h') := Serve(s, h, r, policy, base);
            var (t, ptr) := AllocateInternal(s, size, align, destructor, policy, base);
            && t == s' && h'.data == h.data + [region]
            && ptr % align == 0
            && (r.Owned? ==> r.c == Cleanup(ptr, destructor.value))
            && BlockBase(s', region.block) + region.lo <= ptr
            && ptr + size <= BlockBase(s', region.block) + region.hi
            && region.block == s'.Head() >= s.Head()
            && (forall b :: 0 <= b <= s'.Head() ==> BlockBase(s', b) % 8 == 0)
            && (forall b :: 0 <= b <= s.Head() ==> BlockBase(s', b) == BlockBase(s, b))
  {
    hide Layout, Reserved, ObjectAt, Serve, IsPowerOfTwo, AlignTo, AllocateInternal, NextSize, HasSpace;
    LayoutPtr(s, h);
    PowersOfTwoDivide(align);
    var n := Reserved(size, align);
    var t := Prepared(s, n + if destructor.Some? then CLEANUP else 0, policy, base);
    region := Region(t.Head(), t.ptr, t.ptr + n);
    var start := BlockBase(t, t.Head()) + t.ptr;
    assert start % 8 == 0 by { StartIsAligned(s, h, n + if destructor.Some? then CLEANUP else 0, policy, base); }
    ObjectFits(start, size, align);
    r := if destructor.Some? then Owned(n, Cleanup(ObjectAt(start, align), destructor.value)) else Data(n);
    OneNewBlockSuffices(s, h, r, policy, base);
    AllocateInternalIsServe(s, h, size, align, destructor, policy, base);
    var s' := Serve(s, h, r, policy, base).0;
    BasesStay(s, Need(r), policy, base);
    assert forall b :: 0 <= b <= t.Head() ==> BlockBase(s', b) == BlockBase(t, b);
  }

  /** A new block leaves the addresses of the others. */
  lemma BasesStay(s: Serial, n: nat, policy: Option<Policy>, base: nat)
    requires BLOCK_HEADER <= s.ptr && base % 8 == 0 && forall b :: 0 <= b <= s.Head() ==> BlockBase(s, b) % 8 == 0
    ensures var t := Prepared(s, n, policy, base);
            && t.Head() >= s.Head()
            && (forall b :: 0 <= b <= t.Head() ==> BlockBase(t, b) % 8 == 0)
            && (forall b :: 0 <= b <= s.Head() ==> BlockBase(t, b) == BlockBase(s, b))
  {
    hide NextSize;
    var t := Prepared(s, n, policy, base);
    forall b | 0 <= b <= t.Head() ensures BlockBase(t, b) % 8 == 0 {
      assert b <= s.Head() ==> BlockBase(t, b) == BlockBase(s, b);
    }
  }

  lemma AllocateInternalIsServe(s: Serial, h: History, size: nat, align: nat, destructor: Option<nat>,
                                policy: Option<Policy>, base: nat)
    requires BLOCK_HEADER <= s.ptr && align > 0
    ensures var n := Reserved(size, align);
            var t := Prepared(s, n + (if destructor.Some? then CLEANUP else 0), policy, base);
            var ptr := ObjectAt(BlockBase(t, t.Head()) + t.ptr, align);
            var r := if destructor.Some? then Owned(n, Cleanup(ptr, destructor.value)) else Data(n);
            AllocateInternal(s, size, align, destructor, policy, base) == (Serve(s, h, r, policy, base).0, ptr)
  {
    hide Reserved, ObjectAt;
    var n := Reserved(size, align);
    var t := Prepared(s, n + if destructor.Some? then CLEANUP else 0, policy, base);
    var r := if destructor.Some? then Owned(n, Cleanup(0, 0)) else Data(n);
    OneNewBlockSuffices(s, h, r, policy, base);
    if destructor.Some? {
      assert AllocateAlignedWithCleanup(s, n, policy, base) == AllocateAlignedWithCleanup(t, n, policy, base);
    } else {
      assert AllocateAligned(s, n, policy, base) == AllocateAligned(t, n, policy, base);
    }
  }

  lemma PtrIsAligned(s: Serial, h: History)
    requires Layout(s, h)
    ensures s.ptr % 8 == 0
  {}

  lemma StartIsAligned(s: Serial, h: History, n: nat, policy: Option<Policy>, base: nat)
    requires Layout(s, h) && BLOCK_HEADER <= s.ptr && base % 8 == 0 && BlockBase(s, s.Head()) % 8 == 0
    ensures var t := Prepared(s, n, policy, base); (BlockBase(t, t.Head()) + t.ptr) % 8 == 0
  {
    hide Layout, NextSize;
    PtrIsAligned(s, h);
  }
}
