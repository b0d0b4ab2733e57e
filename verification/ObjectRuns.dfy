// Every sequence of objects made in an arena: each is aligned as it asks, and no
// byte of it belongs to another object, a cleanup node or a header.
module ObjectRuns {
  import opened Options
  import opened SerialArena
  import opened SerialArenaRuns
  import opened SerialArenaCleanup
  import opened SerialArenaHistory
  import opened ArenaObjects

  /** An object asked for, and the address the block allocator returns if it is asked. */
  datatype Creation = Creation(size: nat, align: nat, destructor: Option<nat>, base: nat)

  ghost predicate ValidCreations(cs: seq<Creation>) {
    forall i :: 0 <= i < |cs| ==> ValidType(cs[i].size, cs[i].align) && cs[i].base % 8 == 0
  }

  predicate PositiveAlignments(cs: seq<Creation>) {
    forall i :: 0 <= i < |cs| ==> cs[i].align > 0
  }

  /** The arena after the calls, and the bytes of the objects they returned. */
  function Create(base: nat, size: nat, policy: Option<Policy>, cs: seq<Creation>): (r: (Serial, seq<Region>))
    requires BLOCK_HEADER + SERIAL_ARENA <= size && PositiveAlignments(cs)
    ensures BLOCK_HEADER <= r.0.ptr && |r.1| == |cs|
  {
    if cs == [] then (New(base, size), [])
    else
      var (s, objects) := Create(base, size, policy, cs[..|cs| - 1]);
      var c := cs[|cs| - 1];
      var (s', at) := AllocateInternal(s, c.size, c.align, c.destructor, policy, c.base);
      (s', objects + [ObjectRegion(s', at, c.size)])
  }

  /** The bytes of an object just allocated, as offsets in its block. */
  function ObjectRegion(s: Serial, at: nat, size: nat): Region {
    var base := BlockBase(s, s.Head());
    if base <= at then Region(s.Head(), at - base, at - base + size) else Region(s.Head(), 0, size)
  }

  function Address(s: Serial, r: Region): nat {
    BlockBase(s, r.block) + r.lo
  }

  /** The destructors registered, each with the address of its object. */
  function Destructors(s: Serial, objects: seq<Region>, cs: seq<Creation>): seq<Cleanup>
    requires |objects| == |cs|
  {
    if cs == [] then []
    else
      var n := |cs| - 1;
      Destructors(s, objects[..n], cs[..n])
      + if cs[n].destructor.Some? then [Cleanup(Address(s, objects[n]), cs[n].destructor.value)] else []
  }

  predicate Within(inner: Region, outer: Region) {
    inner.block == outer.block && outer.lo <= inner.lo && inner.hi <= outer.hi && inner.lo <= inner.hi
  }

  /** The objects lie in the data regions of a history, aligned. */
  ghost predicate Hosted(s: Serial, h: History, objects: seq<Region>, cs: seq<Creation>) {
    && |h.data| == |objects| == |cs|
    && (forall b :: 0 <= b <= s.Head() ==> BlockBase(s, b) % 8 == 0)
    && (forall i :: 0 <= i < |cs| ==>
          && cs[i].align > 0 && objects[i].block <= s.Head()
          && Within(objects[i], h.data[i]) && objects[i].hi == objects[i].lo + cs[i].size
          && Address(s, objects[i]) % cs[i].align == 0)
  }

  lemma {:induction false} DestructorsFrame(s: Serial, t: Serial, objects: seq<Region>, cs: seq<Creation>)
    requires |objects| == |cs| && forall i :: 0 <= i < |cs| ==>
              BlockBase(t, objects[i].block) == BlockBase(s, objects[i].block)
    ensures Destructors(t, objects, cs) == Destructors(s, objects, cs)
    decreases |cs|
  {
    hide BlockBase;
    if cs != [] { DestructorsFrame(s, t, objects[..|cs| - 1], cs[..|cs| - 1]); }
  }

  /** Making objects is a history of requests, so that all that holds of histories holds here. */
  lemma {:induction false} CreateIsRun(base: nat, size: nat, policy: Option<Policy>,
                                       cs: seq<Creation>) returns (events: seq<Event>)
    requires BLOCK_HEADER + SERIAL_ARENA <= size && base % 8 == 0 && ValidCreations(cs)
    ensures PositiveAlignments(cs) && Aligned(events)
    ensures var (s, objects) := Create(base, size, policy, cs);
            var (t, h) := Run(base, size, policy, events);
            && t == s && Hosted(s, h, objects, cs)
            && Registered(events) == Destructors(s, objects, cs)
    decreases |cs|
  {
    hide AllocateInternal, Serve, Layout, Listed, Accounted, WholeBlocks, ValidType, BlockBase;
    ValidIsPositive(cs);
    if cs == [] {
      events := [];
      FirstBlock(base, size);
    } else {
      var n := |cs| - 1;
      var before := CreateIsRun(base, size, policy, cs[..n]);
      var c := cs[n];
      var (s, objects) := Create(base, size, policy, cs[..n]);
      var h := Run(base, size, policy, before).1;
      RunKeepsAll(base, size, policy, before);
      var r, region := ObjectIsServed(s, h, c.size, c.align, c.destructor, policy, c.base);
      events := before + [Event(r, c.base)];
      assert events[..|events| - 1] == before;
      var (s', at) := AllocateInternal(s, c.size, c.align, c.destructor, policy, c.base);
      var obj := ObjectRegion(s', at, c.size);
      assert Address(s', obj) == at && Within(obj, region);
      assert (objects + [obj])[..n] == objects;
      HostedStays(s, s', h, region, objects, obj, cs);
      DestructorsFrame(s, s', objects, cs[..n]);
    }
  }

  lemma FirstBlock(base: nat, size: nat)
    requires BLOCK_HEADER + SERIAL_ARENA <= size && base % 8 == 0
    ensures Hosted(New(base, size), History([], []), [], [])
  {}

  lemma ValidIsPositive(cs: seq<Creation>)
    requires ValidCreations(cs)
    ensures PositiveAlignments(cs)
  {
    forall i | 0 <= i < |cs| ensures cs[i].align > 0 { PowersOfTwoDivide(cs[i].align); }
  }

  lemma HostedStays(s: Serial, s': Serial, h: History, region: Region, objects: seq<Region>, obj: Region,
                    cs: seq<Creation>)
    requires cs != [] && Hosted(s, h, objects, cs[..|cs| - 1]) && s.Head() <= s'.Head()
    requires forall b :: 0 <= b <= s'.Head() ==> BlockBase(s', b) % 8 == 0
    requires forall b :: 0 <= b <= s.Head() ==> BlockBase(s', b) == BlockBase(s, b)
    requires var c := cs[|cs| - 1];
             && c.align > 0 && obj.block <= s'.Head() && Within(obj, region)
             && obj.hi == obj.lo + c.size && Address(s', obj) % c.align == 0
    ensures forall cleanups :: Hosted(s', History(h.data + [region], cleanups), objects + [obj], cs)
  {
    hide BlockBase, Within;
    assert forall i :: 0 <= i < |cs| - 1 ==> cs[..|cs| - 1][i] == cs[i];
    assert forall i :: 0 <= i < |objects| ==> Address(s', objects[i]) == Address(s, objects[i]);
  }

  /** What a caller may rely on for all objects of an arena. */
  ghost predicate ObjectsAreApart(s: Serial, objects: seq<Region>) {
    && (forall i :: 0 <= i < |objects| ==>
          && objects[i].block <= s.Head() && objects[i].hi <= s.BlockSize(objects[i].block)
          && Apart(Header(objects[i].block), objects[i]))
    && (forall i, node :: 0 <= i < |objects| && IsNode(s, node) ==> Apart(objects[i], node))
    && (forall i, j :: 0 <= i < j < |objects| ==> Apart(objects[i], objects[j]))
  }

  lemma HostedAreApart(s: Serial, h: History, objects: seq<Region>, cs: seq<Creation>)
    requires Hosted(s, h, objects, cs) && DataIsApart(s, h) && NodesAreApart(s, h)
    ensures ObjectsAreApart(s, objects)
  {
    hide BlockBase, IsNode, Header;
    forall i, node | 0 <= i < |objects| && IsNode(s, node) ensures Apart(objects[i], node) {
      assert Apart(h.data[i], node) && Within(objects[i], h.data[i]);
    }
    forall i, j | 0 <= i < j < |objects| ensures Apart(objects[i], objects[j]) {
      assert Apart(h.data[i], h.data[j]) && Within(objects[i], h.data[i]) && Within(objects[j], h.data[j]);
    }
    forall i | 0 <= i < |objects| ensures Apart(Header(objects[i].block), objects[i]) {
      assert Apart(Header(h.data[i].block), h.data[i]) && Within(objects[i], h.data[i]);
    }
  }

  /**
   * After every sequence of objects of any sizes and alignments, with or
   * without destructors: each object is aligned, has all its bytes in one
   * block, and shares none with another object, a cleanup node or a header.
   */
  lemma ObjectsArePlaced(base: nat, size: nat, policy: Option<Policy>, cs: seq<Creation>)
    requires BLOCK_HEADER + SERIAL_ARENA <= size && base % 8 == 0 && ValidCreations(cs)
    ensures PositiveAlignments(cs)
    ensures var (s, objects) := Create(base, size, policy, cs);
            && ObjectsAreApart(s, objects)
            && forall i :: 0 <= i < |cs| ==>
                 objects[i].hi == objects[i].lo + cs[i].size && Address(s, objects[i]) % cs[i].align == 0
  {
    hide Create, Run, DataIsApart, NodesAreApart, ObjectsAreApart, ValidType;
    var events := CreateIsRun(base, size, policy, cs);
    EverythingIsApart(base, size, policy, events);
    var (s, objects) := Create(base, size, policy, cs);
    HostedAreApart(s, Run(base, size, policy, events).1, objects, cs);
  }

  /** With block sizes that stay multiples of 8, each destructor is called once with its object, last object first. */
  lemma DestructorsRunOnceInReverse(base: nat, size: nat, policy: Option<Policy>, cs: seq<Creation>)
    requires BLOCK_HEADER + SERIAL_ARENA <= size && base % 8 == 0 && ValidCreations(cs)
    requires size % 4 == 0 && MaxBlockSize(policy) % 8 == 0
    ensures PositiveAlignments(cs)
    ensures var (s, objects) := Create(base, size, policy, cs);
            CleanupList(s) == Reverse(Destructors(s, objects, cs))
  {
    hide Create, Run, CleanupList, ValidType, Hosted, Destructors;
    var events := CreateIsRun(base, size, policy, cs);
    CleanupsRunOnceInReverse(base, size, policy, events);
  }
}
