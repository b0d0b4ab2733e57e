// Send buffers cut from chunks: a buffer is opened behind what is used of the
// thread's current chunk, or at the front of another one, and closed again.
module SendBuffers {
  import opened Options

  const CHUNK_SIZE: nat := 6000

  /** The current chunk of a thread, by its number, and what is used of it. */
  datatype Chunk = Chunk(number: nat, used: nat)

  /** A buffer: `size` bytes from position `start` of a chunk on. */
  datatype Place = Place(chunk: nat, start: nat, size: nat)

  /** SendBufferManager's Open; the assertion on the size is the only refusal. */
  function OpenIn(c: Chunk, size: nat): Option<Place> {
    if size > CHUNK_SIZE then None
    else if CHUNK_SIZE < c.used + size then Some(Place(c.number + 1, 0, size))
    else Some(Place(c.number, c.used, size))
  }

  /** After Close the bytes written count as used. */
  function Closed(p: Place, written: nat): Chunk {
    Chunk(p.chunk, p.start + written)
  }

  class SendBufferManager {
    var number: nat
    var used: nat
    var isOpen: bool

    ghost predicate Valid() reads this {
      used <= CHUNK_SIZE
    }

    ghost function View(): Chunk reads this {
      Chunk(number, used)
    }

    constructor ()
      ensures Valid() && !isOpen && View() == Chunk(0, 0)
    {
      number, used, isOpen := 0, 0, false;
    }

    /** A chunk without enough room is replaced; None stands for the failed assertion. */
    method Open(size: nat) returns (place: Option<Place>)
      requires Valid() && !isOpen
      modifies this
      ensures Valid() && place == OpenIn(old(View()), size) && isOpen == place.Some?
      ensures place.Some? ==> View() == Chunk(place.value.chunk, place.value.start)
    {
      if CHUNK_SIZE - used < size { number, used := number + 1, 0; }
      if size > CHUNK_SIZE { return None; }
      isOpen := true;
      place := Some(Place(number, used, size));
    }

    method Close(place: Place, writeSize: nat)
      requires Valid() && isOpen && View() == Chunk(place.chunk, place.start)
      requires writeSize <= place.size && place.start + place.size <= CHUNK_SIZE
      modifies this`used, this`isOpen
      ensures Valid() && !isOpen && View() == Closed(place, writeSize)
    {
      used, isOpen := used + writeSize, false;
    }
  }

  /** Buffers opened and closed in turn; the bytes written are those of the whole buffer, as MakeSendBuffer does it. */
  function Places(c: Chunk, sizes: seq<nat>): seq<Place>
    decreases |sizes|
  {
    if sizes == [] then []
    else
      match OpenIn(c, sizes[0])
      case None => Places(c, sizes[1..])
      case Some(p) => [p] + Places(Closed(p, p.size), sizes[1..])
  }

  predicate InChunk(p: Place) {
    p.start + p.size <= CHUNK_SIZE
  }

  predicate Apart(p: Place, q: Place) {
    p.chunk == q.chunk ==> p.start + p.size <= q.start || q.start + q.size <= p.start
  }

  /** Buffers lie inside their chunks and share no byte, whatever sizes are asked for. */
  lemma {:induction false} BuffersAreApart(c: Chunk, sizes: seq<nat>)
    requires c.used <= CHUNK_SIZE
    ensures forall p :: p in Places(c, sizes) ==>
              InChunk(p) && (p.chunk > c.number || (p.chunk == c.number && p.start >= c.used))
    ensures forall i, j :: 0 <= i < j < |Places(c, sizes)| ==> Apart(Places(c, sizes)[i], Places(c, sizes)[j])
    decreases |sizes|
  {
    if sizes != [] {
      match OpenIn(c, sizes[0])
      case None => BuffersAreApart(c, sizes[1..]);
      case Some(p) =>
        var more := Places(Closed(p, p.size), sizes[1..]);
        BuffersAreApart(Closed(p, p.size), sizes[1..]);
        forall j | 0 < j <= |more| ensures Apart(p, ([p] + more)[j]) {
          assert more[j - 1] in more;
        }
    }
  }

  /** Every size up to that of a chunk is granted, and no other. */
  lemma OpensIffFits(c: Chunk, size: nat)
    requires c.used <= CHUNK_SIZE
    ensures OpenIn(c, size).Some? <==> size <= CHUNK_SIZE
    ensures OpenIn(c, size).Some? ==> InChunk(OpenIn(c, size).value) && OpenIn(c, size).value.size == size
  {}
}
