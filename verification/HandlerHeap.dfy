/**
 The memory side of any_completion_handler_impl, on values: allocate and deallocate carve an aligned block out of
 a raw block of the handler's own allocator, and keep the distance between the two in a trailer behind the user's
 bytes. A ledger that simply remembers what was given out is the reference.
 */
module HandlerHeap {
  import opened Bytes
  import opened Alignment

  /** sizeof(std::ptrdiff_t) */
  const TRAILER: nat := 8

  // ----- std::memcpy of a std::ptrdiff_t, least significant byte first -----

  function Pow256(n: nat): nat { if n == 0 then 1 else 256 * Pow256(n - 1) }

  function Encode(value: nat, width: nat): (bytes: seq<byte>)
    ensures |bytes| == width
  {
    if width == 0 then [] else [(value % 256) as byte] + Encode(value / 256, width - 1)
  }

  function Decode(bytes: seq<byte>): nat {
    if bytes == [] then 0 else bytes[0] as nat + 256 * Decode(bytes[1..])
  }

  /** The stored offset is read back exactly when it fits the trailer. */
  lemma {:induction false} DecodeInvertsEncode(value: nat, width: nat)
    ensures Decode(Encode(value, width)) == value <==> value < Pow256(width)
  {
    if width > 0 {
      DecodeInvertsEncode(value / 256, width - 1);
      assert Encode(value, width)[1..] == Encode(value / 256, width - 1);
      assert value == 256 * (value / 256) + value % 256;
    }
  }

  lemma {:induction false} Pow256Of8()
    ensures Pow256(8) == SIZE_MAX + 1
  {
    assert Pow256(2) == 0x1_0000;
    assert Pow256(4) == 0x1_0000_0000;
    assert Pow256(6) == 0x1_0000_0000_0000;
  }

  // ----- Memory -----

  type Memory = map<nat, byte>

  function Peek(mem: Memory, a: nat): byte { if a in mem then mem[a] else 0 }

  function Fetch(mem: Memory, at: nat, count: nat): seq<byte> {
    seq(count, i requires 0 <= i < count => Peek(mem, at + i))
  }

  /** std::memcpy of bytes to the address `at`. */
  function Poke(mem: Memory, at: nat, bytes: seq<byte>): (r: Memory)
    ensures forall i :: 0 <= i < |bytes| ==> Peek(r, at + i) == bytes[i]
    ensures forall a: nat :: a < at || at + |bytes| <= a ==> Peek(r, a) == Peek(mem, a)
    decreases |bytes|
  {
    if bytes == [] then mem else
    var r := Poke(mem[at := bytes[0]], at + 1, bytes[1..]);
    assert forall i {:trigger bytes[i]} :: 0 < i < |bytes| ==> Peek(r, at + 1 + (i - 1)) == bytes[1..][i - 1] == bytes[i];
    r
  }

  lemma {:induction false} FetchAfterPoke(mem: Memory, at: nat, bytes: seq<byte>)
    ensures Fetch(Poke(mem, at, bytes), at, |bytes|) == bytes
  {}

  /** The same, where addresses wrap. */
  function PokeAround(mem: Memory, at: SizeT, bytes: seq<byte>): Memory
    decreases |bytes|
  {
    if bytes == [] then mem else PokeAround(mem[at := bytes[0]], AddressAfter(at, 1), bytes[1..])
  }

  lemma {:induction false} PokeAroundIsPoke(mem: Memory, at: SizeT, bytes: seq<byte>)
    requires at + |bytes| <= SIZE_MAX
    ensures PokeAround(mem, at, bytes) == Poke(mem, at, bytes)
    decreases |bytes|
  {
    if bytes != [] {
      AddressAfterWraps(at, 1);
      PokeAroundIsPoke(mem[at := bytes[0]], at + 1, bytes[1..]);
    }
  }

  lemma {:induction false} AddressAfterAdds(at: SizeT, i: SizeT)
    requires i < SIZE_MAX
    ensures AddressAfter(AddressAfter(at, 1), i) == AddressAfter(at, i + 1)
  {
    AddressAfterWraps(at, 1);
    AddressAfterWraps(AddressAfter(at, 1), i);
    AddressAfterWraps(at, i + 1);
  }

  lemma {:induction false} PokeAroundLeaves(mem: Memory, at: SizeT, bytes: seq<byte>, a: nat)
    requires |bytes| <= SIZE_MAX && forall i: nat :: i < |bytes| ==> AddressAfter(at, i) != a
    ensures Peek(PokeAround(mem, at, bytes), a) == Peek(mem, a)
    decreases |bytes|
  {
    if bytes != [] {
      AddressAfterWraps(at, 0);
      forall i: nat | i < |bytes| - 1
        ensures AddressAfter(AddressAfter(at, 1), i) != a
      {
        AddressAfterAdds(at, i);
      }
      PokeAroundLeaves(mem[at := bytes[0]], AddressAfter(at, 1), bytes[1..], a);
    }
  }

  lemma {:induction false} PokeAroundStores(mem: Memory, at: SizeT, bytes: seq<byte>, i: nat)
    requires i < |bytes| <= SIZE_MAX
    ensures Peek(PokeAround(mem, at, bytes), AddressAfter(at, i)) == bytes[i]
    decreases |bytes|
  {
    var after := mem[at := bytes[0]];
    if i == 0 {
      AddressAfterWraps(at, 0);
      forall j: nat | j < |bytes| - 1
        ensures AddressAfter(AddressAfter(at, 1), j) != at
      {
        AddressAfterAdds(at, j);
        AddressAfterWraps(at, j + 1);
      }
      PokeAroundLeaves(after, AddressAfter(at, 1), bytes[1..], at);
    } else {
      AddressAfterAdds(at, i - 1);
      PokeAroundStores(after, AddressAfter(at, 1), bytes[1..], i - 1);
    }
  }

  /** What allocate was asked for, and the raw block it got for it. */
  datatype Block = Block(size: SizeT, align: SizeT, base: nat)

  /** The length asked of the handler's allocator. */
  function RawLength(b: Block): int { b.size + b.align - 1 + TRAILER }

  /** A block whose raw block holds it, and whose trailer still leads back to the base. */
  ghost predicate Intact(mem: Memory, raw: map<nat, nat>, p: nat, b: Block) {
    && Aligned(p, b.align)
    && b.base in raw && raw[b.base] == RawLength(b)
    && b.base <= p < b.base + b.align
    && Fetch(mem, p + b.size, TRAILER) == Encode(p - b.base, TRAILER)
  }

  /** Raw blocks given out are not empty, end below the last address and do not overlap. */
  ghost predicate Disjoint(raw: map<nat, nat>) {
    && (forall b :: b in raw ==> 0 < b && 0 < raw[b] && b + raw[b] <= SIZE_MAX)
    && (forall b, c :: b in raw && c in raw && b < c ==> b + raw[b] <= c)
  }

  /** An allocator may place a block anywhere clear of those it gave out before. */
  predicate Clear(raw: map<nat, nat>, base: nat, length: nat) {
    && 0 < base && base + length <= SIZE_MAX && base !in raw
    && forall b :: b in raw ==> base + length <= b || b + raw[b] <= base
  }

  /** Every block the callers hold is intact, and no two share a raw block. */
  ghost predicate Sound(mem: Memory, raw: map<nat, nat>, live: map<nat, Block>) {
    && Disjoint(raw)
    && (forall p :: p in live ==> Intact(mem, raw, p, live[p]))
    && (forall p, q :: p in live && q in live && p != q ==> live[p].base != live[q].base)
  }

  /** Blocks in different raw blocks do not meet, trailers included. */
  lemma {:induction false} RawBlocksSeparate(raw: map<nat, nat>, p: nat, b: Block, q: nat, c: Block)
    requires Disjoint(raw) && b.base != c.base
    requires b.base in raw && raw[b.base] == RawLength(b) && b.base <= p < b.base + b.align
    requires c.base in raw && raw[c.base] == RawLength(c) && c.base <= q < c.base + c.align
    ensures p + b.size + TRAILER <= q || q + c.size + TRAILER <= p
  {}

  /** Blocks with their trailers lie inside their raw blocks, so they are apart from each other. */
  lemma {:induction false} BlocksApart(mem: Memory, raw: map<nat, nat>, live: map<nat, Block>, p: nat, q: nat)
    requires Sound(mem, raw, live) && p in live && q in live && p != q
    ensures p + live[p].size + TRAILER <= q || q + live[q].size + TRAILER <= p
    ensures Aligned(p, live[p].align)
    ensures live[p].base <= p && p + live[p].size + TRAILER <= live[p].base + raw[live[p].base]
  {
    assert Intact(mem, raw, p, live[p]) && Intact(mem, raw, q, live[q]);
    RawBlocksSeparate(raw, p, live[p], q, live[q]);
  }

  lemma {:induction false} SoundBlocksFit(mem: Memory, raw: map<nat, nat>, live: map<nat, Block>)
    requires Sound(mem, raw, live)
    ensures forall p :: p in live ==>
              var b := live[p];
              && Aligned(p, b.align) && b.base in raw
              && b.base <= p && p + b.size + TRAILER <= b.base + raw[b.base]
    ensures forall p, q :: p in live && q in live && p != q ==>
              p + live[p].size + TRAILER <= q || q + live[q].size + TRAILER <= p
  {
    forall p | p in live
      ensures Intact(mem, raw, p, live[p])
    {}
    forall p, q | p in live && q in live && p != q
      ensures p + live[p].size + TRAILER <= q || q + live[q].size + TRAILER <= p
    {
      BlocksApart(mem, raw, live, p, q);
    }
  }

  /** A write that misses the trailer leaves the block intact. */
  lemma {:induction false} StaysIntact(mem: Memory, after: Memory, raw: map<nat, nat>, p: nat, b: Block)
    requires Intact(mem, raw, p, b)
    requires forall a: nat :: p + b.size <= a < p + b.size + TRAILER ==> Peek(after, a) == Peek(mem, a)
    ensures Intact(after, raw, p, b)
  {
    assert Fetch(after, p + b.size, TRAILER) == Fetch(mem, p + b.size, TRAILER);
  }

  /** Users write into their own blocks without disturbing anybody's trailer. */
  lemma {:induction false} UserWriteIsSound(mem: Memory, raw: map<nat, nat>, live: map<nat, Block>,
                                            p: nat, offset: nat, value: byte)
    requires Sound(mem, raw, live) && p in live && offset < live[p].size
    ensures Sound(Poke(mem, p + offset, [value]), raw, live)
  {
    var after := Poke(mem, p + offset, [value]);
    forall q | q in live
      ensures Intact(after, raw, q, live[q])
    {
      if q != p {
        BlocksApart(mem, raw, live, p, q);
      }
      StaysIntact(mem, after, raw, q, live[q]);
    }
  }

  /** A new raw block, with nothing placed in it yet. */
  lemma {:induction false} ObtainIsSound(mem: Memory, raw: map<nat, nat>, live: map<nat, Block>, base: nat, length: nat)
    requires Sound(mem, raw, live) && Clear(raw, base, length) && length > 0
    ensures Sound(mem, raw[base := length], live)
    ensures forall q :: q in live ==> live[q].base != base
  {
    forall q | q in live
      ensures live[q].base != base && Intact(mem, raw[base := length], q, live[q])
    {
      assert Intact(mem, raw, q, live[q]);
    }
  }

  /** A block in a raw block of its own is apart from the others. */
  lemma {:induction false} PlaceIsApart(mem: Memory, raw: map<nat, nat>, live: map<nat, Block>, p: nat, b: Block)
    requires Sound(mem, raw, live)
    requires b.base <= p < b.base + b.align && b.base in raw && raw[b.base] == RawLength(b)
    requires forall q :: q in live ==> live[q].base != b.base
    ensures forall q :: q in live ==> p + b.size + TRAILER <= q || q + live[q].size + TRAILER <= p
  {
    forall q | q in live
      ensures p + b.size + TRAILER <= q || q + live[q].size + TRAILER <= p
    {
      assert Intact(mem, raw, q, live[q]);
      RawBlocksSeparate(raw, p, b, q, live[q]);
    }
  }

  /** The block is placed and the offset stored behind the user's bytes. */
  lemma {:induction false} PlaceIsSound(mem: Memory, raw: map<nat, nat>, live: map<nat, Block>, p: nat, b: Block)
    requires Sound(mem, raw, live)
    requires Aligned(p, b.align) && b.base <= p < b.base + b.align && b.base in raw && raw[b.base] == RawLength(b)
    requires forall q :: q in live ==> live[q].base != b.base
    ensures p !in live
    ensures Sound(Poke(mem, p + b.size, Encode(p - b.base, TRAILER)), raw, live[p := b])
  {
    var offset := Encode(p - b.base, TRAILER);
    var after := Poke(mem, p + b.size, offset);
    FetchAfterPoke(mem, p + b.size, offset);
    assert Intact(after, raw, p, b);
    forall q | q in live
      ensures q != p && Intact(after, raw, q, live[q])
    {
      assert Intact(mem, raw, q, live[q]);
      RawBlocksSeparate(raw, p, b, q, live[q]);
      StaysIntact(mem, after, raw, q, live[q]);
    }
  }

  /** Giving a raw block back leaves the other blocks intact. */
  lemma {:induction false} ReleaseIsSound(mem: Memory, raw: map<nat, nat>, live: map<nat, Block>, p: nat)
    requires Sound(mem, raw, live) && p in live
    ensures Sound(mem, raw - {live[p].base}, live - {p})
  {
    forall q | q in live - {p}
      ensures Intact(mem, raw - {live[p].base}, q, live[q])
    {
      assert Intact(mem, raw, q, live[q]);
    }
  }

  /** What deallocate reads from the trailer is the base that allocate was given. */
  lemma {:induction false} TrailerFindsBase(mem: Memory, raw: map<nat, nat>, live: map<nat, Block>, p: nat)
    requires Sound(mem, raw, live) && p in live
    ensures Decode(Fetch(mem, p + live[p].size, TRAILER)) == p - live[p].base
    ensures live[p].base in raw && raw[live[p].base] == RawLength(live[p])
  {
    assert Intact(mem, raw, p, live[p]);
    Pow256Of8();
    DecodeInvertsEncode(p - live[p].base, TRAILER);
  }

  // ----- The length of a raw block -----

  /** std::size_t space = size + align - 1 */
  function Space(size: SizeT, align: SizeT): SizeT
    requires align > 0
  {
    AddressAfter(size, align - 1)
  }

  /** space + sizeof(std::ptrdiff_t), what allocate asks for and deallocate gives back. */
  function RequestLength(size: SizeT, align: SizeT): SizeT
    requires align > 0
  {
    AddressAfter(Space(size, align), TRAILER)
  }

  /** The raw block has room for the trailer: adding its length does not wrap. */
  predicate TrailerFits(size: SizeT, align: SizeT)
    requires align > 0
  {
    Space(size, align) + TRAILER <= SIZE_MAX
  }

  lemma {:induction false} RequestLengthIs(size: SizeT, align: SizeT)
    requires 0 < align
    ensures size + align - 1 <= SIZE_MAX ==> Space(size, align) == size + align - 1
    ensures size + align - 1 > SIZE_MAX ==> Space(size, align) == size + align - SIZE_MAX - 2 < size
    ensures RequestLength(size, align) ==
            if TrailerFits(size, align) then Space(size, align) + TRAILER else Space(size, align) + TRAILER - SIZE_MAX - 1
  {
    AddressAfterWraps(size, align - 1);
    AddressAfterWraps(Space(size, align), TRAILER);
  }

  /** All the trailer's bytes, from the address start on, are inside the raw block. */
  ghost predicate TrailerInside(start: SizeT, base: nat, length: nat) {
    forall i: nat :: i < TRAILER ==> base <= AddressAfter(start, i) < base + length
  }

  /**
   When std::align succeeds, the trailer lies inside the raw block exactly when adding its length does not wrap.
   */
  lemma {:induction false} TrailerInsideIff(size: SizeT, align: SizeT, base: nat, p: nat)
    requires 0 < align && size + align - 1 <= SIZE_MAX
    requires 0 < base <= p < base + align && base + RequestLength(size, align) <= SIZE_MAX
    ensures TrailerInside((p + size) % (SIZE_MAX + 1), base, RequestLength(size, align)) <==> TrailerFits(size, align)
  {
    RequestLengthIs(size, align);
    var start: SizeT := (p + size) % (SIZE_MAX + 1);
    forall i: nat | i < TRAILER
      ensures AddressAfter(start, i) == if start + i <= SIZE_MAX then start + i else start + i - SIZE_MAX - 1
    {
      AddressAfterWraps(start, i);
    }
    if TrailerFits(size, align) {
      assert start == p + size;
    } else {
      var length := RequestLength(size, align);
      assert length < TRAILER;
      AddressAfterWraps(start, 0);
      AddressAfterWraps(start, 7);
      var first, last := AddressAfter(start, 0), AddressAfter(start, 7);
      assert !(base <= first < base + length && base <= last < base + length);
    }
  }

  /** allocate(SIZE_MAX, 1) gets seven bytes and writes the first byte of the trailer in front of them. */
  lemma {:induction false} LargestRequestMisplaces(base: nat)
    requires 0 < base && base + 7 <= SIZE_MAX
    ensures RequestLength(SIZE_MAX, 1) == 7 && SIZE_MAX + 0 <= Space(SIZE_MAX, 1)
    ensures (base + SIZE_MAX) % (SIZE_MAX + 1) == base - 1 && !TrailerInside(base - 1, base, 7)
  {
    RequestLengthIs(SIZE_MAX, 1);
    assert base + SIZE_MAX == (base - 1) + (SIZE_MAX + 1);
    TrailerInsideIff(SIZE_MAX, 1, base, base);
  }

  // ----- Operations -----

  /**
   mem: the process's memory; raw: base and length of each block that the handler's allocator gave out and did not
   get back; live: what the callers of allocate hold; given, returned: every block given out or got back, in order.
   */
  datatype Heap = Heap(mem: Memory, raw: map<nat, nat>, live: map<nat, Block>,
                       given: seq<(nat, nat)>, returned: seq<(nat, nat)>)

  const NoHeap: Heap := Heap(map[], map[], map[], [], [])

  datatype Op =
    | Allocate(size: SizeT, align: SizeT, offer: Pointer)   // offer: where the allocator puts the raw block, if it can
    | Write(p: nat, offset: nat, value: byte)
    | Deallocate(p: nat, size: SizeT, align: SizeT)

  /** What the callers and the handler's allocator may do next. */
  predicate Admissible(raw: map<nat, nat>, live: map<nat, Block>, op: Op) {
    match op
    case Allocate(size, align, offer) =>
      && 0 < align <= 0x8000_0000_0000_0000 && TrailerFits(size, align)
      && (offer.At? ==> Clear(raw, offer.address, RequestLength(size, align)))
    case Write(p, offset, value) => p in live && offset < live[p].size
    case Deallocate(p, size, align) => p != 0 ==> p in live && (live[p].size, live[p].align) == (size, align)
  }

  ghost predicate SoundHeap(h: Heap) {
    Sound(h.mem, h.raw, h.live)
  }

  /** A raw block of that length is obtained at base. */
  function Obtained(h: Heap, base: nat, length: nat): Heap {
    h.(raw := h.raw[base := length], given := h.given + [(base, length)])
  }

  /** The block is placed at p, and the offset stored behind the user's bytes. */
  function Placed(h: Heap, p: nat, b: Block): Heap
    requires b.base <= p
  {
    h.(mem := Poke(h.mem, p + b.size, Encode(p - b.base, TRAILER)), live := h.live[p := b])
  }

  /** The raw block at base is given back, and p with it. */
  function Released(h: Heap, p: nat, base: nat, length: nat): Heap {
    h.(raw := h.raw - {base}, live := h.live - {p}, returned := h.returned + [(base, length)])
  }

  /** std::align finds room for the object in the space that was asked for. */
  ghost predicate AlignSucceeds(size: SizeT, align: SizeT, base: nat)
    requires align > 0
  {
    size + (FirstAligned(base, align) - base) <= Space(size, align)
  }

  /** It does so exactly when size + align - 1 does not wrap. */
  lemma {:induction false} AlignSucceedsIff(size: SizeT, align: SizeT, base: nat)
    requires 0 < align
    ensures AlignSucceeds(size, align, base) <==> size + align - 1 <= SIZE_MAX
  {
    RequestLengthIs(size, align);
  }

  lemma {:induction false} ObtainedIsSound(h: Heap, base: nat, length: nat)
    requires SoundHeap(h) && Clear(h.raw, base, length) && length > 0
    ensures SoundHeap(Obtained(h, base, length))
    ensures forall q :: q in h.live ==> h.live[q].base != base
  {
    ObtainIsSound(h.mem, h.raw, h.live, base, length);
  }

  lemma {:induction false} PlacedIsSound(h: Heap, p: nat, b: Block)
    requires SoundHeap(h)
    requires Aligned(p, b.align) && b.base <= p < b.base + b.align && b.base in h.raw && h.raw[b.base] == RawLength(b)
    requires forall q :: q in h.live ==> h.live[q].base != b.base
    ensures p !in h.live && SoundHeap(Placed(h, p, b))
  {
    PlaceIsSound(h.mem, h.raw, h.live, p, b);
    var mem, live := Poke(h.mem, p + b.size, Encode(p - b.base, TRAILER)), h.live[p := b];
    assert Placed(h, p, b) == Heap(mem, h.raw, live, h.given, h.returned);
    assert Sound(mem, h.raw, live);
  }

  lemma {:induction false} RawLengthIs(size: SizeT, align: SizeT, base: nat)
    requires 0 < align && TrailerFits(size, align)
    ensures 0 < RequestLength(size, align)
    ensures size + align - 1 <= SIZE_MAX ==> RequestLength(size, align) == RawLength(Block(size, align, base))
  {
    RequestLengthIs(size, align);
  }

  lemma {:induction false} AllocateIsSound(h: Heap, size: SizeT, align: SizeT, base: nat)
    requires SoundHeap(h) && 0 < align && TrailerFits(size, align) && Clear(h.raw, base, RequestLength(size, align))
    ensures var after := Obtained(h, base, RequestLength(size, align));
            && SoundHeap(after) && (forall q :: q in h.live ==> h.live[q].base != base)
            && (AlignSucceeds(size, align, base) ==>
                  && FirstAligned(base, align) !in h.live
                  && SoundHeap(Placed(after, FirstAligned(base, align), Block(size, align, base))))
  {
    RawLengthIs(size, align, base);
    AlignSucceedsIff(size, align, base);
    var after := Obtained(h, base, RequestLength(size, align));
    ObtainedIsSound(h, base, RequestLength(size, align));
    if AlignSucceeds(size, align, base) {
      PlacedIsSound(after, FirstAligned(base, align), Block(size, align, base));
    }
  }

  /** deallocate gives back the base and the length of the block that was asked for. */
  lemma {:induction false} DeallocateFinds(h: Heap, p: nat, size: SizeT, align: SizeT)
    requires SoundHeap(h) && p in h.live && (h.live[p].size, h.live[p].align) == (size, align)
    ensures var b := h.live[p];
            && align > 0 && p != 0
            && Decode(Fetch(h.mem, p + size, TRAILER)) == p - b.base
            && RequestLength(size, align) == RawLength(b)
            && b.base in h.raw && h.raw[b.base] == RawLength(b)
            && SoundHeap(Released(h, p, b.base, RawLength(b)))
  {
    TrailerFindsBase(h.mem, h.raw, h.live, p);
    RequestLengthIs(size, align);
    ReleaseIsSound(h.mem, h.raw, h.live, p);
  }

  /**
   allocate(size, align) for any request, when the allocator puts the raw block at base. Where the raw block has no
   room for the trailer, the trailer is stored around the end of the address space.
   */
  ghost function Carved(h: Heap, size: SizeT, align: SizeT, base: nat): Heap
    requires 0 < align
  {
    var after := Obtained(h, base, RequestLength(size, align));
    if AlignSucceeds(size, align, base) then
      var p := FirstAligned(base, align);
      after.(mem := PokeAround(h.mem, (p + size) % (SIZE_MAX + 1), Encode(p - base, TRAILER)),
             live := h.live[p := Block(size, align, base)])
    else after
  }

  lemma {:induction false} CarvedIsPlaced(h: Heap, size: SizeT, align: SizeT, base: nat)
    requires 0 < align && TrailerFits(size, align) && base + RequestLength(size, align) <= SIZE_MAX
    requires AlignSucceeds(size, align, base)
    ensures Carved(h, size, align, base) ==
            Placed(Obtained(h, base, RequestLength(size, align)), FirstAligned(base, align), Block(size, align, base))
  {
    RequestLengthIs(size, align);
    var p := FirstAligned(base, align);
    assert (p + size) % (SIZE_MAX + 1) == p + size;
    PokeAroundIsPoke(h.mem, p + size, Encode(p - base, TRAILER));
  }

  /**
   Whatever was asked for, the trailer's bytes are stored after the user's, and all of them inside the raw block
   exactly when adding the trailer's length does not wrap.
   */
  lemma {:induction false} CarvedTrailer(h: Heap, size: SizeT, align: SizeT, base: nat)
    requires 0 < align && AlignSucceeds(size, align, base)
    requires 0 < base && base + RequestLength(size, align) <= SIZE_MAX
    ensures var p, start := FirstAligned(base, align), (FirstAligned(base, align) + size) % (SIZE_MAX + 1);
            && (forall i: nat :: i < TRAILER ==>
                  Peek(Carved(h, size, align, base).mem, AddressAfter(start, i)) == Encode(p - base, TRAILER)[i])
            && (TrailerInside(start, base, RequestLength(size, align)) <==> TrailerFits(size, align))
  {
    AlignSucceedsIff(size, align, base);
    var p := FirstAligned(base, align);
    var start: SizeT := (p + size) % (SIZE_MAX + 1);
    TrailerInsideIff(size, align, base, p);
    forall i: nat | i < TRAILER
      ensures Peek(Carved(h, size, align, base).mem, AddressAfter(start, i)) == Encode(p - base, TRAILER)[i]
    {
      PokeAroundStores(h.mem, start, Encode(p - base, TRAILER), i);
    }
  }

  /** The same, where the raw block has room for the trailer. */
  ghost function AllocateAt(h: Heap, size: SizeT, align: SizeT, base: nat): (r: Heap)
    requires SoundHeap(h) && 0 < align && TrailerFits(size, align) && Clear(h.raw, base, RequestLength(size, align))
    ensures SoundHeap(r) && r == Carved(h, size, align, base)
    ensures var length := RequestLength(size, align);
            (r.raw, r.given, r.returned) == (h.raw[base := length], h.given + [(base, length)], h.returned)
    ensures if size + align - 1 <= SIZE_MAX
            then r.live == h.live[FirstAligned(base, align) := Block(size, align, base)] && FirstAligned(base, align) !in h.live
            else r.live == h.live && r.mem == h.mem
    ensures forall q :: q in h.live ==> h.live[q].base != base
  {
    AllocateIsSound(h, size, align, base);
    AlignSucceedsIff(size, align, base);
    var after := Obtained(h, base, RequestLength(size, align));
    if AlignSucceeds(size, align, base) then
      CarvedIsPlaced(h, size, align, base);
      Placed(after, FirstAligned(base, align), Block(size, align, base))
    else after
  }

  lemma {:induction false} CarvedIsSound(h: Heap, size: SizeT, align: SizeT, base: nat)
    requires SoundHeap(h) && 0 < align && TrailerFits(size, align) && Clear(h.raw, base, RequestLength(size, align))
    ensures SoundHeap(Carved(h, size, align, base))
  {
    var r := AllocateAt(h, size, align, base);
  }

  /** The user stores a byte in a block it holds. */
  ghost function WriteAt(h: Heap, p: nat, offset: nat, value: byte): (r: Heap)
    requires SoundHeap(h) && p in h.live && offset < h.live[p].size
    ensures SoundHeap(r)
  {
    UserWriteIsSound(h.mem, h.raw, h.live, p, offset, value);
    h.(mem := Poke(h.mem, p + offset, [value]))
  }

  /** deallocate(p, size, align): the base is computed from the trailer. */
  ghost function DeallocateAt(h: Heap, p: nat, size: SizeT, align: SizeT): (r: Heap)
    requires SoundHeap(h) && p in h.live && (h.live[p].size, h.live[p].align) == (size, align)
    ensures SoundHeap(r)
    ensures r == Released(h, p, h.live[p].base, RawLength(h.live[p]))
  {
    DeallocateFinds(h, p, size, align);
    Released(h, p, p - Decode(Fetch(h.mem, p + size, TRAILER)), RequestLength(size, align))
  }

  /** Inadmissible operations, which a correct caller never issues, do nothing. */
  ghost function Step(h: Heap, op: Op): (r: Heap)
    requires SoundHeap(h)
    ensures SoundHeap(r)
  {
    if !Admissible(h.raw, h.live, op) then h else
    match op
    case Allocate(size, align, offer) => if offer.Null? then h else AllocateAt(h, size, align, offer.address)
    case Write(p, offset, value) => WriteAt(h, p, offset, value)
    case Deallocate(p, size, align) => if p == 0 then h else DeallocateAt(h, p, size, align)
  }

  /** An allocation whose trailer fits is served, in a raw block clear of the others. */
  lemma {:induction false} AllocateIsServed(h: Heap, size: SizeT, align: SizeT, base: nat)
    requires SoundHeap(h)
    requires 0 < align <= 0x8000_0000_0000_0000 && size + align + 7 <= SIZE_MAX
    requires 0 < base && base + size + align + 7 <= SIZE_MAX
    requires forall b :: b in h.raw ==> base + size + align + 7 <= b || b + h.raw[b] <= base
    ensures var r := Step(h, Allocate(size, align, At(base)));
            && r.live == h.live[FirstAligned(base, align) := Block(size, align, base)]
            && r.raw == h.raw[base := size + align + 7] && r.given == h.given + [(base, size + align + 7)]
  {
    RequestLengthIs(size, align);
    assert RequestLength(size, align) == size + align + 7;
    assert Admissible(h.raw, h.live, Allocate(size, align, At(base)));
    var r := AllocateAt(h, size, align, base);
  }

  /** A block that is held can be written, and goes back with what was given for it. */
  lemma {:induction false} HeldIsServed(h: Heap, p: nat, offset: nat, value: byte)
    requires SoundHeap(h) && p in h.live
    ensures offset < h.live[p].size ==> Step(h, Write(p, offset, value)) == h.(mem := Poke(h.mem, p + offset, [value]))
    ensures var b := h.live[p];
            Step(h, Deallocate(p, b.size, b.align)) ==
            h.(raw := h.raw - {b.base}, live := h.live - {p}, returned := h.returned + [(b.base, b.size + b.align + 7)])
  {
    DeallocateFinds(h, p, h.live[p].size, h.live[p].align);
  }

  ghost function Run(ops: seq<Op>): (h: Heap)
    ensures SoundHeap(h)
  {
    if ops == [] then NoHeap else Step(Run(ops[..|ops| - 1]), ops[|ops| - 1])
  }

  // ----- The ledger -----

  /** No trailers: the base is remembered; wrote: what each user last wrote at an offset of a block it holds. */
  datatype Ledger = Ledger(raw: map<nat, nat>, live: map<nat, Block>, given: seq<(nat, nat)>,
                           returned: seq<(nat, nat)>, wrote: map<(nat, nat), byte>)

  const NoLedger: Ledger := Ledger(map[], map[], [], [], map[])

  ghost function LedgerAllocate(g: Ledger, size: SizeT, align: SizeT, base: nat): Ledger
    requires 0 < align
  {
    var length := RequestLength(size, align);
    Ledger(g.raw[base := length],
           if size + align - 1 <= SIZE_MAX then g.live[FirstAligned(base, align) := Block(size, align, base)] else g.live,
           g.given + [(base, length)], g.returned, g.wrote)
  }

  ghost function LedgerDeallocate(g: Ledger, p: nat): Ledger
    requires p in g.live
  {
    var b := g.live[p];
    Ledger(g.raw - {b.base}, g.live - {p}, g.given, g.returned + [(b.base, RawLength(b))],
           map k | k in g.wrote && k.0 != p :: g.wrote[k])
  }

  ghost function LedgerStep(g: Ledger, op: Op): Ledger {
    if !Admissible(g.raw, g.live, op) then g else
    match op
    case Allocate(size, align, offer) => if offer.Null? then g else LedgerAllocate(g, size, align, offer.address)
    case Write(p, offset, value) => g.(wrote := g.wrote[(p, offset) := value])
    case Deallocate(p, _, _) => if p == 0 then g else LedgerDeallocate(g, p)
  }

  ghost function LedgerRun(ops: seq<Op>): Ledger {
    if ops == [] then NoLedger else LedgerStep(LedgerRun(ops[..|ops| - 1]), ops[|ops| - 1])
  }

  /** What a user wrote in a block it holds is what is there. */
  ghost predicate Reads(mem: Memory, live: map<nat, Block>, wrote: map<(nat, nat), byte>) {
    forall p: nat, o: nat :: (p, o) in wrote ==>
      p in live && o < live[p].size && Peek(mem, p + o) == wrote[(p, o)]
  }

  ghost predicate Agree(h: Heap, g: Ledger) {
    && h.raw == g.raw && h.live == g.live && h.given == g.given && h.returned == g.returned
    && Reads(h.mem, h.live, g.wrote)
  }

  /** A trailer stored away from every user's bytes leaves what they read. */
  lemma {:induction false} ReadsAfterPlacing(h: Heap, p: nat, b: Block, wrote: map<(nat, nat), byte>)
    requires Reads(h.mem, h.live, wrote) && p !in h.live && b.base <= p
    requires forall q :: q in h.live ==> p + b.size + TRAILER <= q || q + h.live[q].size + TRAILER <= p
    ensures Reads(Placed(h, p, b).mem, h.live[p := b], wrote)
  {
    var after := Poke(h.mem, p + b.size, Encode(p - b.base, TRAILER));
    forall q: nat, o: nat | (q, o) in wrote
      ensures q in h.live[p := b] && o < h.live[p := b][q].size && Peek(after, q + o) == wrote[(q, o)]
    {
      assert q in h.live && q != p;
      assert Peek(after, q + o) == Peek(h.mem, q + o);
    }
  }

  lemma {:induction false} AllocateAgrees(h: Heap, g: Ledger, size: SizeT, align: SizeT, base: nat)
    requires SoundHeap(h) && Agree(h, g) && Admissible(h.raw, h.live, Allocate(size, align, At(base)))
    ensures Agree(AllocateAt(h, size, align, base), LedgerAllocate(g, size, align, base))
  {
    AlignSucceedsIff(size, align, base);
    if AlignSucceeds(size, align, base) {
      RawLengthIs(size, align, base);
      ObtainedIsSound(h, base, RequestLength(size, align));
      var after, p, b := Obtained(h, base, RequestLength(size, align)), FirstAligned(base, align), Block(size, align, base);
      PlaceIsApart(after.mem, after.raw, after.live, p, b);
      ReadsAfterPlacing(after, p, b, g.wrote);
    }
  }

  lemma {:induction false} ReadsAfterWriting(mem: Memory, live: map<nat, Block>, wrote: map<(nat, nat), byte>,
                                             p: nat, offset: nat, value: byte)
    requires Reads(mem, live, wrote) && p in live && offset < live[p].size
    requires forall q :: q in live && q != p ==> p + live[p].size <= q || q + live[q].size <= p
    ensures Reads(Poke(mem, p + offset, [value]), live, wrote[(p, offset) := value])
  {
    var after, now := Poke(mem, p + offset, [value]), wrote[(p, offset) := value];
    forall q: nat, o: nat | (q, o) in now
      ensures q in live && o < live[q].size && Peek(after, q + o) == now[(q, o)]
    {
      if (q, o) == (p, offset) {
        assert Peek(after, p + offset + 0) == [value][0];
      } else {
        assert (q, o) in wrote && q + o != p + offset;
      }
    }
  }

  lemma {:induction false} WriteAgrees(h: Heap, g: Ledger, p: nat, offset: nat, value: byte)
    requires SoundHeap(h) && Agree(h, g) && p in h.live && offset < h.live[p].size
    ensures Agree(WriteAt(h, p, offset, value), g.(wrote := g.wrote[(p, offset) := value]))
  {
    SoundBlocksFit(h.mem, h.raw, h.live);
    ReadsAfterWriting(h.mem, h.live, g.wrote, p, offset, value);
  }

  lemma {:induction false} ReleaseAgrees(h: Heap, g: Ledger, p: nat)
    requires Agree(h, g) && p in h.live
    ensures Agree(Released(h, p, h.live[p].base, RawLength(h.live[p])), LedgerDeallocate(g, p))
  {}

  /** The allocator that finds bases through trailers does what the ledger does. */
  lemma {:induction false} StepAgrees(h: Heap, g: Ledger, op: Op)
    requires SoundHeap(h) && Agree(h, g)
    ensures Agree(Step(h, op), LedgerStep(g, op))
  {
    if Admissible(h.raw, h.live, op) {
      match op
      case Allocate(size, align, offer) =>
        if offer.At? {
          AllocateAgrees(h, g, size, align, offer.address);
        }
      case Write(p, offset, value) =>
        WriteAgrees(h, g, p, offset, value);
      case Deallocate(p, size, align) =>
        if p != 0 {
          ReleaseAgrees(h, g, p);
        }
    }
  }

  /**
   Over every run: the same blocks are live, the same blocks were given out and got back in the same order with
   base and length, and every byte a user wrote in a block it holds still reads as last written.
   */
  lemma {:induction false} RunRefinesLedger(ops: seq<Op>)
    ensures Agree(Run(ops), LedgerRun(ops))
    decreases |ops|
  {
    if ops != [] {
      var n := |ops| - 1;
      RunRefinesLedger(ops[..n]);
      StepAgrees(Run(ops[..n]), LedgerRun(ops[..n]), ops[n]);
    }
  }

  // ----- Balance -----

  /** Every raw block given out is still out, or was got back once with its base and its length. */
  ghost predicate Balanced(raw: map<nat, nat>, given: seq<(nat, nat)>, returned: seq<(nat, nat)>) {
    forall b: nat, n: nat ::
      multiset(given)[(b, n)] == multiset(returned)[(b, n)] + if b in raw && raw[b] == n then 1 else 0
  }

  lemma {:induction false} BalanceAfterGiving(raw: map<nat, nat>, given: seq<(nat, nat)>, returned: seq<(nat, nat)>,
                                              base: nat, length: nat)
    requires Balanced(raw, given, returned) && base !in raw
    ensures Balanced(raw[base := length], given + [(base, length)], returned)
  {}

  lemma {:induction false} BalanceAfterReturning(raw: map<nat, nat>, given: seq<(nat, nat)>,
                                                 returned: seq<(nat, nat)>, base: nat, length: nat)
    requires Balanced(raw, given, returned) && base in raw && raw[base] == length
    ensures Balanced(raw - {base}, given, returned + [(base, length)])
  {}

  lemma {:induction false} StepKeepsBalance(h: Heap, op: Op)
    requires SoundHeap(h) && Balanced(h.raw, h.given, h.returned)
    ensures var r := Step(h, op);
            Balanced(r.raw, r.given, r.returned)
  {
    if Admissible(h.raw, h.live, op) {
      match op
      case Allocate(size, align, offer) =>
        if offer.At? {
          BalanceAfterGiving(h.raw, h.given, h.returned, offer.address, RequestLength(size, align));
        }
      case Write(_, _, _) =>
      case Deallocate(p, size, align) =>
        if p != 0 {
          DeallocateFinds(h, p, size, align);
          BalanceAfterReturning(h.raw, h.given, h.returned, h.live[p].base, RawLength(h.live[p]));
        }
    }
  }

  lemma {:induction false} RunBalances(ops: seq<Op>)
    ensures Balanced(Run(ops).raw, Run(ops).given, Run(ops).returned)
    decreases |ops|
  {
    if ops != [] {
      RunBalances(ops[..|ops| - 1]);
      StepKeepsBalance(Run(ops[..|ops| - 1]), ops[|ops| - 1]);
    }
  }

  // ----- Stranded raw blocks -----

  /** A block is obtained, but std::align fails because size + align - 1 has wrapped. */
  predicate Strands(raw: map<nat, nat>, live: map<nat, Block>, op: Op) {
    Admissible(raw, live, op) && op.Allocate? && op.offer.At? && op.size + op.align - 1 > SIZE_MAX
  }

  ghost predicate NeverStrands(ops: seq<Op>) {
    ops != [] ==>
      && NeverStrands(ops[..|ops| - 1])
      && !Strands(Run(ops[..|ops| - 1]).raw, Run(ops[..|ops| - 1]).live, ops[|ops| - 1])
  }

  /** Some block that a caller holds lies in the raw block at b. */
  ghost predicate HasOwner(live: map<nat, Block>, b: nat) {
    exists p :: p in live && live[p].base == b
  }

  /** Every raw block still out belongs to a block that a caller holds. */
  ghost predicate Owned(raw: map<nat, nat>, live: map<nat, Block>) {
    forall b :: b in raw ==> HasOwner(live, b)
  }

  /** Blocks that lack an owner stay out and keep lacking it; blocks that have one keep it while they are out. */
  ghost predicate OwnersKept(raw: map<nat, nat>, live: map<nat, Block>, raw': map<nat, nat>, live': map<nat, Block>) {
    && (forall b :: b in raw && !HasOwner(live, b) ==> b in raw' && !HasOwner(live', b))
    && (forall b :: b in raw && HasOwner(live, b) && b in raw' ==> HasOwner(live', b))
  }

  lemma {:induction false} OwnersAfterAllocate(live: map<nat, Block>, p: nat, b: Block, c: nat)
    requires p !in live
    ensures HasOwner(live[p := b], c) <==> c == b.base || HasOwner(live, c)
  {
    var after := live[p := b];
    assert p in after && after[p].base == b.base;
    if q :| q in live && live[q].base == c {
      assert q in after && after[q].base == c;
    }
  }

  lemma {:induction false} OwnersAfterRelease(live: map<nat, Block>, p: nat, c: nat)
    requires p in live && c != live[p].base
    ensures HasOwner(live - {p}, c) <==> HasOwner(live, c)
  {
    var after := live - {p};
    if q :| q in live && live[q].base == c {
      assert q in after && after[q].base == c;
    }
  }

  lemma {:induction false} AllocateOwners(raw: map<nat, nat>, live: map<nat, Block>, length: nat,
                                          p: nat, b: Block, placed: bool)
    requires b.base !in raw && (placed ==> p !in live)
    requires forall q :: q in live ==> live[q].base != b.base
    ensures var live' := if placed then live[p := b] else live;
            && OwnersKept(raw, live, raw[b.base := length], live')
            && (HasOwner(live', b.base) <==> placed)
  {
    assert !HasOwner(live, b.base);
    if placed {
      var after := live[p := b];
      forall c
        ensures HasOwner(after, c) <==> c == b.base || HasOwner(live, c)
      {
        OwnersAfterAllocate(live, p, b, c);
      }
    }
  }

  lemma {:induction false} ReleaseOwners(raw: map<nat, nat>, live: map<nat, Block>, p: nat)
    requires p in live
    ensures OwnersKept(raw, live, raw - {live[p].base}, live - {p})
    ensures HasOwner(live, live[p].base)
  {
    forall c | c != live[p].base
      ensures HasOwner(live - {p}, c) <==> HasOwner(live, c)
    {
      OwnersAfterRelease(live, p, c);
    }
  }

  lemma {:induction false} AllocateAtOwners(h: Heap, size: SizeT, align: SizeT, base: nat)
    requires SoundHeap(h) && Admissible(h.raw, h.live, Allocate(size, align, At(base)))
    ensures var r := AllocateAt(h, size, align, base);
            Owned(r.raw, r.live) <==> Owned(h.raw, h.live) && size + align - 1 <= SIZE_MAX
  {
    var r := AllocateAt(h, size, align, base);
    AllocateOwners(h.raw, h.live, RequestLength(size, align), FirstAligned(base, align), Block(size, align, base),
                   size + align - 1 <= SIZE_MAX);
  }

  /** So a step keeps every raw block owned exactly when it strands none. */
  lemma {:induction false} StepOwners(h: Heap, op: Op)
    requires SoundHeap(h)
    ensures var r := Step(h, op);
            Owned(r.raw, r.live) <==> Owned(h.raw, h.live) && !Strands(h.raw, h.live, op)
  {
    if Admissible(h.raw, h.live, op) {
      match op
      case Allocate(size, align, offer) =>
        if offer.At? {
          AllocateAtOwners(h, size, align, offer.address);
        }
      case Write(_, _, _) =>
      case Deallocate(p, size, align) =>
        if p != 0 {
          ReleaseOwners(h.raw, h.live, p);
        }
    }
  }

  /** After any run every raw block still out belongs to a live block exactly when no allocate ever stranded one. */
  lemma {:induction false} OwnedIffNeverStranded(ops: seq<Op>)
    ensures Owned(Run(ops).raw, Run(ops).live) <==> NeverStrands(ops)
    decreases |ops|
  {
    if ops != [] {
      OwnedIffNeverStranded(ops[..|ops| - 1]);
      StepOwners(Run(ops[..|ops| - 1]), ops[|ops| - 1]);
    }
  }

  lemma {:induction false} RunOfOne(op: Op)
    ensures Run([op]) == Step(NoHeap, op)
  {
    assert [op][..0] == [];
  }

  /** allocate(SIZE_MAX, 2) is refused its block, and the raw block of eight bytes is left without an owner. */
  lemma {:induction false} OddRequestStrands()
    ensures RequestLength(SIZE_MAX, 2) == 8
    ensures var h := Run([Allocate(SIZE_MAX, 2, At(16))]);
            h.raw == map[16 := 8] && h.live == map[] && !Owned(h.raw, h.live)
  {
    RequestLengthIs(SIZE_MAX, 2);
    RunOfOne(Allocate(SIZE_MAX, 2, At(16)));
    var h := Run([Allocate(SIZE_MAX, 2, At(16))]);
    assert 16 in h.raw && !HasOwner(h.live, 16);
  }

  /** allocate(4, 8) at an aligned base: a block that a caller holds, in a raw block of its own. */
  lemma {:induction false} OneBlockIsHeld()
    ensures var h := Run([Allocate(4, 8, At(16))]);
            SoundHeap(h) && h.raw == map[16 := 19] && h.live == map[16 := Block(4, 8, 16)] && Owned(h.raw, h.live)
  {
    RequestLengthIs(4, 8);
    RunOfOne(Allocate(4, 8, At(16)));
    AlignedUnique(16, FirstAligned(16, 8), 8);
    var h := Run([Allocate(4, 8, At(16))]);
    assert 16 in h.live && h.live[16].base == 16;
    assert HasOwner(h.live, 16);
  }
}
