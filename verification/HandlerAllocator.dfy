/**
 any_completion_handler_allocator<T>, the only caller of the aligned allocator: it asks for sizeof(T) * n bytes,
 computed in std::size_t, at alignof(T).
 */
module HandlerAllocator {
  import opened Bytes
  import opened Alignment
  import opened HandlerHeap
  import opened HandlerMemory

  /** sizeof(T) and alignof(T). */
  datatype Type = Type(size: SizeT, align: SizeT)

  /** Alignments are powers of two, so they divide 2^64, and a size is a multiple of the alignment. */
  predicate ObjectType(t: Type) {
    0 < t.align && 0 < t.size && t.size % t.align == 0 && (SIZE_MAX + 1) % t.align == 0
  }

  /** sizeof(T) * n */
  function RequestBytes(t: Type, n: SizeT): SizeT { t.size * n % (SIZE_MAX + 1) }

  // ----- What callers can ask for -----

  lemma {:induction false} DivisorsDivideRemainders(x: nat, m: nat, align: nat)
    requires 0 < align && 0 < m && x % align == 0 && m % align == 0
    ensures x % m % align == 0
  {
    var i, j, q := x / align, m / align, x / m;
    assert x == i * align && m == j * align;
    assert x % m == x - q * m;
    assert q * m == q * j * align;
    assert x % m == (i - q * j) * align;
    if i - q * j < 0 {
      TimesMonotone(i - q * j, -1, align);
      assert false;
    }
    MultiplesDivide(i - q * j, align);
  }

  /** The product, wrapped or not, is a multiple of the alignment. */
  lemma {:induction false} RequestIsMultiple(t: Type, n: SizeT)
    requires ObjectType(t)
    ensures RequestBytes(t, n) % t.align == 0
  {
    var k := t.size / t.align;
    assert t.size * n == k * n * t.align;
    NonNegative(k, n);
    MultiplesDivide(k * n, t.align);
    NonNegative(t.size, n);
    DivisorsDivideRemainders(t.size * n, SIZE_MAX + 1, t.align);
  }

  lemma {:induction false} MultiplesLeaveRoom(size: SizeT, align: SizeT)
    requires 0 < align && size % align == 0 && (SIZE_MAX + 1) % align == 0
    ensures size + align - 1 <= SIZE_MAX
    ensures align <= 0x8000_0000_0000_0000
  {
    var k, c := size / align, (SIZE_MAX + 1) / align;
    assert size == k * align && SIZE_MAX + 1 == c * align;
    TimesMonotone(c, k, align);
    TimesMonotone(k + 1, c, align);
    assert (k + 1) * align == size + align;
    TimesMonotone(c, 1, align);
    TimesMonotone(2, c, align);
  }

  /** So size + align - 1 never wraps in allocate, whatever n is. */
  lemma {:induction false} RequestsNeverWrap(t: Type, n: SizeT)
    requires ObjectType(t)
    ensures RequestBytes(t, n) + t.align - 1 <= SIZE_MAX
    ensures t.align <= 0x8000_0000_0000_0000
  {
    RequestIsMultiple(t, n);
    MultiplesLeaveRoom(RequestBytes(t, n), t.align);
  }

  /** The request has room for the n objects exactly when the product does not wrap. */
  lemma {:induction false} RequestHoldsIff(t: Type, n: SizeT)
    ensures RequestBytes(t, n) >= t.size * n <==> t.size * n <= SIZE_MAX
    ensures t.size * n <= SIZE_MAX ==> RequestBytes(t, n) == t.size * n
    ensures RequestBytes(t, n) == t.size * n - t.size * n / (SIZE_MAX + 1) * (SIZE_MAX + 1)
  {
    NonNegative(t.size, n);
  }

  /** 2^61 objects of eight bytes are granted no byte, one more is granted eight, and SIZE_MAX chars a block that cannot hold its trailer. */
  lemma {:induction false} HugeRequests()
    ensures ObjectType(Type(8, 8)) && RequestBytes(Type(8, 8), 0x2000_0000_0000_0000) == 0
    ensures RequestBytes(Type(8, 8), 0x2000_0000_0000_0001) == 8
    ensures ObjectType(Type(1, 1)) && RequestBytes(Type(1, 1), SIZE_MAX) == SIZE_MAX && !TrailerFits(SIZE_MAX, 1)
  {
    RequestLengthIs(SIZE_MAX, 1);
  }

  /** i * sizeof(T) */
  function OffsetOf(t: Type, i: nat): nat {
    NonNegative(i, t.size);
    i * t.size
  }

  lemma {:induction false} OffsetIsMultiple(t: Type, i: nat)
    requires ObjectType(t)
    ensures OffsetOf(t, i) % t.align == 0
  {
    var j := t.size / t.align;
    NonNegative(i, j);
    assert OffsetOf(t, i) == i * j * t.align;
    MultiplesDivide(i * j, t.align);
  }

  lemma {:induction false} MultiplesAdd(x: nat, y: nat, align: nat)
    requires 0 < align && x % align == 0 && y % align == 0
    ensures (x + y) % align == 0
  {
    var i, j := x / align, y / align;
    assert x + y == (i + j) * align;
    MultiplesDivide(i + j, align);
  }

  lemma {:induction false} OffsetsEnd(t: Type, n: SizeT, i: nat)
    requires i < n && t.size * n <= SIZE_MAX
    ensures OffsetOf(t, i) + t.size <= RequestBytes(t, n)
  {
    RequestHoldsIff(t, n);
    TimesMonotone(i + 1, n, t.size);
    assert (i + 1) * t.size == OffsetOf(t, i) + t.size;
  }

  /** Each of the n objects is aligned and inside the bytes of its block. */
  lemma {:induction false} ElementFits(h: Heap, p: nat, t: Type, n: SizeT, i: nat)
    requires SoundHeap(h) && p in h.live && ObjectType(t) && t.size * n <= SIZE_MAX && i < n
    requires (h.live[p].size, h.live[p].align) == (RequestBytes(t, n), t.align)
    ensures Aligned(p + OffsetOf(t, i), t.align)
    ensures p + OffsetOf(t, i) + t.size <= p + h.live[p].size
  {
    assert Intact(h.mem, h.raw, p, h.live[p]);
    OffsetIsMultiple(t, i);
    MultiplesAdd(p, OffsetOf(t, i), t.align);
    OffsetsEnd(t, n, i);
  }

  // ----- Runs of such calls -----

  datatype Call =
    | AllocateObjects(t: Type, n: SizeT, offer: Pointer)
    | WriteByte(p: nat, offset: nat, value: byte)
    | DeallocateObjects(p: nat, t: Type, n: SizeT)

  predicate Typed(c: Call) {
    c.WriteByte? || ObjectType(c.t)
  }

  predicate AllTyped(calls: seq<Call>) {
    forall i :: 0 <= i < |calls| ==> Typed(calls[i])
  }

  /** What the aligned allocator is asked to do. */
  function Lower(c: Call): Op {
    match c
    case AllocateObjects(t, n, offer) => Allocate(RequestBytes(t, n), t.align, offer)
    case WriteByte(p, offset, value) => Write(p, offset, value)
    case DeallocateObjects(p, t, n) => Deallocate(p, RequestBytes(t, n), t.align)
  }

  function LowerAll(calls: seq<Call>): seq<Op> {
    seq(|calls|, i requires 0 <= i < |calls| => Lower(calls[i]))
  }

  /** No run of calls strands a raw block: after it, every raw block still out belongs to a live block. */
  lemma {:induction false} CallersNeverStrand(calls: seq<Call>)
    requires AllTyped(calls)
    ensures NeverStrands(LowerAll(calls))
    ensures Owned(Run(LowerAll(calls)).raw, Run(LowerAll(calls)).live)
    decreases |calls|
  {
    var ops := LowerAll(calls);
    if calls != [] {
      var n := |calls| - 1;
      CallersNeverStrand(calls[..n]);
      assert ops[..n] == LowerAll(calls[..n]);
      CallStrandsNothing(Run(ops[..n]), calls[n]);
    }
    OwnedIffNeverStranded(ops);
  }

  lemma {:induction false} CallStrandsNothing(h: Heap, c: Call)
    requires Typed(c)
    ensures !Strands(h.raw, h.live, Lower(c))
  {
    if c.AllocateObjects? {
      RequestsNeverWrap(c.t, c.n);
    }
  }

  // ----- The allocator -----

  /** One allocator, of a wrapper whose function table and target are set. */
  class HandlerAllocator {
    const impl: HandlerImpl
    const t: Type

    constructor (target: HandlerImpl, valueType: Type)
      ensures impl == target && t == valueType
    {
      impl, t := target, valueType;
    }

    /** allocate(n): it throws exactly when the handler's own allocator does. */
    method Allocate(n: SizeT, offer: Pointer) returns (r: Pointer)
      requires ObjectType(t) && impl.Valid()
      requires offer.At? ==> Clear(impl.alloc.raw, offer.address, RequestLength(RequestBytes(t, n), t.align))
      modifies impl`mem, impl`live, impl.alloc
      ensures r == if offer.Null? then Null else At(FirstAligned(offer.address, t.align))
      ensures offer.Null? ==> impl.Abs() == old(impl.Abs())
      ensures offer.At? ==> impl.Abs() == Carved(old(impl.Abs()), RequestBytes(t, n), t.align, offer.address)
      ensures TrailerFits(RequestBytes(t, n), t.align) ==> impl.Valid()
    {
      RequestsNeverWrap(t, n);
      r := impl.Allocate(RequestBytes(t, n), t.align, offer);
    }

    /** deallocate(p, n), for the n that was allocated. */
    method Deallocate(p: nat, n: SizeT)
      requires ObjectType(t) && impl.Valid()
      requires p != 0 ==> p in impl.live && (impl.live[p].size, impl.live[p].align) == (RequestBytes(t, n), t.align)
      modifies impl`live, impl.alloc
      ensures impl.Valid()
      ensures impl.Abs() == if p == 0 then old(impl.Abs()) else DeallocateAt(old(impl.Abs()), p, RequestBytes(t, n), t.align)
    {
      impl.Deallocate(p, RequestBytes(t, n), t.align);
    }
  }
}
