/** The objects behind HandlerHeap: the handler's allocator, and the implementation that allocates through it. */
module HandlerMemory {
  import opened Bytes
  import opened Alignment
  import opened HandlerHeap

  /** The handler's associated allocator: what is out, what it gave out, and what it got back. */
  class RawAllocator {
    var raw: map<nat, nat>                // base, length
    var given: seq<(nat, nat)>
    var returned: seq<(nat, nat)>

    constructor ()
      ensures raw == map[] && given == [] && returned == []
    {
      raw, given, returned := map[], [], [];
    }

    method Allocate(base: nat, length: nat)
      requires Clear(raw, base, length)
      modifies `raw, `given
      ensures raw == old(raw)[base := length] && given == old(given) + [(base, length)]
    {
      given := given + [(base, length)];
      raw := raw[base := length];
    }

    /** Memory goes back as it came: the same base, the same length. */
    method Deallocate(base: nat, length: nat)
      requires base in raw && raw[base] == length
      modifies `raw, `returned
      ensures raw == old(raw) - {base} && returned == old(returned) + [(base, length)]
    {
      returned := returned + [(base, length)];
      raw := raw - {base};
    }
  }

  class HandlerImpl {
    const alloc: RawAllocator
    var mem: Memory
    var live: map<nat, Block>       // what the callers of allocate hold

    ghost function Abs(): Heap
      reads this, alloc
    {
      Heap(mem, alloc.raw, live, alloc.given, alloc.returned)
    }

    ghost predicate Valid()
      reads this, alloc
    {
      SoundHeap(Abs())
    }

    constructor ()
      ensures Valid() && fresh(alloc) && Abs() == NoHeap
    {
      alloc := new RawAllocator();
      mem, live := map[], map[];
    }

    /** The user stores a byte in a block it holds. */
    method Write(p: nat, offset: nat, value: byte)
      requires Valid() && p in live && offset < live[p].size
      modifies `mem
      ensures Valid() && Abs() == WriteAt(old(Abs()), p, offset, value)
    {
      mem := Poke(mem, p + offset, [value]);
    }

    /**
     allocate(size, align), given where the handler's allocator puts the raw block; it throws where r is null.
     When the raw block has no room for the trailer, the trailer is stored around the end of the address space.
     */
    method Allocate(size: SizeT, align: SizeT, offer: Pointer) returns (r: Pointer)
      requires Valid() && 0 < align <= 0x8000_0000_0000_0000
      requires offer.At? ==> Clear(alloc.raw, offer.address, RequestLength(size, align))
      modifies `mem, `live, alloc
      ensures r == if offer.Null? || size + align - 1 > SIZE_MAX then Null else At(FirstAligned(offer.address, align))
      ensures offer.Null? ==> Abs() == old(Abs())
      ensures offer.At? ==> Abs() == Carved(old(Abs()), size, align, offer.address)
      ensures TrailerFits(size, align) ==> Valid()
    {
      if offer.Null? {
        return Null;
      }
      var base := offer.address;
      var space := Space(size, align);
      alloc.Allocate(base, AddressAfter(space, TRAILER));
      r := StdAlign(align, size, base, space);
      AlignSucceedsIff(size, align, base);
      if TrailerFits(size, align) {
        CarvedIsSound(old(Abs()), size, align, base);
      }
      if r.At? {
        StoreTrailer(r.address, size, r.address - base);
        live := live[r.address := Block(size, align, base)];
      }
    }

    /** The end of allocate: the offset is copied behind the user's bytes. */
    method StoreTrailer(p: nat, size: SizeT, off: nat)
      modifies `mem
      ensures mem == PokeAround(old(mem), (p + size) % (SIZE_MAX + 1), Encode(off, TRAILER))
    {
      var start: SizeT := (p + size) % (SIZE_MAX + 1);
      mem := PokeAround(mem, start, Encode(off, TRAILER));
    }

    /** deallocate(p, size, align). */
    method Deallocate(p: nat, size: SizeT, align: SizeT)
      requires Valid()
      requires p != 0 ==> p in live && (live[p].size, live[p].align) == (size, align)
      modifies `live, alloc
      ensures Valid()
      ensures Abs() == if p == 0 then old(Abs()) else DeallocateAt(old(Abs()), p, size, align)
    {
      if p != 0 {
        DeallocateFinds(Abs(), p, size, align);
        var off := Decode(Fetch(mem, p + size, TRAILER));
        alloc.Deallocate(p - off, RequestLength(size, align));
        live := live - {p};
      }
    }

    /** One operation of a script. */
    method Apply(op: Op)
      requires Valid()
      modifies `mem, `live, alloc
      ensures Valid() && Abs() == Step(old(Abs()), op)
    {
      if !Admissible(alloc.raw, live, op) {
        return;
      }
      match op
      case Allocate(size, align, offer) =>
        var _ := Allocate(size, align, offer);
      case Write(p, offset, value) =>
        Write(p, offset, value);
      case Deallocate(p, size, align) =>
        Deallocate(p, size, align);
    }
  }

  /** Any interleaving of allocations, writes and deallocations, in any order. */
  method Simulate(ops: seq<Op>)
    returns (mem: Memory, live: map<nat, Block>, raw: map<nat, nat>, given: seq<(nat, nat)>, returned: seq<(nat, nat)>)
    ensures Heap(mem, raw, live, given, returned) == Run(ops)
    ensures var g := LedgerRun(ops);
            && (raw, live, given, returned) == (g.raw, g.live, g.given, g.returned) && Reads(mem, live, g.wrote)
    ensures Balanced(raw, given, returned)
    ensures Owned(raw, live) <==> NeverStrands(ops)
  {
    var impl := new HandlerImpl();
    for i := 0 to |ops|
      invariant fresh(impl) && fresh(impl.alloc) && impl.Valid()
      invariant impl.Abs() == Run(ops[..i])
    {
      assert ops[..i + 1][..i] == ops[..i];
      impl.Apply(ops[i]);
    }
    assert ops[..|ops|] == ops;
    mem, live := impl.mem, impl.live;
    raw, given, returned := impl.alloc.raw, impl.alloc.given, impl.alloc.returned;
    RunRefinesLedger(ops);
    RunBalances(ops);
    OwnedIffNeverStranded(ops);
  }
}
