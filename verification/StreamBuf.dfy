/** asio::basic_streambuf: one array for the input and the output sequence, six positions into it. */
module StreamBuf {
  import opened Bytes
  import Spec = StreamBufSpec
  import Pos = StreamBufPositions

  /** The result of an operation that may throw. */
  datatype Try<+T> = Value(value: T) | Threw(error: Spec.Error)

  /** traits_type::not_eof. */
  function NotEof(c: IntType): IntType { if c.EOF? then Char(0) else c }

  /** Success or the exception, as the specification writes it. */
  function Reply<T>(r: Try<T>): Spec.Out { if r.Value? then Spec.Done else Spec.Threw(r.error) }

  /** An answered character, as the specification writes it. */
  function Answer(r: IntType): Spec.Out { if r.EOF? then Spec.Eof else Spec.Got(r.c) }

  lemma {:induction false} AdjoiningSlices(a: array<byte>, i: nat, j: nat, k: nat)
    requires i <= j <= k <= a.Length
    ensures a[i..k] == a[i..j] + a[j..k]
  {}

  /** std::memmove(&a[0], &a[from], count): front to back, so that overlapping ranges are moved intact. */
  method MoveToFront(a: array<byte>, from: nat, count: nat)
    requires from + count <= a.Length
    modifies a
    ensures a[..] == old(a[from..from + count]) + old(a[count..])
  {
    for i := 0 to count
      invariant a[..i] == old(a[from..from + i])
      invariant a[i..] == old(a[i..])
    {
      assert a[from + i] == a[i..][from] == old(a[i..])[from] == old(a[from + i]);
      a[i] := a[from + i];
    }
    assert a[..] == a[..count] + a[count..];
  }

  /** std::vector<char>::resize: keeps the common prefix, new elements are zero. */
  method Resize(a: array<byte>, length: nat) returns (b: array<byte>)
    requires a.Length <= length
    ensures fresh(b) && b.Length == length
    ensures forall i :: 0 <= i < length ==> b[i] == if i < a.Length then a[i] else 0
  {
    b := new byte[length](i reads a => if 0 <= i < a.Length then a[i] else 0);
  }

  class StreamBuf {
    const maxSize: SizeT
    var buffer: array<byte>
    var base: SizeT   // the address of buffer_[0]
    // Offsets from &buffer_[0]. They are plain integers: pbump and gbump may move them anywhere.
    var eback: int
    var gptr: int
    var egptr: int
    var pbase: int
    var pptr: int
    var epptr: int

    ghost predicate Valid()
      reads this
    {
      && 0 == eback <= gptr <= egptr <= pptr <= epptr <= maxSize
      && 0 <= pbase <= pptr
      && buffer.Length == Max(epptr, 1) && epptr <= Spec.VECTOR_MAX
      && 0 < base && base + epptr <= SIZE_MAX
    }

    /** No position has moved. */
    twostate predicate SamePositions()
      reads this
    {
      && gptr == old(gptr) && egptr == old(egptr) && pbase == old(pbase) && pptr == old(pptr) && epptr == old(epptr)
      && base == old(base)
    }

    ghost function Places(): (p: Pos.Positions)
      reads this
      ensures Valid() ==> Pos.Ordered(p, maxSize)
    {
      Pos.Positions(gptr, pptr, epptr, base)
    }

    /** What the positions and the array mean. */
    ghost function Abs(): (l: Spec.Layout)
      requires Valid()
      reads this, buffer
      ensures Spec.WellFormed(l, maxSize)
    {
      Spec.Layout(buffer[gptr..pptr], gptr, epptr, base)
    }

    constructor (maximum: SizeT, address: SizeT)
      requires 0 < address <= SIZE_MAX - Spec.BUFFER_DELTA
      ensures Valid() && fresh(buffer)
      ensures maxSize == maximum
      ensures Abs() == Spec.Initial(maximum, address)
    {
      var pend: SizeT := Min(maximum, Spec.BUFFER_DELTA);
      maxSize, base := maximum, address;
      buffer := new byte[Max(pend, 1)](i => 0);
      eback, gptr, egptr := 0, 0, 0;
      pbase, pptr, epptr := 0, 0, pend;
    }

    /** size() */
    function Size(): (n: SizeT)
      requires Valid()
      reads this, buffer
      ensures n == |Abs().queue| <= maxSize
    {
      pptr - gptr
    }

    method Data() returns (bytes: seq<byte>)
      requires Valid()
      ensures bytes == Abs().queue
    {
      bytes := buffer[gptr..pptr];
    }

    /**
     reserve(n), with what it threw, if anything. On a throw every position and the array are as before, but the
     bytes may have moved.
     */
    method Reserve(n: SizeT, room: Spec.Room) returns (error: Option<Spec.Error>)
      requires Valid() && Placeable(n, room)
      modifies this, buffer
      ensures Valid() && (buffer == old(buffer) || fresh(buffer))
      ensures error == Spec.Rejection(old(Abs()), maxSize, n, room)
      ensures Abs() == Spec.Reserve(old(Abs()), maxSize, n, room)
      ensures error.None? ==> n <= epptr - pptr
      ensures error.Some? ==> buffer == old(buffer) && SamePositions()
      ensures error.Some? ==> buffer[..] == Spec.Shifted(old(buffer[..]), gptr, pptr)
    {
      var pnext: SizeT := pptr;
      var pend: SizeT := epptr;

      // Nothing to do while the put area has room.
      if n <= pend - pnext {
        return None;
      }
      ghost var was := buffer[..];
      assert was[gptr..pptr] == buffer[gptr..pptr];
      error := Rearrange(n, room);
      if error.Some? {
        Spec.ShiftedShows(was, gptr, pptr);
        assert buffer[gptr..pptr] == buffer[..][gptr..pptr];
      }
    }

    /** If the array grows to take n more bytes, the allocator puts it where it ends below the last address. */
    ghost predicate Placeable(n: SizeT, room: Spec.Room)
      requires Valid()
      reads this, buffer
    {
      var need := pptr - gptr + n;
      room.At? && epptr < need <= Min(maxSize, Spec.VECTOR_MAX) ==> 0 < room.base && room.base + need <= SIZE_MAX
    }

    /** The rest of reserve: shift, grow if need be, and update the positions. */
    method Rearrange(n: SizeT, room: Spec.Room) returns (error: Option<Spec.Error>)
      requires Valid() && Placeable(n, room) && n > epptr - pptr
      modifies this, buffer
      ensures Valid() && (buffer == old(buffer) || fresh(buffer))
      ensures error == Spec.Rejection(old(Abs()), maxSize, n, room)
      ensures error.None? ==>
                var need := old(Size()) + n;
                && Abs() == Spec.Layout(old(Abs().queue), 0, Max(old(epptr), need),
                                        if need > old(epptr) && room.At? then room.base else old(base))
                && pptr == old(Size())
      ensures error.Some? ==> buffer == old(buffer)
      ensures error.Some? ==> SamePositions()
      ensures error.Some? ==> buffer[..] == Spec.Shifted(old(buffer[..]), gptr, pptr)
    {
      var pnext := ShiftContents();
      var pend: SizeT;
      error, pend := Extend(n, pnext, room);
      if error.Some? {
        return;
      }
      Reposition(pnext, pend);
    }

    /** The growth, if any, after the shift: where the put area may end, or what was thrown. */
    method Extend(n: SizeT, pnext: SizeT, room: Spec.Room) returns (error: Option<Spec.Error>, pend: SizeT)
      requires pnext <= epptr <= maxSize && buffer.Length == Max(epptr, 1)
      modifies `buffer, `base
      ensures error == Spec.Rejected(pnext, epptr, maxSize, n, room)
      ensures buffer == old(buffer) || fresh(buffer)
      ensures error.Some? ==> buffer == old(buffer) && base == old(base)
      ensures error.None? ==>
                && pend == Max(epptr, pnext + n) && buffer.Length == Max(pend, 1)
                && buffer[..pnext] == old(buffer[..pnext])
                && base == if pnext + n > epptr && room.At? then room.base else old(base)
    {
      error, pend := None, epptr;
      if n > pend - pnext {
        if n <= maxSize && pnext <= maxSize - n {
          pend := pnext + n;
          error := Grow(pend, pnext, room);
        } else {
          error := Some(Spec.LengthError);
        }
      }
    }

    /** The shift: the input sequence goes to the start of the array. */
    method ShiftContents() returns (pnext: SizeT)
      requires Valid()
      modifies buffer
      ensures pnext == pptr - gptr
      ensures buffer[..] == Spec.Shifted(old(buffer[..]), gptr, pptr)
      ensures buffer[..pnext] == old(buffer[gptr..pptr])
    {
      ghost var was := buffer[..];
      pnext := pptr - gptr;
      if gptr > 0 {
        MoveToFront(buffer, gptr, pnext);
      }
      assert was[gptr..pptr] == old(buffer[gptr..pptr]) && was[pnext..] == old(buffer[pnext..]);
      Spec.ShiftedShows(was, gptr, pptr);
      assert gptr == 0 ==> was[..pnext] + was[pnext..] == was;
      assert buffer[..pnext] == buffer[..][..pnext];
    }

    /** setg(base, base, base + pnext); setp(base + pnext, base + pend) */
    method Reposition(pnext: SizeT, pend: SizeT)
      requires pnext <= pend <= maxSize && buffer.Length == Max(pend, 1) && pend <= Spec.VECTOR_MAX
      requires 0 < base && base + pend <= SIZE_MAX
      modifies `eback, `gptr, `egptr, `pbase, `pptr, `epptr
      ensures Valid() && Abs() == Spec.Layout(buffer[..pnext], 0, pend, base) && pptr == pnext
    {
      eback, gptr, egptr := 0, 0, pnext;
      pbase, pptr, epptr := pnext, pnext, pend;
      assert buffer[gptr..pptr] == buffer[..pnext];
    }

    /** buffer_.resize(max(pend, 1)), which throws beyond the vector's own limit or when there is no memory. */
    method Grow(pend: SizeT, ghost size: nat, room: Spec.Room) returns (error: Option<Spec.Error>)
      requires size <= buffer.Length <= pend
      modifies `buffer, `base
      ensures error == if pend > Spec.VECTOR_MAX then Some(Spec.LengthError)
                       else if room.NoMemory? then Some(Spec.BadAlloc)
                       else None
      ensures error.Some? ==> buffer == old(buffer) && base == old(base)
      ensures error.None? ==> fresh(buffer) && buffer.Length == Max(pend, 1) && base == room.base
      ensures error.None? ==> buffer[..size] == old(buffer[..size])
    {
      if pend > Spec.VECTOR_MAX {
        return Some(Spec.LengthError);
      }
      match room
      case NoMemory =>
        error := Some(Spec.BadAlloc);
      case At(address) =>
        buffer := Resize(buffer, Max(pend, 1));
        base := address;
        error := None;
    }

    method Prepare(n: SizeT, room: Spec.Room) returns (r: Try<nat>)
      requires Valid() && Placeable(n, room)
      modifies this, buffer
      ensures Valid() && (buffer == old(buffer) || fresh(buffer))
      ensures var need := old(Size()) + n;
              && (r.Threw? <==> need > maxSize || (need > old(epptr) && (need > Spec.VECTOR_MAX || room.NoMemory?)))
              && (r.Threw? ==> r.error == if need > maxSize || need > Spec.VECTOR_MAX then Spec.LengthError else Spec.BadAlloc)
      ensures r.Value? ==> Abs().queue == old(Abs().queue) && r.value == pptr && pptr + n <= epptr
      ensures Abs() == Spec.Reserve(old(Abs()), maxSize, n, room)
    {
      var error := Reserve(n, room);
      r := if error.None? then Value(pptr) else Threw(error.value);
    }

    /** The caller stores bytes through the buffer that prepare returned. */
    method Fill(bytes: seq<byte>)
      requires Valid() && |bytes| <= epptr - pptr
      modifies buffer
      ensures Valid() && Abs() == old(Abs())
      ensures buffer[pptr..pptr + |bytes|] == bytes
    {
      for i := 0 to |bytes|
        invariant buffer[..pptr] == old(buffer[..pptr])
        invariant buffer[pptr..pptr + i] == bytes[..i]
      {
        buffer[pptr + i] := bytes[i];
        assert buffer[pptr..pptr + i + 1] == buffer[pptr..pptr + i] + [bytes[i]];
      }
      assert buffer[gptr..pptr] == buffer[..pptr][gptr..];
    }

    /** commit(n): moves exactly min(n, epptr - pptr) bytes exactly when that count survives the cast to int. */
    method Commit(n: SizeT)
      requires Valid()
      modifies `pptr, `egptr
      ensures Places() == Pos.After(old(Places()), maxSize, Pos.Commit(n))
      ensures var m := Min(n, epptr - old(pptr));
              && pptr == old(pptr) + CastToInt(m)
              && (pptr == old(pptr) + m <==> m <= INT_MAX)
              && (m <= INT_MAX ==>
                    && Valid()
                    && Abs() == old(Abs()).(queue := old(Abs().queue) + old(buffer[pptr..pptr + m])))
      ensures egptr == pptr
    {
      var m: SizeT := Min(n, epptr - pptr);
      CastToIntExact(m);
      AdjoiningSlices(buffer, gptr, pptr, pptr + m);
      pptr := pptr + CastToInt(m);
      egptr := pptr;
    }

    /**
     consume(n): removes exactly min(n, size()) bytes exactly when that count survives the cast to int and the
     sum gptr() + n does not wrap, or wraps on a count that is size() modulo 2^32.
     */
    method Consume(count: SizeT)
      requires Valid()
      modifies `eback, `gptr, `egptr
      ensures Places() == Pos.After(old(Places()), maxSize, Pos.Skip(count))
      ensures gptr == old(gptr) + Spec.ConsumeMove(old(Abs()), count)
      ensures var m := Min(count, old(Size()));
              && (gptr == old(gptr) + m <==> Spec.ConsumesExactly(old(Abs()), count))
              && (gptr == old(gptr) + m ==>
                    && Valid()
                    && Abs() == old(Abs()).(queue := old(Abs().queue)[m..], front := old(gptr) + m))
    {
      Spec.ConsumeMoveExact(Abs(), maxSize, count);
      if egptr < pptr {
        eback, egptr := 0, pptr;
      }
      var n := Clamp(count);
      gptr := gptr + CastToInt(n);
    }

    /** The test gptr() + n > pptr(), on addresses. */
    method Clamp(count: SizeT) returns (n: SizeT)
      requires 0 <= gptr <= pptr && 0 < base && base + pptr <= SIZE_MAX
      ensures n == Spec.ConsumeCount(base + gptr, pptr - gptr, count)
    {
      n := count;
      AddressAfterWraps(base + gptr, n);
      if AddressAfter(base + gptr, n) > base + pptr {
        n := pptr - gptr;
      }
    }

    /** underflow(): catches egptr up with pptr. */
    method Underflow() returns (r: IntType)
      requires Valid()
      modifies `eback, `egptr
      ensures Valid() && Abs() == old(Abs())
      ensures r == if Abs().queue == [] then EOF else Char(Abs().queue[0])
      ensures r.Char? ==> gptr < egptr
    {
      if gptr < pptr {
        eback, egptr := 0, pptr;
        r := Char(buffer[gptr]);
      } else {
        r := EOF;
      }
    }

    /** *pptr() = c; pbump(1) */
    method Store(c: byte)
      requires Valid() && pptr < epptr
      modifies `pptr, buffer
      ensures Valid() && pptr == old(pptr) + 1
      ensures Abs() == old(Abs()).(queue := old(Abs().queue) + [c])
    {
      ghost var queue := buffer[gptr..pptr];
      buffer[pptr] := c;
      pptr := pptr + 1;
      assert buffer[gptr..pptr] == queue + [c];
    }

    /** overflow(c): grows the put area when it is full, then appends c. */
    method Overflow(c: IntType, room: Spec.Room) returns (r: Try<IntType>)
      requires Valid() && (c.Char? ==> Spec.Placed(Abs(), maxSize, Spec.Put(c.c, room)))
      modifies this, buffer
      ensures Valid() && (buffer == old(buffer) || fresh(buffer))
      ensures c.EOF? ==> Abs() == old(Abs()) && r.Value? && r.value.Char?
      ensures c.Char? ==> (Abs(), Reply(r)) == Spec.Step(old(Abs()), maxSize, Spec.Put(c.c, room))
      ensures c.Char? ==> (r.Threw? <==> old(Size()) == maxSize || Spec.RefusalOf(old(Abs()), maxSize, Spec.Put(c.c, room)).Some?)
      ensures c.Char? && r.Value? ==> r.value == c && Abs().queue == old(Abs().queue) + [c.c]
      ensures r.Threw? ==> buffer == old(buffer) && SamePositions()
      ensures r.Threw? && old(Size()) == maxSize ==> Abs() == old(Abs())
    {
      if c.Char? {
        ghost var before := Abs();
        Spec.PutRefused(before, maxSize, c.c, room);
        if pptr == epptr {
          var error := MakeRoom(room);
          if error.Some? {
            return Threw(error.value);
          }
        }
        assert Spec.Step(before, maxSize, Spec.Put(c.c, room)).0 == Abs().(queue := Abs().queue + [c.c]);
        Store(c.c);
        return Value(c);
      }
      return Value(NotEof(c));
    }

    /** The part of overflow that chooses how much to reserve when the put area is full. */
    method MakeRoom(room: Spec.Room) returns (error: Option<Spec.Error>)
      requires Valid() && pptr == epptr && Placeable(Spec.GrowthStep(Size(), maxSize), room)
      modifies this, buffer
      ensures Valid() && (buffer == old(buffer) || fresh(buffer))
      ensures error == Spec.Rejection(old(Abs()), maxSize, Spec.GrowthStep(old(Size()), maxSize), room)
      ensures Abs() == Spec.Reserve(old(Abs()), maxSize, Spec.GrowthStep(old(Size()), maxSize), room)
      ensures error.None? ==> pptr < epptr
      ensures error.Some? ==> buffer == old(buffer) && SamePositions()
    {
      var size: SizeT := pptr - gptr;
      if size < maxSize && maxSize - size < Spec.BUFFER_DELTA {
        error := Reserve(maxSize - size, room);
      } else {
        error := Reserve(Spec.BUFFER_DELTA, room);
      }
    }

    // ----- The public character interface, as std::streambuf defines it over the two virtual functions -----

    method Sputc(c: byte, room: Spec.Room) returns (r: Try<IntType>)
      requires Valid() && Spec.Placed(Abs(), maxSize, Spec.Put(c, room))
      modifies this, buffer
      ensures Valid() && (buffer == old(buffer) || fresh(buffer))
      ensures (Abs(), Reply(r)) == Spec.Step(old(Abs()), maxSize, Spec.Put(c, room))
      ensures r.Value? ==> r.value == Char(c)
      ensures r.Threw? <==> old(Size()) == maxSize || Spec.RefusalOf(old(Abs()), maxSize, Spec.Put(c, room)).Some?
    {
      Spec.PutRefused(Abs(), maxSize, c, room);
      if pptr < epptr {
        Store(c);
        r := Value(Char(c));
      } else {
        r := Overflow(Char(c), room);
      }
    }

    method Sgetc() returns (r: IntType)
      requires Valid()
      modifies `eback, `egptr
      ensures Valid() && Abs() == old(Abs())
      ensures r == if Abs().queue == [] then EOF else Char(Abs().queue[0])
    {
      if gptr < egptr {
        r := Char(buffer[gptr]);
      } else {
        r := Underflow();
      }
    }

    method Sbumpc() returns (r: IntType)
      requires Valid()
      modifies `eback, `gptr, `egptr
      ensures Valid()
      ensures (Abs(), Answer(r)) == Spec.Step(old(Abs()), maxSize, Spec.Get)
      ensures r == if old(Abs().queue) == [] then EOF else Char(old(Abs().queue)[0])
    {
      if gptr < egptr {
        r := Char(buffer[gptr]);
        gptr := gptr + 1;
      } else {
        // uflow()
        r := Underflow();
        if r.Char? {
          gptr := gptr + 1;
        }
      }
    }

    /**
     prepare(read_size_helper(sb, wanted)), for any capacity the vector may have: it throws only when the array
     has to grow and cannot.
     */
    method PrepareForRead(capacity: SizeT, wanted: SizeT, room: Spec.Room) returns (n: SizeT, r: Try<nat>)
      requires Valid() && buffer.Length <= capacity
      requires Placeable(Spec.ReadSize(capacity, Size(), maxSize, wanted), room)
      modifies this, buffer
      ensures Valid() && (buffer == old(buffer) || fresh(buffer))
      ensures r.Threw? <==> old(Size()) + n > old(epptr) && (old(Size()) + n > Spec.VECTOR_MAX || room.NoMemory?)
      ensures r.Value? ==> Abs().queue == old(Abs().queue) && r.value == pptr && pptr + n <= epptr
      ensures n <= wanted && (n > 0 <==> wanted > 0 && old(Size()) < maxSize)
    {
      n := Spec.ReadSize(capacity, Size(), maxSize, wanted);
      Spec.ReadSizeIsSafe(Abs(), maxSize, capacity, wanted, room);
      r := Prepare(n, room);
    }

    /** A read into the buffer: prepare(n), let the source store bytes, commit what it stored. */
    method Receive(n: SizeT, bytes: seq<byte>, room: Spec.Room) returns (out: Spec.Out)
      requires Valid() && Spec.Fits(Abs(), maxSize, Spec.Receive(n, bytes, room))
      modifies this, buffer
      ensures Valid() && (buffer == old(buffer) || fresh(buffer))
      ensures (Abs(), out) == Spec.Step(old(Abs()), maxSize, Spec.Receive(n, bytes, room))
    {
      var error := Reserve(n, room);
      if error.Some? {
        return Spec.Threw(error.value);
      }
      FillAndCommit(bytes);
      return Spec.Done;
    }

    method FillAndCommit(bytes: seq<byte>)
      requires Valid() && |bytes| <= epptr - pptr && |bytes| <= INT_MAX
      modifies `pptr, `egptr, buffer
      ensures Valid() && Abs() == old(Abs()).(queue := old(Abs().queue) + bytes)
    {
      Fill(bytes);
      Commit(|bytes|);
    }

    /** consume(count), when it removes the count that was meant. */
    method Discard(count: SizeT)
      requires Valid() && Spec.Fits(Abs(), maxSize, Spec.Consume(count))
      modifies `eback, `gptr, `egptr
      ensures Valid() && Abs() == Spec.Step(old(Abs()), maxSize, Spec.Consume(count)).0
    {
      Consume(count);
    }

    /** One scripted operation. */
    method Apply(op: Spec.Op) returns (out: Spec.Out)
      requires Valid() && Spec.Fits(Abs(), maxSize, op)
      modifies this, buffer
      ensures Valid() && (buffer == old(buffer) || fresh(buffer))
      ensures (Abs(), out) == Spec.Step(old(Abs()), maxSize, op)
    {
      match op
      case Put(c, room) =>
        var r := Sputc(c, room);
        out := Reply(r);
      case Get =>
        var r := Sbumpc();
        out := Answer(r);
      case Peek =>
        var r := Sgetc();
        out := Answer(r);
      case Data =>
        var bytes := Data();
        out := Spec.Seen(bytes);
      case Receive(n, bytes, room) =>
        out := Receive(n, bytes, room);
      case Consume(count) =>
        Discard(count);
        out := Spec.Done;
    }

    /** One operation of a run, which brings the rest of the run one operation closer to its end. */
    method Advance(op: Spec.Op, ghost rest: seq<Spec.Op>, ghost outs: seq<Spec.Out>,
                   ghost whole: (Spec.Layout, seq<Spec.Out>)) returns (out: Spec.Out)
      requires Valid() && rest != [] && op == rest[0] && Spec.Midway(Abs(), maxSize, rest, outs, whole)
      modifies this, buffer
      ensures Valid() && (buffer == old(buffer) || fresh(buffer))
      ensures Spec.Midway(Abs(), maxSize, rest[1..], outs + [out], whole)
    {
      Spec.MidwayStep(Abs(), maxSize, rest, outs, whole);
      out := Apply(op);
    }
  }

  /** A whole run on a fresh buffer: its answers, the bytes left and the final array length. */
  method Simulate(max: SizeT, base: SizeT, ops: seq<Spec.Op>) returns (outs: seq<Spec.Out>, left: seq<byte>, length: nat)
    requires 0 < base <= SIZE_MAX - Spec.BUFFER_DELTA
    requires Spec.RunFits(Spec.Initial(max, base), max, ops)
    ensures var (l, answers) := Spec.Run(Spec.Initial(max, base), max, ops);
            (outs, left, length) == (answers, l.queue, Max(1, l.end))
    ensures |left| <= max
    ensures length == Max(1, Max(Min(max, 128), Spec.PeakDemand(Spec.Initial(max, base), max, ops)))
    ensures Spec.RunClean(Spec.Initial(max, base), max, ops) ==>
              (left, outs) == Spec.FifoRun([], max, ops, Spec.Refusals(Spec.Initial(max, base), max, ops))
  {
    outs, left, length := Drive(max, base, ops);
    ghost var start := Spec.Initial(max, base);
    Spec.EndIsPeakDemand(start, max, ops);
    Spec.RunKeepsWellFormed(start, max, ops);
    if Spec.RunClean(start, max, ops) {
      Spec.RunRefinesFifo(start, max, ops);
    }
  }

  /** The loop of Simulate: the object goes through the layouts that the specification lists. */
  method Drive(max: SizeT, base: SizeT, ops: seq<Spec.Op>) returns (outs: seq<Spec.Out>, left: seq<byte>, length: nat)
    requires 0 < base <= SIZE_MAX - Spec.BUFFER_DELTA
    requires Spec.RunFits(Spec.Initial(max, base), max, ops)
    ensures var (l, answers) := Spec.Run(Spec.Initial(max, base), max, ops);
            (outs, left, length) == (answers, l.queue, Max(1, l.end))
  {
    var sb := new StreamBuf(max, base);
    ghost var whole := Spec.Run(sb.Abs(), max, ops);
    Spec.MidwayEnds(sb.Abs(), max, ops, [], whole);
    outs := [];
    var i := 0;
    assert ops[0..] == ops;
    while i < |ops|
      invariant 0 <= i <= |ops|
      invariant fresh(sb) && fresh(sb.buffer) && sb.Valid() && sb.maxSize == max
      invariant Spec.Midway(sb.Abs(), max, ops[i..], outs, whole)
    {
      var out := sb.Advance(ops[i], ops[i..], outs, whole);
      assert ops[i..][1..] == ops[i + 1..];
      outs, i := outs + [out], i + 1;
    }
    assert ops[i..] == [];
    Spec.MidwayEnds(sb.Abs(), max, ops, outs, whole);
    left := sb.Data();
    length := sb.buffer.Length;
  }
}
