/**
 The positions of a basic_streambuf under any sequence of calls, as plain integers: when gptr, pptr and epptr stay
 in order, and size() within max_size(), although commit and consume cast their counts to int.
 */
module StreamBufPositions {
  import opened Bytes
  import opened StreamBufSpec

  /** Offsets from &buffer_[0], and the address of buffer_[0]. */
  datatype Positions = Positions(gptr: int, pptr: int, epptr: int, base: SizeT)

  datatype Move =
    | Append(room: Room)             // sputc
    | Take                           // sbumpc
    | Prepare(n: SizeT, room: Room)
    | Commit(n: SizeT)
    | Skip(n: SizeT)                 // consume

  ghost predicate Ordered(p: Positions, max: SizeT) {
    && 0 <= p.gptr <= p.pptr <= p.epptr <= max
    && p.epptr <= VECTOR_MAX && 0 < p.base && p.base + p.epptr <= SIZE_MAX
  }

  function SizeOf(p: Positions): int { p.pptr - p.gptr }

  function PositionsOf(l: Layout): Positions { Positions(l.front, l.front + |l.queue|, l.end, l.base) }

  function Start(max: SizeT, base: SizeT): Positions { PositionsOf(Initial(max, base)) }

  /** reserve(n), with what it throws, if anything. */
  function Reserved(p: Positions, max: SizeT, n: SizeT, room: Room): (Positions, Option<Error>)
    requires Ordered(p, max)
  {
    var need := SizeOf(p) + n;
    var error := Rejected(SizeOf(p), p.epptr, max, n, room);
    if n <= p.epptr - p.pptr then (p, None)
    else if error.Some? then (p, error)
    else (Positions(0, SizeOf(p), Max(p.epptr, need), if need > p.epptr && room.At? then room.base else p.base), None)
  }

  /** What commit(n) gives to pbump. */
  function CommitCount(p: Positions, max: SizeT, n: SizeT): SizeT
    requires Ordered(p, max)
  {
    Min(n, p.epptr - p.pptr)
  }

  /** What consume(n) gives to gbump. */
  function SkipCount(p: Positions, max: SizeT, n: SizeT): SizeT
    requires Ordered(p, max)
  {
    ConsumeCount(p.base + p.gptr, SizeOf(p), n)
  }

  function After(p: Positions, max: SizeT, m: Move): Positions
    requires Ordered(p, max)
  {
    match m
    case Append(room) =>
      if p.pptr < p.epptr then p.(pptr := p.pptr + 1) else
      var (r, error) := Reserved(p, max, GrowthStep(SizeOf(p), max), room);
      if error.Some? then r else r.(pptr := r.pptr + 1)
    case Take => if p.gptr < p.pptr then p.(gptr := p.gptr + 1) else p
    case Prepare(n, room) => Reserved(p, max, n, room).0
    case Commit(n) => p.(pptr := p.pptr + CastToInt(CommitCount(p, max, n)))
    case Skip(n) => p.(gptr := p.gptr + CastToInt(SkipCount(p, max, n)))
  }

  /** If the array grows, it is put where it ends below the last address. */
  ghost predicate Allowed(p: Positions, max: SizeT, m: Move)
    requires Ordered(p, max)
  {
    (m.Prepare? || m.Append?) && m.room.At? ==>
      var need := SizeOf(p) + if m.Prepare? then m.n else GrowthStep(SizeOf(p), max);
      p.epptr < need <= Min(max, VECTOR_MAX) ==> 0 < m.room.base && m.room.base + need <= SIZE_MAX
  }

  // ----- Exactly when the positions stay in order -----

  const INT_RANGE: int := 0x1_0000_0000

  /** The low 32 bits of the count, read as an int, do not carry a position past its neighbours. */
  predicate Stays(p: Positions, max: SizeT, m: Move)
    requires Ordered(p, max)
  {
    match m
    case Commit(n) =>
      var low := CommitCount(p, max, n) % INT_RANGE;
      low <= INT_MAX || INT_RANGE - low <= SizeOf(p)
    case Skip(n) =>
      var low := SkipCount(p, max, n) % INT_RANGE;
      if low <= INT_MAX then low <= SizeOf(p) else INT_RANGE - low <= p.gptr
    case _ => true
  }

  lemma {:induction false} OrderedIffStays(p: Positions, max: SizeT, m: Move)
    requires Ordered(p, max) && Allowed(p, max, m)
    ensures Ordered(After(p, max, m), max) <==> Stays(p, max, m)
  {}

  /** The same for the documented bound alone: 0 <= size() <= max_size(). */
  predicate Bounded(p: Positions, max: SizeT, m: Move)
    requires Ordered(p, max)
  {
    match m
    case Commit(n) => Stays(p, max, m)
    case Skip(n) =>
      var low := SkipCount(p, max, n) % INT_RANGE;
      if low <= INT_MAX then low <= SizeOf(p) else SizeOf(p) + INT_RANGE - low <= max
    case _ => true
  }

  lemma {:induction false} SizeBoundIff(p: Positions, max: SizeT, m: Move)
    requires Ordered(p, max) && Allowed(p, max, m)
    ensures 0 <= SizeOf(After(p, max, m)) <= max <==> Bounded(p, max, m)
  {}

  /** Below 2^31 bytes commit always stays, and consume unless its pointer sum wraps. */
  lemma {:induction false} SmallCountsStay(p: Positions, max: SizeT, m: Move)
    requires Ordered(p, max) && p.epptr <= INT_MAX
    requires m.Skip? ==> p.base + p.gptr + m.n <= SIZE_MAX
    ensures Stays(p, max, m)
  {}

  // ----- Runs -----

  ghost predicate AllAllowed(p: Positions, max: SizeT, ms: seq<Move>)
    requires Ordered(p, max)
    decreases |ms|
  {
    ms != [] ==>
      && Allowed(p, max, ms[0])
      && (Ordered(After(p, max, ms[0]), max) ==> AllAllowed(After(p, max, ms[0]), max, ms[1..]))
  }

  /** The positions are in order before, between and after all the moves. */
  ghost predicate AlwaysOrdered(p: Positions, max: SizeT, ms: seq<Move>)
    decreases |ms|
  {
    Ordered(p, max) && (ms != [] ==> AlwaysOrdered(After(p, max, ms[0]), max, ms[1..]))
  }

  /** Each move stays, as long as those before it did. */
  ghost predicate AllStay(p: Positions, max: SizeT, ms: seq<Move>)
    requires Ordered(p, max)
    decreases |ms|
  {
    ms != [] ==>
      && Stays(p, max, ms[0])
      && (Ordered(After(p, max, ms[0]), max) ==> AllStay(After(p, max, ms[0]), max, ms[1..]))
  }

  lemma {:induction false} AlwaysOrderedIff(p: Positions, max: SizeT, ms: seq<Move>)
    requires Ordered(p, max) && AllAllowed(p, max, ms)
    ensures AlwaysOrdered(p, max, ms) <==> AllStay(p, max, ms)
    decreases |ms|
  {
    if ms != [] {
      OrderedIffStays(p, max, ms[0]);
      if Ordered(After(p, max, ms[0]), max) {
        AlwaysOrderedIff(After(p, max, ms[0]), max, ms[1..]);
      }
    }
  }

  /** After that, and at every moment before: size() <= max_size(). */
  function AfterAll(p: Positions, max: SizeT, ms: seq<Move>): Positions
    requires AlwaysOrdered(p, max, ms)
    decreases |ms|
  {
    if ms == [] then p else AfterAll(After(p, max, ms[0]), max, ms[1..])
  }

  lemma {:induction false} RunKeepsBound(p: Positions, max: SizeT, ms: seq<Move>)
    requires Ordered(p, max) && AllAllowed(p, max, ms) && AllStay(p, max, ms)
    ensures AlwaysOrdered(p, max, ms)
    ensures 0 <= SizeOf(AfterAll(p, max, ms)) <= max
    decreases |ms|
  {
    AlwaysOrderedIff(p, max, ms);
    if ms != [] {
      RunKeepsBound(After(p, max, ms[0]), max, ms[1..]);
    }
  }

  // ----- Failing inputs -----

  /** prepare(max), commit(max), consume(SIZE_MAX): size() is max_size() + 1, and gptr in front of the array. */
  lemma {:induction false} ConsumeExceedsMaxSize(max: SizeT, base: SizeT, room: Room)
    requires 0 < max <= BUFFER_DELTA && 0 < base <= SIZE_MAX - BUFFER_DELTA
    ensures var full := After(After(Start(max, base), max, Prepare(max, room)), max, Commit(max));
            && full == Positions(0, max, max, base)
            && After(full, max, Skip(SIZE_MAX)) == Positions(-1, max, max, base)
            && !AlwaysOrdered(Start(max, base), max, [Prepare(max, room), Commit(max), Skip(SIZE_MAX)])
  {
    var start, full := Start(max, base), Positions(0, max, max, base);
    assert SIZE_MAX % INT_RANGE == 0xFFFF_FFFF;
    CastToIntExact(max);
    assert After(start, max, Prepare(max, room)) == start && After(start, max, Commit(max)) == full;
    var last, ms := [Skip(SIZE_MAX)], [Commit(max), Skip(SIZE_MAX)];
    assert last[1..] == [] && ms[1..] == last && [Prepare(max, room), Commit(max), Skip(SIZE_MAX)][1..] == ms;
    assert !AlwaysOrdered(full, max, last);
    assert !AlwaysOrdered(start, max, ms);
  }

  /** prepare(2^31), commit(2^31) on a new buffer: pptr is 2^31 in front of the array. */
  lemma {:induction false} CommitMovesBack(base: SizeT, grown: SizeT)
    requires 0 < base <= SIZE_MAX - BUFFER_DELTA && 0 < grown <= SIZE_MAX - 0x8000_0000
    ensures CastToInt(0x8000_0000) == -0x8000_0000
    ensures var ready := After(Start(SIZE_MAX, base), SIZE_MAX, Prepare(0x8000_0000, At(grown)));
            && ready == Positions(0, 0, 0x8000_0000, grown)
            && After(ready, SIZE_MAX, Commit(0x8000_0000)) == Positions(0, -0x8000_0000, 0x8000_0000, grown)
  {}

  // ----- The layouts have these positions -----

  /** The moves that an operation makes. */
  function Moves(l: Layout, max: SizeT, op: Op): seq<Move>
    requires Asked(l, max, op)
  {
    match op
    case Put(_, room) => [Append(room)]
    case Get => [Take]
    case Receive(n, bytes, room) =>
      if Rejection(l, max, n, room).Some? then [Prepare(n, room)] else [Prepare(n, room), Commit(|bytes|)]
    case Consume(count) => [Skip(count)]
    case _ => []
  }

  lemma {:induction false} MovesUnfold(p: Positions, max: SizeT, m: Move, n: Move)
    requires Ordered(p, max) && Ordered(After(p, max, m), max)
    ensures AlwaysOrdered(p, max, [m]) && AfterAll(p, max, [m]) == After(p, max, m)
    ensures Ordered(After(After(p, max, m), max, n), max) ==>
              AlwaysOrdered(p, max, [m, n]) && AfterAll(p, max, [m, n]) == After(After(p, max, m), max, n)
  {
    var q := After(p, max, m);
    assert [m][1..] == [] && [m, n][1..] == [n] && [n][1..] == [];
    assert AlwaysOrdered(q, max, []);
    if Ordered(After(q, max, n), max) {
      assert AlwaysOrdered(After(q, max, n), max, []);
      assert AlwaysOrdered(q, max, [n]) && AfterAll(q, max, [n]) == After(q, max, n);
    }
  }

  /** An operation whose counts are exact leaves the positions that its moves leave. */
  lemma {:induction false} StepMoves(l: Layout, max: SizeT, op: Op)
    requires WellFormed(l, max) && Fits(l, max, op)
    ensures AlwaysOrdered(PositionsOf(l), max, Moves(l, max, op))
    ensures AfterAll(PositionsOf(l), max, Moves(l, max, op)) == PositionsOf(Step(l, max, op).0)
  {
    var p, ms := PositionsOf(l), Moves(l, max, op);
    StepKeepsWellFormed(l, max, op);
    if op.Receive? {
      ReceiveMoves(l, max, op);
    } else if ms != [] {
      PlainMoves(l, max, op);
      MovesUnfold(p, max, ms[0], ms[0]);
    }
  }

  /** reserve moves the positions alone as it moves the layout, throwing or not. */
  lemma {:induction false} ReserveMoves(l: Layout, max: SizeT, n: SizeT, room: Room)
    requires WellFormed(l, max)
    ensures Reserved(PositionsOf(l), max, n, room) == (PositionsOf(Reserve(l, max, n, room)), Rejection(l, max, n, room))
  {
    SmearIntactIffPeriodic(l.queue, l.front);
  }

  lemma {:induction false} PlainMoves(l: Layout, max: SizeT, op: Op)
    requires WellFormed(l, max) && Fits(l, max, op) && (op.Put? || op.Get? || op.Consume?)
    ensures After(PositionsOf(l), max, Moves(l, max, op)[0]) == PositionsOf(Step(l, max, op).0)
  {
    if op.Put? {
      ReserveMoves(l, max, GrowthStep(|l.queue|, max), op.room);
    }
    if op.Consume? {
      ConsumeMoveExact(l, max, op.count);
    }
  }

  lemma {:induction false} ReceiveMoves(l: Layout, max: SizeT, op: Op)
    requires WellFormed(l, max) && Fits(l, max, op) && op.Receive?
    ensures AlwaysOrdered(PositionsOf(l), max, Moves(l, max, op))
    ensures AfterAll(PositionsOf(l), max, Moves(l, max, op)) == PositionsOf(Step(l, max, op).0)
  {
    var r, p, m := Reserve(l, max, op.n, op.room), PositionsOf(l), Prepare(op.n, op.room);
    ReserveMoves(l, max, op.n, op.room);
    ReserveKeepsWellFormed(l, max, op.n, op.room);
    if Rejection(l, max, op.n, op.room).None? {
      CastToIntExact(|op.bytes|);
      MovesUnfold(p, max, m, Commit(|op.bytes|));
    } else {
      MovesUnfold(p, max, m, m);
    }
  }

  /** Exact or not, SizeAfter is size() after the operation's moves. */
  lemma {:induction false} SizeAfterIsSize(l: Layout, max: SizeT, op: Op)
    requires WellFormed(l, max) && Asked(l, max, op)
    ensures op.Consume? ==> SizeOf(After(PositionsOf(l), max, Skip(op.count))) == SizeAfter(l, max, op)
    ensures op.Receive? ==>
              var r := After(PositionsOf(l), max, Prepare(op.n, op.room));
              && Ordered(r, max)
              && SizeAfter(l, max, op) ==
                 SizeOf(if Rejection(l, max, op.n, op.room).Some? then r else After(r, max, Commit(|op.bytes|)))
    ensures !op.Consume? && !op.Receive? ==> SizeOf(PositionsOf(Step(l, max, op).0)) == SizeAfter(l, max, op)
  {
    if op.Receive? {
      ReserveMoves(l, max, op.n, op.room);
      ReserveKeepsWellFormed(l, max, op.n, op.room);
    }
  }
}
