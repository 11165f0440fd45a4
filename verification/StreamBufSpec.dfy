/**
 The observable behaviour of asio::basic_streambuf, on values: what each operation does to the input
 sequence and to the two positions that decide when the buffer is shifted or grown. StreamBuf proves the
 array implementation against this; the lemmas here say what that behaviour is worth to a caller.
 */
module StreamBufSpec {
  import opened Bytes

  const BUFFER_DELTA: nat := 128

  /** std::vector<char>::max_size(), PTRDIFF_MAX. */
  const VECTOR_MAX: SizeT := 0x7FFF_FFFF_FFFF_FFFF

  /**
   queue: the bytes in [gptr, pptr); front: gptr - &buffer_[0]; end: epptr - &buffer_[0]; base: the address of
   buffer_[0].
   */
  datatype Layout = Layout(queue: seq<byte>, front: nat, end: nat, base: SizeT)

  /** What the allocator answers if the array has to grow: nothing, or where the longer array is. */
  datatype Room = NoMemory | At(base: SizeT)

  datatype Error = LengthError | BadAlloc

  datatype Op =
    | Put(c: byte, room: Room)                          // sputc
    | Get                                               // sbumpc
    | Peek                                              // sgetc
    | Data                                              // data()
    | Receive(n: SizeT, bytes: seq<byte>, room: Room)   // prepare(n), fill with bytes, commit(|bytes|)
    | Consume(count: SizeT)                             // consume(count)

  datatype Out = Done | Got(c: byte) | Eof | Seen(bytes: seq<byte>) | Threw(error: Error)

  ghost predicate WellFormed(l: Layout, max: SizeT) {
    && l.front + |l.queue| <= l.end <= max
    && l.end <= VECTOR_MAX
    && 0 < l.base && l.base + l.end <= SIZE_MAX
  }

  function Initial(max: SizeT, base: SizeT): Layout { Layout([], 0, Min(max, BUFFER_DELTA), base) }

  // ----- What a failed reserve leaves behind -----

  /**
   The bytes found in [gptr, pptr) after the queue was shifted down by g positions while the positions
   stayed where they were.
   */
  function Smear(q: seq<byte>, g: nat): seq<byte> {
    if g < |q| then q[g..] + q[|q| - g..] else q
  }

  /** An array whose bytes [g, p) were moved to its start. */
  function Shifted(bytes: seq<byte>, g: nat, p: nat): seq<byte>
    requires g <= p <= |bytes|
  {
    bytes[g..p] + bytes[p - g..]
  }

  /** The queue is found at the start of the array, and its smeared image in the old window. */
  lemma {:induction false} ShiftedShows(bytes: seq<byte>, g: nat, p: nat)
    requires g <= p <= |bytes|
    ensures var now := Shifted(bytes, g, p);
            && |now| == |bytes|
            && now[..p - g] == bytes[g..p]
            && now[g..p] == Smear(bytes[g..p], g)
  {
    var now, q, size := Shifted(bytes, g, p), bytes[g..p], p - g;
    assert now[..size] == q;
    if g < size {
      assert forall i :: g <= i < size ==> now[i] == q[i];
      assert forall i :: size <= i < p ==> now[i] == bytes[i] == q[i - g];
      assert now[g..p] == q[g..] + q[size - g..];
    } else {
      assert forall i :: g <= i < p ==> now[i] == bytes[i];
      assert now[g..p] == q;
    }
  }

  /** The queue repeats with period g, so shifting it by g in place is invisible. */
  predicate Periodic(q: seq<byte>, g: nat) {
    g < |q| ==> q[g..] == q[..|q| - g]
  }

  lemma {:induction false} SmearIntactIffPeriodic(q: seq<byte>, g: nat)
    ensures |Smear(q, g)| == |q|
    ensures Smear(q, g) == q <==> Periodic(q, g)
    ensures g == 0 || |q| <= g ==> Smear(q, g) == q
  {
    if g < |q| {
      assert Smear(q, g)[..|q| - g] == q[g..];
      assert q == q[..|q| - g] + q[|q| - g..];
    }
  }

  /** Whenever the shift overlaps (0 < g < size), some contents are damaged. */
  lemma {:induction false} SmearDamagesSome(size: nat, g: nat)
    requires 0 < g < size
    ensures exists q :: |q| == size && Smear(q, g) != q
  {
    var q := seq(size, i => if i == 0 then 1 as byte else 0);
    assert Smear(q, g)[0] == q[g] == 0;
    assert |q| == size && Smear(q, g) != q;
  }

  // ----- Reserving -----

  /** Why an array that ends at `end` cannot be made `need` bytes long, if it has to be longer and cannot. */
  function Refusal(end: nat, need: nat, room: Room): Option<Error> {
    if need <= end then None
    else if need > VECTOR_MAX then Some(LengthError)
    else if room.NoMemory? then Some(BadAlloc)
    else None
  }

  /** What reserve(n) throws, if anything, with size bytes in an array that ends at `end`. */
  function Rejected(size: nat, end: nat, max: SizeT, n: SizeT, room: Room): Option<Error> {
    if size + n > max then Some(LengthError) else Refusal(end, size + n, room)
  }

  function Rejection(l: Layout, max: SizeT, n: SizeT, room: Room): Option<Error> {
    Rejected(|l.queue|, l.end, max, n, room)
  }

  /** What reserve(n) leaves, whether it throws or not. */
  function Reserve(l: Layout, max: SizeT, n: SizeT, room: Room): Layout {
    var need := |l.queue| + n;
    if l.front + need <= l.end then l
    else if Rejection(l, max, n, room).Some? then l.(queue := Smear(l.queue, l.front))
    else if need <= l.end then l.(front := 0)
    else Layout(l.queue, 0, need, if room.At? then room.base else l.base)
  }

  /** What overflow asks reserve for when the put area is full. */
  function GrowthStep(size: nat, max: SizeT): SizeT {
    if size < max && max - size < BUFFER_DELTA then max - size else BUFFER_DELTA
  }

  /** What an operation asks reserve for, if it calls it. */
  function Asks(l: Layout, max: SizeT, op: Op): Option<SizeT> {
    match op
    case Put(_, _) => if l.front + |l.queue| == l.end then Some(GrowthStep(|l.queue|, max)) else None
    case Receive(n, _, _) => Some(n)
    case _ => None
  }

  // ----- Consuming -----

  /** gptr() + count exceeds the largest address. */
  predicate SumWraps(l: Layout, count: SizeT) {
    l.base + l.front + count > SIZE_MAX
  }

  /** What consume(count) gives to gbump, with gptr at an address: a wrapped sum is not above pptr, so not clamped. */
  function ConsumeCount(address: nat, size: nat, count: SizeT): SizeT {
    if address + count > SIZE_MAX then count else Min(count, size)
  }

  /** How far consume(count) moves gptr. */
  function ConsumeMove(l: Layout, count: SizeT): int {
    CastToInt(ConsumeCount(l.base + l.front, |l.queue|, count))
  }

  /** When that is what was asked for. */
  predicate ConsumesExactly(l: Layout, count: SizeT) {
    if SumWraps(l, count) then |l.queue| <= INT_MAX && count % 0x1_0000_0000 == |l.queue|
    else Min(count, |l.queue|) <= INT_MAX
  }

  /** consume(count) removes min(count, size()) bytes exactly under that condition. */
  lemma {:induction false} ConsumeMoveExact(l: Layout, max: SizeT, count: SizeT)
    requires WellFormed(l, max)
    ensures ConsumeMove(l, count) == Min(count, |l.queue|) <==> ConsumesExactly(l, count)
    ensures count <= |l.queue| <= INT_MAX ==> ConsumesExactly(l, count)
  {
    CastToIntExact(Min(count, |l.queue|));
  }

  /** consume(SIZE_MAX) never empties the input sequence: it moves gptr back by one. */
  lemma {:induction false} ConsumeAllMovesBack(l: Layout, max: SizeT)
    requires WellFormed(l, max)
    ensures ConsumeMove(l, SIZE_MAX) == -1 && !ConsumesExactly(l, SIZE_MAX)
    ensures |l.queue| == max ==> |l.queue| - ConsumeMove(l, SIZE_MAX) > max
  {
    assert SIZE_MAX % 0x1_0000_0000 == 0xFFFF_FFFF;
  }

  // ----- One operation -----

  function Step(l: Layout, max: SizeT, op: Op): (Layout, Out) {
    match op
    case Put(c, room) =>
      var n := Asks(l, max, op);
      if n.None? then (l.(queue := l.queue + [c]), Done) else
      var r, error := Reserve(l, max, n.value, room), Rejection(l, max, n.value, room);
      if error.Some? then (r, Threw(error.value)) else (r.(queue := r.queue + [c]), Done)
    case Get =>
      if l.queue == [] then (l, Eof) else (l.(queue := l.queue[1..], front := l.front + 1), Got(l.queue[0]))
    case Peek =>
      (l, if l.queue == [] then Eof else Got(l.queue[0]))
    case Data =>
      (l, Seen(l.queue))
    case Receive(n, bytes, room) =>
      var r, error := Reserve(l, max, n, room), Rejection(l, max, n, room);
      if error.Some? then (r, Threw(error.value)) else (r.(queue := r.queue + bytes), Done)
    case Consume(count) =>
      var m := Min(count, |l.queue|);
      (l.(queue := l.queue[m..], front := l.front + m), Done)
  }

  /** If the array grows, it is put where it ends below the last address. */
  predicate Placed(l: Layout, max: SizeT, op: Op) {
    Asks(l, max, op).Some? && op.room.At? ==>
      var need := |l.queue| + Asks(l, max, op).value;
      l.end < need <= Min(max, VECTOR_MAX) ==> 0 < op.room.base && op.room.base + need <= SIZE_MAX
  }

  /** Operations that the caller and the allocator may issue: a commit stays inside what was prepared. */
  predicate Asked(l: Layout, max: SizeT, op: Op) {
    Placed(l, max, op) && (op.Receive? ==> |op.bytes| <= op.n)
  }

  /** The byte counts that the operation gives to pbump and gbump are the ones that were meant. */
  predicate Exact(l: Layout, max: SizeT, op: Op) {
    && (op.Receive? && Rejection(l, max, op.n, op.room).None? ==> |op.bytes| <= INT_MAX)
    && (op.Consume? ==> ConsumesExactly(l, op.count))
  }

  /** The operations of which Step speaks. */
  predicate Fits(l: Layout, max: SizeT, op: Op) {
    Asked(l, max, op) && Exact(l, max, op)
  }

  /** In a buffer of at most INT_MAX bytes only a consume whose pointer sum wraps can miss its count. */
  lemma {:induction false} SmallBuffersFit(l: Layout, max: SizeT, op: Op)
    requires WellFormed(l, max) && max <= INT_MAX && Placed(l, max, op)
    ensures Fits(l, max, op) <==>
            && (op.Receive? ==> |op.bytes| <= op.n)
            && (op.Consume? ==> !SumWraps(l, op.count) || op.count % 0x1_0000_0000 == |l.queue|)
  {}

  lemma {:induction false} ReserveKeepsWellFormed(l: Layout, max: SizeT, n: SizeT, room: Room)
    requires WellFormed(l, max)
    requires room.At? && l.end < |l.queue| + n <= Min(max, VECTOR_MAX) ==>
               0 < room.base && room.base + |l.queue| + n <= SIZE_MAX
    ensures var r := Reserve(l, max, n, room);
            && WellFormed(r, max) && |r.queue| == |l.queue|
            && (Rejection(l, max, n, room).None? ==> r.queue == l.queue && r.front + |r.queue| + n <= r.end)
            && (Rejection(l, max, n, room).None? ==> r.end == Max(l.end, |l.queue| + n))
            && (Rejection(l, max, n, room).Some? ==> r == l.(queue := Smear(l.queue, l.front)))
  {
    SmearIntactIffPeriodic(l.queue, l.front);
  }

  lemma {:induction false} StepKeepsWellFormed(l: Layout, max: SizeT, op: Op)
    requires WellFormed(l, max) && Fits(l, max, op)
    ensures WellFormed(Step(l, max, op).0, max)
    ensures |Step(l, max, op).0.queue| <= max
  {
    if Asks(l, max, op).Some? {
      ReserveKeepsWellFormed(l, max, Asks(l, max, op).value, op.room);
    }
  }

  // ----- The simple queue it stands for -----

  /** A FIFO of at most max bytes, which may be refused the memory to take more: no buffer, no positions. */
  function FifoStep(q: seq<byte>, max: SizeT, op: Op, refusal: Option<Error>): (seq<byte>, Out) {
    match op
    case Put(c, _) =>
      if |q| == max then (q, Threw(LengthError))
      else if refusal.Some? then (q, Threw(refusal.value))
      else (q + [c], Done)
    case Get => if q == [] then (q, Eof) else (q[1..], Got(q[0]))
    case Peek => (q, if q == [] then Eof else Got(q[0]))
    case Data => (q, Seen(q))
    case Receive(n, bytes, _) =>
      if |q| + n > max then (q, Threw(LengthError))
      else if refusal.Some? then (q, Threw(refusal.value))
      else (q + bytes, Done)
    case Consume(count) => (q[Min(count, |q|)..], Done)
  }

  /**
   How long the array has to be for an operation: a prepare needs its n bytes, and a character that finds the put
   area full gets 128, or what max_size() leaves.
   */
  function Need(l: Layout, max: SizeT, op: Op): nat {
    match op
    case Put(_, _) =>
      if l.front + |l.queue| == l.end && |l.queue| < max then |l.queue| + Min(128, max - |l.queue|) else 0
    case Receive(n, _, _) => if |l.queue| + n <= max then |l.queue| + n else 0
    case _ => 0
  }

  /** The refusal that an operation meets: within max_size(), but the array would have to grow and cannot. */
  function RefusalOf(l: Layout, max: SizeT, op: Op): Option<Error> {
    if !(op.Put? || op.Receive?) || Need(l, max, op) <= l.end then None
    else if Need(l, max, op) > VECTOR_MAX then Some(LengthError)
    else if op.room.NoMemory? then Some(BadAlloc)
    else None
  }

  /** What reserve is asked for, if it is called, is that need; and what it throws is the limit or that refusal. */
  lemma {:induction false} AsksForNeed(l: Layout, max: SizeT, op: Op)
    requires WellFormed(l, max)
    ensures Asks(l, max, op).Some? ==>
              var n := Asks(l, max, op).value;
              && (|l.queue| + n <= max ==> Need(l, max, op) == |l.queue| + n)
              && (|l.queue| + n > max ==> Need(l, max, op) == 0 && (op.Put? ==> |l.queue| == max))
              && Rejection(l, max, n, op.room) ==
                 if |l.queue| + n > max then Some(LengthError) else RefusalOf(l, max, op)
    ensures Asks(l, max, op).None? ==> Need(l, max, op) == 0
  {}

  /**
   A reserve that throws after shifting a non-periodic queue over itself. It throws when max_size() is exceeded, or
   when the array would have to grow and cannot.
   */
  predicate Damaging(l: Layout, max: SizeT, op: Op) {
    FifoStep(l.queue, max, op, RefusalOf(l, max, op)).1.Threw? && !Periodic(l.queue, l.front)
  }

  /**
   One operation answers what the FIFO answers (so it throws exactly when the FIFO is too full or is refused
   memory), and leaves the queue the FIFO leaves exactly when it is not a damaging reserve.
   */
  lemma {:induction false} StepRefinesFifo(l: Layout, max: SizeT, op: Op)
    requires WellFormed(l, max) && Fits(l, max, op)
    ensures Step(l, max, op).1 == FifoStep(l.queue, max, op, RefusalOf(l, max, op)).1
    ensures Step(l, max, op).0.queue == FifoStep(l.queue, max, op, RefusalOf(l, max, op)).0 <==> !Damaging(l, max, op)
  {
    SmearIntactIffPeriodic(l.queue, l.front);
    AsksForNeed(l, max, op);
    if Asks(l, max, op).Some? {
      ReserveKeepsWellFormed(l, max, Asks(l, max, op).value, op.room);
    }
  }

  /** Nothing is damaged while the shift does not overlap or the array is long enough already. */
  predicate SafeReserve(l: Layout, max: SizeT, op: Op) {
    var n := Asks(l, max, op);
    n.Some? ==> l.front == 0 || |l.queue| <= l.front || |l.queue| + n.value <= l.end
  }

  lemma {:induction false} SafeReserveIsClean(l: Layout, max: SizeT, op: Op)
    requires WellFormed(l, max) && SafeReserve(l, max, op)
    ensures !Damaging(l, max, op)
  {
    AsksForNeed(l, max, op);
    SmearIntactIffPeriodic(l.queue, l.front);
  }

  /**
   Putting a character throws exactly when the buffer is full, or the put area is and the array cannot grow. A
   full buffer starts at the start of the array, so nothing has moved then.
   */
  lemma {:induction false} PutThrowsIff(l: Layout, max: SizeT, c: byte, room: Room)
    requires WellFormed(l, max)
    ensures var need := |l.queue| + Min(128, max - |l.queue|);
            var (after, out) := Step(l, max, Put(c, room));
            && (out.Threw? <==>
                  || |l.queue| == max
                  || (l.front + |l.queue| == l.end && need > l.end && (need > VECTOR_MAX || room.NoMemory?)))
            && (!out.Threw? ==>
                  after.end == if l.front + |l.queue| == l.end then Max(l.end, need) else l.end)
    ensures |l.queue| == max ==> l.front == 0 && Step(l, max, Put(c, room)) == (l, Threw(LengthError))
  {
    SmearIntactIffPeriodic(l.queue, l.front);
  }

  lemma {:induction false} PutRefused(l: Layout, max: SizeT, c: byte, room: Room)
    requires WellFormed(l, max)
    ensures Step(l, max, Put(c, room)).1.Threw? <==> |l.queue| == max || RefusalOf(l, max, Put(c, room)).Some?
    ensures |l.queue| == max ==> Step(l, max, Put(c, room)) == (l, Threw(LengthError))
  {
    PutThrowsIff(l, max, c, room);
  }

  /** Preparing throws exactly when max_size() is exceeded, or the array has to grow and cannot. */
  lemma {:induction false} ReceiveThrowsIff(l: Layout, max: SizeT, n: SizeT, bytes: seq<byte>, room: Room)
    requires WellFormed(l, max)
    ensures var need := |l.queue| + n;
            var (after, out) := Step(l, max, Receive(n, bytes, room));
            && (out.Threw? <==> need > max || (need > l.end && (need > VECTOR_MAX || room.NoMemory?)))
            && (out.Threw? ==> out.error == if need > max || need > VECTOR_MAX then LengthError else BadAlloc)
            && (!out.Threw? ==> after.end == Max(l.end, need))
            && (!out.Threw? && l.front + need > l.end ==> after.front == 0)
  {
    SmearIntactIffPeriodic(l.queue, l.front);
  }

  /** A put that is refused memory damages every queue that was shifted over itself. */
  lemma {:induction false} StarvedPutDamages(l: Layout, max: SizeT, c: byte)
    requires WellFormed(l, max) && l.front + |l.queue| == l.end && |l.queue| < max
    requires |l.queue| + Min(128, max - |l.queue|) > l.end && !Periodic(l.queue, l.front)
    ensures var (after, out) := Step(l, max, Put(c, NoMemory));
            out.Threw? && after == l.(queue := Smear(l.queue, l.front)) && after.queue != l.queue
  {
    SmearIntactIffPeriodic(l.queue, l.front);
  }

  // ----- Runs -----

  function Run(l: Layout, max: SizeT, ops: seq<Op>): (Layout, seq<Out>)
    decreases |ops|
  {
    if ops == [] then (l, [])
    else
      var (next, out) := Step(l, max, ops[0]);
      var (last, outs) := Run(next, max, ops[1..]);
      (last, [out] + outs)
  }

  predicate RunFits(l: Layout, max: SizeT, ops: seq<Op>)
    decreases |ops|
  {
    ops != [] ==> Fits(l, max, ops[0]) && RunFits(Step(l, max, ops[0]).0, max, ops[1..])
  }

  /** No step of the run is a damaging reserve. */
  predicate RunClean(l: Layout, max: SizeT, ops: seq<Op>)
    decreases |ops|
  {
    ops != [] ==> !Damaging(l, max, ops[0]) && RunClean(Step(l, max, ops[0]).0, max, ops[1..])
  }

  /** The refusals met along a run. */
  function Refusals(l: Layout, max: SizeT, ops: seq<Op>): (refusals: seq<Option<Error>>)
    ensures |refusals| == |ops|
    decreases |ops|
  {
    if ops == [] then []
    else [RefusalOf(l, max, ops[0])] + Refusals(Step(l, max, ops[0]).0, max, ops[1..])
  }

  function FifoRun(q: seq<byte>, max: SizeT, ops: seq<Op>, refusals: seq<Option<Error>>): (seq<byte>, seq<Out>)
    requires |refusals| == |ops|
    decreases |ops|
  {
    if ops == [] then (q, [])
    else
      var (next, out) := FifoStep(q, max, ops[0], refusals[0]);
      var (last, outs) := FifoRun(next, max, ops[1..], refusals[1..]);
      (last, [out] + outs)
  }

  /** Over every run without a damaging reserve, the buffer and the FIFO cannot be told apart. */
  lemma {:induction false} RunRefinesFifo(l: Layout, max: SizeT, ops: seq<Op>)
    requires WellFormed(l, max) && RunFits(l, max, ops) && RunClean(l, max, ops)
    ensures Run(l, max, ops).1 == FifoRun(l.queue, max, ops, Refusals(l, max, ops)).1
    ensures Run(l, max, ops).0.queue == FifoRun(l.queue, max, ops, Refusals(l, max, ops)).0
    decreases |ops|
  {
    if ops != [] {
      var next := Step(l, max, ops[0]).0;
      StepRefinesFifo(l, max, ops[0]);
      StepKeepsWellFormed(l, max, ops[0]);
      RunRefinesFifo(next, max, ops[1..]);
      assert Refusals(l, max, ops)[1..] == Refusals(next, max, ops[1..]);
    }
  }

  /** size() after an operation, whatever the casts do to its counts. */
  function SizeAfter(l: Layout, max: SizeT, op: Op): int {
    match op
    case Receive(n, bytes, room) =>
      if Rejection(l, max, n, room).None? then |l.queue| + CastToInt(Min(|bytes|, n)) else |l.queue|
    case Consume(count) => |l.queue| - ConsumeMove(l, count)
    case _ => |Step(l, max, op).0.queue|
  }

  /** An operation whose counts are not exact leaves another size than the FIFO has. */
  lemma {:induction false} SizeAgreesIffExact(l: Layout, max: SizeT, op: Op)
    requires WellFormed(l, max) && Asked(l, max, op)
    ensures SizeAfter(l, max, op) == |FifoStep(l.queue, max, op, RefusalOf(l, max, op)).0| <==> Exact(l, max, op)
  {
    if op.Consume? {
      ConsumeMoveExact(l, max, op.count);
    } else if op.Receive? {
      CastToIntExact(|op.bytes|);
    } else {
      StepRefinesFifo(l, max, op);
      SmearIntactIffPeriodic(l.queue, l.front);
    }
  }

  /** Every operation is one that may be issued, as long as those before it were exact. */
  predicate RunAsked(l: Layout, max: SizeT, ops: seq<Op>)
    decreases |ops|
  {
    ops != [] ==>
      && Asked(l, max, ops[0])
      && (Exact(l, max, ops[0]) ==> RunAsked(Step(l, max, ops[0]).0, max, ops[1..]))
  }

  /**
   Buffer and FIFO hold the same queue before, between and after all the operations. Where already size() differs
   after an operation they do not, and Step says nothing of the bytes.
   */
  ghost predicate InStep(l: Layout, q: seq<byte>, max: SizeT, ops: seq<Op>)
    decreases |ops|
  {
    l.queue == q &&
    (ops != [] ==>
       var fifo := FifoStep(q, max, ops[0], RefusalOf(l, max, ops[0])).0;
       SizeAfter(l, max, ops[0]) == |fifo| && InStep(Step(l, max, ops[0]).0, fifo, max, ops[1..]))
  }

  /** They do so exactly when every count is exact and no step is a damaging reserve. */
  lemma {:induction false} InStepIffClean(l: Layout, max: SizeT, ops: seq<Op>)
    requires WellFormed(l, max) && RunAsked(l, max, ops)
    ensures InStep(l, l.queue, max, ops) <==> RunFits(l, max, ops) && RunClean(l, max, ops)
    decreases |ops|
  {
    if ops != [] {
      SizeAgreesIffExact(l, max, ops[0]);
      if Exact(l, max, ops[0]) {
        var next := Step(l, max, ops[0]).0;
        StepRefinesFifo(l, max, ops[0]);
        StepKeepsWellFormed(l, max, ops[0]);
        InStepIffClean(next, max, ops[1..]);
        if Damaging(l, max, ops[0]) {
          DifferentQueues(next, FifoStep(l.queue, max, ops[0], RefusalOf(l, max, ops[0])).0, max, ops[1..]);
        }
      }
    }
  }

  lemma {:induction false} DifferentQueues(l: Layout, q: seq<byte>, max: SizeT, ops: seq<Op>)
    requires l.queue != q
    ensures !InStep(l, q, max, ops)
  {}

  /** Whatever happened, damage included, the documented bound size() <= max_size() holds at the end. */
  lemma {:induction false} RunKeepsWellFormed(l: Layout, max: SizeT, ops: seq<Op>)
    requires WellFormed(l, max) && RunFits(l, max, ops)
    ensures WellFormed(Run(l, max, ops).0, max)
    ensures |Run(l, max, ops).0.queue| <= max
    ensures |Run(l, max, ops).1| == |ops|
    decreases |ops|
  {
    if ops != [] {
      StepKeepsWellFormed(l, max, ops[0]);
      RunKeepsWellFormed(Step(l, max, ops[0]).0, max, ops[1..]);
    }
  }

  /** Each reserve of the run is safe in itself, or stays within max_size() and is not refused memory. */
  predicate RunCareful(l: Layout, max: SizeT, ops: seq<Op>)
    decreases |ops|
  {
    ops != [] ==>
      && (SafeReserve(l, max, ops[0])
          || ((ops[0].Receive? ==> |l.queue| + ops[0].n <= max) && RefusalOf(l, max, ops[0]).None?))
      && RunCareful(Step(l, max, ops[0]).0, max, ops[1..])
  }

  lemma {:induction false} CarefulIsClean(l: Layout, max: SizeT, ops: seq<Op>)
    requires WellFormed(l, max) && RunFits(l, max, ops) && RunCareful(l, max, ops)
    ensures RunClean(l, max, ops)
    decreases |ops|
  {
    if ops != [] {
      StepKeepsWellFormed(l, max, ops[0]);
      if SafeReserve(l, max, ops[0]) {
        SafeReserveIsClean(l, max, ops[0]);
      } else if ops[0].Put? {
        PutThrowsIff(l, max, ops[0].c, ops[0].room);
      }
      CarefulIsClean(Step(l, max, ops[0]).0, max, ops[1..]);
    }
  }

  /**
   Two damaged runs: a prepare beyond max_size(), and one within it that no vector can be grown for. The FIFO
   still holds [2, 3].
   */
  lemma {:induction false} DamagingRunsExist(limit: SizeT, n: SizeT, base: SizeT, room: Room)
    requires (limit, n) == (4, 9) || (limit, n) == (SIZE_MAX, VECTOR_MAX + 1)
    requires 0 < base <= SIZE_MAX - BUFFER_DELTA
    ensures var ops := [Receive(3, [1, 2, 3], room)] + ([Get] + ([Receive(n, [], room)] + ([Data] + [])));
            && RunFits(Initial(limit, base), limit, ops)
            && Run(Initial(limit, base), limit, ops).1 == [Done, Got(1), Threw(LengthError), Seen([3, 3])]
            && FifoStep([2, 3], limit, Receive(n, [], room), Some(LengthError)) == ([2, 3], Threw(LengthError))
  {
    var l0 := Initial(limit, base);
    var l1, l2, l3 := l0.(queue := [1, 2, 3]), l0.(queue := [2, 3], front := 1), l0.(queue := [3, 3], front := 1);
    DamagingSteps(limit, n, base, room);
    DamagingPrepare(l2, limit, n, room);
    RunCons(l3, limit, Data, []);
    RunCons(l2, limit, Receive(n, [], room), [Data] + []);
    RunCons(l1, limit, Get, [Receive(n, [], room)] + ([Data] + []));
    RunCons(l0, limit, Receive(3, [1, 2, 3], room), [Get] + ([Receive(n, [], room)] + ([Data] + [])));
  }

  lemma {:induction false} RunCons(l: Layout, max: SizeT, op: Op, rest: seq<Op>)
    ensures RunFits(l, max, [op] + rest) <==> Fits(l, max, op) && RunFits(Step(l, max, op).0, max, rest)
    ensures Run(l, max, [op] + rest).1 == [Step(l, max, op).1] + Run(Step(l, max, op).0, max, rest).1
  {
    assert ([op] + rest)[1..] == rest;
  }

  lemma {:induction false} DamagingSteps(limit: SizeT, n: SizeT, base: SizeT, room: Room)
    requires 4 <= limit && 0 < base <= SIZE_MAX - BUFFER_DELTA
    ensures var l0 := Initial(limit, base);
            var l1, l2 := l0.(queue := [1, 2, 3]), l0.(queue := [2, 3], front := 1);
            && Fits(l0, limit, Receive(3, [1, 2, 3], room))
            && Step(l0, limit, Receive(3, [1, 2, 3], room)) == (l1, Done)
            && Step(l1, limit, Get) == (l2, Got(1))
  {
    assert [] + [1 as byte, 2, 3] == [1, 2, 3];
    assert [1 as byte, 2, 3][1..] == [2, 3];
  }

  lemma {:induction false} DamagingPrepare(l: Layout, limit: SizeT, n: SizeT, room: Room)
    requires l.queue == [2, 3] && l.front == 1 && l.end <= Min(limit, VECTOR_MAX)
    requires 2 + n > limit || n > VECTOR_MAX
    ensures Fits(l, limit, Receive(n, [], room))
    ensures Step(l, limit, Receive(n, [], room)) == (l.(queue := [3, 3]), Threw(LengthError))
  {
    assert Smear([2, 3], 1) == [3, 3];
  }

  lemma {:induction false} RunUnfolds(l: Layout, max: SizeT, ops: seq<Op>, refusals: seq<Option<Error>>)
    requires ops != [] && |refusals| == |ops|
    ensures Run(l, max, ops).0 == Run(Step(l, max, ops[0]).0, max, ops[1..]).0
    ensures Run(l, max, ops).1 == [Step(l, max, ops[0]).1] + Run(Step(l, max, ops[0]).0, max, ops[1..]).1
    ensures FifoRun(l.queue, max, ops, refusals).1 ==
            [FifoStep(l.queue, max, ops[0], refusals[0]).1] +
            FifoRun(FifoStep(l.queue, max, ops[0], refusals[0]).0, max, ops[1..], refusals[1..]).1
  {}

  /** After the answers so far, the rest of the operations lead from l to the end of the whole run. */
  ghost predicate Midway(l: Layout, max: SizeT, rest: seq<Op>, outs: seq<Out>, whole: (Layout, seq<Out>)) {
    RunFits(l, max, rest) && Run(l, max, rest).0 == whole.0 && outs + Run(l, max, rest).1 == whole.1
  }

  lemma {:induction false} MidwayEnds(l: Layout, max: SizeT, ops: seq<Op>, outs: seq<Out>, whole: (Layout, seq<Out>))
    ensures RunFits(l, max, ops) ==> Midway(l, max, ops, [], Run(l, max, ops))
    ensures Midway(l, max, [], outs, whole) ==> whole == (l, outs)
  {
    assert [] + Run(l, max, ops).1 == Run(l, max, ops).1;
    assert outs + [] == outs;
  }

  lemma {:induction false} MidwayStep(l: Layout, max: SizeT, rest: seq<Op>, outs: seq<Out>, whole: (Layout, seq<Out>))
    requires rest != [] && Midway(l, max, rest, outs, whole)
    ensures Fits(l, max, rest[0])
    ensures Midway(Step(l, max, rest[0]).0, max, rest[1..], outs + [Step(l, max, rest[0]).1], whole)
  {
    RunUnfolds(l, max, rest, seq(|rest|, _ => None));
    var (next, out) := Step(l, max, rest[0]);
    Assoc(outs, [out], Run(next, max, rest[1..]).1);
  }

  // ----- Conservation -----

  /** The bytes an operation adds to the queue: those it did not throw away. */
  function PutBy(l: Layout, max: SizeT, op: Op): seq<byte> {
    if RefusalOf(l, max, op).Some? then [] else
    match op
    case Put(c, _) => if |l.queue| < max then [c] else []
    case Receive(n, bytes, _) => if |l.queue| + n <= max then bytes else []
    case _ => []
  }

  /** The bytes an operation takes from the queue, by character or in bulk. */
  function TakenBy(q: seq<byte>, op: Op): seq<byte> {
    match op
    case Get => q[..Min(1, |q|)]
    case Consume(count) => q[..Min(count, |q|)]
    case _ => []
  }

  /** Everything put in, and everything taken out, along a run of the buffer. */
  function Traffic(l: Layout, max: SizeT, ops: seq<Op>): (seq<byte>, seq<byte>)
    decreases |ops|
  {
    if ops == [] then ([], [])
    else
      var (put, taken) := Traffic(Step(l, max, ops[0]).0, max, ops[1..]);
      (PutBy(l, max, ops[0]) + put, TakenBy(l.queue, ops[0]) + taken)
  }

  lemma {:induction false} StepConservesBytes(l: Layout, max: SizeT, op: Op)
    requires WellFormed(l, max) && Fits(l, max, op) && !Damaging(l, max, op)
    ensures TakenBy(l.queue, op) + Step(l, max, op).0.queue == l.queue + PutBy(l, max, op)
  {
    StepRefinesFifo(l, max, op);
  }

  lemma {:induction false} ChainConservation(taken: seq<byte>, takens: seq<byte>, left: seq<byte>, next: seq<byte>,
                          queue: seq<byte>, put: seq<byte>, puts: seq<byte>)
    requires taken + next == queue + put
    requires takens + left == next + puts
    ensures (taken + takens) + left == queue + (put + puts)
  {
    assert (taken + takens) + left == taken + (takens + left);
    assert taken + (next + puts) == (taken + next) + puts;
    assert (queue + put) + puts == queue + (put + puts);
  }

  /** What was taken out, followed by what is left, is what was there followed by what was put in. */
  lemma {:induction false} RunConservesBytes(l: Layout, max: SizeT, ops: seq<Op>)
    requires WellFormed(l, max) && RunFits(l, max, ops) && RunClean(l, max, ops)
    ensures Traffic(l, max, ops).1 + Run(l, max, ops).0.queue == l.queue + Traffic(l, max, ops).0
    decreases |ops|
  {
    if ops != [] {
      var next := Step(l, max, ops[0]).0;
      StepConservesBytes(l, max, ops[0]);
      StepKeepsWellFormed(l, max, ops[0]);
      RunConservesBytes(next, max, ops[1..]);
      var (puts, takens) := Traffic(next, max, ops[1..]);
      ChainConservation(TakenBy(l.queue, ops[0]), takens, Run(next, max, ops[1..]).0.queue, next.queue,
                        l.queue, PutBy(l, max, ops[0]), puts);
    }
  }

  // ----- High-water mark -----

  /** The end position that an operation successfully reserves. */
  function Demand(l: Layout, max: SizeT, op: Op): nat {
    if RefusalOf(l, max, op).None? then Need(l, max, op) else 0
  }

  function PeakDemand(l: Layout, max: SizeT, ops: seq<Op>): nat
    decreases |ops|
  {
    if ops == [] then 0
    else Max(Demand(l, max, ops[0]), PeakDemand(Step(l, max, ops[0]).0, max, ops[1..]))
  }

  /** The array is exactly as long as the largest demand so far: neither shifting nor throwing grows it. */
  lemma {:induction false} EndIsPeakDemand(l: Layout, max: SizeT, ops: seq<Op>)
    requires WellFormed(l, max) && RunFits(l, max, ops)
    ensures Run(l, max, ops).0.end == Max(l.end, PeakDemand(l, max, ops))
    decreases |ops|
  {
    if ops != [] {
      StepKeepsWellFormed(l, max, ops[0]);
      AsksForNeed(l, max, ops[0]);
      if Asks(l, max, ops[0]).Some? {
        ReserveKeepsWellFormed(l, max, Asks(l, max, ops[0]).value, ops[0].room);
      }
      EndIsPeakDemand(Step(l, max, ops[0]).0, max, ops[1..]);
    }
  }

  // ----- read_size_helper -----

  /** The preferred read size for a buffer of the given capacity, size and maximum. */
  function ReadSize(capacity: SizeT, size: SizeT, max: SizeT, wanted: SizeT): SizeT
    requires size <= capacity && size <= max
  {
    var spare: SizeT := capacity - size;
    var room: SizeT := max - size;
    Min(Max(512, spare), Min(wanted, room))
  }

  /**
   Preparing the preferred read size throws exactly when the array would have to grow and cannot, never for the
   limit; and the size is positive whenever something is wanted and fits.
   */
  lemma {:induction false} ReadSizeIsSafe(l: Layout, max: SizeT, capacity: SizeT, wanted: SizeT, room: Room)
    requires WellFormed(l, max) && l.end <= capacity
    ensures var n := ReadSize(capacity, |l.queue|, max, wanted);
            && |l.queue| + n <= max
            && Rejection(l, max, n, room) == Refusal(l.end, |l.queue| + n, room)
            && n <= wanted
            && (n > 0 <==> wanted > 0 && |l.queue| < max)
            && (n < wanted ==> |l.queue| + n == max || n >= 512)
  {}

  /**
   The preferred read size is the largest that is wanted, that max_size() leaves room for, and that is at most 512
   or fits the capacity.
   */
  lemma {:induction false} ReadSizeIsLargest(capacity: SizeT, size: SizeT, max: SizeT, wanted: SizeT, other: SizeT)
    requires size <= capacity && size <= max
    ensures var n := ReadSize(capacity, size, max, wanted);
            n <= wanted && size + n <= max && (n <= 512 || size + n <= capacity)
    ensures other <= wanted && size + other <= max && (other <= 512 || size + other <= capacity) ==>
              other <= ReadSize(capacity, size, max, wanted)
  {}
}
