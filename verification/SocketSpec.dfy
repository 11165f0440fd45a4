/**
 The observable behaviour of asio::basic_socket_streambuf, on values. The socket, the clock and poll are a
 script: one event for each turn of a send or receive loop. When an operation's script runs out, its deadline
 has passed.
 */
module SocketSpec {
  import opened Bytes

  const BUFFER_SIZE: nat := 512
  const PUTBACK_MAX: nat := 8

  datatype Error = NoError | TimedOut | EndOfFile | System(code: int)

  /** One turn of the send loop. */
  datatype SendEvent =
    | Expired                     // the deadline has passed
    | Sent(count: nat)            // send returned count, or less if less was asked for
    | Blocked                     // would_block, then poll_write succeeded or timed out
    | PollFailed(code: int)       // would_block, then poll_write failed
    | Refused(code: int)          // any other error

  /** What a send loop did: how many bytes went out, and whether all did. */
  datatype Transfer = Transfer(sent: nat, ok: bool, error: Error)

  function Transmit(data: seq<byte>, script: seq<SendEvent>, ec: Error): (t: Transfer)
    ensures t.sent <= |data|
    ensures t.ok <==> t.sent == |data|
    decreases |script|
  {
    if data == [] then Transfer(0, true, ec)
    else if script == [] then Transfer(0, false, TimedOut)
    else
      match script[0]
      case Expired => Transfer(0, false, TimedOut)
      case Blocked => Transmit(data, script[1..], NoError)
      case PollFailed(code) => Transfer(0, false, System(code))
      case Refused(code) => Transfer(0, false, System(code))
      case Sent(count) =>
        var m := Min(count, |data|);
        if m == 0 then Transfer(0, false, NoError) else
        var t := Transmit(data[m..], script[1..], NoError);
        t.(sent := m + t.sent)
  }

  /** How many bytes the socket takes before the first event that ends a send loop. */
  function Reach(script: seq<SendEvent>): nat {
    if script == [] then 0
    else
      match script[0]
      case Blocked => Reach(script[1..])
      case Sent(count) => if count == 0 then 0 else count + Reach(script[1..])
      case _ => 0
  }

  /** The loop sends all it has, as far as the socket's script reaches. */
  lemma {:induction false} TransmitReaches(data: seq<byte>, script: seq<SendEvent>, ec: Error)
    ensures var t := Transmit(data, script, ec);
            t.sent == Min(|data|, Reach(script)) && (t.ok <==> |data| <= Reach(script))
    decreases |script|
  {
    if data != [] && script != [] {
      match script[0]
      case Blocked => TransmitReaches(data, script[1..], NoError);
      case Sent(count) => TransmitReaches(data[Min(count, |data|)..], script[1..], NoError);
      case _ =>
    }
  }

  /** The loop goes on after this event. */
  predicate Proceeds(e: SendEvent) { e.Blocked? || (e.Sent? && e.count > 0) }

  /** All that the first k events of the script let through. */
  function SentBy(script: seq<SendEvent>, k: nat): nat
    requires k <= |script|
  {
    if k == 0 then 0 else SentBy(script, k - 1) + if script[k - 1].Sent? then script[k - 1].count else 0
  }

  lemma {:induction false} SentByShift(script: seq<SendEvent>, k: nat)
    requires 0 < k <= |script|
    ensures SentBy(script, k) == (if script[0].Sent? then script[0].count else 0) + SentBy(script[1..], k - 1)
  {
    if k > 1 {
      SentByShift(script, k - 1);
    } else {
      assert SentBy(script, 0) == 0;
    }
  }

  /** Reach is what the events before the first one that ends the loop let through. */
  lemma {:induction false} ReachIsSum(script: seq<SendEvent>, k: nat)
    requires k <= |script| && forall i :: 0 <= i < k ==> Proceeds(script[i])
    requires k < |script| ==> !Proceeds(script[k])
    ensures Reach(script) == SentBy(script, k)
    decreases k
  {
    if k > 0 {
      assert forall i :: 0 <= i < k - 1 ==> script[1..][i] == script[i + 1];
      ReachIsSum(script[1..], k - 1);
      SentByShift(script, k);
    }
  }

  /** What ec_ is after the event that ended a send loop, or after a script that ran out. */
  function Outcome(script: seq<SendEvent>, k: nat): Error
    requires k <= |script|
  {
    if k == |script| then TimedOut else
    match script[k]
    case Expired => TimedOut
    case PollFailed(code) => System(code)
    case Refused(code) => System(code)
    case _ => NoError
  }

  /**
   A send loop that falls short reports the event that stopped it; one that sends all it has reports nothing, and
   with nothing to send it leaves ec_ alone.
   */
  lemma {:induction false} TransmitReports(data: seq<byte>, script: seq<SendEvent>, ec: Error, k: nat)
    requires k <= |script| && forall i :: 0 <= i < k ==> Proceeds(script[i])
    requires k < |script| ==> !Proceeds(script[k])
    ensures Transmit(data, script, ec).error ==
            if data == [] then ec else if |data| <= Reach(script) then NoError else Outcome(script, k)
    decreases k
  {
    if data != [] && k > 0 {
      assert forall i :: 0 <= i < k - 1 ==> script[1..][i] == script[i + 1];
      match script[0]
      case Blocked => TransmitReports(data, script[1..], NoError, k - 1);
      case Sent(count) => TransmitReports(data[Min(count, |data|)..], script[1..], NoError, k - 1);
    }
  }

  // ----- Output -----

  /** wire: bytes the socket took; area: [pbase, pptr); unbuffered: put_buffer_ was cleared. */
  datatype Output = Output(wire: seq<byte>, area: seq<byte>, unbuffered: bool, ec: Error)

  const FreshOutput: Output := Output([], [], false, NoError)

  /** overflow(c), with whether it returned something other than eof. */
  function Overflow(o: Output, c: IntType, script: seq<SendEvent>): (Output, bool) {
    if o.unbuffered && c.EOF? then (o, true) else
    var data := if o.unbuffered then [c.c] else o.area;
    var t := Transmit(data, script, o.ec);
    var after := o.(wire := o.wire + data[..t.sent], ec := t.error);
    if !t.ok then (after, false)
    else if o.unbuffered then (after, true)
    else (after.(area := if c.EOF? then [] else [c.c]), true)
  }

  datatype OutOp =
    | Put(c: byte)                        // sputc
    | Sync                                // pubsync
    | SetBuf(noBuffer: bool, size: nat)       // pubsetbuf(s, n), with s == 0 or not

  /** One operation, with whether it succeeded. */
  function OutStep(o: Output, op: OutOp, script: seq<SendEvent>): (Output, bool) {
    match op
    case Put(c) =>
      if !o.unbuffered && |o.area| < BUFFER_SIZE then (o.(area := o.area + [c]), true)
      else Overflow(o, Char(c), script)
    case Sync => Overflow(o, EOF, script)
    case SetBuf(noBuffer, size) =>
      if o.area == [] && noBuffer && size == 0 then (o.(unbuffered := true), true) else (o, false)
  }

  ghost predicate GoodOutput(o: Output) {
    |o.area| <= BUFFER_SIZE && (o.unbuffered ==> o.area == [])
  }

  /** A character is accepted when the put area has room, or the bytes that must go first are all sent. */
  predicate Accepts(o: Output, script: seq<SendEvent>) {
    || (!o.unbuffered && |o.area| < 512)
    || (if o.unbuffered then 1 else |o.area|) <= Reach(script)
  }

  /** The characters this operation accepts. */
  function AcceptedBy(o: Output, op: OutOp, script: seq<SendEvent>): seq<byte> {
    if op.Put? && Accepts(o, script) then [op.c] else []
  }

  /** The operation sends the put area. */
  predicate Flushes(o: Output, op: OutOp) {
    !o.unbuffered && (op.Sync? || (op.Put? && |o.area| >= BUFFER_SIZE))
  }

  /** Bytes that a failing flush has sent already: they stay in the put area and will be sent again. */
  function ResentBy(o: Output, op: OutOp, script: seq<SendEvent>): nat {
    if Flushes(o, op) && Reach(script) < |o.area| then Reach(script) else 0
  }

  /** What one operation put on the wire, and whether its bytes left the buffer. */
  datatype Segment = Segment(bytes: seq<byte>, kept: bool)

  function SegmentBy(o: Output, op: OutOp, script: seq<SendEvent>): Segment {
    var data := if Flushes(o, op) then o.area else if o.unbuffered && op.Put? then [op.c] else [];
    Segment(data[..Min(|data|, Reach(script))], |data| <= Reach(script))
  }

  function KeptOf(s: Segment): seq<byte> { if s.kept then s.bytes else [] }

  function Joined(segments: seq<Segment>): seq<byte> {
    if segments == [] then [] else Joined(segments[..|segments| - 1]) + segments[|segments| - 1].bytes
  }

  /** The wire without the segments that failing flushes sent. */
  function Kept(segments: seq<Segment>): seq<byte> {
    if segments == [] then [] else Kept(segments[..|segments| - 1]) + KeptOf(segments[|segments| - 1])
  }

  lemma {:induction false} OutStepKeepsGood(o: Output, op: OutOp, script: seq<SendEvent>)
    requires GoodOutput(o)
    ensures GoodOutput(OutStep(o, op, script).0)
  {}

  /** overflow sends what it can reach; on a failure the put area stays. */
  lemma {:induction false} OverflowSends(o: Output, c: IntType, script: seq<SendEvent>)
    requires GoodOutput(o) && !(o.unbuffered && c.EOF?)
    ensures var (after, ok) := Overflow(o, c, script);
            var data := if o.unbuffered then [c.c] else o.area;
            && (ok <==> |data| <= Reach(script))
            && after.wire == o.wire + data[..Min(|data|, Reach(script))]
            && after.area == if !ok then o.area else if o.unbuffered || c.EOF? then [] else [c.c]
  {
    TransmitReaches(if o.unbuffered then [c.c] else o.area, script, o.ec);
  }

  /** One operation: nothing is lost, and exactly what a failing flush sent is doubled. */
  lemma {:induction false} OutStepConserves(o: Output, op: OutOp, script: seq<SendEvent>)
    requires GoodOutput(o)
    ensures var after, s := OutStep(o, op, script).0, SegmentBy(o, op, script);
            && after.wire == o.wire + s.bytes
            && o.area + AcceptedBy(o, op, script) == KeptOf(s) + after.area
            && |s.bytes| == |KeptOf(s)| + ResentBy(o, op, script)
            && (!s.kept ==> after.area == o.area && s.bytes <= o.area)
  {
    if op.Sync? && !o.unbuffered {
      OverflowSends(o, EOF, script);
    } else if op.Put? && !(!o.unbuffered && |o.area| < BUFFER_SIZE) {
      OverflowSends(o, Char(op.c), script);
    }
    var data := if Flushes(o, op) then o.area else if o.unbuffered && op.Put? then [op.c] else [];
    assert data[..|data|] == data;
  }

  /** When each operation succeeds, and when it switches to unbuffered mode. */
  lemma {:induction false} OutStepSucceedsIff(o: Output, op: OutOp, script: seq<SendEvent>)
    requires GoodOutput(o)
    ensures op.Put? ==> (OutStep(o, op, script).1 <==> Accepts(o, script))
    ensures op.Sync? ==> (OutStep(o, op, script).1 <==> o.unbuffered || |o.area| <= Reach(script))
    ensures op.SetBuf? ==> (OutStep(o, op, script).1 <==> o.area == [] && op.noBuffer && op.size == 0)
    ensures OutStep(o, op, script).0.unbuffered <==>
            o.unbuffered || (op.SetBuf? && o.area == [] && op.noBuffer && op.size == 0)
  {
    if op.Sync? && !o.unbuffered {
      OverflowSends(o, EOF, script);
    } else if op.Put? && !(!o.unbuffered && |o.area| < BUFFER_SIZE) {
      OverflowSends(o, Char(op.c), script);
    }
  }

  /** ec_ after each operation: untouched without a send loop, and otherwise what the loop reports. */
  lemma {:induction false} OutStepReports(o: Output, op: OutOp, script: seq<SendEvent>, k: nat)
    requires GoodOutput(o)
    requires k <= |script| && forall i :: 0 <= i < k ==> Proceeds(script[i])
    requires k < |script| ==> !Proceeds(script[k])
    ensures var data := if Flushes(o, op) then o.area else if o.unbuffered && op.Put? then [op.c] else [];
            OutStep(o, op, script).0.ec ==
            if data == [] then o.ec else if |data| <= Reach(script) then NoError else Outcome(script, k)
  {
    if Flushes(o, op) {
      TransmitReports(o.area, script, o.ec, k);
    } else if o.unbuffered && op.Put? {
      TransmitReports([op.c], script, o.ec, k);
    }
  }

  /** A run of operations, each with the socket's script for it. */
  datatype Turn = Turn(op: OutOp, script: seq<SendEvent>)

  datatype OutRun = OutRun(output: Output, accepted: seq<byte>, segments: seq<Segment>, resent: nat)

  function RunOutput(turns: seq<Turn>): OutRun {
    if turns == [] then OutRun(FreshOutput, [], [], 0)
    else
      var r := RunOutput(turns[..|turns| - 1]);
      var turn := turns[|turns| - 1];
      OutRun(OutStep(r.output, turn.op, turn.script).0,
             r.accepted + AcceptedBy(r.output, turn.op, turn.script),
             r.segments + [SegmentBy(r.output, turn.op, turn.script)],
             r.resent + ResentBy(r.output, turn.op, turn.script))
  }

  lemma {:induction false} OutputRunGood(turns: seq<Turn>)
    ensures GoodOutput(RunOutput(turns).output)
  {
    if turns != [] {
      var n := |turns| - 1;
      OutputRunGood(turns[..n]);
      OutStepKeepsGood(RunOutput(turns[..n]).output, turns[n].op, turns[n].script);
    }
  }

  lemma {:induction false} OutputUnfolds(turns: seq<Turn>, i: nat)
    requires i < |turns|
    ensures var o, turn := RunOutput(turns[..i]).output, turns[i];
            && RunOutput(turns[..i + 1]).output == OutStep(o, turn.op, turn.script).0
            && RunOutput(turns[..i + 1]).accepted ==
               RunOutput(turns[..i]).accepted +
               if OutStep(o, turn.op, turn.script).1 && turn.op.Put? then [turn.op.c] else []
  {
    assert turns[..i + 1][..i] == turns[..i];
    OutputRunGood(turns[..i]);
    OutStepSucceedsIff(RunOutput(turns[..i]).output, turns[i].op, turns[i].script);
  }

  /** What one more turn does to the parts of the run. */
  lemma {:induction false} OutputAdvances(turns: seq<Turn>)
    requires turns != []
    ensures var before, r := RunOutput(turns[..|turns| - 1]), RunOutput(turns);
            var s := r.segments[|r.segments| - 1];
            && |r.segments| == |before.segments| + 1
            && r.output.wire == before.output.wire + s.bytes
            && Joined(r.segments) == Joined(before.segments) + s.bytes
            && Kept(r.segments) == Kept(before.segments) + KeptOf(s)
            && before.output.area + r.accepted[|before.accepted|..] == KeptOf(s) + r.output.area
            && before.accepted <= r.accepted
            && |s.bytes| - |KeptOf(s)| == r.resent - before.resent
            && (!s.kept ==> s.bytes <= before.output.area && r.accepted == before.accepted)
  {
    var n := |turns| - 1;
    var before, r := RunOutput(turns[..n]), RunOutput(turns);
    OutputRunGood(turns[..n]);
    OutStepConserves(before.output, turns[n].op, turns[n].script);
    assert r.segments[..|r.segments| - 1] == before.segments;
    assert r.accepted[|before.accepted|..] == AcceptedBy(before.output, turns[n].op, turns[n].script);
  }

  /**
   Over every run, the accepted characters are the wire without what failing flushes sent, followed by the put
   area: nothing is lost or reordered.
   */
  lemma {:induction false} OutputConservation(turns: seq<Turn>)
    ensures var r := RunOutput(turns);
            r.output.wire == Joined(r.segments) && r.accepted == Kept(r.segments) + r.output.area
  {
    if turns != [] {
      OutputConservation(turns[..|turns| - 1]);
      OutputAdvances(turns);
      var before, r := RunOutput(turns[..|turns| - 1]), RunOutput(turns);
      var s := r.segments[|r.segments| - 1];
      var added := r.accepted[|before.accepted|..];
      assert r.accepted == before.accepted + added;
      Assoc(Kept(before.segments), before.output.area, added);
      Assoc(Kept(before.segments), KeptOf(s), r.output.area);
    }
  }

  lemma {:induction false} ResentIsExtra(turns: seq<Turn>)
    ensures var r := RunOutput(turns);
            && |Joined(r.segments)| == |Kept(r.segments)| + r.resent
            && (r.resent == 0 ==> Joined(r.segments) == Kept(r.segments))
  {
    if turns != [] {
      ResentIsExtra(turns[..|turns| - 1]);
      OutputAdvances(turns);
    }
  }

  /**
   The wire followed by the put area is what was accepted, exactly when every flush reached all of its put area or
   none of it.
   */
  lemma {:induction false} WireExactIff(turns: seq<Turn>)
    ensures var r := RunOutput(turns);
            && |r.output.wire| + |r.output.area| == |r.accepted| + r.resent
            && (r.output.wire + r.output.area == r.accepted <==> NeverHalfway(turns))
  {
    OutputConservation(turns);
    ResentIsExtra(turns);
    ResentIff(turns);
    var r := RunOutput(turns);
    if r.resent != 0 {
      assert |r.output.wire + r.output.area| != |r.accepted|;
    }
  }

  /** A flush sends some of its put area, and fails. */
  predicate Halfway(o: Output, turn: Turn) {
    Flushes(o, turn.op) && 0 < Reach(turn.script) < |o.area|
  }

  predicate NeverHalfway(turns: seq<Turn>) {
    turns != [] ==>
      && NeverHalfway(turns[..|turns| - 1])
      && !Halfway(RunOutput(turns[..|turns| - 1]).output, turns[|turns| - 1])
  }

  lemma {:induction false} ResentIff(turns: seq<Turn>)
    ensures RunOutput(turns).resent == 0 <==> NeverHalfway(turns)
  {
    if turns != [] {
      ResentIff(turns[..|turns| - 1]);
    }
  }

  /** Up to and including the first flush that fails half-way, the wire carries a prefix of what was accepted. */
  lemma {:induction false} WireIsPrefix(turns: seq<Turn>)
    requires turns != [] ==> NeverHalfway(turns[..|turns| - 1])
    ensures RunOutput(turns).output.wire <= RunOutput(turns).accepted
  {
    if turns != [] {
      var before, r := RunOutput(turns[..|turns| - 1]), RunOutput(turns);
      OutputConservation(turns[..|turns| - 1]);
      OutputConservation(turns);
      ResentIff(turns[..|turns| - 1]);
      ResentIsExtra(turns[..|turns| - 1]);
      OutputAdvances(turns);
      var s := r.segments[|r.segments| - 1];
      if s.kept {
        assert r.output.wire == Kept(r.segments);
      } else {
        assert before.output.wire + before.output.area == r.accepted;
      }
    }
  }

  /**
   After any run, a successful sync has nothing left to send: without what failing flushes sent, the wire is all
   that was accepted, and the whole wire is exactly when no flush failed half-way.
   */
  lemma {:induction false} SyncFlushes(turns: seq<Turn>, script: seq<SendEvent>)
    requires OutStep(RunOutput(turns).output, Sync, script).1
    ensures var r := RunOutput(turns + [Turn(Sync, script)]);
            && r.accepted == RunOutput(turns).accepted && r.output.area == []
            && Kept(r.segments) == r.accepted
            && (r.output.wire == r.accepted <==> NeverHalfway(turns))
  {
    var all := turns + [Turn(Sync, script)];
    assert all[..|all| - 1] == turns;
    var o, r := RunOutput(turns).output, RunOutput(all);
    OutputRunGood(turns);
    OutputConservation(all);
    WireExactIff(all);
    if !o.unbuffered {
      OverflowSends(o, EOF, script);
    }
    assert r.output.wire + [] == r.output.wire && Kept(r.segments) + [] == Kept(r.segments);
    assert r == RunOutput(all);
  }

  /** A flush that sends one byte and fails, retried with success: the peer sees the first byte twice. */
  lemma {:induction false} RetriedFlushDuplicates(o: Output)
    requires !o.unbuffered && |o.area| >= 2
    ensures var failed := OutStep(o, Sync, [Sent(1)]);
            var retried := OutStep(failed.0, Sync, [Sent(|o.area|)]);
            && !failed.1 && retried.1
            && retried.0.wire == o.wire + [o.area[0]] + o.area && retried.0.area == []
  {
    assert [Sent(1)][1..] == [];
    assert Transmit(o.area[1..], [], NoError) == Transfer(0, false, TimedOut);
    assert Transmit(o.area, [Sent(1)], o.ec) == Transfer(1, false, TimedOut);
    assert o.area[..1] == [o.area[0]];
    assert o.area[|o.area|..] == [];
    assert Transmit(o.area, [Sent(|o.area|)], TimedOut) == Transfer(|o.area|, true, NoError);
    assert o.area[..|o.area|] == o.area;
  }

  // ----- Input -----

  /** One turn of the receive loop. */
  datatype RecvEvent =
    | RecvExpired
    | Arrived(bytes: seq<byte>)   // recv returned these bytes, or as many as fit; none at end of file
    | RecvBlocked
    | RecvPollFailed(code: int)
    | RecvRefused(code: int)

  /** What a receive loop got: some bytes, or none and an error. */
  function Receive(script: seq<RecvEvent>): (seq<byte>, Error)
    decreases |script|
  {
    if script == [] then ([], TimedOut)
    else
      match script[0]
      case RecvExpired => ([], TimedOut)
      case Arrived(bytes) =>
        if bytes == [] then ([], EndOfFile) else (bytes[..Min(|bytes|, BUFFER_SIZE - PUTBACK_MAX)], NoError)
      case RecvBlocked => Receive(script[1..])
      case RecvPollFailed(code) => ([], System(code))
      case RecvRefused(code) => ([], System(code))
  }

  /** available: [gptr, egptr); received: everything the socket delivered; taken: everything read. */
  datatype Input = Input(available: seq<byte>, received: seq<byte>, taken: seq<byte>, ec: Error)

  const FreshInput: Input := Input([], [], [], NoError)

  /** underflow(): refills an empty get area; with characters available it answers eof. */
  function Underflow(i: Input, script: seq<RecvEvent>): (Input, IntType) {
    if i.available != [] then (i, EOF) else
    var (bytes, ec) := Receive(script);
    if bytes == [] then (i.(ec := ec), EOF)
    else (i.(available := bytes, received := i.received + bytes, ec := ec), Char(bytes[0]))
  }

  /** sgetc, or sbumpc when the character is taken too. */
  function GetStep(i: Input, take: bool, script: seq<RecvEvent>): (Input, IntType) {
    var (ready, c) := if i.available != [] then (i, Char(i.available[0])) else Underflow(i, script);
    if c.EOF? || !take || ready.available == [] then (ready, c)
    else (ready.(available := ready.available[1..], taken := ready.taken + [ready.available[0]]), c)
  }

  function RunInput(turns: seq<(bool, seq<RecvEvent>)>): Input {
    if turns == [] then FreshInput
    else GetStep(RunInput(turns[..|turns| - 1]), turns[|turns| - 1].0, turns[|turns| - 1].1).0
  }

  /**
   The first event that is not a would-block decides what a receive loop gets: the bytes that arrived, as many as
   fit behind the putback area, or none and the reason. A script without one has run out of time.
   */
  lemma {:induction false} ReceiveDecides(script: seq<RecvEvent>, k: nat)
    requires k <= |script| && forall i :: 0 <= i < k ==> script[i].RecvBlocked?
    ensures k == |script| ==> Receive(script) == ([], TimedOut)
    ensures k < |script| ==>
              match script[k]
              case Arrived(b) => Receive(script) == if b == [] then ([], EndOfFile) else (b[..Min(|b|, 504)], NoError)
              case RecvExpired => Receive(script) == ([], TimedOut)
              case RecvPollFailed(code) => Receive(script) == ([], System(code))
              case RecvRefused(code) => Receive(script) == ([], System(code))
              case RecvBlocked => true
    decreases k
  {
    if k > 0 {
      assert forall i :: 0 <= i < k - 1 ==> script[1..][i] == script[i + 1];
      ReceiveDecides(script[1..], k - 1);
    }
  }

  /** What a read finds: the characters available, or after a refill of an empty get area what the socket gave. */
  function Window(i: Input, script: seq<RecvEvent>): seq<byte> {
    if i.available != [] then i.available else Receive(script).0
  }

  /** A read answers the first character it finds, or eof, and takes it when asked to; a refill happens only when needed. */
  lemma {:induction false} GetFinds(i: Input, take: bool, script: seq<RecvEvent>)
    ensures var (next, c) := GetStep(i, take, script);
            var w := Window(i, script);
            var taken := if take then w[..Min(1, |w|)] else [];
            && c == (if w == [] then EOF else Char(w[0]))
            && next.taken == i.taken + taken && taken + next.available == w
            && next.received == i.received + (if i.available == [] then w else [])
            && next.ec == if i.available == [] then Receive(script).1 else i.ec
  {
    assert i.taken + [] == i.taken && i.received + [] == i.received;
  }

  /** underflow() called with characters still available does nothing and answers eof. */
  lemma {:induction false} UnderflowDeclines(i: Input, script: seq<RecvEvent>)
    ensures i.available != [] ==> Underflow(i, script) == (i, EOF)
    ensures i.available == [] ==> Underflow(i, script) == GetStep(i, false, script)
  {}

  /** What the receive loops gave, one after the other: those of the turns that found the get area empty. */
  function Refills(turns: seq<(bool, seq<RecvEvent>)>): seq<byte> {
    if turns == [] then [] else
    var n := |turns| - 1;
    Refills(turns[..n]) + if RunInput(turns[..n]).available == [] then Receive(turns[n].1).0 else []
  }

  /** The characters that sbumpc answered, in order. */
  function Answers(turns: seq<(bool, seq<RecvEvent>)>): seq<byte> {
    if turns == [] then [] else
    var n := |turns| - 1;
    var c := GetStep(RunInput(turns[..n]), turns[n].0, turns[n].1).1;
    Answers(turns[..n]) + if turns[n].0 && c.Char? then [c.c] else []
  }

  /** Over every run of reads: the answers of sbumpc, then what is available, are all that the socket gave. */
  lemma {:induction false} AnswersAreReceived(turns: seq<(bool, seq<RecvEvent>)>)
    ensures var i := RunInput(turns);
            i.received == Refills(turns) && i.taken == Answers(turns) && Answers(turns) + i.available == Refills(turns)
  {
    if turns != [] {
      var n := |turns| - 1;
      AnswersAreReceived(turns[..n]);
      GetFinds(RunInput(turns[..n]), turns[n].0, turns[n].1);
      assert Answers(turns[..n]) + [] == Answers(turns[..n]);
    }
    InputConservation(turns);
  }

  /** Over every run of reads and refills, what was read and what is available is what was received, in order. */
  lemma {:induction false} InputConservation(turns: seq<(bool, seq<RecvEvent>)>)
    ensures var i := RunInput(turns);
            i.taken + i.available == i.received && |i.available| <= BUFFER_SIZE - PUTBACK_MAX
  {
    if turns != [] {
      var n := |turns| - 1;
      var i := RunInput(turns[..n]);
      InputConservation(turns[..n]);
      ReceiveBound(turns[n].1);
      GetConserves(i, turns[n].0, turns[n].1);
    }
  }

  lemma {:induction false} ReceiveBound(script: seq<RecvEvent>)
    ensures |Receive(script).0| <= BUFFER_SIZE - PUTBACK_MAX
    decreases |script|
  {
    if script != [] {
      ReceiveBound(script[1..]);
    }
  }

  lemma {:induction false} GetConserves(i: Input, take: bool, script: seq<RecvEvent>)
    requires i.taken + i.available == i.received
    ensures var next := GetStep(i, take, script).0;
            next.taken + next.available == next.received
  {
    var (next, c) := GetStep(i, take, script);
    var (ready, d) := if i.available != [] then (i, Char(i.available[0])) else Underflow(i, script);
    assert ready.taken + ready.available == ready.received;
    if ready.available != [] {
      assert ready.taken + [ready.available[0]] + ready.available[1..] == ready.taken + ready.available;
    }
  }
}
