/** asio::basic_socket_streambuf: a get array and a put array in front of a socket. */
module SocketStreambuf {
  import opened Bytes
  import opened SocketSpec

  class SocketStreambuf {
    const getBuffer: array<byte>
    var putBuffer: array<byte>       // length 0 once cleared
    // Offsets from &get_buffer_[0] and &put_buffer_[0].
    var eback: nat
    var gptr: nat
    var egptr: nat
    var pbase: nat
    var pptr: nat
    var epptr: nat
    var ec: Error
    var wire: seq<byte>              // what the socket took
    var received: seq<byte>          // what the socket delivered
    ghost var taken: seq<byte>       // what the user read

    ghost predicate Valid()
      reads this
    {
      && getBuffer.Length == BUFFER_SIZE && (putBuffer.Length == 0 || putBuffer.Length == BUFFER_SIZE)
      && getBuffer != putBuffer
      && eback == 0 && PUTBACK_MAX <= gptr <= egptr <= BUFFER_SIZE
      && pbase == 0 <= pptr <= epptr == putBuffer.Length
    }

    ghost function Out(): (o: Output)
      requires Valid()
      reads this, putBuffer
      ensures GoodOutput(o)
    {
      Output(wire, putBuffer[pbase..pptr], putBuffer.Length == 0, ec)
    }

    ghost function In(): Input
      requires Valid()
      reads this, getBuffer
    {
      Input(getBuffer[gptr..egptr], received, taken, ec)
    }

    constructor ()
      ensures Valid() && fresh(getBuffer) && fresh(putBuffer)
      ensures Out() == FreshOutput && In() == FreshInput
    {
      getBuffer := new byte[BUFFER_SIZE](i => 0);
      putBuffer := new byte[BUFFER_SIZE](i => 0);
      // init_buffers()
      eback, gptr, egptr := 0, PUTBACK_MAX, PUTBACK_MAX;
      pbase, pptr, epptr := 0, 0, BUFFER_SIZE;
      ec, wire, received, taken := NoError, [], [], [];
    }

    // ----- Output -----

    /** The send loop of overflow. */
    method SendAll(data: seq<byte>, script: seq<SendEvent>) returns (ok: bool)
      modifies `wire, `ec
      ensures var t := Transmit(data, script, old(ec));
              ok == t.ok && wire == old(wire) + data[..t.sent] && ec == t.error
    {
      var rest, i := data, 0;
      ghost var sent := 0;
      while |rest| > 0
        invariant 0 <= i <= |script| && sent <= |data| && rest == data[sent..]
        invariant wire == old(wire) + data[..sent]
        invariant var t, u := Transmit(data, script, old(ec)), Transmit(rest, script[i..], ec);
                  t == u.(sent := sent + u.sent)
        decreases |script| - i
      {
        if i == |script| {
          ec := TimedOut;
          return false;
        }
        var e := script[i];
        i := i + 1;
        assert script[i - 1..][1..] == script[i..];
        match e
        case Expired =>
          ec := TimedOut;
          return false;
        case Sent(count) =>
          var bytes := Min(count, |rest|);
          ec := NoError;
          if bytes <= 0 {
            return false;
          }
          wire := wire + rest[..bytes];
          rest := rest[bytes..];
          sent := sent + bytes;
          assert data[..sent] == data[..sent - bytes] + data[sent - bytes..][..bytes];
        case Blocked =>
          ec := NoError;
        case PollFailed(code) =>
          ec := System(code);
          return false;
        case Refused(code) =>
          ec := System(code);
          return false;
      }
      ok := true;
    }

    /** overflow(c): sends the put area, or the character itself when unbuffered. */
    method Overflow(c: IntType, script: seq<SendEvent>) returns (ok: bool)
      requires Valid()
      modifies `wire, `ec, `pptr, putBuffer
      ensures Valid() && In() == old(In()).(ec := ec)
      ensures (Out(), ok) == SocketSpec.Overflow(old(Out()), c, script)
    {
      if putBuffer.Length == 0 {
        if c.EOF? {
          return true;
        }
        ok := SendAll([c.c], script);
        return;
      }
      ok := SendAll(putBuffer[pbase..pptr], script);
      if ok {
        pptr := 0;
        if c.Char? {
          putBuffer[pptr] := c.c;
          pptr := pptr + 1;
        }
        assert putBuffer[pbase..pptr] == if c.EOF? then [] else [c.c];
      }
    }

    /** sputc(c), with whether c was accepted. */
    method Sputc(c: byte, script: seq<SendEvent>) returns (ok: bool)
      requires Valid()
      modifies `wire, `ec, `pptr, putBuffer
      ensures Valid() && In() == old(In()).(ec := ec)
      ensures (Out(), ok) == OutStep(old(Out()), Put(c), script)
    {
      if pptr < epptr {
        putBuffer[pptr] := c;
        pptr := pptr + 1;
        assert putBuffer[pbase..pptr] == old(putBuffer[pbase..pptr]) + [c];
        ok := true;
      } else {
        ok := Overflow(Char(c), script);
      }
    }

    /** sync() */
    method Sync(script: seq<SendEvent>) returns (ok: bool)
      requires Valid()
      modifies `wire, `ec, `pptr, putBuffer
      ensures Valid() && In() == old(In()).(ec := ec)
      ensures (Out(), ok) == OutStep(old(Out()), OutOp.Sync, script)
    {
      ok := Overflow(EOF, script);
    }

    /** The destructor: it flushes as sync does. */
    method Destruct(script: seq<SendEvent>) returns (ok: bool)
      requires Valid()
      modifies `wire, `ec, `pptr, putBuffer
      ensures Valid() && (Out(), ok) == OutStep(old(Out()), OutOp.Sync, script)
    {
      if pptr != pbase {
        ok := Overflow(EOF, script);
      } else {
        assert Transmit([], script, ec) == Transfer(0, true, ec);
        assert Out().area == [] && Out().wire + [] == Out().wire;
        ok := true;
      }
    }

    /** put_buffer_.clear(); setp(0, 0) */
    method ClearPutBuffer()
      requires Valid() && pptr == pbase
      modifies `putBuffer, `pbase, `pptr, `epptr
      ensures Valid() && fresh(putBuffer) && putBuffer.Length == 0
      ensures Out() == old(Out()).(unbuffered := true) && In() == old(In())
    {
      putBuffer := new byte[0];
      pbase, pptr, epptr := 0, 0, 0;
      assert putBuffer[pbase..pptr] == [];
    }

    /** setbuf(s, n), with whether it returned this. */
    method SetBuf(noBuffer: bool, size: nat, script: seq<SendEvent>) returns (ok: bool)
      requires Valid()
      modifies `putBuffer, `pbase, `pptr, `epptr, `wire, `ec
      ensures Valid() && In() == old(In())
      ensures putBuffer == old(putBuffer) || fresh(putBuffer)
      ensures (Out(), ok) == OutStep(old(Out()), OutOp.SetBuf(noBuffer, size), script)
    {
      if pptr == pbase && noBuffer && size == 0 {
        ClearPutBuffer();
        var flushed := Sync(script);
        return true;
      }
      return false;
    }

    /** One scripted output operation. */
    method Apply(op: OutOp, script: seq<SendEvent>) returns (ok: bool)
      requires Valid()
      modifies this, putBuffer
      ensures Valid() && (putBuffer == old(putBuffer) || fresh(putBuffer))
      ensures (Out(), ok) == OutStep(old(Out()), op, script)
    {
      match op
      case Put(c) => ok := Sputc(c, script);
      case Sync => ok := Sync(script);
      case SetBuf(noBuffer, size) => ok := SetBuf(noBuffer, size, script);
    }

    // ----- Input -----

    /** The receive loop of underflow: what recv stored, if anything. */
    method ReceiveSome(script: seq<RecvEvent>) returns (bytes: seq<byte>)
      modifies `ec
      ensures (bytes, ec) == Receive(script)
    {
      var i := 0;
      while i < |script|
        invariant 0 <= i <= |script| && Receive(script) == Receive(script[i..])
        decreases |script| - i
      {
        match script[i] {
        case RecvExpired =>
          break;
        case Arrived(arrived) =>
          if |arrived| > 0 {
            ec := NoError;
            return arrived[..Min(|arrived|, BUFFER_SIZE - PUTBACK_MAX)];
          }
          ec := EndOfFile;
          return [];
        case RecvBlocked =>
        case RecvPollFailed(code) =>
          ec := System(code);
          return [];
        case RecvRefused(code) =>
          ec := System(code);
          return [];
        }
        assert script[i..][1..] == script[i + 1..];
        i := i + 1;
      }
      ec := TimedOut;
      return [];
    }

    /** recv stores what it got behind the putback area. */
    method Store(bytes: seq<byte>)
      requires |bytes| <= getBuffer.Length - PUTBACK_MAX
      modifies getBuffer
      ensures getBuffer[PUTBACK_MAX..PUTBACK_MAX + |bytes|] == bytes
    {
      for i := 0 to |bytes|
        invariant getBuffer[PUTBACK_MAX..PUTBACK_MAX + i] == bytes[..i]
      {
        getBuffer[PUTBACK_MAX + i] := bytes[i];
        assert getBuffer[PUTBACK_MAX..PUTBACK_MAX + i + 1] == getBuffer[PUTBACK_MAX..PUTBACK_MAX + i] + [bytes[i]];
      }
    }

    /** underflow(): refills the get area from offset putback_max when it is empty. */
    method Underflow(script: seq<RecvEvent>) returns (c: IntType)
      requires Valid()
      modifies `ec, `eback, `gptr, `egptr, `received, getBuffer
      ensures Valid() && Out() == old(Out()).(ec := ec)
      ensures (In(), c) == SocketSpec.Underflow(old(In()), script)
      ensures c.Char? ==> gptr == PUTBACK_MAX < egptr
    {
      if gptr != egptr {
        return EOF;
      }
      assert getBuffer[gptr..egptr] == [];
      var bytes := ReceiveSome(script);
      ReceiveBound(script);
      if bytes == [] {
        return EOF;
      }
      Store(bytes);
      eback, gptr, egptr := 0, PUTBACK_MAX, PUTBACK_MAX + |bytes|;
      received := received + bytes;
      c := Char(getBuffer[gptr]);
    }

    /** sgetc(), or sbumpc() when take. */
    method Get(take: bool, script: seq<RecvEvent>) returns (c: IntType)
      requires Valid()
      modifies `ec, `eback, `gptr, `egptr, `received, `taken, getBuffer
      ensures Valid() && Out() == old(Out()).(ec := ec)
      ensures (In(), c) == GetStep(old(In()), take, script)
    {
      if gptr < egptr {
        c := Char(getBuffer[gptr]);
      } else {
        c := Underflow(script);
      }
      if c.Char? && take {
        taken := taken + [getBuffer[gptr]];
        gptr := gptr + 1;
      }
    }
  }

  /** Any run of output operations: what the socket took, what is buffered, and what was accepted. */
  method SimulateOutput(turns: seq<Turn>) returns (wire: seq<byte>, area: seq<byte>, accepted: seq<byte>)
    ensures var r := RunOutput(turns);
            && (wire, area, accepted) == (r.output.wire, r.output.area, r.accepted)
            && wire == Joined(r.segments) && accepted == Kept(r.segments) + area
    ensures wire + area == accepted <==> NeverHalfway(turns)
    ensures |area| <= BUFFER_SIZE
  {
    var sb := new SocketStreambuf();
    accepted := [];
    for i := 0 to |turns|
      invariant fresh(sb) && fresh(sb.putBuffer) && sb.Valid()
      invariant sb.Out() == RunOutput(turns[..i]).output && accepted == RunOutput(turns[..i]).accepted
    {
      OutputUnfolds(turns, i);
      var ok := sb.Apply(turns[i].op, turns[i].script);
      if ok && turns[i].op.Put? {
        accepted := accepted + [turns[i].op.c];
      }
    }
    assert turns[..|turns|] == turns;
    wire, area := sb.wire, sb.putBuffer[sb.pbase..sb.pptr];
    OutputConservation(turns);
    WireExactIff(turns);
    OutputRunGood(turns);
  }

  /** Any run of sgetc and sbumpc: what was read, and what is still in the get area. */
  method SimulateInput(turns: seq<(bool, seq<RecvEvent>)>)
    returns (taken: seq<byte>, available: seq<byte>, received: seq<byte>)
    ensures var i := RunInput(turns);
            && (taken, available, received) == (i.taken, i.available, i.received)
            && received == Refills(turns) && taken == Answers(turns) && taken + available == received
  {
    var sb := new SocketStreambuf();
    taken := [];
    for i := 0 to |turns|
      invariant fresh(sb) && fresh(sb.getBuffer) && sb.Valid()
      invariant sb.In() == RunInput(turns[..i]) && taken == sb.taken
    {
      assert turns[..i + 1][..i] == turns[..i];
      var c := sb.Get(turns[i].0, turns[i].1);
      if c.Char? && turns[i].0 {
        taken := taken + [c.c];
      }
    }
    assert turns[..|turns|] == turns;
    available, received := sb.getBuffer[sb.gptr..sb.egptr], sb.received;
    AnswersAreReceived(turns);
  }
}
