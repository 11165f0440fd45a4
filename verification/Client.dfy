/** TcpClient, the UI thread's event queue and SyncTable, as the objects they are. */
module Client {
  import opened Bytes
  import opened Framing
  import opened Sync = SyncSpec

  /** msg.find("\r\n") */
  method FindDelimiter(s: seq<byte>) returns (pos: int)
    ensures pos == Find(s)
  {
    pos := 0;
    while pos + 1 < |s|
      invariant 0 <= pos <= |s|
      invariant forall i :: 0 <= i < pos ==> !DelimiterAt(s, i)
    {
      if s[pos] == CR && s[pos + 1] == LF {
        FindIs(s, pos);
        return;
      }
      pos := pos + 1;
    }
    FindIsFirst(s);
    pos := -1;
  }

  /** Qt's queue of signals on their way to the UI thread. */
  class EventQueue {
    var events: seq<Event>
    ghost var history: seq<Event>
    ghost var taken: nat

    ghost predicate Valid()
      reads this
    {
      taken <= |history| && events == history[taken..]
    }

    constructor ()
      ensures Valid() && history == [] && taken == 0
    {
      events, history, taken := [], [], 0;
    }

    method Emit(e: Event)
      requires Valid()
      modifies this
      ensures Valid() && history == old(history) + [e] && taken == old(taken)
    {
      events := events + [e];
      history := history + [e];
    }

    method Take() returns (e: Event)
      requires Valid() && events != []
      modifies this
      ensures Valid() && history == old(history) && taken == old(taken) + 1 && e == history[old(taken)]
    {
      e := events[0];
      events := events[1..];
      taken := taken + 1;
    }
  }

  class TcpClient {
    const queue: EventQueue
    var msg: seq<byte>
    var status: Status
    var nextModule: nat            // the next allocation
    var message: seq<byte>        // message_
    ghost var frames: seq<seq<byte>>
    ghost var leaked: seq<Module>
    ghost var payloads: seq<seq<byte>>
    var wire: seq<byte>           // bytes handed to async_write

    ghost predicate Valid()
      reads this, queue
    {
      queue.Valid() && wire == EncodeAll(payloads)
    }

    ghost function Abs(): Sync.Client
      reads this, queue
    {
      Sync.Client(Reader(msg, frames), nextModule, queue.history, leaked, status)
    }

    constructor (queue: EventQueue)
      requires queue.Valid() && queue.history == []
      ensures Valid() && this.queue == queue && Abs() == FreshClient
      ensures wire == []
    {
      this.queue := queue;
      msg, status, nextModule, message := [], Reading, 0, [];
      frames, leaked, payloads, wire := [], [], [], [];
    }

    /** The loop of an init command: allocate a module for each item, until a constructor throws. */
    method BuildModules(items: seq<Item>) returns (modules: seq<Module>, threw: bool)
      modifies `nextModule
      ensures modules == Build(items, old(nextModule)) && nextModule == old(nextModule) + |modules|
      ensures threw <==> |modules| < |items|
    {
      modules, threw := [], false;
      for i := 0 to |items|
        invariant |modules| == i && nextModule == old(nextModule) + i
        invariant forall k :: 0 <= k < i ==> items[k].Good? && modules[k] == Module(old(nextModule) + k, items[k].name)
      {
        if items[i].Bad? {
          threw := true;
          break;
        }
        modules := modules + [Module(nextModule, items[i].name)];
        nextModule := nextModule + 1;
      }
      BuildIs(items, old(nextModule), modules);
    }

    /** command_handler, with whether it threw. */
    method CommandHandler(m: Message) returns (threw: bool)
      requires Valid() && status == Reading
      modifies this, queue
      ensures Valid() && queue.taken == old(queue.taken)
      ensures Abs() == Handle(old(Abs()), m)
      ensures threw <==> status == Terminated
      ensures (message, wire, payloads) == old((message, wire, payloads))
    {
      threw := false;
      match m
      case Malformed =>
        threw, status := true, Terminated;
      case Init(items) =>
        var modules: seq<Module>;
        modules, threw := BuildModules(items);
        if threw {
          // The pointers gathered so far go out of scope.
          leaked := leaked + modules;
          status := Terminated;
        } else {
          queue.Emit(Fetched(modules));
        }
      case Remove(name) =>
        queue.Emit(Deleted(name));
      case Signal =>
        queue.Emit(Other);
      case Ignored =>
    }

    /** One turn of the loop in start_reading: receive, append, dispatch at most one frame. */
    method ReadOnce(parse: seq<byte> -> Message, r: ReadResult)
      requires Valid()
      modifies this, queue
      ensures Valid() && queue.taken == old(queue.taken)
      ensures Abs() == OnRead(parse, old(Abs()), r)
      ensures (message, wire, payloads) == old((message, wire, payloads))
    {
      if status != Reading {
        return;
      }
      match r
      case EndOfStream =>
        status := Closed;
      case Failed =>
        status := Terminated;
      case Received(bytes) =>
        msg := msg + bytes;
        var pos := FindDelimiter(msg);
        if pos != -1 {
          var sent := msg[..pos];
          msg := msg[pos + |CRLF|..];
          frames := frames + [sent];
          var threw := CommandHandler(parse(sent));
        }
    }

    /** start_reading: reads until the stream ends or something throws. */
    method StartReading(parse: seq<byte> -> Message, script: seq<ReadResult>)
      requires Valid() && Abs() == FreshClient
      modifies this, queue
      ensures Valid() && Abs() == ClientRun(parse, script)
      ensures Reader(msg, frames) == Feed(ChunksOf(parse, script))
      ensures EncodeAll(frames) + msg == Flatten(ChunksOf(parse, script))
      ensures wire == old(wire)
    {
      var n := 0;
      while n < |script| && status == Reading
        invariant 0 <= n <= |script| && Valid()
        invariant Abs() == ClientRun(parse, script[..n])
        invariant wire == old(wire) && payloads == old(payloads)
      {
        ReadOnce(parse, script[n]);
        assert script[..n + 1][..n] == script[..n];
        n := n + 1;
      }
      StoppedStays(parse, script, n);
      ClientFeeds(parse, script);
      FeedConservesBytes(ChunksOf(parse, script));
    }

    /** The four senders: message_ = j.dump() + "\r\n"; async_write(socket_, buffer(message_)). */
    method Notify<Request>(dump: Request -> seq<byte>, request: Request)
      requires Valid()
      modifies `message, `wire, `payloads
      ensures Valid() && message == Encode(dump(request))
      ensures wire == old(wire) + message
      ensures payloads == old(payloads) + [dump(request)]
    {
      message := dump(request) + CRLF;
      EncodeAllAppend(payloads, dump(request));
      wire := wire + message;
      payloads := payloads + [dump(request)];
    }
  }

  class SyncTable {
    var modules: seq<Module>
    ghost var freed: seq<Module>

    ghost function Abs(): Table
      reads this
    {
      Table(modules, freed)
    }

    constructor ()
      ensures Abs() == EmptyTable
    {
      modules, freed := [], [];
    }

    method OnModulesFetched(fetched: seq<Module>)
      modifies this
      ensures Abs() == Deliver(old(Abs()), Fetched(fetched))
    {
      for i := 0 to |fetched|
        invariant modules == old(modules) + fetched[..i] && freed == old(freed)
      {
        modules := modules + [fetched[i]];
      }
    }

    method OnModuleDeleted(name: Name)
      modifies this
      ensures Abs() == Deliver(old(Abs()), Deleted(name))
    {
      var it := 0;
      while it != |modules|
        invariant 0 <= it <= |modules|
        invariant modules == old(modules) && freed == old(freed)
        invariant forall j :: 0 <= j < it ==> modules[j].name != name
        decreases |modules| - it
      {
        if modules[it].name == name {
          assert FirstNamed(modules, name) == it;
          freed := freed + [modules[it]];
          modules := modules[..it] + modules[it + 1..];
          return;
        }
        it := it + 1;
      }
    }

    /** The UI thread's event loop takes one event. */
    method Dispatch(e: Event)
      modifies this
      ensures Abs() == Deliver(old(Abs()), e)
    {
      match e
      case Fetched(fetched) => OnModulesFetched(fetched);
      case Deleted(name) => OnModuleDeleted(name);
      case Other =>
    }
  }

  /** Both threads, interleaved by a schedule, from the start of the program. */
  method Simulate(parse: seq<byte> -> Message, steps: seq<Step>)
    returns (modules: seq<Module>, pending: seq<Event>, status: Status)
    ensures var a := AppRun(parse, steps);
            && (modules, status) == (a.table.modules, a.client.status)
            && a.applied <= |a.client.emitted| && pending == a.client.emitted[a.applied..]
    ensures pending == [] ==> NamesOf(modules) == Effects(parse, Feed(ChunksOf(parse, ReadsOf(steps))).frames)
  {
    var queue := new EventQueue();
    var client := new TcpClient(queue);
    var table := new SyncTable();
    for i := 0 to |steps|
      invariant client.Valid() && client.queue == queue && fresh(client) && fresh(queue) && fresh(table)
      invariant App(client.Abs(), queue.taken, table.Abs()) == AppRun(parse, steps[..i])
    {
      assert steps[..i + 1][..i] == steps[..i];
      match steps[i]
      case Read(r) =>
        client.ReadOnce(parse, r);
      case Apply =>
        if client.status != Terminated && queue.events != [] {
          var e := queue.Take();
          table.Dispatch(e);
        }
    }
    assert steps[..|steps|] == steps;
    modules, pending, status := table.modules, queue.events, client.status;
    var j := ScheduleShows(parse, steps);
  }
}
