/**
 The client from the socket to the module list, on values. The reader thread turns reads into frames, frames
 into messages and messages into events; the UI thread applies the events, one at a time and in order, to the
 list of modules. A schedule interleaves the two threads in any way.
 */
module SyncSpec {
  import opened Bytes
  import opened Framing

  type Name = seq<byte>

  /** One element of an init command's array: a module, or an object whose conversion throws. */
  datatype Item = Good(name: Name) | Bad

  /** What a frame means to command_handler. */
  datatype Message =
    | Malformed               // parsing, or reading a field of it, throws
    | Init(items: seq<Item>)  // [] also for data that is not an array
    | Remove(name: Name)
    | Signal                  // add, progress, -1: a signal that does not reach the module list
    | Ignored                 // any other command

  /** A SyncModule*: the allocation it came from, and the name stored there. */
  datatype Module = Module(id: nat, name: Name)

  datatype Event = Fetched(modules: seq<Module>) | Deleted(name: Name) | Other

  datatype Status = Reading | Closed | Terminated

  datatype ReadResult = Received(bytes: seq<byte>) | EndOfStream | Failed

  // ----- The reader thread -----

  /** next: modules allocated so far; emitted: every event emitted so far; leaked: modules nobody points to. */
  datatype Client = Client(reader: Reader, next: nat, emitted: seq<Event>, leaked: seq<Module>, status: Status)

  const FreshClient: Client := Client(Reader([], []), 0, [], [], Reading)

  /** The modules allocated for an init command: up to the first item whose constructor throws. */
  function Build(items: seq<Item>, next: nat): (modules: seq<Module>)
    ensures |modules| <= |items|
    ensures forall i :: 0 <= i < |modules| ==> items[i].Good? && modules[i] == Module(next + i, items[i].name)
    ensures |modules| < |items| ==> items[|modules|].Bad?
  {
    if items == [] || items[0].Bad? then [] else [Module(next, items[0].name)] + Build(items[1..], next + 1)
  }

  /** That description determines the modules. */
  lemma {:induction false} BuildIs(items: seq<Item>, next: nat, modules: seq<Module>)
    requires |modules| <= |items|
    requires forall i :: 0 <= i < |modules| ==> items[i].Good? && modules[i] == Module(next + i, items[i].name)
    requires |modules| < |items| ==> items[|modules|].Bad?
    ensures modules == Build(items, next)
  {
    var built := Build(items, next);
    assert |modules| <= |built|;
    assert |built| <= |modules|;
  }

  /** command_handler. An exception escapes the reader thread and terminates the process. */
  function Handle(c: Client, message: Message): Client {
    match message
    case Malformed => c.(status := Terminated)
    case Init(items) =>
      var modules := Build(items, c.next);
      if |modules| == |items| then c.(next := c.next + |modules|, emitted := c.emitted + [Fetched(modules)])
      else c.(next := c.next + |modules|, leaked := c.leaked + modules, status := Terminated)
    case Remove(name) => c.(emitted := c.emitted + [Deleted(name)])
    case Signal => c.(emitted := c.emitted + [Other])
    case Ignored => c
  }

  /** One turn of the read loop. */
  function OnRead(parse: seq<byte> -> Message, c: Client, r: ReadResult): Client {
    if c.status != Reading then c else
    match r
    case EndOfStream => c.(status := Closed)
    case Failed => c.(status := Terminated)
    case Received(bytes) =>
      var next := c.(reader := ReadStep(c.reader, bytes));
      if |next.reader.frames| == |c.reader.frames| then next
      else Handle(next, parse(next.reader.frames[|c.reader.frames|]))
  }

  /** A turn either leaves frames, events and modules alone, or handles exactly one more frame. */
  lemma {:induction false} OnReadHandlesOne(parse: seq<byte> -> Message, c: Client, r: ReadResult)
    returns (quiet: bool, ready: Client, frame: seq<byte>)
    ensures var after := OnRead(parse, c, r);
            if quiet then
              after.reader.frames == c.reader.frames && (after.next, after.emitted, after.leaked) == (c.next, c.emitted, c.leaked)
            else
              && c.status == Reading
              && ready == c.(reader := Reader(ready.reader.msg, c.reader.frames + [frame]))
              && after == Handle(ready, parse(frame))
  {
    quiet, ready, frame := true, c, [];
    if c.status == Reading && r.Received? {
      ready := c.(reader := ReadStep(c.reader, r.bytes));
      if |ready.reader.frames| != |c.reader.frames| {
        quiet, frame := false, ready.reader.frames[|c.reader.frames|];
      }
    }
  }

  function ClientRun(parse: seq<byte> -> Message, inputs: seq<ReadResult>): Client {
    if inputs == [] then FreshClient
    else OnRead(parse, ClientRun(parse, inputs[..|inputs| - 1]), inputs[|inputs| - 1])
  }

  /** A reader that has stopped reads nothing more. */
  lemma {:induction false} StoppedStays(parse: seq<byte> -> Message, inputs: seq<ReadResult>, n: nat)
    requires n <= |inputs| && (ClientRun(parse, inputs[..n]).status == Reading ==> n == |inputs|)
    ensures ClientRun(parse, inputs) == ClientRun(parse, inputs[..n])
    decreases |inputs|
  {
    if n == |inputs| {
      assert inputs[..n] == inputs;
    } else {
      assert inputs[..|inputs| - 1][..n] == inputs[..n];
      StoppedStays(parse, inputs[..|inputs| - 1], n);
    }
  }

  /** The chunks that the loop received before it stopped. */
  function ChunksOf(parse: seq<byte> -> Message, inputs: seq<ReadResult>): seq<seq<byte>> {
    if inputs == [] then [] else
    var earlier, last := inputs[..|inputs| - 1], inputs[|inputs| - 1];
    ChunksOf(parse, earlier) +
    if ClientRun(parse, earlier).status == Reading && last.Received? then [last.bytes] else []
  }

  lemma {:induction false} OnReadFeeds(parse: seq<byte> -> Message, c: Client, r: ReadResult)
    ensures OnRead(parse, c, r).reader ==
            if c.status == Reading && r.Received? then ReadStep(c.reader, r.bytes) else c.reader
  {}

  /** The framing laws hold for the client, whatever the messages do. */
  lemma {:induction false} ClientFeeds(parse: seq<byte> -> Message, inputs: seq<ReadResult>)
    ensures ClientRun(parse, inputs).reader == Feed(ChunksOf(parse, inputs))
    decreases |inputs|
  {
    if inputs != [] {
      var n := |inputs| - 1;
      ClientFeeds(parse, inputs[..n]);
      OnReadFeeds(parse, ClientRun(parse, inputs[..n]), inputs[n]);
      var chunks := ChunksOf(parse, inputs[..n]);
      assert inputs[n].Received? ==> (chunks + [inputs[n].bytes])[..|chunks|] == chunks;
      assert chunks + [] == chunks;
    }
  }

  // ----- The UI thread -----

  datatype Table = Table(modules: seq<Module>, freed: seq<Module>)

  const EmptyTable: Table := Table([], [])

  /** The index of the first module of that name, or |modules|. */
  function FirstNamed(modules: seq<Module>, name: Name): (i: nat)
    ensures i <= |modules|
    ensures i < |modules| ==> modules[i].name == name
    ensures forall j :: 0 <= j < i ==> modules[j].name != name
  {
    if modules == [] || modules[0].name == name then 0 else 1 + FirstNamed(modules[1..], name)
  }

  /** onModulesFetched and onModuleDeleted. */
  function Deliver(t: Table, e: Event): Table {
    match e
    case Fetched(modules) => t.(modules := t.modules + modules)
    case Deleted(name) =>
      var i := FirstNamed(t.modules, name);
      if i == |t.modules| then t
      else Table(t.modules[..i] + t.modules[i + 1..], t.freed + [t.modules[i]])
    case Other => t
  }

  function DeliverAll(events: seq<Event>): Table {
    if events == [] then EmptyTable else Deliver(DeliverAll(events[..|events| - 1]), events[|events| - 1])
  }

  /** How many modules carry that name. */
  function CountNamed(modules: seq<Module>, name: Name): nat {
    if modules == [] then 0 else CountNamed(modules[1..], name) + if modules[0].name == name then 1 else 0
  }

  lemma {:induction false} CountNamedAppend(a: seq<Module>, b: seq<Module>, name: Name)
    ensures CountNamed(a + b, name) == CountNamed(a, name) + CountNamed(b, name)
  {
    if a == [] {
      assert a + b == b;
    } else {
      CountNamedAppend(a[1..], b, name);
      assert (a + b)[1..] == a[1..] + b;
    }
  }

  lemma {:induction false} CountBeforeFirst(modules: seq<Module>, name: Name)
    ensures CountNamed(modules[..FirstNamed(modules, name)], name) == 0
    ensures FirstNamed(modules, name) == |modules| <==> CountNamed(modules, name) == 0
  {
    if modules != [] && modules[0].name != name {
      CountBeforeFirst(modules[1..], name);
      var i := FirstNamed(modules, name);
      assert modules[..i][1..] == modules[1..][..i - 1];
    }
  }

  /** A delete lowers the count of its name from k to max(k - 1, 0) and leaves every other count alone. */
  lemma {:induction false} DeleteCounts(t: Table, name: Name, other: Name)
    ensures CountNamed(Deliver(t, Deleted(name)).modules, name) == Max(CountNamed(t.modules, name) - 1, 0)
    ensures other != name ==> CountNamed(Deliver(t, Deleted(name)).modules, other) == CountNamed(t.modules, other)
  {
    var i := FirstNamed(t.modules, name);
    CountBeforeFirst(t.modules, name);
    if i < |t.modules| {
      var a, m, b := t.modules[..i], t.modules[i], t.modules[i + 1..];
      assert t.modules == a + ([m] + b);
      assert ([m] + b)[1..] == b;
      CountNamedAppend(a, [m] + b, name);
      CountNamedAppend(a, b, name);
      CountNamedAppend(a, [m] + b, other);
      CountNamedAppend(a, b, other);
    }
  }

  // ----- The two threads together -----

  /** The UI thread has applied the first `applied` events; the rest are queued. */
  datatype App = App(client: Client, applied: nat, table: Table)

  datatype Step = Read(result: ReadResult) | Apply

  const FreshApp: App := App(FreshClient, 0, EmptyTable)

  function AppStep(parse: seq<byte> -> Message, a: App, s: Step): App {
    match s
    case Read(r) => a.(client := OnRead(parse, a.client, r))
    case Apply =>
      if a.client.status == Terminated || a.applied >= |a.client.emitted| then a
      else App(a.client, a.applied + 1, Deliver(a.table, a.client.emitted[a.applied]))
  }

  function AppRun(parse: seq<byte> -> Message, steps: seq<Step>): App {
    if steps == [] then FreshApp
    else AppStep(parse, AppRun(parse, steps[..|steps| - 1]), steps[|steps| - 1])
  }

  /** Events only accumulate. */
  lemma {:induction false} OnReadExtends(parse: seq<byte> -> Message, c: Client, r: ReadResult)
    ensures c.emitted <= OnRead(parse, c, r).emitted
    ensures |OnRead(parse, c, r).emitted| <= |c.emitted| + 1
    ensures c.reader.frames <= OnRead(parse, c, r).reader.frames
  {}

  function ReadsOf(steps: seq<Step>): seq<ReadResult> {
    if steps == [] then [] else
    ReadsOf(steps[..|steps| - 1]) +
    match steps[|steps| - 1] { case Read(r) => [r] case Apply => [] }
  }

  /**
   Under every schedule the reader thread is unaffected by the UI thread, and the list is the fold of the events
   applied so far.
   */
  lemma {:induction false} ScheduleInvariant(parse: seq<byte> -> Message, steps: seq<Step>)
    ensures var a := AppRun(parse, steps);
            && a.client == ClientRun(parse, ReadsOf(steps))
            && a.applied <= |a.client.emitted|
            && a.table == DeliverAll(a.client.emitted[..a.applied])
    decreases |steps|
  {
    if steps != [] {
      var n := |steps| - 1;
      var before, after := AppRun(parse, steps[..n]), AppRun(parse, steps);
      ScheduleInvariant(parse, steps[..n]);
      var inputs := ReadsOf(steps[..n]);
      match steps[n]
      case Read(r) =>
        OnReadExtends(parse, before.client, r);
        assert (inputs + [r])[..|inputs|] == inputs;
        assert before.client.emitted[..before.applied] == after.client.emitted[..after.applied];
      case Apply =>
        assert inputs + [] == inputs;
        if after.applied != before.applied {
          assert after.client.emitted[..after.applied][..before.applied] == before.client.emitted[..before.applied];
        }
    }
  }

  // ----- What the list shows -----

  function NamesOf(modules: seq<Module>): (names: seq<Name>)
    ensures |names| == |modules|
    ensures forall i :: 0 <= i < |names| ==> names[i] == modules[i].name
  {
    seq(|modules|, i requires 0 <= i < |modules| => modules[i].name)
  }

  /** The list of names without its first occurrence of name. */
  function WithoutFirst(names: seq<Name>, name: Name): seq<Name> {
    if names == [] then []
    else if names[0] == name then names[1..]
    else [names[0]] + WithoutFirst(names[1..], name)
  }

  predicate AllGood(items: seq<Item>) {
    forall i :: 0 <= i < |items| ==> items[i].Good?
  }

  function ItemNames(items: seq<Item>): (names: seq<Name>)
    requires AllGood(items)
    ensures |names| == |items| && forall i :: 0 <= i < |names| ==> names[i] == items[i].name
  {
    seq(|items|, i requires 0 <= i < |items| => items[i].name)
  }

  /** What a message does to the list of names, had it been applied at once. */
  function Effect(names: seq<Name>, message: Message): seq<Name> {
    match message
    case Init(items) => if AllGood(items) then names + ItemNames(items) else names
    case Remove(name) => WithoutFirst(names, name)
    case _ => names
  }

  function Effects(parse: seq<byte> -> Message, frames: seq<seq<byte>>): seq<Name> {
    if frames == [] then []
    else Effect(Effects(parse, frames[..|frames| - 1]), parse(frames[|frames| - 1]))
  }

  lemma {:induction false} WithoutFirstAt(modules: seq<Module>, name: Name)
    ensures var names, i := NamesOf(modules), FirstNamed(modules, name);
            WithoutFirst(names, name) == names[..i] + names[Min(i + 1, |names|)..]
  {
    if modules != [] && modules[0].name != name {
      WithoutFirstAt(modules[1..], name);
      var names, i := NamesOf(modules), FirstNamed(modules, name);
      assert names[1..] == NamesOf(modules[1..]);
      assert names[..i] == [names[0]] + names[1..][..i - 1];
      assert names[Min(i + 1, |names|)..] == names[1..][Min(i, |names| - 1)..];
    }
  }

  /** Deleting a module removes its name where it first occurs, keeping the order of the rest. */
  lemma {:induction false} DeleteNames(t: Table, name: Name)
    ensures NamesOf(Deliver(t, Deleted(name)).modules) == WithoutFirst(NamesOf(t.modules), name)
  {
    WithoutFirstAt(t.modules, name);
    var names, i := NamesOf(t.modules), FirstNamed(t.modules, name);
    if i < |t.modules| {
      assert names[Min(i + 1, |names|)..] == names[i + 1..];
      assert NamesOf(t.modules[..i] + t.modules[i + 1..]) == names[..i] + names[i + 1..];
    } else {
      assert names[..i] == names && names[|names|..] == [];
    }
  }

  lemma {:induction false} DeliverAllAppend(events: seq<Event>, e: Event)
    ensures DeliverAll(events + [e]) == Deliver(DeliverAll(events), e)
  {
    assert (events + [e])[..|events|] == events;
  }

  lemma {:induction false} InitNames(t: Table, items: seq<Item>, next: nat)
    requires AllGood(items)
    ensures NamesOf(Deliver(t, Fetched(Build(items, next))).modules) == NamesOf(t.modules) + ItemNames(items)
  {
    BuildAllIffGood(items, next);
  }

  /** Handling a message appends events whose delivery has the message's effect. */
  lemma {:induction false} HandleShows(c: Client, message: Message)
    ensures NamesOf(DeliverAll(Handle(c, message).emitted).modules) ==
            Effect(NamesOf(DeliverAll(c.emitted).modules), message)
  {
    var t := DeliverAll(c.emitted);
    match message
    case Init(items) =>
      BuildAllIffGood(items, c.next);
      if AllGood(items) {
        DeliverAllAppend(c.emitted, Fetched(Build(items, c.next)));
        InitNames(t, items, c.next);
      }
    case Remove(name) =>
      DeliverAllAppend(c.emitted, Deleted(name));
      DeleteNames(t, name);
    case Signal =>
      DeliverAllAppend(c.emitted, Other);
    case _ =>
  }

  /** Delivering every emitted event shows the effects of the dispatched frames, in order. */
  lemma {:induction false} ClientShows(parse: seq<byte> -> Message, inputs: seq<ReadResult>)
    ensures var c := ClientRun(parse, inputs);
            NamesOf(DeliverAll(c.emitted).modules) == Effects(parse, c.reader.frames)
    decreases |inputs|
  {
    if inputs != [] {
      var n := |inputs| - 1;
      var c := ClientRun(parse, inputs[..n]);
      ClientShows(parse, inputs[..n]);
      var quiet, ready, frame := OnReadHandlesOne(parse, c, inputs[n]);
      if !quiet {
        HandleShows(ready, parse(frame));
        assert (c.reader.frames + [frame])[..|c.reader.frames|] == c.reader.frames;
      }
    }
  }

  /** How many events the messages of these frames emit while the process is alive. */
  function Emissions(parse: seq<byte> -> Message, frames: seq<seq<byte>>): nat {
    if frames == [] then 0 else
    Emissions(parse, frames[..|frames| - 1]) + EmitCount(parse(frames[|frames| - 1]))
  }

  function EmitCount(message: Message): nat {
    match message
    case Init(items) => if AllGood(items) then 1 else 0
    case Remove(_) => 1
    case Signal => 1
    case _ => 0
  }

  lemma {:induction false} BuildAllIffGood(items: seq<Item>, next: nat)
    ensures |Build(items, next)| == |items| <==> AllGood(items)
  {
    var modules := Build(items, next);
    if |modules| == |items| {
      assert forall i :: 0 <= i < |modules| ==> items[i].Good?;
    }
  }

  lemma {:induction false} HandleEmits(c: Client, message: Message)
    ensures |Handle(c, message).emitted| == |c.emitted| + EmitCount(message)
    ensures Handle(c, message).reader == c.reader
  {
    if message.Init? {
      BuildAllIffGood(message.items, c.next);
    }
  }

  /** While frames are handled, one event is emitted for each message that has one. */
  lemma {:induction false} EmissionsCount(parse: seq<byte> -> Message, inputs: seq<ReadResult>)
    ensures var c := ClientRun(parse, inputs);
            Emissions(parse, c.reader.frames) == |c.emitted|
    decreases |inputs|
  {
    if inputs != [] {
      var n := |inputs| - 1;
      var c := ClientRun(parse, inputs[..n]);
      EmissionsCount(parse, inputs[..n]);
      var quiet, ready, frame := OnReadHandlesOne(parse, c, inputs[n]);
      if !quiet {
        assert (c.reader.frames + [frame])[..|c.reader.frames|] == c.reader.frames;
        HandleEmits(ready, parse(frame));
      }
    }
  }

  /**
   At any point of delivery the list shows the effects of a prefix of the dispatched frames: those whose events
   have been applied. Frames still queued have had no effect, and none was skipped or reordered.
   */
  lemma {:induction false} PrefixShows(parse: seq<byte> -> Message, inputs: seq<ReadResult>, k: nat)
    returns (j: nat)
    requires k <= |ClientRun(parse, inputs).emitted|
    ensures var c := ClientRun(parse, inputs);
            && j <= |c.reader.frames|
            && Emissions(parse, c.reader.frames[..j]) == k
            && NamesOf(DeliverAll(c.emitted[..k]).modules) == Effects(parse, c.reader.frames[..j])
    decreases |inputs|
  {
    var c := ClientRun(parse, inputs);
    if k == |c.emitted| {
      j := |c.reader.frames|;
      assert c.emitted[..k] == c.emitted && c.reader.frames[..j] == c.reader.frames;
      ClientShows(parse, inputs);
      EmissionsCount(parse, inputs);
    } else {
      var n := |inputs| - 1;
      var before := ClientRun(parse, inputs[..n]);
      OnReadExtends(parse, before, inputs[n]);
      j := PrefixShows(parse, inputs[..n], k);
      assert c.emitted[..k] == before.emitted[..k];
      assert c.reader.frames[..j] == before.reader.frames[..j];
    }
  }

  /** The end-to-end statement, for every schedule of the two threads. */
  lemma {:induction false} ScheduleShows(parse: seq<byte> -> Message, steps: seq<Step>) returns (j: nat)
    ensures var a := AppRun(parse, steps);
            && j <= |a.client.reader.frames|
            && NamesOf(a.table.modules) == Effects(parse, a.client.reader.frames[..j])
            && Emissions(parse, a.client.reader.frames[..j]) == a.applied
            && (a.applied == |a.client.emitted| ==> NamesOf(a.table.modules) == Effects(parse, a.client.reader.frames))
            && a.client.reader == Feed(ChunksOf(parse, ReadsOf(steps)))
  {
    ScheduleInvariant(parse, steps);
    var a := AppRun(parse, steps);
    j := PrefixShows(parse, ReadsOf(steps), a.applied);
    ClientFeeds(parse, ReadsOf(steps));
    ClientShows(parse, ReadsOf(steps));
    assert a.client.emitted[..|a.client.emitted|] == a.client.emitted;
  }

  /**
   From the sender to the list: once everything emitted has been applied, the list shows every payload sent
   exactly in order, provided no suffix of the reads completed more frames than it has reads.
   */
  lemma {:induction false} EndToEnd(parse: seq<byte> -> Message, steps: seq<Step>, payloads: seq<seq<byte>>)
    requires forall p :: p in payloads ==> Free(p)
    requires var chunks := ChunksOf(parse, ReadsOf(steps));
             Flatten(chunks) == EncodeAll(payloads) && NoSuffixOverrun(chunks)
    requires AppRun(parse, steps).applied == |AppRun(parse, steps).client.emitted|
    ensures NamesOf(AppRun(parse, steps).table.modules) == Effects(parse, payloads)
  {
    var j := ScheduleShows(parse, steps);
    AllDeliveredIff(payloads, ChunksOf(parse, ReadsOf(steps)));
  }

  // ----- When the reader stops -----

  /** An exception escapes from handling the message. */
  predicate Throws(message: Message) {
    message.Malformed? || (message.Init? && !AllGood(message.items))
  }

  /** How many modules a message allocates: one for each item up to the first that throws. */
  function Allocations(message: Message): nat {
    if message.Init? then LeadingGood(message.items) else 0
  }

  function LeadingGood(items: seq<Item>): nat {
    if items == [] || items[0].Bad? then 0 else 1 + LeadingGood(items[1..])
  }

  lemma {:induction false} BuildAllocates(items: seq<Item>, next: nat)
    ensures |Build(items, next)| == LeadingGood(items)
  {
    if items != [] && items[0].Good? {
      BuildAllocates(items[1..], next + 1);
    }
  }

  /** A message that throws ends the process, and what it had allocated is leaked; any other one lets the loop go on. */
  lemma {:induction false} HandleStopsIff(c: Client, message: Message)
    requires c.status == Reading
    ensures var after := Handle(c, message);
            && after.status == (if Throws(message) then Terminated else Reading)
            && after.next == c.next + Allocations(message)
            && |after.leaked| == |c.leaked| + if Throws(message) then Allocations(message) else 0
  {
    if message.Init? {
      BuildAllocates(message.items, c.next);
      BuildAllIffGood(message.items, c.next);
    }
  }

  function AllocationsOf(parse: seq<byte> -> Message, frames: seq<seq<byte>>): nat {
    if frames == [] then 0 else
    AllocationsOf(parse, frames[..|frames| - 1]) + Allocations(parse(frames[|frames| - 1]))
  }

  /** The allocations of the last message, if it throws. */
  function LostTo(parse: seq<byte> -> Message, frames: seq<seq<byte>>): nat {
    if frames != [] && Throws(parse(frames[|frames| - 1])) then Allocations(parse(frames[|frames| - 1])) else 0
  }

  /** Over every run, the allocations are those of the dispatched messages; those of one that threw are leaked. */
  lemma {:induction false} ClientAllocates(parse: seq<byte> -> Message, inputs: seq<ReadResult>)
    ensures var c := ClientRun(parse, inputs);
            var frames := c.reader.frames;
            && c.next == AllocationsOf(parse, frames)
            && |c.leaked| == LostTo(parse, frames)
            && (c.status == Reading ==> NoneThrows(parse, frames))
    decreases |inputs|
  {
    if inputs != [] {
      var c := ClientRun(parse, inputs[..|inputs| - 1]);
      ClientAllocates(parse, inputs[..|inputs| - 1]);
      var quiet, ready, frame := OnReadHandlesOne(parse, c, inputs[|inputs| - 1]);
      if quiet {
        assert ClientRun(parse, inputs).status == Reading ==> c.status == Reading;
      } else {
        HandleStopsIff(ready, parse(frame));
        HandleEmits(ready, parse(frame));
        assert (c.reader.frames + [frame])[..|c.reader.frames|] == c.reader.frames;
      }
    }
  }

  predicate AllReceived(inputs: seq<ReadResult>) {
    forall i :: 0 <= i < |inputs| ==> inputs[i].Received?
  }

  predicate NoneThrows(parse: seq<byte> -> Message, frames: seq<seq<byte>>) {
    forall f :: f in frames ==> !Throws(parse(f))
  }

  /** The bytes of every read. */
  function BytesOf(inputs: seq<ReadResult>): seq<seq<byte>> {
    seq(|inputs|, i requires 0 <= i < |inputs| => if inputs[i].Received? then inputs[i].bytes else [])
  }

  lemma {:induction false} BytesOfLast(inputs: seq<ReadResult>)
    requires inputs != [] && inputs[|inputs| - 1].Received?
    ensures BytesOf(inputs) == BytesOf(inputs[..|inputs| - 1]) + [inputs[|inputs| - 1].bytes]
  {}

  lemma {:induction false} ChunksAreAll(parse: seq<byte> -> Message, inputs: seq<ReadResult>)
    requires ClientRun(parse, inputs).status == Reading
    ensures AllReceived(inputs) && ChunksOf(parse, inputs) == BytesOf(inputs)
    decreases |inputs|
  {
    if inputs != [] {
      ReadingBefore(parse, inputs);
      ChunksAreAll(parse, inputs[..|inputs| - 1]);
      BytesOfLast(inputs);
    }
  }

  lemma {:induction false} ReadingBefore(parse: seq<byte> -> Message, inputs: seq<ReadResult>)
    requires inputs != [] && ClientRun(parse, inputs).status == Reading
    ensures ClientRun(parse, inputs[..|inputs| - 1]).status == Reading && inputs[|inputs| - 1].Received?
  {}

  /** What the reader reports after a read that found it reading. */
  lemma {:induction false} ReadStopsIff(parse: seq<byte> -> Message, inputs: seq<ReadResult>, r: ReadResult)
    requires ClientRun(parse, inputs).status == Reading
    ensures ClientRun(parse, inputs + [r]).status ==
            match r
            case EndOfStream => Closed
            case Failed => Terminated
            case Received(_) =>
              if NoneThrows(parse, Feed(BytesOf(inputs + [r])).frames) then Reading else Terminated
    ensures !r.Received? ==> ClientRun(parse, inputs + [r]).reader == ClientRun(parse, inputs).reader
  {
    var all := inputs + [r];
    assert all[..|all| - 1] == inputs;
    var c := ClientRun(parse, inputs);
    ClientAllocates(parse, inputs);
    if r.Received? {
      ChunksAreAll(parse, inputs);
      ClientFeeds(parse, inputs);
      var chunks := BytesOf(all);
      assert chunks[..|chunks| - 1] == BytesOf(inputs);
      var quiet, ready, frame := OnReadHandlesOne(parse, c, r);
      OnReadFeeds(parse, c, r);
      if !quiet {
        HandleStopsIff(ready, parse(frame));
        HandleEmits(ready, parse(frame));
        assert frame in c.reader.frames + [frame];
      }
    }
  }

  /**
   The reader goes on exactly as long as every read delivers bytes and no frame dispatched so far throws. What it
   reports when it stops is in ReadStopsIff, and then it stays so.
   */
  lemma {:induction false} ReadingIff(parse: seq<byte> -> Message, inputs: seq<ReadResult>)
    ensures ClientRun(parse, inputs).status == Reading <==>
            AllReceived(inputs) && NoneThrows(parse, Feed(BytesOf(inputs)).frames)
    decreases |inputs|
  {
    if inputs != [] {
      var before, r := inputs[..|inputs| - 1], inputs[|inputs| - 1];
      ReadingIff(parse, before);
      assert before + [r] == inputs;
      assert BytesOf(inputs)[..|before|] == BytesOf(before);
      if ClientRun(parse, before).status == Reading {
        ReadStopsIff(parse, before, r);
      } else if AllReceived(inputs) {
        assert Feed(BytesOf(before)).frames <= Feed(BytesOf(inputs)).frames;
      }
    }
  }

  // ----- The UI thread catches up -----

  /** The UI thread takes one event whenever there is one and the process lives, and leaves the reader alone. */
  lemma {:induction false} ApplyTakesOne(parse: seq<byte> -> Message, steps: seq<Step>)
    ensures var a, b := AppRun(parse, steps), AppRun(parse, steps + [Apply]);
            && b.client == a.client
            && b.applied == a.applied + if a.client.status != Terminated && a.applied < |a.client.emitted| then 1 else 0
  {
    assert (steps + [Apply])[..|steps|] == steps;
  }

  function Applies(n: nat): seq<Step> { seq(n, _ => Apply) }

  lemma {:induction false} AppliesUnfold(steps: seq<Step>, n: nat)
    ensures steps + Applies(0) == steps
    ensures steps + Applies(n + 1) == steps + Applies(n) + [Apply]
  {}

  /** b is a after n turns of the UI thread, unless the process was terminated. */
  predicate Caught(a: App, b: App, n: nat) {
    && b.client == a.client
    && b.applied == if a.client.status == Terminated then a.applied else Min(a.applied + n, |a.client.emitted|)
  }

  /** The UI thread catches up with the reader, one event at a time. */
  lemma {:induction false} AppliesCatchUp(parse: seq<byte> -> Message, steps: seq<Step>, n: nat)
    ensures Caught(AppRun(parse, steps), AppRun(parse, steps + Applies(n)), n)
    decreases n
  {
    ScheduleInvariant(parse, steps);
    if n == 0 {
      AppliesUnfold(steps, 0);
    } else {
      AppliesCatchUp(parse, steps, n - 1);
      ApplyTakesOne(parse, steps + Applies(n - 1));
      AppliesUnfold(steps, n - 1);
    }
  }

  lemma {:induction false} AllAppliedShows(parse: seq<byte> -> Message, steps: seq<Step>)
    requires AppRun(parse, steps).applied == |AppRun(parse, steps).client.emitted|
    ensures NamesOf(AppRun(parse, steps).table.modules) == Effects(parse, AppRun(parse, steps).client.reader.frames)
  {
    var j := ScheduleShows(parse, steps);
  }

  /** So once it has run as often as events were waiting, the list shows all dispatched frames. */
  lemma {:induction false} CaughtUpShows(parse: seq<byte> -> Message, steps: seq<Step>, n: nat)
    requires AppRun(parse, steps).client.status != Terminated
    requires AppRun(parse, steps).applied + n >= |AppRun(parse, steps).client.emitted|
    ensures NamesOf(AppRun(parse, steps + Applies(n)).table.modules) ==
            Effects(parse, AppRun(parse, steps).client.reader.frames)
  {
    AppliesCatchUp(parse, steps, n);
    AllAppliedShows(parse, steps + Applies(n));
  }

  lemma {:induction false} EmissionsBound(parse: seq<byte> -> Message, frames: seq<seq<byte>>)
    ensures Emissions(parse, frames) <= |frames|
  {
    if frames != [] {
      EmissionsBound(parse, frames[..|frames| - 1]);
    }
  }

  /**
   From the sender to the list, with no hypothesis on how far the UI thread has come: payloads that do not throw, read
   in any way that overruns no suffix of the reads, under any schedule; when the UI thread then runs as often as there
   are payloads, the list shows exactly their effects.
   */
  lemma {:induction false} EndToEndCaughtUp(parse: seq<byte> -> Message, steps: seq<Step>, script: seq<ReadResult>,
                                            payloads: seq<seq<byte>>, n: nat)
    requires AllReceived(script) && (ReadsOf(steps) == script || ReadsOf(steps) == script + [EndOfStream])
    requires forall p :: p in payloads ==> Free(p)
    requires NoneThrows(parse, payloads)
    requires Flatten(BytesOf(script)) == EncodeAll(payloads) && NoSuffixOverrun(BytesOf(script))
    requires n >= |payloads|
    ensures NamesOf(AppRun(parse, steps + Applies(n)).table.modules) == Effects(parse, payloads)
  {
    AllDeliveredIff(payloads, BytesOf(script));
    ReadingIff(parse, script);
    ReadStopsIff(parse, script, EndOfStream);
    ChunksAreAll(parse, script);
    ClientFeeds(parse, script);
    ScheduleInvariant(parse, steps);
    EmissionsCount(parse, ReadsOf(steps));
    EmissionsBound(parse, payloads);
    CaughtUpShows(parse, steps, n);
  }

  // ----- Who owns each module -----

  /** How often an allocation appears in a list of pointers. */
  function Occurs(modules: seq<Module>, id: nat): nat {
    if modules == [] then 0 else Occurs(modules[1..], id) + if modules[0].id == id then 1 else 0
  }

  lemma {:induction false} OccursAppend(a: seq<Module>, b: seq<Module>, id: nat)
    ensures Occurs(a + b, id) == Occurs(a, id) + Occurs(b, id)
  {
    if a == [] {
      assert a + b == b;
    } else {
      OccursAppend(a[1..], b, id);
      assert (a + b)[1..] == a[1..] + b;
    }
  }

  /** Modules carried by events. */
  function Carried(events: seq<Event>): seq<Module> {
    if events == [] then [] else
    Carried(events[..|events| - 1]) + match events[|events| - 1] { case Fetched(ms) => ms case _ => [] }
  }

  lemma {:induction false} BuildOccurs(items: seq<Item>, next: nat, id: nat)
    ensures Occurs(Build(items, next), id) == if next <= id < next + |Build(items, next)| then 1 else 0
  {
    if items != [] && items[0].Good? {
      BuildOccurs(items[1..], next + 1, id);
      assert Build(items, next)[1..] == Build(items[1..], next + 1);
    }
  }

  /** Every allocated module was either emitted once or leaked by an exception; an exception also ends the process. */
  lemma {:induction false} ClientOwns(parse: seq<byte> -> Message, inputs: seq<ReadResult>, id: nat)
    ensures var c := ClientRun(parse, inputs);
            && Occurs(Carried(c.emitted), id) + Occurs(c.leaked, id) == (if id < c.next then 1 else 0)
            && (c.leaked != [] ==> c.status == Terminated)
    decreases |inputs|
  {
    if inputs != [] {
      var n := |inputs| - 1;
      var c := ClientRun(parse, inputs[..n]);
      ClientOwns(parse, inputs[..n], id);
      var quiet, ready, frame := OnReadHandlesOne(parse, c, inputs[n]);
      if !quiet {
        HandleOwns(ready, parse(frame), id);
      }
    }
  }

  lemma {:induction false} HandleOwns(c: Client, message: Message, id: nat)
    requires c.leaked == []
    requires Occurs(Carried(c.emitted), id) == if id < c.next then 1 else 0
    ensures var after := Handle(c, message);
            && Occurs(Carried(after.emitted), id) + Occurs(after.leaked, id) == (if id < after.next then 1 else 0)
            && (after.leaked != [] ==> after.status == Terminated)
  {
    var after := Handle(c, message);
    if |after.emitted| > |c.emitted| {
      assert after.emitted[..|c.emitted|] == c.emitted;
    }
    if message.Init? {
      var modules := Build(message.items, c.next);
      BuildOccurs(message.items, c.next, id);
      OccursAppend(Carried(c.emitted), modules, id);
      assert c.leaked + modules == modules;
    } else {
      assert Carried(c.emitted) + [] == Carried(c.emitted);
    }
  }

  lemma {:induction false} DeleteOwns(t: Table, name: Name, id: nat)
    ensures var after := Deliver(t, Deleted(name));
            Occurs(after.modules, id) + Occurs(after.freed, id) == Occurs(t.modules, id) + Occurs(t.freed, id)
  {
    var i := FirstNamed(t.modules, name);
    if i < |t.modules| {
      var a, m, b := t.modules[..i], t.modules[i], t.modules[i + 1..];
      assert t.modules == a + ([m] + b);
      assert ([m] + b)[1..] == b;
      OccursAppend(a, [m] + b, id);
      OccursAppend(a, b, id);
      OccursAppend(t.freed, [m], id);
    }
  }

  /** Delivered modules are listed or freed, never both, never twice. */
  lemma {:induction false} TableOwns(events: seq<Event>, id: nat)
    ensures var t := DeliverAll(events);
            Occurs(t.modules, id) + Occurs(t.freed, id) == Occurs(Carried(events), id)
    decreases |events|
  {
    if events != [] {
      var n := |events| - 1;
      var t := DeliverAll(events[..n]);
      TableOwns(events[..n], id);
      match events[n]
      case Fetched(ms) =>
        OccursAppend(t.modules, ms, id);
        OccursAppend(Carried(events[..n]), ms, id);
      case Deleted(name) =>
        assert Carried(events[..n]) + [] == Carried(events[..n]);
        DeleteOwns(t, name, id);
      case Other =>
        assert Carried(events[..n]) + [] == Carried(events[..n]);
    }
  }

  lemma {:induction false} CarriedSplit(events: seq<Event>, k: nat)
    requires k <= |events|
    ensures Carried(events) == Carried(events[..k]) + Carried(events[k..])
    decreases |events|
  {
    var n := |events| - 1;
    if k == |events| {
      assert events[..k] == events;
    } else {
      CarriedSplit(events[..n], k);
      assert events[..n][..k] == events[..k] && events[..n][k..] == events[k..][..n - k];
    }
  }

  /**
   Under every schedule, each module ever allocated is in exactly one place: leaked, queued for the UI thread,
   listed or freed. So no pointer is listed twice, none is freed twice, and none is freed while listed.
   */
  lemma {:induction false} EachModuleHasOneOwner(parse: seq<byte> -> Message, steps: seq<Step>, id: nat)
    ensures var a := AppRun(parse, steps);
            && a.applied <= |a.client.emitted|
            && Occurs(a.client.leaked, id) + Occurs(Carried(a.client.emitted[a.applied..]), id)
               + Occurs(a.table.modules, id) + Occurs(a.table.freed, id) == (if id < a.client.next then 1 else 0)
            && (a.client.leaked != [] ==> a.client.status == Terminated)
  {
    var a := AppRun(parse, steps);
    ScheduleInvariant(parse, steps);
    ClientOwns(parse, ReadsOf(steps), id);
    TableOwns(a.client.emitted[..a.applied], id);
    CarriedSplit(a.client.emitted, a.applied);
    OccursAppend(Carried(a.client.emitted[..a.applied]), Carried(a.client.emitted[a.applied..]), id);
  }
}
