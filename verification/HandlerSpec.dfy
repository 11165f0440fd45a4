/**
 Who owns the target of an any_completion_handler, on values: any number of wrappers, the targets they point
 to, and the life of each target as a list of events. CompletionHandler proves the wrapper objects against
 these functions.
 */
module HandlerSpec {
  import opened Bytes

  type Id = nat       // a target: one any_completion_handler_impl
  type Kind = nat     // the Handler type it was created for

  /** fn_table_ and impl_ of one wrapper. */
  datatype Slot = Slot(table: Option<Kind>, impl: Option<Id>)

  const Empty: Slot := Slot(None, None)

  /** What happens to a target. */
  datatype Event = Allocated | Constructed | MovedFrom | Destroyed | Released | Invoked

  /** The targets that exist, with their types; and what happened to each target, in order. */
  datatype Pool = Pool(live: map<Id, Kind>, history: seq<seq<Event>>)

  /** The target is new: allocated and constructed. */
  const BORN: seq<Event> := [Allocated, Constructed]
  /** The constructor threw: uninit_deleter gives the memory back. */
  const STILLBORN: seq<Event> := [Allocated, Released]
  /** Destroyed without being called, or its move constructor threw. */
  const DROPPED: seq<Event> := [Allocated, Constructed, Destroyed, Released]
  /** Called: moved out, destroyed and released before the handler runs. */
  const CALLED: seq<Event> := [Allocated, Constructed, MovedFrom, Destroyed, Released, Invoked]

  // ----- Targets -----

  /** any_completion_handler_impl::create */
  function Create(pool: Pool, kind: Kind, throws: bool): (Pool, Option<Id>) {
    var id := |pool.history|;
    if throws then (pool.(history := pool.history + [STILLBORN]), None)
    else (Pool(pool.live[id := kind], pool.history + [BORN]), Some(id))
  }

  /** The target takes its last events and its memory is gone. */
  function Finish(pool: Pool, id: Id, events: seq<Event>): Pool
    requires id < |pool.history|
  {
    Pool(pool.live - {id}, pool.history[id := pool.history[id] + events])
  }

  /** The destructor of a wrapper. */
  function Drop(pool: Pool, s: Slot): Pool
    requires s.impl.Some? ==> s.impl.value < |pool.history|
  {
    if s.impl.Some? then Finish(pool, s.impl.value, [Destroyed, Released]) else pool
  }

  // ----- Wrappers -----

  type Name = nat

  datatype World = World(slots: map<Name, Slot>, pool: Pool)

  const Nothing: World := World(map[], Pool(map[], []))

  datatype Op =
    | New(w: Name, kind: Kind, throws: bool)   // any_completion_handler(h)
    | NewEmpty(w: Name)                        // any_completion_handler()
    | MoveNew(w: Name, from: Name)             // any_completion_handler(std::move(from))
    | MoveAssign(w: Name, from: Name)          // w = std::move(from)
    | AssignNull(w: Name)                      // w = nullptr
    | Swap(w: Name, other: Name)
    | Call(w: Name, throws: bool)              // w(...), whose handler's move constructor may throw
    | Destruct(w: Name)

  /** The wrappers an operation names exist, and the one it creates does not. */
  predicate Admissible(names: set<Name>, op: Op) {
    match op
    case New(w, _, _) => w !in names
    case NewEmpty(w) => w !in names
    case MoveNew(w, from) => w !in names && from in names
    case MoveAssign(w, from) => w in names && from in names
    case AssignNull(w) => w in names
    case Swap(w, other) => w in names && other in names
    case Call(w, _) => w in names
    case Destruct(w) => w in names
  }

  /** What each operation does; inadmissible ones do nothing. */
  function Step(world: World, op: Op): World
    requires Linear(world)
  {
    if !Admissible(world.slots.Keys, op) then world else
    var slots, pool := world.slots, world.pool;
    match op
    case New(w, kind, throws) =>
      var (next, id) := Create(pool, kind, throws);
      if id.None? then World(slots, next) else World(slots[w := Slot(Some(kind), id)], next)
    case NewEmpty(w) => World(slots[w := Empty], pool)
    case MoveNew(w, from) => World(slots[w := slots[from]][from := Empty], pool)
    case MoveAssign(w, from) =>
      if w == from then world
      else World(slots[w := slots[from]][from := Empty], Drop(pool, slots[w]))
    case AssignNull(w) => World(slots[w := Empty], Drop(pool, slots[w]))
    case Swap(w, other) => World(slots[w := slots[other]][other := slots[w]], pool)
    case Call(w, throws) =>
      if slots[w].impl.None? then world
      else World(slots[w := slots[w].(impl := None)],
                 Finish(pool, slots[w].impl.value,
                        if throws then [Destroyed, Released] else [MovedFrom, Destroyed, Released, Invoked]))
    case Destruct(w) => World(slots - {w}, Drop(pool, slots[w]))
  }

  // ----- Linear ownership -----

  /** A wrapper that holds a target holds an existing one, through the function table of the target's own type. */
  ghost predicate Typed(world: World) {
    forall w :: w in world.slots && world.slots[w].impl.Some? ==>
      var id := world.slots[w].impl.value;
      id in world.pool.live && world.slots[w].table == Some(world.pool.live[id])
  }

  /** No two wrappers hold the same target. */
  ghost predicate Unshared(world: World) {
    forall v, w :: v in world.slots && w in world.slots && v != w && world.slots[v].impl.Some? ==>
      world.slots[v].impl != world.slots[w].impl
  }

  /** Every target that exists is held by some wrapper. */
  ghost predicate Covered(world: World) {
    forall id :: id in world.pool.live ==> exists w :: w in world.slots && world.slots[w].impl == Some(id)
  }

  /** A target exists exactly between its construction and its end, and its life is one of the four above. */
  ghost predicate Lives(pool: Pool) {
    && (forall id :: id in pool.live ==> id < |pool.history|)
    && (forall id :: 0 <= id < |pool.history| ==>
          if id in pool.live then pool.history[id] == BORN
          else pool.history[id] in {STILLBORN, DROPPED, CALLED})
  }

  ghost predicate Linear(world: World) {
    Typed(world) && Unshared(world) && Covered(world) && Lives(world.pool)
  }

  lemma {:induction false} CreateLives(pool: Pool, kind: Kind, throws: bool)
    requires Lives(pool)
    ensures Lives(Create(pool, kind, throws).0)
  {}

  lemma {:induction false} FinishLives(pool: Pool, id: Id, events: seq<Event>)
    requires Lives(pool) && id in pool.live
    requires events == [Destroyed, Released] || events == [MovedFrom, Destroyed, Released, Invoked]
    ensures Lives(Finish(pool, id, events))
  {
    assert BORN + [Destroyed, Released] == DROPPED;
    assert BORN + [MovedFrom, Destroyed, Released, Invoked] == CALLED;
  }

  /** Where the target that v holds before the operation is held after it. */
  function HolderAfter(op: Op, v: Name): Name {
    match op
    case MoveNew(w, from) => if v == from then w else v
    case MoveAssign(w, from) => if v == from then w else v
    case Swap(w, other) => if v == w then other else if v == other then w else v
    case _ => v
  }

  /** Where the target that w holds after the operation was held before it. */
  function HolderBefore(op: Op, w: Name): Name {
    match op
    case MoveNew(v, from) => if w == v then from else w
    case MoveAssign(v, from) => if w == v then from else w
    case Swap(v, other) => if w == v then other else if w == other then v else w
    case _ => w
  }

  lemma {:induction false} StepKeepsCovered(world: World, op: Op)
    requires Linear(world) && Admissible(world.slots.Keys, op)
    ensures Covered(Step(world, op))
  {
    var next := Step(world, op);
    forall id | id in next.pool.live
      ensures exists w :: w in next.slots && next.slots[w].impl == Some(id)
    {
      if id in world.pool.live {
        var v :| v in world.slots && world.slots[v].impl == Some(id);
        var w := HolderAfter(op, v);
        assert w in next.slots && next.slots[w].impl == Some(id);
      } else {
        assert op.w in next.slots && next.slots[op.w].impl == Some(id);
      }
    }
  }

  lemma {:induction false} StepKeepsTyped(world: World, op: Op)
    requires Linear(world) && Admissible(world.slots.Keys, op)
    ensures Typed(Step(world, op))
  {
    var next := Step(world, op);
    forall w | w in next.slots && next.slots[w].impl.Some?
      ensures next.slots[w].impl.value in next.pool.live
      ensures next.slots[w].table == Some(next.pool.live[next.slots[w].impl.value])
    {
      if !(op.New? && w == op.w) {
        var v := HolderBefore(op, w);
        assert v in world.slots && world.slots[v] == next.slots[w];
      }
    }
  }

  lemma {:induction false} StepKeepsUnshared(world: World, op: Op)
    requires Linear(world) && Admissible(world.slots.Keys, op)
    ensures Unshared(Step(world, op))
  {
    var next := Step(world, op);
    forall v, w | v in next.slots && w in next.slots && v != w && next.slots[v].impl.Some?
      ensures next.slots[v].impl != next.slots[w].impl
    {
      var x, y := HolderBefore(op, v), HolderBefore(op, w);
      if !op.New? && next.slots[w].impl.Some? {
        assert x in world.slots && world.slots[x] == next.slots[v];
        assert y in world.slots && world.slots[y] == next.slots[w];
      }
    }
  }

  lemma {:induction false} StepKeepsLives(world: World, op: Op)
    requires Linear(world) && Admissible(world.slots.Keys, op)
    ensures Lives(Step(world, op).pool)
  {
    match op
    case New(_, kind, throws) => CreateLives(world.pool, kind, throws);
    case MoveAssign(w, _) => DropLives(world.pool, world.slots[w]);
    case AssignNull(w) => DropLives(world.pool, world.slots[w]);
    case Destruct(w) => DropLives(world.pool, world.slots[w]);
    case Call(w, throws) =>
      if world.slots[w].impl.Some? {
        FinishLives(world.pool, world.slots[w].impl.value,
                    if throws then [Destroyed, Released] else [MovedFrom, Destroyed, Released, Invoked]);
      }
    case _ =>
  }

  lemma {:induction false} DropLives(pool: Pool, s: Slot)
    requires Lives(pool) && (s.impl.Some? ==> s.impl.value in pool.live)
    ensures Lives(Drop(pool, s))
  {
    if s.impl.Some? {
      FinishLives(pool, s.impl.value, [Destroyed, Released]);
    }
  }

  lemma {:induction false} StepKeepsLinear(world: World, op: Op)
    requires Linear(world)
    ensures Linear(Step(world, op))
  {
    if Admissible(world.slots.Keys, op) {
      StepKeepsTyped(world, op);
      StepKeepsUnshared(world, op);
      StepKeepsCovered(world, op);
      StepKeepsLives(world, op);
    }
  }

  // ----- Runs -----

  function Run(ops: seq<Op>): (world: World)
    ensures Linear(world)
  {
    if ops == [] then Nothing
    else
      var before := Run(ops[..|ops| - 1]);
      StepKeepsLinear(before, ops[|ops| - 1]);
      Step(before, ops[|ops| - 1])
  }

  lemma {:induction false} RunUnfolds(ops: seq<Op>, i: nat)
    requires i < |ops|
    ensures Run(ops[..i + 1]) == Step(Run(ops[..i]), ops[i])
  {
    assert ops[..i + 1][..i] == ops[..i];
  }

  /** Every target is released once, after which and only then a handler runs, at most once. */
  lemma {:induction false} EachTargetEndsOnce(ops: seq<Op>, id: Id)
    requires id < |Run(ops).pool.history|
    ensures var events := Run(ops).pool.history[id];
            && multiset(events)[Released] == (if id in Run(ops).pool.live then 0 else 1)
            && multiset(events)[Invoked] <= 1
            && multiset(events)[Destroyed] == (if events == BORN || events == STILLBORN then 0 else 1)
            && forall i :: 0 <= i < |events| && events[i] == Invoked ==> Released in events[..i]
  {
    var pool := Run(ops).pool;
    var events := pool.history[id];
    assert Lives(pool);
    assert events in {BORN, STILLBORN, DROPPED, CALLED};
    assert CALLED[4] == Released;
    if events == CALLED {
      assert events[..5][4] == Released;
    }
  }

  // ----- The same, told target by target -----

  /** Held: by which wrapper, and for which type; Gone: with what had happened by then. */
  datatype Fate = Held(w: Name, kind: Kind) | Gone(events: seq<Event>)

  /** No world, only the wrappers' names and what became of each target. */
  datatype Books = Books(names: set<Name>, fates: seq<Fate>)

  /** What an operation does to one target that exists. */
  function FateAfter(fate: Fate, op: Op): Fate {
    if fate.Gone? then fate else
    var dropped := Gone([Allocated, Constructed, Destroyed, Released]);
    match op
    case New(_, _, _) => fate
    case NewEmpty(_) => fate
    case MoveNew(w, from) => if fate.w == from then fate.(w := w) else fate
    case MoveAssign(w, from) =>
      if w == from then fate else if fate.w == from then fate.(w := w) else if fate.w == w then dropped else fate
    case AssignNull(w) => if fate.w == w then dropped else fate
    case Swap(w, other) => if fate.w == w then fate.(w := other) else if fate.w == other then fate.(w := w) else fate
    case Call(w, throws) =>
      if fate.w != w then fate
      else if throws then dropped
      else Gone([Allocated, Constructed, MovedFrom, Destroyed, Released, Invoked])
    case Destruct(w) => if fate.w == w then dropped else fate
  }

  function BooksAfter(b: Books, op: Op): Books {
    var fates := seq(|b.fates|, i requires 0 <= i < |b.fates| => FateAfter(b.fates[i], op));
    match op
    case New(w, kind, throws) =>
      if w in b.names then b
      else if throws then Books(b.names, fates + [Gone([Allocated, Released])])
      else Books(b.names + {w}, fates + [Held(w, kind)])
    case NewEmpty(w) => Books(b.names + {w}, fates)
    case MoveNew(w, from) => if w in b.names || from !in b.names then b else Books(b.names + {w}, fates)
    case MoveAssign(w, from) => if {w, from} <= b.names then Books(b.names, fates) else b
    case Swap(w, other) => if {w, other} <= b.names then Books(b.names, fates) else b
    case AssignNull(w) => if w in b.names then Books(b.names, fates) else b
    case Call(w, _) => if w in b.names then Books(b.names, fates) else b
    case Destruct(w) => if w in b.names then Books(b.names - {w}, fates) else b
  }

  function BooksOf(ops: seq<Op>): Books {
    if ops == [] then Books({}, []) else BooksAfter(BooksOf(ops[..|ops| - 1]), ops[|ops| - 1])
  }

  ghost predicate Holds(world: World, w: Name, id: Id) {
    w in world.slots && world.slots[w].impl == Some(id)
  }

  ghost predicate Meets(world: World, id: Id, fate: Fate) {
    && id < |world.pool.history|
    && match fate
       case Held(w, kind) =>
         Holds(world, w, id) && id in world.pool.live && world.pool.live[id] == kind
         && world.pool.history[id] == [Allocated, Constructed]
       case Gone(events) => id !in world.pool.live && world.pool.history[id] == events
  }

  ghost predicate Agrees(world: World, b: Books) {
    && world.slots.Keys == b.names && |world.pool.history| == |b.fates|
    && forall id :: 0 <= id < |b.fates| ==> Meets(world, id, b.fates[id])
  }

  lemma {:induction false} FateFollows(world: World, op: Op, id: Id, fate: Fate)
    requires Linear(world) && Admissible(world.slots.Keys, op) && Meets(world, id, fate)
    ensures Meets(Step(world, op), id, FateAfter(fate, op))
  {
    assert [Allocated, Constructed] + [Destroyed, Released] == [Allocated, Constructed, Destroyed, Released];
    assert [Allocated, Constructed] + [MovedFrom, Destroyed, Released, Invoked] ==
           [Allocated, Constructed, MovedFrom, Destroyed, Released, Invoked];
  }

  lemma {:induction false} NamesFollow(world: World, op: Op, b: Books)
    requires Linear(world) && world.slots.Keys == b.names && |world.pool.history| == |b.fates|
    ensures var next, books := Step(world, op), BooksAfter(b, op);
            next.slots.Keys == books.names && |next.pool.history| == |books.fates|
  {}

  lemma {:induction false} BooksFollow(world: World, op: Op, b: Books)
    requires Linear(world) && Agrees(world, b)
    ensures Agrees(Step(world, op), BooksAfter(b, op))
  {
    NamesFollow(world, op, b);
    if Admissible(world.slots.Keys, op) {
      var next, books := Step(world, op), BooksAfter(b, op);
      forall id | 0 <= id < |books.fates|
        ensures Meets(next, id, books.fates[id])
      {
        if id < |b.fates| {
          FateFollows(world, op, id, b.fates[id]);
          assert books.fates[id] == FateAfter(b.fates[id], op);
        }
      }
    }
  }

  /**
   Over every run, each target is where the books say: held by the wrapper that moves and swaps took it to, or gone
   after exactly what its end implies. A call runs the handler, after everything else.
   */
  lemma {:induction false} RunKeepsBooks(ops: seq<Op>)
    ensures Agrees(Run(ops), BooksOf(ops))
  {
    if ops != [] {
      RunKeepsBooks(ops[..|ops| - 1]);
      BooksFollow(Run(ops[..|ops| - 1]), ops[|ops| - 1], BooksOf(ops[..|ops| - 1]));
    }
  }

  /** The operation calls the wrapper that holds the target, and the handler's move does not throw. */
  ghost predicate CalledBy(world: World, op: Op, id: Id) {
    op.Call? && !op.throws && Holds(world, op.w, id)
  }

  /** The operation ends the target without running it. */
  ghost predicate DroppedBy(world: World, op: Op, id: Id) {
    match op
    case Call(w, throws) => throws && Holds(world, w, id)
    case AssignNull(w) => Holds(world, w, id)
    case Destruct(w) => Holds(world, w, id)
    case MoveAssign(w, from) => w != from && from in world.slots && Holds(world, w, id)
    case _ => false
  }

  ghost predicate CalledAt(ops: seq<Op>, i: nat, id: Id) {
    i < |ops| && CalledBy(Run(ops[..i]), ops[i], id)
  }

  ghost predicate DroppedAt(ops: seq<Op>, i: nat, id: Id) {
    i < |ops| && DroppedBy(Run(ops[..i]), ops[i], id)
  }

  lemma {:induction false} StepEnds(world: World, op: Op, id: Id)
    requires Linear(world) && id < |Step(world, op).pool.history|
    ensures var before := if id < |world.pool.history| then world.pool.history[id] else [];
            var after := Step(world, op).pool.history[id];
            && (Invoked in after <==> Invoked in before || CalledBy(world, op, id))
            && (after == [Allocated, Constructed, Destroyed, Released] <==>
                  before == [Allocated, Constructed, Destroyed, Released] || DroppedBy(world, op, id))
  {
    assert [Allocated, Constructed] + [Destroyed, Released] == [Allocated, Constructed, Destroyed, Released];
    assert [Allocated, Constructed] + [MovedFrom, Destroyed, Released, Invoked] ==
           [Allocated, Constructed, MovedFrom, Destroyed, Released, Invoked];
    assert CALLED[5] == Invoked;
  }

  /** A handler has run exactly when a call found its target, and a target was dropped exactly when an operation did. */
  lemma {:induction false} InvokedIffCalled(ops: seq<Op>, id: Id)
    requires id < |Run(ops).pool.history|
    ensures Invoked in Run(ops).pool.history[id] <==> exists i: nat :: CalledAt(ops, i, id)
    ensures Run(ops).pool.history[id] == [Allocated, Constructed, Destroyed, Released] <==>
            exists i: nat :: DroppedAt(ops, i, id)
    decreases |ops|
  {
    if ops != [] {
      var n := |ops| - 1;
      var before := Run(ops[..n]);
      StepEnds(before, ops[n], id);
      PrefixCalled(ops, id);
      PrefixDropped(ops, id);
      if id < |before.pool.history| {
        InvokedIffCalled(ops[..n], id);
      } else {
        NothingBeforeBirth(ops[..n], id);
      }
    }
  }

  lemma {:induction false} SamePrefix(ops: seq<Op>, n: nat, i: nat)
    requires i < n <= |ops|
    ensures ops[..n][..i] == ops[..i] && ops[..n][i] == ops[i]
  {}

  lemma {:induction false} PrefixCalled(ops: seq<Op>, id: Id)
    requires ops != []
    ensures var n := |ops| - 1;
            (exists i: nat :: CalledAt(ops, i, id)) <==>
            (exists i: nat :: CalledAt(ops[..n], i, id)) || CalledBy(Run(ops[..n]), ops[n], id)
  {
    var n := |ops| - 1;
    if i: nat :| CalledAt(ops[..n], i, id) {
      SamePrefix(ops, n, i);
      assert CalledAt(ops, i, id);
    }
    if CalledBy(Run(ops[..n]), ops[n], id) {
      assert CalledAt(ops, n, id);
    }
    if i: nat :| CalledAt(ops, i, id) {
      if i < n {
        SamePrefix(ops, n, i);
        assert CalledAt(ops[..n], i, id);
      }
    }
  }

  lemma {:induction false} PrefixDropped(ops: seq<Op>, id: Id)
    requires ops != []
    ensures var n := |ops| - 1;
            (exists i: nat :: DroppedAt(ops, i, id)) <==>
            (exists i: nat :: DroppedAt(ops[..n], i, id)) || DroppedBy(Run(ops[..n]), ops[n], id)
  {
    var n := |ops| - 1;
    if i: nat :| DroppedAt(ops[..n], i, id) {
      SamePrefix(ops, n, i);
      assert DroppedAt(ops, i, id);
    }
    if DroppedBy(Run(ops[..n]), ops[n], id) {
      assert DroppedAt(ops, n, id);
    }
    if i: nat :| DroppedAt(ops, i, id) {
      if i < n {
        SamePrefix(ops, n, i);
        assert DroppedAt(ops[..n], i, id);
      }
    }
  }

  lemma {:induction false} NothingBeforeBirth(ops: seq<Op>, id: Id)
    requires id >= |Run(ops).pool.history|
    ensures !exists i: nat :: CalledAt(ops, i, id) || DroppedAt(ops, i, id)
    decreases |ops|
  {
    if ops != [] {
      var n := |ops| - 1;
      assert |Run(ops[..n]).pool.history| <= |Run(ops).pool.history|;
      NothingBeforeBirth(ops[..n], id);
      PrefixCalled(ops, id);
      PrefixDropped(ops, id);
    }
  }

  /** Once the last wrapper is gone, or empty, no target is left. */
  lemma {:induction false} NothingLeaks(ops: seq<Op>)
    requires forall w :: w in Run(ops).slots ==> Run(ops).slots[w].impl.None?
    ensures Run(ops).pool.live == map[]
  {
    var world := Run(ops);
    assert forall id :: id !in world.pool.live;
  }

  /**
   Move assignment is what the source writes: move into a temporary, swap, let the temporary go. For a self-move
   the two swaps cancel and nothing is destroyed.
   */
  lemma {:induction false} MoveAssignViaTemporary(world: World, w: Name, from: Name, temp: Name)
    requires Linear(world) && w in world.slots && from in world.slots && temp !in world.slots
    ensures var moved := Step(world, MoveNew(temp, from));
            && Linear(moved) && Linear(Step(moved, Swap(temp, w)))
            && Step(Step(moved, Swap(temp, w)), Destruct(temp)) == Step(world, MoveAssign(w, from))
  {
    var moved := Step(world, MoveNew(temp, from));
    StepKeepsLinear(world, MoveNew(temp, from));
    StepKeepsLinear(moved, Swap(temp, w));
    TemporaryCancels(world.slots, w, from, temp);
  }

  lemma {:induction false} TemporaryCancels(slots: map<Name, Slot>, w: Name, from: Name, temp: Name)
    requires w in slots && from in slots && temp !in slots
    ensures var moved := slots[temp := slots[from]][from := Empty];
            var swapped := moved[temp := moved[w]][w := moved[temp]];
            && swapped[temp] == (if w == from then Empty else slots[w])
            && swapped - {temp} == (if w == from then slots else slots[w := slots[from]][from := Empty])
  {}

  /** After a call the wrapper tests empty, but unlike a new empty wrapper it keeps its function table. */
  lemma {:induction false} CallLeavesTable(world: World, w: Name, throws: bool)
    requires Linear(world) && w in world.slots && world.slots[w].impl.Some?
    ensures Linear(Step(world, Call(w, throws)))
    ensures var s := Step(world, Call(w, throws)).slots[w];
            s == Slot(world.slots[w].table, None) && s.table.Some?
    ensures Step(world, Call(w, throws)).pool.live == world.pool.live - {world.slots[w].impl.value}
    ensures Step(Step(world, Call(w, throws)), Call(w, throws)) == Step(world, Call(w, throws))
  {
    StepKeepsLinear(world, Call(w, throws));
  }

  // ----- The wrapper's allocator -----

  /** What any_completion_handler_allocator::allocate does: it looks at fn_table_ only. */
  datatype Route = BadAlloc | Through(table: Kind, impl: Option<Id>)

  function AllocatorRoute(s: Slot): Route {
    if s.table.Some? then Through(s.table.value, s.impl) else BadAlloc
  }

  /** The request reaches an existing target of the type that the table was made for. */
  ghost predicate Reaches(pool: Pool, r: Route) {
    && r.Through? && r.impl.Some? && r.impl.value in pool.live
    && pool.live[r.impl.value] == r.table
  }

  /** The names of the wrappers that were called while they held a target, wherever moves and swaps took them. */
  function SpentStep(world: World, spent: set<Name>, op: Op): set<Name> {
    if !Admissible(world.slots.Keys, op) then spent else
    match op
    case MoveNew(w, from) => spent - {from} + if from in spent then {w} else {}
    case MoveAssign(w, from) =>
      if w == from then spent else spent - {w, from} + if from in spent then {w} else {}
    case AssignNull(w) => spent - {w}
    case Swap(w, other) =>
      spent - {w, other} + (if w in spent then {other} else {}) + if other in spent then {w} else {}
    case Call(w, _) => if world.slots[w].impl.Some? then spent + {w} else spent
    case Destruct(w) => spent - {w}
    case _ => spent
  }

  function Spent(ops: seq<Op>): set<Name> {
    if ops == [] then {}
    else SpentStep(Run(ops[..|ops| - 1]), Spent(ops[..|ops| - 1]), ops[|ops| - 1])
  }

  /** The spent wrappers are those with a function table and no target. */
  ghost predicate Tracks(slots: map<Name, Slot>, spent: set<Name>) {
    && spent <= slots.Keys
    && forall w :: w in slots ==> (w in spent <==> slots[w].table.Some? && slots[w].impl.None?)
  }

  lemma {:induction false} SpentStepTracks(world: World, spent: set<Name>, op: Op)
    requires Linear(world) && Tracks(world.slots, spent)
    ensures Tracks(Step(world, op).slots, SpentStep(world, spent, op))
  {
    if Admissible(world.slots.Keys, op) {
      var next, left := Step(world, op).slots, SpentStep(world, spent, op);
      forall w | w in next
        ensures w in left <==> next[w].table.Some? && next[w].impl.None?
      {
        var v := HolderBefore(op, w);
        assert v in world.slots ==> (v in spent <==> world.slots[v].table.Some? && world.slots[v].impl.None?);
      }
    }
  }

  lemma {:induction false} SpentIsTracked(ops: seq<Op>)
    ensures Tracks(Run(ops).slots, Spent(ops))
    decreases |ops|
  {
    if ops != [] {
      SpentIsTracked(ops[..|ops| - 1]);
      SpentStepTracks(Run(ops[..|ops| - 1]), Spent(ops[..|ops| - 1]), ops[|ops| - 1]);
    }
  }

  /**
   Over every run, the test of fn_table_ is enough exactly for the wrappers that are not spent: theirs is a request
   to the target, or bad_alloc where there is none. A spent wrapper passes a null target on.
   */
  lemma {:induction false} AllocatorGuardIff(ops: seq<Op>, w: Name)
    requires w in Run(ops).slots
    ensures var r := AllocatorRoute(Run(ops).slots[w]);
            && (r.BadAlloc? || Reaches(Run(ops).pool, r) <==> w !in Spent(ops))
            && (r.Through? && r.impl.None? <==> w in Spent(ops))
            && (w !in Spent(ops) ==> (r.BadAlloc? <==> Run(ops).slots[w].impl.None?))
  {
    SpentIsTracked(ops);
    assert Typed(Run(ops));
  }

  /** A wrapper created, called and asked for its allocator. */
  lemma {:induction false} CalledWrapperPassesNull(w: Name, kind: Kind)
    ensures w in Run([New(w, kind, false), Call(w, false)]).slots
    ensures AllocatorRoute(Run([New(w, kind, false), Call(w, false)]).slots[w]) == Through(kind, None)
  {
    var ops := [New(w, kind, false), Call(w, false)];
    assert ops[..1] == [ops[0]] && ops[..1][..0] == [];
    assert Run([]) == Nothing;
    assert Run(ops[..1]) == Step(Nothing, ops[0]);
    assert Run(ops) == Step(Run(ops[..1]), ops[1]);
  }
}
