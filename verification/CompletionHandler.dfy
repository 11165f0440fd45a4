/** any_completion_handler and its targets, as the objects they are. */
module CompletionHandler {
  import opened Bytes
  import opened HandlerSpec

  /** Where targets live. Each one is any_completion_handler_impl<Handler> for the Handler type in `live`. */
  class ImplPool {
    var live: map<Id, Kind>
    var history: seq<seq<Event>>

    ghost function Abs(): Pool
      reads this
    {
      Pool(live, history)
    }

    constructor ()
      ensures Abs() == Nothing.pool
    {
      live, history := map[], [];
    }

    method Record(id: Id, e: Event)
      requires id < |history|
      modifies `history
      ensures history == old(history)[id := old(history)[id] + [e]]
    {
      history := history[id := history[id] + [e]];
    }

    /** create: allocate, construct in place; a throwing constructor makes uninit_deleter give the memory back. */
    method Create(kind: Kind, throws: bool) returns (id: Option<Id>)
      modifies this
      ensures (Abs(), id) == HandlerSpec.Create(old(Abs()), kind, throws)
    {
      var ptr := |history|;
      history := history + [[Allocated]];
      if throws {
        Record(ptr, Released);
        assert [Allocated] + [Released] == STILLBORN;
        assert history == old(history) + [STILLBORN];
        return None;
      }
      Record(ptr, Constructed);
      assert [Allocated] + [Constructed] == BORN;
      assert history == old(history) + [BORN];
      live := live[ptr := kind];
      return Some(ptr);
    }

    /** The deleter: destroy, then deallocate. The table's kind is the type that the pointer is cast to. */
    method Delete(kind: Kind, id: Id)
      requires id < |history| && id in live && live[id] == kind
      modifies this
      ensures Abs() == Finish(old(Abs()), id, [Destroyed, Released])
    {
      Record(id, Destroyed);
      Record(id, Released);
      assert old(history)[id] + [Destroyed] + [Released] == old(history)[id] + [Destroyed, Released];
      live := live - {id};
    }

    /** call: move the handler out, release the memory, then run it. */
    method Call(kind: Kind, id: Id, throws: bool)
      requires id < |history| && id in live && live[id] == kind
      modifies this
      ensures Abs() == Finish(old(Abs()), id,
                              if throws then [Destroyed, Released] else [MovedFrom, Destroyed, Released, Invoked])
    {
      if throws {
        // The handler's move constructor throws; the unique_ptr cleans up.
        Delete(kind, id);
        return;
      }
      Record(id, MovedFrom);
      Delete(kind, id);
      Record(id, Invoked);
      assert old(history)[id] + [MovedFrom] + [Destroyed, Released] + [Invoked] ==
             old(history)[id] + [MovedFrom, Destroyed, Released, Invoked];
    }
  }

  datatype CallResult = Returned | BadFunctionCall

  class AnyCompletionHandler {
    var fnTable: Option<Kind>
    var impl: Option<Id>

    ghost function Abs(): Slot
      reads this
    {
      Slot(fnTable, impl)
    }

    /** The target exists and the function table is the one of its type. */
    ghost predicate Targets(pool: ImplPool)
      reads this, pool
    {
      impl.Some? ==>
        impl.value < |pool.history| && impl.value in pool.live && fnTable == Some(pool.live[impl.value])
    }

    constructor ()
      ensures Abs() == Empty
    {
      fnTable, impl := None, None;
    }

    constructor Target(kind: Kind, id: Id)
      ensures Abs() == Slot(Some(kind), Some(id))
    {
      fnTable, impl := Some(kind), Some(id);
    }

    constructor MoveFrom(other: AnyCompletionHandler)
      modifies other
      ensures Abs() == old(other.Abs()) && other.Abs() == Empty
    {
      fnTable, impl := other.fnTable, other.impl;
      new;
      other.fnTable, other.impl := None, None;
    }

    method Swap(other: AnyCompletionHandler)
      modifies this, other
      ensures Abs() == old(other.Abs()) && other.Abs() == old(Abs())
    {
      var table := fnTable;
      fnTable := other.fnTable;
      other.fnTable := table;
      var target := impl;
      impl := other.impl;
      other.impl := target;
    }

    /** The destructor. */
    method Destruct(pool: ImplPool)
      requires Targets(pool)
      modifies pool
      ensures pool.Abs() == Drop(old(pool.Abs()), Abs())
    {
      if impl.Some? {
        pool.Delete(fnTable.value, impl.value);
      }
    }

    /** operator=(any_completion_handler&&) */
    method MoveAssign(pool: ImplPool, other: AnyCompletionHandler)
      requires Targets(pool)
      modifies this, other, pool
      ensures other == this ==> Abs() == old(Abs()) && pool.Abs() == old(pool.Abs())
      ensures other != this ==>
                && Abs() == old(other.Abs()) && other.Abs() == Empty
                && pool.Abs() == Drop(old(pool.Abs()), old(Abs()))
    {
      var temp := new AnyCompletionHandler.MoveFrom(other);
      temp.Swap(this);
      temp.Destruct(pool);
    }

    /** operator=(nullptr_t) */
    method AssignNull(pool: ImplPool)
      requires Targets(pool)
      modifies this, pool
      ensures Abs() == Empty && pool.Abs() == Drop(old(pool.Abs()), old(Abs()))
    {
      var temp := new AnyCompletionHandler();
      temp.Swap(this);
      temp.Destruct(pool);
    }

    /** operator()(args...) */
    method Call(pool: ImplPool, throws: bool) returns (r: CallResult)
      requires Targets(pool)
      modifies `impl, pool
      ensures r.BadFunctionCall? <==> old(impl).None?
      ensures impl == None
      ensures old(impl).None? ==> pool.Abs() == old(pool.Abs())
      ensures old(impl).Some? ==>
                pool.Abs() == Finish(old(pool.Abs()), old(impl).value,
                                     if throws then [Destroyed, Released] else [MovedFrom, Destroyed, Released, Invoked])
    {
      if impl.Some? {
        var target := impl.value;
        impl := None;
        pool.Call(fnTable.value, target, throws);
        return Returned;
      }
      return BadFunctionCall;
    }
  }

  /** A program with any number of wrappers. */
  class Program {
    const pool: ImplPool
    var wrappers: map<Name, AnyCompletionHandler>
    ghost var repr: set<object>

    /** Different names are different objects. */
    ghost predicate Valid()
      reads this
    {
      && pool in repr && this !in repr
      && (forall w :: w in wrappers ==> wrappers[w] in repr)
      && (forall v, w :: v in wrappers && w in wrappers && v != w ==> wrappers[v] != wrappers[w])
    }

    ghost function Abs(): World
      requires Valid()
      reads this, repr
    {
      World(map w | w in wrappers :: wrappers[w].Abs(), pool.Abs())
    }

    constructor ()
      ensures Valid() && Abs() == Nothing && fresh(repr)
    {
      pool := new ImplPool();
      wrappers := map[];
      new;
      repr := {pool};
    }

    lemma {:induction false} LinearTargets(w: Name)
      requires Valid() && Linear(Abs()) && w in wrappers
      ensures wrappers[w].Targets(pool)
    {
      assert Abs().slots[w] == wrappers[w].Abs();
      assert Lives(pool.Abs());
    }

    /** A wrapper comes into scope. */
    method Add(w: Name, h: AnyCompletionHandler)
      requires Valid() && w !in wrappers && h !in repr
      modifies `wrappers, `repr
      ensures Valid() && repr == old(repr) + {h}
      ensures Abs() == World(old(Abs()).slots[w := h.Abs()], old(Abs()).pool)
    {
      wrappers, repr := wrappers[w := h], repr + {h};
    }

    method New(w: Name, kind: Kind, throws: bool)
      requires Valid() && Linear(Abs()) && w !in wrappers
      modifies this, repr
      ensures Valid() && fresh(repr - old(repr))
      ensures Abs() == Step(old(Abs()), Op.New(w, kind, throws))
    {
      ghost var slots := Abs().slots;
      var id := pool.Create(kind, throws);
      assert Abs().slots == slots;
      if id.Some? {
        var h := new AnyCompletionHandler.Target(kind, id.value);
        Add(w, h);
      }
    }

    method NewEmpty(w: Name)
      requires Valid() && Linear(Abs()) && w !in wrappers
      modifies this, repr
      ensures Valid() && fresh(repr - old(repr))
      ensures Abs() == Step(old(Abs()), Op.NewEmpty(w))
    {
      var h := new AnyCompletionHandler();
      Add(w, h);
    }

    method MoveNew(w: Name, from: Name)
      requires Valid() && Linear(Abs()) && w !in wrappers && from in wrappers
      modifies this, repr
      ensures Valid() && fresh(repr - old(repr))
      ensures Abs() == Step(old(Abs()), Op.MoveNew(w, from))
    {
      var h := new AnyCompletionHandler.MoveFrom(wrappers[from]);
      Add(w, h);
    }

    method MoveAssign(w: Name, from: Name)
      requires Valid() && Linear(Abs()) && w in wrappers && from in wrappers
      modifies repr
      ensures Valid() && repr == old(repr) && wrappers == old(wrappers)
      ensures Abs() == Step(old(Abs()), Op.MoveAssign(w, from))
    {
      LinearTargets(w);
      wrappers[w].MoveAssign(pool, wrappers[from]);
    }

    method AssignNull(w: Name)
      requires Valid() && Linear(Abs()) && w in wrappers
      modifies repr
      ensures Valid() && repr == old(repr) && wrappers == old(wrappers)
      ensures Abs() == Step(old(Abs()), Op.AssignNull(w))
    {
      LinearTargets(w);
      wrappers[w].AssignNull(pool);
    }

    method Swap(w: Name, other: Name)
      requires Valid() && Linear(Abs()) && w in wrappers && other in wrappers
      modifies repr
      ensures Valid() && repr == old(repr) && wrappers == old(wrappers)
      ensures Abs() == Step(old(Abs()), Op.Swap(w, other))
    {
      wrappers[w].Swap(wrappers[other]);
    }

    method Call(w: Name, throws: bool)
      requires Valid() && Linear(Abs()) && w in wrappers
      modifies repr
      ensures Valid() && repr == old(repr) && wrappers == old(wrappers)
      ensures Abs() == Step(old(Abs()), Op.Call(w, throws))
    {
      LinearTargets(w);
      var r := wrappers[w].Call(pool, throws);
    }

    method Destruct(w: Name)
      requires Valid() && Linear(Abs()) && w in wrappers
      modifies repr, `wrappers
      ensures Valid() && repr == old(repr)
      ensures Abs() == Step(old(Abs()), Op.Destruct(w))
    {
      LinearTargets(w);
      wrappers[w].Destruct(pool);
      wrappers := wrappers - {w};
    }

    method Apply(op: Op)
      requires Valid() && Linear(Abs())
      modifies this, repr
      ensures Valid() && fresh(repr - old(repr))
      ensures Abs() == Step(old(Abs()), op)
    {
      assert Abs().slots.Keys == wrappers.Keys;
      if !Admissible(wrappers.Keys, op) {
        return;
      }
      match op
      case New(w, kind, throws) => New(w, kind, throws);
      case NewEmpty(w) => NewEmpty(w);
      case MoveNew(w, from) => MoveNew(w, from);
      case MoveAssign(w, from) => MoveAssign(w, from);
      case AssignNull(w) => AssignNull(w);
      case Swap(w, other) => Swap(w, other);
      case Call(w, throws) => Call(w, throws);
      case Destruct(w) => Destruct(w);
    }
  }

  /** Any run: what happened to each target, and which targets are left. */
  method Simulate(ops: seq<Op>) returns (history: seq<seq<Event>>, live: map<Id, Kind>)
    ensures Pool(live, history) == Run(ops).pool
  {
    var program := new Program();
    for i := 0 to |ops|
      invariant fresh(program) && fresh(program.repr) && program.Valid()
      invariant program.Abs() == Run(ops[..i])
    {
      RunUnfolds(ops, i);
      program.Apply(ops[i]);
    }
    assert ops[..|ops|] == ops;
    history, live := program.pool.history, program.pool.live;
  }
}
