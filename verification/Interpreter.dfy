/**
  The interpreter's memory operations, which update memory, buffers and the recorded history in place.
  Each does what the run models of `StoreBuffers` say; so whatever the scheduler selects, the interpreter
  has executed a run of the model, and has recorded what the generator takes it to have recorded.
*/
module Interpreter {
  import opened Common
  import opened StoreBuffers
  import opened FenceConstraints
  import opened PsoConstraints
  import opened MemoryModels

  /** What the scheduler selects: a thread, with its next instruction, or a buffer to flush. */
  datatype Action =
    | RunStore(t: Thread, addr: Address, val: Val, instr: int)
    | RunLoad(t: Thread, addr: Address, instr: int)
    | RunFence(t: Thread)
    | RunStoreFence(t: Thread)
    | RunCas(t: Thread, addr: Address, expected: Val, desired: Val, instr: int)
    /** An instruction that accesses no shared memory. */
    | RunOther(t: Thread)
    | FlushBuffer(t: Thread, addr: Address)

  /** The event is the action, with whatever result it had; a flush is recorded for the thread that ran last. */
  predicate Performs(e: Event, a: Action, current: Thread) {
    match a
    case RunStore(t, c, v, l) => e == Store(t, c, v, l)
    case RunLoad(t, c, l) => e.Load? && e == Load(t, c, e.val, l)
    case RunFence(t) => e == Fence(t)
    case RunStoreFence(t) => e == StoreFence(t)
    case RunCas(t, c, x, y, l) => e.Cas? && e == Cas(t, c, x, y, e.succeeded, l)
    case RunOther(_) => false
    case FlushBuffer(t, c) => e == Flush(t, c, current)
  }

  /** The thread that ran last. */
  function Current(actions: seq<Action>, first: Thread): Thread {
    if actions == [] then first
    else if Last(actions).FlushBuffer? then Current(Front(actions), first)
    else Last(actions).t
  }

  /** The events are those of the actions, in order. */
  ghost predicate Performed(es: seq<Event>, actions: seq<Action>, first: Thread)
    decreases |actions|
  {
    if actions == [] then es == []
    else if Last(actions).RunOther? then Performed(es, Front(actions), first)
    else
      && es != [] && Performed(Front(es), Front(actions), first)
      && Performs(Last(es), Last(actions), Current(Front(actions), first))
  }

  /** An event is of the thread, the kind, the address and the instruction of its action, with its values. */
  lemma ActionIsPerformed(e: Event, a: Action, current: Thread)
    requires Performs(e, a, current)
    ensures e.t == a.t
    ensures a.RunStore? <==> e.Store?
    ensures a.RunLoad? <==> e.Load?
    ensures a.RunFence? <==> e.Fence?
    ensures a.RunStoreFence? <==> e.StoreFence?
    ensures a.RunCas? <==> e.Cas?
    ensures a.FlushBuffer? <==> e.Flush?
    ensures e.Store? || e.Load? || e.Cas? || e.Flush? ==> e.addr == a.addr
    ensures e.Store? || e.Load? || e.Cas? ==> e.instr == a.instr
    ensures e.Store? ==> e.val == a.val
    ensures e.Cas? ==> e.expected == a.expected && e.desired == a.desired
    ensures e.Flush? ==> e.current == current
  {
  }

  /** The thread that ran last is that of the last action that is no flush. */
  lemma {:induction false} CurrentIsLast(actions: seq<Action>, first: Thread, i: nat)
    requires i < |actions| && !actions[i].FlushBuffer? && forall j :: i < j < |actions| ==> actions[j].FlushBuffer?
    ensures Current(actions, first) == actions[i].t
    decreases |actions|
  {
    if i < |actions| - 1 {
      CurrentIsLast(Front(actions), first, i);
    }
  }

  lemma {:induction false} CurrentIsFirst(actions: seq<Action>, first: Thread)
    requires forall j :: 0 <= j < |actions| ==> actions[j].FlushBuffer?
    ensures Current(actions, first) == first
    decreases |actions|
  {
    if actions != [] {
      CurrentIsFirst(Front(actions), first);
    }
  }

  lemma LastTwo(es: seq<Event>, actions: seq<Action>, a: Action, b: Action, first: Thread)
    returns (es0: seq<Event>, d: Event, e: Event)
    requires Performed(es, actions + [a, b], first) && !a.RunOther? && !b.RunOther?
    ensures es == es0 + [d] + [e] && Performed(es0, actions, first)
    ensures Performs(d, a, Current(actions, first)) && Performs(e, b, Current(actions + [a], first))
  {
    var all := actions + [a, b];
    assert Front(all) == actions + [a] && Last(all) == b && Front(actions + [a]) == actions && Last(actions + [a]) == a;
    e := Last(es);
    d := Last(Front(es));
    es0 := Front(Front(es));
  }

  /** Under either model a thread loads what it has just stored. */
  lemma StoredIsLoaded(m: Memory, es: seq<Event>, actions: seq<Action>, first: Thread, t: Thread, a: Address, v: Val,
      l: int, k: int)
    requires Performed(es, actions + [RunStore(t, a, v, l), RunLoad(t, a, k)], first)
      && (TsoRun(m, es) || PsoRun(m, es))
    ensures es != [] && Last(es) == Load(t, a, v, k)
  {
    var es0, d, e := LastTwo(es, actions, RunStore(t, a, v, l), RunLoad(t, a, k), first);
    assert d == Store(t, a, v, l);
    hide Performed;
    if TsoRun(m, es) {
      TsoExtends(m, es0, d);
      TsoExtends(m, es0 + [d], e);
      StoreIsPrivate(TsoState(m, es0), t, a, v, l, t, a);
    } else {
      PsoExtends(m, es0, d);
      PsoExtends(m, es0 + [d], e);
      PsoStoreIsPrivate(PsoState(m, es0), t, a, v, l, t, a);
    }
  }

  /** And after a compare-and-swap what it put there, or something else than it expected. */
  lemma SwappedIsLoaded(m: Memory, es: seq<Event>, actions: seq<Action>, first: Thread, t: Thread, a: Address, x: Val,
      y: Val, l: int, k: int) returns (ok: bool)
    requires Performed(es, actions + [RunCas(t, a, x, y, l), RunLoad(t, a, k)], first)
      && (TsoRun(m, es) || PsoRun(m, es))
    ensures |es| >= 2 && es[|es| - 2] == Cas(t, a, x, y, ok, l)
    ensures Last(es).Load? && Last(es).addr == a && (if ok then Last(es).val == y else Last(es).val != x)
  {
    var es0, d, e := LastTwo(es, actions, RunCas(t, a, x, y, l), RunLoad(t, a, k), first);
    ok := d.succeeded;
    assert d == Cas(t, a, x, y, ok, l);
    hide Performed;
    if TsoRun(m, es) {
      TsoExtends(m, es0, d);
      TsoExtends(m, es0 + [d], e);
      CasIsAtomic(TsoState(m, es0), d, t, a);
    } else {
      PsoExtends(m, es0, d);
      PsoExtends(m, es0 + [d], e);
      PsoCasIsAtomic(PsoState(m, es0), d, t, a);
    }
  }

  lemma PerformedMore(es: seq<Event>, e: Event, actions: seq<Action>, i: nat, first: Thread)
    requires i < |actions| && Performed(es, actions[..i], first)
    ensures Performed(if actions[i].RunOther? then es else es + [e], actions[..i + 1], first)
         <== actions[i].RunOther? || Performs(e, actions[i], Current(actions[..i], first))
    ensures Current(actions[..i + 1], first) ==
            if actions[i].FlushBuffer? then Current(actions[..i], first) else actions[i].t
  {
    assert Front(actions[..i + 1]) == actions[..i] && Last(actions[..i + 1]) == actions[i];
    assert Front(es + [e]) == es && Last(es + [e]) == e;
  }

  class Interpreter {
    var currThread: Thread
    var memory: Memory
    var threadBufferTso: map<Thread, seq<Entry>>
    var threadBufferPso: map<Thread, map<Address, seq<Entry>>>
    var rwHistory: seq<Rec>

    constructor (memory: Memory)
      ensures TsoView() == TsoState(memory, []) && PsoView() == PsoState(memory, []) && rwHistory == []
        && currThread == 1
    {
      this.memory, threadBufferTso, threadBufferPso, rwHistory, currThread := memory, map[], map[], [], 1;
    }

    function TsoView(): Tso
      reads this
    {
      Tso(memory, threadBufferTso)
    }

    function PsoView(): Pso
      reads this
    {
      Pso(memory, threadBufferPso)
    }

    // ----- TSO -----

    method StoreTso(t: Thread, a: Address, v: Val, l: int)
      modifies this`threadBufferTso, this`rwHistory
      ensures TsoView() == TsoNext(old(TsoView()), Store(t, a, v, l))
      ensures rwHistory == old(rwHistory) + Records(Store(t, a, v, l))
    {
      threadBufferTso := threadBufferTso[t := TsoView().Buffer(t) + [Entry(a, v, l)]];
      rwHistory := rwHistory + [Rec(t, WRITE, a, l)];
    }

    /** Looks through the buffer from its end; only if the address is not there, memory is read. */
    method LoadTso(t: Thread, a: Address, l: int) returns (v: Val)
      modifies this`rwHistory
      ensures v == TsoRead(TsoView(), t, a)
      ensures rwHistory == old(rwHistory) + Records(Load(t, a, v, l))
    {
      var b := TsoView().Buffer(t);
      var i := |b|;
      var found := false;
      v := 0;
      assert b[..i] == b;
      while i > 0 && !found
        invariant 0 <= i <= |b|
        invariant if found then Newest(b, a) == Some(v) else Newest(b, a) == Newest(b[..i], a)
      {
        assert Front(b[..i]) == b[..i - 1];
        i := i - 1;
        if b[i].addr == a {
          v, found := b[i].val, true;
        }
      }
      if !found {
        v := Read(memory, a);
      }
      rwHistory := rwHistory + [Rec(t, READ, a, l)];
    }

    method FlushBufferTso(t: Thread)
      modifies this`memory, this`threadBufferTso
      ensures TsoView() == TsoNext(old(TsoView()), Flush(t, 0, t))
    {
      var b := TsoView().Buffer(t);
      if b != [] {
        threadBufferTso := threadBufferTso[t := b[1..]];
        memory := memory[b[0].addr := b[0].val];
      }
    }

    /** Flushes until the buffer is empty. */
    method DrainTso(t: Thread)
      modifies this`memory, this`threadBufferTso
      ensures memory == Drain(old(memory), old(TsoView()).Buffer(t))
      ensures threadBufferTso == old(threadBufferTso)[t := []]
    {
      threadBufferTso := threadBufferTso[t := TsoView().Buffer(t)];
      while threadBufferTso[t] != []
        invariant t in threadBufferTso && threadBufferTso == old(threadBufferTso)[t := threadBufferTso[t]]
        invariant Drain(memory, threadBufferTso[t]) == Drain(old(memory), old(TsoView()).Buffer(t))
        decreases |threadBufferTso[t]|
      {
        FlushBufferTso(t);
      }
    }

    method MembarSlTso(t: Thread)
      modifies this`memory, this`threadBufferTso, this`rwHistory
      ensures TsoView() == TsoNext(old(TsoView()), Fence(t))
      ensures rwHistory == old(rwHistory) + Records(Fence(t))
    {
      DrainTso(t);
      rwHistory := rwHistory + [Rec(t, FLUSH_FENCE, 0, 0)];
    }

    /** Only a warning, but recorded like a fence. */
    method MembarSsTso(t: Thread)
      modifies this`rwHistory
      ensures TsoView() == TsoNext(old(TsoView()), StoreFence(t))
      ensures rwHistory == old(rwHistory) + Records(StoreFence(t))
    {
      rwHistory := rwHistory + [Rec(t, FLUSH_FENCE, 0, 0)];
    }

    method CasTso(t: Thread, a: Address, x: Val, y: Val, l: int) returns (ok: bool)
      modifies this`memory, this`threadBufferTso, this`rwHistory
      ensures TsoEnabled(old(TsoView()), Cas(t, a, x, y, ok, l))
      ensures TsoView() == TsoNext(old(TsoView()), Cas(t, a, x, y, ok, l))
      ensures rwHistory == old(rwHistory) + Records(Cas(t, a, x, y, ok, l))
    {
      DrainTso(t);
      ok := false;
      if Read(memory, a) == x {
        memory := memory[a := y];
        ok := true;
        rwHistory := rwHistory + [Rec(t, WRITE, a, 0)];
      }
      rwHistory := rwHistory + [Rec(t, FLUSH_CAS_TSO, 0, 0)];
    }

    /** Flushes one store, and records that for the thread that ran last. */
    method FlushActionTso(t: Thread)
      modifies this`memory, this`threadBufferTso, this`rwHistory
      ensures TsoView() == TsoNext(old(TsoView()), Flush(t, 0, currThread))
      ensures rwHistory == old(rwHistory) + Records(Flush(t, 0, currThread))
    {
      FlushBufferTso(t);
      rwHistory := rwHistory + [Rec(currThread, FLUSH_RANDOM_TSO, 0, -1)];
    }

    /** One turn of the main loop. */
    method StepTso(a: Action) returns (ghost e: Event)
      modifies this
      ensures currThread == if a.FlushBuffer? then old(currThread) else a.t
      ensures a.RunOther? ==> TsoView() == old(TsoView()) && rwHistory == old(rwHistory)
      ensures !a.RunOther? ==>
                && Performs(e, a, old(currThread)) && TsoEnabled(old(TsoView()), e)
                && TsoView() == TsoNext(old(TsoView()), e) && rwHistory == old(rwHistory) + Records(e)
    {
      hide Drain, TsoRead;
      e := Fence(a.t);
      if !a.FlushBuffer? {
        currThread := a.t;
      }
      match a {
        case RunStore(t, c, v, l) =>
          StoreTso(t, c, v, l);
          e := Store(t, c, v, l);
        case RunLoad(t, c, l) =>
          var v := LoadTso(t, c, l);
          e := Load(t, c, v, l);
        case RunFence(t) =>
          MembarSlTso(t);
        case RunStoreFence(t) =>
          MembarSsTso(t);
          e := StoreFence(t);
        case RunCas(t, c, x, y, l) =>
          var ok := CasTso(t, c, x, y, l);
          e := Cas(t, c, x, y, ok, l);
        case RunOther(_) =>
        case FlushBuffer(t, c) =>
          FlushActionTso(t);
          e := Flush(t, c, currThread);
      }
    }

    /** Whatever is scheduled, what has been executed is a run under TSO, and the history is that of the run. */
    method RunTso(actions: seq<Action>) returns (ghost es: seq<Event>)
      requires threadBufferTso == map[] && rwHistory == []
      modifies this
      ensures Performed(es, actions, old(currThread)) && TsoRun(old(memory), es)
      ensures TsoView() == TsoState(old(memory), es) && rwHistory == RecordsOf(es)
    {
      hide Performed, Performs, Current, TsoNext, TsoEnabled, Records;
      es := [];
      var i := 0;
      NothingPerformed(actions, currThread);
      while i < |actions|
        invariant 0 <= i <= |actions|
        invariant Performed(es, actions[..i], old(currThread)) && currThread == Current(actions[..i], old(currThread))
        invariant TsoRun(old(memory), es) && TsoView() == TsoState(old(memory), es) && rwHistory == RecordsOf(es)
      {
        ghost var e := StepTso(actions[i]);
        PerformedMore(es, e, actions, i, old(currThread));
        if !actions[i].RunOther? {
          TsoExtends(old(memory), es, e);
          es := es + [e];
        }
        i := i + 1;
      }
      assert actions[..i] == actions;
    }

    // ----- PSO -----

    method StorePso(t: Thread, a: Address, v: Val, l: int)
      modifies this`threadBufferPso, this`rwHistory
      ensures PsoView() == PsoNext(old(PsoView()), Store(t, a, v, l))
      ensures rwHistory == old(rwHistory) + PsoRecords(Store(t, a, v, l))
    {
      rwHistory := rwHistory + [Rec(t, WRITE, a, l)];
      var b := PsoView().Buffers(t);
      threadBufferPso := threadBufferPso[t := b[a := PsoView().Buffer(t, a) + [Entry(a, v, l)]]];
    }

    method LoadPso(t: Thread, a: Address, l: int) returns (v: Val)
      modifies this`rwHistory
      ensures PsoEnabled(PsoView(), Load(t, a, v, l)) && PsoView() == PsoNext(old(PsoView()), Load(t, a, v, l))
      ensures rwHistory == old(rwHistory) + PsoRecords(Load(t, a, v, l))
    {
      rwHistory := rwHistory + [Rec(t, READ, a, l)];
      var b := PsoView().Buffer(t, a);
      if b != [] {
        v := b[|b| - 1].val;
      } else {
        v := Read(memory, a);
      }
    }

    method FlushBufferPso(t: Thread, a: Address)
      modifies this`memory, this`threadBufferPso
      ensures PsoView() == PsoNext(old(PsoView()), Flush(t, a, t))
    {
      var b := PsoView().Buffer(t, a);
      if b != [] {
        threadBufferPso := threadBufferPso[t := threadBufferPso[t][a := b[1..]]];
        memory := memory[a := b[0].val];
      }
    }

    /** Flushes the buffer of one address until it is empty. */
    method DrainPso(t: Thread, a: Address)
      modifies this`memory, this`threadBufferPso
      ensures memory == DrainOne(old(memory), a, old(PsoView()).Buffer(t, a))
      ensures threadBufferPso == old(PsoView()).With(t, a, []).buffers
    {
      threadBufferPso := threadBufferPso[t := PsoView().Buffers(t)[a := PsoView().Buffer(t, a)]];
      while threadBufferPso[t][a] != []
        invariant t in threadBufferPso && a in threadBufferPso[t]
        invariant threadBufferPso == old(PsoView()).With(t, a, threadBufferPso[t][a]).buffers
        invariant DrainOne(memory, a, threadBufferPso[t][a]) == DrainOne(old(memory), a, old(PsoView()).Buffer(t, a))
        decreases |threadBufferPso[t][a]|
      {
        ghost var b := threadBufferPso[t][a];
        FlushBufferPso(t, a);
        WithTwice(old(PsoView()), t, a, b, b[1..]);
      }
    }

    /** The buffers of all addresses, in some order. */
    method DrainKeys(t: Thread, keys: seq<Address>)
      requires forall a :: a in keys <==> a in PsoView().Buffers(t)
      requires forall i, j :: 0 <= i < j < |keys| ==> keys[i] != keys[j]
      modifies this`memory, this`threadBufferPso
      ensures memory == DrainAll(old(memory), Drained(old(PsoView()).Buffers(t), keys))
      ensures threadBufferPso == old(threadBufferPso)[t := Remaining(old(PsoView()).Buffers(t), keys)]
    {
      ghost var bs, memory0, buffers0 := PsoView().Buffers(t), memory, threadBufferPso;
      assert forall a :: a in keys ==> a in bs;
      threadBufferPso := threadBufferPso[t := PsoView().Buffers(t)];
      NothingDrained(memory, bs);
      hide DrainAll, DrainOne, Remaining, Drained, Pso.Buffers, Pso.Buffer, Pso.With;
      var i := 0;
      while i < |keys|
        invariant 0 <= i <= |keys|
        invariant threadBufferPso == buffers0[t := Remaining(bs, keys[..i])]
        invariant memory == DrainAll(memory0, Drained(bs, keys[..i]))
      {
        ghost var done := keys[..i];
        var key := keys[i];
        NextKey(keys, i);
        DrainingOne(PsoView(), memory0, buffers0, t, bs, done, key);
        DrainPso(t, key);
        i := i + 1;
        assert keys[..i] == done + [key];
      }
      assert keys[..i] == keys;
    }

    /** membar_sl and membar_ss: the buffers of all addresses, in whatever order the map lists them. */
    method MembarPso(t: Thread)
      modifies this`memory, this`threadBufferPso, this`rwHistory
      ensures PsoView() == PsoNext(old(PsoView()), Fence(t)) == PsoNext(old(PsoView()), StoreFence(t))
      ensures rwHistory == old(rwHistory) + PsoRecords(Fence(t)) == old(rwHistory) + PsoRecords(StoreFence(t))
    {
      var keys := Elements(PsoView().Buffers(t).Keys);
      AllDrained(memory, PsoView().Buffers(t), keys);
      hide DrainAll, Remaining, Drained;
      DrainKeys(t, keys);
      rwHistory := rwHistory + [Rec(t, FLUSH_FENCE, 0, 0)];
    }

    method CasPso(t: Thread, a: Address, x: Val, y: Val, l: int) returns (ok: bool)
      modifies this`memory, this`threadBufferPso, this`rwHistory
      ensures PsoEnabled(old(PsoView()), Cas(t, a, x, y, ok, l))
      ensures PsoView() == PsoNext(old(PsoView()), Cas(t, a, x, y, ok, l))
      ensures rwHistory == old(rwHistory) + PsoRecords(Cas(t, a, x, y, ok, l))
    {
      DrainPso(t, a);
      ok := Read(memory, a) == x;
      if ok {
        memory := memory[a := y];
        rwHistory := rwHistory + [Rec(t, WRITE, a, l)];
      }
      rwHistory := rwHistory + [Rec(t, FLUSH_CAS_PSO, a, -1)];
    }

    /** Flushes the oldest store to an address, and records that for the thread that ran last. */
    method FlushActionPso(t: Thread, a: Address)
      modifies this`memory, this`threadBufferPso, this`rwHistory
      ensures PsoView() == PsoNext(old(PsoView()), Flush(t, a, currThread))
      ensures rwHistory == old(rwHistory) + PsoRecords(Flush(t, a, currThread))
    {
      FlushBufferPso(t, a);
      rwHistory := rwHistory + [Rec(currThread, FLUSH_RANDOM_PSO, a, -1)];
    }

    /** One turn of the main loop. */
    method StepPso(a: Action) returns (ghost e: Event)
      modifies this
      ensures currThread == if a.FlushBuffer? then old(currThread) else a.t
      ensures a.RunOther? ==> PsoView() == old(PsoView()) && rwHistory == old(rwHistory)
      ensures !a.RunOther? ==>
                && Performs(e, a, old(currThread)) && PsoEnabled(old(PsoView()), e)
                && PsoView() == PsoNext(old(PsoView()), e) && rwHistory == old(rwHistory) + PsoRecords(e)
    {
      hide PsoNext, PsoRead;
      e := Fence(a.t);
      if !a.FlushBuffer? {
        currThread := a.t;
      }
      match a {
        case RunStore(t, c, v, l) =>
          StorePso(t, c, v, l);
          e := Store(t, c, v, l);
        case RunLoad(t, c, l) =>
          var v := LoadPso(t, c, l);
          e := Load(t, c, v, l);
        case RunFence(t) =>
          MembarPso(t);
        case RunStoreFence(t) =>
          MembarPso(t);
          e := StoreFence(t);
        case RunCas(t, c, x, y, l) =>
          var ok := CasPso(t, c, x, y, l);
          e := Cas(t, c, x, y, ok, l);
        case RunOther(_) =>
        case FlushBuffer(t, c) =>
          FlushActionPso(t, c);
          e := Flush(t, c, currThread);
      }
    }

    /** Whatever is scheduled, what has been executed is a run under PSO, and the history is that of the run. */
    method RunPso(actions: seq<Action>) returns (ghost es: seq<Event>)
      requires threadBufferPso == map[] && rwHistory == []
      modifies this
      ensures Performed(es, actions, old(currThread)) && PsoRun(old(memory), es)
      ensures PsoView() == PsoState(old(memory), es) && rwHistory == PsoRecordsOf(es)
    {
      hide Performed, Performs, Current, PsoNext, PsoEnabled, PsoRecords;
      es := [];
      var i := 0;
      NothingPerformed(actions, currThread);
      while i < |actions|
        invariant 0 <= i <= |actions|
        invariant Performed(es, actions[..i], old(currThread)) && currThread == Current(actions[..i], old(currThread))
        invariant PsoRun(old(memory), es) && PsoView() == PsoState(old(memory), es) && rwHistory == PsoRecordsOf(es)
      {
        ghost var e := StepPso(actions[i]);
        PerformedMore(es, e, actions, i, old(currThread));
        if !actions[i].RunOther? {
          PsoExtends(old(memory), es, e);
          es := es + [e];
        }
        i := i + 1;
      }
      assert actions[..i] == actions;
    }
  }

  lemma NothingPerformed(actions: seq<Action>, first: Thread)
    ensures Performed([], actions[..0], first) && Current(actions[..0], first) == first
  {
  }

  lemma TsoExtends(m: Memory, es: seq<Event>, e: Event)
    ensures TsoRun(m, es + [e]) <==> TsoRun(m, es) && TsoEnabled(TsoState(m, es), e)
    ensures TsoState(m, es + [e]) == TsoNext(TsoState(m, es), e)
    ensures RecordsOf(es + [e]) == RecordsOf(es) + Records(e)
  {
    assert Front(es + [e]) == es && Last(es + [e]) == e;
  }

  lemma PsoExtends(m: Memory, es: seq<Event>, e: Event)
    ensures PsoRun(m, es + [e]) <==> PsoRun(m, es) && PsoEnabled(PsoState(m, es), e)
    ensures PsoState(m, es + [e]) == PsoNext(PsoState(m, es), e)
    ensures PsoRecordsOf(es + [e]) == PsoRecordsOf(es) + PsoRecords(e)
  {
    assert Front(es + [e]) == es && Last(es + [e]) == e;
  }

  lemma NextKey(keys: seq<Address>, i: nat)
    requires i < |keys| && forall j, k :: 0 <= j < k < |keys| ==> keys[j] != keys[k]
    ensures keys[i] in keys && keys[i] !in keys[..i] && keys[..i + 1] == keys[..i] + [keys[i]]
  {
  }

  lemma WithTwice(p: Pso, t: Thread, a: Address, b: seq<Entry>, b': seq<Entry>)
    ensures p.With(t, a, b).With(t, a, b') == p.With(t, a, b')
  {
    assert p.Buffers(t)[a := b][a := b'] == p.Buffers(t)[a := b'];
  }

  /** The buffers when those of the addresses `done` have been drained. */
  ghost function Remaining(bs: map<Address, seq<Entry>>, done: seq<Address>): map<Address, seq<Entry>> {
    map a | a in bs :: if a in done then [] else bs[a]
  }

  /** And what has been drained by then. */
  ghost function Drained(bs: map<Address, seq<Entry>>, done: seq<Address>): map<Address, seq<Entry>> {
    map a | a in bs && a in done :: bs[a]
  }

  /** Draining one more address of a thread. */
  lemma DrainingOne(p: Pso, m: Memory, buffers: map<Thread, map<Address, seq<Entry>>>, t: Thread,
                    bs: map<Address, seq<Entry>>, done: seq<Address>, a: Address)
    requires p.buffers == buffers[t := Remaining(bs, done)] && p.memory == DrainAll(m, Drained(bs, done))
    requires a in bs && a !in done
    ensures p.With(t, a, []).buffers == buffers[t := Remaining(bs, done + [a])]
    ensures DrainOne(p.memory, a, p.Buffer(t, a)) == DrainAll(m, Drained(bs, done + [a]))
  {
    DrainedOneMore(m, bs, done, a);
    assert p.Buffer(t, a) == bs[a];
    hide DrainOne, DrainAll, Drained, Remaining;
    assert p.Buffers(t) == Remaining(bs, done);
  }

  lemma NothingDrained(m: Memory, bs: map<Address, seq<Entry>>)
    ensures Remaining(bs, []) == bs && DrainAll(m, Drained(bs, [])) == m
  {
  }

  lemma AllDrained(m: Memory, bs: map<Address, seq<Entry>>, done: seq<Address>)
    requires forall a :: a in bs ==> a in done
    ensures DrainAll(m, Drained(bs, done)) == DrainAll(m, bs)
    ensures Remaining(bs, done) == map a | a in bs :: []
  {
    var x, y := DrainAll(m, Drained(bs, done)), DrainAll(m, bs);
    forall a: Address
      ensures (a in x <==> a in y) && (a in x ==> x[a] == y[a])
    {
    }
    var p, q := Remaining(bs, done), map a | a in bs :: [];
    forall a: Address
      ensures (a in p <==> a in q) && (a in p ==> p[a] == q[a])
    {
    }
  }

  lemma DrainedOneMore(m: Memory, bs: map<Address, seq<Entry>>, done: seq<Address>, a: Address)
    requires a in bs && a !in done
    ensures Remaining(bs, done)[a := []] == Remaining(bs, done + [a])
    ensures DrainAll(m, Drained(bs, done + [a])) == DrainOne(DrainAll(m, Drained(bs, done)), a, bs[a])
  {
    var x, y := DrainAll(m, Drained(bs, done)), DrainAll(m, Drained(bs, done + [a]));
    forall c: Address
      ensures (c in y <==> c in DrainOne(x, a, bs[a])) && (c in y ==> y[c] == DrainOne(x, a, bs[a])[c])
    {
    }
  }
}
