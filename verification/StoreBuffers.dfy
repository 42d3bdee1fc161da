/**
  The memory of the interpreter under the models NONE, TSO and PSO. A store goes into a buffer of its
  thread, the scheduler flushes buffers when it likes, fences and compare-and-swap drain them. Runs are
  sequences of events; a load and a compare-and-swap carry the result that they had.
*/
module StoreBuffers {
  import opened Common

  type Address = int
  type Val = int

  /** Addresses that were never written hold 0. */
  type Memory = map<Address, Val>

  /** A buffered store, and the label of its instruction. */
  datatype Entry = Entry(addr: Address, val: Val, instr: int)

  datatype Event =
    | Store(t: Thread, addr: Address, val: Val, instr: int)
    | Load(t: Thread, addr: Address, val: Val, instr: int)
    /** membar_sl */
    | Fence(t: Thread)
    /** membar_ss, which does nothing under TSO */
    | StoreFence(t: Thread)
    | Cas(t: Thread, addr: Address, expected: Val, desired: Val, succeeded: bool, instr: int)
    /** The scheduler flushes a buffer of `t` while `current` is the thread that ran last; `addr` matters under PSO. */
    | Flush(t: Thread, addr: Address, current: Thread)

  function Read(m: Memory, a: Address): Val {
    if a in m then m[a] else 0
  }

  function Last<T>(s: seq<T>): T
    requires s != []
  {
    s[|s| - 1]
  }

  function Front<T>(s: seq<T>): seq<T>
    requires s != []
  {
    s[..|s| - 1]
  }

  // ----- no buffers -----

  predicate ScEnabled(m: Memory, e: Event) {
    match e
    case Load(_, a, v, _) => Read(m, a) == v
    case Cas(_, a, x, _, ok, _) => ok == (Read(m, a) == x)
    case _ => true
  }

  function ScNext(m: Memory, e: Event): Memory {
    match e
    case Store(_, a, v, _) => m[a := v]
    case Cas(_, a, _, y, ok, _) => if ok then m[a := y] else m
    case _ => m
  }

  /** `es` is a run without buffers from `m`. */
  predicate ScRun(m: Memory, es: seq<Event>)
    decreases |es|
  {
    es == [] || (ScEnabled(m, es[0]) && ScRun(ScNext(m, es[0]), es[1..]))
  }

  function ScMemory(m: Memory, es: seq<Event>): Memory
    decreases |es|
  {
    if es == [] then m else ScMemory(ScNext(m, es[0]), es[1..])
  }

  lemma {:induction false} ScConcat(m: Memory, a: seq<Event>, b: seq<Event>)
    ensures ScRun(m, a + b) <==> ScRun(m, a) && ScRun(ScMemory(m, a), b)
    ensures ScMemory(m, a + b) == ScMemory(ScMemory(m, a), b)
    decreases |a|
  {
    if a == [] {
      assert a + b == b;
    } else {
      assert (a + b)[0] == a[0] && (a + b)[1..] == a[1..] + b;
      ScConcat(ScNext(m, a[0]), a[1..], b);
    }
  }

  lemma ScOne(m: Memory, e: Event)
    ensures ScRun(m, [e]) <==> ScEnabled(m, e)
    ensures ScMemory(m, [e]) == ScNext(m, e)
  {
    assert [e][1..] == [];
  }

  // ----- TSO: one buffer per thread -----

  datatype Tso = Tso(memory: Memory, buffers: map<Thread, seq<Entry>>) {
    function Buffer(t: Thread): seq<Entry> {
      if t in buffers then buffers[t] else []
    }

    function With(t: Thread, b: seq<Entry>): Tso {
      this.(buffers := buffers[t := b])
    }
  }

  /** The last buffered store to `a`. */
  function Newest(b: seq<Entry>, a: Address): Option<Val> {
    if b == [] then None
    else if Last(b).addr == a then Some(Last(b).val)
    else Newest(Front(b), a)
  }

  function Apply(m: Memory, e: Entry): Memory {
    m[e.addr := e.val]
  }

  /** The stores of a buffer reach memory, oldest first. */
  function Drain(m: Memory, b: seq<Entry>): Memory
    decreases |b|
  {
    if b == [] then m else Drain(Apply(m, b[0]), b[1..])
  }

  function TsoRead(s: Tso, t: Thread, a: Address): Val {
    match Newest(s.Buffer(t), a)
    case Some(v) => v
    case None => Read(s.memory, a)
  }

  predicate TsoEnabled(s: Tso, e: Event) {
    match e
    case Load(t, a, v, _) => TsoRead(s, t, a) == v
    case Cas(t, a, x, _, ok, _) => ok == (Read(Drain(s.memory, s.Buffer(t)), a) == x)
    case _ => true
  }

  function TsoNext(s: Tso, e: Event): Tso {
    match e
    case Store(t, a, v, l) => s.With(t, s.Buffer(t) + [Entry(a, v, l)])
    case Load(_, _, _, _) => s
    case Fence(t) => s.With(t, []).(memory := Drain(s.memory, s.Buffer(t)))
    case StoreFence(_) => s
    case Cas(t, _, _, _, _, _) => s.With(t, []).(memory := ScNext(Drain(s.memory, s.Buffer(t)), e))
    case Flush(t, _, _) =>
      if s.Buffer(t) == [] then s else s.With(t, s.Buffer(t)[1..]).(memory := Apply(s.memory, s.Buffer(t)[0]))
  }

  function TsoState(m: Memory, es: seq<Event>): Tso {
    if es == [] then Tso(m, map[]) else TsoNext(TsoState(m, Front(es)), Last(es))
  }

  /** `es` is a run under TSO from `m`, with empty buffers. */
  predicate TsoRun(m: Memory, es: seq<Event>) {
    es == [] || (TsoRun(m, Front(es)) && TsoEnabled(TsoState(m, Front(es)), Last(es)))
  }

  // ----- PSO: one buffer per thread and address -----

  datatype Pso = Pso(memory: Memory, buffers: map<Thread, map<Address, seq<Entry>>>) {
    function Buffers(t: Thread): map<Address, seq<Entry>> {
      if t in buffers then buffers[t] else map[]
    }

    function Buffer(t: Thread, a: Address): seq<Entry> {
      if a in Buffers(t) then Buffers(t)[a] else []
    }

    function With(t: Thread, a: Address, b: seq<Entry>): Pso {
      this.(buffers := buffers[t := Buffers(t)[a := b]])
    }
  }

  function PsoRead(s: Pso, t: Thread, a: Address): Val {
    if s.Buffer(t, a) == [] then Read(s.memory, a) else Last(s.Buffer(t, a)).val
  }

  /** All buffers of a thread reach memory: at every address its last store counts. */
  function DrainAll(m: Memory, bs: map<Address, seq<Entry>>): Memory {
    map a | a in m.Keys + bs.Keys && (a in m || bs[a] != []) :: if a in bs && bs[a] != [] then Last(bs[a]).val else m[a]
  }

  /** One buffer reaches memory: only its last store counts. */
  function DrainOne(m: Memory, a: Address, b: seq<Entry>): Memory {
    if b == [] then m else m[a := Last(b).val]
  }

  predicate PsoEnabled(s: Pso, e: Event) {
    match e
    case Load(t, a, v, _) => PsoRead(s, t, a) == v
    case Cas(t, a, x, _, ok, _) => ok == (PsoRead(s, t, a) == x)
    case _ => true
  }

  function PsoNext(s: Pso, e: Event): Pso {
    match e
    case Store(t, a, v, l) => s.With(t, a, s.Buffer(t, a) + [Entry(a, v, l)])
    case Load(_, _, _, _) => s
    case Fence(t) => Pso(DrainAll(s.memory, s.Buffers(t)), s.buffers[t := map a | a in s.Buffers(t) :: []])
    case StoreFence(t) => Pso(DrainAll(s.memory, s.Buffers(t)), s.buffers[t := map a | a in s.Buffers(t) :: []])
    case Cas(t, a, _, _, _, _) => s.With(t, a, []).(memory := ScNext(DrainOne(s.memory, a, s.Buffer(t, a)), e))
    case Flush(t, a, _) =>
      if s.Buffer(t, a) == [] then s
      else s.With(t, a, s.Buffer(t, a)[1..]).(memory := s.memory[a := s.Buffer(t, a)[0].val])
  }

  function PsoState(m: Memory, es: seq<Event>): Pso {
    if es == [] then Pso(m, map[]) else PsoNext(PsoState(m, Front(es)), Last(es))
  }

  predicate PsoRun(m: Memory, es: seq<Event>) {
    es == [] || (PsoRun(m, Front(es)) && PsoEnabled(PsoState(m, Front(es)), Last(es)))
  }

  // ----- what a thread does, in program order -----

  /** Accesses have results or effects; fences and flushes only move what is buffered. */
  predicate Visible(e: Event) {
    e.Store? || e.Load? || e.Cas?
  }

  function ProgramOf(es: seq<Event>, t: Thread): seq<Event> {
    if es == [] then []
    else ProgramOf(Front(es), t) + (if Last(es).t == t && Visible(Last(es)) then [Last(es)] else [])
  }

  lemma {:induction false} ProgramConcat(a: seq<Event>, b: seq<Event>, t: Thread)
    ensures ProgramOf(a + b, t) == ProgramOf(a, t) + ProgramOf(b, t)
    decreases |b|
  {
    if b == [] {
      assert a + b == a;
    } else {
      assert Front(a + b) == a + Front(b) && Last(a + b) == Last(b);
      ProgramConcat(a, Front(b), t);
    }
  }

  lemma {:induction false} ProgramOfThread(w: seq<Event>, t: Thread, u: Thread)
    requires forall i :: 0 <= i < |w| ==> w[i].t == t && Visible(w[i])
    ensures ProgramOf(w, u) == if u == t then w else []
    decreases |w|
  {
    if w != [] {
      ProgramOfThread(Front(w), t, u);
    }
  }

  /** The same accesses with the same results, thread by thread. */
  ghost predicate SamePrograms(a: seq<Event>, b: seq<Event>) {
    forall t: Thread :: ProgramOf(a, t) == ProgramOf(b, t)
  }

  /** Without buffers the same could have happened. */
  ghost predicate SequentiallyConsistent(m: Memory, es: seq<Event>) {
    exists sc: seq<Event> :: ScRun(m, sc) && SamePrograms(sc, es)
  }
}
