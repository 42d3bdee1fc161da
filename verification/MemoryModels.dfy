/**
  The memory models from outside: which value a load returns, who sees a buffered store, what a fence makes
  visible, and which accesses the recorded history shows.
*/
module MemoryModels {
  import opened Common
  import opened StoreBuffers
  import opened SequentialConsistency
  import opened PartialStoreOrder
  import opened FenceConstraints
  import opened PsoConstraints

  // ----- no buffers -----

  /** The event puts `v` into address `a`. */
  ghost predicate Puts(e: Event, a: Address, v: Val) {
    (e.Store? && e.addr == a && e.val == v) || (e.Cas? && e.succeeded && e.addr == a && e.desired == v)
  }

  ghost predicate Overwrites(e: Event, a: Address) {
    exists v :: Puts(e, a, v)
  }

  /** Of the first `j` events, the last one that writes to `a` put `v` there; `m` counts, if there is none. */
  ghost predicate Holds(m: Memory, es: seq<Event>, j: nat, a: Address, v: Val)
    requires j <= |es|
  {
    if j > 0 && Overwrites(es[j - 1], a) then Puts(es[j - 1], a, v)
    else if j > 0 then Holds(m, es, j - 1, a, v)
    else v == if a in m then m[a] else 0
  }

  /** A load returns what its address holds; a compare-and-swap succeeds exactly if that is what it expects. */
  ghost predicate Explained(m: Memory, es: seq<Event>, j: nat)
    requires j < |es|
  {
    && (es[j].Load? ==> Holds(m, es, j, es[j].addr, es[j].val))
    && (es[j].Cas? ==> (es[j].succeeded <==> Holds(m, es, j, es[j].addr, es[j].expected)))
  }

  lemma {:induction false} MemoryHolds(m: Memory, es: seq<Event>, j: nat, a: Address, v: Val)
    requires j <= |es|
    ensures Holds(m, es, j, a, v) <==> Read(ScMemory(m, es[..j]), a) == v
    decreases j
  {
    if j == 0 {
      assert es[..0] == [];
    } else {
      MemoryHolds(m, es, j - 1, a, v);
      var e := es[j - 1];
      assert es[..j] == es[..j - 1] + [e];
      ScConcat(m, es[..j - 1], [e]);
      ScOne(ScMemory(m, es[..j - 1]), e);
      hide ScMemory;
      OneWrite(ScMemory(m, es[..j - 1]), e, a, v);
    }
  }

  lemma OneWrite(m: Memory, e: Event, a: Address, v: Val)
    ensures if Overwrites(e, a) then Puts(e, a, v) <==> Read(ScNext(m, e), a) == v
            else Read(ScNext(m, e), a) == Read(m, a)
  {
    if e.Store? && e.addr == a {
      assert Puts(e, a, e.val);
    }
    if e.Cas? && e.succeeded && e.addr == a {
      assert Puts(e, a, e.desired);
    }
  }

  lemma {:induction false} PrefixRuns(m: Memory, es: seq<Event>, j: nat)
    requires j <= |es|
    ensures ScRun(m, es[..j]) <==> forall i :: 0 <= i < j ==> Explained(m, es, i)
    decreases j
  {
    if j == 0 {
      assert es[..0] == [];
    } else {
      PrefixRuns(m, es, j - 1);
      var e := es[j - 1];
      assert es[..j] == es[..j - 1] + [e];
      ScConcat(m, es[..j - 1], [e]);
      ScOne(ScMemory(m, es[..j - 1]), e);
      if e.Load? {
        MemoryHolds(m, es, j - 1, e.addr, e.val);
      }
      if e.Cas? {
        MemoryHolds(m, es, j - 1, e.addr, e.expected);
      }
      hide Holds, ScRun, ScMemory;
      assert Explained(m, es, j - 1) <==> ScEnabled(ScMemory(m, es[..j - 1]), e);
    }
  }

  /** Without buffers: a sequence is a run exactly if every load and compare-and-swap agrees with the last write. */
  lemma ScRunExactly(m: Memory, es: seq<Event>)
    ensures ScRun(m, es) <==> forall j :: 0 <= j < |es| ==> Explained(m, es, j)
  {
    PrefixRuns(m, es, |es|);
    assert es[..|es|] == es;
  }

  // ----- TSO -----

  lemma {:induction false} DrainNewest(m: Memory, b: seq<Entry>, a: Address)
    ensures Read(Drain(m, b), a) == match Newest(b, a) case Some(v) => v case None => Read(m, a)
    decreases |b|
  {
    if b != [] {
      DrainNewest(m, Front(b), a);
      assert b == Front(b) + [Last(b)];
      DrainLast(m, Front(b), Last(b));
    }
  }

  /** A buffered store is seen by its own thread only, and at once. */
  lemma StoreIsPrivate(s: Tso, t: Thread, a: Address, v: Val, l: int, u: Thread, c: Address)
    ensures var s' := TsoNext(s, Store(t, a, v, l));
            && s'.memory == s.memory
            && TsoRead(s', u, c) == if u == t && c == a then v else TsoRead(s, u, c)
  {
    var b := s.Buffer(t) + [Entry(a, v, l)];
    assert Front(b) == s.Buffer(t);
  }

  /** After a fence, or a compare-and-swap that fails, all threads without buffered stores see what its thread saw. */
  lemma FencePublishes(s: Tso, e: Event, u: Thread, a: Address)
    requires e.Fence? || (e.Cas? && !e.succeeded)
    ensures var s' := TsoNext(s, e);
            && s'.Buffer(e.t) == [] && (u != e.t ==> s'.Buffer(u) == s.Buffer(u))
            && (s'.Buffer(u) == [] ==> TsoRead(s', u, a) == TsoRead(s, e.t, a))
  {
    DrainNewest(s.memory, s.Buffer(e.t), a);
    hide Drain;
  }

  /** A compare-and-swap compares with what its thread sees, and if it succeeds, everybody without stores sees
   * its value. */
  lemma CasIsAtomic(s: Tso, e: Event, u: Thread, a: Address)
    requires e.Cas? && TsoEnabled(s, e)
    ensures e.succeeded <==> TsoRead(s, e.t, e.addr) == e.expected
    ensures var s' := TsoNext(s, e);
            s'.Buffer(e.t) == [] && (s'.Buffer(u) == [] ==>
              TsoRead(s', u, a) == if e.succeeded && a == e.addr then e.desired else TsoRead(s, e.t, a))
  {
    DrainNewest(s.memory, s.Buffer(e.t), e.addr);
    DrainNewest(s.memory, s.Buffer(e.t), a);
    hide Drain;
  }

  /** A flush moves the oldest store of its thread into memory; with an empty buffer nothing happens. */
  lemma FlushMovesOldest(s: Tso, e: Event)
    requires e.Flush?
    ensures s.Buffer(e.t) == [] ==> TsoNext(s, e) == s
    ensures s.Buffer(e.t) != [] ==>
              var s', x := TsoNext(s, e), s.Buffer(e.t)[0];
              && s.Buffer(e.t) == [x] + s'.Buffer(e.t) && (forall u: Thread :: u != e.t ==> s'.Buffer(u) == s.Buffer(u))
              && forall a: Address :: Read(s'.memory, a) == if a == x.addr then x.val else Read(s.memory, a)
  {
  }

  // ----- PSO -----

  lemma PsoStoreIsPrivate(s: Pso, t: Thread, a: Address, v: Val, l: int, u: Thread, c: Address)
    ensures var s' := PsoNext(s, Store(t, a, v, l));
            && s'.memory == s.memory
            && PsoRead(s', u, c) == if u == t && c == a then v else PsoRead(s, u, c)
  {
  }

  /** Either fence publishes the stores to all addresses. */
  lemma PsoFencePublishes(s: Pso, e: Event, u: Thread, a: Address)
    requires e.Fence? || e.StoreFence?
    ensures var s' := PsoNext(s, e);
            && s'.Buffer(e.t, a) == [] && (u != e.t ==> s'.Buffer(u, a) == s.Buffer(u, a))
            && (s'.Buffer(u, a) == [] ==> PsoRead(s', u, a) == PsoRead(s, e.t, a))
  {
  }

  /** A compare-and-swap publishes the stores to its own address, and leaves those to others in their buffers. */
  lemma PsoCasIsAtomic(s: Pso, e: Event, u: Thread, a: Address)
    requires e.Cas? && PsoEnabled(s, e)
    ensures e.succeeded <==> PsoRead(s, e.t, e.addr) == e.expected
    ensures var s' := PsoNext(s, e);
            && s'.Buffer(e.t, e.addr) == [] && (a != e.addr ==> s'.Buffer(e.t, a) == s.Buffer(e.t, a))
            && (s'.Buffer(u, e.addr) == [] ==>
                  PsoRead(s', u, e.addr) == if e.succeeded then e.desired else PsoRead(s, e.t, e.addr))
            && (a != e.addr ==> PsoRead(s', u, a) == PsoRead(s, u, a))
  {
  }

  lemma PsoFlushMovesOldest(s: Pso, e: Event)
    requires e.Flush?
    ensures s.Buffer(e.t, e.addr) == [] ==> PsoNext(s, e) == s
    ensures s.Buffer(e.t, e.addr) != [] ==>
              var s', x := PsoNext(s, e), s.Buffer(e.t, e.addr)[0];
              && s.Buffer(e.t, e.addr) == [x] + s'.Buffer(e.t, e.addr)
              && (forall u: Thread, a: Address :: u != e.t || a != e.addr ==> s'.Buffer(u, a) == s.Buffer(u, a))
              && forall a: Address :: Read(s'.memory, a) == if a == e.addr then x.val else Read(s.memory, a)
  {
  }

  // ----- the recorded accesses -----

  /** An access in a history: to which address, of which instruction, and whether it writes. */
  datatype Access = Access(writes: bool, addr: Address, instr: int)

  /** What a thread did to shared memory, in program order; a compare-and-swap that fails leaves no access. */
  ghost function AccessesOf(es: seq<Event>, casLabels: bool): seq<Access> {
    if es == [] then []
    else
      var e := Last(es);
      AccessesOf(Front(es), casLabels)
      + (if e.Store? then [Access(true, e.addr, e.instr)]
         else if e.Load? then [Access(false, e.addr, e.instr)]
         else if e.Cas? && e.succeeded then [Access(true, e.addr, if casLabels then e.instr else 0)]
         else [])
  }

  /** What the records of a thread say. */
  ghost function AccessesIn(trace: seq<Rec>): seq<Access> {
    if trace == [] then []
    else
      var r := Last(trace);
      AccessesIn(Front(trace)) +
        (if r.kind.READ? || r.kind.WRITE? then [Access(r.kind.WRITE?, r.location, r.instr)] else [])
  }

  lemma {:induction false} AccessesInConcat(a: seq<Rec>, b: seq<Rec>)
    ensures AccessesIn(a + b) == AccessesIn(a) + AccessesIn(b)
    decreases |b|
  {
    if b == [] {
      assert a + b == a;
    } else {
      assert Front(a + b) == a + Front(b) && Last(a + b) == Last(b);
      AccessesInConcat(a, Front(b));
    }
  }

  lemma {:induction false} AccessesConcat(a: seq<Event>, b: seq<Event>, casLabels: bool)
    ensures AccessesOf(a + b, casLabels) == AccessesOf(a, casLabels) + AccessesOf(b, casLabels)
    decreases |b|
  {
    if b == [] {
      assert a + b == a;
    } else {
      assert Front(a + b) == a + Front(b) && Last(a + b) == Last(b);
      AccessesConcat(a, Front(b), casLabels);
    }
  }

  /** Under TSO the history shows the accesses of every thread in program order; a compare-and-swap has no label. */
  lemma {:induction false} AccessesAreRecorded(es: seq<Event>, t: Thread)
    ensures AccessesIn(TraceOf(RecordsOf(es), t)) == AccessesOf(ProgramOf(es, t), false)
    decreases |es|
  {
    hide AccessesIn, AccessesOf, TraceOf, ProgramOf, Records;
    if es == [] {
      NothingRecorded(t);
    } else {
      var e := Last(es);
      AccessesAreRecorded(Front(es), t);
      TraceConcat(RecordsOf(Front(es)), Records(e), t);
      AccessesInConcat(TraceOf(RecordsOf(Front(es)), t), TraceOf(Records(e), t));
      assert es == Front(es) + [e];
      ProgramConcat(Front(es), [e], t);
      AccessesConcat(ProgramOf(Front(es), t), ProgramOf([e], t), false);
      ProgramOne(e, t);
      OneRecorded(e, t);
    }
  }

  lemma OneRecorded(e: Event, t: Thread)
    ensures AccessesIn(TraceOf(Records(e), t)) == AccessesOf(if e.t == t && Visible(e) then [e] else [], false)
  {
    hide AccessesIn, AccessesOf, TraceOf;
    TraceOfTwo(Records(e), t);
    AccessOfOne(e, false);
    RecordShows(Records(e)[0]);
    RecordShows(Records(e)[|Records(e)| - 1]);
  }

  lemma OnePsoRecorded(e: Event, t: Thread)
    ensures AccessesIn(TraceOf(PsoRecords(e), t)) == AccessesOf(if e.t == t && Visible(e) then [e] else [], true)
  {
    hide AccessesIn, AccessesOf, TraceOf;
    TraceOfTwo(PsoRecords(e), t);
    AccessOfOne(e, true);
    RecordShows(PsoRecords(e)[0]);
    RecordShows(PsoRecords(e)[|PsoRecords(e)| - 1]);
  }

  lemma NothingRecorded(t: Thread)
    ensures AccessesIn(TraceOf([], t)) == [] && ProgramOf([], t) == []
    ensures AccessesOf([], false) == [] && AccessesOf([], true) == []
  {
  }

  lemma AccessOfOne(e: Event, casLabels: bool)
    ensures AccessesOf([], casLabels) == [] && AccessesIn([]) == []
    ensures AccessesOf([e], casLabels) ==
              if e.Store? then [Access(true, e.addr, e.instr)]
              else if e.Load? then [Access(false, e.addr, e.instr)]
              else if e.Cas? && e.succeeded then [Access(true, e.addr, if casLabels then e.instr else 0)]
              else []
  {
    assert Front([e]) == [];
  }

  lemma RecordShows(r: Rec)
    ensures AccessesIn([r]) ==
            if r.kind.READ? || r.kind.WRITE? then [Access(r.kind.WRITE?, r.location, r.instr)] else []
  {
    assert Front([r]) == [];
  }

  lemma TraceOfTwo(rs: seq<Rec>, t: Thread)
    requires 1 <= |rs| <= 2 && forall i :: 0 <= i < |rs| ==> rs[i].thr == rs[0].thr
    ensures TraceOf(rs, t) == if rs[0].thr == t then rs else []
    ensures AccessesIn(rs) == AccessesIn([rs[0]]) + (if |rs| == 2 then AccessesIn([rs[1]]) else [])
  {
    assert Front(rs) == if |rs| == 2 then [rs[0]] else [];
    assert Front([rs[0]]) == [];
    if |rs| == 2 {
      assert rs == [rs[0]] + [rs[1]];
      AccessesInConcat([rs[0]], [rs[1]]);
    } else {
      assert rs == [rs[0]];
    }
  }

  /** Under PSO too; there a compare-and-swap is recorded with its label. */
  lemma {:induction false} PsoAccessesAreRecorded(es: seq<Event>, t: Thread)
    ensures AccessesIn(TraceOf(PsoRecordsOf(es), t)) == AccessesOf(ProgramOf(es, t), true)
    decreases |es|
  {
    hide AccessesIn, AccessesOf, TraceOf, ProgramOf, PsoRecords;
    if es == [] {
      NothingRecorded(t);
    } else {
      var e := Last(es);
      PsoAccessesAreRecorded(Front(es), t);
      TraceConcat(PsoRecordsOf(Front(es)), PsoRecords(e), t);
      AccessesInConcat(TraceOf(PsoRecordsOf(Front(es)), t), TraceOf(PsoRecords(e), t));
      assert es == Front(es) + [e];
      ProgramConcat(Front(es), [e], t);
      AccessesConcat(ProgramOf(Front(es), t), ProgramOf([e], t), true);
      ProgramOne(e, t);
      OnePsoRecorded(e, t);
    }
  }
}
