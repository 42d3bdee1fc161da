/**
  The part of the intermediate representation that the BrainF compiler emits, and a
  machine that executes it one instruction at a time.

  A value is named by the number of its register. Pointers are numbers below the size of
  the address space, and pointer arithmetic wraps around in it.
*/
module BrainFIr {
  import opened Common

  datatype Incoming = Incoming(value: nat, pred: nat)

  datatype Instr =
    | Malloc(dst: nat, size: int)
    | Memset(ptr: nat, size: int)
    | Free(ptr: nat)
    | Gep(dst: nat, ptr: nat, index: int)
    | Load(dst: nat, ptr: nat)
    | Store(src: nat, ptr: nat)
    | Getchar(dst: nat)
    | Putchar(src: nat)
    | PutsError
    | Trunc(dst: nat, src: nat)
    | SExt(dst: nat, src: nat)
    | AddI8(dst: nat, src: nat, imm: int)
    | IcmpUGE(dst: nat, lhs: nat, rhs: nat)
    | IcmpULT(dst: nat, lhs: nat, rhs: nat)
    | IcmpEqZero(dst: nat, src: nat)
    | Or(dst: nat, lhs: nat, rhs: nat)
    | Phi(dst: nat, incoming: seq<Incoming>)

  datatype Terminator =
    | Br(target: nat)
    | CondBr(cond: nat, ifTrue: nat, ifFalse: nat)
    | Ret

  /** A block without terminator is still under construction. */
  datatype Block = Block(instrs: seq<Instr>, term: Option<Terminator>)

  /** The registers an instruction reads. A PHI reads on the edge it is entered by; see `Phi`. */
  function Uses(i: Instr): set<nat> {
    match i
    case Memset(p, _) => {p}
    case Free(p) => {p}
    case Gep(_, p, _) => {p}
    case Load(_, p) => {p}
    case Store(s, p) => {s, p}
    case Putchar(s) => {s}
    case Trunc(_, s) => {s}
    case SExt(_, s) => {s}
    case AddI8(_, s, _) => {s}
    case IcmpUGE(_, a, b) => {a, b}
    case IcmpULT(_, a, b) => {a, b}
    case IcmpEqZero(_, s) => {s}
    case Or(_, a, b) => {a, b}
    case _ => {}
  }

  /** The register an instruction defines, if any. */
  function Def(i: Instr): Option<nat> {
    if i.Memset? || i.Free? || i.Store? || i.Putchar? || i.PutsError? then None else Some(i.dst)
  }

  function TermUses(t: Terminator): set<nat> {
    if t.CondBr? then {t.cond} else {}
  }

  function Succs(t: Terminator): set<nat> {
    match t
    case Br(b) => {b}
    case CondBr(_, b, c) => {b, c}
    case Ret => {}
  }

  // ----- execution -----

  /** Where malloc puts the tape, what it finds there, and the size of the address space. */
  datatype World = World(arr: nat, space: nat, garbage: seq<Byte>)

  datatype Status = Running | Halted | Wrong

  /** `live` holds between malloc and free; `errors` counts the printed error messages. */
  datatype State = State(
    block: nat, ip: nat, prev: nat, env: map<nat, int>,
    live: bool, cells: seq<Byte>, input: seq<Byte>, output: seq<Byte>, errors: nat,
    status: Status)
  {
    function Next(): State {
      this.(ip := ip + 1)
    }

    function Set(r: nat, v: int): State {
      this.(env := env[r := v], ip := ip + 1)
    }

    function GoWrong(): State {
      this.(status := Wrong)
    }

    function Jump(b: nat): State {
      this.(block := b, ip := 0, prev := block)
    }
  }

  function Entry(input: seq<Byte>): State {
    State(0, 0, 0, map[], false, [], input, [], 0, Running)
  }

  function Bool(b: bool): int {
    if b then 1 else 0
  }

  /** The position in the tape that address `a` stands for, if it is one. */
  function CellAt(w: World, s: State, a: int): Option<nat> {
    if s.live && w.arr <= a < w.arr + |s.cells| then Some(a - w.arr) else None
  }

  function IncomingFrom(incoming: seq<Incoming>, pred: nat): Option<nat> {
    if incoming == [] then None
    else if incoming[0].pred == pred then Some(incoming[0].value)
    else IncomingFrom(incoming[1..], pred)
  }

  function Exec(i: Instr, w: World, s: State): State {
    if !(Uses(i) <= s.env.Keys) then s.GoWrong()
    else
      match i
      case Malloc(d, n) => if n == |w.garbage| then s.Set(d, w.arr).(live := true, cells := w.garbage) else s.GoWrong()
      case Memset(p, n) =>
        if s.live && s.env[p] == w.arr && n == |s.cells|
        then s.Next().(cells := seq(|s.cells|, _ => 0))
        else s.GoWrong()
      case Free(p) => if s.live && s.env[p] == w.arr then s.Next().(live := false) else s.GoWrong()
      case Gep(d, p, n) => if w.space == 0 then s.GoWrong() else s.Set(d, (s.env[p] + n) % w.space)
      case Load(d, p) =>
        (match CellAt(w, s, s.env[p])
         case None => s.GoWrong()
         case Some(k) => s.Set(d, s.cells[k]))
      case Store(r, p) =>
        (match CellAt(w, s, s.env[p])
         case None => s.GoWrong()
         case Some(k) => s.Next().(cells := s.cells[k := s.env[r] % 256]))
      case Getchar(d) =>
        if s.input == [] then s.Set(d, -1) else s.Set(d, s.input[0]).(input := s.input[1..])
      case Putchar(r) => s.Next().(output := s.output + [s.env[r] % 256])
      case PutsError => s.Next().(errors := s.errors + 1)
      case Trunc(d, r) => s.Set(d, s.env[r] % 256)
      case SExt(d, r) => s.Set(d, if s.env[r] < 128 then s.env[r] else s.env[r] - 256)
      case AddI8(d, r, n) => s.Set(d, (s.env[r] + n) % 256)
      case IcmpUGE(d, a, b) => s.Set(d, Bool(s.env[a] >= s.env[b]))
      case IcmpULT(d, a, b) => s.Set(d, Bool(s.env[a] < s.env[b]))
      case IcmpEqZero(d, r) => s.Set(d, Bool(s.env[r] == 0))
      case Or(d, a, b) => s.Set(d, Bool(s.env[a] != 0 || s.env[b] != 0))
      case Phi(d, incoming) =>
        (match IncomingFrom(incoming, s.prev)
         case None => s.GoWrong()
         case Some(r) => if r in s.env then s.Set(d, s.env[r]) else s.GoWrong())
  }

  function ExecTerm(t: Option<Terminator>, s: State): State {
    match t
    case None => s.GoWrong()
    case Some(Ret) => s.(status := Halted)
    case Some(Br(b)) => s.Jump(b)
    case Some(CondBr(r, b, c)) =>
      if r in s.env then s.Jump(if s.env[r] != 0 then b else c) else s.GoWrong()
  }

  function Step(code: seq<Block>, w: World, s: State): State {
    if !s.status.Running? then s
    else if s.block >= |code| then s.GoWrong()
    else
      var b := code[s.block];
      if s.ip < |b.instrs| then Exec(b.instrs[s.ip], w, s) else ExecTerm(b.term, s)
  }

  function Run(code: seq<Block>, w: World, s: State, n: nat): State
    decreases n
  {
    if n == 0 then s else Run(code, w, Step(code, w, s), n - 1)
  }

  ghost predicate Halts(code: seq<Block>, w: World, s: State) {
    exists n: nat :: !Run(code, w, s, n).status.Running?
  }

  lemma {:induction false} RunPlus(code: seq<Block>, w: World, s: State, m: nat, n: nat)
    ensures Run(code, w, s, m + n) == Run(code, w, Run(code, w, s, m), n)
    decreases m
  {
    if m > 0 {
      RunPlus(code, w, Step(code, w, s), m - 1, n);
    }
  }

  lemma {:induction false} StoppedStays(code: seq<Block>, w: World, s: State, n: nat)
    requires !s.status.Running?
    ensures Run(code, w, s, n) == s
    decreases n
  {
    if n > 0 {
      StoppedStays(code, w, s, n - 1);
    }
  }

  /** Once stopped, a run stays where it is. */
  lemma RunStops(code: seq<Block>, w: World, s: State, n: nat, m: nat)
    requires !Run(code, w, s, n).status.Running?
    ensures m >= n ==> Run(code, w, s, m) == Run(code, w, s, n)
    ensures !Run(code, w, s, m).status.Running? ==> Run(code, w, s, m) == Run(code, w, s, n)
  {
    if m >= n {
      RunPlus(code, w, s, n, m - n);
      StoppedStays(code, w, Run(code, w, s, n), m - n);
    } else if !Run(code, w, s, m).status.Running? {
      RunPlus(code, w, s, m, n - m);
      StoppedStays(code, w, Run(code, w, s, m), n - m);
    }
  }
}
