/**
  The compiled function does what the symbols say. Every step of the folded program is
  matched by one or more instructions, from and to states that agree on tape, head,
  input and output.
*/
module BrainFSimulation {
  import opened Common
  import opened BrainFSyntax
  import opened BrainFIr
  import opened BrainFCodegen
  import opened BrainFLayout
  import M = BrainFMachine

  /** The tape lies inside the address space, which has at least 32 bits. */
  ghost predicate ValidWorld(w: World, o: Options) {
    && |w.garbage| == o.mem < 0x8000_0000
    && w.arr + o.mem < w.space && 0x1_0000_0000 <= w.space
    && (o.bounds ==> o.mem > 0)
  }

  /** Every folded run moves the head by a 32-bit distance. */
  ghost predicate SmallMoves(toks: seq<Sym>) {
    forall i :: 0 <= i < |toks| && toks[i].Move? ==> -0x8000_0000 <= toks[i].v < 0x8000_0000
  }

  ghost predicate HasReg(s: State, r: nat, v: int) {
    r in s.env && s.env[r] == v
  }

  /** Tape, input and output agree, and the pointer to the tape is where it should be. */
  ghost predicate SameData(o: Options, w: World, m: M.Machine, s: State) {
    && s.live && s.cells == m.tape && |m.tape| == o.mem
    && s.input == m.input && s.output == m.output && s.errors == 0
    && HasReg(s, ARR, w.arr) && (o.bounds ==> HasReg(s, ARRMAX, w.arr + o.mem))
    && (o.bounds ==> m.OnTape())
  }

  ghost predicate HeadIs(w: World, h: int, s: State, r: nat) {
    w.space > 0 && HasReg(s, r, (w.arr + h) % w.space)
  }

  /** The machine code is about to execute what will be emitted next. */
  ghost predicate At(g: Gen, o: Options, w: World, m: M.Machine, s: State) {
    && s.status.Running? && g.cur < |g.blocks|
    && s.block == g.cur && s.ip == |g.blocks[g.cur].instrs|
    && SameData(o, w, m, s) && HeadIs(w, m.head, s, g.head)
  }

  /** The registers of the header are not overwritten, and the head is a register already made. */
  ghost predicate Fresh(g: Gen, o: Options) {
    && g.nextReg > (if o.bounds then ARRMAX else ARR)
    && g.head < g.nextReg
    && forall k :: 0 <= k < |g.frames| ==> (if o.bounds then ARRMAX else ARR) < g.frames[k].phi < g.nextReg
  }

  lemma {:induction false} AfterFresh(toks: seq<Sym>, o: Options, i: nat)
    requires i <= |toks| && Opens(toks, i).Some?
    ensures Fresh(After(toks, o, i), o)
    decreases i
  {
    hide GenSym, Header, Fresh, Inv;
    if i > 0 {
      AfterFresh(toks, o, i - 1);
      GenSymFresh(After(toks, o, i - 1), toks[i - 1], o);
    } else {
      HeaderFresh(o);
    }
  }

  lemma HeaderFresh(o: Options)
    ensures Fresh(Header(o), o)
  {
    hide AppendTo, SetTerm, Int32;
  }

  lemma GenSymFresh(g: Gen, t: Sym, o: Options)
    requires Inv(g, o) && Fresh(g, o) && (t.EndLoop? ==> g.frames != [])
    ensures Fresh(GenSym(g, t, o), o)
  {
    hide AppendTo, SetTerm, AddIncoming, Int32;
  }

  // ----- executing a few instructions -----

  lemma Run3(code: seq<Block>, w: World, s: State)
    ensures Run(code, w, s, 3) == Step(code, w, Step(code, w, Step(code, w, s)))
  {
    hide Step;
    var s1 := Step(code, w, s);
    assert Run(code, w, s, 3) == Run(code, w, s1, 2) == Run(code, w, Step(code, w, s1), 1);
  }

  /** The next three instructions are `i`, `j` and `k`. */
  ghost predicate NextThree(code: seq<Block>, s: State, i: Instr, j: Instr, k: Instr) {
    && s.block < |code| && s.ip + 3 <= |code[s.block].instrs|
    && code[s.block].instrs[s.ip] == i
    && code[s.block].instrs[s.ip + 1] == j
    && code[s.block].instrs[s.ip + 2] == k
  }

  lemma EmittedThree(g: Gen, code: seq<Block>, i: Instr, j: Instr, k: Instr, s: State)
    requires g.cur < |g.blocks| && s.block == g.cur && s.ip == |g.blocks[g.cur].instrs|
    requires Grows(AppendTo(AppendTo(AppendTo(g.blocks, g.cur, i), g.cur, j), g.cur, k), code)
    requires !i.Phi? && !j.Phi? && !k.Phi?
    ensures NextThree(code, s, i, j, k)
    ensures |AppendTo(AppendTo(AppendTo(g.blocks, g.cur, i), g.cur, j), g.cur, k)[g.cur].instrs| == s.ip + 3
  {
    var b := AppendTo(AppendTo(AppendTo(g.blocks, g.cur, i), g.cur, j), g.cur, k)[g.cur];
    assert BlockGrows(b, code[g.cur]);
    assert InstrGrows(b.instrs[s.ip], code[g.cur].instrs[s.ip]);
    assert InstrGrows(b.instrs[s.ip + 1], code[g.cur].instrs[s.ip + 1]);
    assert InstrGrows(b.instrs[s.ip + 2], code[g.cur].instrs[s.ip + 2]);
  }

  /** The head points at the cell of the machine. */
  lemma HeadCell(o: Options, w: World, m: M.Machine, s: State, r: nat)
    requires ValidWorld(w, o) && SameData(o, w, m, s) && HeadIs(w, m.head, s, r) && m.OnTape()
    ensures CellAt(w, s, s.env[r]) == Some(m.head)
  {
  }

  lemma StepIs(code: seq<Block>, w: World, s: State, i: Instr)
    requires s.status.Running? && s.block < |code| && s.ip < |code[s.block].instrs|
    requires code[s.block].instrs[s.ip] == i
    ensures Step(code, w, s) == Exec(i, w, s)
  {
    hide Exec;
  }

  /** The state after three instructions, none of which stops. */
  lemma RunThree(code: seq<Block>, w: World, s: State, i: Instr, j: Instr, k: Instr)
    requires s.status.Running? && NextThree(code, s, i, j, k)
    requires var s1 := Exec(i, w, s); s1.status.Running? && s1.block == s.block && s1.ip == s.ip + 1
    requires var s2 := Exec(j, w, Exec(i, w, s)); s2.status.Running? && s2.block == s.block && s2.ip == s.ip + 2
    ensures Run(code, w, s, 3) == Exec(k, w, Exec(j, w, Exec(i, w, s)))
  {
    hide Exec;
    Run3(code, w, s);
    StepIs(code, w, s, i);
    StepIs(code, w, Exec(i, w, s), j);
    StepIs(code, w, Exec(j, w, Exec(i, w, s)), k);
  }

  lemma ExecLoad(w: World, s: State, r: nat, p: nat, k: nat)
    requires p in s.env && CellAt(w, s, s.env[p]) == Some(k) && k < |s.cells|
    ensures Exec(Load(r, p), w, s) == s.Set(r, s.cells[k])
  {
  }

  lemma ExecStore(w: World, s: State, r: nat, p: nat, k: nat)
    requires p in s.env && r in s.env && CellAt(w, s, s.env[p]) == Some(k) && k < |s.cells|
    ensures Exec(Store(r, p), w, s) == s.Next().(cells := s.cells[k := s.env[r] % 256])
  {
  }

  lemma ExecGetchar(w: World, s: State, d: nat)
    ensures Exec(Getchar(d), w, s) ==
            if s.input == [] then s.Set(d, -1) else s.Set(d, s.input[0]).(input := s.input[1..])
  {
  }

  /** The conversions between cells and characters, the output, and the addition. */
  lemma ExecValue(w: World, s: State, d: nat, r: nat, n: nat)
    requires r in s.env
    ensures Exec(Trunc(d, r), w, s) == s.Set(d, s.env[r] % 256)
    ensures Exec(SExt(d, r), w, s) == s.Set(d, if s.env[r] < 128 then s.env[r] else s.env[r] - 256)
    ensures Exec(AddI8(d, r, n), w, s) == s.Set(d, (s.env[r] + n) % 256)
    ensures Exec(Putchar(r), w, s) == s.Next().(output := s.output + [s.env[r] % 256])
  {
  }

  /** The last of three instructions stores the new cell. */
  lemma SimStored(g: Gen, o: Options, w: World, m: M.Machine, m1: M.Machine, s2: State, r: nat, g': Gen)
    requires ValidWorld(w, o) && m1.OnTape() && m1.head == m.head && m1.tape == m.tape && 0 <= r
    requires s2.status.Running? && s2.block == g.cur && SameData(o, w, m1, s2) && HeadIs(w, m1.head, s2, g.head)
    requires r in s2.env && 0 <= s2.env[r] < 256
    requires g'.cur == g.cur && g'.head == g.head && g.cur < |g'.blocks| && |g'.blocks[g.cur].instrs| == s2.ip + 1
    ensures At(g', o, w, m1.SetCell(s2.env[r]), Exec(Store(r, g.head), w, s2))
  {
    HeadCell(o, w, m1, s2, g.head);
    ExecStore(w, s2, r, g.head, m1.head);
  }

  /** A character, or the end of the input as 255. */
  lemma ExecRead(w: World, s: State, r: nat)
    ensures var b := if s.input == [] then 255 else s.input[0];
            var s1 := Exec(Getchar(r), w, s);
            && s1.status == s.status && s1.block == s.block && s1.ip == s.ip + 1
            && Exec(Trunc(r + 1, r), w, s1) == s1.Set(r + 1, b)
            && s1 == s.Set(r, if s.input == [] then -1 else b).(input := if s.input == [] then [] else s.input[1..])
  {
    hide Exec;
    ExecGetchar(w, s, r);
    ExecValue(w, Exec(Getchar(r), w, s), r + 1, r, 0);
  }

  lemma SimRead(g: Gen, o: Options, w: World, code: seq<Block>, m: M.Machine, s: State, m': M.Machine)
    requires ValidWorld(w, o) && Fresh(g, o) && At(g, o, w, m, s) && m.OnTape()
    requires Grows(GenRead(g).blocks, code)
    requires m' == m.SetCell(if m.input == [] then 255 else m.input[0])
                    .(input := if m.input == [] then [] else m.input[1..])
    ensures At(GenRead(g), o, w, m', Run(code, w, s, 3))
  {
    hide AppendTo, Grows, Run, ValidWorld, CellAt, Exec;
    var r := g.nextReg;
    var i, j, k := Getchar(r), Trunc(r + 1, r), Store(r + 1, g.head);
    EmittedThree(g, code, i, j, k, s);
    ExecRead(w, s, r);
    var s1 := Exec(i, w, s);
    var s2 := Exec(j, w, s1);
    var m1 := m.(input := if m.input == [] then [] else m.input[1..]);
    SimStored(g, o, w, m, m1, s2, r + 1, GenRead(g));
    HeadCell(o, w, m1, s2, g.head);
    ExecStore(w, s2, r + 1, g.head, m.head);
    RunThree(code, w, s, i, j, k);
  }

  lemma SimWrite(g: Gen, o: Options, w: World, code: seq<Block>, m: M.Machine, s: State, m': M.Machine)
    requires ValidWorld(w, o) && Fresh(g, o) && At(g, o, w, m, s) && m.OnTape()
    requires Grows(GenWrite(g).blocks, code)
    requires m' == m.(output := m.output + [m.Cell()])
    ensures At(GenWrite(g), o, w, m', Run(code, w, s, 3))
  {
    hide AppendTo, Grows, Run, ValidWorld, CellAt, Exec;
    var r := g.nextReg;
    var i, j, k := Load(r, g.head), SExt(r + 1, r), Putchar(r + 1);
    EmittedThree(g, code, i, j, k, s);
    HeadCell(o, w, m, s, g.head);
    ExecWrite(w, s, r, g.head, m.head);
    RunThree(code, w, s, i, j, k);
  }

  /** A byte as an i8 with a sign. */
  function Signed(b: Byte): int {
    if b < 128 then b else b - 256
  }

  /** The cell goes through a signed number and comes out as it was. */
  lemma ExecWrite(w: World, s: State, r: nat, p: nat, k: nat)
    requires p in s.env && CellAt(w, s, s.env[p]) == Some(k) && k < |s.cells|
    ensures var s1 := Exec(Load(r, p), w, s);
            var s2 := Exec(SExt(r + 1, r), w, s1);
            && s1.status == s2.status == s.status && s1.block == s2.block == s.block
            && s1.ip == s.ip + 1 && s2.ip == s.ip + 2
            && s1 == s.Set(r, s.cells[k])
            && s2 == s1.Set(r + 1, Signed(s.cells[k]))
            && Exec(Putchar(r + 1), w, s2) == s2.Next().(output := s.output + [s.cells[k]])
  {
    hide Exec, CellAt;
    ExecLoad(w, s, r, p, k);
    var s1 := s.Set(r, s.cells[k]);
    ExecValue(w, s1, r + 1, r, 0);
    ExecValue(w, Exec(SExt(r + 1, r), w, s1), r + 2, r + 1, 0);
  }

  lemma ChangedCell(c: nat, v: int)
    ensures (c + v % 256) % 256 == (c + v) % 256
  {
  }

  lemma SimChange(g: Gen, v: int, o: Options, w: World, code: seq<Block>, m: M.Machine, s: State, m': M.Machine)
    requires ValidWorld(w, o) && Fresh(g, o) && At(g, o, w, m, s) && m.OnTape()
    requires Grows(GenChange(g, v).blocks, code)
    requires m' == m.SetCell((m.Cell() + v) % 256)
    ensures At(GenChange(g, v), o, w, m', Run(code, w, s, 3))
  {
    hide AppendTo, Grows, Run, ValidWorld, CellAt, Exec;
    var r := g.nextReg;
    var i, j, k := Load(r, g.head), AddI8(r + 1, r, v % 256), Store(r + 1, g.head);
    EmittedThree(g, code, i, j, k, s);
    HeadCell(o, w, m, s, g.head);
    ExecLoad(w, s, r, g.head, m.head);
    var b := (m.Cell() + v) % 256;
    var s1 := s.Set(r, m.Cell());
    ExecValue(w, s1, r + 1, r, v % 256);
    var s2 := Exec(j, w, s1);
    ChangedCell(m.Cell(), v);
    assert s2 == s1.Set(r + 1, b);
    SimStored(g, o, w, m, m, s2, r + 1, GenChange(g, v));
    HeadCell(o, w, m, s2, g.head);
    ExecStore(w, s2, r + 1, g.head, m.head);
    RunThree(code, w, s, i, j, k);
  }

  // ----- moving the head -----

  lemma ModMultiple(x: int, q: int, n: int)
    requires 0 <= x < n
    ensures (x + n * q) % n == x
  {
    var r, d := (x + n * q) % n, (x + n * q) / n;
    assert x + n * q == n * d + r;
    assert x - r == n * (d - q);
    MulGrows(n, d - q);
  }

  lemma MulGrows(n: int, k: int)
    requires n > 0
    ensures k >= 1 ==> n * k >= n
    ensures k <= -1 ==> n * k <= -n
  {
  }

  /** Moving a wrapped pointer is moving and then wrapping. */
  lemma ModAdd(a: int, v: int, n: int)
    requires n > 0
    ensures (a % n + v) % n == (a + v) % n
  {
    var q := a / n;
    var d, r := (a % n + v) / n, (a % n + v) % n;
    assert a == n * q + a % n && a % n + v == n * d + r;
    assert a + v == r + n * (q + d);
    ModMultiple(r, q + d, n);
  }

  /** Wrapping around at most once. */
  lemma ModNear(a: int, n: int)
    requires n > 0 && -n <= a < 2 * n
    ensures a % n == if a < 0 then a + n else if a < n then a else a - n
  {
    if a < 0 {
      ModMultiple(a + n, -1, n);
    } else if a < n {
      ModMultiple(a, 0, n);
    } else {
      ModMultiple(a - n, 1, n);
    }
  }

  /** The emitted comparisons are exact: a wrapped pointer passes them only on the tape. */
  lemma CheckIsExact(w: World, o: Options, h: int, v: int)
    requires ValidWorld(w, o) && 0 <= h < o.mem && -0x8000_0000 <= v < 0x8000_0000
    ensures var p := (w.arr + h + v) % w.space;
            (p >= w.arr + o.mem || p < w.arr) <==> !(0 <= h + v < o.mem)
  {
    ModNear(w.arr + h + v, w.space);
  }

  lemma EmittedOne(g: Gen, blocks: seq<Block>, code: seq<Block>, i: Instr, s: State)
    requires g.cur < |g.blocks| && s.block == g.cur && s.ip == |g.blocks[g.cur].instrs|
    requires Grows(AppendTo(g.blocks, g.cur, i), code) && !i.Phi?
    ensures s.block < |code| && s.ip < |code[s.block].instrs| && code[s.block].instrs[s.ip] == i
    ensures |AppendTo(g.blocks, g.cur, i)[g.cur].instrs| == s.ip + 1
  {
    var b := AppendTo(g.blocks, g.cur, i)[g.cur];
    assert BlockGrows(b, code[g.cur]);
    assert InstrGrows(b.instrs[s.ip], code[g.cur].instrs[s.ip]);
  }

  /** The pointer arithmetic of a move. */
  lemma SimGep(g: Gen, v: int, o: Options, w: World, code: seq<Block>, m: M.Machine, s: State)
    requires ValidWorld(w, o) && Fresh(g, o) && At(g, o, w, m, s)
    requires -0x8000_0000 <= v < 0x8000_0000
    requires Grows(AppendTo(g.blocks, g.cur, Gep(g.nextReg, g.head, Int32(v))), code)
    ensures Step(code, w, s) == s.Set(g.nextReg, (w.arr + m.head + v) % w.space)
    ensures |AppendTo(g.blocks, g.cur, Gep(g.nextReg, g.head, Int32(v)))[g.cur].instrs| == s.ip + 1
  {
    hide AppendTo, Grows, Exec, Step;
    var i := Gep(g.nextReg, g.head, Int32(v));
    EmittedOne(g, g.blocks, code, i, s);
    StepIs(code, w, s, i);
    assert Int32(v) == v;
    ExecGep(w, s, g.nextReg, g.head, v, w.arr + m.head);
  }

  lemma ExecGep(w: World, s: State, d: nat, p: nat, v: int, a: int)
    requires w.space > 0 && HasReg(s, p, a % w.space)
    ensures Exec(Gep(d, p, v), w, s) == s.Set(d, (a + v) % w.space)
  {
    ModAdd(a, v, w.space);
  }

  lemma SimMoveUnchecked(g: Gen, v: int, o: Options, w: World, code: seq<Block>, m: M.Machine, s: State)
    requires ValidWorld(w, o) && Fresh(g, o) && At(g, o, w, m, s) && !o.bounds
    requires -0x8000_0000 <= v < 0x8000_0000
    requires Grows(GenMove(g, v, o).blocks, code)
    ensures At(GenMove(g, v, o), o, w, m.(head := m.head + v), Run(code, w, s, 1))
  {
    hide AppendTo, Grows;
    SimGep(g, v, o, w, code, m, s);
    assert Run(code, w, s, 1) == Run(code, w, Step(code, w, s), 0);
  }

  /** What a checked move emits, and what the finished function has of it. */
  lemma EmittedCheck(g: Gen, v: int, o: Options, code: seq<Block>, s: State)
    requires Inv(g, o) && s.block == g.cur && s.ip == |g.blocks[g.cur].instrs| && o.bounds
    requires Grows(GenMove(g, v, o).blocks, code)
    ensures var r, g' := g.nextReg, GenMove(g, v, o);
            && Grows(AppendTo(g.blocks, g.cur, Gep(r, g.head, Int32(v))), code)
            && NextThree(code, s.Next(), IcmpUGE(r + 1, r, ARRMAX), IcmpULT(r + 2, r, ARR), Or(r + 3, r + 1, r + 2))
            && code[s.block].term == Some(CondBr(r + 3, ERROR_BB, g'.cur))
            && |code[s.block].instrs| == s.ip + 4
            && g'.cur < |g'.blocks| && g'.blocks[g'.cur].instrs == []
  {
    hide InstrGrows, Inv;
    InvCur(g, o);
    var r := g.nextReg;
    var i, j, k := IcmpUGE(r + 1, r, ARRMAX), IcmpULT(r + 2, r, ARR), Or(r + 3, r + 1, r + 2);
    var b1 := AppendTo(g.blocks, g.cur, Gep(r, g.head, Int32(v)));
    var b4 := AppendTo(AppendTo(AppendTo(b1, g.cur, i), g.cur, j), g.cur, k);
    assert |b1| == |b4| == |g.blocks| && b1[g.cur].term.None? && b4[g.cur].term.None?;
    CheckGrows(b4, g.cur, r + 3, code);
    hide AppendTo, Grows;
    AppendThreeGrows(b1, g.cur, i, j, k);
    GrowsTrans(b1, b4, code);
    EmittedThree(g.(blocks := b1), code, i, j, k, s.Next());
  }

  /** The block that ends in a check is finished; behind it the next one begins. */
  lemma CheckGrows(b4: seq<Block>, cur: nat, r: nat, code: seq<Block>)
    requires cur < |b4| && b4[cur].term.None?
    requires Grows(SetTerm(NewBlock(b4), cur, CondBr(r, ERROR_BB, |b4|)), code)
    ensures Grows(b4, code) && cur < |code|
    ensures code[cur].term == Some(CondBr(r, ERROR_BB, |b4|)) && |code[cur].instrs| == |b4[cur].instrs|
  {
    hide InstrGrows;
    var b5 := SetTerm(NewBlock(b4), cur, CondBr(r, ERROR_BB, |b4|));
    SplitGrows(b4, cur, CondBr(r, ERROR_BB, |b4|));
    GrowsTrans(b4, b5, code);
    assert BlockGrows(b5[cur], code[cur]);
  }

  /** A checked move ends up behind the check, or in the error block. */
  lemma SimMoveChecked(g: Gen, v: int, o: Options, w: World, code: seq<Block>, m: M.Machine, s: State)
    requires ValidWorld(w, o) && Inv(g, o) && Fresh(g, o) && At(g, o, w, m, s) && o.bounds
    requires -0x8000_0000 <= v < 0x8000_0000
    requires Grows(GenMove(g, v, o).blocks, code)
    ensures var m', s' := m.(head := m.head + v), Run(code, w, s, 5);
            if m'.OnTape() then At(GenMove(g, v, o), o, w, m', s')
            else AtError(GenMove(g, v, o).head, w, m', s')
  {
    hide AppendTo, Grows, Run, GenMove, Exec, Inv, ValidWorld;
    var r, h := g.nextReg, m.head + v;
    GenMoveIs(g, v, o);
    EmittedCheck(g, v, o, code, s);
    SimGep(g, v, o, w, code, m, s);
    var s1 := Step(code, w, s);
    CheckIsExact(w, o, m.head, v);
    var p := (w.arr + h) % w.space;
    RunCompares(code, w, s1, r, p, w.arr + o.mem, w.arr);
    var s4 := Run(code, w, s1, 3);
    RunFive(code, w, s);
    assert s4.env[r + 3] == Bool(!(0 <= h < o.mem));
    assert Step(code, w, s4) == s4.Jump(if 0 <= h < o.mem then GenMove(g, v, o).cur else ERROR_BB);
  }

  /** The two comparisons of a check, and whether one of them holds. */
  lemma RunCompares(code: seq<Block>, w: World, s: State, r: nat, p: int, end: int, start: int)
    requires s.status.Running? && r > ARRMAX
    requires HasReg(s, r, p) && HasReg(s, ARRMAX, end) && HasReg(s, ARR, start)
    requires NextThree(code, s, IcmpUGE(r + 1, r, ARRMAX), IcmpULT(r + 2, r, ARR), Or(r + 3, r + 1, r + 2))
    ensures Run(code, w, s, 3) ==
            s.Set(r + 1, Bool(p >= end)).Set(r + 2, Bool(p < start)).Set(r + 3, Bool(p >= end || p < start))
  {
    hide Exec, Run, NextThree;
    ExecCompare(w, s, r, p, r + 1, ARRMAX, end);
    var s2 := s.Set(r + 1, Bool(p >= end));
    ExecCompare(w, s2, r, p, r + 2, ARR, start);
    var s3 := s2.Set(r + 2, Bool(p < start));
    ExecOr(w, s3, r + 3, r + 1, r + 2);
    RunThree(code, w, s, IcmpUGE(r + 1, r, ARRMAX), IcmpULT(r + 2, r, ARR), Or(r + 3, r + 1, r + 2));
  }

  lemma ExecCompare(w: World, s: State, r: nat, p: int, d: nat, q: nat, bound: int)
    requires HasReg(s, r, p) && HasReg(s, q, bound)
    ensures Exec(IcmpUGE(d, r, q), w, s) == s.Set(d, Bool(p >= bound))
    ensures Exec(IcmpULT(d, r, q), w, s) == s.Set(d, Bool(p < bound))
  {
  }

  lemma ExecOr(w: World, s: State, d: nat, a: nat, b: nat)
    requires a in s.env && b in s.env
    ensures Exec(Or(d, a, b), w, s) == s.Set(d, Bool(s.env[a] != 0 || s.env[b] != 0))
  {
  }

  lemma GenMoveIs(g: Gen, v: int, o: Options)
    requires Inv(g, o) && o.bounds
    ensures var g' := GenMove(g, v, o); g'.head == g.nextReg && g'.cur == |g.blocks| && g'.frames == g.frames
  {
  }

  lemma RunFive(code: seq<Block>, w: World, s: State)
    ensures Run(code, w, s, 5) == Step(code, w, Run(code, w, Step(code, w, s), 3))
  {
    hide Step;
    var s1 := Step(code, w, s);
    assert Run(code, w, s, 5) == Run(code, w, s1, 4);
    RunPlus(code, w, s1, 3, 1);
    var s4 := Run(code, w, s1, 3);
    assert Run(code, w, s4, 1) == Run(code, w, Step(code, w, s4), 0);
  }

  /** The machine code has found the head outside the tape. */
  ghost predicate AtError(head: nat, w: World, m: M.Machine, s: State) {
    && s.status.Running? && s.block == ERROR_BB && s.ip == 0
    && s.live && s.cells == m.tape && s.input == m.input && s.output == m.output && s.errors == 0
    && HasReg(s, ARR, w.arr) && HeadIs(w, m.head, s, head)
  }

  // ----- loops -----

  /** Entering the test block from either end of the loop: its PHI takes the head of that end. */
  lemma SimEnterTest(x: Gen, phi: nat, b: Block, code: seq<Block>, test: nat, o: Options, w: World, m: M.Machine,
      s: State)
    requires At(x, o, w, m, s) && s.block < |code| && |code[s.block].instrs| == s.ip
    requires code[s.block].term == Some(Br(test)) && test < |code| && code[test] == b
    requires |b.instrs| > 0 && b.instrs[0].Phi? && b.instrs[0].dst == phi
    requires IncomingFrom(b.instrs[0].incoming, x.cur) == Some(x.head)
    requires (if o.bounds then ARRMAX else ARR) < phi
    ensures var s' := Run(code, w, s, 2);
            && s'.status.Running? && s'.block == test && s'.ip == 1
            && SameData(o, w, m, s') && HeadIs(w, m.head, s', phi)
  {
    hide Run;
    var s1 := Step(code, w, s);
    assert s1 == s.Jump(test);
    StepIs(code, w, s1, b.instrs[0]);
    var s2 := Step(code, w, s1);
    assert s2 == s1.Set(phi, s.env[x.head]);
    RunTwo(code, w, s);
  }

  lemma RunTwo(code: seq<Block>, w: World, s: State)
    ensures Run(code, w, s, 2) == Step(code, w, Step(code, w, s))
  {
    hide Step;
    assert Run(code, w, s, 2) == Run(code, w, Step(code, w, s), 1);
  }

  /** The test itself: to the body if the cell is not zero, else behind the loop. */
  lemma SimTest(phi: nat, r: nat, exit: nat, body: nat, code: seq<Block>, o: Options, w: World, m: M.Machine, s: State)
    requires ValidWorld(w, o) && SameData(o, w, m, s) && HeadIs(w, m.head, s, phi) && m.OnTape()
    requires s.status.Running? && s.block < |code| && s.ip == 1
    requires var b := code[s.block];
             && |b.instrs| == 3 && b.instrs[1] == Load(r, phi) && b.instrs[2] == IcmpEqZero(r + 1, r)
             && b.term == Some(CondBr(r + 1, exit, body))
    requires (if o.bounds then ARRMAX else ARR) < phi < r
    ensures var s' := Run(code, w, s, 3);
            && s'.status.Running? && s'.block == (if m.Cell() == 0 then exit else body)
            && s'.ip == 0 && s'.prev == s.block
            && SameData(o, w, m, s') && HeadIs(w, m.head, s', phi)
  {
    hide Run;
    HeadCell(o, w, m, s, phi);
    StepIs(code, w, s, Load(r, phi));
    var s1 := Step(code, w, s);
    assert s1 == s.Set(r, m.Cell());
    StepIs(code, w, s1, IcmpEqZero(r + 1, r));
    var s2 := Step(code, w, s1);
    assert s2 == s1.Set(r + 1, Bool(m.Cell() == 0));
    assert Step(code, w, s2) == s2.Jump(if m.Cell() == 0 then exit else body);
    Run3(code, w, s);
  }

  /** Both brackets: from either end of a loop into its body or behind it. */
  lemma SimBracket(x: Gen, g0: Gen, gs: Gen, g: Gen, g': Gen, code: seq<Block>, o: Options, w: World, m: M.Machine,
      s: State)
    returns (n: nat)
    requires ValidWorld(w, o) && LoopCode(g0, gs, g, g', code)
    requires x == g0 || x == g
    requires At(x, o, w, m, s) && m.OnTape()
    requires (if o.bounds then ARRMAX else ARR) < gs.head < g.nextReg && g'.head == g.nextReg + 2
    ensures n > 0
    ensures At(if m.Cell() == 0 then g' else gs, o, w, m, Run(code, w, s, n))
  {
    hide Run;
    var test := gs.frames[0].testbb;
    var phi := code[test].instrs[0];
    assert phi.incoming[1..][0] == Incoming(g.head, g.cur);
    assert IncomingFrom(phi.incoming, x.cur) == Some(x.head);
    SimEnterTest(x, gs.head, code[test], code, test, o, w, m, s);
    var s2 := Run(code, w, s, 2);
    SimTest(gs.head, g.nextReg, g'.cur, gs.cur, code, o, w, m, s2);
    RunPlus(code, w, s, 2, 3);
    n := 5;
    if m.Cell() == 0 {
      RunPlus(code, w, s, 5, 1);
      SimExit(g0, gs, g, g', code, o, w, m, Run(code, w, s, 5));
      n := 6;
    }
  }

  /** Behind the loop: the PHI there takes the head of the test. */
  lemma SimExit(g0: Gen, gs: Gen, g: Gen, g': Gen, code: seq<Block>, o: Options, w: World, m: M.Machine, s: State)
    requires LoopCode(g0, gs, g, g', code) && ValidWorld(w, o)
    requires s.status.Running? && s.block == g'.cur && s.ip == 0 && s.prev == gs.frames[0].testbb
    requires SameData(o, w, m, s) && HeadIs(w, m.head, s, gs.head)
    requires (if o.bounds then ARRMAX else ARR) < gs.head && gs.head < g'.head == g.nextReg + 2
    ensures At(g', o, w, m, Run(code, w, s, 1))
  {
    hide Run;
    var last := code[g'.cur].instrs[0];
    assert last.incoming[0] == Incoming(gs.head, gs.frames[0].testbb);
    StepIs(code, w, s, last);
    assert Step(code, w, s) == s.Set(g'.head, s.env[gs.head]);
    RunOne(code, w, s);
  }

  lemma RunOne(code: seq<Block>, w: World, s: State)
    ensures Run(code, w, s, 1) == Step(code, w, s)
  {
    hide Step;
    assert Run(code, w, s, 1) == Run(code, w, Step(code, w, s), 0);
  }
}
