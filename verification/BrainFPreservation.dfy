/**
  The main theorems about the BrainF compiler: the compiled function means what its source
  means, without and with bounds checks.
*/
module BrainFPreservation {
  import opened Common
  import opened BrainFSyntax
  import opened BrainFIr
  import opened BrainFCodegen
  import opened BrainFLayout
  import opened BrainFSimulation
  import BrainFFolding
  import M = BrainFMachine

  /** The finished program, and what it is run on. */
  ghost predicate Setting(toks: seq<Sym>, o: Options, w: World) {
    Opens(toks, |toks|) == Some([]) && SmallMoves(toks) && ValidWorld(w, o)
  }

  ghost predicate LoopsAre(toks: seq<Sym>, starts: seq<nat>, loops: seq<seq<Sym>>) {
    && |starts| == |loops|
    && forall k :: 0 <= k < |starts| ==> starts[k] <= |toks| && loops[k] == toks[starts[k]..]
  }

  /** The folded program stands before symbol `i`, and the machine code where that symbol's code is. */
  ghost predicate Sim(toks: seq<Sym>, o: Options, w: World, i: nat, t: M.Conf<Sym>, s: State) {
    && i <= |toks| && Opens(toks, i).Some?
    && t.status.Running? && t.code == toks[i..]
    && LoopsAre(toks, Opens(toks, i).value, t.loops)
    && At(After(toks, o, i), o, w, t.m, s)
  }

  /** One symbol that is not a bracket. */
  lemma SimCommand(toks: seq<Sym>, o: Options, w: World, i: nat, t: M.Conf<Sym>, s: State) returns (n: nat)
    requires Setting(toks, o, w) && Sim(toks, o, w, i, t, s) && i < |toks|
    requires !toks[i].Loop? && !toks[i].EndLoop?
    requires !M.StepSym(t, o.bounds).status.Fault?
    ensures n > 0
    ensures var t', s' := M.StepSym(t, o.bounds), Run(Code(toks, o), w, s, n);
            if t'.status.Running? then Sim(toks, o, w, i + 1, t', s')
            else t'.status.Trap? && o.bounds && exists head: nat :: AtError(head, w, t'.m, s')
  {
    hide Run, At, Code, Inv, Fresh, GenRead, GenWrite, GenMove, GenChange, AtError, ValidWorld, After, Opens, Grows;
    var g, code := After(toks, o, i), Code(toks, o);
    assert toks[i..][0] == toks[i] && toks[i..][1..] == toks[i + 1..];
    OpensEarlier(toks, i + 1, |toks|);
    AfterCommand(toks, o, i);
    InvCur(g, o);
    CodeGrows(toks, o, i + 1);
    AfterFresh(toks, o, i);
    var m' := M.StepSym(t, o.bounds).m;
    match toks[i] {
      case Read =>
        SimRead(g, o, w, code, t.m, s, m');
        n := 3;
      case Write =>
        SimWrite(g, o, w, code, t.m, s, m');
        n := 3;
      case Change(v) =>
        SimChange(g, v, o, w, code, t.m, s, m');
        n := 3;
      case Move(v) =>
        if o.bounds {
          SimMoveChecked(g, v, o, w, code, t.m, s);
          assert AtError(GenMove(g, v, o).head, w, m', Run(code, w, s, 5)) || m'.OnTape();
          n := 5;
        } else {
          SimMoveUnchecked(g, v, o, w, code, t.m, s);
          n := 1;
        }
    }
  }

  lemma AfterCommand(toks: seq<Sym>, o: Options, i: nat)
    requires i < |toks| && !toks[i].Loop? && !toks[i].EndLoop? && Opens(toks, i).Some?
    ensures Opens(toks, i + 1) == Opens(toks, i)
    ensures After(toks, o, i + 1) == GenSym(After(toks, o, i), toks[i], o)
  {
  }

  /** The registers that a loop uses. */
  lemma LoopRegs(toks: seq<Sym>, o: Options, s: nat, j: nat)
    requires IsLoop(toks, s, j)
    ensures Opens(toks, j + 1).Some?
    ensures var gs, g, g' := After(toks, o, s), After(toks, o, j), After(toks, o, j + 1);
            (if o.bounds then ARRMAX else ARR) < gs.head < g.nextReg && g'.head == g.nextReg + 2
  {
    hide Inv, After, Opens, AppendTo, SetTerm, AddIncoming;
    InnermostLoop(toks, o, j);
    OpensEarlier(toks, j + 1, |toks|);
    AfterBracket(toks, o, s - 1);
    AfterBracket(toks, o, j);
    AfterFresh(toks, o, j);
    var g0, g := After(toks, o, s - 1), After(toks, o, j);
    InvCur(g0, o);
    assert After(toks, o, s).frames[0] == GenLoop(g0).frames[0];
    assert g.frames[0].phi == GenLoop(g0).head;
  }

  lemma CodeOfBracket(toks: seq<Sym>, o: Options, w: World, s0: nat, j: nat, x: nat, m: M.Machine, s: State)
    returns (n: nat)
    requires IsLoop(toks, s0, j) && ValidWorld(w, o) && (x == s0 - 1 || x == j)
    ensures Opens(toks, x).Some? && Opens(toks, j + 1).Some?
    requires Opens(toks, x).Some? && At(After(toks, o, x), o, w, m, s) && m.OnTape()
    ensures n > 0
    ensures At(After(toks, o, if m.Cell() == 0 then j + 1 else s0), o, w, m, Run(Code(toks, o), w, s, n))
  {
    hide Inv, After, Opens, LoopCode, At, Run, Code, ValidWorld;
    CodeOfLoop(toks, o, s0, j);
    LoopRegs(toks, o, s0, j);
    n := SimBracket(After(toks, o, x), After(toks, o, s0 - 1), After(toks, o, s0), After(toks, o, j),
                    After(toks, o, j + 1), Code(toks, o), o, w, m, s);
  }

  /** The "]" that belongs to a "[", and the loops that are open around them. */
  lemma LoopEnd(toks: seq<Sym>, i: nat) returns (j: nat)
    requires Opens(toks, |toks|) == Some([]) && i < |toks| && toks[i].Loop? && Opens(toks, i).Some?
    ensures IsLoop(toks, i + 1, j) && M.SkipSyms(toks[i + 1..], 0) == toks[j + 1..]
    ensures Opens(toks, i + 1) == Some([i + 1] + Opens(toks, i).value) && Opens(toks, j + 1) == Opens(toks, i)
  {
    hide M.SkipSyms;
    OpensEarlier(toks, i + 1, |toks|);
    assert Opens(toks, i + 1).value[0..] == Opens(toks, i + 1).value;
    j := FindClose(toks, i + 1, i + 1, 0);
    OpensEarlier(toks, j + 1, |toks|);
    assert Opens(toks, j + 1).value == Opens(toks, i).value;
  }

  lemma SimLoop(toks: seq<Sym>, o: Options, w: World, i: nat, t: M.Conf<Sym>, s: State) returns (n: nat, i': nat)
    requires Setting(toks, o, w) && Sim(toks, o, w, i, t, s) && i < |toks| && toks[i].Loop?
    requires !M.StepSym(t, o.bounds).status.Fault?
    ensures n > 0
    ensures Sim(toks, o, w, i', M.StepSym(t, o.bounds), Run(Code(toks, o), w, s, n))
  {
    hide Inv, After, At, Run, Code, ValidWorld, SmallMoves, Opens, M.SkipSyms;
    assert toks[i..][0] == toks[i] && toks[i..][1..] == toks[i + 1..];
    OpensEarlier(toks, i + 1, |toks|);
    var j := LoopEnd(toks, i);
    n := CodeOfBracket(toks, o, w, i + 1, j, i, t.m, s);
    i' := if t.m.Cell() == 0 then j + 1 else i + 1;
  }

  lemma SimEndLoop(toks: seq<Sym>, o: Options, w: World, j: nat, t: M.Conf<Sym>, s: State) returns (n: nat, i': nat)
    requires Setting(toks, o, w) && Sim(toks, o, w, j, t, s) && j < |toks| && toks[j].EndLoop?
    requires !M.StepSym(t, o.bounds).status.Fault?
    ensures n > 0
    ensures Sim(toks, o, w, i', M.StepSym(t, o.bounds), Run(Code(toks, o), w, s, n))
  {
    hide Inv, After, At, Run, Code, ValidWorld, M.SkipSyms;
    assert toks[j..][0] == toks[j] && toks[j..][1..] == toks[j + 1..];
    OpensEarlier(toks, j + 1, |toks|);
    var s0 := Opens(toks, j).value[0];
    InnermostLoop(toks, o, j);
    n := CodeOfBracket(toks, o, w, s0, j, j, t.m, s);
    i' := if t.m.Cell() == 0 then j + 1 else s0;
  }

  // ----- beginning and end -----

  /** The blocks of the header, as they are in the finished function. */
  lemma HeaderCode(toks: seq<Sym>, o: Options)
    requires Opens(toks, |toks|).Some?
    ensures var code, h := Code(toks, o), Header(o);
            && |code| > END_BB && |code[0].instrs| >= |h.blocks[0].instrs|
            && (forall k :: 0 <= k < |h.blocks[0].instrs| ==> code[0].instrs[k] == h.blocks[0].instrs[k])
            && code[END_BB] == Block([Free(ARR)], Some(Ret))
            && (o.bounds ==> |code| > ERROR_BB && code[ERROR_BB] == Block([PutsError], Some(Br(END_BB))))
  {
    hide Code;
    var code, h := Code(toks, o), Header(o);
    CodeGrows(toks, o, 0);
    HeaderBlocks(o);
    assert BlockGrows(h.blocks[0], code[0]) && BlockGrows(h.blocks[END_BB], code[END_BB]);
    forall k | 0 <= k < |h.blocks[0].instrs|
      ensures code[0].instrs[k] == h.blocks[0].instrs[k]
    {
      assert InstrGrows(h.blocks[0].instrs[k], code[0].instrs[k]);
    }
    assert InstrGrows(h.blocks[END_BB].instrs[0], code[END_BB].instrs[0]);
    if o.bounds {
      assert BlockGrows(h.blocks[ERROR_BB], code[ERROR_BB]);
      assert InstrGrows(h.blocks[ERROR_BB].instrs[0], code[ERROR_BB].instrs[0]);
    }
  }

  lemma HeaderBlocks(o: Options)
    ensures Header(o).cur == 0 && Header(o).head == if o.bounds then 2 else 1
    ensures var b := Header(o).blocks;
            && |b| > END_BB && |b[0].instrs| == (if o.bounds then 4 else 3)
            && b[0].instrs == [Malloc(ARR, o.mem), Memset(ARR, o.mem)]
                              + (if o.bounds then [Gep(ARRMAX, ARR, Int32(o.mem))] else [])
                              + [Gep(if o.bounds then 2 else 1, ARR, Int32(o.mem / 2))]
            && b[END_BB] == Block([Free(ARR)], Some(Ret))
            && (o.bounds ==> |b| > ERROR_BB && b[ERROR_BB] == Block([PutsError], Some(Br(END_BB))))
  {
    hide Int32;
  }

  /** malloc and memset: a tape of zeros. */
  lemma SimAlloc(code: seq<Block>, o: Options, w: World, input: seq<Byte>, k: Instr)
    requires ValidWorld(w, o) && NextThree(code, Entry(input), Malloc(ARR, o.mem), Memset(ARR, o.mem), k)
    ensures var s2 := Entry(input).(ip := 2, env := map[ARR := w.arr], live := true, cells := seq(o.mem, _ => 0));
            Run(code, w, Entry(input), 3) == Exec(k, w, s2)
  {
    hide Run;
    var i, j := Malloc(ARR, o.mem), Memset(ARR, o.mem);
    var s1 := Exec(i, w, Entry(input));
    assert s1.env == map[ARR := w.arr];
    RunThree(code, w, Entry(input), i, j, k);
  }

  /** The header puts the head in the middle of the tape. */
  lemma SimHeader(code: seq<Block>, o: Options, w: World, input: seq<Byte>) returns (n: nat)
    requires ValidWorld(w, o) && |code| > 0
    requires var e := Header(o).blocks[0].instrs;
             |code[0].instrs| >= |e| && forall k :: 0 <= k < |e| ==> code[0].instrs[k] == e[k]
    ensures At(Header(o), o, w, M.Initial<Sym>([], o.mem, input).m, Run(code, w, Entry(input), n))
  {
    hide Run, Header, Exec, Int32;
    HeaderBlocks(o);
    var s := Entry(input);
    var k := code[0].instrs[2];
    SimAlloc(code, o, w, input, k);
    var s2 := s.(ip := 2, env := map[ARR := w.arr], live := true, cells := seq(o.mem, _ => 0));
    var s3 := Exec(k, w, s2);
    var half := (w.arr + o.mem / 2) % w.space;
    n := 3;
    if o.bounds {
      ExecGep(w, s2, ARRMAX, o.mem);
      ModNear(w.arr + o.mem, w.space);
      assert s3 == s2.Set(ARRMAX, w.arr + o.mem);
      var last := Gep(2, ARR, Int32(o.mem / 2));
      assert code[0].instrs[3] == last;
      RunPlus(code, w, s, 3, 1);
      RunOne(code, w, s3);
      StepIs(code, w, s3, last);
      ExecGep(w, s3, 2, o.mem / 2);
      n := 4;
    } else {
      ExecGep(w, s2, 1, o.mem / 2);
    }
  }

  lemma ExecGep(w: World, s: State, r: nat, n: nat)
    requires w.space > 0 && HasReg(s, ARR, w.arr) && n < 0x8000_0000
    ensures Exec(Gep(r, ARR, Int32(n)), w, s) == s.Set(r, (w.arr + n) % w.space)
  {
  }

  lemma SimStart(toks: seq<Sym>, o: Options, w: World, input: seq<Byte>) returns (n: nat)
    requires Setting(toks, o, w)
    ensures Sim(toks, o, w, 0, M.Initial(toks, o.mem, input), Run(Code(toks, o), w, Entry(input), n))
  {
    hide Run, Code, Header, At;
    OpensEarlier(toks, 0, |toks|);
    HeaderCode(toks, o);
    n := SimHeader(Code(toks, o), o, w, input);
    assert toks[0..] == toks;
  }

  /** The function has returned, and the program was left at `head`. */
  ghost predicate Returned(head: nat, w: World, m: M.Machine, errors: nat, s: State) {
    && s.status.Halted? && s.errors == errors
    && s.cells == m.tape && s.input == m.input && s.output == m.output
    && HeadIs(w, m.head, s, head)
  }

  lemma RunFour(code: seq<Block>, w: World, s: State)
    ensures Run(code, w, s, 4) == Run(code, w, Step(code, w, s), 3)
  {
  }

  /** From the end of the code to the return. */
  lemma SimEnd(toks: seq<Sym>, o: Options, w: World, t: M.Conf<Sym>, s: State)
    requires Setting(toks, o, w) && Sim(toks, o, w, |toks|, t, s)
    ensures Returned(After(toks, o, |toks|).head, w, t.m, 0, Run(Code(toks, o), w, s, 3))
  {
    hide Run, After, Opens, Inv;
    InvCur(After(toks, o, |toks|), o);
    HeaderCode(toks, o);
    var code := Code(toks, o);
    EndBlockNotCur(After(toks, o, |toks|), o);
    var s1 := Step(code, w, s);
    assert s1 == s.Jump(END_BB);
    StepIs(code, w, s1, Free(ARR));
    Run3(code, w, s);
  }

  lemma EndBlockNotCur(g: Gen, o: Options)
    requires Inv(g, o)
    ensures g.cur != END_BB && (o.bounds ==> g.cur != ERROR_BB)
  {
  }

  /** From the error block to the return. */
  lemma SimTrap(toks: seq<Sym>, o: Options, w: World, head: nat, m: M.Machine, s: State)
    requires Setting(toks, o, w) && o.bounds && AtError(head, w, m, s)
    ensures Returned(head, w, m, 1, Run(Code(toks, o), w, s, 4))
  {
    hide Run, Code, Opens, SmallMoves, ValidWorld, Header;
    HeaderCode(toks, o);
    var code := Code(toks, o);
    StepIs(code, w, s, PutsError);
    var s1 := Step(code, w, s);
    assert s1 == s.Next().(errors := 1);
    FreeAndReturn(code, w, s1.Jump(END_BB));
    var s2 := Step(code, w, s1);
    assert s2 == s1.Jump(END_BB);
    Run3(code, w, s1);
    RunFour(code, w, s);
  }

  lemma FreeAndReturn(code: seq<Block>, w: World, s: State)
    requires END_BB < |code| && code[END_BB] == Block([Free(ARR)], Some(Ret))
    requires s.status.Running? && s.block == END_BB && s.ip == 0 && s.live && HasReg(s, ARR, w.arr)
    ensures Step(code, w, Step(code, w, s)) == s.Next().(live := false, status := Halted)
  {
    StepIs(code, w, s, Free(ARR));
  }

  // ----- whole runs -----

  /** The machine code is where the folded program is, or both have stopped: the program at its end,
      or with its head outside the tape and the error printed. */
  ghost predicate InStep(toks: seq<Sym>, o: Options, w: World, t: M.Conf<Sym>, s: State)
    requires Opens(toks, |toks|).Some?
  {
    if t.status.Running? then exists i: nat :: Sim(toks, o, w, i, t, s)
    else t.status.Trap? && exists head: nat :: Returned(head, w, t.m, 1, s)
  }

  /** With bounds checks no cell outside the tape is ever used. */
  lemma CheckedNeverFaults(toks: seq<Sym>, o: Options, w: World, i: nat, t: M.Conf<Sym>, s: State)
    requires Sim(toks, o, w, i, t, s) && o.bounds
    ensures !M.StepSym(t, true).status.Fault?
  {
    hide After, Opens;
  }

  lemma SimStep(toks: seq<Sym>, o: Options, w: World, i: nat, t: M.Conf<Sym>, s: State) returns (n: nat)
    requires Setting(toks, o, w) && Sim(toks, o, w, i, t, s) && i < |toks|
    requires o.bounds || !M.StepSym(t, o.bounds).status.Fault?
    ensures n > 0 && InStep(toks, o, w, M.StepSym(t, o.bounds), Run(Code(toks, o), w, s, n))
  {
    hide Sim, ValidWorld, SmallMoves, Run, Code, Inv, Returned, After, Opens;
    AfterDefined(toks, i, o, w, t, s);
    if o.bounds {
      CheckedNeverFaults(toks, o, w, i, t, s);
    }
    if toks[i].Loop? {
      var i';
      n, i' := SimLoop(toks, o, w, i, t, s);
      SimRuns(toks, o, w, i', M.StepSym(t, o.bounds), Run(Code(toks, o), w, s, n));
    } else if toks[i].EndLoop? {
      var i';
      n, i' := SimEndLoop(toks, o, w, i, t, s);
      SimRuns(toks, o, w, i', M.StepSym(t, o.bounds), Run(Code(toks, o), w, s, n));
    } else {
      n := SimCommand(toks, o, w, i, t, s);
      var s' := Run(Code(toks, o), w, s, n);
      var t' := M.StepSym(t, o.bounds);
      if t'.status.Running? {
        assert Sim(toks, o, w, i + 1, t', s');
      } else {
        var head: nat :| AtError(head, w, t'.m, s');
        SimTrap(toks, o, w, head, t'.m, s');
        RunPlus(Code(toks, o), w, s, n, 4);
        n := n + 4;
      }
    }
  }

  lemma AfterDefined(toks: seq<Sym>, i: nat, o: Options, w: World, t: M.Conf<Sym>, s: State)
    requires Sim(toks, o, w, i, t, s)
    ensures i <= |toks| && Opens(toks, i).Some?
  {
  }

  lemma SimRuns(toks: seq<Sym>, o: Options, w: World, i: nat, t: M.Conf<Sym>, s: State)
    requires Sim(toks, o, w, i, t, s)
    ensures t.status.Running? && s.status.Running?
  {
  }

  /** `k` steps of the folded program; while it is active each takes at least one instruction. */
  lemma {:induction false} SimSteps(toks: seq<Sym>, o: Options, w: World, i: nat, t: M.Conf<Sym>, s: State, k: nat)
    returns (n: nat)
    requires Setting(toks, o, w) && Sim(toks, o, w, i, t, s)
    requires o.bounds || forall l: nat :: !M.RunSym(t, false, l).status.Fault?
    ensures InStep(toks, o, w, M.RunSym(t, o.bounds, k), Run(Code(toks, o), w, s, n))
    ensures M.RunSym(t, o.bounds, k).Active() ==> n >= k
    decreases k
  {
    hide Run, Code, At, Returned, M.StepSym, After, Opens;
    n := 0;
    RunZero(Code(toks, o), w, s);
    if k == 0 {
    } else if !t.Active() {
      M.InactiveSymStays(t, o.bounds, k);
    } else {
      if !o.bounds {
        RunSymFirst(t);
      }
      assert i < |toks|;
      var n1 := SimStep(toks, o, w, i, t, s);
      var t1, s1 := M.StepSym(t, o.bounds), Run(Code(toks, o), w, s, n1);
      if t1.status.Running? {
        var i1: nat :| Sim(toks, o, w, i1, t1, s1);
        var n2 := SimSteps(toks, o, w, i1, t1, s1, k - 1);
        RunPlus(Code(toks, o), w, s, n1, n2);
        n := n1 + n2;
      } else {
        M.InactiveSymStays(t1, o.bounds, k - 1);
        n := n1;
      }
    }
  }

  lemma RunZero(code: seq<Block>, w: World, s: State)
    ensures Run(code, w, s, 0) == s
  {
  }

  /** A run that never faults does not fault in its first step, nor behind it. */
  lemma RunSymFirst(t: M.Conf<Sym>)
    requires forall l: nat :: !M.RunSym(t, false, l).status.Fault?
    ensures !M.StepSym(t, false).status.Fault?
    ensures forall l: nat :: !M.RunSym(M.StepSym(t, false), false, l).status.Fault?
  {
    forall l: nat
      ensures !M.RunSym(M.StepSym(t, false), false, l).status.Fault?
    {
      assert M.RunSym(t, false, l + 1) == M.RunSym(M.StepSym(t, false), false, l);
    }
    assert !M.RunSym(M.StepSym(t, false), false, 0).status.Fault?;
  }

  /** How the stopped program and the returned function agree: on everything if the program came
      to its end, and on all but the head's register if its head left the tape. */
  ghost predicate Agree(head: nat, w: World, t: M.Conf<Sym>, s: State) {
    if t.status.Trap? then exists r: nat :: Returned(r, w, t.m, 1, s)
    else t.Finished() && Returned(head, w, t.m, 0, s)
  }

  /** The start of a run of the compiled function, in step with the start of the folded program. */
  lemma RunFromStart(toks: seq<Sym>, o: Options, w: World, input: seq<Byte>, k: nat) returns (n: nat)
    requires Setting(toks, o, w)
    requires o.bounds || forall l: nat :: !M.RunSym(M.Initial(toks, o.mem, input), false, l).status.Fault?
    ensures var t, s := M.RunSym(M.Initial(toks, o.mem, input), o.bounds, k), Run(Code(toks, o), w, Entry(input), n);
            && (t.Active() ==> n >= k && s.status.Running?)
            && (!t.Active() ==> Agree(After(toks, o, |toks|).head, w, t, s))
  {
    hide Run, Code, At, Returned, M.StepSym, After, Opens, M.RunSym, M.Initial;
    var n0 := SimStart(toks, o, w, input);
    var s0 := Run(Code(toks, o), w, Entry(input), n0);
    var t0 := M.Initial(toks, o.mem, input);
    var n1 := SimSteps(toks, o, w, 0, t0, s0, k);
    RunPlus(Code(toks, o), w, Entry(input), n0, n1);
    n := n0 + n1;
    var t, s := M.RunSym(t0, o.bounds, k), Run(Code(toks, o), w, Entry(input), n);
    if t.status.Running? {
      var i: nat :| Sim(toks, o, w, i, t, s);
      SimRuns(toks, o, w, i, t, s);
    }
    if t.Finished() {
      var i: nat :| Sim(toks, o, w, i, t, s);
      assert i == |toks|;
      SimEnd(toks, o, w, t, s);
      var s' := Run(Code(toks, o), w, s, 3);
      RunPlus(Code(toks, o), w, Entry(input), n, 3);
      n := n + 3;
    }
  }

  /**
    The compiled function and the folded program: one returns exactly when the other stops, they
    then agree, and the function never does anything undefined.
  */
  lemma CompiledMeansFolded(toks: seq<Sym>, o: Options, w: World, input: seq<Byte>)
    requires Setting(toks, o, w)
    requires o.bounds || forall l: nat :: !M.RunSym(M.Initial(toks, o.mem, input), false, l).status.Fault?
    ensures var t, code, s := M.Initial(toks, o.mem, input), Code(toks, o), Entry(input);
            && (M.SymStops(t, o.bounds) <==> Halts(code, w, s))
            && (forall n: nat :: !Run(code, w, s, n).status.Wrong?)
            && (forall k: nat, n: nat ::
                  !M.RunSym(t, o.bounds, k).Active() && !Run(code, w, s, n).status.Running? ==>
                    Agree(After(toks, o, |toks|).head, w, M.RunSym(t, o.bounds, k), Run(code, w, s, n)))
  {
    hide Run, Code, Agree, After, Opens, M.RunSym, M.Initial;
    var t, code, s := M.Initial(toks, o.mem, input), Code(toks, o), Entry(input);
    forall n: nat
      ensures !Run(code, w, s, n).status.Wrong?
      ensures !Run(code, w, s, n).status.Running? ==> !M.RunSym(t, o.bounds, n + 1).Active()
    {
      var m := RunFromStart(toks, o, w, input, n + 1);
      ReturnedIsHalted(After(toks, o, |toks|).head, w, M.RunSym(t, o.bounds, n + 1), Run(code, w, s, m));
      if !Run(code, w, s, n).status.Running? {
        RunStops(code, w, s, n, m);
      }
    }
    if n: nat :| !Run(code, w, s, n).status.Running? {
      assert !M.RunSym(t, o.bounds, n + 1).Active();
    }
    forall k: nat | !M.RunSym(t, o.bounds, k).Active()
      ensures Halts(code, w, s)
      ensures forall n: nat :: !Run(code, w, s, n).status.Running? ==>
                Agree(After(toks, o, |toks|).head, w, M.RunSym(t, o.bounds, k), Run(code, w, s, n))
    {
      var m := RunFromStart(toks, o, w, input, k);
      ReturnedIsHalted(After(toks, o, |toks|).head, w, M.RunSym(t, o.bounds, k), Run(code, w, s, m));
      forall n: nat | !Run(code, w, s, n).status.Running?
        ensures Agree(After(toks, o, |toks|).head, w, M.RunSym(t, o.bounds, k), Run(code, w, s, n))
      {
        RunStops(code, w, s, m, n);
      }
    }
  }

  lemma ReturnedIsHalted(head: nat, w: World, t: M.Conf<Sym>, s: State)
    ensures Agree(head, w, t, s) ==> s.status.Halted?
  {
  }

  // ----- the theorems -----

  /**
    Compilation preserves meaning. Without bounds checks, for every balanced source whose folded runs
    move the head by 32-bit distances, and every input on which the source uses cells on the tape only:
    the compiled function returns exactly when the source comes to its end, with the same output, tape,
    head and unread input, and on the way it does nothing undefined.
  */
  lemma CompilationPreservesMeaning(src: seq<char>, mem: nat, w: World, input: seq<Byte>)
    requires Balanced(src) && SmallMoves(Lex(src)) && ValidWorld(w, Options(mem, false))
    requires forall n: nat :: !M.RunChar(M.Initial(src, mem, input), false, n).status.Fault?
    ensures var out, c, s := Compile(src, Options(mem, false)), M.Initial(src, mem, input), Entry(input);
            && out.Compiled?
            && (M.CharStops(c, false) <==> Halts(out.blocks, w, s))
            && (forall n: nat :: !Run(out.blocks, w, s, n).status.Wrong?)
            && (forall k: nat, n: nat ::
                  !M.RunChar(c, false, k).Active() && !Run(out.blocks, w, s, n).status.Running? ==>
                    && M.RunChar(c, false, k).Finished()
                    && Returned(out.head, w, M.RunChar(c, false, k).m, 0, Run(out.blocks, w, s, n)))
  {
    hide Run, Returned, After, Opens, M.RunSym, M.RunChar, M.Initial, Lex, Compile;
    var toks, o := Lex(src), Options(mem, false);
    CompileOutcome(src, o);
    BrainFFolding.FoldingPreservesMeaning(src, mem, input);
    var c, t := M.Initial(src, mem, input), M.Initial(toks, mem, input);
    forall l: nat
      ensures !M.RunSym(t, false, l).status.Fault?
    {
      if !M.RunSym(t, false, l).Active() {
        assert M.SymStops(t, false);
        var n: nat :| !M.RunChar(c, false, n).Active();
        assert BrainFFolding.StoppedAlike(M.RunChar(c, false, n), M.RunSym(t, false, l));
      }
    }
    CompiledMeansFolded(toks, o, w, input);
    NeverTraps(toks, mem, input);
  }

  lemma {:induction false} NeverTrapsIn(t: M.Conf<Sym>, k: nat)
    requires !t.status.Trap?
    ensures !M.RunSym(t, false, k).status.Trap?
    decreases k
  {
    if k > 0 {
      NeverTrapsIn(M.StepSym(t, false), k - 1);
    }
  }

  lemma NeverTraps(toks: seq<Sym>, mem: nat, input: seq<Byte>)
    ensures forall k: nat :: !M.RunSym(M.Initial(toks, mem, input), false, k).status.Trap?
  {
    forall k: nat
      ensures !M.RunSym(M.Initial(toks, mem, input), false, k).status.Trap?
    {
      NeverTrapsIn(M.Initial(toks, mem, input), k);
    }
  }

  /** Without any checks, and before a cell outside the tape is used, some folded move takes the head off the tape. */
  ghost predicate Strays(t: M.Conf<Sym>) {
    exists k: nat :: StraysAt(t, k)
  }

  ghost predicate StraysAt(t: M.Conf<Sym>, k: nat) {
    var before := M.RunSym(t, false, k);
    before.Active() && before.code[0].Move? && !M.StepSym(before, false).m.OnTape()
  }

  /** The checked program is the unchecked one up to the first such move. */
  lemma {:induction false} CheckedUntilTrap(t: M.Conf<Sym>, k: nat)
    requires !t.status.Trap?
    ensures !M.RunSym(t, true, k).status.Trap? ==> M.RunSym(t, true, k) == M.RunSym(t, false, k)
    ensures M.RunSym(t, true, k).status.Trap? ==> Strays(t)
    decreases k
  {
    hide M.SkipSyms;
    if k > 0 {
      var t' := M.StepSym(t, true);
      if t'.status.Trap? {
        M.InactiveSymStays(t', true, k - 1);
        assert M.RunSym(t, false, 0) == t;
        assert StraysAt(t, 0);
      } else {
        CheckedUntilTrap(t', k - 1);
        assert t' == M.StepSym(t, false);
        if M.RunSym(t', true, k - 1).status.Trap? {
          var j: nat :| StraysAt(t', j);
          assert M.RunSym(t, false, j + 1) == M.RunSym(t', false, j);
          assert StraysAt(t, j + 1);
        }
      }
    }
  }

  lemma StrayTraps(t: M.Conf<Sym>, k: nat)
    requires !t.status.Trap? && StraysAt(t, k)
    ensures M.RunSym(t, true, k + 1).status.Trap?
  {
    hide M.SkipSyms;
    CheckedUntilTrap(t, k);
    SymLast(t, true, k);
    var u := M.RunSym(t, true, k);
    if u.status.Trap? {
      assert M.StepSym(u, true) == u;
    }
  }

  lemma SymLast(t: M.Conf<Sym>, checked: bool, k: nat)
    ensures M.RunSym(t, checked, k + 1) == M.StepSym(M.RunSym(t, checked, k), checked)
  {
    hide M.StepSym;
    M.RunSymPlus(t, checked, k, 1);
    var u := M.RunSym(t, checked, k);
    assert M.RunSym(u, checked, 1) == M.RunSym(M.StepSym(u, checked), checked, 0);
  }

  /** Of a checked program that has stopped: it has trapped exactly if the unchecked one strays. */
  lemma TrapIsStray(t: M.Conf<Sym>, k: nat)
    requires !t.status.Trap? && !M.RunSym(t, true, k).Active()
    ensures M.RunSym(t, true, k).status.Trap? <==> Strays(t)
  {
    hide M.RunSym, M.StepSym, StraysAt;
    CheckedUntilTrap(t, k);
    if j: nat :| StraysAt(t, j) {
      StrayTraps(t, j);
      SymStopped(t, true, k, j + 1);
    }
  }

  lemma SymStopped(t: M.Conf<Sym>, checked: bool, k: nat, j: nat)
    requires !M.RunSym(t, checked, k).Active() && !M.RunSym(t, checked, j).Active()
    ensures M.RunSym(t, checked, k) == M.RunSym(t, checked, j)
  {
    if k <= j {
      M.RunSymPlus(t, checked, k, j - k);
      M.InactiveSymStays(M.RunSym(t, checked, k), checked, j - k);
    } else {
      M.RunSymPlus(t, checked, j, k - j);
      M.InactiveSymStays(M.RunSym(t, checked, j), checked, k - j);
    }
  }

  /** Of a stopped checked program and its compiled function: one error if the program strays, else none. */
  lemma ErrorIsStray(head: nat, w: World, t: M.Conf<Sym>, k: nat, s: State)
    requires !t.status.Trap? && !M.RunSym(t, true, k).Active() && Agree(head, w, M.RunSym(t, true, k), s)
    ensures s.errors == if Strays(t) then 1 else 0
  {
    hide M.RunSym, Strays;
    TrapIsStray(t, k);
  }

  /**
    Bounds checks are exact. With them the compiled function uses cells on the tape only, whatever the
    source does; it returns exactly when the folded program stops; and it has printed the error, once,
    exactly if a maximal run of moves ends outside the tape, judged by its net displacement.
  */
  lemma BoundsChecksAreExact(src: seq<char>, mem: nat, w: World, input: seq<Byte>)
    requires Balanced(src) && SmallMoves(Lex(src)) && ValidWorld(w, Options(mem, true))
    ensures var out, t, s := Compile(src, Options(mem, true)), M.Initial(Lex(src), mem, input), Entry(input);
            && out.Compiled?
            && (forall n: nat :: !Run(out.blocks, w, s, n).status.Wrong?)
            && (M.SymStops(t, true) <==> Halts(out.blocks, w, s))
            && (forall k: nat, n: nat ::
                  !M.RunSym(t, true, k).Active() && !Run(out.blocks, w, s, n).status.Running? ==>
                    Agree(out.head, w, M.RunSym(t, true, k), Run(out.blocks, w, s, n)))
            && (Strays(t) ==> Halts(out.blocks, w, s))
            && (forall n: nat :: !Run(out.blocks, w, s, n).status.Running? ==>
                  Run(out.blocks, w, s, n).errors == if Strays(t) then 1 else 0)
  {
    hide Run, Returned, After, Opens, M.RunSym, M.Initial, Lex, Compile, Agree, Strays;
    CompileOutcome(src, Options(mem, true));
    CompiledMeansFolded(Lex(src), Options(mem, true), w, input);
    var out, t, s := Compile(src, Options(mem, true)), M.Initial(Lex(src), mem, input), Entry(input);
    InitiallyRuns(Lex(src), mem, input);
    if Strays(t) {
      StrayStops(t);
    }
    forall n: nat | !Run(out.blocks, w, s, n).status.Running?
      ensures Run(out.blocks, w, s, n).errors == if Strays(t) then 1 else 0
    {
      var k: nat :| !M.RunSym(t, true, k).Active();
      ErrorIsStray(out.head, w, t, k, Run(out.blocks, w, s, n));
    }
  }

  lemma InitiallyRuns(toks: seq<Sym>, mem: nat, input: seq<Byte>)
    ensures M.Initial(toks, mem, input).status.Running?
  {
  }

  lemma StrayStops(t: M.Conf<Sym>)
    requires !t.status.Trap? && Strays(t)
    ensures M.SymStops(t, true)
  {
    hide M.RunSym, StraysAt;
    var k: nat :| StraysAt(t, k);
    StrayTraps(t, k);
    assert !M.RunSym(t, true, k + 1).Active();
  }

  /** A source that stays on the tape step by step means the same with and without checks. */
  lemma {:induction false} CheckedIsUnchecked(c: M.Conf<char>, n: nat)
    requires !M.RunChar(c, true, n).status.Trap?
    ensures M.RunChar(c, true, n) == M.RunChar(c, false, n)
    decreases n
  {
    if n > 0 {
      var c' := M.StepChar(c, true);
      if c'.status.Trap? {
        M.InactiveCharStays(c', true, n - 1);
      }
      CheckedIsUnchecked(c', n - 1);
    }
  }

  /**
    A source that never leaves the tape, step by step, is never stopped by the bounds checks: the
    function compiled with them does what the source does, and never prints the error.
  */
  lemma OnTapeSourceNeverTraps(src: seq<char>, mem: nat, w: World, input: seq<Byte>)
    requires Balanced(src) && SmallMoves(Lex(src)) && ValidWorld(w, Options(mem, true))
    requires forall n: nat :: !M.RunChar(M.Initial(src, mem, input), true, n).status.Trap?
    ensures var out, c, s := Compile(src, Options(mem, true)), M.Initial(src, mem, input), Entry(input);
            && out.Compiled?
            && (M.CharStops(c, false) <==> Halts(out.blocks, w, s))
            && (forall k: nat, n: nat ::
                  !M.RunChar(c, false, k).Active() && !Run(out.blocks, w, s, n).status.Running? ==>
                    && M.RunChar(c, false, k).Finished()
                    && Returned(out.head, w, M.RunChar(c, false, k).m, 0, Run(out.blocks, w, s, n)))
  {
    hide Run, Returned, After, Opens, M.RunSym, M.RunChar, M.Initial, M.StepChar, Lex, Compile;
    BoundsChecksAreExact(src, mem, w, input);
    var toks, out, s := Lex(src), Compile(src, Options(mem, true)), Entry(input);
    var c, t := M.Initial(src, mem, input), M.Initial(toks, mem, input);
    InitiallyCorresponds(src, mem, input);
    forall n: nat
      ensures M.RunChar(c, true, n) == M.RunChar(c, false, n)
    {
      CheckedIsUnchecked(c, n);
    }
    if n: nat :| !M.RunChar(c, false, n).Active() {
      BrainFFolding.FoldedStopsToo(c, t, true, n);
    }
    forall k: nat | !M.RunSym(t, true, k).Active()
      ensures M.CharStops(c, false)
      ensures forall m: nat :: !M.RunChar(c, false, m).Active() ==>
                BrainFFolding.StoppedAlike(M.RunChar(c, false, m), M.RunSym(t, true, k))
    {
      var n := BrainFFolding.SourceStopsToo(c, t, true, k);
      assert !M.RunChar(c, false, n).Active();
      forall m: nat | !M.RunChar(c, false, m).Active()
        ensures BrainFFolding.StoppedAlike(M.RunChar(c, false, m), M.RunSym(t, true, k))
      {
        BrainFFolding.StoppedAfter(c, true, n, m);
      }
    }
    forall k: nat, n: nat | !M.RunChar(c, false, k).Active() && !Run(out.blocks, w, s, n).status.Running?
      ensures M.RunChar(c, false, k).Finished()
      ensures Returned(out.head, w, M.RunChar(c, false, k).m, 0, Run(out.blocks, w, s, n))
    {
      BrainFFolding.FoldedStopsToo(c, t, true, k);
      assert BrainFFolding.StoppedAlike(M.RunChar(c, false, k), M.RunSym(t, true, k + 1));
      assert Agree(out.head, w, M.RunSym(t, true, k + 1), Run(out.blocks, w, s, n));
    }
  }

  lemma InitiallyCorresponds(src: seq<char>, mem: nat, input: seq<Byte>)
    ensures BrainFFolding.Corresponds(M.Initial(src, mem, input), M.Initial(Lex(src), mem, input))
  {
  }
}
