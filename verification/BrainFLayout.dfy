/**
  Where the code of a symbol ends up. Code generation only ever adds: what has been emitted
  after some symbols is still there at the end. Together with the nesting of loops this locates
  the code of every symbol, and of both ends of every loop, in the finished function.
*/
module BrainFLayout {
  import opened Common
  import opened BrainFSyntax
  import opened BrainFIr
  import opened BrainFCodegen
  import opened BrainFMachine

  // ----- code only grows -----

  /** Until its block is ended, a PHI may still receive incoming edges; everything else is final. */
  ghost predicate InstrGrows(a: Instr, b: Instr) {
    a == b || (a.Phi? && b.Phi? && a.dst == b.dst && a.incoming <= b.incoming)
  }

  ghost predicate BlockGrows(a: Block, b: Block) {
    && |a.instrs| <= |b.instrs|
    && (forall k :: 0 <= k < |a.instrs| ==> InstrGrows(a.instrs[k], b.instrs[k]))
    && (a.term.Some? ==> b == a)
  }

  ghost predicate Grows(a: seq<Block>, b: seq<Block>) {
    |a| <= |b| && forall k :: 0 <= k < |a| ==> BlockGrows(a[k], b[k])
  }

  lemma GrowsTrans(a: seq<Block>, b: seq<Block>, c: seq<Block>)
    requires Grows(a, b) && Grows(b, c)
    ensures Grows(a, c)
  {
    forall k | 0 <= k < |a|
      ensures BlockGrows(a[k], c[k])
    {
      assert BlockGrows(a[k], b[k]) && BlockGrows(b[k], c[k]);
      forall l | 0 <= l < |a[k].instrs|
        ensures InstrGrows(a[k].instrs[l], c[k].instrs[l])
      {
        assert InstrGrows(a[k].instrs[l], b[k].instrs[l]) && InstrGrows(b[k].instrs[l], c[k].instrs[l]);
      }
    }
  }

  lemma AppendGrows(blocks: seq<Block>, b: nat, i: Instr)
    requires b < |blocks| && blocks[b].term.None?
    ensures Grows(blocks, AppendTo(blocks, b, i))
  {
  }

  lemma AppendThreeGrows(blocks: seq<Block>, b: nat, i: Instr, j: Instr, k: Instr)
    requires b < |blocks| && blocks[b].term.None?
    ensures Grows(blocks, AppendTo(AppendTo(AppendTo(blocks, b, i), b, j), b, k))
  {
    var b1 := AppendTo(blocks, b, i);
    var b2 := AppendTo(b1, b, j);
    AppendGrows(b1, b, j);
    GrowsTrans(blocks, b1, b2);
    AppendGrows(b2, b, k);
    GrowsTrans(blocks, b2, AppendTo(b2, b, k));
  }

  lemma SplitGrows(blocks: seq<Block>, b: nat, t: Terminator)
    requires b < |blocks| && blocks[b].term.None?
    ensures Grows(blocks, SetTerm(NewBlock(blocks), b, t))
  {
  }

  lemma GenMoveGrows(g: Gen, v: int, o: Options)
    requires Inv(g, o)
    ensures Grows(g.blocks, GenMove(g, v, o).blocks)
  {
    var r := g.nextReg;
    var b1 := AppendTo(g.blocks, g.cur, Gep(r, g.head, Int32(v)));
    AppendGrows(g.blocks, g.cur, Gep(r, g.head, Int32(v)));
    if o.bounds {
      var b2 := AppendTo(b1, g.cur, IcmpUGE(r + 1, r, ARRMAX));
      var b3 := AppendTo(b2, g.cur, IcmpULT(r + 2, r, ARR));
      var b4 := AppendTo(b3, g.cur, Or(r + 3, r + 1, r + 2));
      AppendThreeGrows(b1, g.cur, IcmpUGE(r + 1, r, ARRMAX), IcmpULT(r + 2, r, ARR), Or(r + 3, r + 1, r + 2));
      GrowsTrans(g.blocks, b1, b4);
      SplitGrows(b4, g.cur, CondBr(r + 3, ERROR_BB, |b4|));
      GrowsTrans(g.blocks, b4, SetTerm(NewBlock(b4), g.cur, CondBr(r + 3, ERROR_BB, |b4|)));
    }
  }

  lemma GenEndLoopGrows(g: Gen, o: Options)
    requires Inv(g, o) && g.frames != []
    ensures Grows(g.blocks, GenEndLoop(g).blocks)
  {
    assert OpenHeader(g.blocks, g.frames[0]);
  }

  lemma GenSymGrows(g: Gen, t: Sym, o: Options)
    requires Inv(g, o) && (t.EndLoop? ==> g.frames != [])
    ensures Grows(g.blocks, GenSym(g, t, o).blocks)
  {
    hide AppendTo;
    var r := g.nextReg;
    match t
    case Read => AppendThreeGrows(g.blocks, g.cur, Getchar(r), Trunc(r + 1, r), Store(r + 1, g.head));
    case Write => AppendThreeGrows(g.blocks, g.cur, Load(r, g.head), SExt(r + 1, r), Putchar(r + 1));
    case Change(v) =>
      AppendThreeGrows(g.blocks, g.cur, Load(r, g.head), AddI8(r + 1, r, v % 256), Store(r + 1, g.head));
    case Move(v) => GenMoveGrows(g, v, o);
    case Loop => GenLoopGrows(g, o);
    case EndLoop => GenEndLoopGrows(g, o);
  }

  lemma GenLoopGrows(g: Gen, o: Options)
    requires Inv(g, o)
    ensures Grows(g.blocks, GenLoop(g).blocks)
  {
  }

  lemma {:induction false} AfterGrows(toks: seq<Sym>, o: Options, i: nat, j: nat)
    requires i <= j <= |toks| && Opens(toks, j).Some?
    ensures Opens(toks, i).Some? && Grows(After(toks, o, i).blocks, After(toks, o, j).blocks)
    decreases j
  {
    hide GenSym, Header;
    OpensEarlier(toks, i, j);
    if i < j {
      AfterGrows(toks, o, i, j - 1);
      GenSymGrows(After(toks, o, j - 1), toks[j - 1], o);
      GrowsTrans(After(toks, o, i).blocks, After(toks, o, j - 1).blocks, After(toks, o, j).blocks);
    }
  }

  /** The finished function. */
  function Code(toks: seq<Sym>, o: Options): seq<Block>
    requires Opens(toks, |toks|).Some?
  {
    var g := After(toks, o, |toks|);
    SetTerm(g.blocks, g.cur, Br(END_BB))
  }

  lemma CodeGrows(toks: seq<Sym>, o: Options, i: nat)
    requires i <= |toks| && Opens(toks, |toks|).Some?
    ensures Opens(toks, i).Some? && Grows(After(toks, o, i).blocks, Code(toks, o))
  {
    AfterGrows(toks, o, i, |toks|);
    var g := After(toks, o, |toks|);
    assert Grows(g.blocks, Code(toks, o));
    GrowsTrans(After(toks, o, i).blocks, g.blocks, Code(toks, o));
  }

  // ----- the code of a command -----

  /** These instructions stand in block `b`, from position `ip` on. */
  ghost predicate Emitted(code: seq<Block>, b: nat, ip: nat, instrs: seq<Instr>) {
    b < |code| && ip + |instrs| <= |code[b].instrs| && code[b].instrs[ip..ip + |instrs|] == instrs
  }

  lemma EmittedStays(blocks: seq<Block>, code: seq<Block>, b: nat, before: seq<Instr>, instrs: seq<Instr>)
    requires Grows(blocks, code) && b < |blocks| && blocks[b].instrs == before + instrs
    requires forall k :: 0 <= k < |instrs| ==> !instrs[k].Phi?
    ensures Emitted(code, b, |before|, instrs)
  {
    assert BlockGrows(blocks[b], code[b]);
    forall k | 0 <= k < |instrs|
      ensures code[b].instrs[|before| + k] == instrs[k]
    {
      assert InstrGrows(blocks[b].instrs[|before| + k], code[b].instrs[|before| + k]);
    }
  }

  /** The instructions of a command: `r` is the next register, `h` that of the head. */
  ghost function Listing(t: Sym, bounds: bool, r: nat, h: nat): seq<Instr> {
    match t
    case Read => [Getchar(r), Trunc(r + 1, r), Store(r + 1, h)]
    case Write => [Load(r, h), SExt(r + 1, r), Putchar(r + 1)]
    case Change(v) => [Load(r, h), AddI8(r + 1, r, v % 256), Store(r + 1, h)]
    case Move(v) =>
      if bounds then [Gep(r, h, v), IcmpUGE(r + 1, r, ARRMAX), IcmpULT(r + 2, r, ARR), Or(r + 3, r + 1, r + 2)]
      else [Gep(r, h, v)]
    case _ => []
  }

  ghost predicate IsCommand(t: Sym) {
    !t.Loop? && !t.EndLoop? && (t.Move? ==> -0x8000_0000 <= t.v < 0x8000_0000)
  }

  /** What a command adds to the insertion block. */
  lemma CommandAppends(g: Gen, t: Sym, o: Options)
    requires Inv(g, o) && IsCommand(t)
    ensures var g', b := GenSym(g, t, o), g.blocks[g.cur];
            && g.cur < |g'.blocks| && g'.head == (if t.Move? then g.nextReg else g.head)
            && g'.blocks[g.cur].instrs == b.instrs + Listing(t, o.bounds, g.nextReg, g.head)
            && (if t.Move? && o.bounds then g'.blocks[g.cur].term == Some(CondBr(g.nextReg + 3, ERROR_BB, g'.cur))
                else g'.cur == g.cur)
  {
    hide Inv;
    assert g.cur < |g.blocks| by { InvCur(g, o); }
  }

  /**
    The finished code of every command, from the place where code went on in front of it. Behind a checked
    move the block ends: off the tape in the error block, else where code goes on.
  */
  lemma CodeOfCommand(toks: seq<Sym>, o: Options, i: nat)
    requires i < |toks| && Opens(toks, |toks|).Some? && IsCommand(toks[i])
    ensures Opens(toks, i).Some? && Opens(toks, i + 1).Some?
    ensures var g, g', code, t := After(toks, o, i), After(toks, o, i + 1), Code(toks, o), toks[i];
            && Emitted(code, g.cur, |g.blocks[g.cur].instrs|, Listing(t, o.bounds, g.nextReg, g.head))
            && g'.head == (if t.Move? then g.nextReg else g.head)
            && (if t.Move? && o.bounds then code[g.cur].term == Some(CondBr(g.nextReg + 3, ERROR_BB, g'.cur))
                else g'.cur == g.cur)
  {
    hide Inv, Code, GenSym, Header, AppendTo, InstrGrows, Listing;
    OpensEarlier(toks, i + 1, |toks|);
    CodeGrows(toks, o, i + 1);
    var g, g', code := After(toks, o, i), After(toks, o, i + 1), Code(toks, o);
    assert g.cur < |g.blocks| by { InvCur(g, o); }
    assert g' == GenSym(g, toks[i], o);
    hide After, Opens;
    CommandAppends(g, toks[i], o);
    ListingHasNoPhi(toks[i], o.bounds, g.nextReg, g.head);
    EmittedStays(g'.blocks, code, g.cur, g.blocks[g.cur].instrs, Listing(toks[i], o.bounds, g.nextReg, g.head));
    assert BlockGrows(g'.blocks[g.cur], code[g.cur]);
  }

  lemma ListingHasNoPhi(t: Sym, bounds: bool, r: nat, h: nat)
    ensures forall k :: 0 <= k < |Listing(t, bounds, r, h)| ==> !Listing(t, bounds, r, h)[k].Phi?
  {
  }

  // ----- the nesting of loops -----

  /** Inside a loop, the compiler's frame is the one it made at the "[". */
  lemma {:induction false} InnermostLoop(toks: seq<Sym>, o: Options, i: nat)
    requires i <= |toks| && Opens(toks, i).Some? && Opens(toks, i).value != []
    ensures var s := Opens(toks, i).value[0];
            && 0 < s <= i && toks[s - 1].Loop?
            && Opens(toks, s) == Opens(toks, i) && Opens(toks, s - 1) == Some(Opens(toks, i).value[1..])
            && After(toks, o, s).frames == After(toks, o, i).frames
    decreases i
  {
    hide GenSym, Header, Inv;
    AfterFrames(toks, o, i);
    if !toks[i - 1].Loop? {
      InnermostLoop(toks, o, i - 1);
      if toks[i - 1].EndLoop? {
        var s0 := Opens(toks, i - 1).value[0];
        AfterFrames(toks, o, s0);
        assert After(toks, o, i).frames == After(toks, o, s0 - 1).frames;
        InnermostLoop(toks, o, s0 - 1);
      }
    }
  }

  /** Only brackets change the frames. */
  lemma AfterFrames(toks: seq<Sym>, o: Options, i: nat)
    requires 0 < i <= |toks| && Opens(toks, i).Some?
    ensures Opens(toks, i - 1).Some?
    ensures var f, f' := After(toks, o, i - 1).frames, After(toks, o, i).frames;
            if toks[i - 1].Loop? then f' != [] && f'[1..] == f
            else if toks[i - 1].EndLoop? then f != [] && f' == f[1..]
            else f' == f
  {
    hide AppendTo, SetTerm, AddIncoming, Header, Int32;
  }

  /** Skipping a loop ends behind the "]" that the compiler takes for its end. */
  lemma {:induction false} FindClose(toks: seq<Sym>, s: nat, k: nat, d: nat) returns (j: nat)
    requires s <= k <= |toks| && Opens(toks, |toks|) == Some([])
    requires Opens(toks, s).Some? && Opens(toks, s).value != []
    requires Opens(toks, k).Some? && |Opens(toks, k).value| == |Opens(toks, s).value| + d
    requires Opens(toks, k).value[d..] == Opens(toks, s).value
    ensures k <= j < |toks| && toks[j].EndLoop? && Opens(toks, j) == Opens(toks, s)
    ensures SkipSyms(toks[k..], d) == toks[j + 1..]
    decreases |toks| - k
  {
    assert k < |toks|;
    OpensEarlier(toks, k + 1, |toks|);
    assert toks[k..][0] == toks[k] && toks[k..][1..] == toks[k + 1..];
    var here, next := Opens(toks, k).value, Opens(toks, k + 1).value;
    if toks[k].Loop? {
      assert next[d + 1..] == here[d..];
      j := FindClose(toks, s, k + 1, d + 1);
    } else if toks[k].EndLoop? {
      if d == 0 {
        assert here[0..] == here;
        j := k;
      } else {
        assert next[d - 1..] == here[d..];
        j := FindClose(toks, s, k + 1, d - 1);
      }
    } else {
      j := FindClose(toks, s, k + 1, d);
    }
  }

  // ----- the code of a loop -----

  /** The two symbols around a loop body: the body starts at `s`, its "]" is symbol `j`. */
  ghost predicate IsLoop(toks: seq<Sym>, s: nat, j: nat) {
    && 0 < s <= j < |toks| && toks[s - 1].Loop? && toks[j].EndLoop?
    && Opens(toks, |toks|).Some?
    && Opens(toks, j).Some? && Opens(toks, s) == Opens(toks, j)
    && Opens(toks, s).value != [] && Opens(toks, s).value[0] == s
  }

  /** The finished test block of a loop, entered from `c0` or `c1` and from nowhere else. */
  ghost predicate TestBlock(b: Block, phi: nat, h0: nat, c0: nat, h1: nat, c1: nat, r: nat, exit: nat, body: nat) {
    && c0 != c1
    && b == Block([Phi(phi, [Incoming(h0, c0), Incoming(h1, c1)]), Load(r, phi), IcmpEqZero(r + 1, r)],
                  Some(CondBr(r + 1, exit, body)))
  }

  /** The header of an open loop is still the one made at its "[", where code was `g0`. */
  ghost predicate OpenedAt(g0: Gen, g: Gen) {
    && g.frames != [] && g.frames == GenLoopFrames(g0)
    && IsOpenPhi(g.blocks, g.frames[0])
    && g.blocks[g.frames[0].testbb].instrs == [Phi(g.frames[0].phi, [Incoming(g0.head, g0.cur)])]
    && g0.cur != g.cur
  }

  function GenLoopFrames(g: Gen): seq<Frame> {
    [Frame(g.nextReg, |g.blocks| + 1, |g.blocks|)] + g.frames
  }

  lemma OpenedBefore(g0: Gen, g: Gen, o: Options)
    requires Inv(g0, o) && Inv(g, o) && Grows(GenLoop(g0).blocks, g.blocks) && g.frames == GenLoop(g0).frames
    ensures OpenedAt(g0, g)
  {
    hide InstrGrows;
    var gs := GenLoop(g0);
    assert g.frames == GenLoopFrames(g0);
    var test, phi := |g0.blocks|, g0.nextReg;
    var start := Phi(phi, [Incoming(g0.head, g0.cur)]);
    assert gs.blocks[test].instrs == [start] && gs.blocks[g0.cur].term.Some?;
    assert OpenHeader(g.blocks, g.frames[0]);
    assert BlockGrows(gs.blocks[test], g.blocks[test]) && BlockGrows(gs.blocks[g0.cur], g.blocks[g0.cur]);
    PhiGrows(start, g.blocks[test].instrs[0]);
    assert g.blocks[test].instrs[0].incoming == [Incoming(g0.head, g0.cur)];
    assert g.blocks[test].instrs[0] == start;
    assert g.blocks[test].instrs == [start];
  }

  /** Both ends of a loop lead to its test block, and the test block to its body and behind it. */
  ghost predicate LoopCode(g0: Gen, gs: Gen, g: Gen, g': Gen, code: seq<Block>) {
    && gs.frames != [] && gs.head == gs.frames[0].phi
    && var test := gs.frames[0].testbb;
    && g0.cur < |g0.blocks| && g.cur < |g.blocks| && gs.cur < |gs.blocks| && g'.cur < |g'.blocks|
    && g0.cur < |code| && g.cur < |code| && test < |code| && g'.cur < |code|
    && code[g0.cur].term == Some(Br(test)) && |code[g0.cur].instrs| == |g0.blocks[g0.cur].instrs|
    && code[g.cur].term == Some(Br(test)) && |code[g.cur].instrs| == |g.blocks[g.cur].instrs|
    && TestBlock(code[test], gs.head, g0.head, g0.cur, g.head, g.cur, g.nextReg, g'.cur, gs.cur)
    && |g'.blocks[g'.cur].instrs| == 1 && |code[g'.cur].instrs| > 0
    && code[g'.cur].instrs[0] == Phi(g'.head, [Incoming(gs.head, test)])
    && gs.blocks[gs.cur].instrs == []
  }

  lemma LoopTestIs(g: Gen, o: Options, h0: nat, c0: nat)
    requires Inv(g, o) && g.frames != []
    requires g.blocks[g.frames[0].testbb].instrs == [Phi(g.frames[0].phi, [Incoming(h0, c0)])]
    ensures var g', f := GenEndLoop(g), g.frames[0];
            && g'.blocks[f.testbb] == Block([Phi(f.phi, [Incoming(h0, c0), Incoming(g.head, g.cur)]),
                                             Load(g.nextReg, f.phi), IcmpEqZero(g.nextReg + 1, g.nextReg)],
                                            Some(CondBr(g.nextReg + 1, g'.cur, f.oldbb)))
            && g'.blocks[g'.cur] == Block([Phi(g'.head, [Incoming(f.phi, f.testbb)])], None)
            && g'.blocks[g.cur] == g.blocks[g.cur].(term := Some(Br(f.testbb)))
  {
    var f, r, exit := g.frames[0], g.nextReg, |g.blocks|;
    assert OpenHeader(g.blocks, f);
    assert [Incoming(h0, c0)] + [Incoming(g.head, g.cur)] == [Incoming(h0, c0), Incoming(g.head, g.cur)];
    var phi := Phi(f.phi, [Incoming(h0, c0), Incoming(g.head, g.cur)]);
    var b2 := AddIncoming(SetTerm(g.blocks, g.cur, Br(f.testbb)), f, Incoming(g.head, g.cur));
    assert b2[f.testbb].instrs == [phi];
    var b4 := AppendTo(AppendTo(b2, f.testbb, Load(r, f.phi)), f.testbb, IcmpEqZero(r + 1, r));
    assert b4[f.testbb].instrs == [phi, Load(r, f.phi), IcmpEqZero(r + 1, r)];
    assert b4[g.cur] == g.blocks[g.cur].(term := Some(Br(f.testbb)));
  }

  lemma LoopCodeIs(g0: Gen, g: Gen, code: seq<Block>, o: Options)
    requires Inv(g0, o) && Inv(g, o) && OpenedAt(g0, g)
    requires Grows(GenLoop(g0).blocks, code) && Grows(GenEndLoop(g).blocks, code)
    requires FirstKept(GenEndLoop(g).blocks, code, GenEndLoop(g).cur)
    ensures LoopCode(g0, GenLoop(g0), g, GenEndLoop(g), code)
  {
    hide InstrGrows, Inv;
    assert g0.cur < |g0.blocks| by { InvCur(g0, o); }
    assert g.cur < |g.blocks| by { InvCur(g, o); }
    LoopTestIs(g, o, g0.head, g0.cur);
    var gs, g' := GenLoop(g0), GenEndLoop(g);
    var test := gs.frames[0].testbb;
    assert BlockGrows(gs.blocks[g0.cur], code[g0.cur]);
    assert BlockGrows(g'.blocks[g.cur], code[g.cur]);
    assert BlockGrows(g'.blocks[test], code[test]);
  }

  lemma InvCur(g: Gen, o: Options)
    requires Inv(g, o)
    ensures g.cur < |g.blocks| && g.blocks[g.cur].term.None?
  {
  }

  lemma PhiGrows(a: Instr, b: Instr)
    requires InstrGrows(a, b)
    ensures !a.Phi? ==> b == a
    ensures a.Phi? ==> b.Phi? && b.dst == a.dst && a.incoming <= b.incoming
  {
  }

  /** Block `b` still begins with the same instruction. */
  ghost predicate FirstKept(blocks: seq<Block>, blocks': seq<Block>, b: nat) {
    && b < |blocks| <= |blocks'| && blocks[b].instrs != [] && blocks'[b].instrs != []
    && blocks'[b].instrs[0] == blocks[b].instrs[0]
  }

  /** Block `b` is not the header of an open loop. */
  ghost predicate NotOpen(g: Gen, b: nat) {
    forall k :: 0 <= k < |g.frames| ==> g.frames[k].testbb != b
  }

  lemma GenSymKeepsFirst(g: Gen, t: Sym, o: Options, b: nat)
    requires Inv(g, o) && (t.EndLoop? ==> g.frames != [])
    requires b < |g.blocks| && g.blocks[b].instrs != [] && NotOpen(g, b)
    ensures FirstKept(g.blocks, GenSym(g, t, o).blocks, b) && NotOpen(GenSym(g, t, o), b)
  {
    match t
    case Loop => assert GenLoop(g).frames[1..] == g.frames;
    case EndLoop => assert OpenHeader(g.blocks, g.frames[0]);
    case _ =>
  }

  /** Only headers of open loops change at their beginning. */
  lemma {:induction false} AfterKeepsFirst(toks: seq<Sym>, o: Options, i: nat, j: nat, b: nat)
    requires i <= j <= |toks| && Opens(toks, j).Some? && Opens(toks, i).Some?
    requires var g := After(toks, o, i); b < |g.blocks| && g.blocks[b].instrs != [] && NotOpen(g, b)
    ensures FirstKept(After(toks, o, i).blocks, After(toks, o, j).blocks, b) && NotOpen(After(toks, o, j), b)
    decreases j
  {
    hide GenSym, Header, Inv, NotOpen;
    if i < j {
      OpensEarlier(toks, j - 1, j);
      AfterKeepsFirst(toks, o, i, j - 1, b);
      GenSymKeepsFirst(After(toks, o, j - 1), toks[j - 1], o, b);
    }
  }

  /** The block behind a loop keeps its PHI, with its one incoming edge. */
  lemma ExitIsFinal(toks: seq<Sym>, o: Options, j: nat)
    requires j < |toks| && toks[j].EndLoop? && Opens(toks, |toks|).Some? && Opens(toks, j + 1).Some?
    ensures FirstKept(After(toks, o, j + 1).blocks, Code(toks, o), After(toks, o, j + 1).cur)
  {
    hide GenSym, Header, After;
    AfterBracket(toks, o, j);
    var g := After(toks, o, j);
    var g' := GenEndLoop(g);
    forall k | 0 <= k < |g'.frames|
      ensures g'.frames[k].testbb != g'.cur
    {
      assert OpenHeader(g.blocks, g.frames[k + 1]);
    }
    assert g'.blocks[g'.cur].instrs != [];
    AfterKeepsFirst(toks, o, j + 1, |toks|, g'.cur);
  }

  lemma AfterBracket(toks: seq<Sym>, o: Options, i: nat)
    requires i < |toks| && Opens(toks, i + 1).Some?
    ensures Opens(toks, i).Some?
    ensures toks[i].Loop? ==> After(toks, o, i + 1) == GenLoop(After(toks, o, i))
    ensures toks[i].EndLoop? ==>
              After(toks, o, i).frames != [] && After(toks, o, i + 1) == GenEndLoop(After(toks, o, i))
  {
  }

  lemma CodeOfLoop(toks: seq<Sym>, o: Options, s: nat, j: nat)
    requires IsLoop(toks, s, j)
    ensures Opens(toks, s - 1).Some? && Opens(toks, j + 1).Some?
    ensures LoopCode(After(toks, o, s - 1), After(toks, o, s), After(toks, o, j), After(toks, o, j + 1), Code(toks, o))
  {
    hide Inv, LoopCode, Grows, Code, GenLoop, GenEndLoop, After, Opens;
    InnermostLoop(toks, o, j);
    AfterGrows(toks, o, s, j);
    OpensEarlier(toks, j + 1, |toks|);
    CodeGrows(toks, o, s);
    CodeGrows(toks, o, j + 1);
    AfterBracket(toks, o, s - 1);
    AfterBracket(toks, o, j);
    OpenedBefore(After(toks, o, s - 1), After(toks, o, j), o);
    ExitIsFinal(toks, o, j);
    LoopCodeIs(After(toks, o, s - 1), After(toks, o, j), Code(toks, o), o);
  }
}
