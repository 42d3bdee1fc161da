/**
  What the BrainF compiler emits, as a function: one code generation step per symbol, with
  the stack of loops that `readloop` keeps as its recursion.
*/
module BrainFCodegen {
  import opened Common
  import opened BrainFSyntax
  import opened BrainFIr

  /** The three arguments of a recursive call of `readloop`. */
  datatype Frame = Frame(phi: nat, oldbb: nat, testbb: nat)

  datatype Options = Options(mem: nat, bounds: bool)

  /** The compiler between two symbols. Values are registers, numbered in the order they are made. */
  datatype Gen = Gen(blocks: seq<Block>, cur: nat, head: nat, nextReg: nat, frames: seq<Frame>)

  const ARR: nat := 0
  const ARRMAX: nat := 1
  const END_BB: nat := 1
  const ERROR_BB: nat := 2

  // ----- the instruction builder -----

  function AppendTo(blocks: seq<Block>, b: nat, i: Instr): (r: seq<Block>)
    requires b < |blocks|
    ensures |r| == |blocks| && r[b].term == blocks[b].term
    ensures forall k :: 0 <= k < |r| && k != b ==> r[k] == blocks[k]
  {
    blocks[b := blocks[b].(instrs := blocks[b].instrs + [i])]
  }

  function SetTerm(blocks: seq<Block>, b: nat, t: Terminator): seq<Block>
    requires b < |blocks|
  {
    blocks[b := blocks[b].(term := Some(t))]
  }

  function NewBlock(blocks: seq<Block>): seq<Block> {
    blocks + [Block([], None)]
  }

  predicate IsOpenPhi(blocks: seq<Block>, f: Frame) {
    f.testbb < |blocks| && |blocks[f.testbb].instrs| == 1 && blocks[f.testbb].instrs[0].Phi?
  }

  /** The PHI of a loop header receives its second incoming edge. */
  function AddIncoming(blocks: seq<Block>, f: Frame, inc: Incoming): seq<Block>
    requires IsOpenPhi(blocks, f)
  {
    var phi := blocks[f.testbb].instrs[0];
    blocks[f.testbb := blocks[f.testbb].(instrs := [phi.(incoming := phi.incoming + [inc])])]
  }

  /** APInt(32, n) as a signed index. */
  function Int32(n: int): int {
    (n + 0x8000_0000) % 0x1_0000_0000 - 0x8000_0000
  }

  /** The header of an open loop: nothing but a PHI with one incoming edge. */
  ghost predicate OpenHeader(blocks: seq<Block>, f: Frame) {
    && IsOpenPhi(blocks, f) && f.oldbb < |blocks|
    && blocks[f.testbb].term.None?
    && blocks[f.testbb].instrs[0].dst == f.phi
    && |blocks[f.testbb].instrs[0].incoming| == 1
  }

  /** What holds between two symbols: the insertion block and the headers of the open loops
      are different blocks, and exactly what is still to be written is missing from them. */
  ghost predicate Inv(g: Gen, o: Options) {
    && g.cur < |g.blocks| && g.blocks[g.cur].term.None?
    && |g.blocks| > (if o.bounds then ERROR_BB else END_BB)
    && g.cur != END_BB && (o.bounds ==> g.cur != ERROR_BB)
    && (forall k :: 0 <= k < |g.frames| ==> OpenHeader(g.blocks, g.frames[k]) && g.frames[k].testbb != g.cur)
    && (forall k, l :: 0 <= k < l < |g.frames| ==> g.frames[k].testbb != g.frames[l].testbb)
  }

  // ----- header -----

  function Header(o: Options): Gen {
    var b1 := AppendTo([Block([], None)], 0, Malloc(ARR, o.mem));
    var b2 := AppendTo(b1, 0, Memset(ARR, o.mem));
    var b3 := if o.bounds then AppendTo(b2, 0, Gep(ARRMAX, ARR, Int32(o.mem))) else b2;
    var head := if o.bounds then 2 else 1;
    var b4 := AppendTo(b3, 0, Gep(head, ARR, Int32(o.mem / 2)));
    Gen(Footer(b4, ARR, o), 0, head, head + 1, [])
  }

  function Footer(blocks: seq<Block>, arr: nat, o: Options): seq<Block>
    requires |blocks| == 1
  {
    var b1 := SetTerm(AppendTo(NewBlock(blocks), END_BB, Free(arr)), END_BB, Ret);
    if o.bounds then SetTerm(AppendTo(NewBlock(b1), ERROR_BB, PutsError), ERROR_BB, Br(END_BB)) else b1
  }

  // ----- one symbol -----

  function GenRead(g: Gen): Gen
    requires g.cur < |g.blocks|
  {
    var r := g.nextReg;
    var b1 := AppendTo(g.blocks, g.cur, Getchar(r));
    var b2 := AppendTo(b1, g.cur, Trunc(r + 1, r));
    g.(blocks := AppendTo(b2, g.cur, Store(r + 1, g.head)), nextReg := r + 2)
  }

  function GenWrite(g: Gen): Gen
    requires g.cur < |g.blocks|
  {
    var r := g.nextReg;
    var b1 := AppendTo(g.blocks, g.cur, Load(r, g.head));
    var b2 := AppendTo(b1, g.cur, SExt(r + 1, r));
    g.(blocks := AppendTo(b2, g.cur, Putchar(r + 1)), nextReg := r + 2)
  }

  function GenChange(g: Gen, v: int): Gen
    requires g.cur < |g.blocks|
  {
    var r := g.nextReg;
    var b1 := AppendTo(g.blocks, g.cur, Load(r, g.head));
    var b2 := AppendTo(b1, g.cur, AddI8(r + 1, r, v % 256));
    g.(blocks := AppendTo(b2, g.cur, Store(r + 1, g.head)), nextReg := r + 2)
  }

  function GenMove(g: Gen, v: int, o: Options): Gen
    requires g.cur < |g.blocks|
  {
    var r := g.nextReg;
    var b1 := AppendTo(g.blocks, g.cur, Gep(r, g.head, Int32(v)));
    if !o.bounds then g.(blocks := b1, head := r, nextReg := r + 1)
    else
      var b2 := AppendTo(b1, g.cur, IcmpUGE(r + 1, r, ARRMAX));
      var b3 := AppendTo(b2, g.cur, IcmpULT(r + 2, r, ARR));
      var b4 := AppendTo(b3, g.cur, Or(r + 3, r + 1, r + 2));
      var next := |b4|;
      g.(blocks := SetTerm(NewBlock(b4), g.cur, CondBr(r + 3, ERROR_BB, next)),
         cur := next, head := r, nextReg := r + 4)
  }

  /** A loop is entered through the block that will test its condition; its PHI is made half finished. */
  function GenLoop(g: Gen): Gen
    requires g.cur < |g.blocks|
  {
    var r, test := g.nextReg, |g.blocks|;
    var b1 := SetTerm(NewBlock(g.blocks), g.cur, Br(test));
    var b2 := AppendTo(NewBlock(b1), test, Phi(r, [Incoming(g.head, g.cur)]));
    Gen(b2, test + 1, r, r + 1, [Frame(r, test + 1, test)] + g.frames)
  }

  /** The end of a loop: the PHI is finished, the test is written, and code continues in a new block. */
  function GenEndLoop(g: Gen): Gen
    requires g.cur < |g.blocks|
    requires g.frames != [] && IsOpenPhi(g.blocks, g.frames[0]) && g.frames[0].testbb != g.cur
  {
    var f, r, exit := g.frames[0], g.nextReg, |g.blocks|;
    var b1 := SetTerm(g.blocks, g.cur, Br(f.testbb));
    var b2 := AddIncoming(b1, f, Incoming(g.head, g.cur));
    var b3 := AppendTo(b2, f.testbb, Load(r, f.phi));
    var b4 := AppendTo(b3, f.testbb, IcmpEqZero(r + 1, r));
    var b5 := SetTerm(NewBlock(b4), f.testbb, CondBr(r + 1, exit, f.oldbb));
    var b6 := AppendTo(b5, exit, Phi(r + 2, [Incoming(f.phi, f.testbb)]));
    Gen(b6, exit, r + 2, r + 3, g.frames[1..])
  }

  function GenSym(g: Gen, t: Sym, o: Options): Gen
    requires Inv(g, o) && (t.EndLoop? ==> g.frames != [])
  {
    match t
    case Read => GenRead(g)
    case Write => GenWrite(g)
    case Move(v) => GenMove(g, v, o)
    case Change(v) => GenChange(g, v)
    case Loop => GenLoop(g)
    case EndLoop => GenEndLoop(g)
  }

  // ----- the whole program -----

  /** `head` is the register of the head at the end of the program. */
  datatype Outcome =
    | Compiled(blocks: seq<Block>, head: nat)
    | ExtraBracket
    | MissingBracket

  function Finish(g: Gen): Outcome
    requires g.cur < |g.blocks|
  {
    if g.frames == [] then Compiled(SetTerm(g.blocks, g.cur, Br(END_BB)), g.head) else MissingBracket
  }

  function GenAll(g: Gen, toks: seq<Sym>, o: Options): Outcome
    requires Inv(g, o)
    decreases |toks|
  {
    if toks == [] then Finish(g)
    else if toks[0].EndLoop? && g.frames == [] then ExtraBracket
    else
      GenSymKeepsInv(g, toks[0], o);
      GenAll(GenSym(g, toks[0], o), toks[1..], o)
  }

  lemma HeaderInv(o: Options)
    ensures Inv(Header(o), o)
  {
  }

  /** The compiler as a function of its source. */
  function Compile(src: seq<char>, o: Options): Outcome {
    HeaderInv(o);
    GenAll(Header(o), Lex(src), o)
  }

  /** Adding to the insertion block leaves the open loops alone. */
  lemma AppendKeepsInv(g: Gen, i: Instr, o: Options)
    requires Inv(g, o)
    ensures Inv(g.(blocks := AppendTo(g.blocks, g.cur, i)), o)
  {
    var g' := g.(blocks := AppendTo(g.blocks, g.cur, i));
    forall k | 0 <= k < |g.frames|
      ensures OpenHeader(g'.blocks, g'.frames[k])
    {
      assert OpenHeader(g.blocks, g.frames[k]);
    }
  }

  /** Ending the insertion block and going on in a new one. */
  lemma SplitKeepsInv(g: Gen, t: Terminator, i: nat, o: Options)
    requires Inv(g, o) && i == |g.blocks|
    ensures Inv(g.(blocks := SetTerm(NewBlock(g.blocks), g.cur, t), cur := i), o)
  {
    var g' := g.(blocks := SetTerm(NewBlock(g.blocks), g.cur, t), cur := i);
    forall k | 0 <= k < |g.frames|
      ensures OpenHeader(g'.blocks, g'.frames[k])
    {
      assert OpenHeader(g.blocks, g.frames[k]);
    }
  }

  /** Read, write and change append three instructions. */
  lemma AppendThree(g: Gen, i: Instr, j: Instr, k: Instr, o: Options) returns (g': Gen)
    requires Inv(g, o)
    ensures g' == g.(blocks := AppendTo(AppendTo(AppendTo(g.blocks, g.cur, i), g.cur, j), g.cur, k))
    ensures Inv(g', o)
  {
    AppendKeepsInv(g, i, o);
    var g1 := g.(blocks := AppendTo(g.blocks, g.cur, i));
    AppendKeepsInv(g1, j, o);
    var g2 := g1.(blocks := AppendTo(g1.blocks, g.cur, j));
    AppendKeepsInv(g2, k, o);
    g' := g2.(blocks := AppendTo(g2.blocks, g.cur, k));
  }

  lemma GenMoveKeepsInv(g: Gen, v: int, o: Options)
    requires Inv(g, o)
    ensures Inv(GenMove(g, v, o), o)
  {
    var r := g.nextReg;
    AppendKeepsInv(g, Gep(r, g.head, Int32(v)), o);
    if o.bounds {
      var g1 := g.(blocks := AppendTo(g.blocks, g.cur, Gep(r, g.head, Int32(v))));
      var g4 := AppendThree(g1, IcmpUGE(r + 1, r, ARRMAX), IcmpULT(r + 2, r, ARR), Or(r + 3, r + 1, r + 2), o);
      SplitKeepsInv(g4, CondBr(r + 3, ERROR_BB, |g4.blocks|), |g4.blocks|, o);
    }
  }

  lemma GenLoopKeepsInv(g: Gen, o: Options)
    requires Inv(g, o)
    ensures Inv(GenLoop(g), o)
  {
    var g' := GenLoop(g);
    assert OpenHeader(g'.blocks, g'.frames[0]);
    forall k | 0 < k < |g'.frames|
      ensures OpenHeader(g'.blocks, g'.frames[k])
    {
      assert OpenHeader(g.blocks, g.frames[k - 1]);
    }
  }

  lemma GenEndLoopKeepsInv(g: Gen, o: Options)
    requires Inv(g, o) && g.frames != []
    ensures Inv(GenEndLoop(g), o)
  {
    var g' := GenEndLoop(g);
    forall k | 0 <= k < |g'.frames|
      ensures OpenHeader(g'.blocks, g'.frames[k])
    {
      assert OpenHeader(g.blocks, g.frames[k + 1]);
    }
  }

  lemma GenSymKeepsInv(g: Gen, t: Sym, o: Options)
    requires Inv(g, o) && (t.EndLoop? ==> g.frames != [])
    ensures Inv(GenSym(g, t, o), o)
  {
    hide AppendTo;
    var r := g.nextReg;
    match t
    case Read => var _ := AppendThree(g, Getchar(r), Trunc(r + 1, r), Store(r + 1, g.head), o);
    case Write => var _ := AppendThree(g, Load(r, g.head), SExt(r + 1, r), Putchar(r + 1), o);
    case Change(v) => var _ := AppendThree(g, Load(r, g.head), AddI8(r + 1, r, v % 256), Store(r + 1, g.head), o);
    case Move(v) => GenMoveKeepsInv(g, v, o);
    case Loop => GenLoopKeepsInv(g, o);
    case EndLoop => GenEndLoopKeepsInv(g, o);
  }

  // ----- the state after a number of symbols -----

  /** The loops open after `i` symbols, innermost first, each by the index of the first symbol
      of its body; None once a loop was closed too many. */
  function Opens(toks: seq<Sym>, i: nat): Option<seq<nat>>
    requires i <= |toks|
  {
    if i == 0 then Some([])
    else
      var before := Opens(toks, i - 1);
      if before.None? then None
      else if toks[i - 1].Loop? then Some([i] + before.value)
      else if toks[i - 1].EndLoop? then if before.value == [] then None else Some(before.value[1..])
      else before
  }

  /** The compiler after `i` symbols. */
  function After(toks: seq<Sym>, o: Options, i: nat): (g: Gen)
    requires i <= |toks| && Opens(toks, i).Some?
    ensures Inv(g, o) && |g.frames| == |Opens(toks, i).value|
  {
    if i == 0 then
      HeaderInv(o);
      Header(o)
    else
      GenSymKeepsInv(After(toks, o, i - 1), toks[i - 1], o);
      GenSym(After(toks, o, i - 1), toks[i - 1], o)
  }

  lemma {:induction false} OpensEarlier(toks: seq<Sym>, i: nat, j: nat)
    requires i <= j <= |toks| && Opens(toks, j).Some?
    ensures Opens(toks, i).Some?
    decreases j
  {
    if i < j {
      OpensEarlier(toks, i, j - 1);
    }
  }

  lemma GenAllStep(toks: seq<Sym>, o: Options, i: nat)
    requires i < |toks| && Opens(toks, i).Some?
    ensures Opens(toks, i + 1).None? ==> GenAll(After(toks, o, i), toks[i..], o) == ExtraBracket
    ensures Opens(toks, i + 1).Some? ==>
              GenAll(After(toks, o, i), toks[i..], o) == GenAll(After(toks, o, i + 1), toks[i + 1..], o)
  {
    var g := After(toks, o, i);
    assert toks[i..][0] == toks[i] && toks[i..][1..] == toks[i + 1..];
    assert Opens(toks, i + 1).None? <==> toks[i].EndLoop? && g.frames == [];
  }

  lemma SymDepthStep(toks: seq<Sym>, i: nat)
    requires i < |toks| && Opens(toks, i).Some?
    ensures Opens(toks, i + 1).None? ==> SymDepth(|Opens(toks, i).value|, toks[i..]).None?
    ensures Opens(toks, i + 1).Some? ==>
              SymDepth(|Opens(toks, i).value|, toks[i..]) == SymDepth(|Opens(toks, i + 1).value|, toks[i + 1..])
  {
    assert toks[i..][0] == toks[i] && toks[i..][1..] == toks[i + 1..];
  }

  ghost predicate OutcomeIs(toks: seq<Sym>, o: Options, i: nat, d: Option<nat>)
    requires i <= |toks| && Opens(toks, i).Some?
  {
    var out := GenAll(After(toks, o, i), toks[i..], o);
    if d.None? then out == ExtraBracket
    else
      && Opens(toks, |toks|).Some? && |Opens(toks, |toks|).value| == d.value
      && out == Finish(After(toks, o, |toks|))
  }

  /** Whether and how compiling ends is decided by the depth of the brackets. */
  lemma {:induction false} GenAllOutcome(toks: seq<Sym>, o: Options, i: nat)
    requires i <= |toks| && Opens(toks, i).Some?
    ensures OutcomeIs(toks, o, i, SymDepth(|Opens(toks, i).value|, toks[i..]))
    decreases |toks| - i
  {
    hide GenSym, After, Opens, Header;
    if i < |toks| {
      GenAllStep(toks, o, i);
      SymDepthStep(toks, i);
      if Opens(toks, i + 1).Some? {
        GenAllOutcome(toks, o, i + 1);
      }
    } else {
      assert toks[i..] == [];
    }
  }

  /**
    The compiler never gives up on a balanced source, and otherwise gives up for the right reason:
    "Extra" exactly if some prefix closes more loops than it opens, "Missing" exactly if no prefix
    does and the source ends inside a loop.
  */
  lemma CompileOutcome(src: seq<char>, o: Options)
    ensures Compile(src, o).ExtraBracket? <==> ClosesTooMany(src)
    ensures Compile(src, o).MissingBracket? <==> !ClosesTooMany(src) && Depth(src) > 0
    ensures Compile(src, o).Compiled? <==> Balanced(src)
    ensures Balanced(src) ==>
              && Opens(Lex(src), |Lex(src)|) == Some([])
              && Compile(src, o) == Finish(After(Lex(src), o, |Lex(src)|))
  {
    var toks := Lex(src);
    assert toks[0..] == toks;
    GenAllOutcome(toks, o, 0);
    SymDepthOfSource(src);
  }

  /** Comments leave no trace in the generated code. */
  lemma CommentsAreNotCompiled(src: seq<char>, o: Options)
    ensures Compile(Strip(src), o) == Compile(src, o)
  {
    CommentsDoNotMatter(src);
  }
}
