/**
  The functions that ExceptionDemo generates around an inner call: an invoke, one catch block per
  type, a finally block that always runs, and a switch on a flag that either ends the function or
  resumes unwinding. Such functions nest to any depth; an unwinder in two phases connects them.
*/
module ExceptionFrames {
  import opened Common
  import opened ExceptionTables

  // ----- generated code -----

  datatype Label =
    | EntryBlock | NormalBlock | ExceptionBlock | RouteBlock | ExternalBlock
    | ResumeBlock | EndBlock | FinallyBlock | CatchBlock(i: nat)

  datatype Instr =
    | StoreFlag(v: int)
    | ClearStorage
    | StoreException
    | Print
    | DeleteStored

  datatype Terminator =
    | Invoke(normal: Label, unwind: Label)
    | Br(target: Label)
    | SwitchFlag(default: Label, cases: seq<(int, Label)>)
    | SwitchSelector(default: Label, cases: seq<(int, Label)>)
    | IfOurs(ours: Label, foreign: Label)
    | RetVoid
    | Resume

  datatype Block = Block(instrs: seq<Instr>, term: Option<Terminator>)

  const NOT_THROWN := 0
  const THROWN := 1
  const CAUGHT := 2

  function Cases(n: nat): seq<(int, Label)> {
    if n == 0 then [] else Cases(n - 1) + [(n, CatchBlock(n - 1))]
  }

  predicate IsLabel(l: Label, n: nat) {
    l.CatchBlock? ==> l.i < n
  }

  /** The finished blocks of a function that catches `n` types. */
  function BlockOf(l: Label, n: nat): Block
    requires IsLabel(l, n)
  {
    match l
    case EntryBlock => Block([ClearStorage, StoreFlag(NOT_THROWN)], Some(Invoke(NormalBlock, ExceptionBlock)))
    case NormalBlock => Block([Print], Some(Br(FinallyBlock)))
    case ExceptionBlock => Block([StoreException, StoreFlag(THROWN)], Some(IfOurs(RouteBlock, ExternalBlock)))
    case RouteBlock => Block([Print], Some(SwitchSelector(FinallyBlock, Cases(n))))
    case ExternalBlock => Block([Print], Some(Br(FinallyBlock)))
    case ResumeBlock => Block([], Some(Resume))
    case EndBlock => Block([Print, DeleteStored], Some(RetVoid))
    case FinallyBlock => Block([Print], Some(SwitchFlag(EndBlock, [(CAUGHT, EndBlock), (THROWN, ResumeBlock)])))
    case CatchBlock(i) => Block([Print, StoreFlag(CAUGHT)], Some(Br(FinallyBlock)))
  }

  type Code = map<Label, Block>

  ghost predicate IsCode(code: Code, n: nat) {
    forall l: Label :: (l in code <==> IsLabel(l, n)) && (l in code ==> code[l] == BlockOf(l, n))
  }

  /** `b` is `a` with the block `l` set to `x`. */
  ghost predicate Updated(a: Code, b: Code, l: Label, x: Block) {
    && b.Keys == a.Keys + {l} && b[l] == x
    && forall m: Label :: m in a && m != l ==> b[m] == a[m]
  }

  ghost predicate AllEmpty(code: Code) {
    forall l: Label :: l in code ==> code[l] == Block([], None)
  }

  lemma NothingIsEmpty()
    ensures AllEmpty(map[])
  {
  }

  class FrameBuilder {
    var blocks: Code
    var insertPoint: Label

    constructor ()
      ensures blocks == map[]
    {
      blocks, insertPoint := map[], EntryBlock;
    }

    /** An empty block. */
    method CreateBlock(l: Label)
      requires l !in blocks
      modifies this`blocks
      ensures Updated(old(blocks), blocks, l, Block([], None))
      ensures blocks.Keys == old(blocks).Keys + {l}
      ensures AllEmpty(old(blocks)) ==> AllEmpty(blocks)
    {
      blocks := blocks[l := Block([], None)];
    }

    /** Appends to the block at the insertion point. */
    method Emit(i: Instr)
      requires insertPoint in blocks && blocks[insertPoint].term.None?
      modifies this`blocks
      ensures var b := old(blocks)[insertPoint];
              Updated(old(blocks), blocks, insertPoint, b.(instrs := b.instrs + [i]))
    {
      blocks := blocks[insertPoint := blocks[insertPoint].(instrs := blocks[insertPoint].instrs + [i])];
    }

    /** Ends the block at the insertion point; no block is ended twice. */
    method Terminate(t: Terminator)
      requires insertPoint in blocks && blocks[insertPoint].term.None?
      modifies this`blocks
      ensures Updated(old(blocks), blocks, insertPoint, old(blocks)[insertPoint].(term := Some(t)))
    {
      blocks := blocks[insertPoint := blocks[insertPoint].(term := Some(t))];
    }

    /** A variable of the function is initialised at the very beginning of the entry block. */
    method InitialiseInEntry(i: Instr)
      requires EntryBlock in blocks
      modifies this`blocks
      ensures var b := old(blocks)[EntryBlock];
              Updated(old(blocks), blocks, EntryBlock, b.(instrs := [i] + b.instrs))
    {
      blocks := blocks[EntryBlock := blocks[EntryBlock].(instrs := [i] + blocks[EntryBlock].instrs)];
    }

    /** Fills a block that was made before. */
    method Fill(l: Label, instrs: seq<Instr>, t: Terminator)
      requires l in blocks && blocks[l].term.None?
      modifies this
      ensures Updated(old(blocks), blocks, l, Block(old(blocks)[l].instrs + instrs, Some(t)))
    {
      insertPoint := l;
      var i := 0;
      while i < |instrs|
        invariant 0 <= i <= |instrs| && insertPoint == l
        invariant Updated(old(blocks), blocks, l, Block(old(blocks)[l].instrs + instrs[..i], None))
      {
        Emit(instrs[i]);
        assert instrs[..i + 1] == instrs[..i] + [instrs[i]];
        i := i + 1;
      }
      assert instrs[..i] == instrs;
      Terminate(t);
    }

    /** The finally block, and the storage for the exception and for its state. */
    method CreateFinallyBlock()
      requires EntryBlock in blocks && blocks[EntryBlock] == Block([], None) && FinallyBlock !in blocks
      modifies this
      ensures blocks.Keys == old(blocks).Keys + {FinallyBlock}
      ensures blocks[EntryBlock] == Block([ClearStorage, StoreFlag(NOT_THROWN)], None)
      ensures blocks[FinallyBlock] == BlockOf(FinallyBlock, 0)
      ensures forall l: Label :: l in old(blocks) && l != EntryBlock ==> blocks[l] == old(blocks)[l]
    {
      InitialiseInEntry(StoreFlag(NOT_THROWN));
      InitialiseInEntry(ClearStorage);
      assert blocks[EntryBlock] == Block([ClearStorage, StoreFlag(NOT_THROWN)], None);
      CreateBlock(FinallyBlock);
      Fill(FinallyBlock, [Print], SwitchFlag(EndBlock, [(CAUGHT, EndBlock), (THROWN, ResumeBlock)]));
    }

    /** One catch block per type. */
    method CreateCatchBlock(i: nat)
      requires CatchBlock(i) !in blocks
      modifies this
      ensures Updated(old(blocks), blocks, CatchBlock(i), BlockOf(CatchBlock(i), i + 1))
    {
      CreateBlock(CatchBlock(i));
      insertPoint := CatchBlock(i);
      Emit(Print);
      Emit(StoreFlag(CAUGHT));
      Terminate(Br(FinallyBlock));
    }

    /** The blocks of the function, empty; all but the finally and catch blocks. */
    method CreateEmptyBlocks()
      requires blocks == map[]
      modifies this
      ensures blocks.Keys == {EntryBlock, NormalBlock, ExceptionBlock, RouteBlock, ExternalBlock, ResumeBlock, EndBlock}
      ensures AllEmpty(blocks)
    {
      hide Updated, AllEmpty;
      assert AllEmpty(blocks) by {
        NothingIsEmpty();
      }
      CreateBlock(EntryBlock);
      CreateBlock(NormalBlock);
      CreateBlock(ExceptionBlock);
      assert blocks.Keys == {EntryBlock, NormalBlock, ExceptionBlock};
      CreateBlock(RouteBlock);
      CreateBlock(ExternalBlock);
      CreateBlock(ResumeBlock);
      CreateBlock(EndBlock);
    }

    method CreateCatchBlocks(n: nat)
      requires forall i: nat :: CatchBlock(i) !in blocks
      modifies this
      ensures forall l: Label :: l in blocks <==> l in old(blocks) || (l.CatchBlock? && l.i < n)
      ensures forall l: Label :: l in old(blocks) ==> blocks[l] == old(blocks)[l]
      ensures forall l: Label :: l in blocks && l.CatchBlock? ==> blocks[l] == BlockOf(l, l.i + 1)
    {
      var i := 0;
      while i < n
        invariant 0 <= i <= n
        invariant forall l: Label :: l in blocks <==> l in old(blocks) || (l.CatchBlock? && l.i < i)
        invariant forall l: Label :: l in old(blocks) ==> blocks[l] == old(blocks)[l]
        invariant forall l: Label :: l in blocks && l.CatchBlock? ==> blocks[l] == BlockOf(l, l.i + 1)
      {
        CreateCatchBlock(i);
        i := i + 1;
      }
    }

    /** The landing pad: it remembers the exception, and routes it by class and by selector. */
    method FillExceptionPath(n: nat)
      requires {ExceptionBlock, RouteBlock, ExternalBlock} <= blocks.Keys
      requires forall l: Label :: l in {ExceptionBlock, RouteBlock, ExternalBlock} ==> blocks[l] == Block([], None)
      modifies this
      ensures blocks.Keys == old(blocks).Keys
      ensures forall l: Label :: l in blocks ==>
                blocks[l] ==
                  if l.ExceptionBlock? || l.RouteBlock? || l.ExternalBlock? then BlockOf(l, n) else old(blocks)[l]
    {
      Fill(ExceptionBlock, [StoreException, StoreFlag(THROWN)], IfOurs(RouteBlock, ExternalBlock));
      Fill(ExternalBlock, [Print], Br(FinallyBlock));
      var cases: seq<(int, Label)> := [];
      var i := 0;
      while i < n
        invariant 0 <= i <= n && cases == Cases(i)
      {
        i := i + 1;
        cases := cases + [(i, CatchBlock(i - 1))];
      }
      Fill(RouteBlock, [Print], SwitchSelector(FinallyBlock, cases));
    }

    /** The ways out of the function. */
    method FillExits()
      requires {NormalBlock, ResumeBlock, EndBlock} <= blocks.Keys
      requires forall l: Label :: l in {NormalBlock, ResumeBlock, EndBlock} ==> blocks[l] == Block([], None)
      modifies this
      ensures blocks.Keys == old(blocks).Keys
      ensures forall l: Label :: l in blocks ==>
                blocks[l] == if l.NormalBlock? || l.ResumeBlock? || l.EndBlock? then BlockOf(l, 0) else old(blocks)[l]
    {
      Fill(EndBlock, [Print, DeleteStored], RetVoid);
      Fill(NormalBlock, [Print], Br(FinallyBlock));
      Fill(ResumeBlock, [], Resume);
    }

    /** All blocks; the finally and catch blocks are finished, and the entry has its initialisations. */
    method CreateAllBlocks(n: nat)
      requires blocks == map[]
      modifies this
      ensures forall l: Label :: l in blocks <==> IsLabel(l, n)
      ensures forall l: Label :: l in blocks ==>
                blocks[l] == if l.CatchBlock? || l.FinallyBlock? then BlockOf(l, n)
                             else if l.EntryBlock? then Block([ClearStorage, StoreFlag(NOT_THROWN)], None)
                             else Block([], None)
    {
      hide Updated;
      CreateEmptyBlocks();
      CreateFinallyBlock();
      CreateCatchBlocks(n);
    }

    /** The function that catches `n` types around an inner call. */
    method CreateCatchWrappedInvokeFunction(n: nat)
      requires blocks == map[]
      modifies this
      ensures IsCode(blocks, n) && forall i: nat :: CatchBlock(i) in blocks <==> i < n
    {
      hide Updated;
      CreateAllBlocks(n);
      EntryInvokes();
      FillExits();
      FillExceptionPath(n);
    }

    /** The entry block calls the inner function. */
    method EntryInvokes()
      requires EntryBlock in blocks && blocks[EntryBlock] == Block([ClearStorage, StoreFlag(NOT_THROWN)], None)
      modifies this
      ensures blocks.Keys == old(blocks).Keys && blocks[EntryBlock] == BlockOf(EntryBlock, 0)
      ensures forall l: Label :: l in blocks && l != EntryBlock ==> blocks[l] == old(blocks)[l]
    {
      insertPoint := EntryBlock;
      Terminate(Invoke(NormalBlock, ExceptionBlock));
    }
  }
}
