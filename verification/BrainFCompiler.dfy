/**
  The BrainF compiler as the program has it: an object that reads the source character by
  character, keeps an insertion point and the register of the current head, and calls itself
  for every "[". Its methods are proved against the functions of BrainFCodegen.
*/
module BrainFCompiler {
  import opened Common
  import opened BrainFSyntax
  import opened BrainFIr
  import opened BrainFCodegen
  import BrainFMachine

  datatype Symbol = SymNone | SymRead | SymWrite | SymMove | SymChange | SymLoop | SymEndLoop | SymEof

  /** A symbol and its value as one of the symbols of BrainFSyntax. */
  function ToSym(sym: Symbol, value: int): Sym
    requires !sym.SymNone? && !sym.SymEof?
  {
    match sym
    case SymRead => Read
    case SymWrite => Write
    case SymMove => Move(value)
    case SymChange => Change(value)
    case SymLoop => Loop
    case SymEndLoop => EndLoop
  }

  /** The symbols still to come, given the current symbol, the one read ahead and the unread source. */
  function Upcoming(cursym: Symbol, curvalue: int, nextsym: Symbol, nextvalue: int, input: seq<char>): seq<Sym> {
    if cursym.SymEof? then []
    else if cursym.SymNone? then Lex(input)
    else [ToSym(cursym, curvalue)] + Behind(nextsym, nextvalue, input)
  }

  /** The symbols behind the current one. */
  function Behind(sym: Symbol, value: int, input: seq<char>): seq<Sym> {
    if sym.SymEof? then []
    else if sym.SymNone? then Lex(input)
    else LexFrom(Some(ToSym(sym, value)), input)
  }

  predicate Folds(sym: Symbol) {
    sym.SymNone? || sym.SymMove? || sym.SymChange?
  }

  /** How the source left of a loop body looks behind a symbol that may be a bracket. */
  function SkipFrom(sym: Symbol, input: seq<char>): seq<char> {
    if sym.SymEndLoop? then input
    else BrainFMachine.SkipChars(input, if sym.SymLoop? then 1 else 0)
  }

  lemma {:induction false} SkipTwice(s: seq<char>, d: nat)
    ensures BrainFMachine.SkipChars(BrainFMachine.SkipChars(s, d), 0) == BrainFMachine.SkipChars(s, d + 1)
    decreases |s|
  {
    if s != [] {
      if s[0] == '[' {
        SkipTwice(s[1..], d + 1);
      } else if s[0] == ']' {
        if d > 0 {
          SkipTwice(s[1..], d - 1);
        }
      } else {
        SkipTwice(s[1..], d);
      }
    }
  }

  lemma GenAllUnfold(g: Gen, t: Sym, rest: seq<Sym>, o: Options)
    requires Inv(g, o) && (t.EndLoop? ==> g.frames != [])
    ensures Inv(GenSym(g, t, o), o)
    ensures GenAll(g, [t] + rest, o) == GenAll(GenSym(g, t, o), rest, o)
    ensures t.EndLoop? ==> GenSym(g, t, o) == GenEndLoop(g)
  {
    GenSymKeepsInv(g, t, o);
    assert ([t] + rest)[1..] == rest;
  }

  lemma GenAllEnds(g: Gen, rest: seq<Sym>, o: Options)
    requires Inv(g, o)
    ensures g.cur < |g.blocks| && g.blocks[g.cur].term.None?
    ensures GenAll(g, [], o) == Finish(g)
    ensures g.frames == [] ==> GenAll(g, [EndLoop] + rest, o) == ExtraBracket
  {
  }

  /** What the compiler makes of a source that it is reading behind a "[". */
  ghost function LoopOutcome(g: Gen, input: seq<char>, o: Options): Outcome
    requires Inv(g, o)
  {
    GenSymKeepsInv(g, Loop, o);
    GenAll(GenSym(g, Loop, o), Lex(input), o)
  }

  /** How a call of `readloop` ends. */
  datatype Exit = AtEndLoop | AtEof | Abort(error: Outcome)

  class BrainF {
    var input: seq<char>
    var options: Options
    var blocks: seq<Block>
    var insertBlock: nat
    var curhead: nat
    var nextReg: nat

    /** The state of code generation inside the loops `frames`. */
    ghost function State(frames: seq<Frame>): Gen
      reads this
    {
      Gen(blocks, insertBlock, curhead, nextReg, frames)
    }

    // ----- the instruction builder -----

    ghost predicate CanInsert()
      reads this
    {
      insertBlock < |blocks| && blocks[insertBlock].term.None?
    }

    /** Appends an instruction that makes no value. */
    method Insert(i: Instr)
      requires CanInsert()
      modifies this`blocks
      ensures blocks == AppendTo(old(blocks), insertBlock, i) && CanInsert()
    {
      blocks := AppendTo(blocks, insertBlock, i);
    }

    /** Takes the next register. */
    method NewReg() returns (r: nat)
      modifies this`nextReg
      ensures r == old(nextReg) && nextReg == r + 1
    {
      r := nextReg;
      nextReg := r + 1;
    }

    /** Makes an empty block and returns its number. */
    method CreateBlock() returns (b: nat)
      modifies this`blocks
      ensures b == |old(blocks)| && blocks == NewBlock(old(blocks))
    {
      b := |blocks|;
      blocks := NewBlock(blocks);
    }

    /** Ends a block; a block is never ended twice. */
    method Terminate(b: nat, t: Terminator)
      requires b < |blocks| && blocks[b].term.None?
      modifies this`blocks
      ensures blocks == SetTerm(old(blocks), b, t)
    {
      blocks := SetTerm(blocks, b, t);
    }

    // ----- header -----

    method WriteHeader()
      modifies this
      ensures input == old(input) && options == old(options)
      ensures State([]) == Header(options)
    {
      hide AppendTo, Int32;
      blocks, insertBlock, nextReg := [Block([], None)], 0, 0;
      var arr := NewReg();
      Insert(Malloc(arr, options.mem));
      Insert(Memset(arr, options.mem));
      if options.bounds {
        var arrmax := NewReg();
        Insert(Gep(arrmax, arr, Int32(options.mem)));
      }
      var head := NewReg();
      Insert(Gep(head, arr, Int32(options.mem / 2)));
      curhead := head;
      WriteFooter(arr);
    }

    /** The block that ends the program, and the one that reports a head outside the tape. */
    method WriteFooter(arr: nat)
      modifies this`blocks
      requires |blocks| == 1
      ensures blocks == Footer(old(blocks), arr, options)
    {
      var end := CreateBlock();
      blocks := AppendTo(blocks, end, Free(arr));
      Terminate(end, Ret);
      if options.bounds {
        var error := CreateBlock();
        blocks := AppendTo(blocks, error, PutsError);
        Terminate(error, Br(end));
      }
    }

    // ----- the commands -----

    method WriteRead(ghost frames: seq<Frame>)
      requires Inv(State(frames), options)
      modifies this`blocks, this`nextReg
      ensures State(frames) == GenRead(old(State(frames)))
    {
      var getchar := NewReg();
      Insert(Getchar(getchar));
      var tape := NewReg();
      Insert(Trunc(tape, getchar));
      Insert(Store(tape, curhead));
    }

    method WriteWrite(ghost frames: seq<Frame>)
      requires Inv(State(frames), options)
      modifies this`blocks, this`nextReg
      ensures State(frames) == GenWrite(old(State(frames)))
    {
      var tape0 := NewReg();
      Insert(Load(tape0, curhead));
      var tape1 := NewReg();
      Insert(SExt(tape1, tape0));
      Insert(Putchar(tape1));
    }

    method WriteMove(v: int, ghost frames: seq<Frame>)
      requires Inv(State(frames), options)
      modifies this`blocks, this`nextReg, this`curhead, this`insertBlock
      ensures State(frames) == GenMove(old(State(frames)), v, options)
    {
      hide AppendTo, Int32;
      var head := NewReg();
      Insert(Gep(head, curhead, Int32(v)));
      curhead := head;
      if options.bounds {
        var test0 := NewReg();
        Insert(IcmpUGE(test0, curhead, ARRMAX));
        var test1 := NewReg();
        Insert(IcmpULT(test1, curhead, ARR));
        var test2 := NewReg();
        Insert(Or(test2, test0, test1));
        var nextbb := CreateBlock();
        Terminate(insertBlock, CondBr(test2, ERROR_BB, nextbb));
        insertBlock := nextbb;
      }
    }

    method WriteChange(v: int, ghost frames: seq<Frame>)
      requires Inv(State(frames), options)
      modifies this`blocks, this`nextReg
      ensures State(frames) == GenChange(old(State(frames)), v)
    {
      var tape0 := NewReg();
      Insert(Load(tape0, curhead));
      var tape1 := NewReg();
      Insert(AddI8(tape1, tape0, v % 256));
      Insert(Store(tape1, curhead));
    }

    /** Opens a loop and returns its half finished PHI, its body block and its test block. */
    method OpenLoop(ghost frames: seq<Frame>) returns (phi: nat, bodybb: nat, testbb: nat)
      requires Inv(State(frames), options)
      modifies this`blocks, this`nextReg, this`curhead, this`insertBlock
      ensures State([Frame(phi, bodybb, testbb)] + frames) == GenLoop(old(State(frames)))
    {
      testbb := CreateBlock();
      Terminate(insertBlock, Br(testbb));
      var bb0 := insertBlock;
      bodybb := CreateBlock();
      insertBlock := bodybb;
      phi := NewReg();
      blocks := AppendTo(blocks, testbb, Phi(phi, [Incoming(curhead, bb0)]));
      curhead := phi;
    }

    /** Finishes the loop `f`. */
    method CloseLoop(f: Frame, ghost frames: seq<Frame>)
      requires frames != [] && frames[0] == f && Inv(State(frames), options)
      modifies this`blocks, this`nextReg, this`curhead, this`insertBlock
      ensures State(frames[1..]) == GenEndLoop(old(State(frames)))
    {
      Terminate(insertBlock, Br(f.testbb));
      blocks := AddIncoming(blocks, f, Incoming(curhead, insertBlock));
      var tape0 := NewReg();
      blocks := AppendTo(blocks, f.testbb, Load(tape0, f.phi));
      var test0 := NewReg();
      blocks := AppendTo(blocks, f.testbb, IcmpEqZero(test0, tape0));
      var bb0 := CreateBlock();
      Terminate(f.testbb, CondBr(test0, bb0, f.oldbb));
      insertBlock := bb0;
      var phi1 := NewReg();
      blocks := AppendTo(blocks, bb0, Phi(phi1, [Incoming(f.phi, f.testbb)]));
      curhead := phi1;
    }

    /** A command that is not a bracket. */
    method WriteCommand(sym: Symbol, value: int, ghost frames: seq<Frame>)
      requires !sym.SymNone? && !sym.SymEof? && !sym.SymLoop? && !sym.SymEndLoop?
      requires Inv(State(frames), options)
      modifies this`blocks, this`nextReg, this`curhead, this`insertBlock
      ensures Inv(State(frames), options)
      ensures State(frames) == GenSym(old(State(frames)), ToSym(sym, value), options)
    {
      GenSymKeepsInv(State(frames), ToSym(sym, value), options);
      match sym {
        case SymRead => WriteRead(frames);
        case SymWrite => WriteWrite(frames);
        case SymMove => WriteMove(value, frames);
        case SymChange => WriteChange(value, frames);
      }
    }

    // ----- reading -----

    /**
      Completes the current symbol, which `sym` and `value` may have begun, and reads one symbol
      ahead where that is needed to see that a run has ended.
    */
    method ReadSymbol(sym: Symbol, value: int)
      returns (cursym: Symbol, curvalue: int, nextsym: Symbol, nextvalue: int)
      requires sym.SymEof? ==> input == []
      modifies this`input
      ensures Upcoming(cursym, curvalue, nextsym, nextvalue, input) == Behind(sym, value, old(input))
      ensures !cursym.SymNone?
      ensures Folds(cursym) <==> !nextsym.SymNone?
      ensures cursym.SymEof? || nextsym.SymEof? ==> input == []
      ensures |input| <= |old(input)|
      ensures |input| == |old(input)| ==> if Folds(sym) then (cursym.SymEof? || nextsym.SymEof?) else cursym == sym
      ensures SkipFrom(sym, old(input)) == SkipFrom(if Folds(cursym) then nextsym else cursym, input)
    {
      cursym, curvalue, nextsym, nextvalue := sym, value, SymNone, 0;
      var loop := Folds(cursym);
      if !loop && !cursym.SymEof? {
        LexFromAtomic(ToSym(cursym, curvalue), input);
      }
      while loop
        invariant loop ==> Folds(cursym) && nextsym.SymNone?
        invariant !loop ==> !cursym.SymNone? && (Folds(cursym) <==> !nextsym.SymNone?)
        invariant loop ==> Behind(cursym, curvalue, input) == Behind(sym, value, old(input))
        invariant !loop ==> Upcoming(cursym, curvalue, nextsym, nextvalue, input) == Behind(sym, value, old(input))
        invariant cursym.SymEof? || nextsym.SymEof? ==> input == []
        invariant |input| <= |old(input)|
        invariant !loop && |input| == |old(input)| ==>
                    if Folds(sym) then (cursym.SymEof? || nextsym.SymEof?) else cursym == sym
        invariant SkipFrom(sym, old(input)) == SkipFrom(if Folds(cursym) then nextsym else cursym, input)
        decreases |input|, loop
      {
        if input == [] {
          if cursym.SymNone? {
            cursym := SymEof;
          } else {
            nextsym := SymEof;
          }
          loop := false;
        } else {
          var c := input[0];
          input := input[1..];
          var direction := if c == '-' || c == '<' then -1 else 1;
          match c {
            case '-' | '+' =>
              if cursym.SymChange? {
                curvalue := curvalue + direction;
              } else if cursym.SymNone? {
                cursym, curvalue := SymChange, direction;
              } else {
                nextsym, nextvalue, loop := SymChange, direction, false;
              }
            case '<' | '>' =>
              if cursym.SymMove? {
                curvalue := curvalue + direction;
              } else if cursym.SymNone? {
                cursym, curvalue := SymMove, direction;
              } else {
                nextsym, nextvalue, loop := SymMove, direction, false;
              }
            case ',' =>
              if cursym.SymNone? { cursym := SymRead; } else { nextsym := SymRead; }
              loop := false;
              LexFromAtomic(Read, input);
            case '.' =>
              if cursym.SymNone? { cursym := SymWrite; } else { nextsym := SymWrite; }
              loop := false;
              LexFromAtomic(Write, input);
            case '[' =>
              if cursym.SymNone? { cursym := SymLoop; } else { nextsym := SymLoop; }
              loop := false;
              LexFromAtomic(Loop, input);
            case ']' =>
              if cursym.SymNone? { cursym := SymEndLoop; } else { nextsym := SymEndLoop; }
              loop := false;
              LexFromAtomic(EndLoop, input);
            case _ =>
          }
        }
      }
    }

    // ----- the program -----

    /**
      Reads and compiles symbols up to the end of the source, or up to the "]" of the loop that
      `frames` has innermost. What the compiler makes of the whole source is settled by its state
      and the source left to read, and this does not change while the loop runs.
      At a "]" exactly the body of the loop has been read, and nothing has been read ahead.
    */
    method ReadLoop(phi: Option<nat>, oldbb: nat, testbb: nat, ghost frames: seq<Frame>) returns (exit: Exit)
      requires Inv(State(frames), options)
      requires phi.None? <==> frames == []
      requires phi.Some? ==> frames[0] == Frame(phi.value, oldbb, testbb)
      modifies this`input, this`blocks, this`nextReg, this`curhead, this`insertBlock
      ensures |input| <= |old(input)|
      ensures exit.AtEndLoop? ==>
                && phi.Some? && Inv(State(frames[1..]), options)
                && input == BrainFMachine.SkipChars(old(input), 0)
                && GenAll(State(frames[1..]), Lex(input), options) == old(GenAll(State(frames), Lex(input), options))
      ensures exit.AtEof? ==>
                && phi.None? && input == [] && insertBlock < |blocks|
                && old(GenAll(State(frames), Lex(input), options)) == Compiled(blocks, curhead)
      ensures exit.Abort? ==>
                && old(GenAll(State(frames), Lex(input), options)) == exit.error && !exit.error.Compiled?
                && (exit.error.ExtraBracket? ==> phi.None?)
      ensures exit.Abort? ==>
                input == if exit.error.ExtraBracket? then BrainFMachine.SkipChars(old(input), 0) else []
      decreases |input|, 1
    {
      hide GenAll, GenSym, LexFrom, BrainFMachine.SkipChars, Inv;
      var cursym, curvalue, nextsym, nextvalue := SymNone, 0, SymNone, 0;
      while !cursym.SymEof? && !cursym.SymEndLoop?
        invariant Inv(State(frames), options) && options == old(options)
        invariant cursym.SymNone? ==> nextsym.SymNone? && input == old(input)
        invariant !cursym.SymNone? ==> (Folds(cursym) <==> !nextsym.SymNone?)
        invariant cursym.SymEof? || nextsym.SymEof? ==> input == []
        invariant |input| <= |old(input)|
        invariant cursym.SymLoop? || nextsym.SymLoop? ==> |input| < |old(input)|
        invariant GenAll(State(frames), Upcoming(cursym, curvalue, nextsym, nextvalue, input), options)
               == old(GenAll(State(frames), Lex(input), options))
        invariant BrainFMachine.SkipChars(old(input), 0) == SkipFrom(if Folds(cursym) then nextsym else cursym, input)
        decreases |input|, Rank(cursym, nextsym)
      {
        var abort := WriteSymbol(cursym, curvalue, nextsym, nextvalue, frames);
        if abort.Some? {
          return Abort(abort.value);
        }
        cursym, curvalue, nextsym, nextvalue := ReadSymbol(nextsym, nextvalue);
      }
      GenAllEnds(State(frames), Lex(input), options);
      if cursym.SymEndLoop? {
        if phi.None? {
          return Abort(ExtraBracket);
        }
        GenAllUnfold(State(frames), EndLoop, Lex(input), options);
        CloseLoop(Frame(phi.value, oldbb, testbb), frames);
        return AtEndLoop;
      }
      Terminate(insertBlock, Br(END_BB));
      if phi.Some? {
        return Abort(MissingBracket);
      }
      return AtEof;
    }

    /** Writes out the current symbol; a "[" is followed by its whole loop. */
    method WriteSymbol(cursym: Symbol, curvalue: int, ghost nextsym: Symbol, ghost nextvalue: int,
        ghost frames: seq<Frame>)
      returns (abort: Option<Outcome>)
      requires Inv(State(frames), options) && !cursym.SymEof? && !cursym.SymEndLoop?
      requires cursym.SymNone? || cursym.SymLoop? ==> nextsym.SymNone?
      modifies this`input, this`blocks, this`nextReg, this`curhead, this`insertBlock
      ensures |input| <= |old(input)| && (!cursym.SymLoop? ==> input == old(input))
      ensures abort.None? ==>
                && Inv(State(frames), options)
                && GenAll(State(frames), Behind(nextsym, nextvalue, input), options)
                   == old(GenAll(State(frames), Upcoming(cursym, curvalue, nextsym, nextvalue, input), options))
                && (cursym.SymLoop? ==> SkipFrom(SymNone, input) == SkipFrom(SymLoop, old(input)))
      ensures abort.Some? ==>
                && abort.value.MissingBracket? && input == []
                && old(GenAll(State(frames), Upcoming(cursym, curvalue, nextsym, nextvalue, input), options)) ==
                  abort.value
      decreases |input|, if cursym.SymLoop? then 3 else 0
    {
      hide GenAll, GenSym, LexFrom, BrainFMachine.SkipChars, Inv;
      abort := None;
      if cursym.SymLoop? {
        SkipTwice(input, 0);
        GenAllUnfold(State(frames), Loop, Lex(input), options);
        abort := CompileLoop(frames);
      } else if !cursym.SymNone? {
        GenAllUnfold(State(frames), ToSym(cursym, curvalue), Behind(nextsym, nextvalue, input), options);
        WriteCommand(cursym, curvalue, frames);
      }
    }

    /** A whole loop behind its "[", up to its "]". */
    method CompileLoop(ghost frames: seq<Frame>) returns (abort: Option<Outcome>)
      requires Inv(State(frames), options)
      modifies this`input, this`blocks, this`nextReg, this`curhead, this`insertBlock
      ensures |input| <= |old(input)|
      ensures abort.None? ==>
                && Inv(State(frames), options)
                && input == BrainFMachine.SkipChars(old(input), 0)
                && GenAll(State(frames), Lex(input), options) == old(LoopOutcome(State(frames), input, options))
      ensures abort.Some? ==>
                && abort.value.MissingBracket? && input == []
                && old(LoopOutcome(State(frames), input, options)) == abort.value
      decreases |input|, 2
    {
      GenSymKeepsInv(State(frames), Loop, options);
      var phi, bodybb, testbb := OpenLoop(frames);
      ghost var inner := [Frame(phi, bodybb, testbb)] + frames;
      assert inner[1..] == frames;
      var exit := ReadLoop(Some(phi), bodybb, testbb, inner);
      abort := if exit.Abort? then Some(exit.error) else None;
    }

    /** Compiles a source; on a bracket error there is no module. */
    method Parse(source: seq<char>, o: Options) returns (outcome: Outcome)
      modifies this
      ensures outcome == Compile(source, o)
      ensures input == if outcome.ExtraBracket? then BrainFMachine.SkipChars(source, 0) else []
    {
      input := source;
      options := o;
      WriteHeader();
      HeaderInv(o);
      var exit := ReadLoop(None, 0, 0, []);
      match exit
      case AtEof => outcome := Compiled(blocks, curhead);
      case Abort(error) => outcome := error;
    }
  }

  /** Bounds how often the loop of `readloop` runs without reading a character. */
  function Rank(cursym: Symbol, nextsym: Symbol): nat {
    if cursym.SymEof? || cursym.SymEndLoop? then 0
    else if nextsym.SymEof? then 1
    else if nextsym.SymNone? then 2
    else if Folds(nextsym) then 3
    else 4
  }
}
