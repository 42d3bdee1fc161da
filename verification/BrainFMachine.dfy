/**
  What a BrainF program means, independently of the compiler: the eight commands
  act on a tape of bytes, a head, the unread input and the output written so far.

  The same machine runs two kinds of code. On characters (`StepChar`) it is the
  language itself. On folded symbols (`StepSym`) it is what the compiler sees.
  A loop remembers the code of its body; leaving or skipping one goes behind the
  matching bracket.
*/
module BrainFMachine {
  import opened Common
  import opened BrainFSyntax

  datatype Machine = Machine(tape: seq<Byte>, head: int, input: seq<Byte>, output: seq<Byte>) {
    predicate OnTape() {
      0 <= head < |tape|
    }

    function Cell(): Byte
      requires OnTape()
    {
      tape[head]
    }

    function SetCell(b: Byte): Machine
      requires OnTape()
    {
      this.(tape := tape[head := b])
    }
  }

  /** Fault: a cell outside the tape was used. Trap: a checked move left the tape.
      Stuck: a "]" without a loop. */
  datatype Status = Running | Fault | Trap | Stuck

  datatype Conf<T> = Conf(code: seq<T>, loops: seq<seq<T>>, m: Machine, status: Status) {
    predicate Active() {
      status.Running? && code != []
    }

    predicate Finished() {
      status.Running? && code == []
    }

    function Fail(s: Status): Conf<T> {
      this.(status := s)
    }
  }

  function Initial<T>(code: seq<T>, mem: nat, input: seq<Byte>): Conf<T> {
    Conf(code, [], Machine(seq(mem, _ => 0), mem / 2, input, []), Running)
  }

  /** One command, standing at the front of the code; `behind` is the code after the matching "]". */
  function Command<T>(t: Sym, c: Conf<T>, behind: seq<T>, checked: bool): Conf<T>
    requires c.code != []
  {
    var rest := c.code[1..];
    var m := c.m;
    if t.Move? then
      var m' := m.(head := m.head + t.v);
      if checked && !m'.OnTape() then c.(m := m', status := Trap) else c.(code := rest, m := m')
    else if t.EndLoop? && c.loops == [] then c.Fail(Stuck)
    else if !m.OnTape() then c.Fail(Fault)
    else if t.Read? then
      var b: Byte := if m.input == [] then 255 else m.input[0];
      var input := if m.input == [] then [] else m.input[1..];
      c.(code := rest, m := m.SetCell(b).(input := input))
    else if t.Write? then c.(code := rest, m := m.(output := m.output + [m.Cell()]))
    else if t.Change? then c.(code := rest, m := m.SetCell((m.Cell() + t.v) % 256))
    else if t.Loop? then
      if m.Cell() == 0 then c.(code := behind) else c.(code := rest, loops := [rest] + c.loops)
    else
      if m.Cell() == 0 then c.(code := rest, loops := c.loops[1..]) else c.(code := c.loops[0])
  }

  // ----- the language: code is characters -----

  /** The code behind the "]" that closes the loop around `s`, `d` further loops being open. */
  function SkipChars(s: seq<char>, d: nat): seq<char>
    decreases |s|
  {
    if s == [] then []
    else if s[0] == '[' then SkipChars(s[1..], d + 1)
    else if s[0] == ']' then if d == 0 then s[1..] else SkipChars(s[1..], d - 1)
    else SkipChars(s[1..], d)
  }

  function StepChar(c: Conf<char>, checked: bool): Conf<char> {
    if !c.Active() then c
    else
      match CharSym(c.code[0])
      case None => c.(code := c.code[1..])
      case Some(t) => Command(t, c, SkipChars(c.code[1..], 0), checked)
  }

  function RunChar(c: Conf<char>, checked: bool, n: nat): Conf<char>
    decreases n
  {
    if n == 0 then c else RunChar(StepChar(c, checked), checked, n - 1)
  }

  // ----- folded code -----

  function SkipSyms(s: seq<Sym>, d: nat): seq<Sym>
    decreases |s|
  {
    if s == [] then []
    else if s[0].Loop? then SkipSyms(s[1..], d + 1)
    else if s[0].EndLoop? then if d == 0 then s[1..] else SkipSyms(s[1..], d - 1)
    else SkipSyms(s[1..], d)
  }

  function StepSym(c: Conf<Sym>, checked: bool): Conf<Sym> {
    if !c.Active() then c else Command(c.code[0], c, SkipSyms(c.code[1..], 0), checked)
  }

  function RunSym(c: Conf<Sym>, checked: bool, n: nat): Conf<Sym>
    decreases n
  {
    if n == 0 then c else RunSym(StepSym(c, checked), checked, n - 1)
  }

  // ----- runs -----

  ghost predicate CharStops(c: Conf<char>, checked: bool) {
    exists n: nat :: !RunChar(c, checked, n).Active()
  }

  ghost predicate SymStops(c: Conf<Sym>, checked: bool) {
    exists n: nat :: !RunSym(c, checked, n).Active()
  }

  lemma {:induction false} RunCharPlus(c: Conf<char>, checked: bool, m: nat, n: nat)
    ensures RunChar(c, checked, m + n) == RunChar(RunChar(c, checked, m), checked, n)
    decreases m
  {
    if m > 0 {
      RunCharPlus(StepChar(c, checked), checked, m - 1, n);
    }
  }

  lemma {:induction false} RunSymPlus(c: Conf<Sym>, checked: bool, m: nat, n: nat)
    ensures RunSym(c, checked, m + n) == RunSym(RunSym(c, checked, m), checked, n)
    decreases m
  {
    if m > 0 {
      RunSymPlus(StepSym(c, checked), checked, m - 1, n);
    }
  }

  lemma {:induction false} InactiveCharStays(c: Conf<char>, checked: bool, n: nat)
    requires !c.Active()
    ensures RunChar(c, checked, n) == c
    decreases n
  {
    if n > 0 {
      InactiveCharStays(c, checked, n - 1);
    }
  }

  lemma {:induction false} InactiveSymStays(c: Conf<Sym>, checked: bool, n: nat)
    requires !c.Active()
    ensures RunSym(c, checked, n) == c
    decreases n
  {
    if n > 0 {
      InactiveSymStays(c, checked, n - 1);
    }
  }

  // ----- what the characters do -----

  /** The beginning: `mem` cells, all zero, and the head in the middle of them. */
  lemma InitialMeans<T>(code: seq<T>, mem: nat, input: seq<Byte>)
    ensures var c := Initial(code, mem, input);
            && c.code == code && c.loops == [] && c.status == Running
            && |c.m.tape| == mem && (forall i :: 0 <= i < mem ==> c.m.tape[i] == 0)
            && 2 * c.m.head <= mem <= 2 * c.m.head + 1 && c.m.input == input && c.m.output == []
  {
  }

  /** "+", "-", "," and "." on the tape: one cell, or the input, or the output changes, and nothing else does. */
  lemma CellCharacters(c: Conf<char>, checked: bool)
    requires c.status == Running && c.code != [] && 0 <= c.m.head < |c.m.tape|
    ensures var c', x, h, rest := StepChar(c, checked), c.code[0], c.m.head, c.code[1..];
            var cell, tape, input := c.m.tape[h], c.m.tape, c.m.input;
            var up: Byte := if cell == 255 then 0 else cell + 1;
            var down: Byte := if cell == 0 then 255 else cell - 1;
            && (x == '+' ==> c' == c.(code := rest, m := Machine(tape[h := up], h, input, c.m.output)))
            && (x == '-' ==> c' == c.(code := rest, m := Machine(tape[h := down], h, input, c.m.output)))
            && (x == '.' ==> c' == c.(code := rest, m := Machine(tape, h, input, c.m.output + [cell])))
            && (x == ',' && input != [] ==>
                  c' == c.(code := rest, m := Machine(tape[h := input[0]], h, input[1..], c.m.output)))
            && (x == ',' && input == [] ==>
                  c' == c.(code := rest, m := Machine(tape[h := 255], h, [], c.m.output)))
  {
  }

  /** "<" and ">": the head moves; with checks it must stay on the tape. */
  lemma HeadCharacters(c: Conf<char>, checked: bool)
    requires c.status == Running && c.code != [] && (c.code[0] == '>' || c.code[0] == '<')
    ensures var h := if c.code[0] == '>' then c.m.head + 1 else c.m.head - 1;
            var m := Machine(c.m.tape, h, c.m.input, c.m.output);
            StepChar(c, checked) == if checked && !(0 <= h < |c.m.tape|) then c.(m := m, status := Trap)
                                    else c.(code := c.code[1..], m := m)
  {
  }

  /** "[" and "]" on the tape: a cell that is 0 skips or leaves the loop, any other enters or repeats it. */
  lemma LoopCharacters(c: Conf<char>, checked: bool)
    requires c.status == Running && c.code != [] && 0 <= c.m.head < |c.m.tape|
    ensures var c', zero, rest := StepChar(c, checked), c.m.tape[c.m.head] == 0, c.code[1..];
            && (c.code[0] == '[' && zero ==> IsBehindLoop(c'.code, rest) && c' == c.(code := c'.code))
            && (c.code[0] == '[' && !zero ==> c' == c.(code := rest, loops := [rest] + c.loops))
            && (c.code[0] == ']' && c.loops == [] ==> c' == c.(status := Stuck))
            && (c.code[0] == ']' && c.loops != [] && zero ==> c' == c.(code := rest, loops := c.loops[1..]))
            && (c.code[0] == ']' && c.loops != [] && !zero ==> c' == c.(code := c.loops[0]))
  {
    SkipsBehindLoop(c.code[1..]);
    hide SkipChars, IsBehindLoop;
  }

  /** Off the tape, the commands that use a cell fault. */
  lemma CharactersOffTape(c: Conf<char>, checked: bool)
    requires c.status == Running && c.code != [] && !(0 <= c.m.head < |c.m.tape|)
    requires c.code[0] == '+' || c.code[0] == '-' || c.code[0] == ',' || c.code[0] == '.' || c.code[0] == '['
          || (c.code[0] == ']' && c.loops != [])
    ensures StepChar(c, checked) == c.(status := Fault)
  {
  }

  /** Every other character changes nothing. */
  lemma OtherCharacters(c: Conf<char>, checked: bool)
    requires c.status == Running && c.code != []
    requires var x := c.code[0];
             x != '+' && x != '-' && x != '<' && x != '>' && x != ',' && x != '.' && x != '[' && x != ']'
    ensures StepChar(c, checked) == c.(code := c.code[1..])
  {
  }

  /** The code behind the "]" in front of which `body` is balanced; nothing, if there is none. */
  ghost predicate IsBehindLoop(behind: seq<char>, body: seq<char>) {
    if exists k :: ClosesAt(body, k) then exists k :: 0 <= k < |body| && ClosesAt(body, k) && behind == body[k + 1..]
    else behind == []
  }

  ghost predicate ClosesAt(body: seq<char>, k: nat) {
    k < |body| && body[k] == ']' && Balanced(body[..k])
  }

  /** The same, with `d` loops open. */
  ghost predicate MatchAt(s: seq<char>, d: nat, k: nat) {
    k < |s| && s[k] == ']' && d + Depth(s[..k]) == 0 && forall j :: 0 <= j <= k ==> d + Depth(s[..j]) >= 0
  }

  lemma MatchStep(s: seq<char>, d: nat, k: nat)
    requires s != [] && d + Delta(s[0]) >= 0 && k < |s|
    ensures MatchAt(s, d, k) <==> k > 0 && MatchAt(s[1..], d + Delta(s[0]), k - 1)
  {
    assert Depth(s[..0]) == 0;
    forall j | 0 < j <= k
      ensures Depth(s[..j]) == Delta(s[0]) + Depth(s[1..][..j - 1])
    {
      DepthBehindFirst(s, j - 1);
    }
    if k > 0 && MatchAt(s, d, k) {
      forall j | 0 <= j <= k - 1
        ensures d + Delta(s[0]) + Depth(s[1..][..j]) >= 0
      {
        assert d + Depth(s[..j + 1]) >= 0;
      }
    }
  }

  lemma {:induction false} SkipsToMatch(s: seq<char>, d: nat)
    ensures if exists k :: MatchAt(s, d, k)
            then exists k :: 0 <= k < |s| && MatchAt(s, d, k) && SkipChars(s, d) == s[k + 1..]
            else SkipChars(s, d) == []
    decreases |s|
  {
    hide MatchAt;
    if s == [] {
      NoMatch(s, d);
    } else if s[0] == ']' && d == 0 {
      FirstMatches(s);
    } else {
      var d' := d + Delta(s[0]);
      SkipsToMatch(s[1..], d');
      forall k: nat
        ensures MatchAt(s, d, k) <==> 0 < k < |s| && MatchAt(s[1..], d', k - 1)
      {
        if k < |s| {
          MatchStep(s, d, k);
        } else {
          NoMatchAt(s, d, k);
        }
      }
      if k: nat :| MatchAt(s, d, k) {
        assert k > 0 && MatchAt(s[1..], d', k - 1);
        var l: nat :| l < |s| - 1 && MatchAt(s[1..], d', l) && SkipChars(s[1..], d') == s[1..][l + 1..];
        assert MatchAt(s, d, l + 1) && s[1..][l + 1..] == s[l + 2..];
      } else {
        forall l: nat
          ensures !MatchAt(s[1..], d', l)
        {
          NoMatchAt(s[1..], d', l);
          assert !MatchAt(s, d, l + 1);
        }
      }
    }
  }

  lemma NoMatchAt(s: seq<char>, d: nat, k: nat)
    ensures k >= |s| ==> !MatchAt(s, d, k)
  {
  }

  lemma NoMatch(s: seq<char>, d: nat)
    ensures s == [] ==> forall k :: !MatchAt(s, d, k)
  {
  }

  lemma FirstMatches(s: seq<char>)
    requires s != [] && s[0] == ']'
    ensures MatchAt(s, 0, 0) && s[1..] == s[0 + 1..]
  {
    assert Depth(s[..0]) == 0;
  }

  lemma SkipsBehindLoop(s: seq<char>)
    ensures IsBehindLoop(SkipChars(s, 0), s)
  {
    SkipsToMatch(s, 0);
    forall k: nat
      ensures MatchAt(s, 0, k) <==> ClosesAt(s, k)
    {
      if k < |s| {
        assert forall j :: 0 <= j <= k ==> s[..k][..j] == s[..j];
        if ClosesAt(s, k) {
          forall j | 0 <= j <= k
            ensures Depth(s[..j]) >= 0
          {
            assert Depth(s[..k][..j]) >= 0;
          }
        }
      }
    }
    hide ClosesAt, MatchAt;
  }
}
