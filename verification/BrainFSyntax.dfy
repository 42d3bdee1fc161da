/**
  The lexical level of the BrainF compiler: the eight commands, and the folding of
  runs of "+-" and of "<>" into single symbols (`Lex`).
  `readloop` does the same work with a one-symbol lookahead; see BrainFCompiler.
*/
module BrainFSyntax {
  import opened Common

  datatype Sym =
    | Read
    | Write
    | Move(v: int)
    | Change(v: int)
    | Loop
    | EndLoop

  /** The command a character stands for; every other character is a comment. */
  function CharSym(c: char): Option<Sym> {
    match c
    case '-' => Some(Change(-1))
    case '+' => Some(Change(1))
    case '<' => Some(Move(-1))
    case '>' => Some(Move(1))
    case ',' => Some(Read)
    case '.' => Some(Write)
    case '[' => Some(Loop)
    case ']' => Some(EndLoop)
    case _ => None
  }

  predicate Mergeable(a: Sym, b: Sym) {
    (a.Move? && b.Move?) || (a.Change? && b.Change?)
  }

  function Merge(a: Sym, b: Sym): Sym
    requires Mergeable(a, b)
  {
    if a.Move? then Move(a.v + b.v) else Change(a.v + b.v)
  }

  /** The symbols of `s`, when the symbol `pending` has been started already. */
  function LexFrom(pending: Option<Sym>, s: seq<char>): seq<Sym>
    decreases |s|
  {
    if s == [] then
      if pending.None? then [] else [pending.value]
    else
      match CharSym(s[0])
      case None => LexFrom(pending, s[1..])
      case Some(t) =>
        if pending.None? then LexFrom(Some(t), s[1..])
        else if Mergeable(pending.value, t) then LexFrom(Some(Merge(pending.value, t)), s[1..])
        else [pending.value] + LexFrom(Some(t), s[1..])
  }

  function Lex(s: seq<char>): seq<Sym> {
    LexFrom(None, s)
  }

  /** `s` without its comments. */
  function Strip(s: seq<char>): seq<char> {
    if s == [] then []
    else if CharSym(s[0]).None? then Strip(s[1..])
    else [s[0]] + Strip(s[1..])
  }

  // ----- facts about lexing -----

  /** A symbol that never merges is complete as soon as it has been started. */
  lemma {:induction false} LexFromAtomic(t: Sym, s: seq<char>)
    requires !t.Move? && !t.Change?
    ensures LexFrom(Some(t), s) == [t] + Lex(s)
    decreases |s|
  {
    if s != [] {
      if CharSym(s[0]).None? {
        LexFromAtomic(t, s[1..]);
      }
    }
  }

  lemma {:induction false} LexStripFrom(pending: Option<Sym>, s: seq<char>)
    ensures LexFrom(pending, Strip(s)) == LexFrom(pending, s)
    decreases |s|
  {
    if s != [] {
      match CharSym(s[0])
      case None =>
        LexStripFrom(pending, s[1..]);
      case Some(t) =>
        assert Strip(s)[0] == s[0] && Strip(s)[1..] == Strip(s[1..]);
        if pending.None? {
          LexStripFrom(Some(t), s[1..]);
        } else if Mergeable(pending.value, t) {
          LexStripFrom(Some(Merge(pending.value, t)), s[1..]);
        } else {
          LexStripFrom(Some(t), s[1..]);
        }
    }
  }

  /** Deleting the comments, also those inside a run, changes nothing. */
  lemma CommentsDoNotMatter(s: seq<char>)
    ensures Lex(Strip(s)) == Lex(s)
  {
    LexStripFrom(None, s);
  }

  /** No two moves and no two changes stand side by side. */
  ghost predicate MaximallyFolded(toks: seq<Sym>) {
    forall i :: 0 < i < |toks| ==>
      !(toks[i - 1].Move? && toks[i].Move?) && !(toks[i - 1].Change? && toks[i].Change?)
  }

  predicate SameKind(a: Sym, b: Sym) {
    a == b || Mergeable(a, b)
  }

  lemma {:induction false} LexFromFolded(pending: Option<Sym>, s: seq<char>)
    ensures MaximallyFolded(LexFrom(pending, s))
    ensures pending.Some? ==> LexFrom(pending, s) != [] && SameKind(pending.value, LexFrom(pending, s)[0])
    decreases |s|
  {
    if s != [] {
      match CharSym(s[0])
      case None =>
        LexFromFolded(pending, s[1..]);
      case Some(t) =>
        if pending.None? {
          LexFromFolded(Some(t), s[1..]);
        } else if Mergeable(pending.value, t) {
          LexFromFolded(Some(Merge(pending.value, t)), s[1..]);
        } else {
          LexFromFolded(Some(t), s[1..]);
        }
    }
  }

  /** Folding is maximal: no two adjacent symbols could have been one. */
  lemma LexIsMaximallyFolded(s: seq<char>)
    ensures MaximallyFolded(Lex(s))
  {
    LexFromFolded(None, s);
  }

  // ----- brackets -----

  /** The number of loops open at the end of `s`, counting a surplus of "]" negatively. */
  function Depth(s: seq<char>): int {
    if s == [] then 0
    else Depth(s[..|s| - 1]) + (if s[|s| - 1] == '[' then 1 else if s[|s| - 1] == ']' then -1 else 0)
  }

  lemma {:induction false} DepthCounts(s: seq<char>)
    ensures Depth(s) == Count(s, '[') - Count(s, ']')
    decreases |s|
  {
    if s != [] {
      DepthCounts(s[..|s| - 1]);
    }
  }

  /** Some prefix closes a loop it never opened. */
  ghost predicate ClosesTooMany(s: seq<char>) {
    exists k :: 0 <= k <= |s| && Depth(s[..k]) < 0
  }

  ghost predicate Balanced(s: seq<char>) {
    !ClosesTooMany(s) && Depth(s) == 0
  }

  /** Where a walk over the symbols stands: the depth after them, or None once a loop was closed too many. */
  function SymDepth(d: nat, toks: seq<Sym>): Option<nat>
    decreases |toks|
  {
    if toks == [] then Some(d)
    else if toks[0].Loop? then SymDepth(d + 1, toks[1..])
    else if toks[0].EndLoop? then if d == 0 then None else SymDepth(d - 1, toks[1..])
    else SymDepth(d, toks[1..])
  }

  /** The same walk over the characters. */
  function CharDepth(d: nat, s: seq<char>): Option<nat>
    decreases |s|
  {
    if s == [] then Some(d)
    else if s[0] == '[' then CharDepth(d + 1, s[1..])
    else if s[0] == ']' then if d == 0 then None else CharDepth(d - 1, s[1..])
    else CharDepth(d, s[1..])
  }

  lemma {:induction false} LexKeepsDepth(d: nat, pending: Option<Sym>, s: seq<char>)
    requires pending.Some? ==> !pending.value.Loop? && !pending.value.EndLoop?
    ensures SymDepth(d, LexFrom(pending, s)) == CharDepth(d, s)
    decreases |s|
  {
    if s != [] {
      match CharSym(s[0])
      case None =>
        LexKeepsDepth(d, pending, s[1..]);
      case Some(t) =>
        if t.Loop? || t.EndLoop? {
          LexFromAtomic(t, s[1..]);
          LexKeepsDepth(d, None, s[1..]);
          LexKeepsDepth(d + 1, None, s[1..]);
          if d > 0 {
            LexKeepsDepth(d - 1, None, s[1..]);
          }
          var rest := [t] + Lex(s[1..]);
          assert rest[1..] == Lex(s[1..]);
          if pending.Some? {
            assert LexFrom(pending, s) == [pending.value] + rest;
            assert LexFrom(pending, s)[1..] == rest;
          }
        } else if pending.None? {
          LexKeepsDepth(d, Some(t), s[1..]);
        } else if Mergeable(pending.value, t) {
          LexKeepsDepth(d, Some(Merge(pending.value, t)), s[1..]);
        } else {
          LexKeepsDepth(d, Some(t), s[1..]);
          assert LexFrom(pending, s)[1..] == LexFrom(Some(t), s[1..]);
        }
    }
  }

  lemma {:induction false} DepthOfConcat(a: seq<char>, b: seq<char>)
    ensures Depth(a + b) == Depth(a) + Depth(b)
    decreases |b|
  {
    if b == [] {
      assert a + b == a;
    } else {
      assert (a + b)[..|a + b| - 1] == a + b[..|b| - 1];
      DepthOfConcat(a, b[..|b| - 1]);
    }
  }

  function Delta(c: char): int {
    if c == '[' then 1 else if c == ']' then -1 else 0
  }

  lemma DepthBehindFirst(s: seq<char>, k: nat)
    requires k < |s|
    ensures Depth(s[..k + 1]) == Delta(s[0]) + Depth(s[1..][..k])
  {
    assert [s[0]][..0] == [];
    DepthOfConcat([s[0]], s[1..][..k]);
    assert s[..k + 1] == [s[0]] + s[1..][..k];
  }

  ghost predicate DropsBelow(d: nat, s: seq<char>) {
    exists k :: 0 <= k <= |s| && d + Depth(s[..k]) < 0
  }

  lemma DropsBelowStep(d: nat, s: seq<char>)
    requires s != []
    ensures d + Delta(s[0]) < 0 ==> DropsBelow(d, s)
    ensures d + Delta(s[0]) >= 0 ==> (DropsBelow(d, s) <==> DropsBelow(d + Delta(s[0]), s[1..]))
  {
    assert Depth(s[..0]) == 0 && Depth(s[1..][..0]) == 0;
    DepthBehindFirst(s, 0);
    if k :| 0 <= k <= |s| && d + Depth(s[..k]) < 0 {
      assert k > 0;
      DepthBehindFirst(s, k - 1);
    }
    if k :| 0 <= k <= |s[1..]| && d + Delta(s[0]) + Depth(s[1..][..k]) < 0 {
      DepthBehindFirst(s, k);
    }
  }

  /** The walk from depth `d` agrees with the prefix counts. */
  lemma {:induction false} CharDepthCounts(d: nat, s: seq<char>)
    ensures CharDepth(d, s).None? <==> DropsBelow(d, s)
    ensures CharDepth(d, s).Some? ==> CharDepth(d, s).value == d + Depth(s)
    decreases |s|
  {
    if s == [] {
      assert Depth(s[..0]) == 0;
    } else {
      DropsBelowStep(d, s);
      if d + Delta(s[0]) >= 0 {
        CharDepthCounts(d + Delta(s[0]), s[1..]);
        DepthBehindFirst(s, |s| - 1);
        assert s[..|s|] == s && s[1..][..|s| - 1] == s[1..];
      }
    }
  }

  /** The walk over the symbols of `s` finds exactly the bracket errors of `s`. */
  lemma SymDepthOfSource(s: seq<char>)
    ensures SymDepth(0, Lex(s)).None? <==> ClosesTooMany(s)
    ensures SymDepth(0, Lex(s)).Some? ==> SymDepth(0, Lex(s)).value == Depth(s)
    ensures SymDepth(0, Lex(s)) == Some(0) <==> Balanced(s)
  {
    LexKeepsDepth(0, None, s);
    CharDepthCounts(0, s);
    if k :| 0 <= k <= |s| && Depth(s[..k]) < 0 {
      assert 0 + Depth(s[..k]) < 0;
    }
  }
}
