/**
  The use lists of values. Every operand of an instruction is a Use, and the Uses that refer to one
  value are linked into a list that starts in the value. The back pointer of a Use is the address of
  the pointer that points at it: the list head in the value, or the next field of another Use.
*/
module UseList {

  /** The address of a pointer to a Use. */
  datatype Slot = Nowhere | HeadOf(v: Value) | NextOf(u: Use)

  /** `s` without the elements of `out`, in the same order. */
  ghost function Without(s: seq<Use>, out: set<Use>): seq<Use> {
    if s == [] then []
    else if s[0] in out then Without(s[1..], out)
    else [s[0]] + Without(s[1..], out)
  }

  ghost predicate NoDuplicates(s: seq<Use>) {
    forall i, j :: 0 <= i < j < |s| ==> s[i] != s[j]
  }

  class Value {
    var useList: Use?
    /** The list, as a sequence. */
    ghost var uses: seq<Use>

    constructor ()
      ensures Linked() && uses == []
    {
      useList, uses := null, [];
    }

    /** The pointers form exactly the list `uses`, forwards and backwards. */
    ghost predicate Linked()
      reads this, uses
    {
      && NoDuplicates(uses)
      && useList == (if uses == [] then null else uses[0])
      && forall i :: 0 <= i < |uses| ==> LinkAt(i)
    }

    /** The list holds Uses of this value only. */
    ghost predicate Holds(all: set<Use>)
      reads this, all
    {
      forall u :: u in uses ==> u in all && u.val == this
    }

    /** The pointer to the Use at position `k`, or to where one would be. */
    ghost function SlotBefore(k: nat): Slot
      requires k <= |uses|
      reads this
    {
      if k == 0 then HeadOf(this) else NextOf(uses[k - 1])
    }

    ghost predicate LinkAt(i: nat)
      requires i < |uses|
      reads this, uses
    {
      && uses[i].next == (if i + 1 < |uses| then uses[i + 1] else null)
      && uses[i].prev == SlotBefore(i)
    }

    predicate UseEmpty()
      reads this
    {
      useList == null
    }

    /** Exactly one use, without walking the list. */
    method HasOneUse() returns (b: bool)
      requires Linked()
      ensures b <==> |uses| == 1
    {
      var i := useList;
      if i == null {
        return false;
      }
      assert LinkAt(0);
      i := i.next;
      return i == null;
    }

    /** addUse */
    method AddUse(u: Use)
      requires Linked() && u !in uses
      modifies this, uses, u
      ensures Linked() && uses == [u] + old(uses)
      ensures forall w :: w in uses ==> w.val == old(w.val)
    {
      u.AddToList(HeadOf(this), this, 0);
      assert uses == [u] + old(uses);
    }
  }

  class Use {
    var val: Value?
    var next: Use?
    var prev: Slot

    constructor ()
      ensures val == null
    {
      val, next, prev := null, null, Nowhere;
    }

    /** Inserts this Use at the pointer `list`, which is the one in front of position `k`. */
    method AddToList(list: Slot, ghost v: Value, ghost k: nat)
      requires v.Linked() && k <= |v.uses| && list == v.SlotBefore(k) && this !in v.uses
      modifies this, v, v.uses
      ensures v.Linked() && v.uses == old(v.uses)[..k] + [this] + old(v.uses)[k..]
      ensures forall w :: w in v.uses ==> w.val == old(w.val)
    {
      ghost var s := v.uses;
      PointerIs(v, k);
      match list {
        case HeadOf(x) => next := x.useList;
        case NextOf(u) => next := u.next;
      }
      if next != null {
        next.prev := NextOf(this);
      }
      prev := list;
      match list {
        case HeadOf(x) => x.useList := this;
        case NextOf(u) => u.next := this;
      }
      v.uses := s[..k] + [this] + s[k..];
      forall j | 0 <= j < |s|
        ensures Around(v, s, this, k, j)
      {
        assert old(v.LinkAt(j));
      }
      LinkedAfterAdding(v, s, this, k);
    }

    /** Takes this Use out of the list it is in, at position `k` of the list of `v`. */
    method RemoveFromList(ghost v: Value, ghost k: nat)
      requires v.Linked() && k < |v.uses| && v.uses[k] == this
      modifies v, v.uses
      ensures v.Linked() && v.uses == old(v.uses)[..k] + old(v.uses)[k + 1..]
      ensures forall w :: w in old(v.uses) ==> w.val == old(w.val)
    {
      ghost var s := v.uses;
      assert v.LinkAt(k);
      match prev {
        case HeadOf(x) => x.useList := next;
        case NextOf(u) => u.next := next;
      }
      if next != null {
        next.prev := prev;
      }
      v.uses := s[..k] + s[k + 1..];
      forall i | 0 <= i < |v.uses|
        ensures v.LinkAt(i)
      {
        assert v.uses[i] == if i < k then s[i] else s[i + 1];
        assert old(v.LinkAt(if i < k then i else i + 1));
      }
    }

    /** Leaves the list of the current value, if there is one. */
    method Leave(ghost values: set<Value>, ghost all: set<Use>)
      requires Indexed(values, all) && this in all
      modifies values, all
      ensures IndexedBut(values, all, this)
      ensures forall u :: u in all ==> u.val == old(u.val)
      ensures forall x :: x in values ==> x.uses == Without(old(x.uses), {this})
    {
      hide Value.Linked;
      if val == null {
        forall x | x in values
          ensures Without(x.uses, {this}) == x.uses && this !in x.uses
        {
          assert x.Holds(all);
          WithoutNone(x.uses, {this});
        }
      } else {
        ghost var v := val;
        ghost var k := PositionIn(v);
        forall x | x in values && x != v
          ensures Without(x.uses, {this}) == x.uses && this !in x.uses
          ensures forall u :: u in x.uses ==> u !in v.uses
        {
          assert x.Holds(all) && v.Holds(all);
          WithoutNone(x.uses, {this});
        }
        WithoutIn(v.uses, {this});
        RemoveFromList(v, k);
        forall x | x in values
          ensures x.Linked() && x.Holds(all) && this !in x.uses
        {
          if x != v {
            StillLinked(x);
          }
        }
      }
    }

    /** Where this Use is in the list of its value. */
    ghost method PositionIn(v: Value) returns (k: nat)
      requires v.Linked() && this in v.uses
      ensures k < |v.uses| && v.uses[k] == this
      ensures Without(v.uses, {this}) == v.uses[..k] + v.uses[k + 1..]
    {
      k :| 0 <= k < |v.uses| && v.uses[k] == this;
      WithoutOne(v.uses, k);
    }

    /** Takes the new value, while in no list. */
    method Refer(v: Value?, ghost values: set<Value>, ghost all: set<Use>)
      requires IndexedBut(values, all, this)
      modifies this`val
      ensures IndexedBut(values, all, this) && val == v
    {
      hide Value.Linked;
      val := v;
      forall x | x in values
        ensures x.Linked() && x.Holds(all)
      {
        StillLinked(x);
      }
    }

    /** Enters the list of its value. */
    method Enter(v: Value, ghost values: set<Value>, ghost all: set<Use>)
      requires IndexedBut(values, all, this) && this in all && val == v && v in values
      modifies values, all
      ensures Indexed(values, all)
      ensures forall u :: u in all ==> u.val == old(u.val)
      ensures forall x :: x in values ==> x.uses == (if x == v then [this] else []) + old(x.uses)
    {
      hide Value.Linked;
      forall x | x in values && x != v
        ensures forall u :: u in x.uses ==> u !in v.uses
      {
        assert x.Holds(all) && v.Holds(all);
      }
      v.AddUse(this);
      forall x | x in values
        ensures x.Linked() && x.Holds(all)
      {
        if x != v {
          StillLinked(x);
        }
      }
    }

    /** Refers to `v`, or to nothing: leaves the list of the old value, enters the list of the new one. */
    method Set(v: Value?, ghost values: set<Value>, ghost all: set<Use>)
      requires Indexed(values, all) && this in all && (v != null ==> v in values)
      modifies values, all
      ensures Indexed(values, all)
      ensures val == v && forall u :: u in all && u != this ==> u.val == old(u.val)
      ensures forall x :: x in values ==> x.uses == Moved(old(x.uses), this, x == v)
    {
      Leave(values, all);
      Refer(v, values, all);
      if v != null {
        Enter(v, values, all);
      }
    }
  }

  /** The list of a value when `u` has been set, to this value or to another. */
  ghost function Moved(s: seq<Use>, u: Use, here: bool): seq<Use> {
    (if here then [u] else []) + Without(s, {u})
  }

  /** The index: every value's list is linked, and holds exactly the Uses that refer to the value. */
  ghost predicate Indexed(values: set<Value>, all: set<Use>)
    reads values, all
  {
    && (forall v :: v in values ==> v.Holds(all))
    && (forall v :: v in values ==> v.Linked())
    && (forall u :: u in all && u.val != null ==> u.val in values && u in u.val.uses)
  }

  /** The same, while the Use `out` is in no list. */
  ghost predicate IndexedBut(values: set<Value>, all: set<Use>, out: Use)
    reads values, all
  {
    && (forall v :: v in values ==> v.Holds(all) && out !in v.uses)
    && (forall v :: v in values ==> v.Linked())
    && (forall u :: u in all && u != out && u.val != null ==> u.val in values && u in u.val.uses)
  }

  /** A list stays linked as long as its pointers are left alone. */
  twostate lemma StillLinked(x: Value)
    requires old(x.Linked()) && unchanged(x)
    requires forall w :: w in x.uses ==> w.next == old(w.next) && w.prev == old(w.prev)
    ensures x.Linked()
  {
    forall i | 0 <= i < |x.uses|
      ensures x.LinkAt(i)
    {
      assert old(x.LinkAt(i));
    }
  }

  /** The pointer in front of position `k` points at that position, and is no other Use's. */
  lemma PointerIs(v: Value, k: nat)
    requires v.Linked() && k <= |v.uses|
    ensures (if k == 0 then v.useList else v.uses[k - 1].next) == if k < |v.uses| then v.uses[k] else null
    ensures v.useList == (if v.uses == [] then null else v.uses[0]) && NoDuplicates(v.uses)
  {
    assert k > 0 ==> v.LinkAt(k - 1);
  }

  /** The pointers at position `j` of `s` when `u` stands in front of position `k`. */
  ghost predicate Around(v: Value, s: seq<Use>, u: Use, k: nat, j: nat)
    requires j < |s|
    reads s
  {
    && s[j].next == (if j + 1 == k then u else if j + 1 < |s| then s[j + 1] else null)
    && s[j].prev == (if j == k then NextOf(u) else if j == 0 then HeadOf(v) else NextOf(s[j - 1]))
  }

  /** The list is linked when `u` stands in front of position `k` of `s`, and its neighbours point at it. */
  lemma LinkedAfterAdding(v: Value, s: seq<Use>, u: Use, k: nat)
    requires NoDuplicates(s) && k <= |s| && u !in s && v.uses == s[..k] + [u] + s[k..]
    requires v.useList == if k == 0 then u else s[0]
    requires u.next == (if k < |s| then s[k] else null) && u.prev == (if k == 0 then HeadOf(v) else NextOf(s[k - 1]))
    requires forall j :: 0 <= j < |s| ==> Around(v, s, u, k, j)
    ensures v.Linked()
  {
    assert forall i :: 0 <= i < |v.uses| ==> v.uses[i] == if i < k then s[i] else if i == k then u else s[i - 1];
    forall i | 0 <= i < |v.uses|
      ensures v.LinkAt(i)
    {
      if i != k {
        assert Around(v, s, u, k, if i < k then i else i - 1);
      }
    }
  }

  // ----- lists without some elements -----

  function Elements(s: seq<Use>): set<Use> {
    set u | u in s
  }

  lemma {:induction false} WithoutIn(s: seq<Use>, out: set<Use>)
    ensures forall u :: u in Without(s, out) <==> u in s && u !in out
    decreases |s|
  {
    if s != [] {
      WithoutIn(s[1..], out);
    }
  }

  lemma {:induction false} WithoutNone(s: seq<Use>, out: set<Use>)
    requires forall u :: u in s ==> u !in out
    ensures Without(s, out) == s
    decreases |s|
  {
    if s != [] {
      WithoutNone(s[1..], out);
    }
  }

  lemma {:induction false} WithoutOne(s: seq<Use>, k: nat)
    requires NoDuplicates(s) && k < |s|
    ensures Without(s, {s[k]}) == s[..k] + s[k + 1..]
    decreases |s|
  {
    if k == 0 {
      WithoutNone(s[1..], {s[0]});
    } else {
      WithoutOne(s[1..], k - 1);
      assert s[..k] + s[k + 1..] == [s[0]] + (s[1..][..k - 1] + s[1..][k..]);
    }
  }

  lemma {:induction false} WithoutTwice(s: seq<Use>, a: set<Use>, b: set<Use>)
    ensures Without(Without(s, a), b) == Without(s, a + b)
    decreases |s|
  {
    if s != [] {
      WithoutTwice(s[1..], a, b);
      if s[0] !in a {
        assert Without(s, a)[1..] == Without(s[1..], a);
      }
    }
  }

  lemma {:induction false} WithoutConcat(s: seq<Use>, t: seq<Use>, out: set<Use>)
    ensures Without(s + t, out) == Without(s, out) + Without(t, out)
    decreases |s|
  {
    if s == [] {
      assert s + t == t;
    } else {
      assert (s + t)[1..] == s[1..] + t;
      WithoutConcat(s[1..], t, out);
    }
  }

  /** What is left keeps its order. */
  lemma {:induction false} WithoutKeepsOrder(s: seq<Use>, out: set<Use>, a: Use, b: Use, i: nat, j: nat)
    requires i < j < |s| && s[i] == a && s[j] == b && a !in out && b !in out
    ensures exists k, l :: 0 <= k < l < |Without(s, out)| && Without(s, out)[k] == a && Without(s, out)[l] == b
    decreases |s|
  {
    var rest := Without(s[1..], out);
    if i > 0 {
      WithoutKeepsOrder(s[1..], out, a, b, i - 1, j - 1);
      var k, l :| 0 <= k < l < |rest| && rest[k] == a && rest[l] == b;
      var d := if s[0] in out then 0 else 1;
      assert Without(s, out)[k + d] == a && Without(s, out)[l + d] == b;
    } else {
      WithoutIn(s[1..], out);
      assert b == s[1..][j - 1];
      var l :| 0 <= l < |rest| && rest[l] == b;
      assert Without(s, out)[0] == a && Without(s, out)[l + 1] == b;
    }
  }

  /** The list of a value is an index of its Uses: each one, and once. */
  lemma UsesAreIndexed(values: set<Value>, all: set<Use>, v: Value, u: Use)
    requires Indexed(values, all) && v in values && u in all
    ensures u.val == v <==> u in v.uses
    ensures u in v.uses ==> exists k :: 0 <= k < |v.uses| && v.uses[k] == u
                                        && forall l :: 0 <= l < |v.uses| && v.uses[l] == u ==> l == k
    ensures v.UseEmpty() <==> forall w :: w in all ==> w.val != v
  {
    assert v.Holds(all) && v.Linked();
    if v.uses != [] {
      assert v.uses[0] in all && v.uses[0].val == v;
    }
  }

  // ----- users -----

  /** An instruction with its operands. */
  class User {
    const operandList: seq<Use>

    constructor (operands: seq<Use>)
      ensures operandList == operands
    {
      operandList := operands;
    }

    method SetOperand(i: nat, v: Value?, ghost values: set<Value>, ghost all: set<Use>)
      requires Indexed(values, all) && i < |operandList| && operandList[i] in all && (v != null ==> v in values)
      modifies values, all
      ensures Indexed(values, all)
      ensures operandList[i].val == v && forall u :: u in all && u != operandList[i] ==> u.val == old(u.val)
      ensures forall x :: x in values ==> x.uses == Moved(old(x.uses), operandList[i], x == v)
    {
      operandList[i].Set(v, values, all);
    }

    /** Lets go of all operands; every other Use stays where it is. */
    method DropAllReferences(ghost values: set<Value>, ghost all: set<Use>)
      requires Indexed(values, all) && forall u :: u in operandList ==> u in all
      modifies values, all
      ensures Indexed(values, all)
      ensures forall u :: u in all ==> u.val == if u in operandList then null else old(u.val)
      ensures forall x :: x in values ==> x.uses == Without(old(x.uses), Elements(operandList))
    {
      var i := 0;
      assert Elements(operandList[..0]) == {};
      forall x | x in values
        ensures Without(x.uses, {}) == x.uses
      {
        WithoutNone(x.uses, {});
      }
      while i < |operandList|
        invariant 0 <= i <= |operandList| && Indexed(values, all)
        invariant forall u :: u in all ==> u.val == if u in operandList[..i] then null else old(u.val)
        invariant forall x :: x in values ==> x.uses == Without(old(x.uses), Elements(operandList[..i]))
      {
        ghost var out := Elements(operandList[..i]);
        forall x | x in values
          ensures Without(Without(old(x.uses), out), {operandList[i]}) == Without(old(x.uses), out + {operandList[i]})
        {
          WithoutTwice(old(x.uses), out, {operandList[i]});
        }
        operandList[i].Set(null, values, all);
        assert Elements(operandList[..i + 1]) == out + {operandList[i]};
        i := i + 1;
      }
      assert operandList[..i] == operandList;
    }
  }

  /** A branch: its Uses end with the true target; in front of it stand the false target and the
      condition, if it is conditional. */
  class BranchInst {
    const slots: seq<Use>
    var numOperands: nat
    var operandBegin: nat

    ghost predicate Valid()
      reads this
    {
      && (numOperands == 1 || numOperands == 3) && numOperands <= |slots| <= 3
      && operandBegin == |slots| - numOperands
      && NoDuplicates(slots)
    }

    /** A branch over one or three operands. */
    constructor (uses: seq<Use>)
      requires (|uses| == 1 || |uses| == 3) && NoDuplicates(uses)
      ensures Valid() && slots == uses && numOperands == |uses|
    {
      slots, numOperands, operandBegin := uses, |uses|, 0;
    }

    /** A branch that goes to `ifTrue` or to `ifFalse`, over operands that it sets from the last one on. */
    constructor Conditional(uses: seq<Use>, ifTrue: Value, ifFalse: Value, cond: Value,
                            ghost values: set<Value>, ghost all: set<Use>)
      requires |uses| == 3 && NoDuplicates(uses) && Indexed(values, all)
      requires (forall u :: u in uses ==> u in all) && {ifTrue, ifFalse, cond} <= values
      modifies values, all
      ensures Valid() && Indexed(values, all) && slots == uses
      ensures IsConditional() && GetNumSuccessors() == 2
      ensures GetSuccessor(0) == ifTrue && GetSuccessor(1) == ifFalse && GetCondition() == cond
      ensures forall u :: u in all && u !in uses ==> u.val == old(u.val)
    {
      slots, numOperands, operandBegin := uses, 3, 0;
      new;
      assert Op(1) != Op(2) && Op(1) != Op(3) && Op(2) != Op(3);
      hide Indexed, Moved;
      Op(1).Set(ifTrue, values, all);
      Op(2).Set(ifFalse, values, all);
      Op(3).Set(cond, values, all);
    }

    predicate IsConditional()
      reads this
    {
      numOperands == 3
    }

    /** The operands that the branch shows: those from `operandBegin` on. */
    function GetOperand(i: nat): Use
      requires Valid() && i < numOperands
      reads this
    {
      slots[operandBegin + i]
    }

    function GetCondition(): Value?
      requires Valid() && IsConditional()
      reads this, slots
    {
      Op(3).val
    }

    /** The order of operands: the condition, the false target, the true target; the last one, if there is only one. */
    lemma SuccessorsAreLast()
      requires Valid()
      ensures IsConditional() ==>
                && GetNumSuccessors() == 2 && GetCondition() == GetOperand(0).val
                && GetSuccessor(1) == GetOperand(1).val && GetSuccessor(0) == GetOperand(2).val
      ensures !IsConditional() ==> GetNumSuccessors() == 1 && GetSuccessor(0) == GetOperand(0).val
      ensures slots[|slots| - 1] == GetOperand(numOperands - 1)
    {
    }

    function GetNumSuccessors(): nat
      reads this
    {
      if IsConditional() then 2 else 1
    }

    /** Op<-k>: the k-th operand from the end. */
    function Op(k: nat): Use
      requires 1 <= k <= |slots|
    {
      slots[|slots| - k]
    }

    function GetSuccessor(i: nat): Value?
      requires Valid() && i < GetNumSuccessors()
      reads this, Op(i + 1)
    {
      Op(i + 1).val
    }

    method SetSuccessor(i: nat, v: Value?, ghost values: set<Value>, ghost all: set<Use>)
      requires Valid() && i < GetNumSuccessors() && Indexed(values, all)
      requires (forall u :: u in slots ==> u in all) && (v != null ==> v in values)
      modifies values, all
      ensures Indexed(values, all) && GetSuccessor(i) == v
      ensures forall u :: u in all && u != Op(i + 1) ==> u.val == old(u.val)
      ensures forall x :: x in values ==> x.uses == Moved(old(x.uses), Op(i + 1), x == v)
    {
      Op(i + 1).Set(v, values, all);
    }

    /** Becomes an unconditional branch to `dest`. The old targets and the condition each lose exactly
        the Use of this branch, also where they are `dest` itself, and `dest` gains one. */
    method SetUnconditionalDest(dest: Value?, ghost values: set<Value>, ghost all: set<Use>)
      requires Valid() && Indexed(values, all)
      requires (forall u :: u in slots ==> u in all) && (dest != null ==> dest in values)
      modifies this, values, all
      ensures Valid() && Indexed(values, all)
      ensures !IsConditional() && GetNumSuccessors() == 1 && GetSuccessor(0) == dest
      ensures var out := if old(IsConditional()) then {Op(1), Op(2), Op(3)} else {Op(1)};
              && (forall u :: u in all && u !in out ==> u.val == old(u.val))
              && (forall u :: u in out && u != Op(1) ==> u.val == null)
              && (forall x :: x in values ==>
                    x.uses == (if x == dest then [Op(1)] else []) + Without(old(x.uses), out))
    {
      hide Indexed, Without, Moved;
      assert Op(1) in slots && forall i, j :: 0 <= i < j < |slots| ==> slots[i] != slots[j];
      hide NoDuplicates;
      if !IsConditional() {
        forall x | x in values
          ensures Moved(x.uses, Op(1), x == dest) == (if x == dest then [Op(1)] else []) + Without(x.uses, {Op(1)})
        {
          MovedIs(x.uses, Op(1), x == dest);
        }
      }
      Op(1).Set(dest, values, all);
      if IsConditional() {
        Op(2).Set(null, values, all);
        Op(3).Set(null, values, all);
        forall x | x in values
          ensures x.uses == (if x == dest then [Op(1)] else []) + Without(old(x.uses), {Op(1), Op(2), Op(3)})
        {
          DroppedTwo(old(x.uses), Op(1), Op(2), Op(3), x == dest);
        }
        numOperands := 1;
        operandBegin := |slots| - 1;
      }
    }
  }

  lemma MovedIs(s: seq<Use>, u: Use, here: bool)
    ensures Moved(s, u, here) == (if here then [u] else []) + Without(s, {u})
  {
  }

  /** Setting one Use and clearing two others, in one list. */
  lemma DroppedTwo(s: seq<Use>, a: Use, b: Use, c: Use, here: bool)
    requires a != b && a != c && b != c
    ensures Moved(Moved(Moved(s, a, here), b, false), c, false) == (if here then [a] else []) + Without(s, {a, b, c})
  {
    var h := if here then [a] else [];
    WithoutConcat(h, Without(s, {a}), {b});
    WithoutNone(h, {b});
    WithoutTwice(s, {a}, {b});
    WithoutConcat(h, Without(s, {a, b}), {c});
    WithoutNone(h, {c});
    WithoutTwice(s, {a, b}, {c});
    assert {a} + {b} == {a, b} && {a, b} + {c} == {a, b, c};
    assert Moved(Moved(s, a, here), b, false) == [] + (h + Without(s, {a, b})) == h + Without(s, {a, b});
  }
}
