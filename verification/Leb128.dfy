/**
  The variable length numbers of section 7.6 of DWARF 3, as ExceptionDemo reads them: with shifts
  of the C++ type int, of 32 bits, into a result of 64 bits.
*/
module Leb128 {
  import opened Common

  function Pow2(n: nat): (p: nat)
    ensures p > 0
  {
    if n == 0 then 1 else 2 * Pow2(n - 1)
  }

  lemma {:induction false} Pow2Plus(m: nat, n: nat)
    ensures Pow2(m + n) == Pow2(m) * Pow2(n)
    decreases m
  {
    if m > 0 {
      Pow2Plus(m - 1, n);
      assert Pow2(m + n) == 2 * Pow2(m - 1 + n);
    }
  }

  /** v << s, where the C++ defines it, kept to the 32 bits of an int. */
  function IntShl(v: int, s: nat): int
    requires s < 32
  {
    (v * Pow2(s) + 0x8000_0000) % 0x1_0000_0000 - 0x8000_0000
  }

  /** An int as a uintptr_t. */
  function ToU64(v: int): nat {
    v % U64
  }

  /** A uintptr_t as an int64_t. */
  function ToS64(v: nat): int {
    if v < 0x8000_0000_0000_0000 then v else v - U64
  }

  /** The same 64 bits, read as a signed number. */
  lemma SignedMeans(v: nat)
    requires v < U64
    ensures -0x8000_0000_0000_0000 <= ToS64(v) < 0x8000_0000_0000_0000 && ToU64(ToS64(v)) == v
  {
  }

  /** The bits of `a` and of `b`. */
  function BitOr(a: nat, b: nat): nat
    decreases a + b
  {
    if a == 0 && b == 0 then 0
    else (if a % 2 == 1 || b % 2 == 1 then 1 else 0) + 2 * BitOr(a / 2, b / 2)
  }

  lemma {:induction false} BitOrZero(a: nat)
    ensures BitOr(a, 0) == a && BitOr(0, a) == a
    decreases a
  {
    if a > 0 {
      BitOrZero(a / 2);
    }
  }

  lemma {:induction false} BitOrAtLeast(a: nat, b: nat)
    ensures BitOr(a, b) >= b
    decreases a + b
  {
    if a > 0 || b > 0 {
      BitOrAtLeast(a / 2, b / 2);
    }
  }

  lemma {:induction false} BitOrBelow(a: nat, b: nat, s: nat)
    requires a < Pow2(s) && b < Pow2(s)
    ensures BitOr(a, b) < Pow2(s)
    decreases s
  {
    if s > 0 {
      BitOrBelow(a / 2, b / 2, s - 1);
    }
  }

  /** Bits above all those of `a` are simply added. */
  lemma {:induction false} BitOrDisjoint(a: nat, b: nat, s: nat)
    requires a < Pow2(s)
    ensures BitOr(a, b * Pow2(s)) == a + b * Pow2(s)
    decreases s
  {
    if s == 0 {
      BitOrZero(b);
    } else {
      var p := b * Pow2(s - 1);
      assert b * Pow2(s) == 2 * p by {
        assert Pow2(s) == 2 * Pow2(s - 1);
        assert b * (2 * Pow2(s - 1)) == 2 * (b * Pow2(s - 1));
      }
      assert (2 * p) / 2 == p && (2 * p) % 2 == 0;
      assert a / 2 < Pow2(s - 1);
      BitOrDisjoint(a / 2, b, s - 1);
      assert p >= 0;
      if a == 0 && p == 0 {
      } else {
        assert BitOr(a, 2 * p) == (if a % 2 == 1 then 1 else 0) + 2 * BitOr(a / 2, p);
      }
    }
  }

  // ----- reading -----

  /** The length of the number at `pos`: up to the first byte without continuation bit. */
  function LebLength(data: seq<Byte>, pos: nat): (n: nat)
    requires pos <= |data|
    ensures pos + n <= |data| && (pos < |data| ==> n > 0)
    decreases |data| - pos
  {
    if pos == |data| then 0
    else if data[pos] < 128 then 1
    else 1 + LebLength(data, pos + 1)
  }

  /** There is a whole number at `pos`. */
  predicate LebEnds(data: seq<Byte>, pos: nat) {
    pos < |data| && data[pos + LebLength(data, pos) - 1] < 128
  }

  /** Reading the number at `pos` shifts no int by 32 bits or more. */
  predicate ULebDefined(data: seq<Byte>, pos: nat) {
    LebEnds(data, pos) && LebLength(data, pos) <= 5
  }

  /** The same for a signed number, where a set sign bit costs one more shift. */
  predicate SLebDefined(data: seq<Byte>, pos: nat) {
    && ULebDefined(data, pos)
    && (data[pos + LebLength(data, pos) - 1] >= 64 ==> LebLength(data, pos) <= 4)
  }

  /** The groups of seven bits from `pos` on, shifted by `shift` and more, put on top of `acc`. */
  function LebGroups(data: seq<Byte>, pos: nat, shift: nat, acc: nat): nat
    requires LebEnds(data, pos) && shift + 7 * LebLength(data, pos) <= 38
    decreases |data| - pos
  {
    var acc' := BitOr(acc, ToU64(IntShl(data[pos] % 128, shift)));
    if data[pos] < 128 then acc' else LebGroups(data, pos + 1, shift + 7, acc')
  }

  function ULebAt(data: seq<Byte>, pos: nat): nat
    requires ULebDefined(data, pos)
  {
    LebGroups(data, pos, 0, 0)
  }

  function SLebAt(data: seq<Byte>, pos: nat): nat
    requires SLebDefined(data, pos)
  {
    var n := LebLength(data, pos);
    var groups := LebGroups(data, pos, 0, 0);
    if data[pos + n - 1] >= 64 then BitOr(groups, ToU64(IntShl(-1, 7 * n))) else groups
  }

  method ReadULEB128(data: seq<Byte>, pos: nat) returns (result: nat, next: nat)
    requires ULebDefined(data, pos)
    ensures result == ULebAt(data, pos) && next == pos + LebLength(data, pos)
  {
    hide BitOr, IntShl, Pow2;
    result := 0;
    var shift := 0;
    var p := pos;
    var byte := data[p];
    p := p + 1;
    result := BitOr(result, ToU64(IntShl(byte % 128, shift)));
    shift := shift + 7;
    while byte >= 128
      invariant pos < p <= |data| && byte == data[p - 1]
      invariant byte >= 128 ==> LebEnds(data, p) && p + LebLength(data, p) == pos + LebLength(data, pos)
      invariant byte >= 128 ==>
                  shift + 7 * LebLength(data, p) <= 38 && LebGroups(data, p, shift, result) == ULebAt(data, pos)
      invariant byte < 128 ==> p == pos + LebLength(data, pos) && result == ULebAt(data, pos)
      decreases |data| - p
    {
      byte := data[p];
      p := p + 1;
      result := BitOr(result, ToU64(IntShl(byte % 128, shift)));
      shift := shift + 7;
    }
    next := p;
  }

  method ReadSLEB128(data: seq<Byte>, pos: nat) returns (result: nat, next: nat)
    requires SLebDefined(data, pos)
    ensures result == SLebAt(data, pos) && next == pos + LebLength(data, pos)
  {
    hide BitOr, IntShl, Pow2;
    result := 0;
    var shift := 0;
    var p := pos;
    var byte := data[p];
    p := p + 1;
    result := BitOr(result, ToU64(IntShl(byte % 128, shift)));
    shift := shift + 7;
    while byte >= 128
      invariant pos < p <= |data| && byte == data[p - 1] && shift == 7 * (p - pos)
      invariant byte >= 128 ==> LebEnds(data, p) && p + LebLength(data, p) == pos + LebLength(data, pos)
      invariant byte >= 128 ==>
                  shift + 7 * LebLength(data, p) <= 38
                    && LebGroups(data, p, shift, result) == LebGroups(data, pos, 0, 0)
      invariant byte < 128 ==> p == pos + LebLength(data, pos) && result == LebGroups(data, pos, 0, 0)
      decreases |data| - p
    {
      byte := data[p];
      p := p + 1;
      result := BitOr(result, ToU64(IntShl(byte % 128, shift)));
      shift := shift + 7;
    }
    next := p;
    if byte >= 64 && shift < 64 {
      result := BitOr(result, ToU64(IntShl(-1, shift)));
    }
  }

  // ----- writing -----

  /** The shortest unsigned encoding. */
  function EncodeU(v: nat): (s: seq<Byte>)
    ensures |s| > 0
  {
    if v < 128 then [v] else [v % 128 + 128] + EncodeU(v / 128)
  }

  /** The shortest signed encoding: the sign is bit six of the last byte. */
  function EncodeS(v: int): (s: seq<Byte>)
    ensures |s| > 0
    decreases if v < 0 then -v else v
  {
    if -64 <= v < 64 then [v % 128] else [v % 128 + 128] + EncodeS(v / 128)
  }

  /** The examples of section 7.6 of DWARF 3. */
  lemma EncodingExamples()
    ensures EncodeU(2) == [2] && EncodeU(127) == [127] && EncodeU(128) == [0x80, 1] && EncodeU(129) == [0x81, 1]
    ensures EncodeU(12857) == [0xB9, 0x64]
    ensures EncodeS(2) == [2] && EncodeS(-2) == [0x7E] && EncodeS(127) == [0xFF, 0] && EncodeS(-127) == [0x81, 0x7F]
    ensures EncodeS(128) == [0x80, 1] && EncodeS(-128) == [0x80, 0x7F] && EncodeS(129) == [0x81, 1]
            && EncodeS(-129) == [0xFF, 0x7E]
  {
    assert EncodeU(129 / 128) == [1] && EncodeU(12857 / 128) == [0x64];
    assert EncodeS(127 / 128) == [0] && EncodeS(-127 / 128) == [0x7F] && EncodeS(-129 / 128) == [0x7E];
  }

  /** `part` stands in `data` at `pos`. */
  predicate Holds(data: seq<Byte>, pos: nat, part: seq<Byte>) {
    pos + |part| <= |data| && data[pos..pos + |part|] == part
  }

  lemma HoldsParts(data: seq<Byte>, pos: nat, a: seq<Byte>, b: seq<Byte>)
    requires Holds(data, pos, a + b)
    ensures Holds(data, pos, a) && Holds(data, pos + |a|, b)
  {
    assert data[pos..pos + |a|] == (a + b)[..|a|] == a;
    assert data[pos + |a|..pos + |a| + |b|] == (a + b)[|a|..] == b;
  }

  /** One group of bits: what the shift of a small value adds. */
  lemma ShiftedGroup(v: nat, c: nat, shift: nat)
    requires shift < 32 && c <= v && v * Pow2(shift) < 0x8000_0000
    ensures IntShl(c, shift) == c * Pow2(shift) && ToU64(IntShl(c, shift)) == c * Pow2(shift)
  {
    hide Pow2;
    SmallerProduct(v, c, Pow2(shift));
  }

  lemma SmallerProduct(v: nat, c: nat, p: nat)
    requires c <= v
    ensures 0 <= c * p <= v * p
  {
    assert v * p == c * p + (v - c) * p;
  }

  lemma {:induction false} Pow2Grows(m: nat, n: nat)
    requires m <= n
    ensures Pow2(m) <= Pow2(n)
    decreases n
  {
    if m < n {
      Pow2Grows(m, n - 1);
    }
  }

  lemma Pow2At31()
    ensures Pow2(31) == 0x8000_0000 && Pow2(7) == 128
  {
    assert Pow2(4) == 16 && Pow2(3) == 8;
    Pow2Plus(4, 3);
    Pow2Plus(4, 4);
    Pow2Plus(8, 7);
    Pow2Plus(8, 8);
    Pow2Plus(16, 15);
  }

  lemma SmallShift(v: nat, shift: nat)
    requires v >= 1 && v * Pow2(shift) < 0x8000_0000
    ensures shift <= 30
  {
    hide Pow2;
    Pow2At31();
    MulNat(v - 1, Pow2(shift));
    MulAdd(v - 1, 1, Pow2(shift));
    if shift >= 31 {
      Pow2Grows(31, shift);
    }
  }

  /** The lowest group of `v` and the rest of it, at scale `p`. */
  lemma SplitGroup(v: nat, p: nat)
    ensures v * p == (v % 128) * p + (v / 128) * (128 * p)
    ensures 0 <= (v % 128) * p <= 127 * p && (v / 128) * (128 * p) <= v * p
  {
    var c, w := v % 128, v / 128;
    MulAdd(c, 128 * w, p);
    MulScale(w, p);
    MulAdd(c, 127 - c, p);
    MulNat(c, p);
    MulNat(127 - c, p);
    MulNat(v, p);
  }

  lemma MulAdd(a: int, b: int, p: int)
    ensures (a + b) * p == a * p + b * p
  {
  }

  lemma MulScale(w: int, p: int)
    ensures (128 * w) * p == w * (128 * p)
  {
  }

  lemma MulNat(a: nat, p: nat)
    ensures a * p >= 0
  {
  }

  /** Reading a number on top of `acc`, as long as everything fits into 31 bits. */
  lemma {:induction false} GroupsOfEncoding(data: seq<Byte>, pos: nat, v: nat, shift: nat, acc: nat)
    requires Holds(data, pos, EncodeU(v)) && acc < Pow2(shift)
    requires shift % 7 == 0 && (v >= 1 || shift == 0) && v * Pow2(shift) < 0x8000_0000
    ensures LebEnds(data, pos) && LebLength(data, pos) == |EncodeU(v)| && shift + 7 * |EncodeU(v)| <= 38
    ensures LebGroups(data, pos, shift, acc) == acc + v * Pow2(shift)
    decreases v
  {
    hide Pow2, BitOr, IntShl;
    assert data[pos] == EncodeU(v)[0];
    if v >= 1 {
      SmallShift(v, shift);
    }
    var p := Pow2(shift);
    if v < 128 {
      ShiftedGroup(v, v, shift);
      BitOrDisjoint(acc, v, shift);
    } else {
      var c, w := v % 128, v / 128;
      HoldsParts(data, pos, [c + 128], EncodeU(w));
      SplitGroup(v, p);
      ShiftedGroup(v, c, shift);
      BitOrDisjoint(acc, c, shift);
      Pow2Plus(7, shift);
      Pow2At31();
      assert Pow2(shift + 7) == 128 * p;
      GroupsOfEncoding(data, pos + 1, w, shift + 7, acc + c * p);
    }
  }

  lemma FifthShift(c: nat) returns (m: nat)
    requires c < 128
    ensures m < 16 && (c < 8 ==> m == c)
    ensures IntShl(c, 28) == (if m < 8 then m else m - 16) * 0x1000_0000
  {
    Pow2At64();
    hide Pow2;
    m := c % 16;
    assert c * 0x1000_0000 == c / 16 * 0x1_0000_0000 + m * 0x1000_0000;
  }

  lemma FifthBits(acc: nat, m: nat)
    requires acc < 0x1000_0000 && m < 16
    ensures m < 8 ==> BitOr(acc, ToU64(m * 0x1000_0000)) == acc + m * 0x1000_0000
    ensures m >= 8 ==> U64 - 0x8000_0000 <= BitOr(acc, ToU64((m - 16) * 0x1000_0000)) < U64
  {
    Pow2At64();
    hide Pow2, BitOr;
    if m < 8 {
      BitOrDisjoint(acc, m, 28);
    } else {
      var high := ToU64((m - 16) * 0x1000_0000);
      assert high == U64 + (m - 16) * 0x1000_0000;
      BitOrAtLeast(acc, high);
      BitOrBelow(acc, high, 64);
    }
  }

  /** Bits 28 and up of the result come from the fifth byte, shifted as an int: its sign bit is copied
      into the upper half, and what lies above it is lost. */
  lemma FifthGroup(acc: nat, c: nat)
    requires acc < 0x1000_0000 && c < 128
    ensures c < 8 ==> BitOr(acc, ToU64(IntShl(c, 28))) == acc + c * 0x1000_0000
    ensures c >= 8 ==>
              var r := BitOr(acc, ToU64(IntShl(c, 28)));
              r < 0x8000_0000 || U64 - 0x8000_0000 <= r < U64
  {
    hide Pow2, BitOr, IntShl, ToU64;
    var m := FifthShift(c);
    FifthBits(acc, m);
  }

  /** One of the first four groups. */
  lemma LowGroup(data: seq<Byte>, pos: nat, shift: nat, acc: nat)
    requires LebEnds(data, pos) && shift + 7 * LebLength(data, pos) <= 38
    requires acc < Pow2(shift) && shift <= 21
    ensures BitOr(acc, ToU64(IntShl(data[pos] % 128, shift))) == acc + data[pos] % 128 * Pow2(shift)
    ensures acc + data[pos] % 128 * Pow2(shift) < Pow2(shift + 7)
    ensures data[pos] >= 128 ==>
              LebGroups(data, pos, shift, acc) ==
                LebGroups(data, pos + 1, shift + 7, acc + data[pos] % 128 * Pow2(shift))
  {
    hide Pow2, BitOr, IntShl;
    var c, p := data[pos] % 128, Pow2(shift);
    Pow2Grows(shift, 21);
    assert Pow2(21) == 0x20_0000 by {
      Pow2Plus(14, 7);
      Pow2Plus(7, 7);
      Pow2At31();
    }
    SplitGroup(127, p);
    MulAdd(c, 127 - c, p);
    MulNat(c, p);
    MulNat(127 - c, p);
    ShiftedGroup(127, c, shift);
    BitOrDisjoint(acc, c, shift);
    Pow2Plus(7, shift);
    Pow2At31();
  }

  /** In the middle of reading: `v` is still to come, `acc` has been read. */
  ghost predicate Reading(data: seq<Byte>, pos: nat, v: nat, shift: nat, acc: nat) {
    && Holds(data, pos, EncodeU(v)) && acc < Pow2(shift)
    && LebEnds(data, pos) && shift + 7 * LebLength(data, pos) <= 38
  }

  lemma ReadGroup(data: seq<Byte>, pos: nat, v: nat, shift: nat, acc: nat)
    requires Reading(data, pos, v, shift, acc) && v >= 128 && shift <= 21
    ensures Reading(data, pos + 1, v / 128, shift + 7, acc + v % 128 * Pow2(shift))
    ensures LebGroups(data, pos, shift, acc) == LebGroups(data, pos + 1, shift + 7, acc + v % 128 * Pow2(shift))
  {
    hide Pow2, BitOr, IntShl, LebGroups, LebLength, EncodeU, LebEnds, Holds;
    ManyGroups(data, pos, v);
    LowGroup(data, pos, shift, acc);
    LebStep(data, pos);
  }

  lemma ManyGroups(data: seq<Byte>, pos: nat, v: nat)
    requires Holds(data, pos, EncodeU(v)) && v >= 128
    ensures pos < |data| && data[pos] >= 128 && data[pos] % 128 == v % 128
    ensures Holds(data, pos + 1, EncodeU(v / 128))
  {
    FirstByte(data, pos, v);
    EncodeUStep(v);
    hide EncodeU;
    HoldsParts(data, pos, [v % 128 + 128], EncodeU(v / 128));
  }

  /** A number that takes five bytes and needs more than 31 bits is read wrongly. */
  lemma LongNumberIsWrong(data: seq<Byte>, pos: nat, v: nat)
    requires Holds(data, pos, EncodeU(v)) && ULebDefined(data, pos)
    requires 0x8000_0000 <= v < 0x8_0000_0000
    ensures ULebAt(data, pos) != v
    ensures ULebAt(data, pos) < 0x8000_0000 || U64 - 0x8000_0000 <= ULebAt(data, pos) < U64
  {
    hide BitOr, IntShl, Pow2, LebGroups, LebLength, EncodeU, Reading;
    var v1 := v / 128;
    var v2 := v1 / 128;
    var v3 := v2 / 128;
    var v4 := v3 / 128;
    Pow2Groups();
    GroupBounds(v);
    var a1 := v % 128;
    var a2 := a1 + v1 % 128 * 128;
    var a3 := a2 + v2 % 128 * 0x4000;
    var a4 := a3 + v3 % 128 * 0x20_0000;
    StartReading(data, pos, v);
    ReadGroup(data, pos, v, 0, 0);
    ReadGroup(data, pos + 1, v1, 7, a1);
    ReadGroup(data, pos + 2, v2, 14, a2);
    ReadGroup(data, pos + 3, v3, 21, a3);
    LastGroup(data, pos + 4, v4, 28, a4);
    FifthGroup(a4, v4);
  }

  lemma Pow2Groups()
    ensures Pow2(0) == 1 && Pow2(7) == 128 && Pow2(14) == 0x4000 && Pow2(21) == 0x20_0000
  {
    Pow2At31();
    Pow2Zero();
    Pow2Plus(7, 7);
    Pow2Plus(14, 7);
  }

  lemma GroupBounds(v: nat)
    requires 0x8000_0000 <= v < 0x8_0000_0000
    ensures v / 128 >= 128 && v / 128 / 128 >= 128 && v / 128 / 128 / 128 >= 128
    ensures 8 <= v / 128 / 128 / 128 / 128 < 128
  {
  }

  lemma StartReading(data: seq<Byte>, pos: nat, v: nat)
    requires Holds(data, pos, EncodeU(v)) && ULebDefined(data, pos)
    ensures Reading(data, pos, v, 0, 0)
  {
  }

  lemma EncodeUStep(v: nat)
    ensures EncodeU(v) == if v < 128 then [v] else [v % 128 + 128] + EncodeU(v / 128)
  {
  }

  lemma FirstByte(data: seq<Byte>, pos: nat, v: nat)
    requires Holds(data, pos, EncodeU(v))
    ensures data[pos] == if v < 128 then v else v % 128 + 128
  {
    assert data[pos] == EncodeU(v)[0];
  }

  lemma LastGroup(data: seq<Byte>, pos: nat, v: nat, shift: nat, acc: nat)
    requires Reading(data, pos, v, shift, acc) && v < 128
    ensures shift < 32
    ensures LebGroups(data, pos, shift, acc) == BitOr(acc, ToU64(IntShl(v, shift)))
  {
    FirstByte(data, pos, v);
  }

  lemma Pow2Zero()
    ensures Pow2(0) == 1
  {
  }

  lemma LebStep(data: seq<Byte>, pos: nat)
    requires LebEnds(data, pos) && data[pos] >= 128
    ensures LebEnds(data, pos + 1) && LebLength(data, pos) == 1 + LebLength(data, pos + 1)
  {
  }

  lemma {:induction false} EncodingEnds(data: seq<Byte>, pos: nat, v: nat)
    requires Holds(data, pos, EncodeU(v))
    ensures LebEnds(data, pos) && LebLength(data, pos) == |EncodeU(v)|
    decreases v
  {
    assert data[pos] == EncodeU(v)[0];
    if v >= 128 {
      HoldsParts(data, pos, [v % 128 + 128], EncodeU(v / 128));
      EncodingEnds(data, pos + 1, v / 128);
    }
  }

  lemma EncodeULength(v: nat)
    ensures |EncodeU(v)| <= 5 <==> v < 0x8_0000_0000
  {
    var v1 := v / 128;
    var v2 := v1 / 128;
    var v3 := v2 / 128;
    var v4 := v3 / 128;
    assert |EncodeU(v4)| <= 1 <==> v4 < 128;
    assert |EncodeU(v3)| <= 2 <==> v4 < 128;
    assert |EncodeU(v2)| <= 3 <==> v4 < 128;
    assert |EncodeU(v1)| <= 4 <==> v4 < 128;
  }

  /**
    Round trip, unsigned. A value that was encoded reads back, with nothing behind it touched,
    exactly if it is below 2^31; the int-typed shift makes larger ones undefined or wrong.
  */
  lemma ULebRoundTrip(data: seq<Byte>, pos: nat, v: nat)
    requires Holds(data, pos, EncodeU(v))
    ensures ULebDefined(data, pos) && ULebAt(data, pos) == v <==> v < 0x8000_0000
    ensures LebEnds(data, pos) && LebLength(data, pos) == |EncodeU(v)|
  {
    EncodingEnds(data, pos, v);
    EncodeULength(v);
    if v < 0x8000_0000 {
      GroupsOfEncoding(data, pos, v, 0, 0);
    } else if v < 0x8_0000_0000 {
      LongNumberIsWrong(data, pos, v);
    }
  }

  // ----- signed -----

  lemma {:induction false} SignedEncodingEnds(data: seq<Byte>, pos: nat, v: int)
    requires Holds(data, pos, EncodeS(v))
    ensures LebEnds(data, pos) && LebLength(data, pos) == |EncodeS(v)|
    ensures data[pos + LebLength(data, pos) - 1] >= 64 <==> v < 0
    decreases if v < 0 then -v else v
  {
    assert data[pos] == EncodeS(v)[0];
    if !(-64 <= v < 64) {
      HoldsParts(data, pos, [v % 128 + 128], EncodeS(v / 128));
      SignedEncodingEnds(data, pos + 1, v / 128);
    }
  }

  lemma EncodeSLength(v: int)
    ensures |EncodeS(v)| <= 4 <==> -0x800_0000 <= v < 0x800_0000
    ensures |EncodeS(v)| <= 5 <==> -0x4_0000_0000 <= v < 0x4_0000_0000
  {
    var v1 := v / 128;
    var v2 := v1 / 128;
    var v3 := v2 / 128;
    var v4 := v3 / 128;
    assert |EncodeS(v4)| <= 1 <==> -64 <= v4 < 64;
    assert |EncodeS(v3)| <= 1 <==> -64 <= v3 < 64;
    assert |EncodeS(v3)| <= 2 <==> -64 <= v4 < 64;
    assert |EncodeS(v2)| <= 2 <==> -64 <= v3 < 64;
    assert |EncodeS(v2)| <= 3 <==> -64 <= v4 < 64;
    assert |EncodeS(v1)| <= 3 <==> -64 <= v3 < 64;
    assert |EncodeS(v1)| <= 4 <==> -64 <= v4 < 64;
  }

  lemma EncodeSStep(v: int)
    ensures EncodeS(v) == if -64 <= v < 64 then [v % 128] else [v % 128 + 128] + EncodeS(v / 128)
  {
  }

  /** The groups of a signed number: the number itself, or what it lacks to the next power of two. */
  function Unsigned(v: int, n: nat): int {
    if v >= 0 then v else v + Pow2(7 * n)
  }

  /** One group, and the rest above it. */
  lemma SplitSigned(v: int, n: nat, shift: nat)
    ensures Unsigned(v, n + 1) * Pow2(shift) == v % 128 * Pow2(shift) + Unsigned(v / 128, n) * Pow2(shift + 7)
    ensures v >= 0 ==> v / 128 * Pow2(shift + 7) <= v * Pow2(shift)
  {
    hide Pow2;
    var c, w, p := v % 128, v / 128, Pow2(shift);
    Pow2At31();
    Pow2Plus(7, shift);
    assert Pow2(shift + 7) == 128 * p;
    assert 7 * (n + 1) == 7 + 7 * n;
    Pow2Plus(7, 7 * n);
    var u := Unsigned(w, n);
    assert Unsigned(v, n + 1) == c + 128 * u;
    MulAdd(c, 128 * u, p);
    MulScale(u, p);
    MulAdd(c, 128 * w, p);
    MulScale(w, p);
    MulNat(c, p);
  }

  lemma {:induction false} SignedGroups(data: seq<Byte>, pos: nat, v: int, shift: nat, acc: nat)
    requires Holds(data, pos, EncodeS(v)) && acc < Pow2(shift)
    requires LebEnds(data, pos) && LebLength(data, pos) == |EncodeS(v)| && shift + 7 * |EncodeS(v)| <= 35
    requires v >= 0 ==> v * Pow2(shift) < 0x8000_0000
    requires v < 0 ==> shift + 7 * |EncodeS(v)| <= 28
    ensures LebGroups(data, pos, shift, acc) == acc + Unsigned(v, |EncodeS(v)|) * Pow2(shift)
    decreases if v < 0 then -v else v
  {
    hide Pow2, BitOr, IntShl, EncodeS;
    EncodeSStep(v);
    if -64 <= v < 64 {
      LastSignedGroup(data, pos, v, shift, acc);
    } else {
      var c, w, n := v % 128, v / 128, |EncodeS(v / 128)|;
      FirstOf(data, pos, EncodeS(v));
      hide LebGroups;
      HoldsParts(data, pos, [c + 128], EncodeS(w));
      LebStep(data, pos);
      LowGroup(data, pos, shift, acc);
      SplitSigned(v, n, shift);
      hide Unsigned, LebLength, LebEnds, Holds;
      SignedGroups(data, pos + 1, w, shift + 7, acc + c * Pow2(shift));
    }
  }

  lemma FirstOf(data: seq<Byte>, pos: nat, s: seq<Byte>)
    requires Holds(data, pos, s) && s != []
    ensures pos < |data| && data[pos] == s[0]
  {
    assert data[pos..pos + |s|][0] == s[0];
  }

  lemma LastSignedGroup(data: seq<Byte>, pos: nat, v: int, shift: nat, acc: nat)
    requires -64 <= v < 64 && Holds(data, pos, [v % 128]) && acc < Pow2(shift) && LebEnds(data, pos)
    requires v >= 0 ==> shift + 7 <= 35 && v * Pow2(shift) < 0x8000_0000
    requires v < 0 ==> shift + 7 <= 28
    ensures LebGroups(data, pos, shift, acc) == acc + Unsigned(v, 1) * Pow2(shift)
  {
    hide Pow2, BitOr, IntShl;
    FirstOf(data, pos, [v % 128]);
    Pow2At31();
    if v >= 0 {
      ShiftedGroup(v, v, shift);
      BitOrDisjoint(acc, v, shift);
    } else {
      LowGroup(data, pos, shift, acc);
      assert data[pos] == v + 128 == Unsigned(v, 1);
    }
  }

  lemma Pow2At64()
    ensures Pow2(64) == U64 && Pow2(28) == 0x1000_0000
  {
    hide Pow2;
    Pow2At31();
    Pow2Plus(7, 7);
    Pow2Plus(14, 14);
    assert Pow2(4) == 16 by { Pow2AtFour(); }
    Pow2Plus(28, 4);
    Pow2Plus(32, 32);
  }

  lemma Pow2AtFour()
    ensures Pow2(4) == 16
  {
  }

  /** A set sign bit in the last of at most four bytes fills all higher bits. */
  lemma SignExtends(g: nat, n: nat)
    requires n <= 4 && g < Pow2(7 * n)
    ensures BitOr(g, ToU64(IntShl(-1, 7 * n))) == g + U64 - Pow2(7 * n)
  {
    hide Pow2, BitOr;
    var p: int := Pow2(7 * n);
    Pow2At64();
    Pow2Grows(7 * n, 28);
    assert IntShl(-1, 7 * n) == -p;
    var k := Pow2(64 - 7 * n) - 1;
    Pow2Plus(64 - 7 * n, 7 * n);
    MulAdd(k, 1, p);
    assert ToU64(-p) == U64 - p == k * p;
    BitOrDisjoint(g, k, 7 * n);
  }

  /** A positive number that needs the fifth byte for more than 31 bits is read wrongly. */
  lemma LongPositiveIsWrong(data: seq<Byte>, pos: nat, v: nat)
    requires Holds(data, pos, EncodeS(v)) && SLebDefined(data, pos)
    requires 0x8000_0000 <= v < 0x4_0000_0000
    ensures ToS64(SLebAt(data, pos)) != v
  {
    hide BitOr, IntShl, Pow2, LebGroups;
    SignedEncodingEnds(data, pos, v);
    SameAsUnsigned(v);
    LongNumberIsWrong(data, pos, v);
  }

  lemma SameAsUnsigned(v: nat)
    requires 0x8000_0000 <= v < 0x4_0000_0000
    ensures EncodeS(v) == EncodeU(v)
  {
    var v1 := v / 128;
    var v2 := v1 / 128;
    var v3 := v2 / 128;
    var v4 := v3 / 128;
    assert v3 >= 128 && v4 < 64;
    assert EncodeS(v4) == EncodeU(v4);
    assert EncodeS(v3) == EncodeU(v3);
    assert EncodeS(v2) == EncodeU(v2);
    assert EncodeS(v1) == EncodeU(v1);
  }

  lemma {:induction false} GroupsHave64Bits(data: seq<Byte>, pos: nat, shift: nat, acc: nat)
    requires LebEnds(data, pos) && shift + 7 * LebLength(data, pos) <= 38 && acc < U64
    ensures LebGroups(data, pos, shift, acc) < U64
    decreases |data| - pos
  {
    hide BitOr, IntShl, Pow2;
    var group := ToU64(IntShl(data[pos] % 128, shift));
    Pow2At64();
    BitOrBelow(acc, group, 64);
    if data[pos] >= 128 {
      GroupsHave64Bits(data, pos + 1, shift + 7, BitOr(acc, group));
    }
  }

  /** What is read has 64 bits. */
  lemma SLebBelow(data: seq<Byte>, pos: nat)
    requires SLebDefined(data, pos)
    ensures SLebAt(data, pos) < U64
  {
    hide BitOr, IntShl, Pow2, LebGroups;
    GroupsHave64Bits(data, pos, 0, 0);
    var n := LebLength(data, pos);
    if data[pos + n - 1] >= 64 {
      Pow2At64();
      BitOrBelow(LebGroups(data, pos, 0, 0), ToU64(IntShl(-1, 7 * n)), 64);
    }
  }

  /**
    Round trip, signed. A value that was encoded reads back exactly if it lies in [-2^27, 2^31): below,
    the sign would have to be spread by a shift of 35 bits in an int, which is undefined.
  */
  lemma SLebRoundTrip(data: seq<Byte>, pos: nat, v: int)
    requires Holds(data, pos, EncodeS(v))
    ensures SLebDefined(data, pos) && ToS64(SLebAt(data, pos)) == v <==> -0x800_0000 <= v < 0x8000_0000
    ensures LebEnds(data, pos) && LebLength(data, pos) == |EncodeS(v)|
  {
    hide BitOr, IntShl, Pow2, LebGroups, LebLength;
    SignedEncodingEnds(data, pos, v);
    EncodeSLength(v);
    Pow2Zero();
    if 0x8000_0000 <= v < 0x4_0000_0000 {
      LongPositiveIsWrong(data, pos, v);
    } else if -0x800_0000 <= v < 0x8000_0000 {
      var n := |EncodeS(v)|;
      SignedGroups(data, pos, v, 0, 0);
      if v < 0 {
        GroupsBelow(v, n);
        SignExtends(v + Pow2(7 * n), n);
        Pow2At64();
        Pow2Grows(7 * n, 28);
      }
    }
  }

  /** The groups of a negative number are not negative. */
  lemma {:induction false} GroupsBelow(v: int, n: nat)
    requires v < 0 && n == |EncodeS(v)|
    ensures 0 <= v + Pow2(7 * n) < Pow2(7 * n)
    decreases -v
  {
    hide Pow2;
    Pow2At31();
    if v < -64 {
      var w := v / 128;
      GroupsBelow(w, n - 1);
      Pow2Plus(7, 7 * (n - 1));
      assert 7 * n == 7 + 7 * (n - 1);
    }
  }

  // ----- many numbers -----

  function EncodeAll(vs: seq<nat>): seq<Byte> {
    if vs == [] then [] else EncodeU(vs[0]) + EncodeAll(vs[1..])
  }

  /** Reading `n` numbers, one behind the other: the values, and where the last one ends. */
  function ReadMany(data: seq<Byte>, pos: nat, n: nat): Option<(seq<nat>, nat)>
    decreases n
  {
    if n == 0 then Some(([], pos))
    else if !ULebDefined(data, pos) then None
    else
      match ReadMany(data, pos + LebLength(data, pos), n - 1)
      case None => None
      case Some((rest, end)) => Some(([ULebAt(data, pos)] + rest, end))
  }

  /** Numbers written one behind the other read back as those numbers. */
  lemma {:induction false} ManyRoundTrip(data: seq<Byte>, pos: nat, vs: seq<nat>)
    requires Holds(data, pos, EncodeAll(vs))
    requires forall i :: 0 <= i < |vs| ==> vs[i] < 0x8000_0000
    ensures ReadMany(data, pos, |vs|) == Some((vs, pos + |EncodeAll(vs)|))
    decreases |vs|
  {
    hide ULebDefined, ULebAt, LebLength, LebEnds, EncodeU;
    if vs != [] {
      HoldsParts(data, pos, EncodeU(vs[0]), EncodeAll(vs[1..]));
      ULebRoundTrip(data, pos, vs[0]);
      ManyRoundTrip(data, pos + |EncodeU(vs[0])|, vs[1..]);
      assert vs == [vs[0]] + vs[1..];
    }
  }
}
