/** Types and functions shared by the models. */
module Common {

  datatype Option<+T> = None | Some(value: T)

  /** One octet, as a number. */
  type Byte = x: int | 0 <= x < 256

  /** 2^64: unsigned 64-bit arithmetic wraps around there. */
  const U64: nat := 0x1_0000_0000_0000_0000

  type Thread = nat

  /** How many of the elements of `s` are `x`. */
  function Count<T(==)>(s: seq<T>, x: T): nat {
    if s == [] then 0 else Count(s[..|s| - 1], x) + (if s[|s| - 1] == x then 1 else 0)
  }

  /** The elements of a set, in some order. */
  method Elements<T(==)>(s: set<T>) returns (keys: seq<T>)
    ensures forall x :: x in keys <==> x in s
    ensures forall i, j :: 0 <= i < j < |keys| ==> keys[i] != keys[j]
  {
    keys := [];
    var rest := s;
    while rest != {}
      invariant rest <= s
      invariant forall x :: x in keys <==> x in s && x !in rest
      invariant forall i, j :: 0 <= i < j < |keys| ==> keys[i] != keys[j]
      decreases |rest|
    {
      var x :| x in rest;
      keys := keys + [x];
      rest := rest - {x};
    }
  }
}
