/** Machine words and small containers shared by the whole model. */
module Basics {
  datatype Option<+T> = None | Some(value: T)

  /** The result of a C++ fragment: a value, or undefined behaviour. */
  datatype Outcome<+T> = Undefined | Done(value: T)

  const TWO31 := 0x8000_0000
  const TWO32 := 0x1_0000_0000

  /** An unsigned 32-bit word. */
  type Uint32 = x: int | 0 <= x < TWO32

  /** Conversion of an unsigned 32-bit word to a signed one. */
  function ToInt32(x: Uint32): (r: int)
    ensures -TWO31 <= r < TWO31
    ensures r % TWO32 == x
  {
    if x < TWO31 then x else x - TWO32
  }

  /** Unsigned 32-bit wrap-around. */
  function Wrap32(x: int): Uint32 {
    x % TWO32
  }

  lemma {:induction false} WrapAdd(a: int, b: int)
    ensures Wrap32(Wrap32(a) + b) == Wrap32(a + b)
  {
  }

  lemma {:induction false} WrapSmall(a: int)
    requires 0 <= a < TWO32
    ensures Wrap32(a) == a
  {
  }

  const DAY_SEC := 86400
  const DAY_MIN := 1440

  ghost predicate NoDup<T>(s: seq<T>) {
    forall i, j :: 0 <= i < j < |s| ==> s[i] != s[j]
  }

  /** The first position of x, or the length. */
  function IndexOf<T(==)>(s: seq<T>, x: T): (i: nat)
    ensures i <= |s|
    ensures i < |s| ==> s[i] == x
    ensures forall j :: 0 <= j < i ==> s[j] != x
  {
    if s == [] then 0 else if s[0] == x then 0 else 1 + IndexOf(s[1..], x)
  }

  /** The elements at the positions c. */
  function Picked<T>(a: seq<T>, c: seq<int>): (w: seq<T>)
    requires forall i :: 0 <= i < |c| ==> 0 <= c[i] < |a|
    ensures |w| == |c|
  {
    seq(|c|, i requires 0 <= i < |c| => a[c[i]])
  }
}
