// Small definitions shared by the kernel models.
module Basics {

  datatype Option<+T> = None | Some(value: T)

  // Threads, CPUs and wait queues are known by their identity only.
  type Tid = nat

  const PAGE: nat := 0x1000
  const WORD32: nat := 0x1_0000_0000

  // `s` with its first occurrence of `x` taken out; `s` itself when there is none.
  function Without<T(==)>(s: seq<T>, x: T): (r: seq<T>)
    ensures multiset(r) == multiset(s) - multiset{x}
    ensures x !in s ==> r == s
    ensures |r| <= |s|
  {
    if s == [] then []
    else if s[0] == x then
      assert s == [s[0]] + s[1..];
      s[1..]
    else
      assert s == [s[0]] + s[1..];
      [s[0]] + Without(s[1..], x)
  }

  lemma WithoutIn<T>(s: seq<T>, x: T, u: T)
    requires u in Without(s, x)
    ensures u in s
  {
    assert u in multiset(Without(s, x));
  }

  // Taking out some other element moves an element towards the end of the
  // sequence or leaves its distance to the end alone, never away from it.
  lemma {:induction false} WithoutDistance<T>(s: seq<T>, x: T, j: nat) returns (k: nat)
    requires j < |s| && s[j] != x
    ensures k < |Without(s, x)| && Without(s, x)[k] == s[j]
    ensures |Without(s, x)| - k <= |s| - j
  {
    if s[0] == x {
      k := j - 1;
    } else if j == 0 {
      k := 0;
    } else {
      var k' := WithoutDistance(s[1..], x, j - 1);
      k := k' + 1;
    }
  }
}
