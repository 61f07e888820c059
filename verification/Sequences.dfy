/** Facts about concatenation, named so that proofs can apply them one at a time. */
module Sequences {

  lemma Assoc<T>(a: seq<T>, b: seq<T>, c: seq<T>)
    ensures a + b + c == a + (b + c)
  {}

  lemma LeftUnit<T>(a: seq<T>)
    ensures [] + a == a
  {}

  lemma RightUnit<T>(a: seq<T>)
    ensures a + [] == a
  {}

  lemma HeadTail<T>(a: seq<T>)
    requires a != []
    ensures a == [a[0]] + a[1..]
  {}

  lemma Parts<T>(a: seq<T>, k: nat)
    requires k <= |a|
    ensures a == a[..k] + a[k..]
  {}

  lemma Slice<T>(a: seq<T>, i: nat, j: nat)
    requires i <= j <= |a|
    ensures a[i..] == a[i..j] + a[j..]
  {}

  lemma PartsOfConcat<T>(a: seq<T>, b: seq<T>)
    ensures (a + b)[..|a|] == a && (a + b)[|a|..] == b
  {}

  lemma ConsTail<T>(x: T, a: seq<T>)
    ensures ([x] + a)[1..] == a && ([x] + a)[0] == x
  {}

  lemma DropStep<T>(a: seq<T>, i: nat)
    requires i < |a|
    ensures a[i..] == [a[i]] + a[i + 1..] && a[i..][0] == a[i] && a[i..][1..] == a[i + 1..]
  {}

  lemma TakeStep<T>(a: seq<T>, i: nat)
    requires i < |a|
    ensures a[..i + 1] == a[..i] + [a[i]]
  {}

  lemma ConcatHead<T>(a: seq<T>, b: seq<T>)
    requires a != []
    ensures (a + b)[0] == a[0] && (a + b)[1..] == a[1..] + b
  {}

  lemma TakeTake<T>(a: seq<T>, m: nat, n: nat)
    requires n <= m <= |a|
    ensures a[..m][..n] == a[..n]
  {}

  lemma SliceOfConcat<T>(a: seq<T>, b: seq<T>, i: nat, j: nat)
    requires i <= j <= |a|
    ensures (a + b)[i..j] == a[i..j]
  {}

  lemma DropDrop<T>(a: seq<T>, i: nat, j: nat)
    requires i + j <= |a|
    ensures a[i..][j..] == a[i + j..] && a[i..][..j] == a[i..i + j]
  {}

  lemma Cut<T>(a: seq<T>, i: nat, j: nat, k: nat)
    requires i <= j <= k <= |a|
    ensures a[i..k] == a[i..j] + a[j..k]
  {}

  lemma SliceSlice<T>(a: seq<T>, i: nat, j: nat, m: nat, n: nat)
    requires i <= j <= |a| && m <= n <= j - i
    ensures a[i..j][m..n] == a[i + m..i + n]
  {
    forall k | 0 <= k < n - m
      ensures a[i..j][m..n][k] == a[i + m..i + n][k]
    {
      assert a[i..j][m + k] == a[i + (m + k)];
    }
    assert a[i..j][m..n] == a[i + m..i + n];
  }
}
