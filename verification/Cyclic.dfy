/** A vector read cyclically from a cursor. */
module Cyclic {

  function Rot<T>(s: seq<T>, p: nat): (r: seq<T>)
    requires p <= |s|
    ensures |r| == |s|
  {
    s[p..] + s[..p]
  }

  function Without<T>(s: seq<T>, i: nat): (r: seq<T>)
    requires i < |s|
    ensures |r| == |s| - 1
  {
    s[..i] + s[i + 1..]
  }

  ghost predicate InRange(p: nat, n: nat) {
    if n == 0 then p == 0 else p < n
  }

  ghost predicate IsFirst<T>(s: seq<T>, x: T, i: nat) {
    i < |s| && s[i] == x && forall k | 0 <= k < i :: s[k] != x
  }

  /** Where the cursor goes past the element it is on, and when element i of n is erased. */
  function Next(p: nat, n: nat): nat {
    if p + 1 >= n then 0 else p + 1
  }

  function AfterErase(p: nat, i: nat, n: nat): nat
    requires i < n
  {
    if i < p then p - 1 else if p >= n - 1 then 0 else p
  }

  /** Where the reading from p comes to element i. */
  function PlaceInReading(i: nat, p: nat, n: nat): nat
    requires i < n && p <= n
  {
    if i >= p then i - p else n - p + i
  }

  /** Erasing takes one element out of the cyclic reading and leaves the others as they were. */
  lemma EraseKeepsReading<T>(s: seq<T>, p: nat, i: nat)
    requires i < |s| && p < |s|
    ensures InRange(AfterErase(p, i, |s|), |s| - 1)
    ensures Rot(Without(s, i), AfterErase(p, i, |s|)) == Without(Rot(s, p), PlaceInReading(i, p, |s|))
  {
    var q := AfterErase(p, i, |s|);
    if i < p {
      assert Without(s, i)[q..] == s[p..];
      assert Without(s, i)[..q] == s[..i] + s[i + 1..p];
    } else if p < |s| - 1 {
      assert Without(s, i)[q..] == s[p..i] + s[i + 1..];
      assert Without(s, i)[..q] == s[..p];
    }
  }

  /** The element under the cursor is changed and goes to the end of the reading. */
  lemma StepReading<T>(s: seq<T>, p: nat, x: T)
    requires p < |s|
    ensures InRange(Next(p, |s|), |s|)
    ensures Rot(s[p := x], Next(p, |s|)) == Rot(s, p)[1..] + [x]
  {
  }
}
