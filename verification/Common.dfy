/** Wrappers and arithmetic shared by every module. */
module Common {
  datatype Option<+T> = None | Some(value: T)

  datatype Result<T, E> = Ok(value: T) | Err(error: E)

  type Byte = b: int | 0 <= b < 256

  predicate AllZero(bytes: seq<Byte>) {
    forall i :: 0 <= i < |bytes| ==> bytes[i] == 0
  }

  function Zeros(n: nat): (z: seq<Byte>)
    ensures |z| == n && AllZero(z)
  {
    if n == 0 then [] else [0] + Zeros(n - 1)
  }

  function Max(a: nat, b: nat): nat {
    if a < b then b else a
  }

  function Min(a: nat, b: nat): nat {
    if a < b then a else b
  }

  /** Rust's `saturating_sub` on unsigned integers. */
  function SaturatingSub(a: nat, b: nat): nat {
    if a < b then 0 else a - b
  }

  lemma SubsetCardinality<T>(small: set<T>, big: set<T>)
    requires small <= big
    ensures |small| <= |big|
  {
    assert big == small + (big - small);
  }

  /** The set `{0, …, n-1}`, used to count replicas. */
  ghost function Below(n: nat): (s: set<nat>)
    ensures |s| == n
    ensures forall i: nat :: i in s <==> i < n
  {
    if n == 0 then {} else Below(n - 1) + {n - 1}
  }

  /** Two subsets of `n` elements whose sizes sum above `n` share an element. */
  lemma QuorumsIntersect(a: set<nat>, b: set<nat>, n: nat)
    requires a <= Below(n) && b <= Below(n)
    requires |a| + |b| > n
    ensures exists i :: i in a && i in b
  {
    SubsetCardinality(a + b, Below(n));
    assert |a + b| == |a| + |b| - |a * b|;
    var i :| i in a * b;
    assert i in a && i in b;
  }
}
