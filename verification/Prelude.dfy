/** Types and sums shared by every component of the model. */
module Prelude {

  datatype Option<+T> = None | Some(value: T)

  newtype byte = x: int | 0 <= x < 256

  const U32_MAX: nat := 0xFFFF_FFFF

  const USIZE_MAX: nat := 0xFFFF_FFFF_FFFF_FFFF

  /** The sum of a sequence of integers. */
  ghost function Total(t: seq<int>): int {
    if |t| == 0 then 0 else Total(t[..|t| - 1]) + t[|t| - 1]
  }

  lemma {:induction false} TotalUpdate(t: seq<int>, i: nat, x: int)
    requires i < |t|
    ensures Total(t[i := x]) == Total(t) - t[i] + x
  {
    var n := |t| - 1;
    if i == n {
      assert t[i := x][..n] == t[..n];
    } else {
      TotalUpdate(t[..n], i, x);
      assert t[i := x][..n] == t[..n][i := x];
    }
  }

  lemma TotalAppend(t: seq<int>, x: int)
    ensures Total(t + [x]) == Total(t) + x
  {
    assert (t + [x])[..|t|] == t;
  }

  lemma {:induction false} TotalNonNegative(t: seq<int>)
    requires forall k :: 0 <= k < |t| ==> t[k] >= 0
    ensures Total(t) >= 0
  {
    if |t| != 0 {
      TotalNonNegative(t[..|t| - 1]);
    }
  }

  /** A sum of non-negative terms is at least any two of its terms together. */
  lemma TotalAtLeastTwo(t: seq<int>, i: nat, j: nat)
    requires forall k :: 0 <= k < |t| ==> t[k] >= 0
    requires i < |t| && j < |t| && i != j
    ensures Total(t) >= t[i] + t[j]
  {
    TotalUpdate(t, i, 0);
    TotalUpdate(t[i := 0], j, 0);
    TotalNonNegative(t[i := 0][j := 0]);
  }

  lemma {:induction false} TotalAdd(t: seq<int>, u: seq<int>, v: seq<int>)
    requires |t| == |u| == |v|
    requires forall k :: 0 <= k < |t| ==> v[k] == t[k] + u[k]
    ensures Total(v) == Total(t) + Total(u)
  {
    if |t| != 0 {
      var n := |t| - 1;
      TotalAdd(t[..n], u[..n], v[..n]);
    }
  }

  lemma {:induction false} TotalZero(t: seq<int>)
    requires forall k :: 0 <= k < |t| ==> t[k] == 0
    ensures Total(t) == 0
  {
    if |t| != 0 {
      TotalZero(t[..|t| - 1]);
    }
  }

  function RemoveAt<T>(s: seq<T>, i: nat): seq<T>
    requires i < |s|
  {
    s[..i] + s[i + 1..]
  }

  ghost function Pow2(n: nat): nat {
    if n == 0 then 1 else 2 * Pow2(n - 1)
  }
}
