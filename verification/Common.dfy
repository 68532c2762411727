/** Small notions that several models share. */
module Common {

  datatype Option<T> = None | Some(value: T)

  function Min(a: nat, b: nat): (m: nat)
    ensures m <= a && m <= b && (m == a || m == b)
  {
    if a < b then a else b
  }

  function Max(a: nat, b: nat): (m: nat)
    ensures m >= a && m >= b && (m == a || m == b)
  {
    if a < b then b else a
  }

  /** n, or the nearest number in lo .. hi - 1. */
  function Clamp(lo: int, n: int, hi: int): (r: int)
    requires lo < hi
    ensures lo <= r < hi && (lo <= n < hi ==> r == n) && (n < lo ==> r == lo) && (n >= hi ==> r == hi - 1)
  {
    if n < lo then lo else if n >= hi then hi - 1 else n
  }

  /** A slice of a slice. */
  lemma {:induction false} SliceOfSlice<T>(v: seq<T>, a: nat, b: nat, i: nat, j: nat)
    requires a <= b <= |v| && i <= j <= b - a
    ensures v[a..b][i..j] == v[a + i..a + j]
  {
    var (s, t) := (v[a..b][i..j], v[a + i..a + j]);
    forall k | 0 <= k < j - i
      ensures s[k] == t[k]
    {
      assert s[k] == v[a..b][i + k] == v[a + (i + k)];
      assert t[k] == v[(a + i) + k];
    }
    assert |s| == |t| == j - i;
  }

  ghost predicate Distinct<T(!new)>(s: seq<T>) {
    forall j, k :: 0 <= j < k < |s| ==> s[j] != s[k]
  }
}
