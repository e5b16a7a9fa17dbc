/** Shared vocabulary: optional values, fixed-width integer bounds, counting lemmas. */
module Common {

  datatype Option<+T> = None | Some(value: T)

  datatype Result<+T, +E> = Ok(value: T) | Err(error: E)

  const U32_MAX: nat := 0xFFFF_FFFF
  const U64_MAX: nat := 0xFFFF_FFFF_FFFF_FFFF
  const U128_MAX: nat := 0xFFFF_FFFF_FFFF_FFFF_FFFF_FFFF_FFFF_FFFF

  function Min(a: int, b: int): int {
    if a <= b then a else b
  }

  function Max(a: int, b: int): int {
    if a >= b then a else b
  }

  /** The value a `u64` counter holds after `n` saturating increments from zero. */
  function Saturated(n: nat): nat {
    Min(n, U64_MAX)
  }

  lemma MulMonotone(a: int, b: int, c: nat)
    requires a <= b
    ensures a * c <= b * c
  {
  }

  /** The last `n` elements, or all when there are fewer. */
  function LastOf<T>(s: seq<T>, n: nat): seq<T> {
    if |s| <= n then s else s[|s| - n..]
  }

  lemma SliceOfSlice<T>(s: seq<T>, lo: nat, hi: nat, i: nat, j: nat)
    requires lo <= hi <= |s| && i <= j <= hi - lo
    ensures s[lo..hi][i..j] == s[lo + i..lo + j]
  {
    var view := s[lo..hi];
    forall k | 0 <= k < j - i ensures view[i..j][k] == s[lo + i..lo + j][k] {
    }
  }

  /** Distinct values drawn from a finite set are at most as many as its elements. */
  lemma {:induction false} DistinctValuesBounded<T>(f: nat -> T, n: nat, s: set<T>)
    requires forall i | 0 <= i < n :: f(i) in s
    requires forall i, j | 0 <= i < j < n :: f(i) != f(j)
    ensures n <= |s|
  {
    if n != 0 {
      forall i | 0 <= i < n - 1 ensures f(i) in s - {f(n - 1)} {
        assert f(i) != f(n - 1);
      }
      DistinctValuesBounded(f, n - 1, s - {f(n - 1)});
    }
  }

  /** The sum of `f` over a finite set. */
  ghost function SumOver<T>(s: set<T>, f: T -> nat): nat {
    if s == {} then 0 else
    var x :| x in s;
    f(x) + SumOver(s - {x}, f)
  }

  lemma {:induction false} SumWithout<T>(s: set<T>, f: T -> nat, x: T)
    requires x in s
    ensures SumOver(s, f) == f(x) + SumOver(s - {x}, f)
  {
    var y :| y in s && SumOver(s, f) == f(y) + SumOver(s - {y}, f);
    if y != x {
      SumWithout(s - {y}, f, x);
      SumWithout(s - {x}, f, y);
      assert s - {x} - {y} == s - {y} - {x};
    }
  }

  lemma {:induction false} SameSum<T>(s: set<T>, f: T -> nat, g: T -> nat)
    requires forall x | x in s :: f(x) == g(x)
    ensures SumOver(s, f) == SumOver(s, g)
  {
    if s != {} {
      var x :| x in s;
      SumWithout(s, f, x);
      SumWithout(s, g, x);
      SameSum(s - {x}, f, g);
    }
  }
}
