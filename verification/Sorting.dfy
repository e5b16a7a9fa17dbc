/** Total orders and the stable sort of the standard library. */
module Sorting {

  ghost predicate TotalPreorder<T(!new)>(le: (T, T) -> bool) {
    && (forall x, y :: le(x, y) || le(y, x))
    && (forall x, y, z :: le(x, y) && le(y, z) ==> le(x, z))
  }

  ghost predicate Sorted<T>(le: (T, T) -> bool, s: seq<T>) {
    forall i, j | 0 <= i < j < |s| :: le(s[i], s[j])
  }

  /** Put `x` behind every element that may stand before it. */
  function InsertLast<T>(le: (T, T) -> bool, s: seq<T>, x: T): (r: seq<T>)
    ensures |r| == |s| + 1
  {
    if s == [] then [x]
    else if le(s[|s| - 1], x) then s + [x]
    else InsertLast(le, s[..|s| - 1], x) + [s[|s| - 1]]
  }

  function StableSort<T>(le: (T, T) -> bool, s: seq<T>): (r: seq<T>)
    ensures |r| == |s|
  {
    if s == [] then [] else InsertLast(le, StableSort(le, s[..|s| - 1]), s[|s| - 1])
  }

  /** The elements of `s` that are tied with `k`, in order. */
  function Ties<T>(le: (T, T) -> bool, s: seq<T>, k: T): seq<T> {
    if s == [] then [] else
    var x := s[|s| - 1];
    Ties(le, s[..|s| - 1], k) + if le(x, k) && le(k, x) then [x] else []
  }

  lemma {:induction false} InsertLastIsPermutation<T>(le: (T, T) -> bool, s: seq<T>, x: T)
    ensures multiset(InsertLast(le, s, x)) == multiset(s) + multiset{x}
  {
    if s != [] && !le(s[|s| - 1], x) {
      InsertLastIsPermutation(le, s[..|s| - 1], x);
      assert s == s[..|s| - 1] + [s[|s| - 1]];
    }
  }

  lemma {:induction false} InsertLastIsSorted<T(!new)>(le: (T, T) -> bool, s: seq<T>, x: T)
    requires TotalPreorder(le) && Sorted(le, s)
    ensures Sorted(le, InsertLast(le, s, x))
  {
    if s != [] {
      var last := s[|s| - 1];
      if le(last, x) {
        forall i | 0 <= i < |s| ensures le(s[i], x) {
          assert i < |s| - 1 ==> le(s[i], last);
        }
      } else {
        var front := s[..|s| - 1];
        InsertLastIsSorted(le, front, x);
        InsertLastIsPermutation(le, front, x);
        var r := InsertLast(le, front, x);
        forall i | 0 <= i < |r| ensures le(r[i], last) {
          assert r[i] in multiset(r);
          if r[i] != x {
            assert r[i] in multiset(front);
            var j :| 0 <= j < |front| && front[j] == r[i];
            assert s[j] == r[i];
          }
        }
      }
    }
  }

  lemma {:induction false} InsertLastKeepsTies<T(!new)>(le: (T, T) -> bool, s: seq<T>, x: T, k: T)
    requires TotalPreorder(le) && Sorted(le, s)
    ensures Ties(le, InsertLast(le, s, x), k) == Ties(le, s, k) + if le(x, k) && le(k, x) then [x] else []
  {
    var r := InsertLast(le, s, x);
    if s == [] {
      assert r[..0] == s;
    } else if le(s[|s| - 1], x) {
      assert r[..|r| - 1] == s;
    } else {
      var last, front := s[|s| - 1], s[..|s| - 1];
      InsertLastKeepsTies(le, front, x, k);
      assert r[..|r| - 1] == InsertLast(le, front, x);
      // `x` stands strictly before `last`, so they are not both tied with `k`.
      assert !(le(x, k) && le(k, x) && le(last, k) && le(k, last));
    }
  }

  /** The sort returns the same elements in order, and keeps tied elements in the order they came. */
  lemma {:induction false} StableSortSorts<T(!new)>(le: (T, T) -> bool, s: seq<T>)
    requires TotalPreorder(le)
    ensures Sorted(le, StableSort(le, s))
    ensures multiset(StableSort(le, s)) == multiset(s)
    ensures forall k :: Ties(le, StableSort(le, s), k) == Ties(le, s, k)
  {
    if s != [] {
      var front, x := s[..|s| - 1], s[|s| - 1];
      StableSortSorts(le, front);
      InsertLastIsSorted(le, StableSort(le, front), x);
      InsertLastIsPermutation(le, StableSort(le, front), x);
      assert s == front + [x];
      forall k ensures Ties(le, StableSort(le, s), k) == Ties(le, s, k) {
        InsertLastKeepsTies(le, StableSort(le, front), x, k);
      }
    }
  }

  /** The last element of a sorted sequence is at least every element of the bag. */
  lemma LastIsGreatest<T>(le: (T, T) -> bool, s: seq<T>, x: T)
    requires Sorted(le, s) && s != [] && x in multiset(s)
    requires forall y | y in s :: le(y, y)
    ensures le(x, s[|s| - 1])
  {
    var i :| 0 <= i < |s| && s[i] == x;
    assert s[|s| - 1] in s;
  }

  lemma WithoutLast<T>(s: seq<T>)
    requires s != []
    ensures multiset(s) == multiset(s[..|s| - 1]) + multiset{s[|s| - 1]}
  {
    assert s == s[..|s| - 1] + [s[|s| - 1]];
  }

  /** The order is reflexive and has no ties among the elements of the bag. */
  ghost predicate NoTies<T>(le: (T, T) -> bool, bag: multiset<T>) {
    && (forall x | x in bag :: le(x, x))
    && (forall x, y | x in bag && y in bag && le(x, y) && le(y, x) :: x == y)
  }

  lemma SameLast<T>(le: (T, T) -> bool, a: seq<T>, b: seq<T>)
    requires Sorted(le, a) && Sorted(le, b) && multiset(a) == multiset(b) && NoTies(le, multiset(a))
    requires a != [] && b != []
    ensures a[|a| - 1] == b[|b| - 1]
  {
    var x, y := a[|a| - 1], b[|b| - 1];
    assert x in multiset(a) && y in multiset(b);
    LastIsGreatest(le, a, y);
    LastIsGreatest(le, b, x);
  }

  lemma FrontSorted<T>(le: (T, T) -> bool, s: seq<T>)
    requires Sorted(le, s) && s != []
    ensures Sorted(le, s[..|s| - 1])
  {
  }

  lemma FewerNoTies<T>(le: (T, T) -> bool, bag: multiset<T>, fewer: multiset<T>)
    requires NoTies(le, bag) && fewer <= bag
    ensures NoTies(le, fewer)
  {
  }

  lemma SameFronts<T>(a: seq<T>, b: seq<T>)
    requires a != [] && b != [] && multiset(a) == multiset(b) && a[|a| - 1] == b[|b| - 1]
    ensures multiset(a[..|a| - 1]) == multiset(b[..|b| - 1])
  {
    WithoutLast(a);
    WithoutLast(b);
    assert multiset(a[..|a| - 1]) == multiset(a) - multiset{a[|a| - 1]};
    assert multiset(b[..|b| - 1]) == multiset(b) - multiset{b[|b| - 1]};
  }

  /** An order without ties leaves one sorted arrangement of a bag. */
  lemma {:induction false} SortedUnique<T>(le: (T, T) -> bool, a: seq<T>, b: seq<T>)
    requires Sorted(le, a) && Sorted(le, b) && multiset(a) == multiset(b) && NoTies(le, multiset(a))
    ensures a == b
    decreases |a|
  {
    hide Sorted, NoTies;
    if a == [] {
      assert |multiset(b)| == 0;
    } else {
      assert |b| == |multiset(b)| == |multiset(a)| == |a|;
      SameLast(le, a, b);
      SameFronts(a, b);
      WithoutLast(a);
      FrontSorted(le, a);
      FrontSorted(le, b);
      var p, q := a[..|a| - 1], b[..|b| - 1];
      FewerNoTies(le, multiset(a), multiset(p));
      SortedUnique(le, p, q);
      assert a == p + [a[|a| - 1]] && b == q + [b[|b| - 1]];
    }
  }

  // ---------------------------------------------------------------------------
  // Lexicographic order.

  /** Strings in the order of their characters. */
  function StringLe(a: string, b: string): bool {
    a == "" || (b != "" && (a[0] < b[0] || (a[0] == b[0] && StringLe(a[1..], b[1..]))))
  }

  /** The first place where two strings differ, or where one ends, decides. */
  lemma {:induction false} FirstDifferenceDecides(a: string, b: string, k: nat)
    requires k <= |a| && k <= |b| && a[..k] == b[..k] && (k < |a| && k < |b| ==> a[k] != b[k])
    ensures StringLe(a, b) <==> k == |a| || (k < |b| && a[k] < b[k])
  {
    if k > 0 {
      assert a[0] == a[..k][0] == b[0];
      assert a[1..][..k - 1] == a[..k][1..] && b[1..][..k - 1] == b[..k][1..];
      FirstDifferenceDecides(a[1..], b[1..], k - 1);
    }
  }

  lemma {:induction false} StringLeTotal(a: string, b: string)
    ensures StringLe(a, b) || StringLe(b, a)
    ensures StringLe(a, b) && StringLe(b, a) ==> a == b
    ensures a == b ==> StringLe(a, b)
  {
    if a != "" && b != "" && a[0] == b[0] {
      StringLeTotal(a[1..], b[1..]);
      assert a == [a[0]] + a[1..] && b == [b[0]] + b[1..];
    }
  }

  lemma {:induction false} StringLeTransitive(a: string, b: string, c: string)
    requires StringLe(a, b) && StringLe(b, c)
    ensures StringLe(a, c)
  {
    if a != "" && a[0] == b[0] == c[0] {
      StringLeTransitive(a[1..], b[1..], c[1..]);
    }
  }

  /** Paths in the order of their components. */
  function PathLe(a: seq<string>, b: seq<string>): bool {
    a == [] || (b != [] && (if a[0] == b[0] then PathLe(a[1..], b[1..]) else StringLe(a[0], b[0])))
  }

  lemma {:induction false} PathLeTotal(a: seq<string>, b: seq<string>)
    ensures PathLe(a, b) || PathLe(b, a)
    ensures PathLe(a, b) && PathLe(b, a) ==> a == b
    ensures a == b ==> PathLe(a, b)
  {
    if a != [] && b != [] {
      StringLeTotal(a[0], b[0]);
      if a[0] == b[0] {
        PathLeTotal(a[1..], b[1..]);
        assert a == [a[0]] + a[1..] && b == [b[0]] + b[1..];
      }
    }
  }

  lemma {:induction false} PathLeTransitive(a: seq<string>, b: seq<string>, c: seq<string>)
    requires PathLe(a, b) && PathLe(b, c)
    ensures PathLe(a, c)
  {
    if a != [] {
      if a[0] == b[0] == c[0] {
        PathLeTransitive(a[1..], b[1..], c[1..]);
      } else if a[0] != b[0] && b[0] != c[0] {
        StringLeTransitive(a[0], b[0], c[0]);
        StringLeTotal(a[0], b[0]);
      }
    }
  }
}
