/** The two libc searches the daemon relies on, by contract.  qsort is not stable, so callers
    may use only that the result is a sorted permutation; bsearch may return any match. */
module Sorting {

  /** Names three values whose order the solver should chain; it carries no meaning. */
  ghost predicate Chain<T>(x: T, y: T, z: T) { true }

  /** What a C comparison function has to be for qsort and bsearch to be meaningful. */
  ghost predicate TotalPreorder<T(!new)>(cmp: (T, T) -> int) {
    && (forall x, y :: cmp(x, y) < 0 <==> cmp(y, x) > 0)
    && (forall x, y, z {:trigger Chain(x, y, z)} :: cmp(x, y) <= 0 && cmp(y, z) <= 0 ==> cmp(x, z) <= 0)
  }

  ghost predicate Sorted<T>(s: seq<T>, cmp: (T, T) -> int) {
    forall i, j | 0 <= i < j < |s| :: cmp(s[i], s[j]) <= 0
  }

  lemma PermutationHasSameElements<T>(a: seq<T>, b: seq<T>)
    requires multiset(a) == multiset(b)
    ensures |a| == |b|
    ensures forall x :: x in a <==> x in b
  {
    assert |multiset(a)| == |multiset(b)|;
    forall x ensures x in a <==> x in b {
      assert x in a <==> x in multiset(a);
      assert x in b <==> x in multiset(b);
    }
  }

  lemma FindIn<T>(x: T, a: seq<T>, b: seq<T>) returns (k: nat)
    requires multiset(a) == multiset(b) && x in a
    ensures k < |b| && b[k] == x
  {
    assert x in multiset(b);
    k :| 0 <= k < |b| && b[k] == x;
  }

  lemma MultisetRemove<T>(list: seq<T>, k: nat)
    requires k < |list|
    ensures multiset(list[..k] + list[k + 1..]) == multiset(list) - multiset{list[k]}
  {
    assert list == list[..k] + [list[k]] + list[k + 1..];
  }

  /** An element of both can be taken out of two permutations of each other. */
  lemma PermutationRemove<T>(a: seq<T>, b: seq<T>) returns (k: nat)
    requires a != [] && multiset(a) == multiset(b)
    ensures k < |b| && b[k] == a[0]
    ensures multiset(a[..0] + a[1..]) == multiset(b[..k] + b[k + 1..])
  {
    k := FindIn(a[0], a, b);
    MultisetRemove(a, 0);
    MultisetRemove(b, k);
  }

  lemma InsertionKeepsOrder<T(!new)>(l: seq<T>, x: T, h: seq<T>, cmp: (T, T) -> int)
    requires TotalPreorder(cmp) && Sorted(l + h, cmp)
    requires l != [] ==> cmp(l[|l| - 1], x) <= 0
    requires h != [] ==> cmp(h[0], x) > 0
    ensures Sorted(l + [x] + h, cmp)
  {
    var was, s := l + h, l + [x] + h;
    forall i, j | 0 <= i < j < |s| ensures cmp(s[i], s[j]) <= 0 {
      if i < |l| && j == |l| {
        assert i == |l| - 1 || cmp(was[i], was[|l| - 1]) <= 0;
        assert Chain(l[i], l[|l| - 1], x);
      } else if i == |l| {
        assert j == |l| + 1 || cmp(was[|l|], was[j - 1]) <= 0;
        assert Chain(x, h[0], s[j]);
      } else {
        assert cmp(was[if i < |l| then i else i - 1], was[if j < |l| then j else j - 1]) <= 0;
      }
    }
  }

  /** Where x belongs: after every element of s that is not greater. */
  function InsertionPoint<T>(s: seq<T>, x: T, cmp: (T, T) -> int): (k: nat)
    ensures k <= |s|
    ensures 0 < k ==> cmp(s[k - 1], x) <= 0
    ensures k < |s| ==> cmp(s[k], x) > 0
  {
    if s == [] || cmp(s[|s| - 1], x) <= 0 then |s| else InsertionPoint(s[..|s| - 1], x, cmp)
  }

  lemma InsertSorted<T(!new)>(s: seq<T>, x: T, k: nat, cmp: (T, T) -> int)
    requires TotalPreorder(cmp) && Sorted(s, cmp)
    requires k == InsertionPoint(s, x, cmp)
    ensures Sorted(s[..k] + [x] + s[k..], cmp)
    ensures multiset(s[..k] + [x] + s[k..]) == multiset(s) + multiset{x}
  {
    hide Sorted, TotalPreorder, InsertionPoint;
    assert s[..k] + s[k..] == s;
    InsertionKeepsOrder(s[..k], x, s[k..], cmp);
  }

  lemma MultisetSnoc<T>(a: seq<T>, n: nat)
    requires n < |a|
    ensures multiset(a[..n + 1]) == multiset(a[..n]) + multiset{a[n]}
  {
    assert a[..n + 1] == a[..n] + [a[n]];
  }

  method Qsort<T(!new)>(a: seq<T>, cmp: (T, T) -> int) returns (s: seq<T>)
    requires TotalPreorder(cmp)
    ensures Sorted(s, cmp)
    ensures multiset(s) == multiset(a)
  {
    s := [];
    assert multiset(s) == multiset(a[..0]) && a[..|a|] == a;
    hide TotalPreorder, InsertionPoint;
    for n := 0 to |a|
      invariant Sorted(s, cmp)
      invariant multiset(s) == multiset(a[..n])
    {
      hide Sorted;
      var k := InsertionPoint(s, a[n], cmp);
      InsertSorted(s, a[n], k, cmp);
      MultisetSnoc(a, n);
      s := s[..k] + [a[n]] + s[k..];
    }
  }

  method Bsearch<T(!new)>(key: T, a: seq<T>, cmp: (T, T) -> int) returns (found: int)
    requires TotalPreorder(cmp) && Sorted(a, cmp)
    ensures -1 <= found < |a|
    ensures 0 <= found ==> cmp(key, a[found]) == 0
    ensures found < 0 ==> forall i | 0 <= i < |a| :: cmp(key, a[i]) != 0
  {
    var lo, hi := 0, |a|;
    while lo < hi
      invariant 0 <= lo <= hi <= |a|
      invariant forall i | 0 <= i < lo :: cmp(key, a[i]) > 0
      invariant forall i | hi <= i < |a| :: cmp(key, a[i]) < 0
    {
      var mid := (lo + hi) / 2;
      var c := cmp(key, a[mid]);
      if c == 0 {
        return mid;
      } else if c < 0 {
        forall i | mid <= i < |a| ensures cmp(key, a[i]) < 0 {
          assert Chain(key, a[mid], a[i]) && Chain(a[mid], a[i], key);
        }
        hi := mid;
      } else {
        forall i | 0 <= i <= mid ensures cmp(key, a[i]) > 0 {
          assert Chain(key, a[i], a[mid]);
        }
        lo := mid + 1;
      }
    }
    found := -1;
  }
}
