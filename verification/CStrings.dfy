/** C strings: character buffers read up to their first NUL, and the libc calls the storage
    daemon uses on them.  A C `char` is modelled by a Dafny `char`, and compared the way
    strcmp does, by unsigned value. */
module CStrings {

  const NUL: char := '\0'

  /** A char that fits one C byte. */
  type Octet = c: char | c as int < 256 witness NUL

  function Min(a: nat, b: nat): nat { if a < b then a else b }

  /** The first n chars, or all there are. */
  function Cut(s: string, n: nat): string { if |s| > n then s[..n] else s }

  lemma CutIsPrefix(s: string, n: nat)
    ensures Cut(s, n) <= s && |Cut(s, n)| == if n < |s| then n else |s|
  {
  }

  /** Position of the first `c` in `s`, or |s| when there is none (strchr). */
  function IndexOf(s: string, c: char): (n: nat)
    ensures n <= |s|
    ensures n < |s| ==> s[n] == c
  {
    if s == [] || s[0] == c then 0 else 1 + IndexOf(s[1..], c)
  }

  predicate Free(s: string, c: char) { forall i | 0 <= i < |s| :: s[i] != c }

  lemma {:induction false} IndexOfFirst(s: string, c: char)
    ensures Free(s[..IndexOf(s, c)], c)
  {
    if s != [] && s[0] != c {
      IndexOfFirst(s[1..], c);
      assert s[..IndexOf(s, c)] == [s[0]] + s[1..][..IndexOf(s[1..], c)];
    }
  }

  /** The found char and no earlier one leave one answer. */
  lemma {:induction false} IndexOfUnique(s: string, c: char, n: nat)
    requires n <= |s| && Free(s[..n], c)
    requires n < |s| ==> s[n] == c
    ensures IndexOf(s, c) == n
  {
    if s != [] && 0 < n {
      assert s[..n][0] == s[0];
      assert s[1..][..n - 1] == s[..n][1..];
      IndexOfUnique(s[1..], c, n - 1);
    }
  }

  /** The string a buffer holds: everything before its first NUL. */
  function CStr(b: string): (s: string)
    ensures |s| <= |b|
    ensures |s| < |b| ==> b[|s|] == NUL
  {
    b[..IndexOf(b, NUL)]
  }

  lemma CStrFree(b: string)
    ensures Free(CStr(b), NUL)
  {
    IndexOfFirst(b, NUL);
  }

  lemma CStrOf(s: string, tail: string)
    requires Free(s, NUL)
    ensures CStr(s) == s
    ensures CStr(s + [NUL] + tail) == s
  {
    assert s[..|s|] == s;
    IndexOfUnique(s, NUL, |s|);
    var b := s + [NUL] + tail;
    assert b[..|s|] == s;
    IndexOfUnique(b, NUL, |s|);
  }

  /** A buffer with a NUL at n and none before holds its first n chars. */
  lemma CStrAt(b: string, n: nat)
    requires n < |b| && b[n] == NUL && Free(b[..n], NUL)
    ensures CStr(b) == b[..n]
  {
    IndexOfUnique(b, NUL, n);
  }

  /** The buffer holds the string s, with its terminator, at p. */
  ghost predicate HoldsAt(b: seq<char>, p: int, s: string) {
    0 <= p && p + |s| < |b| && b[p..p + |s|] == s && b[p + |s|] == NUL && Free(s, NUL)
  }

  lemma HoldsAtCStr(b: seq<char>, p: int, s: string)
    requires HoldsAt(b, p, s)
    ensures 0 <= p && p + |s| < |b|
    ensures CStr(b[p..]) == s
  {
    assert b[p..][..|s|] == s;
    CStrAt(b[p..], |s|);
  }

  /** strcmp: only the sign is meaningful. */
  function Strcmp(a: string, b: string): int {
    if a == [] && b == [] then 0
    else if a == [] then -1
    else if b == [] then 1
    else if a[0] != b[0] then a[0] as int - b[0] as int
    else Strcmp(a[1..], b[1..])
  }

  lemma {:induction false} StrcmpZero(a: string, b: string)
    ensures Strcmp(a, b) == 0 <==> a == b
  {
    if a != [] && b != [] && a[0] == b[0] {
      StrcmpZero(a[1..], b[1..]);
      assert a == [a[0]] + a[1..] && b == [b[0]] + b[1..];
    }
  }

  lemma {:induction false} StrcmpAntisymmetric(a: string, b: string)
    ensures Strcmp(a, b) < 0 <==> Strcmp(b, a) > 0
  {
    if a != [] && b != [] && a[0] == b[0] {
      StrcmpAntisymmetric(a[1..], b[1..]);
    }
  }

  lemma {:induction false} StrcmpTransitive(a: string, b: string, c: string)
    requires Strcmp(a, b) <= 0 && Strcmp(b, c) <= 0
    ensures Strcmp(a, c) <= 0
  {
    if a != [] && b != [] && c != [] && a[0] == b[0] == c[0] {
      StrcmpTransitive(a[1..], b[1..], c[1..]);
    }
  }

  /** s and t agree up to position k, where s ends or has the smaller char. */
  predicate SmallerAt(s: string, t: string, k: nat) {
    && k <= |s| && k < |t| && s[..k] == t[..k]
    && (k < |s| ==> s[k] < t[k])
  }

  /** The dictionary order, by unsigned char. */
  ghost predicate Before(s: string, t: string) { exists k: nat :: SmallerAt(s, t, k) }

  lemma {:induction false} StrcmpFinds(s: string, t: string) returns (k: nat)
    requires Strcmp(s, t) < 0
    ensures SmallerAt(s, t, k)
  {
    if s == [] || s[0] != t[0] {
      k := 0;
    } else {
      var j := StrcmpFinds(s[1..], t[1..]);
      k := j + 1;
      assert s[..k] == [s[0]] + s[1..][..j] && t[..k] == [t[0]] + t[1..][..j];
    }
  }

  lemma {:induction false} SmallerIsNegative(s: string, t: string, k: nat)
    requires SmallerAt(s, t, k)
    ensures Strcmp(s, t) < 0
  {
    if k > 0 {
      assert s[0] == s[..k][0] && t[0] == t[..k][0];
      assert s[1..][..k - 1] == s[..k][1..] && t[1..][..k - 1] == t[..k][1..];
      SmallerIsNegative(s[1..], t[1..], k - 1);
    }
  }

  /** strcmp is negative exactly for strings in dictionary order. */
  lemma StrcmpIsOrder(s: string, t: string)
    ensures Strcmp(s, t) < 0 <==> Before(s, t)
    ensures Strcmp(s, t) > 0 <==> Before(t, s)
    ensures Strcmp(s, t) == 0 <==> s == t
  {
    StrcmpZero(s, t);
    StrcmpAntisymmetric(t, s);
    NegativeIsBefore(s, t);
    NegativeIsBefore(t, s);
  }

  lemma NegativeIsBefore(s: string, t: string)
    ensures Strcmp(s, t) < 0 <==> Before(s, t)
  {
    if Strcmp(s, t) < 0 {
      var k := StrcmpFinds(s, t);
    }
    if Before(s, t) {
      var k: nat :| SmallerAt(s, t, k);
      SmallerIsNegative(s, t, k);
    }
  }

  /** memcpy into a char buffer. */
  method CopyInto(dest: array<char>, at: nat, src: string)
    requires at + |src| <= dest.Length
    modifies dest
    ensures forall i | 0 <= i < at || at + |src| <= i < dest.Length :: dest[i] == old(dest[i])
    ensures dest[at..at + |src|] == src
  {
    for i := 0 to |src|
      invariant forall k | 0 <= k < i :: dest[at + k] == src[k]
      invariant forall k | 0 <= k < at || at + i <= k < dest.Length :: dest[k] == old(dest[k])
    {
      dest[at + i] := src[i];
    }
  }
}
