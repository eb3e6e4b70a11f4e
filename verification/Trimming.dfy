/** trim, trim_left and trim_right of shared_func.c, in place. */
module Trimming {
  import opened CStrings

  predicate IsBlank(c: char) { c == ' ' || c == '\n' || c == '\r' || c == '\t' }

  lemma BlankChars(c: char)
    ensures IsBlank(c) <==> c in " \n\r\t"
  {
  }

  predicate Blank(s: string) { forall i | 0 <= i < |s| :: IsBlank(s[i]) }

  predicate NoBlankEnds(s: string) { s != [] ==> !IsBlank(s[0]) && !IsBlank(s[|s| - 1]) }

  function TrimmedRight(s: string): (r: string)
    ensures |r| <= |s| && r == s[..|r|]
  {
    if s != [] && IsBlank(s[|s| - 1]) then TrimmedRight(s[..|s| - 1]) else s
  }

  function TrimmedLeft(s: string): (r: string)
    ensures |r| <= |s| && r == s[|s| - |r|..]
  {
    if s != [] && IsBlank(s[0]) then TrimmedLeft(s[1..]) else s
  }

  function Trimmed(s: string): string { TrimmedLeft(TrimmedRight(s)) }

  lemma {:induction false} RightBlanks(t: string, r: string)
    requires Blank(r) && (t == [] || !IsBlank(t[|t| - 1]))
    ensures TrimmedRight(t + r) == t
  {
    var s := t + r;
    if r == [] {
      assert s == t;
    } else {
      assert s[..|s| - 1] == t + r[..|r| - 1];
      RightBlanks(t, r[..|r| - 1]);
    }
  }

  lemma {:induction false} LeftBlanks(l: string, t: string)
    requires Blank(l) && (t == [] || !IsBlank(t[0]))
    ensures TrimmedLeft(l + t) == t
  {
    var s := l + t;
    if l == [] {
      assert s == t;
    } else {
      assert s[1..] == l[1..] + t;
      LeftBlanks(l[1..], t);
    }
  }

  lemma {:induction false} RightCut(s: string)
    ensures var t := TrimmedRight(s);
            Blank(s[|t|..]) && (t != [] ==> !IsBlank(t[|t| - 1]))
  {
    if s != [] && IsBlank(s[|s| - 1]) {
      var front := s[..|s| - 1];
      assert TrimmedRight(s) == TrimmedRight(front);
      var n := |TrimmedRight(front)|;
      RightCut(front);
      hide TrimmedRight;
      BlankSnoc(s, n);
    }
  }

  lemma BlankSnoc(s: string, n: nat)
    requires n < |s| && Blank(s[..|s| - 1][n..]) && IsBlank(s[|s| - 1])
    ensures Blank(s[n..])
  {
    assert s[n..] == s[..|s| - 1][n..] + [s[|s| - 1]];
  }

  lemma {:induction false} LeftCut(s: string)
    ensures var t := TrimmedLeft(s);
            Blank(s[..|s| - |t|]) && (t != [] ==> !IsBlank(t[0]))
  {
    if s != [] && IsBlank(s[0]) {
      var rest := s[1..];
      assert TrimmedLeft(s) == TrimmedLeft(rest);
      var n := |rest| - |TrimmedLeft(rest)|;
      LeftCut(rest);
      hide TrimmedLeft;
      BlankCons(s, n);
    }
  }

  lemma BlankCons(s: string, n: nat)
    requires n < |s| && Blank(s[1..][..n]) && IsBlank(s[0])
    ensures Blank(s[..n + 1])
  {
    assert s[..n + 1] == [s[0]] + s[1..][..n];
  }

  lemma TrimmedTwice(s: string)
    ensures Trimmed(s) == TrimmedLeft(TrimmedRight(s))
  {
  }

  /** Trimming the left end does not touch the right one. */
  lemma LeftKeepsRight(t: string)
    requires t != [] ==> !IsBlank(t[|t| - 1])
    ensures NoBlankEnds(TrimmedLeft(t))
  {
    LeftCut(t);
    hide TrimmedLeft, Blank;
  }

  /** A trimmed string is the part of the original between two runs of blanks. */
  lemma TrimmedCut(s: string) returns (i: nat, j: nat)
    ensures i <= j <= |s| && Trimmed(s) == s[i..j]
    ensures Blank(s[..i]) && Blank(s[j..]) && NoBlankEnds(s[i..j])
  {
    hide *;
    var t := TrimmedRight(s);
    var u := TrimmedLeft(t);
    TrimmedTwice(s);
    RightCut(s);
    LeftCut(t);
    LeftKeepsRight(t);
    i, j := |t| - |u|, |t|;
    CutOfCut(s, t, i, j);
  }

  lemma CutOfCut(s: string, t: string, i: nat, j: nat)
    requires i <= j <= |s| && t == s[..j]
    ensures s[i..j] == t[i..] && s[..i] == t[..i]
  {
  }

  /** And the only such part of it. */
  lemma TrimmedUnique(l: string, t: string, r: string)
    requires Blank(l) && Blank(r) && NoBlankEnds(t)
    ensures Trimmed(l + t + r) == t
  {
    if t == [] {
      assert l + t + r == [] + (l + r);
      RightBlanks([], l + r);
      assert TrimmedLeft([]) == [];
    } else {
      RightBlanks(l + t, r);
      LeftBlanks(l, t);
    }
  }

  /** trim_right. */
  method TrimRight(str: array<char>, ghost s: string)
    requires HoldsAt(str[..], 0, s)
    modifies str
    ensures HoldsAt(str[..], 0, TrimmedRight(s))
    ensures forall k | |s| < k < str.Length :: str[k] == old(str[k])
  {
    HoldsAtCStr(str[..], 0, s);
    assert str[..][0..] == str[..];
    var len := |CStr(str[..])|;
    if len == 0 {
      return;
    }
    var p := len - 1;
    assert s[..p + 1] == s;
    while p >= 0
      invariant -1 <= p < len
      invariant TrimmedRight(s) == TrimmedRight(s[..p + 1])
    {
      assert str[p] == s[p];
      if !IsBlank(str[p]) {
        break;
      }
      assert s[..p + 1][..p] == s[..p];
      p := p - 1;
    }
    assert TrimmedRight(s) == s[..p + 1];
    if p != len - 1 {
      str[p + 1] := NUL;
    }
  }

  /** trim_left. */
  method TrimLeft(str: array<char>, ghost s: string)
    requires HoldsAt(str[..], 0, s)
    modifies str
    ensures HoldsAt(str[..], 0, TrimmedLeft(s))
    ensures forall k | |s| < k < str.Length :: str[k] == old(str[k])
  {
    HoldsAtCStr(str[..], 0, s);
    assert str[..][0..] == str[..];
    var length := |CStr(str[..])|;
    var i := FirstNonBlank(str[..], s);
    hide *;
    if i == 0 {
      assert s[0..] == s;
      return;
    }
    ghost var was := str[..];
    assert i + (length - i) < str.Length;
    MoveDown(str, i, length - i);
    assert was[i..|s| + 1] == old(str[i..|s| + 1]);
    MovedDown(was, str[..], s, i);
  }

  /** The loop of trim_left. */
  method FirstNonBlank(str: string, ghost s: string) returns (i: nat)
    requires HoldsAt(str, 0, s)
    ensures i <= |s| && TrimmedLeft(s) == s[i..]
  {
    HoldsAtCStr(str, 0, s);
    assert str[0..] == str;
    var length := |CStr(str)|;
    assert str[..length] == s;
    i := 0;
    assert s[0..] == s;
    hide CStr, HoldsAt, Free;
    while i < length
      invariant 0 <= i <= length
      invariant TrimmedLeft(s) == TrimmedLeft(s[i..])
    {
      assert str[i] == s[i] == s[i..][0];
      if !IsBlank(str[i]) {
        break;
      }
      assert s[i..][1..] == s[i + 1..];
      i := i + 1;
    }
  }

  /** strcpy through a temporary: n chars and the terminator, from i on, move to the front. */
  method MoveDown(str: array<char>, i: nat, n: nat)
    requires i + n < str.Length
    modifies str
    ensures str[..n + 1] == old(str[i..i + n + 1])
    ensures forall k | n + 1 <= k < str.Length :: str[k] == old(str[k])
  {
    var temp := str[i..i + n + 1];
    CopyInto(str, 0, temp);
    assert str[..n + 1] == str[0..0 + |temp|];
  }

  lemma MovedDown(b: seq<char>, b': seq<char>, s: string, i: nat)
    requires HoldsAt(b, 0, s) && i <= |s| && |b'| == |b|
    requires b'[..|s| - i + 1] == b[i..|s| + 1]
    ensures HoldsAt(b', 0, s[i..])
  {
    var n := |s| - i;
    assert b'[..n] == b'[..n + 1][..n] == b[i..|s|] == b[..|s|][i..];
    assert b'[n] == b'[..n + 1][n];
  }

  /** trim, on the string a buffer holds; what follows its terminator stays. */
  method Trim(str: array<char>, ghost s: string)
    requires HoldsAt(str[..], 0, s)
    modifies str
    ensures HoldsAt(str[..], 0, Trimmed(s))
    ensures forall k | |s| < k < str.Length :: str[k] == old(str[k])
  {
    TrimRight(str, s);
    TrimLeft(str, TrimmedRight(s));
  }
}
