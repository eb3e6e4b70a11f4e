/** File metadata: rows "name \x02 value" separated by \x01, split by fdfs_split_metadata_ex,
    packed by fdfs_pack_metadata and put in order, in place, by storage_sort_metadata_buff. */
module Metadata {
  import opened CStrings
  import opened Sorting

  const RECORD_SEPARATOR: char := '\U{1}'
  const FIELD_SEPARATOR: char := '\U{2}'
  const MAX_NAME_LEN := 64
  const MAX_VALUE_LEN := 256

  datatype MetaData = MetaData(name: string, value: string)

  // ------------------------------------------------------------ splitting and joining

  function Occurrences(s: string, sep: char): nat
    decreases |s|
  {
    var i := IndexOf(s, sep);
    if i == |s| then 0 else 1 + Occurrences(s[i + 1..], sep)
  }

  /** At most n columns: all but the last end at a separator, the last takes the rest. */
  function Columns(s: string, sep: char, n: nat): (rows: seq<string>)
    requires 1 <= n
    ensures 1 <= |rows| <= n
    decreases |s|
  {
    var i := IndexOf(s, sep);
    if n == 1 || i == |s| then [s] else [s[..i]] + Columns(s[i + 1..], sep, n - 1)
  }

  function Split(s: string, sep: char): seq<string> { Columns(s, sep, Occurrences(s, sep) + 1) }

  function Join(rows: seq<string>, sep: char): string {
    if rows == [] then [] else if |rows| == 1 then rows[0] else rows[0] + [sep] + Join(rows[1..], sep)
  }

  /** However many columns are asked for, they rejoin to the source. */
  lemma {:induction false} JoinColumns(s: string, sep: char, n: nat)
    requires 1 <= n
    ensures Join(Columns(s, sep, n), sep) == s
    decreases |s|
  {
    var i := IndexOf(s, sep);
    if n > 1 && i < |s| {
      var rest := Columns(s[i + 1..], sep, n - 1);
      JoinColumns(s[i + 1..], sep, n - 1);
      assert Columns(s, sep, n) == [s[..i]] + rest;
      assert ([s[..i]] + rest)[1..] == rest;
      assert Join([s[..i]] + rest, sep) == s[..i] + [sep] + Join(rest, sep);
      assert s == s[..i] + [sep] + s[i + 1..];
    }
  }

  predicate AllFree(rows: seq<string>, c: char) { forall k | 0 <= k < |rows| :: Free(rows[k], c) }

  /** Asking for one column more than there are separators leaves no separator in any column. */
  lemma {:induction false} SplitFree(s: string, sep: char)
    ensures |Split(s, sep)| == Occurrences(s, sep) + 1
    ensures AllFree(Split(s, sep), sep)
    decreases |s|
  {
    var i := IndexOf(s, sep);
    IndexOfFirst(s, sep);
    if i == |s| {
      assert s[..i] == s;
    } else {
      SplitFree(s[i + 1..], sep);
      assert Split(s, sep) == [s[..i]] + Split(s[i + 1..], sep);
    }
  }

  /** Splitting undoes joining when no row holds the separator. */
  lemma {:induction false} SplitJoin(rows: seq<string>, sep: char)
    requires rows != [] && AllFree(rows, sep)
    ensures Split(Join(rows, sep), sep) == rows
  {
    var s := Join(rows, sep);
    assert Free(rows[0], sep);
    if |rows| == 1 {
      IndexOfUnique(s, sep, |s|);
    } else {
      IndexOfUnique(s, sep, |rows[0]|);
      assert s[|rows[0]| + 1..] == Join(rows[1..], sep) && s[..|rows[0]|] == rows[0];
      assert forall k | 0 <= k < |rows[1..]| :: rows[1..][k] == rows[k + 1];
      SplitJoin(rows[1..], sep);
      assert rows == [rows[0]] + rows[1..];
    }
  }

  // ------------------------------------------------------------ items and rows

  /** The item in a row; a row without field separator holds none. */
  function ParseRow(row: string): (items: seq<MetaData>)
    ensures |items| <= 1
  {
    var i := IndexOf(row, FIELD_SEPARATOR);
    if i == |row| then []
    else
      var name := row[..Min(i, MAX_NAME_LEN)];
      var value := row[i + 1..i + 1 + Min(|row| - i - 1, MAX_VALUE_LEN)];
      [MetaData(name, value)]
  }

  /** What a row says, however long its parts: its name ends at the first field separator, and each part
      is cut to its limit; without a separator it says nothing. */
  lemma RowSays(name: string, value: string)
    ensures Free(name, FIELD_SEPARATOR) ==>
              ParseRow(name + [FIELD_SEPARATOR] + value) == [MetaData(Cut(name, 64), Cut(value, 256))]
    ensures Free(name, FIELD_SEPARATOR) ==> ParseRow(name) == []
  {
    if Free(name, FIELD_SEPARATOR) {
      var row := name + [FIELD_SEPARATOR] + value;
      assert name[..|name|] == name && row[..|name|] == name;
      IndexOfUnique(name, FIELD_SEPARATOR, |name|);
      IndexOfUnique(row, FIELD_SEPARATOR, |name|);
      assert row[|name| + 1..] == value;
      assert row[..Min(|name|, 64)] == Cut(name, 64);
      assert row[|name| + 1..|name| + 1 + Min(|value|, 256)] == Cut(value, 256);
    }
  }

  function ParseRows(rows: seq<string>): seq<MetaData> {
    if rows == [] then [] else ParseRow(rows[0]) + ParseRows(rows[1..])
  }

  /** Rows are read one after the other. */
  lemma RowsInOrder(rows: seq<string>)
    requires rows != [] && AllFree(rows, RECORD_SEPARATOR)
    ensures Parse(Join(rows, RECORD_SEPARATOR)) == ParseRow(rows[0]) + ParseRows(rows[1..])
  {
    SplitJoin(rows, RECORD_SEPARATOR);
  }

  /** fdfs_split_metadata, as a function of the string in the buffer. */
  function Parse(s: string): seq<MetaData> { ParseRows(Split(s, RECORD_SEPARATOR)) }

  function RowOf(m: MetaData): string { m.name + [FIELD_SEPARATOR] + m.value }

  function RowsOf(list: seq<MetaData>): (rows: seq<string>)
    ensures |rows| == |list|
    ensures forall k | 0 <= k < |list| :: rows[k] == RowOf(list[k])
  {
    seq(|list|, k requires 0 <= k < |list| => RowOf(list[k]))
  }

  /** fdfs_pack_metadata, as the string it leaves in the buffer. */
  function Pack(list: seq<MetaData>): string { Join(RowsOf(list), RECORD_SEPARATOR) }

  /** An item that survives packing. */
  predicate WellFormed(m: MetaData) {
    && Free(m.name, FIELD_SEPARATOR) && Free(m.name, RECORD_SEPARATOR) && Free(m.value, RECORD_SEPARATOR)
    && |m.name| <= MAX_NAME_LEN && |m.value| <= MAX_VALUE_LEN
  }

  predicate AllWellFormed(list: seq<MetaData>) { forall k | 0 <= k < |list| :: WellFormed(list[k]) }

  lemma ParseRowOf(m: MetaData)
    requires WellFormed(m)
    ensures ParseRow(RowOf(m)) == [m]
    ensures Free(RowOf(m), RECORD_SEPARATOR)
  {
    var row := RowOf(m);
    IndexOfUnique(row, FIELD_SEPARATOR, |m.name|);
    assert row[..|m.name|] == m.name && row[|m.name| + 1..|row|] == m.value;
  }

  lemma {:induction false} ParseRowsOf(list: seq<MetaData>)
    requires AllWellFormed(list)
    ensures ParseRows(RowsOf(list)) == list
    ensures AllFree(RowsOf(list), RECORD_SEPARATOR)
  {
    if list != [] {
      ParseRowOf(list[0]);
      ParseRowsOf(list[1..]);
      assert RowsOf(list)[1..] == RowsOf(list[1..]);
      assert list == [list[0]] + list[1..];
      forall k | 0 <= k < |list| ensures Free(RowsOf(list)[k], RECORD_SEPARATOR) {
        ParseRowOf(list[k]);
      }
    }
  }

  /** Round trip from items: splitting what was packed gives the items back. */
  lemma ParsePack(list: seq<MetaData>)
    requires list != [] && AllWellFormed(list)
    ensures Parse(Pack(list)) == list
  {
    ParseRowsOf(list);
    SplitJoin(RowsOf(list), RECORD_SEPARATOR);
  }

  lemma ParseRowWellFormed(row: string)
    requires Free(row, RECORD_SEPARATOR)
    ensures AllWellFormed(ParseRow(row))
  {
    IndexOfFirst(row, FIELD_SEPARATOR);
  }

  lemma {:induction false} ParseRowsWellFormed(rows: seq<string>)
    requires AllFree(rows, RECORD_SEPARATOR)
    ensures AllWellFormed(ParseRows(rows))
  {
    if rows != [] {
      assert Free(rows[0], RECORD_SEPARATOR);
      ParseRowWellFormed(rows[0]);
      assert forall k | 0 <= k < |rows[1..]| :: rows[1..][k] == rows[k + 1];
      ParseRowsWellFormed(rows[1..]);
    }
  }

  /** Whatever the buffer held, the items split from it survive packing. */
  lemma ParseWellFormed(s: string)
    ensures AllWellFormed(Parse(s))
  {
    SplitFree(s, RECORD_SEPARATOR);
    ParseRowsWellFormed(Split(s, RECORD_SEPARATOR));
  }

  /** The separators as bytes: \x01 between items, \x02 between name and value. */
  lemma PackedPair(n1: string, v1: string, n2: string, v2: string)
    ensures Pack([MetaData(n1, v1), MetaData(n2, v2)]) == n1 + ['\U{2}'] + v1 + ['\U{1}'] + n2 + ['\U{2}'] + v2
  {
    var list := [MetaData(n1, v1), MetaData(n2, v2)];
    var rows := RowsOf(list);
    assert rows == [RowOf(list[0]), RowOf(list[1])];
    assert rows[1..] == [RowOf(list[1])];
    assert Join(rows[1..], RECORD_SEPARATOR) == RowOf(list[1]);
    assert Pack(list) == RowOf(list[0]) + [RECORD_SEPARATOR] + RowOf(list[1]);
  }

  // ------------------------------------------------------------ lengths

  /** Chars of rows, each with one separator. */
  function RowsSize(rows: seq<string>): nat {
    if rows == [] then 0 else |rows[0]| + 1 + RowsSize(rows[1..])
  }

  lemma {:induction false} JoinLength(rows: seq<string>, sep: char)
    requires rows != []
    ensures |Join(rows, sep)| + 1 == RowsSize(rows)
  {
    if |rows| > 1 {
      JoinLength(rows[1..], sep);
    }
  }

  function Size(list: seq<MetaData>): nat {
    if list == [] then 0 else |RowOf(list[0])| + 1 + Size(list[1..])
  }

  lemma {:induction false} PackLength(list: seq<MetaData>)
    requires list != []
    ensures |Pack(list)| + 1 == Size(list)
  {
    JoinLength(RowsOf(list), RECORD_SEPARATOR);
    SizeOfRows(list);
  }

  lemma {:induction false} SizeOfRows(list: seq<MetaData>)
    ensures RowsSize(RowsOf(list)) == Size(list)
  {
    if list != [] {
      SizeOfRows(list[1..]);
      assert RowsOf(list)[1..] == RowsOf(list[1..]);
    }
  }

  /** A row that packing reproduces: it has a field separator and no part exceeds its limit. */
  predicate Regular(row: string) {
    var i := IndexOf(row, FIELD_SEPARATOR);
    i < |row| && i <= MAX_NAME_LEN && |row| - i - 1 <= MAX_VALUE_LEN
  }

  predicate AllRegular(rows: seq<string>) { forall k | 0 <= k < |rows| :: Regular(rows[k]) }

  lemma SizeConcat(a: seq<MetaData>, b: seq<MetaData>)
    ensures Size(a + b) == Size(a) + Size(b)
  {
    if a == [] {
      assert a + b == b;
    } else {
      assert (a + b)[1..] == a[1..] + b;
    }
  }

  lemma RowSize(row: string)
    ensures Size(ParseRow(row)) <= |row| + 1
    ensures Size(ParseRow(row)) == |row| + 1 <==> Regular(row)
  {
    assert forall m: MetaData :: Size([m]) == |RowOf(m)| + 1 by {
      assert forall m: MetaData :: [m][1..] == [];
    }
  }

  /** Splitting never makes the rows longer, and keeps their size exactly when all are regular. */
  lemma {:induction false} ParsedSize(rows: seq<string>)
    ensures Size(ParseRows(rows)) <= RowsSize(rows)
    ensures Size(ParseRows(rows)) == RowsSize(rows) <==> AllRegular(rows)
  {
    if rows != [] {
      RowSize(rows[0]);
      ParsedSize(rows[1..]);
      SizeConcat(ParseRow(rows[0]), ParseRows(rows[1..]));
      assert forall k | 1 <= k < |rows| :: rows[k] == rows[1..][k - 1];
    }
  }

  lemma RegularRow(row: string)
    requires Regular(row)
    ensures |ParseRow(row)| == 1 && RowOf(ParseRow(row)[0]) == row
  {
    var i := IndexOf(row, FIELD_SEPARATOR);
    assert row == row[..i] + [FIELD_SEPARATOR] + row[i + 1..];
  }

  lemma {:induction false} RegularRows(rows: seq<string>)
    requires AllRegular(rows)
    ensures RowsOf(ParseRows(rows)) == rows
  {
    if rows != [] {
      assert Regular(rows[0]);
      RegularRow(rows[0]);
      assert forall k | 0 <= k < |rows[1..]| :: rows[1..][k] == rows[k + 1];
      RegularRows(rows[1..]);
      assert ParseRows(rows) == ParseRow(rows[0]) + ParseRows(rows[1..]);
      hide *;
      RowsOfFirst(ParseRow(rows[0]), ParseRows(rows[1..]));
      assert rows == [rows[0]] + rows[1..];
    }
  }

  lemma RowsOfFirst(first: seq<MetaData>, rest: seq<MetaData>)
    requires |first| == 1
    ensures RowsOf(first + rest) == [RowOf(first[0])] + RowsOf(rest)
  {
    hide RowOf;
  }

  /** Round trip from the buffer: packing what was split reproduces the string exactly when every
      row has a field separator and no part exceeds its limit. */
  lemma PackParse(s: string)
    requires Parse(s) != []
    ensures |Pack(Parse(s))| <= |s|
    ensures |Pack(Parse(s))| == |s| <==> AllRegular(Split(s, RECORD_SEPARATOR))
    ensures Pack(Parse(s)) == s <==> AllRegular(Split(s, RECORD_SEPARATOR))
  {
    var rows := Split(s, RECORD_SEPARATOR);
    JoinColumns(s, RECORD_SEPARATOR, Occurrences(s, RECORD_SEPARATOR) + 1);
    JoinLength(rows, RECORD_SEPARATOR);
    PackLength(Parse(s));
    ParsedSize(rows);
    if AllRegular(rows) {
      RegularRows(rows);
    }
  }

  lemma SizeRemove(list: seq<MetaData>, k: nat)
    requires k < |list|
    ensures Size(list) == |RowOf(list[k])| + 1 + Size(list[..k] + list[k + 1..])
  {
    var l, h := list[..k], list[k + 1..];
    assert list == l + ([list[k]] + h);
    SizeConcat(l, [list[k]] + h);
    assert ([list[k]] + h)[1..] == h;
    SizeConcat(l, h);
  }

  /** Reordering the items does not change the length of their packing. */
  lemma {:induction false} SizePermutation(a: seq<MetaData>, b: seq<MetaData>)
    requires multiset(a) == multiset(b)
    ensures Size(a) == Size(b)
  {
    assert |a| == |multiset(a)| == |multiset(b)| == |b|;
    if a == [] {
      assert b == [];
    } else {
      hide RowOf, Size;
      var k := PermutationRemove(a, b);
      assert a[..0] + a[1..] == a[1..];
      SizeRemove(a, 0);
      SizeRemove(b, k);
      SizePermutation(a[1..], b[..k] + b[k + 1..]);
    }
  }

  // ------------------------------------------------------------ in the buffer

  /** One separator found in the string t at p and overwritten: two strings, side by side. */
  lemma CutAt(b: seq<char>, b': seq<char>, p: int, t: string, i: nat)
    requires HoldsAt(b, p, t) && i < |t| && b' == b[p + i := NUL]
    ensures HoldsAt(b', p, t[..i]) && HoldsAt(b', p + i + 1, t[i + 1..])
    ensures p + |t| < |b| && b[p + i] == t[i]
  {
  }

  /** getOccurCount. */
  method GetOccurCount(src: string, sep: char) returns (count: nat)
    ensures count == Occurrences(src, sep)
  {
    hide Occurrences, IndexOf;
    count := 0;
    var p := IndexOf(src, sep);
    ghost var t := src;
    OccurrencesStep(t, sep);
    while p < |src|
      invariant |t| <= |src| && t == src[|src| - |t|..]
      invariant p == |src| - |t| + IndexOf(t, sep)
      invariant count + Occurrences(t, sep) == Occurrences(src, sep)
      decreases |t|
    {
      count := count + 1;
      OccurrencesStep(t, sep);
      t := t[IndexOf(t, sep) + 1..];
      assert t == src[p + 1..];
      p := p + 1 + IndexOf(src[p + 1..], sep);
    }
    OccurrencesStep(t, sep);
  }

  lemma OccurrencesStep(s: string, sep: char)
    ensures var i := IndexOf(s, sep);
            Occurrences(s, sep) == if i == |s| then 0 else 1 + Occurrences(s[i + 1..], sep)
  {
    hide IndexOf;
  }

  /** A split under way: the columns of s but the last stand, terminated, at cols, and the rest of
      s, still to be cut into n columns, stands at p. */
  ghost predicate Splitting(was: seq<char>, b: seq<char>, lo: nat, s: string, sep: char, total: nat,
                            cols: seq<nat>, done: seq<string>, p: nat, t: string, n: nat) {
    && 1 <= n && 1 <= total
    && HoldsAt(b, p, t) && lo <= p && p + |t| == lo + |s|
    && HoldAll(b, cols, done) && EndBefore(cols, done, p)
    && OnlyCuts(was, b, lo, lo + |s|, sep)
    && Columns(s, sep, total) == done + Columns(t, sep, n)
  }

  lemma StartSplit(b: seq<char>, p: nat, s: string, sep: char, total: nat)
    requires HoldsAt(b, p, s) && 1 <= total
    ensures Splitting(b, b, p, s, sep, total, [], [], p, s, total)
  {
  }

  lemma StepSplit(was: seq<char>, b: seq<char>, b': seq<char>, lo: nat, s: string, sep: char, total: nat,
                  cols: seq<nat>, done: seq<string>, p: nat, t: string, n: nat, i: nat)
    requires Splitting(was, b, lo, s, sep, total, cols, done, p, t, n) && sep != NUL
    requires 1 < n && i == IndexOf(t, sep) < |t| && b' == b[p + i := NUL]
    ensures Splitting(was, b', lo, s, sep, total, cols + [p], done + [t[..i]], p + i + 1, t[i + 1..], n - 1)
  {
    hide HoldsAt, HoldAll, EndBefore, OnlyCuts;
    OneMoreColumn(was, b, b', lo, lo + |s|, sep, cols, done, p, t, i);
    assert done + ([t[..i]] + Columns(t[i + 1..], sep, n - 1)) == done + [t[..i]] + Columns(t[i + 1..], sep, n - 1);
  }

  lemma EndSplit(was: seq<char>, b: seq<char>, lo: nat, s: string, sep: char, total: nat,
                 cols: seq<nat>, done: seq<string>, p: nat, t: string, n: nat)
    requires Splitting(was, b, lo, s, sep, total, cols, done, p, t, n)
    requires n == 1 || IndexOf(t, sep) == |t|
    ensures HoldAll(b, cols + [p], Columns(s, sep, total)) && OnlyCuts(was, b, lo, lo + |s|, sep)
  {
    hide HoldsAt, HoldAll, EndBefore, OnlyCuts;
    HoldOneMore(b, cols, done, p, t);
  }

  lemma SplittingHolds(was: seq<char>, b: seq<char>, lo: nat, s: string, sep: char, total: nat,
                       cols: seq<nat>, done: seq<string>, p: nat, t: string, n: nat)
    requires Splitting(was, b, lo, s, sep, total, cols, done, p, t, n)
    ensures HoldsAt(b, p, t)
  {
  }

  /** splitEx: the start positions of the columns.  Each separator used becomes a terminator, so
      that every position holds its column as a string; nothing else is written. */
  method SplitEx(src: array<char>, p0: nat, ghost s: string, sep: char, maxCols: int) returns (cols: seq<nat>)
    requires HoldsAt(src[..], p0, s) && sep != NUL
    modifies src
    ensures maxCols <= 0 ==> cols == [] && src[..] == old(src[..])
    ensures maxCols > 0 ==> HoldAll(src[..], cols, Columns(s, sep, maxCols))
    ensures maxCols > 0 ==> OnlyCuts(old(src[..]), src[..], p0, p0 + |s|, sep)
  {
    hide *;
    cols := [];
    if maxCols <= 0 {
      return;
    }
    ghost var was, done: seq<string>, t := src[..], [], s;
    StartSplit(was, p0, s, sep, maxCols);
    var count, p: nat := 0, p0;
    while true
      invariant count < maxCols
      invariant Splitting(was, src[..], p0, s, sep, maxCols, cols, done, p, t, maxCols - count)
      decreases maxCols - count
    {
      ghost var b, prev := src[..], cols;
      cols := cols + [p];
      count := count + 1;
      SplittingHolds(was, b, p0, s, sep, maxCols, prev, done, p, t, maxCols - count + 1);
      var i := CutColumn(src, p, t, sep, count >= maxCols);
      if i < 0 {
        EndSplit(was, b, p0, s, sep, maxCols, prev, done, p, t, maxCols - count + 1);
        break;
      }
      StepSplit(was, b, src[..], p0, s, sep, maxCols, prev, done, p, t, maxCols - count + 1, i);
      done, t := done + [t[..i]], t[i + 1..];
      p := p + i + 1;
    }
  }

  lemma OneMoreColumn(was: seq<char>, b: seq<char>, b': seq<char>, lo: nat, hi: nat, sep: char,
                      cols: seq<nat>, rows: seq<string>, p: nat, t: string, i: nat)
    requires HoldsAt(b, p, t) && lo <= p && p + |t| == hi && sep != NUL
    requires HoldAll(b, cols, rows) && EndBefore(cols, rows, p) && OnlyCuts(was, b, lo, hi, sep)
    requires i < |t| && t[i] == sep && b' == b[p + i := NUL]
    ensures HoldsAt(b', p + i + 1, t[i + 1..]) && OnlyCuts(was, b', lo, hi, sep)
    ensures HoldAll(b', cols + [p], rows + [t[..i]]) && EndBefore(cols + [p], rows + [t[..i]], p + i + 1)
  {
    CutAt(b, b', p, t, i);
    OneMoreCut(was, b, lo, hi, sep, p + i);
    HoldAllFrame(b, b', cols, rows, p);
    HoldOneMore(b', cols, rows, p, t[..i]);
  }

  /** Unless this is the last column, strchr and the overwriting of what it finds; -1 when the
      column takes all that is left. */
  method CutColumn(src: array<char>, p: nat, ghost t: string, sep: char, last: bool) returns (i: int)
    requires HoldsAt(src[..], p, t)
    modifies src
    ensures i == if last || IndexOf(t, sep) == |t| then -1 else IndexOf(t, sep)
    ensures i < 0 ==> src[..] == old(src[..])
    ensures 0 <= i ==> p + i < src.Length && src[..] == old(src[..])[p + i := NUL]
  {
    if last {
      return -1;
    }
    HoldsAtCStr(src[..], p, t);
    assert src[p..] == src[..][p..];
    var row := CStr(src[p..]);
    i := IndexOf(row, sep);
    if i == |row| {
      i := -1;
    } else {
      src[p + i] := NUL;
    }
  }

  /** b differs from was only where a separator between lo and hi became a terminator. */
  ghost predicate OnlyCuts(was: seq<char>, b: seq<char>, lo: nat, hi: nat, sep: char) {
    |b| == |was| && forall k | 0 <= k < |b| :: b[k] == was[k] || (lo <= k < hi && was[k] == sep && b[k] == NUL)
  }

  lemma OneMoreCut(was: seq<char>, b: seq<char>, lo: nat, hi: nat, sep: char, k: nat)
    requires OnlyCuts(was, b, lo, hi, sep) && sep != NUL
    requires lo <= k < hi && k < |b| && b[k] == sep
    ensures OnlyCuts(was, b[k := NUL], lo, hi, sep)
  {
  }

  /** Every position holds its row. */
  ghost predicate HoldAll(b: seq<char>, cols: seq<nat>, rows: seq<string>) {
    |cols| == |rows| && forall k | 0 <= k < |rows| :: HoldsAt(b, cols[k], rows[k])
  }

  ghost predicate EndBefore(cols: seq<nat>, rows: seq<string>, p: nat) {
    |cols| == |rows| && forall k | 0 <= k < |rows| :: cols[k] + |rows[k]| < p
  }

  lemma HoldAllFrame(b: seq<char>, b': seq<char>, cols: seq<nat>, rows: seq<string>, p: nat)
    requires HoldAll(b, cols, rows) && EndBefore(cols, rows, p)
    requires |b'| == |b| && p <= |b| && b'[..p] == b[..p]
    ensures HoldAll(b', cols, rows)
  {
    forall k | 0 <= k < |rows| ensures HoldsAt(b', cols[k], rows[k]) {
      assert cols[k] + |rows[k]| < p;
      assert b'[cols[k]..cols[k] + |rows[k]|] == b'[..p][cols[k]..cols[k] + |rows[k]|];
      assert b[cols[k]..cols[k] + |rows[k]|] == b[..p][cols[k]..cols[k] + |rows[k]|];
      assert b'[..p][cols[k] + |rows[k]|] == b[..p][cols[k] + |rows[k]|];
    }
  }

  lemma HoldOneMore(b: seq<char>, cols: seq<nat>, rows: seq<string>, p: nat, row: string)
    requires HoldAll(b, cols, rows) && HoldsAt(b, p, row)
    ensures HoldAll(b, cols + [p], rows + [row])
    ensures EndBefore(cols, rows, p) ==> EndBefore(cols + [p], rows + [row], p + |row| + 1)
  {
    assert forall k | 0 <= k < |rows| :: cols[k] + |rows[k]| < p ==> (cols + [p])[k] + |(rows + [row])[k]| < p;
  }

  lemma {:induction false} ParseRowsSnoc(rows: seq<string>, k: nat)
    requires k < |rows|
    ensures ParseRows(rows[..k + 1]) == ParseRows(rows[..k]) + ParseRow(rows[k])
  {
    hide ParseRow;
    if k == 0 {
      assert rows[..1][1..] == [] && rows[..0] == [];
      assert ParseRow(rows[0]) + [] == [] + ParseRow(rows[0]);
    } else {
      ParseRowsSnoc(rows[1..], k - 1);
      assert rows[..k + 1][1..] == rows[1..][..k] && rows[..k][1..] == rows[1..][..k - 1];
    }
  }

  /** fdfs_split_metadata_ex with the two separators of fdfs_split_metadata. */
  method SplitMetadata(metaBuff: array<char>, p: nat, ghost s: string) returns (metaList: seq<MetaData>)
    requires HoldsAt(metaBuff[..], p, s)
    modifies metaBuff
    ensures metaList == Parse(s)
    ensures OnlyCuts(old(metaBuff[..]), metaBuff[..], p, p + |s|, RECORD_SEPARATOR)
  {
    assert RECORD_SEPARATOR != NUL;
    hide *;
    var metaCount := CountRecords(metaBuff, p, s);
    var cols := SplitEx(metaBuff, p, s, RECORD_SEPARATOR, metaCount);
    ghost var rows := Columns(s, RECORD_SEPARATOR, metaCount);
    metaList := CollectItems(metaBuff, cols, rows);
    SplitMeaning(s);
  }

  method CountRecords(metaBuff: array<char>, p: nat, ghost s: string) returns (metaCount: nat)
    requires HoldsAt(metaBuff[..], p, s)
    ensures metaCount == Occurrences(s, RECORD_SEPARATOR) + 1
  {
    hide *;
    HoldsAtCStr(metaBuff[..], p, s);
    assert metaBuff[p..] == metaBuff[..][p..];
    metaCount := GetOccurCount(CStr(metaBuff[p..]), RECORD_SEPARATOR);
    metaCount := metaCount + 1;
  }

  lemma SplitMeaning(s: string)
    ensures Parse(s) == ParseRows(Columns(s, RECORD_SEPARATOR, Occurrences(s, RECORD_SEPARATOR) + 1))
  {
  }

  lemma HoldAllAt(b: seq<char>, cols: seq<nat>, rows: seq<string>, k: nat)
    requires HoldAll(b, cols, rows) && k < |rows|
    ensures |cols| == |rows| && HoldsAt(b, cols[k], rows[k])
  {
  }

  lemma HoldAllLength(b: seq<char>, cols: seq<nat>, rows: seq<string>)
    requires HoldAll(b, cols, rows)
    ensures |cols| == |rows|
  {
  }

  /** The loop over the rows: each is cut at its first field separator, and rows without one are
      skipped; names and values longer than their fields are cut short. */
  method CollectItems(metaBuff: array<char>, cols: seq<nat>, ghost rows: seq<string>) returns (metaList: seq<MetaData>)
    requires HoldAll(metaBuff[..], cols, rows)
    ensures metaList == ParseRows(rows)
  {
    hide HoldAll, HoldsAt, IndexOf, CStr, ParseRows, ParseRow, Free;
    metaList := [];
    HoldAllLength(metaBuff[..], cols, rows);
    NoRows();
    assert rows[..0] == [];
    for k := 0 to |cols|
      invariant metaList == ParseRows(rows[..k])
    {
      HoldAllAt(metaBuff[..], cols, rows, k);
      HoldsAtCStr(metaBuff[..], cols[k], rows[k]);
      ParseRowsSnoc(rows, k);
      assert metaBuff[cols[k]..] == metaBuff[..][cols[k]..];
      var row := CStr(metaBuff[cols[k]..]);
      assert row == rows[k];
      var separator := IndexOf(row, FIELD_SEPARATOR);
      if separator == |row| {
        NoItemInRow(row);
        continue;
      }
      var nameLen, valueLen := separator, |row| - separator - 1;
      if nameLen > MAX_NAME_LEN {
        nameLen := MAX_NAME_LEN;
      }
      if valueLen > MAX_VALUE_LEN {
        valueLen := MAX_VALUE_LEN;
      }
      var item := MetaData(row[..nameLen], row[separator + 1..separator + 1 + valueLen]);
      ItemOfRow(row, separator, nameLen, valueLen);
      metaList := metaList + [item];
    }
    assert rows[..|rows|] == rows;
  }

  lemma NoItemInRow(row: string)
    requires IndexOf(row, FIELD_SEPARATOR) == |row|
    ensures ParseRow(row) == []
  {
  }

  lemma ItemOfRow(row: string, i: nat, nameLen: nat, valueLen: nat)
    requires i == IndexOf(row, FIELD_SEPARATOR) < |row|
    requires nameLen == if i > MAX_NAME_LEN then MAX_NAME_LEN else i
    requires valueLen == if |row| - i - 1 > MAX_VALUE_LEN then MAX_VALUE_LEN else |row| - i - 1
    ensures ParseRow(row) == [MetaData(row[..nameLen], row[i + 1..i + 1 + valueLen])]
  {
    hide IndexOf;
  }

  lemma NoRows()
    ensures ParseRows([]) == []
  {
  }

  // ------------------------------------------------------------ packing

  /** The rows of a list, each followed by the separator. */
  function Records(list: seq<MetaData>): string {
    if list == [] then [] else RowOf(list[0]) + [RECORD_SEPARATOR] + Records(list[1..])
  }

  lemma {:induction false} RecordsPack(list: seq<MetaData>)
    requires list != []
    ensures Records(list) == Pack(list) + [RECORD_SEPARATOR]
  {
    assert RowsOf(list)[1..] == RowsOf(list[1..]);
    if |list| == 1 {
      assert Records(list) == RowOf(list[0]) + [RECORD_SEPARATOR] + [];
    } else {
      hide RowOf, RowsOf;
      RecordsPack(list[1..]);
      var row := RowOf(list[0]) + [RECORD_SEPARATOR];
      assert row + (Pack(list[1..]) + [RECORD_SEPARATOR]) == row + Pack(list[1..]) + [RECORD_SEPARATOR];
    }
  }

  lemma {:induction false} RecordsSnoc(list: seq<MetaData>, k: nat)
    requires k < |list|
    ensures Records(list[..k + 1]) == Records(list[..k]) + (RowOf(list[k]) + [RECORD_SEPARATOR])
  {
    hide RowOf;
    if k == 0 {
      assert list[..1][1..] == [] && list[..0] == [];
    } else {
      RecordsSnoc(list[1..], k - 1);
      assert list[..k + 1][1..] == list[1..][..k] && list[..k][1..] == list[1..][..k - 1];
    }
  }

  lemma {:induction false} RecordsLength(list: seq<MetaData>)
    ensures |Records(list)| == Size(list)
  {
    if list != [] {
      RecordsLength(list[1..]);
    }
  }

  lemma {:induction false} SizePrefix(list: seq<MetaData>, k: nat)
    requires k <= |list|
    ensures Size(list[..k]) <= Size(list)
  {
    SizeConcat(list[..k], list[k..]);
    assert list[..k] + list[k..] == list;
  }

  predicate NoNul(list: seq<MetaData>) {
    forall k | 0 <= k < |list| :: Free(list[k].name, NUL) && Free(list[k].value, NUL)
  }

  lemma {:induction false} RecordsNoNul(list: seq<MetaData>)
    requires NoNul(list)
    ensures Free(Records(list), NUL)
  {
    if list != [] {
      assert Free(list[0].name, NUL) && Free(list[0].value, NUL);
      assert forall k | 0 <= k < |list[1..]| :: list[1..][k] == list[k + 1];
      RecordsNoNul(list[1..]);
    }
  }

  /** One round of the packing loop. */
  method PackItem(m: MetaData, metaBuff: array<char>, p0: nat) returns (p: nat)
    requires p0 + |RowOf(m)| + 1 <= metaBuff.Length
    modifies metaBuff
    ensures p == p0 + |RowOf(m)| + 1
    ensures metaBuff[p0..p] == RowOf(m) + [RECORD_SEPARATOR]
    ensures forall k | 0 <= k < p0 || p <= k < metaBuff.Length :: metaBuff[k] == old(metaBuff[k])
  {
    p := p0;
    CopyInto(metaBuff, p, m.name);
    p := p + |m.name|;
    metaBuff[p] := FIELD_SEPARATOR;
    p := p + 1;
    CopyInto(metaBuff, p, m.value);
    p := p + |m.value|;
    metaBuff[p] := RECORD_SEPARATOR;
    p := p + 1;
    ghost var b := metaBuff[..];
    assert b[p0..p0 + |m.name|] == m.name;
    assert b[p0 + |m.name| + 1..p - 1] == m.value;
    FourParts(b, p0, m.name, FIELD_SEPARATOR, m.value, RECORD_SEPARATOR);
  }

  lemma FourParts(b: seq<char>, p: nat, x: string, c: char, y: string, d: char)
    requires p + |x| + 1 + |y| < |b|
    requires b[p..p + |x|] == x && b[p + |x|] == c
    requires b[p + |x| + 1..p + |x| + 1 + |y|] == y && b[p + |x| + 1 + |y|] == d
    ensures b[p..p + |x| + |y| + 2] == x + [c] + y + [d]
  {
    var q := p + |x| + 1;
    assert b[p..q + |y| + 1] == b[p..p + |x|] + [b[p + |x|]] + b[q..q + |y|] + [b[q + |y|]];
  }

  /** fdfs_pack_metadata into a given buffer.  The last separator gives way to the terminator; for
      an empty list that step lands one byte before the start. */
  method PackMetadata(metaList: seq<MetaData>, metaBuff: array<char>, p0: nat) returns (buffBytes: int)
    requires p0 + Size(metaList) <= metaBuff.Length
    requires metaList == [] ==> 1 <= p0 <= metaBuff.Length
    requires NoNul(metaList)
    modifies metaBuff
    ensures metaList != [] ==> buffBytes == |Pack(metaList)| && HoldsAt(metaBuff[..], p0, Pack(metaList))
    ensures metaList == [] ==> buffBytes == -1 && metaBuff[..] == old(metaBuff[..])[p0 - 1 := NUL]
    ensures metaList != [] ==>
              forall k | 0 <= k < p0 || p0 + Size(metaList) <= k < metaBuff.Length :: metaBuff[k] == old(metaBuff[k])
  {
    hide RowOf, Records, Pack, HoldsAt, NoNul;
    var p := p0;
    EmptyRecords();
    assert metaList[..0] == [];
    for curr := 0 to |metaList|
      invariant p == p0 + |Records(metaList[..curr])| <= metaBuff.Length
      invariant metaBuff[p0..p] == Records(metaList[..curr])
      invariant forall k | 0 <= k < p0 || p <= k < metaBuff.Length :: metaBuff[k] == old(metaBuff[k])
    {
      RecordsSnoc(metaList, curr);
      RecordsLength(metaList[..curr + 1]);
      SizePrefix(metaList, curr + 1);
      p := PackItem(metaList[curr], metaBuff, p);
    }
    assert metaList[..|metaList|] == metaList;
    RecordsLength(metaList);
    ghost var packed := metaBuff[..];
    p := p - 1;
    metaBuff[p] := NUL;
    buffBytes := p - p0;
    if metaList != [] {
      RecordsPack(metaList);
      PackedHolds(packed, metaBuff[..], p0, metaList);
    }
  }

  /** Bytes of an FDFSMetaData: both buffers with their terminators. */
  const ITEM_SIZE := MAX_NAME_LEN + 1 + MAX_VALUE_LEN + 1

  predicate WithinLimits(list: seq<MetaData>) {
    forall k | 0 <= k < |list| :: |list[k].name| <= MAX_NAME_LEN && |list[k].value| <= MAX_VALUE_LEN
  }

  lemma {:induction false} SizeWithinLimits(list: seq<MetaData>)
    requires WithinLimits(list)
    ensures Size(list) <= |list| * ITEM_SIZE
  {
    if list != [] {
      assert forall k | 0 <= k < |list[1..]| :: list[1..][k] == list[k + 1];
      SizeWithinLimits(list[1..]);
    }
  }

  /** fdfs_pack_metadata without a buffer: the one it allocates, by the size of the items in memory,
      is always enough for their packed form. */
  method PackMetadataNew(metaList: seq<MetaData>) returns (metaBuff: array<char>, buffBytes: int)
    requires metaList != [] && NoNul(metaList) && WithinLimits(metaList)
    ensures fresh(metaBuff) && metaBuff.Length == |metaList| * ITEM_SIZE
    ensures buffBytes == |Pack(metaList)| && HoldsAt(metaBuff[..], 0, Pack(metaList))
  {
    hide Pack, HoldsAt, NoNul, Size;
    SizeWithinLimits(metaList);
    metaBuff := new char[|metaList| * ITEM_SIZE];
    buffBytes := PackMetadata(metaList, metaBuff, 0);
  }

  lemma EmptyRecords()
    ensures Records([]) == []
  {
  }

  lemma PackedHolds(b: seq<char>, b': seq<char>, p0: nat, list: seq<MetaData>)
    requires list != [] && NoNul(list)
    requires p0 + |Records(list)| <= |b| && b[p0..p0 + |Records(list)|] == Records(list)
    requires |Records(list)| > 0 && b' == b[p0 + |Records(list)| - 1 := NUL]
    ensures HoldsAt(b', p0, Pack(list))
  {
    hide Records, Pack, NoNul;
    RecordsPack(list);
    RecordsNoNul(list);
    var n := |Pack(list)|;
    assert b'[p0..p0 + n] == b[p0..p0 + n] == b[p0..p0 + n + 1][..n] == Pack(list);
    assert Free(Pack(list), NUL) by {
      assert forall k | 0 <= k < n :: Records(list)[k] == Pack(list)[k];
    }
  }

  // ------------------------------------------------------------ canonical order, in place

  /** metadata_cmp_by_name. */
  function MetadataCmpByName(a: MetaData, b: MetaData): int { Strcmp(a.name, b.name) }

  lemma NameOrder()
    ensures TotalPreorder(MetadataCmpByName)
  {
    forall x: MetaData, y: MetaData
      ensures MetadataCmpByName(x, y) < 0 <==> MetadataCmpByName(y, x) > 0
    {
      StrcmpAntisymmetric(x.name, y.name);
    }
    forall x: MetaData, y: MetaData, z: MetaData | MetadataCmpByName(x, y) <= 0 && MetadataCmpByName(y, z) <= 0
      ensures MetadataCmpByName(x, z) <= 0
    {
      StrcmpTransitive(x.name, y.name, z.name);
    }
  }

  /** No name comes before that of an earlier item. */
  ghost predicate Ascending(list: seq<MetaData>) {
    forall i, j | 0 <= i < j < |list| :: !Before(list[j].name, list[i].name)
  }

  /** What qsort calls sorted is ascending in dictionary order. */
  lemma SortedIsAscending(list: seq<MetaData>)
    ensures Sorted(list, MetadataCmpByName) <==> Ascending(list)
  {
    hide Strcmp, Before;
    forall i, j | 0 <= i < j < |list|
      ensures MetadataCmpByName(list[i], list[j]) <= 0 <==> !Before(list[j].name, list[i].name)
    {
      StrcmpIsOrder(list[i].name, list[j].name);
    }
  }

  /** A permutation of the items of s with their names ascending: all that qsort promises. */
  ghost predicate Canonical(sorted: seq<MetaData>, s: string) {
    multiset(sorted) == multiset(Parse(s)) && Ascending(sorted)
  }

  lemma AllWellFormedPermutation(a: seq<MetaData>, b: seq<MetaData>)
    requires multiset(a) == multiset(b) && AllWellFormed(a)
    ensures AllWellFormed(b)
  {
    forall k | 0 <= k < |b| ensures WellFormed(b[k]) {
      var j := FindIn(b[k], b, a);
      assert WellFormed(a[j]);
    }
  }

  lemma NoNulPermutation(a: seq<MetaData>, b: seq<MetaData>)
    requires multiset(a) == multiset(b) && NoNul(a)
    ensures NoNul(b)
  {
    forall k | 0 <= k < |b| ensures Free(b[k].name, NUL) && Free(b[k].value, NUL) {
      var j := FindIn(b[k], b, a);
      assert Free(a[j].name, NUL);
    }
  }

  /** Putting the items in order loses none of them, never needs a longer buffer, and keeps the
      length exactly when every row of the original is regular. */
  lemma CanonicalPacking(sorted: seq<MetaData>, s: string)
    requires Canonical(sorted, s)
    ensures Size(sorted) <= |s| + 1
    ensures sorted != [] ==>
              && |Pack(sorted)| + 1 == Size(sorted)
              && Parse(Pack(sorted)) == sorted
              && (|Pack(sorted)| == |s| <==> AllRegular(Split(s, RECORD_SEPARATOR)))
  {
    hide *;
    CanonicalMeaning(sorted, s);
    SizePermutation(sorted, Parse(s));
    ParsedLength(s);
    ParseWellFormed(s);
    AllWellFormedPermutation(Parse(s), sorted);
    if sorted != [] {
      PackLength(sorted);
      ParsePack(sorted);
    }
  }

  lemma CanonicalMeaning(sorted: seq<MetaData>, s: string)
    requires Canonical(sorted, s)
    ensures multiset(sorted) == multiset(Parse(s)) && Ascending(sorted) && |sorted| == |Parse(s)|
  {
    hide Ascending;
    assert |multiset(sorted)| == |multiset(Parse(s))|;
  }

  lemma ParsedLength(s: string)
    ensures Size(Parse(s)) <= |s| + 1
    ensures Size(Parse(s)) == |s| + 1 <==> AllRegular(Split(s, RECORD_SEPARATOR))
  {
    var rows := Split(s, RECORD_SEPARATOR);
    JoinColumns(s, RECORD_SEPARATOR, Occurrences(s, RECORD_SEPARATOR) + 1);
    JoinLength(rows, RECORD_SEPARATOR);
    ParsedSize(rows);
  }

  lemma {:induction false} ParseRowsNoNul(rows: seq<string>)
    requires AllFree(rows, NUL)
    ensures NoNul(ParseRows(rows))
  {
    if rows != [] {
      assert Free(rows[0], NUL);
      assert NoNul(ParseRow(rows[0]));
      assert forall k | 0 <= k < |rows[1..]| :: rows[1..][k] == rows[k + 1];
      ParseRowsNoNul(rows[1..]);
    }
  }

  lemma {:induction false} ColumnsFree(s: string, sep: char, n: nat, c: char)
    requires 1 <= n && Free(s, c)
    ensures AllFree(Columns(s, sep, n), c)
    decreases |s|
  {
    var i := IndexOf(s, sep);
    if n > 1 && i < |s| {
      ColumnsFree(s[i + 1..], sep, n - 1, c);
    }
  }

  lemma ParseNoNul(s: string)
    requires Free(s, NUL)
    ensures NoNul(Parse(s))
  {
    ColumnsFree(s, RECORD_SEPARATOR, Occurrences(s, RECORD_SEPARATOR) + 1, NUL);
    ParseRowsNoNul(Split(s, RECORD_SEPARATOR));
  }

  /** storage_sort_metadata_buff: splits the string s at p, sorts its items and packs them back
      into the same place.  When at least one row is kept, nothing before p or past the
      terminator of s is written.  When none is, the separators of s stay overwritten and the
      byte before p is cleared. */
  method SortMetadataBuff(metaBuff: array<char>, p: nat, ghost s: string) returns (ghost sorted: seq<MetaData>)
    requires 1 <= p && HoldsAt(metaBuff[..], p, s)
    modifies metaBuff
    ensures Canonical(sorted, s) && multiset(sorted) == multiset(Parse(s)) && Ascending(sorted)
    ensures sorted != [] ==>
              && HoldsAt(metaBuff[..], p, Pack(sorted))
              && Unwritten(old(metaBuff[..]), metaBuff[..], p, p + |s| + 1)
    ensures sorted == [] ==>
              && metaBuff[p - 1] == NUL
              && OnlyCuts(old(metaBuff[..])[p - 1 := NUL], metaBuff[..], p, p + |s|, RECORD_SEPARATOR)
  {
    hide *;
    ghost var was := metaBuff[..];
    HoldsAtCStr(was, p, s);
    var metaList := SplitMetadata(metaBuff, p, s);
    ghost var cut := metaBuff[..];
    NameOrder();
    var ordered := Qsort(metaList, MetadataCmpByName);
    sorted := ordered;
    FitsInPlace(was, p, s, ordered);
    CanonicalMeaning(ordered, s);
    var metaBytes := PackMetadata(ordered, metaBuff, p);
    if ordered == [] {
      ByteBeforeCleared(was, cut, p, |s|);
    } else {
      OutsideUnwritten(was, cut, metaBuff[..], p, |s|, Size(ordered));
    }
  }

  /** b is was outside lo..hi. */
  ghost predicate Unwritten(was: seq<char>, b: seq<char>, lo: nat, hi: nat) {
    |b| == |was| && forall k | 0 <= k < |b| && (k < lo || hi <= k) :: b[k] == was[k]
  }

  lemma FitsInPlace(b: seq<char>, p: nat, s: string, sorted: seq<MetaData>)
    requires HoldsAt(b, p, s)
    requires multiset(sorted) == multiset(Parse(s)) && Sorted(sorted, MetadataCmpByName)
    ensures Canonical(sorted, s) && NoNul(sorted)
    ensures Size(sorted) <= |s| + 1 && p + |s| + 1 <= |b|
  {
    SortedIsAscending(sorted);
    hide Ascending, Sorted;
    CanonicalPacking(sorted, s);
    ParseNoNul(s);
    NoNulPermutation(Parse(s), sorted);
  }

  lemma OutsideUnwritten(was: seq<char>, cut: seq<char>, b: seq<char>, p: nat, n: nat, size: nat)
    requires p + n < |was| && size <= n + 1 && |b| == |cut|
    requires |cut| == |b| && OnlyCuts(was, cut, p, p + n, RECORD_SEPARATOR)
    requires forall k | 0 <= k < p || p + size <= k < |b| :: b[k] == cut[k]
    ensures Unwritten(was, b, p, p + n + 1)
  {
  }

  lemma ByteBeforeCleared(was: seq<char>, cut: seq<char>, p: nat, n: nat)
    requires 1 <= p && p + n < |was| && OnlyCuts(was, cut, p, p + n, RECORD_SEPARATOR)
    ensures |cut| == |was| && OnlyCuts(was[p - 1 := NUL], cut[p - 1 := NUL], p, p + n, RECORD_SEPARATOR)
  {
  }

  /** What storage_save_file then writes to the metadata file, the metaSize bytes from p on: read
      as a string it always parses to the sorted items, and it is exactly their packed form if
      and only if the declared size was the string's length and all its rows were regular. */
  lemma SavedBytes(b: seq<char>, p: nat, s: string, metaSize: nat, sorted: seq<MetaData>)
    requires sorted != [] && Canonical(sorted, s) && HoldsAt(b, p, Pack(sorted))
    requires |s| <= metaSize && p + metaSize < |b|
    ensures Parse(CStr(b[p..p + metaSize])) == sorted
    ensures b[p..p + metaSize] == Pack(sorted) <==> metaSize == |s| && AllRegular(Split(s, RECORD_SEPARATOR))
  {
    hide Pack, Parse, Canonical, AllRegular, Split;
    CanonicalPacking(sorted, s);
    var packed, saved := Pack(sorted), b[p..p + metaSize];
    assert saved[..|packed|] == b[p..p + |packed|];
    if |packed| < metaSize {
      CStrAt(saved, |packed|);
    } else {
      assert saved == packed;
      CStrOf(packed, []);
    }
  }
}
