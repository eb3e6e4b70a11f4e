/** Configuration and status files: ini_file_reader.c.  A file is a list of "name=value" lines. */
module Ini {
  import opened CStrings
  import opened Numbers
  import opened Sorting
  import opened Store
  import opened Trimming

  const LINE_BUFFER_SIZE := 512
  const ALLOC_ITEMS_ONCE := 8
  const NAME_LEN := 64
  const VALUE_LEN := 128

  datatype IniItem = IniItem(name: string, value: string)

  // ------------------------------------------------------------ lines

  /** How many chars one fgets takes: up to a newline, and no more than the line buffer has room for. */
  function ChunkLength(content: string): (n: nat)
    ensures n <= |content| && n < LINE_BUFFER_SIZE
    ensures content != [] ==> 1 <= n
  {
    var line := IndexOf(content, '\n');
    var n := if line < |content| then line + 1 else line;
    if n >= LINE_BUFFER_SIZE then LINE_BUFFER_SIZE - 1 else n
  }

  /** What the calls of fgets return, one after the other. */
  function Chunks(content: string): seq<string>
    decreases |content|
  {
    if content == [] then [] else [content[..ChunkLength(content)]] + Chunks(content[ChunkLength(content)..])
  }

  function Concat(lines: seq<string>): string {
    if lines == [] then [] else lines[0] + Concat(lines[1..])
  }

  /** A line as fgets reads it in one go. */
  predicate IsLine(line: string) {
    0 < |line| < LINE_BUFFER_SIZE && line[|line| - 1] == '\n' && Free(line[..|line| - 1], '\n')
  }

  lemma ChunkIsLine(content: string)
    requires ChunkLength(content) < |content|
    ensures var chunk := content[..ChunkLength(content)];
            IsLine(chunk) || |chunk| == LINE_BUFFER_SIZE - 1
  {
    var n := ChunkLength(content);
    IndexOfFirst(content, '\n');
    assert content[..n][..n - 1] == content[..n - 1];
  }

  /** Nothing of a file is lost, and only a full buffer or the end of the file can cut a line. */
  lemma {:induction false} ChunksCover(content: string)
    ensures Concat(Chunks(content)) == content
    ensures forall k | 0 <= k < |Chunks(content)| - 1 :: IsLine(Chunks(content)[k]) || |Chunks(content)[k]| == LINE_BUFFER_SIZE - 1
    decreases |content|
  {
    hide ChunkLength, IsLine;
    if content != [] {
      var n := ChunkLength(content);
      ChunksCover(content[n..]);
      if n < |content| {
        ChunkIsLine(content);
      }
      assert content == content[..n] + content[n..];
    }
  }

  /** A file of short lines is read line by line. */
  lemma {:induction false} ChunksOfLines(lines: seq<string>)
    requires forall k | 0 <= k < |lines| :: IsLine(lines[k])
    ensures Chunks(Concat(lines)) == lines
  {
    if lines != [] {
      var line, rest := lines[0], Concat(lines[1..]);
      var content := line + rest;
      var n := |line|;
      assert IsLine(line);
      assert content[..n - 1] == line[..n - 1] && content[n - 1] == '\n';
      IndexOfUnique(content, '\n', n - 1);
      assert content[..n] == line && content[n..] == rest;
      assert ChunkLength(content) == n;
      hide ChunkLength, IndexOf;
      ChunksOfLines(lines[1..]);
    }
  }

  // ------------------------------------------------------------ items

  /** The item a trimmed line holds, if any. */
  function ItemOfLine(line: string): (items: seq<IniItem>)
    ensures |items| <= 1
  {
    var i := IndexOf(line, '=');
    if line == [] || line[0] == '#' || i == |line| then []
    else [IniItem(Trimmed(Cut(line[..i], NAME_LEN)), Trimmed(Cut(line[i + 1..], VALUE_LEN)))]
  }

  /** What a trimmed line says, however long its parts.  A comment, an empty line and a line without an
      equals sign say nothing; otherwise the name ends at the first equals sign, and each part is cut
      to its limit and trimmed. */
  lemma LineSays(line: string, name: string, value: string)
    ensures line == [] || line[0] == '#' || Free(line, '=') ==> ItemOfLine(line) == []
    ensures line == name + "=" + value && Free(name, '=') && line[0] != '#' ==>
              ItemOfLine(line) == [IniItem(Trimmed(Cut(name, 64)), Trimmed(Cut(value, 128)))]
  {
    hide Trimmed, Cut;
    if line == name + "=" + value && Free(name, '=') {
      assert line[..|name|] == name && line[|name|] == '=' && line[|name| + 1..] == value;
      IndexOfUnique(line, '=', |name|);
    } else if Free(line, '=') {
      assert line[..|line|] == line;
      IndexOfUnique(line, '=', |line|);
    }
  }

  /** A chunk whose first char that is not blank is '#' is a comment, whatever it says. */
  lemma CommentSaysNothing(blanks: string, rest: string)
    requires Blank(blanks) && Free(rest, NUL)
    ensures ItemOfChunk(blanks + "#" + rest) == []
  {
    var line := blanks + "#" + rest;
    assert Free(line, NUL);
    CStrOf(line, []);
    FirstAfterTrim(blanks, "#" + rest);
    assert line == blanks + ("#" + rest);
    hide Trimmed;
    LineSays(Trimmed(line), "", "");
  }

  lemma FirstAfterTrim(blanks: string, rest: string)
    requires Blank(blanks) && rest != [] && !IsBlank(rest[0])
    ensures var t := Trimmed(blanks + rest); t != [] && t[0] == rest[0]
  {
    var s := blanks + rest;
    var i, j := TrimmedCut(s);
    hide Trimmed;
    assert forall k | 0 <= k < i :: IsBlank(s[..i][k]) && s[..i][k] == s[k];
    assert forall k | j <= k < |s| :: IsBlank(s[j..][k - j]) && s[j..][k - j] == s[k];
    assert s[|blanks|] == rest[0] && i <= |blanks| < j;
    assert s[i..j][0] == s[i];
    assert forall k | 0 <= k < |blanks| :: s[k] == blanks[k];
  }

  function ItemOfChunk(chunk: string): seq<IniItem> { ItemOfLine(Trimmed(CStr(chunk))) }

  function ItemsOfChunks(chunks: seq<string>): seq<IniItem> {
    if chunks == [] then [] else ItemOfChunk(chunks[0]) + ItemsOfChunks(chunks[1..])
  }

  /** The items of a file, in file order. */
  function Loaded(content: string): seq<IniItem> { ItemsOfChunks(Chunks(content)) }

  lemma LoadedStep(content: string)
    requires content != []
    ensures var n := ChunkLength(content);
            Loaded(content) == ItemOfChunk(content[..n]) + Loaded(content[n..])
  {
    hide ItemOfChunk, ChunkLength;
    var n := ChunkLength(content);
    var rest := Chunks(content[n..]);
    assert ([content[..n]] + rest)[1..] == rest;
  }

  /** When each chunk holds one item, these are the items. */
  lemma {:induction false} OneItemEach(chunks: seq<string>, list: seq<IniItem>)
    requires |chunks| == |list| && forall k | 0 <= k < |chunks| :: ItemOfChunk(chunks[k]) == [list[k]]
    ensures ItemsOfChunks(chunks) == list
  {
    hide ItemOfChunk;
    if chunks != [] {
      assert forall k | 0 <= k < |chunks[1..]| :: chunks[1..][k] == chunks[k + 1] && list[1..][k] == list[k + 1];
      OneItemEach(chunks[1..], list[1..]);
      assert list == [list[0]] + list[1..];
    }
  }

  /** A trimmed assignment is read back. */
  lemma ItemOfText(name: string, value: string)
    requires name != [] && |name| <= NAME_LEN && |value| <= VALUE_LEN && NoBlankEnds(name) && NoBlankEnds(value)
    requires Free(name, '=') && name[0] != '#'
    ensures ItemOfLine(name + "=" + value) == [IniItem(name, value)]
  {
    hide Trimmed;
    var line := name + "=" + value;
    assert line[..|name|] == name && line[|name| + 1..] == value;
    IndexOfUnique(line, '=', |name|);
    TrimmedAlready(name);
    TrimmedAlready(value);
  }

  lemma TrimmedAlready(s: string)
    requires NoBlankEnds(s)
    ensures Trimmed(s) == s
  {
    hide Trimmed;
    TrimmedUnique([], s, []);
    assert [] + s + [] == s;
  }

  /** A line that says name=value is read back. */
  lemma ItemOfAssignment(name: string, value: string)
    requires name != [] && |name| <= NAME_LEN && |value| <= VALUE_LEN && NoBlankEnds(name) && NoBlankEnds(value)
    requires Free(name, '=') && name[0] != '#' && value != []
    requires Free(name, NUL) && Free(value, NUL)
    ensures ItemOfChunk(name + "=" + value + "\n") == [IniItem(name, value)]
  {
    hide Trimmed, ItemOfLine, IndexOf;
    var line := name + "=" + value;
    ItemOfText(name, value);
    AssignmentFree(name, value);
    CStrOf(line + "\n", []);
    assert [] + line + "\n" == line + "\n";
    TrimmedUnique([], line, "\n");
  }

  lemma AssignmentFree(name: string, value: string)
    requires name != [] && value != [] && NoBlankEnds(name) && NoBlankEnds(value)
    requires Free(name, NUL) && Free(value, NUL)
    ensures NoBlankEnds(name + "=" + value) && Free(name + "=" + value + "\n", NUL)
  {
  }

  /** What every loaded item is like. */
  predicate IsItem(m: IniItem) {
    && |m.name| <= NAME_LEN && |m.value| <= VALUE_LEN
    && NoBlankEnds(m.name) && NoBlankEnds(m.value)
    && Free(m.name, NUL) && Free(m.name, '=') && Free(m.value, NUL)
  }

  lemma TrimmedPart(s: string)
    ensures var t := Trimmed(s);
            |t| <= |s| && NoBlankEnds(t) && forall c :: Free(s, c) ==> Free(t, c)
  {
    var i, j := TrimmedCut(s);
    hide Trimmed, Blank, NoBlankEnds;
  }

  lemma PartIsTrimmed(s: string, n: nat)
    ensures var t := Trimmed(Cut(s, n));
            |t| <= n && NoBlankEnds(t) && forall c :: Free(s, c) ==> Free(t, c)
  {
    hide Trimmed, NoBlankEnds;
    TrimmedPart(Cut(s, n));
  }

  lemma ItemIsItem(line: string)
    requires Free(line, NUL)
    ensures forall m | m in ItemOfLine(line) :: IsItem(m)
  {
    hide Trimmed;
    var i := IndexOf(line, '=');
    IndexOfFirst(line, '=');
    if i < |line| {
      PartIsTrimmed(line[..i], NAME_LEN);
      PartIsTrimmed(line[i + 1..], VALUE_LEN);
      assert Free(line[..i], NUL) && Free(line[i + 1..], NUL);
    }
  }

  lemma {:induction false} ItemsAreItems(chunks: seq<string>)
    ensures forall m | m in ItemsOfChunks(chunks) :: IsItem(m)
  {
    hide IsItem, ItemOfLine, Trimmed;
    if chunks != [] {
      var s := CStr(chunks[0]);
      CStrFree(chunks[0]);
      var i, j := TrimmedCut(s);
      ItemIsItem(Trimmed(s));
      ItemsAreItems(chunks[1..]);
    }
  }

  lemma LoadedShape(content: string)
    ensures forall m | m in Loaded(content) :: IsItem(m)
  {
    ItemsAreItems(Chunks(content));
  }

  // ------------------------------------------------------------ the table of items

  /** An IniItemInfo: two buffers of 65 and 129 chars. */
  datatype Slot = Slot(name: string, value: string)

  function Zeros(n: nat): (z: string)
    ensures |z| == n && forall i | 0 <= i < n :: z[i] == NUL
  {
    seq(n, _ => NUL)
  }

  function ZeroSlot(): Slot { Slot(Zeros(NAME_LEN + 1), Zeros(VALUE_LEN + 1)) }

  /** The item a slot holds. */
  function ItemIn(s: Slot): IniItem { IniItem(CStr(s.name), CStr(s.value)) }

  function ItemsIn(slots: seq<Slot>): (items: seq<IniItem>)
    ensures |items| == |slots|
    ensures forall k | 0 <= k < |slots| :: items[k] == ItemIn(slots[k])
  {
    seq(|slots|, k requires 0 <= k < |slots| => ItemIn(slots[k]))
  }

  /** The names fit their buffers. */
  predicate Shaped(slots: seq<Slot>) { forall k | 0 <= k < |slots| :: |CStr(slots[k].name)| <= NAME_LEN }

  /** compareByItemName. */
  function CompareByItemName(p: Slot, q: Slot): int { Strcmp(CStr(p.name), CStr(q.name)) }

  lemma NameOrder()
    ensures TotalPreorder(CompareByItemName)
  {
    forall x: Slot, y: Slot
      ensures CompareByItemName(x, y) < 0 <==> CompareByItemName(y, x) > 0
    {
      StrcmpAntisymmetric(CStr(x.name), CStr(y.name));
    }
    forall x: Slot, y: Slot, z: Slot | CompareByItemName(x, y) <= 0 && CompareByItemName(y, z) <= 0
      ensures CompareByItemName(x, z) <= 0
    {
      StrcmpTransitive(CStr(x.name), CStr(y.name), CStr(z.name));
    }
  }

  /** No item's name comes before that of an earlier one. */
  ghost predicate Ascending(list: seq<IniItem>) {
    forall i, j | 0 <= i < j < |list| :: !Before(list[j].name, list[i].name)
  }

  /** What qsort and bsearch call sorted is ascending in dictionary order. */
  lemma SortedIsAscending(slots: seq<Slot>)
    ensures Sorted(slots, CompareByItemName) <==> Ascending(ItemsIn(slots))
  {
    hide Strcmp, Before, CStr;
    forall i, j | 0 <= i < j < |slots|
      ensures CompareByItemName(slots[i], slots[j]) <= 0 <==> !Before(ItemsIn(slots)[j].name, ItemsIn(slots)[i].name)
    {
      StrcmpIsOrder(CStr(slots[i].name), CStr(slots[j].name));
    }
  }

  // ------------------------------------------------------------ loading

  /** fgets: one chunk and its terminator; what was behind it in the buffer stays. */
  method ReadLine(lineBuff: array<char>, content: string) returns (n: nat)
    requires lineBuff.Length == LINE_BUFFER_SIZE
    modifies lineBuff
    ensures n == ChunkLength(content)
    ensures HoldsAt(lineBuff[..], 0, CStr(content[..n]))
  {
    n := ChunkLength(content);
    CopyInto(lineBuff, 0, content[..n] + [NUL]);
    ChunkHolds(lineBuff[..], content[..n]);
  }

  lemma ChunkHolds(b: seq<char>, chunk: string)
    requires |chunk| < |b| && b[0..|chunk| + 1] == chunk + [NUL]
    ensures HoldsAt(b, 0, CStr(chunk))
  {
    var s := CStr(chunk);
    CStrFree(chunk);
    assert forall k | 0 <= k <= |chunk| :: b[k] == (chunk + [NUL])[k];
  }

  /** trim on a buffer inside a slot. */
  method TrimField(raw: string, ghost s: string) returns (trimmed: string)
    requires HoldsAt(raw, 0, s)
    ensures |trimmed| == |raw| && HoldsAt(trimmed, 0, Trimmed(s))
  {
    hide HoldsAt, Trimmed;
    var b := new char[|raw|];
    CopyInto(b, 0, raw);
    assert b[..] == b[0..0 + |raw|];
    Trim(b, s);
    trimmed := b[..];
  }

  /** memcpy of a part of the line to the front of a zeroed buffer, and trim. */
  method FillField(zeros: string, text: string) returns (field: string)
    requires |text| < |zeros| && zeros == Zeros(|zeros|) && Free(text, NUL)
    ensures |field| == |zeros| && CStr(field) == Trimmed(text)
  {
    var raw := text + zeros[|text|..];
    assert raw[0..|text|] == text;
    field := TrimField(raw, text);
    HoldsAtCStr(field, 0, Trimmed(text));
    assert field[0..] == field;
  }

  lemma CutIs(s: string, n: nat, m: nat)
    requires m == if |s| > n then n else |s|
    ensures Cut(s, n) == s[..m]
  {
  }

  lemma ItemOfParts(line: string, i: nat, nameLen: nat, valueLen: nat)
    requires i == IndexOf(line, '=') < |line| && line[0] != '#'
    requires nameLen == if i > NAME_LEN then NAME_LEN else i
    requires valueLen == if |line| - (i + 1) > VALUE_LEN then VALUE_LEN else |line| - (i + 1)
    ensures ItemOfLine(line) == [IniItem(Trimmed(line[..i][..nameLen]), Trimmed(line[i + 1..][..valueLen]))]
  {
    hide Trimmed, Cut, IndexOf;
    CutIs(line[..i], NAME_LEN, nameLen);
    CutIs(line[i + 1..], VALUE_LEN, valueLen);
  }

  /** The part of the load loop that reads a trimmed line: where name and value are, cut to size. */
  method ParseLine(lineBuff: array<char>, ghost line: string) returns (found: bool, name: string, value: string)
    requires HoldsAt(lineBuff[..], 0, line)
    ensures ItemOfLine(line) == if found then [IniItem(Trimmed(name), Trimmed(value))] else []
    ensures |name| <= NAME_LEN && |value| <= VALUE_LEN && Free(name, NUL) && Free(value, NUL)
  {
    hide Trimmed;
    HoldsAtCStr(lineBuff[..], 0, line);
    assert lineBuff[..][0..] == lineBuff[..];
    assert forall k | 0 <= k < |line| :: lineBuff[k] == line[k];
    found, name, value := false, "", "";
    if lineBuff[0] == '#' || lineBuff[0] == NUL {
      return;
    }
    var str := CStr(lineBuff[..]);
    var nameLen := IndexOf(str, '=');
    if nameLen == |str| {
      return;
    }
    var valueLen := |str| - (nameLen + 1);
    var equal := nameLen;
    if nameLen > NAME_LEN {
      nameLen := NAME_LEN;
    }
    if valueLen > VALUE_LEN {
      valueLen := VALUE_LEN;
    }
    name, value := lineBuff[0..nameLen], lineBuff[equal + 1..equal + 1 + valueLen];
    assert name == line[..equal][..nameLen] && value == line[equal + 1..][..valueLen];
    ItemOfParts(line, equal, nameLen, valueLen);
    found := true;
  }

  /** The first count slots hold the list of items, and the others are zero. */
  ghost predicate Table(slots: seq<Slot>, count: nat, list: seq<IniItem>) {
    && count <= |slots| && ItemsIn(slots[..count]) == list
    && forall k | count <= k < |slots| :: slots[k] == ZeroSlot()
  }

  /** No more slots than the items need, eight at a time. */
  predicate Capacity(n: nat, count: nat) {
    count <= n && n % 8 == 0 && (n == 8 || n < count + 8)
  }

  /** realloc and memset: room for eight more items, all zero. */
  method Grow(items: array<Slot>, ghost list: seq<IniItem>) returns (grown: array<Slot>)
    requires Table(items[..], items.Length, list)
    ensures fresh(grown) && grown.Length == items.Length + ALLOC_ITEMS_ONCE
    ensures Table(grown[..], items.Length, list)
  {
    hide ItemsIn, ZeroSlot;
    assert items[..][..items.Length] == items[..];
    grown := new Slot[items.Length + ALLOC_ITEMS_ONCE](k reads items =>
      if 0 <= k < items.Length then items[k] else ZeroSlot());
    assert grown[..][..items.Length] == items[..];
  }

  lemma OneMoreItem(slots: seq<Slot>, count: nat, list: seq<IniItem>, slot: Slot)
    requires Table(slots, count, list) && count < |slots|
    ensures Table(slots[count := slot], count + 1, list + [ItemIn(slot)])
    ensures slots[count] == ZeroSlot()
  {
    hide ItemIn;
    assert slots[count := slot][..count + 1] == slots[..count] + [slot];
  }

  method FillSlot(zero: Slot, name: string, value: string) returns (slot: Slot)
    requires zero == ZeroSlot()
    requires |name| <= NAME_LEN && |value| <= VALUE_LEN && Free(name, NUL) && Free(value, NUL)
    ensures ItemIn(slot) == IniItem(Trimmed(name), Trimmed(value))
  {
    var n := FillField(zero.name, name);
    var v := FillField(zero.value, value);
    slot := Slot(n, v);
  }

  /** The part of the load loop that stores an item, in a bigger table when this one is full. */
  method AddItem(items: array<Slot>, count: nat, name: string, value: string, ghost list: seq<IniItem>)
    returns (table: array<Slot>)
    requires Table(items[..], count, list) && Capacity(items.Length, count)
    requires |name| <= NAME_LEN && |value| <= VALUE_LEN && Free(name, NUL) && Free(value, NUL)
    modifies items
    ensures table == items || fresh(table)
    ensures Table(table[..], count + 1, list + [IniItem(Trimmed(name), Trimmed(value))])
    ensures Capacity(table.Length, count + 1)
  {
    hide ItemIn, Trimmed, ZeroSlot, ItemsIn, Free;
    table := items;
    if count >= items.Length {
      table := Grow(items, list);
    }
    OneMoreItem(table[..], count, list, table[count]);
    var slot := FillSlot(table[count], name, value);
    OneMoreItem(table[..], count, list, slot);
    table[count] := slot;
  }

  lemma SkipLine(list: seq<IniItem>, content: string, rest: string)
    requires rest != [] && list + Loaded(rest) == Loaded(content)
    ensures var n := ChunkLength(rest);
            list + ItemOfLine(Trimmed(CStr(rest[..n]))) + Loaded(rest[n..]) == Loaded(content)
  {
    hide Loaded, ItemOfLine, Trimmed;
    LoadedStep(rest);
    var n := ChunkLength(rest);
    var item, after := ItemOfLine(Trimmed(CStr(rest[..n]))), Loaded(rest[n..]);
    assert list + item + after == list + (item + after);
  }

  lemma StartLoading(slots: seq<Slot>, content: string)
    requires |slots| == ALLOC_ITEMS_ONCE && forall k | 0 <= k < |slots| :: slots[k] == ZeroSlot()
    ensures Table(slots, 0, []) && Capacity(|slots|, 0)
  {
    assert ItemsIn(slots[..0]) == [];
  }

  /** The reading loop of iniLoadItems. */
  method ReadItems(content: string) returns (items: array<Slot>, count: nat)
    ensures fresh(items) && Table(items[..], count, Loaded(content)) && Capacity(items.Length, count)
  {
    hide Table, Capacity, Loaded, ItemOfLine, HoldsAt, ChunkLength, Trimmed, CStr, Free;
    items := new Slot[ALLOC_ITEMS_ONCE](k => ZeroSlot());
    var lineBuff := new char[LINE_BUFFER_SIZE](k => NUL);
    count := 0;
    var rest := content;
    ghost var list: seq<IniItem> := [];
    StartLoading(items[..], content);
    while rest != []
      invariant fresh(items) && fresh(lineBuff) && lineBuff.Length == LINE_BUFFER_SIZE
      invariant Table(items[..], count, list) && Capacity(items.Length, count)
      invariant list + Loaded(rest) == Loaded(content)
      decreases |rest|
    {
      SkipLine(list, content, rest);
      var n := ReadLine(lineBuff, rest);
      Trim(lineBuff, CStr(rest[..n]));
      var found, name, value := ParseLine(lineBuff, Trimmed(CStr(rest[..n])));
      if found {
        items := AddItem(items, count, name, value, list);
        list, count := list + [IniItem(Trimmed(name), Trimmed(value))], count + 1;
      } else {
        assert list + [] == list;
      }
      rest := rest[n..];
    }
    NothingLeft(list);
  }

  lemma NothingLeft(list: seq<IniItem>)
    ensures list + Loaded([]) == list
  {
    assert Loaded([]) == [];
  }

  lemma ItemsRemove(slots: seq<Slot>, k: nat)
    requires k < |slots|
    ensures multiset(ItemsIn(slots)) == multiset(ItemsIn(slots[..k] + slots[k + 1..])) + multiset{ItemIn(slots[k])}
  {
    hide ItemIn;
    var items := ItemsIn(slots);
    MultisetRemove(items, k);
    assert ItemsIn(slots[..k] + slots[k + 1..]) == items[..k] + items[k + 1..];
    assert items[k] in multiset(items);
  }

  lemma {:induction false} ItemsPermutation(a: seq<Slot>, b: seq<Slot>)
    requires multiset(a) == multiset(b)
    ensures multiset(ItemsIn(a)) == multiset(ItemsIn(b))
    decreases |a|
  {
    hide ItemIn;
    PermutationHasSameElements(a, b);
    if a == [] {
      assert a == b;
    } else {
      hide *;
      var x := a[0];
      var k := PermutationRemove(a, b);
      var restA, restB := a[..0] + a[1..], b[..k] + b[k + 1..];
      ItemsPermutation(restA, restB);
      ItemsRemove(a, 0);
      ItemsRemove(b, k);
      ghost var same := multiset(ItemsIn(restA)) + multiset{ItemIn(x)};
      assert multiset(ItemsIn(a)) == same;
      assert multiset(ItemsIn(b)) == same;
    }
  }

  /** iniLoadItems on a file that can be opened: a name-sorted permutation of the file's items. */
  method LoadItems(content: string) returns (items: array<Slot>, count: nat)
    ensures fresh(items) && Capacity(items.Length, count)
    ensures Sorted(items[..count], CompareByItemName) && Ascending(ItemsIn(items[..count]))
    ensures multiset(ItemsIn(items[..count])) == multiset(Loaded(content)) && Shaped(items[..count])
    ensures forall k | count <= k < items.Length :: items[k] == ZeroSlot()
  {
    items, count := ReadItems(content);
    assert count <= items.Length && ItemsIn(items[..count]) == Loaded(content)
           && forall k | count <= k < items.Length :: items[k] == ZeroSlot();
    hide *;
    ghost var was := items[..count];
    NameOrder();
    var sorted := Qsort(items[..count], CompareByItemName);
    PermutationHasSameElements(sorted, was);
    ItemsPermutation(sorted, was);
    LoadedShaped(sorted, content);
    SortedIsAscending(sorted);
    CopyBack(items, sorted);
  }

  lemma LoadedShaped(slots: seq<Slot>, content: string)
    requires multiset(ItemsIn(slots)) == multiset(Loaded(content))
    ensures Shaped(slots)
  {
    hide Loaded;
    LoadedShape(content);
    forall k | 0 <= k < |slots| ensures |CStr(slots[k].name)| <= NAME_LEN {
      assert ItemsIn(slots)[k] in multiset(ItemsIn(slots));
      assert ItemsIn(slots)[k] in Loaded(content);
    }
  }

  method CopyBack(items: array<Slot>, sorted: seq<Slot>)
    requires |sorted| <= items.Length
    modifies items
    ensures items[..|sorted|] == sorted
    ensures forall k | |sorted| <= k < items.Length :: items[k] == old(items[k])
  {
    for k := 0 to |sorted|
      invariant items[..k] == sorted[..k]
      invariant forall k | |sorted| <= k < items.Length :: items[k] == old(items[k])
    {
      items[k] := sorted[k];
    }
  }

  // ------------------------------------------------------------ lookup

  function Target(name: string): Slot { Slot(Cut(name, NAME_LEN) + [NUL], Zeros(VALUE_LEN + 1)) }

  /** iniGetStrValue: the value of some item that has the name, cut to 64 chars. */
  method GetStrValue(name: string, items: seq<Slot>) returns (value: Option<string>)
    requires Free(name, NUL) && Sorted(items, CompareByItemName)
    ensures value.None? <==> forall m | m in ItemsIn(items) :: m.name != Cut(name, NAME_LEN)
    ensures value.Some? ==> IniItem(Cut(name, NAME_LEN), value.value) in ItemsIn(items)
  {
    if |items| <= 0 {
      return None;
    }
    var found := Find(name, items);
    if found < 0 {
      return None;
    }
    assert ItemsIn(items)[found] in ItemsIn(items);
    value := Some(CStr(items[found].value));
  }

  /** bsearch for a name. */
  method Find(name: string, items: seq<Slot>) returns (found: int)
    requires Free(name, NUL) && Sorted(items, CompareByItemName)
    ensures -1 <= found < |items|
    ensures 0 <= found ==> CStr(items[found].name) == Cut(name, NAME_LEN)
    ensures found < 0 ==> forall k | 0 <= k < |items| :: CStr(items[k].name) != Cut(name, NAME_LEN)
  {
    hide Cut, Sorted, Strcmp;
    var target := Cut(name, NAME_LEN);
    NameOrder();
    found := Bsearch(Target(name), items, CompareByItemName);
    TargetName(name);
    forall k | 0 <= k < |items|
      ensures CompareByItemName(Target(name), items[k]) == 0 <==> CStr(items[k].name) == target
    {
      StrcmpZero(target, CStr(items[k].name));
    }
  }

  lemma TargetName(name: string)
    requires Free(name, NUL)
    ensures CStr(Target(name).name) == Cut(name, NAME_LEN)
  {
    CStrOf(Cut(name, NAME_LEN), []);
    assert Cut(name, NAME_LEN) + [NUL] + [] == Cut(name, NAME_LEN) + [NUL];
  }

  /** iniGetIntValue. */
  method GetIntValue(name: string, items: seq<Slot>, defaultValue: int32) returns (value: int32)
    requires Free(name, NUL) && Sorted(items, CompareByItemName)
    ensures (exists v :: IniItem(Cut(name, NAME_LEN), v) in ItemsIn(items) && value == Atoi(v))
            || (value == defaultValue && forall m | m in ItemsIn(items) :: m.name != Cut(name, NAME_LEN))
  {
    var str := GetStrValue(name, items);
    value := if str.None? then defaultValue else Atoi(str.value);
  }

  /** The values of the items with this name, in order. */
  function Matching(list: seq<IniItem>, name: string): seq<string> {
    if list == [] then []
    else
      var rest, last := Matching(list[..|list| - 1], name), list[|list| - 1];
      if last.name == name then rest + [last.value] else rest
  }

  /** A value matches as often as the list assigns it to the name. */
  lemma {:induction false} MatchingCount(list: seq<IniItem>, name: string, v: string)
    ensures multiset(Matching(list, name))[v] == multiset(list)[IniItem(name, v)]
    decreases |list|
  {
    if list != [] {
      var n := |list| - 1;
      assert list == list[..n] + [list[n]];
      MatchingCount(list[..n], name, v);
      hide Matching;
    }
  }

  /** So the order of the list does not matter to what matches. */
  lemma MatchingPermutation(a: seq<IniItem>, b: seq<IniItem>, name: string)
    requires multiset(a) == multiset(b)
    ensures multiset(Matching(a, name)) == multiset(Matching(b, name))
  {
    hide Matching;
    forall v
      ensures multiset(Matching(a, name))[v] == multiset(Matching(b, name))[v]
    {
      MatchingCount(a, name, v);
      MatchingCount(b, name, v);
    }
  }

  function ValuesIn(items: seq<Slot>): (values: seq<string>)
    ensures |values| == |items|
  {
    seq(|items|, k requires 0 <= k < |items| => CStr(items[k].value))
  }

  /** When the items with a name stand side by side, they are what matches. */
  lemma MatchingBlock(items: seq<Slot>, name: string, lo: nat, hi: nat)
    requires lo <= hi <= |items|
    requires forall k | 0 <= k < |items| :: CStr(items[k].name) == name <==> lo <= k < hi
    ensures Matching(ItemsIn(items), name) == ValuesIn(items[lo..hi])
  {
    MatchingPrefix(items, name, lo, hi, |items|);
    assert items[..|items|] == items;
  }

  lemma {:induction false} MatchingPrefix(items: seq<Slot>, name: string, lo: nat, hi: nat, n: nat)
    requires lo <= hi <= |items| && n <= |items|
    requires forall k | 0 <= k < |items| :: CStr(items[k].name) == name <==> lo <= k < hi
    ensures Matching(ItemsIn(items[..n]), name) == ValuesIn(items[Min(lo, n)..Min(hi, n)])
  {
    if n == 0 {
      NothingMatches(items[..0], name);
      NoValues(items[0..0]);
    } else {
      hide Matching, ItemsIn, ValuesIn, CStr;
      MatchingPrefix(items, name, lo, hi, n - 1);
      MatchingSnoc(items, n - 1, name);
      if n <= lo {
        NoValues(items[n - 1..n - 1]);
        NoValues(items[n..n]);
      } else if n <= hi {
        ValuesSnoc(items, lo, n - 1);
      }
    }
  }

  lemma NothingMatches(items: seq<Slot>, name: string)
    ensures items == [] ==> Matching(ItemsIn(items), name) == []
  {
  }

  lemma MatchingSnoc(items: seq<Slot>, n: nat, name: string)
    requires n < |items|
    ensures Matching(ItemsIn(items[..n + 1]), name) ==
              if CStr(items[n].name) == name then Matching(ItemsIn(items[..n]), name) + [CStr(items[n].value)]
              else Matching(ItemsIn(items[..n]), name)
  {
    var list := ItemsIn(items[..n + 1]);
    assert list[..n] == ItemsIn(items[..n]);
  }

  lemma NoValues(items: seq<Slot>)
    requires items == []
    ensures ValuesIn(items) == []
  {
  }

  lemma ValuesSnoc(items: seq<Slot>, lo: nat, k: nat)
    requires lo <= k < |items|
    ensures ValuesIn(items[lo..k + 1]) == ValuesIn(items[lo..k]) + [CStr(items[k].value)]
  {
  }

  /** While scanning: all the values of the slots from lo to hi, in the order met, and the first max of them. */
  ghost predicate Scanned(items: seq<Slot>, lo: int, hi: int, all: seq<string>, values: seq<string>, max: int) {
    && 0 <= lo < hi <= |items| && 0 < max
    && multiset(all) == multiset(ValuesIn(items[lo..hi]))
    && values == all[..Min(max, |all|)]
  }

  lemma ScanOne(items: seq<Slot>, k: nat, max: int)
    requires k < |items| && 0 < max
    ensures Scanned(items, k, k + 1, [CStr(items[k].value)], [CStr(items[k].value)], max)
  {
    ValuesSnoc(items, k, k);
  }

  lemma KeepFirst(all: seq<string>, values: seq<string>, v: string, max: int)
    requires 0 < max && values == all[..Min(max, |all|)]
    ensures (if |values| < max then values + [v] else values) == (all + [v])[..Min(max, |all + [v]|)]
  {
  }

  lemma ScanDown(items: seq<Slot>, lo: int, hi: int, all: seq<string>, values: seq<string>, max: int)
    requires Scanned(items, lo, hi, all, values, max) && 0 < lo
    ensures var v := CStr(items[lo - 1].value);
            Scanned(items, lo - 1, hi, all + [v], if |values| < max then values + [v] else values, max)
  {
    var v := CStr(items[lo - 1].value);
    KeepFirst(all, values, v, max);
    assert ValuesIn(items[lo - 1..hi]) == [v] + ValuesIn(items[lo..hi]);
    hide ValuesIn, Min;
  }

  lemma ScanUp(items: seq<Slot>, lo: int, hi: int, all: seq<string>, values: seq<string>, max: int)
    requires Scanned(items, lo, hi, all, values, max) && hi < |items|
    ensures var v := CStr(items[hi].value);
            Scanned(items, lo, hi + 1, all + [v], if |values| < max then values + [v] else values, max)
  {
    hide ValuesIn, Min;
    KeepFirst(all, values, CStr(items[hi].value), max);
    ValuesSnoc(items, lo, hi);
  }

  /** A name between two equal ones is equal. */
  lemma Between(x: string, y: string)
    requires Strcmp(x, y) <= 0 && Strcmp(y, x) <= 0
    ensures x == y
  {
    StrcmpAntisymmetric(x, y);
    StrcmpZero(x, y);
  }

  /** In a sorted table a run of matches that does not go on either way is all there are. */
  lemma RunIsAll(items: seq<Slot>, name: string, lo: int, hi: int)
    requires Sorted(items, CompareByItemName) && 0 <= lo < hi <= |items|
    requires forall k | lo <= k < hi :: CStr(items[k].name) == name
    requires 0 < lo ==> CStr(items[lo - 1].name) != name
    requires hi < |items| ==> CStr(items[hi].name) != name
    ensures Matching(ItemsIn(items), name) == ValuesIn(items[lo..hi])
  {
    hide Matching, ValuesIn, Strcmp, CStr;
    forall k | 0 <= k < |items| && CStr(items[k].name) == name ensures lo <= k < hi {
      if k < lo - 1 {
        assert CompareByItemName(items[k], items[lo - 1]) <= 0 && CompareByItemName(items[lo - 1], items[lo]) <= 0;
        Between(CStr(items[lo - 1].name), name);
      } else if hi < k {
        assert CompareByItemName(items[hi - 1], items[hi]) <= 0 && CompareByItemName(items[hi], items[k]) <= 0;
        Between(CStr(items[hi].name), name);
      }
    }
    MatchingBlock(items, name, lo, hi);
  }

  lemma MatchingMeaning(list: seq<IniItem>, name: string, v: string)
    ensures v in Matching(list, name) <==> IniItem(name, v) in list
  {
    MatchingCount(list, name, v);
    assert v in Matching(list, name) <==> v in multiset(Matching(list, name));
    assert IniItem(name, v) in list <==> IniItem(name, v) in multiset(list);
  }

  lemma NoMatch(items: seq<Slot>, name: string)
    requires forall k | 0 <= k < |items| :: CStr(items[k].name) != name
    ensures Matching(ItemsIn(items), name) == []
  {
    hide CStr, ValuesIn, Matching;
    MatchingBlock(items, name, 0, 0);
    NoValues(items[0..0]);
  }

  method ScanBackward(name: string, items: seq<Slot>, found: nat, maxValues: int, values0: seq<string>, ghost all0: seq<string>)
    returns (values: seq<string>, ghost all: seq<string>, ghost lo: nat)
    requires Scanned(items, found, found + 1, all0, values0, maxValues) && found < |items|
    ensures lo <= found && Scanned(items, lo, found + 1, all, values, maxValues)
    ensures forall j | lo <= j < found :: CStr(items[j].name) == name
    ensures 0 < lo ==> CStr(items[lo - 1].name) != name
  {
    hide *;
    values, all := values0, all0;
    var k := found - 1;
    while k >= 0
      invariant -1 <= k < found
      invariant forall j | k < j < found :: CStr(items[j].name) == name
      invariant Scanned(items, k + 1, found + 1, all, values, maxValues)
    {
      if CStr(items[k].name) != name {
        break;
      }
      ScanDown(items, k + 1, found + 1, all, values, maxValues);
      all := all + [CStr(items[k].value)];
      if |values| < maxValues {
        values := values + [CStr(items[k].value)];
      }
      k := k - 1;
    }
    lo := k + 1;
  }

  method ScanForward(name: string, items: seq<Slot>, found: nat, maxValues: int, values0: seq<string>, ghost all0: seq<string>,
                     ghost lo: nat)
    returns (values: seq<string>, ghost all: seq<string>, ghost hi: nat)
    requires Scanned(items, lo, found + 1, all0, values0, maxValues) && lo <= found < |items|
    ensures found < hi <= |items| && Scanned(items, lo, hi, all, values, maxValues)
    ensures forall j | found < j < hi :: CStr(items[j].name) == name
    ensures hi < |items| ==> CStr(items[hi].name) != name
  {
    hide *;
    values, all := values0, all0;
    var k := found + 1;
    while k < |items|
      invariant found < k <= |items|
      invariant forall j | found < j < k :: CStr(items[j].name) == name
      invariant Scanned(items, lo, k, all, values, maxValues)
    {
      if CStr(items[k].name) != name {
        break;
      }
      ScanUp(items, lo, k, all, values, maxValues);
      all := all + [CStr(items[k].value)];
      if |values| < maxValues {
        values := values + [CStr(items[k].value)];
      }
      k := k + 1;
    }
    hi := k;
  }

  /** iniGetValues.  With a name of at most 64 chars: the first maxValues of all the matching
      values, in the order the scans meet them.  With a longer name the search is for its first 64
      chars but the scans compare all of it, so one value is found, if any matches. */
  method GetValues(name: string, items: seq<Slot>, maxValues: int) returns (values: seq<string>, ghost all: seq<string>)
    requires Free(name, NUL) && Sorted(items, CompareByItemName)
    requires Shaped(items)
    ensures maxValues <= 0 ==> values == []
    ensures maxValues > 0 ==> Answers(items, name, values, all, maxValues)
  {
    values, all := [], [];
    if maxValues > 0 && |items| == 0 {
      NoAnswer(items, name, maxValues);
    }
    hide *;
    if |items| <= 0 || maxValues <= 0 {
      return;
    }
    var found := Find(name, items);
    if found < 0 {
      NoAnswer(items, name, maxValues);
      return;
    }
    values := [CStr(items[found].value)];
    all := values;
    ScanOne(items, found, maxValues);
    ghost var lo, hi;
    values, all, lo := ScanBackward(name, items, found, maxValues, values, all);
    values, all, hi := ScanForward(name, items, found, maxValues, values, all, lo);
    ScanEnds(items, name, found, lo, hi, all, values, maxValues);
  }

  /** Both scans ended: the slots from lo to hi, other than found, have the name, and the next ones do not. */
  lemma ScanEnds(items: seq<Slot>, name: string, found: nat, lo: int, hi: int, all: seq<string>, values: seq<string>, max: int)
    requires Sorted(items, CompareByItemName)
    requires Shaped(items)
    requires Scanned(items, lo, hi, all, values, max) && lo <= found < hi <= |items| && 0 <= lo
    requires CStr(items[found].name) == Cut(name, NAME_LEN)
    requires forall k | lo <= k < hi && k != found :: CStr(items[k].name) == name
    requires 0 < lo ==> CStr(items[lo - 1].name) != name
    requires hi < |items| ==> CStr(items[hi].name) != name
    ensures Answers(items, name, values, all, max)
  {
    hide Sorted, CompareByItemName, Matching, Scanned, ValuesIn, CStr, Min;
    if |name| <= NAME_LEN {
      RunIsAll(items, name, lo, hi);
      ScannedMeaning(items, lo, hi, all, values, max);
    } else {
      assert |CStr(items[lo].name)| <= NAME_LEN && |CStr(items[hi - 1].name)| <= NAME_LEN;
      assert lo == found && hi == found + 1;
      OneScanned(items, found, all, values, max);
      assert ItemsIn(items)[found] == IniItem(Cut(name, NAME_LEN), values[0]);
      MatchingMeaning(ItemsIn(items), Cut(name, NAME_LEN), values[0]);
    }
  }

  /** What a lookup of all values promises. */
  ghost predicate Answers(items: seq<Slot>, name: string, values: seq<string>, all: seq<string>, max: int)
    requires 0 < max
  {
    if |name| <= NAME_LEN then
      multiset(all) == multiset(Matching(ItemsIn(items), name)) && values == all[..Min(max, |all|)]
    else
      var matching := Matching(ItemsIn(items), Cut(name, NAME_LEN));
      if matching == [] then values == [] else |values| == 1 && values[0] in matching
  }

  lemma NoAnswer(items: seq<Slot>, name: string, max: int)
    requires 0 < max && forall k | 0 <= k < |items| :: CStr(items[k].name) != Cut(name, NAME_LEN)
    ensures Answers(items, name, [], [], max)
  {
    NoMatch(items, Cut(name, NAME_LEN));
  }

  lemma ScannedMeaning(items: seq<Slot>, lo: int, hi: int, all: seq<string>, values: seq<string>, max: int)
    requires Scanned(items, lo, hi, all, values, max)
    ensures multiset(all) == multiset(ValuesIn(items[lo..hi])) && values == all[..Min(max, |all|)]
  {
  }

  lemma OneScanned(items: seq<Slot>, k: nat, all: seq<string>, values: seq<string>, max: int)
    requires k < |items| && Scanned(items, k, k + 1, all, values, max)
    ensures values == [CStr(items[k].value)]
  {
    ValuesSnoc(items, k, k);
    var v := CStr(items[k].value);
    assert ValuesIn(items[k..k]) == [];
    PermutationHasSameElements(all, [v]);
    assert all[0] in [v];
  }
}
