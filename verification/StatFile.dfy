/** The status file: the twelve counters and times that survive a restart.  storage_func.c prints
    them as "name=value" lines and loads them back as configuration items. */
module StatFile {
  import opened CStrings
  import opened Numbers
  import opened Sorting
  import opened Store
  import opened Trimming
  import Ini

  const STAT_ITEMS := 12
  const BUFF_SIZE := 512

  function Name(k: nat): string
    requires k < STAT_ITEMS
  {
    if k == 0 then "total_upload_count"
    else if k == 1 then "success_upload_count"
    else if k == 2 then "total_download_count"
    else if k == 3 then "success_download_count"
    else if k == 4 then "last_source_update"
    else if k == 5 then "last_sync_update"
    else if k == 6 then "total_set_meta_count"
    else if k == 7 then "success_set_meta_count"
    else if k == 8 then "total_delete_count"
    else if k == 9 then "success_delete_count"
    else if k == 10 then "total_get_meta_count"
    else "success_get_meta_count"
  }

  predicate IsNameChar(c: char) { 'a' <= c <= 'z' || c == '_' }

  predicate IsName(s: string) { forall i | 0 <= i < |s| :: IsNameChar(s[i]) }

  lemma NameIsName(k: nat)
    requires k < STAT_ITEMS
    ensures IsName(Name(k))
  {
    hide IsName;
    UpdateNames();
    MetadataNames();
  }

  lemma UpdateNames()
    ensures IsName("total_upload_count") && IsName("success_upload_count")
    ensures IsName("total_download_count") && IsName("success_download_count")
    ensures IsName("last_source_update") && IsName("last_sync_update")
  {
  }

  lemma MetadataNames()
    ensures IsName("total_set_meta_count") && IsName("success_set_meta_count")
    ensures IsName("total_delete_count") && IsName("success_delete_count")
    ensures IsName("total_get_meta_count") && IsName("success_get_meta_count")
  {
  }

  lemma NamesDiffer(j: nat, k: nat)
    requires j < STAT_ITEMS && k < STAT_ITEMS && j != k
    ensures Name(j) != Name(k)
  {
    hide Name;
    NameKey(j);
    NameKey(k);
    hide Key;
  }

  /** Length and two letters tell the names apart. */
  function Key(name: string): (int, char, char)
    requires 16 <= |name|
  {
    (|name|, name[6], name[8])
  }

  lemma NameKey(k: nat)
    requires k < STAT_ITEMS
    ensures 16 <= |Name(k)|
    ensures Key(Name(k)) ==
      [(18, 'u', 'l'), (20, 's', 'u'), (20, 'd', 'w'), (22, 's', 'd'), (18, 'o', 'r'), (16, 'y', 'c'),
       (20, 's', 't'), (22, 's', 's'), (18, 'd', 'l'), (20, 's', 'd'), (20, 'g', 't'), (22, 's', 'g')][k]
  {
  }

  // ------------------------------------------------------------ the text

  /** One line: "%s=%d\n". */
  function LineOf(k: nat, value: int32): string
    requires k < STAT_ITEMS
  {
    Name(k) + "=" + PrintDec(value) + "\n"
  }

  /** The twelve values of a record, in file order. */
  type Values = s: seq<int32> | |s| == STAT_ITEMS witness seq(STAT_ITEMS, _ => 0)

  function Lines(values: Values): (lines: seq<string>)
    ensures |lines| == STAT_ITEMS
    ensures forall k | 0 <= k < STAT_ITEMS :: lines[k] == LineOf(k, values[k])
  {
    seq(STAT_ITEMS, k requires 0 <= k < STAT_ITEMS => LineOf(k, values[k]))
  }

  function Text(values: Values): string { Ini.Concat(Lines(values)) }

  function Items(values: Values): (items: seq<Ini.IniItem>)
    ensures |items| == STAT_ITEMS
    ensures forall k | 0 <= k < STAT_ITEMS :: items[k] == Ini.IniItem(Name(k), PrintDec(values[k]))
  {
    seq(STAT_ITEMS, k requires 0 <= k < STAT_ITEMS => Ini.IniItem(Name(k), PrintDec(values[k])))
  }

  lemma NumberText(value: int32)
    ensures var v := PrintDec(value);
            v != [] && |v| <= 11 && NoBlankEnds(v) && Free(v, NUL) && Free(v, '\n')
  {
    PrintDecLength(value);
  }

  lemma NameText(k: nat)
    requires k < STAT_ITEMS
    ensures var n := Name(k);
            && 16 <= |n| <= 22 && NoBlankEnds(n) && Free(n, NUL) && Free(n, '=') && Free(n, '\n') && n[0] != '#'
  {
    hide Name;
    NameKey(k);
    NameIsName(k);
  }

  /** A line is read in one go, and read back as the item it says. */
  lemma LineIsItem(k: nat, value: int32)
    requires k < STAT_ITEMS
    ensures Ini.IsLine(LineOf(k, value)) && |LineOf(k, value)| <= 35
    ensures Ini.ItemOfChunk(LineOf(k, value)) == [Ini.IniItem(Name(k), PrintDec(value))]
  {
    hide Name, PrintDec, NoBlankEnds, Ini.ItemOfChunk;
    NumberText(value);
    NameText(k);
    Ini.ItemOfAssignment(Name(k), PrintDec(value));
  }

  /** Loading the text gives the items back, in file order. */
  lemma TextLoads(values: Values)
    ensures Ini.Loaded(Text(values)) == Items(values)
  {
    hide LineOf, Ini.IsLine, Ini.ItemOfChunk, Name, PrintDec;
    forall k | 0 <= k < STAT_ITEMS
      ensures Ini.IsLine(Lines(values)[k]) && Ini.ItemOfChunk(Lines(values)[k]) == [Items(values)[k]]
    {
      LineIsItem(k, values[k]);
    }
    Ini.ChunksOfLines(Lines(values));
    Ini.OneItemEach(Lines(values), Items(values));
  }

  lemma {:induction false} ConcatLength(lines: seq<string>, n: nat)
    requires forall k | 0 <= k < |lines| :: |lines[k]| <= n
    ensures |Ini.Concat(lines)| <= |lines| * n
  {
    if lines != [] {
      ConcatLength(lines[1..], n);
    }
  }

  /** The text and its terminator fit the buffer. */
  lemma TextFits(values: Values)
    ensures |Text(values)| < BUFF_SIZE
  {
    hide LineOf;
    forall k | 0 <= k < STAT_ITEMS ensures |Lines(values)[k]| <= 35 {
      LineIsItem(k, values[k]);
    }
    ConcatLength(Lines(values), 35);
  }

  // ------------------------------------------------------------ round trip

  /** What looking a counter up in a list of items can give. */
  ghost predicate LookedUp(list: seq<Ini.IniItem>, name: string, x: int32) {
    || (exists v :: Ini.IniItem(name, v) in list && x == Atoi(v))
    || (x == 0 && forall m | m in list :: m.name != name)
  }

  /** Round trip: whatever the twelve values, every one is found again in the text printed for them,
      and nothing else can be found. */
  lemma StatRoundTrip(values: Values, k: nat, x: int32)
    requires k < STAT_ITEMS
    ensures LookedUp(Ini.Loaded(Text(values)), Name(k), x) <==> x == values[k]
  {
    hide Name, PrintDec, Atoi, Ini.Loaded, Text;
    TextLoads(values);
    AtoiOfPrintDec(values[k]);
    var list := Items(values);
    assert list[k] in list;
    forall v | Ini.IniItem(Name(k), v) in list ensures v == PrintDec(values[k]) {
      var j :| 0 <= j < STAT_ITEMS && list[j] == Ini.IniItem(Name(k), v);
      if j != k {
        NamesDiffer(j, k);
      }
    }
  }

  /** A restart: what is printed has enough items to be accepted, and what is loaded from it is
      exactly what was printed. */
  lemma RestartKeeps(values: Values, loaded: Values)
    ensures |Ini.Loaded(Text(values))| >= STAT_ITEMS
    ensures (forall k | 0 <= k < STAT_ITEMS :: LookedUp(Ini.Loaded(Text(values)), Name(k), loaded[k])) <==> loaded == values
  {
    hide Name, Ini.Loaded, Text, LookedUp;
    TextLoads(values);
    forall k | 0 <= k < STAT_ITEMS
      ensures LookedUp(Ini.Loaded(Text(values)), Name(k), loaded[k]) <==> loaded[k] == values[k]
    {
      StatRoundTrip(values, k, loaded[k]);
    }
  }

  /** How the system calls of one storage_write_to_fd go: each of the four can fail. */
  datatype FdOutcome = FdWritten | TruncateFailed(errno: Errno) | SeekFailed(errno: Errno)
                     | WriteFailed(count: nat, errno: Errno) | SyncFailed(errno: Errno)

  /** What storage_write_to_fd leaves in a file, and its status. */
  function WriteToFd(file: string, text: string, o: FdOutcome): Result<string> {
    match o
    case FdWritten => Result(text, 0)
    case TruncateFailed(e) => Result(file, e)
    case SeekFailed(e) => Result("", e)
    case WriteFailed(n, e) => Result(Cut(text, n), e)
    case SyncFailed(e) => Result(text, e)
  }

  /** Writing succeeds exactly when none of the calls fails, and then the file is the text.  If the file
      cannot be truncated it stays as it was; after any later failure it is the beginning of the text,
      all of it if only the flush to disk failed. */
  lemma FileAfterWrite(file: string, text: string, o: FdOutcome)
    ensures var w := WriteToFd(file, text, o);
            && (w.status == 0 <==> o == FdWritten)
            && (o == FdWritten || o.SyncFailed? ==> w.value == text)
            && (o.TruncateFailed? ==> w.value == file)
            && (!o.TruncateFailed? ==> w.value <= text)
            && (o != FdWritten ==> w.status == o.errno)
  {
    if o.WriteFailed? {
      CutIsPrefix(text, o.count);
    }
  }

  /** g_storage_stat. */
  class StorageStat {
    var totalUpload: int32
    var successUpload: int32
    var totalDownload: int32
    var successDownload: int32
    var lastSourceUpdate: int32
    var lastSyncUpdate: int32
    var totalSetMeta: int32
    var successSetMeta: int32
    var totalDelete: int32
    var successDelete: int32
    var totalGetMeta: int32
    var successGetMeta: int32

    function Current(): Values
      reads this
    {
      Updates() + Others()
    }

    function Updates(): seq<int32>
      reads this
    {
      [totalUpload, successUpload, totalDownload, successDownload, lastSourceUpdate, lastSyncUpdate]
    }

    function Others(): seq<int32>
      reads this
    {
      [totalSetMeta, successSetMeta, totalDelete, successDelete, totalGetMeta, successGetMeta]
    }

    /** The assignments of storage_open_storage_stat: the first half of them. */
    method LoadUpdates(items: seq<Ini.Slot>, ghost list: seq<Ini.IniItem>)
      requires Sorted(items, Ini.CompareByItemName) && multiset(Ini.ItemsIn(items)) == multiset(list)
      modifies this`totalUpload, this`successUpload, this`totalDownload, this`successDownload, this`lastSourceUpdate, this`lastSyncUpdate
      ensures forall k | 0 <= k < 6 :: LookedUp(list, Name(k), Updates()[k])
    {
      hide Sorted, Ini.CompareByItemName, Ini.ItemsIn, Name, LookedUp, Current;
      totalUpload := LoadCounter(0, items, list);
      successUpload := LoadCounter(1, items, list);
      totalDownload := LoadCounter(2, items, list);
      successDownload := LoadCounter(3, items, list);
      lastSourceUpdate := LoadCounter(4, items, list);
      lastSyncUpdate := LoadCounter(5, items, list);
    }

    /** And the second half. */
    method LoadOthers(items: seq<Ini.Slot>, ghost list: seq<Ini.IniItem>)
      requires Sorted(items, Ini.CompareByItemName) && multiset(Ini.ItemsIn(items)) == multiset(list)
      modifies this`totalSetMeta, this`successSetMeta, this`totalDelete, this`successDelete, this`totalGetMeta, this`successGetMeta
      ensures forall k | 0 <= k < 6 :: LookedUp(list, Name(k + 6), Others()[k])
    {
      hide Sorted, Ini.CompareByItemName, Ini.ItemsIn, Name, LookedUp, Current;
      totalSetMeta := LoadCounter(6, items, list);
      successSetMeta := LoadCounter(7, items, list);
      totalDelete := LoadCounter(8, items, list);
      successDelete := LoadCounter(9, items, list);
      totalGetMeta := LoadCounter(10, items, list);
      successGetMeta := LoadCounter(11, items, list);
    }

    /** storage_write_to_stat_file, on a file with this content: the text is put together in a
        buffer that it and its terminator always fit, and replaces the content. */
    method WriteToStatFile(file: string, o: FdOutcome) returns (result: int, written: string)
      ensures |Text(Current())| < 512
      ensures Text(Current()) == Ini.Concat(
                [StatLine("total_upload_count", totalUpload),
                 StatLine("success_upload_count", successUpload),
                 StatLine("total_download_count", totalDownload),
                 StatLine("success_download_count", successDownload),
                 StatLine("last_source_update", lastSourceUpdate),
                 StatLine("last_sync_update", lastSyncUpdate),
                 StatLine("total_set_meta_count", totalSetMeta),
                 StatLine("success_set_meta_count", successSetMeta),
                 StatLine("total_delete_count", totalDelete),
                 StatLine("success_delete_count", successDelete),
                 StatLine("total_get_meta_count", totalGetMeta),
                 StatLine("success_get_meta_count", successGetMeta)])
      ensures Result(written, result) == WriteToFd(file, Text(Current()), o)
    {
      hide Text;
      var buff := new char[BUFF_SIZE];
      var text := Text(Current());
      TextFits(Current());
      TextByName(this);
      CopyInto(buff, 0, text + [NUL]);
      var len := |text|;
      assert buff[..len] == buff[0..|text + [NUL]|][..len];
      var w := WriteToFd(file, buff[..len], o);
      result, written := w.status, w.value;
    }

    /** Every field is what its name looks up in the list. */
    ghost predicate FieldsFrom(list: seq<Ini.IniItem>)
      reads this
    {
      && LookedUp(list, "total_upload_count", totalUpload)
      && LookedUp(list, "success_upload_count", successUpload)
      && LookedUp(list, "total_download_count", totalDownload)
      && LookedUp(list, "success_download_count", successDownload)
      && LookedUp(list, "last_source_update", lastSourceUpdate)
      && LookedUp(list, "last_sync_update", lastSyncUpdate)
      && LookedUp(list, "total_set_meta_count", totalSetMeta)
      && LookedUp(list, "success_set_meta_count", successSetMeta)
      && LookedUp(list, "total_delete_count", totalDelete)
      && LookedUp(list, "success_delete_count", successDelete)
      && LookedUp(list, "total_get_meta_count", totalGetMeta)
      && LookedUp(list, "success_get_meta_count", successGetMeta)
    }

    /** storage_open_storage_stat without a file. */
    method Clear()
      modifies this
      ensures Current() == seq(STAT_ITEMS, _ => 0)
    {
      totalUpload, successUpload, totalDownload, successDownload, lastSourceUpdate, lastSyncUpdate := 0, 0, 0, 0, 0, 0;
      totalSetMeta, successSetMeta, totalDelete, successDelete, totalGetMeta, successGetMeta := 0, 0, 0, 0, 0, 0;
    }

    /** The part of storage_open_storage_stat that loads the file. */
    method LoadFrom(content: string) returns (enough: bool)
      modifies this
      ensures enough <==> |Ini.Loaded(content)| >= STAT_ITEMS
      ensures !enough ==> Current() == old(Current())
      ensures enough ==> forall k | 0 <= k < STAT_ITEMS :: LookedUp(Ini.Loaded(content), Name(k), Current()[k])
    {
      hide Ini.Loaded, Sorted, Ini.CompareByItemName, Ini.ItemsIn, Name, LookedUp, Ini.ZeroSlot, Ini.Shaped;
      var items, count := Ini.LoadItems(content);
      ghost var list := Ini.Loaded(content);
      PermutationHasSameElements(Ini.ItemsIn(items[..count]), list);
      enough := count >= STAT_ITEMS;
      if enough {
        LoadUpdates(items[..count], list);
        LoadOthers(items[..count], list);
      }
    }

    /** storage_open_storage_stat: load the file if there is one, open it, and write it again. */
    method OpenStorageStat(stored: Option<string>, open: Option<Errno>, o: FdOutcome) returns (result: int, file: Option<string>)
      modifies this
      ensures stored.None? ==> Current() == seq(STAT_ITEMS, _ => 0)
      ensures stored.Some? && |Ini.Loaded(stored.value)| >= STAT_ITEMS ==>
                forall k | 0 <= k < STAT_ITEMS :: LookedUp(Ini.Loaded(stored.value), Name(k), Current()[k])
      ensures stored.Some? && |Ini.Loaded(stored.value)| >= 12 ==> FieldsFrom(Ini.Loaded(stored.value))
      ensures if stored.Some? && |Ini.Loaded(stored.value)| < STAT_ITEMS then
                result == ENOENT && file == stored && Current() == old(Current())
              else if open.Some? then
                result == open.value && file == stored
              else
                file.Some? && Result(file.value, result) == WriteToFd(if stored.Some? then stored.value else "", Text(Current()), o)
    {
      hide Ini.Loaded, Name, LookedUp, Text, WriteToFd, FieldsFrom;
      if stored.Some? {
        var enough := LoadFrom(stored.value);
        if !enough {
          return ENOENT, stored;
        }
        LookedUpByName(this, Ini.Loaded(stored.value));
      } else {
        Clear();
      }
      if open.Some? {
        return open.value, stored;
      }
      var written;
      result, written := WriteToStatFile(if stored.Some? then stored.value else "", o);
      file := Some(written);
    }
  }

  function StatLine(name: string, value: int32): string { name + "=" + PrintDec(value) + "\n" }

  lemma NamesByPosition()
    ensures Name(0) == "total_upload_count" && Name(1) == "success_upload_count"
    ensures Name(2) == "total_download_count" && Name(3) == "success_download_count"
    ensures Name(4) == "last_source_update" && Name(5) == "last_sync_update"
    ensures Name(6) == "total_set_meta_count" && Name(7) == "success_set_meta_count"
    ensures Name(8) == "total_delete_count" && Name(9) == "success_delete_count"
    ensures Name(10) == "total_get_meta_count" && Name(11) == "success_get_meta_count"
  {
  }

  /** Which field stands where in the record. */
  lemma FieldsByPosition(stat: StorageStat)
    ensures var values := stat.Current();
            && values[0] == stat.totalUpload && values[1] == stat.successUpload
            && values[2] == stat.totalDownload && values[3] == stat.successDownload
            && values[4] == stat.lastSourceUpdate && values[5] == stat.lastSyncUpdate
            && values[6] == stat.totalSetMeta && values[7] == stat.successSetMeta
            && values[8] == stat.totalDelete && values[9] == stat.successDelete
            && values[10] == stat.totalGetMeta && values[11] == stat.successGetMeta
  {
  }

  lemma LineByName(values: Values, k: nat)
    requires k < STAT_ITEMS
    ensures Lines(values)[k] == StatLine(Name(k), values[k])
  {
  }

  lemma TextByName(stat: StorageStat)
    ensures Text(stat.Current()) == Ini.Concat(
        [StatLine("total_upload_count", stat.totalUpload),
         StatLine("success_upload_count", stat.successUpload),
         StatLine("total_download_count", stat.totalDownload),
         StatLine("success_download_count", stat.successDownload),
         StatLine("last_source_update", stat.lastSourceUpdate),
         StatLine("last_sync_update", stat.lastSyncUpdate),
         StatLine("total_set_meta_count", stat.totalSetMeta),
         StatLine("success_set_meta_count", stat.successSetMeta),
         StatLine("total_delete_count", stat.totalDelete),
         StatLine("success_delete_count", stat.successDelete),
         StatLine("total_get_meta_count", stat.totalGetMeta),
         StatLine("success_get_meta_count", stat.successGetMeta)])
  {
    var values := stat.Current();
    var lines := Lines(values);
    NamesByPosition();
    FieldsByPosition(stat);
    forall k | 0 <= k < STAT_ITEMS ensures lines[k] == StatLine(Name(k), values[k]) {
      LineByName(values, k);
    }
    assert Text(values) == Ini.Concat(lines);
    hide *;
    TwelveLines(lines);
  }

  lemma TwelveLines(s: seq<string>)
    requires |s| == 12
    ensures s == [s[0], s[1], s[2], s[3], s[4], s[5], s[6], s[7], s[8], s[9], s[10], s[11]]
  {
  }

  lemma LookedUpByName(stat: StorageStat, list: seq<Ini.IniItem>)
    requires forall k | 0 <= k < STAT_ITEMS :: LookedUp(list, Name(k), stat.Current()[k])
    ensures stat.FieldsFrom(list)
  {
    NamesByPosition();
    FieldsByPosition(stat);
    assert forall k | 0 <= k < STAT_ITEMS :: LookedUp(list, Name(k), stat.Current()[k]);
    hide LookedUp, Name;
  }

  /** iniGetIntValue for one of the twelve, in the table loaded from a file. */
  method LoadCounter(k: nat, items: seq<Ini.Slot>, ghost list: seq<Ini.IniItem>) returns (x: int32)
    requires k < STAT_ITEMS
    requires Sorted(items, Ini.CompareByItemName) && multiset(Ini.ItemsIn(items)) == multiset(list)
    ensures LookedUp(list, Name(k), x)
  {
    hide Name, Sorted, Ini.CompareByItemName, Ini.ItemsIn, Atoi;
    NameText(k);
    assert Cut(Name(k), Ini.NAME_LEN) == Name(k);
    x := Ini.GetIntValue(Name(k), items, 0);
    PermutationHasSameElements(Ini.ItemsIn(items), list);
  }
}
