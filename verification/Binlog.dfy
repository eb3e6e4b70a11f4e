/** The binlog file: storage_binlog_write appends a record, counts its bytes and starts a new file
    when the present one is full. */
module Binlog {
  import opened CStrings
  import opened Numbers
  import opened Store

  const MAX_SIZE := 1024 * 1024 * 1024

  /** A record as a line of text. */
  function Line(now: int32, op: char, filename: string): string {
    PrintDec(now) + " " + [op] + " " + filename + "\n"
  }

  lemma LineLength(now: int32, op: char, filename: string)
    ensures |filename| + 5 <= |Line(now, op, filename)| <= |filename| + 15
  {
    PrintDecLength(now);
  }

  /** A line is read back: the time is the number it starts with, the letter stands after the first
      blank, and the name, after another blank, goes up to the newline that ends it. */
  lemma LineReads(now: int32, op: char, filename: string)
    ensures var line := Line(now, op, filename);
            var i := IndexOf(line, ' ');
            && i == |PrintDec(now)| && |line| == i + |filename| + 4
            && Atoi(line) == now && line[i + 1] == op && line[i + 2] == ' '
            && line[i + 3..|line| - 1] == filename && line[|line| - 1] == '\n'
  {
    var number, rest := PrintDec(now), [' ', op, ' '] + filename + "\n";
    var line := Line(now, op, filename);
    assert line == number + rest;
    AtoiOfText(now, rest);
    assert Free(number, ' ');
    assert line[..|number|] == number;
    hide PrintDec, Atoi;
    IndexOfUnique(line, ' ', |number|);
  }

  // ------------------------------------------------------------ accounting

  /** Bytes in the present file, sizes of the files filled up so far, and the file index. */
  datatype Account = Account(size: nat, closed: seq<nat>, index: int)

  function Counted(a: Account, bytes: nat): Account {
    if a.size + bytes >= MAX_SIZE then Account(0, a.closed + [a.size + bytes], a.index + 1)
    else a.(size := a.size + bytes)
  }

  function CountedAll(a: Account, records: seq<nat>): Account {
    if records == [] then a else Counted(CountedAll(a, records[..|records| - 1]), records[|records| - 1])
  }

  function Sum(s: seq<nat>): nat { if s == [] then 0 else Sum(s[..|s| - 1]) + s[|s| - 1] }

  lemma SumAppend(s: seq<nat>, x: nat)
    ensures Sum(s + [x]) == Sum(s) + x
  {
    assert (s + [x])[..|s|] == s;
  }

  /** For every sequence of records shorter than 256 bytes: the present file stays below the limit,
      the index has grown by one for each file filled up, each of those is between the limit and
      the limit plus 254 bytes, and no byte is lost. */
  lemma {:induction false} Accounting(a: Account, records: seq<nat>)
    requires a.size < MAX_SIZE
    requires forall k | 0 <= k < |records| :: records[k] < 256
    ensures var b := CountedAll(a, records);
            && b.size < 0x4000_0000
            && a.closed <= b.closed
            && b.index - a.index == |b.closed| - |a.closed|
            && (forall k | |a.closed| <= k < |b.closed| :: 0x4000_0000 <= b.closed[k] < 0x4000_0000 + 255)
            && b.size + Sum(b.closed) == a.size + Sum(a.closed) + Sum(records)
    decreases |records|
  {
    if records != [] {
      var front, last := records[..|records| - 1], records[|records| - 1];
      Accounting(a, front);
      var b := CountedAll(a, front);
      SumAppend(b.closed, b.size + last);
    }
  }

  /** The number of files filled up is what the bytes amount to, within the slack of one record a
      file: a file is closed exactly when the limit is reached. */
  lemma ClosedCount(a: Account, records: seq<nat>)
    requires a == Account(0, [], 0)
    requires forall k | 0 <= k < |records| :: records[k] < 256
    ensures var n := CountedAll(a, records).index;
            0 <= n && n * 0x4000_0000 <= Sum(records) < (n + 1) * (0x4000_0000 + 255)
  {
    hide CountedAll;
    Accounting(a, records);
    var b := CountedAll(a, records);
    SumBounds(b.closed);
  }

  lemma {:induction false} SumBounds(s: seq<nat>)
    requires forall k | 0 <= k < |s| :: MAX_SIZE <= s[k] < MAX_SIZE + 255
    ensures |s| * MAX_SIZE <= Sum(s) <= |s| * (MAX_SIZE + 255)
  {
    if s != [] {
      SumBounds(s[..|s| - 1]);
    }
  }

  // ------------------------------------------------------------ the file

  /** How the system calls of one storage_binlog_write go.  After a failed flush the record may
      still reach the file later. */
  datatype WriteEnv = WriteEnv(lock: Option<Errno>, format: Option<Errno>, flush: Option<Errno>, kept: bool,
                               indexFile: Option<Errno>, reopen: Option<Errno>, unlock: Option<Errno>)

  /** How an append ends: with the status of the call that failed last, the result of unlocking in
      front, and with the record in the file unless it could not be printed, or not flushed and was
      not kept.  full tells whether the file was filled up. */
  function Outcome(env: WriteEnv, full: bool): AppendOutcome {
    if env.lock.Some? then NotAppended(env.lock.value)
    else
      var status :=
        if env.unlock.Some? then env.unlock
        else if env.format.Some? then env.format
        else if env.flush.Some? then env.flush
        else if full && env.indexFile.Some? then env.indexFile
        else if full then env.reopen
        else None;
      if status.None? then Appended
      else if env.format.Some? || (env.flush.Some? && !env.kept) then NotAppended(status.value)
      else AppendedButFailed(status.value)
  }

  class BinlogFile {
    var records: seq<Record>
    var size: int
    var index: int
    var continueFlag: bool
    ghost var closed: seq<nat>

    ghost predicate Valid()
      reads this
    {
      0 <= size < MAX_SIZE
    }

    ghost function Accounts(): Account
      requires Valid()
      reads this
    {
      Account(size, closed, index)
    }

    constructor ()
      ensures Valid() && records == [] && continueFlag && Accounts() == Account(0, [], 0)
    {
      records, size, index, continueFlag, closed := [], 0, 0, true, [];
    }

    /** storage_binlog_write.  Bytes are counted exactly when the record is written and flushed;
        filling the file up starts the next one, and failing to do so stops the daemon. */
    method Write(op: char, filename: string, now: int32, env: WriteEnv) returns (result: int, ghost outcome: AppendOutcome)
      requires Valid()
      modifies this
      ensures Valid()
      ensures BinlogWrite(old(records), op, filename, outcome) == Result(records, result)
      ensures env.lock.None? && env.format.None? && env.flush.None? ==>
                records == old(records) + [Record(op, filename)] && Accounts() == Counted(old(Accounts()), |Line(now, op, filename)|)
      ensures env.lock.Some? || env.format.Some? || env.flush.Some? ==>
                result != 0 && Accounts() == old(Accounts()) && continueFlag == old(continueFlag)
      ensures continueFlag == (old(continueFlag) && !(index > old(index) && (env.indexFile.Some? || env.reopen.Some?)))
      ensures outcome == Outcome(env, old(size) + |Line(now, op, filename)| >= MAX_SIZE)
      ensures result != EEXIST && (result == 0 <==> outcome == Appended)
      ensures result == 0 <==> env.lock.None? && env.format.None? && env.flush.None? && env.unlock.None?
                               && (index == old(index) || (env.indexFile.None? && env.reopen.None?))
    {
      if env.lock.Some? {
        return env.lock.value, NotAppended(env.lock.value);
      }
      ghost var appended := false;
      result := 0;
      var writeBytes := |Line(now, op, filename)|;
      if env.format.Some? {
        result := env.format.value;
      } else if env.flush.Some? {
        result := env.flush.value;
        if env.kept {
          records := records + [Record(op, filename)];
          appended := true;
        }
      } else {
        records := records + [Record(op, filename)];
        appended := true;
        size := size + writeBytes;
        if size >= MAX_SIZE {
          index := index + 1;
          closed := closed + [size];
          if env.indexFile.Some? {
            result := env.indexFile.value;
          } else if env.reopen.Some? {
            result := env.reopen.value;
          }
          size := 0;
          if result != 0 {
            continueFlag := false;
          }
        }
      }
      if env.unlock.Some? {
        result := env.unlock.value;
      }
      outcome := if result == 0 then Appended else if appended then AppendedButFailed(result) else NotAppended(result);
    }
  }
}
