/** The heartbeat of tracker_client_thread.c: one packet, with the statistics in it when the change
    counter is not the one last sent. */
module Heartbeat {
  import opened CStrings
  import opened Numbers
  import opened Store
  import opened StatFile
  import FileNames
  import P = Packets

  const CMD_STORAGE_BEAT := 83
  const HEADER_SIZE := 11
  const BODY_SIZE := 48

  /** Where the packet has the value that the status file has at position k. */
  function Offset(k: nat): (at: nat)
    requires k < STAT_ITEMS
    ensures HEADER_SIZE <= at <= HEADER_SIZE + BODY_SIZE - 4
  {
    if k < 2 then 11 + 4 * k
    else if k < 4 then 35 + 4 * (k - 2)
    else if k < 6 then 51 + 4 * (k - 4)
    else if k < 10 then 19 + 4 * (k - 6)
    else 43 + 4 * (k - 10)
  }

  lemma OffsetsApart(j: nat, k: nat)
    requires j < STAT_ITEMS && k < STAT_ITEMS && j != k
    ensures Offset(j) + 4 <= Offset(k) || Offset(k) + 4 <= Offset(j)
  {
  }

  /** A beat as its receiver reads it: the twelve values, or none. */
  function ReadBeat(packet: string): Option<Values> {
    if |packet| == HEADER_SIZE + BODY_SIZE && P.Field(packet, 0) == BODY_SIZE then
      var values: Values := seq(STAT_ITEMS, k requires 0 <= k < STAT_ITEMS => FileNames.IntOf(ValueAt(packet, Offset(k))));
      Some(values)
    else None
  }

  function ValueAt(packet: string, at: nat): (s: string)
    requires at + 4 <= |packet|
    ensures |s| == 4
  {
    packet[at..at + 4]
  }

  /** These of the values are in the buffer. */
  ghost predicate Filled(b: seq<char>, values: Values, done: set<nat>) {
    && |b| == HEADER_SIZE + BODY_SIZE
    && forall k | k in done && k < STAT_ITEMS :: ValueAt(b, Offset(k)) == FileNames.IntBytes(values[k])
  }

  /** int2buff into the field of one value. */
  method Put(buff: array<char>, k: nat, n: int32, ghost values: Values, ghost done: set<nat>) returns (ghost more: set<nat>)
    requires k < STAT_ITEMS && n == values[k]
    requires Filled(buff[..], values, done)
    modifies buff
    ensures Filled(buff[..], values, more) && more == done + {k}
  {
    hide FileNames.IntBytes, Offset;
    more := done + {k};
    ghost var was := buff[..];
    FileNames.Int2Buff(n, buff, Offset(k));
    forall j | j in done && j < STAT_ITEMS && j != k ensures ValueAt(buff[..], Offset(j)) == ValueAt(was, Offset(j)) {
      OffsetsApart(j, k);
    }
  }

  ghost predicate HasAll(b: seq<char>, values: Values) {
    && |b| == HEADER_SIZE + BODY_SIZE
    && forall k | 0 <= k < STAT_ITEMS :: ValueAt(b, Offset(k)) == FileNames.IntBytes(values[k])
  }

  lemma AllFilled(b: seq<char>, values: Values, done: set<nat>)
    requires Filled(b, values, done)
    requires {0, 1, 2, 3, 4, 5, 6, 7, 8, 9, 10, 11} <= done
    ensures HasAll(b, values)
  {
    hide FileNames.IntBytes, Offset;
    forall k | 0 <= k < STAT_ITEMS ensures k in done {
      assert k in {0, 1, 2, 3, 4, 5, 6, 7, 8, 9, 10, 11};
    }
  }

  /** A packet with all the values and their length in front is read back. */
  lemma BeatReads(packet: string, values: Values)
    requires HasAll(packet, values) && P.Field(packet, 0) == BODY_SIZE
    ensures ReadBeat(packet) == Some(values)
  {
    hide FileNames.IntBytes, FileNames.IntOf, P.Field;
    forall k | 0 <= k < STAT_ITEMS ensures FileNames.IntOf(ValueAt(packet, Offset(k))) == values[k] {
      FileNames.IntBytesInverse(values[k]);
    }
    assert ReadBeat(packet).value == values;
  }

  lemma LengthReads(packet: string, n: nat)
    requires n <= BODY_SIZE && |PrintHex(n)| < |packet| && packet[..|PrintHex(n)| + 1] == PrintHex(n) + [NUL]
    ensures P.Field(packet, 0) == n
  {
    hide PrintHex, P.Field;
    var t := PrintHex(n) + [NUL];
    assert packet == t + packet[|t|..];
    P.FieldOfText(n, packet[|t|..]);
  }

  lemma BodyStays(b: seq<char>, b': seq<char>, values: Values)
    requires HasAll(b, values) && |b'| == |b| && forall i | HEADER_SIZE <= i < |b| :: b'[i] == b[i]
    ensures HasAll(b', values)
  {
    hide FileNames.IntBytes, Offset;
    forall k | 0 <= k < STAT_ITEMS ensures ValueAt(b', Offset(k)) == ValueAt(b, Offset(k)) {
    }
  }

  lemma SliceJoin(b: seq<char>, i: nat, j: nat, k: nat)
    requires i <= j <= k <= |b|
    ensures b[i..j] + b[j..k] == b[i..k]
  {
  }

  /** Two neighbouring values. */
  lemma TwoValues(b: seq<char>, values: Values, j: nat, k: nat)
    requires HasAll(b, values) && j < STAT_ITEMS && k < STAT_ITEMS && Offset(k) == Offset(j) + 4
    ensures b[Offset(j)..Offset(j) + 8] == FileNames.IntBytes(values[j]) + FileNames.IntBytes(values[k])
  {
    hide FileNames.IntBytes;
    SliceJoin(b, Offset(j), Offset(j) + 4, Offset(j) + 8);
    assert ValueAt(b, Offset(j)) == b[Offset(j)..Offset(j) + 4] && ValueAt(b, Offset(k)) == b[Offset(j) + 4..Offset(j) + 8];
  }

  /** The body, field by field, in the order of FDFSStorageStatBuff: for uploads, metadata changes,
      deletes, downloads and metadata reads the total and then the successes, and the two times. */
  lemma BodyLayout(b: seq<char>, values: Values)
    requires HasAll(b, values)
    ensures |b| == 59
    ensures b[11..19] == FileNames.IntBytes(values[0]) + FileNames.IntBytes(values[1])
    ensures b[19..27] == FileNames.IntBytes(values[6]) + FileNames.IntBytes(values[7])
    ensures b[27..35] == FileNames.IntBytes(values[8]) + FileNames.IntBytes(values[9])
    ensures b[35..43] == FileNames.IntBytes(values[2]) + FileNames.IntBytes(values[3])
    ensures b[43..51] == FileNames.IntBytes(values[10]) + FileNames.IntBytes(values[11])
    ensures b[51..59] == FileNames.IntBytes(values[4]) + FileNames.IntBytes(values[5])
  {
    hide FileNames.IntBytes;
    TwoValues(b, values, 0, 1);
    TwoValues(b, values, 6, 7);
    TwoValues(b, values, 8, 9);
    TwoValues(b, values, 2, 3);
    TwoValues(b, values, 10, 11);
    TwoValues(b, values, 4, 5);
  }

  class Reporter {
    var statChgSyncCount: int

    constructor ()
      ensures statChgSyncCount == 0
    {
      statChgSyncCount := 0;
    }

    /** tracker_heart_beat, with the outcomes of sending and of the response.  The sync count is
        set when the values are copied, whatever becomes of the packet. */
    method HeartBeat(stat: StorageStat, changeCount: int, send: Option<Errno>, response: int)
      returns (result: int, packet: string)
      modifies this
      ensures statChgSyncCount == changeCount
      ensures ReadBeat(packet) == if old(statChgSyncCount) != changeCount then Some(stat.Current()) else None
      ensures |packet| >= 11 && packet[9] == 83 as char && packet[10] == NUL
      ensures old(statChgSyncCount) == changeCount ==> |packet| == 11 && P.Field(packet, 0) == 0
      ensures old(statChgSyncCount) != changeCount ==>
                && |packet| == 59 && P.Field(packet, 0) == 48
                && packet[11..19] == FileNames.IntBytes(stat.totalUpload) + FileNames.IntBytes(stat.successUpload)
                && packet[19..27] == FileNames.IntBytes(stat.totalSetMeta) + FileNames.IntBytes(stat.successSetMeta)
                && packet[27..35] == FileNames.IntBytes(stat.totalDelete) + FileNames.IntBytes(stat.successDelete)
                && packet[35..43] == FileNames.IntBytes(stat.totalDownload) + FileNames.IntBytes(stat.successDownload)
                && packet[43..51] == FileNames.IntBytes(stat.totalGetMeta) + FileNames.IntBytes(stat.successGetMeta)
                && packet[51..59] == FileNames.IntBytes(stat.lastSourceUpdate) + FileNames.IntBytes(stat.lastSyncUpdate)
      ensures result == if send.Some? then send.value else response
    {
      hide PrintHex, P.Field, HasAll, FileNames.IntBytes;
      var outBuff := new char[HEADER_SIZE + BODY_SIZE];
      var bodyLen := 0;
      ghost var filled := statChgSyncCount != changeCount;
      if statChgSyncCount != changeCount {
        FillBody(stat, outBuff);
        statChgSyncCount := changeCount;
        bodyLen := BODY_SIZE;
      }
      ghost var body := outBuff[..];
      WriteHeader(bodyLen, outBuff);
      packet := outBuff[..HEADER_SIZE + bodyLen];
      assert packet[..|PrintHex(bodyLen)| + 1] == outBuff[..|PrintHex(bodyLen)| + 1];
      LengthReads(packet, bodyLen);
      if filled {
        BodyStays(body, packet, stat.Current());
        BeatReads(packet, stat.Current());
        BodyLayout(packet, stat.Current());
        FieldsByPosition(stat);
      }
      result := if send.Some? then send.value else response;
    }
  }

  method FillBody(stat: StorageStat, outBuff: array<char>)
    requires outBuff.Length == HEADER_SIZE + BODY_SIZE
    modifies outBuff
    ensures HasAll(outBuff[..], stat.Current())
  {
    ghost var values := stat.Current();
    FieldsByPosition(stat);
    assert Filled(outBuff[..], values, {});
    hide Filled, Offset;
    ghost var done: set<nat> := {};
    done := Put(outBuff, 0, stat.totalUpload, values, done);
    done := Put(outBuff, 1, stat.successUpload, values, done);
    done := Put(outBuff, 2, stat.totalDownload, values, done);
    done := Put(outBuff, 3, stat.successDownload, values, done);
    done := Put(outBuff, 6, stat.totalSetMeta, values, done);
    done := Put(outBuff, 7, stat.successSetMeta, values, done);
    done := Put(outBuff, 8, stat.totalDelete, values, done);
    done := Put(outBuff, 9, stat.successDelete, values, done);
    done := Put(outBuff, 10, stat.totalGetMeta, values, done);
    done := Put(outBuff, 11, stat.successGetMeta, values, done);
    done := Put(outBuff, 4, stat.lastSourceUpdate, values, done);
    done := Put(outBuff, 5, stat.lastSyncUpdate, values, done);
    AllFilled(outBuff[..], values, done);
  }

  /** sprintf of the length, command and status. */
  method WriteHeader(bodyLen: nat, outBuff: array<char>)
    requires outBuff.Length == HEADER_SIZE + BODY_SIZE && bodyLen <= BODY_SIZE
    modifies outBuff
    ensures |PrintHex(bodyLen)| < 9 && outBuff[..|PrintHex(bodyLen)| + 1] == PrintHex(bodyLen) + [NUL]
    ensures outBuff[9] == 83 as char && outBuff[10] == NUL
    ensures forall i | HEADER_SIZE <= i < outBuff.Length :: outBuff[i] == old(outBuff[i])
  {
    hide PrintHex;
    PrintHexLength(bodyLen);
    var text := PrintHex(bodyLen) + [NUL];
    CopyInto(outBuff, 0, text);
    assert outBuff[..|text|] == outBuff[0..0 + |text|];
    outBuff[9], outBuff[10] := CMD_STORAGE_BEAT as char, NUL;
  }
}
