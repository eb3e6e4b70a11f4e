/** The request handlers of storage_service.c, from a received packet to the changed files, the
    binlog and the status: each is one Request of the store's model. */
module Server {
  import opened CStrings
  import opened Numbers
  import opened Store
  import opened Binlog
  import Base64
  import FileNames
  import Metadata
  import Replication
  import P = Packets

  const MAX_TRIES := 1024
  const META_AT := P.UPLOAD_FIXED

  /** The time and random number one attempt to generate a name reads. */
  datatype Draw = Draw(time: int32, rand: int32)

  /** How the system calls of one upload go. */
  datatype UploadEnv = UploadEnv(data: WriteOutcome, sort: Option<Errno>, meta: WriteOutcome, undo: UnlinkOutcome,
                                 now: int32, logData: WriteEnv, logMeta: WriteEnv, send: Option<Errno>)

  datatype DeleteEnv = DeleteEnv(data: UnlinkOutcome, meta: UnlinkOutcome,
                                 now: int32, logData: WriteEnv, logMeta: WriteEnv, send: Option<Errno>)

  datatype SyncEnv = SyncEnv(write: WriteOutcome, unlink: UnlinkOutcome,
                             now: int32, log: WriteEnv, send: Option<Errno>)

  function Candidates(c: Base64.Codec, fileSize: int32, draws: seq<Draw>): (names: seq<string>)
    requires c.Valid()
    ensures |names| == |draws|
    ensures forall k | 0 <= k < |draws| :: names[k] == FileNames.NameOf(c, draws[k].time, fileSize, draws[k].rand)
  {
    seq(|draws|, k requires 0 <= k < |draws| => FileNames.NameOf(c, draws[k].time, fileSize, draws[k].rand))
  }

  /** The faults of an upload, given how its two appends went. */
  function Faults(env: UploadEnv, logData: AppendOutcome, logMeta: AppendOutcome): UploadFaults {
    UploadFaults(env.data, env.sort, env.meta, env.undo, logData, logMeta)
  }

  /** What an append to the binlog can come to, given how its calls go. */
  predicate LogOutcome(env: WriteEnv, a: AppendOutcome) { a == Outcome(env, false) || a == Outcome(env, true) }

  /** A failed send hides the status of the request. */
  function Reply(status: int, send: Option<Errno>): int { if send.Some? then send.value else status }

  /** What storage_save_file may write as metadata for the bytes a packet declares.  When an item is
      kept, the content is as long as declared, parses to the items in name order, and is exactly
      their packed form if and only if the bytes hold no NUL and only regular rows.  When none is,
      it is the bytes as declared but for separators that splitting overwrote. */
  ghost predicate MetaContent(declared: string, content: string) {
    var s := CStr(declared);
    && |content| == |declared|
    && (Metadata.Parse(s) == [] ==> Metadata.OnlyCuts(declared, content, 0, |s|, Metadata.RECORD_SEPARATOR))
    && (Metadata.Parse(s) != [] ==> exists sorted :: CanonicalContent(declared, content, sorted))
  }

  ghost predicate CanonicalContent(declared: string, content: string, sorted: seq<Metadata.MetaData>) {
    var s := CStr(declared);
    && multiset(sorted) == multiset(Metadata.Parse(s))
    && (forall i, j | 0 <= i < j < |sorted| :: !Before(sorted[j].name, sorted[i].name))
    && Metadata.Parse(CStr(content)) == sorted
    && (content == Metadata.Pack(sorted)
        <==> |s| == |declared| && Metadata.AllRegular(Metadata.Split(s, Metadata.RECORD_SEPARATOR)))
  }

  /** The declared bytes, with the pad byte set, hold their string in the buffer. */
  lemma DeclaredHolds(b: seq<char>, p: nat, n: nat)
    requires p + n < |b| && b[p + n] == NUL
    ensures HoldsAt(b, p, CStr(b[p..p + n]))
  {
    var declared := b[p..p + n];
    var s := CStr(declared);
    CStrFree(declared);
    assert b[p..p + |s|] == declared[..|s|];
  }

  lemma SortedContent(was: seq<char>, b: seq<char>, p: nat, n: nat, sorted: seq<Metadata.MetaData>)
    requires 1 <= p && p + n < |was| && |b| == |was|
    requires var s := CStr(was[p..p + n]);
             && Metadata.Canonical(sorted, s)
             && (sorted != [] ==> HoldsAt(b, p, Metadata.Pack(sorted)))
             && (sorted == [] ==> Metadata.OnlyCuts(was[p - 1 := NUL], b, p, p + |s|, Metadata.RECORD_SEPARATOR))
    ensures MetaContent(was[p..p + n], b[p..p + n])
  {
    hide Metadata.Pack, Metadata.Parse, Metadata.Split, Metadata.AllRegular, HoldsAt;
    var declared, content := was[p..p + n], b[p..p + n];
    var s := CStr(declared);
    Metadata.CanonicalMeaning(sorted, s);
    if sorted != [] {
      Metadata.SavedBytes(b, p, s, n, sorted);
      assert CanonicalContent(declared, content, sorted);
    }
  }

  /** The metadata of an upload is sorted where it was received. */
  method SortInBuffer(inBuff: array<char>, metaSize: nat)
    requires META_AT + metaSize < inBuff.Length && inBuff[META_AT + metaSize] == NUL
    modifies inBuff
    ensures MetaContent(old(inBuff[META_AT..META_AT + metaSize]), inBuff[META_AT..META_AT + metaSize])
  {
    hide HoldsAt, Metadata.Canonical, Metadata.Pack, Metadata.OnlyCuts, Metadata.Unwritten, MetaContent, CStr;
    ghost var was := inBuff[..];
    DeclaredHolds(was, META_AT, metaSize);
    ghost var sorted := Metadata.SortMetadataBuff(inBuff, META_AT, CStr(was[META_AT..META_AT + metaSize]));
    SortedContent(was, inBuff[..], META_AT, metaSize, sorted);
    assert was[META_AT..META_AT + metaSize] == old(inBuff[META_AT..META_AT + metaSize]);
    assert inBuff[..][META_AT..META_AT + metaSize] == inBuff[META_AT..META_AT + metaSize];
  }

  /** The buffer an upload is received in, with the pad byte set. */
  method Receive(packet: string, s: P.UploadSizes) returns (inBuff: array<char>)
    requires P.UploadTiles(packet, s)
    ensures fresh(inBuff) && inBuff.Length == META_AT + s.meta + 1 + s.file + 1
    ensures inBuff[META_AT + s.meta] == NUL
    ensures inBuff[META_AT..META_AT + s.meta] == P.UploadMeta(packet, s)
    ensures inBuff[META_AT + s.meta + 1..inBuff.Length - 1] == P.UploadData(packet, s)
  {
    inBuff := new char[|packet| + 1];
    CopyInto(inBuff, 0, packet + [NUL]);
    inBuff[META_AT + s.meta] := NUL;
    assert inBuff[META_AT..META_AT + s.meta] == P.UploadMeta(packet, s);
    assert inBuff[META_AT + s.meta + 1..inBuff.Length - 1] == P.UploadData(packet, s);
  }

  /** r is the upload that this packet asks for, with names made from the draws. */
  ghost predicate IsUpload(r: Request, files: map<string, string>, c: Base64.Codec, packet: string, s: P.UploadSizes,
                           draws: seq<Draw>, env: UploadEnv)
    requires c.Valid() && P.UploadTiles(packet, s) && s.file <= 0x7FFF_FFFF
  {
    && r.UploadRequest? && r.send == env.send
    && r.upload == Faults(env, r.upload.logData, r.upload.logMeta)
    && LogOutcome(env.logData, r.upload.logData) && LogOutcome(env.logMeta, r.upload.logMeta)
    && r.candidates == Candidates(c, s.file, draws)
    && r.data == P.UploadData(packet, s)
    && (r.meta.Some? <==> s.meta > 0)
    && (r.meta.Some? && FirstFree(files, r.candidates).Some? && Reported(env.data) && env.sort.None? ==>
          MetaContent(P.UploadMeta(packet, s), r.meta.value))
  }

  lemma MakesUpload(r: Request, files: map<string, string>, c: Base64.Codec, packet: string, s: P.UploadSizes,
                    draws: seq<Draw>, env: UploadEnv)
    requires c.Valid() && P.UploadTiles(packet, s) && s.file <= 0x7FFF_FFFF
    requires r.UploadRequest? && r.upload == Faults(env, r.upload.logData, r.upload.logMeta) && (r.meta.Some? <==> s.meta > 0)
    requires LogOutcome(env.logData, r.upload.logData) && LogOutcome(env.logMeta, r.upload.logMeta)
    requires r == UploadRequest(Candidates(c, s.file, draws), P.UploadData(packet, s), r.meta, r.upload, env.send)
    requires r.meta.Some? && FirstFree(files, r.candidates).Some? && Reported(env.data) && env.sort.None? ==>
               MetaContent(P.UploadMeta(packet, s), r.meta.value)
    ensures IsUpload(r, files, c, packet, s, draws, env)
  {
  }

  /** An upload, told by how saving the files ended. */
  lemma UploadSteps(d: Disk, r: Request, env: UploadEnv, logData: AppendOutcome, logMeta: AppendOutcome,
                    files: map<string, string>, saved: int)
    requires r.UploadRequest? && r.upload == Faults(env, logData, logMeta)
    requires var name := FirstFree(d.files, r.candidates);
             && (name.None? ==> files == d.files && saved == ENOENT)
             && (name.Some? ==> Store.SaveFile(d.files, name.value, r.data, r.meta, Faults(env, Appended, Appended)) == Result(files, saved))
    ensures var name := FirstFree(d.files, r.candidates);
            Effect(d, r) ==
              if saved != 0 then Result(Disk(files, d.log), saved)
              else
                var logged := BinlogWrite(d.log, 'C', name.value, logData);
                if logged.status != 0 || r.meta.None? then Result(Disk(files, logged.value), logged.status)
                else
                  var logged2 := BinlogWrite(logged.value, 'C', MetaName(name.value), logMeta);
                  Result(Disk(files, logged2.value), logged2.status)
  {
    hide FirstFree, BinlogWrite;
  }

  /** Uploads as the server makes them are the ones replication is about: their names have the
      length that tells data files from metadata files. */
  lemma UploadIsFromClient(r: Request, files: map<string, string>, c: Base64.Codec, packet: string, s: P.UploadSizes,
                           draws: seq<Draw>, env: UploadEnv)
    requires c.Valid() && P.UploadTiles(packet, s) && s.file <= 0x7FFF_FFFF
    requires IsUpload(r, files, c, packet, s, draws, env)
    ensures Replication.FromClient(r)
  {
    hide FileNames.NameOf;
    forall k | 0 <= k < |draws| ensures |r.candidates[k]| == FileNames.NAME_LENGTH {
      FileNames.NameShape(c, draws[k].time, s.file, draws[k].rand);
    }
  }

  lemma FirstFreeStep(files: map<string, string>, names: seq<string>, i: nat)
    requires i < |names|
    ensures FirstFree(files, names[i..]) == if names[i] !in files then Some(names[i]) else FirstFree(files, names[i + 1..])
  {
    assert names[i..][0] == names[i] && names[i..][1..] == names[i + 1..];
  }

  lemma NoneFree(files: map<string, string>, names: seq<string>)
    ensures FirstFree(files, names[|names|..]) == None
  {
  }

  class StorageServer {
    const codec: Base64.Codec
    const groupName: string
    const binlog: BinlogFile
    var files: map<string, string>

    ghost predicate Valid()
      reads this, binlog
    {
      codec.Valid() && binlog.Valid()
    }

    ghost function Contents(): Disk
      reads this, binlog
    {
      Disk(files, binlog.records)
    }

    constructor (codec: Base64.Codec, groupName: string)
      requires codec.Valid()
      ensures Valid() && fresh(binlog) && Contents() == Disk(map[], [])
      ensures this.codec == codec && this.groupName == groupName
    {
      this.codec, this.groupName := codec, groupName;
      binlog := new BinlogFile();
      files := map[];
    }

    /** The loop of storage_save_file that looks for a free name: at most 1024 attempts. */
    method FreeName(fileSize: int32, draws: seq<Draw>) returns (filename: string, found: bool)
      requires Valid() && |draws| == 1024
      ensures var name := FirstFree(files, Candidates(codec, fileSize, draws));
              found == name.Some? && (found ==> filename == name.value)
    {
      var buff := new char[128];
      filename, found := "", false;
      var i := 0;
      ghost var names := Candidates(codec, fileSize, draws);
      assert names[0..] == names;
      hide FirstFree, Candidates;
      while i < MAX_TRIES
        invariant 0 <= i <= MAX_TRIES && !found
        invariant FirstFree(files, names) == FirstFree(files, names[i..])
      {
        var len := FileNames.GenFilename(codec, draws[i].time, fileSize, draws[i].rand, buff);
        FirstFreeStep(files, names, i);
        if buff[..len] !in files {
          return buff[..len], true;
        }
        i := i + 1;
      }
      NoneFree(files, names);
    }

    /** storage_save_file, on the buffer an upload was received in. */
    method SaveFile(inBuff: array<char>, s: P.UploadSizes, draws: seq<Draw>, env: UploadEnv)
      returns (status: int, filename: string, ghost meta: Option<string>)
      requires Valid() && |draws| == 1024 && s.file <= 0x7FFF_FFFF
      requires inBuff.Length == META_AT + s.meta + 1 + s.file + 1 && inBuff[META_AT + s.meta] == NUL
      modifies this`files, inBuff
      ensures var name := FirstFree(old(files), Candidates(codec, s.file, draws));
              var data := old(inBuff[META_AT + s.meta + 1..inBuff.Length - 1]);
              && (name.None? ==> files == old(files) && status == ENOENT)
              && (name.Some? ==> Store.SaveFile(old(files), name.value, data, meta, Faults(env, Appended, Appended)) == Result(files, status))
              && (status == 0 ==> name == Some(filename))
              && (name.Some? && Reported(env.data) && env.sort.None? && meta.Some? ==>
                    MetaContent(old(inBuff[META_AT..META_AT + s.meta]), meta.value))
      ensures meta.Some? <==> s.meta > 0
    {
      hide Candidates, FirstFree, MetaContent;
      meta := if s.meta > 0 then Some("") else None;
      var found;
      filename, found := FreeName(s.file, draws);
      if !found {
        return ENOENT, "", meta;
      }
      ghost var was := inBuff[..];
      var saved := WriteToFile(files, filename, inBuff[META_AT + s.meta + 1..inBuff.Length - 1], env.data);
      files, status := saved.value, saved.status;
      if status != 0 || s.meta == 0 {
        return;
      }
      if env.sort.Some? {
        files, status := Unlink(files, filename, env.undo).value, env.sort.value;
        return;
      }
      SortInBuffer(inBuff, s.meta);
      meta := Some(inBuff[META_AT..META_AT + s.meta]);
      assert was[META_AT..META_AT + s.meta] == old(inBuff[META_AT..META_AT + s.meta]);
      saved := WriteToFile(files, MetaName(filename), inBuff[META_AT..META_AT + s.meta], env.meta);
      files, status := saved.value, saved.status;
      if status != 0 {
        files := Unlink(files, filename, env.undo).value;
      }
    }

    /** The rest of storage_upload_file, once the sizes are found right. */
    method AcceptUpload(packet: string, s: P.UploadSizes, draws: seq<Draw>, env: UploadEnv)
      returns (status: int, body: string, ghost r: Request)
      requires Valid() && |packet| <= 0x7FFF_FFFF && |draws| == 1024 && P.UploadTiles(packet, s)
      modifies this`files, binlog
      ensures Valid()
      ensures Effect(old(Contents()), r) == Result(Contents(), status)
      ensures IsUpload(r, old(files), codec, packet, s, draws, env) && r.UploadRequest? && r.send == env.send
      ensures body == if status == 0 then FirstFree(old(files), r.candidates).value else ""
    {
      hide Candidates, FirstFree, MetaContent, Store.SaveFile, BinlogWrite, P.UploadData, P.UploadMeta, Effect, IsUpload, Outcome;
      ghost var d := Contents();
      var inBuff := Receive(packet, s);
      ghost var logData, logMeta := Outcome(env.logData, false), Outcome(env.logMeta, false);
      var filename;
      ghost var meta;
      status, filename, meta := SaveFile(inBuff, s, draws, env);
      ghost var saved := status;
      if status == 0 {
        status, logData := binlog.Write('C', filename, env.now, env.logData);
        if status == 0 && s.meta > 0 {
          status, logMeta := binlog.Write('C', MetaName(filename), env.now, env.logMeta);
        }
      }
      body := if status == 0 then filename else "";
      r := UploadRequest(Candidates(codec, s.file, draws), P.UploadData(packet, s), meta, Faults(env, logData, logMeta), env.send);
      UploadSteps(d, r, env, logData, logMeta, files, saved);
      MakesUpload(r, d.files, codec, packet, s, draws, env);
    }

    /** storage_upload_file.  As in the other handlers, status is what the response carries, and
        result what the handler returns.  The body sent back is the file name, on success only. */
    method UploadFile(packet: string, beyond: string, draws: seq<Draw>, env: UploadEnv)
      returns (result: int, status: int, body: string, ghost r: Request)
      requires Valid() && |packet| <= 0x7FFF_FFFF && |draws| == 1024
      requires P.UPLOAD_FIXED <= |packet| || P.ParseUpload(packet, beyond).Refused?
      modifies this`files, binlog
      ensures Valid()
      ensures Contents() == After(old(Contents()), r)
      ensures status == Responded(old(Contents()), r) && result == Returned(old(Contents()), r)
      ensures match P.ParseUpload(packet, beyond)
              case Refused(e) => r == RejectedRequest(e, env.send)
              case Accepted(s) => P.UploadTiles(packet, s) && IsUpload(r, old(files), codec, packet, s, draws, env)
      ensures result == if env.send.Some? then env.send.value else status
      ensures body == if Effect(old(Contents()), r).status == 0 && r.UploadRequest? then FirstFree(old(files), r.candidates).value else ""
    {
      hide P.ParseUpload, IsUpload, FirstFree, Upload, Delete, SyncCopy, SyncDelete;
      body := "";
      match P.ParseUpload(packet, beyond) {
        case Refused(e) =>
          status := e;
          r := RejectedRequest(e, env.send);
        case Accepted(s) =>
          P.UploadSections(packet, beyond);
          status, body, r := AcceptUpload(packet, s, draws, env);
      }
      result := Reply(status, env.send);
    }

    /** storage_delete_file. */
    method DeleteFile(packet: string, env: DeleteEnv) returns (result: int, status: int, ghost r: Request)
      requires Valid()
      modifies this`files, binlog
      ensures Valid()
      ensures Contents() == After(old(Contents()), r)
      ensures status == Responded(old(Contents()), r) && result == Returned(old(Contents()), r)
      ensures match P.ParseName(packet, groupName)
              case Refused(e) => r == RejectedRequest(e, env.send)
              case Accepted(name) => r.DeleteRequest? && r.name == name && r.send == env.send
                                     && r.delete.data == env.data && r.delete.meta == env.meta
                                     && LogOutcome(env.logData, r.delete.logData) && LogOutcome(env.logMeta, r.delete.logMeta)
      ensures result == if env.send.Some? then env.send.value else status
      ensures |packet| >= 16 && CStr(packet[..16]) != groupName ==> Contents() == old(Contents()) && status == 22
    {
      P.NameAccepted(packet, groupName);
      hide BinlogWrite, P.ParseName, Outcome, CStr;
      ghost var logData, logMeta := Outcome(env.logData, false), Outcome(env.logMeta, false);
      match P.ParseName(packet, groupName) {
        case Refused(e) =>
          status := e;
          r := RejectedRequest(e, env.send);
        case Accepted(filename) =>
          var gone := Unlink(files, filename, env.data);
          files, status := gone.value, gone.status;
          if status == 0 {
            status, logData := binlog.Write('D', filename, env.now, env.logData);
            if status == 0 {
              gone := Unlink(files, MetaName(filename), env.meta);
              files := gone.value;
              if gone.status != 0 && gone.status != ENOENT {
                status := gone.status;
              } else {
                status, logMeta := binlog.Write('D', MetaName(filename), env.now, env.logMeta);
              }
            }
          }
          r := DeleteRequest(filename, DeleteFaults(env.data, logData, env.meta, logMeta), env.send);
      }
      result := Reply(status, env.send);
    }

    /** storage_sync_copy_file, for the create and the update command. */
    method SyncCopyFile(packet: string, create: bool, env: SyncEnv) returns (result: int, status: int, ghost r: Request)
      requires Valid()
      modifies this`files, binlog
      ensures Valid()
      ensures Contents() == After(old(Contents()), r)
      ensures status == Responded(old(Contents()), r) && result == Returned(old(Contents()), r)
      ensures match P.ParseCopy(packet, groupName)
              case Refused(e) => r == RejectedRequest(e, env.send)
              case Accepted(c) => r.SyncCopyRequest? && r.create == create && r.name == CStr(c.name) && r.data == c.data
                                  && r.write == env.write && r.send == env.send && LogOutcome(env.log, r.append)
      ensures result == if env.send.Some? then env.send.value else if status == EEXIST then 0 else status
      ensures P.ParseCopy(packet, groupName).Accepted? && create && CStr(P.ParseCopy(packet, groupName).value.name) in old(files) ==>
                Contents() == old(Contents()) && status == 17
      ensures |packet| >= 34 && CStr(packet[18..34]) != groupName ==> Contents() == old(Contents()) && status in {22, 32}
    {
      P.CopyAccepted(packet, groupName);
      hide P.ParseCopy, CStr, Outcome, BinlogWrite, Stored;
      ghost var log := Outcome(env.log, false);
      match P.ParseCopy(packet, groupName) {
        case Refused(e) =>
          status := e;
          r := RejectedRequest(e, env.send);
        case Accepted(c) =>
          var filename := CStr(c.name);
          if create && filename in files {
            status := EEXIST;
          } else {
            var saved := WriteToFile(files, filename, c.data, env.write);
            files, status := saved.value, saved.status;
            if status == 0 {
              status, log := binlog.Write(if create then 'c' else 'u', filename, env.now, env.log);
            }
          }
          r := SyncCopyRequest(create, filename, c.data, env.write, log, env.send);
      }
      result := Reply(if status == EEXIST then 0 else status, env.send);
    }

    /** storage_sync_delete_file. */
    method SyncDeleteFile(packet: string, env: SyncEnv) returns (result: int, status: int, ghost r: Request)
      requires Valid()
      modifies this`files, binlog
      ensures Valid()
      ensures Contents() == After(old(Contents()), r)
      ensures status == Responded(old(Contents()), r) && result == Returned(old(Contents()), r)
      ensures match P.ParseName(packet, groupName)
              case Refused(e) => r == RejectedRequest(e, env.send)
              case Accepted(name) => r.SyncDeleteRequest? && r.name == name && r.unlink == env.unlink && r.send == env.send
                                     && LogOutcome(env.log, r.append)
      ensures result == if env.send.Some? then env.send.value else status
      ensures |packet| >= 16 && CStr(packet[..16]) != groupName ==> Contents() == old(Contents()) && status == 22
    {
      P.NameAccepted(packet, groupName);
      hide BinlogWrite, P.ParseName, Outcome, CStr;
      ghost var log := Outcome(env.log, false);
      match P.ParseName(packet, groupName) {
        case Refused(e) =>
          status := e;
          r := RejectedRequest(e, env.send);
        case Accepted(filename) =>
          var gone := Unlink(files, filename, env.unlink);
          files, status := gone.value, gone.status;
          if status == 0 || status == ENOENT {
            status, log := binlog.Write('d', filename, env.now, env.log);
          }
          r := SyncDeleteRequest(filename, env.unlink, log, env.send);
      }
      result := Reply(status, env.send);
    }
  }
}
