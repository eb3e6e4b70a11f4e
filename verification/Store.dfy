/** The file store and its binlog: what the upload, delete and sync handlers do to the files and
    to the log, for every way their disk calls can fail, and what that is good for. */
module Store {
  import opened CStrings

  datatype Option<T> = None | Some(value: T)

  const META_EXT := "-m"

  const ENOENT := 2
  const EIO := 5
  const EEXIST := 17
  const EINVAL := 22
  const EPIPE := 32

  /** A non-zero errno that fits the status byte of a response.  None of the calls made here
      creates exclusively, so none of them reports EEXIST. */
  type Errno = e: int | 1 <= e <= 127 && e != EEXIST witness 5

  /** unlink reports ENOENT only for a file that is not there. */
  type UnlinkErrno = e: Errno | e != ENOENT witness 13

  /** A binlog record: C, D from clients, c, u, d from replication. */
  datatype Record = Record(op: char, name: string)

  datatype Disk = Disk(files: map<string, string>, log: seq<Record>)

  // ------------------------------------------------------------ disk calls

  /** fopen "wb", fwrite and fclose: a short write leaves what was written.  The result of fclose is
      ignored, so what is still buffered can be lost there without anyone being told. */
  datatype WriteOutcome = Written | LostAtClose(kept: nat) | OpenFailed(errno: Errno) | ShortWrite(count: nat, errno: Errno)

  /** The write is reported as successful. */
  predicate Reported(w: WriteOutcome) { w.Written? || w.LostAtClose? }

  /** What the call has put into the file. */
  function Stored(content: string, w: WriteOutcome): string {
    match w
    case Written => content
    case OpenFailed(_) => ""
    case LostAtClose(k) => Cut(content, k)
    case ShortWrite(k, _) => Cut(content, k)
  }

  /** Whatever a write leaves is the beginning of the content, and all of it if nothing went wrong. */
  lemma StoredIsPrefix(content: string, w: WriteOutcome)
    ensures Stored(content, w) <= content
    ensures w.Written? ==> Stored(content, w) == content
    ensures w.OpenFailed? ==> Stored(content, w) == ""
    ensures w.LostAtClose? ==> |Stored(content, w)| == if w.kept < |content| then w.kept else |content|
    ensures w.ShortWrite? ==> |Stored(content, w)| == if w.count < |content| then w.count else |content|
  {
    CutIsPrefix(content, if w.LostAtClose? then w.kept else if w.ShortWrite? then w.count else 0);
  }

  datatype UnlinkOutcome = Unlinked | UnlinkFailed(errno: UnlinkErrno)

  /** storage_binlog_write can fail before the record is in the log or after. */
  datatype AppendOutcome = Appended | NotAppended(errno: Errno) | AppendedButFailed(errno: Errno)

  /** What a call leaves, and its status: 0 or an errno. */
  datatype Result<T> = Result(value: T, status: int)

  function WriteToFile(files: map<string, string>, name: string, content: string, w: WriteOutcome)
    : Result<map<string, string>>
  {
    match w
    case OpenFailed(e) => Result(files, e)
    case ShortWrite(_, e) => Result(files[name := Stored(content, w)], e)
    case _ => Result(files[name := Stored(content, w)], 0)
  }

  function Unlink(files: map<string, string>, name: string, u: UnlinkOutcome): Result<map<string, string>> {
    if name !in files then Result(files, ENOENT)
    else match u
      case Unlinked => Result(files - {name}, 0)
      case UnlinkFailed(e) => Result(files, e)
  }

  function BinlogWrite(log: seq<Record>, op: char, name: string, a: AppendOutcome): Result<seq<Record>> {
    match a
    case Appended => Result(log + [Record(op, name)], 0)
    case NotAppended(e) => Result(log, e)
    case AppendedButFailed(e) => Result(log + [Record(op, name)], e)
  }

  // ------------------------------------------------------------ handlers

  function MetaName(name: string): string { name + META_EXT }

  /** The first generated name that is free, if any of them is. */
  function FirstFree(files: map<string, string>, candidates: seq<string>): (name: Option<string>)
    ensures name.Some? ==> name.value in candidates && name.value !in files
    ensures name.None? ==> forall k | 0 <= k < |candidates| :: candidates[k] in files
  {
    if candidates == [] then None
    else if candidates[0] !in files then Some(candidates[0])
    else FirstFree(files, candidates[1..])
  }

  /** No candidate before the one chosen was free, and there is none when there is no free one. */
  lemma {:induction false} FirstFreeIsFirst(files: map<string, string>, candidates: seq<string>, k: nat)
    requires k < |candidates| && candidates[k] !in files && forall j | 0 <= j < k :: candidates[j] in files
    ensures FirstFree(files, candidates) == Some(candidates[k])
  {
    if k > 0 {
      assert candidates[0] in files;
      assert forall j | 0 <= j < k - 1 :: candidates[1..][j] == candidates[j + 1];
      FirstFreeIsFirst(files, candidates[1..], k - 1);
    }
  }

  /** How the disk calls of one upload go. */
  datatype UploadFaults = UploadFaults(data: WriteOutcome, sort: Option<Errno>, meta: WriteOutcome,
                                       undo: UnlinkOutcome, logData: AppendOutcome, logMeta: AppendOutcome)

  /** storage_save_file once a free name is found: the data file, then the metadata file, whose
      failure takes the data file away again if unlink succeeds. */
  function SaveFile(files: map<string, string>, name: string, data: string, meta: Option<string>, f: UploadFaults)
    : Result<map<string, string>>
  {
    var saved := WriteToFile(files, name, data, f.data);
    if saved.status != 0 || meta.None? then saved
    else if f.sort.Some? then Result(Unlink(saved.value, name, f.undo).value, f.sort.value)
    else
      var both := WriteToFile(saved.value, MetaName(name), meta.value, f.meta);
      if both.status != 0 then Result(Unlink(both.value, name, f.undo).value, both.status) else both
  }

  /** storage_upload_file after the packet is accepted. */
  function Upload(d: Disk, candidates: seq<string>, data: string, meta: Option<string>, f: UploadFaults): Result<Disk> {
    var name := FirstFree(d.files, candidates);
    if name.None? then Result(d, ENOENT)
    else
      var saved := SaveFile(d.files, name.value, data, meta, f);
      if saved.status != 0 then Result(Disk(saved.value, d.log), saved.status)
      else
        var logged := BinlogWrite(d.log, 'C', name.value, f.logData);
        if logged.status != 0 || meta.None? then Result(Disk(saved.value, logged.value), logged.status)
        else
          var logged2 := BinlogWrite(logged.value, 'C', MetaName(name.value), f.logMeta);
          Result(Disk(saved.value, logged2.value), logged2.status)
  }

  datatype DeleteFaults = DeleteFaults(data: UnlinkOutcome, logData: AppendOutcome,
                                       meta: UnlinkOutcome, logMeta: AppendOutcome)

  /** storage_delete_file after the packet is accepted: a missing metadata file is no error. */
  function Delete(d: Disk, name: string, f: DeleteFaults): Result<Disk> {
    var gone := Unlink(d.files, name, f.data);
    if gone.status != 0 then Result(Disk(gone.value, d.log), gone.status)
    else
      var logged := BinlogWrite(d.log, 'D', name, f.logData);
      if logged.status != 0 then Result(Disk(gone.value, logged.value), logged.status)
      else
        var both := Unlink(gone.value, MetaName(name), f.meta);
        if both.status != 0 && both.status != ENOENT then Result(Disk(both.value, logged.value), both.status)
        else
          var logged2 := BinlogWrite(logged.value, 'D', MetaName(name), f.logMeta);
          Result(Disk(both.value, logged2.value), logged2.status)
  }

  /** storage_sync_copy_file after the packet is accepted.  Creating a file that exists is refused
      with EEXIST, which the handler then reports upwards as success. */
  function SyncCopy(d: Disk, create: bool, name: string, data: string, w: WriteOutcome, a: AppendOutcome): Result<Disk> {
    if create && name in d.files then Result(d, 0)
    else
      var saved := WriteToFile(d.files, name, data, w);
      if saved.status != 0 then Result(Disk(saved.value, d.log), saved.status)
      else
        var logged := BinlogWrite(d.log, if create then 'c' else 'u', name, a);
        Result(Disk(saved.value, logged.value), logged.status)
  }

  /** storage_sync_delete_file after the packet is accepted: a missing file is no error. */
  function SyncDelete(d: Disk, name: string, u: UnlinkOutcome, a: AppendOutcome): Result<Disk> {
    var gone := Unlink(d.files, name, u);
    if gone.status != 0 && gone.status != ENOENT then Result(Disk(gone.value, d.log), gone.status)
    else
      var logged := BinlogWrite(d.log, 'd', name, a);
      Result(Disk(gone.value, logged.value), logged.status)
  }

  /** One request as a handler meets it.  send is the failure of sending the response, which makes
      the handler fail after everything else is done. */
  datatype Request =
    | UploadRequest(candidates: seq<string>, data: string, meta: Option<string>, upload: UploadFaults, send: Option<Errno>)
    | DeleteRequest(name: string, delete: DeleteFaults, send: Option<Errno>)
    | SyncCopyRequest(create: bool, name: string, data: string, write: WriteOutcome, append: AppendOutcome, send: Option<Errno>)
    | SyncDeleteRequest(name: string, unlink: UnlinkOutcome, append: AppendOutcome, send: Option<Errno>)
    | RejectedRequest(status: Errno, send: Option<Errno>)

  function Effect(d: Disk, r: Request): Result<Disk> {
    match r
    case UploadRequest(c, data, meta, f, _) => Upload(d, c, data, meta, f)
    case DeleteRequest(name, f, _) => Delete(d, name, f)
    case SyncCopyRequest(create, name, data, w, a, _) => SyncCopy(d, create, name, data, w, a)
    case SyncDeleteRequest(name, u, a, _) => SyncDelete(d, name, u, a)
    case RejectedRequest(status, _) => Result(d, status)
  }

  function After(d: Disk, r: Request): Disk { Effect(d, r).value }

  /** What the handler returns: the failure to send hides the status. */
  function Returned(d: Disk, r: Request): int {
    if r.send.Some? then r.send.value else Effect(d, r).status
  }

  /** What the response tells the peer: creating a file that exists is answered with EEXIST. */
  function Responded(d: Disk, r: Request): int {
    if r.SyncCopyRequest? && r.create && r.name in d.files then EEXIST else Effect(d, r).status
  }

  function Run(d: Disk, rs: seq<Request>): Disk {
    if rs == [] then d else After(Run(d, rs[..|rs| - 1]), rs[|rs| - 1])
  }

  // ------------------------------------------------------------ replay agreement

  /** The names the log says are there. */
  function Replay(log: seq<Record>): set<string> {
    if log == [] then {}
    else
      var before, last := Replay(log[..|log| - 1]), log[|log| - 1];
      if last.op == 'D' || last.op == 'd' then before - {last.name} else before + {last.name}
  }

  lemma ReplayAppend(log: seq<Record>, r: Record)
    ensures Replay(log + [r]) == if r.op == 'D' || r.op == 'd' then Replay(log) - {r.name} else Replay(log) + {r.name}
  {
    assert (log + [r])[..|log|] == log;
  }

  predicate Agree(d: Disk, name: string) { name in d.files <==> name in Replay(d.log) }

  /** The names a request sets out to change. */
  function Touched(d: Disk, r: Request): set<string> {
    match r
    case UploadRequest(c, _, meta, _, _) =>
      var name := FirstFree(d.files, c);
      if name.None? then {} else if meta.None? then {name.value} else {name.value, MetaName(name.value)}
    case DeleteRequest(name, _, _) => {name, MetaName(name)}
    case SyncCopyRequest(create, name, _, _, _, _) => if create && name in d.files then {} else {name}
    case SyncDeleteRequest(name, _, _, _) => {name}
    case RejectedRequest(_, _) => {}
  }

  lemma MetaNameDiffers(name: string)
    ensures MetaName(name) != name
  {
    assert |MetaName(name)| == |name| + 2;
  }

  /** Both files of an upload are in place. */
  predicate Saved(meta: Option<string>, f: UploadFaults) {
    Reported(f.data) && (meta.None? || (f.sort.None? && Reported(f.meta)))
  }

  /** What a successful upload has done: stored the data and the metadata, except for what was lost
      at a close, and logged both. */
  lemma UploadSuccess(d: Disk, c: seq<string>, data: string, meta: Option<string>, f: UploadFaults)
    requires Upload(d, c, data, meta, f).status == 0
    ensures var name, d' := FirstFree(d.files, c), Upload(d, c, data, meta, f).value;
            && name.Some? && Saved(meta, f)
            && (meta.None? ==>
                  d'.files == d.files[name.value := Stored(data, f.data)] && d'.log == d.log + [Record('C', name.value)])
            && (meta.Some? ==>
                  d'.files == d.files[name.value := Stored(data, f.data)][MetaName(name.value) := Stored(meta.value, f.meta)]
                  && d'.log == d.log + [Record('C', name.value)] + [Record('C', MetaName(name.value))])
  {
    hide Stored;
  }

  /** What a successful delete has done. */
  lemma DeleteSuccess(d: Disk, name: string, f: DeleteFaults)
    requires Delete(d, name, f).status == 0
    ensures var d' := Delete(d, name, f).value;
            && name in d.files && MetaName(name) == name + "-m"
            && d'.files == d.files - {name, MetaName(name)}
            && d'.log == d.log + [Record('D', name)] + [Record('D', MetaName(name))]
  {
  }

  /** A create or update from replication that succeeds has written the file and logged it under its
      own letter, not under that of a client's request. */
  lemma SyncCopySuccess(d: Disk, create: bool, name: string, data: string, w: WriteOutcome, a: AppendOutcome)
    requires SyncCopy(d, create, name, data, w, a).status == 0 && !(create && name in d.files)
    ensures var d' := SyncCopy(d, create, name, data, w, a).value;
            && d'.files == d.files[name := Stored(data, w)]
            && (create ==> d'.log == d.log + [Record('c', name)])
            && (!create ==> d'.log == d.log + [Record('u', name)])
  {
    hide Stored;
  }

  /** Creating a file that exists changes nothing. */
  lemma SyncCopyOfExisting(d: Disk, name: string, data: string, w: WriteOutcome, a: AppendOutcome)
    requires name in d.files
    ensures SyncCopy(d, true, name, data, w, a) == Result(d, 0)
  {
  }

  /** A delete from replication that succeeds leaves no such file and has logged it. */
  lemma SyncDeleteSuccess(d: Disk, name: string, u: UnlinkOutcome, a: AppendOutcome)
    requires SyncDelete(d, name, u, a).status == 0
    ensures SyncDelete(d, name, u, a).value == Disk(d.files - {name}, d.log + [Record('d', name)])
  {
    if name !in d.files {
      assert d.files - {name} == d.files;
    }
  }

  /** The letters under which a request can log. */
  predicate LogsAs(r: Request, op: char) {
    match r
    case UploadRequest(_, _, _, _, _) => op == 'C'
    case DeleteRequest(_, _, _) => op == 'D'
    case SyncCopyRequest(create, _, _, _, _, _) => op == if create then 'c' else 'u'
    case SyncDeleteRequest(_, _, _, _) => op == 'd'
    case RejectedRequest(_, _) => false
  }

  /** A log grown by records with letters of this request only. */
  predicate GrownBy(log: seq<Record>, log': seq<Record>, r: Request) {
    log <= log' && forall k | |log| <= k < |log'| :: LogsAs(r, log'[k].op)
  }

  /** Whatever fails, a request adds records to the end of the log, and only under its own letter. */
  lemma RecordsAdded(d: Disk, r: Request)
    ensures GrownBy(d.log, After(d, r).log, r)
  {
    hide WriteToFile, Unlink, FirstFree;
  }

  /** So in every run without client requests no record of the source's kind is added. */
  lemma {:induction false} ReplicationLogsNoSource(d: Disk, rs: seq<Request>)
    requires forall k | 0 <= k < |rs| :: !rs[k].UploadRequest? && !rs[k].DeleteRequest?
    ensures d.log <= Run(d, rs).log
    ensures forall k | |d.log| <= k < |Run(d, rs).log| :: Run(d, rs).log[k].op in {'c', 'u', 'd'}
  {
    if rs != [] {
      var n := |rs| - 1;
      ReplicationLogsNoSource(d, rs[..n]);
      RecordsAdded(Run(d, rs[..n]), rs[n]);
      assert Run(d, rs) == After(Run(d, rs[..n]), rs[n]);
      assert !rs[n].UploadRequest? && !rs[n].DeleteRequest?;
      hide Run, After;
    }
  }

  // ------------------------------------------------------------ statuses

  function AppendStatus(a: AppendOutcome): int { if a == Appended then 0 else a.errno }

  /** A delete answers ENOENT, and does nothing, when the name is not there; otherwise with the errno of
      the first call that fails, a missing metadata file being no failure. */
  lemma DeleteStatus(d: Disk, name: string, f: DeleteFaults)
    ensures name !in d.files ==> Delete(d, name, f) == Result(d, 2)
    ensures name in d.files ==>
              Delete(d, name, f).status ==
                if f.data.UnlinkFailed? then f.data.errno
                else if f.logData != Appended then f.logData.errno
                else if name + "-m" in d.files && f.meta.UnlinkFailed? then f.meta.errno
                else AppendStatus(f.logMeta)
  {
    assert MetaName(name) == name + "-m";
    MetaNameDiffers(name);
  }

  /** An upload answers ENOENT, and does nothing, when no candidate is free; otherwise with the errno of
      the first call that fails. */
  lemma UploadStatus(d: Disk, c: seq<string>, data: string, meta: Option<string>, f: UploadFaults)
    ensures FirstFree(d.files, c).None? ==> Upload(d, c, data, meta, f) == Result(d, 2)
    ensures FirstFree(d.files, c).Some? ==>
              Upload(d, c, data, meta, f).status ==
                if f.data.OpenFailed? || f.data.ShortWrite? then f.data.errno
                else if meta.Some? && f.sort.Some? then f.sort.value
                else if meta.Some? && (f.meta.OpenFailed? || f.meta.ShortWrite?) then f.meta.errno
                else if f.logData != Appended then f.logData.errno
                else if meta.Some? then AppendStatus(f.logMeta)
                else 0
  {
    hide FirstFree, Unlink, Stored;
  }

  /** The handlers of replication answer with the errno of the first call that fails. */
  lemma SyncStatus(d: Disk, create: bool, name: string, data: string, w: WriteOutcome, u: UnlinkOutcome, a: AppendOutcome)
    ensures !(create && name in d.files) ==>
              SyncCopy(d, create, name, data, w, a).status == if w.OpenFailed? || w.ShortWrite? then w.errno else AppendStatus(a)
    ensures SyncDelete(d, name, u, a).status == if name in d.files && u.UnlinkFailed? then u.errno else AppendStatus(a)
  {
    hide Stored;
  }

  /** d' has, for every name outside the set, what d has. */
  ghost predicate SameOutside(d: Disk, d': Disk, names: set<string>) {
    && (forall n | n !in names :: n in d'.files <==> n in d.files)
    && (forall n | n in d.files && n in d'.files && n !in names :: d'.files[n] == d.files[n])
    && (forall n | n !in names :: n in Replay(d'.log) <==> n in Replay(d.log))
  }

  lemma LogOutside(log: seq<Record>, op: char, name: string, a: AppendOutcome, n: string)
    requires n != name
    ensures n in Replay(BinlogWrite(log, op, name, a).value) <==> n in Replay(log)
  {
    ReplayAppend(log, Record(op, name));
  }

  lemma UploadElsewhere(d: Disk, c: seq<string>, data: string, meta: Option<string>, f: UploadFaults)
    ensures var name := FirstFree(d.files, c);
            SameOutside(d, Upload(d, c, data, meta, f).value,
                        if name.None? then {} else if meta.None? then {name.value} else {name.value, MetaName(name.value)})
  {
    var name := FirstFree(d.files, c);
    if name.Some? {
      var logged := BinlogWrite(d.log, 'C', name.value, f.logData).value;
      forall n | n != name.value
        ensures n in Replay(logged) <==> n in Replay(d.log)
        ensures n != MetaName(name.value) ==>
                  (n in Replay(BinlogWrite(logged, 'C', MetaName(name.value), f.logMeta).value) <==> n in Replay(d.log))
      {
        LogOutside(d.log, 'C', name.value, f.logData, n);
        if n != MetaName(name.value) {
          LogOutside(logged, 'C', MetaName(name.value), f.logMeta, n);
        }
      }
      hide Replay, BinlogWrite;
    }
  }

  lemma DeleteElsewhere(d: Disk, name: string, f: DeleteFaults)
    ensures SameOutside(d, Delete(d, name, f).value, {name, MetaName(name)})
  {
    var logged := BinlogWrite(d.log, 'D', name, f.logData).value;
    forall n | n !in {name, MetaName(name)}
      ensures n in Replay(logged) <==> n in Replay(d.log)
      ensures n in Replay(BinlogWrite(logged, 'D', MetaName(name), f.logMeta).value) <==> n in Replay(d.log)
    {
      LogOutside(d.log, 'D', name, f.logData, n);
      LogOutside(logged, 'D', MetaName(name), f.logMeta, n);
    }
    hide Replay, BinlogWrite;
  }

  /** A request leaves alone every name it does not touch. */
  lemma Elsewhere(d: Disk, r: Request)
    ensures SameOutside(d, After(d, r), Touched(d, r))
  {
    match r
    case UploadRequest(c, data, meta, f, _) => UploadElsewhere(d, c, data, meta, f);
    case DeleteRequest(name, f, _) => DeleteElsewhere(d, name, f);
    case SyncCopyRequest(create, name, _, _, a, _) =>
      forall n | n != name { LogOutside(d.log, if create then 'c' else 'u', name, a, n); }
    case SyncDeleteRequest(name, _, a, _) =>
      forall n | n != name { LogOutside(d.log, 'd', name, a, n); }
    case RejectedRequest(_, _) =>
  }

  /** When a request succeeds the names it touches agree, whatever failed before. */
  lemma SuccessAgrees(d: Disk, r: Request, n: string)
    requires Effect(d, r).status == 0 && n in Touched(d, r)
    ensures Agree(After(d, r), n)
  {
    match r
    case UploadRequest(c, data, meta, f, _) =>
      UploadSuccess(d, c, data, meta, f);
      var name := FirstFree(d.files, c).value;
      MetaNameDiffers(name);
      ReplayAppend(d.log, Record('C', name));
      ReplayAppend(d.log + [Record('C', name)], Record('C', MetaName(name)));
    case DeleteRequest(name, f, _) =>
      DeleteSuccess(d, name, f);
      ReplayAppend(d.log, Record('D', name));
      ReplayAppend(d.log + [Record('D', name)], Record('D', MetaName(name)));
    case SyncCopyRequest(create, name, _, _, _, _) =>
      ReplayAppend(d.log, Record(if create then 'c' else 'u', name));
    case SyncDeleteRequest(name, _, _, _) =>
      ReplayAppend(d.log, Record('d', name));
    case RejectedRequest(_, _) =>
  }

  /** Request i of a run failed while touching n, and no later request touched n successfully. */
  ghost predicate Blamed(d: Disk, rs: seq<Request>, i: nat, n: string)
    requires i < |rs|
  {
    && n in Touched(Run(d, rs[..i]), rs[i])
    && Returned(Run(d, rs[..i]), rs[i]) != 0
    && forall j | i < j < |rs| :: n in Touched(Run(d, rs[..j]), rs[j]) ==> Returned(Run(d, rs[..j]), rs[j]) != 0
  }

  /** In every run with arbitrary failures, a name on which the files and the replay of the log
      disagree was touched by a request that returned non-zero, and by none that succeeded since. */
  lemma {:induction false} ReplayAgreement(d: Disk, rs: seq<Request>, n: string)
    requires Agree(d, n)
    requires !Agree(Run(d, rs), n)
    ensures exists i | 0 <= i < |rs| :: Blamed(d, rs, i, n)
  {
    assert rs != [];
    var k := |rs| - 1;
    var before, r := Run(d, rs[..k]), rs[k];
    assert Run(d, rs) == After(before, r);
    hide Run, Effect, Touched, Replay;
    Elsewhere(before, r);
    if n in Touched(before, r) {
      if Effect(before, r).status == 0 {
        SuccessAgrees(before, r, n);
      }
      assert Blamed(d, rs, k, n);
    } else {
      ReplayAgreement(d, rs[..k], n);
      var i :| 0 <= i < k && Blamed(d, rs[..k], i, n);
      BlameStays(d, rs, i, n);
    }
  }

  lemma BlameStays(d: Disk, rs: seq<Request>, i: nat, n: string)
    requires i < |rs| - 1 && Blamed(d, rs[..|rs| - 1], i, n)
    requires n !in Touched(Run(d, rs[..|rs| - 1]), rs[|rs| - 1])
    ensures Blamed(d, rs, i, n)
  {
    hide Run, Returned, Touched;
    var k := |rs| - 1;
    assert forall j | 0 <= j <= k :: rs[..k][..j] == rs[..j];
    assert forall j | 0 <= j < k :: rs[..k][j] == rs[j];
  }

  // ------------------------------------------------------------ which failures break agreement

  /** An upload leaves its data file without a record: written short, or written and neither undone
      nor logged. */
  predicate UploadBreaksData(meta: Option<string>, f: UploadFaults) {
    || f.data.ShortWrite?
    || (Reported(f.data) && if meta.Some? && (f.sort.Some? || !Reported(f.meta)) then f.undo.UnlinkFailed? else f.logData.NotAppended?)
  }

  /** An upload leaves a new metadata file without a record. */
  predicate UploadBreaksMeta(meta: Option<string>, f: UploadFaults) {
    && meta.Some? && Reported(f.data) && f.sort.None?
    && (f.meta.ShortWrite? || (Reported(f.meta) && (f.logData != Appended || f.logMeta.NotAppended?)))
  }

  /** A request leaves n as a file without a record, or as a record without a file. */
  predicate Breaks(d: Disk, r: Request, n: string) {
    match r
    case UploadRequest(c, _, meta, f, _) =>
      var name := FirstFree(d.files, c);
      && name.Some?
      && ((n == name.value && UploadBreaksData(meta, f))
          || (n == MetaName(name.value) && n !in d.files && UploadBreaksMeta(meta, f)))
    case DeleteRequest(name, f, _) =>
      && name in d.files && f.data.Unlinked?
      && ((n == name && f.logData.NotAppended?)
          || (n == MetaName(name) && n in d.files && f.logData == Appended && f.meta.Unlinked? && f.logMeta.NotAppended?))
    case SyncCopyRequest(_, name, _, w, a, _) =>
      n == name && name !in d.files && (w.ShortWrite? || (Reported(w) && a.NotAppended?))
    case SyncDeleteRequest(name, u, a, _) =>
      n == name && name in d.files && u.Unlinked? && a.NotAppended?
    case RejectedRequest(_, _) => false
  }

  lemma BinlogWriteReplay(log: seq<Record>, op: char, name: string, a: AppendOutcome, n: string)
    ensures n in Replay(BinlogWrite(log, op, name, a).value) <==>
              if n == name && !a.NotAppended? then !(op == 'D' || op == 'd') else n in Replay(log)
  {
    ReplayAppend(log, Record(op, name));
  }

  lemma SyncDeleteBreaks(d: Disk, name: string, u: UnlinkOutcome, a: AppendOutcome)
    requires Agree(d, name)
    ensures Agree(SyncDelete(d, name, u, a).value, name) <==> !(name in d.files && u.Unlinked? && a.NotAppended?)
  {
    BinlogWriteReplay(d.log, 'd', name, a, name);
    hide Replay, BinlogWrite;
  }

  lemma SyncCopyBreaks(d: Disk, create: bool, name: string, data: string, w: WriteOutcome, a: AppendOutcome)
    requires Agree(d, name)
    ensures Agree(SyncCopy(d, create, name, data, w, a).value, name)
       <==> !(name !in d.files && (w.ShortWrite? || (Reported(w) && a.NotAppended?)))
  {
    BinlogWriteReplay(d.log, if create then 'c' else 'u', name, a, name);
    hide Replay, BinlogWrite;
  }

  lemma DeleteBreaks(d: Disk, name: string, f: DeleteFaults)
    ensures var d' := Delete(d, name, f).value;
            && (Agree(d, name) ==>
                  (Agree(d', name) <==> !(name in d.files && f.data.Unlinked? && f.logData.NotAppended?)))
            && (Agree(d, MetaName(name)) ==>
                  (Agree(d', MetaName(name)) <==>
                     !(name in d.files && f.data.Unlinked? && f.logData == Appended
                       && MetaName(name) in d.files && f.meta.Unlinked? && f.logMeta.NotAppended?)))
  {
    var m := MetaName(name);
    var log := BinlogWrite(d.log, 'D', name, f.logData).value;
    MetaNameDiffers(name);
    BinlogWriteReplay(d.log, 'D', name, f.logData, name);
    BinlogWriteReplay(d.log, 'D', name, f.logData, m);
    BinlogWriteReplay(log, 'D', m, f.logMeta, name);
    BinlogWriteReplay(log, 'D', m, f.logMeta, m);
    hide Replay, MetaName;
  }

  /** Which of its two names an upload has as files, and which it logs. */
  lemma UploadNames(d: Disk, c: seq<string>, data: string, meta: Option<string>, f: UploadFaults)
    requires FirstFree(d.files, c).Some?
    ensures var name, files := FirstFree(d.files, c).value, Upload(d, c, data, meta, f).value.files;
            var unsaved := meta.Some? && (f.sort.Some? || !Reported(f.meta));
            && (name in files <==> f.data.ShortWrite? || (Reported(f.data) && !(unsaved && f.undo.Unlinked?)))
            && (MetaName(name) in files <==>
                  MetaName(name) in d.files || (meta.Some? && Reported(f.data) && f.sort.None? && !f.meta.OpenFailed?))
  {
    MetaNameDiffers(FirstFree(d.files, c).value);
    hide MetaName, FirstFree, BinlogWrite;
  }

  lemma UploadLog(d: Disk, c: seq<string>, data: string, meta: Option<string>, f: UploadFaults)
    requires FirstFree(d.files, c).Some?
    ensures var name := FirstFree(d.files, c).value;
            var logged := BinlogWrite(d.log, 'C', name, f.logData).value;
            Upload(d, c, data, meta, f).value.log ==
              if !Saved(meta, f) then d.log
              else if f.logData == Appended && meta.Some? then BinlogWrite(logged, 'C', MetaName(name), f.logMeta).value
              else logged
  {
    hide MetaName, FirstFree, Unlink;
  }

  lemma UploadLogs(d: Disk, c: seq<string>, data: string, meta: Option<string>, f: UploadFaults)
    requires FirstFree(d.files, c).Some?
    ensures var name, log := FirstFree(d.files, c).value, Upload(d, c, data, meta, f).value.log;
            && (name in Replay(log) <==> name in Replay(d.log) || (Saved(meta, f) && !f.logData.NotAppended?))
            && (MetaName(name) in Replay(log) <==>
                  MetaName(name) in Replay(d.log)
                  || (Saved(meta, f) && meta.Some? && f.logData == Appended && !f.logMeta.NotAppended?))
  {
    var name := FirstFree(d.files, c).value;
    var m := MetaName(name);
    var logged := BinlogWrite(d.log, 'C', name, f.logData).value;
    UploadLog(d, c, data, meta, f);
    MetaNameDiffers(name);
    BinlogWriteReplay(d.log, 'C', name, f.logData, name);
    BinlogWriteReplay(d.log, 'C', name, f.logData, m);
    BinlogWriteReplay(logged, 'C', m, f.logMeta, name);
    BinlogWriteReplay(logged, 'C', m, f.logMeta, m);
    hide Replay, MetaName, FirstFree, BinlogWrite, Upload, Saved;
  }

  lemma UploadBreaks(d: Disk, c: seq<string>, data: string, meta: Option<string>, f: UploadFaults)
    requires FirstFree(d.files, c).Some?
    ensures var name, d' := FirstFree(d.files, c).value, Upload(d, c, data, meta, f).value;
            && (Agree(d, name) ==> (Agree(d', name) <==> !UploadBreaksData(meta, f)))
            && (Agree(d, MetaName(name)) ==>
                  (Agree(d', MetaName(name)) <==> !(MetaName(name) !in d.files && UploadBreaksMeta(meta, f))))
  {
    UploadNames(d, c, data, meta, f);
    UploadLogs(d, c, data, meta, f);
    hide Replay, MetaName, Upload;
  }

  /** The exact condition: a request, failed or not, takes a name out of agreement if and only if
      Breaks says so of the outcomes of its calls. */
  lemma AgreementExactly(d: Disk, r: Request, n: string)
    requires Agree(d, n)
    ensures Agree(After(d, r), n) <==> !Breaks(d, r, n)
  {
    if n !in Touched(d, r) {
      Elsewhere(d, r);
    } else {
      match r
      case UploadRequest(c, data, meta, f, _) =>
        MetaNameDiffers(FirstFree(d.files, c).value);
        UploadBreaks(d, c, data, meta, f);
      case DeleteRequest(name, f, _) =>
        MetaNameDiffers(name);
        DeleteBreaks(d, name, f);
      case SyncCopyRequest(create, name, data, w, a, _) => SyncCopyBreaks(d, create, name, data, w, a);
      case SyncDeleteRequest(name, u, a, _) => SyncDeleteBreaks(d, name, u, a);
      case RejectedRequest(_, _) =>
    }
  }

  /** And for runs: files and log agree on a name all the way if and only if no request breaks it. */
  lemma RunAgreesExactly(d: Disk, rs: seq<Request>, n: string)
    requires Agree(d, n)
    ensures (forall i | 0 <= i <= |rs| :: Agree(Run(d, rs[..i]), n))
       <==> (forall i | 0 <= i < |rs| :: !Breaks(Run(d, rs[..i]), rs[i], n))
  {
    hide Run, Breaks, Agree;
    if forall i | 0 <= i <= |rs| :: Agree(Run(d, rs[..i]), n) {
      forall i | 0 <= i < |rs| ensures !Breaks(Run(d, rs[..i]), rs[i], n) {
        RunSnoc(d, rs, i);
        AgreementExactly(Run(d, rs[..i]), rs[i], n);
      }
    }
    if forall i | 0 <= i < |rs| :: !Breaks(Run(d, rs[..i]), rs[i], n) {
      forall i | 0 <= i <= |rs| ensures Agree(Run(d, rs[..i]), n) {
        AgreesUpTo(d, rs, n, i);
      }
    }
  }

  lemma RunSnoc(d: Disk, rs: seq<Request>, i: nat)
    requires i < |rs|
    ensures Run(d, rs[..i + 1]) == After(Run(d, rs[..i]), rs[i])
  {
    assert rs[..i + 1][..i] == rs[..i];
  }

  lemma {:induction false} AgreesUpTo(d: Disk, rs: seq<Request>, n: string, i: nat)
    requires i <= |rs| && Agree(d, n)
    requires forall j | 0 <= j < i :: !Breaks(Run(d, rs[..j]), rs[j], n)
    ensures Agree(Run(d, rs[..i]), n)
  {
    assert rs[..0] == [] && Run(d, []) == d;
    hide Run, Breaks, Agree;
    if i > 0 {
      AgreesUpTo(d, rs, n, i - 1);
      RunSnoc(d, rs, i - 1);
      AgreementExactly(Run(d, rs[..i - 1]), rs[i - 1], n);
    }
  }

  /** Such failures exist: a failing delete can leave a record without its file, and a
      failing upload a file without its record. */
  lemma FailuresDisagree(name: string, content: string, e: Errno)
    ensures var d := Disk(map[name := content], [Record('C', name)]);
            var r := DeleteRequest(name, DeleteFaults(Unlinked, NotAppended(e), Unlinked, Appended), None);
            Agree(d, name) && Returned(d, r) == e && name !in After(d, r).files && name in Replay(After(d, r).log)
    ensures var d := Disk(map[], []);
            var r := UploadRequest([name], content, None,
                                   UploadFaults(ShortWrite(0, e), None, Written, Unlinked, Appended, Appended), None);
            Agree(d, name) && Returned(d, r) == e && name in After(d, r).files && name !in Replay(After(d, r).log)
  {
    ReplayAppend([], Record('C', name));
    assert [] + [Record('C', name)] == [Record('C', name)];
    assert FirstFree(map[], [name]) == Some(name);
  }
}
