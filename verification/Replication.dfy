/** Replication: applying a source's records at a replica, through the sync handlers, gives the
    replica the source's files, also when records are delivered more than once. */
module Replication {
  import opened CStrings
  import opened Store
  import FileNames

  const NAME_LENGTH := FileNames.NAME_LENGTH

  /** A record of the source's log with what it takes to apply it: the content written. */
  datatype SyncOp = Create(name: string, content: string) | Update(name: string, content: string) | Remove(name: string)

  /** What the sync handlers do to the replica's files when nothing fails. */
  function Apply(files: map<string, string>, op: SyncOp): map<string, string> {
    match op
    case Create(n, c) => if n in files then files else files[n := c]
    case Update(n, c) => files[n := c]
    case Remove(n) => files - {n}
  }

  function ApplyAll(files: map<string, string>, ops: seq<SyncOp>): map<string, string>
    decreases |ops|
  {
    if ops == [] then files else ApplyAll(Apply(files, ops[0]), ops[1..])
  }

  /** The sync request that carries an operation to the replica. */
  function SyncRequest(op: SyncOp): Request {
    match op
    case Create(n, c) => SyncCopyRequest(true, n, c, Written, Appended, None)
    case Update(n, c) => SyncCopyRequest(false, n, c, Written, Appended, None)
    case Remove(n) => SyncDeleteRequest(n, Unlinked, Appended, None)
  }

  /** Apply is what the replica's handlers do, and they accept every operation: removing a file that
      is not there is no error, and creating one that is there is none either, but the sender is
      answered EEXIST then. */
  lemma HandlerApplies(d: Disk, op: SyncOp)
    ensures After(d, SyncRequest(op)).files == Apply(d.files, op)
    ensures Returned(d, SyncRequest(op)) == 0
    ensures Responded(d, SyncRequest(op)) == if op.Create? && op.name in d.files then EEXIST else 0
  {
    match op
    case Create(_, _) =>
    case Update(_, _) =>
    case Remove(n) => if n !in d.files { assert d.files - {n} == d.files; }
  }

  lemma {:induction false} ApplyAllConcat(files: map<string, string>, a: seq<SyncOp>, b: seq<SyncOp>)
    ensures ApplyAll(files, a + b) == ApplyAll(ApplyAll(files, a), b)
    decreases |a|
  {
    if a == [] {
      assert a + b == b;
    } else {
      ApplyAllConcat(Apply(files, a[0]), a[1..], b);
      assert (a + b)[1..] == a[1..] + b;
    }
  }

  // ------------------------------------------------------------ one name at a time

  function View(files: map<string, string>, n: string): Option<string> {
    if n in files then Some(files[n]) else None
  }

  function ApplyTo(v: Option<string>, op: SyncOp, n: string): Option<string> {
    if op.name != n then v
    else match op
      case Create(_, c) => if v.Some? then v else Some(c)
      case Update(_, c) => Some(c)
      case Remove(_) => None
  }

  function ApplyAllTo(v: Option<string>, ops: seq<SyncOp>, n: string): Option<string>
    decreases |ops|
  {
    if ops == [] then v else ApplyAllTo(ApplyTo(v, ops[0], n), ops[1..], n)
  }

  lemma {:induction false} ViewApplyAll(files: map<string, string>, ops: seq<SyncOp>, n: string)
    ensures View(ApplyAll(files, ops), n) == ApplyAllTo(View(files, n), ops, n)
    decreases |ops|
  {
    if ops != [] {
      assert View(Apply(files, ops[0]), n) == ApplyTo(View(files, n), ops[0], n);
      ViewApplyAll(Apply(files, ops[0]), ops[1..], n);
    }
  }

  lemma SameViews(a: map<string, string>, b: map<string, string>)
    requires forall n :: View(a, n) == View(b, n)
    ensures a == b
  {
    assert forall n :: n in a <==> View(a, n).Some?;
    assert forall n | n in a :: a[n] == View(a, n).value && b[n] == View(b, n).value;
  }

  lemma {:induction false} ApplyAllToConcat(v: Option<string>, a: seq<SyncOp>, b: seq<SyncOp>, n: string)
    ensures ApplyAllTo(v, a + b, n) == ApplyAllTo(ApplyAllTo(v, a, n), b, n)
    decreases |a|
  {
    if a == [] {
      assert a + b == b;
    } else {
      ApplyAllToConcat(ApplyTo(v, a[0], n), a[1..], b, n);
      assert (a + b)[1..] == a[1..] + b;
    }
  }

  /** The operations settle n: one of them updates or removes it. */
  predicate Settles(ops: seq<SyncOp>, n: string) {
    exists k | 0 <= k < |ops| :: ops[k].name == n && !ops[k].Create?
  }

  lemma SuffixSettles(a: seq<SyncOp>, b: seq<SyncOp>, n: string)
    requires Settles(b, n)
    ensures Settles(a + b, n)
  {
    var k :| 0 <= k < |b| && b[k].name == n && !b[k].Create?;
    assert (a + b)[|a| + k] == b[k];
  }

  /** Operations that settle n leave the same of it whatever was there. */
  lemma {:induction false} SettledIsConstant(v: Option<string>, w: Option<string>, ops: seq<SyncOp>, n: string)
    requires Settles(ops, n)
    ensures ApplyAllTo(v, ops, n) == ApplyAllTo(w, ops, n)
    decreases |ops|
  {
    var k :| 0 <= k < |ops| && ops[k].name == n && !ops[k].Create?;
    if k > 0 {
      assert ops[1..][k - 1] == ops[k];
      SettledIsConstant(ApplyTo(v, ops[0], n), ApplyTo(w, ops[0], n), ops[1..], n);
    }
  }

  /** Operations that only create n keep what is there of it. */
  lemma {:induction false} CreatesKeep(v: Option<string>, ops: seq<SyncOp>, n: string)
    requires !Settles(ops, n) && v.Some?
    ensures ApplyAllTo(v, ops, n) == v
    decreases |ops|
  {
    if ops != [] {
      assert ops[0].name == n ==> ops[0].Create?;
      assert forall k | 0 <= k < |ops[1..]| :: ops[1..][k] == ops[k + 1];
      CreatesKeep(v, ops[1..], n);
    }
  }

  /** Nothing there afterwards means nothing was there before, and no operation on n. */
  lemma {:induction false} CreatesAbsent(v: Option<string>, ops: seq<SyncOp>, n: string)
    requires !Settles(ops, n) && ApplyAllTo(v, ops, n).None?
    ensures v.None?
  {
    if v.Some? {
      CreatesKeep(v, ops, n);
    }
  }

  /** Applying the same operations twice is applying them once. */
  lemma Idempotent(v: Option<string>, ops: seq<SyncOp>, n: string)
    ensures ApplyAllTo(ApplyAllTo(v, ops, n), ops, n) == ApplyAllTo(v, ops, n)
  {
    var w := ApplyAllTo(v, ops, n);
    if Settles(ops, n) {
      SettledIsConstant(w, v, ops, n);
    } else if w.Some? {
      CreatesKeep(w, ops, n);
    } else {
      CreatesAbsent(v, ops, n);
    }
  }

  /** At-least-once delivery is harmless: a store that has applied a whole sequence is unchanged by
      applying any suffix of it again. */
  lemma SuffixAgain(files: map<string, string>, ops: seq<SyncOp>, k: nat)
    requires k <= |ops|
    ensures ApplyAll(ApplyAll(files, ops), ops[k..]) == ApplyAll(files, ops)
  {
    var all := ApplyAll(files, ops);
    forall n ensures View(ApplyAll(all, ops[k..]), n) == View(all, n) {
      assert ops == ops[..k] + ops[k..];
      ViewApplyAll(files, ops, n);
      ViewApplyAll(all, ops[k..], n);
      ApplyAllToConcat(View(files, n), ops[..k], ops[k..], n);
      Idempotent(ApplyAllTo(View(files, n), ops[..k], n), ops[k..], n);
    }
    SameViews(ApplyAll(all, ops[k..]), all);
  }

  // ------------------------------------------------------------ delivery with rewinds

  /** A reader of the log: everything before high has been delivered at some time, next is where
      it stands now, and files is the replica. */
  datatype Delivery = Delivery(high: nat, next: nat, files: map<string, string>)

  /** The reader delivers the record it stands at, or goes back, as after a restart. */
  datatype Move = Deliver | Rewind(to: nat)

  predicate Allowed(ops: seq<SyncOp>, s: Delivery, m: Move) {
    match m
    case Deliver => s.next < |ops|
    case Rewind(k) => k <= s.next
  }

  function Moved(ops: seq<SyncOp>, s: Delivery, m: Move): Delivery
    requires Allowed(ops, s, m)
  {
    match m
    case Deliver => Delivery(if s.next == s.high then s.high + 1 else s.high, s.next + 1, Apply(s.files, ops[s.next]))
    case Rewind(k) => s.(next := k)
  }

  /** Going on from position j would bring n where delivering everything once has it. */
  ghost predicate Resumes(ops: seq<SyncOp>, start: map<string, string>, s: Delivery, j: nat, n: string)
    requires j <= s.high <= |ops|
  {
    ApplyAllTo(View(s.files, n), ops[j..s.high], n) == ApplyAllTo(View(start, n), ops[..s.high], n)
  }

  /** Every position up to the present one would do to go on from. */
  ghost predicate Recoverable(ops: seq<SyncOp>, start: map<string, string>, s: Delivery) {
    && s.next <= s.high <= |ops|
    && forall j: nat, n: string {:trigger Resumes(ops, start, s, j, n)} | j <= s.next :: Resumes(ops, start, s, j, n)
  }

  lemma RedeliverKeeps(ops: seq<SyncOp>, start: map<string, string>, s: Delivery, j: nat, n: string)
    requires Recoverable(ops, start, s) && s.next < s.high && j <= s.next + 1
    ensures ApplyAllTo(ApplyTo(View(s.files, n), ops[s.next], n), ops[j..s.high], n)
         == ApplyAllTo(View(start, n), ops[..s.high], n)
  {
    var z, op := View(s.files, n), ops[s.next];
    var z' := ApplyTo(z, op, n);
    assert Resumes(ops, start, s, s.next, n) && (j <= s.next ==> Resumes(ops, start, s, j, n));
    assert ops[s.next..s.high][0] == op && ops[s.next..s.high][1..] == ops[s.next + 1..s.high];
    assert ApplyAllTo(z', ops[s.next + 1..s.high], n) == ApplyAllTo(z, ops[s.next..s.high], n);
    if j <= s.next {
      var ahead := ops[j..s.high];
      if Settles(ahead, n) {
        SettledIsConstant(z', z, ahead, n);
      } else if z'.Some? {
        CreatesKeep(z', ahead, n);
        assert ahead == ops[j..s.next + 1] + ops[s.next + 1..s.high];
        if Settles(ops[s.next + 1..s.high], n) {
          SuffixSettles(ops[j..s.next + 1], ops[s.next + 1..s.high], n);
        }
        CreatesKeep(z', ops[s.next + 1..s.high], n);
      } else {
        assert ahead[s.next - j] == op;
        assert z' == z;
      }
    }
  }

  lemma FirstDeliveryKeeps(ops: seq<SyncOp>, start: map<string, string>, s: Delivery, j: nat, n: string)
    requires Recoverable(ops, start, s) && s.next == s.high < |ops| && j <= s.high + 1
    ensures ApplyAllTo(ApplyTo(View(s.files, n), ops[s.high], n), ops[j..s.high + 1], n)
         == ApplyAllTo(View(start, n), ops[..s.high + 1], n)
  {
    var z, op := View(s.files, n), ops[s.high];
    assert Resumes(ops, start, s, s.high, n);
    assert ops[s.high..s.high] == [];
    assert ops[..s.high + 1] == ops[..s.high] + [op] == ops[..j] + ops[j..s.high + 1];
    ApplyAllToConcat(View(start, n), ops[..s.high], [op], n);
    assert ApplyAllTo(z, [op], n) == ApplyAllTo(ApplyTo(z, op, n), [op][1..], n);
    ApplyAllToConcat(View(start, n), ops[..j], ops[j..s.high + 1], n);
    Idempotent(ApplyAllTo(View(start, n), ops[..j], n), ops[j..s.high + 1], n);
  }

  lemma MoveKeeps(ops: seq<SyncOp>, start: map<string, string>, s: Delivery, m: Move)
    requires Recoverable(ops, start, s) && Allowed(ops, s, m)
    ensures Recoverable(ops, start, Moved(ops, s, m))
  {
    var s' := Moved(ops, s, m);
    forall j: nat, n: string | j <= s'.next ensures Resumes(ops, start, s', j, n) {
      if m.Rewind? {
        assert Resumes(ops, start, s, j, n);
      } else {
        assert View(s'.files, n) == ApplyTo(View(s.files, n), ops[s.next], n);
        if s.next < s.high {
          RedeliverKeeps(ops, start, s, j, n);
        } else {
          FirstDeliveryKeeps(ops, start, s, j, n);
        }
      }
    }
  }

  ghost predicate Schedule(ops: seq<SyncOp>, s: Delivery, moves: seq<Move>)
    decreases |moves|
  {
    moves == [] || (Allowed(ops, s, moves[0]) && Schedule(ops, Moved(ops, s, moves[0]), moves[1..]))
  }

  function Delivered(ops: seq<SyncOp>, s: Delivery, moves: seq<Move>): Delivery
    requires Schedule(ops, s, moves)
    decreases |moves|
  {
    if moves == [] then s else Delivered(ops, Moved(ops, s, moves[0]), moves[1..])
  }

  lemma {:induction false} ScheduleKeeps(ops: seq<SyncOp>, start: map<string, string>, s: Delivery, moves: seq<Move>)
    requires Recoverable(ops, start, s) && Schedule(ops, s, moves)
    ensures Recoverable(ops, start, Delivered(ops, s, moves))
    decreases |moves|
  {
    if moves != [] {
      hide Recoverable;
      MoveKeeps(ops, start, s, moves[0]);
      ScheduleKeeps(ops, start, Moved(ops, s, moves[0]), moves[1..]);
    }
  }

  /** However often and however far the reader goes back, whenever it has caught up with the
      farthest record it delivered, the replica is as if each record had been delivered once. */
  lemma CaughtUp(ops: seq<SyncOp>, start: map<string, string>, moves: seq<Move>)
    requires Schedule(ops, Delivery(0, 0, start), moves)
    ensures var s := Delivered(ops, Delivery(0, 0, start), moves);
            s.next == s.high ==> s.high <= |ops| && s.files == ApplyAll(start, ops[..s.high])
  {
    assert ops[0..0] == [] == ops[..0];
    ScheduleKeeps(ops, start, Delivery(0, 0, start), moves);
    var s := Delivered(ops, Delivery(0, 0, start), moves);
    if s.next == s.high {
      assert ops[s.high..s.high] == [];
      forall n ensures View(s.files, n) == View(ApplyAll(start, ops[..s.high]), n) {
        assert Resumes(ops, start, s, s.high, n);
        ViewApplyAll(start, ops[..s.high], n);
      }
      SameViews(s.files, ApplyAll(start, ops[..s.high]));
    }
  }

  // ------------------------------------------------------------ convergence

  /** Client requests a source can serve and a tracker could send; uploads get generated names. */
  predicate FromClient(r: Request) {
    || (r.UploadRequest? && forall k | 0 <= k < |r.candidates| :: |r.candidates[k]| == NAME_LENGTH)
    || r.DeleteRequest?
  }

  /** The records a successful client request appends, with what is then in the files. */
  function Shipped(d: Disk, r: Request): seq<SyncOp> {
    match r
    case UploadRequest(c, data, meta, f, _) =>
      var name := FirstFree(d.files, c);
      if name.None? then []
      else [Create(name.value, Stored(data, f.data))]
           + if meta.None? then [] else [Create(MetaName(name.value), Stored(meta.value, f.meta))]
    case DeleteRequest(name, _, _) => [Remove(name), Remove(MetaName(name))]
    case _ => []
  }

  function RecordOf(op: SyncOp): Record {
    Record(match op case Create(_, _) => 'C' case Update(_, _) => 'U' case Remove(_) => 'D', op.name)
  }

  function RecordsOf(ops: seq<SyncOp>): (log: seq<Record>)
    ensures |log| == |ops|
    ensures forall k | 0 <= k < |ops| :: log[k] == RecordOf(ops[k])
  {
    seq(|ops|, k requires 0 <= k < |ops| => RecordOf(ops[k]))
  }

  /** Data files have names of one length, metadata files of another, and a metadata file exists
      only if its data file does. */
  ghost predicate MetaHasData(files: map<string, string>) {
    && (forall n | n in files :: |n| == NAME_LENGTH || |n| == NAME_LENGTH + |META_EXT|)
    && (forall n | |n| == NAME_LENGTH && MetaName(n) in files :: n in files)
  }

  lemma ApplyOne(files: map<string, string>, a: SyncOp)
    ensures ApplyAll(files, [a]) == Apply(files, a)
  {
    assert [a][1..] == [];
  }

  lemma ApplyTwo(files: map<string, string>, a: SyncOp, b: SyncOp)
    ensures ApplyAll(files, [a, b]) == Apply(Apply(files, a), b)
  {
    assert [a, b][1..] == [b];
    ApplyOne(Apply(files, a), b);
  }

  lemma MetaNameInjective(a: string, b: string)
    requires MetaName(a) == MetaName(b)
    ensures a == b
  {
    assert MetaName(a)[..|a|] == a && MetaName(b)[..|b|] == b;
  }

  lemma UploadShips(d: Disk, r: Request)
    requires r.UploadRequest? && FromClient(r) && MetaHasData(d.files) && Effect(d, r).status == 0
    ensures MetaHasData(After(d, r).files)
    ensures After(d, r).files == ApplyAll(d.files, Shipped(d, r))
    ensures After(d, r).log == d.log + RecordsOf(Shipped(d, r))
  {
    UploadSuccess(d, r.candidates, r.data, r.meta, r.upload);
    var name := FirstFree(d.files, r.candidates).value;
    MetaNameDiffers(name);
    assert |name| == NAME_LENGTH && MetaName(name) !in d.files;
    assert |MetaName(name)| == NAME_LENGTH + |META_EXT|;
    var created := d.files[name := Stored(r.data, r.upload.data)];
    var ops := Shipped(d, r);
    hide Stored;
    assert Apply(d.files, ops[0]) == created;
    if r.meta.None? {
      assert ops == [ops[0]];
      ApplyOne(d.files, ops[0]);
      assert RecordsOf(ops) == [Record('C', name)];
    } else {
      assert ops == [ops[0], ops[1]];
      ApplyTwo(d.files, ops[0], ops[1]);
      assert RecordsOf(ops) == [Record('C', name)] + [Record('C', MetaName(name))];
    }
    forall n | |n| == NAME_LENGTH && MetaName(n) in After(d, r).files ensures n in After(d, r).files {
      if MetaName(n) == MetaName(name) {
        MetaNameInjective(n, name);
      }
    }
  }

  lemma DeleteShips(d: Disk, r: Request)
    requires r.DeleteRequest? && MetaHasData(d.files) && Effect(d, r).status == 0
    ensures MetaHasData(After(d, r).files)
    ensures After(d, r).files == ApplyAll(d.files, Shipped(d, r))
    ensures After(d, r).log == d.log + RecordsOf(Shipped(d, r))
  {
    DeleteSuccess(d, r.name, r.delete);
    var ops := Shipped(d, r);
    ApplyTwo(d.files, ops[0], ops[1]);
    assert d.files - {r.name} - {MetaName(r.name)} == d.files - {r.name, MetaName(r.name)};
    assert RecordsOf(ops) == [Record('D', r.name)] + [Record('D', MetaName(r.name))];
    forall n | |n| == NAME_LENGTH && MetaName(n) in After(d, r).files ensures n in After(d, r).files {
      assert |MetaName(n)| == |n| + 2 && |MetaName(r.name)| == |r.name| + 2;
      assert n in d.files && n != r.name && n != MetaName(r.name);
    }
  }

  /** Every request of the run succeeds. */
  ghost predicate AllSucceed(d: Disk, rs: seq<Request>) {
    forall k | 0 <= k < |rs| :: FromClient(rs[k]) && Returned(Run(d, rs[..k]), rs[k]) == 0
  }

  function AllShipped(d: Disk, rs: seq<Request>): seq<SyncOp> {
    if rs == [] then []
    else AllShipped(d, rs[..|rs| - 1]) + Shipped(Run(d, rs[..|rs| - 1]), rs[|rs| - 1])
  }

  lemma RecordsOfConcat(a: seq<SyncOp>, b: seq<SyncOp>)
    ensures RecordsOf(a + b) == RecordsOf(a) + RecordsOf(b)
  {
  }

  /** After every all-successful run of uploads and deletes from an empty store, the log holds
      exactly the shipped records, and applying them to an empty replica gives the same names with
      the same contents. */
  lemma {:induction false} Convergence(rs: seq<Request>)
    requires AllSucceed(Disk(map[], []), rs)
    ensures var d := Run(Disk(map[], []), rs);
            && d.files == ApplyAll(map[], AllShipped(Disk(map[], []), rs))
            && d.log == RecordsOf(AllShipped(Disk(map[], []), rs))
            && MetaHasData(d.files)
    decreases |rs|
  {
    var d0 := Disk(map[], []);
    if rs != [] {
      var k := |rs| - 1;
      assert AllSucceed(d0, rs[..k]) by {
        assert forall j | 0 <= j <= k :: rs[..k][..j] == rs[..j];
      }
      Convergence(rs[..k]);
      var d, r := Run(d0, rs[..k]), rs[k];
      assert FromClient(r) && Returned(d, r) == 0;
      assert Effect(d, r).status == 0;
      if r.UploadRequest? { UploadShips(d, r); } else { DeleteShips(d, r); }
      ApplyAllConcat(map[], AllShipped(d0, rs[..k]), Shipped(d, r));
      RecordsOfConcat(AllShipped(d0, rs[..k]), Shipped(d, r));
    }
  }

  /** The two together: a replica that reads the log of such a run, going back any number of times,
      has the source's files whenever it has read to the end and not gone back since. */
  lemma ReplicaConverges(rs: seq<Request>, moves: seq<Move>)
    requires AllSucceed(Disk(map[], []), rs)
    requires Schedule(AllShipped(Disk(map[], []), rs), Delivery(0, 0, map[]), moves)
    ensures var ops := AllShipped(Disk(map[], []), rs);
            var s := Delivered(ops, Delivery(0, 0, map[]), moves);
            s.next == |ops| ==> s.files == Run(Disk(map[], []), rs).files
  {
    var ops := AllShipped(Disk(map[], []), rs);
    var s := Delivered(ops, Delivery(0, 0, map[]), moves);
    Convergence(rs);
    CaughtUp(ops, map[], moves);
    HighBound(ops, map[], moves);
    if s.next == |ops| {
      assert ops[..|ops|] == ops;
    }
  }

  lemma HighBound(ops: seq<SyncOp>, start: map<string, string>, moves: seq<Move>)
    requires Schedule(ops, Delivery(0, 0, start), moves)
    ensures var s := Delivered(ops, Delivery(0, 0, start), moves); s.next <= s.high <= |ops|
  {
    assert ops[0..0] == [] == ops[..0];
    ScheduleKeeps(ops, start, Delivery(0, 0, start), moves);
  }

  // ------------------------------------------------------------ orphaned metadata

  /** The metadata file was written in part, and undoing the upload took the data file away. */
  predicate UndoneAfterShortMeta(f: UploadFaults) {
    Reported(f.data) && f.sort.None? && f.meta.ShortWrite? && f.undo.Unlinked?
  }

  /** An upload, whatever fails in it, keeps that a metadata file has its data file, except in one
      case: the metadata came out short and the undo worked. */
  lemma UploadOrphan(d: Disk, r: Request)
    requires r.UploadRequest? && FromClient(r) && MetaHasData(d.files)
    requires FirstFree(d.files, r.candidates).Some?
    ensures MetaHasData(After(d, r).files) <==> !(r.meta.Some? && UndoneAfterShortMeta(r.upload))
  {
    var name := FirstFree(d.files, r.candidates).value;
    var files := After(d, r).files;
    assert |name| == NAME_LENGTH && MetaName(name) !in d.files;
    assert |MetaName(name)| == NAME_LENGTH + |META_EXT|;
    SavedNames(d, r);
    hide Effect, FirstFree;
    forall n | |n| == NAME_LENGTH && MetaName(n) in files && n != name ensures n in files {
      if MetaName(n) == MetaName(name) {
        MetaNameInjective(n, name);
      }
      assert MetaName(n) in d.files;
    }
  }

  /** Which names an upload leaves, whatever fails in it. */
  lemma SavedNames(d: Disk, r: Request)
    requires r.UploadRequest? && FirstFree(d.files, r.candidates).Some?
    requires MetaName(FirstFree(d.files, r.candidates).value) !in d.files
    ensures var name, files, f := FirstFree(d.files, r.candidates).value, After(d, r).files, r.upload;
            && (forall n | n != name && n != MetaName(name) :: n in files <==> n in d.files)
            && (name in files <==> f.data.ShortWrite? || (Reported(f.data) && (r.meta.None? || !UndoneUpload(f))))
            && (MetaName(name) in files <==> r.meta.Some? && Reported(f.data) && f.sort.None? && !f.meta.OpenFailed?)
  {
    MetaNameDiffers(FirstFree(d.files, r.candidates).value);
  }

  predicate UndoneUpload(f: UploadFaults) { (f.sort.Some? || !Reported(f.meta)) && f.undo.Unlinked? }

  /** A delete, of whatever name and whatever fails in it, keeps it too, except in one case: it took a
      data file away and stopped before that file's metadata. */
  lemma DeleteOrphan(d: Disk, r: Request)
    requires r.DeleteRequest? && MetaHasData(d.files)
    ensures MetaHasData(After(d, r).files)
       <==> !(|r.name| == NAME_LENGTH && r.name in d.files && MetaName(r.name) in d.files && r.delete.data.Unlinked?
              && (r.delete.logData != Appended || r.delete.meta.UnlinkFailed?))
  {
    var name, files := r.name, After(d, r).files;
    MetaNameDiffers(name);
    forall n | |n| == NAME_LENGTH && MetaName(n) in files && n != name ensures n in files {
      if MetaName(n) == MetaName(name) {
        MetaNameInjective(n, name);
      }
      assert MetaName(n) in d.files && n in d.files;
      assert |MetaName(n)| == |n| + 2 && |MetaName(name)| == |name| + 2;
      assert |MetaName(name)| == |n| ==> MetaName(name) != n || |name| == NAME_LENGTH - 2;
    }
  }

  // ------------------------------------------------------------ where a retry does not heal

  /** A create that fails is sent again.  When the first attempt left a short file, the retry takes
      it for the file, answers EEXIST, and its handler ends with success: the replica has the
      content if and only if the failed attempt wrote nothing, or everything. */
  lemma RetriedCreate(d: Disk, name: string, content: string, w: WriteOutcome)
    requires name !in d.files && (w.OpenFailed? || w.ShortWrite?)
    ensures var first := SyncCopyRequest(true, name, content, w, Appended, None);
            var again := SyncRequest(Create(name, content));
            && Returned(d, first) != 0
            && Returned(After(d, first), again) == 0
            && Responded(After(d, first), again) == (if w.ShortWrite? then EEXIST else 0)
            && (name in After(After(d, first), again).files)
            && (After(After(d, first), again).files[name] == content
                <==> (w.OpenFailed? || (w.ShortWrite? && |content| <= w.count)))
  {
    if w.ShortWrite? && w.count < |content| {
      assert |Cut(content, w.count)| != |content|;
    }
  }
}
