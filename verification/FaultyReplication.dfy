/** Replication when deliveries fail: the reader of the log repeats a record until the replica's
    handler ends with success, and may still go back at any time.  The replica ends with the right
    files unless a write came out short and nothing has put that file right since. */
module FaultyReplication {
  import opened CStrings
  import opened Store
  import opened Replication

  /** How the calls of one attempt to deliver a record go at the replica. */
  datatype Try = Try(write: WriteOutcome, unlink: UnlinkOutcome, append: AppendOutcome, send: Option<Errno>)

  function TryRequest(op: SyncOp, t: Try): Request {
    match op
    case Create(n, c) => SyncCopyRequest(true, n, c, t.write, t.append, t.send)
    case Update(n, c) => SyncCopyRequest(false, n, c, t.write, t.append, t.send)
    case Remove(n) => SyncDeleteRequest(n, t.unlink, t.append, t.send)
  }

  /** The operation an attempt amounts to, if it has any effect: with less content after a short write
      or one lost at the close. */
  function Applied(files: map<string, string>, op: SyncOp, t: Try): Option<SyncOp> {
    if op.Remove? then
      if op.name in files && t.unlink.UnlinkFailed? then None else Some(op)
    else if op.Create? && op.name in files then Some(op)
    else if t.write.OpenFailed? then None
    else Some(op.(content := Stored(op.content, t.write)))
  }

  function Outcome(files: map<string, string>, op: Option<SyncOp>): map<string, string> {
    if op.Some? then Apply(files, op.value) else files
  }

  /** An attempt has the effect of that operation, and an attempt that succeeds has an effect. */
  lemma AttemptApplies(d: Disk, op: SyncOp, t: Try)
    ensures After(d, TryRequest(op, t)).files == Outcome(d.files, Applied(d.files, op, t))
    ensures Returned(d, TryRequest(op, t)) == 0 ==> Applied(d.files, op, t).Some?
  {
    if op.Remove? && op.name !in d.files {
      assert d.files - {op.name} == d.files;
    }
  }

  /** Chars that a write leaves in the file. */
  function Kept(content: string, w: WriteOutcome): nat {
    match w
    case LostAtClose(k) => k
    case ShortWrite(k, _) => k
    case _ => |content|
  }

  /** What was applied differs from what was meant exactly when a write took place and came out short. */
  lemma AppliedDiffers(files: map<string, string>, op: SyncOp, t: Try)
    requires Applied(files, op, t).Some?
    ensures Applied(files, op, t).value != op
       <==> (op.Update? || (op.Create? && op.name !in files)) && Kept(op.content, t.write) < |op.content|
  {
    if !op.Remove? && Kept(op.content, t.write) < |op.content| {
      assert |Cut(op.content, Kept(op.content, t.write))| < |op.content|;
    }
  }

  // ------------------------------------------------------------ the reader

  /** The record the reader stands at, the number of records that have had an effect, and the replica. */
  datatype Reader = Reader(high: nat, next: nat, disk: Disk)

  datatype Move = Attempt(t: Try) | Back(to: nat)

  predicate Possible(ops: seq<SyncOp>, s: Reader, m: Move) {
    match m
    case Attempt(_) => s.next < |ops|
    case Back(k) => k <= s.next
  }

  /** The reader goes on to the next record only if the handler ended with success. */
  function Step(ops: seq<SyncOp>, s: Reader, m: Move): Reader
    requires Possible(ops, s, m)
  {
    match m
    case Attempt(t) =>
      var r := TryRequest(ops[s.next], t);
      var effect := Applied(s.disk.files, ops[s.next], t).Some?;
      Reader(if effect && s.next == s.high then s.high + 1 else s.high,
             if Returned(s.disk, r) == 0 then s.next + 1 else s.next,
             After(s.disk, r))
    case Back(k) => s.(next := k)
  }

  predicate AllPossible(ops: seq<SyncOp>, s: Reader, moves: seq<Move>)
    decreases |moves|
  {
    moves == [] || (Possible(ops, s, moves[0]) && AllPossible(ops, Step(ops, s, moves[0]), moves[1..]))
  }

  function Steps(ops: seq<SyncOp>, s: Reader, moves: seq<Move>): Reader
    requires AllPossible(ops, s, moves)
    decreases |moves|
  {
    if moves == [] then s else Steps(ops, Step(ops, s, moves[0]), moves[1..])
  }

  // ------------------------------------------------------------ what was meant and what was applied

  datatype Event = Event(meant: SyncOp, applied: SyncOp)

  function EventOf(ops: seq<SyncOp>, s: Reader, m: Move): seq<Event>
    requires Possible(ops, s, m)
  {
    match m
    case Attempt(t) =>
      var applied := Applied(s.disk.files, ops[s.next], t);
      if applied.Some? then [Event(ops[s.next], applied.value)] else []
    case Back(_) => []
  }

  /** The attempts with an effect, in order. */
  function Events(ops: seq<SyncOp>, s: Reader, moves: seq<Move>): seq<Event>
    requires AllPossible(ops, s, moves)
    decreases |moves|
  {
    if moves == [] then [] else EventOf(ops, s, moves[0]) + Events(ops, Step(ops, s, moves[0]), moves[1..])
  }

  function Meant(ev: seq<Event>): (ops: seq<SyncOp>)
    ensures |ops| == |ev|
  {
    seq(|ev|, k requires 0 <= k < |ev| => ev[k].meant)
  }

  function AppliedOps(ev: seq<Event>): (ops: seq<SyncOp>)
    ensures |ops| == |ev|
  {
    seq(|ev|, k requires 0 <= k < |ev| => ev[k].applied)
  }

  /** A write came out short, and no later event updates or removes the file. */
  predicate Harmful(ev: seq<Event>, j: nat)
    requires j < |ev|
  {
    ev[j].applied != ev[j].meant && !Settles(Meant(ev[j + 1..]), ev[j].meant.name)
  }

  /** Events differ from what was meant only in the content of a file they really wrote. */
  predicate Honest(v: Option<string>, ev: seq<Event>, n: string)
    decreases |ev|
  {
    ev == []
    || (&& ev[0].meant.name == ev[0].applied.name
        && (ev[0].meant.Create? <==> ev[0].applied.Create?) && (ev[0].meant.Update? <==> ev[0].applied.Update?)
        && (ev[0].meant.name == n && ev[0].meant.Create? && ev[0].applied != ev[0].meant ==> v.None?)
        && Honest(ApplyTo(v, ev[0].applied, n), ev[1..], n))
  }

  /** No event on n is harmful. */
  predicate Unharmed(ev: seq<Event>, n: string) {
    forall j | 0 <= j < |ev| && ev[j].meant.name == n :: !Harmful(ev, j)
  }

  lemma UnharmedSplit(ev: seq<Event>, n: string)
    requires ev != []
    ensures Unharmed(ev, n) <==> (ev[0].meant.name == n ==> !Harmful(ev, 0)) && Unharmed(ev[1..], n)
  {
    hide Settles;
    forall j | 1 <= j < |ev| ensures Harmful(ev, j) <==> Harmful(ev[1..], j - 1) {
      assert ev[1..][j..] == ev[j + 1..];
    }
    if Unharmed(ev, n) {
      forall j | 0 <= j < |ev[1..]| && ev[1..][j].meant.name == n ensures !Harmful(ev[1..], j) {
        assert !Harmful(ev, j + 1);
      }
    }
  }

  lemma SettlesSplit(ev: seq<Event>, n: string)
    requires ev != []
    ensures Settles(Meant(ev), n) <==> (ev[0].meant.name == n && !ev[0].meant.Create?) || Settles(Meant(ev[1..]), n)
  {
    var ops, rest := Meant(ev), Meant(ev[1..]);
    assert ops[1..] == rest;
    if Settles(ops, n) && !(ev[0].meant.name == n && !ev[0].meant.Create?) {
      var k :| 0 <= k < |ops| && ops[k].name == n && !ops[k].Create?;
      assert rest[k - 1] == ops[k];
    }
    if Settles(rest, n) {
      SuffixSettles([ops[0]], rest, n);
      assert [ops[0]] + rest == ops;
    }
  }

  /** For one name: what was applied ends where what was meant would, if and only if no event on it
      is harmful and the start was the same, or did not matter. */
  lemma {:induction false} DamageExactly(v: Option<string>, w: Option<string>, ev: seq<Event>, n: string)
    requires (v.Some? <==> w.Some?) && Honest(v, ev, n)
    ensures ApplyAllTo(v, AppliedOps(ev), n) == ApplyAllTo(w, Meant(ev), n)
       <==> (v == w || Settles(Meant(ev), n)) && Unharmed(ev, n)
    decreases |ev|
  {
    if ev != [] {
      var e, rest := ev[0], ev[1..];
      UnharmedSplit(ev, n);
      SettlesSplit(ev, n);
      assert AppliedOps(ev)[1..] == AppliedOps(rest) && Meant(ev)[1..] == Meant(rest);
      assert ev[0 + 1..] == rest;
      DamageExactly(ApplyTo(v, e.applied, n), ApplyTo(w, e.meant, n), rest, n);
      hide Settles, Unharmed, Honest;
    }
  }

  // ------------------------------------------------------------ the reader, event by event

  lemma EventsHonest(ops: seq<SyncOp>, s: Reader, moves: seq<Move>, n: string)
    requires AllPossible(ops, s, moves)
    ensures Honest(View(s.disk.files, n), Events(ops, s, moves), n)
    decreases |moves|
  {
    if moves != [] {
      var m := moves[0];
      var next, rest := Step(ops, s, m), moves[1..];
      EventsHonest(ops, next, rest, n);
      var first, events := EventOf(ops, s, m), Events(ops, next, rest);
      match m
      case Back(_) =>
        assert first + events == events;
      case Attempt(t) =>
        AttemptApplies(s.disk, ops[s.next], t);
        if first == [] {
          assert first + events == events;
        } else {
          assert (first + events)[1..] == events;
          assert View(next.disk.files, n) == ApplyTo(View(s.disk.files, n), first[0].applied, n);
        }
    }
  }

  /** The replica's files are what the applied operations make of them. */
  lemma {:induction false} FilesOfEvents(ops: seq<SyncOp>, s: Reader, moves: seq<Move>)
    requires AllPossible(ops, s, moves)
    ensures Steps(ops, s, moves).disk.files == ApplyAll(s.disk.files, AppliedOps(Events(ops, s, moves)))
    decreases |moves|
  {
    if moves != [] {
      var m := moves[0];
      var next, rest := Step(ops, s, m), moves[1..];
      FilesOfEvents(ops, next, rest);
      var first, events := EventOf(ops, s, m), Events(ops, next, rest);
      if m.Attempt? {
        AttemptApplies(s.disk, ops[s.next], m.t);
      }
      if first == [] {
        assert first + events == events;
      } else {
        assert AppliedOps(first + events)[1..] == AppliedOps(events);
      }
    }
  }

  /** The same reader where nothing fails: an attempt with an effect is a delivery, taken back when
      the handler did not end with success. */
  function Smooth(ops: seq<SyncOp>, s: Reader, moves: seq<Move>): seq<Replication.Move>
    requires AllPossible(ops, s, moves)
    decreases |moves|
  {
    if moves == [] then []
    else
      var m := moves[0];
      var next := Step(ops, s, m);
      (match m
       case Back(k) => [Rewind(k)]
       case Attempt(_) =>
         if EventOf(ops, s, m) == [] then [] else if next.next == s.next then [Deliver, Rewind(s.next)] else [Deliver])
      + Smooth(ops, next, moves[1..])
  }

  /** What a step does to the reader's positions. */
  lemma StepShape(ops: seq<SyncOp>, s: Reader, m: Move)
    requires Possible(ops, s, m)
    ensures var next, first := Step(ops, s, m), EventOf(ops, s, m);
            && (m.Back? ==> first == [] && next.high == s.high && next.next == m.to <= s.next)
            && (m.Attempt? && first == [] ==> next.high == s.high && next.next == s.next)
            && (m.Attempt? && first != [] ==>
                  && |first| == 1 && first[0].meant == ops[s.next]
                  && next.high == (if s.next == s.high then s.high + 1 else s.high)
                  && (next.next == s.next || next.next == s.next + 1))
  {
    if m.Attempt? {
      AttemptApplies(s.disk, ops[s.next], m.t);
    }
  }

  lemma {:induction false} SmoothRun(ops: seq<SyncOp>, s: Reader, moves: seq<Move>, files: map<string, string>)
    requires AllPossible(ops, s, moves) && s.next <= s.high
    ensures var d := Delivery(s.high, s.next, files);
            var s' := Steps(ops, s, moves);
            && Schedule(ops, d, Smooth(ops, s, moves))
            && Delivered(ops, d, Smooth(ops, s, moves)) == Delivery(s'.high, s'.next, ApplyAll(files, Meant(Events(ops, s, moves))))
    decreases |moves|
  {
    if moves != [] {
      var m := moves[0];
      var next, rest := Step(ops, s, m), moves[1..];
      var d := Delivery(s.high, s.next, files);
      var first, events, smooth := EventOf(ops, s, m), Events(ops, next, rest), Smooth(ops, next, rest);
      StepShape(ops, s, m);
      hide Step, EventOf, Meant, Apply, ApplyAll;
      match m
      case Back(k) =>
        OneMove(ops, d, Rewind(k), smooth);
        assert first + events == events;
        SmoothRun(ops, next, rest, files);
      case Attempt(t) =>
        if first == [] {
          assert first + events == events && [] + smooth == smooth;
          SmoothRun(ops, next, rest, files);
        } else {
          var after := Apply(files, ops[s.next]);
          MeantFirst(files, first[0], events);
          assert first == [first[0]];
          SmoothRun(ops, next, rest, after);
          hide *;
          if next.next == s.next {
            DeliverAndBack(ops, d, smooth);
          } else {
            OneMove(ops, d, Deliver, smooth);
          }
        }
    }
  }

  lemma MeantFirst(files: map<string, string>, e: Event, events: seq<Event>)
    ensures ApplyAll(files, Meant([e] + events)) == ApplyAll(Apply(files, e.meant), Meant(events))
  {
    assert Meant([e] + events)[1..] == Meant(events);
  }

  lemma DeliverAndBack(ops: seq<SyncOp>, d: Delivery, rest: seq<Replication.Move>)
    requires d.next < |ops|
    ensures var back := Moved(ops, d, Deliver).(next := d.next);
            && (Schedule(ops, d, [Deliver, Rewind(d.next)] + rest) <==> Schedule(ops, back, rest))
            && (Schedule(ops, back, rest) ==> Delivered(ops, d, [Deliver, Rewind(d.next)] + rest) == Delivered(ops, back, rest))
  {
    assert [Deliver, Rewind(d.next)] + rest == [Deliver] + ([Rewind(d.next)] + rest);
    OneMove(ops, d, Deliver, [Rewind(d.next)] + rest);
    OneMove(ops, Moved(ops, d, Deliver), Rewind(d.next), rest);
  }

  lemma OneMove(ops: seq<SyncOp>, d: Delivery, m: Replication.Move, rest: seq<Replication.Move>)
    requires Allowed(ops, d, m)
    ensures Schedule(ops, d, [m] + rest) <==> Schedule(ops, Moved(ops, d, m), rest)
    ensures Schedule(ops, d, [m] + rest) ==> Delivered(ops, d, [m] + rest) == Delivered(ops, Moved(ops, d, m), rest)
  {
    assert ([m] + rest)[1..] == rest;
  }

  // ------------------------------------------------------------ main results

  lemma EventsMatter(files: map<string, string>, ev: seq<Event>)
    requires forall n :: Honest(View(files, n), ev, n)
    ensures ApplyAll(files, AppliedOps(ev)) == ApplyAll(files, Meant(ev)) <==> forall j | 0 <= j < |ev| :: !Harmful(ev, j)
  {
    hide Honest, Harmful, AppliedOps, Meant;
    var a, b := ApplyAll(files, AppliedOps(ev)), ApplyAll(files, Meant(ev));
    forall n ensures View(a, n) == View(b, n) <==> Unharmed(ev, n) {
      ViewApplyAll(files, AppliedOps(ev), n);
      ViewApplyAll(files, Meant(ev), n);
      DamageExactly(View(files, n), View(files, n), ev, n);
    }
    if forall j | 0 <= j < |ev| :: !Harmful(ev, j) {
      forall n ensures View(a, n) == View(b, n) {
        assert Unharmed(ev, n);
      }
      SameViews(a, b);
    }
    if a == b {
      forall j | 0 <= j < |ev| ensures !Harmful(ev, j) {
        assert Unharmed(ev, ev[j].meant.name);
      }
    }
  }

  /** Whatever fails, however often a record is repeated and however far the reader goes back:
      whenever it has caught up with the farthest record that had an effect, the replica is as if
      every record had been applied once, in full, if and only if no short write is left standing. */
  lemma FaultyDelivery(ops: seq<SyncOp>, d: Disk, moves: seq<Move>)
    requires AllPossible(ops, Reader(0, 0, d), moves)
    ensures var s, ev := Steps(ops, Reader(0, 0, d), moves), Events(ops, Reader(0, 0, d), moves);
            s.next == s.high ==>
              && s.high <= |ops|
              && (s.disk.files == ApplyAll(d.files, ops[..s.high]) <==> forall j | 0 <= j < |ev| :: !Harmful(ev, j))
  {
    hide Honest, Harmful, AppliedOps, Meant, Steps, Events, AllPossible, Smooth, Schedule, Delivered, ApplyAll;
    var s0 := Reader(0, 0, d);
    var ev := Events(ops, s0, moves);
    FilesOfEvents(ops, s0, moves);
    SmoothRun(ops, s0, moves, d.files);
    CaughtUp(ops, d.files, Smooth(ops, s0, moves));
    forall n ensures Honest(View(d.files, n), ev, n) {
      EventsHonest(ops, s0, moves, n);
    }
    EventsMatter(d.files, ev);
  }

  /** For a source whose requests all succeeded: a replica that has read the whole log this way has
      the source's files if and only if no short write is left standing. */
  lemma FaultyReplicaConverges(rs: seq<Request>, moves: seq<Move>)
    requires AllSucceed(Disk(map[], []), rs)
    requires AllPossible(AllShipped(Disk(map[], []), rs), Reader(0, 0, Disk(map[], [])), moves)
    ensures var ops := AllShipped(Disk(map[], []), rs);
            var s, ev := Steps(ops, Reader(0, 0, Disk(map[], [])), moves), Events(ops, Reader(0, 0, Disk(map[], [])), moves);
            s.next == s.high == |ops| ==>
              (s.disk.files == Run(Disk(map[], []), rs).files <==> forall j | 0 <= j < |ev| :: !Harmful(ev, j))
  {
    hide Harmful, Steps, Events, AllPossible;
    var ops := AllShipped(Disk(map[], []), rs);
    Convergence(rs);
    FaultyDelivery(ops, Disk(map[], []), moves);
    assert ops[..|ops|] == ops;
  }

  // ------------------------------------------------------------ the source itself

  /** What a client request wants of the source's files, and what it gets, once it is reported as
      successful: the difference is what was lost at a close. */
  function RequestEvents(d: Disk, r: Request): seq<Event> {
    match r
    case UploadRequest(c, data, meta, f, _) =>
      var name := FirstFree(d.files, c);
      if name.None? then []
      else [Event(Create(name.value, data), Create(name.value, Stored(data, f.data)))]
           + if meta.None? then []
             else [Event(Create(MetaName(name.value), meta.value), Create(MetaName(name.value), Stored(meta.value, f.meta)))]
    case DeleteRequest(name, _, _) =>
      [Event(Remove(name), Remove(name)), Event(Remove(MetaName(name)), Remove(MetaName(name)))]
    case _ => []
  }

  function SourceEvents(d: Disk, rs: seq<Request>): seq<Event> {
    if rs == [] then []
    else SourceEvents(d, rs[..|rs| - 1]) + RequestEvents(Run(d, rs[..|rs| - 1]), rs[|rs| - 1])
  }

  lemma {:induction false} ShippedAreApplied(d: Disk, rs: seq<Request>)
    ensures AppliedOps(SourceEvents(d, rs)) == AllShipped(d, rs)
  {
    if rs != [] {
      var before, r := Run(d, rs[..|rs| - 1]), rs[|rs| - 1];
      ShippedAreApplied(d, rs[..|rs| - 1]);
      hide Run, Stored, FirstFree;
      assert AppliedOps(RequestEvents(before, r)) == Shipped(before, r);
    }
  }

  lemma {:induction false} HonestConcat(v: Option<string>, a: seq<Event>, b: seq<Event>, n: string)
    ensures Honest(v, a + b, n) <==> Honest(v, a, n) && Honest(ApplyAllTo(v, AppliedOps(a), n), b, n)
    decreases |a|
  {
    if a == [] {
      assert a + b == b;
    } else {
      HonestConcat(ApplyTo(v, a[0].applied, n), a[1..], b, n);
      assert (a + b)[1..] == a[1..] + b && AppliedOps(a)[1..] == AppliedOps(a[1..]);
    }
  }

  lemma RequestHonest(d: Disk, r: Request, n: string)
    requires FromClient(r) && MetaHasData(d.files)
    ensures Honest(View(d.files, n), RequestEvents(d, r), n)
  {
    hide Stored, FirstFree;
    var ev := RequestEvents(d, r);
    var v := View(d.files, n);
    if r.UploadRequest? && ev != [] {
      var name := FirstFree(d.files, r.candidates).value;
      assert |name| == NAME_LENGTH && MetaName(name) !in d.files;
      MetaNameDiffers(name);
    }
    if |ev| == 1 {
      assert ev == [ev[0]];
      OneHonest(v, ev[0], n);
    } else if |ev| == 2 {
      assert ev == [ev[0]] + [ev[1]];
      var w := ApplyTo(v, ev[0].applied, n);
      OneHonest(v, ev[0], n);
      OneHonest(w, ev[1], n);
      assert AppliedOps([ev[0]]) == [ev[0].applied];
      assert [ev[0].applied][1..] == [];
      assert ApplyAllTo(v, [ev[0].applied], n) == w;
      HonestConcat(v, [ev[0]], [ev[1]], n);
    }
  }

  lemma OneHonest(v: Option<string>, e: Event, n: string)
    requires e.meant.name == e.applied.name
    requires (e.meant.Create? <==> e.applied.Create?) && (e.meant.Update? <==> e.applied.Update?)
    requires e.meant.name == n && e.meant.Create? && e.applied != e.meant ==> v.None?
    ensures Honest(v, [e], n)
  {
    assert [e][1..] == [];
  }

  lemma {:induction false} SourceHonest(rs: seq<Request>, n: string)
    requires AllSucceed(Disk(map[], []), rs)
    ensures Honest(None, SourceEvents(Disk(map[], []), rs), n)
    decreases |rs|
  {
    var d0 := Disk(map[], []);
    if rs != [] {
      var k := |rs| - 1;
      assert AllSucceed(d0, rs[..k]) by {
        assert forall j | 0 <= j <= k :: rs[..k][..j] == rs[..j];
      }
      SourceHonest(rs[..k], n);
      Convergence(rs[..k]);
      ShippedAreApplied(d0, rs[..k]);
      ViewApplyAll(map[], AllShipped(d0, rs[..k]), n);
      RequestHonest(Run(d0, rs[..k]), rs[k], n);
      assert FromClient(rs[k]) && View(map[], n) == None;
      assert SourceEvents(d0, rs) == SourceEvents(d0, rs[..k]) + RequestEvents(Run(d0, rs[..k]), rs[k]);
      hide *;
      HonestConcat(None, SourceEvents(d0, rs[..k]), RequestEvents(Run(d0, rs[..k]), rs[k]), n);
    }
  }

  /** After a run of uploads and deletes all reported as successful, the source's files are what its
      clients asked for if and only if no write lost at a close is left standing. */
  lemma SourceKeepsItsWord(rs: seq<Request>)
    requires AllSucceed(Disk(map[], []), rs)
    ensures var ev := SourceEvents(Disk(map[], []), rs);
            Run(Disk(map[], []), rs).files == ApplyAll(map[], Meant(ev)) <==> forall j | 0 <= j < |ev| :: !Harmful(ev, j)
  {
    hide Honest, Harmful, SourceEvents;
    var ev := SourceEvents(Disk(map[], []), rs);
    forall n ensures Honest(View(map[], n), ev, n) {
      SourceHonest(rs, n);
    }
    EventsMatter(map[], ev);
    ShippedAreApplied(Disk(map[], []), rs);
    Convergence(rs);
  }
}
