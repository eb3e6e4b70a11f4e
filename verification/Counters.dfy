/** Statistics: the workers of storage_service.c count what they do, and a reporter thread of
    tracker_client_thread.c sends the counts to its tracker when the change counter has moved.
    Every interleaving of their steps is a run of this machine.  One reporter is enough: reporters
    share nothing but the statistics, which they only read. */
module Counters {
  import opened Store

  const SYNC_STAT_FILE_FREQ := 1000

  /** The five commands that have a total and a success counter. */
  datatype Kind = Upload | Download | SetMeta | Delete | GetMeta

  datatype Replica = SyncCreate | SyncDelete | SyncUpdate

  datatype Cmd = Client(kind: Kind) | Server(op: Replica)

  datatype Counts = Counts(upload: int, download: int, setMeta: int, delete: int, getMeta: int) {
    function Get(k: Kind): int {
      match k case Upload => upload case Download => download case SetMeta => setMeta case Delete => delete case GetMeta => getMeta
    }

    function Plus(k: Kind): (c: Counts)
      ensures forall j: Kind :: c.Get(j) == Get(j) + if j == k then 1 else 0
    {
      match k
      case Upload => this.(upload := upload + 1)
      case Download => this.(download := download + 1)
      case SetMeta => this.(setMeta := setMeta + 1)
      case Delete => this.(delete := delete + 1)
      case GetMeta => this.(getMeta := getMeta + 1)
    }
  }

  datatype Stats = Stats(total: Counts, success: Counts, lastSourceUpdate: int, lastSyncUpdate: int)

  /** Why a worker stopped. */
  datatype Reason = Failed(cmd: Cmd) | FlushFailed | Left

  /** Where a worker is: between requests; in a handler; back from it with success; past its success
      counter; past its time stamp; past the change counter with the status file to write. */
  datatype Pc = Idle | Handling(cmd: Cmd) | Handled(cmd: Cmd) | Counted(cmd: Cmd) | Stamped(cmd: Cmd) | Flushing
              | Stopped(reason: Reason)

  /** One of the values a heartbeat carries. */
  datatype Field = Total(kind: Kind) | Success(kind: Kind) | SourceTime | SyncTime

  const BEAT_FIELDS := 12

  /** The values in the order in which the reporter reads them. */
  function FieldAt(j: nat): Field
    requires j < BEAT_FIELDS
  {
    [Total(Upload), Success(Upload), Total(Download), Success(Download), Total(SetMeta), Success(SetMeta),
     Total(Delete), Success(Delete), Total(GetMeta), Success(GetMeta), SourceTime, SyncTime][j]
  }

  /** Each total is read right before the successes of its kind, and the times last. */
  lemma ReadingOrder(j: nat)
    requires j < 5
    ensures var kind := [Upload, Download, SetMeta, Delete, GetMeta][j];
            FieldAt(2 * j) == Total(kind) && FieldAt(2 * j + 1) == Success(kind)
    ensures FieldAt(10) == SourceTime && FieldAt(11) == SyncTime
  {
  }

  function ValueOf(stats: Stats, f: Field): int {
    match f
    case Total(kind) => stats.total.Get(kind)
    case Success(kind) => stats.success.Get(kind)
    case SourceTime => stats.lastSourceUpdate
    case SyncTime => stats.lastSyncUpdate
  }

  /** Where the reporter is: reading the values one by one into its buffer; or past the setting of
      its sync count, with the full buffer to send. */
  datatype Beat = Ready | Reading(values: seq<int>) | Sending(values: seq<int>)

  /** copy is what the tracker was last sent. */
  datatype State = State(stats: Stats, change: int, flushes: int, workers: seq<Pc>,
                         sync: int, beat: Beat, copy: Option<seq<int>>)

  datatype Step =
    | NewWorker
    | Receive(k: nat, cmd: Cmd)
    | Fail(k: nat)
    | Succeed(k: nat)
    | CountSuccess(k: nat)
    | Stamp(k: nat, now: int)
    | Bump(k: nat)
    | Flush(k: nat, ok: bool)
    | Leave(k: nat)
    | BeatStart
    | ReadField
    | TakeCount
    | Send(delivered: bool)

  function To(s: State, k: nat, pc: Pc): State
    requires k < |s.workers|
  {
    s.(workers := s.workers[k := pc])
  }

  function Received(stats: Stats, cmd: Cmd): Stats {
    if cmd.Client? then stats.(total := stats.total.Plus(cmd.kind)) else stats
  }

  function Succeeded(stats: Stats, cmd: Cmd): Stats {
    if cmd.Client? then stats.(success := stats.success.Plus(cmd.kind)) else stats
  }

  /** Uploads, deletes and metadata changes stamp the source time, replication the sync time. */
  function TimeStamped(stats: Stats, cmd: Cmd, now: int): Stats {
    if cmd.Server? then stats.(lastSyncUpdate := now)
    else if cmd.kind in {Upload, Delete, SetMeta} then stats.(lastSourceUpdate := now)
    else stats
  }

  /** Which times a successful command stamps. */
  lemma TimesByCommand(stats: Stats, op: Replica, now: int)
    ensures TimeStamped(stats, Client(Upload), now) == stats.(lastSourceUpdate := now)
    ensures TimeStamped(stats, Client(Delete), now) == stats.(lastSourceUpdate := now)
    ensures TimeStamped(stats, Client(SetMeta), now) == stats.(lastSourceUpdate := now)
    ensures TimeStamped(stats, Client(Download), now) == stats && TimeStamped(stats, Client(GetMeta), now) == stats
    ensures TimeStamped(stats, Server(op), now) == stats.(lastSyncUpdate := now)
  {
  }

  /** What a worker does next; a step that is not possible changes nothing. */
  function WorkerStep(s: State, step: Step, k: nat): State
    requires k < |s.workers|
  {
    var pc := s.workers[k];
    match step
    case Receive(_, cmd) => if pc == Idle then To(s, k, Handling(cmd)).(stats := Received(s.stats, cmd)) else s
    case Fail(_) => if pc.Handling? then To(s, k, Stopped(Failed(pc.cmd))) else s
    case Succeed(_) => if pc.Handling? then To(s, k, Handled(pc.cmd)) else s
    case CountSuccess(_) => if pc.Handled? then To(s, k, Counted(pc.cmd)).(stats := Succeeded(s.stats, pc.cmd)) else s
    case Stamp(_, now) => if pc.Counted? then To(s, k, Stamped(pc.cmd)).(stats := TimeStamped(s.stats, pc.cmd, now)) else s
    case Bump(_) =>
      if pc.Stamped? then To(s, k, if (s.change + 1) % SYNC_STAT_FILE_FREQ == 0 then Flushing else Idle).(change := s.change + 1)
      else s
    case Flush(_, ok) =>
      if pc.Flushing? then To(s, k, if ok then Idle else Stopped(FlushFailed)).(flushes := s.flushes + 1) else s
    case Leave(_) => if pc == Idle then To(s, k, Stopped(Left)) else s
    case _ => s
  }

  function Next(s: State, step: Step): State {
    match step
    case NewWorker => s.(workers := s.workers + [Idle])
    case BeatStart => if s.beat == Ready && s.sync != s.change then s.(beat := Reading([])) else s
    case ReadField =>
      if s.beat.Reading? && |s.beat.values| < BEAT_FIELDS then
        s.(beat := Reading(s.beat.values + [ValueOf(s.stats, FieldAt(|s.beat.values|))]))
      else s
    case TakeCount =>
      if s.beat.Reading? && |s.beat.values| == BEAT_FIELDS then s.(beat := Sending(s.beat.values), sync := s.change) else s
    case Send(delivered) =>
      if s.beat.Sending? then s.(beat := Ready, copy := if delivered then Some(s.beat.values) else s.copy) else s
    case _ => if step.k < |s.workers| then WorkerStep(s, step, step.k) else s
  }

  function Run(s: State, steps: seq<Step>): State {
    if steps == [] then s else Next(Run(s, steps[..|steps| - 1]), steps[|steps| - 1])
  }

  function Start(stats: Stats): State { State(stats, 1, 0, [], 0, Ready, None) }

  // ------------------------------------------------------------ counting workers

  function Count(workers: seq<Pc>, p: Pc -> bool): nat {
    if workers == [] then 0 else (if p(workers[0]) then 1 else 0) + Count(workers[1..], p)
  }

  lemma {:induction false} CountUpdate(workers: seq<Pc>, k: nat, pc: Pc, p: Pc -> bool)
    requires k < |workers|
    ensures Count(workers[k := pc], p) == Count(workers, p) - (if p(workers[k]) then 1 else 0) + if p(pc) then 1 else 0
    ensures p(workers[k]) ==> Count(workers, p) > 0
  {
    if k > 0 {
      assert workers[k := pc][1..] == workers[1..][k - 1 := pc];
      CountUpdate(workers[1..], k - 1, pc, p);
    }
  }

  lemma {:induction false} CountAppend(workers: seq<Pc>, pc: Pc, p: Pc -> bool)
    ensures Count(workers + [pc], p) == Count(workers, p) + if p(pc) then 1 else 0
  {
    if workers != [] {
      assert (workers + [pc])[1..] == workers[1..] + [pc];
      CountAppend(workers[1..], pc, p);
    }
  }

  predicate IsWorkerStep(s: State, step: Step) {
    !step.NewWorker? && !step.BeatStart? && !step.ReadField? && !step.TakeCount? && !step.Send? && step.k < |s.workers|
  }

  /** How one step changes the number of workers with a property: at most one of them moves. */
  lemma CountStep(s: State, step: Step, p: Pc -> bool)
    ensures var t := Next(s, step);
            && (step == NewWorker ==> Count(t.workers, p) == Count(s.workers, p) + if p(Idle) then 1 else 0)
            && (!step.NewWorker? && !IsWorkerStep(s, step) ==> t.workers == s.workers)
            && (IsWorkerStep(s, step) ==>
                  && |t.workers| == |s.workers|
                  && Count(t.workers, p) == Count(s.workers, p) - (if p(s.workers[step.k]) then 1 else 0)
                                            + (if p(t.workers[step.k]) then 1 else 0))
  {
    if step == NewWorker {
      CountAppend(s.workers, Idle, p);
    } else if IsWorkerStep(s, step) {
      var t := Next(s, step);
      assert t.workers == s.workers[step.k := t.workers[step.k]];
      CountUpdate(s.workers, step.k, t.workers[step.k], p);
    }
  }

  function InFlight(kind: Kind): Pc -> bool { (pc: Pc) => pc == Handling(Client(kind)) || pc == Handled(Client(kind)) }

  function StoppedBy(kind: Kind): Pc -> bool { (pc: Pc) => pc == Stopped(Failed(Client(kind))) }

  function IsFlushing(): Pc -> bool { (pc: Pc) => pc == Flushing }

  /** Handled with success, but not in the change counter yet. */
  function IsCompleting(): Pc -> bool { (pc: Pc) => pc.Handled? || pc.Counted? || pc.Stamped? }

  // ------------------------------------------------------------ conservation

  /** Total minus success has grown by the requests in flight and the workers a failure stopped. */
  ghost predicate Conserved(from: Stats, s: State, kind: Kind) {
    s.stats.total.Get(kind) - s.stats.success.Get(kind)
      == from.total.Get(kind) - from.success.Get(kind) + Count(s.workers, InFlight(kind)) + Count(s.workers, StoppedBy(kind))
  }

  lemma StepConserves(from: Stats, s: State, step: Step, kind: Kind)
    requires Conserved(from, s, kind)
    ensures Conserved(from, Next(s, step), kind)
  {
    CountStep(s, step, InFlight(kind));
    CountStep(s, step, StoppedBy(kind));
    hide Count;
  }

  /** The status file is written once for every 1000th change. */
  ghost predicate FlushesCounted(s: State) {
    1 <= s.change && s.flushes + Count(s.workers, IsFlushing()) == s.change / SYNC_STAT_FILE_FREQ
  }

  lemma StepCountsFlushes(s: State, step: Step)
    requires FlushesCounted(s)
    ensures FlushesCounted(Next(s, step))
  {
    CountStep(s, step, IsFlushing());
    hide Count;
    NextMultiple(s.change);
  }

  lemma NextMultiple(n: nat)
    ensures (n + 1) / SYNC_STAT_FILE_FREQ == n / SYNC_STAT_FILE_FREQ + if (n + 1) % SYNC_STAT_FILE_FREQ == 0 then 1 else 0
  {
  }

  /** Handlers that have come back with success in a run. */
  function Successes(s: State, steps: seq<Step>): nat {
    if steps == [] then 0
    else
      var before, step := Run(s, steps[..|steps| - 1]), steps[|steps| - 1];
      Successes(s, steps[..|steps| - 1])
      + if step.Succeed? && step.k < |before.workers| && before.workers[step.k].Handling? then 1 else 0
  }

  lemma StepCountsChanges(s: State, step: Step)
    ensures var t := Next(s, step);
            t.change + Count(t.workers, IsCompleting()) == s.change + Count(s.workers, IsCompleting())
              + if step.Succeed? && step.k < |s.workers| && s.workers[step.k].Handling? then 1 else 0
  {
    CountStep(s, step, IsCompleting());
    hide Count;
  }

  /** In every interleaving of any number of workers: for each of the five commands, total minus
      success is what it was at the start, plus the requests in flight, plus the workers stopped by
      a failure of that command; the change counter is one plus the commands completed; and the
      status file has been written once for every 1000 changes, but for workers just about to. */
  lemma {:induction false} CounterConservation(stats: Stats, steps: seq<Step>, kind: Kind)
    ensures var s := Run(Start(stats), steps);
            && Conserved(stats, s, kind)
            && FlushesCounted(s) && s.flushes + Count(s.workers, IsFlushing()) == s.change / 1000
            && s.change == 1 + Successes(Start(stats), steps) - Count(s.workers, IsCompleting())
  {
    if steps != [] {
      var front, step := steps[..|steps| - 1], steps[|steps| - 1];
      var s := Run(Start(stats), front);
      CounterConservation(stats, front, kind);
      StepConserves(stats, s, step, kind);
      StepCountsFlushes(s, step);
      StepCountsChanges(s, step);
    }
  }

  // ------------------------------------------------------------ heartbeats

  /** A step as the heartbeat relies on: beats are delivered, and no command is completed between
      the reading of the first value and that of the change counter. */
  predicate GoodStep(s: State, step: Step) {
    && (step.Send? ==> step.delivered)
    && (s.beat.Reading? && s.beat.values != [] ==> Next(s, step).change == s.change)
  }

  ghost predicate GoodRun(s: State, steps: seq<Step>) {
    forall i | 0 <= i < |steps| :: GoodStep(Run(s, steps[..i]), steps[i])
  }

  /** Value j of a beat and the change counter were these after the first i steps. */
  predicate Taken(s: State, steps: seq<Step>, i: nat, j: nat, value: int, change: int) {
    && i <= |steps| && j < BEAT_FIELDS
    && ValueOf(Run(s, steps[..i]).stats, FieldAt(j)) == value && Run(s, steps[..i]).change == change
  }

  ghost predicate TakenAt(s: State, steps: seq<Step>, j: nat, value: int, change: int) {
    exists i: nat :: Taken(s, steps, i, j, value, change)
  }

  ghost predicate AllTaken(s: State, steps: seq<Step>, values: seq<int>, change: int) {
    |values| <= BEAT_FIELDS && forall j | 0 <= j < |values| :: TakenAt(s, steps, j, values[j], change)
  }

  lemma TakenStays(s: State, steps: seq<Step>, values: seq<int>, change: int)
    requires steps != [] && AllTaken(s, steps[..|steps| - 1], values, change)
    ensures AllTaken(s, steps, values, change)
  {
    hide Run;
    forall j | 0 <= j < |values| ensures TakenAt(s, steps, j, values[j], change) {
      var i: nat :| Taken(s, steps[..|steps| - 1], i, j, values[j], change);
      assert steps[..|steps| - 1][..i] == steps[..i];
      assert Taken(s, steps, i, j, values[j], change);
    }
  }

  /** The values that count as sent, or are being read, were all true since the last change. */
  ghost predicate Tracked(s: State, steps: seq<Step>) {
    var t := Run(s, steps);
    && t.sync <= t.change
    && (t.beat.Reading? ==> AllTaken(s, steps, t.beat.values, t.change))
    && (t.beat.Sending? && t.sync == t.change ==> |t.beat.values| == BEAT_FIELDS && AllTaken(s, steps, t.beat.values, t.change))
    && (t.beat.Ready? && t.sync == t.change ==>
          t.copy.Some? && |t.copy.value| == BEAT_FIELDS && AllTaken(s, steps, t.copy.value, t.change))
    && (t.beat.Reading? ==> t.sync < t.change)
  }

  lemma TakenNow(s: State, steps: seq<Step>, j: nat)
    requires j < BEAT_FIELDS
    ensures TakenAt(s, steps, j, ValueOf(Run(s, steps).stats, FieldAt(j)), Run(s, steps).change)
  {
    assert steps[..|steps|] == steps;
    assert Taken(s, steps, |steps|, j, ValueOf(Run(s, steps).stats, FieldAt(j)), Run(s, steps).change);
  }

  lemma {:induction false} GoodRunTracked(s0: State, steps: seq<Step>)
    requires s0.beat == Ready && s0.sync < s0.change && GoodRun(s0, steps)
    ensures Tracked(s0, steps)
  {
    if steps != [] {
      GoodRunFront(s0, steps);
      GoodRunTracked(s0, steps[..|steps| - 1]);
      TrackedStep(s0, steps);
    }
  }

  lemma GoodRunFront(s: State, steps: seq<Step>)
    requires steps != [] && GoodRun(s, steps)
    ensures GoodRun(s, steps[..|steps| - 1]) && GoodStep(Run(s, steps[..|steps| - 1]), steps[|steps| - 1])
  {
    hide Run, GoodStep;
    var front := steps[..|steps| - 1];
    assert forall i | 0 <= i < |front| :: front[..i] == steps[..i] && front[i] == steps[i];
  }

  lemma TrackedStep(s: State, steps: seq<Step>)
    requires steps != [] && Tracked(s, steps[..|steps| - 1])
    requires GoodStep(Run(s, steps[..|steps| - 1]), steps[|steps| - 1])
    ensures Tracked(s, steps)
  {
    var before, step := Run(s, steps[..|steps| - 1]), steps[|steps| - 1];
    var after := Run(s, steps);
    assert after == Next(before, step);
    hide Run, AllTaken;
    if before.beat.Reading? && before.change == after.change {
      TakenStays(s, steps, before.beat.values, before.change);
      if step == ReadField && after.beat != before.beat {
        ReadTaken(s, steps, before.beat.values);
      }
    } else if after.beat == Reading([]) {
      NothingTaken(s, steps, after.change);
    } else if before.beat.Sending? && before.sync == before.change {
      TakenStays(s, steps, before.beat.values, before.change);
    } else if before.beat.Ready? && before.sync == before.change {
      TakenStays(s, steps, before.copy.value, before.change);
    }
  }

  lemma NothingTaken(s: State, steps: seq<Step>, change: int)
    ensures AllTaken(s, steps, [], change)
  {
  }

  lemma ReadTaken(s: State, steps: seq<Step>, values: seq<int>)
    requires |values| < BEAT_FIELDS && AllTaken(s, steps, values, Run(s, steps).change)
    ensures AllTaken(s, steps, values + [ValueOf(Run(s, steps).stats, FieldAt(|values|))], Run(s, steps).change)
  {
    TakenNow(s, steps, |values|);
    hide *;
    OneMoreTaken(s, steps, values, ValueOf(Run(s, steps).stats, FieldAt(|values|)), Run(s, steps).change);
  }

  lemma OneMoreTaken(s: State, steps: seq<Step>, values: seq<int>, value: int, change: int)
    requires |values| < BEAT_FIELDS && AllTaken(s, steps, values, change) && TakenAt(s, steps, |values|, value, change)
    ensures AllTaken(s, steps, values + [value], change)
  {
    hide TakenAt;
  }

  /** Requests of a kind begun in a run. */
  function Begun(s: State, steps: seq<Step>, kind: Kind): nat {
    if steps == [] then 0
    else
      var before, step := Run(s, steps[..|steps| - 1]), steps[|steps| - 1];
      Begun(s, steps[..|steps| - 1], kind)
      + if step.Receive? && step.cmd == Client(kind) && step.k < |before.workers| && before.workers[step.k] == Idle then 1 else 0
  }

  /** A total grows by exactly the requests of its kind begun. */
  lemma {:induction false} TotalsGrow(s: State, steps: seq<Step>, kind: Kind)
    ensures Run(s, steps).stats.total.Get(kind) == s.stats.total.Get(kind) + Begun(s, steps, kind)
  {
    if steps != [] {
      TotalsGrow(s, steps[..|steps| - 1], kind);
    }
  }

  /** Past the success counter, but not past the change counter. */
  function Midway(kind: Kind): Pc -> bool { (pc: Pc) => pc == Counted(Client(kind)) || pc == Stamped(Client(kind)) }

  function IsStamped(): Pc -> bool { (pc: Pc) => pc.Stamped? }

  /** How far the success counters and times of s can be ahead of older ones, if no command has
      been completed since: only by what workers are in the middle of. */
  ghost predicate Ahead(older: Stats, s: State, kind: Kind) {
    && 0 <= s.stats.success.Get(kind) - older.success.Get(kind) <= Count(s.workers, Midway(kind))
    && (Count(s.workers, IsStamped()) == 0 ==>
          s.stats.lastSourceUpdate == older.lastSourceUpdate && s.stats.lastSyncUpdate == older.lastSyncUpdate)
  }

  lemma StepAhead(older: Stats, s: State, step: Step, kind: Kind)
    requires Ahead(older, s, kind) && Next(s, step).change == s.change
    ensures Ahead(older, Next(s, step), kind)
  {
    CountStep(s, step, Midway(kind));
    CountStep(s, step, IsStamped());
    hide Count;
  }

  lemma {:induction false} QuietRun(s: State, steps: seq<Step>, kind: Kind)
    ensures Run(s, steps).change >= s.change
    ensures Run(s, steps).change == s.change ==> Ahead(s.stats, Run(s, steps), kind)
  {
    if steps != [] {
      var front, step := steps[..|steps| - 1], steps[|steps| - 1];
      QuietRun(s, front, kind);
      var before := Run(s, front);
      assert Next(before, step).change >= before.change;
      if Next(before, step).change == s.change {
        StepAhead(s.stats, before, step, kind);
      }
    }
  }

  lemma {:induction false} RunSplit(s: State, a: seq<Step>, b: seq<Step>)
    ensures Run(s, a + b) == Run(Run(s, a), b)
  {
    if b == [] {
      assert a + b == a;
    } else {
      var front := b[..|b| - 1];
      RunSplit(s, a, front);
      assert (a + b)[..|a + b| - 1] == a + front;
    }
  }

  lemma {:induction false} SyncFollows(stats: Stats, steps: seq<Step>)
    ensures var s := Run(Start(stats), steps); s.sync <= s.change
  {
    if steps != [] {
      SyncFollows(stats, steps[..|steps| - 1]);
    }
  }

  /** How a value read earlier can differ from the present one: a total by exactly the requests begun
      since, a success counter by no more than the workers in the middle of completing, a time only
      while a worker is. */
  ghost predicate Behind(older: State, more: seq<Step>, f: Field) {
    var value, s := ValueOf(older.stats, f), Run(older, more);
    match f
    case Total(kind) => ValueOf(s.stats, f) == value + Begun(older, more, kind)
    case Success(kind) => 0 <= ValueOf(s.stats, f) - value <= Count(s.workers, Midway(kind))
    case _ => Count(s.workers, IsStamped()) == 0 ==> ValueOf(s.stats, f) == value
  }

  lemma QuietIsBehind(older: State, more: seq<Step>, f: Field)
    requires Run(older, more).change == older.change
    ensures Behind(older, more, f)
  {
    hide Run, Count, Begun;
    var kind := if f.Total? || f.Success? then f.kind else Upload;
    TotalsGrow(older, more, kind);
    QuietRun(older, more, kind);
  }

  /** Whatever happened before, take any moment at which the counts differ and no beat is under way,
      such as the start, and any interleaving from there in which beats are delivered and no command
      completes while one is being read.  Whenever the counts then agree and no beat is under way,
      each of the twelve values the tracker has was true at some moment since the counter last moved,
      a moment of its own, and is behind only by what happened since: a total by exactly the requests
      begun, a success counter and a time by what workers are in the middle of. */
  lemma HeartbeatCoherence(stats: Stats, before: seq<Step>, steps: seq<Step>, j: nat) returns (i: nat)
    requires j < BEAT_FIELDS
    requires var s0 := Run(Start(stats), before);
             && s0.beat == Ready && s0.sync != s0.change && GoodRun(s0, steps)
             && Run(s0, steps).beat == Ready && Run(s0, steps).sync == Run(s0, steps).change
    ensures var s0 := Run(Start(stats), before);
            var s := Run(s0, steps);
            && s.copy.Some? && |s.copy.value| == BEAT_FIELDS
            && Taken(s0, steps, i, j, s.copy.value[j], s.change)
            && Run(Run(s0, steps[..i]), steps[i..]) == s
            && Behind(Run(s0, steps[..i]), steps[i..], FieldAt(j))
  {
    SyncFollows(stats, before);
    var s0 := Run(Start(stats), before);
    GoodRunTracked(s0, steps);
    hide Run, Count, Begun, Behind;
    var s := Run(s0, steps);
    assert TakenAt(s0, steps, j, s.copy.value[j], s.change);
    i :| Taken(s0, steps, i, j, s.copy.value[j], s.change);
    assert steps == steps[..i] + steps[i..];
    RunSplit(s0, steps[..i], steps[i..]);
    QuietIsBehind(Run(s0, steps[..i]), steps[i..], FieldAt(j));
  }

  // ------------------------------------------------------------ exactly how far behind

  /** Workers that a run takes past their success counter, for requests of a kind. */
  function CountedIn(s: State, steps: seq<Step>, kind: Kind): nat {
    if steps == [] then 0
    else
      CountedIn(s, steps[..|steps| - 1], kind) + if Passes(Run(s, steps[..|steps| - 1]), steps[|steps| - 1], kind) then 1 else 0
  }

  predicate Passes(s: State, step: Step, kind: Kind) {
    step.CountSuccess? && step.k < |s.workers| && s.workers[step.k] == Handled(Client(kind))
  }

  /** Requests of a kind that a run completes: their workers pass the change counter. */
  function CompletedIn(s: State, steps: seq<Step>, kind: Kind): nat {
    if steps == [] then 0
    else
      CompletedIn(s, steps[..|steps| - 1], kind)
      + if Completes(Run(s, steps[..|steps| - 1]), steps[|steps| - 1], kind) then 1 else 0
  }

  predicate Completes(s: State, step: Step, kind: Kind) {
    step.Bump? && step.k < |s.workers| && s.workers[step.k] == Stamped(Client(kind))
  }

  lemma StepBalances(s: State, step: Step, kind: Kind)
    ensures var t := Next(s, step);
            && t.stats.success.Get(kind) == s.stats.success.Get(kind) + (if Passes(s, step, kind) then 1 else 0)
            && Count(t.workers, Midway(kind)) + (if Completes(s, step, kind) then 1 else 0)
               == Count(s.workers, Midway(kind)) + if Passes(s, step, kind) then 1 else 0
  {
    CountStep(s, step, Midway(kind));
    hide Count;
  }

  /** A success counter grows by the workers that pass it, and those are midway until they complete. */
  lemma {:induction false} SuccessesBalance(s: State, steps: seq<Step>, kind: Kind)
    ensures var t := Run(s, steps);
            && t.stats.success.Get(kind) == s.stats.success.Get(kind) + CountedIn(s, steps, kind)
            && Count(t.workers, Midway(kind)) + CompletedIn(s, steps, kind)
               == Count(s.workers, Midway(kind)) + CountedIn(s, steps, kind)
  {
    if steps != [] {
      var front, step := steps[..|steps| - 1], steps[|steps| - 1];
      SuccessesBalance(s, front, kind);
      StepBalances(Run(s, front), step, kind);
      hide Count, Passes, Completes, Next;
    }
  }

  /** A success counter read earlier is behind by no more than the workers in the middle of completing
      if and only if since then no more requests of its kind were completed than were midway then. */
  lemma BehindExactly(older: State, more: seq<Step>, kind: Kind)
    ensures Behind(older, more, Success(kind)) <==> CompletedIn(older, more, kind) <= Count(older.workers, Midway(kind))
  {
    SuccessesBalance(older, more, kind);
    hide Run, Count, CountedIn, CompletedIn;
  }

  /** The last time a run has stamped, for the source or for replication. */
  function LastStamp(s: State, steps: seq<Step>, f: Field): Option<int> {
    if steps == [] then None
    else
      var before, step := Run(s, steps[..|steps| - 1]), steps[|steps| - 1];
      if Stamps(before, step, f) then Some(step.now) else LastStamp(s, steps[..|steps| - 1], f)
  }

  predicate Stamps(s: State, step: Step, f: Field)
    ensures Stamps(s, step, f) ==> step.Stamp?
  {
    && step.Stamp? && step.k < |s.workers| && s.workers[step.k].Counted?
    && match f
       case SourceTime => s.workers[step.k].cmd in {Client(Upload), Client(Delete), Client(SetMeta)}
       case SyncTime => s.workers[step.k].cmd.Server?
       case _ => false
  }

  lemma {:induction false} TimesFollow(s: State, steps: seq<Step>, f: Field)
    requires f == SourceTime || f == SyncTime
    ensures var last := LastStamp(s, steps, f);
            ValueOf(Run(s, steps).stats, f) == if last.Some? then last.value else ValueOf(s.stats, f)
  {
    if steps != [] {
      TimesFollow(s, steps[..|steps| - 1], f);
    }
  }

  /** Value j of a beat was this after the first i steps. */
  predicate Read(s: State, steps: seq<Step>, i: nat, j: nat, value: int) {
    i <= |steps| && j < BEAT_FIELDS && ValueOf(Run(s, steps[..i]).stats, FieldAt(j)) == value
  }

  ghost predicate ReadAt(s: State, steps: seq<Step>, j: nat, value: int) {
    exists i: nat :: Read(s, steps, i, j, value)
  }

  ghost predicate AllRead(s: State, steps: seq<Step>, values: seq<int>) {
    |values| <= BEAT_FIELDS && forall j | 0 <= j < |values| :: ReadAt(s, steps, j, values[j])
  }

  lemma ReadStays(s: State, steps: seq<Step>, values: seq<int>)
    requires steps != [] && AllRead(s, steps[..|steps| - 1], values)
    ensures AllRead(s, steps, values)
  {
    hide Run;
    forall j | 0 <= j < |values| ensures ReadAt(s, steps, j, values[j]) {
      var i: nat :| Read(s, steps[..|steps| - 1], i, j, values[j]);
      assert steps[..|steps| - 1][..i] == steps[..i];
      assert Read(s, steps, i, j, values[j]);
    }
  }

  lemma OneMoreRead(s: State, steps: seq<Step>, values: seq<int>)
    requires |values| < BEAT_FIELDS && AllRead(s, steps, values)
    ensures AllRead(s, steps, values + [ValueOf(Run(s, steps).stats, FieldAt(|values|))])
  {
    assert steps[..|steps|] == steps;
    hide Run, ValueOf, FieldAt;
    var value := ValueOf(Run(s, steps).stats, FieldAt(|values|));
    assert Read(s, steps, |steps|, |values|, value);
    hide Read;
  }

  /** What is being read, is on its way or has arrived was read in this run. */
  ghost predicate Traced(s: State, steps: seq<Step>) {
    var t := Run(s, steps);
    && (t.beat.Reading? ==> AllRead(s, steps, t.beat.values))
    && (t.beat.Sending? ==> |t.beat.values| == BEAT_FIELDS && AllRead(s, steps, t.beat.values))
    && (t.copy.Some? ==> |t.copy.value| == BEAT_FIELDS && AllRead(s, steps, t.copy.value))
  }

  lemma {:induction false} RunTraced(stats: Stats, steps: seq<Step>)
    ensures Traced(Start(stats), steps)
  {
    if steps != [] {
      RunTraced(stats, steps[..|steps| - 1]);
      TracedStep(Start(stats), steps);
    }
  }

  lemma TracedStep(s: State, steps: seq<Step>)
    requires steps != [] && Traced(s, steps[..|steps| - 1])
    ensures Traced(s, steps)
  {
    var before, step := Run(s, steps[..|steps| - 1]), steps[|steps| - 1];
    var after := Run(s, steps);
    assert after == Next(before, step);
    assert AllRead(s, steps, []);
    hide Run, AllRead;
    if before.beat.Reading? || before.beat.Sending? {
      ReadStays(s, steps, before.beat.values);
    }
    if before.copy.Some? {
      ReadStays(s, steps, before.copy.value);
    }
    if step == ReadField && after.beat != before.beat {
      OneMoreRead(s, steps, before.beat.values);
    }
  }

  /** How exactly a value read earlier relates to the present one. */
  ghost predicate ExactlyBehind(older: State, more: seq<Step>, f: Field) {
    var value, s := ValueOf(older.stats, f), Run(older, more);
    match f
    case Total(kind) => ValueOf(s.stats, f) == value + Begun(older, more, kind)
    case Success(kind) =>
      && ValueOf(s.stats, f) == value + CountedIn(older, more, kind)
      && (Behind(older, more, f) <==> CompletedIn(older, more, kind) <= Count(older.workers, Midway(kind)))
    case _ =>
      var last := LastStamp(older, more, f);
      ValueOf(s.stats, f) == if last.Some? then last.value else value
  }

  lemma AlwaysExactlyBehind(older: State, more: seq<Step>, f: Field)
    ensures ExactlyBehind(older, more, f)
  {
    match f
    case Total(kind) => TotalsGrow(older, more, kind);
    case Success(kind) =>
      SuccessesBalance(older, more, kind);
      BehindExactly(older, more, kind);
    case _ => TimesFollow(older, more, f);
  }

  /** Every run, beats lost or overtaken or neither.  Each of the twelve values the tracker has was
      read at a moment of its own, and from that moment it is behind by exactly this: a total by the
      requests begun, a success counter by the workers that passed it, a time by what was stamped.
      And a success counter is behind by no more than the workers in the middle of completing if and
      only if no more requests were completed since than were midway at that moment. */
  lemma CopyExactly(stats: Stats, steps: seq<Step>, j: nat) returns (i: nat)
    requires j < BEAT_FIELDS && Run(Start(stats), steps).copy.Some?
    ensures var s := Run(Start(stats), steps);
            && |s.copy.value| == BEAT_FIELDS
            && Read(Start(stats), steps, i, j, s.copy.value[j])
            && Run(Run(Start(stats), steps[..i]), steps[i..]) == s
            && ExactlyBehind(Run(Start(stats), steps[..i]), steps[i..], FieldAt(j))
  {
    RunTraced(stats, steps);
    hide Run, ExactlyBehind;
    var s := Run(Start(stats), steps);
    assert ReadAt(Start(stats), steps, j, s.copy.value[j]);
    i :| Read(Start(stats), steps, i, j, s.copy.value[j]);
    assert steps == steps[..i] + steps[i..];
    RunSplit(Start(stats), steps[..i], steps[i..]);
    AlwaysExactlyBehind(Run(Start(stats), steps[..i]), steps[i..], FieldAt(j));
  }

  /** A beat with values was delivered. */
  predicate Delivers(s: State, step: Step) { s.beat.Sending? && step == Send(true) }

  ghost predicate DeliveredIn(s: State, steps: seq<Step>) {
    exists k | 0 <= k < |steps| :: Delivers(Run(s, steps[..k]), steps[k])
  }

  /** The tracker has nothing exactly while no such beat was delivered. */
  lemma {:induction false} NothingSentExactly(stats: Stats, steps: seq<Step>)
    ensures Run(Start(stats), steps).copy.Some? <==> DeliveredIn(Start(stats), steps)
  {
    if steps != [] {
      var n := |steps| - 1;
      var front := steps[..n];
      NothingSentExactly(stats, front);
      assert Run(Start(stats), steps) == Next(Run(Start(stats), front), steps[n]);
      assert Run(Start(stats), steps).copy.Some?
        <==> Run(Start(stats), front).copy.Some? || Delivers(Run(Start(stats), front), steps[n]);
      hide Run, Delivers;
      DeliveredSnoc(Start(stats), steps);
    }
  }

  lemma DeliveredSnoc(s: State, steps: seq<Step>)
    requires steps != []
    ensures var n := |steps| - 1;
            DeliveredIn(s, steps) <==> DeliveredIn(s, steps[..n]) || Delivers(Run(s, steps[..n]), steps[n])
  {
    hide Run, Delivers;
    var front := steps[..|steps| - 1];
    assert forall k | 0 <= k < |front| :: front[..k] == steps[..k] && front[k] == steps[k];
    if DeliveredIn(s, front) {
      var k :| 0 <= k < |front| && Delivers(Run(s, front[..k]), front[k]);
      assert Delivers(Run(s, steps[..k]), steps[k]);
    }
  }

  /** A step that changes the statistics. */
  predicate ChangesStats(step: Step) { step.Receive? || step.CountSuccess? || step.Stamp? }

  /** The values read or on their way are those of one moment, as far as they go. */
  predicate OfOneMoment(stats: Stats, beat: Beat) {
    match beat
    case Ready => true
    case Reading(values) => |values| <= BEAT_FIELDS && values == AllValues(stats)[..|values|]
    case Sending(values) => values == AllValues(stats)
  }

  /** A beat during whose reads nothing changes the statistics is the statistics of one moment. */
  lemma {:induction false} QuietBeat(s: State, steps: seq<Step>)
    requires s.beat == Reading([]) && forall step | step in steps :: !ChangesStats(step)
    ensures Run(s, steps).stats == s.stats && OfOneMoment(s.stats, Run(s, steps).beat)
  {
    if steps != [] {
      var front, step := steps[..|steps| - 1], steps[|steps| - 1];
      QuietBeat(s, front);
      assert step in steps && !ChangesStats(step);
      QuietStep(s.stats, Run(s, front), step);
    }
  }

  lemma QuietStep(stats: Stats, s: State, step: Step)
    requires s.stats == stats && OfOneMoment(stats, s.beat) && !ChangesStats(step)
    ensures Next(s, step).stats == stats && OfOneMoment(stats, Next(s, step).beat)
  {
    hide ValueOf, FieldAt;
    if step == ReadField && s.beat.Reading? && |s.beat.values| < BEAT_FIELDS {
      var n := |s.beat.values|;
      assert AllValues(stats)[..n + 1] == AllValues(stats)[..n] + [AllValues(stats)[n]];
    }
    assert AllValues(stats)[..BEAT_FIELDS] == AllValues(stats);
  }

  // ------------------------------------------------------------ runs without the conditions

  lemma Extend(s: State, steps: seq<Step>, end: State, step: Step) returns (more: seq<Step>, t: State)
    requires end == Run(s, steps)
    ensures more == steps + [step] && t == Next(end, step) && t == Run(s, more)
  {
    more, t := steps + [step], Next(end, step);
    assert more[..|more| - 1] == steps;
  }

  function AllValues(stats: Stats): (values: seq<int>)
    ensures |values| == BEAT_FIELDS && forall j | 0 <= j < BEAT_FIELDS :: values[j] == ValueOf(stats, FieldAt(j))
  {
    seq(BEAT_FIELDS, j requires 0 <= j < BEAT_FIELDS => ValueOf(stats, FieldAt(j)))
  }

  /** The rest of the values read in a row. */
  lemma {:induction false} ReadOn(s: State, steps: seq<Step>, end: State, from: nat) returns (more: seq<Step>, t: State)
    requires end == Run(s, steps) && end.beat.Reading? && |end.beat.values| == from <= BEAT_FIELDS
    ensures t == Run(s, more) && |steps| <= |more| && more[..|steps|] == steps
    ensures forall step | step in more :: step in steps || step == ReadField
    ensures t == end.(beat := Reading(end.beat.values + AllValues(end.stats)[from..]))
    decreases BEAT_FIELDS - from
  {
    var all := AllValues(end.stats);
    hide Run;
    if from == BEAT_FIELDS {
      assert all[from..] == [] && end.beat.values + [] == end.beat.values;
      more, t := steps, end;
    } else {
      OneMoreValue(end.beat.values, all, from);
      more, t := Extend(s, steps, end, ReadField);
      more, t := ReadOn(s, more, t, from + 1);
    }
  }

  lemma OneMoreValue(values: seq<int>, all: seq<int>, from: nat)
    requires from < |all|
    ensures values + [all[from]] + all[from + 1..] == values + all[from..]
  {
  }

  /** Both conditions matter.  A beat that is lost is not sent again until the counter moves. */
  lemma LostBeat(stats: Stats) returns (steps: seq<Step>, s: State)
    ensures s == Run(Start(stats), steps)
    ensures s.sync == s.change && s.beat == Ready && s.workers == [] && s.copy == None
  {
    steps, s := [], Start(stats);
    assert s == Run(Start(stats), steps);
    hide Run;
    steps, s := Extend(Start(stats), steps, s, BeatStart);
    steps, s := ReadOn(Start(stats), steps, s, 0);
    steps, s := Extend(Start(stats), steps, s, TakeCount);
    steps, s := Extend(Start(stats), steps, s, Send(false));
  }

  /** And a command that completes while a beat is put together is missing from the copy, though
      every beat is delivered, no worker is busy and the counts agree. */
  lemma OvertakenBeat(stats: Stats, now: int) returns (steps: seq<Step>, s: State)
    ensures s == Run(Start(stats), steps) && Send(false) !in steps
    ensures s.sync == s.change && s.beat == Ready && s.workers == [Idle]
    ensures s.copy == Some(AllValues(stats.(total := stats.total.Plus(Upload))))
    ensures s.stats.success.Get(Upload) == stats.success.Get(Upload) + 1
  {
    steps, s := UploadHandled(stats);
    hide Run;
    steps, s := Extend(Start(stats), steps, s, BeatStart);
    steps, s := ReadOn(Start(stats), steps, s, 0);
    assert s.beat.values == AllValues(s.stats);
    steps, s := Extend(Start(stats), steps, s, CountSuccess(0));
    steps, s := Extend(Start(stats), steps, s, Stamp(0, now));
    steps, s := Extend(Start(stats), steps, s, Bump(0));
    steps, s := Extend(Start(stats), steps, s, TakeCount);
    steps, s := Extend(Start(stats), steps, s, Send(true));
  }

  lemma UploadHandled(stats: Stats) returns (steps: seq<Step>, s: State)
    ensures s == Run(Start(stats), steps) && Send(false) !in steps
    ensures s == State(stats.(total := stats.total.Plus(Upload)), 1, 0, [Handled(Client(Upload))], 0, Ready, None)
  {
    steps, s := [], Start(stats);
    assert s == Run(Start(stats), steps);
    hide Run;
    steps, s := Extend(Start(stats), steps, s, NewWorker);
    steps, s := Extend(Start(stats), steps, s, Receive(0, Client(Upload)));
    steps, s := Extend(Start(stats), steps, s, Succeed(0));
  }

  lemma TotalsMonotone(s: State, steps: seq<Step>, i: nat, kind: Kind)
    requires i <= |steps|
    ensures Run(s, steps[..i]).stats.total.Get(kind) <= Run(s, steps).stats.total.Get(kind)
  {
    assert steps == steps[..i] + steps[i..];
    RunSplit(s, steps[..i], steps[i..]);
    TotalsGrow(Run(s, steps[..i]), steps[i..], kind);
  }

  /** The moments are really different ones: in this run nothing completes and the beat is delivered,
      yet at no moment were both of these totals what the tracker has. */
  lemma TornBeat(stats: Stats) returns (steps: seq<Step>, s: State)
    ensures s == Run(Start(stats), steps) && s.change == 1 && Send(false) !in steps
    ensures s.sync == s.change && s.beat == Ready && s.copy.Some? && |s.copy.value| == BEAT_FIELDS
    ensures forall i | 0 <= i <= |steps| ::
              var total := Run(Start(stats), steps[..i]).stats.total;
              total.Get(Upload) != s.copy.value[0] || total.Get(Download) != s.copy.value[2]
  {
    var first, torn := UploadReceivedAfterRead(stats);
    hide Run;
    steps, s := Extend(Start(stats), first, torn, Receive(1, Client(Download)));
    steps, s := ReadOn(Start(stats), steps, s, 1);
    assert s.beat.values[0] == stats.total.Get(Upload);
    assert s.beat.values[2] == AllValues(s.stats)[1..][1] == stats.total.Get(Download) + 1;
    assert steps[..|first|] == first;
    steps, s := Extend(Start(stats), steps, s, TakeCount);
    steps, s := Extend(Start(stats), steps, s, Send(true));
    forall i | 0 <= i <= |steps|
      ensures Run(Start(stats), steps[..i]).stats.total.Get(Upload) > stats.total.Get(Upload)
              || Run(Start(stats), steps[..i]).stats.total.Get(Download) <= stats.total.Get(Download)
    {
      if i <= |first| {
        assert steps[..i] == first[..i];
        TotalsMonotone(Start(stats), first, i, Download);
      } else {
        assert steps[..i][..|first|] == first;
        TotalsMonotone(Start(stats), steps[..i], |first|, Upload);
      }
    }
  }

  lemma UploadReceivedAfterRead(stats: Stats) returns (steps: seq<Step>, s: State)
    ensures s == Run(Start(stats), steps) && Send(false) !in steps
    ensures s == State(stats.(total := stats.total.Plus(Upload)), 1, 0, [Handling(Client(Upload)), Idle], 0,
                       Reading([stats.total.Get(Upload)]), None)
  {
    steps, s := [], Start(stats);
    assert s == Run(Start(stats), steps);
    hide Run;
    steps, s := Extend(Start(stats), steps, s, NewWorker);
    steps, s := Extend(Start(stats), steps, s, NewWorker);
    steps, s := Extend(Start(stats), steps, s, BeatStart);
    steps, s := Extend(Start(stats), steps, s, ReadField);
    assert s.beat.values == [stats.total.Get(Upload)];
    steps, s := Extend(Start(stats), steps, s, Receive(0, Client(Upload)));
  }
}
