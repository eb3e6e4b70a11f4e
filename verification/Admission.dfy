/** Admission of connections: the accept loop of main.c and the workers it creates share a count
    of workers under a lock.  Every interleaving of their steps is a run of this machine. */
module Admission {

  /** Where the main thread is.  Locked, Created and Unlocking hold the lock; in Created the new
      worker runs already but is not counted yet. */
  datatype MainPc = Looping | Accepting | Wanting | Locked | Created | Unlocking | Draining | Done

  /** Where a worker is: serving a request, waiting for the lock, holding it, holding it with the
      count decremented, and past the unlock. */
  datatype WorkerPc = Serving | Waiting | Holding | Decremented | Exited

  datatype Lock = Free | ByMain | ByWorker(k: nat)

  /** Of the reporter threads, so many are at their start barrier, past it, and ended; only those
      that end count themselves into g_tracker_reporter_count, for which the barrier and the main
      thread look. */
  datatype Reporters = Reporters(starting: nat, reporting: nat, ended: nat)

  /** servers is g_tracker_server_count, which starting the reporters has doubled. */
  datatype State = State(count: int, max: int, continueFlag: bool, lock: Lock, main: MainPc, workers: seq<WorkerPc>,
                         reporters: Reporters, servers: nat)

  datatype Step =
    | Stop
    | CheckFlag
    | AcceptTimesOut
    | AcceptFails
    | Accept
    | MainLocks
    | Reject
    | CreateFails
    | Create
    | CountUp
    | MainUnlocks
    | Poll
    | ReporterStarts
    | Report
    | ReporterEnds
    | TakeRequest(k: nat)
    | WorkerEnds(k: nat)
    | WorkerLocks(k: nat)
    | CountDown(k: nat)
    | WorkerUnlocks(k: nat)

  predicate At(s: State, k: nat, pc: WorkerPc) { k < |s.workers| && s.workers[k] == pc }

  /** Poll is the end of the wait: it reads the count and then the number of ended reporters, but
      once the main thread waits the count cannot rise again, so both are zero at the second read.
      The third count it waits for, of sync threads, is never changed.  TakeRequest is the check of
      the flag between two requests. */
  predicate Enabled(s: State, step: Step) {
    match step
    case Stop => true
    case CheckFlag => s.main == Looping
    case AcceptTimesOut => s.main == Accepting
    case AcceptFails => s.main == Accepting
    case Accept => s.main == Accepting
    case MainLocks => s.main == Wanting && s.lock == Free
    case Reject => s.main == Locked && s.count >= s.max
    case CreateFails => s.main == Locked && s.count < s.max
    case Create => s.main == Locked && s.count < s.max
    case CountUp => s.main == Created
    case MainUnlocks => s.main == Unlocking
    case Poll => s.main == Draining && s.count == 0 && s.reporters.ended == 0
    case ReporterStarts => s.reporters.starting > 0 && !(s.continueFlag && s.reporters.ended < s.servers)
    case Report => s.reporters.reporting > 0 && s.continueFlag
    case ReporterEnds => s.reporters.reporting > 0 && !s.continueFlag
    case TakeRequest(k) => At(s, k, Serving) && s.continueFlag
    case WorkerEnds(k) => At(s, k, Serving)
    case WorkerLocks(k) => At(s, k, Waiting) && s.lock == Free
    case CountDown(k) => At(s, k, Holding)
    case WorkerUnlocks(k) => At(s, k, Decremented)
  }

  function Next(s: State, step: Step): State
    requires Enabled(s, step)
  {
    match step
    case Stop => s.(continueFlag := false)
    case CheckFlag => s.(main := if s.continueFlag then Accepting else Draining)
    case AcceptTimesOut => s.(main := Looping)
    case AcceptFails => s.(main := Draining)
    case Accept => s.(main := Wanting)
    case MainLocks => s.(main := Locked, lock := ByMain)
    case Reject => s.(main := Unlocking)
    case CreateFails => s.(main := Unlocking)
    case Create => s.(main := Created, workers := s.workers + [Serving])
    case CountUp => s.(main := Unlocking, count := s.count + 1)
    case MainUnlocks => s.(main := Looping, lock := Free)
    case Poll => s.(main := Done)
    case ReporterStarts => s.(reporters := s.reporters.(starting := s.reporters.starting - 1, reporting := s.reporters.reporting + 1))
    case Report => s
    case ReporterEnds => s.(reporters := s.reporters.(reporting := s.reporters.reporting - 1, ended := s.reporters.ended + 1))
    case TakeRequest(k) => s
    case WorkerEnds(k) => s.(workers := s.workers[k := Waiting])
    case WorkerLocks(k) => s.(workers := s.workers[k := Holding], lock := ByWorker(k))
    case CountDown(k) => s.(workers := s.workers[k := Decremented], count := s.count - 1)
    case WorkerUnlocks(k) => s.(workers := s.workers[k := Exited], lock := Free)
  }

  /** One reporter for each tracker. */
  function Start(max: int, trackers: nat): State {
    State(0, max, true, Free, Looping, [], Reporters(trackers, 0, 0), 2 * trackers)
  }

  /** s' is reached from s by these steps. */
  predicate Reaches(s: State, steps: seq<Step>, s': State)
    decreases |steps|
  {
    if steps == [] then s == s'
    else Enabled(s, steps[0]) && Reaches(Next(s, steps[0]), steps[1..], s')
  }

  /** The worker has not decremented the count yet. */
  predicate IsUncounted(pc: WorkerPc) { pc == Serving || pc == Waiting || pc == Holding }

  function Ones(workers: seq<WorkerPc>): nat {
    if workers == [] then 0 else (if IsUncounted(workers[0]) then 1 else 0) + Ones(workers[1..])
  }

  /** Workers that have not decremented the count yet. */
  function Uncounted(s: State): nat { Ones(s.workers) }

  lemma {:induction false} OnesUpdate(workers: seq<WorkerPc>, k: nat, pc: WorkerPc)
    requires k < |workers|
    ensures Ones(workers[k := pc]) ==
              Ones(workers) - (if IsUncounted(workers[k]) then 1 else 0) + if IsUncounted(pc) then 1 else 0
  {
    if k > 0 {
      assert workers[k := pc][1..] == workers[1..][k - 1 := pc];
      OnesUpdate(workers[1..], k - 1, pc);
    }
  }

  lemma {:induction false} OnesAppend(workers: seq<WorkerPc>, pc: WorkerPc)
    ensures Ones(workers + [pc]) == Ones(workers) + if IsUncounted(pc) then 1 else 0
  {
    if workers != [] {
      assert (workers + [pc])[1..] == workers[1..] + [pc];
      OnesAppend(workers[1..], pc);
    }
  }

  lemma {:induction false} OnesMeaning(workers: seq<WorkerPc>)
    ensures Ones(workers) == 0 <==> forall k | 0 <= k < |workers| :: !IsUncounted(workers[k])
  {
    if workers != [] {
      OnesMeaning(workers[1..]);
      assert forall k | 1 <= k < |workers| :: workers[k] == workers[1..][k - 1];
    }
  }

  ghost predicate Inv(s: State) {
    && 0 <= s.count <= s.max
    && (s.main == Created ==> s.count < s.max)
    && (s.lock == ByMain <==> s.main in {Locked, Created, Unlocking})
    && (forall k | 0 <= k < |s.workers| :: s.workers[k] in {Holding, Decremented} <==> s.lock == ByWorker(k))
    && (s.lock.ByWorker? ==> s.lock.k < |s.workers|)
    && Uncounted(s) == s.count + (if s.main == Created then 1 else 0)
    && (s.main == Done ==> s.count == 0)
    && (s.continueFlag ==> s.reporters.ended == 0 && s.reporters.reporting == 0)
    && (s.reporters.starting > 0 ==> s.servers > 0)
  }

  lemma StepKeepsInv(s: State, step: Step)
    requires Inv(s) && Enabled(s, step)
    ensures Inv(Next(s, step))
  {
    hide Ones;
    match step
    case Create => OnesAppend(s.workers, Serving);
    case WorkerEnds(k) => OnesUpdate(s.workers, k, Waiting);
    case WorkerLocks(k) => OnesUpdate(s.workers, k, Holding);
    case CountDown(k) => OnesUpdate(s.workers, k, Decremented);
    case WorkerUnlocks(k) => OnesUpdate(s.workers, k, Exited);
    case _ =>
  }

  lemma {:induction false} RunKeepsInv(s: State, steps: seq<Step>, s': State)
    requires Inv(s) && Reaches(s, steps, s')
    ensures Inv(s')
    decreases |steps|
  {
    if steps != [] {
      StepKeepsInv(s, steps[0]);
      RunKeepsInv(Next(s, steps[0]), steps[1..], s');
    }
  }

  lemma StartInv(max: nat, trackers: nat)
    ensures Inv(Start(max, trackers))
  {
  }

  /** In every interleaving: the count stays within the limit, and there are never more workers
      before their decrement than the limit; whenever the lock is free the count is exactly the
      number of those; a connection is turned away only when there are as many as allowed; and
      once the main thread has seen zero and left, none is left. */
  lemma AdmissionSafety(max: nat, trackers: nat, steps: seq<Step>, s: State)
    requires Reaches(Start(max, trackers), steps, s)
    ensures 0 <= s.count <= max && s.max == max && Uncounted(s) <= max
    ensures s.lock == Free ==> s.count == Uncounted(s)
    ensures Enabled(s, Reject) ==> Uncounted(s) == max
    ensures s.main == Done ==> forall k | 0 <= k < |s.workers| :: !IsUncounted(s.workers[k])
  {
    StartInv(max, trackers);
    RunKeepsInv(Start(max, trackers), steps, s);
    MaxStays(Start(max, trackers), steps, s);
    OnesMeaning(s.workers);
  }

  lemma {:induction false} MaxStays(s: State, steps: seq<Step>, s': State)
    requires Reaches(s, steps, s')
    ensures s'.max == s.max
    decreases |steps|
  {
    if steps != [] {
      MaxStays(Next(s, steps[0]), steps[1..], s');
    }
  }

  // ------------------------------------------------------------ shutdown

  /** Nothing can move any more: every worker is gone, and the main thread too, or it waits for a
      count of reporters that nothing brings back to zero. */
  predicate AtRest(s: State) {
    && (forall k | 0 <= k < |s.workers| :: s.workers[k] == Exited)
    && (s.main == Done || (s.main == Draining && s.reporters.ended > 0))
    && (s.continueFlag || s.reporters.starting + s.reporters.reporting == 0)
  }

  /** These states, and no others, have no step but the stop signal. */
  lemma NoDeadlock(s: State)
    requires Inv(s)
    ensures AtRest(s) <==> forall step | Enabled(s, step) :: step == Stop
  {
    if !AtRest(s) {
      var step := SomeStep(s);
      assert Enabled(s, step) && step != Stop;
    }
  }

  lemma SomeStep(s: State) returns (step: Step)
    requires Inv(s) && !AtRest(s)
    ensures Enabled(s, step) && step != Stop
  {
    if s.reporters.starting > 0 && !s.continueFlag {
      step := ReporterStarts;
    } else if s.reporters.reporting > 0 && !s.continueFlag {
      step := ReporterEnds;
    } else if s.lock != Free || s.main in {Looping, Accepting, Wanting} || (s.main == Draining && s.reporters.ended == 0) {
      step := StepOnward(s);
    } else {
      var k: nat :| k < |s.workers| && s.workers[k] != Exited;
      step := if s.workers[k] == Serving then WorkerEnds(k) else WorkerLocks(k);
    }
  }

  /** A step of the main thread or of a worker, except where the main thread has nothing to do or
      an ended reporter keeps it waiting. */
  lemma StepOnward(s: State) returns (step: Step)
    requires Inv(s)
    requires s.lock != Free || s.main in {Looping, Accepting, Wanting} || (s.main == Draining && s.reporters.ended == 0)
    ensures Enabled(s, step) && step != Stop && step != ReporterEnds && !step.TakeRequest?
  {
    match s.lock
    case ByMain =>
      step := if s.main == Locked then (if s.count >= s.max then Reject else Create)
              else if s.main == Created then CountUp else MainUnlocks;
    case ByWorker(k) =>
      step := if s.workers[k] == Holding then CountDown(k) else WorkerUnlocks(k);
    case Free =>
      if s.main == Looping {
        step := CheckFlag;
      } else if s.main == Accepting {
        step := Accept;
      } else if s.main == Wanting {
        step := MainLocks;
      } else if s.count == 0 {
        step := Poll;
      } else {
        OnesMeaning(s.workers);
        hide Ones;
        var k: nat :| k < |s.workers| && IsUncounted(s.workers[k]);
        step := if s.workers[k] == Serving then WorkerEnds(k) else WorkerLocks(k);
      }
  }

  /** The most steps a worker has left once it takes no more requests. */
  function Cost(pc: WorkerPc): nat {
    match pc
    case Serving => 4
    case Waiting => 3
    case Holding => 2
    case Decremented => 1
    case Exited => 0
  }

  function Costs(workers: seq<WorkerPc>): nat {
    if workers == [] then 0 else Cost(workers[0]) + Costs(workers[1..])
  }

  /** The most steps the main thread has left once the flag is false, with those of the worker it
      may still create. */
  function MainCost(pc: MainPc): nat {
    match pc
    case Accepting => 11
    case Wanting => 10
    case Locked => 9
    case Created => 4
    case Unlocking => 3
    case Looping => 2
    case Draining => 1
    case Done => 0
  }

  function Remaining(s: State): nat {
    Costs(s.workers) + MainCost(s.main) + 2 * s.reporters.starting + s.reporters.reporting
  }

  lemma {:induction false} CostsUpdate(workers: seq<WorkerPc>, k: nat, pc: WorkerPc)
    requires k < |workers|
    ensures Costs(workers[k := pc]) == Costs(workers) - Cost(workers[k]) + Cost(pc)
  {
    if k > 0 {
      assert workers[k := pc][1..] == workers[1..][k - 1 := pc];
      CostsUpdate(workers[1..], k - 1, pc);
    }
  }

  lemma {:induction false} CostsAppend(workers: seq<WorkerPc>, pc: WorkerPc)
    ensures Costs(workers + [pc]) == Costs(workers) + Cost(pc)
  {
    if workers != [] {
      assert (workers + [pc])[1..] == workers[1..] + [pc];
      CostsAppend(workers[1..], pc);
    } else {
      assert [pc][1..] == [];
    }
  }

  lemma StepUsesUp(s: State, step: Step)
    requires Enabled(s, step) && step != Stop && !s.continueFlag
    ensures !Next(s, step).continueFlag && Remaining(Next(s, step)) < Remaining(s)
  {
    hide Costs;
    match step
    case Create => CostsAppend(s.workers, Serving);
    case WorkerEnds(k) => CostsUpdate(s.workers, k, Waiting);
    case WorkerLocks(k) => CostsUpdate(s.workers, k, Holding);
    case CountDown(k) => CostsUpdate(s.workers, k, Decremented);
    case WorkerUnlocks(k) => CostsUpdate(s.workers, k, Exited);
    case _ =>
  }

  /** After the stop signal everything comes to rest: from any state whatever, no run is longer than
      the bound, and by NoDeadlock every run can be continued until it is at rest. */
  lemma {:induction false} DrainEnds(s: State, steps: seq<Step>, s': State)
    requires !s.continueFlag && Reaches(s, steps, s') && Stop !in steps
    ensures !s'.continueFlag && |steps| + Remaining(s') <= Remaining(s)
    decreases |steps|
  {
    if steps != [] {
      StepUsesUp(s, steps[0]);
      DrainEnds(Next(s, steps[0]), steps[1..], s');
    }
  }

  /** At rest is not always done. */
  lemma {:induction false} EndedReporterBlocks(s: State, steps: seq<Step>, s': State)
    requires s.reporters.ended > 0 && s.main != Done && Reaches(s, steps, s')
    ensures s'.main != Done
    decreases |steps|
  {
    if steps != [] {
      EndedReporterBlocks(Next(s, steps[0]), steps[1..], s');
    }
  }

  ghost predicate CanFinish(s: State) {
    exists steps, s' :: Reaches(s, steps, s') && s'.main == Done
  }

  lemma {:induction false} Finish(s: State) returns (steps: seq<Step>, s': State)
    requires Inv(s) && s.reporters.ended == 0 && !s.continueFlag
    ensures Reaches(s, steps, s') && s'.main == Done
    decreases Remaining(s)
  {
    if s.main == Done {
      return [], s;
    }
    var step := StepOnward(s);
    StepKeepsInv(s, step);
    StepUsesUp(s, step);
    var next := Next(s, step);
    assert next.reporters.ended == 0;
    var rest;
    rest, s' := Finish(next);
    steps := [step] + rest;
    assert steps[1..] == rest;
  }

  /** The main thread waits for g_tracker_reporter_count to be zero, but reporters increment it when
      they end and nothing decrements it.  So it can still leave the wait if and only if no reporter
      has ended. */
  lemma ShutdownPossible(s: State)
    requires Inv(s) && s.main != Done
    ensures CanFinish(s) <==> s.reporters.ended == 0
  {
    if s.reporters.ended == 0 {
      StepKeepsInv(s, Stop);
      var rest, s' := Finish(Next(s, Stop));
      var steps := [Stop] + rest;
      assert steps[1..] == rest;
      assert Reaches(s, steps, s');
    }
    forall steps, s' | Reaches(s, steps, s') && s.reporters.ended > 0 ensures s'.main != Done {
      EndedReporterBlocks(s, steps, s');
    }
  }

  lemma {:induction false} ReportersEnd(s: State, steps: seq<Step>, mid: State) returns (more: seq<Step>, s': State)
    requires Reaches(s, steps, mid) && !mid.continueFlag
    ensures Reaches(s, more, s') && s' == mid.(reporters := s'.reporters)
    ensures s'.reporters == Reporters(0, 0, mid.reporters.starting + mid.reporters.reporting + mid.reporters.ended)
    decreases 2 * mid.reporters.starting + mid.reporters.reporting
  {
    more, s' := steps, mid;
    if mid.reporters.starting > 0 {
      more, s' := Extend(s, steps, mid, ReporterStarts);
      more, s' := ReportersEnd(s, more, s');
    } else if mid.reporters.reporting > 0 {
      more, s' := Extend(s, steps, mid, ReporterEnds);
      more, s' := ReportersEnd(s, more, s');
    }
  }

  /** Stopping an idle daemon can already end in the wait: the reporters end first. */
  lemma WaitForever(max: nat, trackers: nat) returns (steps: seq<Step>, s: State)
    requires 0 < trackers
    ensures Reaches(Start(max, trackers), steps, s) && AtRest(s) && s.main == Draining
  {
    steps, s := [], Start(max, trackers);
    steps, s := Extend(Start(max, trackers), steps, s, Stop);
    steps, s := Extend(Start(max, trackers), steps, s, CheckFlag);
    steps, s := ReportersEnd(Start(max, trackers), steps, s);
  }

  /** A reporter waits at its barrier for the count that only ending reporters raise, and they do not
      end while the flag is true.  So in no interleaving does any reporter get to report. */
  lemma NoReporterReports(max: nat, trackers: nat, steps: seq<Step>, s: State)
    requires Reaches(Start(max, trackers), steps, s)
    ensures s.continueFlag ==> s.reporters == Reporters(trackers, 0, 0)
    ensures !Enabled(s, Report)
  {
    StartInv(max, trackers);
    RunKeepsInv(Start(max, trackers), steps, s);
    ReportersStay(Start(max, trackers), steps, s);
  }

  lemma {:induction false} ReportersStay(s: State, steps: seq<Step>, s': State)
    requires Reaches(s, steps, s')
    ensures var r, r' := s.reporters, s'.reporters;
            r'.starting + r'.reporting + r'.ended == r.starting + r.reporting + r.ended
    decreases |steps|
  {
    if steps != [] {
      ReportersStay(Next(s, steps[0]), steps[1..], s');
    }
  }

  /** While the flag is true a serving worker can go on taking requests. */
  lemma {:induction false} ServesOn(s: State, k: nat, n: nat)
    requires s.continueFlag && At(s, k, Serving)
    ensures Reaches(s, seq(n, _ => TakeRequest(k)), s)
  {
    var steps := seq(n, _ => TakeRequest(k));
    if n > 0 {
      assert steps[1..] == seq(n - 1, _ => TakeRequest(k));
      ServesOn(s, k, n - 1);
    }
  }

  /** A closed listening socket takes the main thread to its wait without the flag being cleared.
      Then there is no bound: the wait can last any number of steps. */
  lemma DrainMayLast(max: nat, trackers: nat, n: nat) returns (steps: seq<Step>, s: State, more: seq<Step>)
    requires 0 < max
    ensures Reaches(Start(max, trackers), steps, s) && s.main == Draining && Stop !in steps
    ensures |more| == n && Stop !in more && Reaches(s, more, s)
  {
    steps, s := OneWorker(max, trackers);
    hide Reaches;
    steps, s := Extend(Start(max, trackers), steps, s, CheckFlag);
    steps, s := Extend(Start(max, trackers), steps, s, AcceptFails);
    more := seq(n, _ => TakeRequest(0));
    ServesOn(s, 0, n);
  }

  /** No run without the stop signal is longer than n. */
  ghost predicate NoLonger(s: State, n: nat) {
    forall steps, s' :: Reaches(s, steps, s') && Stop !in steps ==> |steps| <= n
  }

  ghost predicate Bounded(s: State) { exists n: nat :: NoLonger(s, n) }

  /** No worker will take another request. */
  predicate NoneServes(s: State) { !s.continueFlag || forall k | 0 <= k < |s.workers| :: s.workers[k] != Serving }

  lemma DrainStepUsesUp(s: State, step: Step)
    requires Inv(s) && s.main in {Draining, Done} && NoneServes(s) && Enabled(s, step) && step != Stop
    ensures var t := Next(s, step);
            t.main in {Draining, Done} && NoneServes(t) && Remaining(t) < Remaining(s)
  {
    hide Costs;
    match step
    case WorkerLocks(k) => CostsUpdate(s.workers, k, Holding);
    case CountDown(k) => CostsUpdate(s.workers, k, Decremented);
    case WorkerUnlocks(k) => CostsUpdate(s.workers, k, Exited);
    case WorkerEnds(k) => CostsUpdate(s.workers, k, Waiting);
    case _ =>
  }

  lemma {:induction false} DrainRunsEnd(s: State, steps: seq<Step>, s': State)
    requires Inv(s) && s.main in {Draining, Done} && NoneServes(s) && Reaches(s, steps, s') && Stop !in steps
    ensures |steps| <= Remaining(s)
    decreases |steps|
  {
    if steps != [] {
      StepKeepsInv(s, steps[0]);
      DrainStepUsesUp(s, steps[0]);
      DrainRunsEnd(Next(s, steps[0]), steps[1..], s');
    }
  }

  /** Exactly when the wait is bounded: unless the flag is still true and a worker still serving. */
  lemma DrainBoundedExactly(s: State)
    requires Inv(s) && s.main == Draining
    ensures Bounded(s) <==> NoneServes(s)
  {
    if NoneServes(s) {
      forall steps, s' | Reaches(s, steps, s') && Stop !in steps ensures |steps| <= Remaining(s) {
        DrainRunsEnd(s, steps, s');
      }
      assert NoLonger(s, Remaining(s));
    } else {
      var k :| 0 <= k < |s.workers| && s.workers[k] == Serving;
      forall n: nat ensures !NoLonger(s, n) {
        var steps := seq(n + 1, _ => TakeRequest(k));
        ServesOn(s, k, n + 1);
        assert Reaches(s, steps, s) && Stop !in steps && |steps| > n;
      }
    }
  }

  /** Once the main thread is past its wait, where it destroys the lock, the lock is free exactly
      when every worker is gone, for a worker decrements the count before it unlocks. */
  lemma LockFreeAtShutdown(s: State)
    requires Inv(s) && s.main == Done
    ensures s.lock == Free <==> forall k | 0 <= k < |s.workers| :: s.workers[k] == Exited
  {
    OnesMeaning(s.workers);
    hide Ones;
  }

  /** And there is a run in which one is not. */
  lemma LockMayBeHeldAtShutdown(max: nat, trackers: nat) returns (steps: seq<Step>, s: State)
    requires 0 < max
    ensures Reaches(Start(max, trackers), steps, s) && s.main == Done && s.lock == ByWorker(0)
  {
    steps, s := OneWorker(max, trackers);
    hide Reaches;
    steps, s := Extend(Start(max, trackers), steps, s, WorkerEnds(0));
    steps, s := Extend(Start(max, trackers), steps, s, WorkerLocks(0));
    assert s == State(1, max, true, ByWorker(0), Looping, [Holding], Reporters(trackers, 0, 0), 2 * trackers);
    steps, s := Extend(Start(max, trackers), steps, s, CountDown(0));
    assert s == State(0, max, true, ByWorker(0), Looping, [Decremented], Reporters(trackers, 0, 0), 2 * trackers);
    steps, s := Extend(Start(max, trackers), steps, s, Stop);
    steps, s := Extend(Start(max, trackers), steps, s, CheckFlag);
    steps, s := Extend(Start(max, trackers), steps, s, Poll);
  }

  lemma OneWorker(max: nat, trackers: nat) returns (steps: seq<Step>, s: State)
    requires 0 < max
    ensures Reaches(Start(max, trackers), steps, s) && Stop !in steps
    ensures s == State(1, max, true, Free, Looping, [Serving], Reporters(trackers, 0, 0), 2 * trackers)
  {
    steps, s := [], Start(max, trackers);
    assert Reaches(Start(max, trackers), steps, s);
    hide Reaches;
    steps, s := Extend(Start(max, trackers), steps, s, CheckFlag);
    steps, s := Extend(Start(max, trackers), steps, s, Accept);
    steps, s := Extend(Start(max, trackers), steps, s, MainLocks);
    steps, s := Extend(Start(max, trackers), steps, s, Create);
    steps, s := Extend(Start(max, trackers), steps, s, CountUp);
    steps, s := Extend(Start(max, trackers), steps, s, MainUnlocks);
  }

  lemma {:induction false} Extend(s: State, steps: seq<Step>, mid: State, step: Step) returns (more: seq<Step>, s': State)
    requires Reaches(s, steps, mid) && Enabled(mid, step)
    ensures more == steps + [step] && s' == Next(mid, step) && Reaches(s, more, s')
    decreases |steps|
  {
    more, s' := steps + [step], Next(mid, step);
    if steps != [] {
      var rest, end := Extend(Next(s, steps[0]), steps[1..], mid, step);
      assert more[1..] == rest;
    } else {
      assert more[1..] == [];
    }
  }
}
