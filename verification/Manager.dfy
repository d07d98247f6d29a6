/**
 The manager's loop under an asynchronous stop: pop what is due, dispatch it to the thread pool, wait
 for the next deadline, and drain the pool at the end.

 The stop callback notifies the scheduler's condition variable without its mutex, so testing the stop
 flag and going to sleep are separate steps and a notification can fall between them.
 */
module Manager {
  import opened Scheduler

  datatype Pc =
    | Check                            // the loop condition
    | Pop                              // calling pop_all_due
    | Dispatch(rest: seq<UpdateTask>)  // the for loop over the popped tasks
    | WaitCheck                        // in wait_for_next: evaluating the predicate
    | GoingToSleep                     // the predicate was false, not yet asleep
    | Asleep
    | Leaving                          // wait_for_next returns
    | Draining                         // thread_pool_.wait()
    | Done

  datatype State = State(
    now: int, heap: Heap, stop: bool, notified: bool, pc: Pc,
    popped: multiset<UpdateTask>, dispatched: multiset<UpdateTask>, skipped: multiset<UpdateTask>,
    running: multiset<UpdateTask>, finished: multiset<UpdateTask>)

  datatype Step =
    | TestStop                        // while (!stop_requested())
    | PopDue(due: seq<UpdateTask>)
    | DispatchNext                    // the next task goes to the pool, or is skipped without a driver
    | TestPredicate
    | Sleep
    | Spurious                        // a wake-up nobody asked for
    | Timeout                         // wait_until reaches the nearest deadline
    | Leave
    | Drained
    | RequestStop                     // by another thread
    | NotifyAll                       // the stop callback, on that thread
    | Finish(task: UpdateTask)        // a pool thread
    | Tick(d: nat)

  ghost predicate DeadlineReached(heap: Heap, now: int) {
    exists id :: Nearest(heap, id) && IsDue(heap[id], now)
  }

  ghost predicate Enabled(s: State, step: Step) {
    match step
    case TestStop => s.pc == Check
    case PopDue(due) => s.pc == Pop && DueIntervalsPositive(s.heap, s.now) && DueList(s.heap, s.now, due)
    case DispatchNext => s.pc.Dispatch?
    case TestPredicate => s.pc == WaitCheck
    case Sleep => s.pc == GoingToSleep
    case Spurious => s.pc == Asleep
    case Timeout => s.pc == Asleep && DeadlineReached(s.heap, s.now)
    case Leave => s.pc == Leaving
    case Drained => s.pc == Draining && s.running == multiset{}
    case RequestStop => !s.stop
    case NotifyAll => s.stop && !s.notified
    case Finish(task) => task in s.running
    case Tick(d) => true
  }

  function Dispatched(s: State, known: nat -> bool): (t: State)
    requires s.pc.Dispatch?
    ensures (t.pc.Dispatch? || t.pc == WaitCheck) && t.heap == s.heap && t.stop == s.stop && t.notified == s.notified
  {
    if s.pc.rest == [] then s.(pc := WaitCheck)
    else
      var task, after := s.pc.rest[0], s.(pc := Dispatch(s.pc.rest[1..]));
      if known(task.id) then
        after.(dispatched := s.dispatched + multiset{task}, running := s.running + multiset{task})
      else after.(skipped := s.skipped + multiset{task})
  }

  /** `known` tells the tasks whose driver is loaded. */
  ghost function Apply(known: nat -> bool, s: State, step: Step): State
    requires Enabled(s, step)
  {
    match step
    case TestStop => s.(pc := if s.stop then Draining else Pop)
    case PopDue(due) => s.(heap := AfterPop(s.heap, s.now), popped := s.popped + multiset(due), pc := Dispatch(due))
    case DispatchNext => Dispatched(s, known)
    case TestPredicate => s.(pc := if s.stop then Leaving else GoingToSleep)
    case Sleep => s.(pc := Asleep)
    case Spurious => s.(pc := WaitCheck)
    case Timeout => s.(pc := Leaving)
    case Leave => s.(pc := if s.stop then Draining else Check)
    case Drained => s.(pc := Done)
    case RequestStop => s.(stop := true)
    case NotifyAll => s.(notified := true, pc := if s.pc == Asleep then WaitCheck else s.pc)
    case Finish(task) => s.(running := s.running - multiset{task}, finished := s.finished + multiset{task})
    case Tick(d) => s.(now := s.now + d)
  }

  ghost predicate Initial(s: State) {
    && !s.stop && !s.notified && s.pc == Check
    && s.popped == s.dispatched == s.skipped == s.running == s.finished == multiset{}
  }

  /** The run is possible and ends in `t`. */
  ghost predicate Run(known: nat -> bool, s: State, steps: seq<Step>, t: State)
    decreases |steps|
  {
    if steps == [] then s == t
    else Enabled(s, steps[0]) && Run(known, Apply(known, s, steps[0]), steps[1..], t)
  }

  // ------------------------------------------------------------------ the invariant

  function Remaining(pc: Pc): seq<UpdateTask> {
    if pc.Dispatch? then pc.rest else []
  }

  /** Where every pop of the task has gone. */
  predicate Accounts(known: nat -> bool, s: State, task: UpdateTask) {
    && s.popped[task] == s.dispatched[task] + s.skipped[task] + multiset(Remaining(s.pc))[task]
    && s.dispatched[task] == s.running[task] + s.finished[task]
    && (if known(task.id) then s.skipped[task] == 0 else s.dispatched[task] == 0)
  }

  /** No task is lost, none is run twice, and the pool is empty when the loop is done. */
  ghost predicate Inv(known: nat -> bool, s: State) {
    && (forall task :: Accounts(known, s, task))
    && (s.pc == Done ==> s.running == multiset{})
    && (s.pc == Draining || s.pc == Done || s.notified ==> s.stop)
  }

  lemma HeadCount(rest: seq<UpdateTask>, task: UpdateTask)
    requires rest != []
    ensures multiset(rest)[task] == multiset(rest[1..])[task] + if rest[0] == task then 1 else 0
  {
    assert rest == [rest[0]] + rest[1..];
  }

  lemma DispatchKeepsAccounts(known: nat -> bool, s: State, task: UpdateTask)
    requires s.pc.Dispatch? && Accounts(known, s, task)
    ensures Accounts(known, Dispatched(s, known), task)
  {
    if s.pc.rest != [] {
      HeadCount(s.pc.rest, task);
      var first, t := s.pc.rest[0], Dispatched(s, known);
      assert Remaining(t.pc) == s.pc.rest[1..] && t.popped == s.popped && t.finished == s.finished;
      var one := multiset{first}[task];
      if known(first.id) {
        assert t.dispatched[task] == s.dispatched[task] + one && t.running[task] == s.running[task] + one;
      } else {
        assert t.skipped[task] == s.skipped[task] + one;
      }
    }
  }

  lemma StepKeepsAccounts(known: nat -> bool, s: State, step: Step, task: UpdateTask)
    requires Enabled(s, step) && Accounts(known, s, task)
    ensures Accounts(known, Apply(known, s, step), task)
  {
    hide DueList, DueIntervalsPositive, DeadlineReached, AfterPop, Dispatched;
    if step.DispatchNext? { DispatchKeepsAccounts(known, s, task); }
  }

  lemma StepKeepsFlags(known: nat -> bool, s: State, step: Step)
    requires Enabled(s, step)
    requires s.pc == Draining || s.pc == Done || s.notified ==> s.stop
    ensures var t := Apply(known, s, step);
            && (t.pc == Draining || t.pc == Done || t.notified ==> t.stop)
            && t.heap.Keys == s.heap.Keys && (s.stop ==> t.stop)
  {
    hide DueList, DueIntervalsPositive, DeadlineReached, AfterPop, Dispatched;
  }

  lemma DoneStaysEmpty(known: nat -> bool, s: State, step: Step)
    requires Enabled(s, step) && Apply(known, s, step).pc == Done
    requires s.pc == Done ==> s.running == multiset{}
    ensures Apply(known, s, step).running == multiset{}
  {
    hide DueList, DueIntervalsPositive, DeadlineReached, AfterPop, Dispatched;
  }

  lemma StepKeepsInv(known: nat -> bool, s: State, step: Step)
    requires Inv(known, s) && Enabled(s, step)
    ensures Inv(known, Apply(known, s, step))
    ensures Apply(known, s, step).heap.Keys == s.heap.Keys && (s.stop ==> Apply(known, s, step).stop)
  {
    hide Apply, Enabled, Accounts;
    StepKeepsFlags(known, s, step);
    if Apply(known, s, step).pc == Done { DoneStaysEmpty(known, s, step); }
    forall task ensures Accounts(known, Apply(known, s, step), task) {
      StepKeepsAccounts(known, s, step, task);
    }
  }

  lemma {:induction false} RunKeepsInv(known: nat -> bool, s: State, steps: seq<Step>, t: State)
    requires Inv(known, s) && Run(known, s, steps, t)
    ensures Inv(known, t) && t.heap.Keys == s.heap.Keys && (s.stop ==> t.stop)
    decreases |steps|
  {
    hide Inv, Apply, Enabled;
    if steps != [] {
      StepKeepsInv(known, s, steps[0]);
      RunKeepsInv(known, Apply(known, s, steps[0]), steps[1..], t);
    }
  }

  // ------------------------------------------------------------------ nothing is lost

  /**
   When `run` returns, stop was requested, and of everything ever popped each task with a loaded driver
   has been run to its end exactly as often as it was popped, and every other task was skipped.
   */
  lemma EverythingIsDrained(known: nat -> bool, s: State, steps: seq<Step>, t: State, task: UpdateTask)
    requires Initial(s) && Run(known, s, steps, t) && t.pc == Done
    ensures t.stop && t.running == multiset{}
    ensures t.finished[task] == if known(task.id) then t.popped[task] else 0
    ensures t.skipped[task] == if known(task.id) then 0 else t.popped[task]
  {
    RunKeepsInv(known, s, steps, t);
    assert Accounts(known, t, task);
  }

  // ------------------------------------------------------------------ after a stop

  function Pops(steps: seq<Step>): nat {
    if steps == [] then 0 else Pops(steps[1..]) + if steps[0].PopDue? then 1 else 0
  }

  lemma StopLimitsPops(known: nat -> bool, s: State, step: Step)
    requires s.stop && Enabled(s, step)
    ensures Apply(known, s, step).stop && (step.PopDue? ==> s.pc == Pop)
    ensures Apply(known, s, step).pc == Pop ==> s.pc == Pop && !step.PopDue?
  {
    hide DueList, DueIntervalsPositive, DeadlineReached, AfterPop;
  }

  /** After stop is requested at most one more pop begins, and that one only if the loop had tested the flag before. */
  lemma {:induction false} AtMostOnePopAfterStop(known: nat -> bool, s: State, steps: seq<Step>, t: State)
    requires s.stop && Run(known, s, steps, t)
    ensures Pops(steps) <= if s.pc == Pop then 1 else 0
    decreases |steps|
  {
    hide Apply, Enabled;
    if steps != [] {
      StopLimitsPops(known, s, steps[0]);
      AtMostOnePopAfterStop(known, Apply(known, s, steps[0]), steps[1..], t);
    }
  }

  function Busy(pc: Pc, tasks: nat): nat {
    match pc
    case Check => 3
    case Pop => 8 + 2 * tasks
    case Dispatch(rest) => 7 + 2 * |rest|
    case WaitCheck => 4
    case GoingToSleep => 6
    case Asleep => 5
    case Leaving => 3
    case Draining => 2
    case Done => 1
  }

  /** What is left to do once stop is requested. */
  function Rank(s: State): nat {
    Busy(s.pc, |s.heap.Keys|) + |s.running| + if s.notified then 0 else 1
  }

  lemma {:induction false} DistinctIds(due: seq<UpdateTask>, ids: set<nat>)
    requires forall i :: 0 <= i < |due| ==> due[i].id in ids
    requires forall i, j :: 0 <= i < j < |due| ==> due[i].id != due[j].id
    ensures |due| <= |ids|
    decreases |due|
  {
    if due != [] {
      var last := due[|due| - 1].id;
      DistinctIds(due[..|due| - 1], ids - {last});
    }
  }

  lemma PopLowersRank(known: nat -> bool, s: State, step: Step)
    requires Enabled(s, step) && step.PopDue?
    ensures Rank(Apply(known, s, step)) < Rank(s)
  {
    hide DueIntervalsPositive, DeadlineReached, AfterPop, Forces;
    DistinctIds(step.due, s.heap.Keys);
  }

  lemma DispatchLowersRank(known: nat -> bool, s: State)
    requires s.pc.Dispatch?
    ensures Rank(Dispatched(s, known)) < Rank(s)
  {
  }

  lemma StepLowersRank(known: nat -> bool, s: State, step: Step)
    requires s.stop && Enabled(s, step) && !step.Tick?
    ensures Rank(Apply(known, s, step)) < Rank(s)
  {
    hide DueList, DueIntervalsPositive, DeadlineReached, AfterPop, Dispatched;
    if step.PopDue? {
      PopLowersRank(known, s, step);
    } else if step.DispatchNext? {
      DispatchLowersRank(known, s);
    }
  }

  function Moves(steps: seq<Step>): nat {
    if steps == [] then 0 else Moves(steps[1..]) + if steps[0].Tick? then 0 else 1
  }

  lemma {:induction false} RunLowersRank(known: nat -> bool, s: State, steps: seq<Step>, t: State)
    requires s.stop && Run(known, s, steps, t)
    ensures t.stop && Moves(steps) + Rank(t) <= Rank(s)
    decreases |steps|
  {
    hide Apply, Enabled, Rank;
    if steps != [] {
      if !steps[0].Tick? { StepLowersRank(known, s, steps[0]); } else { TickKeepsRank(known, s, steps[0]); }
      StopLimitsPops(known, s, steps[0]);
      RunLowersRank(known, Apply(known, s, steps[0]), steps[1..], t);
    }
  }

  lemma TickKeepsRank(known: nat -> bool, s: State, step: Step)
    requires Enabled(s, step) && step.Tick?
    ensures Rank(Apply(known, s, step)) == Rank(s)
  {
  }

  lemma DueListExists(heap: Heap, now: int, ids: set<nat>) returns (due: seq<UpdateTask>)
    requires ids <= heap.Keys && forall id :: id in ids ==> IsDue(heap[id], now)
    ensures forall i :: 0 <= i < |due| ==> due[i].id in ids && (due[i].forceUpdate <==> Forces(heap[due[i].id], now))
    ensures forall i, j :: 0 <= i < j < |due| ==> due[i].id != due[j].id
    ensures forall i, j :: 0 <= i < j < |due| ==> heap[due[i].id].deadline <= heap[due[j].id].deadline
    ensures forall id :: id in ids ==> Listed(due, id)
    decreases |ids|
  {
    hide Forces;
    if ids == {} {
      due := [];
    } else {
      var first := NearestExists(heap, ids);
      var rest := DueListExists(heap, now, ids - {first});
      due := [UpdateTask(first, Forces(heap[first], now))] + rest;
      assert due[0].id == first;
      forall id | id in ids ensures Listed(due, id) {
        if id != first {
          assert Listed(rest, id);
          var i :| 0 <= i < |rest| && rest[i].id == id;
          assert due[i + 1].id == id;
        }
      }
    }
  }

  /** The steps of the loop's own thread, spurious wake-ups aside. */
  predicate LoopStep(step: Step) {
    && !step.RequestStop? && !step.NotifyAll? && !step.Finish? && !step.Tick? && !step.Spurious?
  }

  /** The step with which the loop itself can go on. */
  lemma LoopCanStep(s: State) returns (step: Step)
    requires s.pc != Asleep && s.pc != Done && (s.pc == Draining ==> s.running == multiset{})
    requires DueIntervalsPositive(s.heap, s.now)
    ensures Enabled(s, step) && LoopStep(step)
  {
    match s.pc
    case Check => step := TestStop;
    case Pop =>
      var ids := set id | id in s.heap && IsDue(s.heap[id], s.now);
      var due := DueListExists(s.heap, s.now, ids);
      step := PopDue(due);
    case Dispatch(_) => step := DispatchNext;
    case WaitCheck => step := TestPredicate;
    case GoingToSleep => step := Sleep;
    case Leaving => step := Leave;
    case Draining => step := Drained;
  }

  /** Nothing but the clock can move the system, short of a spurious wake-up. */
  ghost predicate Stalled(s: State) {
    forall step :: Enabled(s, step) ==> step.Tick? || step.Spurious?
  }

  ghost predicate SleepsThroughStop(s: State) {
    s.pc == Asleep && s.notified && !DeadlineReached(s.heap, s.now)
  }

  lemma SomethingMoves(s: State) returns (step: Step)
    requires s.stop && s.pc != Done && !SleepsThroughStop(s) && DueIntervalsPositive(s.heap, s.now)
    ensures Enabled(s, step) && !step.Tick? && !step.Spurious?
  {
    if task :| task in s.running {
      step := Finish(task);
    } else if s.pc != Asleep {
      step := LoopCanStep(s);
    } else {
      step := if s.notified then Timeout else NotifyAll;
    }
  }

  /**
   A stop ends the loop: after the request only a bounded number of steps is left, and when the system
   stalls, `run` has returned, or the manager sleeps having missed the notification; then it sleeps on
   only while the heap's nearest deadline is still ahead, or the heap is empty.
   */
  lemma StopEndsTheLoop(known: nat -> bool, s: State, steps: seq<Step>, t: State)
    requires s.stop && Run(known, s, steps, t)
    ensures Moves(steps) <= Rank(s)
    ensures DueIntervalsPositive(t.heap, t.now) && Stalled(t) ==> t.pc == Done || SleepsThroughStop(t)
  {
    hide Run, Apply, Enabled, Rank, DueIntervalsPositive, SleepsThroughStop;
    RunLowersRank(known, s, steps, t);
    if DueIntervalsPositive(t.heap, t.now) && t.pc != Done && !SleepsThroughStop(t) {
      var step := SomethingMoves(t);
    }
  }

  /** The manager is not asleep, nor about to be, and knows of the stop. */
  predicate AwakeToStop(s: State) {
    s.stop && s.notified && s.pc != GoingToSleep && s.pc != Asleep
  }

  lemma StepKeepsAwake(known: nat -> bool, s: State, step: Step)
    requires Enabled(s, step) && AwakeToStop(s)
    ensures AwakeToStop(Apply(known, s, step))
  {
    hide DueList, DueIntervalsPositive, DeadlineReached, AfterPop;
  }

  lemma {:induction false} RunKeepsAwake(known: nat -> bool, s: State, steps: seq<Step>, t: State)
    requires Run(known, s, steps, t) && AwakeToStop(s)
    ensures AwakeToStop(t)
    decreases |steps|
  {
    hide Apply, Enabled, AwakeToStop;
    if steps != [] {
      StepKeepsAwake(known, s, steps[0]);
      RunKeepsAwake(known, Apply(known, s, steps[0]), steps[1..], t);
    }
  }

  /**
   A notification is missed in one place only. Unless it comes between the test of the flag and the sleep,
   the manager never sleeps again, and when the system stalls `run` has returned.
   */
  lemma NotifiedInTime(known: nat -> bool, s: State, steps: seq<Step>, t: State)
    requires Enabled(s, NotifyAll) && Run(known, Apply(known, s, NotifyAll), steps, t) && s.pc != GoingToSleep
    ensures t.pc != Asleep
    ensures DueIntervalsPositive(t.heap, t.now) && Stalled(t) ==> t.pc == Done
  {
    hide Run, Stalled, DueIntervalsPositive;
    RunKeepsAwake(known, Apply(known, s, NotifyAll), steps, t);
    StopEndsTheLoop(known, Apply(known, s, NotifyAll), steps, t);
  }

  // ------------------------------------------------------------------ progress without a stop

  function LoopSteps(steps: seq<Step>): nat {
    if steps == [] then 0 else LoopSteps(steps[1..]) + if LoopStep(steps[0]) then 1 else 0
  }

  function SpuriousSteps(steps: seq<Step>): nat {
    if steps == [] then 0 else SpuriousSteps(steps[1..]) + if steps[0].Spurious? then 1 else 0
  }

  /** How many of its own steps the loop takes before it pops. */
  function Distance(pc: Pc): nat {
    match pc
    case Pop => 0
    case Check => 1
    case Leaving => 2
    case Asleep => 3
    case GoingToSleep => 4
    case WaitCheck => 5
    case Dispatch(rest) => 6 + |rest|
    case Draining => 0
    case Done => 0
  }

  lemma StepShortensDistance(known: nat -> bool, s: State, step: Step)
    requires Enabled(s, step) && !step.PopDue? && !Apply(known, s, step).stop
    requires s.pc != Draining && s.pc != Done && !s.notified
    ensures var t := Apply(known, s, step);
            && t.pc != Draining && t.pc != Done && !t.notified && !s.stop
            && Distance(t.pc) + (if LoopStep(step) then 1 else 0) == Distance(s.pc) + (if step.Spurious? then 2 else 0)
  {
    hide DueList, DueIntervalsPositive, DeadlineReached;
  }

  lemma StopIsKept(known: nat -> bool, s: State, step: Step)
    requires Enabled(s, step) && s.stop
    ensures Apply(known, s, step).stop
  {
    hide DueList, DueIntervalsPositive, DeadlineReached, AfterPop;
  }

  lemma {:induction false} RunKeepsStop(known: nat -> bool, s: State, steps: seq<Step>, t: State)
    requires Run(known, s, steps, t) && s.stop
    ensures t.stop
    decreases |steps|
  {
    hide Apply, Enabled;
    if steps != [] {
      StopIsKept(known, s, steps[0]);
      RunKeepsStop(known, Apply(known, s, steps[0]), steps[1..], t);
    }
  }

  /** The loop is running: neither draining nor done, and nobody has been notified of a stop. */
  predicate Running(s: State) {
    s.pc != Draining && s.pc != Done && !s.notified
  }

  lemma {:induction false} RunShortensDistance(known: nat -> bool, s: State, steps: seq<Step>, t: State)
    requires Run(known, s, steps, t) && Running(s) && !t.stop && Pops(steps) == 0
    ensures Distance(t.pc) + LoopSteps(steps) == Distance(s.pc) + 2 * SpuriousSteps(steps)
    decreases |steps|
  {
    hide Apply, Enabled, Distance;
    if steps != [] {
      var next := Apply(known, s, steps[0]);
      if next.stop { RunKeepsStop(known, next, steps[1..], t); }
      StepShortensDistance(known, s, steps[0]);
      RunShortensDistance(known, next, steps[1..], t);
    }
  }

  /**
   Progress: as long as no stop is requested, the loop pops again before it has taken as many of its own
   steps as it is away from its pop, and two more for every spurious wake-up.
   */
  lemma LoopPopsAgain(known: nat -> bool, s: State, steps: seq<Step>, t: State)
    requires Run(known, s, steps, t) && Running(s) && !t.stop
    requires LoopSteps(steps) > Distance(s.pc) + 2 * SpuriousSteps(steps)
    ensures Pops(steps) > 0
  {
    if Pops(steps) == 0 { RunShortensDistance(known, s, steps, t); }
  }

  predicate OnTheWayToPop(pc: Pc) {
    pc == Leaving || pc == Check || pc == Pop
  }

  lemma {:induction false} StaysOnTheWay(known: nat -> bool, s: State, steps: seq<Step>, t: State)
    requires Run(known, s, steps, t) && !t.stop && OnTheWayToPop(s.pc) && Pops(steps) == 0
    ensures OnTheWayToPop(t.pc)
    decreases |steps|
  {
    hide DueList, DueIntervalsPositive, DeadlineReached, AfterPop;
    if steps != [] {
      var next := Apply(known, s, steps[0]);
      if next.stop { RunKeepsStop(known, next, steps[1..], t); }
      StaysOnTheWay(known, next, steps[1..], t);
    }
  }

  /** Every time-out is followed by a pop: between two time-outs there always is one. */
  lemma PopBetweenTimeouts(known: nat -> bool, s: State, between: seq<Step>, t: State)
    requires Enabled(s, Timeout) && Run(known, Apply(known, s, Timeout), between, t) && !t.stop && Enabled(t, Timeout)
    ensures Pops(between) > 0
  {
    if Pops(between) == 0 { StaysOnTheWay(known, Apply(known, s, Timeout), between, t); }
  }

  /** How often the task has been popped, forced or not. */
  function TimesPopped(s: State, id: nat): nat {
    s.popped[UpdateTask(id, true)] + s.popped[UpdateTask(id, false)]
  }

  lemma {:induction false} CountOnce(due: seq<UpdateTask>, id: nat, k: nat)
    requires k < |due| && due[k].id == id && forall i, j :: 0 <= i < j < |due| ==> due[i].id != due[j].id
    ensures multiset(due)[UpdateTask(id, true)] + multiset(due)[UpdateTask(id, false)] >= 1
  {
    assert due[k] in multiset(due);
  }

  lemma PopTakesDueTask(known: nat -> bool, s: State, step: Step, id: nat)
    requires Enabled(s, step) && step.PopDue? && id in s.heap && s.now >= s.heap[id].deadline
    ensures TimesPopped(Apply(known, s, step), id) > TimesPopped(s, id)
  {
    hide Forces, AfterPop;
    assert Listed(step.due, id);
    var k :| 0 <= k < |step.due| && step.due[k].id == id;
    CountOnce(step.due, id, k);
  }

  lemma StepKeepsPopped(known: nat -> bool, s: State, step: Step, id: nat)
    requires Enabled(s, step)
    ensures TimesPopped(Apply(known, s, step), id) >= TimesPopped(s, id)
    ensures !step.PopDue? ==> Apply(known, s, step).heap == s.heap && Apply(known, s, step).now >= s.now
  {
    hide DueList, DueIntervalsPositive, DeadlineReached, AfterPop;
  }

  lemma {:induction false} RunKeepsPopped(known: nat -> bool, s: State, steps: seq<Step>, t: State, id: nat)
    requires Run(known, s, steps, t)
    ensures TimesPopped(t, id) >= TimesPopped(s, id)
    decreases |steps|
  {
    hide Apply, Enabled, TimesPopped;
    if steps != [] {
      StepKeepsPopped(known, s, steps[0], id);
      RunKeepsPopped(known, Apply(known, s, steps[0]), steps[1..], t, id);
    }
  }

  lemma {:induction false} PopsMeanPopped(known: nat -> bool, s: State, steps: seq<Step>, t: State, id: nat)
    requires Run(known, s, steps, t) && Pops(steps) > 0 && id in s.heap && s.now >= s.heap[id].deadline
    ensures TimesPopped(t, id) > TimesPopped(s, id)
    decreases |steps|
  {
    hide Apply, Enabled, TimesPopped;
    var next := Apply(known, s, steps[0]);
    StepKeepsPopped(known, s, steps[0], id);
    if steps[0].PopDue? {
      PopTakesDueTask(known, s, steps[0], id);
      RunKeepsPopped(known, next, steps[1..], t, id);
    } else {
      PopsMeanPopped(known, next, steps[1..], t, id);
    }
  }

  /** A task that is due is popped, once the loop has gone on far enough without a stop. */
  lemma DueTasksArePopped(known: nat -> bool, s: State, steps: seq<Step>, t: State, id: nat)
    requires Run(known, s, steps, t) && Running(s) && !t.stop
    requires id in s.heap && s.now >= s.heap[id].deadline
    requires LoopSteps(steps) > Distance(s.pc) + 2 * SpuriousSteps(steps)
    ensures TimesPopped(t, id) > TimesPopped(s, id)
  {
    LoopPopsAgain(known, s, steps, t);
    PopsMeanPopped(known, s, steps, t, id);
  }

  lemma LoopGoesOn(known: nat -> bool, s: State) returns (step: Step)
    requires Inv(known, s) && !s.stop && DueIntervalsPositive(s.heap, s.now)
    requires s.pc == Asleep ==> exists id :: id in s.heap && s.now >= s.heap[id].deadline
    ensures Enabled(s, step) && LoopStep(step)
  {
    if s.pc == Asleep {
      var nearest := NearestExists(s.heap, s.heap.Keys);
      assert Nearest(s.heap, nearest) && IsDue(s.heap[nearest], s.now);
      step := Timeout;
    } else {
      step := LoopCanStep(s);
    }
  }

  /**
   And the loop can always go on: without a stop, when it has no step to take but a spurious wake-up, the
   manager sleeps and no task is due.
   */
  lemma OnlySleepStalls(known: nat -> bool, s: State)
    requires Inv(known, s) && !s.stop && DueIntervalsPositive(s.heap, s.now)
    requires forall step :: Enabled(s, step) ==> !LoopStep(step)
    ensures s.pc == Asleep && forall id :: id in s.heap ==> s.now < s.heap[id].deadline
  {
    hide Inv, Enabled, LoopStep, DueIntervalsPositive;
    if s.pc == Asleep ==> exists id :: id in s.heap && s.now >= s.heap[id].deadline {
      var step := LoopGoesOn(known, s);
    }
  }

  // ------------------------------------------------------------------ the missed notification

  ghost predicate NoSpurious(steps: seq<Step>) {
    forall i :: 0 <= i < |steps| ==> !steps[i].Spurious?
  }

  /** Without a spurious wake-up the manager sleeps forever, whatever happens. */
  ghost predicate Stranded(known: nat -> bool, s: State) {
    s.stop && forall steps, t :: Run(known, s, steps, t) && NoSpurious(steps) ==> t.pc == Asleep
  }

  lemma {:induction false} SleepsOn(known: nat -> bool, s: State, steps: seq<Step>, t: State)
    requires s.stop && s.notified && s.pc == Asleep && s.heap == map[] && Run(known, s, steps, t) && NoSpurious(steps)
    ensures t.pc == Asleep
    decreases |steps|
  {
    if steps != [] {
      assert forall i :: 0 <= i < |steps[1..]| ==> steps[1..][i] == steps[i + 1];
      SleepsOn(known, Apply(known, s, steps[0]), steps[1..], t);
    }
  }

  lemma RunSnoc(known: nat -> bool, s: State, steps: seq<Step>, t: State, step: Step)
    requires Run(known, s, steps, t) && Enabled(t, step)
    ensures Run(known, s, steps + [step], Apply(known, t, step))
    decreases |steps|
  {
    hide Apply, Enabled;
    if steps == [] {
      assert [step][1..] == [];
    } else {
      assert (steps + [step])[1..] == steps[1..] + [step];
      RunSnoc(known, Apply(known, s, steps[0]), steps[1..], t, step);
    }
  }

  /** With an empty heap: the predicate is tested, stop is requested and notified, and only then the manager sleeps. */
  lemma MissedNotification(known: nat -> bool, s: State) returns (steps: seq<Step>, t: State)
    requires Initial(s) && s.heap == map[]
    ensures Run(known, s, steps, t) && t.stop && t.notified && t.pc == Asleep && t.heap == map[]
  {
    steps, t := [], s;
    assert Run(known, s, steps, t);
    hide Run;
    RunSnoc(known, s, steps, t, TestStop);
    steps, t := steps + [TestStop], Apply(known, t, TestStop);
    RunSnoc(known, s, steps, t, PopDue([]));
    steps, t := steps + [PopDue([])], Apply(known, t, PopDue([]));
    assert t.heap == map[];
    RunSnoc(known, s, steps, t, DispatchNext);
    steps, t := steps + [DispatchNext], Apply(known, t, DispatchNext);
    RunSnoc(known, s, steps, t, TestPredicate);
    steps, t := steps + [TestPredicate], Apply(known, t, TestPredicate);
    RunSnoc(known, s, steps, t, RequestStop);
    steps, t := steps + [RequestStop], Apply(known, t, RequestStop);
    RunSnoc(known, s, steps, t, NotifyAll);
    steps, t := steps + [NotifyAll], Apply(known, t, NotifyAll);
    RunSnoc(known, s, steps, t, Sleep);
    steps, t := steps + [Sleep], Apply(known, t, Sleep);
  }

  /** Time alone wakes a manager whose heap has an entry. */
  lemma DeadlineWakes(known: nat -> bool, s: State) returns (steps: seq<Step>, t: State)
    requires s.pc == Asleep && s.heap != map[]
    ensures NoSpurious(steps) && Run(known, s, steps, t) && t.pc == Leaving
  {
    var id := NearestExists(s.heap, s.heap.Keys);
    assert Nearest(s.heap, id);
    var wait: nat := if s.heap[id].deadline > s.now then s.heap[id].deadline - s.now else 0;
    var later := Apply(known, s, Tick(wait));
    assert DeadlineReached(later.heap, later.now);
    t := Apply(known, later, Timeout);
    steps := [Tick(wait), Timeout];
    assert steps[1..] == [Timeout] && [Timeout][1..] == [];
    assert Run(known, later, [Timeout], t);
  }

  /**
   A missed notification can strand the manager if and only if there is nothing scheduled; otherwise
   the nearest deadline ends every wait.
   */
  lemma StrandedExactly(known: nat -> bool, s: State)
    requires Initial(s)
    ensures (exists steps, t :: Run(known, s, steps, t) && Stranded(known, t)) <==> s.heap == map[]
  {
    if s.heap == map[] {
      var steps, t := MissedNotification(known, s);
      forall more, u | Run(known, t, more, u) && NoSpurious(more) ensures u.pc == Asleep {
        SleepsOn(known, t, more, u);
      }
      assert Stranded(known, t);
    } else {
      forall steps, t | Run(known, s, steps, t) ensures !Stranded(known, t) {
        RunKeepsInv(known, s, steps, t);
        assert Run(known, t, [], t) && NoSpurious([]);
        if t.pc == Asleep {
          assert t.heap.Keys != {};
          var more, u := DeadlineWakes(known, t);
        }
      }
    }
  }
}
