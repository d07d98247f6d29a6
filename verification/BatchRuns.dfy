/**
 Properties of every run of a batch: it ends, its promise is set once, and its result is explained by
 what the resolvers reported. When an answer can be lost is determined exactly.
 */
module BatchRuns {
  import opened Results
  import opened Batch

  /** A run of a batch of `n` resolvers, and the state it has reached. */
  ghost predicate Run(order: Order, n: nat, steps: seq<Step>, s: State) {
    n > 0 && Execute(order, Initial(n), steps) == Some(s)
  }

  lemma {:induction false} ExecuteConcat(order: Order, s: State, a: seq<Step>, b: seq<Step>)
    requires Execute(order, s, a).Some?
    ensures Execute(order, s, a + b) == Execute(order, Execute(order, s, a).value, b)
    decreases |a|
  {
    if a == [] {
      assert a + b == b;
    } else {
      assert (a + b)[1..] == a[1..] + b;
      ExecuteConcat(order, Apply(order, s, a[0]), a[1..], b);
    }
  }

  lemma ExecuteOne(order: Order, s: State, step: Step)
    requires Enabled(order, s, step)
    ensures Execute(order, s, [step]) == Some(Apply(order, s, step))
  {
    hide Apply, Enabled;
    assert Execute(order, Apply(order, s, step), [step][1..]) == Some(Apply(order, s, step));
  }

  // ------------------------------------------------------------------ termination and progress

  function PcRank(pc: Pc): nat {
    match pc
    case Start => 6
    case Asking => 5
    case Resolved => 4
    case FlagStored => 3
    case ErrorStored => 2
    case AnswerSet => 2
    case Counted(_) => 1
    case Finished => 0
  }

  function WorkersRank(workers: seq<Worker>): nat {
    if workers == [] then 0 else PcRank(workers[0].pc) + WorkersRank(workers[1..])
  }

  function MainRank(s: State): int {
    match s.main
    case Waiting => |s.workers| + 2
    case Joining(next, _) => |s.workers| + 1 - next
    case Returned(_) => 0
  }

  /** What is left to do: every step lowers it. */
  function Rank(s: State): int {
    WorkersRank(s.workers) + MainRank(s)
  }

  lemma {:induction false} RankUpdated(workers: seq<Worker>, w: nat, worker: Worker)
    requires w < |workers|
    ensures WorkersRank(workers[w := worker]) - WorkersRank(workers) == PcRank(worker.pc) - PcRank(workers[w].pc)
  {
    if w == 0 {
      assert workers[w := worker][1..] == workers[1..];
    } else {
      assert workers[w := worker][1..] == workers[1..][w - 1 := worker];
      RankUpdated(workers[1..], w - 1, worker);
    }
  }

  lemma MovedLowersRank(order: Order, s: State, step: Step)
    requires Enabled(order, s, step) && WorkerStep(step)
    ensures PcRank(Apply(order, s, step).workers[step.w].pc) < PcRank(s.workers[step.w].pc)
  {
    hide BatchResult, StopRequested;
  }

  lemma MainLowersRank(order: Order, s: State, step: Step)
    requires Enabled(order, s, step) && !WorkerStep(step)
    ensures 0 <= Rank(Apply(order, s, step)) < Rank(s)
  {
    hide BatchResult;
  }

  lemma StepLowersRank(order: Order, s: State, step: Step)
    requires Inv(order, s) && Enabled(order, s, step)
    ensures 0 <= Rank(Apply(order, s, step)) < Rank(s)
  {
    hide CounterSound, FlagsSound, PromiseSound, Apply, Enabled;
    if WorkerStep(step) {
      OutcomeUnlessAsking(order, s, step);
      OneWorkerMoves(order, s, step);
      MovedLowersRank(order, s, step);
      RankUpdated(s.workers, step.w, Apply(order, s, step).workers[step.w]);
      RankIsNat(order, s);
    } else {
      MainLowersRank(order, s, step);
    }
  }

  /** The invariant holds after every run, and the length of a run is bounded by the work there was. */
  lemma {:induction false} RunKeepsInv(order: Order, s: State, steps: seq<Step>)
    requires Inv(order, s) && Execute(order, s, steps).Some?
    ensures var t := Execute(order, s, steps).value;
            Inv(order, t) && |t.workers| == |s.workers| && |steps| + Rank(t) <= Rank(s) && Rank(t) >= 0
    decreases |steps|
  {
    hide Apply, Enabled, WorkersSound, CounterSound, FlagsSound, PromiseSound;
    if steps == [] {
      RankIsNat(order, s);
    } else {
      StepKeepsInv(order, s, steps[0]);
      StepKeepsWorkers(order, s, steps[0]);
      StepLowersRank(order, s, steps[0]);
      RunKeepsInv(order, Apply(order, s, steps[0]), steps[1..]);
    }
  }

  lemma RankIsNat(order: Order, s: State)
    requires Inv(order, s)
    ensures Rank(s) >= 0
  {
  }

  lemma RunSize(order: Order, n: nat, steps: seq<Step>, s: State)
    requires Run(order, n, steps, s)
    ensures |s.workers| == n
  {
    InitialInv(order, n);
    RunKeepsInv(order, Initial(n), steps);
  }

  /** Once every worker has finished, the promise is set. */
  lemma FinishedMeansSet(order: Order, s: State)
    requires Inv(order, s) && forall w :: 0 <= w < |s.workers| ==> s.workers[w].pc == Finished
    ensures s.promise.Some?
  {
    FullTally(order, s.workers);
  }

  /** The step an unfinished worker can take. */
  function NextStep(order: Order, s: State, w: nat): Step
    requires w < |s.workers|
  {
    match s.workers[w].pc
    case Start => CheckStop(w)
    case Asking => Ask(w, Refused(NODATA))
    case Resolved =>
      if ReadyToCount(order, s.workers[w]) then Count(w)
      else if ReadyToDeliver(order, s.workers[w]) then Deliver(w)
      else if Enabled(order, s, StoreFlag(w)) then StoreFlag(w)
      else StoreError(w)
    case FlagStored => StoreError(w)
    case ErrorStored => Count(w)
    case AnswerSet => Count(w)
    case Counted(_) => Deliver(w)
    case Finished => Return
  }

  lemma WorkerCanStep(order: Order, s: State, w: nat)
    requires Inv(order, s) && w < |s.workers| && s.workers[w].pc != Finished
    ensures Enabled(order, s, NextStep(order, s, w))
  {
    assert WorkerSound(order, s.workers[w]);
  }

  /** No deadlock: until the batch has returned, some step is enabled. */
  lemma SomeStepEnabled(order: Order, s: State) returns (step: Step)
    requires Inv(order, s) && !s.main.Returned?
    ensures Enabled(order, s, step)
  {
    if w :| 0 <= w < |s.workers| && s.workers[w].pc != Finished {
      WorkerCanStep(order, s, w);
      step := NextStep(order, s, w);
    } else {
      FinishedMeansSet(order, s);
      step := if s.main == Waiting then GetFuture else if s.main.next < |s.workers| then JoinNext else Return;
    }
  }

  /**
   No hang: no run of a batch is longer than seven steps a resolver and two more, and a run that
   cannot go on has returned.
   */
  lemma EveryRunEnds(order: Order, n: nat, steps: seq<Step>, s: State)
    requires Run(order, n, steps, s)
    ensures |steps| <= 7 * n + 2
    ensures (forall step :: !Enabled(order, s, step)) ==> s.main.Returned?
    ensures (forall w :: 0 <= w < |s.workers| ==> s.workers[w].pc == Finished) ==> s.promise.Some?
  {
    InitialInv(order, n);
    InitialRank(n);
    RunKeepsInv(order, Initial(n), steps);
    if !s.main.Returned? { var step := SomeStepEnabled(order, s); }
    if forall w :: 0 <= w < |s.workers| ==> s.workers[w].pc == Finished { FinishedMeansSet(order, s); }
  }

  lemma InitialRank(n: nat)
    ensures Rank(Initial(n)) == 7 * n + 2
  {
    StartRank(Initial(n).workers);
  }

  lemma {:induction false} StartRank(workers: seq<Worker>)
    requires forall w :: 0 <= w < |workers| ==> workers[w].pc == Start
    ensures WorkersRank(workers) == 6 * |workers|
  {
    if workers != [] { StartRank(workers[1..]); }
  }

  // ------------------------------------------------------------------ what is never undone

  lemma StepKeepsFacts(order: Order, s: State, step: Step)
    requires Inv(order, s) && Enabled(order, s, step)
    ensures var t := Apply(order, s, step);
            && |t.workers| == |s.workers| && (s.promise.Some? ==> t.promise == s.promise)
            && forall w :: 0 <= w < |s.workers| && s.workers[w].outcome.Some? ==> t.workers[w].outcome == s.workers[w].outcome
  {
    hide Apply, Enabled;
    if WorkerStep(step) {
      OutcomeUnlessAsking(order, s, step);
      OneWorkerMoves(order, s, step);
    } else {
      KeepsWorkers(order, s, step);
    }
  }

  /** Along a run the promise is set once and never changes, and what a resolver reported stays. */
  lemma {:induction false} SetOnce(order: Order, s: State, steps: seq<Step>)
    requires Inv(order, s) && Execute(order, s, steps).Some?
    ensures var t := Execute(order, s, steps).value;
            && |t.workers| == |s.workers| && (s.promise.Some? ==> t.promise == s.promise)
            && forall w :: 0 <= w < |s.workers| && s.workers[w].outcome.Some? ==> t.workers[w].outcome == s.workers[w].outcome
    decreases |steps|
  {
    hide Apply, Enabled, Inv;
    if steps != [] {
      StepKeepsInv(order, s, steps[0]);
      StepKeepsFacts(order, s, steps[0]);
      SetOnce(order, Apply(order, s, steps[0]), steps[1..]);
    }
  }

  /** The worker's stop was requested before it asked. */
  ghost predicate StoppedEarly(s: State, w: nat) {
    && w < |s.workers| && s.workers[w].outcome.None? && (s.workers[w].pc == Start || s.workers[w].pc == Finished)
    && (match s.main
        case Waiting => false
        case Joining(next, _) => w <= next
        case Returned(_) => true)
  }

  lemma StepKeepsStopped(order: Order, s: State, step: Step, w: nat)
    requires Inv(order, s) && Enabled(order, s, step) && StoppedEarly(s, w)
    ensures StoppedEarly(Apply(order, s, step), w)
  {
    hide FlagsSound, CounterSound, PromiseSound, BatchResult;
    assert WorkerSound(order, s.workers[w]);
  }

  /** A worker whose thread is told to stop before it has begun never asks its resolver. */
  lemma {:induction false} NoQueryAfterStop(order: Order, s: State, steps: seq<Step>, w: nat)
    requires Inv(order, s) && Execute(order, s, steps).Some? && StoppedEarly(s, w)
    ensures w < |Execute(order, s, steps).value.workers| && Execute(order, s, steps).value.workers[w].outcome.None?
    ensures forall i, outcome :: 0 <= i < |steps| ==> steps[i] != Ask(w, outcome)
    decreases |steps|
  {
    hide Inv, Apply;
    if steps != [] {
      StepKeepsInv(order, s, steps[0]);
      StepKeepsStopped(order, s, steps[0], w);
      NoQueryAfterStop(order, Apply(order, s, steps[0]), steps[1..], w);
      assert forall i :: 0 < i < |steps| ==> steps[i] == steps[1..][i - 1];
    }
  }

  // ------------------------------------------------------------------ the result

  /**
   An empty delivery: at the step that sets the promise to nothing, every worker has incremented the
   counter, and any worker with an answer sits between its increment and its own attempt to set it.
   */
  lemma EmptyDelivery(order: Order, n: nat, steps: seq<Step>, s: State, step: Step)
    requires Run(order, n, steps, s) && Enabled(order, s, step)
    requires s.promise.None? && Apply(order, s, step).promise == Some([])
    ensures forall w :: 0 <= w < |s.workers| ==> Incremented(order, s.workers[w])
    ensures forall w :: 0 <= w < |s.workers| && Answers(s.workers[w]) ==> order == CountFirst && s.workers[w].pc.Counted?
  {
    InitialInv(order, n);
    RunKeepsInv(order, Initial(n), steps);
    PromiseSetBy(order, s, step);
    FullTally(order, s.workers);
  }

  ghost predicate SomeoneReported(s: State, outcome: Outcome) {
    exists w :: 0 <= w < |s.workers| && s.workers[w].outcome == Some(outcome)
  }

  lemma FinalState(order: Order, s: State)
    requires Inv(order, s) && s.main.Returned? && s.main.result.Err?
    ensures s.promise == Some([]) && s.main.result == BatchResult(s, [])
    ensures forall w :: 0 <= w < |s.workers| ==> s.workers[w].outcome.Some? && !Cancelled(s.workers[w])
    ensures forall w :: 0 <= w < |s.workers| && Refuses(s.workers[w]) ==> Stored(s.workers[w])
  {
    FullTally(order, s.workers);
  }

  /**
   The result, in every run. A success is some worker's own answer. In a failure every worker has
   reported and none was cancelled; the code is NX_DOMAIN exactly when some worker reported it, and
   otherwise a code some worker reported, or the initial NODATA when every worker has answered.
   */
  lemma ResultIsExplained(order: Order, n: nat, steps: seq<Step>, s: State)
    requires Run(order, n, steps, s) && s.main.Returned?
    ensures s.main.result.Ok? ==> s.main.result.value != [] && SomeoneReported(s, Answered(s.main.result.value))
    ensures s.main.result.Err? ==>
      && (forall w :: 0 <= w < |s.workers| ==> s.workers[w].outcome.Some? && !Cancelled(s.workers[w]))
      && (s.main.result.error == NX_DOMAIN <==> SomeoneReported(s, Refused(NX_DOMAIN)))
      && (s.main.result.error != NX_DOMAIN ==>
            || SomeoneReported(s, Refused(s.main.result.error))
            || (s.main.result.error == NODATA && forall w :: 0 <= w < |s.workers| ==> Answers(s.workers[w])))
  {
    InitialInv(order, n);
    RunKeepsInv(order, Initial(n), steps);
    if s.main.result.Err? { FinalState(order, s); }
  }

  /** With the promise set before the counter, an answer is never lost. */
  lemma SetFirstNeverLosesAnAnswer(n: nat, steps: seq<Step>, s: State, w: nat)
    requires Run(SetFirst, n, steps, s) && s.main.Returned? && w < |s.workers| && Answers(s.workers[w])
    ensures s.main.result.Ok?
  {
    InitialInv(SetFirst, n);
    RunKeepsInv(SetFirst, Initial(n), steps);
    if s.main.result.Err? { FinalState(SetFirst, s); }
  }

  // ------------------------------------------------------------------ when an answer can be lost

  /** From every state the run can be completed. */
  lemma {:induction false} Complete(order: Order, s: State) returns (steps: seq<Step>, t: State)
    requires Inv(order, s)
    ensures Execute(order, s, steps) == Some(t) && t.main.Returned?
    decreases Rank(s)
  {
    hide Inv, Apply, Enabled, Rank;
    if s.main.Returned? {
      steps, t := [], s;
    } else {
      var step := SomeStepEnabled(order, s);
      StepKeepsInv(order, s, step);
      StepLowersRank(order, s, step);
      var rest: seq<Step>;
      rest, t := Complete(order, Apply(order, s, step));
      steps := [step] + rest;
      ExecuteOne(order, s, step);
      ExecuteConcat(order, s, [step], rest);
    }
  }

  /** The stores a worker makes between its outcome and the counter. */
  function Stores(w: nat, outcome: Outcome): seq<Step> {
    match outcome
    case Answered(_) => []
    case Refused(code) =>
      if code == NX_DOMAIN then [StoreFlag(w)]
      else if IsDefinitive(code) then [StoreFlag(w), StoreError(w)]
      else [StoreError(w)]
  }

  /** The error the batch keeps is the refused outcome's, unless it is one that is not kept. */
  predicate KeepsCode(s: State, outcome: Outcome) {
    outcome.Refused? && outcome.code != NX_DOMAIN ==> s.batchError == outcome.code
  }

  /** `t` differs from `s` in worker `w`, which is ready to count with the given outcome, and in the flags. */
  ghost predicate Driven(s: State, t: State, w: nat, outcome: Outcome) {
    && w < |s.workers|
    && t.completed == s.completed && t.promise == s.promise && t.main == s.main
    && |t.workers| == |s.workers|
    && (forall v :: 0 <= v < |s.workers| && v != w ==> t.workers[v] == s.workers[v])
    && t.workers[w].outcome == Some(outcome) && ReadyToCount(CountFirst, t.workers[w])
    && KeepsCode(t, outcome)
  }

  lemma TwoSteps(order: Order, s: State, a: Step, b: Step)
    requires Enabled(order, s, a) && Enabled(order, Apply(order, s, a), b)
    ensures Execute(order, s, [a, b]) == Some(Apply(order, Apply(order, s, a), b))
  {
    hide Apply, Enabled;
    ExecuteOne(order, s, a);
    ExecuteOne(order, Apply(order, s, a), b);
    assert [a, b] == [a] + [b];
    ExecuteConcat(order, s, [a], [b]);
  }

  lemma StoreAll(s: State, w: nat, outcome: Outcome) returns (t: State)
    requires w < |s.workers| && s.workers[w] == Worker(Resolved, Some(outcome)) && outcome != Refused(CANCELLED)
    ensures Execute(CountFirst, s, Stores(w, outcome)) == Some(t) && Driven(s, t, w, outcome)
  {
    var steps := Stores(w, outcome);
    if |steps| == 0 {
      t := s;
    } else if |steps| == 1 {
      ExecuteOne(CountFirst, s, steps[0]);
      t := Apply(CountFirst, s, steps[0]);
    } else {
      TwoSteps(CountFirst, s, StoreFlag(w), StoreError(w));
      t := Apply(CountFirst, Apply(CountFirst, s, StoreFlag(w)), StoreError(w));
    }
  }

  /** One worker can be driven to the counter with any outcome but a cancellation while the batch is waiting. */
  lemma Drive(s: State, w: nat, outcome: Outcome) returns (steps: seq<Step>, t: State)
    requires w < |s.workers| && s.workers[w] == Worker(Start, None) && s.main == Waiting
    requires outcome != Refused(CANCELLED) && (outcome.Answered? ==> outcome.records != [])
    ensures Execute(CountFirst, s, steps) == Some(t) && Driven(s, t, w, outcome)
  {
    var asked := Apply(CountFirst, Apply(CountFirst, s, CheckStop(w)), Ask(w, outcome));
    TwoSteps(CountFirst, s, CheckStop(w), Ask(w, outcome));
    t := StoreAll(asked, w, outcome);
    steps := [CheckStop(w), Ask(w, outcome)] + Stores(w, outcome);
    ExecuteConcat(CountFirst, s, [CheckStop(w), Ask(w, outcome)], Stores(w, outcome));
  }

  predicate NoneCancelled(outcomes: seq<Outcome>) {
    forall w :: 0 <= w < |outcomes| ==> outcomes[w] != Refused(CANCELLED)
  }

  predicate Realistic(outcomes: seq<Outcome>) {
    forall w :: 0 <= w < |outcomes| && outcomes[w].Answered? ==> outcomes[w].records != []
  }

  /** The first `k` workers but `r` are ready to count with their outcomes; the others have not started. */
  ghost predicate Prepared(outcomes: seq<Outcome>, r: nat, k: nat, s: State) {
    && |s.workers| == |outcomes| && k <= |outcomes| && s.main == Waiting && s.promise.None?
    && (forall w :: 0 <= w < k && w != r ==> s.workers[w].outcome == Some(outcomes[w]) && ReadyToCount(CountFirst, s.workers[w]))
    && (forall w :: 0 <= w < |outcomes| && (k <= w || w == r) ==> s.workers[w] == Worker(Start, None))
  }

  lemma {:induction false} Prepare(outcomes: seq<Outcome>, r: nat, k: nat) returns (steps: seq<Step>, s: State)
    requires Realistic(outcomes) && NoneCancelled(outcomes) && k <= |outcomes|
    ensures Execute(CountFirst, Initial(|outcomes|), steps) == Some(s) && Prepared(outcomes, r, k, s)
    decreases k
  {
    if k == 0 {
      steps, s := [], Initial(|outcomes|);
    } else {
      steps, s := Prepare(outcomes, r, k - 1);
      if k - 1 != r {
        var more, t := Drive(s, k - 1, outcomes[k - 1]);
        ExecuteConcat(CountFirst, Initial(|outcomes|), steps, more);
        steps, s := steps + more, t;
      }
    }
  }

  /** All of the first `k` workers but `r` have counted and hold their place before the promise; `r` stored its code last. */
  ghost predicate CountedBut(outcomes: seq<Outcome>, r: nat, k: nat, s: State) {
    && |s.workers| == |outcomes| && k <= |outcomes| && s.main == Waiting && s.promise.None?
    && (forall w :: 0 <= w < |outcomes| ==> s.workers[w].outcome == Some(outcomes[w]))
    && (forall w :: 0 <= w < k && w != r ==> s.workers[w].pc.Counted?)
    && (forall w :: 0 <= w < |outcomes| && (k <= w || w == r) ==> ReadyToCount(CountFirst, s.workers[w]))
    && (r < |outcomes| ==> KeepsCode(s, outcomes[r]))
  }

  lemma {:induction false} CountAllBut(outcomes: seq<Outcome>, r: nat, k: nat) returns (steps: seq<Step>, s: State)
    requires Realistic(outcomes) && NoneCancelled(outcomes) && k <= |outcomes| && r < |outcomes|
    ensures Execute(CountFirst, Initial(|outcomes|), steps) == Some(s) && CountedBut(outcomes, r, k, s)
    decreases k
  {
    if k == 0 {
      steps, s := Prepare(outcomes, r, |outcomes|);
      var more, t := Drive(s, r, outcomes[r]);
      ExecuteConcat(CountFirst, Initial(|outcomes|), steps, more);
      steps, s := steps + more, t;
    } else {
      steps, s := CountAllBut(outcomes, r, k - 1);
      if k - 1 != r {
        ExecuteOne(CountFirst, s, Count(k - 1));
        ExecuteConcat(CountFirst, Initial(|outcomes|), steps, [Count(k - 1)]);
        steps, s := steps + [Count(k - 1)], Apply(CountFirst, s, Count(k - 1));
      }
    }
  }

  /** Every worker is past its stores, so the error that is kept is final. */
  ghost predicate AllStored(s: State) {
    forall w :: 0 <= w < |s.workers| ==> s.workers[w].pc.Counted? || s.workers[w].pc == Finished
  }

  /** When everybody else has counted, the refused worker counts last and empties the promise. */
  lemma LastRefusal(outcomes: seq<Outcome>, r: nat, s: State)
    requires Inv(CountFirst, s) && r < |outcomes| && outcomes[r].Refused? && CountedBut(outcomes, r, |outcomes|, s)
    ensures Enabled(CountFirst, s, Count(r))
    ensures var t := Apply(CountFirst, s, Count(r));
            && Enabled(CountFirst, t, Deliver(r)) && Apply(CountFirst, t, Deliver(r)).promise == Some([])
            && Apply(CountFirst, t, Deliver(r)).batchError == s.batchError && AllStored(Apply(CountFirst, t, Deliver(r)))
  {
    hide FlagsSound, PromiseSound, MainSound;
    var t := Apply(CountFirst, s, Count(r));
    StepKeepsTally(CountFirst, s, Count(r));
    FullTally(CountFirst, t.workers);
    forall w | 0 <= w < |t.workers| ensures Incremented(CountFirst, t.workers[w]) {
      if w != r { assert t.workers[w] == s.workers[w]; }
    }
  }

  lemma StoredStepKeepsError(s: State, step: Step)
    requires AllStored(s) && Enabled(CountFirst, s, step)
    ensures AllStored(Apply(CountFirst, s, step)) && Apply(CountFirst, s, step).batchError == s.batchError
  {
    hide BatchResult, StopRequested;
  }

  lemma {:induction false} StoredKeepsError(s: State, steps: seq<Step>)
    requires AllStored(s) && Execute(CountFirst, s, steps).Some?
    ensures Execute(CountFirst, s, steps).value.batchError == s.batchError
    decreases |steps|
  {
    hide Apply, Enabled, AllStored;
    if steps != [] {
      StoredStepKeepsError(s, steps[0]);
      StoredKeepsError(Apply(CountFirst, s, steps[0]), steps[1..]);
    }
  }

  /** Every worker has reported the outcome given for it. */
  ghost predicate AllReported(s: State, outcomes: seq<Outcome>) {
    |s.workers| == |outcomes| && forall w :: 0 <= w < |outcomes| ==> s.workers[w].outcome == Some(outcomes[w])
  }

  /** The outcomes can be reported in a run that returns a failure with the code. */
  ghost predicate CanReturn(outcomes: seq<Outcome>, code: DnsError) {
    exists steps, s ::
      Run(CountFirst, |outcomes|, steps, s) && s.main == Returned(Err(code)) && AllReported(s, outcomes)
  }

  /** The outcomes can be reported in a run that returns a failure. */
  ghost predicate CanFail(outcomes: seq<Outcome>) {
    exists code :: CanReturn(outcomes, code)
  }

  predicate Reported(outcomes: seq<Outcome>, code: DnsError) {
    exists r :: 0 <= r < |outcomes| && outcomes[r] == Refused(code)
  }

  lemma EmptyMeansFailure(s: State)
    requires Inv(CountFirst, s) && s.main.Returned? && s.promise == Some([])
    ensures s.main.result.Err?
  {
  }

  /** A refused worker can store last and count last: the failing run keeps its code. */
  lemma RefusalCanFail(outcomes: seq<Outcome>, r: nat) returns (steps: seq<Step>, u: State)
    requires Realistic(outcomes) && NoneCancelled(outcomes) && r < |outcomes| && outcomes[r].Refused?
    ensures Run(CountFirst, |outcomes|, steps, u) && AllReported(u, outcomes)
    ensures u.main.Returned? && u.main.result.Err? && KeepsCode(u, outcomes[r])
  {
    hide Inv, Execute, Enabled, Rank, AllStored;
    var n := |outcomes|;
    var before, s := CountAllBut(outcomes, r, n);
    InitialInv(CountFirst, n);
    RunKeepsInv(CountFirst, Initial(n), before);
    LastRefusal(outcomes, r, s);
    TwoSteps(CountFirst, s, Count(r), Deliver(r));
    var t := Apply(CountFirst, Apply(CountFirst, s, Count(r)), Deliver(r));
    RunKeepsInv(CountFirst, s, [Count(r), Deliver(r)]);
    var rest: seq<Step>;
    rest, u := Complete(CountFirst, t);
    ExecuteConcat(CountFirst, Initial(n), before, [Count(r), Deliver(r)]);
    ExecuteConcat(CountFirst, Initial(n), before + [Count(r), Deliver(r)], rest);
    SetOnce(CountFirst, s, [Count(r), Deliver(r)]);
    SetOnce(CountFirst, t, rest);
    RunKeepsInv(CountFirst, t, rest);
    EmptyMeansFailure(u);
    StoredKeepsError(t, rest);
    steps := before + [Count(r), Deliver(r)] + rest;
  }

  /** What a failing run returns: NX_DOMAIN if somebody reported it, and the kept error otherwise. */
  lemma FailureCode(outcomes: seq<Outcome>, steps: seq<Step>, s: State)
    requires Run(CountFirst, |outcomes|, steps, s) && s.main.Returned? && s.main.result.Err? && AllReported(s, outcomes)
    ensures NoneCancelled(outcomes) && Reported(outcomes, s.main.result.error)
    ensures s.main.result.error == if Reported(outcomes, NX_DOMAIN) then NX_DOMAIN else s.batchError
  {
    var code := s.main.result.error;
    SomeoneRefused(|outcomes|, steps, s);
    ResultIsExplained(CountFirst, |outcomes|, steps, s);
    assert forall w :: 0 <= w < |outcomes| ==> s.workers[w].outcome == Some(outcomes[w]);
    forall w | 0 <= w < |outcomes| ensures outcomes[w] != Refused(CANCELLED) { assert !Cancelled(s.workers[w]); }
    assert forall c :: SomeoneReported(s, Refused(c)) <==> Reported(outcomes, c);
    InitialInv(CountFirst, |outcomes|);
    RunKeepsInv(CountFirst, Initial(|outcomes|), steps);
    FinalState(CountFirst, s);
  }

  /**
   The codes a batch can return, exactly. For resolvers that report the given outcomes there is a run that
   fails with the code if and only if none was cancelled, some resolver reported the code, and it is
   NX_DOMAIN whenever some resolver reported that. So every other reported code, transient or definitive,
   can be the one returned.
   */
  lemma ReturnedCodeExactly(outcomes: seq<Outcome>, code: DnsError)
    requires outcomes != [] && Realistic(outcomes)
    ensures CanReturn(outcomes, code) <==>
      && NoneCancelled(outcomes) && Reported(outcomes, code)
      && (Reported(outcomes, NX_DOMAIN) ==> code == NX_DOMAIN)
  {
    hide Run, AllReported;
    if CanReturn(outcomes, code) {
      var steps, s :| Run(CountFirst, |outcomes|, steps, s) && s.main == Returned(Err(code)) && AllReported(s, outcomes);
      FailureCode(outcomes, steps, s);
    }
    if NoneCancelled(outcomes) && Reported(outcomes, code) && (Reported(outcomes, NX_DOMAIN) ==> code == NX_DOMAIN) {
      var r :| 0 <= r < |outcomes| && outcomes[r] == Refused(code);
      var steps, s := RefusalCanFail(outcomes, r);
      FailureCode(outcomes, steps, s);
    }
  }

  /**
   A definitive error survives exactly when no transient one stands beside it: every failing run returns
   NX_DOMAIN, PARSE or CONFIG if and only if NX_DOMAIN is reported, or no resolver refuses with another code.
   */
  lemma DefinitiveSurvivesExactly(outcomes: seq<Outcome>)
    requires outcomes != [] && Realistic(outcomes) && NoneCancelled(outcomes)
    ensures (forall code :: CanReturn(outcomes, code) ==> code == NX_DOMAIN || code == PARSE || code == CONFIG) <==>
      Reported(outcomes, NX_DOMAIN) || forall code :: Reported(outcomes, code) ==> code == PARSE || code == CONFIG
  {
    hide CanReturn, Reported, NoneCancelled;
    forall code
      ensures CanReturn(outcomes, code) <==>
        Reported(outcomes, code) && (Reported(outcomes, NX_DOMAIN) ==> code == NX_DOMAIN)
    {
      ReturnedCodeExactly(outcomes, code);
    }
  }

  /**
   When an answer can be lost, exactly: a batch whose resolvers report the given outcomes has a run
   that returns a failure if and only if some resolver refuses and none was cancelled, even though
   others answer.
   */
  lemma AnswerCanBeLostExactly(outcomes: seq<Outcome>)
    requires outcomes != [] && Realistic(outcomes)
    ensures CanFail(outcomes) <==> NoneCancelled(outcomes) && exists r :: 0 <= r < |outcomes| && outcomes[r].Refused?
  {
    hide CanReturn;
    if NoneCancelled(outcomes) {
      if r :| 0 <= r < |outcomes| && outcomes[r].Refused? {
        var code := if Reported(outcomes, NX_DOMAIN) then NX_DOMAIN else outcomes[r].code;
        assert Reported(outcomes, code);
        ReturnedCodeExactly(outcomes, code);
      }
    }
    if code :| CanReturn(outcomes, code) { ReturnedCodeExactly(outcomes, code); }
  }

  /** A failure needs a refusal. */
  lemma SomeoneRefused(n: nat, steps: seq<Step>, s: State)
    requires Run(CountFirst, n, steps, s) && s.main.Returned? && s.main.result.Err?
    ensures exists w :: 0 <= w < |s.workers| && Refuses(s.workers[w])
    ensures forall w :: 0 <= w < |s.workers| ==> !Cancelled(s.workers[w])
  {
    InitialInv(CountFirst, n);
    EmptyPromiseNeedsRefusal(Initial(n), steps);
    RunKeepsInv(CountFirst, Initial(n), steps);
    FinalState(CountFirst, s);
  }

  lemma EmptyStepNeedsRefusal(s: State, step: Step)
    requires Inv(CountFirst, s) && Enabled(CountFirst, s, step)
    requires s.promise == Some([]) ==> exists w :: 0 <= w < |s.workers| && Refuses(s.workers[w])
    ensures var t := Apply(CountFirst, s, step);
            t.promise == Some([]) ==> exists w :: 0 <= w < |t.workers| && Refuses(t.workers[w])
  {
    hide Inv, Apply;
    StepKeepsFacts(CountFirst, s, step);
    if Apply(CountFirst, s, step).promise == Some([]) {
      if s.promise.None? {
        PromiseSetBy(CountFirst, s, step);
        RefusalStays(s, Apply(CountFirst, s, step), step.w);
      } else {
        var w :| 0 <= w < |s.workers| && Refuses(s.workers[w]);
        RefusalStays(s, Apply(CountFirst, s, step), w);
      }
    }
  }

  lemma RefusalStays(s: State, t: State, w: nat)
    requires w < |s.workers| && Refuses(s.workers[w]) && |t.workers| == |s.workers|
    requires s.workers[w].outcome.Some? ==> t.workers[w].outcome == s.workers[w].outcome
    ensures Refuses(t.workers[w])
  {
  }

  lemma {:induction false} EmptyPromiseNeedsRefusal(s: State, steps: seq<Step>)
    requires Inv(CountFirst, s) && Execute(CountFirst, s, steps).Some?
    requires s.promise == Some([]) ==> exists w :: 0 <= w < |s.workers| && Refuses(s.workers[w])
    ensures var t := Execute(CountFirst, s, steps).value;
            t.promise == Some([]) ==> exists w :: 0 <= w < |t.workers| && Refuses(t.workers[w])
    decreases |steps|
  {
    hide Inv, Apply, Enabled, Refuses;
    if steps != [] {
      StepKeepsInv(CountFirst, s, steps[0]);
      EmptyStepNeedsRefusal(s, steps[0]);
      EmptyPromiseNeedsRefusal(Apply(CountFirst, s, steps[0]), steps[1..]);
    }
  }

  // ------------------------------------------------------------------ which error code is kept

  /** The last worker of a run that stored its code. */
  function LastStore(steps: seq<Step>): Option<nat> {
    if steps == [] then None
    else if steps[|steps| - 1].StoreError? then Some(steps[|steps| - 1].w)
    else LastStore(steps[..|steps| - 1])
  }

  lemma StepStoresError(order: Order, s: State, step: Step)
    requires Enabled(order, s, step)
    ensures if step.StoreError? then
              && step.w < |s.workers| && Apply(order, s, step).workers[step.w].outcome == s.workers[step.w].outcome
              && s.workers[step.w].outcome == Some(Refused(Apply(order, s, step).batchError))
            else Apply(order, s, step).batchError == s.batchError
  {
    hide StopRequested, BatchResult, Answers, ReadyToCount;
  }

  /** The error a batch keeps is that of the last store, whatever was stored before it. */
  lemma {:induction false} LastStoreWins(order: Order, n: nat, steps: seq<Step>, s: State)
    requires Run(order, n, steps, s)
    ensures match LastStore(steps)
            case None => s.batchError == NODATA
            case Some(w) => w < |s.workers| && s.workers[w].outcome == Some(Refused(s.batchError))
    decreases |steps|
  {
    hide Inv, Enabled, Apply;
    if steps != [] {
      var front, last := steps[..|steps| - 1], steps[|steps| - 1];
      assert steps == front + [last];
      ExecuteFront(order, Initial(n), front, last);
      var r := Execute(order, Initial(n), front).value;
      LastStoreWins(order, n, front, r);
      InitialInv(order, n);
      RunKeepsInv(order, Initial(n), front);
      StepKeepsFacts(order, r, last);
      StepStoresError(order, r, last);
    }
  }

  lemma {:induction false} ExecuteFront(order: Order, s: State, front: seq<Step>, last: Step)
    requires Execute(order, s, front + [last]).Some?
    ensures Execute(order, s, front).Some?
    ensures Enabled(order, Execute(order, s, front).value, last)
    ensures Execute(order, s, front + [last]) == Some(Apply(order, Execute(order, s, front).value, last))
    decreases |front|
  {
    hide Apply, Enabled;
    if front == [] {
      assert front + [last] == [last] && [last][1..] == [];
      assert Execute(order, s, [last]) == Execute(order, Apply(order, s, last), []);
    } else {
      assert (front + [last])[1..] == front[1..] + [last];
      ExecuteFront(order, Apply(order, s, front[0]), front[1..], last);
    }
  }

  /** One more step at the end of a run. */
  lemma Then(n: nat, steps: seq<Step>, s: State, step: Step) returns (more: seq<Step>, t: State)
    requires Run(CountFirst, n, steps, s) && Enabled(CountFirst, s, step)
    ensures more == steps + [step] && t == Apply(CountFirst, s, step) && Run(CountFirst, n, more, t)
  {
    hide Apply, Enabled;
    more, t := steps + [step], Apply(CountFirst, s, step);
    ExecuteOne(CountFirst, s, step);
    ExecuteConcat(CountFirst, Initial(n), steps, [step]);
  }

  const PARSE_THEN_RETRY: seq<Worker> := [Worker(ErrorStored, Some(Refused(PARSE))), Worker(ErrorStored, Some(Refused(RETRY)))]

  const BOTH_RESOLVED: seq<Worker> := [Worker(Resolved, Some(Refused(PARSE))), Worker(Resolved, Some(Refused(RETRY)))]

  lemma BothHaveResolved() returns (steps: seq<Step>, s: State)
    ensures Run(CountFirst, 2, steps, s) && s == State(BOTH_RESOLVED, 0, false, false, NODATA, None, Waiting)
  {
    hide Execute, Run;
    steps, s := NoSteps(2);
    steps, s := Then(2, steps, s, CheckStop(0));
    steps, s := Then(2, steps, s, CheckStop(1));
    steps, s := Then(2, steps, s, Ask(0, Refused(PARSE)));
    steps, s := Then(2, steps, s, Ask(1, Refused(RETRY)));
    assert s.workers == BOTH_RESOLVED;
  }

  lemma BothHaveStored() returns (steps: seq<Step>, s: State)
    ensures Run(CountFirst, 2, steps, s) && s == State(PARSE_THEN_RETRY, 0, false, true, RETRY, None, Waiting)
  {
    hide Execute, Run;
    steps, s := BothHaveResolved();
    steps, s := Then(2, steps, s, StoreFlag(0));
    steps, s := Then(2, steps, s, StoreError(0));
    steps, s := Then(2, steps, s, StoreError(1));
    assert s.workers == PARSE_THEN_RETRY;
  }

  lemma NoSteps(n: nat) returns (steps: seq<Step>, s: State)
    requires n > 0
    ensures steps == [] && s == Initial(n) && Run(CountFirst, n, steps, s)
  {
    steps, s := [], Initial(n);
  }

  const BOTH_DONE: seq<Worker> := [Worker(Finished, Some(Refused(PARSE))), Worker(Finished, Some(Refused(RETRY)))]

  lemma BothAreDone() returns (steps: seq<Step>, s: State)
    ensures Run(CountFirst, 2, steps, s) && s == State(BOTH_DONE, 2, false, true, RETRY, Some([]), Waiting)
  {
    hide Execute, Run;
    steps, s := BothHaveStored();
    steps, s := Then(2, steps, s, Count(0));
    steps, s := Then(2, steps, s, Count(1));
    assert s.workers == [Worker(Counted(0), Some(Refused(PARSE))), Worker(Counted(1), Some(Refused(RETRY)))];
    steps, s := Then(2, steps, s, Deliver(0));
    steps, s := Then(2, steps, s, Deliver(1));
    assert s.workers == BOTH_DONE;
  }

  /** So a definitive code does not survive a later transient one: PARSE is reported, RETRY is returned. */
  lemma DefinitiveCodeCanBeOverwritten() returns (steps: seq<Step>, s: State)
    ensures Run(CountFirst, 2, steps, s) && s.definitive && s.main == Returned(Err(RETRY)) && |s.workers| == 2
    ensures s.workers[0].outcome == Some(Refused(PARSE)) && s.workers[1].outcome == Some(Refused(RETRY))
  {
    hide Execute, Run;
    steps, s := BothAreDone();
    steps, s := Then(2, steps, s, GetFuture);
    steps, s := Then(2, steps, s, JoinNext);
    steps, s := Then(2, steps, s, JoinNext);
    steps, s := Then(2, steps, s, Return);
  }
}
