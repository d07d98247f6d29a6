/**
 One batch of concurrent resolvers, as a state machine whose steps are the atomic operations of the
 worker threads and of the thread that runs the batch.

 A worker that gets an answer first increments the completion counter and then sets the promise;
 `SetFirst` is the same protocol with these two operations exchanged.
 */
module Batch {
  import opened Results
  import opened Bytes

  type Answer = seq<Octets>

  datatype Order = CountFirst | SetFirst

  /** What querying a resolver yields; an answer holds at least one record. A query is cancelled only by a stop request. */
  datatype Outcome = Answered(records: Answer) | Refused(code: DnsError)

  datatype Pc =
    | Start               // before the stop check
    | Asking              // inside try_resolve
    | Resolved            // try_resolve has returned
    | FlagStored          // has_definitive_ stored, batch_error_ not yet
    | ErrorStored         // everything stored, counter not yet incremented
    | Counted(prev: nat)  // counter incremented, promise not yet touched
    | AnswerSet           // SetFirst only: promise touched, counter not yet incremented
    | Finished

  datatype Worker = Worker(pc: Pc, outcome: Option<Outcome>)

  datatype MainPc =
    | Waiting                                      // in future.get()
    | Joining(next: nat, delivered: Answer)        // destroying the threads in order: stop, then join
    | Returned(result: Result<Answer, DnsError>)

  datatype State = State(
    workers: seq<Worker>, completed: nat, nxdomain: bool, definitive: bool, batchError: DnsError,
    promise: Option<Answer>, main: MainPc)

  datatype Step =
    | CheckStop(w: nat)
    | Ask(w: nat, outcome: Outcome)
    | StoreFlag(w: nat)
    | StoreError(w: nat)
    | Count(w: nat)
    | Deliver(w: nat)
    | GetFuture
    | JoinNext
    | Return

  // ------------------------------------------------------------------ steps

  function Initial(n: nat): State {
    State(seq(n, i => Worker(Start, None)), 0, false, false, NODATA, None, Waiting)
  }

  /** Destroying thread number `next` requests its stop before joining it. */
  predicate StopRequested(s: State, w: nat) {
    match s.main
    case Waiting => false
    case Joining(next, _) => w <= next
    case Returned(_) => true
  }

  predicate IsDefinitive(code: DnsError) {
    code == PARSE || code == CONFIG
  }

  predicate ReadyToCount(order: Order, worker: Worker) {
    || worker.pc == ErrorStored
    || (worker.pc == Resolved && worker.outcome == Some(Refused(CANCELLED)))
    || (order == CountFirst && worker.pc == Resolved && worker.outcome.Some? && worker.outcome.value.Answered?)
    || (order == SetFirst && worker.pc == AnswerSet)
  }

  predicate ReadyToDeliver(order: Order, worker: Worker) {
    || worker.pc.Counted?
    || (order == SetFirst && worker.pc == Resolved && worker.outcome.Some? && worker.outcome.value.Answered?)
  }

  predicate Refuses(worker: Worker) {
    worker.outcome.Some? && worker.outcome.value.Refused?
  }

  predicate Answers(worker: Worker) {
    worker.outcome.Some? && worker.outcome.value.Answered?
  }

  predicate Cancelled(worker: Worker) {
    worker.outcome == Some(Refused(CANCELLED))
  }

  predicate Enabled(order: Order, s: State, step: Step) {
    match step
    case CheckStop(w) => w < |s.workers| && s.workers[w].pc == Start
    case Ask(w, outcome) =>
      && w < |s.workers| && s.workers[w].pc == Asking && (outcome.Answered? ==> outcome.records != [])
      && (outcome == Refused(CANCELLED) ==> StopRequested(s, w))
    case StoreFlag(w) =>
      && w < |s.workers| && s.workers[w].pc == Resolved && Refuses(s.workers[w])
      && (s.workers[w].outcome.value.code == NX_DOMAIN || IsDefinitive(s.workers[w].outcome.value.code))
    case StoreError(w) =>
      && w < |s.workers| && Refuses(s.workers[w])
      && var code := s.workers[w].outcome.value.code;
         if IsDefinitive(code) then s.workers[w].pc == FlagStored
         else s.workers[w].pc == Resolved && code != NX_DOMAIN && code != CANCELLED
    case Count(w) => w < |s.workers| && ReadyToCount(order, s.workers[w])
    case Deliver(w) => w < |s.workers| && s.workers[w].outcome.Some? && ReadyToDeliver(order, s.workers[w])
    case GetFuture => s.main == Waiting && s.promise.Some?
    case JoinNext => s.main.Joining? && s.main.next < |s.workers| && s.workers[s.main.next].pc == Finished
    case Return => s.main.Joining? && s.main.next == |s.workers|
  }

  function Move(s: State, w: nat, pc: Pc): State
    requires w < |s.workers|
  {
    s.(workers := s.workers[w := s.workers[w].(pc := pc)])
  }

  /** Setting a promise that is set already throws, and the exception is swallowed. */
  function SetPromise(s: State, value: Answer): State {
    if s.promise.None? then s.(promise := Some(value)) else s
  }

  function BatchResult(s: State, delivered: Answer): Result<Answer, DnsError> {
    if delivered != [] then Ok(delivered)
    else if s.nxdomain then Err(NX_DOMAIN)
    else Err(s.batchError)
  }

  function Apply(order: Order, s: State, step: Step): State
    requires Enabled(order, s, step)
  {
    match step
    case CheckStop(w) => Move(s, w, if StopRequested(s, w) then Finished else Asking)
    case Ask(w, outcome) => s.(workers := s.workers[w := Worker(Resolved, Some(outcome))])
    case StoreFlag(w) =>
      if s.workers[w].outcome.value.code == NX_DOMAIN then Move(s, w, ErrorStored).(nxdomain := true)
      else Move(s, w, FlagStored).(definitive := true)
    case StoreError(w) => Move(s, w, ErrorStored).(batchError := s.workers[w].outcome.value.code)
    case Count(w) =>
      Move(s, w, if s.workers[w].pc == AnswerSet then Finished else Counted(s.completed)).(completed := s.completed + 1)
    case Deliver(w) =>
      var worker := s.workers[w];
      if Answers(worker) then
        SetPromise(Move(s, w, if worker.pc.Counted? then Finished else AnswerSet), worker.outcome.value.records)
      else if worker.pc.Counted? && worker.pc.prev + 1 == |s.workers| then SetPromise(Move(s, w, Finished), [])
      else Move(s, w, Finished)
    case GetFuture => s.(main := Joining(0, s.promise.value))
    case JoinNext => s.(main := Joining(s.main.next + 1, s.main.delivered))
    case Return => s.(main := Returned(BatchResult(s, s.main.delivered)))
  }

  /** The state after a run, if every step was enabled when it was taken. */
  function Execute(order: Order, s: State, steps: seq<Step>): Option<State>
    decreases |steps|
  {
    if steps == [] then Some(s)
    else if Enabled(order, s, steps[0]) then Execute(order, Apply(order, s, steps[0]), steps[1..])
    else None
  }

  // ------------------------------------------------------------------ counting

  predicate Incremented(order: Order, worker: Worker) {
    worker.pc.Counted? || (worker.pc == Finished && worker.outcome.Some?)
  }

  function Tally(order: Order, workers: seq<Worker>): (t: nat)
    ensures t <= |workers|
  {
    if workers == [] then 0
    else Tally(order, workers[1..]) + if Incremented(order, workers[0]) then 1 else 0
  }

  lemma {:induction false} TallyUpdated(order: Order, workers: seq<Worker>, w: nat, worker: Worker)
    requires w < |workers|
    ensures Tally(order, workers[w := worker]) - Tally(order, workers)
         == (if Incremented(order, worker) then 1 else 0) - (if Incremented(order, workers[w]) then 1 else 0)
  {
    if w == 0 {
      assert workers[w := worker][1..] == workers[1..];
    } else {
      assert workers[w := worker][1..] == workers[1..][w - 1 := worker];
      TallyUpdated(order, workers[1..], w - 1, worker);
    }
  }

  lemma {:induction false} FullTally(order: Order, workers: seq<Worker>)
    ensures Tally(order, workers) == |workers| <==> forall w :: 0 <= w < |workers| ==> Incremented(order, workers[w])
  {
    if workers != [] {
      FullTally(order, workers[1..]);
      assert forall w :: 0 < w < |workers| ==> workers[w] == workers[1..][w - 1];
      if forall w :: 0 <= w < |workers| ==> Incremented(order, workers[w]) {
        forall w | 0 <= w < |workers[1..]| ensures Incremented(order, workers[1..][w]) {
          assert workers[1..][w] == workers[w + 1];
        }
      }
    }
  }

  lemma {:induction false} NoTally(order: Order, workers: seq<Worker>)
    requires forall w :: 0 <= w < |workers| ==> !Incremented(order, workers[w])
    ensures Tally(order, workers) == 0
  {
    if workers != [] { NoTally(order, workers[1..]); }
  }

  // ------------------------------------------------------------------ the invariant

  /** A worker's program counter and outcome fit together. */
  predicate WorkerSound(order: Order, worker: Worker) {
    && (worker.outcome.Some? ==> worker.pc != Start && worker.pc != Asking)
    && (worker.outcome.None? ==> worker.pc in {Start, Asking, Finished})
    && (Answers(worker) ==> worker.outcome.value.records != [] && worker.pc != FlagStored && worker.pc != ErrorStored)
    && (worker.pc == AnswerSet ==> order == SetFirst && Answers(worker))
    && (order == SetFirst && Answers(worker) ==> !worker.pc.Counted?)
    && (worker.pc == FlagStored ==> Refuses(worker) && IsDefinitive(worker.outcome.value.code))
    && (worker.pc == ErrorStored ==> Refuses(worker) && worker.outcome.value.code != CANCELLED)
  }

  /** The worker has done its flag stores. */
  predicate Stored(worker: Worker) {
    Refuses(worker) && (worker.pc == ErrorStored || worker.pc.Counted? || worker.pc == Finished)
  }

  predicate StoresError(worker: Worker) {
    Stored(worker) && worker.outcome.value.code != CANCELLED && worker.outcome.value.code != NX_DOMAIN
  }

  ghost predicate WorkersSound(order: Order, s: State) {
    forall w :: 0 <= w < |s.workers| ==> WorkerSound(order, s.workers[w])
  }

  /** The counter counts, and the last increment either sits with its worker or has satisfied the promise. */
  ghost predicate CounterSound(order: Order, s: State) {
    && s.completed == Tally(order, s.workers)
    && (forall w :: 0 <= w < |s.workers| && s.workers[w].pc.Counted? ==> s.workers[w].pc.prev < s.completed)
    && (s.completed == |s.workers| && s.promise.None? ==>
          exists w :: 0 <= w < |s.workers| && s.workers[w].pc == Counted(|s.workers| - 1))
  }

  ghost predicate SomeStored(s: State, code: DnsError) {
    exists w :: 0 <= w < |s.workers| && Stored(s.workers[w]) && s.workers[w].outcome == Some(Refused(code))
  }

  ghost predicate ErrorSound(s: State) {
    || (s.batchError == NODATA && forall w :: 0 <= w < |s.workers| ==> !StoresError(s.workers[w]))
    || exists w :: 0 <= w < |s.workers| && StoresError(s.workers[w]) && s.workers[w].outcome == Some(Refused(s.batchError))
  }

  /** The flags say what the workers that have stored reported; the error is that of the last store. */
  ghost predicate FlagsSound(s: State) {
    && (s.nxdomain <==> SomeStored(s, NX_DOMAIN))
    && ErrorSound(s)
  }

  /** Where a set promise got its value, and what had to happen before. */
  ghost predicate PromiseSound(order: Order, s: State) {
    && (s.promise.Some? && s.promise.value != [] ==>
          exists w :: 0 <= w < |s.workers| && s.workers[w].outcome == Some(Answered(s.promise.value)))
    && (s.promise == Some([]) ==> s.completed == |s.workers|)
    && (forall w :: 0 <= w < |s.workers| && Cancelled(s.workers[w]) ==> s.promise.Some? && s.promise.value != [])
    && (forall w :: 0 <= w < |s.workers| && s.workers[w].pc == Finished && s.workers[w].outcome.None? ==> s.promise.Some?)
    && (order == SetFirst ==>
          && (s.promise == Some([]) ==> forall w :: 0 <= w < |s.workers| ==> !Answers(s.workers[w]))
          && (forall w :: 0 <= w < |s.workers| && Answers(s.workers[w]) && s.workers[w].pc != Resolved ==> s.promise.Some?))
    && (order == CountFirst ==>
          forall w :: 0 <= w < |s.workers| && Answers(s.workers[w]) && s.workers[w].pc == Finished ==> s.promise.Some?)
  }

  /** The running thread goes on only with the value of the promise, joining the threads in order. */
  ghost predicate MainSound(s: State) {
    match s.main
    case Waiting => true
    case Joining(next, delivered) =>
      && s.promise == Some(delivered) && next <= |s.workers|
      && (forall w :: 0 <= w < next ==> s.workers[w].pc == Finished)
    case Returned(result) =>
      && s.promise.Some? && result == BatchResult(s, s.promise.value)
      && (forall w :: 0 <= w < |s.workers| ==> s.workers[w].pc == Finished)
  }

  ghost predicate Inv(order: Order, s: State) {
    && |s.workers| > 0
    && WorkersSound(order, s) && CounterSound(order, s) && FlagsSound(s) && PromiseSound(order, s) && MainSound(s)
  }

  lemma InitialInv(order: Order, n: nat)
    requires n > 0
    ensures Inv(order, Initial(n))
  {
    NoTally(order, Initial(n).workers);
  }

  predicate WorkerStep(step: Step) {
    !step.GetFuture? && !step.JoinNext? && !step.Return?
  }

  /** A worker's step changes that worker alone, and takes back no outcome, no count and no promise. */
  lemma OneWorkerMoves(order: Order, s: State, step: Step)
    requires Enabled(order, s, step) && WorkerStep(step)
    requires s.workers[step.w].outcome.Some? ==> s.workers[step.w].pc != Asking
    ensures var s', w := Apply(order, s, step), step.w;
            && w < |s.workers| == |s'.workers| && s'.workers == s.workers[w := s'.workers[w]] && s'.main == s.main
            && (s.workers[w].outcome.Some? ==> s'.workers[w].outcome == s.workers[w].outcome)
            && s'.completed == s.completed + (if step.Count? then 1 else 0)
            && (s.promise.Some? ==> s'.promise == s.promise)
  {
    hide BatchResult, StopRequested, Refuses, Answers, ReadyToCount;
  }

  lemma MovedWorkerSound(order: Order, s: State, step: Step)
    requires Enabled(order, s, step) && WorkerStep(step) && WorkerSound(order, s.workers[step.w])
    ensures WorkerSound(order, Apply(order, s, step).workers[step.w])
  {
    hide BatchResult, StopRequested;
  }

  lemma MovedWorkerCounts(order: Order, s: State, step: Step)
    requires Enabled(order, s, step) && WorkerStep(step) && WorkerSound(order, s.workers[step.w])
    ensures var worker', worker := Apply(order, s, step).workers[step.w], s.workers[step.w];
            && (Stored(worker) ==> Stored(worker'))
            && (Incremented(order, worker') <==> Incremented(order, worker) || step.Count?)
            && (step.Count? ==> !Incremented(order, worker))
  {
    hide BatchResult, StopRequested;
  }

  /** The worker that moves stays sound and loses nothing it has stored; it is counted just by `Count`. */
  lemma MovedWorker(order: Order, s: State, step: Step)
    requires Enabled(order, s, step) && WorkerStep(step) && WorkerSound(order, s.workers[step.w])
    ensures var worker', worker := Apply(order, s, step).workers[step.w], s.workers[step.w];
            && WorkerSound(order, worker')
            && (Stored(worker) ==> Stored(worker'))
            && (Incremented(order, worker') <==> Incremented(order, worker) || step.Count?)
            && (step.Count? ==> !Incremented(order, worker))
  {
    hide Apply, Enabled, WorkerSound, Stored, Incremented;
    MovedWorkerSound(order, s, step);
    MovedWorkerCounts(order, s, step);
  }

  lemma StepKeepsWorkers(order: Order, s: State, step: Step)
    requires Inv(order, s) && Enabled(order, s, step)
    ensures WorkersSound(order, Apply(order, s, step)) && |Apply(order, s, step).workers| == |s.workers|
  {
    if WorkerStep(step) {
      hide Apply, Enabled;
      OneWorkerMoves(order, s, step);
      MovedWorker(order, s, step);
    }
  }

  lemma StepKeepsTally(order: Order, s: State, step: Step)
    requires Inv(order, s) && Enabled(order, s, step)
    ensures Apply(order, s, step).completed == Tally(order, Apply(order, s, step).workers)
    ensures s.completed == |s.workers| ==> !step.Count? && !step.Ask?
  {
    hide FlagsSound, PromiseSound, MainSound, BatchResult, StopRequested;
    if WorkerStep(step) {
      OneWorkerMoves(order, s, step);
      MovedWorker(order, s, step);
      TallyUpdated(order, s.workers, step.w, Apply(order, s, step).workers[step.w]);
      FullTally(order, s.workers);
    }
  }

  lemma MovedPrev(order: Order, s: State, step: Step)
    requires Enabled(order, s, step) && WorkerStep(step)
    ensures var pc, pc' := s.workers[step.w].pc, Apply(order, s, step).workers[step.w].pc;
            pc'.Counted? ==> pc'.prev < Apply(order, s, step).completed || pc == pc'
  {
    hide StopRequested, BatchResult, Refuses, Answers, ReadyToCount;
  }

  lemma StepKeepsPrevs(order: Order, s: State, step: Step)
    requires Inv(order, s) && Enabled(order, s, step)
    ensures var s' := Apply(order, s, step);
            forall w :: 0 <= w < |s'.workers| && s'.workers[w].pc.Counted? ==> s'.workers[w].pc.prev < s'.completed
  {
    hide FlagsSound, PromiseSound, MainSound, Apply, Enabled;
    if WorkerStep(step) {
      OutcomeUnlessAsking(order, s, step);
      OneWorkerMoves(order, s, step);
      MovedPrev(order, s, step);
    } else {
      KeepsWorkers(order, s, step);
    }
  }

  /** Counting leaves the old count with the worker, and only setting the promise takes it away again. */
  lemma MovedCount(order: Order, s: State, step: Step)
    requires Enabled(order, s, step) && WorkerStep(step) && WorkerSound(order, s.workers[step.w])
    ensures step.Count? && Apply(order, s, step).workers[step.w].pc != Finished
        ==> Apply(order, s, step).workers[step.w].pc == Counted(s.completed)
    ensures s.workers[step.w].pc == Counted(|s.workers| - 1) && Apply(order, s, step).promise.None?
        ==> Apply(order, s, step).workers[step.w].pc == Counted(|s.workers| - 1)
    ensures step.Count? && Apply(order, s, step).workers[step.w].pc == Finished ==> s.workers[step.w].pc == AnswerSet
  {
    hide BatchResult, StopRequested;
  }

  /** The last increment stays with its worker until the promise is set. */
  lemma StepKeepsLastCount(order: Order, s: State, step: Step)
    requires Inv(order, s) && Enabled(order, s, step)
    requires Apply(order, s, step).completed == |s.workers| && Apply(order, s, step).promise.None?
    ensures var s' := Apply(order, s, step);
            exists w :: 0 <= w < |s'.workers| && s'.workers[w].pc == Counted(|s'.workers| - 1)
  {
    hide FlagsSound, MainSound, Apply, Enabled;
    var s' := Apply(order, s, step);
    if WorkerStep(step) {
      OutcomeUnlessAsking(order, s, step);
      OneWorkerMoves(order, s, step);
      MovedCount(order, s, step);
      if step.Count? {
        assert WorkerSound(order, s.workers[step.w]);
        assert s'.workers[step.w].pc == Counted(|s'.workers| - 1);
      } else {
        var w :| 0 <= w < |s.workers| && s.workers[w].pc == Counted(|s.workers| - 1);
        assert s'.workers[w].pc == Counted(|s.workers| - 1);
      }
    } else {
      KeepsWorkers(order, s, step);
    }
  }

  lemma StepKeepsCounter(order: Order, s: State, step: Step)
    requires Inv(order, s) && Enabled(order, s, step)
    ensures CounterSound(order, Apply(order, s, step))
  {
    StepKeepsWorkers(order, s, step);
    StepKeepsTally(order, s, step);
    StepKeepsPrevs(order, s, step);
    if Apply(order, s, step).completed == |s.workers| && Apply(order, s, step).promise.None? {
      StepKeepsLastCount(order, s, step);
    }
  }

  predicate StoredNxdomain(worker: Worker) {
    Stored(worker) && worker.outcome == Some(Refused(NX_DOMAIN))
  }

  /** A worker has reported NX_DOMAIN after a step just if it had before, or the step was its report. */
  lemma MovedNxdomain(order: Order, s: State, step: Step)
    requires Enabled(order, s, step) && WorkerStep(step) && WorkerSound(order, s.workers[step.w])
    ensures var s', w := Apply(order, s, step), step.w;
            && (StoredNxdomain(s'.workers[w]) ==> StoredNxdomain(s.workers[w]) || s'.nxdomain)
            && (StoredNxdomain(s.workers[w]) ==> StoredNxdomain(s'.workers[w]))
            && (s'.nxdomain <==> s.nxdomain || (StoredNxdomain(s'.workers[w]) && step.StoreFlag?))
  {
    hide BatchResult, StopRequested;
  }

  lemma StepKeepsNxdomain(order: Order, s: State, step: Step)
    requires Inv(order, s) && Enabled(order, s, step)
    ensures Apply(order, s, step).nxdomain <==> SomeStored(Apply(order, s, step), NX_DOMAIN)
  {
    hide CounterSound, PromiseSound, MainSound, Apply, Enabled, Stored, WorkerSound;
    var s' := Apply(order, s, step);
    if WorkerStep(step) {
      OutcomeUnlessAsking(order, s, step);
      OneWorkerMoves(order, s, step);
      MovedNxdomain(order, s, step);
      if s'.nxdomain {
        if s.nxdomain {
          var w :| 0 <= w < |s.workers| && Stored(s.workers[w]) && s.workers[w].outcome == Some(Refused(NX_DOMAIN));
          assert StoredNxdomain(s.workers[w]) && StoredNxdomain(s'.workers[w]);
        } else {
          assert StoredNxdomain(s'.workers[step.w]);
        }
      }
      if w :| 0 <= w < |s'.workers| && Stored(s'.workers[w]) && s'.workers[w].outcome == Some(Refused(NX_DOMAIN)) {
        assert StoredNxdomain(s'.workers[w]);
        assert w != step.w ==> StoredNxdomain(s.workers[w]);
      }
    } else {
      KeepsWorkers(order, s, step);
    }
  }

  /** A worker has a stored error after a step just if it had one before, or the step stored it. */
  lemma StepKeepsStores(order: Order, s: State, step: Step, w: nat)
    requires WorkersSound(order, s) && Enabled(order, s, step) && w < |s.workers|
    ensures var s' := Apply(order, s, step);
            && |s'.workers| == |s.workers|
            && (StoresError(s'.workers[w]) <==> StoresError(s.workers[w]) || step == StoreError(w))
            && (StoresError(s.workers[w]) ==> s'.workers[w].outcome == s.workers[w].outcome)
  {
    hide StopRequested, BatchResult;
    assert WorkerSound(order, s.workers[w]);
  }

  lemma StepKeepsError(order: Order, s: State, step: Step)
    requires WorkersSound(order, s) && ErrorSound(s) && Enabled(order, s, step)
    ensures ErrorSound(Apply(order, s, step))
  {
    hide StopRequested, BatchResult, StoresError, WorkersSound;
    var s' := Apply(order, s, step);
    forall w | 0 <= w < |s.workers|
      ensures StoresError(s'.workers[w]) <==> StoresError(s.workers[w]) || step == StoreError(w)
      ensures StoresError(s.workers[w]) ==> s'.workers[w].outcome == s.workers[w].outcome
    {
      StepKeepsStores(order, s, step, w);
    }
    if step.StoreError? {
      assert StoresError(s'.workers[step.w]);
    } else if w :| 0 <= w < |s.workers| && StoresError(s.workers[w]) && s.workers[w].outcome == Some(Refused(s.batchError)) {
      assert StoresError(s'.workers[w]);
    }
  }

  lemma StepKeepsFlags(order: Order, s: State, step: Step)
    requires Inv(order, s) && Enabled(order, s, step)
    ensures FlagsSound(Apply(order, s, step))
  {
    StepKeepsNxdomain(order, s, step);
    StepKeepsError(order, s, step);
  }

  /** What a step that sets the promise has before it. */
  lemma PromiseSetBy(order: Order, s: State, step: Step)
    requires Inv(order, s) && Enabled(order, s, step)
    requires s.promise.None? && Apply(order, s, step).promise.Some?
    ensures step.Deliver? && step.w < |s.workers| && s.main == Waiting
    ensures Apply(order, s, step).promise.value != []
        ==> s.workers[step.w].outcome == Some(Answered(Apply(order, s, step).promise.value))
    ensures Apply(order, s, step).promise.value == []
        ==> s.completed == |s.workers| && s.workers[step.w].pc.Counted? && Refuses(s.workers[step.w])
  {
    FullTally(order, s.workers);
    assert s.completed <= |s.workers|;
  }

  lemma StepKeepsPromiseValue(order: Order, s: State, step: Step)
    requires Inv(order, s) && Enabled(order, s, step)
    ensures var s' := Apply(order, s, step);
      && (s'.promise.Some? && s'.promise.value != [] ==>
            exists w :: 0 <= w < |s'.workers| && s'.workers[w].outcome == Some(Answered(s'.promise.value)))
      && (s'.promise == Some([]) ==> s'.completed == |s'.workers|)
  {
    hide FlagsSound, MainSound, BatchResult, StopRequested, Apply, Enabled;
    var s' := Apply(order, s, step);
    StepKeepsTally(order, s, step);
    if !step.Count? { StepKeepsCount(order, s, step); }
    if WorkerStep(step) {
      OutcomeUnlessAsking(order, s, step);
      OneWorkerMoves(order, s, step);
    } else {
      KeepsWorkers(order, s, step);
    }
    if s.promise.None? && s'.promise.Some? {
      PromiseSetBy(order, s, step);
      assert s'.workers[step.w].outcome == s.workers[step.w].outcome;
    } else if s.promise.Some? && s.promise.value != [] {
      var w :| 0 <= w < |s.workers| && s.workers[w].outcome == Some(Answered(s.promise.value));
      assert s'.workers[w].outcome == s.workers[w].outcome;
    }
  }

  lemma StepKeepsCount(order: Order, s: State, step: Step)
    requires Enabled(order, s, step) && !step.Count?
    ensures Apply(order, s, step).completed == s.completed
  {
    hide BatchResult, StopRequested;
  }

  /** With the promise set first, an empty value can be set only when no worker answered. */
  lemma EmptyMeansNoAnswer(order: Order, s: State, step: Step)
    requires Inv(order, s) && Enabled(order, s, step) && order == SetFirst
    requires Apply(order, s, step).promise == Some([])
    ensures forall w :: 0 <= w < |s.workers| ==> !Answers(Apply(order, s, step).workers[w])
  {
    hide FlagsSound, MainSound, BatchResult, StopRequested;
    FullTally(order, s.workers);
    if s.promise.None? { PromiseSetBy(order, s, step); }
    StepKeepsTally(order, s, step);
    if WorkerStep(step) { OneWorkerMoves(order, s, step); }
  }

  /** A query is cancelled only when an answer has been delivered. */
  lemma CancelledMeansAnswered(order: Order, s: State, step: Step)
    requires Inv(order, s) && Enabled(order, s, step)
    ensures var s' := Apply(order, s, step);
            forall w :: 0 <= w < |s'.workers| && Cancelled(s'.workers[w]) ==> s'.promise.Some? && s'.promise.value != []
  {
    hide FlagsSound, BatchResult, CounterSound, Apply, Enabled;
    StepKeepsTally(order, s, step);
    if WorkerStep(step) {
      OutcomeUnlessAsking(order, s, step);
      OneWorkerMoves(order, s, step);
      if step.Ask? { CancelledByStop(order, s, step); }
    } else {
      KeepsWorkers(order, s, step);
    }
  }

  lemma OutcomeUnlessAsking(order: Order, s: State, step: Step)
    requires WorkersSound(order, s) && Enabled(order, s, step) && WorkerStep(step)
    ensures s.workers[step.w].outcome.Some? ==> s.workers[step.w].pc != Asking
    ensures !step.Ask? ==> Apply(order, s, step).workers[step.w].outcome == s.workers[step.w].outcome
  {
    hide BatchResult, StopRequested, Answers, Refuses, ReadyToCount;
    assert WorkerSound(order, s.workers[step.w]);
  }

  lemma KeepsWorkers(order: Order, s: State, step: Step)
    requires Enabled(order, s, step) && !WorkerStep(step)
    ensures var s' := Apply(order, s, step);
            s'.workers == s.workers && s'.promise == s.promise && s'.completed == s.completed && s'.nxdomain == s.nxdomain
  {
  }

  lemma CancelledByStop(order: Order, s: State, step: Step)
    requires MainSound(s) && Enabled(order, s, step) && step.Ask?
    ensures Cancelled(Apply(order, s, step).workers[step.w]) ==> s.promise.Some? && Apply(order, s, step).promise == s.promise
  {
    hide BatchResult;
  }

  /** A worker that finished without a query, or that answered and is done, has found or left the promise set. */
  predicate LeftPromise(order: Order, worker: Worker, promise: Option<Answer>) {
    && (worker.pc == Finished && worker.outcome.None? ==> promise.Some?)
    && (order == SetFirst && Answers(worker) && worker.pc != Resolved ==> promise.Some?)
    && (order == CountFirst && Answers(worker) && worker.pc == Finished ==> promise.Some?)
  }

  lemma MovedLeavesPromise(order: Order, s: State, step: Step)
    requires MainSound(s) && Enabled(order, s, step) && WorkerStep(step) && WorkerSound(order, s.workers[step.w])
    requires LeftPromise(order, s.workers[step.w], s.promise)
    ensures LeftPromise(order, Apply(order, s, step).workers[step.w], Apply(order, s, step).promise)
  {
    hide BatchResult;
  }

  lemma WorkerLeavesPromise(order: Order, s: State, step: Step, w: nat)
    requires Inv(order, s) && Enabled(order, s, step) && w < |s.workers|
    ensures |Apply(order, s, step).workers| == |s.workers|
    ensures LeftPromise(order, Apply(order, s, step).workers[w], Apply(order, s, step).promise)
  {
    hide FlagsSound, CounterSound, Apply, Enabled, Cancelled;
    if WorkerStep(step) {
      OutcomeUnlessAsking(order, s, step);
      OneWorkerMoves(order, s, step);
      if step.w == w { MovedLeavesPromise(order, s, step); }
    } else {
      KeepsWorkers(order, s, step);
    }
  }

  lemma StepKeepsPromise(order: Order, s: State, step: Step)
    requires Inv(order, s) && Enabled(order, s, step)
    ensures PromiseSound(order, Apply(order, s, step))
  {
    hide Inv, Apply, Enabled, Cancelled;
    var s' := Apply(order, s, step);
    CancelledMeansAnswered(order, s, step);
    StepKeepsPromiseValue(order, s, step);
    StepKeepsSize(order, s, step);
    forall w | 0 <= w < |s'.workers| ensures LeftPromise(order, s'.workers[w], s'.promise) {
      WorkerLeavesPromise(order, s, step, w);
    }
    if order == SetFirst && s'.promise == Some([]) { EmptyMeansNoAnswer(order, s, step); }
  }

  lemma StepKeepsSize(order: Order, s: State, step: Step)
    requires Enabled(order, s, step)
    ensures |Apply(order, s, step).workers| == |s.workers|
  {
  }

  lemma StepKeepsMain(order: Order, s: State, step: Step)
    requires Inv(order, s) && Enabled(order, s, step)
    ensures MainSound(Apply(order, s, step))
  {
    hide FlagsSound, PromiseSound, CounterSound;
  }

  /** Every step keeps the invariant. */
  lemma StepKeepsInv(order: Order, s: State, step: Step)
    requires Inv(order, s) && Enabled(order, s, step)
    ensures Inv(order, Apply(order, s, step))
  {
    hide Apply, Enabled, WorkersSound, CounterSound, FlagsSound, PromiseSound, MainSound;
    StepKeepsWorkers(order, s, step);
    StepKeepsCounter(order, s, step);
    StepKeepsFlags(order, s, step);
    StepKeepsPromise(order, s, step);
    StepKeepsMain(order, s, step);
  }
}
