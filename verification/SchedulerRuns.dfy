/**
 Whole runs of the scheduler: when `pop_all_due` ends at all, and how the pops of one task are spaced
 over any number of calls with a monotone clock.
 */
module SchedulerRuns {
  import opened Scheduler

  // ------------------------------------------------------------------ when a pop ends

  function PopOne(heap: Heap, now: int, id: nat): Heap
    requires id in heap
  {
    heap[id := Requeued(heap[id], now)]
  }

  /** The tasks of `ids` can be popped one after the other, each being at the top when its turn comes. */
  ghost predicate PopRun(heap: Heap, now: int, ids: seq<nat>)
    decreases |ids|
  {
    ids == [] || (Nearest(heap, ids[0]) && IsDue(heap[ids[0]], now) && PopRun(PopOne(heap, now, ids[0]), now, ids[1..]))
  }

  ghost function AfterRun(heap: Heap, now: int, ids: seq<nat>): Heap
    requires PopRun(heap, now, ids)
    decreases |ids|
  {
    if ids == [] then heap else AfterRun(PopOne(heap, now, ids[0]), now, ids[1..])
  }

  lemma {:induction false} RunIsBounded(heap: Heap, now: int, popped: set<nat>, current: Heap, ids: seq<nat>)
    requires HalfPopped(heap, now, popped, current) && DueIntervalsPositive(heap, now) && PopRun(current, now, ids)
    ensures |ids| <= |heap.Keys - popped|
    decreases |ids|
  {
    hide HalfPopped, Requeued, DueIntervalsPositive;
    if ids != [] {
      PopsOneMore(heap, now, popped, current, ids[0]);
      RunIsBounded(heap, now, popped + {ids[0]}, PopOne(current, now, ids[0]), ids[1..]);
      HalfPoppedKeys(heap, now, popped, current);
      assert heap.Keys - (popped + {ids[0]}) == (heap.Keys - popped) - {ids[0]};
    }
  }

  lemma HalfPoppedKeys(heap: Heap, now: int, popped: set<nat>, current: Heap)
    requires HalfPopped(heap, now, popped, current)
    ensures current.Keys == heap.Keys
  {
  }

  lemma {:induction false} StaysDue(heap: Heap, now: int, ids: seq<nat>, id: nat)
    requires PopRun(heap, now, ids) && id in heap && IsDue(heap[id], now) && heap[id].updateInterval <= 0
    ensures id in AfterRun(heap, now, ids) && IsDue(AfterRun(heap, now, ids)[id], now)
    decreases |ids|
  {
    hide Forces;
    if ids != [] { StaysDue(PopOne(heap, now, ids[0]), now, ids[1..], id); }
  }

  ghost predicate SomethingDue(heap: Heap, now: int) {
    exists id :: id in heap && IsDue(heap[id], now)
  }

  /** A run of pops after which the loop ends. */
  ghost predicate EndedRun(heap: Heap, now: int, ids: seq<nat>) {
    PopRun(heap, now, ids) && !SomethingDue(AfterRun(heap, now, ids), now)
  }

  /**
   The loop of `pop_all_due` ends if and only if every task due at `now` has a positive interval: then it
   takes at most one iteration a task, and otherwise something is due after any number of iterations.
   */
  lemma PoppingEndsExactly(heap: Heap, now: int)
    ensures DueIntervalsPositive(heap, now) ==> forall ids :: PopRun(heap, now, ids) ==> |ids| <= |heap.Keys|
    ensures DueIntervalsPositive(heap, now) <==> exists ids :: EndedRun(heap, now, ids)
  {
    if DueIntervalsPositive(heap, now) {
      NothingPopped(heap, now);
      forall ids | PopRun(heap, now, ids) ensures |ids| <= |heap.Keys| {
        RunIsBounded(heap, now, {}, heap, ids);
      }
      var ids := EndingRun(heap, now, {}, heap);
      assert EndedRun(heap, now, ids);
    } else {
      var id :| id in heap && IsDue(heap[id], now) && heap[id].updateInterval <= 0;
      forall ids | PopRun(heap, now, ids) ensures SomethingDue(AfterRun(heap, now, ids), now) {
        StaysDue(heap, now, ids, id);
      }
    }
  }

  lemma {:induction false} EndingRun(heap: Heap, now: int, popped: set<nat>, current: Heap) returns (ids: seq<nat>)
    requires HalfPopped(heap, now, popped, current) && DueIntervalsPositive(heap, now)
    ensures PopRun(current, now, ids) && !SomethingDue(AfterRun(current, now, ids), now)
    decreases |heap.Keys - popped|
  {
    hide HalfPopped, Requeued, DueIntervalsPositive;
    if SomethingDue(current, now) {
      var id := NearestExists(current, current.Keys);
      PopsOneMore(heap, now, popped, current, id);
      HalfPoppedKeys(heap, now, popped, current);
      assert heap.Keys - (popped + {id}) == (heap.Keys - popped) - {id};
      var rest := EndingRun(heap, now, popped + {id}, PopOne(current, now, id));
      ids := [id] + rest;
      assert ids[1..] == rest;
    } else {
      ids := [];
    }
  }

  /** What the validator demands of the intervals, with the configured minimum. */
  predicate IntervalsValid(domains: seq<Domain>, minimum: int) {
    forall d :: 0 <= d < |domains| ==>
      && domains[d].subdomains != []
      && domains[d].updateInterval >= minimum
      && (domains[d].forceUpdate == 0 || domains[d].forceUpdate >= domains[d].updateInterval)
      && forall s :: 0 <= s < |domains[d].subdomains| ==>
           domains[d].subdomains[s].updateInterval == 0 || domains[d].subdomains[s].updateInterval >= minimum
  }

  lemma {:induction false} TasksAreValid(domains: seq<Domain>, minimum: int)
    requires IntervalsValid(domains, minimum)
    ensures forall i :: 0 <= i < |Tasks(domains)| ==> EffectiveInterval(Tasks(domains)[i].0, Tasks(domains)[i].1) >= minimum
    decreases |domains|
  {
    if domains != [] {
      var front := domains[..|domains| - 1];
      assert forall d :: 0 <= d < |front| ==> front[d] == domains[d];
      TasksAreValid(front, minimum);
    }
  }

  /** After any calls of any run, a `pop_all_due` made at `now` ends. */
  predicate PopEnds(domains: seq<Domain>, clock: nat -> int, times: seq<int>, now: int) {
    DueIntervalsPositive(HeapAfter(Pushed(Tasks(domains), clock), times, |times|), now)
  }

  /**
   A validated configuration with a positive minimum never keeps the scheduler from ending its pops, at
   any time of any run; with a minimum of zero, which the build accepts, a validated configuration can.
   */
  lemma MinimumMustBePositive(minimum: nat)
    ensures minimum > 0 <==>
      forall domains, clock, times, now :: IntervalsValid(domains, minimum) ==> PopEnds(domains, clock, times, now)
  {
    if minimum > 0 {
      forall domains, clock, times, now | IntervalsValid(domains, minimum) ensures PopEnds(domains, clock, times, now) {
        TasksAreValid(domains, minimum);
        var heap := Pushed(Tasks(domains), clock);
        forall id | id in heap ensures HeapAfter(heap, times, |times|)[id].updateInterval > 0 {
          EntryHistory(heap, times, id, |times|);
        }
      }
    } else {
      var domains, clock := [Domain(0, 0, [Subdomain(0)])], (i: nat) => 0;
      assert domains[..0] == [] && Tasks([]) == [];
      assert Tasks(domains) == [(domains[0], Subdomain(0))];
      var heap := HeapAfter(Pushed(Tasks(domains), clock), [], 0);
      assert 0 in heap && IsDue(heap[0], 0) && heap[0].updateInterval == 0;
      assert IntervalsValid(domains, minimum) && !PopEnds(domains, clock, [], 0);
    }
  }

  // ------------------------------------------------------------------ runs

  /** The heap after the first `k` of the calls made at `times`. */
  function HeapAfter(heap: Heap, times: seq<int>, k: nat): (h: Heap)
    requires k <= |times|
    ensures h.Keys == heap.Keys
  {
    if k == 0 then heap else AfterPop(HeapAfter(heap, times, k - 1), times[k - 1])
  }

  predicate PoppedAt(heap: Heap, times: seq<int>, id: nat, k: nat)
    requires id in heap && k < |times|
  {
    IsDue(HeapAfter(heap, times, k)[id], times[k])
  }

  predicate ForcedAt(heap: Heap, times: seq<int>, id: nat, k: nat)
    requires id in heap && k < |times|
  {
    PoppedAt(heap, times, id, k) && Forces(HeapAfter(heap, times, k)[id], times[k])
  }

  /** The last call before the `k`-th that popped the task. */
  function LastPop(heap: Heap, times: seq<int>, id: nat, k: nat): (j: int)
    requires id in heap && k <= |times|
    ensures -1 <= j < k && (j >= 0 ==> PoppedAt(heap, times, id, j))
    ensures forall i :: j < i < k ==> !PoppedAt(heap, times, id, i)
  {
    if k == 0 then -1 else if PoppedAt(heap, times, id, k - 1) then k - 1 else LastPop(heap, times, id, k - 1)
  }

  function LastForced(heap: Heap, times: seq<int>, id: nat, k: nat): (j: int)
    requires id in heap && k <= |times|
    ensures -1 <= j < k && (j >= 0 ==> ForcedAt(heap, times, id, j))
    ensures forall i :: j < i < k ==> !ForcedAt(heap, times, id, i)
  {
    if k == 0 then -1 else if ForcedAt(heap, times, id, k - 1) then k - 1 else LastForced(heap, times, id, k - 1)
  }

  /** What the entry of a task remembers: its intervals, its last pop and its last forced pop. */
  lemma {:induction false} EntryHistory(heap: Heap, times: seq<int>, id: nat, k: nat)
    requires id in heap && k <= |times|
    ensures var e, first := HeapAfter(heap, times, k)[id], heap[id];
            && e.updateInterval == first.updateInterval && e.forceUpdateInterval == first.forceUpdateInterval
            && (var j := LastPop(heap, times, id, k);
                e.deadline == if j < 0 then first.deadline else times[j] + first.updateInterval * SECOND)
            && (var j := LastForced(heap, times, id, k);
                e.lastForceUpdate == if j < 0 then first.lastForceUpdate else times[j])
  {
    if k > 0 { EntryHistory(heap, times, id, k - 1); }
  }

  /** Truncation to whole seconds does not matter: the thresholds are whole seconds. */
  lemma TruncationIsHarmless(e: ScheduleEntry, now: int)
    ensures Forces(e, now) <==> e.forceUpdateInterval > 0 && now - e.lastForceUpdate >= e.forceUpdateInterval * SECOND
  {
  }

  /**
   Which calls pop a task and which of these pops are forced, exactly: a task is popped by a call iff
   its interval has passed since its last pop, and forced iff its forced interval has passed since its
   last forced pop.
   */
  lemma PopsExactly(heap: Heap, times: seq<int>, id: nat, k: nat)
    requires id in heap && k < |times|
    ensures var j, first := LastPop(heap, times, id, k), heap[id];
            PoppedAt(heap, times, id, k) <==> times[k] >= if j < 0 then first.deadline else times[j] + first.updateInterval * SECOND
    ensures var j, first := LastForced(heap, times, id, k), heap[id];
            ForcedAt(heap, times, id, k) <==>
              && PoppedAt(heap, times, id, k) && first.forceUpdateInterval > 0
              && times[k] - (if j < 0 then first.lastForceUpdate else times[j]) >= first.forceUpdateInterval * SECOND
  {
    EntryHistory(heap, times, id, k);
    TruncationIsHarmless(HeapAfter(heap, times, k)[id], times[k]);
  }

  predicate Monotone(times: seq<int>) {
    forall i, j :: 0 <= i < j < |times| ==> times[i] <= times[j]
  }

  /** Pops of a task are at least its interval apart. */
  lemma PopsAreSpaced(heap: Heap, times: seq<int>, id: nat, j: nat, k: nat)
    requires id in heap && Monotone(times) && j < k < |times|
    requires PoppedAt(heap, times, id, j) && PoppedAt(heap, times, id, k)
    ensures times[k] - times[j] >= heap[id].updateInterval * SECOND
  {
    PopsExactly(heap, times, id, k);
    assert j <= LastPop(heap, times, id, k);
  }

  /** Forced pops of a task are at least its forced interval apart. */
  lemma ForcedPopsAreSpaced(heap: Heap, times: seq<int>, id: nat, j: nat, k: nat)
    requires id in heap && Monotone(times) && j < k < |times|
    requires ForcedAt(heap, times, id, j) && ForcedAt(heap, times, id, k)
    ensures times[k] - times[j] >= heap[id].forceUpdateInterval * SECOND
  {
    PopsExactly(heap, times, id, k);
    assert j <= LastForced(heap, times, id, k);
  }

  /** The first pop of a task with a forced interval is forced, and so is every pop that late after a forced one. */
  lemma UnforcedPopsFollowForcedOnes(
      tasks: seq<(Domain, Subdomain)>, clock: nat -> int, times: seq<int>, id: nat, k: nat)
    requires id < |tasks| && k < |times| && Monotone(times) && (|times| > 0 ==> clock(id) <= times[0])
    requires tasks[id].0.forceUpdate > 0 && PoppedAt(Pushed(tasks, clock), times, id, k)
    ensures LastPop(Pushed(tasks, clock), times, id, k) < 0 ==> ForcedAt(Pushed(tasks, clock), times, id, k)
    ensures !ForcedAt(Pushed(tasks, clock), times, id, k) ==>
      var j := LastForced(Pushed(tasks, clock), times, id, k);
      j >= 0 && times[k] - times[j] < tasks[id].0.forceUpdate * SECOND
  {
    var heap := Pushed(tasks, clock);
    PopsExactly(heap, times, id, k);
    assert clock(id) <= times[k];
    var j := LastForced(heap, times, id, k);
    if j >= 0 { assert PoppedAt(heap, times, id, j) && j <= LastPop(heap, times, id, k); }
  }
}
