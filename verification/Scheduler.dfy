/**
 The scheduler: a timer queue of update tasks. Times are steady-clock readings in nanoseconds,
 intervals are seconds, and tasks are numbered in configuration order.
 */
module Scheduler {

  const SECOND: int := 1_000_000_000

  datatype Subdomain = Subdomain(updateInterval: int)

  datatype Domain = Domain(updateInterval: int, forceUpdate: int, subdomains: seq<Subdomain>)

  datatype ScheduleEntry = ScheduleEntry(
    deadline: int, updateInterval: int, forceUpdateInterval: int, lastForceUpdate: int)

  /** A task handed out by `pop_all_due`. */
  datatype UpdateTask = UpdateTask(id: nat, forceUpdate: bool)

  type Heap = map<nat, ScheduleEntry>

  // ------------------------------------------------------------------ specification

  predicate IsDue(e: ScheduleEntry, now: int) {
    now >= e.deadline
  }

  /** Whole seconds, truncated toward zero. */
  function WholeSeconds(d: int): int {
    if d >= 0 then d / SECOND else -(-d / SECOND)
  }

  predicate Forces(e: ScheduleEntry, now: int) {
    e.forceUpdateInterval > 0 && WholeSeconds(now - e.lastForceUpdate) >= e.forceUpdateInterval
  }

  /** The entry of a task that has been popped, as it goes back into the heap. */
  function Requeued(e: ScheduleEntry, now: int): ScheduleEntry {
    e.(deadline := now + e.updateInterval * SECOND,
       lastForceUpdate := if Forces(e, now) then now else e.lastForceUpdate)
  }

  function AfterPop(heap: Heap, now: int): (h: Heap)
    ensures h.Keys == heap.Keys
  {
    map id | id in heap :: if IsDue(heap[id], now) then Requeued(heap[id], now) else heap[id]
  }

  ghost predicate Listed(due: seq<UpdateTask>, id: nat) {
    exists i :: 0 <= i < |due| && due[i].id == id
  }

  /** The due list: every due task once, in deadline order, forced as it should be. */
  ghost predicate DueList(heap: Heap, now: int, due: seq<UpdateTask>) {
    && (forall i :: 0 <= i < |due| ==> due[i].id in heap && IsDue(heap[due[i].id], now)
                                       && (due[i].forceUpdate <==> Forces(heap[due[i].id], now)))
    && (forall i, j :: 0 <= i < j < |due| ==> due[i].id != due[j].id)
    && (forall i, j :: 0 <= i < j < |due| ==> heap[due[i].id].deadline <= heap[due[j].id].deadline)
    && (forall id :: id in heap && IsDue(heap[id], now) ==> Listed(due, id))
  }

  predicate DueIntervalsPositive(heap: Heap, now: int) {
    forall id :: id in heap && IsDue(heap[id], now) ==> heap[id].updateInterval > 0
  }

  function EffectiveInterval(domain: Domain, subdomain: Subdomain): int {
    if subdomain.updateInterval > 0 then subdomain.updateInterval else domain.updateInterval
  }

  function FreshEntry(domain: Domain, subdomain: Subdomain, now: int): ScheduleEntry {
    ScheduleEntry(now, EffectiveInterval(domain, subdomain), domain.forceUpdate,
                  if domain.forceUpdate > 0 then now - domain.forceUpdate * SECOND else 0)
  }

  function DomainTasks(domain: Domain): (tasks: seq<(Domain, Subdomain)>)
    ensures |tasks| == |domain.subdomains|
  {
    seq(|domain.subdomains|, i requires 0 <= i < |domain.subdomains| => (domain, domain.subdomains[i]))
  }

  /** The tasks of a configuration, in order. */
  function Tasks(domains: seq<Domain>): seq<(Domain, Subdomain)> {
    if domains == [] then []
    else Tasks(domains[..|domains| - 1]) + DomainTasks(domains[|domains| - 1])
  }

  /** The heap after the first `n` tasks have been pushed. */
  function Pushed(tasks: seq<(Domain, Subdomain)>, clock: nat -> int): Heap {
    map id: nat | id < |tasks| :: FreshEntry(tasks[id].0, tasks[id].1, clock(id))
  }

  // ------------------------------------------------------------------ the scheduler

  /** The top of the min-heap: an entry no other entry precedes; ties are broken arbitrarily. */
  ghost predicate Nearest(heap: Heap, id: nat) {
    id in heap && forall other :: other in heap ==> heap[id].deadline <= heap[other].deadline
  }

  lemma {:induction false} NearestExists(heap: Heap, ids: set<nat>) returns (id: nat)
    requires ids != {} && ids <= heap.Keys
    ensures id in ids && forall other :: other in ids ==> heap[id].deadline <= heap[other].deadline
    decreases |ids|
  {
    var first :| first in ids;
    var rest := ids - {first};
    id := first;
    if rest != {} {
      var nearest := NearestExists(heap, rest);
      if heap[nearest].deadline < heap[first].deadline { id := nearest; }
    }
    assert forall other :: other in ids ==> other == first || other in rest;
  }

  /** The heap in the middle of `pop_all_due`: the popped entries are back with their next deadlines. */
  ghost predicate HalfPopped(heap: Heap, now: int, popped: set<nat>, current: Heap) {
    && current.Keys == heap.Keys && popped <= heap.Keys
    && (forall id :: id in popped ==> IsDue(heap[id], now) && current[id] == Requeued(heap[id], now))
    && (forall id :: id in heap && id !in popped ==> current[id] == heap[id])
    && (forall id, other :: id in popped && other in heap && other !in popped ==> heap[id].deadline <= heap[other].deadline)
  }

  /** The list so far holds the popped tasks. */
  ghost predicate HalfListed(heap: Heap, now: int, popped: set<nat>, due: seq<UpdateTask>) {
    && (forall i :: 0 <= i < |due| ==> due[i].id in heap && due[i].id in popped
                                       && (due[i].forceUpdate <==> Forces(heap[due[i].id], now)))
    && (forall i, j :: 0 <= i < j < |due| ==> due[i].id != due[j].id)
    && (forall i, j :: 0 <= i < j < |due| ==> heap[due[i].id].deadline <= heap[due[j].id].deadline)
    && (forall id :: id in popped ==> Listed(due, id))
  }

  lemma PopsOneMore(heap: Heap, now: int, popped: set<nat>, current: Heap, id: nat)
    requires HalfPopped(heap, now, popped, current) && DueIntervalsPositive(heap, now)
    requires Nearest(current, id) && IsDue(current[id], now)
    ensures id !in popped && current[id] == heap[id]
    ensures HalfPopped(heap, now, popped + {id}, current[id := Requeued(current[id], now)])
  {
  }

  lemma ListsOneMore(heap: Heap, now: int, popped: set<nat>, due: seq<UpdateTask>, task: UpdateTask)
    requires HalfListed(heap, now, popped, due) && task.id in heap && task.id !in popped
    requires task.forceUpdate <==> Forces(heap[task.id], now)
    requires forall id :: id in popped ==> id in heap && heap[id].deadline <= heap[task.id].deadline
    ensures HalfListed(heap, now, popped + {task.id}, due + [task])
  {
    hide Forces;
    var longer := due + [task];
    assert longer[|due|] == task;
    forall id | id in popped + {task.id} ensures Listed(longer, id) {
      if id != task.id {
        var i :| 0 <= i < |due| && due[i].id == id;
        assert longer[i].id == id;
      }
    }
  }

  /** When nothing is due any more, the list is complete and the heap is what the whole pop leaves. */
  lemma PoppedAll(heap: Heap, now: int, popped: set<nat>, current: Heap, due: seq<UpdateTask>)
    requires HalfPopped(heap, now, popped, current) && HalfListed(heap, now, popped, due)
    requires forall id :: id in current ==> !IsDue(current[id], now)
    ensures current == AfterPop(heap, now) && DueList(heap, now, due)
  {
    hide Forces, Requeued;
  }

  class TimerQueue {
    var heap: Heap

    /** Pushes one entry a subdomain; `clock(i)` is the clock as read for the i-th. */
    constructor (domains: seq<Domain>, clock: nat -> int)
      ensures heap == Pushed(Tasks(domains), clock)
    {
      heap := map[];
      new;
      var n: nat := 0;
      for d := 0 to |domains|
        invariant n == |Tasks(domains[..d])| && heap == Pushed(Tasks(domains[..d]), clock)
      {
        assert domains[..d + 1][..|domains[..d + 1]| - 1] == domains[..d];
        var subdomains := domains[d].subdomains;
        ghost var before := Tasks(domains[..d]);
        ghost var added := DomainTasks(domains[d]);
        for s := 0 to |subdomains|
          invariant n == |before| + s && heap == Pushed(before + added[..s], clock)
        {
          heap := heap[n := FreshEntry(domains[d], subdomains[s], clock(n))];
          assert (before + added[..s + 1])[..n] == before + added[..s];
          n := n + 1;
        }
        assert added[..|subdomains|] == added;
      }
      assert domains[..|domains|] == domains;
    }

    /** Sets `last_force_update` when it answers yes. */
    static method CheckForceUpdate(entry: ScheduleEntry, now: int) returns (force: bool, after: ScheduleEntry)
      ensures force == Forces(entry, now)
      ensures after == if force then entry.(lastForceUpdate := now) else entry
    {
      if entry.forceUpdateInterval <= 0 { return false, entry; }
      var elapsed := WholeSeconds(now - entry.lastForceUpdate);
      if elapsed >= entry.forceUpdateInterval { return true, entry.(lastForceUpdate := now); }
      return false, entry;
    }

    method Top() returns (id: nat)
      requires heap != map[]
      ensures Nearest(heap, id)
    {
      ghost var nearest := NearestExists(heap, heap.Keys);
      assert Nearest(heap, nearest);
      id :| id in heap && forall other :: other in heap ==> heap[id].deadline <= heap[other].deadline;
    }

    /** `pop_all_due`. Its precondition is exactly what it takes to end; see `PoppingEndsExactly`. */
    method PopAllDue(now: int) returns (due: seq<UpdateTask>)
      requires DueIntervalsPositive(heap, now)
      modifies this
      ensures heap == AfterPop(old(heap), now)
      ensures DueList(old(heap), now, due)
      ensures forall id :: id in heap ==> !IsDue(heap[id], now)
    {
      hide HalfPopped, HalfListed, DueList, AfterPop, Forces;
      due := [];
      ghost var popped: set<nat> := {};
      NothingPopped(heap, now);
      while heap != map[]
        invariant HalfPopped(old(heap), now, popped, heap) && HalfListed(old(heap), now, popped, due)
        decreases old(heap).Keys - popped
      {
        var id := Top();
        if now < heap[id].deadline { break; }
        var entry := heap[id];
        PopsOneMore(old(heap), now, popped, heap, id);
        EarlierOnes(old(heap), now, popped, heap, id);
        var force, after := CheckForceUpdate(entry, now);
        ListsOneMore(old(heap), now, popped, due, UpdateTask(id, force));
        due := due + [UpdateTask(id, force)];
        popped := popped + {id};
        heap := heap[id := after.(deadline := now + after.updateInterval * SECOND)];
      }
      PoppedAll(old(heap), now, popped, heap, due);
    }
  }

  lemma NothingPopped(heap: Heap, now: int)
    ensures HalfPopped(heap, now, {}, heap) && HalfListed(heap, now, {}, [])
  {
  }

  lemma EarlierOnes(heap: Heap, now: int, popped: set<nat>, current: Heap, id: nat)
    requires HalfPopped(heap, now, popped, current) && id in current && id !in popped
    ensures id in heap && forall other :: other in popped ==> other in heap && heap[other].deadline <= heap[id].deadline
  {
  }
}
