/**
 The scheduler from its configuration: which subdomain a task is, and when the calls of any run pop and
 force it, in the configuration's own numbers.
 */
module SchedulerConfig {
  import opened Scheduler
  import opened SchedulerRuns

  /** How many subdomains the first `d` domains have. */
  function Before(domains: seq<Domain>, d: nat): nat
    requires d <= |domains|
  {
    if d == 0 then 0 else Before(domains, d - 1) + |domains[d - 1].subdomains|
  }

  lemma {:induction false} BeforePrefix(domains: seq<Domain>, d: nat, n: nat)
    requires d <= n <= |domains|
    ensures Before(domains[..n], d) == Before(domains, d)
  {
    if d > 0 { BeforePrefix(domains, d - 1, n); }
  }

  lemma {:induction false} TaskCount(domains: seq<Domain>)
    ensures |Tasks(domains)| == Before(domains, |domains|)
    decreases |domains|
  {
    if domains != [] {
      var front := domains[..|domains| - 1];
      BeforePrefix(domains, |front|, |front|);
      TaskCount(front);
    }
  }

  lemma {:induction false} BeforeGrows(domains: seq<Domain>, a: nat, b: nat)
    requires a <= b <= |domains|
    ensures Before(domains, a) <= Before(domains, b)
  {
    if a < b { BeforeGrows(domains, a, b - 1); }
  }

  /** The task of the `s`-th subdomain of the `d`-th domain: its number in configuration order. */
  function TaskId(domains: seq<Domain>, d: nat, s: nat): (id: nat)
    requires d < |domains| && s < |domains[d].subdomains|
    ensures id < |Tasks(domains)|
  {
    TaskCount(domains);
    BeforeGrows(domains, d + 1, |domains|);
    Before(domains, d) + s
  }

  lemma {:induction false} TasksInOrder(domains: seq<Domain>, d: nat, s: nat)
    requires d < |domains| && s < |domains[d].subdomains|
    ensures Tasks(domains)[TaskId(domains, d, s)] == (domains[d], domains[d].subdomains[s])
    decreases |domains|
  {
    var front := domains[..|domains| - 1];
    BeforePrefix(domains, d, |front|);
    BeforePrefix(domains, |front|, |front|);
    TaskCount(front);
    if d < |front| { TasksInOrder(front, d, s); }
  }

  /** Different subdomains are different tasks, and there are no others. */
  lemma {:induction false} EveryTaskIsASubdomain(domains: seq<Domain>, id: nat) returns (d: nat, s: nat)
    requires id < |Tasks(domains)|
    ensures d < |domains| && s < |domains[d].subdomains| && TaskId(domains, d, s) == id
    ensures forall d', s' ::
      0 <= d' < |domains| && 0 <= s' < |domains[d'].subdomains| && TaskId(domains, d', s') == id ==> d' == d && s' == s
    decreases |domains|
  {
    d, s := FindTask(domains, id);
    forall d', s' | 0 <= d' < |domains| && 0 <= s' < |domains[d'].subdomains| && TaskId(domains, d', s') == id
      ensures d' == d && s' == s
    {
      if d' < d { BeforeGrows(domains, d' + 1, d); } else if d < d' { BeforeGrows(domains, d + 1, d'); }
    }
  }

  lemma {:induction false} FindTask(domains: seq<Domain>, id: nat) returns (d: nat, s: nat)
    requires id < |Tasks(domains)|
    ensures d < |domains| && s < |domains[d].subdomains| && TaskId(domains, d, s) == id
    decreases |domains|
  {
    var front := domains[..|domains| - 1];
    TaskCount(front);
    BeforePrefix(domains, |front|, |front|);
    if id < |Tasks(front)| {
      d, s := FindTask(front, id);
      BeforePrefix(domains, d, |front|);
    } else {
      d, s := |front|, id - |Tasks(front)|;
    }
  }

  lemma ConfiguredEntry(domains: seq<Domain>, clock: nat -> int, d: nat, s: nat)
    requires d < |domains| && s < |domains[d].subdomains|
    ensures var heap, id, own := Pushed(Tasks(domains), clock), TaskId(domains, d, s), domains[d].subdomains[s].updateInterval;
            && id in heap && heap[id].deadline == clock(id)
            && heap[id].updateInterval == (if own > 0 then own else domains[d].updateInterval)
            && heap[id].forceUpdateInterval == domains[d].forceUpdate
            && (domains[d].forceUpdate > 0 ==> heap[id].lastForceUpdate == clock(id) - domains[d].forceUpdate * SECOND)
  {
    TasksInOrder(domains, d, s);
  }

  /** Call `j` is the last before call `k` that popped the task. */
  ghost predicate LastPopIs(heap: Heap, times: seq<int>, id: nat, k: nat, j: nat)
    requires id in heap && k < |times|
  {
    j < k && PoppedAt(heap, times, id, j) && forall i :: j < i < k ==> !PoppedAt(heap, times, id, i)
  }

  /**
   When a configured subdomain is updated, in every run of calls. The first call made at or after the clock
   reading of its push pops its task; afterwards a call pops it iff as many seconds have passed since its
   last pop as the subdomain's own interval says when that is positive, and the domain's otherwise.
   */
  lemma ConfiguredPops(domains: seq<Domain>, clock: nat -> int, times: seq<int>, d: nat, s: nat, k: nat)
    requires d < |domains| && s < |domains[d].subdomains| && k < |times|
    ensures var heap, id := Pushed(Tasks(domains), clock), TaskId(domains, d, s);
            (forall i :: 0 <= i < k ==> !PoppedAt(heap, times, id, i)) ==>
              (PoppedAt(heap, times, id, k) <==> times[k] >= clock(id))
    ensures var heap, id, own := Pushed(Tasks(domains), clock), TaskId(domains, d, s), domains[d].subdomains[s].updateInterval;
            forall j: nat :: LastPopIs(heap, times, id, k, j) ==>
              (PoppedAt(heap, times, id, k) <==>
                 times[k] - times[j] >= (if own > 0 then own else domains[d].updateInterval) * SECOND)
  {
    hide Pushed, Tasks, PoppedAt;
    var heap, id := Pushed(Tasks(domains), clock), TaskId(domains, d, s);
    ConfiguredEntry(domains, clock, d, s);
    PopsExactly(heap, times, id, k);
    var last := LastPop(heap, times, id, k);
    if forall i :: 0 <= i < k ==> !PoppedAt(heap, times, id, i) { assert last < 0; }
    forall j: nat | LastPopIs(heap, times, id, k, j) ensures last == j {
      assert j <= last;
    }
  }

  /**
   When such an update is forced: never without a forced interval; with one, the first update is, and any
   other one iff as many seconds have passed since the last forced one as the domain's forced interval says.
   */
  lemma ConfiguredForces(domains: seq<Domain>, clock: nat -> int, times: seq<int>, d: nat, s: nat, k: nat)
    requires d < |domains| && s < |domains[d].subdomains| && k < |times|
    requires PoppedAt(Pushed(Tasks(domains), clock), times, TaskId(domains, d, s), k)
    ensures var heap, id, force := Pushed(Tasks(domains), clock), TaskId(domains, d, s), domains[d].forceUpdate;
            && (force <= 0 ==> !ForcedAt(heap, times, id, k))
            && (force > 0 && clock(id) <= times[k] && (forall i :: 0 <= i < k ==> !ForcedAt(heap, times, id, i)) ==> ForcedAt(heap, times, id, k))
            && (force > 0 ==> forall j: nat ::
                  j < k && ForcedAt(heap, times, id, j) && (forall i :: j < i < k ==> !ForcedAt(heap, times, id, i)) ==>
                    (ForcedAt(heap, times, id, k) <==> times[k] - times[j] >= force * SECOND))
  {
    hide Pushed, Tasks, PoppedAt, ForcedAt;
    var heap, id := Pushed(Tasks(domains), clock), TaskId(domains, d, s);
    ConfiguredEntry(domains, clock, d, s);
    PopsExactly(heap, times, id, k);
    var last := LastForced(heap, times, id, k);
    if forall i :: 0 <= i < k ==> !ForcedAt(heap, times, id, i) { assert last < 0; }
    forall j: nat | j < k && ForcedAt(heap, times, id, j) && forall i :: j < i < k ==> !ForcedAt(heap, times, id, i)
      ensures last == j
    {
      assert j <= last;
    }
  }
}
