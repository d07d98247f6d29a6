/**
 Properties of every interleaving of `get_or_compute` calls with the other operations of the cache:
 one computation a key at a time, one outcome for all who join it, and none while a value is fresh.
 */
module CacheRuns {
  import opened Results
  import opened Cache

  // ------------------------------------------------------------------ the invariant is kept

  lemma BeginKeepsInv(ttl: int, s: State, key: Key)
    requires Inv(s)
    ensures Inv(Entered(ttl, s, key))
  {
    var t := Entered(ttl, s, key);
    forall f | 0 <= f < |t.futures| ensures FutureSound(t, f) {
      if f < |s.futures| { assert FutureSound(s, f); }
    }
    forall c | 0 <= c < |t.calls| ensures CallSound(t, c) {
      if c < |s.calls| { assert CallSound(s, c); } else if key in s.pending { assert PendingSound(s, key); }
    }
    forall k | k in t.pending ensures PendingSound(t, k) {
      if k in s.pending { assert PendingSound(s, k); }
    }
  }

  lemma PublishKeepsInv(ttl: int, s: State, c: nat, outcome: Computed)
    requires Inv(s) && Enabled(s, Publish(c, outcome))
    ensures Inv(Apply(ttl, s, Publish(c, outcome)))
  {
    var t := Apply(ttl, s, Publish(c, outcome));
    assert CallSound(s, c);
    forall f | 0 <= f < |t.futures| ensures FutureSound(t, f) {
      assert FutureSound(s, f);
    }
    forall d | 0 <= d < |t.calls| ensures CallSound(t, d) {
      assert CallSound(s, d);
    }
    forall k | k in t.pending ensures PendingSound(t, k) {
      assert PendingSound(s, k);
    }
  }

  lemma EndKeepsInv(ttl: int, s: State, c: nat)
    requires Inv(s) && Enabled(s, End(c))
    ensures Inv(Apply(ttl, s, End(c)))
  {
    var t := Apply(ttl, s, End(c));
    assert CallSound(s, c);
    forall f | 0 <= f < |t.futures| ensures FutureSound(t, f) {
      assert FutureSound(s, f);
    }
    forall d | 0 <= d < |t.calls| ensures CallSound(t, d) {
      assert CallSound(s, d);
    }
    forall k | k in t.pending ensures PendingSound(t, k) {
      assert PendingSound(s, k);
    }
  }

  lemma WakeKeepsInv(ttl: int, s: State, c: nat)
    requires Inv(s) && Enabled(s, Wake(c))
    ensures Inv(Apply(ttl, s, Wake(c)))
  {
    var t := Apply(ttl, s, Wake(c));
    assert CallSound(s, c);
    forall f | 0 <= f < |t.futures| ensures FutureSound(t, f) {
      assert FutureSound(s, f);
    }
    forall d | 0 <= d < |t.calls| ensures CallSound(t, d) {
      assert CallSound(s, d);
    }
    forall k | k in t.pending ensures PendingSound(t, k) {
      assert PendingSound(s, k);
    }
  }

  predicate CallStep(step: Step) {
    step.Begin? || step.Publish? || step.End? || step.Wake?
  }

  /** The operations that are not part of a call touch the stored entries and the clock alone. */
  lemma OtherKeepsInv(ttl: int, s: State, step: Step)
    requires Inv(s) && Enabled(s, step) && !CallStep(step)
    ensures Inv(Apply(ttl, s, step))
  {
    var t := Apply(ttl, s, step);
    assert t.futures == s.futures && t.calls == s.calls && t.pending == s.pending;
    forall f | 0 <= f < |t.futures| ensures FutureSound(t, f) {
      assert FutureSound(s, f);
    }
    forall d | 0 <= d < |t.calls| ensures CallSound(t, d) {
      assert CallSound(s, d);
    }
    forall k | k in t.pending ensures PendingSound(t, k) {
      assert PendingSound(s, k);
    }
  }

  /** Every step keeps the invariant. */
  lemma StepKeepsInv(ttl: int, s: State, step: Step)
    requires Inv(s) && Enabled(s, step)
    ensures Inv(Apply(ttl, s, step))
  {
    hide Inv;
    match step
    case Begin(key) => BeginKeepsInv(ttl, s, key);
    case Publish(c, outcome) => PublishKeepsInv(ttl, s, c, outcome);
    case End(c) => EndKeepsInv(ttl, s, c);
    case Wake(c) => WakeKeepsInv(ttl, s, c);
    case _ => OtherKeepsInv(ttl, s, step);
  }

  lemma {:induction false} RunKeepsInv(ttl: int, s: State, steps: seq<Step>)
    requires Inv(s) && Execute(ttl, s, steps).Some?
    ensures Inv(Execute(ttl, s, steps).value)
    decreases |steps|
  {
    hide Inv, Apply, Enabled;
    if steps != [] {
      StepKeepsInv(ttl, s, steps[0]);
      RunKeepsInv(ttl, Apply(ttl, s, steps[0]), steps[1..]);
    }
  }

  // ------------------------------------------------------------------ one computation per key

  predicate InFlight(call: Call, key: Key) {
    call.key == key && (call.pc.Computing? || call.pc.Published?)
  }

  /** A run of the cache from the empty one, and the state it has reached. */
  ghost predicate Run(ttl: int, start: int, steps: seq<Step>, s: State) {
    Execute(ttl, Initial(start), steps) == Some(s)
  }

  /** In every interleaving a key is pending iff a call is computing it, and never two calls are. */
  lemma SingleComputation(ttl: int, start: int, steps: seq<Step>, s: State, key: Key)
    requires Run(ttl, start, steps, s)
    ensures key in s.pending <==> exists c :: 0 <= c < |s.calls| && InFlight(s.calls[c], key)
    ensures forall c, d ::
      0 <= c < |s.calls| && 0 <= d < |s.calls| && InFlight(s.calls[c], key) && InFlight(s.calls[d], key) ==> c == d
  {
    RunKeepsInv(ttl, Initial(start), steps);
    if key in s.pending {
      assert PendingSound(s, key) && FutureSound(s, s.pending[key]);
      assert InFlight(s.calls[s.futures[s.pending[key]].owner], key);
    }
    forall c | 0 <= c < |s.calls| && InFlight(s.calls[c], key)
      ensures key in s.pending && s.pending[key] < |s.futures| && s.futures[s.pending[key]].owner == c
    {
      assert CallSound(s, c);
    }
  }

  /** The computation a call has taken part in. */
  function Took(call: Call): Option<nat> {
    if call.pc.Returned? && call.pc.via.Joined? then Some(call.pc.via.future)
    else if call.pc.Returned? && call.pc.via.Owned? then Some(call.pc.via.future)
    else None
  }

  /** All who took part in a computation asked for one key and return one value, or one exception: its owner's. */
  lemma JoinersShareTheOutcome(ttl: int, start: int, steps: seq<Step>, s: State, c: nat, d: nat)
    requires Run(ttl, start, steps, s)
    requires c < |s.calls| && d < |s.calls| && Took(s.calls[c]).Some? && Took(s.calls[c]) == Took(s.calls[d])
    ensures s.calls[c].key == s.calls[d].key && s.calls[c].pc.outcome == s.calls[d].pc.outcome
    ensures var f := Took(s.calls[c]).value;
            && f < |s.futures| && s.futures[f].owner < |s.calls|
            && var owner := s.calls[s.futures[f].owner];
               owner.key == s.calls[c].key && (owner.pc == Published(f) || owner.pc == Returned(Owned(f), s.calls[c].pc.outcome))
  {
    RunKeepsInv(ttl, Initial(start), steps);
    assert CallSound(s, c) && CallSound(s, d);
    assert FutureSound(s, Took(s.calls[c]).value);
  }

  /** Call `o` runs the factory that call `c` waits for, and `c` can go on as soon as it has published. */
  ghost predicate WaitsForFactory(ttl: int, s: State, c: nat, o: nat) {
    && c < |s.calls| && o < |s.calls| && s.calls[c].pc.Waiting?
    && s.calls[o] == Call(s.calls[c].key, Computing(s.calls[c].pc.future))
    && forall outcome :: Enabled(s, Publish(o, outcome)) && Enabled(Apply(ttl, s, Publish(o, outcome)), Wake(c))
  }

  /**
   No waiter is left behind: a call that has not returned can take a step, unless its computation's
   factory still runs; the step that ends the factory wakes it.
   */
  lemma NoWaiterIsLost(ttl: int, start: int, steps: seq<Step>, s: State, c: nat)
    requires Run(ttl, start, steps, s) && c < |s.calls| && !s.calls[c].pc.Returned?
    ensures || s.calls[c].pc.Computing? || Enabled(s, End(c)) || Enabled(s, Wake(c))
            || exists o :: WaitsForFactory(ttl, s, c, o)
  {
    RunKeepsInv(ttl, Initial(start), steps);
    assert CallSound(s, c);
    if s.calls[c].pc.Waiting? && !Enabled(s, Wake(c)) {
      var f := s.calls[c].pc.future;
      assert FutureSound(s, f);
      assert CallSound(s, s.futures[f].owner);
      assert WaitsForFactory(ttl, s, c, s.futures[f].owner);
    }
  }

  // ------------------------------------------------------------------ no computation while a value is fresh

  predicate Removes(s: State, step: Step, key: Key) {
    match step
    case Erase(k) => k == key
    case EraseAll => true
    case EraseIf(pred) => key in s.entries && pred(key, s.entries[key].value)
    case _ => false
  }

  /** No step of the run removes the key. */
  ghost predicate NeverRemoved(ttl: int, s: State, steps: seq<Step>, key: Key)
    decreases |steps|
  {
    steps != [] && Enabled(s, steps[0]) ==>
      !Removes(s, steps[0], key) && NeverRemoved(ttl, Apply(ttl, s, steps[0]), steps[1..], key)
  }

  predicate StoredSince(s: State, key: Key, t: int) {
    key in s.entries && s.entries[key].timestamp >= t
  }

  lemma StepKeepsStored(ttl: int, s: State, step: Step, key: Key, t: int)
    requires Enabled(s, step) && !Removes(s, step, key)
    requires StoredSince(s, key, t) && t <= s.now < t + ttl
    ensures StoredSince(Apply(ttl, s, step), key, t)
  {
  }

  lemma ClockIsMonotone(ttl: int, s: State, step: Step)
    requires Enabled(s, step)
    ensures s.now <= Apply(ttl, s, step).now
  {
  }

  lemma {:induction false} RunClockIsMonotone(ttl: int, s: State, steps: seq<Step>)
    requires Execute(ttl, s, steps).Some?
    ensures s.now <= Execute(ttl, s, steps).value.now
    decreases |steps|
  {
    hide Apply, Enabled;
    if steps != [] {
      ClockIsMonotone(ttl, s, steps[0]);
      RunClockIsMonotone(ttl, Apply(ttl, s, steps[0]), steps[1..]);
    }
  }

  /** A stored value nobody removes stays, or is replaced by a later one, until its time to live is over. */
  lemma {:induction false} StoredUntilExpiry(ttl: int, s: State, steps: seq<Step>, key: Key, t: int)
    requires Execute(ttl, s, steps).Some? && NeverRemoved(ttl, s, steps, key)
    requires StoredSince(s, key, t) && t <= s.now && Execute(ttl, s, steps).value.now < t + ttl
    ensures StoredSince(Execute(ttl, s, steps).value, key, t)
    decreases |steps|
  {
    hide Apply, Enabled, Removes;
    if steps != [] {
      RunClockIsMonotone(ttl, s, steps);
      StepKeepsStored(ttl, s, steps[0], key, t);
      ClockIsMonotone(ttl, s, steps[0]);
      StoredUntilExpiry(ttl, Apply(ttl, s, steps[0]), steps[1..], key, t);
    }
  }

  /** A call for the key, made now, would run its factory. */
  predicate WouldCompute(ttl: int, s: State, key: Key) {
    Entered(ttl, s, key).futures != s.futures
  }

  /**
   After a computation has ended with a value, and as long as nobody removes the key, no factory for it
   starts before the time to live is over, whatever the interleaving.
   */
  lemma NoFactoryWhileFresh(ttl: int, s: State, c: nat, steps: seq<Step>)
    requires Enabled(s, End(c)) && s.futures[s.calls[c].pc.future].outcome.value.Ok?
    requires Execute(ttl, Apply(ttl, s, End(c)), steps).Some?
    requires NeverRemoved(ttl, Apply(ttl, s, End(c)), steps, s.calls[c].key)
    ensures var t := Execute(ttl, Apply(ttl, s, End(c)), steps).value;
            WouldCompute(ttl, t, s.calls[c].key) ==> t.now >= s.now + ttl
  {
    var t := Execute(ttl, Apply(ttl, s, End(c)), steps).value;
    if t.now < s.now + ttl {
      StoredUntilExpiry(ttl, Apply(ttl, s, End(c)), steps, s.calls[c].key, s.now);
    }
  }

  /** And while a computation is in flight, none starts either. */
  lemma NoSecondFactory(ttl: int, start: int, steps: seq<Step>, s: State, key: Key)
    requires Run(ttl, start, steps, s)
    ensures WouldCompute(ttl, s, key) <==>
      !HasFresh(s.entries, ttl, s.now, key) && forall c :: 0 <= c < |s.calls| ==> !InFlight(s.calls[c], key)
  {
    SingleComputation(ttl, start, steps, s, key);
    assert |Entered(ttl, s, key).futures| > |s.futures| || Entered(ttl, s, key).futures == s.futures;
  }

  // ------------------------------------------------------------------ where values come from

  /** The value a step makes, and its key. */
  function Made(s: State, step: Step): set<(Key, Value)>
    requires Enabled(s, step)
  {
    match step
    case Publish(c, Ok(v)) => {(s.calls[c].key, v)}
    case Store(k, v) => {(k, v)}
    case _ => {}
  }

  function MadeBy(ttl: int, s: State, steps: seq<Step>): set<(Key, Value)>
    decreases |steps|
  {
    if steps == [] || !Enabled(s, steps[0]) then {}
    else Made(s, steps[0]) + MadeBy(ttl, Apply(ttl, s, steps[0]), steps[1..])
  }

  ghost predicate AllFrom(s: State, made: set<(Key, Value)>) {
    && (forall k :: k in s.entries ==> (k, s.entries[k].value) in made)
    && (forall f :: 0 <= f < |s.futures| && s.futures[f].outcome.Some? && s.futures[f].outcome.value.Ok?
          ==> (s.futures[f].key, s.futures[f].outcome.value.value) in made)
    && (forall c :: 0 <= c < |s.calls| && s.calls[c].pc.Returned? && s.calls[c].pc.outcome.Ok?
          ==> (s.calls[c].key, s.calls[c].pc.outcome.value) in made)
  }

  lemma StepMakesAll(ttl: int, s: State, step: Step, made: set<(Key, Value)>)
    requires Inv(s) && Enabled(s, step) && AllFrom(s, made)
    ensures AllFrom(Apply(ttl, s, step), made + Made(s, step))
  {
    match step
    case Publish(c, outcome) => assert CallSound(s, c) && FutureSound(s, s.calls[c].pc.future);
    case End(c) => assert CallSound(s, c) && FutureSound(s, s.calls[c].pc.future);
    case Wake(c) => assert CallSound(s, c);
    case _ =>
  }

  lemma {:induction false} RunMakesAll(ttl: int, s: State, steps: seq<Step>, made: set<(Key, Value)>)
    requires Inv(s) && AllFrom(s, made) && Execute(ttl, s, steps).Some?
    ensures AllFrom(Execute(ttl, s, steps).value, made + MadeBy(ttl, s, steps))
    decreases |steps|
  {
    hide Apply, Enabled, Inv, AllFrom, Made;
    if steps == [] {
      assert made + MadeBy(ttl, s, steps) == made;
    } else {
      StepMakesAll(ttl, s, steps[0], made);
      StepKeepsInv(ttl, s, steps[0]);
      RunMakesAll(ttl, Apply(ttl, s, steps[0]), steps[1..], made + Made(s, steps[0]));
      assert made + MadeBy(ttl, s, steps) == made + Made(s, steps[0]) + MadeBy(ttl, Apply(ttl, s, steps[0]), steps[1..]);
    }
  }

  /** A call returns only values that a factory called for its own key, or a `set` of its own key, made. */
  lemma ReturnedValuesWereMade(ttl: int, start: int, steps: seq<Step>, s: State, c: nat)
    requires Run(ttl, start, steps, s)
    requires c < |s.calls| && s.calls[c].pc.Returned? && s.calls[c].pc.outcome.Ok?
    ensures (s.calls[c].key, s.calls[c].pc.outcome.value) in MadeBy(ttl, Initial(start), steps)
  {
    RunMakesAll(ttl, Initial(start), steps, {});
  }
}
