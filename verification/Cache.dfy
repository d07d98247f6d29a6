/**
 The time-to-live cache: the object with its critical sections, and the state machine of concurrent
 `get_or_compute` calls whose steps are those critical sections and the operations on the promises.

 The steady clock is a parameter of every operation that reads it; times are in nanoseconds.
 */
module Cache {
  import opened Results

  type Key(==, !new)
  type Value(==, !new)
  type Failure(==, !new)

  type Computed = Result<Value, Failure>

  datatype Entry = Entry(timestamp: int, value: Value)

  predicate Expired(ttl: int, now: int, entry: Entry) {
    now - entry.timestamp >= ttl
  }

  predicate HasFresh(entries: map<Key, Entry>, ttl: int, now: int, key: Key) {
    key in entries && !Expired(ttl, now, entries[key])
  }

  /** What a lookup leaves: it erases the entry it finds expired. */
  function AfterLookup(entries: map<Key, Entry>, ttl: int, now: int, key: Key): map<Key, Entry> {
    if HasFresh(entries, ttl, now, key) then entries else entries - {key}
  }

  function Kept(entries: map<Key, Entry>, pred: (Key, Value) -> bool): map<Key, Entry> {
    map k | k in entries && !pred(k, entries[k].value) :: entries[k]
  }

  // ------------------------------------------------------------------ concurrent calls

  /** A promise with its shared future: whose it is, and its value or exception once set. */
  datatype Future = Future(key: Key, owner: nat, outcome: Option<Computed>)

  datatype Via = Cached | Joined(future: nat) | Owned(future: nat)

  datatype Pc =
    | Computing(future: nat)                // the factory runs, outside the lock
    | Published(future: nat)                // the promise is set, the second lock not yet taken
    | Waiting(future: nat)                  // in future.get()
    | Returned(via: Via, outcome: Computed)

  datatype Call = Call(key: Key, pc: Pc)

  datatype State = State(
    now: int, entries: map<Key, Entry>, pending: map<Key, nat>, futures: seq<Future>, calls: seq<Call>)

  datatype Step =
    | Begin(key: Key)                    // a call enters get_or_compute
    | Publish(c: nat, outcome: Computed) // the factory is done
    | End(c: nat)                        // the second critical section
    | Wake(c: nat)                       // a joiner's future is ready
    | Lookup(key: Key)
    | Store(key: Key, value: Value)
    | Erase(key: Key)
    | EraseAll
    | EraseIf(pred: (Key, Value) -> bool)
    | Tick(d: nat)

  predicate Enabled(s: State, step: Step) {
    match step
    case Publish(c, _) => c < |s.calls| && s.calls[c].pc.Computing? && s.calls[c].pc.future < |s.futures|
    case End(c) => c < |s.calls| && s.calls[c].pc.Published? && s.calls[c].pc.future < |s.futures|
      && s.futures[s.calls[c].pc.future].outcome.Some?
    case Wake(c) => c < |s.calls| && s.calls[c].pc.Waiting? && s.calls[c].pc.future < |s.futures|
      && s.futures[s.calls[c].pc.future].outcome.Some?
    case _ => true
  }

  /** A call enters: it hits, joins the computation in flight, or owns a new one. */
  function Entered(ttl: int, s: State, key: Key): State {
    var s' := s.(entries := AfterLookup(s.entries, ttl, s.now, key));
    if HasFresh(s.entries, ttl, s.now, key) then
      s'.(calls := s.calls + [Call(key, Returned(Cached, Ok(s.entries[key].value)))])
    else if key in s.pending then
      s'.(calls := s.calls + [Call(key, Waiting(s.pending[key]))])
    else
      s'.(calls := s.calls + [Call(key, Computing(|s.futures|))], pending := s.pending[key := |s.futures|],
          futures := s.futures + [Future(key, |s.calls|, None)])
  }

  function Move(s: State, c: nat, pc: Pc): State
    requires c < |s.calls|
  {
    s.(calls := s.calls[c := s.calls[c].(pc := pc)])
  }

  function Ended(s: State, c: nat): State
    requires Enabled(s, End(c))
  {
    var key, f := s.calls[c].key, s.calls[c].pc.future;
    var outcome := s.futures[f].outcome.value;
    Move(s, c, Returned(Owned(f), outcome))
      .(pending := s.pending - {key},
        entries := if outcome.Ok? then s.entries[key := Entry(s.now, outcome.value)] else s.entries)
  }

  function Apply(ttl: int, s: State, step: Step): State
    requires Enabled(s, step)
  {
    match step
    case Begin(key) => Entered(ttl, s, key)
    case Publish(c, outcome) =>
      var f := s.calls[c].pc.future;
      Move(s, c, Published(f)).(futures := s.futures[f := s.futures[f].(outcome := Some(outcome))])
    case End(c) => Ended(s, c)
    case Wake(c) =>
      var f := s.calls[c].pc.future;
      Move(s, c, Returned(Joined(f), s.futures[f].outcome.value))
    case Lookup(key) => s.(entries := AfterLookup(s.entries, ttl, s.now, key))
    case Store(key, value) => s.(entries := s.entries[key := Entry(s.now, value)])
    case Erase(key) => s.(entries := s.entries - {key})
    case EraseAll => s.(entries := map[])
    case EraseIf(pred) => s.(entries := Kept(s.entries, pred))
    case Tick(d) => s.(now := s.now + d)
  }

  /** Call `c` for the key has published the outcome and is about to end. */
  ghost predicate EndsWith(s: State, c: nat, key: Key, outcome: Computed) {
    Enabled(s, End(c)) && s.calls[c].key == key && s.futures[s.calls[c].pc.future].outcome == Some(outcome)
  }

  function Initial(now: int): State {
    State(now, map[], map[], [], [])
  }

  // ------------------------------------------------------------------ the object

  /** How the first critical section of `get_or_compute` ends. */
  datatype Entrance = Hit(value: Value) | Join(future: nat) | Own

  /** Where a call stands after its first critical section. */
  function EntrancePc(r: Entrance, promise: nat): Pc {
    match r
    case Hit(v) => Returned(Cached, Ok(v))
    case Join(f) => Waiting(f)
    case Own => Computing(promise)
  }

  /** Each method is one critical section, and does to the fields what the step of the state machine does to the state. */
  class TtlCache {
    const ttl: int
    var entries: map<Key, Entry>
    var pending: map<Key, nat>  // the shared future of the computation in flight

    ghost predicate Shows(s: State)
      reads this
    {
      s.entries == entries && s.pending == pending
    }

    constructor (ttl: int)
      ensures this.ttl == ttl && forall now :: Shows(Initial(now))
    {
      this.ttl := ttl;
      entries, pending := map[], map[];
    }

    /** `do_get`, under the lock. */
    method Get(key: Key, now: int) returns (r: Option<Value>)
      modifies this`entries
      ensures forall s :: old(Shows(s)) && s.now == now ==> Shows(Apply(ttl, s, Lookup(key)))
      ensures r == if key in old(entries) && now < old(entries)[key].timestamp + ttl then Some(old(entries)[key].value) else None
    {
      if key !in entries || Expired(ttl, now, entries[key]) {
        if key in entries { entries := entries - {key}; }
        return None;
      }
      return Some(entries[key].value);
    }

    method Set(key: Key, value: Value, now: int)
      modifies this`entries
      ensures forall s :: old(Shows(s)) && s.now == now ==> Shows(Apply(ttl, s, Store(key, value)))
      ensures HasFresh(entries, ttl, now, key) <==> ttl > 0
    {
      entries := entries[key := Entry(now, value)];
    }

    method Remove(key: Key)
      modifies this`entries
      ensures forall s :: old(Shows(s)) ==> Shows(Apply(ttl, s, Erase(key)))
    {
      entries := entries - {key};
    }

    method Clear()
      modifies this`entries
      ensures forall s :: old(Shows(s)) ==> Shows(Apply(ttl, s, EraseAll))
    {
      entries := map[];
    }

    /** Visits every entry once, in any order, and erases those that match. */
    method InvalidateIf(pred: (Key, Value) -> bool)
      modifies this`entries
      ensures forall s :: old(Shows(s)) ==> Shows(Apply(ttl, s, EraseIf(pred)))
    {
      var rest := entries.Keys;
      while rest != {}
        invariant rest <= entries.Keys <= old(entries).Keys
        invariant forall k :: k in entries ==> entries[k] == old(entries)[k]
        invariant forall k :: k in old(entries) && k !in rest ==>
          (k in entries <==> !pred(k, old(entries)[k].value))
        decreases |rest|
      {
        var key :| key in rest;
        if pred(key, entries[key].value) { entries := entries - {key}; }
        rest := rest - {key};
      }
      assert entries == Kept(old(entries), pred);
    }

    /** The first critical section of `get_or_compute`; `promise` is the fresh promise of a call that has to compute. */
    method Enter(key: Key, now: int, promise: nat) returns (r: Entrance)
      modifies this
      ensures forall s :: old(Shows(s)) && s.now == now && |s.futures| == promise ==>
        var t := Apply(ttl, s, Begin(key));
        Shows(t) && t.calls == s.calls + [Call(key, EntrancePc(r, promise))]
    {
      var cached := Get(key, now);
      if cached.Some? { return Hit(cached.value); }
      if key in pending { return Join(pending[key]); }
      pending := pending[key := promise];
      return Own;
    }

    /** The last critical section of the call that computed: one section both ends the computation and stores. */
    method Finish(key: Key, now: int, outcome: Computed)
      modifies this
      ensures forall s, c :: old(Shows(s)) && s.now == now && EndsWith(s, c, key, outcome) ==> Shows(Apply(ttl, s, End(c)))
    {
      pending := pending - {key};
      if outcome.Ok? { entries := entries[key := Entry(now, outcome.value)]; }
    }
  }

  /** The state after a run, if every step was enabled when it was taken. */
  function Execute(ttl: int, s: State, steps: seq<Step>): Option<State>
    decreases |steps|
  {
    if steps == [] then Some(s)
    else if Enabled(s, steps[0]) then Execute(ttl, Apply(ttl, s, steps[0]), steps[1..])
    else None
  }

  // ------------------------------------------------------------------ the invariant

  predicate Owns(call: Call, f: nat) {
    call.pc == Computing(f) || call.pc == Published(f)
  }

  /** Who made the promise, and how far its owner is. */
  ghost predicate FutureSound(s: State, f: nat)
    requires f < |s.futures|
  {
    var o := s.futures[f].owner;
    && o < |s.calls| && s.calls[o].key == s.futures[f].key
    && (s.futures[f].outcome.None? ==> s.calls[o].pc == Computing(f))
    && (s.futures[f].outcome.Some? ==>
          s.calls[o].pc == Published(f) || s.calls[o].pc == Returned(Owned(f), s.futures[f].outcome.value))
  }

  ghost predicate CallSound(s: State, c: nat)
    requires c < |s.calls|
  {
    match s.calls[c].pc
    case Computing(f) =>
      && f < |s.futures| && s.futures[f].owner == c && s.futures[f].outcome.None?
      && s.calls[c].key in s.pending && s.pending[s.calls[c].key] == f
    case Published(f) =>
      && f < |s.futures| && s.futures[f].owner == c && s.futures[f].outcome.Some?
      && s.calls[c].key in s.pending && s.pending[s.calls[c].key] == f
    case Waiting(f) => f < |s.futures| && s.futures[f].key == s.calls[c].key
    case Returned(Cached, outcome) => outcome.Ok?
    case Returned(Joined(f), outcome) =>
      f < |s.futures| && s.futures[f].key == s.calls[c].key && s.futures[f].outcome == Some(outcome)
    case Returned(Owned(f), outcome) =>
      f < |s.futures| && s.futures[f].owner == c && s.futures[f].outcome == Some(outcome)
  }

  /** A pending key has a future, and the future's owner has not ended. */
  ghost predicate PendingSound(s: State, key: Key)
    requires key in s.pending
  {
    var f := s.pending[key];
    && f < |s.futures| && s.futures[f].key == key
    && s.futures[f].owner < |s.calls| && Owns(s.calls[s.futures[f].owner], f)
  }

  ghost predicate Inv(s: State) {
    && (forall f :: 0 <= f < |s.futures| ==> FutureSound(s, f))
    && (forall c :: 0 <= c < |s.calls| ==> CallSound(s, c))
    && (forall k :: k in s.pending ==> PendingSound(s, k))
    && (forall k :: k in s.entries ==> s.entries[k].timestamp <= s.now)
  }
}
