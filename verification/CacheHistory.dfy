/**
 The cache against its history: what a call returns is told from the steps taken so far alone, by plain
 arithmetic on their times.
 */
module CacheHistory {
  import opened Results
  import opened Cache
  import opened CacheRuns

  /**
   What the steps say: the time on the clock, the keys of the calls in the order they began, the outcome
   each factory ended with, and the last value given to one key that nothing has removed since.
   */
  datatype History = History(time: int, keys: seq<Key>, published: map<nat, Computed>, write: Option<Entry>)

  function Recorded(h: History, step: Step, key: Key): History {
    match step
    case Begin(k) => h.(keys := h.keys + [k])
    case Publish(c, outcome) => h.(published := h.published[c := outcome])
    case End(c) =>
      if c < |h.keys| && h.keys[c] == key && c in h.published && h.published[c].Ok?
      then h.(write := Some(Entry(h.time, h.published[c].value)))
      else h
    case Wake(_) => h
    case Lookup(_) => h
    case Store(k, v) => if k == key then h.(write := Some(Entry(h.time, v))) else h
    case Erase(k) => if k == key then h.(write := None) else h
    case EraseAll => h.(write := None)
    case EraseIf(pred) => if h.write.Some? && pred(key, h.write.value.value) then h.(write := None) else h
    case Tick(d) => h.(time := h.time + d)
  }

  function HistoryOf(h: History, steps: seq<Step>, key: Key): History
    decreases |steps|
  {
    if steps == [] then h else HistoryOf(Recorded(h, steps[0], key), steps[1..], key)
  }

  /** The history of a run of a new cache. */
  function Told(start: int, steps: seq<Step>, key: Key): History {
    HistoryOf(History(start, [], map[], None), steps, key)
  }

  // ------------------------------------------------------------------ the state tracks the history

  ghost predicate CallTracks(s: State, h: History, c: nat)
    requires c < |s.calls| && c < |h.keys|
  {
    && h.keys[c] == s.calls[c].key
    && (match s.calls[c].pc
        case Published(f) => c in h.published && f < |s.futures| && s.futures[f].outcome == Some(h.published[c])
        case Returned(Owned(_), outcome) => c in h.published && outcome == h.published[c]
        case _ => true)
  }

  /** A value that is not stored any more is too old. */
  predicate EntryTracks(ttl: int, s: State, h: History, key: Key) {
    if key in s.entries then h.write == Some(s.entries[key])
    else h.write.Some? ==> h.time - h.write.value.timestamp >= ttl
  }

  ghost predicate Tracks(ttl: int, s: State, h: History, key: Key) {
    && h.time == s.now && |h.keys| == |s.calls|
    && (forall c :: 0 <= c < |s.calls| ==> CallTracks(s, h, c))
    && EntryTracks(ttl, s, h, key)
  }

  lemma CallsTrackStep(ttl: int, s: State, h: History, step: Step, key: Key)
    requires Inv(s) && Enabled(s, step) && Tracks(ttl, s, h, key)
    ensures var t, h' := Apply(ttl, s, step), Recorded(h, step, key);
            && h'.time == t.now && |h'.keys| == |t.calls|
            && forall c :: 0 <= c < |t.calls| ==> CallTracks(t, h', c)
  {
    var t, h' := Apply(ttl, s, step), Recorded(h, step, key);
    if step.Publish? || step.End? || step.Wake? { assert CallSound(s, step.c); }
    forall c | 0 <= c < |t.calls| ensures CallTracks(t, h', c) {
      if c < |s.calls| {
        assert CallTracks(s, h, c);
        assert CallSound(s, c);
      }
    }
  }

  lemma EntryTracksStep(ttl: int, s: State, h: History, step: Step, key: Key)
    requires Inv(s) && Enabled(s, step) && Tracks(ttl, s, h, key)
    ensures EntryTracks(ttl, Apply(ttl, s, step), Recorded(h, step, key), key)
  {
    if step.End? {
      assert CallTracks(s, h, step.c);
      assert CallSound(s, step.c);
    }
  }

  lemma {:induction false} RunTracks(ttl: int, s: State, h: History, steps: seq<Step>, key: Key)
    requires Inv(s) && Tracks(ttl, s, h, key) && Execute(ttl, s, steps).Some?
    ensures Tracks(ttl, Execute(ttl, s, steps).value, HistoryOf(h, steps, key), key)
    decreases |steps|
  {
    hide Inv, Apply, Enabled, Recorded, CallTracks, EntryTracks;
    if steps != [] {
      CallsTrackStep(ttl, s, h, steps[0], key);
      EntryTracksStep(ttl, s, h, steps[0], key);
      StepKeepsInv(ttl, s, steps[0]);
      RunTracks(ttl, Apply(ttl, s, steps[0]), Recorded(h, steps[0], key), steps[1..], key);
    }
  }

  lemma RunIsTold(ttl: int, start: int, steps: seq<Step>, s: State, key: Key)
    requires Run(ttl, start, steps, s)
    ensures Inv(s) && Tracks(ttl, s, Told(start, steps, key), key)
  {
    RunKeepsInv(ttl, Initial(start), steps);
    RunTracks(ttl, Initial(start), History(start, [], map[], None), steps, key);
  }

  // ------------------------------------------------------------------ what calls return

  /** The last value given to the key, less than `ttl` ago and not removed since. */
  predicate Current(h: History, ttl: int) {
    h.write.Some? && h.write.value.timestamp > h.time - ttl
  }

  /** The call a step begins. */
  function Begun(ttl: int, s: State, key: Key): Pc {
    Apply(ttl, s, Begin(key)).calls[|s.calls|].pc
  }

  /**
   What a call does, in every interleaving and at every time. It returns a stored value iff the last value
   that a computation or `set` gave to the key is younger than the time to live and nothing has removed it
   since, and then it returns that value. Otherwise it computes iff no call is computing the key, and waits
   for that call's future if one is.
   */
  lemma CallsAreTold(ttl: int, start: int, steps: seq<Step>, s: State, key: Key)
    requires Run(ttl, start, steps, s)
    ensures var h := Told(start, steps, key);
            && (Current(h, ttl) <==> Begun(ttl, s, key).Returned?)
            && (Current(h, ttl) ==> Begun(ttl, s, key) == Returned(Cached, Ok(h.write.value.value)))
            && (!Current(h, ttl) ==>
                  (Begun(ttl, s, key).Computing? <==> forall c :: 0 <= c < |s.calls| ==> !InFlight(s.calls[c], key)))
            && (Begun(ttl, s, key).Waiting? ==>
                  exists c :: 0 <= c < |s.calls| && InFlight(s.calls[c], key) && s.calls[c].pc.future == Begun(ttl, s, key).future)
  {
    RunIsTold(ttl, start, steps, s, key);
    SingleComputation(ttl, start, steps, s, key);
    if key in s.pending {
      assert PendingSound(s, key);
      assert FutureSound(s, s.pending[key]);
      assert InFlight(s.calls[s.futures[s.pending[key]].owner], key);
    }
  }

  /** A call that computed returns the outcome of its own factory, value or exception. */
  lemma OwnersReturnTheirOutcome(ttl: int, start: int, steps: seq<Step>, s: State, c: nat)
    requires Run(ttl, start, steps, s) && c < |s.calls| && s.calls[c].pc.Returned? && s.calls[c].pc.via.Owned?
    ensures var published := Told(start, steps, s.calls[c].key).published;
            c in published && s.calls[c].pc.outcome == published[c]
  {
    RunIsTold(ttl, start, steps, s, s.calls[c].key);
    assert CallTracks(s, Told(start, steps, s.calls[c].key), c);
  }
}
