/**
 The resolver strategies above a single query: sequential fallback in a random order, and concurrent
 batches of at most three.
 */
module Strategy {
  import opened Results
  import opened Bytes
  import Batch
  import BatchRuns

  type Answer = seq<Octets>
  type Lookup = Result<Answer, DnsError>

  /** Errors that end the iteration at once. */
  predicate IsDefinitive(code: DnsError) {
    code == NX_DOMAIN || code == PARSE || code == CONFIG
  }

  predicate Stops(r: Lookup) {
    r.Ok? || IsDefinitive(r.error)
  }

  // ------------------------------------------------------------------ fallback

  /** A shuffle of the resolver indices. */
  ghost predicate Shuffle(order: seq<nat>, n: nat) {
    && |order| == n
    && (forall i :: 0 <= i < n ==> order[i] < n)
    && (forall i, j :: 0 <= i < j < n ==> order[i] != order[j])
    && (forall r: nat :: r < n ==> r in order)
  }

  /** The resolvers in `order` are asked in turn, up to the first that stops the iteration. */
  ghost predicate FallbackRun(outcomes: seq<Lookup>, order: seq<nat>, queried: seq<nat>, result: Lookup) {
    && (forall i :: 0 <= i < |order| ==> order[i] < |outcomes|)
    && queried <= order
    && (forall i :: 0 <= i < |queried| - 1 ==> !Stops(outcomes[queried[i]]))
    && (if queried == [] then order == [] && result == Err(NODATA)
        else result == outcomes[queried[|queried| - 1]] && (Stops(result) || queried == order))
  }

  /** `FallbackRunner::run`; `outcomes[i]` is what resolver `i` would report. */
  method Fallback(outcomes: seq<Lookup>, indices: seq<nat>) returns (result: Lookup, queried: seq<nat>)
    requires Shuffle(indices, |outcomes|)
    ensures FallbackRun(outcomes, indices, queried, result)
    ensures forall i, j :: 0 <= i < j < |queried| ==> queried[i] != queried[j]
  {
    var lastError := NODATA;
    queried := [];
    for i := 0 to |indices|
      invariant queried == indices[..i]
      invariant forall j :: 0 <= j < i ==> !Stops(outcomes[indices[j]])
      invariant lastError == if i == 0 then NODATA else outcomes[indices[i - 1]].error
    {
      var idx := indices[i];
      queried := queried + [idx];
      assert queried == indices[..i + 1];
      if outcomes[idx].Ok? { return outcomes[idx], queried; }
      var error := outcomes[idx].error;
      lastError := error;
      match error
      case NX_DOMAIN => return outcomes[idx], queried;
      case PARSE => return outcomes[idx], queried;
      case CONFIG => return outcomes[idx], queried;
      case _ =>
    }
    assert indices[..|indices|] == indices;
    result := Err(lastError);
  }

  predicate SomeSuccess(outcomes: seq<Lookup>) {
    exists r: nat :: r < |outcomes| && outcomes[r].Ok?
  }

  predicate NoneDefinitive(outcomes: seq<Lookup>) {
    forall r: nat :: r < |outcomes| ==>
      outcomes[r] != Err(NX_DOMAIN) && outcomes[r] != Err(PARSE) && outcomes[r] != Err(CONFIG)
  }

  /** Without definitive errors the order does not matter: fallback succeeds iff some resolver would. */
  lemma FallbackCovers(outcomes: seq<Lookup>, order: seq<nat>, queried: seq<nat>, result: Lookup)
    requires Shuffle(order, |outcomes|) && FallbackRun(outcomes, order, queried, result) && NoneDefinitive(outcomes)
    ensures result.Ok? <==> SomeSuccess(outcomes)
  {
    if r: nat :| r < |outcomes| && outcomes[r].Ok? {
      assert r in order;
      var i :| 0 <= i < |order| && order[i] == r;
      assert result.Err? ==> queried == order;
    }
  }

  lemma {:induction false} Counting(n: nat) returns (order: seq<nat>)
    ensures Shuffle(order, n) && forall i :: 0 <= i < n ==> order[i] == i
  {
    if n == 0 {
      order := [];
    } else {
      var front := Counting(n - 1);
      order := front + [n - 1];
      forall r: nat | r < n ensures r in order { assert order[r] == r; }
    }
  }

  lemma StartingWith(n: nat, first: nat) returns (order: seq<nat>)
    requires first < n
    ensures Shuffle(order, n) && order[0] == first
  {
    var plain := Counting(n);
    order := plain[0 := first][first := 0];
    if first == 0 { order := plain; }
    forall r: nat | r < n ensures r in order {
      assert order[if r == first then 0 else if r == 0 then first else r] == r;
    }
  }

  lemma StoppedAtOnce(outcomes: seq<Lookup>, order: seq<nat>)
    requires Shuffle(order, |outcomes|) && order != [] && Stops(outcomes[order[0]])
    ensures FallbackRun(outcomes, order, [order[0]], outcomes[order[0]])
  {
  }

  ghost predicate EveryOrderSucceeds(outcomes: seq<Lookup>) {
    forall order, queried, result ::
      Shuffle(order, |outcomes|) && FallbackRun(outcomes, order, queried, result) ==> result.Ok?
  }

  /**
   Fallback succeeds under every shuffle if and only if some resolver answers and none reports a
   definitive error: a resolver with such an error is fatal as soon as the shuffle puts it first.
   */
  lemma FallbackSucceedsExactly(outcomes: seq<Lookup>)
    ensures EveryOrderSucceeds(outcomes) <==> SomeSuccess(outcomes) && NoneDefinitive(outcomes)
  {
    if SomeSuccess(outcomes) && NoneDefinitive(outcomes) {
      forall order, queried, result | Shuffle(order, |outcomes|) && FallbackRun(outcomes, order, queried, result)
        ensures result.Ok?
      {
        FallbackCovers(outcomes, order, queried, result);
      }
    } else if !NoneDefinitive(outcomes) {
      var r: nat :| r < |outcomes| && outcomes[r] in [Err(NX_DOMAIN), Err(PARSE), Err(CONFIG)];
      var order := StartingWith(|outcomes|, r);
      StoppedAtOnce(outcomes, order);
    } else {
      var order := Counting(|outcomes|);
      NobodyAnswers(outcomes, order);
    }
  }

  lemma NobodyAnswers(outcomes: seq<Lookup>, order: seq<nat>)
    requires Shuffle(order, |outcomes|) && NoneDefinitive(outcomes) && !SomeSuccess(outcomes)
    ensures FallbackRun(outcomes, order, order, if order == [] then Err(NODATA) else outcomes[order[|order| - 1]])
  {
  }

  // ------------------------------------------------------------------ concurrent batches

  const MAX_CONCURRENT_RESOLVERS: nat := 3

  /** A batch is a range of resolver indices. */
  datatype Range = Range(offset: nat, end: nat)

  function BatchAt(total: nat, k: nat): Range {
    var end := (k + 1) * MAX_CONCURRENT_RESOLVERS;
    Range(k * MAX_CONCURRENT_RESOLVERS, if end < total then end else total)
  }

  /** An answer with records, or a definitive error. */
  predicate BatchStops(r: Lookup) {
    if r.Ok? then r.value != [] else IsDefinitive(r.error)
  }

  function LastError(results: seq<Lookup>): DnsError {
    if results == [] then NODATA
    else if results[|results| - 1].Err? then results[|results| - 1].error
    else LastError(results[..|results| - 1])
  }

  predicate Within(r: nat, range: Range) {
    range.offset <= r < range.end
  }

  /** The first batches, each with its result: none but the last stops the iteration. */
  predicate BatchesTried(total: nat, tried: seq<Range>, results: seq<Lookup>) {
    && |results| == |tried|
    && (forall k :: 0 <= k < |tried| ==> tried[k] == BatchAt(total, k) && k * MAX_CONCURRENT_RESOLVERS < total)
    && (forall k :: 0 <= k < |tried| - 1 ==> !BatchStops(results[k]))
  }

  predicate ConcurrentRun(total: nat, tried: seq<Range>, results: seq<Lookup>, result: Lookup) {
    && BatchesTried(total, tried, results)
    && (if tried != [] && BatchStops(results[|results| - 1]) then result == results[|results| - 1]
        else result == Err(LastError(results)) && |tried| * MAX_CONCURRENT_RESOLVERS >= total)
  }

  lemma OneMoreBatch(total: nat, tried: seq<Range>, results: seq<Lookup>, r: Lookup)
    requires BatchesTried(total, tried, results) && |tried| * MAX_CONCURRENT_RESOLVERS < total
    requires tried == [] || !BatchStops(results[|results| - 1])
    ensures BatchesTried(total, tried + [BatchAt(total, |tried|)], results + [r])
    ensures LastError(results + [r]) == if r.Err? then r.error else LastError(results)
  {
    assert (results + [r])[..|results|] == results;
  }

  /** `ConcurrentRunner::run`; `run` is what a batch reports. The batches tried are listed with their results. */
  method Concurrent(total: nat, run: Range -> Lookup) returns (result: Lookup, tried: seq<Range>, results: seq<Lookup>)
    ensures ConcurrentRun(total, tried, results, result)
    ensures forall k :: 0 <= k < |tried| ==> results[k] == run(tried[k])
    ensures forall k :: 0 <= k < |tried| ==> 0 < tried[k].end - tried[k].offset <= MAX_CONCURRENT_RESOLVERS
    ensures forall r: nat, k: nat :: r < total && k < |tried| ==> (Within(r, tried[k]) <==> k == r / MAX_CONCURRENT_RESOLVERS)
    ensures result.Err? && !IsDefinitive(result.error) ==> (total - 1) / MAX_CONCURRENT_RESOLVERS < |tried|
  {
    hide LastError, BatchesTried;
    var lastError := NODATA;
    tried, results := [], [];
    var offset := 0;
    NoBatchYet(total);
    while offset < total
      invariant offset == |tried| * MAX_CONCURRENT_RESOLVERS
      invariant BatchesTried(total, tried, results) && |results| == |tried|
      invariant forall k :: 0 <= k < |tried| ==> tried[k] == BatchAt(total, k) && k * MAX_CONCURRENT_RESOLVERS < total
      invariant forall k :: 0 <= k < |tried| ==> results[k] == run(tried[k])
      invariant tried == [] || !BatchStops(results[|results| - 1])
      invariant lastError == LastError(results)
      decreases total - offset
    {
      var end := if offset + MAX_CONCURRENT_RESOLVERS < total then offset + MAX_CONCURRENT_RESOLVERS else total;
      var batch := Range(offset, end);
      var r := run(batch);
      OneMoreBatch(total, tried, results, r);
      assert batch == BatchAt(total, |tried|);
      tried, results := tried + [batch], results + [r];
      if r.Ok? && r.value != [] { return r, tried, results; }
      if r.Err? {
        if r.error == NX_DOMAIN || r.error == PARSE || r.error == CONFIG { return r, tried, results; }
        lastError := r.error;
      }
      offset := offset + MAX_CONCURRENT_RESOLVERS;
    }
    result := Err(lastError);
  }

  lemma NoBatchYet(total: nat)
    ensures BatchesTried(total, [], []) && LastError([]) == NODATA
  {
  }

  /** A batch of `n` resolvers has returned `r` and left the protocol in state `s`. */
  ghost predicate BatchReturned(n: nat, r: Lookup, s: Batch.State) {
    exists steps :: BatchRuns.Run(Batch.CountFirst, n, steps, s) && s.main == Batch.Returned(r)
  }

  /** How every batch that was tried went. */
  ghost predicate BatchesReturned(tried: seq<Range>, results: seq<Lookup>, states: seq<Batch.State>) {
    |states| == |tried| == |results| &&
    forall k :: 0 <= k < |tried| ==> tried[k].offset <= tried[k].end && BatchReturned(tried[k].end - tried[k].offset, results[k], states[k])
  }

  lemma BatchExplained(n: nat, r: Lookup, s: Batch.State)
    requires BatchReturned(n, r, s)
    ensures |s.workers| == n
    ensures r.Ok? ==> r.value != [] && BatchRuns.SomeoneReported(s, Batch.Answered(r.value))
    ensures r.Err? ==> r.error != CANCELLED && BatchRuns.SomeoneReported(s, Batch.Refused(r.error))
    ensures r.Err? ==> forall w :: 0 <= w < n ==> s.workers[w].outcome.Some? && !Batch.Cancelled(s.workers[w])
    ensures r.Err? && r.error != NX_DOMAIN ==> !BatchRuns.SomeoneReported(s, Batch.Refused(NX_DOMAIN))
  {
    var steps :| BatchRuns.Run(Batch.CountFirst, n, steps, s) && s.main == Batch.Returned(r);
    BatchRuns.ResultIsExplained(Batch.CountFirst, n, steps, s);
    BatchRuns.RunSize(Batch.CountFirst, n, steps, s);
    if r.Err? { BatchRuns.SomeoneRefused(n, steps, s); }
  }

  /**
   The concurrent strategy over all interleavings of all its batches: a success is some worker's own
   answer in the last batch tried; a failure carries a code that a worker reported, in the last batch if
   the code is definitive, or the initial NODATA when there are no resolvers; and after a failure with
   another code every resolver of every batch has reported, none of them NX_DOMAIN.
   */
  lemma ConcurrentIsExplained(total: nat, tried: seq<Range>, results: seq<Lookup>, states: seq<Batch.State>, result: Lookup)
    requires ConcurrentRun(total, tried, results, result) && BatchesReturned(tried, results, states)
    ensures result.Ok? ==> tried != [] && BatchRuns.SomeoneReported(states[|tried| - 1], Batch.Answered(result.value))
    ensures result.Err? && IsDefinitive(result.error) ==>
      tried != [] && BatchRuns.SomeoneReported(states[|tried| - 1], Batch.Refused(result.error))
    ensures result.Err? && total > 0 ==>
      exists k :: 0 <= k < |tried| && BatchRuns.SomeoneReported(states[k], Batch.Refused(result.error))
    ensures result.Err? && !IsDefinitive(result.error) ==>
      forall k :: 0 <= k < |tried| ==>
        && (forall w :: 0 <= w < |states[k].workers| ==> states[k].workers[w].outcome.Some?)
        && !BatchRuns.SomeoneReported(states[k], Batch.Refused(NX_DOMAIN))
    ensures total == 0 ==> result == Err(NODATA)
  {
    hide BatchReturned, BatchRuns.SomeoneReported;
    forall k | 0 <= k < |tried|
      ensures results[k].Ok? ==> results[k].value != [] && BatchRuns.SomeoneReported(states[k], Batch.Answered(results[k].value))
      ensures results[k].Err? ==> forall w :: 0 <= w < |states[k].workers| ==> states[k].workers[w].outcome.Some?
      ensures results[k].Err? ==> BatchRuns.SomeoneReported(states[k], Batch.Refused(results[k].error))
      ensures results[k].Err? && results[k].error != NX_DOMAIN ==> !BatchRuns.SomeoneReported(states[k], Batch.Refused(NX_DOMAIN))
    {
      BatchExplained(tried[k].end - tried[k].offset, results[k], states[k]);
    }
    LastErrorIsLast(results);
    if total > 0 && result.Err? {
      assert tried != [];
      var last := |tried| - 1;
      assert results[last].Err?;
      assert result == results[last];
    }
  }

  lemma LastErrorIsLast(results: seq<Lookup>)
    ensures results != [] && results[|results| - 1].Err? ==> LastError(results) == results[|results| - 1].error
    ensures results == [] ==> LastError(results) == NODATA
  {
  }

  // ------------------------------------------------------------------ when the concurrent strategy succeeds

  predicate HasBatch(outcomes: seq<Batch.Outcome>, k: nat) {
    k * MAX_CONCURRENT_RESOLVERS < |outcomes|
  }

  /** What the resolvers of one batch would report. */
  function BatchOutcomes(outcomes: seq<Batch.Outcome>, k: nat): (batch: seq<Batch.Outcome>)
    requires HasBatch(outcomes, k)
    ensures batch != []
  {
    outcomes[BatchAt(|outcomes|, k).offset..BatchAt(|outcomes|, k).end]
  }

  predicate AllAnswer(batch: seq<Batch.Outcome>) {
    forall w :: 0 <= w < |batch| ==> batch[w].Answered?
  }

  predicate NoneFatal(batch: seq<Batch.Outcome>) {
    forall w :: 0 <= w < |batch| ==>
      && batch[w] != Batch.Refused(NX_DOMAIN) && batch[w] != Batch.Refused(PARSE) && batch[w] != Batch.Refused(CONFIG)
  }

  /** A worker reports its resolver's outcome, unless it was stopped before or while it asked. */
  ghost predicate Fits(s: Batch.State, batch: seq<Batch.Outcome>) {
    |s.workers| == |batch| &&
    forall w :: 0 <= w < |batch| ==>
      s.workers[w].outcome == None || Batch.Cancelled(s.workers[w]) || s.workers[w].outcome == Some(batch[w])
  }

  /** The batches tried by a run of the strategy, when the resolvers would report the given outcomes. */
  ghost predicate BatchesFit(outcomes: seq<Batch.Outcome>, tried: seq<Range>, results: seq<Lookup>, states: seq<Batch.State>) {
    && BatchesTried(|outcomes|, tried, results) && BatchesReturned(tried, results, states)
    && forall k :: 0 <= k < |tried| ==> HasBatch(outcomes, k) && Fits(states[k], BatchOutcomes(outcomes, k))
  }

  /** Some interleaving of the strategy returns the result. */
  ghost predicate ConcurrentCan(outcomes: seq<Batch.Outcome>, result: Lookup) {
    exists tried, results, states ::
      ConcurrentRun(|outcomes|, tried, results, result) && BatchesFit(outcomes, tried, results, states)
  }

  /** A batch that everybody answers does not fail, and one that fails definitively has a fatal refusal. */
  lemma BatchBound(n: nat, r: Lookup, s: Batch.State, batch: seq<Batch.Outcome>)
    requires BatchReturned(n, r, s) && Fits(s, batch)
    ensures r.Ok? ==> BatchStops(r)
    ensures AllAnswer(batch) ==> r.Ok?
    ensures NoneFatal(batch) && r.Err? ==> !BatchStops(r)
  {
    BatchExplained(n, r, s);
    if r.Err? {
      var w :| 0 <= w < |s.workers| && s.workers[w].outcome == Some(Batch.Refused(r.error));
      assert batch[w] == Batch.Refused(r.error);
    }
  }

  lemma SuccessIsForced(
      outcomes: seq<Batch.Outcome>, k: nat, tried: seq<Range>, results: seq<Lookup>, states: seq<Batch.State>, result: Lookup)
    requires ConcurrentRun(|outcomes|, tried, results, result) && BatchesFit(outcomes, tried, results, states)
    requires HasBatch(outcomes, k) && AllAnswer(BatchOutcomes(outcomes, k))
    requires forall j: nat :: j < k ==> HasBatch(outcomes, j) && NoneFatal(BatchOutcomes(outcomes, j))
    ensures result.Ok?
  {
    hide BatchReturned, Fits, BatchOutcomes, AllAnswer, NoneFatal, LastError, BatchAt;
    forall j: nat | j < |tried|
      ensures results[j].Ok? ==> BatchStops(results[j])
      ensures j == k ==> results[j].Ok?
      ensures j < k && results[j].Err? ==> !BatchStops(results[j])
    {
      BatchBound(tried[j].end - tried[j].offset, results[j], states[j], BatchOutcomes(outcomes, j));
    }
    if k < |tried| {
      assert BatchStops(results[k]) && k == |tried| - 1;
    } else {
      assert tried != [] && |tried| - 1 < k;
    }
  }

  /** A refused resolver can make its batch return a code that is not fatal, or a fatal one if there is one. */
  lemma BatchCanFail(batch: seq<Batch.Outcome>, code: DnsError) returns (s: Batch.State)
    requires batch != [] && BatchRuns.Realistic(batch) && BatchRuns.NoneCancelled(batch) && BatchRuns.Reported(batch, code)
    requires BatchRuns.Reported(batch, NX_DOMAIN) ==> code == NX_DOMAIN
    ensures BatchReturned(|batch|, Err(code), s) && Fits(s, batch)
  {
    BatchRuns.ReturnedCodeExactly(batch, code);
    var steps, u :|
      BatchRuns.Run(Batch.CountFirst, |batch|, steps, u) && u.main == Batch.Returned(Err(code)) && BatchRuns.AllReported(u, batch);
    s := u;
  }

  lemma OneMoreFits(
      outcomes: seq<Batch.Outcome>, tried: seq<Range>, results: seq<Lookup>, states: seq<Batch.State>, r: Lookup, s: Batch.State)
    requires BatchesFit(outcomes, tried, results, states) && HasBatch(outcomes, |tried|)
    requires tried == [] || !BatchStops(results[|results| - 1])
    requires BatchReturned(|BatchOutcomes(outcomes, |tried|)|, r, s) && Fits(s, BatchOutcomes(outcomes, |tried|))
    ensures BatchesFit(outcomes, tried + [BatchAt(|outcomes|, |tried|)], results + [r], states + [s])
  {
    hide BatchReturned, Fits, LastError;
    OneMoreBatch(|outcomes|, tried, results, r);
  }

  /** From batches that did not stop the iteration a failing run can be completed, if no later batch forces a success. */
  lemma {:induction false} FailingRun(
      outcomes: seq<Batch.Outcome>, tried: seq<Range>, results: seq<Lookup>, states: seq<Batch.State>) returns (result: Lookup)
    requires BatchRuns.Realistic(outcomes) && BatchRuns.NoneCancelled(outcomes)
    requires BatchesFit(outcomes, tried, results, states)
    requires tried == [] || !BatchStops(results[|results| - 1])
    requires forall j: nat :: j < |tried| ==> HasBatch(outcomes, j) && NoneFatal(BatchOutcomes(outcomes, j))
    requires !SuccessForced(outcomes)
    ensures ConcurrentCan(outcomes, result) && result.Err?
    decreases |outcomes| - |tried| * MAX_CONCURRENT_RESOLVERS
  {
    hide BatchReturned, Fits, LastError, AllAnswer, NoneFatal, BatchOutcomes, BatchesTried, BatchesReturned, SuccessForced, BatchesFit;
    var k := |tried|;
    if !HasBatch(outcomes, k) {
      result := Err(LastError(results));
      NoBatchLeft(outcomes, tried, results, states);
    } else {
      var batch := BatchOutcomes(outcomes, k);
      SliceIsRealistic(outcomes, k);
      var code := SomeRefusal(outcomes, k);
      var s := BatchCanFail(batch, code);
      OneMoreFits(outcomes, tried, results, states, Err(code), s);
      FitSizes(outcomes, tried, results, states);
      var tried', results', states' := tried + [BatchAt(|outcomes|, k)], results + [Err(code)], states + [s];
      if NoneFatal(batch) {
        NoFatalCode(batch, code);
        result := FailingRun(outcomes, tried', results', states');
      } else {
        result := Err(code);
        StopsHere(outcomes, tried', results', states', result);
      }
    }
  }

  lemma FitSizes(outcomes: seq<Batch.Outcome>, tried: seq<Range>, results: seq<Lookup>, states: seq<Batch.State>)
    requires BatchesFit(outcomes, tried, results, states)
    ensures |results| == |tried| == |states|
  {
  }

  lemma NoFatalCode(batch: seq<Batch.Outcome>, code: DnsError)
    requires NoneFatal(batch) && BatchRuns.Reported(batch, code)
    ensures !IsDefinitive(code)
  {
  }

  lemma NoBatchLeft(outcomes: seq<Batch.Outcome>, tried: seq<Range>, results: seq<Lookup>, states: seq<Batch.State>)
    requires BatchesFit(outcomes, tried, results, states) && !HasBatch(outcomes, |tried|)
    requires tried == [] || !BatchStops(results[|results| - 1])
    ensures ConcurrentCan(outcomes, Err(LastError(results)))
  {
    hide BatchReturned, Fits, LastError;
  }

  lemma StopsHere(
      outcomes: seq<Batch.Outcome>, tried: seq<Range>, results: seq<Lookup>, states: seq<Batch.State>, result: Lookup)
    requires BatchesFit(outcomes, tried, results, states) && tried != []
    requires results[|results| - 1] == result && BatchStops(result)
    ensures ConcurrentCan(outcomes, result)
  {
    hide BatchReturned, Fits, LastError;
  }

  lemma SliceIsRealistic(outcomes: seq<Batch.Outcome>, k: nat)
    requires HasBatch(outcomes, k) && BatchRuns.Realistic(outcomes) && BatchRuns.NoneCancelled(outcomes)
    ensures BatchRuns.Realistic(BatchOutcomes(outcomes, k)) && BatchRuns.NoneCancelled(BatchOutcomes(outcomes, k))
  {
  }

  /** Some batch is answered by everybody, and no batch before it has a fatal refusal. */
  ghost predicate SuccessForced(outcomes: seq<Batch.Outcome>) {
    exists k: nat ::
      && HasBatch(outcomes, k) && AllAnswer(BatchOutcomes(outcomes, k))
      && forall j: nat :: j < k ==> HasBatch(outcomes, j) && NoneFatal(BatchOutcomes(outcomes, j))
  }

  /** The code with which a batch can fail: NX_DOMAIN first, then a definitive one, then any. */
  lemma SomeRefusal(outcomes: seq<Batch.Outcome>, k: nat) returns (code: DnsError)
    requires HasBatch(outcomes, k) && !SuccessForced(outcomes)
    requires forall j: nat :: j < k ==> HasBatch(outcomes, j) && NoneFatal(BatchOutcomes(outcomes, j))
    ensures BatchRuns.Reported(BatchOutcomes(outcomes, k), code)
    ensures BatchRuns.Reported(BatchOutcomes(outcomes, k), NX_DOMAIN) ==> code == NX_DOMAIN
    ensures !NoneFatal(BatchOutcomes(outcomes, k)) ==> IsDefinitive(code)
  {
    hide BatchOutcomes;
    var batch := BatchOutcomes(outcomes, k);
    assert !AllAnswer(batch);
    if BatchRuns.Reported(batch, NX_DOMAIN) {
      code := NX_DOMAIN;
    } else if w :| 0 <= w < |batch| && batch[w].Refused? && IsDefinitive(batch[w].code) {
      code := batch[w].code;
    } else {
      var w :| 0 <= w < |batch| && batch[w].Refused?;
      code := batch[w].code;
    }
  }

  /**
   When the concurrent strategy succeeds, exactly: in every interleaving, if and only if the resolvers of
   some batch all answer and no batch before it has a resolver that reports NX_DOMAIN, PARSE or CONFIG.
   A batch with an answer and a refusal is not enough, since its answer can be lost.
   */
  lemma ConcurrentSucceedsExactly(outcomes: seq<Batch.Outcome>)
    requires BatchRuns.Realistic(outcomes) && BatchRuns.NoneCancelled(outcomes)
    ensures (forall result :: ConcurrentCan(outcomes, result) ==> result.Ok?) <==> SuccessForced(outcomes)
  {
    hide BatchesFit, ConcurrentRun, AllAnswer, NoneFatal, BatchOutcomes;
    if SuccessForced(outcomes) {
      var k: nat :|
        && HasBatch(outcomes, k) && AllAnswer(BatchOutcomes(outcomes, k))
        && forall j: nat :: j < k ==> HasBatch(outcomes, j) && NoneFatal(BatchOutcomes(outcomes, j));
      forall result | ConcurrentCan(outcomes, result) ensures result.Ok? {
        var tried, results, states :|
          ConcurrentRun(|outcomes|, tried, results, result) && BatchesFit(outcomes, tried, results, states);
        SuccessIsForced(outcomes, k, tried, results, states, result);
      }
    } else {
      NothingTried(outcomes);
      var result := FailingRun(outcomes, [], [], []);
    }
  }

  lemma NothingTried(outcomes: seq<Batch.Outcome>)
    ensures BatchesFit(outcomes, [], [], [])
  {
  }
}
