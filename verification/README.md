# yaddnsc: a verified model of its protocols

yaddnsc is a dynamic-DNS client. It asks resolvers for the addresses a host currently has, compares them
with the machine's own, and sends updates to a provider when they differ. This project models the parts of
it whose correctness is not visible from one function body, and proves what they promise.

* **The DNS wire codec** (sections 2.3.4, 3.1, 4.1.1 and 4.1.4 of RFC 1035, sections 6.1.2 and 6.1.3 of
  RFC 6891). `Names` has the name decoder with compression pointers, proved equal to a recursive reference
  decoder, and the second walker that only skips names. `NameEncoding` is the printer's side, and
  `Compression` says what labels and pointers read as, octet by octet. `Message` reads whole messages,
  `MessageLayout` and `RecordText` relate the copying and the copy-free path, `RecordReading` tells
  records, TXT and OPT data from their octets, `Builder` prints messages, and `RoundTrip` closes the circle. `Validator` matches responses to requests.
* **Transports.** `Dot` pads queries (section 3 of RFC 7830, section 4.1 of RFC 8467) and frames them;
  `Framing` and `Http` read from a `Transport.Connection` that may split the octets anywhere.
* **Concurrent protocols** as state machines whose steps are the program's atomic operations or critical
  sections: `Batch`, `BatchRuns` (workers racing for one promise), `Cache`, `CacheRuns`, `CacheHistory` (one
  computation a key, and none while its value is fresh), `Manager` (the main loop under an asynchronous stop). Atomics are sequentially consistent.
* **The scheduler**: `Scheduler` is the timer queue, `SchedulerRuns` is about whole runs of it, and
  `SchedulerConfig` about runs told from the configuration.
* **Strategies and text**: `Strategy` (fallback and concurrent batches), `Uri`, `UriRoundTrip` (percent
  encoding and the query string), `Replace` (substitution).

Objects whose methods update their fields are classes, loops are loops, and each such method is proved
equal to a function of its inputs or its old state. The theorems are about those functions and about runs.
A `std::string` is a sequence of octets; 8-, 16- and 32-bit casts are written out as remainders.

## Where code and comments differ

The model follows the code.

* A comment in `decompress_name` (src/dns/parser/parser_native.cpp:63) gives 16 as the pointer limit; the
  constant is 7. `Names.PointerLimitsDifferExactly` says for which names this matters.
* `parse_message` looks for an OPT owner name of length 1, but the root name decodes to length 0, so a
  standard OPT record stays in the additional section and never sets the message's EDNS information
  (`MessageLayout.EdnsExactlyForCandidates`, `RoundTrip.MessageRoundTrip`).
* In a batch, a worker with an answer counts itself before it sets the promise. A failing worker that
  counts last can then deliver the empty value first, and the answer is lost.
  `BatchRuns.AnswerCanBeLostExactly` says for which outcomes; `BatchRuns.SetFirstNeverLosesAnAnswer` shows
  that exchanging the two operations cures it.
* `batch_error_` is written last-writer-wins, so a definitive PARSE or CONFIG code does not survive a later
  transient one. `BatchRuns.ReturnedCodeExactly` says which codes given outcomes can lead to,
  `BatchRuns.DefinitiveSurvivesExactly` when all of them are definitive;
  `BatchRuns.DefinitiveCodeCanBeOverwritten` is a complete run in which they are not.
* The scheduler's stop callback notifies without the mutex, so a wake-up can be missed. With something
  scheduled the nearest deadline bounds the delay; with an empty heap the manager sleeps on
  (`Manager.StrandedExactly`). The validator accepts a configuration without domains.
* The build accepts a minimum update interval of zero, with which `pop_all_due` need not end
  (`SchedulerRuns.PoppingEndsExactly`, `SchedulerRuns.MinimumMustBePositive`).
* The comment on `replace` (include/string_util.hpp:207) promises the first match only; the loop replaces
  all. `Replace.FirstMatchOnlyExactly` and `Replace.PairListExactly` say when the two agree, for one pair
  and entry by entry for a list.
* `url_decode` is documented to keep malformed triplets (include/uri.h:102), but it decodes `%4G` to one
  octet and drops the `G`, since only the first digit is checked (`Uri.HalfTripletIsDecoded`).
  `Uri.KeptExactly` says on which strings the documented behaviour holds.
* Names with an empty label are accepted and can make a packet ambiguous (`RoundTrip.AmbiguousPackets`).

## Model

| member | source | states |
|---|---|---|
| Names.DecompressName | src/dns/parser/parser_native.cpp:60-156 | the loop with its cursor and seven visited slots ends, stays in bounds, and returns for every wire and offset the name and end offset of the recursive decoder that only counts seven jumps, failing exactly where that fails |
| Names.DecodedLabels | src/dns/parser/parser_native.cpp:123-152 | decoded labels are non-empty and at most 63 octets, and the end lies past the start and inside the wire |
| Names.CycleExhaustsJumps | src/dns/parser/parser_native.cpp:96-112 | a pointer target that repeats exhausts every budget of jumps, so the cycle check rejects nothing the limit would accept |
| Names.DecodesWithin | src/dns/parser/parser_native.cpp:96-101 | a larger budget of jumps keeps every decoding, and a name decodes within a budget iff it follows no more pointers |
| Names.PointerLimitsDifferExactly | src/dns/parser/parser_native.cpp:61-66 | the limit of 7 in the code and the 16 of its comment decode a name alike unless it follows 8 to 16 pointers |
| Names.ReadsUpToSevenPointers | src/dns/parser/parser_native.cpp:96-101 | a name that decodes with some budget is read iff it follows at most seven pointers |
| Compression.CompressedNameReads | src/dns/parser/parser_native.cpp:84-121 | short labels followed by the octets 0xC000 + t decode as the labels and then what stands at t, for one jump, ending behind the pointer, and fail iff that fails or no jump is left |
| Compression.PointerToName | src/dns/parser/parser_native.cpp:84-121 | a pointer to an encoded name reads as that name iff it has no empty label, and ends two octets on |
| Compression.SuffixedName | src/dns/parser/parser_native.cpp:139-152 | labels in front of a pointer to a name read as both, joined by dots |
| Names.SkipName | src/dns/validator.cpp:25-37 | the skipping walker computes its specification for any octets, zero when it runs off the end |
| Names.SkipAgreesWithDecode | src/dns/validator.cpp:25-37 | whenever a name decodes with any number of jumps, the walker finds the same end, pointers included |
| Compression.SkipsBlocks | src/dns/validator.cpp:25-37 | over blocks of 1 to 191 octets the walker ends one behind a zero, two behind an octet from 0xC0 on, and fails at the end of the message |
| NameEncoding.EncodedSizeIsExact | src/dns/wire/builder.cpp:51-62 | the size computed before writing is the number of octets written, trailing dot or not |
| NameEncoding.EncodableExactly | src/dns/wire/builder.cpp:56-76 | a name is accepted iff its written form has at most 255 octets and each label at most 63 |
| NameEncoding.LabelsDotted | src/dns/wire/builder.cpp:64-83 | the labels the loop cuts, joined by dots, are the name without its trailing dot |
| NameEncoding.DecodeEncodedLabels | src/dns/wire/builder.cpp:64-85 | decoding what was encoded yields the labels up to the first empty one |
| NameEncoding.NameRoundTrip | src/dns/wire/builder.cpp:44-86 | an encoded name always decodes, and to itself iff it has no empty label |
| Message.ParseQuestions | src/dns/parser/parser_native.cpp:405-420 | the question loop reads exactly the recursive specification's questions, end and failures |
| Message.ParseRecords | src/dns/parser/parser_native.cpp:424-464 | the same for records, with and without copying RDATA |
| Message.ParseEdns | src/dns/parser/parser_native.cpp:267-308 | the option loop reads exactly the specified EDNS fields and options, or fails on a truncated one |
| Message.ParseAdditionals | src/dns/parser/parser_native.cpp:466-477 | parsing additional records while looking for EDNS equals parsing them all and then looking |
| Message.ParseMessage | src/dns/parser/parser_native.cpp:376-485 | the whole parser equals the specification of header, sections, EDNS and combined RCODE |
| MessageLayout.ParsedMessageAccounts | src/dns/parser/parser_native.cpp:403-477 | section lengths equal the header counts, 12 + 5 qd + 11 (an + ns + ar) fits in the packet, RDATA ranges are inside, increasing and disjoint |
| MessageLayout.FastPathAgrees | src/dns/parser/parser_native.cpp:425-454 | the copy-free path reads the same message but for RDATA and EDNS options; the copying path accepts exactly those of its packets whose EDNS candidates have well-formed options |
| MessageLayout.EdnsExactlyForCandidates | src/dns/parser/parser_native.cpp:469-482 | EDNS information is set iff some additional OPT record has a one-octet owner and a non-zero class |
| RecordReading.RecordReads | src/dns/parser/parser_native.cpp:425-454 | behind any owner name that reads, the octets of type, class, TTL, length and RDATA read as that record, with its RDATA range and end |
| RecordReading.OwnersRead | src/dns/parser/parser_native.cpp:425-454 | a record whose owner is written out, or is a pointer to a name written elsewhere, gets that name and its RDATA |
| RecordReading.EdnsFields | src/dns/parser/parser_native.cpp:274-282 | payload, extended code, version and DO bit are the parts of CLASS and of the number in TTL, whatever the reserved bits |
| RecordReading.LastCandidateCounts | src/dns/parser/parser_native.cpp:466-477 | of several candidates the last gives the message its EDNS information |
| RecordReading.CodeHasBothParts | src/dns/parser/parser_native.cpp:479-482 | the low four bits of the message's code are the header's, the high four the extended code's low four |
| RecordText.FormatTxt | src/dns/parser/parser_native.cpp:174-197 | the TXT loop computes the segments joined by spaces, or fails on a segment past the end |
| RecordReading.TxtReads | src/dns/parser/parser_native.cpp:174-197 | strings behind their length octets read as the strings joined by spaces, empty ones in front leaving nothing |
| RecordReading.CutTxtIsRefused | src/dns/parser/parser_native.cpp:183-188 | TXT data whose last string is cut off is refused |
| RecordText.MakeParser | src/dns/parser/parser_native.cpp:491-495 | a parser exists iff the packet reads with copies, and holds that message |
| RecordText.ParseStrings | src/dns/parser/parser_native.cpp:532-550 | every answer of a NOERROR message formatted in order, failing iff some answer does; other codes give no records |
| RecordText.StringsAgreeWithRecords | src/dns/parser/parser_native.cpp:501-550 | for NOERROR packets formatting all at once succeeds iff each record formats by itself, with equal texts |
| RecordText.TextIsOwnRdata | src/dns/parser/parser_native.cpp:314-344 | the length re-read two octets before RDATA is the parsed RDLENGTH: the text comes from the record's own copied RDATA |
| RecordText.NamesInAnswers | src/dns/parser/parser_native.cpp:346-349 | a CNAME, NS or PTR answer holding an encoded name gives that name as text iff it has no empty label |
| RecordReading.CompressedNamesInAnswers | src/dns/parser/parser_native.cpp:346-349 | a CNAME, NS or PTR answer of labels and a pointer into the packet gives the joined name as text |
| Builder.WireWriter.EncodeName | src/dns/wire/builder.cpp:44-86 | accepts exactly the names within the 63 and 255 octet limits, and appends their encoding |
| Builder.WireWriter.WriteLabels | src/dns/wire/builder.cpp:64-83 | the label loop appends every label with its length, or refuses iff one is over 63 octets; the one-octet cast loses nothing |
| Builder.QueryBuilder.AddQuestion | src/dns/wire/builder.cpp:176-193 | appends one question and changes nothing else |
| Builder.QueryBuilder.AddEdns | src/dns/wire/builder.cpp:195-204 | replaces the EDNS configuration and changes nothing else |
| Builder.QueryBuilder.SumOptions | src/dns/wire/builder.cpp:270-276 | the 16-bit sum is the length of the written options modulo 2^16 |
| Builder.QueryBuilder.Build | src/dns/wire/builder.cpp:206-287 | returns the packet of the state, or throws iff there is no question, a name is not encodable, the version is not 0 or the payload is below 512 |
| RoundTrip.FlagsRoundTrip | src/dns/wire/builder.cpp:119-124 | every flag, the opcode and the rcode come back from the flag octets |
| RoundTrip.HeaderRoundTrip | src/dns/parser/parser_native.cpp:386-401 | the parsed header of a built packet is the state's header, with its counts modulo 2^16 |
| RoundTrip.QuestionRoundTrip | src/dns/parser/parser_native.cpp:405-420 | a written question reads back at any offset, with its end, when its name has no empty label, and its name does not otherwise |
| RoundTrip.EdnsRoundTrip | src/dns/parser/parser_native.cpp:267-308 | payload size, version, DO bit and every option come back from the OPT record |
| RoundTrip.MessageRoundTrip | src/dns/parser/parser_native.cpp:376-485 | for every state the builder accepts, parsing the packet gives back identifier, flags, questions and the OPT record as only additional record, ending at the packet's end, iff counts and option length fit 16 bits and no name has an empty label |
| RoundTrip.PacketDetermines | src/dns/wire/builder.cpp:206-287 | a state with the same packet as one that reads back agrees with it on every field the wire has room for iff it reads back as well |
| RoundTrip.AmbiguousPackets | src/dns/wire/builder.cpp:64-85 | two accepted states with different questions and one packet, the one holding a name with an empty label |
| Validator.FindQuestionEnd | src/dns/validator.cpp:41-47 | the end of the first question, or zero for a short, empty or malformed section |
| Validator.CheckQuestionEcho | src/dns/validator.cpp:86-113 | accepts iff both question sections end and hold the same octets |
| Validator.ValidateResponse | src/dns/validator.cpp:121-136 | accepts iff the response is long enough, is a response, and echoes identifier and question; each of the six refusals is given exactly in its own case |
| Validator.AcceptedAnswersTheQuestion | src/dns/validator.cpp:121-136 | an accepted, parsed response to a built one-question request has its identifier, the response flag and one question, which is the one asked iff the asked name has no empty label |
| Validator.AcceptedRequestsAsk | src/dns/validator.cpp:41-113 | for any request at all, an accepted response repeats octet by octet a question the request asked |
| Validator.FaithfulResponsesAreAccepted | src/dns/validator.cpp:121-136 | conversely a response with identifier, flag, count and the question's octets is accepted, whatever follows |
| Dot.BuildPaddedQuery | src/dns/resolver/dot.cpp:185-224 | fails iff the host name is not encodable, and otherwise builds the query with the padding option of the computed length |
| Dot.PaddedToBlocks | src/dns/resolver/dot.cpp:189-212 | a padded query is 128, 256 or 384 octets long, with 1 to 128 octets of padding |
| Dot.PaddedQueryReads | src/dns/resolver/dot.cpp:214-223 | it parses to the question asked, and its OPT record to the padding option |
| Dot.BuildWireFormat | src/dns/resolver/dot.cpp:230-235 | the wire is the 16-bit length followed by the query |
| Dot.FramedQueryArrives | src/dns/resolver/dot.cpp:230-235 | the length cast is lossless: a length-prefix receiver gets exactly the query back, whatever follows |
| Transport.Connection.ReadExact | src/network/tls_connection.cpp:267-294 | the partial-read loop fills the buffer with the next octets however they are split, and fails iff there are too few |
| Framing.ReceiveTcp | src/dns/resolver/classic_native.cpp:204-239 | the received message is a function of the octet stream alone, and exactly its octets are consumed |
| Framing.FramedExactly | src/dns/resolver/classic_native.cpp:218-239 | a stream delivers a message iff it starts with the message's length, 1 to 4096, and the message |
| Framing.FramingFailures | src/dns/resolver/classic_native.cpp:204-238 | a length of 0 or over 4096 is malformed, and a stream that stops early fails as its connection does |
| Http.ReadBody | src/http/body_parser.cpp:24-58 | the body is the first Content-Length octets of what is buffered past the headers, if anything, and what follows on the stream, split anywhere, or the connection's fault |
| Http.ReadResponse | src/http/http.cpp:39-99 | response, header-size error, parse error or fault is a function of the octets alone, for every way the stream delivers them; a chunked body goes to its decoder |
| Http.BodyArrives | src/http/body_parser.cpp:24-58 | headers with a Content-Length, that many octets and anything else give the status and exactly those octets |
| Http.BodyFallsShort | src/http/body_parser.cpp:39-55 | fewer octets than announced give the connection's fault |
| Http.NoBodyAnnounced | src/http/body_parser.cpp:60-62 | with neither Content-Length nor chunks the body is empty |
| Http.HeadersRefused | src/http/http.cpp:64-69 | headers that are refused fail with the parser's error, whatever follows |
| Http.HeadersNeverEnd | src/http/http.cpp:71-95 | headers without an end in 8192 octets are too large, and ones that stop before give the connection's fault |
| Batch.StepKeepsInv | src/dns/dispatcher.cpp:364-427 | every atomic step of every worker and of the waiting thread keeps counter, flags, promise and control state consistent |
| Batch.StepKeepsNxdomain | src/dns/dispatcher.cpp:400-402 | has_nxdomain_ is set iff a worker that reported NXDOMAIN has stored it |
| BatchRuns.EveryRunEnds | src/dns/dispatcher.cpp:314-427 | no run is longer than 7 n + 2 steps, a run that cannot go on has returned, and when all workers have finished the promise is set |
| BatchRuns.SetOnce | src/dns/dispatcher.cpp:421-427 | along every run the promise keeps its first value and resolvers keep their outcomes |
| BatchRuns.NoQueryAfterStop | src/dns/dispatcher.cpp:374-376 | a worker told to stop before it has begun never asks its resolver |
| BatchRuns.EmptyDelivery | src/dns/dispatcher.cpp:385-386 | when nothing is delivered every worker has counted, and any worker with an answer sits between its count and its set |
| BatchRuns.ResultIsExplained | src/dns/dispatcher.cpp:335-361 | a success is a worker's own answer; on failure all reported and none was cancelled, the code is NX_DOMAIN iff some worker reported it, else a reported code, else the initial NODATA with every worker answered |
| BatchRuns.SetFirstNeverLosesAnAnswer | src/dns/dispatcher.cpp:382-388 | with the promise set before the counter, a batch with an answer succeeds in every run |
| BatchRuns.AnswerCanBeLostExactly | src/dns/dispatcher.cpp:382-418 | as written, resolvers reporting given outcomes have a failing run iff one refuses and none is cancelled |
| BatchRuns.ReturnedCodeExactly | src/dns/dispatcher.cpp:341-361 | resolvers reporting given outcomes have a run that returns a code iff none is cancelled, some resolver reported the code, and it is NX_DOMAIN whenever some resolver reported that |
| BatchRuns.DefinitiveSurvivesExactly | src/dns/dispatcher.cpp:349-361 | every failing run of given outcomes returns a definitive code iff NX_DOMAIN is reported or every refusal is definitive |
| BatchRuns.LastStoreWins | src/dns/dispatcher.cpp:403-410 | batch_error_ is the code of the last worker that stored one, whatever was stored before |
| BatchRuns.DefinitiveCodeCanBeOverwritten | src/dns/dispatcher.cpp:349-361 | an instance: a complete run in which PARSE is reported and RETRY returned |
| Strategy.Fallback | src/dns/dispatcher.cpp:245-304 | asks distinct resolvers in order up to the first success or definitive error and returns that outcome, else the last error, else NODATA |
| Strategy.FallbackSucceedsExactly | src/dns/dispatcher.cpp:252-304 | fallback succeeds under every shuffle iff some resolver answers and none reports a definitive error |
| Strategy.FallbackCovers | src/dns/dispatcher.cpp:259-296 | without definitive errors it succeeds iff some resolver would, in any order |
| Strategy.Concurrent | src/dns/dispatcher.cpp:437-475 | the batches tried are consecutive ranges of one to three, each resolver is in at most the one batch of its index, none follows a success or definitive code, and without either all resolvers are covered |
| Strategy.ConcurrentIsExplained | src/dns/dispatcher.cpp:437-475 | over all interleavings of all batches: a success is a worker's answer, a failure's code was reported by a worker, in the last batch if it is definitive, and a transient failure means every resolver tried has reported and none NX_DOMAIN |
| Strategy.ConcurrentSucceedsExactly | src/dns/dispatcher.cpp:437-475 | the strategy succeeds in every interleaving iff the resolvers of some batch all answer and no batch before it has a resolver with a definitive error |
| Cache.TtlCache.Get | src/util/cache.hpp:171-184 | returns a value iff it is stored and younger than the time to live, and does the state machine's lookup step |
| Cache.TtlCache.InvalidateIf | src/util/cache.hpp:140-150 | the loop does the step that erases exactly the matching entries |
| Cache.TtlCache.Enter | src/util/cache.hpp:99-117 | the first critical section does the state machine's entry step: it hits, joins the pending future, or registers its own |
| Cache.TtlCache.Finish | src/util/cache.hpp:125-134 | the last one does the ending step: pending erased and the value stored in one section, or nothing stored after an exception |
| CacheRuns.StepKeepsInv | src/util/cache.hpp:98-136 | every critical section and promise operation, in any interleaving, keeps futures, owners and pending keys consistent |
| CacheRuns.SingleComputation | src/util/cache.hpp:106-136 | a key is pending iff a call is computing it, and never two calls are |
| CacheRuns.JoinersShareTheOutcome | src/util/cache.hpp:107-111 | all who took part in a computation asked for one key and return its owner's value or exception |
| CacheRuns.NoWaiterIsLost | src/util/cache.hpp:107-135 | a call that has not returned can go on, unless its computation's factory still runs, whose end wakes it |
| CacheRuns.NoFactoryWhileFresh | src/util/cache.hpp:124-127 | after a computation has stored its value, with no removal of the key, no factory for it starts before the time to live is over |
| CacheRuns.NoSecondFactory | src/util/cache.hpp:101-117 | a call starts its factory iff no fresh value is stored and no computation is in flight |
| CacheRuns.ReturnedValuesWereMade | src/util/cache.hpp:98-136 | a call returns only values that a factory or a set made for its own key |
| CacheHistory.CallsAreTold | src/util/cache.hpp:98-136 | in every interleaving a call returns a stored value iff the last End or set of its key is younger than the time to live and nothing has removed it since, and then that value; otherwise it computes iff no call is computing the key, and waits for the one that is |
| CacheHistory.OwnersReturnTheirOutcome | src/util/cache.hpp:120-135 | a call that computed returns the outcome of its own factory |
| Scheduler.TimerQueue.constructor | src/core/scheduler.cpp:70-106 | one entry a subdomain, due at once, with its effective interval, last forced far enough back |
| Scheduler.TimerQueue.CheckForceUpdate | src/core/scheduler.cpp:108-121 | forces iff the whole seconds since the last forced pop reach a positive interval, and remembers it then |
| Scheduler.TimerQueue.PopAllDue | src/core/scheduler.cpp:123-143 | ends when every due task has a positive interval; returns every due task once, in deadline order, forced as it should be; no task is lost, each popped one is requeued, and nothing is due afterwards |
| SchedulerRuns.PoppingEndsExactly | src/core/scheduler.cpp:128-140 | the loop ends iff every due task has a positive interval, then within one iteration a task |
| SchedulerRuns.TasksAreValid | src/config/validator.hpp:150-201 | in a validated configuration every task's effective interval reaches the minimum |
| SchedulerRuns.MinimumMustBePositive | src/config/validator.hpp:150-201 | the validator's minimum is positive iff no validated configuration can keep a pop from ending, at any time of any run |
| SchedulerRuns.EntryHistory | src/core/scheduler.cpp:123-143 | after any number of calls an entry holds its last pop and its last forced pop |
| SchedulerRuns.PopsExactly | src/core/scheduler.cpp:108-143 | a call pops a task iff its interval has passed since its last pop, and forces it iff the forced interval has passed since its last forced pop, truncation to seconds notwithstanding |
| SchedulerRuns.PopsAreSpaced | src/core/scheduler.cpp:135-138 | pops of a task are at least its interval apart |
| SchedulerRuns.ForcedPopsAreSpaced | src/core/scheduler.cpp:113-118 | forced pops are at least the forced interval apart |
| SchedulerRuns.UnforcedPopsFollowForcedOnes | src/core/scheduler.cpp:80-87 | the first pop is forced, and every unforced one falls less than the forced interval after the last forced one |
| SchedulerConfig.TasksInOrder | src/core/scheduler.cpp:73-103 | the s-th subdomain of the d-th domain is the task behind all subdomains of earlier domains and s of its own |
| SchedulerConfig.ConfiguredPops | src/core/scheduler.cpp:73-143 | in every run the first call at or after its push pops a subdomain's task, and later calls do iff as many seconds have passed since its last pop as its own interval says when positive, and its domain's otherwise |
| SchedulerConfig.ConfiguredForces | src/core/scheduler.cpp:80-121 | such an update is forced never without a forced interval; with one, the first is, and others iff the domain's forced interval has passed since the last forced one |
| Manager.StepKeepsInv | src/core/manager.cpp:110-131 | every step keeps popped = dispatched + skipped + remaining and dispatched = running + finished, task by task |
| Manager.LoopPopsAgain | src/core/manager.cpp:110-129 | without a stop, a run with more of the loop's own steps than its distance from the pop, and two for every spurious wake-up, pops |
| Manager.PopBetweenTimeouts | src/core/manager.cpp:110-129 | between two time-outs there is always a pop |
| Manager.DueTasksArePopped | src/core/manager.cpp:110-129 | a task that is due is popped in every such run |
| Manager.OnlySleepStalls | src/core/scheduler.cpp:145-155 | without a stop the loop always has a step, except asleep with no task due |
| Manager.EverythingIsDrained | src/core/manager.cpp:113-132 | when run returns, stop was requested, the pool is empty, and each pop of a task with a loaded driver has been run to its end, each other one skipped |
| Manager.AtMostOnePopAfterStop | src/core/manager.cpp:110-128 | after the stop request at most one more pop begins, and only if the flag had been tested before |
| Manager.StopEndsTheLoop | src/core/scheduler.cpp:145-155 | after the request a bounded number of steps is left, and a system that stalls has returned or sleeps with its nearest deadline still ahead |
| Manager.NotifiedInTime | src/core/scheduler.cpp:70-72 | unless the notification comes between the test of the flag and the sleep, the manager never sleeps again, and a system that stalls has returned |
| Manager.StrandedExactly | src/core/scheduler.cpp:70-72 | a missed notification can strand the manager for good iff nothing is scheduled; otherwise the nearest deadline ends every wait |
| Uri.UrlEncode | src/network/uri.cpp:347-366 | the loop computes the octet-wise encoding, in either slash mode |
| Uri.OctetsEncodeAs | src/network/uri.cpp:351-363 | unreserved octets, by number, pass through, a slash does if asked, and any other becomes a percent sign and two upper-case digits |
| Uri.UrlDecode | src/network/uri.cpp:368-390 | the loop computes the decoder's specification, malformed triplets included |
| Uri.KeptExactly | include/uri.h:100-105 | the decoder decodes full triplets and keeps malformed ones, as documented, iff no percent sign is followed by a single hex digit and another octet |
| Uri.HalfTripletIsDecoded | src/network/uri.cpp:373-379 | an instance: `%4G` becomes the one octet 4, while its documentation keeps it |
| Uri.DecodeEncoded | src/network/uri.cpp:347-390 | decoding undoes encoding for every octet string and either slash mode |
| Uri.BuildCanonicalQuery | driver/alibaba_cloud/alibaba_cloud.cpp:66-78 | prints the encoded pairs joined by ampersands |
| Uri.GetQueryParams | src/network/uri.cpp:292-341 | the loop reads exactly the specified parameters, empty segments skipped |
| UriRoundTrip.BareKeyReads | src/network/uri.cpp:313-315 | a segment without an equals sign is a key with an empty value |
| UriRoundTrip.FirstEqualsSplits | src/network/uri.cpp:309-319 | the first equals sign of a segment ends the key, and the value keeps any others |
| UriRoundTrip.EmptySegmentsAreSkipped | src/network/uri.cpp:302-337 | leading and doubled ampersands add nothing, and a query reads segment by segment |
| UriRoundTrip.QueryRoundTrip | src/network/uri.cpp:292-341 | reading a printed list gives the list back, exactly when `+` is not mapped or does not occur |
| UriRoundTrip.WithQueryParses | src/network/uri.cpp:57-155 | with a query, and any fragment, a scheme URI parses iff it does without, into the same scheme, host and path, and its query slice shows the query |
| UriRoundTrip.PartsParseBack | src/network/uri.cpp:57-217 | a URI put together from a scheme, an authority (a name, a name and port, a bracketed address and what follows, a bare IPv6 address), a path, a query and a fragment parses back into them, scheme and host in lower case and the rest untouched |
| UriRoundTrip.PathsParse | src/network/uri.cpp:102-107 | a text without a scheme that starts with a slash or a dot is a path as a whole, up to a fragment |
| UriRoundTrip.UriRoundTrip | src/network/uri.cpp:57-155 | for every list of octet-string pairs, every scheme URI without query or fragment and any fragment: printing, parsing, slicing and reading back is the identity, exactly when no `+` is mapped |
| Replace.Buffer.Substitute | include/string_util.hpp:218-244 | overwriting matches in place equals leftmost non-overlapping replacement of the original string |
| Replace.Buffer.ReplaceAll | include/string_util.hpp:272-309 | both branches equal the same reference replacement |
| Replace.Buffer.ReplacePairs | include/string_util.hpp:211-246 | a pair list equals replacing all for one target after the other |
| Replace.ReplacedFrom | include/string_util.hpp:297-308 | the reference itself: from any place on, everything up to the next match is kept, the match is replaced, and the rest goes on behind it |
| Replace.ReplacementKeepsTheParts | include/string_util.hpp:297-308 | the string is its parts glued with the target, the result the same parts glued with the replacement, and its length follows |
| Replace.FirstMatchOnlyExactly | include/string_util.hpp:206-207 | for one pair, replacing only the first match gives the same iff at most one match is left to replace or the replacement is the target |
| Replace.PairListExactly | include/string_util.hpp:206-246 | a pair list leaves behind what its comment promises, entry by entry, iff every entry meets at most one match or changes nothing |
| Replace.BothMatchesAreReplaced | include/string_util.hpp:238-244 | an instance: replacing `a` by `b` in `aa` gives `bb`, and by the comment `ba` |

## Left out

- Sockets, TLS, poll, pipes, files, signals, logging, JSON and the command line: I/O. A transport is an arbitrary splitting of octets followed by a fault; cancellation and time-outs are that fault.
- Address text (`inet_ntop`) and the MX, SOA and SRV formatters, which read fixed fields without a length check: functions given from outside.
- `format_generic` is unreachable from the RDATA dispatch, and error messages are reduced to their codes.
- picohttpparser: the header parser is any prefix-stable function.
- Http.ReadResponse: does not decode a chunked body, because the chunk decoder belongs to picohttpparser, whose source is not part of this model; such a response is handed over after its headers.
- The libresolv variants of dispatcher, parser and resolver rest on a library that is not part of this model.
- Memory ordering: atomics are sequentially consistent; a thread's cancellation pipe is taken to work.
- Exceptions from allocation or from copying values inside the cache, and factories that call back into the cache.
- Spurious wake-ups are steps of the manager, but no progress is claimed from them.
- `std::priority_queue` is used by its contract: the top is an entry with the least deadline, ties in any order.
- The updater, the drivers (but for the Alibaba query string), request signing, base64, HMAC and hashes: no protocol state, or only easy members.
- DoT connection reuse: a cancelled read leaves the connection open, so no claim about unread responses is made.
- Strategy.Concurrent: a batch is any function of its resolver range; its own protocol enters through ConcurrentIsExplained and ConcurrentSucceedsExactly.
- Replace.Buffer.ReplaceAll: target and replacement are values, so views that alias the buffer are not captured.
- Uri.Parse: ports and the default-port table are left out; they take no part in slicing the query. The IPv6 test is a function given from outside. What a text without a scheme that is no path reads as is modelled, but no theorem is about it.
- RoundTrip.MessageRoundTrip: opcode and rcode come back modulo 16, since the wire has four bits for each.
