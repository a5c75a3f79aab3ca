# A verified model of mqrestt

mqrestt bridges MQTT and HTTP.  An mqtt2rest unit subscribes to `T/#` and turns
each message into a POST; a rest2mqtt unit accepts POSTs and publishes their
bodies.  This project models the logic that is mqrestt's own, between the
libraries it calls, and proves what that logic keeps over every input and every
run.  `dafny verify dfyconfig.toml` checks all of it.

| file | what it models |
|---|---|
| `CStrings.dfy` | C strings in blocks of memory; `strncat`, `strncpy`, `strlen` as loops over arrays, each equal to a function in which an access outside the block is `None` |
| `IntParsing.dfy` | `parseInt` over base-0 `strtol` |
| `Requests.dfy` | the callbacks of `answer_to_connection` as steps over all requests in progress |
| `Rest2Mqtt.dfy` | the same in the heap: the buffer grown in place, one accumulator object behind each `*con_cls`, `free` |
| `TopicFilter.dfy` | the subscription filter, matching by levels, the topic chop |
| `Mqtt2Rest.dfy` | the URL joined in a 2048-byte array, one forwarded message |
| `Bridge.dfy` | both directions chained through an HTTP hop |
| `PollSet.dfy` | three descriptor sets packed into a poll array |
| `MqttClient.dfy` | the connection flag of a client handle |
| `UnitLoop.dfy` | the loops of both kinds of unit, and the keepalive |
| `ThreadTable.dfy` | start-up filling the thread table, the signal handler walking it |

## Main results

- **Interleaving.** For any interleaving of callbacks of any number of requests,
  no callback reads freed memory or a null pointer if and only if each request,
  looked at alone, keeps a contract that the HTTP side can check
  (`Requests.NoFaultIff`).  Then the published log is the logs of the finished
  requests, each run alone, in finishing order (`Requests.RunRefinesIndependent`),
  so neither interleaving nor chunking shows
  (`Requests.InterleavingAndChunkingIrrelevant`).  The heap version refines it step
  by step and over whole runs (`Rest2Mqtt.Unit.AnswerToConnection`,
  `Rest2Mqtt.Serve`).
- **Buffer.** With blocks `spare` bytes longer than asked for, every write of a
  request is inside its block if and only if `spare` is positive or every chunk
  contains a NUL; and then, whatever realloc leaves in the block, it reads as the
  longest NUL-free prefix of everything uploaded (`Rest2Mqtt.BufferReadsAsUpload`).
- **Filter.** Among legal filters `T/#`, delivery is the prefix test that the
  chop relies on exactly when `T` has no `+` (`TopicFilter.PrefixTestIff`).
- **URL.** The join is right for every initial content of the buffer exactly when
  `Mqtt2Rest.Fits` holds (`Mqtt2Rest.AlwaysWholeIff`), and inside the buffer
  exactly when `Mqtt2Rest.StaysInside` holds (`Mqtt2Rest.AlwaysInsideIff`).  Two
  delivered topics are posted to one URL exactly when they are equal or both are
  cut at the same text (`Mqtt2Rest.TopicsMeetIff`).
- **Round trip.** For base URL authority + `/` + `T`, a path-safe topic is
  forwarded and asked for as itself exactly when `T` is neither empty nor ends in a
  slash (`Bridge.TopicRoundTripIff`).  A forwarded message is served exactly when
  it has text and its URL a `qos` (`Bridge.ChainedRun`, and among other requests
  `Bridge.ChainedInAnyRun`), so a topic of path
  characters never is (`Bridge.PathSafeNeverServed`), a topic `T/r?qos=n` is
  published on `T/r` at level `n` (`Bridge.QosTopicServed`), and with this base no
  message returns on its own topic (`Bridge.NoMessageReturns`).  For an arbitrary
  base, `Bridge.MessageReturnsIff` says when one does; a base with a query of its
  own sends every topic back on one topic (`Bridge.QueryBaseFixesTopic`), and for
  every path-safe topic there is such a base with which its messages return
  (`Bridge.MessageReturns`).
- **Loops.** Packing loses nothing and fails exactly at capacity; over any run of
  a unit, the turn at which it ends and how, the connection flag after every turn, the time of every misc call, the
  gaps between them, and the published log or the POSTs made are characterised
  together (`UnitLoop.RunRest2Mqtt`, `UnitLoop.RunMqtt2Rest`).
- **Signals.** A signal at any moment of start-up reaches exactly the threads
  started so far (`ThreadTable.SignalAtAnyMoment`).
- **Parsing.** `parseInt` accepts exactly the base-0 integers and undoes four
  ways of printing (`IntParsing.AcceptedExactly`, `IntParsing.PrintedIsParsed`);
  accepted or not, it stores the longest number that the text begins with, and 0 if
  there is none (`IntParsing.ParsedExactly`); the case of letters makes no
  difference (`IntParsing.CaseIrrelevant`).

## Where the code does less than expected

Each of these is a lemma with the exact condition.

- The size asked for when the buffer grows leaves room for strncat's terminator
  exactly when the chunk contains a NUL (`Rest2Mqtt.GrowStaysInsideIff` with no
  spare byte).
- A request that finishes without any upload, or without a `qos` argument, passes
  a null pointer to `strlen` or `strtol`; `*con_cls` keeps pointing at freed
  memory after the final callback.  These are the state `Fault`.
- The topic `T` itself is delivered too, but has no remainder; the chop is inside
  the string exactly for the other delivered topics (`TopicFilter.ChopOfDelivered`).
- A base URL of 2047 characters ending in a slash is copied without a terminator,
  so a whole URL of 2047 characters is not enough for the join to be right
  (`Mqtt2Rest.FullLengthBaseFails`).
- With a base URL that ends in a slash, a remainder over the limit is cut without
  notice, and topics that differ only after it share a URL (`Mqtt2Rest.TopicsMeet`).
- A forwarded message has no `qos` of its own, so a rest2mqtt unit that receives
  it passes a null pointer to `strtol` unless the topic or the base URL carries one
  (`Bridge.ChainedRun`, `Bridge.PathSafeNeverServed`).
- The part of a turn after its misc call adds to the next gap between misc calls:
  with turns of at most D ms outside poll, of which at most A after that call, the
  gap is at most the poll timeout + D + A, and this is attained
  (`UnitLoop.MiscGapAttained`); half the keepalive + D holds exactly when A is at
  most 0 ms, or 500 ms for an odd keepalive (`UnitLoop.HalfKeepaliveIff`).
- `parseInt` compares the old target, not the number read, with the limits of
  `long`; with a 64-bit `long` that is never true, so out-of-range text is
  accepted and stores another number (`IntParsing.StoredFaithfullyIff`,
  `IntParsing.StoredOf`).
- The flag of `parseInt` is not looked at, so a rejected `qos` is published at the
  number it begins with: `2x` at level 2 (`Requests.WhatOneRequestPublishes`).
- `mqtt_client_reconnect` changes nothing, so a lost connection is never reported
  again (`UnitLoop.FlagNeverReturns`).
- With all 32 slots of the thread table in use the walk finds no zero in it
  (`ThreadTable.WalkSignalsStarted`).
- The documentation says that `mqtt_topic = /` receives `/devices/12/temperature`;
  the filter built from it is `//#`, which does not match (`TopicFilter.DocumentedTopicNotDelivered`).
  The model follows the code.

## Assumptions

- C characters are Dafny `char`s; nothing depends on their width.  `int` has 32
  bits, `long` and `size_t` 64.
- A FATAL log call never returns (level 0 is never filtered); it is an outcome.
- Results of libmosquitto, libmicrohttpd, poll and pthread_create are arbitrary
  arguments of each step, except that thread ids are not zero and that
  pthread_create stores the id in one step.
- The HTTP hop of `Bridge.dfy` follows RFC 3986: the client removes dot segments
  (section 5.2.4), the path ends at `?` or `#` (section 3.3), the server decodes
  percent escapes (section 2.1), and finds a query argument by its
  name in any case of letters, decoding `+` as a space.
- libmosquitto puts a NUL after a message payload, so reading it as a C string
  (`Mqtt2Rest.OnMqttMsg`) ends at its first NUL or at its end.
- The HTTP library gives the opening callback before any upload, and one
  `*con_cls` for each request.
- Matching follows section 4.7 of MQTT Version 3.1.1.

## Model

| member | source | states |
|---|---|---|
| Requests.NoFaultIff | src/rest2mqtt_unit.c:91-136 | a run of callbacks from any number of requests reads no freed accumulator and no null pointer if and only if each request has its final callback last, after a non-empty chunk, with a `qos` and a path |
| Requests.RunFollowsRequests | src/rest2mqtt_unit.c:91-136 | the same, and what the machine holds for each request is a function of that request's own callbacks |
| Requests.LiveAccumulators | src/rest2mqtt_unit.c:96-134 | the live accumulators are those of requests opened and not finished, each holding its own upload |
| Requests.StepPublishes | src/rest2mqtt_unit.c:117-136 | a callback publishes exactly when it completes its request, and then that request's one message |
| Requests.AloneRun | src/rest2mqtt_unit.c:96-136 | a request run alone publishes one message if complete, else none |
| Requests.WhatOneRequestPublishes | src/rest2mqtt_unit.c:118-125 | that message: topic is the path without its first character, payload is the upload up to its first NUL or its end, level is the number that the `qos` begins with, or 0, so a decimal `qos` is the level used |
| Requests.OtherVerbsIgnored | src/rest2mqtt_unit.c:91-94 | a run of callbacks does what its POST callbacks alone do: those of any other verb leave no trace |
| Requests.NoPostNothingDone | src/rest2mqtt_unit.c:91-94 | callbacks without a POST among them open nothing and publish nothing |
| Requests.FinishedAreComplete | src/rest2mqtt_unit.c:117-136 | no request finishes twice |
| Requests.FinishedIff | src/rest2mqtt_unit.c:117-136 | a request is in the finishing order if and only if it is complete |
| Requests.RunRefinesIndependent | src/rest2mqtt_unit.c:81-137 | the published log of any interleaving is the logs of the finished requests, each run alone, in finishing order |
| Requests.CompleteIsPublished | src/rest2mqtt_unit.c:117-136 | the message of every complete request is in the log of every run without a fault |
| Requests.InterleavingAndChunkingIrrelevant | src/rest2mqtt_unit.c:104-125 | two runs that finish the same uploads in the same order publish the same messages, however interleaved and chunked |
| Rest2Mqtt.GrowReads | src/rest2mqtt_unit.c:107-113 | one chunk, for a block of any size in which the step stays: the block reads as the longest NUL-free prefix of the upload, for any bytes left by realloc |
| Rest2Mqtt.BufferReadsAsUpload | src/rest2mqtt_unit.c:104-116 | any sequence of chunks, blocks `spare` bytes longer than asked for (0 as in the code): all writes are inside if and only if `spare` is positive or every chunk contains a NUL, and then the buffer reads as the upload up to its first NUL |
| Rest2Mqtt.GrowStaysInsideIff | src/rest2mqtt_unit.c:108-112 | one chunk stays inside its block if and only if there is a spare byte or the chunk contains a NUL |
| Rest2Mqtt.GrowBlock | src/rest2mqtt_unit.c:107-112 | the in-place realloc, mark and strncat on arrays meet that reading, for every block size in which they stay |
| Rest2Mqtt.IncomingData.Append | src/rest2mqtt_unit.c:107-113 | the accumulator's upload grows by the chunk and its invariant is kept, whenever the terminator has room |
| Rest2Mqtt.IncomingData.Text | src/mqtt_client.c:185-186 | the text handed to MQTT is the upload up to its first NUL |
| Rest2Mqtt.Unit.Open | src/rest2mqtt_unit.c:96-103 | a fresh accumulator behind `*con_cls`, nothing else changes |
| Rest2Mqtt.Unit.Continue | src/rest2mqtt_unit.c:104-116 | one accumulator grows, no other is touched |
| Rest2Mqtt.Unit.Release | src/rest2mqtt_unit.c:133-134 | the data block and the accumulator of this request are passed to `free`, neither having been before |
| Rest2Mqtt.Unit.Finish | src/rest2mqtt_unit.c:117-135 | the message is published, and data block and accumulator freed |
| Rest2Mqtt.Unit.AnswerToConnection | src/rest2mqtt_unit.c:81-137 | the callback on the heap is one step of the request machine and reads only live accumulators; refused and without effect for a verb other than POST; else it opens an empty accumulator, or adds its chunk, or publishes one message described by the upload and frees its own accumulator, with the reply of that branch |
| Rest2Mqtt.RunCallbacks | src/rest2mqtt_unit.c:201 | any batch of callbacks after any earlier ones takes the heap to the state of the whole run |
| Rest2Mqtt.Serve | src/rest2mqtt_unit.c:81-137 | over a whole run: the log is that of independent requests; each accumulator is freed once if its request finished and never otherwise; the blocks freed are those of the finished requests, all different |
| TopicFilter.OnConnect | src/mqtt_client.c:80-101 | fatal exactly when `T/#` needs 256 bytes or more without its terminator, subscribed to exactly `T/#` at level 2 exactly on success with a topic |
| TopicFilter.FormatFilter | src/mqtt_client.c:89-91 | the in-place snprintf: length of the whole text, and the text cut to the buffer, terminated |
| TopicFilter.FilterIsPrefixTest | src/mqtt_client.c:89-97 | for every wildcard-free `T`, matching level by level under `T/#` is: the topic is `T` or begins with `T/` |
| TopicFilter.PrefixTestIff | src/mqtt_client.c:89-97 | among `T` that give a legal filter this holds for all topic names if and only if `T` has no `+` |
| TopicFilter.ChopOfDelivered | src/mqtt2rest_unit.c:79 | on a delivered topic the advanced pointer stays in the string if and only if the topic is not `T`, and then topic = `T` + `/` + remainder |
| TopicFilter.SlashUnitReceives | src/mqtt_client.c:89-97 | a unit with topic `/` receives exactly `/` and the topics that begin with two slashes |
| TopicFilter.DocumentedTopicNotDelivered | README.md:47-48 | the documented example topic is not matched by the filter built from the documented `/` |
| Mqtt2Rest.JoinUrl | src/mqtt2rest_unit.c:43-52 | the array code equals the step function wherever that stays in bounds |
| Mqtt2Rest.JoinOfShortBase | src/mqtt2rest_unit.c:43-52 | for bases up to 2046 characters: exactly when the steps stay in bounds, and the text they leave, cut where strncat cuts it |
| Mqtt2Rest.JoinIsWhole | src/mqtt2rest_unit.c:43-52 | when it fits, every access is inside and the buffer reads as base, a slash only if missing, and the whole remainder |
| Mqtt2Rest.UrlLimits | src/mqtt2rest_unit.c:34-52 | the conditions in numbers: whole when base, slash if missing, and remainder have at most 2047 characters; inside also when the base ends in a slash |
| Mqtt2Rest.AlwaysInsideIff | src/mqtt2rest_unit.c:46-52 | every access is inside for every initial buffer if and only if the base has 1 to 2046 characters and base, slash and the part appended leave room for the terminator |
| Mqtt2Rest.LongBaseLeavesBuffer | src/mqtt2rest_unit.c:46-52 | with a base of 2047 characters or more the steps leave a buffer without NULs |
| Mqtt2Rest.AlwaysWholeIff | src/mqtt2rest_unit.c:43-52 | the join is in bounds and whole for every initial buffer if and only if the base has 1 to 2046 characters and the URL at most 2047 |
| Mqtt2Rest.FullLengthBaseFails | src/mqtt2rest_unit.c:46-52 | a base URL of 2047 characters for which the join is not always right |
| Mqtt2Rest.OnMqttMsg | src/mqtt2rest_unit.c:72-85 | a message whose topic is longer than `T` is posted to stem + remainder, cut where strncat cuts it, which is the whole URL if and only if it fits; a delivered topic is split at its slash; there is a payload exactly when the message has one, and it is that up to its first NUL or its end |
| Mqtt2Rest.TopicsMeetIff | src/mqtt2rest_unit.c:43-79 | two delivered topics that stay inside are posted to one URL if and only if they are equal, or both remainders reach the limit of strncat and agree up to it |
| Mqtt2Rest.TopicsMeet | src/mqtt2rest_unit.c:52 | for every wildcard-free `T` and every base ending in `/` of at most 2046 characters, two different delivered topics with one URL |
| Mqtt2Rest.ForwardInjective | src/mqtt2rest_unit.c:43-79 | delivered topics whose URLs fit are posted to one URL only if they are equal |
| Bridge.TopicRoundTripIff | src/mqtt2rest_unit.c:46-79 | posted to base authority + `/` + `T` and decoded by the receiving unit, a path-safe topic `T/r` that stays inside the buffer comes back as itself if and only if `T` is not empty and does not end in `/` |
| Bridge.ChainedRun | src/rest2mqtt_unit.c:117-136 | the POST made of a message, its text cut into any chunks, is served if and only if the text is not empty and the URL has a `qos`; then it is published once, whole, on the decoded path without its first character |
| Bridge.ChainedInAnyRun | src/rest2mqtt_unit.c:117-136 | the same among any other requests: a run that contains the forwarded message has no fault only if it can be served, and then its message is in the log |
| Bridge.NoMessageReturns | src/mqtt_client.c:180-191 | for any topic `T/r` and base authority + `/` + `T`, a message that is served is published on a strictly shorter topic |
| Bridge.MessageReturnsIff | src/mqtt_client.c:180-191 | for any base, a forwarded message is published on a given topic if and only if it has text, its URL a `qos`, and the decoded path without its first character is that topic |
| Bridge.QueryBaseFixesTopic | src/mqtt2rest_unit.c:46-52 | with a base that has a query, whatever is appended joins the query, so every topic is published again on the one topic of the base |
| Bridge.MessageReturns | src/mqtt_client.c:180-191 | for every path-safe topic `T/r` and level `n`, with base authority + `/T/r?qos=n&` its messages are published on `T/r` again, at level `n` |
| Bridge.PathSafeNeverServed | src/rest2mqtt_unit.c:119-123 | a forwarded message of a topic made of path characters never has a `qos`, so its final callback passes a null pointer |
| Bridge.QosTopicServed | src/mqtt_client.c:180-191 | a message of topic `T/r?qos=n` is published once on `T/r`, at level `n`, with its text |
| Bridge.RequestUrlShrinks | src/mqtt_client.c:183-186 | the path that the callback gets begins with a slash and is never longer than the one posted to, so advancing it by one stays inside |
| PollSet.PackingLossless | src/rest2mqtt_unit.c:57-78 | the packed list is strictly ascending and its event masks give back the read, write and except sets restricted to 0..max |
| PollSet.PackedLength | src/rest2mqtt_unit.c:57-78 | it has one entry for each descriptor of the union |
| PollSet.Pack | src/rest2mqtt_unit.c:57-79 | the packing loop: fatal exit if and only if the union has at least as many descriptors as the capacity; otherwise the list is in the array and later slots are untouched |
| PollSet.GetMhdPollFds | src/rest2mqtt_unit.c:46-79 | the whole function: fatal exit if and only if the descriptor sets cannot be had or are too large; otherwise the packed list |
| UnitLoop.FillPollArray | src/rest2mqtt_unit.c:185-192 | the MQTT slot is in bounds, is the last of the count, and the HTTP slots keep the packed list |
| UnitLoop.Poll | src/rest2mqtt_unit.c:193 | poll reports on the slots in use and waits at most the timeout |
| UnitLoop.PollAll | src/rest2mqtt_unit.c:185-200 | up to poll: it goes on exactly when there are descriptor sets, fewer than 64 descriptors, and no failed poll, then with the revents of the MQTT slot |
| UnitLoop.CallbacksThenLoop | src/rest2mqtt_unit.c:201-203 | after poll: the HTTP callbacks take the requests on, the client loop takes the flag on and makes its misc call, neither disturbing the other |
| UnitLoop.Rest2MqttRound | src/rest2mqtt_unit.c:178-204 | one turn: the two ways out (as for `PollAll`), the flag decided by the revents of the last slot, the misc call and its time, the callbacks made |
| UnitLoop.TurnsMade | src/rest2mqtt_unit.c:178-204 | the loop is left at the first turn that has a way out, and at no other |
| UnitLoop.RunRest2Mqtt | src/rest2mqtt_unit.c:170-204 | over any run: the turns made have descriptor sets, fewer than 64 descriptors and no failed poll, and the run ends at the first turn that has not, fatally or by the failed poll; the flag after every turn, the time of every misc call, the bound on their gaps from the timeout computed from the keepalive, and the published log, which is that of independent requests |
| UnitLoop.Forward | src/mqtt_client.c:19-27 | the messages that the client reads are posted one by one, in order |
| UnitLoop.Mqtt2RestRound | src/mqtt2rest_unit.c:124-142 | one turn of the other kind of unit: way out, flag, misc call and its time, and one POST for each message if poll reports reading, none otherwise |
| UnitLoop.RunMqtt2Rest | src/mqtt2rest_unit.c:119-142 | over any run of it: it makes exactly the turns before the first whose poll fails, and leaves for that reason; the flag after every turn, the time of every misc call, the bound on their gaps, and the POSTs, which are those of the delivered messages in order, each with its message's payload |
| UnitLoop.FlagsTurnByTurn | src/mqtt_client.c:208-222 | on every recorded run the flag starts as the outcome of three tries, and a turn drops it exactly when the result that counts, of the read if poll reports reading, else of the write, is 7 or 4 |
| UnitLoop.MiscGap | src/mqtt_client.c:222 | two consecutive misc calls are apart by the end of one turn, what precedes poll in the next, the wait, and what precedes the call |
| UnitLoop.FlagNeverReturns | src/mqtt_client.c:174-178 | once the flag is false after some round it is false after every later one |
| UnitLoop.TimeoutIsIntIff | src/mqtt2rest_unit.c:122 | the timeout is an `int` exactly for keepalives within 4294967 of zero, and at most half the keepalive in milliseconds |
| UnitLoop.MiscCallsInTime | src/mqtt_client.c:222 | on every recorded run with turns of at most D ms outside poll, at most A of them after the misc call, consecutive misc calls are at most the poll timeout + D + A ms apart, so within the keepalive when D + A is at most half of it |
| UnitLoop.HalfKeepaliveIff | src/mqtt_client.c:222 | for either kind of unit, all such runs stay within keepalive*500 + D if and only if A is at most what the rounded timeout leaves, 0 or 500 ms |
| UnitLoop.MiscGapAttained | src/mqtt_client.c:222 | two turns, made by either kind of unit, for which the gap is exactly the timeout + D + A |
| MqttClient.Handle.Connect | src/mqtt_client.c:152-166 | connected exactly when one of the first three tries succeeds; it stops at the first that does, and makes all three if none does |
| MqttClient.Handle.GetPollFd | src/mqtt_client.c:193-206 | the slot asks for reading, and for writing exactly when wanted |
| MqttClient.Handle.Loop | src/mqtt_client.c:208-223 | the flag is dropped exactly when the result of the read, or of the write if there is no read, is 7 or 4, and the misc call is made in any case |
| ThreadTable.StartList | src/main.c:303-332 | every table during a start-up loop is the threads started so far, then zeros; it stops at the first failed creation |
| ThreadTable.StartUnits | src/main.c:279-332 | the outcome of start-up, and the history of tables in the order mqtt2rest then rest2mqtt, each in configuration order |
| ThreadTable.HandleSigint | src/main.c:79-84 | the loop signals what the walk function says |
| ThreadTable.WalkSignalsStarted | src/main.c:79-84 | the walk ends in the table if and only if fewer than 32 units were started, and then signals each of their threads, in order, and nothing else |
| ThreadTable.SignalAtAnyMoment | src/main.c:79-84 | the same for the table at every moment of start-up |
| IntParsing.RunStrtol | src/utils.c:28 | the scanning loops compute the base-0 conversion |
| IntParsing.RunParseInt | src/utils.c:23-35 | flag and value do not depend on the old target or on `errno` |
| IntParsing.ParsedExactly | src/utils.c:23-35 | for every text: it is accepted if and only if it is white space, a sign, a number and nothing else; accepted or not, what is stored is the longest number it begins with, clamped and cast, or 0 |
| IntParsing.LeadingParsed | src/utils.c:28-33 | a text that begins with a number stores it, and is accepted if and only if nothing follows |
| IntParsing.StoredOf | src/utils.c:28-33 | a number keeps its last 32 bits if it is a `long`; above it becomes -1, below 0 |
| IntParsing.CaseIrrelevant | src/utils.c:28 | upper-case text gives the same flag and value |
| IntParsing.AcceptedExactly | src/utils.c:28-32 | accepted are exactly: white space, an optional sign, a complete base-0 integer, and nothing after |
| IntParsing.ConstantParsed | src/utils.c:28-33 | the value stored for each accepted text |
| IntParsing.StoredFaithfullyIff | src/utils.c:30-33 | an accepted text stores the number it denotes if and only if that number is an `int` |
| IntParsing.PrintedIsParsed | src/utils.c:23-35 | for every `int` its decimal, signed `0x` and `0`-prefixed octal texts, and the hexadecimal one in upper case, are accepted and give it back |

## Left out

- The insides of libmosquitto, libcurl, libmicrohttpd and libconfuse; their results are inputs.
- src/logging.c, apart from FATAL not returning.
- src/configuration.c: lookups and field copies; unit lists and counts are inputs.
- Daemonizing, lock file, options and help text of src/main.c.
- TLS and user/password set-up: passed through unchanged.
- `mqtt_topic_root`: read from the configuration, never used to form a topic.
- Failed allocation: the wrappers end the process.
- The block that realloc itself releases is not counted as freed.
- Sleeping between connect tries, and the response object queued for a finished request.
- Whether every thread eventually exits after a signal: the code does not control when the signal arrives relative to poll.
- tools/, debian/, man/ and build files.
