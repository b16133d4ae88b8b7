# RedDB client and driver layer: models and proofs

This project models the client side of RedDB in Dafny 4.11 and proves what it
does over every input and every sequence of events: the Bun driver's receive
machine and wire codecs, the health-aware replica router and its live pool,
causal-read routing as a protocol, the MOVED redirect cache, the two base64
decoders, the delimited row writer, the KV benchmark's concurrent write
workload, and the descendant walk of the issue report.

`dafny verify dfyconfig.toml` checks everything.

| file | what it holds |
|---|---|
| `Prelude.dfy` | options, results, bytes, little-endian integers, buffer copies |
| `FrameStream.dfy` | the RedWire connection as a value: parser, events, what holds over all event sequences |
| `Connection.dfy` | the connection object: chunk queue, cursor, cached header, compaction, FIFO pairing |
| `QueryCodec.dfy` | the driver's parameter encoder and the server's decoder |
| `Breaker.dfy`, `Router.dfy` | one endpoint's health, and the indexed router as independent per-url machines |
| `WeightFloor.dfy`, `WeightedPick.dfy`, `PickShare.dfy` | median floor, weighted picker, and the share each bucket gets |
| `ReadRouting.dfy`, `ReadLoop.dfy` | read spreading, the router object, and starvation, without and with the outcomes of the reads |
| `Pool.dfy` | the replica pool rebuilt with `swap_remove`, and its alignment with the router |
| `CausalRouting.dfy`, `CausalProtocol.dfy` | routing one causal read, and causal safety of the whole system |
| `RoutingCache.dfy` | MOVED redirects and when they converge |
| `Base64.dfy` | both decoders, the encoder and key parsing |
| `Delimited.dfy` | CSV/TSV writer and an RFC 4180 style reader |
| `Workload.dfy` | strided work split, interleavings, predicted generations |
| `Descendants.dfy` | reachability in a cyclic graph with a shared visited set |

## What is assumed

Floating point is `real`, counters and log positions are unbounded naturals
(except where the code saturates, which is modelled); round trips are in seconds,
waits and intervals in whole units of time.
Sockets, dials, polls, clocks and payload functions are parameters: a write either
throws or does not, a url can be dialled or not, the k-th poll takes a given time
and reports a given frontier. Text is its UTF-8 bytes; which byte strings are
valid UTF-8 is a parameter of the server's decoder.

## Where the code does not do what its documentation says

- `weighted_pick` documents `floor(N * w / total)` hits, off by one in the tail.
  With weights 1.5 and 0.5 this fails (`PickShare.DocumentedShareFails`): the
  second bucket is never picked (`WeightedPick.LightBucketIsStarved`). For every
  total p / q in lowest terms `PickShare.PeriodEndShareExactly` and
  `PickShare.DocumentedShareExactly` say exactly when the sentence is true, at
  period ends and after every call, and `PickShare.StarvedExactly` which buckets
  are never picked at all.
- The router's description says the weight floor keeps a momentary spike from
  starving a replica permanently. The client observes each read's outcome before
  it routes the next, and in that loop only being the sole healthy replica
  protects (`ReadLoop.ProtectedExactly`): among others, whatever its average, a
  healthy replica can be passed over for good, while every read goes to one that
  is at least twice as slow (`ReadLoop.StarvedForever`). While nothing new is
  observed, it is read within every turn in any company exactly if its average
  is at most one second (`ReadRouting.NeverStarvedExactly`).
- The frontier waiter reads an address's frontier from the membership held now
  and ignores its re-bootstrapping mark. `CausalProtocol.UnmarkedTableIsUnsafe`
  turns this into a stale causal read while the read waits. By
  `CausalProtocol.SafeExactly` causal reads are safe exactly under four
  conditions. A replica throws data away only once it is marked as
  re-bootstrapping in (1) the membership the client holds, (2) every
  advertisement still under way and (3) the table of every read not yet answered; and
  (4) the client takes advertisements in the order they were made.
- `apply_membership` promises to keep pool and router in lockstep. A dial that
  fails after an endpoint was moved loses that endpoint and leaves the two
  misaligned (`Pool.LockstepIsLost`), and so does a url advertised more often than
  it is pooled. `Pool.GrpcClient.ApplyMembership` states exactly when lockstep is
  kept afterwards, `Pool.ReadDuringRebuild` exactly when a read in between still
  reports under its own url.

## Model

| member | source | states |
|---|---|---|
| `FrameStream.FrameBytes` | drivers/bun/index.ts:345-358 | a frame is encodable exactly when it fits the 16 MiB limit and its correlation id fits 64 bits |
| `FrameStream.CutExactly` | drivers/bun/index.ts:96-143 | what is cut off a stream, byte by byte: sixteen bytes are awaited, a length below 16 or above 16 MiB is unreadable, a frame is whole once all of it is there |
| `FrameStream.ParseResumes` | drivers/bun/index.ts:96-119 | parsing more bytes for more requests resumes exactly where parsing stopped; an unreadable stream stays unreadable at the same frame |
| `FrameStream.ParseEncoded` | drivers/bun/index.ts:121-143 | the parser cuts exactly the encoded kind and payload off the front of any stream |
| `FrameStream.DataSplits` | drivers/bun/index.ts:81-86 | two data events equal one with the joined bytes, from every connection state |
| `FrameStream.ChunkingIndependence` | drivers/bun/index.ts:81-164 | however a stream is cut into chunks, the connection ends in the state it reaches when all bytes arrive at once |
| `FrameStream.FailureIsFinal` | drivers/bun/index.ts:166-188 | after a failure no event changes anything: nothing queued, settled, buffered or written |
| `FrameStream.DataDrains` | drivers/bun/index.ts:96-119 | right after a data event every frame the parser can cut for the queued requests has been handed out, and the failure and leftover bytes are the parser's |
| `FrameStream.SendTracks` | drivers/bun/index.ts:178-188 | queueing a request keeps frames and requests paired even with undelivered bytes buffered |
| `FrameStream.EveryRunTracks` | drivers/bun/index.ts:96-188 | over every sequence of sends, data, errors and closes: requests are settled in queue order, each once, request k only by frame k of the parsed stream or by the failure; queued = settled + pending; after a failure nothing is pending |
| `FrameStream.EveryReplyTells` | drivers/bun/index.ts:112-117 | over every sequence of events a request answered by frame k is resolved with that kind and payload exactly if the kind is neither 0x03 nor 0x15, and otherwise rejected with that payload as an engine error; a request no frame answered is rejected with the failure |
| `FrameStream.EncodedStreamIsDelivered` | drivers/bun/index.ts:121-164 | with nothing buffered, any list of encoded frames no longer than the pending queue, joined and re-chunked at will, settles the oldest requests one by one and leaves nothing buffered |
| `FrameStream.EncodedStreamIsToldCorrectly` | drivers/bun/index.ts:96-164 | and each reply says what its message said, error kinds as errors |
| `FrameStream.SendExactly` | drivers/bun/index.ts:178-188 | an unencodable request is only numbered; otherwise it is queued, and either a frame the server reads back in full is written or the failed write ends the connection and rejects it with all pending ones |
| `FrameStream.CloseExactly` | drivers/bun/index.ts:280-288 | a close ends the connection as closed, rejecting all pending requests, after a goodbye (0x16, empty) under the next correlation id if it can be encoded and written |
| `FrameStream.PeerEnds` | drivers/bun/index.ts:88-94 | a closed or failed socket ends the connection for that reason and rejects all pending requests in order |
| `FrameStream.ServerReadsFrame` | crates/reddb-wire/src/redwire/codec.rs:179-237 | the server's decoder reads back every header field and the payload of a frame the driver encodes |
| `FrameStream.EveryRequestIsWritten` | drivers/bun/index.ts:178-188 | as long as the connection has not failed, the socket has carried exactly one frame per queued request, in order, under the correlation ids the sends were numbered with |
| `Connection.RedDBConnection.OnData` | drivers/bun/index.ts:81-86 | the object refines the data step of the value-level connection and keeps the queue, cache and cost invariants |
| `Connection.RedDBConnection.TryResolve` | drivers/bun/index.ts:96-119 | the resolve loop's outcome is the pure parser's on the buffered bytes, including the failure |
| `Connection.RedDBConnection.ResolveOne` | drivers/bun/index.ts:97-118 | one turn does what the first cut of the unread bytes says: wait, fail, or settle the oldest request |
| `Connection.RedDBConnection.ReadHeader` | drivers/bun/index.ts:121-143 | length and kind are those at the cursor across chunk borders, or an unreadable length is thrown; the copying stays within five bytes per header read |
| `Connection.RedDBConnection.CollectHeader` | drivers/bun/index.ts:125-136 | the copied header is the next five unread bytes however many chunks they span |
| `Connection.RedDBConnection.Consume` | drivers/bun/index.ts:145-164 | drops exactly the next bytes, copies them out if asked to, and keeps compaction within its bounds |
| `Connection.RedDBConnection.Compact` | drivers/bun/index.ts:160-163 | compaction keeps the unread bytes and leaves cleared slots below half of the array |
| `Connection.RedDBConnection.CostIsLinear` | drivers/bun/index.ts:121-164 | at every moment slots copied are at most chunks received and bytes copied at most bytes received plus five |
| `Connection.RedDBConnection.Fail` | drivers/bun/index.ts:166-176 | the first failure clears the buffer and rejects every pending request in order |
| `Connection.RedDBConnection.Send` | drivers/bun/index.ts:178-188 | refines the send step: refused when failed, correlation id used up even if unencodable, queued before writing, failing when the write throws |
| `Connection.RedDBConnection.Close` | drivers/bun/index.ts:280-288 | refines the close step: says goodbye if it can and fails the connection either way |
| `Connection.RedDBConnection.OnClose` | drivers/bun/index.ts:88-90 | a closed socket fails the connection once |
| `Connection.RedDBConnection.OnError` | drivers/bun/index.ts:92-94 | a socket error fails the connection once |
| `Connection.EncodeFrame` | drivers/bun/index.ts:345-358 | the buffer filled field by field is the specified frame, and both errors are raised as specified |
| `QueryCodec.EncodeBytes` | drivers/bun/index.ts:435-441 | tag, length and bytes, or a range error |
| `QueryCodec.EncodeVector` | drivers/bun/index.ts:443-451 | tag, count and each float in turn, or a range error |
| `QueryCodec.EncodeValue` | drivers/bun/index.ts:386-433 | a parameter is refused exactly for its stated reason (`Refusal`) and otherwise becomes the wire form, byte by byte, of a value that stands for it (`StandsFor`, per constructor) |
| `QueryCodec.EncodeQueryWithParams` | drivers/bun/index.ts:366-384 | accepted exactly if there are at most 65536 parameters, none is refused and the SQL is shorter than 2^32; the server then reads the same SQL and, parameter by parameter, a value that stands for it; otherwise the error is the count, the first refusal, or out of range |
| `QueryCodec.WireForm` | drivers/bun/index.ts:386-451 | the wire form of every kind of value by index: tags 0x00 to 0x09, two's complement integers, length-prefixed bytes, counted floats |
| `QueryCodec.MeaningExactly` | drivers/bun/index.ts:386-433 | the specified wire value of a parameter stands for it, and it has none exactly in the refused cases with their errors |
| `QueryCodec.ValueRoundTrip` | crates/reddb-wire/src/query_with_params.rs:235-289 | the server's decoder returns the encoded value and everything after it |
| `QueryCodec.ValueCanonical` | crates/reddb-wire/src/query_with_params.rs:235-289 | the decoder accepts nothing but encodings: every value has one spelling |
| `QueryCodec.ValuesPrefixFree` | drivers/bun/index.ts:386-433 | two streams that start with a value agree on it and on the rest |
| `QueryCodec.QueryRoundTrip` | crates/reddb-wire/src/query_with_params.rs:127-157 | decoding an encoded query gives the same SQL and parameters and no options |
| `QueryCodec.QueryCanonical` | crates/reddb-wire/src/query_with_params.rs:127-175 | an accepted payload is byte for byte the encoding of the request it decodes to, with or without the options trailer |
| `QueryCodec.OptionsForm` | crates/reddb-wire/src/query_with_params.rs:159-175 | the options trailer is the letters RQP1 and the policy behind its length |
| `QueryCodec.ServerDecodesDriverQuery` | drivers/bun/index.ts:366-384 | whatever the driver manages to encode from valid UTF-8 text, the server decodes to its meaning |
| `Breaker.CounterIsTrailing` | crates/reddb-client/src/router.rs:154-176 | after every history the counter is the timeouts since the last round trip or successful probe, saturating |
| `Breaker.UnhealthyExactly` | crates/reddb-client/src/router.rs:164-176 | with K the threshold but at least one, the breaker is open exactly if K timeouts occurred without a round trip or successful probe between them and no successful probe has followed |
| `Breaker.EwmaWithinSamples` | crates/reddb-client/src/router.rs:154-162 | the average never leaves the range of its samples, clamped at a microsecond as the code clamps them |
| `Breaker.EwmaIsSmoothed` | crates/reddb-client/src/router.rs:154-175 | for every history the average is the smoothing of its round trips alone, present exactly if there is one, and the sample count is their capped number: timeouts and probes leave both as they are |
| `Breaker.EwmaConverges` | crates/reddb-client/src/router.rs:45-50 | each steady sample removes a fifth of the remaining distance |
| `Breaker.DueExactly` | crates/reddb-client/src/router.rs:336-365 | an endpoint is due for a probe exactly while its breaker is open and it was never probed or its last probe is an interval ago |
| `Router.RouterRefinesMachines` | crates/reddb-client/src/router.rs:306-382 | over every sequence of outcomes, probes and refreshes with distinct urls the indexed router is a set of independent per-url machines |
| `Router.BreakerCharacterised` | crates/reddb-client/src/router.rs:154-382 | hence an endpoint's health, counter, average, sample count and last probe follow from its own url's history since it appeared |
| `WeightFloor.AnySortAgrees` | crates/reddb-client/src/router.rs:431-433 | a list has one sorted permutation, so the median does not depend on the sort |
| `WeightFloor.MedianExactly` | crates/reddb-client/src/router.rs:431-433 | the median is the one weight with at most half of the weights below it and more than half at or below it |
| `WeightFloor.FloorExactly` | crates/reddb-client/src/router.rs:427-436 | for such a middle value m, a weight below 0.1 m becomes 0.1 m and every other weight stays |
| `WeightFloor.FloorLifts` | crates/reddb-client/src/router.rs:427-436 | 10, 10 and 0.1 become 10, 10 and 1 |
| `WeightFloor.FloorKeepsOrder` | crates/reddb-client/src/router.rs:427-436 | the floor never reverses two weights |
| `WeightFloor.FloorStableExactly` | crates/reddb-client/src/router.rs:427-436 | the floor keeps the median and is idempotent exactly if the median is not negative |
| `WeightedPick.WeightedPick` | crates/reddb-client/src/router.rs:444-461 | the accumulator loop computes the specified pick, an index in range, for all weights including a total of zero or less |
| `WeightedPick.PickExactly` | crates/reddb-client/src/router.rs:444-461 | a counter picks bucket i exactly if it lies between the bucket's cumulative weights within its lap |
| `WeightedPick.LapShare` | crates/reddb-client/src/router.rs:438-461 | each full lap hits a bucket the floor or the ceiling of its weight times |
| `WeightedPick.NoWeightGoesRound` | crates/reddb-client/src/router.rs:444-448 | without a positive total, of any n consecutive counters each of the n buckets gets exactly one |
| `PickShare.PeriodExists` | crates/reddb-client/src/router.rs:444-461 | every total that is a fraction has a period: the least number q of laps that ends on a whole counter, and that counter p |
| `PickShare.PeriodIsLowest` | crates/reddb-client/src/router.rs:444-461 | p and q of a period have no common divisor but one |
| `PickShare.WindowHits` | crates/reddb-client/src/router.rs:438-461 | any p consecutive counters, wherever they start, pick bucket i as often as there are whole numbers between q times its two cumulative weights |
| `PickShare.IntegerShare` | crates/reddb-client/src/router.rs:438-461 | with integer weights any total-many consecutive counters pick each bucket exactly its weight's number of times |
| `PickShare.PeriodEndShareExactly` | crates/reddb-client/src/router.rs:438-443 | for every fractional total the documented share holds at the end of every period exactly if q times every weight is an integer |
| `PickShare.BucketShareExactly` | crates/reddb-client/src/router.rs:438-443 | one bucket has its documented share after every number of calls exactly if q times its weight is what one period picks and a check over one period, on p, q and its two marks alone, holds |
| `PickShare.DocumentedShareExactly` | crates/reddb-client/src/router.rs:438-443 | the documented share holds for all buckets after every number of calls exactly if q times every weight is an integer and every bucket passes that check |
| `PickShare.EvenOnOneLap` | crates/reddb-client/src/router.rs:438-443 | when the period is one lap, the check over the period comes down to two: where the bucket begins and where it ends |
| `PickShare.IntegerTotalShareExactly` | crates/reddb-client/src/router.rs:438-443 | for integer totals the documented share always holds exactly if all weights are integers and every bucket passes the two checks |
| `PickShare.DocumentedShareFails` | crates/reddb-client/src/router.rs:438-443 | with weights 1.5 and 0.5 the second bucket is off its documented share by more than one after twelve calls |
| `PickShare.StarvedExactly` | crates/reddb-client/src/router.rs:444-461 | bucket i is never picked exactly if its two marks, q times its cumulative weights rounded up, coincide; otherwise it is picked within every p consecutive counters |
| `WeightedPick.HeavyBucketIsPicked` | crates/reddb-client/src/router.rs:444-461 | a bucket of weight at least one is picked within any ceil(total) consecutive counters |
| `WeightedPick.LightBucketIsStarved` | crates/reddb-client/src/router.rs:444-461 | with total two and a first weight above one, no other bucket is ever picked |
| `ReadRouting.ReadsGoToHealthyReplicas` | crates/reddb-client/src/router.rs:273-302 | a read goes to a healthy replica if there is one and the primary is not forced, and only otherwise to the primary |
| `ReadRouting.WeightsExactly` | crates/reddb-client/src/router.rs:293-297 | the weight of each healthy replica in a pick is the inverse of its average (one if unmeasured, clamped at a microsecond) or a tenth of the middle inverse, whichever is larger |
| `ReadRouting.LiftOccurs` | crates/reddb-client/src/router.rs:427-436 | in a router that can occur, with averages 0.1, 0.1 and 10 seconds, the slow replica weighs 1 instead of 0.1 |
| `ReadRouting.HealthAwareRouter.PickReadIndex` | crates/reddb-client/src/router.rs:280-302 | returns the specified pick and advances the counter only when a replica was picked |
| `ReadRouting.HealthAwareRouter.EndpointsDueForProbe` | crates/reddb-client/src/router.rs:336-352 | exactly the due endpoints, in index order |
| `ReadRouting.HealthAwareRouter.UpdateMembership` | crates/reddb-client/src/router.rs:370-382 | known urls keep their state, new ones start fresh, the rest is dropped |
| `ReadRouting.FastReplicaIsRead` | crates/reddb-client/src/router.rs:280-302 | a healthy replica never measured, or with an average of at most a second, is read within every ceil(total weight) counters, whatever the others look like, as long as nothing new is observed |
| `ReadRouting.NoStarvation` | crates/reddb-client/src/router.rs:154-461 | end to end: if every round trip measured since a healthy replica appeared took at most a second, it is read within every turn of the counter as long as nothing new is observed |
| `ReadRouting.NeverStarvedExactly` | crates/reddb-client/src/router.rs:12-16 | as long as nothing new is observed, over the routers that can occur: a healthy replica with this average is always read within every turn exactly if the average is at most a second, and some router in which no counter ever picks it can occur exactly if it is more |
| `ReadLoop.ReadOnce` | crates/reddb-client/src/grpc.rs:444-455 | picking and then reporting on the router object is one read step of the closed loop |
| `ReadLoop.StarvedForever` | crates/reddb-client/src/router.rs:12-16 | reads observed one after the other: for every threshold, every average and every number of other healthy replicas there is a client, reached from its first moment on, and one endless row of round trips under which a healthy replica with that average is never read, all reads going to one whose average stays at least twice as long |
| `ReadLoop.ProtectedExactly` | crates/reddb-client/src/router.rs:12-16 | in the closed loop a healthy replica of any average that can occur is read again whatever the outcomes exactly if it is the only healthy one |
| `Pool.SwapRemoveTakesOne` | crates/reddb-client/src/grpc.rs:312-315 | `swap_remove` reorders but takes out exactly one element |
| `Pool.DistinctIsAffordable` | crates/reddb-client/src/grpc.rs:280-334 | pairwise distinct advertisements never ask for a pooled url more often than it is pooled |
| `Pool.GrpcClient.Rebuild` | crates/reddb-client/src/grpc.rs:305-319 | succeeds exactly if every advertised url is pooled or can be dialled and otherwise fails at the first that is neither; the pool seen meanwhile is the old one drained by `swap_remove` (`Drain`); old pool = left + kept, new pool = kept + dialled; the new pool follows the advertised order exactly if it is affordable |
| `Pool.GrpcClient.ApplyMembership` | crates/reddb-client/src/grpc.rs:280-334 | succeeds exactly if the primary agrees and every advertised url is pooled or can be dialled; a pool aligned with the router stays so exactly if the pool, the advertisement and what can be dialled allow it (`KeepsLockstep`); survivors are the same objects, only unknown urls are dialled, a failed dial loses exactly what had been moved |
| `Pool.LockstepAfterFailure` | crates/reddb-client/src/grpc.rs:305-319 | after a dial that fails at index i lockstep is kept exactly if no url advertised before i was pooled |
| `Pool.DistinctKeepsLockstep` | crates/reddb-client/src/grpc.rs:280-334 | distinct advertisements that can be obtained in full keep lockstep |
| `Pool.LockstepIsLost` | crates/reddb-client/src/grpc.rs:305-319 | pool "a", advertised "a" and "b", nothing can be dialled: the endpoint for "a" is gone while the router still lists it |
| `Pool.ReadDuringRebuild` | crates/reddb-client/src/grpc.rs:305-319 | for a pool with distinct urls, a read between two `swap_remove`s reports under the url it was served at exactly if the picked endpoint has not been moved yet or its slot is already gone and the primary serves |
| `Pool.ReadIsMisbooked` | crates/reddb-client/src/grpc.rs:305-319 | pool "a", "b", "c" with "a" moved: a read the router sends to "a" is served by "c" and booked under "a" |
| `Pool.GrpcClient.ReadEndpoint` | crates/reddb-client/src/grpc.rs:231-244 | whatever the pool looks like, who serves and which index is reported; while aligned, that index is the serving endpoint's own router entry |
| `Pool.GrpcClient.EndpointByAddr` | crates/reddb-client/src/grpc.rs:246-255 | the primary for its own address, else the first pooled endpoint with that address, else the primary |
| `CausalRouting.TargetIsBest` | crates/reddb-client/src/bookmark_routing.rs:331-344 | the target is the first healthy replica of the preferred region that is not re-bootstrapping, else the first such of any region; none only if there is none |
| `CausalRouting.FallBackIsBest` | crates/reddb-client/src/bookmark_routing.rs:463-487 | leaving out a lagging target never changes the fallback: it is the first replica that is healthy, not re-bootstrapping and at or past the bookmark, and the primary exactly if there is none |
| `CausalRouting.Wait` | crates/reddb-client/src/bookmark_routing.rs:374-387 | polls one address, (polls - 1) * lo staying below the deadline when each poll takes between lo and hi, stops at the first poll that finds it caught up, ends before deadline + hi |
| `CausalRouting.RouteCausalRead` | crates/reddb-client/src/bookmark_routing.rs:350-395 | the whole decision: fast path, first successful poll, or best fallback; only the target is polled and the wait is bounded |
| `CausalProtocol.PollExactly` | crates/reddb-client/src/grpc.rs:598-608 | a poll reads the frontier of the first held entry with the address, and 0 if there is none |
| `CausalProtocol.RouteOverMemberships` | crates/reddb-client/src/grpc.rs:389-402 | with the client's own waiter a lagging target is taken as caught up exactly at the first poll at which the membership held then lists it at or past the bookmark, and otherwise the deadline decides |
| `CausalProtocol.ChoicesExactly` | crates/reddb-client/src/bookmark_routing.rs:350-395 | which choices a read in progress has, by index: its target at once, its target as caught up, or the fallback |
| `CausalProtocol.StepKeepsInvariant` | crates/reddb-client/src/bookmark_routing.rs:350-395 | under the four conditions every step of the system, with any number of reads in progress, keeps the invariant: snapshots truthful about any replica some usable snapshot shows unmarked, and no stale read so far |
| `CausalProtocol.TableEntryIsSafe` | crates/reddb-client/src/grpc.rs:598-608 | in an invariant state a servable entry of the table of any read in progress has applied whatever the table or a poll says about it |
| `CausalProtocol.FallbackIsSafe` | crates/reddb-client/src/grpc.rs:246-255 | in an invariant state the fallback is the primary or a replica that covers the bookmark and cannot drop while the read is in progress |
| `CausalProtocol.StrictIsSafe` | crates/reddb-client/src/grpc.rs:389-402 | under the four conditions, over every sequence of steps and with any number of overlapping reads, every causal read is answered by a node whose applied frontier then covers its bookmark, however long ago its address was chosen and its node looked up |
| `CausalProtocol.UnmarkedHeldIsUnsafe` | crates/reddb-client/src/bookmark_routing.rs:361-372 | dropping data unmarked in the held membership leads to a stale read |
| `CausalProtocol.UnmarkedInFlightIsUnsafe` | crates/reddb-client/src/grpc.rs:348-359 | so does dropping it while an older unmarked advertisement is under way |
| `CausalProtocol.UnmarkedTableIsUnsafe` | crates/reddb-client/src/grpc.rs:598-608 | so does dropping it while a read that started earlier waits: the waiter takes a marked frontier for progress |
| `CausalProtocol.OutOfOrderIsUnsafe` | crates/reddb-client/src/grpc.rs:328-332 | so does taking advertisements out of order |
| `CausalProtocol.SafeExactly` | crates/reddb-client/src/grpc.rs:389-402 | causal reads, overlapping or not, are safe over all sequences of steps exactly if all four conditions hold |
| `RoutingCache.Cache.ApplyMoved` | crates/reddb-client/src/routing_cache.rs:31-55 | accepts a redirect exactly if there is no entry or neither stamp is older |
| `RoutingCache.Cache.RetryOwnerAfterMoved` | crates/reddb-client/src/routing_cache.rs:70-76 | always finds an entry; it names the redirect's owner unless a newer entry was kept |
| `RoutingCache.StampsNeverDecrease` | crates/reddb-client/src/routing_cache.rs:43-54 | whatever arrives, no entry is lost and neither stamp goes back |
| `RoutingCache.WinnerPrevails` | crates/reddb-client/src/routing_cache.rs:31-55 | from an empty cache every delivery order, with repetition and mixed with other ranges, ends at the winning redirect |
| `RoutingCache.ConvergesExactly` | crates/reddb-client/src/routing_cache.rs:31-55 | delivery order is irrelevant exactly if some redirect is ahead of all others and those level with it name its owner |
| `RoutingCache.ChainConverges` | crates/reddb-client/src/routing_cache.rs:31-55 | stamps that form a chain with one owner each converge |
| `Base64.DecodeAccumulator` | crates/reddb-client/src/topology.rs:452-474 | the shifting loop computes the specified accumulator decoding |
| `Base64.DecodeBlocks` | crates/reddb-crypto/src/key.rs:42-87 | the block loop computes the specified block decoding, with its remainder cases |
| `Base64.EmittedBytes` | crates/reddb-client/src/topology.rs:466-471 | whatever stale bits the 32-bit accumulator carries, its bytes are the block decoder's |
| `Base64.SextetExactly` | crates/reddb-crypto/src/key.rs:43-52 | which character stands for which six bits |
| `Base64.AccumulatorAccepts` | crates/reddb-client/src/topology.rs:458-465 | accepts exactly the strings over the alphabet |
| `Base64.BlocksAccept` | crates/reddb-crypto/src/key.rs:59-85 | accepts exactly those that leave no single character over |
| `Base64.IgnoredExactly` | crates/reddb-crypto/src/key.rs:53-56 | ASCII whitespace and pads may stand anywhere without changing the text; every other character counts |
| `Base64.DecodersAgreeExactly` | crates/reddb-client/src/topology.rs:452-474 | on every input the two return the same bytes exactly if the text before trailing padding is over the alphabet and not one over |
| `Base64.Encode` | crates/reddb-types/src/encoding.rs:6-34 | the encoder loop computes the unpadded encoding and its padding |
| `Base64.PaddedLength` | crates/reddb-types/src/encoding.rs:6-34 | the encoding is padded to a whole number of fours with the fewest pads |
| `Base64.BothDecodersInvert` | crates/reddb-types/src/encoding.rs:6-34 | both decoders read back every encoding with any padding |
| `Base64.ParseKey` | crates/reddb-crypto/src/key.rs:15-40 | a trimmed text denotes a key as 64 hex digits or as base64 of 32 bytes, and nothing else |
| `Base64.HexKeyRoundTrip` | crates/reddb-crypto/src/key.rs:17-25 | every key is read back from hex |
| `Base64.AnyHexSpelling` | crates/reddb-crypto/src/key.rs:17-25 | every key is read back from each of its hex spellings, upper and lower case mixed |
| `Base64.Base64KeyRoundTrip` | crates/reddb-crypto/src/key.rs:26-39 | every key is read back from base64, padded or not |
| `Delimited.WriteDelimitedField` | crates/reddb-client/src/row_format.rs:272-289 | appends the field, quoted with doubled quotes exactly if it must be |
| `Delimited.QuotedExactly` | crates/reddb-client/src/row_format.rs:272-289 | a field is written as it is exactly if it holds no delimiter, quote or line end; otherwise it stands in quotes and grows by one byte per quote inside |
| `Delimited.WriteDelimitedRecord` | crates/reddb-client/src/row_format.rs:262-270 | appends the fields separated by delimiters and a line end |
| `Delimited.ValueAt` | crates/reddb-client/src/row_format.rs:53-57 | the first value under a column, or none |
| `Delimited.IntegerDenotes` | crates/reddb-client/src/row_format.rs:299-307 | an integer's text denotes it: a minus sign exactly if negative, then digits only, without a leading zero unless it is zero |
| `Delimited.RawValueDenotes` | crates/reddb-client/src/row_format.rs:299-307 | the text of every value denotes it: nothing, true or false, the number, the text itself |
| `Delimited.FormatDelimited` | crates/reddb-client/src/row_format.rs:248-260 | writes the header and each row's raw fields as records |
| `Delimited.RecordsExactly` | crates/reddb-client/src/row_format.rs:248-260 | the records are the result's columns, or the first row's names, and then per row the text of the first value under each column, or nothing |
| `Delimited.ReadField` | crates/reddb-client/src/row_format.rs:272-289 | the reader recovers any written field, quoted or not |
| `Delimited.RoundTripExactly` | crates/reddb-client/src/row_format.rs:248-270 | with comma or tab, header and raw fields come back exactly if there is at least one column |
| `Workload.SplitIsExact` | bench/kv/compare.py:247-252 | the strided quotas hit each operation of a round exactly once for every number of workers |
| `Workload.TouchedExactly` | bench/kv/compare.py:387-388 | a round touches a key exactly if the key lies less than the number of operations above 7919 times the round, going round |
| `Workload.Worker` | bench/kv/compare.py:245-260 | a worker performs its quota in order, key by key as the stride and the round offset say, in batches no deeper than the pipeline |
| `Workload.RoundOutcome` | bench/kv/compare.py:267-276 | however workers interleave, a round leaves its payload under exactly the touched keys |
| `Workload.GenerationIsLatest` | bench/kv/compare.py:387-390 | a predicted generation names the last round that touched the key |
| `Workload.Generations` | bench/kv/compare.py:379-390 | the round loop computes the predicted generations |
| `Workload.InterleavingIndependence` | bench/kv/compare.py:379-400 | from a data set at generation zero, every interleaving of every complete round ends with each key holding the payload of its predicted generation |
| `Descendants.DescendantsFrom` | scripts/issue_code_evidence_report.js:216-223 | a walk over a shared visited set marks only reachable nodes and closes over everything it marks; it terminates on cycles |
| `Descendants.DescendantsOf` | scripts/issue_code_evidence_report.js:216-223 | returns exactly the nodes reachable by one or more edges, sorted and without repetition |

## Left out

- Floating-point rounding, NaN and the wrap of the 64-bit pick counter: weights and averages are reals, the counter a natural.
- PickShare.DocumentedShareExactly: totals are fractions, as every finite floating-point total is; irrational totals are covered by the share of each lap only.
- Two refreshes at once, and a read between the replacement of the pool and that of the router: reads between two `swap_remove`s are modelled.
- Pool.ReadDuringRebuild: covers pools with distinct urls; which of several equal urls a slot holds is not stated.
- The client's own `update_membership`, which changes router and membership but not the pool; the connection clones inside an endpoint; the topology refresh scheduler.
- Bounded-staleness, local and strong reads: each is one search or none.
- Several clients: the causal protocol has one client, with any number of reads in progress.
- Terms across elections: routing compares commit positions only, so the protocol has one term.
- Base64.ParseKey: takes the text after trimming; which Unicode characters `trim` removes is not modelled.
- FrameStream.ServerReadsFrame: leaves out compressed frames and the catalogue of known kinds and flags.
- QueryCodec.EncodeValue: UTF-8 encoding, float narrowing, hex parsing of UUIDs and canonical JSON are inputs, not modelled.
- Handshake, query helpers, TLS and URL handling of the drivers; JSON, TOON and table output of rows; float printing.
- Time-limited GET rounds, payload hashing and latency statistics of the benchmark.
- The storage engine, and the server apart from its frame and parameter decoders.
