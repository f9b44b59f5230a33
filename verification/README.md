# Timemachine record store: a verified model

Timemachine keeps time-ordered messages in folders (RocksDB column families) under keys
`(timestamp, unique)`, and serves them as range scans and random subsamples over HTTP and gRPC. This
project models that behaviour in Dafny and proves what clients rely on.

`dafny verify dfyconfig.toml` checks everything.

## How it is organised

| file | what it models |
|---|---|
| `Bytes.dfy`, `Options.dfy` | machine words, byte orders, optional values |
| `Keys.dfy` | the 16-byte key codec and the custom comparator with its wildcard timestamp 0 |
| `Folders.dfy` | one folder as RocksDB keeps it: searches by bisection, puts, iterators |
| `UniqueRanges.dfy` | the number ranges used for subsampling, and density of numbers |
| `Frames.dfy` | the HTTP frame writer and the TypeScript frame parser |
| `RangeScan.dfy`, `ScanLaws.dfy` | `DbClient::Iter`, its callbacks, and what its scans mean |
| `Sampling.dfy` | draws, the probe buffer, point reads and the batch loop |
| `Payload.dfy` | the client payload layout, its writer and its reader |
| `Store.dfy` | the folder registry, id generation, save, get, reopening |
| `Runs.dfy`, `RunLaws.dfy` | whole runs of saves, folder creations and restarts |
| `Interleaving.dfy` | concurrent saves with the id step and the put step apart |
| `Handlers.dfy`, `EndToEnd.dfy` | the request handlers, and save-to-download over the whole system |

The main results:

- A folder is the log of its saves exactly when the saves into it never go back in time and strictly
  advance across a reopen (`RunLaws.FolderIsTimeline`). In such a run nothing is lost, overwritten or
  reordered, numbers start at 0 and move by 0 or 1, and every id reads back its message. How many
  numbers are issued twice is counted exactly (`RunLaws.NumbersConserved`).
- `DbClient::Iter` refines a filter followed by the longest prefix the limits permit, in both
  directions (`RangeScan.Iter`, `ScanLaws`, `RangeScan.CutAtLimitsIff`).
- Both subsample services answer draw j with the earliest message under the number the draw formula
  gives between the folder's or the period's own ends, for every folder whose numbers never decrease
  (`Handlers.HandleSubsample`, `Handlers.GetSubsample`, `Handlers.SendableIsSent`).
- When subsamples can contain an empty message, and which entries can come up at all, is
  characterised exactly (`Handlers.KindNeverEmptyIff`, `Sampling.TotalSampleCleanIff`,
  `Sampling.PeriodSampleableIff`), and so is when both services draw alike (`Sampling.ServicesAgreeIff`).
- Concurrent saves never overwrite exactly when every stored number is below the counter
  (`Interleaving.InterleavingSafeIff`).
- What one client saved is what another downloads and parses (`EndToEnd.PayloadComesBack`).

Where an expected property does not hold of the code, the code is modelled as it is, and the property
is proved to hold exactly under a stated condition:

- A folder loses or reorders saves exactly when a save into it goes back in time, or repeats the last
  timestamp after a reopen (`RunLaws.FolderIsTimeline`); three events that lose one are in
  `RunLaws.RestartThenSameTimestampOverwrites`. What one such save does to the stored entries is in
  `RunLaws.SaveIsSafeIff`.
- The comparator orders stored keys together with wildcards exactly when numbers strictly increase; one
  number repeated after a reopen breaks transitivity (`Folders.WildcardPreorderIff`). Searching for a
  wildcard needs less: numbers that never decrease (`Folders.WildcardsSearchableIff`).
- A reverse scan honours `till` exactly when it is 0, or some key is at most `(till, 0)`, or nothing
  newer than `from` exists (`ScanLaws.ReverseBoundIff`, `ScanLaws.ReverseIgnoresTill`).
- The parser returns exact timestamps and numbers exactly when they are doubles below 2^63; nanosecond
  clock readings are rounded (`Frames.FrameRoundTripIff`, `Frames.NanosecondTimestampIsRounded`).
- A subsample sends whole batches, so its size is the requested amount exactly when the batch size
  divides it (`Sampling.BatchArithmetic`).
- An HTTP period subsample of a folder without gaps never contains an empty message exactly when the
  folder is not empty and no key up to the period's start has a number above the one at its end, as in
  every period given in order (`Sampling.HttpPeriodCleanIff`); a period out of order that gets one is in
  `Sampling.ReversedPeriodSendsPlaceholder`.
- A gRPC subsample of such a folder never does, in whatever order the period comes, exactly when the
  folder is not empty and, modulo 2^32, its number range starts below 2^31 and ends less than 2^31 past
  its start (`Sampling.GrpcCleanIff`).
- A period subsample can return entries from before the period in place of its own once a number was
  reused after a reopen (`Sampling.PeriodSampleableIff`, `Sampling.PeriodReturnsOlderEntry`).

## Conventions

- RocksDB is its contract: a folder is a sequence sorted by the comparator, a put inserts or replaces
  by comparator equality, a seek or point read is a bisection, and reopening preserves content. Whatever
  the probe, a point read returns nothing but an entry equal to it. Which one is fixed only for probes
  whose comparison results along the keys are ordered; that is proved for every probe with a timestamp,
  and for wildcards exactly when numbers never decrease.
- A folder is one sorted run. Which holder of a repeated number answers a wildcard rests on that: a store
  that looks in its newest table first could answer with the later holder, and a number only repeats
  across a reopen.
- The clock and `rand()` are parameters. The clock never reads 0. `rand` is any sequence; results about
  draws hold for all values in 0..RAND_MAX.
- A run is lawful for a folder if it starts on an empty disk and the saves into that folder never go back
  in time and strictly advance across a reopen; other folders are free.
- The counter wraps modulo 2^64, so whole-run results are about runs shorter than 2^64 events.
- The draw is computed in exact rationals. A value past 2^64, whose conversion C++ leaves undefined, is
  reduced modulo 2^64, as is a negative one.
- The gRPC service's subtraction of two `int` variables wraps around modulo 2^32 where it overflows,
  which C++ leaves undefined. Converting an unsigned number to an `int` keeps its low 32 bits.
- Exact conditions for subsamples assume stored numbers below 2^63, half the counter's cycle.
- The host is little-endian. Message bodies are below 2 GiB, as protobuf requires. A parsed message is
  the message that was serialised.
- JavaScript numbers read from 64-bit integers are rounded half to even at 53 significant bits.

## Model

| member | source | states |
|---|---|---|
| Keys.SerializeID | src/utils/RepositoryUtils.cpp:20-26 | writes 16 bytes that decode to the id and leaves every other byte of the buffer alone |
| Keys.KeyLayout | src/utils/RepositoryUtils.cpp:20-26 | byte by byte: the timestamp and then the number, each as eight base-256 digits, low first |
| Keys.KeyRoundTrip | src/utils/RepositoryUtils.cpp:20-42 | decoding a serialised id gives the id |
| Keys.SliceRoundTrip | src/utils/RepositoryUtils.cpp:20-42 | serialising a decoded 16-byte slice gives the slice |
| Keys.CompareAntisymmetric | src/IDComparator.cpp:12-44 | swapping the keys negates the comparison, for all keys |
| Keys.CompareIsTimeOrder | src/IDComparator.cpp:12-62 | on keys with timestamps the comparator is lexicographic order on (ts, unique), and Equal is byte equality |
| Keys.CompareExactly | src/IDComparator.cpp:12-44 | the sign for all keys: by number if either key has no timestamp, else by timestamp and then number |
| Keys.CompareTransitive | src/IDComparator.cpp:12-44 | on keys with timestamps the order is transitive |
| Keys.EqualExactly | src/IDComparator.cpp:32-62 | for all keys, Equal is byte equality or a wildcard meeting its number |
| Keys.CompareIsCyclic | src/IDComparator.cpp:32-38 | over all keys the order has a cycle |
| Folders.TimedProbeIsSearchable | src/IDComparator.cpp:12-44 | any probe with a timestamp compares consistently along a sorted folder |
| Folders.WildcardsSearchableIff | src/IDComparator.cpp:32-44 | all wildcards do exactly when numbers never decrease along the key order |
| Folders.WildcardPreorderIff | src/IDComparator.cpp:32-44 | keys plus any wildcard form a total preorder exactly when numbers strictly increase |
| Folders.Find | src/DbClient.cpp:56-60 | the bisecting point read returns nothing but an entry equal to the probe, and what a linear scan finds whenever the probe can be searched |
| Folders.WildcardLookup | src/DbClient.cpp:68-73 | a wildcard read finds an entry exactly when one carries the number, and then the first |
| Folders.KeyLookup | src/DbClient.cpp:56-60 | a read by full id finds exactly the entry stored under it |
| Folders.PutEntry | src/DbClient.cpp:62-66 | a put by bisection inserts in order, or replaces the entry with an equal key |
| Folders.InsertKeepsStored | src/DbClient.cpp:62-66 | a put keeps the folder strictly sorted and labelled |
| Folders.InsertMembers | src/DbClient.cpp:62-66 | afterwards the folder holds the new entry and all old ones but an equal key, and grows by one exactly if there was none |
| Folders.SeekLastAtMost | src/DbClient.cpp:108 | SeekForPrev stops at a key at most the probe, the last one whenever the probe can be searched |
| UniqueRanges.GetUniqueRange | src/DbClient.cpp:173-201 | the range from the first entry's number to the last's, 0 to 0 when empty |
| UniqueRanges.TotalRangeIsCarried | src/DbClient.cpp:173-201 | in a dense folder the numbers of the range are exactly those some entry carries |
| UniqueRanges.DenseIff | src/DbClient.cpp:40-54 | moving by 0 or 1 from 0 is the same as never decreasing and leaving no gap |
| UniqueRanges.GetUniqueRangeForTS | src/DbClient.cpp:203-242 | each end is 0 or the number of a key at most its probe; for a bound with a timestamp, or numbers that never decrease, the number of the last entry up to the bound |
| UniqueRanges.PeriodEnds | src/DbClient.cpp:203-242 | for every period each end is the number of the last entry before the bound or at (bound, 0), of the last one numbered 0 for bound 0, and 0 if there is none; no other number is |
| UniqueRanges.PeriodCovers | src/DbClient.cpp:203-242 | every entry in the period has its number in the range |
| UniqueRanges.PeriodExactly | src/DbClient.cpp:203-242 | over increasing numbers, for every period: the range picks its entries, the last key at most (from, 0), the key (till, 0), the entry numbered 0 if a probe reaches no key, and nothing else |
| UniqueRanges.PeriodOrdered | src/DbClient.cpp:203-242 | an ordered period gives an ordered range within the stored numbers |
| UniqueRanges.PeriodInOrderIff | src/DbClient.cpp:203-242 | the range comes in order exactly when no key up to the period's start has a number above the one at its end, as for every period in order |
| UniqueRanges.ReversedPeriod | src/DbClient.cpp:203-242 | a folder for which the period 20 to 10 gives the range 1 to 0 |
| Frames.RecordsOfFrames | tsclient/recstore-ts/src/index.ts:80-109 | parsing concatenated frames gives one record per message, in order |
| Frames.FrameLayout | src/handlers/GetRangeHandler.cpp:79-94 | byte by byte: timestamp, number and body size as base-256 digits, high first, then the body |
| Frames.ToNumberIsNearest | tsclient/recstore-ts/src/index.ts:86-87 | toNumber gives a double no other double is nearer than, on a tie one with an even significand, on both sides of zero |
| Frames.DecodeTsRecord | tsclient/recstore-ts/src/index.ts:80-109 | the cursor loop returns the records of the stream, or the first error, and ends by taking at least 20 bytes a turn |
| Frames.ToNumberExactIff | tsclient/recstore-ts/src/index.ts:86-87 | a 64-bit number survives toNumber exactly when it is a double below 2^63 |
| Frames.FrameRoundTripIff | src/handlers/GetRangeHandler.cpp:79-94 | the round trip is lossless exactly when all timestamps and numbers are such doubles, in particular up to 2^53 |
| Frames.NanosecondTimestampIsRounded | tsclient/recstore-ts/src/index.ts:86 | a clock reading in nanoseconds comes back rounded |
| Frames.AcceptedStreamIsFrames | tsclient/recstore-ts/src/index.ts:85-96 | an accepted stream can be rebuilt byte for byte from messages |
| Frames.ParsesIffFrames | tsclient/recstore-ts/src/index.ts:85-96 | a stream parses exactly when it is the frames of some messages |
| RangeScan.Sink.Send | src/handlers/GetRangeHandler.cpp:79-94 | one callback writes one frame and reports its size |
| RangeScan.Seek | src/DbClient.cpp:80-123 | the scan starts where nothing before it, in scan order, is in the window |
| RangeScan.Turn | src/DbClient.cpp:130-168 | one loop turn skips, sends or stops so that the scan stays on course |
| RangeScan.Iter | src/DbClient.cpp:75-171 | the scan sends the window's entries in scan order, cut at the limits, and counts messages and bytes |
| RangeScan.CutIsLongest | src/DbClient.cpp:154-158 | the cut is the longest prefix whose proper prefixes stay below each nonzero limit |
| RangeScan.CutBytes | src/DbClient.cpp:154-167 | a byte limit is overshot by less than the last message |
| RangeScan.CutAtLimitsIff | src/DbClient.cpp:154-167 | the cut is the only prefix with at most maxMessages messages whose proper prefixes stay below maxBytes and which is whole unless it ends at a limit |
| RangeScan.CutLimits | src/DbClient.cpp:154-158 | without a byte limit exactly the smaller of maxMessages and what there is; shorter than that only at a limit |
| RangeScan.TotalIsBytes | src/GRPCServer.cpp:154-160 | the bytes counted are the protobuf sizes of the messages over gRPC and the length of the body over HTTP |
| ScanLaws.ForwardScan | src/DbClient.cpp:80-168 | a forward scan sends, ascending and without repetition, exactly from <= ts and (till = 0 or ts <= till), at most maxMessages of them, and all of them unless maxMessages are sent or maxBytes reached |
| ScanLaws.ReverseScan | src/DbClient.cpp:85-168 | a reverse scan sends, descending, exactly ts > from (unless from = 0) and key at most (till, 0), or all keys if none is, under the same limits |
| ScanLaws.ReverseBoundIff | src/DbClient.cpp:110-122 | a reverse scan honours till exactly when it is 0, or reached by a key, or nothing newer than from exists |
| ScanLaws.ReverseIgnoresTill | src/DbClient.cpp:110-122 | whenever it falls back, an unlimited scan from 0 sends the whole folder, all of it above till |
| ScanLaws.WholeFolderMirror | src/DbClient.cpp:80-168 | without bounds both directions send the whole folder, one the reversal of the other |
| ScanLaws.ScanMirrorIff | src/DbClient.cpp:80-168 | a bounded reverse scan is key (till, 0) and then the reversed forward scan of (from, till), exactly when it does not fall back with something to send |
| Sampling.DrawBounds | src/handlers/SubsamplingHandler.cpp:100-101 | every draw lies between the two ends; the far end needs r = RAND_MAX |
| Sampling.DrawAsInteger | src/handlers/SubsamplingHandler.cpp:100-101 | the draw is the start plus the span times r over RAND_MAX rounded down, modulo 2^64 |
| Sampling.DrawReaches | src/handlers/SubsamplingHandler.cpp:100-101 | every number of a range up to RAND_MAX long can be drawn |
| Sampling.HttpDrawIff | src/handlers/SubsamplingHandler.cpp:100-101 | all HTTP draws lie between the ends exactly when the ends are in order, for numbers below 2^63 |
| Sampling.GrpcDrawIff | src/GRPCServer.cpp:175-219 | all gRPC draws lie between the ends, in either order, exactly when modulo 2^32 the start is below 2^31, the end less than 2^31 past it, and both ends lie between the range's own |
| Sampling.ServicesAgreeIff | src/GRPCServer.cpp:175-219 | gRPC draws what HTTP draws for every r exactly when the range is in order, starts below 2^31 and is shorter than 2^31, for numbers below 2^63 |
| Sampling.AnswerIff | src/handlers/SubsamplingHandler.cpp:115-130 | an answer is a stored message exactly when some entry carries the number drawn |
| Sampling.TotalSampleCleanIff | src/handlers/SubsamplingHandler.cpp:53-130 | a total subsample can never send an empty message exactly when the numbers the draw can land on, for up to RAND_MAX numbers all of them, have no gap |
| Sampling.SampleableIff | src/handlers/SubsamplingHandler.cpp:85-139 | for every range and both services an entry can come up exactly when it is the first with its number and that number can be drawn |
| Sampling.PeriodSampleableIff | src/handlers/SubsamplingHandler.cpp:61-139 | a period can return exactly the first holders of drawn numbers: for a range in order up to RAND_MAX long, those from the first holder of the number at its start to the key at its end |
| Sampling.PeriodReturnsOlderEntry | src/LocalDBClient.cpp:94-104 | a period whose only entry is never returned, an older one with its number being returned instead |
| Sampling.StepIsMin | src/handlers/SubsamplingHandler.cpp:74-81 | the batch size is the smaller of the request's (100 if 0) and the amount, despite mixed signedness |
| Sampling.BatchArithmetic | src/handlers/SubsamplingHandler.cpp:74-139 | the least number of whole batches reaching the amount is sent; the amount itself exactly when divisible; nothing for 0 or 2^31 and above |
| Sampling.FillProbes | src/handlers/SubsamplingHandler.cpp:93-113 | after the fill loop every slice still decodes to its own wildcard draw |
| Sampling.GetBatch | src/DbClient.cpp:68-73 | one result per slice, in order: nothing, or a message under a key equal to the probe, and the linear scan's whenever the probe can be searched |
| Sampling.SampleBatches | src/GRPCServer.cpp:191-248 | exactly the batched number of messages; message k is empty or stored under draw k's number, and the linear scan's answer whenever that number can be searched |
| Sampling.HttpDraws | src/handlers/SubsamplingHandler.cpp:100-101 | for every range, which numbers HTTP draws: those at an offset the unsigned span lands on; all of them if the range is in order and up to RAND_MAX long |
| Sampling.GrpcDraws | src/GRPCServer.cpp:175-219 | the numbers drawn over gRPC are exactly those between the ends modulo 2^32, while the start is below 2^31 and the end less than 2^31 past it |
| Sampling.HttpCleanIff | src/handlers/SubsamplingHandler.cpp:85-139 | over a range within a dense folder every HTTP draw finds a stored message exactly when the folder is not empty and the range is in order; otherwise some draw sends an empty message |
| Sampling.HttpPeriodCleanIff | src/handlers/SubsamplingHandler.cpp:61-139 | every HTTP draw for a period finds a stored message exactly when the folder is not empty and no key up to its start has a number above the one at its end |
| Sampling.ReversedPeriodSendsPlaceholder | src/handlers/SubsamplingHandler.cpp:61-139 | a dense folder for which the period 20 to 10 gets an empty message |
| Sampling.GrpcCleanIff | src/GRPCServer.cpp:175-248 | every gRPC draw over a range within a dense folder finds a stored message exactly when the folder is not empty and, modulo 2^32, the range starts below 2^31 and ends less than 2^31 past its start |
| Sampling.NeverEmptyIff | src/handlers/SubsamplingHandler.cpp:117-138 | subsamples of every size and for all random numbers contain no empty message exactly when every single draw finds a stored one |
| Sampling.ServedIsAnswers | src/handlers/SubsamplingHandler.cpp:115-138 | where numbers never decrease the messages sent are the linear scans' answers to the draws |
| Payload.ReadIntIsBigEndian | tsclient/recstore-ts/src/index.ts:29-35 | shifts and ors compute the big-endian signed 32-bit number |
| Payload.DataToSave | scalaClient/src/test/scala/hydrosphere/timemachine/ReqtoreDockerKit.scala:39-70 | the successive puts build the documented layout |
| Payload.ByteBuffer.Put | scalaClient/src/test/scala/hydrosphere/timemachine/ReqtoreDockerKit.scala:46-70 | a put appends at the cursor and moves it |
| Payload.PayloadRoundTrip | tsclient/recstore-ts/src/index.ts:43-78 | the reader recovers request and response bytes and the alternative, and rejects every other tag |
| Payload.PartsRead | tsclient/recstore-ts/src/index.ts:43-78 | for any two parts behind their sizes, present or absent, with anything after them: bodies, tag and alternative, and an error for every tag but 2 and 3 |
| Payload.AbsentBodies | tsclient/recstore-ts/src/index.ts:46-47 | a request or response with presence byte 0 comes back empty |
| Payload.SliceExactly | tsclient/recstore-ts/src/index.ts:59-60 | slice for bounds of any sign: in place, past the end, from the end, before the start, crossed |
| Payload.ReadIntPads | tsclient/recstore-ts/src/index.ts:29-35 | missing bytes read as zero |
| Payload.LayoutBytes | scalaClient/src/test/scala/hydrosphere/timemachine/ReqtoreDockerKit.scala:39-70 | the saved item byte by byte |
| Store.DbClient.constructor | src/LocalDBClient.cpp:32-69 | opening takes every counter from the number of the folder's last key, and supplies the default folder |
| Store.DbClient.LoadCounters | src/LocalDBClient.cpp:94-104 | the loop over handles sets each counter to the folder's last number |
| Store.DbClient.CreateColumnFamily | src/LocalDBClient.cpp:76-105 | adds an empty folder and sets all counters to the numbers of the last keys, keeping every entry |
| Store.DbClient.GetColumnFamily | src/DbClient.cpp:285-300 | a folder is found exactly when it is registered |
| Store.DbClient.GetOrCreateColumnFamily | src/DbClient.cpp:302-312 | creates only a missing folder |
| Store.DbClient.GenerateId | src/DbClient.cpp:40-54 | the request's timestamp unless it is 0, then the clock's; the counter's number, 0 in a new folder; the counter advances by one, from 2^64 - 1 to 0 |
| Store.DbClient.Put | src/DbClient.cpp:62-66 | changes only that folder, by the ordered put |
| Store.DbClient.Save | src/GRPCServer.cpp:70-110 | the id has the requested timestamp, or the clock's if none is requested, and the counter's number; the folder gains exactly this entry, replacing at most one under the same id, and other folders keep theirs |
| Store.SaveExactly | src/GRPCServer.cpp:70-110 | everything a save changes: id, entries, its counter, and the other counters if it creates the folder |
| Store.DbClient.Get | src/GRPCServer.cpp:112-144 | missing folder; with a timestamp, the message stored under exactly that id, or none; for wildcards, if numbers never decrease, the earliest one carrying the number; for every folder nothing but a message under a key equal to the probe |
| Store.ReadFromExactly | src/GRPCServer.cpp:112-144 | what a read by id finds in a sorted folder, with and without a timestamp, and when it finds nothing |
| Runs.SaveAppends | src/DbClient.cpp:40-54 | a save in time goes to the end of its folder and keeps the folder's invariant |
| Runs.FolderReopens | src/LocalDBClient.cpp:94-104 | a reopen keeps the folder's invariant |
| Runs.RunKeeps | src/LocalDBClient.cpp:76-105 | any run disciplined for a folder keeps its invariant, whatever is saved to other folders |
| Runs.RunAppends | src/GRPCServer.cpp:70-110 | any run disciplined for a folder changes it only by appending |
| RunLaws.RunInvariant | src/DbClient.cpp:40-54 | after every lawful run: sorted, dense, numbers below the count of events, counter at the last number or one past, every number of the range carried |
| RunLaws.FolderIsTimeline | src/GRPCServer.cpp:70-110 | a run leaves a folder with exactly its saves, in order, exactly when the saves into it are disciplined |
| RunLaws.EntriesAreRequests | src/DbClient.cpp:40-48 | after a lawful run entry i holds the data of save request i, under the request's own timestamp, or the clock's if it had none |
| RunLaws.ClockIndependent | src/DbClient.cpp:42-45 | lawful or not, a folder does not depend on the clock at saves with their own timestamp or into other folders |
| RunLaws.TieLoses | src/LocalDBClient.cpp:94-104 | a save at the last timestamp after a reopen leaves the folder short of an entry for the rest of the run |
| RunLaws.TimelineIsDisciplined | src/DbClient.cpp:40-66 | a run that leaves a folder with exactly its saves had no save into it out of time |
| RunLaws.ReadYourWrites | src/GRPCServer.cpp:70-144 | an id returned by any save, carrying the requested timestamp or else the clock's, reads back its message and id at any later point |
| RunLaws.ReopenDrift | src/LocalDBClient.cpp:94-104 | a folder creation leaves other entries alone and moves a counter back by one or not at all; only the last key's number can be reissued |
| RunLaws.ReopensAtLast | src/LocalDBClient.cpp:94-104 | after any run a restart or a folder creation sets each counter to the number of the folder's last key |
| RunLaws.NumbersConserved | src/LocalDBClient.cpp:94-104 | entries = numbers in use + saves that were first after a reopen |
| RunLaws.SaveIsSafeIff | src/DbClient.cpp:40-66 | one save keeps density without overwriting exactly when its key is free and everything later carries its number |
| RunLaws.RestartThenSameTimestampOverwrites | src/LocalDBClient.cpp:53-61 | two saves at one timestamp around a restart leave one entry |
| RunLaws.RunTotalSample | src/handlers/SubsamplingHandler.cpp:53-139 | in every folder of a lawful run HTTP total subsamples never contain an empty message exactly when it is not empty; gRPC ones exactly when also the last number is not negative as an int |
| RunLaws.RunPeriodSample | src/handlers/SubsamplingHandler.cpp:61-139 | the same for periods of a non-empty folder: over HTTP exactly when no number rises from the period's end to its start, over gRPC exactly when, modulo 2^32, the range starts below 2^31 and ends less than 2^31 past its start |
| Interleaving.InterleavingIsSafe | src/DbClient.cpp:50 | in every interleaving numbers are issued one by one, no put overwrites, and an issued number missing from the folder is outstanding |
| Interleaving.StoresItsOwn | src/GRPCServer.cpp:73-105 | whatever happens between its two steps, a save stores its own data under its own timestamp and the number it took |
| Interleaving.Overwriting | src/DbClient.cpp:50-66 | from a counter at or below a stored number some schedule overwrites |
| Interleaving.InterleavingSafeIff | src/DbClient.cpp:50-66 | no schedule overwrites exactly when every stored number is below the counter |
| Interleaving.AtomicSave | src/GRPCServer.cpp:73-105 | the two steps without interruption are the store's save |
| Handlers.HandleGetRange | src/handlers/GetRangeHandler.cpp:37-98 | the body is the frames of the scan and parses to them; the byte count is its length; the limit is overshot by less than a frame |
| Handlers.GetRange | src/GRPCServer.cpp:146-166 | the messages of the scan, or NOT_FOUND; at most maxMessages, and below maxBytes protobuf bytes before the last message |
| Handlers.KindNeverEmptyIff | src/handlers/SubsamplingHandler.cpp:50-139 | over a folder without gaps, empty or not, for total and period requests, when exactly HTTP and gRPC subsamples never contain an empty message |
| Handlers.KindReturnsIff | src/GRPCServer.cpp:175-190 | which entries can be sent: of a total subsample every first holder of a number, of a period's those between its ends, for ranges up to RAND_MAX long |
| Handlers.SendableIsSent | src/GRPCServer.cpp:214-246 | for each of them some r makes both services send it and nothing else |
| Handlers.TotalKindIsCarried | src/GRPCServer.cpp:184-189 | a total subsample of a dense folder draws between ends that enclose exactly the numbers carried |
| Handlers.GrpcInts | src/GRPCServer.cpp:175-182 | start and difference are those of the numbers modulo 2^32, as ints |
| Handlers.UnansweredFrame | src/handlers/SubsamplingHandler.cpp:117-138 | a draw that finds nothing is sent as twenty zero bytes |
| Handlers.AnswersDrawsIff | src/handlers/SubsamplingHandler.cpp:97-138 | answering the draws means, in integers, that message j is the earliest with number from + span * rand(j) / RAND_MAX, modulo 2^64, or empty if none has it |
| Handlers.HandleSubsample | src/handlers/SubsamplingHandler.cpp:25-143 | for every folder the body frames the batched number of messages, each stored or empty; where numbers never decrease message j is the earliest with the number of draw j between the folder's ends, or the period's if bounds are given; all stored in a dense non-empty folder if from <= till |
| Handlers.GetSubsample | src/GRPCServer.cpp:168-254 | the same with arithmetic on int variables, which wraps around, and total or period as requested |
| EndToEnd.DownloadIsTimeline | src/handlers/GetRangeHandler.cpp:37-98 | downloading a folder after a lawful run gives one record per save, in order, with the saved bytes, the number, and the requested timestamp, or the clock's if none was requested |
| EndToEnd.PayloadComesBack | tsclient/recstore-ts/src/index.ts:54-64 | a saved request and response come back from the download |

## Left out

- RocksDB internals, S3, Kinesis and the write-ahead log: only the ordered-map contract is used.
- CloudDBClient: it repeats LocalDBClient's reopen logic.
- HTTP and gRPC servers, routing and query parsing, and the status, health and info handlers.
- Failed puts, a failed or raced folder creation, and handles left over from a reopened database: whole
  runs consist of successful saves, and a save's two steps see no folder creation in between.
- Store.DbClient.CreateColumnFamily: creation always succeeds; the source's test of the result is the
  address of a function and cannot fail, so a failed creation is not told apart there either.
- ColumnFamilyData is the counter alone, kept by value in a map: handle pointers and sharing are not
  modelled.
- Cancellation through the callback's `stop` argument: it is passed by value and has no effect.
- Handlers.HandleGetRange: the status is the one the handler sets; the source sets it after it has begun
  the response, so the status line a client sees is not part of this model.
- Handlers.HandleSubsample: the same holds for its status; its frames are written after the last batch
  instead of after each, with the same body.
- Sampling.FillProbes: the size of the key array on the stack is not limited.
- Draw quality and floating-point rounding of the draw.
- Payload.DataToSave: the protobuf messages are opaque bytes; the reader returns the bytes handed to the
  protobuf decoders.
- `readLong` and the unused result map of the TypeScript client.
