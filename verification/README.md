# Verified models of the TLS sidecar

The sidecar carries TLS between services over plain HTTP calls and decides at the receiving end which
requests may pass. This project models its three stateful parts and proves what they guarantee over every
input and every run, and, where an intended guarantee does not always hold, exactly when it does.

- **The browser client's bridge** (`cmd/wasm/static/wasm_exec.js`). Go code compiled to WebAssembly refers to
  JavaScript values through a reference-counted table. `RefTable` is the table and the 8-byte encoding of a
  value, `RefRuns` whole runs of stores and finalizations, `GoBridge` the object that updates the table and
  linear memory, `LinearMemory` the little-endian accesses and the 64-bit integer split, `ArgLayout` the
  layout of argv and environment, `Stdout` the line buffer.
- **The tunnel** (`http_handler/server_main.go`, `http_handler/client_conn.go`). `Tunnel` is one connection as a
  transition system over calls, the read/write lock, pending goroutines and pipes; `TunnelLocks`,
  `TunnelProgress`, `TunnelUpstream`, `TunnelOrder` and `TunnelDownstream` prove what holds in every interleaving. `ConnectionIds` and
  `ConnectionTable` are the table of connections, `ClientConn` the client's own end.
- **The gate** (`service_router.go`, `tls_wrapper.go`). `Gate` is the registry and the inbound director, proved
  against a policy that has no order; `Outbound` the outbound director; `LastWriter` the maps both look things up in; `Paths` the path rewriting;
  `IdentitySlices` the `append` of the default identity type.

Results that are conditions rather than plain guarantees:

- a stored negative zero loads as a positive zero, every other value as itself (`StoreThenLoad`);
- a handle word loads its value exactly while Go holds a reference to it (`LoadsIffHeld`, `StoredWordLoads`);
- a 64-bit integer comes back as the truncation of a number, except for negative fractions just below a
  multiple of 2^32, which come back 2^32 too small (`Int64RoundTrip`, `SafeRoundTrip`);
- arguments come back exactly when they contain no zero byte (`ImageRoundTripIff`);
- in any state of the connection table, opens that do not overlap are given fresh ids from there on exactly when the
  ids in the table and those about to be entered are 0 up to their number (`StaysFreshIff`), which a close keeps
  exactly when it deletes the highest of them or one that is about to be entered again (`CloseStaysFreshIff`); as
  long as every close deletes the highest id while no open is under way, the ids are fresh exactly when no two
  opens overlap (`FreshIffNeverOverlap`);
- a close deletes the entry of another connection, which nobody has closed, exactly when the closed one had lost its
  own entry before and its id is in the table again (`EvictsIff`, with a run in `CloseCanEvict`); while ids are
  fresh, every connection is in the table until it is closed (`FreshLosesNoEntry`);
- payloads are sure to enter the pipe in order exactly when they have done so until now and at most one is waiting
  (`KeepsOrderIff`), and the bytes are sure to be in order exactly when, besides, all that are waiting commute
  (`KeepsReadsIff`, `InOrderKeepsReadsIff`); even the payloads of a client that makes one call at a time can swap
  (`SequentialWritesCanSwap`);
- bytes that were acknowledged to the client can be lost by a close (`AcknowledgedCanBeLost`): a close that has taken
  the lock can lose none exactly when none is unread (`TunnelUpstream.CloseLosesNothingIff`);
- reads form one stream when they are sequential (`SequentialReadsAreOneStream`); of two replies that are out
  at once, with the local pipe empty, the later can always be returned first, which breaks the stream exactly when
  the two do not commute (`SwapKeepsPrefixIff`, `ConcurrentReadsCanSwap`);
- bytes that the server wrote can be lost by a close (`CloseCanLose`): a close that has taken the lock can lose
  none, without further writes, exactly when no unread bytes are in the pipe
  (`TunnelDownstream.CloseLosesNothingIff`), though its drain may get to all of them (`CloseCanDrain`); what is written while it is in progress can be lost
  (`WriteDuringCloseCanBeLost`), and a run has lost nothing exactly when every close in it ended on an empty pipe
  (`NothingLostIff`);
- a service behind the gate can rely on the certificate's names, on the claims for a jwt request, and on the identity
  type for a request that is neither jwt nor rpc; under any other key it gets what the request said (`GatesOwnIff`);
- no sequence of requests changes the list that a later one consults exactly when every spare cell that a registered
  list sees behind an empty one holds the default already (`RequestsChangeNoVerdictIff`);
- the server always comes to rest, and then calls wait in exactly one kind of state, which only unsolicited
  data from the server ends (`ServerComesToRest`, `IdleAndWaitingIffStuck`, `StuckPersists`).

Assumptions about code that is not part of the model:

- `mock_conn` is a pair of synchronous pipes: writers enter a pipe one at a time in no particular order, a read
  takes the smaller of its buffer and the rest of the current chunk, and a close ends both sides.
- `sync.RWMutex` lets a waiting writer keep out new readers.
- HTTP delivers each call's request and reply once, with the payload intact.
- Closing the TLS side succeeds the first time it is done to a handle, and fails afterwards. It closes the pipe at
  once when a TLS write is in progress, without waiting for that write to be read.
- HTTP header keys are compared in canonical form; the model writes them that way.
- JavaScript values are compared as in `===`, and Map keys as in SameValueZero. A binary64 word is a NaN as
  section 3.4 of IEEE 754-2008 defines it.

## Model

| member | source | states |
|---|---|---|
| RefTable.InitialTableValid | cmd/wasm/static/wasm_exec.js:464-482 | the table a program starts with satisfies the table invariant: reserved slots, pool, and `ids` inverse to `values` |
| RefTable.PredeclaredValues | cmd/wasm/static/wasm_exec.js:464-482 | the seven values at the start, slot by slot, and their infinite counts |
| RefTable.AcquireKeepsValid | cmd/wasm/static/wasm_exec.js:153-163 | one more reference keeps the invariant, names a slot that holds the value, and changes no other slot |
| RefTable.FinalizeKeepsValid | cmd/wasm/static/wasm_exec.js:292-302 | giving a reference back keeps the invariant; the last one frees the slot, and no other slot changes |
| RefTable.FinalizeUnused | cmd/wasm/static/wasm_exec.js:292-302 | finalizing a slot that is not in use keeps the invariant and only lowers its count |
| RefTable.OrOfFlagIsSum | cmd/wasm/static/wasm_exec.js:164-182 | the bitwise or of head and flag is their sum |
| RefTable.HandleHead | cmd/wasm/static/wasm_exec.js:164-182 | the high half the glue combines is that of the handle word |
| RefRuns.HandleWordIsNaN | cmd/wasm/static/wasm_exec.js:164-182 | a handle word is always a NaN, never zero, and carries its slot number |
| RefRuns.StoredWord | cmd/wasm/static/wasm_exec.js:135-183 | the word for each kind of value: 0 for undefined, 7FF80000 00000000 for NaN, a number as it is, 7FF80000 with the type flag and the slot for the rest, with the fixed slots of zero, null, true, false, the global object and the Go object |
| RefRuns.LoadOfWord | cmd/wasm/static/wasm_exec.js:122-133 | undefined for a zero, the number for everything up to infinity, the slot's value for a NaN |
| RefRuns.FreedSlotIsNext | cmd/wasm/static/wasm_exec.js:153-163 | the slot freed last is the first to be used again |
| RefRuns.StoreThenLoad | cmd/wasm/static/wasm_exec.js:122-183 | loading a stored value returns it, for every kind of value, if and only if it is not negative zero |
| RefRuns.LoadsIffHeld | cmd/wasm/static/wasm_exec.js:122-302 | in every state of every run, the handle word of a slot and a value loads that value if and only if Go holds a reference to it |
| RefRuns.StoredWordLoads | cmd/wasm/static/wasm_exec.js:122-302 | whatever is stored and finalized after a store, the word it wrote loads its value if and only if Go still holds the reference, or the value is reserved |
| RefRuns.ReferencesRemain | cmd/wasm/static/wasm_exec.js:292-302 | only finalizations of its own slot take a reference away |
| RefRuns.FromStart | cmd/wasm/static/wasm_exec.js:153-302 | every state that stores and finalizations lead to satisfies the invariant that ties the table to the references held |
| RefRuns.InvGuarantees | cmd/wasm/static/wasm_exec.js:153-302 | that invariant means: every held reference loads its value, counts equal references held, slots split into referenced and pooled, one slot per value, reserved slots never freed, and a table no longer than the most values ever held at once require |
| RefRuns.EveryRun | cmd/wasm/static/wasm_exec.js:153-302 | all of this in every state of every run |
| RefRuns.StoringAgain | cmd/wasm/static/wasm_exec.js:153-163 | storing a value that is still referenced names the same slot and allocates nothing |
| GoBridge.Go.constructor | cmd/wasm/static/wasm_exec.js:464-482 | the object starts with the initial table |
| GoBridge.Go.AcquireSlot | cmd/wasm/static/wasm_exec.js:153-163 | finding or allocating a slot, statement by statement, does to the fields what the table function says |
| GoBridge.Go.StoreValue | cmd/wasm/static/wasm_exec.js:135-183 | a store updates the table and exactly the 8 bytes at its address; out of memory it writes nothing, though the reference is counted |
| GoBridge.Go.LoadValue | cmd/wasm/static/wasm_exec.js:122-133 | a load decodes the 8 bytes at its address against the table |
| GoBridge.HeldWordSurvivesStore | cmd/wasm/static/wasm_exec.js:122-183 | a held word in memory still loads its value after any value is stored at other addresses |
| GoBridge.Go.FinalizeRef | cmd/wasm/static/wasm_exec.js:292-302 | finalizing any slot of the table, in use or not, does to the fields what the table function says |
| GoBridge.Go.SetInt64 | cmd/wasm/static/wasm_exec.js:111-114 | both halves are written at the address, or the low half alone when only that fits |
| GoBridge.Go.GetInt64 | cmd/wasm/static/wasm_exec.js:116-120 | the two halves are joined with the high one signed, and the sum is rounded to binary64 |
| GoBridge.Int64Bytes | cmd/wasm/static/wasm_exec.js:111-114 | the eight bytes written for an integer are the number modulo 2^64, the lowest byte first |
| LinearMemory.Int64RoundTrip | cmd/wasm/static/wasm_exec.js:111-120 | what comes back for every real number in the signed 64-bit range |
| LinearMemory.SafeIntegersExact | cmd/wasm/static/wasm_exec.js:116-120 | rounding leaves integers up to 2^53 as they are |
| LinearMemory.RoundsToNearest | cmd/wasm/static/wasm_exec.js:116-120 | a sum is rounded to the nearest number with a significand of 53 bits, ties to even |
| LinearMemory.RoundsNegative | cmd/wasm/static/wasm_exec.js:116-120 | and negative sums likewise |
| LinearMemory.SmallestIs | cmd/wasm/static/wasm_exec.js:111-114 | the numbers whose quotient by 2^32 vanishes end at half of the smallest positive number |
| LinearMemory.NotFiniteJoins | cmd/wasm/static/wasm_exec.js:111-120 | NaN and the infinities come back as zero |
| LinearMemory.PutU32Bytes | cmd/wasm/static/wasm_exec.js:111-114 | 32-bit numbers are written with the lowest byte first |
| LinearMemory.SafeRoundTrip | cmd/wasm/static/wasm_exec.js:111-120 | with rounding, safe integers and all numbers that can have a fraction come back truncated, with the exact exception |
| LinearMemory.Int64IsFloorIff | cmd/wasm/static/wasm_exec.js:111-120 | it is the floor if and only if the number is nonnegative or an integer |
| LinearMemory.Int64OfInteger | cmd/wasm/static/wasm_exec.js:111-120 | an integer comes back reduced to the signed 64-bit range, so unchanged if and only if it is in it |
| ArgLayout.StrPtr | cmd/wasm/static/wasm_exec.js:488-497 | one string is written with its terminator if it fits, and the offset moves to the next multiple of 8 |
| ArgLayout.WriteStrings | cmd/wasm/static/wasm_exec.js:501-510 | the loop writes the strings back to back and collects where each begins |
| ArgLayout.WriteTable | cmd/wasm/static/wasm_exec.js:513-518 | the loop writes the pointer table, and fails exactly when it does not fit |
| ArgLayout.WriteArguments | cmd/wasm/static/wasm_exec.js:486-511 | strings and pointers of arguments and environment, with both terminators, are as laid out |
| ArgLayout.PassArguments | cmd/wasm/static/wasm_exec.js:486-527 | the program starts exactly when the final offset is below 12288 and in memory; then memory is the image, walking it gives back argv and env if and only if no string contains a zero byte, and below 4096 nothing ever changes |
| ArgLayout.ImageLaidOut | cmd/wasm/static/wasm_exec.js:486-518 | the table holds a 64-bit pointer to each argument, a zero, one to each NAME=VALUE, and a zero; what they point to is 8-aligned, at or above 4096, and ends with a zero byte |
| ArgLayout.RegionsApart | cmd/wasm/static/wasm_exec.js:488-497 | pointers are 8-aligned and string regions disjoint and in order |
| ArgLayout.FinalOffsetFormula | cmd/wasm/static/wasm_exec.js:486-525 | the final offset in terms of the string lengths alone |
| ArgLayout.ImageFrame | cmd/wasm/static/wasm_exec.js:486-518 | nothing outside [4096, final offset) is written |
| ArgLayout.ImageReadsBack | cmd/wasm/static/wasm_exec.js:486-527 | walking the two vectors recovers every argument and every environment entry in order, each up to its first zero byte |
| ArgLayout.ImageRoundTripIff | cmd/wasm/static/wasm_exec.js:486-527 | what is recovered is what was passed if and only if no string contains a zero byte |
| ArgLayout.StartedRoundTripIff | cmd/wasm/static/wasm_exec.js:520-527 | the same for every program that is allowed to start |
| ArgLayout.SplitEntryOf | cmd/wasm/static/wasm_exec.js:507-510 | name and value of an environment entry can be told apart again if and only if the name has no equals sign |
| Stdout.Fs.WriteSync | cmd/wasm/static/wasm_exec.js:18-26 | one write appends to the buffer and logs everything up to the last newline |
| Stdout.WriteSplits | cmd/wasm/static/wasm_exec.js:18-26 | whatever ends in the last line feed is logged in one text without it, after what was held back, and the rest is held back |
| Stdout.WriteAllConserves | cmd/wasm/static/wasm_exec.js:18-26 | after any writes, what was logged and what is held back is what was written, and no newline is held back |
| Stdout.ChunkingIrrelevant | cmd/wasm/static/wasm_exec.js:18-26 | the same text cut differently is shown the same and leaves the same remainder |
| ConnectionIds.DenseOpen | http_handler/server_main.go:73-90 | from ids 0..n-1 an open takes the fresh id n |
| ConnectionIds.DenseCloseIff | http_handler/server_main.go:187-189 | closing keeps the ids dense if and only if the highest is closed |
| ConnectionIds.CloseBelowTopThenOpen | http_handler/server_main.go:73-90 | after closing any other id, every following open takes the id of the same live connection |
| ConnectionIds.DenseIffNeverReuses | http_handler/server_main.go:73-90 | ids are dense if and only if no sequence of opens ever takes a live id |
| ConnectionIds.IdsBelowPeak | http_handler/server_main.go:73-90 | with one-step opens every id is below the largest size the table has had |
| ConnectionIds.PeakIsReached | http_handler/server_main.go:73-90 | that size is one the table has had |
| ConnectionTable.StepKeepsInv | http_handler/server_main.go:73-192 | every step of interleaved opens and closes keeps the table invariant |
| ConnectionTable.HandlesConserved | http_handler/server_main.go:74-192 | in every run each handle is in the table or was closed, overwritten or evicted, exactly one of them, and the numbers add up; eviction needs a reused id |
| ConnectionTable.PeakIsReached | http_handler/server_main.go:74-192 | the bound on the ids is a size that the table has had in the run |
| ConnectionTable.EvictsIff | http_handler/server_main.go:180-189 | a first close deletes the entry of another connection, one that is not closed, if and only if its own entry was gone and its id is in the table again |
| ConnectionTable.CloseCanEvict | http_handler/server_main.go:41-192 | a run of three opens and two closes in which the third connection, which nobody asked to close, loses its entry |
| ConnectionTable.FreshLosesNoEntry | http_handler/server_main.go:74-192 | in a run whose ids were fresh when picked, no entry is overwritten or evicted, and a connection is in the table if and only if it is not closed |
| ConnectionTable.FreshIffNeverOverlap | http_handler/server_main.go:74-90 | in runs of opens and of closes that delete the highest id while no open is under way, the ids picked are all fresh if and only if no two opens overlap |
| ConnectionTable.StaysFreshIff | http_handler/server_main.go:74-90 | from any state, opens that do not overlap stay fresh if and only if the ids in the table and those about to be entered are 0 up to their number |
| ConnectionTable.CloseStaysFreshIff | http_handler/server_main.go:74-192 | if they would stay fresh, then after a close that deletes an entry they do if and only if it was the highest of these ids, or one about to be entered again |
| ConnectionTable.ClosedIdNotFound | http_handler/server_main.go:41-65 | after a successful close, lookups of the id fail until it is issued again |
| ConnectionTable.HttpSidecarServer.constructor | http_handler/server_main.go:67-70 | the table starts empty |
| ConnectionTable.HttpSidecarServer.PickID | http_handler/server_main.go:74-76 | the first half of newRequest is the pick step |
| ConnectionTable.HttpSidecarServer.InsertHandle | http_handler/server_main.go:84-90 | the second half of newRequest is the insert step |
| ConnectionTable.HttpSidecarServer.FindHandle | http_handler/server_main.go:41-65 | the middleware answers 400, 404 or the handle exactly as the header and the table say |
| ConnectionTable.HttpSidecarServer.FindHandleToClose | http_handler/server_main.go:41-65 | in front of clientClose the same lookup is the first step of a close |
| ConnectionTable.HttpSidecarServer.DeleteHandle | http_handler/server_main.go:180-189 | the end of a first close is the delete step |
| TunnelLocks.StepKeepsLockInv | http_handler/server_main.go:101-192 | every step keeps the lock in agreement with the calls: readers counted, one writer, no reader beside a close |
| TunnelLocks.IdleAndWaitingIffStuck | http_handler/server_main.go:101-192 | in every reachable state, the server has no step left while a call waits for the lock if and only if a read is parked on an empty pipe, a writer waits for it, and nothing is left for the server to read |
| TunnelLocks.StuckPersists | http_handler/server_main.go:101-192 | until the server sends of its own accord, no call in that state is answered and no payload accepted |
| TunnelLocks.StuckIsReachable | http_handler/server_main.go:101-158 | one read and one write reach that state in four steps |
| TunnelLocks.SoleCallNeverWaits | http_handler/server_main.go:101-192 | a call that is alone gets its lock at once, and that state takes two calls |
| TunnelProgress.ServerStepsBounded | http_handler/server_main.go:101-192 | left to itself, the server makes a bounded number of steps from any reachable state |
| TunnelProgress.ServerComesToRest | http_handler/server_main.go:101-192 | it comes to rest, and then a call still waits for the lock if and only if the connection is stuck |
| TunnelUpstream.ServerSeesPermutation | http_handler/server_main.go:101-134 | in every schedule the server reads a prefix of the accepted payloads, whole and once each, in some order |
| TunnelUpstream.RunKeepsUpInv | http_handler/server_main.go:101-192 | every run keeps the invariant: tickets enter at most once, none goes missing while the pipe is open, and what is read, with the rest of the chunk, is what has entered |
| TunnelOrder.KeepsOrderIff | http_handler/server_main.go:116-122 | in any state with this invariant, payloads are sure to enter in order, until another is accepted, if and only if they have so far and at most one waits |
| TunnelOrder.OrderKept | http_handler/server_main.go:116-122 | the order is sure in every state of a run if and only if no two payloads ever wait at the same time, and then the bytes are read in order |
| TunnelOrder.OrderNotKept | http_handler/server_main.go:116-122 | whenever two payloads wait, the schedule can go on with the later one first |
| TunnelOrder.KeepsReadsIff | http_handler/server_main.go:114-133 | while the connection is open, the bytes the server reads are sure to be in the order of acceptance if and only if what has entered and then the rest in order is what was accepted, and all waiting payloads commute |
| TunnelOrder.InOrderKeepsReadsIff | http_handler/server_main.go:114-133 | after payloads that have entered in order, if and only if all waiting ones commute |
| TunnelOrder.SequentialWritesCanSwap | http_handler/client_conn.go:70-89 | two writes made one after the other can reach the server swapped |
| TunnelUpstream.AcknowledgedBytes | http_handler/server_main.go:114-133 | before close, acknowledged bytes are bytes consumed, in transfer or waiting |
| TunnelUpstream.ClosingLosesNothingIff | http_handler/server_main.go:114-192 | while a close is in progress, no acknowledged byte can be lost, until another payload is accepted, if and only if none is in transfer or waiting |
| TunnelUpstream.CloseLosesNothingIff | http_handler/server_main.go:114-192 | the same in every run at the moment when a close takes the lock |
| TunnelUpstream.ClosedReadsNothing | http_handler/server_main.go:114-192 | after a close the server reads nothing more, whatever is still acknowledged |
| TunnelUpstream.AcknowledgedCanBeLost | http_handler/server_main.go:114-192 | a client that writes, has its answer and closes can have nothing of it read, ever |
| TunnelDownstream.EveryByteOnce | http_handler/server_main.go:135-192 | in every run each byte the server wrote went to one reply, or was drained by a close, or is in the pipe, or was lost at the close |
| TunnelDownstream.NothingLostIff | http_handler/server_main.go:165-192 | a run loses nothing if and only if every close in it ends with nothing unread in the pipe |
| TunnelDownstream.ClosingLosesNothingIff | http_handler/server_main.go:176-180 | while a close is in progress, and without further writes, nothing can be lost if and only if nothing is unread |
| TunnelDownstream.CloseLosesNothingIff | http_handler/server_main.go:165-192 | the same at the moment when a close takes the lock |
| TunnelDownstream.WriteDuringCloseCanBeLost | http_handler/server_main.go:176-180 | whatever is written while a close is in progress can be lost |
| TunnelDownstream.CloseCanLose | http_handler/server_main.go:176-180 | a run from the start that loses what was written |
| TunnelDownstream.CloseCanDrain | http_handler/server_main.go:165-189 | the drain that a close starts may read all that is in the pipe before it closes, and then nothing is lost |
| TunnelDownstream.DrainNeedsClose | http_handler/server_main.go:176-179 | only while a close is in progress is anything drained |
| TunnelDownstream.ClosedReadGetsNoReply | http_handler/server_main.go:151-157 | on a closed connection no read ever gets a reply with data, whatever else happens |
| TunnelDownstream.ClosedReadFails | http_handler/server_main.go:151-157 | it is ended with an error and gives its lock back |
| TunnelDownstream.SequentialReadsAreOneStream | http_handler/client_conn.go:47-64 | with sequential reads, what Read has returned is a prefix of what the server wrote, and between reads the local pipe is empty |
| TunnelDownstream.LocalReadStep | http_handler/client_conn.go:58-63 | the local read returns the whole reply, since it fits the buffer |
| TunnelDownstream.DeliverReply | http_handler/client_conn.go:53-63 | with the local pipe empty, any call that has its reply can be the next to return it, whole |
| TunnelDownstream.SwapKeepsPrefixIff | http_handler/client_conn.go:47-64 | in every reachable state with an empty local pipe, the next two replies can be returned in the wrong order, and the stream is then intact if and only if they commute |
| TunnelDownstream.ConcurrentReadsCanSwap | http_handler/client_conn.go:47-64 | any two replies can be swapped, starting from a fresh connection |
| ClientConn.MockClientConn.Read | http_handler/client_conn.go:47-64 | what Read copies into the buffer and leaves in the local pipe, and that an error or a closed local pipe leaves both alone |
| ClientConn.MockClientConn.Close | http_handler/client_conn.go:109-124 | the local pipe is closed exactly when the server reports success |
| ClientConn.ReadCopiesReply | http_handler/client_conn.go:58-63 | the local pipe is empty after a read if and only if the reply fits the buffer, and then the reply is returned whole |
| ClientConn.ReadTakesOneChunk | http_handler/client_conn.go:53-63 | a read takes from what is left of an earlier reply first, and of all the replies in the local pipe it touches one |
| ClientConn.ReplyFits | http_handler/server_main.go:149-163 | a reply is never longer than the size asked for |
| Paths.JoinOfSplit | service_router.go:126-128 | joining the segments of a path gives the path back |
| Paths.SplitOfJoin | service_router.go:126-128 | splitting joined segments gives them back when none contains the separator |
| Paths.SplitFields | service_router.go:194-198 | the two fields taken from a header value, and that the second exists if and only if there is a separator |
| Paths.ApiPathIsAfterSlash | service_router.go:126-129 | the inbound rewriting keeps the text after the first slash |
| Paths.ReachesIff | service_router.go:126-175 | exactly which request paths reach an API |
| Paths.OutboundThenInbound | tls_wrapper.go:121-125 | outbound and then inbound rewriting gives service id and original path, which can be told apart when the id has no slash and the path begins with one |
| LastWriter.LookupIsLast | service_router.go:39-51 | a lookup finds the last item added under its key, or what was there before |
| LastWriter.LastIs | service_router.go:39-43 | the last item of a key is the one with no other of that key behind it |
| Gate.LookupIsLastReport | service_router.go:39-51 | so a lookup of an API finds the last report for its path |
| Gate.ReportedIsReached | service_router.go:39-175 | a request whose path after the first slash was reported reaches the API that was reported last for it |
| Gate.UnreportedIsNotReached | service_router.go:39-175 | other requests reach what was in the registry before |
| Gate.BatchingIrrelevant | service_router.go:39-43 | how reports are batched does not matter |
| Gate.ForwardIffPolicy | service_router.go:125-250 | no check fails if and only if the unordered policy allows the request |
| Gate.AnonymousForwardedIff | service_router.go:192-212 | a request without an Authorization value passes if and only if it is addressed to an API and method that exist and the API's list is empty or contains "unauthorized" |
| Gate.AuthorizedForwardedIff | service_router.go:192-250 | one with a type and a credential passes if and only if, besides, the list has the type, and for jwt the credential is a valid token with claims under the peer's certificate |
| Gate.RejectedIff | service_router.go:129-191 | exactly when each error about the target is answered, with its status and code, and when the handling panics |
| Gate.UnidentifiedIff | service_router.go:192-243 | the same for the errors about the identity |
| Gate.ErrorCodesAgree | service_router.go:133-243 | every error carries a code of its status, except the one for claims of an unexpected kind |
| Gate.ForwardedValues | service_router.go:143-249 | under each header key goes out what the gate puts there (the certificate's deploy and service ids, the claims for jwt, "unauthorized" for types other than jwt and rpc), or else what came in |
| Gate.GatesOwnIff | service_router.go:143-249 | of a forwarded request, a header does not depend on what came in under its key if and only if it is one of these |
| Gate.ServiceInfo.AddHttpAPIInfo | service_router.go:39-43 | the loop registers the reports in order |
| Gate.ServiceInfo.GetAPIInfoByPath | service_router.go:45-51 | a lookup in the registry |
| Gate.ServiceRouteHandler.Director | service_router.go:125-250 | the director's verdict is the first check that fails, forwarded requests have exactly the stated headers, path and host, and the registry is untouched |
| Gate.ServiceRouteHandler.CheckTarget | service_router.go:145-191 | the part about target headers, service and API |
| Gate.ServiceRouteHandler.CheckIdentity | service_router.go:192-250 | the part about the identity type and the token |
| IdentitySlices.AppendChangesIff | service_router.go:200-204 | when an append changes what another slice shows, exactly |
| IdentitySlices.ConsultKeepsLists | service_router.go:200-212 | handling a request consults the right list, and leaves a registered one as it was if and only if that does not see the written cell or the cell held the default |
| IdentitySlices.RequestsChangeNoVerdictIff | service_router.go:175-212 | no sequence of requests changes which list a later one consults if and only if each spare cell that a registered list sees behind an empty one holds the default |
| Outbound.LookupIsLastAdded | tls_wrapper.go:21-70 | the deployment added last under an id is the one found; other ids keep theirs |
| Outbound.AddedIsFound | tls_wrapper.go:66-70 | a deployment is found under its id until another is added under it |
| Outbound.TLSWrapperHandler.constructor | tls_wrapper.go:53-63 | the handler starts with one deployment per configured host |
| Outbound.TLSWrapperHandler.AddDeploy | tls_wrapper.go:66-70 | the loop adds the deployments in order |
| Outbound.TLSWrapperHandler.GetDeployInfo | tls_wrapper.go:21-27 | a lookup in the map |
| Outbound.TLSWrapperHandler.Director | tls_wrapper.go:102-126 | the request goes to its deployment under the rewritten path, or is rejected with only its scheme changed |
| Outbound.EndToEndApi | tls_wrapper.go:121-125 | the API the inbound gate finds is the one reported under service id and original path |

## Left out

- GoBridge.Go.FinalizeRef: requires a slot number inside the table, because a number outside would only add an array element that is overwritten before it is read.
- RefRuns.Next: finalizes only references that are held, because a run counts what Go holds; other finalizations are covered by RefTable.FinalizeUnused.
- TunnelLocks.IdleAndWaitingIffStuck: does not model timeouts or failed HTTP calls, which can end a parked read from outside.
- Gate.ServiceRouteHandler.Director: leaves the headers and host of a rejected request open, because a rejected request is answered and not sent.
- Tunnel.Next: handlers, goroutines and pipes are steps on a value rather than methods of an object, because their interleaving is the point; the sharing of byte slices between them is not captured.
- RefRuns.LoadsIffHeld: assumes slot numbers below 2^32, because a JavaScript array has no more elements.
- The `Reflect` calls, timeout events, clocks, randomness, byte copies and program exit of `wasm_exec.js`: they would add only easy members.
- UTF-8 encoding and decoding, and the sort of environment keys: strings arrive encoded, keys in order, and output chunks decoded on character boundaries.
- The connection's `Init`, and the deadlines, which do nothing; a local pipe that is closed while a read is in it.
- Error texts and the JSON of replies; the bodies of requests that do not parse.
- TLS, certificates, PEM, RSA and JWT cryptography: a certificate is its names, a token parser is any function.
- What `httputil.ReverseProxy` does to a request after the director, including hop-by-hop headers.
- WebSocket handlers, the transfer loop, configuration, generated code, and the thin wrappers around responses and connections.
