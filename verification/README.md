# Verified models of the BugMuseum capstones

This project models the four capstone applications of the repository and proves properties of them: the
Encore print spooler, the Cascade configuration service, the Avalanche cache and the Revenant session
server.  Objects are modelled at value level: a buffer is its bytes, and releasing an object drops it.
Only the ownership results track heap blocks.

| file | component |
|---|---|
| Bytes.dfy | bytes, little-endian scalars, 32-bit and size_t addition |
| Wire.dfy | the request stream of Encore and Revenant, and the transport that fragments it |
| SpoolModel.dfy, SpoolStore.dfy | spoolcore.c: the store as a value, and with its slots, list pointers and cache |
| SpoolServer.dfy, SpoolRequests.dfy | spoold.c: handlers and request loop; what each request amounts to |
| SpoolSteps.dfy, SpoolThreads.dfy | the handlers as small steps on shared memory; the two threads and their lock |
| SpoolHistory.dfy, SpoolOwnership.dfy | documents and queue order over whole runs; who owns which heap block |
| CfgFormat.dfy, CfgProfile.dfy | the .cprof format; cfgcore.c's parser, list and heap under allocation failure |
| CfgLayout.dfy | the format byte by byte: every status, and the second walker on any payload |
| CfgPeek.dfy, CfgTemplate.dfy, CfgService.dfy | the second walker, template expansion, merge and push |
| Cache.dfy, Fnv.dfy, Hex.dfy | cachecore.c's table and hash; the hex codec (Base16, section 8 of RFC 4648) |
| SessModel.dfy, SessStore.dfy | sesscore.c: the store as a value, and with its sessions, blocks and pointers |
| SessDrivers.dfy, SessRequests.dfy | sessiond.c's TCP side and sessreplay.c; what each request amounts to |

How the pieces fit: a pure function says what each operation does to a store value; the class with the
source's fields and pointers is proved to follow it, method by method, through a ghost field or an
abstraction function; and the properties the program promises are proved about the values.  What those functions do is in turn stated
without them, from the request, the bytes or the list alone, with the program's own numbers: `SpoolRequests`,
`SessRequests` and `CfgLayout`, and the lemmas named `...Is` and `...Does`.  Render filters
and session handlers are functions of their input bytes.  A connection is the sequence of pieces its reads
find.  Two threads are a state machine in which a handler is a program of small steps, each reading or writing
one part of the store as it finds it, and the other thread may fall between any two of them; reading or writing
the ready queue is one step for the whole list.

Where code and documentation disagree, the model follows the code:

- spoolcore.c says the buffer that JobRecycle keeps is reused by the next submit; no submit uses it, and the
  next recycle releases it, although the job it came from may still be in the table.  At value level
  recycling is a lookup.
- sessreplay.c says it acts exactly as the server would.  It does not when a handler reports an error on a
  run that asks for a deferral: the server then skips the deferral and the replay performs it.
  `FailingLogParts` is such a log, `RecordsAgreeExactly` gives the exact condition for a record and
  `ReplayIsServeExactly` for a log; the two handlers that ship never report an error (`ShippedLogs`).
- SessUseAppend writes through the pointer it saved before growing the buffer, so an append whose block moved
  does not append; `MovedAppend` is one, and `AppendsUnderEveryAllocator` says that room in the buffer is exactly
  what a caller can rely on.
- cprof.h promises a CRC after the entries; neither reader looks at it, and it counts as trailing bytes.

## Model

| member | source | states |
|---|---|---|
| SpoolStore.SpoolTable.StoreInvariant | double-free/capstone/src/spoolcore/spoolcore.c:25-117 | In every valid store the ready queue is an acyclic list from `qhead` to `qtail` holding the job of every occupied slot exactly once and nothing else; `slots[i]->id == i`; `count` is the number of occupied slots and the queue length; the most-recent cache is NULL or in the table; `len <= cap` and `32 <= cap <= 2^20` |
| SpoolStore.SpoolTable.Enqueue | double-free/capstone/src/spoolcore/spoolcore.c:25-29 | Linking at the tail extends the list by that job and keeps it acyclic and ended by `qtail` |
| SpoolStore.SpoolTable.JobDequeue | double-free/capstone/src/spoolcore/spoolcore.c:31-40 | Takes the head off the queue, the job keeping its slot; on an empty queue changes nothing and returns NULL |
| SpoolStore.SpoolTable.UnlinkQueue | double-free/capstone/src/spoolcore/spoolcore.c:48-57 | Removes exactly the given job, wherever it is in the list, and nothing when it is absent; head and tail stay right |
| SpoolStore.SpoolTable.AllocSlot | double-free/capstone/src/spoolcore/spoolcore.c:73-76 | The scan returns the least free slot, or -1 exactly when all 256 are taken |
| SpoolStore.SpoolTable.JobSubmit | double-free/capstone/src/spoolcore/spoolcore.c:78-107 | At pointer level: without a filter or a free slot nothing changes and the result is -1; otherwise the new job sits in the least free slot, at the tail of the list and in the cache, with the clamped document (`SpoolModel.SubmitAccepts` and `SpoolHistory` prove what that amounts to) |
| SpoolStore.SpoolTable.JobGet | double-free/capstone/src/spoolcore/spoolcore.c:111-117 | Returns the cached job for 0xFFFF, the job in its own slot for an id below 256 and NULL for any other; whichever it is becomes the cached one, and NULL leaves the cache |
| SpoolStore.SpoolTable.JobRender | double-free/capstone/src/spoolcore/spoolcore.c:121-127 | One filter call on the whole document, then the job leaves slot, queue, cache and count; an unknown id makes no call |
| SpoolStore.SpoolTable.JobAppend | double-free/capstone/src/spoolcore/spoolcore.c:131-150 | Grows the buffer when needed and stores old bytes followed by the new ones; a refused append leaves the document alone |
| SpoolStore.SpoolTable.JobCancel | double-free/capstone/src/spoolcore/spoolcore.c:154-159 | Marks the job cancelled and changes nothing else about it or any other job |
| SpoolStore.SpoolTable.JobRecycle | double-free/capstone/src/spoolcore/spoolcore.c:161-167 | Reports whether the job exists and remembers it; no job, queue or count changes |
| SpoolStore.SpoolTable.JobDup | double-free/capstone/src/spoolcore/spoolcore.c:169-194 | The copy is made in the least free slot and queued behind everything, as `SpoolModel.Dup` says |
| SpoolStore.SpoolTable.JobRetire | double-free/capstone/src/spoolcore/spoolcore.c:234-243 | Works whether or not the job is still queued, which the pump relies on; an empty slot or bad id is an error and changes nothing |
| SpoolStore.SpoolTable.JobWork | double-free/capstone/src/spoolcore/spoolcore.c:211-226 | Renders or drops the job just taken off the queue and retires it |
| SpoolStore.SpoolTable.JobFlush | double-free/capstone/src/spoolcore/spoolcore.c:228-232 | The drain loop terminates although each round edits the list it drains; from a valid store it leaves no job, an empty queue, count 0 and an empty cache, and has made exactly the calls of the uncancelled queued jobs in queue order |
| SpoolModel.FlushDrains | double-free/capstone/src/spoolcore/spoolcore.c:211-243 | For every valid store, draining the queue job by job empties table, queue, count and cache and calls the filter of each uncancelled job once, in queue order |
| SpoolModel.CancelThenFlush | double-free/capstone/src/spoolcore/spoolcore.c:154-232 | Cancelling a job takes its filter call, and no other, out of what the next flush does |
| SpoolModel.SubmitAccepts | double-free/capstone/src/spoolcore/spoolcore.c:73-107 | Submit succeeds exactly when there is a filter and fewer than 256 jobs; the id is the least free one, the job has the given format and filter, the first 2^20 bytes in a buffer of at least 32 and a metadata header that starts with its format, goes to the tail and into the cache, and every other job is untouched |
| SpoolModel.DupAccepts | double-free/capstone/src/spoolcore/spoolcore.c:169-194 | Dup succeeds exactly when the job exists and a slot is free; the copy has the original's format, filter, document and metadata, is queued last, and no other job changes |
| SpoolModel.AppendAccepts | double-free/capstone/src/spoolcore/spoolcore.c:131-149 | Append succeeds exactly when the job exists and the true sum of lengths is at most 2^20: the 32-bit sum never misleads; the document is then the old bytes and the new ones, and otherwise no job changes |
| SpoolModel.CountIsExact | double-free/capstone/src/spoolcore/spoolcore.c:102-104 | `count`, the number of occupied slots and the queue length are equal and at most 256, and allocation fails exactly at 256 |
| SpoolModel.RetireTwice | double-free/capstone/src/spoolcore/spoolcore.c:234-243 | Retiring an id twice is retiring it once and reports the error |
| SpoolModel.RetireInv | double-free/capstone/src/spoolcore/spoolcore.c:234-243 | Retiring keeps queue and table in correspondence |
| SpoolModel.NewJobInv | double-free/capstone/src/spoolcore/spoolcore.c:102-105 | Adding a job to a free slot and the tail keeps queue and table in correspondence |
| SpoolModel.NamedIs | double-free/capstone/src/spoolcore/spoolcore.c:111-117 | 0xFFFF names the most-recent job, an id below 256 the job of its own slot, any other id none |
| SpoolModel.RetireDoes | double-free/capstone/src/spoolcore/spoolcore.c:234-243 | Retiring takes that one job out of table and queue, forgets it in the cache and counts one fewer; everything else stays in its place, and an empty slot is an error that changes nothing |
| SpoolModel.RenderDoes | double-free/capstone/src/spoolcore/spoolcore.c:121-127 | A render calls the job's filter once on its whole document, returns what the filter returns, and retires the job |
| SpoolModel.CancelDoes | double-free/capstone/src/spoolcore/spoolcore.c:154-167 | A cancel changes the state of the job it names and nothing else; a recycle changes no job |
| SpoolModel.WorkValue | double-free/capstone/src/spoolcore/spoolcore.c:211-226 | One pump step drops the job it took off the queue, after one call of its filter unless it was cancelled |
| SpoolModel.CallsInOrder | double-free/capstone/src/spoolcore/spoolcore.c:211-232 | Draining a queue without cancelled jobs calls each job's own filter once, on its whole document, in queue order |
| SpoolModel.CallsSkipCancelled | double-free/capstone/src/spoolcore/spoolcore.c:211-232 | A cancelled job adds no call, wherever it is queued, and takes no other away |
| SpoolServer.HandleInv | double-free/capstone/src/spoold/spoold.c:65-131 | Every one of the eight handlers, for every request and transport, keeps the store invariant |
| SpoolServer.Run | double-free/capstone/src/spoold/spoold.c:135-155 | The store invariant holds after every run of requests |
| SpoolServer.HandleTouchesOnlyTarget | double-free/capstone/src/spoold/spoold.c:65-121 | Apart from a flush, a request changes no job but the one its id names |
| SpoolServer.ServeRunsKnown | double-free/capstone/src/spoold/spoold.c:135-155 | A connection runs exactly the requests whose op the table has, in the order sent |
| SpoolServer.ServeEncoded | double-free/capstone/src/spoold/spoold.c:135-155 | For every request sequence and any cut-off tail, sending its encoding runs exactly its valid requests; an unknown op is consumed with its payload and the stream stays in step |
| SpoolRequests.SubmitRequest | double-free/capstone/src/spoold/spoold.c:65-74 | SUBMIT picks its filter by the low four bits, takes the least free id, stores the clamped argument and queues the job last, or answers the error and changes nothing |
| SpoolRequests.RenderRequest | double-free/capstone/src/spoold/spoold.c:76-83 | RENDER makes one filter call on the whole document of the job it names with 256 bytes of room, answers its preview or the error, and the job is gone with the others in their places |
| SpoolRequests.AppendRequest | double-free/capstone/src/spoold/spoold.c:85-88 | APPEND puts the argument behind the document of the job it names when both fit in 2^20 bytes, and changes no other job and nothing else |
| SpoolRequests.AppendToJob | double-free/capstone/src/spoold/spoold.c:85-88 | With an id of the table it is that job whose document grows and no other |
| SpoolRequests.CancelRequest | double-free/capstone/src/spoold/spoold.c:90-94 | CANCEL changes exactly the state of the job it names, and answers OK in any case |
| SpoolRequests.StatusRequest | double-free/capstone/src/spoold/spoold.c:96-103 | STATUS changes nothing and answers the count; with bit 6, on the pipe only, also id, length and state of the most-recent job |
| SpoolRequests.RecycleRequest | double-free/capstone/src/spoold/spoold.c:105-110 | RECYCLE is refused on the network and changes no job |
| SpoolRequests.DupRequest | double-free/capstone/src/spoold/spoold.c:112-121 | DUP is refused on the pipe; on the network a copy of the job it names takes the least free id and is queued last |
| SpoolRequests.FlushRequest | double-free/capstone/src/spoold/spoold.c:123-127 | FLUSH is refused on the pipe; on the network the filter of every uncancelled queued job is called in queue order and nothing is left |
| SpoolRequests.AnswersInOrder | double-free/capstone/src/spoold/spoold.c:135-155 | A stream is answered request by request: each valid op as its handler answers in the store the earlier requests leave, an unknown op with its error, an oversized length with one last error |
| SpoolServer.Dispatch | double-free/capstone/src/spoold/spoold.c:65-131 | Each handler's code does to the pointer-level store, and answers, what the handler function says, with the pipe-only and network-only ops refused on the other transport |
| SpoolServer.JobStatus | double-free/capstone/src/spoolcore/spoolcore.c:198-207 | The summary reports the job count and, when asked, id, length and state of the most-recent job |
| SpoolServer.Serve | double-free/capstone/src/spoold/spoold.c:135-155 | The request loop, over every split of the bytes into non-empty reads, leaves store and replies that depend only on the bytes as a whole, and keeps the store valid |
| Wire.Conn.ReadFull | double-free/capstone/src/spoold/spoold.c:46-54 | Reads exactly `len` bytes when the stream has them, whatever pieces they come in, and otherwise fails having used the stream up |
| Wire.Conn.NextFrame | double-free/capstone/src/spoold/spoold.c:137-146 | Header and payload are cut from the stream at the right places for every fragmentation; an oversized length stops the connection |
| Wire.RequestsRoundTrip | double-free/capstone/src/spoold/spoold.c:137-147 | Encoded requests are read back unchanged and in order |
| Bytes.LittleEndian | stack-overflow/capstone/src/cfgcore/cfgcore.c:21-22 | Scalars are little-endian: the low byte, and the low half, comes first |
| Wire.RequestLayout | double-free/capstone/src/common/protocol.h:29-34 | Where op, flags, id, length and argument stand in the bytes, low byte first; a length over 2^20 stops the reader whatever follows, and missing bytes are no request |
| Wire.KnownKeeps | double-free/capstone/src/spoold/spoold.c:147-151 | Every request whose op the table has is dispatched |
| Wire.KnownSkips | double-free/capstone/src/spoold/spoold.c:147-148 | A request whose op it has not is left out, wherever it comes, and only that |
| Wire.PiecesInOrder | double-free/capstone/src/spoold/spoold.c:38-54 | The bytes of a connection are its pieces in the order they arrive |
| SpoolThreads.Serializable | double-free/capstone/src/spoold/spoold.c:149-151 | In every interleaving of the steps of the pipe thread and the TCP loop, with steps inside a handler too, whenever the lock is free the store is the result of running the logged handlers one at a time in lock-acquisition order, so the invariant holds, and the answers given are exactly those of that serial execution; each thread has run a prefix, in order, of what it was sent |
| SpoolThreads.AnswerAt | double-free/capstone/src/spoold/spoold.c:65-131 | In that execution each request is answered as its handler answers in the store left by the requests before it |
| SpoolThreads.MutualExclusion | double-free/capstone/src/spoold/spoold.c:149-151 | At most one handler is inside the critical section |
| SpoolThreads.AllRan | double-free/capstone/src/spoold/spoold.c:135-218 | When both threads are through, every request with a valid op has been run exactly once |
| SpoolThreads.Progress | double-free/capstone/src/spoold/spoold.c:135-218 | While a thread has work left, some thread can take a step |
| SpoolThreads.AcquireHolds | double-free/capstone/src/spoold/spoold.c:149-150 | Entering the lock moves a request from ahead of its thread to the end of the log, and the steps still to come lead to the serial store and the answer the serial execution gives |
| SpoolThreads.HandlerStepHolds | double-free/capstone/src/spoold/spoold.c:150 | A step inside the lock may tear the store but not what store and answer it is on its way to |
| SpoolSteps.HandlerCompletes | double-free/capstone/src/spoold/spoold.c:65-131 | Each of the eight handlers, run as small steps that read and write the store as it is at that moment, ends, and leaves exactly the store and gives exactly the answer its handler function says |
| SpoolSteps.StatusCompletes | double-free/capstone/src/spoolcore/spoolcore.c:198-207 | The status steps read the count and, when asked, the job in the cache, write nothing, and answer with both |
| SpoolSteps.PumpCompletes | double-free/capstone/src/spoolcore/spoolcore.c:211-243 | The drain loop, whose body edits the list it drains and branches on the state it reads, comes to its end step by step |
| SpoolSteps.RetireRuns | double-free/capstone/src/spoolcore/spoolcore.c:234-243 | The unlink, the cache reset, the slot reset and the two-step count update together are the retire, and what follows goes on from there |
| SpoolSteps.LostUpdate | double-free/capstone/src/spoolcore/spoolcore.c:102-105 | Without the lock the invariant fails: a submit that falls between the reading and the writing of the count of another leaves two queued jobs and a count of one |
| SpoolHistory.DocumentsFollowHistory | double-free/capstone/src/spoolcore/spoolcore.c:83-149 | After any run from the empty store, every job's document is the one the sequence of accepted requests implies |
| SpoolHistory.DocumentAfterRun | double-free/capstone/src/spoolcore/spoolcore.c:83-194 | After any run, every job in the table was made by a request of the run; its document is what that request gave it (the clamped bytes of a submit, or the document its original had at that moment for a dup) followed by every append to it accepted since |
| SpoolHistory.DocumentSinceSubmit | double-free/capstone/src/spoolcore/spoolcore.c:83-149 | For a job last made by a submit, the history gives its initial bytes followed by all accepted appends since |
| SpoolHistory.DocumentSinceCopy | double-free/capstone/src/spoolcore/spoolcore.c:169-194 | For a job last made by a dup, the history gives the original's document at that point followed by all accepted appends since |
| SpoolHistory.JobsWereMade | double-free/capstone/src/spoolcore/spoolcore.c:78-194 | After any run from the empty store, every job in the table was made by a request of that run |
| SpoolHistory.HandleMakes | double-free/capstone/src/spoolcore/spoolcore.c:78-243 | A handler leaves no job in the table that was not there and that its own event did not make |
| SpoolHistory.QueueInSubmissionOrder | double-free/capstone/src/spoolcore/spoolcore.c:25-29 | After any run every queued job was made by a request of the run and the ready queue is in the order of those requests, so that is the order of the calls a flush makes |
| SpoolHistory.HandleQueue | double-free/capstone/src/spoolcore/spoolcore.c:25-57 | A handler either puts the job it makes behind the queue or only takes jobs out; it never reorders |
| SpoolOwnership.RunConserves | double-free/capstone/src/spoolcore/spoolcore.c:59-243 | Over every allowed run in which no flush meets a cancelled job the live blocks are exactly the job, data and meta blocks of the occupied slots, all distinct, and every release hit a live block |
| SpoolOwnership.RunCleanExactly | double-free/capstone/src/spoolcore/spoolcore.c:152-243 | Every release of an allowed run hits a live block if and only if no flush of the run meets a cancelled job |
| SpoolOwnership.CancelledRun | double-free/capstone/src/spoolcore/spoolcore.c:152-232 | Such a run from the empty store: submit, cancel, flush |
| SpoolOwnership.StepWhole | double-free/capstone/src/spoolcore/spoolcore.c:59-243 | Every operation, clean or not, keeps the store valid and an address for each block of each occupied slot, and none makes up for a release that missed |
| SpoolOwnership.StepConserves | double-free/capstone/src/spoolcore/spoolcore.c:59-243 | Each allowed operation, a cancel among them, conserves that ownership, whatever free addresses the allocator hands out, unless it is a flush that meets a cancelled job |
| SpoolOwnership.PumpConserves | double-free/capstone/src/spoolcore/spoolcore.c:228-243 | A flush with no cancelled job queued releases every block once and leaves none live |
| SpoolOwnership.FlushCleanExactly | double-free/capstone/src/spoolcore/spoolcore.c:211-232 | A flush releases each block exactly once if and only if no queued job is cancelled |
| SpoolOwnership.RetireOwnedTwice | double-free/capstone/src/spoolcore/spoolcore.c:234-243 | The second retire of an id releases nothing |
| CfgFormat.RoundTrip | stack-overflow/capstone/src/common/cprof.h:28-46 | Serialising any list within the limits, plus any trailing bytes, parses to the same names, types and values in order |
| CfgFormat.AcceptsOnlySerialized | stack-overflow/capstone/src/cfgcore/cfgcore.c:54-108 | Conversely, whatever is accepted is the serialisation of what was read from it, followed by the bytes left over |
| CfgFormat.PrefixIsTruncated | stack-overflow/capstone/src/cfgcore/cfgcore.c:56-83 | Every strict prefix of the bytes an accepted bundle consumes is reported as truncated |
| CfgFormat.ExtensionIsIgnored | stack-overflow/capstone/src/cfgcore/cfgcore.c:69-107 | Bytes appended to an accepted bundle do not change the result |
| CfgFormat.EntriesCut | stack-overflow/capstone/src/cfgcore/cfgcore.c:69-103 | Cutting an accepted entry list inside it gives the truncation error, cutting after it changes nothing |
| CfgLayout.HeaderDecides | stack-overflow/capstone/src/cfgcore/cfgcore.c:54-63 | Which status a header gets, in this order: under 12 bytes -3, not CPRF -1, not version 1 -2, over 4096 entries -4; otherwise the entries from byte 12 decide |
| CfgLayout.OtherVersion | stack-overflow/capstone/src/cfgcore/cfgcore.c:62 | A bundle of any version but 1 is refused with -2 whatever follows |
| CfgLayout.EntryLayout | stack-overflow/capstone/src/common/cprof.h:38-43 | Where name length, name, type, value length and value stand in the bytes of an entry, whatever follows it |
| CfgLayout.ListLayout | stack-overflow/capstone/src/cfgcore/cfgcore.c:69-103 | Entries are read one after the other, in order, as many as the header counts |
| CfgLayout.LongName | stack-overflow/capstone/src/cfgcore/cfgcore.c:72 | A name length over 1024 gives the limit status, even when nothing follows it |
| CfgLayout.LongValue | stack-overflow/capstone/src/cfgcore/cfgcore.c:80-82 | A value length over 2^20 gives the limit status, even when the value is not there |
| CfgLayout.CutEntry | stack-overflow/capstone/src/cfgcore/cfgcore.c:70-83 | Every strict prefix of a good entry gives the truncation status |
| CfgLayout.BadBundle | stack-overflow/capstone/src/cfgcore/cfgcore.c:69-83 | After any good entries, fewer than the header counts, a bad entry decides the status of the bundle |
| CfgProfile.CfgParseBlob | stack-overflow/capstone/src/cfgcore/cfgcore.c:54-108 | For every input and every pattern of allocation failures: 0 means the profile holds exactly the entries the bytes say, `count` is the header's, and exactly the profile's blocks are newly live, each once; failure gives every block back and leaves `*out`; a status other than out-of-memory (-5) is the one the bytes determine, which `CfgLayout` spells out |
| CfgProfile.ParsedEntries | stack-overflow/capstone/src/cfgcore/cfgcore.c:85-102 | Entry by entry, in order: name, type and length as read, and the value bytes of every type but 3 |
| CfgProfile.ReadEntry | stack-overflow/capstone/src/cfgcore/cfgcore.c:69-83 | One iteration's checks read the entry the format defines, with `off <= len` throughout; in size_t arithmetic no sum wraps while `len` leaves 2^20 below the top |
| CfgProfile.BuildEntry | stack-overflow/capstone/src/cfgcore/cfgcore.c:85-101 | An entry's allocations either all succeed and are owned by it, or those made are given back |
| CfgProfile.AddEntry | stack-overflow/capstone/src/cfgcore/cfgcore.c:85-102 | The new entry is the last of the list and its blocks join the profile's; on failure nothing changed |
| CfgProfile.CfgProfile.AppendEntry | stack-overflow/capstone/src/cfgcore/cfgcore.c:25-30 | Walking to the tail and linking there appends the entry and counts it |
| CfgProfile.CfgFree | stack-overflow/capstone/src/cfgcore/cfgcore.c:192-203 | Frees every block of the profile, each live when its turn comes, and nothing else |
| CfgPeek.WalkersAgree | stack-overflow/capstone/src/cfgsvcd/cfgsvcd.c:67-86 | On every bundle the parser accepts, the peek succeeds exactly when the list has a blob, and its slice is the value of the first one |
| CfgPeek.PeekFirstBlob | stack-overflow/capstone/src/cfgsvcd/cfgsvcd.c:67-86 | The walk computes that slice for every payload when size_t is wide, and for every accepted bundle when it is 32 bits |
| CfgLayout.PeekLayout | stack-overflow/capstone/src/cfgsvcd/cfgsvcd.c:73-84 | The second walker steps over entries of any size and stops at the first of type 2 with the place and length of its value; it checks no limit |
| CfgLayout.PeekEnds | stack-overflow/capstone/src/cfgsvcd/cfgsvcd.c:73-86 | It finds nothing when the count is used up, and nothing in what is too short for the entry it announces |
| CfgLayout.PeekStarts | stack-overflow/capstone/src/cfgsvcd/cfgsvcd.c:69-73 | It starts at byte 12 with the count of any twelve bytes, right or wrong magic and version |
| CfgTemplate.ExpandTemplate | stack-overflow/capstone/src/cfgcore/cfgcore.c:216-243 | Computes exactly the first 511 bytes of the unbounded expansion and a NUL; an entry without a value is an error |
| CfgTemplate.FindEntry | stack-overflow/capstone/src/cfgcore/cfgcore.c:33-39 | Returns the entry `Find` says, whose name it has, or NULL when there is none |
| CfgTemplate.FindIs | stack-overflow/capstone/src/cfgcore/cfgcore.c:33-39 | The entry found is the first that has exactly the name; there is none exactly when no entry has it |
| CfgTemplate.CStrIs | stack-overflow/capstone/src/cfgcore/cfgcore.c:36 | A name is compared up to its first NUL, no further and no less |
| CfgTemplate.ValueIs | stack-overflow/capstone/src/cfgcore/cfgcore.c:230-236 | A reference gives the value bytes of the first entry with the name, and nothing when that has no value or there is none |
| CfgTemplate.CopyReference | stack-overflow/capstone/src/cfgcore/cfgcore.c:231-236 | Copies as much of the referenced value as fits; a missing or valueless name gives nothing |
| CfgTemplate.ReferenceIsVerbatim | stack-overflow/capstone/src/cfgcore/cfgcore.c:226-239 | A reference gives its value's raw bytes: text that looks like a reference is not expanded again |
| CfgTemplate.ExpandReference | stack-overflow/capstone/src/cfgcore/cfgcore.c:226-239 | A reference, up to its first close brace, is replaced by its value and the scan goes on behind the brace |
| CfgTemplate.ExpandLiteral | stack-overflow/capstone/src/cfgcore/cfgcore.c:226-242 | A byte that opens no closed reference stands for itself |
| CfgTemplate.ExpandUnclosed | stack-overflow/capstone/src/cfgcore/cfgcore.c:226-242 | Text without a close brace, open references and all, expands to itself |
| CfgTemplate.ExpandConcat | stack-overflow/capstone/src/cfgcore/cfgcore.c:226-242 | Expansion distributes over concatenation when no reference is left open in the first part and the join does not make one |
| CfgTemplate.ConcatNeedsBoth | stack-overflow/capstone/src/cfgcore/cfgcore.c:226-242 | Neither of those two conditions can be dropped |
| CfgTemplate.FindIsStable | stack-overflow/capstone/src/cfgcore/cfgcore.c:33-39 | A name once found keeps its contents whatever is appended |
| CfgTemplate.ExpandIsStable | stack-overflow/capstone/src/cfgcore/cfgcore.c:216-243 | A template whose references all resolve expands to the same bytes whatever is appended |
| CfgService.StoreIsConcatenation | stack-overflow/capstone/src/cfgcore/cfgcore.c:174-190 | The live store is the concatenation, in order, of all accepted pushes |
| CfgService.PushedIs | stack-overflow/capstone/src/cfgcore/cfgcore.c:174-190 | A rejected push adds nothing; an accepted one adds its entries one by one, in order, with type, length and value as they were and the name up to its first NUL |
| CfgService.HistoryIsStable | stack-overflow/capstone/src/cfgsvcd/cfgsvcd.c:119-141 | Found names and resolved templates keep their contents and expansion through every later push history |
| CfgService.CopiesFindTheSame | stack-overflow/capstone/src/cfgcore/cfgcore.c:174-190 | The copies a merge makes are found under the same names with the same contents |
| CfgService.CopiesExpandTheSame | stack-overflow/capstone/src/cfgcore/cfgcore.c:174-243 | A template expands in a merged copy of a bundle as in the bundle itself |
| CfgService.CfgMerge | stack-overflow/capstone/src/cfgcore/cfgcore.c:174-190 | Copies of every entry, in order, at the tail of the store; the source list is unchanged and each list owns its own blocks |
| CfgService.HandlePush | stack-overflow/capstone/src/cfgsvcd/cfgsvcd.c:132-140 | An accepted bundle's entries are added and its own blocks all released; a rejected one changes nothing; nothing leaks either way |
| CacheStore.Cache.CacheInsertEmpty | heap-overflow/capstone/src/cachecore/cachecore.c:71-81 | A new store becomes the newest of the log and the head of bucket hash mod bucket count, for every bucket count and hash, and is counted |
| CacheStore.Cache.CacheSet | heap-overflow/capstone/src/cachecore/cachecore.c:83-97 | The newest store under the key has exactly the given bytes |
| CacheStore.Cache.CacheStoreFast | heap-overflow/capstone/src/cachecore/cachecore.c:100-104 | Replaces the value of that one store and moves no entry |
| CacheStore.Cache.CacheGetRaw | heap-overflow/capstone/src/cachecore/cachecore.c:117-123 | Returns the newest surviving store under exactly that key, or NULL when there is none |
| CacheStore.Cache.CacheDel | heap-overflow/capstone/src/cachecore/cachecore.c:129-143 | Only the newest store under the (normalised) key goes; not-found exactly when there was none; the count follows the log |
| CacheStore.Cache.Unlink | heap-overflow/capstone/src/cachecore/cachecore.c:132-136 | Splicing one chain through the pointer-to-pointer leaves every other chain as it was |
| CacheStore.Cache.CacheFree | heap-overflow/capstone/src/cachecore/cachecore.c:59-67 | Every entry of the table is released once, and nothing else |
| CacheStore.DeleteUncovers | heap-overflow/capstone/src/cachecore/cachecore.c:125-144 | Deleting uncovers the next older store under the key and leaves every other key's stores alone |
| CacheStore.NewestIsFirst | heap-overflow/capstone/src/cachecore/cachecore.c:117-123 | A lookup sees the first of the stores under its key |
| CacheStore.UnderIs | heap-overflow/capstone/src/cachecore/cachecore.c:117-123 | The stores under a key are those of the log with exactly that key, in the log's order |
| CacheStore.ChainNewest | heap-overflow/capstone/src/cachecore/cachecore.c:119-121 | Searching the key's chain is searching the whole log |
| CacheStore.ChainDelete | heap-overflow/capstone/src/cachecore/cachecore.c:129-136 | Deleting from the log is deleting from the key's chain only |
| CacheStore.ChainsCover | heap-overflow/capstone/src/cachecore/cachecore.c:61-64 | The chains of all buckets together hold exactly the log's stores |
| Fnv.StepBijective | heap-overflow/capstone/src/cachecore/cachecore.c:17-21 | Each hash step is a bijection on 32-bit states, with the inverse multiplier 899433627 |
| Fnv.OneByteApart | heap-overflow/capstone/src/cachecore/cachecore.c:17-21 | Equal-length keys that differ in one byte never share a 32-bit hash |
| Fnv.HashInjective | heap-overflow/capstone/src/cachecore/cachecore.c:17-21 | Different states stay different through every common suffix |
| Fnv.HashStr | heap-overflow/capstone/src/cachecore/cachecore.c:17-21 | The accumulator loop, from 2166136261, is the fold of the step over the key |
| Fnv.StepMovesByPrime | heap-overflow/capstone/src/cachecore/cachecore.c:19 | The exclusive or comes before the multiplication: flipping the last bit of a byte moves the state by the prime 16777619 |
| Fnv.FirstHashes | heap-overflow/capstone/src/cachecore/cachecore.c:17-21 | The empty key hashes to 2166136261 and "a" to 0xE40C292C |
| Fnv.HashConcat | heap-overflow/capstone/src/cachecore/cachecore.c:19 | The bytes are taken in from left to right |
| Fnv.XorBits | heap-overflow/capstone/src/cachecore/cachecore.c:19 | The exclusive or is bit by bit |
| Hex.CodecApply | heap-overflow/capstone/src/codecs/codec_hex.c:14-24 | Decodes pairs until the text ends, a pair is not hex, or the buffer is full; writes at most min(out_cap, in_len / 2) bytes and leaves the rest of the buffer alone |
| Hex.DecodeInvertsEncode | heap-overflow/capstone/src/codecs/codec_hex.c:14-24 | From any spelling of a byte string, digits in any mixture of cases, the decoder recovers as many bytes as fit |
| Hex.DecodesUnique | heap-overflow/capstone/src/codecs/codec_hex.c:14-24 | The stopping rule determines the output |
| Hex.EncodeSpells | heap-overflow/capstone/src/codecs/codec_hex.c:7-12 | Base16 encoding in either case is such a spelling |
| Hex.DigitsExactly | heap-overflow/capstone/src/codecs/codec_hex.c:7-12 | A character has value v exactly when it is the upper- or lower-case digit of v |
| Hex.DigitTable | heap-overflow/capstone/src/codecs/codec_hex.c:7-12 | The digits are 0123456789abcdef and 0123456789ABCDEF, each worth its place |
| Hex.NotADigit | heap-overflow/capstone/src/codecs/codec_hex.c:7-12 | No other byte is a digit |
| Hex.StopsAt | heap-overflow/capstone/src/codecs/codec_hex.c:14-24 | The decoder stops at the first pair that is not two digits; before it each byte has the first digit high and the second low |
| SessDrivers.ReplayIsServe | use-after-free/capstone/src/sessreplay/sessreplay.c:54-99 | For every op-log, whole or cut short, and any handlers: when no record parts the two drivers in the state the server reaches, the replay leaves table, most-recent reference, buffers and deferred batch as one TCP connection sending the same records does |
| SessDrivers.ReplayIsServeExactly | use-after-free/capstone/src/sessreplay/sessreplay.c:54-99 | The two drivers agree after every prefix of a log if and only if no record of it parts them |
| SessDrivers.PartingShows | use-after-free/capstone/src/sessreplay/sessreplay.c:73-77 | When a record parts them, there is a prefix of the log after which the two stores differ |
| SessDrivers.FailingLogParts | use-after-free/capstone/src/sessreplay/sessreplay.c:73-77 | A concrete log of two records, with a handler that reports an error, leaves one captured pointer after the replay and none after the server |
| SessDrivers.NoErrorsNoneParts | use-after-free/capstone/src/sessiond/sessiond.c:77-90 | When no plugin can report an error, no record of any log parts the drivers |
| SessDrivers.ShippedLogs | use-after-free/capstone/src/sessreplay/sessreplay.c:54-99 | With the handlers that ship, replaying any well-formed log on a fresh store is sending it to a fresh server |
| SessDrivers.LogIsConnection | use-after-free/capstone/src/sessreplay/sessreplay.c:54-99 | For every well-formed log up to the record limit and any handlers, the replay on a fresh store is where a fresh server would be after every record, if and only if no record parts the two |
| SessDrivers.RecordsAgreeExactly | use-after-free/capstone/src/sessiond/sessiond.c:77-103 | Record by record, for any handlers, the two drivers agree if and only if the record is not a deferring run of an existing session whose handler reports an error while the batch has room |
| SessRequests.OpenRequest | use-after-free/capstone/src/sessiond/sessiond.c:65-75 | OPEN picks its handler by the low four bits, takes the least free handle, stores the clamped argument and becomes the most recent, or changes nothing |
| SessRequests.RunRequest | use-after-free/capstone/src/sessiond/sessiond.c:77-90 | USE_RUN changes no session; the session is captured exactly when the top bit asks for it, the handler, given the argument and 256 bytes, reports no error, and there is room |
| SessRequests.RunRecord | use-after-free/capstone/src/sessreplay/sessreplay.c:73-77 | In the replay the same, whatever the handler reports |
| SessRequests.SetRequest | use-after-free/capstone/src/sessiond/sessiond.c:92-103 | USE_SET stores what fits, captures the session with its new length when asked, and leaves every other session and capture |
| SessRequests.AppendRequest | use-after-free/capstone/src/sessiond/sessiond.c:105-108 | USE_APPEND leaves the session with what `AfterAppend` says and touches no other session, handle or capture |
| SessRequests.CloseRequest | use-after-free/capstone/src/sessiond/sessiond.c:110-123 | CLOSE frees exactly the handle it names; STAT changes nothing |
| SessRequests.FlushRequest | use-after-free/capstone/src/sessiond/sessiond.c:125-128 | FLUSH writes the argument into every captured buffer up to its greatest captured length, empties the batch and changes nothing else |
| SessRequests.StreamStep | use-after-free/capstone/src/sessiond/sessiond.c:135-156 | The server takes the stream request by request; an op over 6 is skipped with its argument |
| SessRequests.StreamEnds | use-after-free/capstone/src/sessiond/sessiond.c:139-146 | What is no whole request, or one that is too long, ends connection and replay without a change |
| SessRequests.RecordStep | use-after-free/capstone/src/sessreplay/sessreplay.c:54-99 | The replay takes record after record, as many as the header counts; an op over 6 is skipped |
| SessDrivers.ShippedNoErrors | use-after-free/capstone/src/handlers/handler_calc.c:8-15 | The two handlers that ship never report an error |
| SessDrivers.CalcOfAb | use-after-free/capstone/src/handlers/handler_calc.c:8-15 | The calc handler answers sum=195 to the bytes of ab |
| SessDrivers.HandlersKept | use-after-free/capstone/src/sessiond/sessiond.c:65-75 | Every session's handler came from the plugin table, over every request |
| SessDrivers.Serve | use-after-free/capstone/src/sessiond/sessiond.c:135-156 | The TCP request loop computes the connection function for every fragmentation of the bytes |
| SessDrivers.ReplayFile | use-after-free/capstone/src/sessreplay/sessreplay.c:41-99 | The replay rejects exactly the files with a bad header or too large a count, and otherwise runs the record loop on a fresh store |
| SessDrivers.Dispatch | use-after-free/capstone/src/sessiond/sessiond.c:65-131 | Each TCP handler defers only after a successful use |
| SessDrivers.Replay | use-after-free/capstone/src/sessreplay/sessreplay.c:68-97 | Each replay case defers whatever the use returned; unknown ops are skipped |
| SessStore.SessTable.TableInvariant | use-after-free/capstone/src/sesscore/sesscore.c:17-147 | In every valid store, read off the pointers: each session in the handle table has its handle as id, `count` is the number of non-NULL handles, no session is longer than its block, no two sessions share a block, and every captured pointer is to a block at least as long as the captured length |
| SessStore.SessTable.SessOpen | use-after-free/capstone/src/sesscore/sesscore.c:44-67 | At pointer level: scan for the least NULL handle, allocate a block and a session, link both into table and most-recent reference; without a handler or a handle nothing changes (`SessModel.OpenAccepts` says what that amounts to) |
| SessStore.SessTable.SessGet | use-after-free/capstone/src/sesscore/sesscore.c:71-77 | Returns the most-recent session for 0xFFFF, the session object in its own slot for a handle below 256 and NULL for any other; whichever it is becomes the most recent (`SessModel.NamedIs`, `GetRemembers`) |
| SessStore.SessTable.SessUseSet | use-after-free/capstone/src/sesscore/sesscore.c:88-95 | Writing through the session's block pointer and setting its length changes the one buffer that session owns; every other pointer still reads what it read (`SessModel.UseSetWrites`) |
| SessStore.SessTable.SessUseAppend | use-after-free/capstone/src/sesscore/sesscore.c:97-111 | The block may stay, grow in place or move; the argument is written through the pointer saved before that, as the code does, and captured pointers keep naming the block they named (`SessModel.UseAppendWrites`) |
| SessStore.SessTable.SessClose | use-after-free/capstone/src/sesscore/sesscore.c:115-124 | The handle is cleared and counted off; the most-recent reference and the captured pointers stay (`SessModel.CloseForgets`) |
| SessStore.SessTable.SessDefer | use-after-free/capstone/src/sesscore/sesscore.c:141-147 | The batch captures the block pointer and length of an existing session while it has room (`SessModel.DeferCaptures`) |
| SessStore.SessTable.SessFlush | use-after-free/capstone/src/sesscore/sesscore.c:149-157 | Writing through the captured pointers one by one leaves the buffers that `SessModel.FlushWrites` describes and an empty batch, although several entries may name one block |
| SessModel.OpenAccepts | use-after-free/capstone/src/sesscore/sesscore.c:44-67 | SessOpen succeeds exactly when there is a handler and fewer than 256 sessions; the handle is the least free one, the session holds the clamped bytes and is the most recent, and every other session, buffer, handle and capture is as it was |
| SessModel.GetRemembers | use-after-free/capstone/src/sesscore/sesscore.c:71-77 | What a handle finds the most-recent sentinel finds next, and no lookup changes what another handle names |
| SessModel.NamedIs | use-after-free/capstone/src/sesscore/sesscore.c:71-77 | 0xFFFF names the most-recent session, a handle below 256 the session of its own slot, anything else none |
| SessModel.UseRunCalls | use-after-free/capstone/src/sesscore/sesscore.c:81-86 | The session's own handler is called with the argument itself, and its result is returned |
| SessModel.UseSetWrites | use-after-free/capstone/src/sesscore/sesscore.c:88-95 | An existing session then holds as much of the argument as its buffer takes and the rest of the buffer stays; no other session, handle or capture changes |
| SessModel.UseAppendWrites | use-after-free/capstone/src/sesscore/sesscore.c:97-111 | What the session holds after an append in every case: room, growth in place, a move, a refusal, and a length that wraps at 2^32; no other session, handle or capture changes |
| SessModel.UseAppendLengths | use-after-free/capstone/src/sesscore/sesscore.c:97-111 | A refused growth changes no session; a success has the true length while it fits in 32 bits, with the old contents in front; a longer one is the old contents cut to what wrapped |
| SessModel.MovedLeaves | use-after-free/capstone/src/sesscore/sesscore.c:97-111 | The block moved away from keeps the old contents and takes as much of the argument as it has room for |
| SessModel.AppendsUnderEveryAllocator | use-after-free/capstone/src/sesscore/sesscore.c:97-111 | An append that reports success has appended, whatever the allocator does, if and only if the buffer has room for the argument |
| SessModel.MovedAppend | use-after-free/capstone/src/sesscore/sesscore.c:97-111 | A concrete failing input: one byte appended to a full buffer of 32 under a realloc that moves; success is reported and the new block's own byte stands where the argument should |
| SessModel.AppendsExactly | use-after-free/capstone/src/sesscore/sesscore.c:97-111 | Outcome by outcome of realloc: the argument ends up behind the old contents if and only if the length fits in 32 bits and the buffer has room, grows in place, or moves to a block that happens to hold the argument there already |
| SessModel.CloseForgets | use-after-free/capstone/src/sesscore/sesscore.c:115-124 | A close frees one handle, once: every other handle and the most-recent sentinel still name what they named, and closing it again is an error that changes nothing |
| SessModel.DeferCaptures | use-after-free/capstone/src/sesscore/sesscore.c:141-147 | A capture is added exactly when the session exists and fewer than 64 are held, and no session changes |
| SessModel.DeferThenFlush | use-after-free/capstone/src/sesscore/sesscore.c:141-157 | After a capture with room, a flush leaves the session with the argument as far as its length at the capture goes and its own bytes after that, whatever else was captured |
| SessModel.FlushWrites | use-after-free/capstone/src/sesscore/sesscore.c:149-157 | However often and in whatever order a buffer was captured, a flush leaves it with the argument up to the greatest captured length and its own bytes after that |
| SessModel.FlushIgnoresOrder | use-after-free/capstone/src/sesscore/sesscore.c:149-157 | Flushing depends on which pointers and lengths were captured, not on their order or repetition |

## Left out

- SpoolOwnership.RunConserves: its runs leave out recycle, dup, buffer growth and the consuming text filter, whose releases do not follow slot ownership; `RunCleanExactly` gives the exact condition for flushes over cancelled jobs.
- SpoolOwnership.StepConserves: covers the same operations as RunConserves.
- SpoolStore.SpoolTable.JobSubmit: allocation is taken to succeed, as in all of spoolcore.c and sesscore.c; only the bundle parser is proved under allocation failure.
- SpoolStore.SpoolTable.JobRecycle: the kept buffer is not modelled; a second recycle releases it, even when the job it belongs to is still in the table.
- SpoolHistory.DocumentAfterRun: follows runs with several recycles at value level only, where a buffer that a recycle has released keeps its bytes.
- SpoolStore.SpoolTable.JobDup: the metadata is copied as bytes; that the two jobs share one block is outside the value model.
- SpoolStore.SpoolTable.JobAppend: realloc succeeds, and the release of the block it moved from is not tracked.
- SpoolStore.SpoolTable.JobWork: that a cancelled job is released once more by the retire has no effect on values; `SpoolOwnership.RunCleanExactly` accounts for it.
- SpoolThreads.Serializable: outside the lock, a thread's reads are its own connections' bytes; accept, pipe creation, sending an answer and the answers to requests that reach no handler are not steps of the state machine.
- SpoolSteps.HandlerCompletes: the ready queue is read and written as a whole list; its links are in SpoolStore.
- CfgProfile.CfgParseBlob: the decoded number of an integer entry is left unconstrained, and data and out are never NULL pointers.
- CfgPeek.PeekFirstBlob: with a 32-bit size_t it is stated for accepted bundles only, since on others its unchecked value length can wrap an offset.
- CfgTemplate.ExpandTemplate: stops at `resolved`; the copy into the caller's line buffer is not modelled.
- CfgService.CfgMerge: allocations are taken to succeed, and store and pushed profile are different lists, as they are in handle_push.
- CfgService.HandlePush: the scratch copy of the previewed blob and the discarded template expansions are not modelled.
- CacheStore.Cache.CacheInsertEmpty: the entry's allocation is taken to succeed.
- CacheStore.Cache.CacheFree: releases are counted per entry; its key and value blocks are not told apart.
- CacheStore.Cache.CacheSet: the value's allocation is taken to succeed; inline and heap storage of a value are not told apart; a value is its bytes.
- CacheStore.Cache.CacheStoreFast: for values of at most 64 bytes.
- CacheStore.Cache.CacheDel: the key is taken as normalised.
- SessStore.SessTable.SessOpen: its two allocations are taken to succeed.
- SessStore.SessTable.SessUseAppend: how realloc grows a block is a parameter, and the part of a copy that falls outside its block has no modelled effect.
- SessDrivers.ReplayIsServe: the TCP side only; the pipe connection's cached current session is not modelled.
- Reuse of released blocks by the allocator, except in the ownership results, where any free address may be handed out again.
- NULL table, key and profile arguments of the exported functions, which the model's types exclude.
- Key normalisation and the lookups that use it (CfgLookup, CacheGet, handle_get), label and line formatting, and the snapshot id decoder.
- spoolc, cacheload, cached, cfgapply, regimport, the providers, DLL loading, sockets, pipes and printing.
- The exhibit variants, their listings and the build scripts.
