# Verified models of an IM and file server

The server is built on the muduo reactor (`base/`, `net/`), an HTTP library (`FileServer/httplib.h`) and a few codecs of
its own. This project models its algorithmic cores in Dafny and proves what they are for. `dafny verify dfyconfig.toml`
checks everything.

| file | what it models |
|---|---|
| `Calendar.dfy`, `TimeZone.dfy` | Julian days, broken-down time, UTC/local conversion with gaps and folds |
| `EventLoop.dfy` | the reactor's wakeup protocol, over all interleavings |
| `LogStream.dfy`, `AsyncLogging.dfy` | the log buffer, and the asynchronous logger's double buffering over all interleavings |
| `BlockingQueue.dfy` | the bounded queue and the thread pool's queue: two condition variables, notify-one |
| `ThreadPool.dfy` | the pool's workers around that queue |
| `Levenshtein.dfy` | edit distance by table, against minimal edit scripts |
| `Md5.dfy` | the MD5 transform, streaming MD5 against the one-shot definition, and what both compute in bits and numbers |
| `BatchAllocator.dfy` | free list and bump-pointer pages |
| `Multipart.dfy` | incremental extraction of a multipart body |
| `PercentCoding.dfy`, `QueryString.dfy`, `QueryExact.dfy` | percent-encoding and query strings, what their tables stand for, and exactly which parameters survive |
| `Chunked.dfy`, `ChunkedWriter.dfy`, `DecimalChunks.dfy` | chunked transfer coding, its numbers and trailers, the library's writer, and the file server's two ways of writing it |
| `Connector.dfy` | the client connector's state machine |
| `NetworkOrder.dfy`, `Buffer.dfy` | network byte order and the network byte buffer |
| `BinaryCodec.dfy`, `BinaryReach.dfy` | the binary wire format, and how far its 32-bit index reaches |
| `Bytes.dfy` | bytes, concatenation and positions in byte strings |

## How to read the models

Code that changes objects step by step is a class or a method with loops whose contract ties it to a function on values;
the properties are lemmas about that function. Protocols between threads are state machines: `Enabled` and `Apply` give
the atomic steps (one stretch under a lock, one write of an eventfd, one callback), a run is any sequence of states
joined by steps, and the results hold at every point of every run. System calls, the kernel, `malloc`, the clock and the
callbacks of users are parameters or nondeterministic steps.

Integers are unbounded; where the width of the code's integers matters (truncating division, the 64-bit bit counter of
MD5 and its 32-bit loop index, `strtoul`, the 31-bit length of a string, the 32-bit index of the binary reader and writer,
the eventfd counter) it is written out.

Where a property that one would expect is false of the code, the code is kept and the exact condition is proved:

* A local time is converted back to the second it came from except in folds; the folds at the first and at the last
  transition always resolve to the later half (`TimeZone.RoundTripExactly`, `TimeZone.FoldsAtTheEndsAreLost`).
* A functor queued by the owner thread outside `loop()` is noticed by the next poll only if a wakeup is on its way for
  another reason, and only such functors are ever missed (`EventLoop.PushBeforeLoop`,
  `EventLoop.OnlyOutsidePushesAreMissed`).
* A `BoundedBlockingQueue` of capacity 0 deadlocks, and only that one (`BlockingQueue.NoLostWakeup`,
  `BlockingQueue.CapacityZeroDeadlocks`).
* `MD5::digest` never uses its cached result, and it destroys the buffered tail when 56 or more bytes are pending
  (`Md5.MD5.Digest`). A single `update` of about 2^32 bytes or more loops for ever (`Md5.LoopNeverEnds`).
* The batch allocator stays inside its pages exactly when the step divides the page (`BatchAllocator.InsideExactlyWhenDividing`).
* The opening boundary of a multipart body is found only if one single piece of input contains it whole
  (`Multipart.FeedInitial`).
* Writing and parsing a query string gives the entries back exactly if none is repeated and every key is non-empty, free
  of separators and leading blanks and its own decoding (`QueryExact.QueryExactly`).
* A content provider whose call ends with an empty write ends the chunked body without its last chunk
  (`ChunkedWriter.ProviderExactly`).
* The decimal chunk sizes of `sendChunkedData` are read back exactly for files shorter than ten bytes
  (`DecimalChunks.DecimalRoundTripExactly`).
* A retry timer or a restart that overtakes the deferred channel reset meets a live channel, and then the assert in
  `connecting` fails exactly if a connection is still wanted and gets under way (`Connector.EventKeeps`,
  `Connector.RunFailsExactly`).
* The index of `BinaryWriter` and `BinaryReader` wraps at 2^32: fields are read back whatever their values exactly if the
  data of each starts below 2^32 (`BinaryReach.ReachExactly`).
* A call of `quit()` before `loop()` is forgotten (`EventLoop.QuitExactly`).
* `BinaryWriter::operator=` leaves the index at 0, and a value not in network order comes back only if its bytes read the
  same both ways (`BinaryCodec.BinaryWriter.Assign`, `BinaryCodec.HostOrderExactly`).

## Model

| member | source | states |
|---|---|---|
| `Calendar.DateRoundTrip` | base/Date.cc:21-43 | a calendar date is recovered from its day number if and only if it is not before -4800-03-01 (over unbounded integers; the code's `int` reaches to day 536838867) |
| `Calendar.DayNumberRoundTrip` | base/Date.cc:21-43 | a day number gives a calendar date if and only if it is at least -32044, and then the date gives it back |
| `Calendar.BelowFirstDay` | base/Date.cc:30-43 | below day -32044 truncating division makes the day of the month non-positive |
| `Calendar.NextDayAddsOne` | base/Date.cc:21-28 | consecutive days of the Gregorian calendar have consecutive day numbers |
| `Calendar.OverflowBound` | base/Date.cc:30-43 | from the first day on, no intermediate value leaves 32 bits exactly up to day 536838867 |
| `Calendar.RoundTripWithoutOverflow` | base/Date.cc:21-43 | for every date from -4800-03-01 to that of day 536838867 neither conversion leaves 32 bits at any intermediate value, and they undo each other |
| `Calendar.EpochDay` | base/Date.cc:45 | the day numbers of 1970-01-01 and of -4800-03-01 |
| `TimeZone.BreakTimeParts` | base/TimeZone.cc:285-312 | `BreakTime` gives the date of the floored day and a time of day that adds up to the remaining seconds, for negative times too |
| `TimeZone.SecondsRoundTrip` | base/TimeZone.cc:293-312 | `fromUtcTime` undoes `BreakTime` for every second from day -32044 on, and without leaving 32 bits up to the last second of day 536838867 |
| `TimeZone.DateTimeRoundTrip` | base/TimeZone.cc:498-504 | `BreakTime` undoes `fromUtcTime` for every valid date and time of that range |
| `TimeZone.Data.AddLocalTime` | base/TimeZone.cc:49-52 | appends one local time and keeps the table consistent |
| `TimeZone.Data.AddTransition` | base/TimeZone.cc:54-58 | appends a transition with its local time; an index outside the table fails and changes nothing |
| `TimeZone.UpperBoundSearch` | base/TimeZone.cc:340-341 | the binary search finds the first key greater than the given one |
| `TimeZone.KeysAscending` | base/TimeZone.cc:370-371 | a well-spaced table is sorted by UTC time and by local time, so both searches are defined |
| `TimeZone.FindAtUtc` | base/TimeZone.cc:318-356 | the offset found for a UTC second is that of the segment holding it |
| `TimeZone.FindAtLocal` | base/TimeZone.cc:358-430 | which segment the skip/repeat/unique branches choose for the local time of a second |
| `TimeZone.RoundTripExactly` | base/TimeZone.cc:461-491 | `fromLocalTime(toLocalTime(t), p)` is `t` if and only if: in the earlier half of a fold, `p` is false and the fold is not at the first or last transition; in the later half, `p` is true or the fold is at the first or last transition (the code's calendar reaches to day 536838867) |
| `TimeZone.FoldsAtTheEndsAreLost` | base/TimeZone.cc:374-426 | a table with a fold at its first and one at its last transition: the second before either never comes back, whichever reading is asked for |
| `TimeZone.FindsPreimage` | base/TimeZone.cc:480-491 | whenever some second has the given local time, `fromLocalTime` returns one that has it |
| `TimeZone.GapResolution` | base/TimeZone.cc:392-404 | a local time in a gap belongs to no second, and is read with the offset after the gap if asked for and the gap is not at the first transition, otherwise with the one before |
| `TimeZone.LocalRoundTripExactly` | base/TimeZone.cc:461-491 | `toLocalTime(fromLocalTime(dt, p))` is `dt`, for either `p`, if and only if `dt` is not in a gap |
| `TimeZone.OutsideGaps` | base/TimeZone.cc:358-430 | every local time outside gaps is that of some second |
| `EventLoop.StepKeepsWakeup` | net/EventLoop.cc:160-171 | every step of every thread keeps: functors pending outside handling means a wakeup is written or owed |
| `EventLoop.StepKeepsQueue` | net/EventLoop.cc:254-269 | every step keeps: what was queued is what ran, then the rest of the batch, then what is pending |
| `EventLoop.NoLostWakeup` | net/EventLoop.cc:103-171 | at every point of every run in which the owner queues only inside `loop()`: no blocking poll with functors pending and no wakeup written or owed; a reported wakeup can be read; functors run in queue order, at most once, and later than the batch that queued them |
| `EventLoop.IterationDrains` | net/EventLoop.cc:254-269 | once poll has returned, the batch runs everything queued up to its swap |
| `EventLoop.FullIteration` | net/EventLoop.cc:111-130 | whatever poll returned for, an undisturbed turn takes exactly one batch, runs all that was queued once and in order, uses up the wakeups if they were reported, and returns to poll unless told to quit |
| `EventLoop.OneBatchPerTurn` | net/EventLoop.cc:111-130 | in any run, between two consecutive points at poll exactly one batch is taken |
| `EventLoop.QueuedByAThread` | net/EventLoop.cc:160-171 | a functor queued by another thread while the loop blocks wakes it and runs in that turn |
| `EventLoop.QueuedByAHandler` | net/EventLoop.cc:118-129 | a functor queued by a channel's handler runs in the same turn |
| `EventLoop.QueuedByAFunctor` | net/EventLoop.cc:160-171 | a functor queued by a functor of the batch is not run by it, keeps poll from blocking and runs in the next turn |
| `EventLoop.QuitExactly` | net/EventLoop.cc:103-148 | in any run the loop ends at its next test if and only if some thread called `quit` since it was entered |
| `EventLoop.NoLostQuit` | net/EventLoop.cc:136-148 | a loop that blocks in poll after a `quit` has a wakeup written or owed |
| `EventLoop.CounterCounts` | net/EventLoop.cc:234-252 | the eventfd counts the writes since it was last read, up to 2^64 - 2 |
| `EventLoop.PushBeforeLoop` | net/EventLoop.cc:160-171 | a functor the owner queues outside `loop()` meets a poll that will be woken, before the eventfd is read again, if and only if a wakeup was already on its way or another thread has promised one since, in any interleaving |
| `EventLoop.WakeupLasts` | net/EventLoop.cc:234-252 | in any interleaving, as long as the eventfd is not read, a wakeup is on its way if and only if it already was or some thread has promised one since |
| `EventLoop.OnlyOutsidePushesAreMissed` | net/EventLoop.cc:103-171 | in any interleaving whatsoever a blocking poll without a wakeup written or owed holds only functors that the owner queued outside `loop()`; functors run in queue order, at most once, in a later batch |
| `EventLoop.PushBeforeFirstLoopIsMissed` | net/EventLoop.cc:103-115 | in a fresh loop that functor waits while poll has nothing to wake it |
| `LogStream.FixedBuffer.constructor` | base/LogStream.h:28-32 | an empty buffer of the given size |
| `LogStream.FixedBuffer.Append` | base/LogStream.h:39-47 | keeps the whole line if it leaves room, nothing of it otherwise |
| `LogStream.FixedBuffer.Reset` | base/LogStream.h:57 | empties the buffer |
| `AsyncLogging.StepKeepsRecycle` | base/AsyncLogging.cc:34-56 | every step keeps: no spare next buffer means a filled one is queued, and the backend's spares match its phase |
| `AsyncLogging.StepKeepsContent` | base/AsyncLogging.cc:69-134 | every step keeps: written or lost, in flight, queued and current bytes together are the appended lines in order |
| `AsyncLogging.AssertsHold` | base/AsyncLogging.cc:69-131 | in every run every assert of `threadFunc` holds and no moved-from buffer is used, also after the drop branch |
| `AsyncLogging.OutputIsPrefix` | base/AsyncLogging.cc:75-107 | while no round had more than 25 buffers, the file is a prefix of the appended lines that fit a buffer, and what follows is exactly what is in flight, queued and current, also after the backend has exited |
| `AsyncLogging.DropExactly` | base/AsyncLogging.cc:92-101 | a round loses something if and only if it has more than 25 buffers |
| `AsyncLogging.DropsExactlyInLongRounds` | base/AsyncLogging.cc:92-107 | over whole runs: the file has lost something if and only if some round written out so far had more than 25 buffers |
| `AsyncLogging.RoundFlushes` | base/AsyncLogging.cc:75-132 | an undisturbed round puts every line appended so far into the file and leaves nothing behind |
| `AsyncLogging.TurnFlushes` | base/AsyncLogging.cc:75-132 | from the top of the loop of a running logger: it waits if and only if nothing is queued, and an undisturbed round writes out every line appended so far |
| `AsyncLogging.RoundWrites` | base/AsyncLogging.cc:92-107 | a round adds all its buffers in order to the file, or the notice and the first two if there are more than 25 |
| `AsyncLogging.AppendQueues` | base/AsyncLogging.cc:34-56 | the current buffer, and no other, is queued if and only if the line leaves no room in it; a line of 4,000,000 bytes or more is not kept |
| `AsyncLogging.BuffersAreMoved` | base/AsyncLogging.cc:34-131 | buffers are moved: only an append without a spare allocates one, and of a round at most two are kept, from which the spares are taken back |
| `AsyncLogging.NoEarlyExit` | base/AsyncLogging.cc:75-76 | in every run the backend does not exit while the logger runs |
| `AsyncLogging.StopEndsBackend` | base/AsyncLogging.cc:75-134 | after `stop` every step of the backend brings it nearer to its exit, no append takes it back, and it can always take the next one |
| `BlockingQueue.StepKeepsInv` | base/BoundedBlockingQueue.h:30-66 | every step, spurious wakeups and overtaking included, keeps: while a taker waits, queued elements do not outnumber signalled takers; while a putter waits, free slots do not outnumber signalled putters |
| `BlockingQueue.NoLostWakeup` | base/BoundedBlockingQueue.h:30-66 | in every run: size within capacity, first in first out, and once no signalled thread is left takers wait only for an empty queue, putters only for a full one, never both unless the capacity is 0 |
| `BlockingQueue.CapacityZeroDeadlocks` | base/BoundedBlockingQueue.h:22-28 | with capacity 0 one put and one take block each other |
| `BlockingQueue.StopReleases` | base/ThreadPool.cc:52-64 | after `stop` no thread waits, whatever follows; a woken thread returns at its next turn; nothing more is put |
| `BlockingQueue.RunsUntilStop` | base/ThreadPool.cc:52-58 | the queue runs until `stop`, and nothing else stops or starts it |
| `BlockingQueue.TakeServes` | base/ThreadPool.cc:93-112 | a take gets the next element in the order of the puts, waits if there is none and the queue runs, returns empty-handed if it was stopped |
| `BlockingQueue.PutServes` | base/ThreadPool.cc:72-91 | a put adds its element last, waits with it if there is no room, returns without it if the queue was stopped |
| `ThreadPool.TasksRunOnce` | base/ThreadPool.cc:93-135 | in every run with any number of workers every task taken has run exactly once or is held by exactly one worker, never both, and tasks are taken in the order of the puts; once all workers have exited all taken tasks have run |
| `ThreadPool.RunsUntilStopped` | base/ThreadPool.cc:120-135 | in every run the pool runs until `stop` is called, and while it runs no worker has exited |
| `ThreadPool.TurnRunsNext` | base/ThreadPool.cc:128-134 | the three steps of a worker of a running pool with a queued task take the next task, run it and leave the worker ready for another |
| `ThreadPool.NeverIdle` | base/ThreadPool.cc:93-135 | in every run, while a running pool has a queued task some worker can take its next step |
| `ThreadPool.StopEndsWorkers` | base/ThreadPool.cc:52-64 | the joins of `stop` end: after it the workers take at most three steps each, whatever other threads do, and each that has not exited can take its next step |
| `ThreadPool.StoppedStep` | base/ThreadPool.cc:120-135 | after `stop` every step of a worker brings it nearer to its exit and no step of another thread takes it back |
| `Levenshtein.LevenshteinDistance` | ClientSession.cpp:1047-1060 | the table computes the recurrence on the two strings |
| `Levenshtein.DistIsMinimum` | ClientSession.cpp:1047-1060 | the value is the least number of insertions, deletions and substitutions, at any positions, that turn one string into the other |
| `Levenshtein.ScriptAtLeast` | ClientSession.cpp:1056-1058 | no script of single edits is shorter than the value |
| `Levenshtein.ShortestScript` | ClientSession.cpp:1056-1058 | some script of single edits has exactly that length |
| `Levenshtein.DistZero` | ClientSession.cpp:1047-1060 | the distance is zero if and only if the strings are equal |
| `Levenshtein.DistSymmetric` | ClientSession.cpp:1047-1060 | the distance is symmetric |
| `Levenshtein.DistTriangle` | ClientSession.cpp:1047-1060 | the distance satisfies the triangle inequality |
| `Levenshtein.DistBounds` | ClientSession.cpp:1047-1060 | the distance lies between the difference and the maximum of the lengths |
| `Levenshtein.Similarity` | ClientSession.cpp:1062-1067 | the similarity lies in [0, 1], is 1 exactly for equal strings and 0 exactly for maximal distance |
| `Md5Transform.EncodeRoundTrip` | FileServer/MD5.cpp:306-325 | `decode` recovers the four words that `encode` wrote |
| `Md5Transform.TransformBlock` | FileServer/MD5.cpp:219-301 | the four rounds with the registers, words, rotations and constants as the 64 macro calls name them are the 64 numbered operations of section 3.4 of RFC 1321 |
| `Md5Transform.Quad` | FileServer/MD5.cpp:226-229 | four calls with rotated register arguments are four operations with renamed registers |
| `Md5Reference.FChooses` | FileServer/MD5.cpp:27 | each bit of `F` is that of `y` where `x` has a one and that of `z` where it has a zero |
| `Md5Reference.GChooses` | FileServer/MD5.cpp:28 | each bit of `G` is that of `x` where `z` has a one and that of `y` where it has a zero |
| `Md5Reference.HParity` | FileServer/MD5.cpp:29 | each bit of `H` is the parity of the three bits |
| `Md5Reference.IDiffers` | FileServer/MD5.cpp:30 | each bit of `I` differs from that of `y` if and only if `x` has a one or `z` a zero |
| `Md5Reference.RotateArithmetic` | FileServer/MD5.cpp:35 | a rotation by n, for the sixteen amounts in use, is x * 2^n modulo 2^32 plus x / 2^(32 - n) |
| `Md5Reference.LengthIs` | FileServer/MD5.cpp:196-209 | the length field is the number of bits, least significant byte first |
| `Md5Reference.DigestOfEmpty` | FileServer/MD5.cpp:94-216 | the digest of the empty message is d41d8cd98f00b204e9800998ecf8427e, as appendix A.5 of RFC 1321 has it |
| `Md5.MD5.Reset` | FileServer/MD5.cpp:104-114 | the object stands for the empty message |
| `Md5.MD5.AddToCount` | FileServer/MD5.cpp:159-162 | the two-word counter with its carry is addition modulo 2^64 |
| `Md5.MD5.UpdateBytes` | FileServer/MD5.cpp:149-183 | the new state is the fold of the compression function over the tail and the input's whole blocks, and every byte of the buffer afterwards |
| `Md5.MD5.Update` | FileServer/MD5.cpp:117-119 | an object that stands for a message stands for the message and the input afterwards: count modulo 2^64, state, buffered tail |
| `Md5.MD5.Final` | FileServer/MD5.cpp:188-216 | the digest of padding and length, state and count restored, and what is left in the buffer |
| `Md5.MD5.Digest` | FileServer/MD5.cpp:94-101 | the first digest is the one-shot digest; the object still stands for the message if and only if fewer than 56 bytes were pending or they already equal what overwrites them |
| `Md5.HashChunks` | FileServer/MD5.cpp:71-101 | any split of a message into updates that end gives the digest of sections 3.1 to 3.5 of RFC 1321, for any compression function |
| `Md5.Md5OfChunks` | FileServer/MD5.cpp:71-101 | the same for the compression function of the code |
| `Md5.LoopNeverEnds` | FileServer/MD5.cpp:172-174 | outside the condition of `update` its loop goes on for ever, because the 32-bit index wraps |
| `Md5.ShortEnds` | FileServer/MD5.cpp:172-174 | inputs shorter than 2^32 - 63 bytes meet that condition, those of 2^32 or more never do |
| `Md5.FiftySixBytesAreLost` | FileServer/MD5.cpp:188-216 | 56 bytes of ones are pending: `digest` destroys them |
| `Md5.CarryIsExact` | FileServer/MD5.cpp:159-162 | the explicit carry and the shifted high part add up to addition modulo 2^64 |
| `BatchAllocator.Allocator.constructor` | jsoncpp-0.5.0/json_batchallocator.h:30-39 | a dummy page, no live block, an empty free list; the invariant holds if and only if the step divides the page |
| `BatchAllocator.Allocator.Allocate` | jsoncpp-0.5.0/json_batchallocator.h:53-77 | the block returned lies inside a page, was not in use and shares no object with a live block; the head of the free list if there is one |
| `BatchAllocator.Allocator.FindBatch` | jsoncpp-0.5.0/json_batchallocator.h:61-73 | every batch but the current one is full, so the walk always ends with a new page at the head |
| `BatchAllocator.Allocator.Release` | jsoncpp-0.5.0/json_batchallocator.h:81-86 | the block moves from the live ones to the head of the free list, which stays acyclic and linked through the blocks |
| `BatchAllocator.Allocator.UserWrite` | jsoncpp-0.5.0/json_batchallocator.h:51-58 | what the user stores in a live block leaves the free list intact |
| `BatchAllocator.BlocksDisjoint` | jsoncpp-0.5.0/json_batchallocator.h:74-76 | any two blocks handed out share no object |
| `BatchAllocator.InsideExactlyWhenDividing` | jsoncpp-0.5.0/json_batchallocator.h:101-110 | every block a page serves lies in the memory asked for if and only if the step divides the page |
| `BatchAllocator.PairsOverrun` | jsoncpp-0.5.0/json_batchallocator.h:30-39 | pairs from pages of the default size: the 256th block of a page lies behind its memory |
| `Multipart.Parser.Find` | FileServer/httplib.h:4736-4757 | the position of the first occurrence in the buffered data, or its length |
| `Multipart.Parser.StartsWith` | FileServer/httplib.h:4717-4724 | whether the text stands at the position |
| `Multipart.Parser.Append` | FileServer/httplib.h:4759-4775 | the buffered data followed by the new data, through the move in place |
| `Multipart.Parser.ParseInitial` | FileServer/httplib.h:4560-4567 | leaves the initial state exactly when this piece contains the opening boundary, and otherwise drops all of it |
| `Multipart.Parser.Parse` | FileServer/httplib.h:4553-4558 | a call in the body state delivers nothing beyond the first delimiter and, without one, holds back at most its length |
| `Multipart.Parser.Body` | FileServer/httplib.h:4644-4666 | the body case: deliver up to the delimiter, or all but the length of one; a refusing callback makes the parser invalid |
| `Multipart.Feed` | FileServer/httplib.h:4644-4666 | however the input is cut, the content delivered is what precedes its first CRLF--boundary |
| `Multipart.FeedPart` | FileServer/httplib.h:4546-4549 | content, CRLF--boundary and anything behind it, cut in any way: the end is found, and what is delivered is the content if and only if no CRLF--boundary begins inside it |
| `Multipart.OneLineIsContent` | FileServer/httplib.h:4546-4549 | content without a carriage return is such content |
| `Multipart.MarkersShareTheirLine` | FileServer/httplib.h:4546-4549 | the delimiter with a CRLF behind it is the opening boundary with a CRLF in front of it |
| `Multipart.FeedInitial` | FileServer/httplib.h:4560-4567 | the opening boundary is found if and only if one single piece contains --boundary and CRLF |
| `Multipart.CutOpeningIsMissed` | FileServer/httplib.h:4560-4567 | the same bytes in two pieces are missed |
| `PercentCoding.EncodeQueryParam` | FileServer/httplib.h:2553-2572 | the loop computes the encoding byte by byte |
| `PercentCoding.FromHexToI` | FileServer/httplib.h:2408-2423 | the value of the digits, or failure at the first non-digit, at the end, or behind the end |
| `PercentCoding.DecodeUrl` | FileServer/httplib.h:2606-2641 | the loop computes the decoding, with its %u and malformed cases |
| `PercentCoding.EncodeRoundTrip` | FileServer/httplib.h:2553-2641 | decoding undoes encoding for every byte string and both plus modes |
| `PercentReference.EscapeIs` | FileServer/httplib.h:2553-2572 | letters, digits and nine marks are written as they are, every other byte as a percent sign and two upper-case digits |
| `PercentReference.PlusIsBlank` | FileServer/httplib.h:2631-2636 | a text without percent signs is decoded byte by byte, a plus sign to a blank in plus mode |
| `PercentReference.EscapeDecodes` | FileServer/httplib.h:2622-2629 | a percent sign and two digits of either case are one byte |
| `PercentReference.CharacterDecodes` | FileServer/httplib.h:2611-2621 | %u and four digits are one character in UTF-8 |
| `PercentReference.LonePercentStays` | FileServer/httplib.h:2606-2641 | a percent sign without its digits stays what it is |
| `PercentReference.Utf8RoundTrip` | FileServer/httplib.h:2435-2465 | the encoding of every code point reads back as it under RFC 3629; surrogates and larger numbers have none |
| `QueryString.ParamsToQueryStr` | FileServer/httplib.h:4416-4426 | key, equals sign and encoded value of every entry, joined by ampersands |
| `QueryString.TrimRange` | FileServer/httplib.h:2661-2670 | the two loops find the piece without the blanks around it, or an empty range |
| `QueryString.Split` | FileServer/httplib.h:2710-2730 | the trimmed non-empty pieces between separators, in order |
| `QueryString.ParseQueryText` | FileServer/httplib.h:4428-4449 | the decoded entries of the pieces, every distinct piece once |
| `QueryString.WrittenExample` | FileServer/httplib.h:4416-4426 | a and 1, b and & are written a=1&b=%26 |
| `QueryString.TrimmedExample` | FileServer/httplib.h:2661-2670 | blanks and tabs around a piece are cut off, those inside it stay |
| `QueryString.QueryRoundTrip` | FileServer/httplib.h:4416-4449 | with keys that survive, parsing what was written gives the entries without repetitions, hence unchanged if and only if there are none |
| `QueryString.PlainKeyIsGood` | FileServer/httplib.h:4416-4426 | every non-empty key of unreserved characters survives being written without encoding |
| `QueryExact.QueryExactly` | FileServer/httplib.h:4416-4449 | for all parameters: they come back, in order or as a collection, if and only if none occurs twice and every key is non-empty, has no ampersand or equals sign, does not start with a blank and is its own decoding |
| `QueryExact.WriteThenParse` | FileServer/httplib.h:4416-4449 | the same through the two loops |
| `Chunked.FromIToHex` | FileServer/httplib.h:2425-2433 | the hexadecimal digits of a number |
| `ChunkedReference.HexIs` | FileServer/httplib.h:2425-2433 | lower-case hexadecimal, most significant digit first, without leading zeros |
| `Chunked.LineReader.Append` | FileServer/httplib.h:2784-2795 | the line grows by one byte, across the change from the fixed to the growing buffer |
| `Chunked.LineReader.GetLine` | FileServer/httplib.h:2758-2782 | the line up to and with the next newline, or to the end of input; false only if nothing is left |
| `Chunked.ReadContentWithLength` | FileServer/httplib.h:3986-4000 | exactly the given number of bytes, however they arrive |
| `Chunked.ReadContentChunked` | FileServer/httplib.h:4030-4082 | the reader's loop computes the decoding of the stream from its position |
| `ChunkedReference.TrailerExactly` | FileServer/httplib.h:4062-4079 | the reader gets past trailer lines to the empty one if and only if none is longer than 8192 bytes |
| `ChunkedReference.LastChunkWithTrailer` | FileServer/httplib.h:4056-4081 | a last chunk with any trailer ends the body, unless one of its lines is too long |
| `ChunkedReference.SizeLines` | FileServer/httplib.h:4040-4043 | size lines with blanks, signs, 0x, capitals or extensions, as `strtoul` reads them |
| `ChunkedReference.SaturatedSizeFails` | FileServer/httplib.h:4043-4044 | a size that `strtoul` saturates at is refused |
| `ChunkedWriter.WriteContentChunked` | FileServer/httplib.h:4277-4378 | the loop calls the provider while data is available: its output is that of the actions executed, its result whether none of them was cancelled |
| `ChunkedWriter.ProviderExactly` | FileServer/httplib.h:4284-4375 | for every provider: what is sent decodes to all data written before the end if and only if some call reports the end and no earlier one ends with an empty write or is cancelled; otherwise the reader fails |
| `ChunkedWriter.EmittedDecodes` | FileServer/httplib.h:4284-4355 | any actions, also writes after the end, decode to the data before the first report of the end, and to nothing without one |
| `ChunkedWriter.EmptyWriteEndsTheBody` | FileServer/httplib.h:4286 | a call with an empty write: the writer reports success and sends nothing |
| `ChunkedWriter.DoneEndsTheLoop` | FileServer/httplib.h:4363-4375 | nothing takes place after a call that ends with `done`; the result is that call's |
| `ChunkedWriter.WritesThenDone` | FileServer/httplib.h:4284-4355 | writes and one `done` send exactly the chunks of the pieces and the last chunk |
| `ChunkedWriter.CancelIsReported` | FileServer/httplib.h:4367-4369 | a provider that returns false has the writer report failure |
| `Chunked.HexRoundTrip` | FileServer/httplib.h:4030-4082 | reading hexadecimal chunks and the last chunk gives the original bytes for any chunking and whatever follows, as section 7.1 of RFC 9112 has it |
| `ChunkedWriter.Transfer` | FileServer/httplib.h:4277-4378 | the same through the writer's and the reader's loops, for any way the stream delivers its bytes |
| `Chunked.StreamMediaTs` | FileServer/FileSession.cpp:987-999 | the loop sends the file in hexadecimal chunks of at most 4096 bytes |
| `Chunked.FileRoundTrip` | FileServer/FileSession.cpp:987-999 | what `streamMedia_ts` sends decodes to the file |
| `Chunked.SendChunkedData` | FileServer/FileSession.cpp:753-770 | the loop sends the file in decimal chunks of at most 4096 bytes |
| `ChunkedReference.DecIs` | FileServer/FileSession.cpp:756-757 | decimal, most significant digit first, without leading zeros |
| `ChunkedReference.BlocksAreFull` | FileServer/FileSession.cpp:754-770 | every block but the last has 4096 bytes |
| `Chunked.DecSizeReads` | FileServer/FileSession.cpp:756-757 | the value a reader takes a decimal size line for |
| `DecimalChunks.DecimalRoundTripExactly` | FileServer/FileSession.cpp:754-770 | what `sendChunkedData` sends decodes to the file if and only if the file is shorter than ten bytes |
| `DecimalChunks.LongFile` | FileServer/FileSession.cpp:754-770 | no file of ten bytes or more is read back, not even one that imitates the framing |
| `Connector.DelayClosedForm` | net/Connector.cc:217-219 | the k-th delay is min(500 * 2^k, 30000) milliseconds |
| `Connector.Connector.Retry` | net/Connector.cc:209-225 | closes the socket and, unless stopped, sets a timer with the current delay and doubles it |
| `Connector.Connector.Connect` | net/Connector.cc:78-117 | one new socket, connecting, closed for a retry or closed for good; fails exactly where the assert of `connecting` does |
| `Connector.Connector.BeginConnecting` | net/Connector.cc:128-141 | goes through exactly if no channel is left over |
| `Connector.Connector.Start` | net/Connector.cc:40-58 | an attempt, at once or queued |
| `Connector.Connector.Stop` | net/Connector.cc:60-65 | withdraws the wish to connect and queues the rest |
| `Connector.Connector.RunStopInLoop` | net/Connector.cc:67-76 | gives up the socket being connected, changes nothing otherwise |
| `Connector.Connector.RunFunctor` | net/Connector.cc:143-156 | the head of the queue runs: an attempt, a stop or the deferred channel reset |
| `Connector.Connector.TimerFires` | net/Connector.cc:217-218 | a timer leads to one attempt if still wanted; fails exactly where the assert of `connecting` does |
| `Connector.Connector.HandleWrite` | net/Connector.cc:158-195 | hands the socket over, or closes it, or gives it up for a retry; fails only when already connected |
| `Connector.Connector.HandleError` | net/Connector.cc:197-207 | gives up the socket being connected, changes nothing otherwise |
| `Connector.Connector.Restart` | net/Connector.cc:119-126 | a new attempt with the delay back at its first value, whether or not the reset has run |
| `Connector.EventKeeps` | net/Connector.cc:40-225 | every event keeps the invariant on attempts, channel, sockets and delays; all asserts hold save that of `connecting`, which fails if and only if a restart, or a timer while a connection is wanted, overtakes the reset and the connect gets under way |
| `Connector.EventEffect` | net/Connector.cc:40-225 | the whole effect of every event on sockets, timers, status and queue: a socket is handed over when it completes and is wanted, closed when it completes and is not, when it is given up, or at once unless its connect is in progress; a timer is set for every failure while wanted |
| `Connector.FailuresExactly` | net/Connector.cc:47-194 | which assert fails, or which missing channel is used, in any state whatsoever |
| `Connector.RunKeepsValid` | net/Connector.cc:40-225 | in every run every socket but the one being connected was closed once or handed over once, never both, their numbers add up to the sockets created, and the k-th delay since construction or restart is the k-th doubling; which socket is handed over is `Connector.HandedOverExactly` |
| `Connector.HandedOverExactly` | net/Connector.cc:180-187 | in every run a socket is handed over if and only if some poll event on its channel found it writable, without error or connection to itself, while no stop came after the last start or restart |
| `Connector.WantedExactly` | net/Connector.cc:40-126 | the wish to connect holds if and only if no stop came after the last start or restart |
| `Connector.NothingAfterStop` | net/Connector.cc:60-76 | after a stop, until the next start or restart, nothing is handed over, no socket is created and no timer set |
| `Connector.RunFailsExactly` | net/Connector.cc:128-156 | a run is cut short by an assert if and only if some event in it overtakes the deferred reset in that way |
| `Connector.Connector.Happen` | net/Connector.cc:40-225 | the object does on each event what the model says, and fails exactly where it does |
| `Connector.Run` | net/Connector.cc:40-225 | the object run through any events: exactly the possible ones happened, it is where they lead, and it got through if and only if none overtook the reset |
| `Connector.TimerBeforeReset` | net/Connector.cc:197-225 | start, a poll error and the timer: the assert fails |
| `NetworkOrder.IntRoundTrip` | net/Endian.h:28-56 | host to network order and back is the identity on every integer that fits |
| `NetworkOrder.NetworkOrderOf` | net/Endian.h:28-56 | high byte first, negative values in two's complement, for 16 bits |
| `Buffer.Buffer.constructor` | net/Buffer.h:48-56 | nothing readable, the initial size writable, eight bytes prependable |
| `Buffer.Buffer.Retrieve` | net/Buffer.h:113-124 | the readable bytes without the first ones |
| `Buffer.Buffer.RetrieveAsString` | net/Buffer.h:164-170 | returns the first bytes and removes them |
| `Buffer.Buffer.Unwrite` | net/Buffer.h:215-219 | the readable bytes without the last ones |
| `Buffer.Buffer.MoveToFront` | net/Buffer.h:398-408 | the overlapping copy in place keeps the readable bytes |
| `Buffer.Buffer.MakeSpace` | net/Buffer.h:390-409 | enough room afterwards, readable bytes and reserved prefix kept, the assert on the reader index holds |
| `Buffer.Buffer.Append` | net/Buffer.h:182-201 | the readable bytes followed by the data |
| `Buffer.Buffer.Prepend` | net/Buffer.h:354-360 | the data followed by the readable bytes |
| `Buffer.Buffer.Shrink` | net/Buffer.h:362-369 | the same readable bytes in a new store with the reserve |
| `Buffer.Buffer.ReadFd` | net/Buffer.cc:25-57 | every byte of the scatter read is appended, none is lost to the extra buffer |
| `Buffer.Buffer.AppendInt` | net/Buffer.h:224-248 | the readable bytes followed by the integer in network order |
| `Buffer.Buffer.PrependInt` | net/Buffer.h:328-352 | the integer in network order followed by the readable bytes |
| `Buffer.Buffer.ReadInt` | net/Buffer.h:254-323 | reads and removes the integer that stands in front, whichever was appended or prepended |
| `Buffer.Perform` | net/Buffer.h:113-409 | every operation takes the buffer, its reserve and its room to where the value model goes |
| `Buffer.AfterMeans` | net/Buffer.h:113-409 | wherever the bytes lie in the store, every operation does to the readable ones what it means on byte sequences |
| `Buffer.PerformedMeans` | net/Buffer.h:113-409 | the same for any run, operations whose asserts fail left out |
| `Buffer.ReserveKept` | net/Buffer.h:44-45 | as long as nothing was prepended eight bytes can be prepended, whatever else was done |
| `Buffer.GrowsExactly` | net/Buffer.h:390-409 | the store grows if and only if the data fits neither behind the readable bytes nor after moving them, and then to just what is needed |
| `Buffer.ShrinksTo` | net/Buffer.h:362-369 | after shrinking there are eight bytes in front and what was asked for, at least 1024 bytes, behind |
| `Buffer.RestStays` | net/Buffer.h:113-219 | emptying the buffer brings it back to the front; retrieving, unwriting and prepending move nothing else and resize nothing |
| `Buffer.ReadsUpTo` | net/Buffer.cc:28-38 | one scatter read can fill the room, and 65536 bytes more if the room is smaller than that |
| `Buffer.RunOps` | net/Buffer.h:113-409 | any run of operations: exactly those whose asserts hold on the bytes, the reserve and the room were performed, and the readable bytes are what they mean |
| `BinaryCodec.Compress` | BinaryReader.h:176-200 | the loop computes the base-128 prefix; of lengths of 2^35 or more only the low 35 bits, and nothing if they are zero |
| `BinaryCodec.PrefixIs` | BinaryReader.h:176-200 | the prefix is well formed and has the length as its value |
| `BinaryCodec.PrefixShortest` | BinaryReader.h:176-200 | no encoding of the same value in the format is shorter |
| `BinaryCodec.PrefixLength` | BinaryReader.h:185-187 | at most five bytes |
| `BinaryCodec.PrefixOf300` | BinaryReader.h:176-200 | the prefixes of 0, 127, 128 and 300 in bytes |
| `BinaryCodec.PrefixReads` | BinaryReader.cpp:8-20 | the reader's loop stops right behind the prefix with its value, whatever follows |
| `BinaryCodec.BinaryWriter.WriteData` | BinaryReader.h:140-148 | the buffer is cut at the index and followed by the value's bytes as they lie in memory; the index advances modulo 2^32 |
| `BinaryCodec.BinaryWriter.WriteText` | BinaryReader.cpp:31-50 | the buffer followed by prefix and bytes; the index advances modulo 2^32 |
| `BinaryCodec.BinaryWriter.Assign` | BinaryReader.h:132-138 | the index stands at the end afterwards only for the empty string |
| `BinaryCodec.BinaryReader.ReadData` | BinaryReader.h:96-115 | the value's bytes in reverse order and the index advanced modulo 2^32, or failure without change |
| `BinaryCodec.BinaryReader.ReadText` | BinaryReader.cpp:5-28 | the string found where the index, modulo 2^32, stands behind the prefix; `None` where the code would overflow or leave the buffer |
| `BinaryCodec.FieldsRoundTrip` | BinaryReader.h:96-200 | any sequence of integers and strings whose data each starts below 2^32, in particular any of fewer than 2^32 bytes in all, is written whole and read back identically and in order |
| `BinaryCodec.WriteThenRead` | BinaryReader.cpp:5-50 | the same through the writer and the reader objects, for all fields |
| `BinaryCodec.WriterIntactExactly` | BinaryReader.h:140-148 | the writer's buffer is the encoding if every integer starts below 2^32, and too short for good otherwise |
| `BinaryCodec.IndexCounts` | BinaryReader.h:141-154 | the index is the number of bytes written modulo 2^32, whatever became of the buffer |
| `BinaryReach.ReachExactly` | BinaryReader.h:96-148 | for sizes of fields that hold data: these fields and all their first parts are read back whatever their values if and only if the data of each starts below 2^32 |
| `BinaryReach.LostByInteger` | BinaryReader.h:144-146 | an integer out of reach overwrites the end of the field before it, so fields of these sizes are not read back for all values |
| `BinaryReach.LostText` | BinaryReader.cpp:19-25 | a string out of reach is read from where the index wraps to, so fields of these sizes are not read back for all values |
| `BinaryReach.IntegersPastTheIndex` | BinaryReader.h:141-148 | 2^30 + 1 integers of four bytes: only the last one is left and the reader fails |
| `BinaryReach.EmptyStringsComeBack` | BinaryReader.cpp:19-25 | 2^32 or more empty strings are read back although the index wraps, so the exact condition is one for fields with data |
| `BinaryCodec.HostOrderExactly` | BinaryReader.h:104-109 | a value written in host order comes back if and only if its bytes read the same both ways |

## Left out

- EventLoop: the protocol is a state machine on values, not a class; what the model has are its atomic steps and their interleavings, not in-place update. `runInLoop` on the owner thread just calls the functor and is no step.
- AsyncLogging: a state machine on values for the same reason; buffers are their contents, so the identity of a recycled buffer is not tracked. `LogFile` is a byte sequence.
- BlockingQueue: a state machine on values for the same reason; the circular buffer is a sequence.
- ThreadPool: a state machine on values for the same reason; a task is one step of its worker, so tasks that themselves call `run` or throw are not modelled, nor the pool without threads that runs tasks inline.
- Connector: callbacks of the loop thread are atomic steps; a `stop` from another thread takes effect between them.
- Md5.MD5.Update: asks that the code's loop ends (`Ends`), which is exact: `Md5.LoopNeverEnds` shows that it does not otherwise.
- Md5Transform.TransformBlock: that the additive constants are those of the sine table is not proved.
- TimeZone.RoundTripExactly: asks that neighbouring transitions are further apart than the offsets around them differ; tables denser than that are not covered. Reading time zone files is left out.
- Levenshtein.LevenshteinDistance: the table's `unsigned int` entries are unbounded here; the bound of the distance shows that they do not wrap for strings shorter than 2^31.
- Levenshtein.Similarity: `double` is modelled by real numbers, without rounding.
- QueryString.ParseQueryText: `Params` is the sequence of insertions; the order of the multimap is not modelled, and `QueryExact.QueryExactly` therefore also compares collections.
- ChunkedWriter.WriteContentChunked: the stream takes every write; write errors, trailers and compression are left out. A shutdown is the end of the calls.
- Chunked.ReadContentChunked: trailer lines are skipped over, their fields not collected.
- Multipart.Parser.Parse: the states for headers and boundaries between parts are left out.
- BinaryCodec.BinaryReader.ReadText: reading outside the buffer and overflow of `int` are undefined in the code and `None` here.
- Buffer.Buffer.Append: `StringPiece` lengths are unbounded; `findCRLF`, `findEOL` and `retrieveUntil` are left out as easy.
- MySQL access, user and message managers, JSON, the rest of `ClientSession.cpp`, `FileSession.cpp` and `httplib.h`, sockets, pollers, timers, TLS: I/O, library calls or easy members.
