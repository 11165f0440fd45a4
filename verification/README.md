# Sync-Service-Ui: the stateful parts, modelled and proved

This project models six stateful parts of the desktop client and of the asio headers it carries, and proves what
they keep over every run.

- **asio::basic_streambuf** (`StreamBufSpec.dfy`, `StreamBufPositions.dfy`, `StreamBuf.dfy`): one array that holds the
  input and the output sequence, shifted in place and grown on demand. It is proved to be a FIFO of at most
  `max_size()` bytes that may be refused memory. It departs from the FIFO in three ways, and the exact condition of
  each is proved. A `prepare` or `overflow` that throws, for `max_size()`, for the vector's own limit or for lack of
  memory, may already have shifted the bytes without moving the positions. `commit` and `consume` cast their counts to
  `int`, so that a count from 2^31 on moves a position elsewhere, possibly back. And `consume(n)` does not clamp a count
  that carries the pointer sum past the last address, so that `consume(SIZE_MAX)` moves the get position back by one.
  The last two can break the documented `size() <= max_size()`; exactly when, for any sequence of calls, is proved.
- **The message framing of TcpClient** (`Framing.dfy`, `Client.dfy`): payloads end with CR LF, reads cut the stream
  anywhere, and the loop dispatches at most one frame for each read. The frames are those of the stream, in order,
  but the last of them may never be dispatched; exactly when is proved, and so is that messages of 128 bytes or
  more are safe.
- **From frames to the module list** (`SyncSpec.dfy`, `Client.dfy`): the reader thread emits events, the UI thread
  applies them in order, and a schedule interleaves the two. The list is the fold of the dispatched messages minus
  those still queued, and every module has one owner.
- **any_completion_handler** (`HandlerSpec.dfy`, `CompletionHandler.dfy`): linear ownership of the type-erased
  target, and what the allocator of a wrapper reaches.
- **Its memory** (`Alignment.dfy`, `HandlerHeap.dfy`, `HandlerMemory.dfy`, `HandlerAllocator.dfy`): the aligned
  allocator that finds the raw block again through an offset stored behind the user's bytes. It is proved against a
  ledger that remembers what was given out. Where adding the offset's length wraps, the offset is stored outside the
  raw block; exactly when is proved. The internal function would strand a raw block where `size + align - 1` wraps; its
  caller, the allocator for a type T, only asks for multiples of the alignment, and over no run of such requests is a
  raw block left without an owner.
- **basic_socket_streambuf** (`SocketSpec.dfy`, `SocketStreambuf.dfy`): buffered characters over a socket that sends
  partially, blocks or fails. A flush that fails half-way keeps its whole put area, so a retry repeats bytes: without
  those segments the wire is what was accepted, in every run, and with them exactly when no flush stopped half-way.

Each part has a specification on values, and classes whose methods change their fields as the source does; every
method is proved against the specification, and the lemmas about the specification are the results. `Bytes.dfy`
holds the machine-level vocabulary: bytes, `std::size_t` as a type into which a wrapped subtraction does not fit,
and the cast to `int`.

What comes from outside is a parameter: the chunks that reads deliver, the socket's answer to each send and
receive (and the clock, as an event of the same script), where an allocator places a block or that it has none,
whether a constructor throws, how a frame parses, how a request is dumped to JSON, and how the two threads
interleave. Qt is assumed to deliver signals to the UI thread in the order in which they were emitted.

An uncaught exception in the reader thread terminates the process, because the thread function does not catch it
(src/QObjects/MainWindow.h:60-66); the modules of an init command whose later item throws are then leaked.

Get and put area semantics follow ISO C++17, section 30.6.3; `std::align` follows section 23.10.5.

## Model

| member | source | states |
|---|---|---|
| StreamBufSpec.StepRefinesFifo | src/dependencies/asio/asio/basic_streambuf.hpp:192-346 | each operation answers what a FIFO answers that is bounded by max_size() and refused memory when the array has to grow and cannot; it leaves the queue that the FIFO leaves exactly when it is not a reserve that throws after shifting a non-periodic queue over itself |
| StreamBufSpec.SafeReserveIsClean | src/dependencies/asio/asio/basic_streambuf.hpp:308-346 | a condition to check before the call: nothing is damaged when the queue starts the array, is no longer than its offset, or the array is long enough already |
| StreamBufSpec.InStepIffClean | src/dependencies/asio/asio/basic_streambuf.hpp:192-346 | over any run, whatever the casts do to its counts, buffer and FIFO agree after every operation exactly when no step is such a reserve and every count given to commit and consume is exact |
| StreamBufSpec.SizeAgreesIffExact | src/dependencies/asio/asio/basic_streambuf.hpp:233-254 | an operation leaves the size() that the FIFO has exactly when the counts given to pbump and gbump are the ones that were meant |
| StreamBufSpec.SmallBuffersFit | src/dependencies/asio/asio/basic_streambuf.hpp:233-254 | in a buffer of at most INT_MAX bytes an operation whose commit stays inside what was prepared moves the positions as asked, exactly unless it is a consume whose pointer sum wraps on a count other than size() modulo 2^32 |
| StreamBufSpec.RunRefinesFifo | src/dependencies/asio/asio/basic_streambuf.hpp:192-346 | over any run without such a reserve, all answers and the final contents are the FIFO's, whatever was shifted, resized or moved to another address |
| StreamBufSpec.CarefulIsClean | src/dependencies/asio/asio/basic_streambuf.hpp:209-219 | a caller whose reserves are each safe in that sense, or stay within max_size() and get their memory, never damages anything |
| StreamBufSpec.RunConservesBytes | src/dependencies/asio/asio/basic_streambuf.hpp:192-346 | bytes taken out, then bytes left, are the bytes there before, then the bytes put in, in order |
| StreamBufSpec.StepKeepsWellFormed | src/dependencies/asio/asio/basic_streambuf.hpp:62-68 | every operation whose counts are exact, throwing or not, keeps gptr <= pptr <= epptr <= max_size() |
| StreamBufSpec.RunKeepsWellFormed | src/dependencies/asio/asio/basic_streambuf.hpp:62-68 | size() <= max_size() at the end of every run of operations whose counts are exact |
| StreamBufPositions.OrderedIffStays | src/dependencies/asio/asio/basic_streambuf.hpp:233-346 | one call keeps 0 <= gptr <= pptr <= epptr <= max_size() exactly when it is not a commit or consume whose count, cast to int, carries pptr behind gptr, gptr past pptr or gptr in front of the array |
| StreamBufPositions.SizeBoundIff | src/dependencies/asio/asio/basic_streambuf.hpp:62-68 | one call keeps the documented 0 <= size() <= max_size() exactly when the low 32 bits of the count, as an int, stay within size() or add no more than max_size() leaves |
| StreamBufPositions.SmallCountsStay | src/dependencies/asio/asio/basic_streambuf.hpp:233-254 | in an array of at most INT_MAX bytes every call keeps the order, except a consume whose pointer sum wraps |
| StreamBufPositions.AlwaysOrderedIff | src/dependencies/asio/asio/basic_streambuf.hpp:192-346 | over any run of calls the positions stay in order throughout exactly when each call meets that condition where it stands |
| StreamBufPositions.RunKeepsBound | src/dependencies/asio/asio/basic_streambuf.hpp:62-68 | size() <= max_size() after any run of such calls, exact counts or not |
| StreamBufPositions.ConsumeExceedsMaxSize | src/dependencies/asio/asio/basic_streambuf.hpp:244-254 | prepare(max), commit(max), consume(SIZE_MAX): size() is max_size() + 1 and gptr is in front of the array |
| StreamBufPositions.CommitMovesBack | src/dependencies/asio/asio/basic_streambuf.hpp:233-238 | prepare(2^31), commit(2^31) on a new buffer: pptr is 2^31 bytes in front of the array |
| StreamBufPositions.StepMoves | src/dependencies/asio/asio/basic_streambuf.hpp:192-346 | an operation with exact counts leaves the positions that its calls leave |
| StreamBufPositions.SizeAfterIsSize | src/dependencies/asio/asio/basic_streambuf.hpp:192-346 | exact or not, the size() that an operation is said to leave is the one its calls leave |
| StreamBufSpec.PutThrowsIff | src/dependencies/asio/asio/basic_streambuf.hpp:283-346 | putting a character throws exactly when the buffer is full, or the put area is and size() + min(128, max_size() - size()) is beyond the array and cannot be had; a put that finds the put area full and succeeds leaves the end at that length, if it was not there already; in a full buffer nothing has moved, because a full queue starts at the start of the array |
| StreamBufSpec.ReceiveThrowsIff | src/dependencies/asio/asio/basic_streambuf.hpp:209-219 | preparing n bytes throws exactly when size() + n exceeds max_size(), or is beyond the array and cannot be had; which exception it is; and where it leaves the end and the start otherwise |
| StreamBufSpec.AsksForNeed | src/dependencies/asio/asio/basic_streambuf.hpp:283-346 | whenever reserve is called it is asked for exactly the bytes that the operation needs, and throws what the limit or the refusal of memory makes it throw |
| StreamBufSpec.StarvedPutDamages | src/dependencies/asio/asio/basic_streambuf.hpp:283-346 | a put that is refused memory leaves a damaged queue whenever it had shifted a non-periodic one over itself |
| StreamBufSpec.ConsumeMoveExact | src/dependencies/asio/asio/basic_streambuf.hpp:240-254 | consume(n) moves gptr by min(n, size()) exactly when that count survives the cast to int and the pointer sum does not wrap, or wraps on size() modulo 2^32; always when n is at most size() and size() is an int |
| StreamBufSpec.ConsumeAllMovesBack | src/dependencies/asio/asio/basic_streambuf.hpp:244-254 | consume(SIZE_MAX) moves gptr back by one; on a full buffer size() then exceeds max_size() |
| StreamBufSpec.ShiftedShows | src/dependencies/asio/asio/basic_streambuf.hpp:322-326 | after the memmove the queue is at the start of the array, and its smeared image in the old window |
| StreamBufSpec.SmearIntactIffPeriodic | src/dependencies/asio/asio/basic_streambuf.hpp:322-340 | after a reserve that throws the bytes in [gptr, pptr) are intact exactly when the queue repeats with period gptr; always when gptr is at the start or size() does not exceed it |
| StreamBufSpec.SmearDamagesSome | src/dependencies/asio/asio/basic_streambuf.hpp:322-340 | whenever the shift overlaps, some contents are damaged |
| StreamBufSpec.DamagingRunsExist | src/dependencies/asio/asio/basic_streambuf.hpp:322-340 | two four-step runs after which data() shows [3, 3] where the FIFO holds [2, 3]: a prepare beyond max_size(), and a prepare within it that exceeds what a vector can hold |
| StreamBufSpec.EndIsPeakDemand | src/dependencies/asio/asio/basic_streambuf.hpp:137-140 | after any run epptr is exactly the largest end position ever granted, size() + n for a prepare and size() + min(128, max_size() - size()) for a character that found the put area full (at least its initial value): neither shifting nor throwing grows it |
| StreamBufSpec.ReadSizeIsSafe | src/dependencies/asio/asio/basic_streambuf.hpp:353-359 | preparing the preferred read size never exceeds max_size(), and throws exactly when the array has to grow and cannot; it is positive exactly when something is wanted and the buffer is not full; it falls short of the wish only by filling the buffer or by giving at least 512 |
| StreamBufSpec.ReadSizeIsLargest | src/dependencies/asio/asio/basic_streambuf.hpp:353-359 | the preferred read size is the largest that is wanted, that max_size() has room for, and that is at most 512 or fits the capacity |
| StreamBuf.MoveToFront | src/dependencies/asio/asio/basic_streambuf.hpp:325 | the overlapping memmove, front to back in place, moves the range intact and leaves the rest alone |
| StreamBuf.StreamBuf.constructor | src/dependencies/asio/asio/basic_streambuf.hpp:131-141 | an empty buffer whose put area is min(max_size, 128) and whose array is never empty |
| StreamBuf.StreamBuf.Size | src/dependencies/asio/asio/basic_streambuf.hpp:158-161 | size() is the length of the input sequence and at most max_size() |
| StreamBuf.StreamBuf.Data | src/dependencies/asio/asio/basic_streambuf.hpp:192-196 | data() is the input sequence |
| StreamBuf.StreamBuf.Reserve | src/dependencies/asio/asio/basic_streambuf.hpp:308-346 | returns with room for n, or throws std::length_error or std::bad_alloc with every position unchanged and the bytes shifted; no unsigned subtraction wraps |
| StreamBuf.StreamBuf.Rearrange | src/dependencies/asio/asio/basic_streambuf.hpp:321-345 | without enough room: throws exactly when size() + n exceeds max_size() or the array has to grow and cannot, and then the bytes alone have moved; otherwise the input sequence is at the start, with epptr at the larger of its old offset and size() + n |
| StreamBuf.StreamBuf.Extend | src/dependencies/asio/asio/basic_streambuf.hpp:328-343 | the growth after the shift: the new end, or what is thrown, by max_size(), by the vector's limit or for lack of memory, with the array untouched |
| StreamBuf.StreamBuf.ShiftContents | src/dependencies/asio/asio/basic_streambuf.hpp:321-326 | after the shift the queue is at the start of the array and the old window shows its smeared image |
| StreamBuf.StreamBuf.Prepare | src/dependencies/asio/asio/basic_streambuf.hpp:209-219 | throws exactly when size() + n exceeds max_size(), or exceeds the array and either the vector's limit or the memory; otherwise the input sequence is unchanged and n bytes are writable at pptr |
| StreamBuf.StreamBuf.Fill | src/dependencies/asio/asio/basic_streambuf.hpp:92-98 | storing into the prepared bytes leaves the input sequence alone |
| StreamBuf.StreamBuf.Commit | src/dependencies/asio/asio/basic_streambuf.hpp:221-238 | moves pptr as the positions specify for every count; appends the first min(n, epptr - pptr) prepared bytes exactly when that count survives the cast to int |
| StreamBuf.StreamBuf.Consume | src/dependencies/asio/asio/basic_streambuf.hpp:240-254 | moves gptr as the positions specify for every count; removes the first min(n, size()) bytes exactly under the condition of ConsumeMoveExact |
| Bytes.CastToIntExact | src/dependencies/asio/asio/basic_streambuf.hpp:233-254 | the cast to int keeps a count exactly when it is at most INT_MAX |
| Bytes.CastToIntWraps | src/dependencies/asio/asio/basic_streambuf.hpp:233-254 | the cast to int yields an int that differs from the count by a multiple of 2^32 |
| StreamBuf.StreamBuf.Underflow | src/dependencies/asio/asio/basic_streambuf.hpp:263-274 | finds the first byte of the input sequence even while egptr lags behind pptr, and changes nothing a caller can see |
| StreamBuf.StreamBuf.Overflow | src/dependencies/asio/asio/basic_streambuf.hpp:283-306 | throws exactly when size() is max_size(), with everything intact, or the array cannot grow; otherwise appends exactly c; eof appends nothing and is answered by something else than eof |
| StreamBuf.StreamBuf.MakeRoom | src/dependencies/asio/asio/basic_streambuf.hpp:287-298 | when the put area is full, room for a character is made, or what reserve throws is thrown with every position unchanged |
| StreamBuf.StreamBuf.Sputc | src/dependencies/asio/asio/basic_streambuf.hpp:276-306 | a character is appended, or an exception is thrown exactly when the buffer is full or the array cannot grow |
| StreamBuf.StreamBuf.Sgetc | src/dependencies/asio/asio/basic_streambuf.hpp:259-274 | the first byte of the input sequence, or eof exactly when it is empty |
| StreamBuf.StreamBuf.Sbumpc | src/dependencies/asio/asio/basic_streambuf.hpp:259-274 | takes the first byte of the input sequence, or eof exactly when it is empty |
| StreamBuf.StreamBuf.PrepareForRead | src/dependencies/asio/asio/basic_streambuf.hpp:353-359 | prepare(read_size_helper(sb, m)) throws exactly when the array has to grow and cannot, for any vector capacity |
| StreamBuf.StreamBuf.Receive | src/dependencies/asio/asio/basic_streambuf.hpp:88-98 | a read into the buffer appends what was stored, or throws as prepare does |
| StreamBuf.StreamBuf.Apply | src/dependencies/asio/asio/basic_streambuf.hpp:192-346 | the object goes through the layouts of the specification, one operation at a time |
| StreamBuf.Simulate | src/dependencies/asio/asio/basic_streambuf.hpp:131-346 | any run on a fresh buffer: answers, contents and array length are those specified; the length is max(1, min(max_size, 128), largest demand); without a damaging reserve it is the FIFO |
| Framing.FindIsFirst | src/tcp_client.cpp:60-62 | find yields the first delimiter, and npos exactly when there is none |
| Framing.FindIsStable | src/tcp_client.cpp:59-62 | bytes that arrive later never change the first delimiter or the frame before it |
| Framing.FramesAreFree | src/tcp_client.cpp:62-67 | no frame contains the delimiter |
| Framing.FindEncoded | src/tcp_client.cpp:142 | a delimiter-free payload, even one ending in CR, ends at its own delimiter, even before a payload starting with LF |
| Framing.SplitInvertsEncode | src/tcp_client.cpp:137-177 | splitting inverts encoding exactly when every payload is free of the delimiter |
| Framing.SplitResumes | src/tcp_client.cpp:59-68 | the split of a stream can stop anywhere and resume on what is left, also in the middle of a delimiter |
| Framing.FeedSplits | src/tcp_client.cpp:46-72 | frames dispatched, then the split of the pending bytes and whatever follows, are the split of the whole stream |
| Framing.FeedConservesBytes | src/tcp_client.cpp:46-72 | dispatched frames, each with its delimiter, then the residual, are the received bytes |
| Framing.FeedIsPrefixOfSplit | src/tcp_client.cpp:46-72 | the dispatched frames are a prefix of the one-shot split, and the pending complete frames are the rest |
| Framing.ChunkingsAgree | src/tcp_client.cpp:46-72 | two chunkings of one stream dispatch prefix-comparable frames |
| Framing.RoundTrip | src/tcp_client.cpp:59-71 | payloads sent by the encoders come out in order, dispatched or still pending, whatever the chunking |
| Framing.BacklogLaw | src/tcp_client.cpp:46-72 | one frame at most per read: d(k) = min(d(k-1) + 1, c(k)) |
| Framing.ServedBound | src/tcp_client.cpp:46-72 | what a reader that dispatches one frame at a time can have dispatched at most |
| Framing.ServedBoundIsAttained | src/tcp_client.cpp:46-72 | some earlier read attains that bound |
| Framing.AllDispatchedIff | src/tcp_client.cpp:46-72 | every complete frame is dispatched at end of stream exactly when no suffix of the reads completed more frames than it has reads |
| Framing.AllDeliveredIff | src/tcp_client.cpp:46-72 | the same for every payload sent |
| Framing.TwoFramesInOneRead | src/tcp_client.cpp:59-71 | of two frames in the last read only the first is dispatched |
| Framing.SecondFrameIsShort | src/tcp_client.cpp:47-50 | of two frames completed by one read the second is shorter than the read |
| Framing.LongFramesNeverOverrun | src/tcp_client.cpp:47-72 | frames of at least 128 bytes arrive at most one per read, so no suffix of the reads is overrun |
| Framing.LongPayloadsAllDelivered | src/tcp_client.cpp:47-72 | payloads that fill at least one read array with their delimiter are all dispatched, however the stream is cut |
| SyncSpec.OnReadHandlesOne | src/tcp_client.cpp:46-72 | a turn of the loop handles at most one frame, and otherwise emits, allocates and dispatches nothing |
| SyncSpec.ClientFeeds | src/tcp_client.cpp:46-72 | the framing laws hold for the client, whatever its messages do, up to the end of the stream or the first exception |
| SyncSpec.StoppedStays | src/tcp_client.cpp:51-57 | a reader that has stopped reads nothing more |
| SyncSpec.HandleStopsIff | src/tcp_client.cpp:75-123 | a message ends the process exactly when handling it throws, and what it had allocated by then is leaked; it allocates a module for each item up to the first that throws |
| SyncSpec.ClientAllocates | src/tcp_client.cpp:75-123 | over every run the allocations are those of the dispatched messages, and the leaked ones those of a last message that threw |
| SyncSpec.ReadStopsIff | src/tcp_client.cpp:50-71 | what the reader reports after each read: closed at end of stream, terminated on an error or a frame that throws, reading otherwise |
| SyncSpec.ReadingIff | src/tcp_client.cpp:46-72 | the reader goes on exactly as long as every read delivers bytes and no dispatched frame throws |
| SyncSpec.BuildIs | src/tcp_client.cpp:79-85 | an init command allocates one module for each item, in order, up to the first item whose constructor throws |
| SyncSpec.DeleteCounts | src/QObjects/SyncTable.h:83-93 | a delete lowers the count of its name from k to max(k - 1, 0) and leaves every other count alone |
| SyncSpec.DeleteNames | src/QObjects/SyncTable.h:83-93 | a delete removes the first occurrence of the name and keeps the order of the rest |
| SyncSpec.HandleShows | src/tcp_client.cpp:75-123 | once delivered, the events of a message have the message's effect on the list, or none if it throws |
| SyncSpec.ClientShows | src/tcp_client.cpp:62-123 | delivering every emitted event shows the effects of all dispatched frames |
| SyncSpec.EmissionsCount | src/tcp_client.cpp:75-123 | one event is emitted for each dispatched message that has one |
| SyncSpec.PrefixShows | src/tcp_client.cpp:62-123 | when k events have been applied the list shows the effects of the prefix of dispatched frames that emitted them |
| SyncSpec.ScheduleInvariant | src/QObjects/SyncTable.h:66-93 | under every schedule the list is the fold of the events applied so far, and the reader thread does not depend on the UI thread |
| SyncSpec.ScheduleShows | src/QObjects/SyncTable.h:66-93 | under every schedule the list is the fold over the dispatched frames minus those still queued |
| SyncSpec.ApplyTakesOne | src/QObjects/SyncTable.h:33-37 | the UI thread applies one event whenever one is queued and the process lives, and leaves the reader alone |
| SyncSpec.AppliesCatchUp | src/QObjects/SyncTable.h:66-93 | n turns of the UI thread after any schedule apply min(n, queued) events, and none once the process is terminated |
| SyncSpec.CaughtUpShows | src/QObjects/SyncTable.h:66-93 | once it has run as often as events were queued, the list shows the effects of all dispatched frames |
| SyncSpec.EndToEnd | src/tcp_client.cpp:40-123 | payloads sent, cut in any way that overruns no suffix of the reads, and applied: the list shows exactly their effects |
| SyncSpec.EndToEndCaughtUp | src/tcp_client.cpp:40-123 | the same with nothing assumed of how far the UI thread has come: after any schedule of reads of payloads that do not throw, as many turns of the UI thread as there are payloads make the list show exactly their effects |
| SyncSpec.ClientOwns | src/tcp_client.cpp:79-86 | each allocated module is carried by one event or was leaked by an exception, which ends the process |
| SyncSpec.DeleteOwns | src/QObjects/SyncTable.h:85-91 | a delete moves one module from listed to freed |
| SyncSpec.TableOwns | src/QObjects/SyncTable.h:66-93 | a delivered module is listed or freed, once |
| SyncSpec.EachModuleHasOneOwner | src/QObjects/SyncTable.h:66-93 | under every schedule each module ever allocated is in exactly one place: leaked, queued, listed or freed; nothing is listed or freed twice |
| Client.FindDelimiter | src/tcp_client.cpp:60-61 | the search loop finds the first delimiter |
| Client.TcpClient.BuildModules | src/tcp_client.cpp:79-85 | the push_back loop builds the modules of an init command, or stops where a constructor throws |
| Client.TcpClient.CommandHandler | src/tcp_client.cpp:75-123 | the events, allocations and leaks that a message specifies, with whether it threw |
| Client.TcpClient.ReadOnce | src/tcp_client.cpp:50-71 | one turn of the read loop: append, dispatch at most one frame, erase it |
| Client.TcpClient.StartReading | src/tcp_client.cpp:40-74 | the whole loop over any script of reads: the specified frames, events and status, and no byte lost |
| Client.TcpClient.Notify | src/tcp_client.cpp:137-177 | message_ is the encoded request, and the wire stays the encoding of all requests in order |
| Client.EventQueue.Take | src/QObjects/SyncTable.h:33-37 | events reach the UI thread in the order in which they were emitted |
| Client.SyncTable.OnModulesFetched | src/QObjects/SyncTable.h:66-79 | appends all fetched modules in order |
| Client.SyncTable.OnModuleDeleted | src/QObjects/SyncTable.h:83-93 | frees and erases the first module of that name, if any |
| Client.Simulate | src/tcp_client.cpp:40-123 | both threads as objects, under any schedule: list, pending events and status are those specified; with nothing pending the list shows all dispatched frames |
| HandlerSpec.StepKeepsTyped | src/dependencies/asio/asio/any_completion_handler.hpp:266-276 | a wrapper always reaches its target through the function table of the target's own type |
| HandlerSpec.StepKeepsUnshared | src/dependencies/asio/asio/any_completion_handler.hpp:667-722 | no two wrappers ever hold the same target |
| HandlerSpec.StepKeepsCovered | src/dependencies/asio/asio/any_completion_handler.hpp:667-756 | every target that outlives an operation is still held |
| HandlerSpec.StepKeepsLives | src/dependencies/asio/asio/any_completion_handler.hpp:90-115 | every target's life stays one of: born, never constructed, dropped, called |
| HandlerSpec.StepKeepsLinear | src/dependencies/asio/asio/any_completion_handler.hpp:653-756 | together: every operation on any wrappers keeps linear ownership |
| HandlerSpec.Run | src/dependencies/asio/asio/any_completion_handler.hpp:653-756 | linear ownership holds after every run |
| HandlerSpec.EachTargetEndsOnce | src/dependencies/asio/asio/any_completion_handler.hpp:178-191 | over any run a target is released exactly once if it is gone and never before; its handler runs at most once, after the release |
| HandlerSpec.RunKeepsBooks | src/dependencies/asio/asio/any_completion_handler.hpp:653-756 | over every run, each target is where an account kept target by target says: held, for its type, by the wrapper that moves and swaps took it to, or gone after exactly what its end implies; and exactly the wrappers that were created and not destroyed exist |
| HandlerSpec.InvokedIffCalled | src/dependencies/asio/asio/any_completion_handler.hpp:178-191 | a handler has run exactly when some call found its target in the wrapper and its move did not throw; a target was dropped unrun exactly when a throwing call, nullptr, a move over it or a destructor ended it |
| HandlerSpec.NothingLeaks | src/dependencies/asio/asio/any_completion_handler.hpp:698-703 | when all wrappers are empty or gone no target is left |
| HandlerSpec.MoveAssignViaTemporary | src/dependencies/asio/asio/any_completion_handler.hpp:683-696 | move assignment is a move into a temporary, a swap and the temporary's end; a self-move changes nothing |
| HandlerSpec.CallLeavesTable | src/dependencies/asio/asio/any_completion_handler.hpp:745-756 | a called wrapper tests empty and cannot be called again, but keeps its function table |
| HandlerSpec.SpentStepTracks | src/dependencies/asio/asio/any_completion_handler.hpp:653-756 | each operation keeps the set of spent wrappers, those called while they held a target, equal to the set of wrappers with a table and no target |
| HandlerSpec.AllocatorGuardIff | src/dependencies/asio/asio/any_completion_handler.hpp:515-526 | over every run, the test of fn_table_ in the allocator of a wrapper is enough exactly when the wrapper is not spent: the request then reaches an existing target of the table's type, or throws bad_alloc where there is none |
| HandlerSpec.CalledWrapperPassesNull | src/dependencies/asio/asio/any_completion_handler.hpp:515-526 | a wrapper created and called passes a null target to the table |
| CompletionHandler.ImplPool.Create | src/dependencies/asio/asio/any_completion_handler.hpp:90-106 | a target is allocated and constructed, or its memory is given back when the constructor throws |
| CompletionHandler.ImplPool.Delete | src/dependencies/asio/asio/any_completion_handler.hpp:76-88 | destroy, then release |
| CompletionHandler.ImplPool.Call | src/dependencies/asio/asio/any_completion_handler.hpp:178-191 | moved out, destroyed, released, and only then invoked; a throwing move is cleaned up |
| CompletionHandler.AnyCompletionHandler.MoveFrom | src/dependencies/asio/asio/any_completion_handler.hpp:671-677 | the new wrapper takes the target and leaves the old one without target and table |
| CompletionHandler.AnyCompletionHandler.Swap | src/dependencies/asio/asio/any_completion_handler.hpp:718-722 | table and target change places together |
| CompletionHandler.AnyCompletionHandler.Destruct | src/dependencies/asio/asio/any_completion_handler.hpp:699-703 | the target, if any, is destroyed through the table |
| CompletionHandler.AnyCompletionHandler.MoveAssign | src/dependencies/asio/asio/any_completion_handler.hpp:683-689 | the old target is dropped and the other's taken over; a self-move is the identity |
| CompletionHandler.AnyCompletionHandler.AssignNull | src/dependencies/asio/asio/any_completion_handler.hpp:692-696 | the wrapper becomes empty and its target is dropped |
| CompletionHandler.AnyCompletionHandler.Call | src/dependencies/asio/asio/any_completion_handler.hpp:745-756 | throws bad_function_call exactly when empty; otherwise gives up the target before calling it |
| CompletionHandler.Program.Apply | src/dependencies/asio/asio/any_completion_handler.hpp:653-756 | any number of wrapper objects follow the specification, operation by operation |
| CompletionHandler.Simulate | src/dependencies/asio/asio/any_completion_handler.hpp:653-756 | any run of any wrappers: the life of every target, and which targets are left, are those specified |
| Alignment.AlignUpIsFirst | src/dependencies/asio/asio/detail/memory.hpp:54-58 | the address computed is the first multiple of the alignment that is not below the pointer |
| Alignment.StdAlign | src/dependencies/asio/asio/detail/memory.hpp:54-58 | std::align: the first aligned address from which the object fits, or null exactly when there is none |
| HandlerHeap.DecodeInvertsEncode | src/dependencies/asio/asio/any_completion_handler.hpp:148-170 | the offset is read back from its bytes exactly when it fits them |
| HandlerHeap.BlocksApart | src/dependencies/asio/asio/any_completion_handler.hpp:140-150 | live blocks with their trailers are aligned, lie inside their raw blocks and do not overlap |
| HandlerHeap.UserWriteIsSound | src/dependencies/asio/asio/any_completion_handler.hpp:148-150 | a write inside a live block disturbs nobody's trailer |
| HandlerHeap.ObtainIsSound | src/dependencies/asio/asio/any_completion_handler.hpp:141-143 | a new raw block leaves every live block intact |
| HandlerHeap.PlaceIsSound | src/dependencies/asio/asio/any_completion_handler.hpp:145-150 | storing the offset makes the new block intact and keeps the others so |
| HandlerHeap.ReleaseIsSound | src/dependencies/asio/asio/any_completion_handler.hpp:173-174 | giving a raw block back keeps the other blocks intact |
| HandlerHeap.TrailerFindsBase | src/dependencies/asio/asio/any_completion_handler.hpp:169-174 | the trailer leads back to the base, and the length recorded for the block is the raw block's |
| HandlerHeap.AlignSucceedsIff | src/dependencies/asio/asio/any_completion_handler.hpp:140-155 | align succeeds on the space asked for exactly when size + align - 1 does not wrap |
| HandlerHeap.TrailerInsideIff | src/dependencies/asio/asio/any_completion_handler.hpp:140-149 | when it does not, the trailer lies inside the raw block exactly when adding the trailer's length does not wrap either |
| HandlerHeap.CarvedTrailer | src/dependencies/asio/asio/any_completion_handler.hpp:131-156 | for every request that align satisfies: the offset is stored behind the user's bytes, inside the raw block exactly under that condition |
| HandlerHeap.LargestRequestMisplaces | src/dependencies/asio/asio/any_completion_handler.hpp:140-149 | allocate(SIZE_MAX, 1) obtains seven bytes and starts its trailer in front of them |
| HandlerHeap.AllocateIsSound | src/dependencies/asio/asio/any_completion_handler.hpp:131-156 | an allocation whose trailer fits keeps every block intact, whether or not align succeeds |
| HandlerHeap.DeallocateFinds | src/dependencies/asio/asio/any_completion_handler.hpp:158-176 | deallocate computes from the trailer and its arguments the base and the length that were given out |
| HandlerHeap.AllocateIsServed | src/dependencies/asio/asio/any_completion_handler.hpp:131-156 | a request whose trailer fits is served from any raw block clear of the others: the first aligned address becomes a live block, and size + align + 7 bytes are out |
| HandlerHeap.HeldIsServed | src/dependencies/asio/asio/any_completion_handler.hpp:158-176 | a held block can be written at any offset, and goes back with its base and size + align + 7 bytes |
| HandlerHeap.StepAgrees | src/dependencies/asio/asio/any_completion_handler.hpp:131-176 | each operation does what a ledger does that has no trailers |
| HandlerHeap.RunRefinesLedger | src/dependencies/asio/asio/any_completion_handler.hpp:131-176 | over every run: the ledger's live blocks, the ledger's raw blocks, given out and got back in the ledger's order with base and length; and each byte that a user wrote in a block it holds still reads as last written |
| HandlerHeap.RunBalances | src/dependencies/asio/asio/any_completion_handler.hpp:131-176 | over every run, each raw block given out is still out or was got back, once, with its base and its length |
| HandlerHeap.OwnedIffNeverStranded | src/dependencies/asio/asio/any_completion_handler.hpp:140-156 | of the internal function alone, for any sizes and alignments: after any run every raw block still out belongs to a live block exactly when no allocation whose size + align - 1 wraps was granted a raw block |
| HandlerHeap.OddRequestStrands | src/dependencies/asio/asio/any_completion_handler.hpp:140-156 | of the internal function alone: allocate(SIZE_MAX, 2) leaves a raw block of eight bytes without an owner |
| HandlerHeap.OneBlockIsHeld | src/dependencies/asio/asio/any_completion_handler.hpp:131-156 | allocate(4, 8) on a fresh heap: one live block, intact, in a raw block of 19 bytes |
| HandlerAllocator.RequestsNeverWrap | src/dependencies/asio/asio/any_completion_handler.hpp:515-532 | what an allocator for T asks for, (sizeof(T) * n) modulo 2^64 at alignof(T), never makes size + align - 1 wrap, for any n |
| HandlerAllocator.CallersNeverStrand | src/dependencies/asio/asio/any_completion_handler.hpp:515-532 | over every run of such requests, writes and deallocations, of any types, nothing is stranded and every raw block still out belongs to a live block |
| HandlerAllocator.RequestHoldsIff | src/dependencies/asio/asio/any_completion_handler.hpp:515-526 | the request has room for the n objects exactly when sizeof(T) * n does not wrap; it differs from that product by a multiple of 2^64 |
| HandlerAllocator.HugeRequests | src/dependencies/asio/asio/any_completion_handler.hpp:515-526 | 2^61 objects of eight bytes are granted no byte, one more eight bytes; SIZE_MAX chars make the request whose trailer does not fit |
| HandlerAllocator.ElementFits | src/dependencies/asio/asio/any_completion_handler.hpp:515-526 | when the product does not wrap, each of the n objects in a live block is aligned and inside the block |
| HandlerAllocator.HandlerAllocator.Allocate | src/dependencies/asio/asio/any_completion_handler.hpp:515-526 | throws exactly when the handler's allocator does; otherwise the first aligned address in the raw block, with the specified new state, and a sound heap whenever the trailer fits |
| HandlerAllocator.HandlerAllocator.Deallocate | src/dependencies/asio/asio/any_completion_handler.hpp:528-532 | the block that was allocated for n objects goes back with its base and its length |
| HandlerMemory.HandlerImpl.Write | src/dependencies/asio/asio/any_completion_handler.hpp:148-150 | user writes keep the heap sound and follow the specification |
| HandlerMemory.HandlerImpl.Allocate | src/dependencies/asio/asio/any_completion_handler.hpp:131-156 | for every size: bad_alloc exactly when the allocator throws or size + align - 1 wraps, in which case the raw block stays out; otherwise the first aligned address in the raw block, with the trailer where the specification says, and a sound heap whenever the trailer fits |
| HandlerMemory.HandlerImpl.Deallocate | src/dependencies/asio/asio/any_completion_handler.hpp:158-176 | exactly the base and length that were given out go back; null is ignored |
| HandlerMemory.HandlerImpl.Apply | src/dependencies/asio/asio/any_completion_handler.hpp:131-176 | the object follows the specification, operation by operation |
| HandlerMemory.Simulate | src/dependencies/asio/asio/any_completion_handler.hpp:131-176 | any interleaving of allocations, writes and deallocations on the objects: memory, live blocks, raw blocks and both histories are those of the specified run, hence of the ledger, balanced, and owned exactly when nothing was stranded |
| SocketSpec.TransmitReaches | src/dependencies/asio/asio/basic_socket_streambuf.hpp:449-482 | the send loop sends all it has, as far as the socket's script reaches before the event that ends it |
| SocketSpec.ReachIsSum | src/dependencies/asio/asio/basic_socket_streambuf.hpp:449-482 | that reach is the sum of what the events let through before the first that is neither a would-block with a successful poll nor a send of something |
| SocketSpec.TransmitReports | src/dependencies/asio/asio/basic_socket_streambuf.hpp:449-482 | a send loop that falls short leaves in ec_ the reason of the event that ended it, timed_out if none did; one that sends all leaves no error |
| SocketSpec.OverflowSends | src/dependencies/asio/asio/basic_socket_streambuf.hpp:427-499 | overflow puts that much on the wire, succeeds exactly when it is all, and keeps the put area when it is not |
| SocketSpec.OutStepConserves | src/dependencies/asio/asio/basic_socket_streambuf.hpp:427-517 | each operation conserves bytes: what left the buffer, then the put area, is what was there and what was accepted; the bytes doubled are exactly those that a flush reached when it fell short of its put area |
| SocketSpec.OutStepSucceedsIff | src/dependencies/asio/asio/basic_socket_streambuf.hpp:427-517 | sputc accepts exactly when the put area has room or the socket takes all that must go first; sync succeeds exactly when the socket takes the whole put area; setbuf switches to unbuffered mode exactly for setbuf(0, 0) on an empty put area, and nothing else does |
| SocketSpec.OutStepReports | src/dependencies/asio/asio/basic_socket_streambuf.hpp:427-517 | ec_ after each operation: untouched when nothing has to be sent, otherwise what the send loop reports |
| SocketSpec.OutputConservation | src/dependencies/asio/asio/basic_socket_streambuf.hpp:427-517 | over every run, failures and a switch to unbuffered mode included: the wire without the segments of failing flushes, then the put area, is what was accepted, so nothing is lost or reordered |
| SocketSpec.WireExactIff | src/dependencies/asio/asio/basic_socket_streambuf.hpp:427-517 | over every run the whole wire, then the put area, is what was accepted exactly when no flush sent some of its put area and fell short; the excess is the sum of what those flushes sent |
| SocketSpec.WireIsPrefix | src/dependencies/asio/asio/basic_socket_streambuf.hpp:449-482 | up to and including the first flush that fails half-way the wire is a prefix of what was accepted |
| SocketSpec.SyncFlushes | src/dependencies/asio/asio/basic_socket_streambuf.hpp:501-504 | after any run a successful sync leaves the put area empty, and what was accepted is the wire without the segments of failing flushes; it is the whole wire exactly when no flush fell short half-way |
| SocketSpec.RetriedFlushDuplicates | src/dependencies/asio/asio/basic_socket_streambuf.hpp:449-486 | for every buffered state: a flush that fails after one byte and is retried sends that byte twice |
| SocketSpec.OutputRunGood | src/dependencies/asio/asio/basic_socket_streambuf.hpp:506-517 | the put area never exceeds 512 bytes and is empty when unbuffered |
| SocketSpec.InputConservation | src/dependencies/asio/asio/basic_socket_streambuf.hpp:373-425 | over any run what was read, then what is available, is what was received; a refill never exceeds 504 bytes |
| SocketSpec.ReceiveDecides | src/dependencies/asio/asio/basic_socket_streambuf.hpp:382-423 | the first event that is not a would-block decides what the receive loop gets: the bytes that arrived, at most 504, or none with eof, timed_out or the socket's error |
| SocketSpec.GetFinds | src/dependencies/asio/asio/basic_socket_streambuf.hpp:373-425 | a read answers the first character available, or of a refill, which happens only on an empty get area; it takes that character exactly when asked to |
| SocketSpec.UnderflowDeclines | src/dependencies/asio/asio/basic_socket_streambuf.hpp:380-381 | underflow with characters available answers eof and changes nothing; otherwise it is what a read does that takes nothing |
| SocketSpec.AnswersAreReceived | src/dependencies/asio/asio/basic_socket_streambuf.hpp:373-425 | over any run, the characters answered by sbumpc, then those available, are all the bytes that the receive loops gave, in order |
| SocketStreambuf.SocketStreambuf.constructor | src/dependencies/asio/asio/basic_socket_streambuf.hpp:525-535 | empty areas, the get area starting behind the putback area |
| SocketStreambuf.SocketStreambuf.SendAll | src/dependencies/asio/asio/basic_socket_streambuf.hpp:449-482 | the send loop, over partial sends, would-blocks, poll failures, errors and the deadline |
| SocketStreambuf.SocketStreambuf.Overflow | src/dependencies/asio/asio/basic_socket_streambuf.hpp:427-499 | flushes the put area, or sends the character when unbuffered; on failure the put area is unchanged |
| SocketStreambuf.SocketStreambuf.Sputc | src/dependencies/asio/asio/basic_socket_streambuf.hpp:427-499 | buffers the character, flushing first when the area is full |
| SocketStreambuf.SocketStreambuf.Sync | src/dependencies/asio/asio/basic_socket_streambuf.hpp:501-504 | flushes |
| SocketStreambuf.SocketStreambuf.Destruct | src/dependencies/asio/asio/basic_socket_streambuf.hpp:213-217 | the destructor flushes exactly as sync does |
| SocketStreambuf.SocketStreambuf.SetBuf | src/dependencies/asio/asio/basic_socket_streambuf.hpp:506-517 | switches to unbuffered mode exactly for setbuf(0, 0) on an empty put area |
| SocketStreambuf.SocketStreambuf.ReceiveSome | src/dependencies/asio/asio/basic_socket_streambuf.hpp:382-423 | the receive loop, over would-blocks, poll failures, errors, end of file and the deadline |
| SocketStreambuf.SocketStreambuf.Underflow | src/dependencies/asio/asio/basic_socket_streambuf.hpp:373-425 | refills an empty get area from offset 8 and nothing else; answers eof when characters are still available |
| SocketStreambuf.SocketStreambuf.Get | src/dependencies/asio/asio/basic_socket_streambuf.hpp:373-425 | sgetc and sbumpc over refills |
| SocketStreambuf.SimulateOutput | src/dependencies/asio/asio/basic_socket_streambuf.hpp:427-517 | any run of output operations on the object, with both conservation laws |
| SocketStreambuf.SimulateInput | src/dependencies/asio/asio/basic_socket_streambuf.hpp:373-425 | any run of reads on the object, with the conservation law |

## Left out

- HandlerHeap.RunRefinesLedger: runs of requests whose trailer fits the raw block, which leaves out the eight largest sums size + align - 1 below 2^64; what those do is stated by HandlerHeap.CarvedTrailer and HandlerMemory.HandlerImpl.Allocate, and nothing is promised of the heap afterwards, because the program then owns neither the trailer nor most of the block.
- HandlerMemory.Simulate: the same runs as HandlerHeap.RunRefinesLedger.
- StreamBufSpec.RunRefinesFifo: answers and contents for runs whose commits stay inside what was prepared, as the documentation demands, and whose counts are exact; StreamBufSpec.InStepIffClean says that the others differ from the FIFO, and StreamBufPositions says what they do to the positions, but not which stale bytes a get position that moved back shows.
- StreamBufSpec.RunConservesBytes: the same runs as StreamBufSpec.RunRefinesFifo.
- StreamBuf.Simulate: the same runs as StreamBufSpec.RunRefinesFifo.
- Client.TcpClient.Notify: one method for the four senders, which differ only in the JSON they dump; overlapping async_write calls that reuse `message_` are not modelled, and each write is taken to go out whole.
- StreamBuf.StreamBuf.Consume: the pointer sum is modelled on a flat 64-bit address space; ISO C++ leaves a sum beyond the array undefined.
- StreamBuf.StreamBuf.constructor: the first resize, of at most 128 bytes, is taken to succeed. Later ones answer as a parameter says; a resize within the vector's capacity is the case in which the array stays where it is.
- JSON parsing and dumping: parse and dump are parameters. That a dump contains no CR LF (section 7 of RFC 8259 escapes control characters) is a hypothesis where it is needed.
- A SyncModule is the allocation it came from and its name; its other fields, SyncInfo, and the constructors' file-system checks are plain copying.
- Client.SyncTable.OnModulesFetched: the list alone; the notifications to QML that are emitted besides are not modelled.
- The whole of MainWindow, AddSyncModule, ErrorModal and main.cpp: user-interface plumbing.
- Erasing from `msg` and from `modules` is an assignment to a sequence: the shifting of elements inside std::string and std::vector is not modelled.
- start_connection, connect, close, resolver and timeout: their meaning rests on the network.
- The send and receive scripts end: an operation whose script runs out has passed its deadline, so an operation that waits forever is not modelled. Failures of native_non_blocking are not modelled either.
- Moving and closing a socket streambuf, and putback: they do not preserve, or do not touch, buffered data.
- HandlerSpec.AllocatorGuardIff: an allocator asked for at the time of its use; one kept from before a call has copied a pointer to a target that is gone.
- The executor and cancellation-slot associations of a completion handler, and allocators for void, which allocate nothing.
- The other asio headers: forwarding wrappers and compile-time code. helper::getQmlClasstype and vectorToString: easy members.
