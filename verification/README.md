# Verified model of aleakd

aleakd is a leak detector. A client library, preloaded into a program, hooks the allocation functions, stamps a message for every
call, and batches the messages into a byte stream. A server cuts the stream back into messages and keeps a ledger: which memory is
held, by which thread, with which backtrace, and how much was held when. This project models that pipeline in Dafny and proves what
it promises, and exactly how far.

| part | files |
|---|---|
| packed layouts and messages | `Packed.dfy`, `Messages.dfy`, `WireFormat.dfy` (every field at its offset) |
| the server's reader | `Framing.dfy` (values), `Receiver.dfy` (the class), `Chunking.dfy` (any cut into reads), `Versions.dfy` |
| the client's connection | `Transfer.dfy` (the globals as a class, batching), `Delivery.dfy` (client writes to server reads), `Connections.dfy` (failed openings, disposal) |
| the ledger on values | `Words.dfy`, `Lists.dfy`, `Operations.dfy`, `Threads.dfy`, `UsageChart.dfy`, `Ledger.dfy` |
| laws of the ledger | `Totals.dfy`, `Charging.dfy`, `Attribution.dfy`, `AttributionExact.dfy`, `ThreadSums.dfy`, `ThreadRecords.dfy`, `Received.dfy`, `Peaks.dfy`, `Filter.dfy`, `FilterExact.dfy`, `Streams.dfy`, `Holdings.dfy` |
| the ledger on shared objects | `Controller.dfy` |
| the client under threads | `Interleaving.dfy` (the step system), `ClientStream.dfy`, `Runs.dfy` (runs step by step), `ClientHeap.dfy`, `ClientEndings.dfy`, `Contents.dfy` (what the messages say) |
| the symbol cache | `SymbolCache.dfy`, `CacheUse.dfy`, `SymbolSending.dfy` |
| end to end | `Pipeline.dfy`, `ShownCalls.dfy`, `ClientThreads.dfy`, `SymbolSession.dfy`, `HookTraces.dfy` |

The classes follow the source: fields updated in place, operation and thread objects shared by several lists, loops with the
source's branches. Each method is proved to compute a function on values, and the laws are proved about those functions over every
run. Ghost lists of places say where the items of an index are in the full list; they make aliasing explicit.

The hooks are modelled as a step system, because their threads interleave: the call of the real function, the stamp under one
lock, the send under another, and the return are separate steps of each thread. Reads and writes are sequences of byte sequences;
times, thread ids, what the linker knows of an address and what the allocator returns are parameters.

Where the code does not do what its comments or names suggest, the model follows the code:

- `doReadMsg` always returns false; its result is never set (`server/Server/MemOpRcptServer.cpp:105-140`).
- A backtrace is decoded only when 31 bytes more than its own data follow its header, because the test takes the size of the whole
  message (line 299). A read that completes no message ends the loop and drops what was read (lines 133-136), so the reader is safe
  for all streams only if every read but the last has at least 467 bytes.
- `calloc` reports `size`, not `num * size` (`lib/wrapper.c:268`). The size in the model is the one reported.
- `clearData` does not clear the list of threads alive, and `reset` does not clear the peak.
- The usage table copies the current size into 32 bits before it compares. A late record is in the table but is not shown.
- "Not supposed to occurs" (line 304 of the controller) is true exactly while no allocation has a number before that of the creation
  that opened its entry (`Charging.FallbackExactly`). The search can find the wrong entry without falling back: it is right exactly
  while, moreover, no creation has a number before that of an allocation of its id that is not freed yet
  (`AttributionExact.AttributionExactly`). Each thread sends its own messages in order, but the message of a creation is sent by the
  creating thread, after the new thread may have started, and stamp and send are under different locks:
  `ClientThreads.LateCreationMischarges` is a run in which the fallback is taken,
  `ClientThreads.LateMessageMisleads` one in which it is not and the search goes wrong.
- Messages of hooks that run before the connection is open are kept and written behind the opening, although they have smaller
  numbers (`lib/server-comm.c:118-131`): `Runs.OpeningOutOfOrder`.
- The hooks report `realloc` after it has acted, which is the one way in which the reports of an address can fail to alternate.

The 64-bit sums of the server are modelled with their wrap-around. Nothing here was executed.

## Model

| member | source | states |
|---|---|---|
| Packed.UnpackPack | shared/server-msg.h:14-115 | the fields copied into a packed record, of any layout, are the fields copied out of it |
| Packed.UnpackFront | shared/server-msg.h:14-115 | a buffer that begins with the image of a record reads back as that record, whatever bytes follow it |
| Messages.LayoutSizes | shared/server-msg.h:14-115 | the five packed layouts have 0, 28, 32, 405 and 376 bytes of data behind a header of 29 |
| Messages.DecodeValues | server/Server/MemOpRcptServer.cpp:222-341 | for every well-formed message of every kind, names and address lists included, decoding its fields leads to the handler calls the message stands for |
| WireFormat.IntBytes | shared/server-msg.h:14-115 | byte j of an integer is its j-th digit in base 256, the lowest first |
| WireFormat.HeaderFields | shared/server-msg.h:12-36 | every message begins with the bytes 1 and 0, then at fixed offsets seconds, microseconds, thread, number and code |
| WireFormat.MemoryFields | shared/server-msg.h:42-58 | the 59 bytes of a memory message: size at 31, address at 39, count at 47, address given back at 51 |
| WireFormat.ThreadFields | shared/server-msg.h:64-77 | the 63 bytes of a thread message: thread at 31, name at 39 up to its zero |
| WireFormat.BacktraceFields | shared/server-msg.h:83-95 | the 436 bytes of a backtrace: number of its operation at 31, length at 35, address i at 36 + 8i |
| WireFormat.SymbolFields | shared/server-msg.h:101-115 | the 407 bytes of a symbol: address, object name and address, symbol name and address |
| Framing.ParseCut | server/Server/MemOpRcptServer.cpp:170-345 | a well-formed stream cut off anywhere: its first message is recognised exactly when the bytes it needs are there, then with its true length and calls; before that there is no handler call |
| Framing.ParseStable | server/Server/MemOpRcptServer.cpp:170-345 | what has been decided about the front of a buffer stays decided when more bytes arrive, for any bytes |
| Framing.ParseProgress | server/Server/MemOpRcptServer.cpp:143-168 | 467 bytes are always enough to decide about the first message |
| Framing.CarryBound | server/Server/MemOpRcptServer.cpp:122-138 | whatever the bytes, at most 466 are carried over to the next read |
| Versions.RefusedExactly | server/Server/MemOpRcptServer.cpp:170-194 | a message is refused (-1, no handler call) if and only if its first two bytes are there and are not 1 and 0, whatever follows |
| Versions.CodeDecides | server/Server/MemOpRcptServer.cpp:196-345 | for any bytes of version 1: the tens of the code byte fix how many bytes are taken and which one call is made; codes of no kind are skipped with the header, but for 1, which is a new connection |
| Versions.DrainStops | server/Server/MemOpRcptServer.cpp:143-168 | the messages before one of another version are handed over, nothing from it on is |
| Versions.ReaderStops | server/Server/MemOpRcptServer.cpp:103-141 | the loop then makes no further read, whatever the device still holds |
| Versions.CountedSince | server/Server/MemOpRcptServer.cpp:196-220 | the message counter of the reader is the number of messages since the last opening, that one included |
| Receiver.MemOpRcptServer.DoProcessMsgV1 | server/Server/MemOpRcptServer.cpp:196-345 | one message after its version field: size, handler call and message count, or nothing touched when it is incomplete |
| Receiver.MemOpRcptServer.DoProcessMsg | server/Server/MemOpRcptServer.cpp:170-194 | the three outcomes of a message: consumed, incomplete (0), other version (-1) |
| Receiver.MemOpRcptServer.DoProcessDataRead | server/Server/MemOpRcptServer.cpp:143-168 | a pass hands over all messages that are there, in order, and returns the bytes used, or -1 for another version even after messages have been handed over |
| Receiver.MemOpRcptServer.DoReadMsg | server/Server/MemOpRcptServer.cpp:103-141 | the reading loop over the 8192-byte buffer computes `Framing.Receive` of the bytes read, whichever reads fail in between; no access is out of bounds; the result is always false |
| Receiver.MemOpRcptServer.ShiftDown | server/Server/MemOpRcptServer.cpp:126-131 | the unread bytes end up at the front of the buffer although the ranges may overlap (forward copy) |
| Chunking.ReceiveCut | server/Server/MemOpRcptServer.cpp:103-141 | for every cut of a stream into reads, from any position: exactly the first `Handed` messages are handed over, in order, once each |
| Chunking.ReadInFullExactly | server/Server/MemOpRcptServer.cpp:103-141 | a stream is read in full, but for a final backtrace, if and only if every read completes a message or none is left to complete |
| Chunking.LongReadsCount | server/Server/MemOpRcptServer.cpp:113-138 | reads of at least 467 bytes, all but the last, always do |
| Chunking.SafeReadSizeExactly | server/Server/MemOpRcptServer.cpp:113-138 | 467 is the least read size that is safe for every stream and every cut |
| Chunking.ShortReadLosesMessages | server/Server/MemOpRcptServer.cpp:133-136 | a stream and a read of 466 bytes after which the loop gives up and messages are lost |
| Transfer.ServerComm.Send | lib/server-comm.c:187-215 | one send: written at once, or added to the transfer buffer, which is written first if it would fill up |
| Transfer.ServerComm.SendSafe | lib/server-comm.c:217-237 | before there is a socket the bytes go to the pre-init buffer |
| Transfer.ServerComm.MsgHeaderInit | lib/server-comm.c:239-255 | every header gets the next number |
| Transfer.ServerComm.Init | lib/server-comm.c:89-142 | the opening goes out first and alone, then the pre-init data, then buffering begins; with the error paths of a missing pipe and a failed open |
| Transfer.ServerComm.Dispose | lib/server-comm.c:144-159 | the rest of the transfer buffer is written and buffering ends |
| Transfer.BatchKeepsAll | lib/server-comm.c:187-215 | for every list of messages: what was written followed by what waits is the list, nothing lost, repeated or moved |
| Transfer.BatchBounds | lib/server-comm.c:187-215 | the transfer buffer never fills up, and every write it forces is of 3660 to 4095 bytes |
| Transfer.SendAllIsBatch | lib/server-comm.c:187-215 | the byte-level sends are those batches: every write and the buffer hold whole messages |
| Transfer.SessionWrites | lib/server-comm.c:110-159 | the writes of a whole session, from pre-init messages to the disposal |
| Connections.AllGoesOutExactly | lib/server-comm.c:89-142 | what was sent before the opening, the opening and what comes after all go out, the opening first, if and only if the descriptor is positive |
| Connections.FailedOpening | lib/server-comm.c:89-142 | without a pipe, or when it cannot be opened, nothing is ever written: all messages stay in the pre-init buffer, the opening is not sent, and the disposal does nothing |
| Connections.ZeroDescriptor | lib/server-comm.c:110-131 | a descriptor 0 is a failure for the opening but a socket for what follows: the opening is not sent, what came before is never written, later messages are |
| Connections.DisposedWritesAtOnce | lib/server-comm.c:144-215 | the disposal writes what waits and ends the buffering: every later message is a write of its own, at once; a second disposal writes nothing |
| Delivery.WritesReadInFull | server/Server/MemOpRcptServer.cpp:103-141 | messages written in groups and read write by write arrive in full exactly when no group but the last is a backtrace alone with nothing held back before it |
| Delivery.SessionDelivered | lib/server-comm.c:110-215 | for every session: reading write by write leads to the handler calls of its messages, in order, once each, up to a final backtrace, exactly unless a single backtrace is all that was sent before the opening and more came after |
| Delivery.SessionReadsFit | server/Server/MemOpRcptServer.cpp:113-115 | no write of a session is longer than one read |
| Operations.FreedIsLive | server/Model/MemoryOperation.cpp:90-107 | what a look-up by a non-zero address finds is not freed, is of an indexed kind and has that address, although frees are indexed too |
| Operations.AddIndexed | server/GUIController/QApplicationWindowController.cpp:178-189 | every operation received keeps both search indexes equal to the order-preserving filters of the full list |
| Operations.AttachIndexed | server/GUIController/QApplicationWindowController.cpp:354-361 | so does every backtrace |
| Operations.AttachExactly | server/Model/MemoryOperation.cpp:109-126 | a backtrace goes to the last operation of the full list that has its number and no backtrace yet, and changes nothing else |
| Operations.FreedIsFullScanExactly | server/Model/MemoryOperation.cpp:90-107 | the search of the short list gives what a backwards scan of the full list gives, exactly unless that scan stops at a kind that is never indexed |
| Operations.ForwardSearchExactly | server/Model/MemoryOperation.cpp:73-88 | the forward search agrees with the backward one exactly when at most one operation holds the address |
| Threads.WindowsDisjoint | server/Model/ThreadInfos.cpp:55-72 | no number lies in the windows of two entries of one thread id |
| Threads.OwnerFound | server/GUIController/QApplicationWindowController.cpp:339-351 | if one entry, and no other listed one of its thread id, has a number in its window, the search of the threads alive and then of all listed finds that entry |
| Threads.OwnerExactly | server/GUIController/QApplicationWindowController.cpp:339-351 | whatever the windows are: the search gives the first entry alive whose window holds the number, else the first listed one, else none |
| Threads.GetWindowed | server/GUIController/QApplicationWindowController.cpp:313-337 | getting or recycling an entry keeps the windows apart, and the entry got is the newest of its id |
| Totals.RunTallies | server/GUIController/QApplicationWindowController.cpp:191-254 | at any moment of any run, connections included, the statistics kept call by call are the sums over the list of operations |
| Totals.Conservation | server/GUIController/QApplicationWindowController.cpp:198-209 | remaining = allocated - freed = what the operations not marked as freed hold, as 64-bit numbers |
| Totals.AllocCounts | server/GUIController/QApplicationWindowController.cpp:213-253 | the number of allocations is the sum of the eight allocator counters |
| Totals.RemainingCountLaw | server/GUIController/QApplicationWindowController.cpp:213-254 | the remaining count is the number of operations that hold memory minus the frees that found nothing |
| Totals.RemainingCountExactly | server/GUIController/QApplicationWindowController.cpp:213-254 | it is the number of operations that hold memory if and only if no free or realloc missed |
| Totals.RunTimes | server/GUIController/QApplicationWindowController.cpp:193-196 | the start time is the first that was set, the last time that of the last operation |
| Totals.MessagesCounted | server/GUIController/QApplicationWindowController.cpp:734-740 | the message count is the number of calls since the last connection, that one included |
| Received.OperationsReceived | server/Server/MemOpRcptServer.cpp:222-245 | over every run: the k-th operation of the ledger has time, number, code, thread, size, address, count and freed address of the k-th memory operation received since the last connection |
| Received.CountersReceived | server/GUIController/QApplicationWindowController.cpp:213-253 | each of the nine counters is the number of memory operations received since the last connection whose header has that code |
| Received.TotalsReceived | server/GUIController/QApplicationWindowController.cpp:198-254 | the operation count, the allocation and free counts and the bytes allocated, in terms of the calls received |
| Charging.SessionSettled | server/GUIController/QApplicationWindowController.cpp:283-337 | while no allocation has a number before that of the creation that opened its entry, each operation stays in the window of the entry it was charged to, whatever creations pass |
| Charging.FallbackExactly | server/GUIController/QApplicationWindowController.cpp:300-311 | for every session of a client: at every moment the search by number finds some entry for each operation still to be freed, so that no free falls back, if and only if no allocation has a number before that of the creation that opened its entry |
| Attribution.SessionAccounted | server/GUIController/QApplicationWindowController.cpp:260-351 | through every session in which no allocation has a number before that of the creation that opened its entry, and no creation one before that of an allocation of its id still unfreed, each operation not freed is in the window of the entry it was charged to and of no other of its id, also when ids are used again, and each entry has the size and count of the operations it holds |
| Attribution.IncreasingNonePassed | server/GUIController/QApplicationWindowController.cpp:260-351 | a session in which the numbers increase for each thread id is one |
| Attribution.SessionWindowed | server/GUIController/QApplicationWindowController.cpp:260-351 | and in such a one the windows of an id do not meet at all |
| Attribution.NumberOrderIncreases | server/GUIController/QApplicationWindowController.cpp:260-351 | a stream whose memory and thread messages are in number order increases for each thread id |
| Attribution.FreeFindsOwner | server/GUIController/QApplicationWindowController.cpp:300-311 | while none is passed a free finds the very entry that was charged, the one that owns the operation: the fallback is never taken |
| Attribution.SizesExact | server/GUIController/QApplicationWindowController.cpp:300-311 | then, while less than 2^64 bytes are held the entry sizes, and while less than 2^32 operations are held by an entry its count, are exact, and neither subtraction wraps |
| AttributionExact.AttributionExactly | server/GUIController/QApplicationWindowController.cpp:300-351 | for every session of a client: the search by number leads each operation still to be freed to the entry it was charged to, at every moment and whichever thread allocates next, if and only if moreover no creation has a number before that of an operation of its id that is still to be freed when it comes; creations may pass each other |
| ThreadSums.SessionSums | server/GUIController/QApplicationWindowController.cpp:283-311 | for any message numbers the sizes of the listed threads add up to what the operations with an address hold |
| ThreadSums.ListedIsRemainingExactly | server/GUIController/QApplicationWindowController.cpp:198-212 | that is the remaining size if and only if operations without an address hold nothing |
| ThreadSums.FirstConnection | server/GUIController/QApplicationWindowController.cpp:144-172 | the first connection of a new controller starts such a session |
| ThreadSums.NewConnectionExactly | server/GUIController/QApplicationWindowController.cpp:144-172 | after any later connection the thread sizes can be relied on, whatever follows, if and only if no thread was left in the list of threads alive, which is not cleared |
| ThreadRecords.EntryRecords | server/GUIController/QApplicationWindowController.cpp:283-298 | over every run, connections included: the peak of an entry is the highest current size it has had just after a charge, and its number of allocations is that of its charges, modulo 2^32 |
| ThreadRecords.EntryStory | server/GUIController/QApplicationWindowController.cpp:260-337 | over every run: an entry is created at the time of the call that makes it, has the last name sent for its id while it was not ended, and has ended, at that time, if and only if a later creation of its id came |
| Peaks.PeakIsHighest | server/GUIController/QApplicationWindowController.cpp:199-205 | over a whole run, resets included, the peak is the highest remaining size before anything was taken off |
| Peaks.PlayIsChartRun | server/GUIController/QApplicationWindowController.cpp:577-623 | usage table and chart of the server run as the chart model does |
| Peaks.LedgerChartInSync | server/GUIController/QApplicationWindowController.cpp:577-623 | after every tick of a run whose times do not go back the chart shows the usage table |
| Peaks.ChartWithinRange | server/GUIController/QApplicationWindowController.cpp:612-622 | while sizes do not wrap, every point lies within the range it is drawn with |
| Peaks.PointsDrawn | server/GUIController/QApplicationWindowController.cpp:612-622 | every point of the chart was drawn by a tick of the run that found its size in the usage table, and is drawn from the start time to the peak as they were then |
| Peaks.ThreadPeaksBounded | server/GUIController/QApplicationWindowController.cpp:291-296 | in a session in which no creation is passed, while less than 2^64 bytes are held at any moment, no thread peak exceeds the global peak |
| Peaks.PeakCovers | server/GUIController/QApplicationWindowController.cpp:291-296 | and no thread of that session holds more than its own peak |
| UsageChart.MemoryUsage.Update | server/Model/MemoryUsage.cpp:35-50 | the update of the table, with its 32-bit copy of the current size |
| UsageChart.MemoryUsage.Clear | server/Model/MemoryUsage.cpp:18-23 | an empty table |
| UsageChart.UpdateIsMaxExactly | server/Model/MemoryUsage.cpp:35-50 | an entry goes on to hold the maximum, whatever is recorded next, if and only if it survives the copy into 32 bits |
| UsageChart.TableHoldsMaxima | server/Model/MemoryUsage.cpp:35-50 | with sizes below 2^31 the table holds the maximum recorded for each second |
| UsageChart.TickSyncs | server/GUIController/QApplicationWindowController.cpp:584-622 | a tick makes the chart show the table, whatever changed since the last one |
| UsageChart.TickAppends | server/GUIController/QApplicationWindowController.cpp:584-622 | a tick leaves the points drawn before, and appends one for each second that is not shown as it is in the table and for no other, in the order of time, with the range of the tick |
| UsageChart.TickTwice | server/GUIController/QApplicationWindowController.cpp:584-622 | a second tick with nothing recorded in between changes nothing |
| UsageChart.Republished | server/GUIController/QApplicationWindowController.cpp:610-622 | what a tick collects in its own table and then walks through is just what was new |
| UsageChart.ChartRefinesTable | server/GUIController/QApplicationWindowController.cpp:584-622 | wherever the ticks fall, after each the chart shows each second of the table, and no other, with its size |
| UsageChart.ChartShowsMaxima | server/GUIController/QApplicationWindowController.cpp:584-622 | with sizes below 2^31 that is the maximum recorded in the second |
| UsageChart.LateRecordExactly | server/GUIController/QApplicationWindowController.cpp:584-605 | a record for an earlier second is shown by the next tick if and only if it is not before the last second published, or did not change the table |
| Filter.ScanTallies | server/GUIController/QApplicationWindowController.cpp:411-495 | a pass finds the sums over what it selects |
| Filter.BatchIsIncremental | server/GUIController/QApplicationWindowController.cpp:407-496 | at any moment of any run a pass without criteria finds all the running totals and the nine counters |
| Filter.PassesPartition | server/GUIController/QApplicationWindowController.cpp:423-427 | passes for distinct threads select each operation of those threads exactly once, whatever is summed |
| Filter.PassesAddUpExactly | server/GUIController/QApplicationWindowController.cpp:423-427 | they add up to the pass without criteria, whatever is summed, if and only if every caller is among them |
| FilterExact.SelectedExactly | server/GUIController/QApplicationWindowController.cpp:411-440 | what any criteria select: the operations of the thread, in microseconds between the two times, ends included, and of these those that hold memory, if that is asked for |
| FilterExact.NotFreedPass | server/GUIController/QApplicationWindowController.cpp:416-421 | on the ledger of any list of messages of a client the pass for what is not freed selects, in order, the operations of just those allocations that no later message has freed |
| FilterExact.NotFreedRemaining | server/GUIController/QApplicationWindowController.cpp:411-495 | and the size it adds up is the remaining size of the server |
| FilterExact.PassesSplit | server/GUIController/QApplicationWindowController.cpp:429-438 | a pass up to a time and one from a microsecond later split the list, whatever is summed |
| Controller.GetPtrNotFreed | server/Model/MemoryOperation.cpp:73-88 | the first operation that holds the address, or none |
| Controller.TakeByPtrNotFreed | server/Model/MemoryOperation.cpp:90-107 | the last operation that holds the address, taken out of the list, or the list as it was |
| Controller.TakeByMsgNum | server/Model/MemoryOperation.cpp:109-126 | the last operation with the number, taken out of the list |
| Controller.GetById | server/Model/ThreadInfos.cpp:39-53 | the first entry of the id |
| Controller.GetByIdAndMsgNum | server/Model/ThreadInfos.cpp:55-72 | the first entry of the id whose window holds the number |
| Controller.RemoveById | server/Model/ThreadInfos.cpp:74-88 | the list without the entries of the id, the others in order |
| Controller.MemoryStats.Reset | server/Model/MemoryStats.cpp:42-72 | everything is set back but the peak |
| Controller.MemoryStats.RecordOperation | server/GUIController/QApplicationWindowController.cpp:191-254 | the statistics after one more operation and the one it frees |
| Controller.QApplicationWindowController.ClearData | server/GUIController/QApplicationWindowController.cpp:144-172 | the lists, symbols, statistics and chart are emptied, the list of threads alive is not |
| Controller.QApplicationWindowController.TakeFreed | server/GUIController/QApplicationWindowController.cpp:178-184 | the operation that holds the address leaves the index and is marked, in the same shared object that the other lists hold |
| Controller.QApplicationWindowController.AddMemoryOperation | server/GUIController/QApplicationWindowController.cpp:174-258 | on shared objects in three lists, two of them indexes, this is the step of the ledger on values |
| Controller.QApplicationWindowController.UpdateThreadInfos | server/GUIController/QApplicationWindowController.cpp:260-281 | creation, naming and other thread messages |
| Controller.QApplicationWindowController.UpdateThreadInfosAddAlloc | server/GUIController/QApplicationWindowController.cpp:283-298 | one entry is charged, all others stay |
| Controller.QApplicationWindowController.UpdateThreadInfosAddFree | server/GUIController/QApplicationWindowController.cpp:300-311 | one entry is discharged, the one found by number or else that of the thread |
| Controller.QApplicationWindowController.GetThreadInfos | server/GUIController/QApplicationWindowController.cpp:313-337 | a thread created again gets a new entry and the old one ends |
| Controller.QApplicationWindowController.GetThreadInfosForMsgNum | server/GUIController/QApplicationWindowController.cpp:339-351 | the owner by number, first among the threads alive, then among all |
| Controller.QApplicationWindowController.AddBacktrace | server/GUIController/QApplicationWindowController.cpp:354-366 | the backtrace is put into the shared operation and the operation leaves the index |
| Controller.QApplicationWindowController.AddSymbolInfos | server/GUIController/QApplicationWindowController.cpp:368-379 | the first symbol of an address stays |
| Controller.QApplicationWindowController.OnHandlerCall | server/GUIController/QApplicationWindowController.cpp:734-760 | every handler call keeps the object structure valid and does to it what it does to the ledger on values |
| Controller.QApplicationWindowController.OnFilterButtonClicked | server/GUIController/QApplicationWindowController.cpp:407-496 | the pass selects just the accepted operations, in order, recomputes the search statistics from them and changes nothing else |
| Controller.QApplicationWindowController.CollectUpdate | server/GUIController/QApplicationWindowController.cpp:584-605 | the first loop of the publisher collects just what is new, and the size of the last second |
| Controller.QApplicationWindowController.AppendPoints | server/GUIController/QApplicationWindowController.cpp:610-622 | the second loop appends one point for each second collected |
| Controller.QApplicationWindowController.OnTimerUpdate | server/GUIController/QApplicationWindowController.cpp:577-623 | a tick on the objects is a tick of the chart model |
| Streams.LedgerShowsLive | server/GUIController/QApplicationWindowController.cpp:174-189 | in the ledger of any list of messages that alternates on an address one operation holds it if it is live, none if it is not |
| Holdings.LedgerHolds | server/GUIController/QApplicationWindowController.cpp:174-189 | for any list of messages, alternating or not: the operations of the ledger that are not freed are, in order and in every field, the allocations left when each free takes back the last one of its address |
| Streams.OriginFound | server/Model/MemoryOperation.cpp:109-126 | the search in the index without backtraces finds the one untraced operation with the number |
| Streams.BacktracesAttached | server/GUIController/QApplicationWindowController.cpp:354-361 | if numbers are unique and backtraces follow their operations, the look-up never misses: every operation has the backtrace sent for it and no other |
| ClientStream.RunKept | lib/server-comm.c:187-255 | from before the first call on, what every interleaving of all hooks and of the opening keeps: sane stamped messages, numbers, order, backtraces, connection |
| ClientStream.NumbersExactlyOnce | lib/server-comm.c:239-255 | in every reachable state, opened or not, each of the numbers 1..g_iMsgNum is with exactly one message sent or one thread about to send, and there are no others |
| ClientStream.QuietCount | lib/server-comm.c:239-255 | when no thread is between stamp and send, as many messages were sent as numbers given out |
| ClientStream.ThreadOrder | lib/server-comm.c:239-255 | without the opening, the messages of each thread are always in the stream in the order of their numbers |
| ClientStream.ThreadOrderExactly | lib/server-comm.c:110-131 | with the opening they are if and only if the thread that opened the connection had sent nothing before, because what was sent before is written behind the opening |
| Runs.OpeningOutOfOrder | lib/server-comm.c:110-131 | a run of one thread that sends before it opens the connection, and whose stream begins with number 2 and then 1 |
| ClientStream.StreamIsWhole | lib/server-comm.c:187-237 | under every interleaving the bytes written and waiting, or those kept before the connection is open, are the messages sent, whole and in order |
| Contents.MessagesTell | lib/wrapper.c:205-347 | under every interleaving: the message with number n is that of the n-th stamp of the run; it has the thread and time of that step, and a report has the function, size, count, address and source of the call its thread had entered, what follows it what that step was given |
| ClientHeap.ReportsAlternateExactly | lib/wrapper.c:205-347 | the reports of an address alternate - allocation, free, allocation - if and only if no report of an allocation of it overtakes that of a realloc that has left it |
| ClientHeap.WithoutResizeInOrder | lib/wrapper.c:205-347 | allocations and frees alone meet that under every interleaving |
| ClientHeap.LiveExactly | lib/wrapper.c:205-347 | what the stream says is live is what has been reported and not taken back; with no hook at work on the address, what the real allocator has handed out |
| ClientEndings.OvertakenMisleads | lib/wrapper.c:285-317 | once the report of an allocation has overtaken that of the realloc that left the address: however the hooks at work end, the program then holds the address and the stream says that it is free |
| ClientEndings.InOrderExactly | lib/wrapper.c:205-347 | no report is overtaken in a run if and only if at each of its moments the hooks at work can still end, without any new call, so that the stream says just what the program holds |
| ClientHeap.ReallocMisleads | lib/wrapper.c:285-317 | a run with realloc after which the program holds an address and the stream says it is free |
| ClientHeap.SentOrdinary | lib/wrapper.c:205-347 | after the opening the client sends nothing that restarts the server |
| Pipeline.ReadUpDelivers | server/Server/MemOpRcptServer.cpp:103-141 | whatever the interleaving and whatever was sent before the opening, what the client wrote up to its disposal is handed over message by message, read write by write or in reads of at least 467 bytes, but for a final backtrace |
| Pipeline.ServerShowsOnRecord | server/GUIController/QApplicationWindowController.cpp:174-189 | end to end: after that the server, whatever it had seen before, shows an address as not freed, and once, just if it was reported as allocated and not taken back |
| ShownCalls.ServerShowsCall | lib/wrapper.c:205-347 | end to end: the one operation shown as not freed for an address on record has the function, size, count and thread of the call that got the address last |
| ShownCalls.ServerShowsCalls | lib/wrapper.c:205-347 | end to end: every operation shown, freed or not, shows a call that a thread had entered when it stamped the message of that number |
| Pipeline.ServerShowsTraces | server/GUIController/QApplicationWindowController.cpp:354-361 | end to end: each operation shown has its own backtrace if one was sent and got through, and no other |
| ClientThreads.FollowByPairs | server/GUIController/QApplicationWindowController.cpp:283-298 | the condition for the fallback in terms of pairs of messages: a creation has a smaller number than the allocations of its id up to the next creation |
| ClientThreads.NonePassedByMessages | server/GUIController/QApplicationWindowController.cpp:283-351 | the condition on the server in terms of messages: no allocation has a smaller number than the last creation of its id before it, and no creation a smaller one than an allocation of its id that the messages before it have not freed |
| ClientThreads.ClientFallbackExactly | lib/server-comm.c:187-255 | under every interleaving, on a server that takes no thread to be alive at the opening: at every moment each operation still to be freed has an owner by number if and only if in the stream of the client no allocation has a number before that of the creation that opens its entry |
| ClientThreads.ClientAttributionExactly | lib/server-comm.c:187-255 | under every interleaving, on such a server: the search by number always leads to the entry that was charged, for each operation still to be freed and whichever thread allocates next, if and only if that condition holds of the stream of the client |
| ClientThreads.ServerAttributes | server/GUIController/QApplicationWindowController.cpp:260-351 | end to end: then, when all has been read, each operation not freed is found where it was charged and is in the window of no other entry of the session, and each entry has the size and count of what it holds |
| ClientThreads.LateRun | lib/wrapper.c:538-560 | a run without realloc in which the message of a creation comes between the stamp and the send of the new thread |
| ClientThreads.LateCreationMischarges | server/GUIController/QApplicationWindowController.cpp:300-311 | in the stream of that run the search for the owner finds no entry, and the server takes the fallback and charges the free to a thread that has allocated nothing, below zero |
| ClientThreads.LateMessageMisleads | server/GUIController/QApplicationWindowController.cpp:300-351 | a run in which only the message of a creation is late: the server never falls back, and yet comes to find the wrong entry as soon as the thread allocates again |
| SymbolCache.AddrCache.constructor | lib/backtrace.c:20-27 | all slots are unused |
| SymbolCache.AddrCache.CheckAddr | lib/backtrace.c:47-73 | one scan of the two arrays: found and counted, or put in the place of the first slot with the least count |
| SymbolCache.CheckTidy | lib/backtrace.c:47-73 | used slots stay a prefix and hold different addresses |
| SymbolCache.CheckLaws | lib/backtrace.c:47-73 | a look-up hits just if the address is there; only a miss with every slot in use gives up an address, one with the least count |
| CacheUse.CountsAreUses | lib/backtrace.c:47-73 | for every list of look-ups the count of a slot in use is the number of look-ups of its address since it was last missed, that one included |
| CacheUse.LeastUsedGivenUp | lib/backtrace.c:60-71 | so the address given up is one with the fewest look-ups since it came in, and the first of these |
| CacheUse.UnusedTaken | lib/backtrace.c:55-71 | while a slot is unused the first such one is taken and no address is given up |
| SymbolCache.EvictedMisses | lib/backtrace.c:68-69 | an address given up is missed the next time |
| SymbolCache.MissedOnce | lib/backtrace.c:47-73 | while no more distinct addresses were looked up than there are slots, each but 0 is missed exactly the first time |
| SymbolCache.OneTooMany | lib/backtrace.c:68-69 | with one address more than there are slots one is missed a second time |
| SymbolSending.BacktraceSend | lib/wrapper.c:152-203 | the messages sent are the backtrace and then the symbols of just the addresses the cache missed, in order and with consecutive numbers |
| SymbolSending.SymbolsComplete | lib/wrapper.c:152-203 | in every sequential run, whatever was evicted, the symbols sent are those of addresses that were in a backtrace, as the linker knows them, and of every such address but 0 |
| SymbolSending.SymbolsKept | server/GUIController/QApplicationWindowController.cpp:368-374 | the server keeps the first symbol sent for each address, and no others |
| SymbolSession.ServerResolves | server/GUIController/QApplicationWindowController.cpp:368-374 | end to end: a server that has read up what a sequential client wrote, before its opening and after, resolves just the addresses that were in a backtrace, with the names and addresses of object and symbol that the linker of the client gave; only 0 can be missing |
| HookTraces.HookedStamped | lib/server-comm.c:239-255 | what hooks send one after the other has consecutive numbers and the time of each |
| HookTraces.ServerShowsHooks | lib/wrapper.c:152-203 | end to end: the k-th operation the server shows is that of the k-th memory hook, with its call and the addresses of its own backtrace, but for a backtrace that was the very last message |
| SymbolSession.AlwaysResolvedExactly | lib/backtrace.c:55-60 | an address is resolved whenever it was in a backtrace, in every run and on every server, if and only if it is not 0: an unused slot passes for 0 |

## Left out

- The Qt user interface: widgets, item models, labels, the combo box of threads, dialogs; the chart is the sequence of appended points with the range each was drawn with.
- Sockets, the named pipe itself, `run`, `dlsym`, environment variables, printing: a device is a sequence of reads, a write is complete, opening gives a descriptor or fails.
- The reopening of the pipe after `doReadMsg` returns.
- What becomes on the server of messages sent after `servercomm_dispose`; the end-to-end theorems are about what was written up to it.
- The locks of the server: each handler call is one atomic step.
- Messages that are not well formed: names that fill their field without a terminating zero and a `backtrace_size` above 50 are outside the theorems about streams; the class decodes at most 50 addresses where the source would read beyond the record.
- Text decoding: names are sequences of byte values.
- Transfer.ServerComm.SendSafe: requires that what is sent before there is a socket fits the pre-init buffer, which the source does not check.
- Transfer.ServerComm.Send: requires that one message is not longer than the transfer buffer, which holds for all five kinds.
- `servercomm_msg_backtrace_make` and the field-by-field filling of message records: messages are built as values and then encoded.
- Message numbers beyond 2^31 - 1: `g_iMsgNum` is an `int`, so the step system stops stamping there.
- ClientHeap.ReportsAlternateExactly: does not model memory from the start-up buffer of `lib/wrapper.c:42-66`, nor memory handed out before the first hook; nothing is held when the run starts.
- Interleaving.Sys.Next: takes the opening (`lib/server-comm.c:89-142`) as one step; a hook of another thread between two of its statements is not modelled, nor are the locks as such, only that each stamp and each send is one step.
- ClientEndings.InOrderExactly: asks that numbers are left for the threads at work, because stamping stops at 2^31 - 1.
- ClientHeap.LiveExactly: covers realloc only for calls that return memory; a realloc to size 0 that frees and returns NULL is not reported by the hook and is no step here, nor are calls that fail.
- ClientStream.StreamIsWhole: takes the pre-init buffer to be unbounded; the source does not check that what is sent before the opening fits its 4096 bytes.
- SymbolSending.SymbolsComplete: is about hooks that run one after the other; between threads a symbol can be under way when another thread finds its address in the cache.
- SymbolCache.AddrCache.CheckAddr: the use counts are not bounded; the overflow of an `int` after 2^31 hits is not modelled.
- The message and operation counters of the server (`int` in the source) are not bounded either; only sizes and the counts of thread entries wrap around.
- Controller.MemoryStats.RecordOperation: keeps the nine counters of the functions in one record, and does not model the estimate `m_iMemoryOperationSize`.
- Controller.QApplicationWindowController.OnFilterButtonClicked: takes the criteria as values; reading them from the text fields is user interface.
- `prctl`, `backtrace_symbols_print`, `ALeakD_toHexString`, message labels and number formatting: printing and labels are user interface.
