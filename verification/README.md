# Trezor plugin: wire stack and message codecs

A Dafny model of the host side of the Trezor browser plugin, from the queue of HID input
reports up to messages, with proofs of what the layers promise each other.

| file | what it models |
|---|---|
| Bytes.dfy | bytes, machine words, `htons`/`htonl` on both kinds of host |
| Reports.dfy | cutting bytes into 64-byte reports, the device as a trace of polls, filling and emptying the receive buffer |
| Sending.dfy | `hid_write` results and what the writer concludes from them |
| Framing.dfy | message frames: printing, resynchronising, parsing; when a read comes back |
| Delivery.dfy | messages written one after the other and read back, for every trace of polls |
| HidBuffer.dfy | `HIDBuffer` and `DeviceChannel` as classes over a fixed array, proved against the three files above |
| ReportQueue.dfy | the bounded drop-oldest linked list of input reports, and whole runs of it |
| ReaderThread.dfy | read thread, callback, reader and closer of an open device, step by step |
| ReaderAnswers.dfy | whole runs of those: what arrives, what reads answer and why, what stops the thread |
| EndToEnd.dfy | threads, queue and framing together |
| HidUsage.dfy | the report descriptor scan `get_usage` |
| Executor.dfy | job executor, ownership of buffer and channel, communicator table |
| JobQueue.dfy | producers, consumer thread and executor, step by step |
| Plugin.dfy | the table of communicators, each with its queue and executor, in any interleaving |
| Wire.dfy, Streams.dfy | Protocol Buffers varints, records, the plain parse loop, coded streams |
| PresenceBits.dfy, Devices.dfy, Configurations.dfy | the two generated messages: values, merge, wire format, generated classes |
| Layout.dfy | the bytes of the two messages written out, and how a parse ends on bytes that end badly |
| Reflection.dfy | messages to variant maps and back, hex, type names |

Functions on values say what is computed; classes and methods change their fields and
arrays in place the way the source does and are proved equal to those functions; the
theorems are lemmas about the functions, or invariants over all runs of a step system.

Conventions that matter when reading the contracts:

- A device is a script of poll results (a report, nothing yet, an error), each with the
  clock after it. When the script is used up a call is `Pending`: it is still polling.
- A store past the end of the 2048-byte array is an explicit outcome, `Overrun`; the
  program has no defined behaviour there. `Reports.SafeLimit` gives the exact limit for
  one request, `Framing.LengthLimit` the announced lengths that can lead there.
- A read breaks off when a poll fails, when it times out or when its thread is asked to
  stop. The results on reading hold for every trace; "calm" polls give none of these
  reasons, and only the results that promise a message rather than a fault ask for them.
- The byte order of the host is a parameter. The wire carries the high byte first only
  on a little-endian host.
- The transfer contract used by ReaderThread: libusb may refuse a cancel request, and only
  a transfer whose cancelling it accepted can complete as cancelled; such a one may still
  complete in another way.
- What an exchange with the device comes to is decided by a `World` in JobQueue and Plugin,
  for each job in the order of execution: a reply, an exception, or a call that does not
  come back. `Executor.Exchange` says which it is for a given link.
- Presence bits are the set of the positions set in the word `_has_bits_[0]`.

Where the code and its documentation differ, the model follows the code:

- `hid_write` is documented to return -1 on error (hidapi.h:199-201), but the result is
  compared with an unsigned size (devices.cpp:101), so a failed write passes for success:
  `Sending.FailedWriteGoesUnnoticed`; `Sending.SuccessMeansDelivered` is exact.
- The length test at devices.cpp:155-159 admits 1987 to 2048 bytes, for which the buffer
  may not suffice: up to 62 bytes of the next report may have to be stored as well.
  `Framing.LengthLimit` is exact.
- The comment at X11/hid.c:676 speaks of 30 queued reports; the list holds 32.
- The comment at X11/hid.c:178-181 says that the first Usage and Usage Page are returned;
  the code returns the latest of each at the first item by which both have been seen.
- The first submission's result is ignored (X11/hid.c:732). If it fails, the read thread
  never exits and closing never completes: `ReaderThread.CloseCompletesIff`.
- The results of both cancel requests are ignored as well (X11/hid.c:757, 1155), and a
  transfer that ends otherwise is resubmitted without a look at the shutdown flag
  (X11/hid.c:695-703). `ReaderThread.CloseCompletesHealthyIff` says exactly when closing
  can still complete; `ReaderThread.RefusedCancelStrandsClose` is a run where it cannot.
- A call without the timeout has no way to end but a message or an error
  (devices.cpp:48-56): with a silent device it never comes back, no callback is issued and
  no later job is run: `Executor.UntimedCallStaysIff`, `JobQueue.BlockedStays`.
- Repeated 64-bit integers are refused when a message is turned into a map although
  parsing accepts them (messages.cpp:156-209, 298-311), and repeated strings and bytes
  only work when empty: `Reflection.SlotsHaveMap` is exact.

## Model

| member | source | states |
|---|---|---|
| Bytes.ShortRoundTrip | devices.cpp:182-184 | the type's byte swap and shifts on writing are undone on reading, on both hosts, and the wire order is big-endian exactly on a little-endian host |
| Bytes.LongRoundTrip | devices.cpp:186-190 | the same for the four length bytes |
| Reports.ChunksRoundTrip | devices.cpp:83-110 | what a reader accepts from the reports of any byte string is the string followed by its zero padding |
| Reports.ChunksSize | devices.cpp:89-94 | the reports are whole, announce 63 bytes each, and are exactly as many as needed |
| Reports.AcceptedFront | devices.cpp:41-45 | what is taken from a report is the front of what is behind its count byte, as long as the count or as what arrived, whichever is less |
| Reports.CutRoundTrip | devices.cpp:40-46 | however a byte stream is cut into reports that announce their pieces, and whatever fills them up, what a reader accepts is the stream |
| Reports.ReadConserves | devices.cpp:22-81 | bytes returned, then what is buffered and still to arrive, are what there was, whatever the outcome; a failed read leaves fewer bytes than requested |
| Reports.RunConserves | devices.cpp:33-77 | over every run of reads of at most L bytes with an array of at least L + 62: nothing is lost or reordered and the buffer length never exceeds L + 62 |
| Reports.TimedReadReturns | devices.cpp:48-56 | with the timeout on, one buffer read cannot outlast a poll that finds the clock past the limit, however many reports come before |
| Reports.ReadEnds | devices.cpp:48-65 | the first poll that ends a read short of bytes ends it: as failed if and only if the poll failed, as timed out if and only if it is late, as interrupted if and only if it is in time and the thread was asked to stop; all bytes received are kept |
| Reports.ReadBroke | devices.cpp:48-65 | and only that: a read that breaks off has used exactly the polls up to the first that ends it, with the fault that one calls for, while bytes were missing |
| Reports.SafeLimit | devices.h:24-28 | requests of up to L bytes never store past the array, from an empty buffer and for every trace, if and only if L + 62 fits; so 1986 for 2048 |
| Sending.ShortWriteIsReported | devices.cpp:96-108 | a write raises an error if and only if some call returned a count from 0 to 63 |
| Sending.SuccessMeansDelivered | devices.cpp:96-108 | a write that reports success delivered everything in order if and only if no call returned -1 |
| HidBuffer.HIDBuffer.constructor | devices.h:32-34 | an empty buffer with the given patience |
| HidBuffer.HIDBuffer.Poll | devices.cpp:34-66 | one turn of the loop: accepted bytes are appended in place, and time-out, interruption and error are told apart as in the value model |
| HidBuffer.HIDBuffer.Read | devices.cpp:22-81 | the in-place read returns the bytes, faults and leftover buffer of the value model, and touches nothing else of the result array |
| HidBuffer.HIDBuffer.TakeFront | devices.cpp:71-77 | copy out and shift down: the result is the front, the buffer the rest |
| HidBuffer.HIDBuffer.Write | devices.cpp:83-110 | the device takes exactly the reports of the bytes, up to the first short write |
| HidBuffer.DeviceChannel.AlignToMagic | devices.cpp:204-208 | bytes are dropped one by one up to the first magic character |
| HidBuffer.DeviceChannel.ReadHeader | devices.cpp:197-221 | type and length of the next frame, or the fault, with the exact bytes consumed |
| HidBuffer.DeviceChannel.Read | devices.cpp:144-169 | the next message or fault of the value model, with the exact buffer left |
| HidBuffer.DeviceChannel.StoreHeader | devices.cpp:178-190 | the first eight bytes are the header for the host, and no other byte changes |
| HidBuffer.DeviceChannel.Write | devices.cpp:171-195 | the device is sent exactly the reports of the message's frame |
| Framing.FrameBytes | devices.cpp:176-194 | every byte of a frame: two number signs, the type, the length and the payload, in the byte order of the host |
| Framing.ReadIsParse | devices.cpp:144-221 | for every link and every trace: a message returned or refused is the one that parsing the byte stream gives, with the same rest; a read that keeps polling has a stream too short for a frame; one that breaks off only took bytes from the front; a store past the array needs an announced length of 1987 to 2048 |
| Framing.LengthLimit | devices.cpp:155-162 | no link whose next header announces n bytes can make a read store past the array, if and only if n is at most 1986 or is refused by the size test |
| Framing.MessageReturns | devices.cpp:48-65 | a read of a message does not wait through a poll that fails or, with the timeout on, through an empty one that finds the clock past the limit counted from the start and from every report before, or the thread asked to stop |
| Framing.MessageBreaks | devices.cpp:48-65 | a read of a message breaks off only for a reason in its polls: it times out or stops only with the timeout on, stops only when asked to, and fails only when a poll did |
| Framing.UntimedWaitIff | devices.cpp:48-65 | with the timeout off a read keeps waiting if and only if the bytes make no whole frame and no poll fails |
| Framing.MessageEndsAs | devices.cpp:48-65 | a read that is still waiting is ended by the next poll as that poll calls for, failed, late or asked to stop, and leaves the polls behind it unused |
| Framing.MessageMore | devices.cpp:144-169 | a read that has come back depends only on the polls it used: more polls behind them stay untouched |
| Framing.FrameParses | devices.cpp:161-168 | after any bytes without a magic character a frame is read exactly; one of unknown type is consumed whole |
| Framing.OversizeParses | devices.cpp:155-159 | an oversize length costs the skipped bytes and the eight header bytes only |
| Framing.BrokenMagicParses | devices.cpp:210-214 | a lone magic character costs itself and the byte after it |
| Delivery.OneMessage | devices.cpp:144-169 | with any part of the reports of some messages arrived, in any trace: the next read returns the first message exactly, leaving exactly the zero padding of its last report and the reports behind, unless it breaks off or a report is missing |
| Delivery.RoundTrip | devices.cpp:144-221 | for any sequence of messages of at most 1986 bytes, either host, any part of their reports arrived and any trace: reads return exactly those messages, in order, with exactly the padding left after each, up to the first that breaks off or has to wait |
| Delivery.MessageCalm | devices.cpp:48-65 | a read is not broken off by calm polls |
| Delivery.RoundTripOnTime | devices.cpp:144-221 | when each message's reports come within the limit counted from the message before, every message is returned, whatever failures come behind the last report |
| Delivery.StreamRoundTrip | devices.cpp:144-221 | whatever part of the frames of any messages a link has to offer, however cut, buffered and timed: reads return exactly those messages, in order, up to the first that breaks off or has to wait |
| Delivery.AnyCutting | devices.cpp:40-46 | the same for reports that carry pieces of any size with fillers of any content, each announcing the length of its piece |
| Delivery.PromptDelivery | devices.cpp:83-221 | in particular a link that brings all reports at once delivers every message, on either host |
| ReportQueue.ReportList.Enqueue | X11/hid.c:658-683 | the in-place append is the drop-oldest append of capacity 32, and signals exactly when the list was empty |
| ReportQueue.ReportList.ReturnData | X11/hid.c:968-980 | removes the first report and copies as much of it as fits |
| ReportQueue.ReportList.Clear | X11/hid.c:1170-1175 | empties the list |
| ReportQueue.RunKeepsOrder | X11/hid.c:660-682 | in every run at most 32 reports are queued, and those that left, in order, then the queued ones are the arrivals |
| ReportQueue.TakesAreDeliveries | Mac/hid.c:803-814 | what readers got is, in order, what left the list by delivery |
| ReportQueue.NoDropIffSmall | Mac/hid.c:581-602 | nothing is dropped if and only if an unbounded queue would never hold more than 32; the run is then that of the unbounded queue |
| EndToEnd.FewArrivalsKept | X11/hid.c:661-681 | up to 32 arrivals are never dropped, under every interleaving with reads |
| EndToEnd.MessageArrives | devices.cpp:34-46 | a message of at most 1986 bytes loses no report under any interleaving of arrivals and takes; for every trace of polls that brings the taken ones, the read returns it only when all were taken, waits only when one is missing, and is otherwise broken off; with calm polls it returns it if and only if all were taken |
| EndToEnd.MessagesArrive | devices.cpp:144-169 | any number of messages, partly arrived and partly taken, survive a queue that never needs more than 32 places, for every trace of polls |
| EndToEnd.ThreadsDeliver | X11/hid.c:645-780 | in every run of the read thread, its callbacks, a reader and a close: when the completed transfers bring the beginning of some messages' reports and none is dropped, as when at most 32 came, the reports that reads returned make exactly those messages |
| EndToEnd.WrittenIsRead | devices.cpp:171-195 | the messages written, up to a short write, are the messages read from the reports that went out, as long as no write failed with -1 |
| ReaderThread.RunKeepsInv | X11/hid.c:645-780 | the invariant of transfer, flags, reader, closer and queue holds in every interleaving |
| ReaderThread.SafeShutdown | X11/hid.c:1148-1162 | cancelled implies no transfer in flight and none in the callback; the thread exits only when cancelled; the transfer is freed at most once and then nothing is outstanding |
| ReaderThread.NothingTouchesFreedTransfer | X11/hid.c:1160-1175 | after the free the only possible step clears the list, and every report is then accounted for |
| ReaderThread.ShutdownAdvances | X11/hid.c:738-769 | after shutdown is set every thread step brings the exit closer, except a fruitless wait and a resubmission while the thread waits to be cancelled |
| ReaderThread.HonouredNeverLaps | X11/hid.c:755-760 | that resubmission never happens in a run whose cancel requests are accepted and honoured, also when the close races with a resubmission |
| ReaderThread.CloseCompletesHealthyIff | X11/hid.c:695-760 | with a device that stays and no failing resubmission, a waiting close can complete if and only if the first submission succeeded and a cancel request was accepted for the transfer in flight, is still to be made, or has had its effect |
| ReaderThread.RefusedCancelStrandsClose | X11/hid.c:757 | there is a reachable waiting close, its cancel requests refused, that can complete in no such way |
| ReaderThread.CloseCompletesIff | X11/hid.c:730-760 | a waiting close can complete in some way, at worst because the device goes away, if and only if the first submission succeeded |
| ReaderThread.FailedStartHangsClose | X11/hid.c:732 | there is a reachable waiting close that can never complete |
| ReaderThread.NoLostWakeUp | X11/hid.c:661-665 | the reader is never asleep with a report queued, nor after the thread has gone |
| ReaderThread.FailureMeansDrained | X11/hid.c:1004-1060 | without a failed wait, a read fails only after shutdown and with an empty list |
| ReaderAnswers.RunAnswers | X11/hid.c:645-683 | in every run what arrived is the data of the completed transfers, and what left the list by delivery is what reads returned, in order, then what one is about to return |
| ReaderAnswers.AnswersExplained | X11/hid.c:1004-1064 | in every run, from the actions of the read in progress: an expired timed wait is answered as empty, a failed one with an error, and nothing else is; without a wait a non-blocking read alone is answered as empty; a read fails on its wait only in a run where a wait failed |
| ReaderAnswers.ReadAlone | X11/hid.c:1004-1064 | a read that is left alone and does not block answers the first report, else an error if the device was shut down, else that there is nothing |
| ReaderAnswers.WokenAnswers | X11/hid.c:1019-1044 | a read that wakes up with reports queued answers the first, whether it waits for a time or for ever |
| ReaderAnswers.WokenByReport | X11/hid.c:661-665 | a report that arrives while a read sleeps wakes it and is what it answers |
| ReaderAnswers.ThreadStopsOnlyIf | X11/hid.c:684-753 | in every run the thread leaves its loop only after a shutdown or a fatal error, and for good, and a shutdown comes only from a close, a transfer back cancelled or without its device, or a failing resubmission |
| ReaderAnswers.AcceptedCloseCompletes | X11/hid.c:1154-1158 | a close whose own cancel request is accepted for a transfer in flight can complete with a device that stays |
| ReaderThread.ReportsConserved | X11/hid.c:658-682 | in every interleaving arrivals are delivered, dropped, queued or discarded at close, in order |
| ReaderThread.ThreadsPerform | X11/hid.c:658-683 | every interleaving of the threads is a run of the drop-oldest queue with the same arrivals, deliveries, drops and contents |
| HidUsage.GetUsage | X11/hid.c:182-250 | the loop stays in bounds and ends, returns what the scan finds, and leaves a variable alone whose item never came |
| HidUsage.ScanItems | X11/hid.c:178-250 | on the encoding of any item list: success if and only if both kinds occur, with the latest of each at the first item by which both have |
| HidUsage.ScanCut | X11/hid.c:154-176 | on a descriptor that ends in the middle of a short item that item counts as zero and the scan ends |
| Executor.OwnershipHolds | plugin.cpp:244-293 | over all job sequences, failed opens included: a live channel has a live buffer, close drops the channel first, never two of either, and one callback per job in order up to the first call that does not come back |
| Executor.CloseLeavesNothing | plugin.cpp:244-251 | after any jobs, a close leaves neither channel nor buffer and reports success |
| Executor.OpenAnswers | plugin.cpp:261-276 | after an open job the buffer is there, the channel is open if and only if it was or the device opens, and the callback says which |
| Executor.CallAnswers | plugin.cpp:278-293 | a call job opens likewise; its callback is a success if and only if a channel is open and a reply came, and carries that reply; an error if and only if there is no channel or an exception was raised; none if and only if the call is not over |
| Executor.ExchangeJustified | plugin.cpp:303-312 | in every trace a reply is the first message that the device's bytes make, can be rendered, and came after the request was written; every other outcome has its reason |
| Executor.UnwrittenRaises | plugin.cpp:304-307 | a request that cannot be built or is written short raises an exception, whatever the device sends |
| Executor.CalmExchange | plugin.cpp:303-312 | with calm polls the outcome is exactly what the device's bytes make of it: reply, exception or waiting |
| Executor.MessageAnswers | plugin.cpp:307-312 | when the reports of one message come, the call answers with that message |
| Executor.PollEndsCall | plugin.cpp:285-292 | a call still polling is ended by the next poll: a failed or late one raises an exception, one in time with the thread asked to stop interrupts the thread |
| Executor.CallComesBack | plugin.cpp:296-315 | a call ends with a reply or an exception when some poll fails or, with the timeout on, an empty one finds the clock past the limit, if the thread is not asked to stop and the announced length fits |
| Executor.UntimedCallStaysIff | plugin.cpp:307-308 | with the timeout off, a call whose request was sent never comes back if and only if the bytes from the device make no whole frame and no poll fails; it is never interrupted |
| Executor.DeviceJobExecutor.MakeReady | plugin.cpp:263-267 | makes what is missing; a new channel borrows the live buffer |
| Executor.DeviceJobExecutor.Destroy | plugin.h:97-99 | the destructor drops channel, then buffer |
| Executor.DeviceJobExecutor.DoClose | plugin.cpp:244-259 | drops channel, then buffer, and reports success; nothing is left open |
| Executor.DeviceJobExecutor.DoOpen | plugin.cpp:261-276 | opens when needed; success exactly when a channel is open |
| Executor.DeviceJobExecutor.Call | plugin.cpp:296-315 | what the exchange comes to, the reports the device was sent, and what is left of the link: nothing is read before the whole request was written |
| Executor.DeviceJobExecutor.DoCall | plugin.cpp:278-293 | exactly one callback, with the reply or an error, if the call comes back, and none otherwise; the device was sent the request and the link is left as the exchange leaves it |
| Executor.DeviceJobExecutor.JobAnswers | plugin.cpp:278-315 | a call job whose device sends the reports of a message has exactly the success callback with that message |
| Executor.BitcoinTrezorPlugin.Communicator | plugin.cpp:149-163 | one communicator per path, found again or appended |
| Plugin.OneChannelPerPath | plugin.cpp:149-163 | in every interleaving of lookups with all producers and consumers, at most one channel is open for each device path |
| Plugin.HistoryOfPathSound | plugin.cpp:244-293 | over the whole history of a path, no channel was opened while one was open and no buffer freed under a channel, and what is owned now is what that history leaves |
| Plugin.EntryRunsFreely | plugin.cpp:182-186 | whatever a communicator can do by itself it can do among the others, and leaves them alone |
| JobQueue.EveryRun | plugin.h:23-39 | in every interleaving, for the jobs that the producers pushed in it: they are the jobs taken then queued, the consumer sleeps only when none is queued or before a pending notification, the finished ones have exactly the callbacks and effects of running them one after the other, and an interrupted consumer leaves nothing open |
| JobQueue.NeverStuck | plugin.h:32-39 | while a job waits or runs, some step other than a push is possible, provided that the running job comes back |
| JobQueue.StepsAdvance | plugin.cpp:221-239 | each such step leaves strictly less to do, whether jobs succeed or fail |
| JobQueue.BlockedStays | plugin.cpp:227-230 | a call that does not come back keeps its thread in every run: no other job is taken and no callback issued |
| JobQueue.AllAnswered | plugin.cpp:221-239 | everything the producers pushed can be answered in order if and only if the executor comes back from each of those jobs, run one after the other, even if all fail; once the thread was interrupted, if and only if all were answered already |
| JobQueue.AnyJobsAnswered | plugin.h:23-29 | any jobs at all can be pushed and, when they come back, are answered in order |
| JobQueue.InterruptedCallEnds | plugin.cpp:231-232 | an interrupted call ends its thread without a callback and with nothing left open |
| JobQueue.IdleInterruptEnds | plugin.h:31-36 | so does an interruption while the consumer waits for a job |
| Wire.RecordRoundTrip | config.pb.cc:308-342 | a written record is read back whatever follows |
| Wire.ParseConcat | config.pb.cc:573-676 | a parse that ends between fields goes on over appended bytes from what it built |
| Wire.ParseMerges | config.pb.cc:573-676 | parsing onto a merged message is merging with the parse, on every byte string |
| Layout.VarintReads | config.pb.cc:231-233 | reading a number takes the bytes up to the first without the continuation bit, at most ten, and gives what their groups of seven bits spell |
| Layout.VarintWritten | config.pb.cc:311-318 | writing one uses as few bytes as possible, all but the last with the continuation bit |
| Layout.Stops | config.pb.cc:292-304 | a zero tag, an end-group tag and a tag cut off stop the loop with what was built, without an error |
| Layout.Fails | config.pb.cc:292-301 | a value that cannot be read, cut off or a group, fails the parse |
| Layout.DeviceBytes | config.pb.cc:308-342 | every byte of a serialized descriptor: present fields in order under their tags, then the unknown fields |
| Layout.DeviceTakes | config.pb.cc:227-301 | numbers are cut down to 32 bits; a record that is no field, of whatever type and number, is kept as it is |
| Layout.DeviceCut | config.pb.cc:259-290 | a string cut off fails the parse and leaves the field present and empty |
| Layout.DeviceLaterWins | config.pb.cc:439-456 | of two serialized descriptors in a row the later fields win, one by one, and unknown fields are all kept |
| Layout.ConfigBytes | config.pb.cc:678-719 | every byte of a serialized configuration |
| Layout.ConfigTakes | config.pb.cc:642-671 | the date is cut down to 32 bits, and a record that is no field is kept as it is |
| Layout.ConfigCut | config.pb.cc:579-660 | a value cut off fails the parse, and the list or device that was to get an element has an empty one |
| Layout.NestedMustEnd | config.pb.cc:617-640 | a nested message that does not end with its bytes fails the whole parse and stays behind as far as it was read |
| Layout.ConfigLaterWins | config.pb.cc:831-845 | of two serialized configurations in a row the later date wins, lists and devices are joined, and so are the wire protocols |
| Devices.ConcatenationMerges | config.pb.cc:439-456 | for all byte strings, parsing one after the other is merging their messages |
| Devices.RoundTrip | config.pb.cc:221-306 | parsing a serialized descriptor gives it back if and only if its unknown fields are unknown to the parser |
| Devices.SerializedMerge | config.pb.cc:439-456 | two serialized descriptors in a row parse to their merge |
| Devices.DeviceDescriptor.SetVendorId | config.pb.h:325-328 | sets the value and its presence and nothing else |
| Devices.DeviceDescriptor.ClearSerialNumber | config.pb.h:362-367 | the field is absent and empty, the rest unchanged |
| Devices.DeviceDescriptor.ReleaseSerialNumber | config.pb.h:399-408 | hands a non-empty present string over and leaves the field absent |
| Devices.DeviceDescriptor.SetAllocatedSerialNumber | config.pb.h:409-420 | a null pointer makes the field absent, another one is its value |
| Devices.DeviceDescriptor.MutablePath | config.pb.h:462-468 | marks the field present and keeps its contents |
| Devices.DeviceDescriptor.Clear | config.pb.cc:202-219 | the shortcut by groups of bits leaves no residue of any field |
| Devices.DeviceDescriptor.MergeFrom | config.pb.cc:439-456 | the merge of the values |
| Devices.DeviceDescriptor.CopyFrom | config.pb.cc:464-468 | the value becomes the other's, self-copy included |
| Devices.DeviceDescriptor.Swap | config.pb.cc:475-485 | the values change places, self-swap included |
| Devices.DeviceDescriptor.MergePartialFromCodedStream | config.pb.cc:221-306 | the parser with its jumps and early return agrees with the plain loop on every input, malformed ones included, whatever the stream's shortcuts answer |
| Devices.DeviceDescriptor.SerializeWithCachedSizes | config.pb.cc:308-342 | appends the serialized value |
| Devices.DeviceDescriptor.SerializeWithCachedSizesToArray | config.pb.cc:344-381 | stores the same bytes at the given place and nothing else |
| Devices.DeviceDescriptor.ByteSize | config.pb.cc:383-425 | exactly the number of those bytes |
| Configurations.ConcatenationMerges | config.pb.cc:831-845 | the merge law for all byte strings, with repeated fields, nested devices and merged wire protocol |
| Configurations.RoundTrip | config.pb.cc:573-676 | parsing a serialized configuration gives it back if and only if the unknown fields of it and of its devices are unknown to their parsers |
| Configurations.SerializedMerge | config.pb.cc:831-845 | two serialized configurations in a row parse to their merge |
| Configurations.FilesRoundTrip | config.pb.cc:698-702 | a set of file descriptors, kept as records, survives serializing and parsing |
| Configurations.Configuration.AddWhitelistUrl | config.pb.h:522-524 | a new last element, the rest unchanged |
| Configurations.Configuration.SetBlacklistUrl | config.pb.h:553-555 | one element replaced, the rest unchanged |
| Configurations.Configuration.AddKnownDevice | config.pb.h:635-637 | a new empty last device, the rest unchanged |
| Configurations.Configuration.ClearKnownDevices | config.pb.h:626-628 | no devices, the rest unchanged |
| Configurations.Configuration.MutableWireProtocol | config.pb.h:601-605 | marks the field present and keeps its contents |
| Configurations.Configuration.ReleaseWireProtocol | config.pb.h:606-611 | hands a non-empty present set over and leaves the field absent |
| Configurations.Configuration.Clear | config.pb.cc:559-571 | the shortcut by groups of bits leaves no residue of any field |
| Configurations.Configuration.MergeFrom | config.pb.cc:831-845 | the merge of the values |
| Configurations.Configuration.CopyFrom | config.pb.cc:853-857 | storing a configuration replaces the old one entirely |
| Configurations.Configuration.Swap | config.pb.cc:868-879 | the values change places |
| Configurations.Configuration.ReadDevice | config.pb.cc:631-640 | a nested device is parsed into a new last element and must end with its bytes |
| Configurations.Configuration.MergePartialFromCodedStream | config.pb.cc:573-676 | the parser with its jumps agrees with the plain loop on every input, whatever the stream's shortcuts answer |
| Configurations.Configuration.SerializeWithCachedSizes | config.pb.cc:678-719 | appends the serialized value |
| Configurations.Configuration.SerializeWithCachedSizesToArray | config.pb.cc:721-765 | stores the same bytes at the given place and nothing else |
| Configurations.Configuration.ByteSize | config.pb.cc:767-817 | exactly the number of those bytes |
| Reflection.MapMerges | messages.cpp:386-413 | parsing the map of one message onto another merges it in, field by field and recursively |
| Reflection.MapRoundTrip | messages.cpp:358-412 | parsing the map of a message into a fresh one rebuilds it with its presence, through nested and repeated messages |
| Reflection.SlotsHaveMap | messages.cpp:149-212 | a message has a map if and only if it has no field of an unknown type, no repeated 64-bit integers and no non-empty repeated strings or bytes |
| Reflection.MapTells | messages.cpp:358-384 | the map of a message names exactly its fields that are present or repeated, the latter even when empty, and shows their values |
| Reflection.MapReads | messages.cpp:214-412 | a map is accepted if and only if every field it names gets what it takes: a scalar of its kind, an even number of hex digits, an enum name that occurs, a list for a repeated field, and the same in nested maps |
| Reflection.MapShows | messages.cpp:214-412 | an accepted map is read as what it shows, fields it does not name stay as they were, and a well-typed message stays well typed |
| Reflection.HexReads | utils.cpp:114-124 | exactly the strings of an even number of hex digits of either case are decoded, and encoding again gives the upper-case string |
| Reflection.HexRoundTrip | utils.cpp:100-124 | decoding the hex form of bytes gives the bytes |
| Reflection.EnumRoundTrip | messages.cpp:260-267 | the name written for an enum value is read back as its number, aliases included |
| Reflection.SerializeRepeatedField | messages.cpp:149-212 | the loop builds the list of the value model or refuses |
| Reflection.MessageToMap | messages.cpp:358-384 | the loop builds the map of the value model |
| Reflection.ParseRepeatedField | messages.cpp:280-356 | parsed elements are appended to those already there |
| Reflection.MessageFromMap | messages.cpp:386-413 | the loop changes exactly the fields that the map names |
| Reflection.TypeRoundTrip | messages.cpp:45-79 | the name of a type number leads back to the number when its enum name has the prefix |
| Reflection.TypesKnown | messages.cpp:45-79 | a number has a name if and only if the first enum value with that number is long enough to drop the prefix, and a name has a type if and only if it occurs with the prefix |

## Left out

- libusb, IOKit, iconv and path strings: foreign calls; a device is a script of events.
- Win/hid.c: its behaviour lives in the operating system's overlapped I/O.
- Mac/hid.c: only the list is covered; its read thread, barriers and waits are not.
- Payloads on the wire: a channel message is a type number and opaque bytes; building and parsing dynamic messages belongs to the protobuf runtime, which is not part of this model.
- The protobuf runtime's streams: written here from the public format; a length that exceeds the enclosing message is refused, groups are refused, and limits on size and nesting depth, UTF-8 warnings, cached sizes and the check for required fields are not modelled.
- Configurations.Configuration: known devices are held as values, not as separately mutable objects, and the wire protocol is an opaque sequence of records.
- Devices.DeviceDescriptor: one setter per field stands for its overloads; a string that cannot be read keeps its old contents, while the runtime may have stored part of it.
- Executor.DeviceJobExecutor.DoCall: building the request and rendering the reply are given as a value and a predicate; after a store past the array nothing is promised.
- JobQueue: modelled on values as a step system, since a waiting call has no sequential form; callbacks are assumed not to throw; an interruption may come at any point that can raise it, without the flag that requests it.
- Plugin: `shutdown`, which interrupts and joins the communicators one by one, is not modelled.
- ReaderThread: one read thread handles the events of its own device; with several devices open, callbacks may run on another device's thread.
- HidUsage.GetUsage: descriptors of 2^31 bytes and more, where the unsigned index could wrap.
- Reflection.FromVariant: variants carry exact tags; the coercions of `convert_cast` are not modelled, and the process abort on a singular accessor for a repeated field is an error result.
- Reflection.Field: descriptors are trees; messages that contain themselves and descriptor registration are not modelled.
- configure, authenticate, enumerate, BIP32 derivation and signature checks: short filters around opaque data, or a crypto library that is not part of this model.
