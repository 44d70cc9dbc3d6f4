# nanio, verified

nanio is a small event-loop library for network programs: one thread, one `poll`, and hand-written
buffers, queues, timers and parsers on top of it. This project models its hardest parts in Dafny and
proves what they do.

- **Streams** (`SegmentedBuffer`, `StreamProtocol`, `StreamOrder`, `StreamReentrance`, `StreamPolling`,
  `StreamCallbacks`, `Stream`).
  `out` is a chain of 2024-byte segments that stands for one string of bytes. The protocol is a state machine over that
  string, the flags, the wire, the errors of the kernel and the callbacks called. A socket takes any prefix of what it
  is offered, or fails, and every callback may write and close, so writes nest to any depth. Every method of
  the class does one step of the protocol, so what is proved of all its runs holds of the linked segments.
- **Datagrams** (`BlockQueue`, `DatagramProtocol`, `DatagramClient`). A chain of segments of 32 blocks with
  three kinds of memory, and a client that sends directly until it first meets EAGAIN. The queue keeps a
  ledger of the memory handed over to it and freed by it, by the kind of each block.
- **Timers** (`TimerProtocol`, `Timers`). A pool of ten timers on two intrusive lists, and the dispatch loop, whose
  handlers may allocate, release, stop and arm timers while it runs. What they do is a parameter; the state
  records whose handlers were called.
- **DNS names** (`DnsNames`, `DnsReference`, `DnsQuery`). The decoder with compression pointers against an
  independent reading of section 4.1.4 of RFC 1035, when it returns at all, when it reads behind the message,
  and the in-place encoder.
- **HTTP** (`UrlEscape`, `HeaderMap`, `HttpHeaders`, `HeaderGrammar`, `HeaderFailures`, `HeaderRefusals`).
  Percent-encoding (section 2.1 of RFC 3986) and its length pre-passes; a case-insensitive map whose strings live on a
  bump heap; a header parser that is the inverse of rendering, in both directions, and the exact texts for each way it fails.
- **Numbers** (`VarInt`, `VarIntWords`, `MaskWords`, `Ipv4`, `Ipv4Lists`, `Ipv4Numbers`). The Variable Byte Integer of
  MQTT, in memory and with the operators of C on 32-bit words; the text form of IPv4 addresses and lists; netmask words.

`Bytes` and `Sockets` hold what they share. Where the source walks and writes memory the model is a class or
a method over arrays and linked objects, proved against a function or a step; `ghost` fields hold the
abstract value. C strings are sequences of bytes without NUL, with the NUL behind the last one. Integers are
unbounded, and a width is written out where it matters: 16-bit block sizes, the 8-bit length octets of a
query, 32-bit addresses and variable integers, the `unsigned long` of `strtoul`, the `int` of timeouts and of
what a dispatch returns. System calls, the clock, the handlers and the callbacks are parameters or arbitrary
choices.

## What the code does not keep

These are proved about the code as it is, with the exact condition under which each happens.

- An empty write to a stream that waits clears POLLOUT, and nothing more is sent until somebody
  writes bytes again (`StreamPolling.WriteStallsIff`, `StalledSendsNothing`, `EmptyWriteStalls`).
- What the `sent` callback of a write writes may land inside the outer write, or lose its POLLOUT
  (`StreamOrder.KeepsOrderIff`, `StreamReentrance.ReentrantOrderIff`, `ReentrantWriteStallsIff`).
- Bytes that a flush sends before it fails are reported to no callback, so a program that adds up the counts of
  `sent` misses them (`StreamCallbacks.ToldIsSentIff`, `UnreportedBytes`).
- `io_buf_recv` may leave a chain without bytes, and then, and only then, is `io_buf_is_empty` wrong about it
  (`SegmentedBuffer.Buffer.Recv`); it is exact for buffers that are written, read and sent (`EmptyIff`).
- The block queue never gives up its last segment, so after one EAGAIN a client queues every datagram and
  asks for POLLOUT for ever, although library/io_dgram_client.c:105-106 means to clear it
  (`DatagramProtocol.QueuedOnceQueuesForever`, `PolloutIff`).
- Blocks keep sizes modulo 65536 and the full size is reported (`DatagramProtocol.SendIntactIff`). Memory
  passed as dynamic is freed exactly if the datagram was queued, that is, if a segment was there or EAGAIN was
  met (`DatagramClient.Client.Send`), although include/nano/io_queue.h:16-21 says that it needs to be freed.
- A timer whose clock + timeout is not positive never fires, for instance one set to 0 at the first `io_now`
  (`Timers.Scheduler.SetTimeout`). A negative period makes the catch-up loop endless
  (`TimerProtocol.CatchUpEndsIff`). When a handler arms for the longest time at a clock later than `now`, the
  returned int is negative (`Timers.Scheduler.GetTimeout`, `ToIntExact`, `NegativeWait`).
- The name decoder takes the reserved tags 01 and 10 for pointers (`DnsReference.DecodedIsDenotedIff`,
  `ReservedIsDecoded`); reads the octet behind a message that ends in a label (`OverreadIff`,
  `NeverOverreadsIff`, `UnendedNameOverreads`); and never returns from a cycle of two pointers, since it
  refuses only a pointer at itself (`ReturnsIff`, `PointerCycleNeverReturns`).
- A query with a piece that is empty or longer than 63 octets does not read back (`DnsQuery.QueryRoundTripIff`).
- `io_url_decoded_length` counts a percent sign that starts no escape as one, and comes out too small
  (`UrlEscape.DecodedLengthIff`); `io_url_encode` may write two characters past a buffer that is too small
  (`EncodeWithinFitsIff`, `EncodeWithinBound`); `io_url_decode` looks at the character behind the NUL of a string
  that ends in a percent sign (`UrlDecode`), and takes characters behind F for digits (`SpelledIff`, `LaxEscape`).
- A header line without CRLF makes the parser go on from a null pointer (`HeaderFailures.NullLineEndIff`,
  `UnfinishedHeader`), and a text that ends in CRLF never does (`CrlfAtTheEnd`). A full heap stores one, and behind
  the last line of a header that is reported as success (`HeapFullIff`, `SuccessIff`, `FullHeader`).
- An empty sized key is looked up as empty and stored as the whole string, so it can double a key
  (`HeaderMap.AdditionKeepsDistinctIff`).
- From 2^28 on `mqtt_put_var_int` writes four bytes that do not encode the number, while `mqtt_get_var_int_size`
  answers ~0 (`VarInt.PutIsEncodeIff`, `VarIntWords.GatherPutIff`).
- An address may have white space, signs and zeros in front of each number, and a negative number of 2^64 less than
  an octet is that octet (`Ipv4Numbers.IsIpExactly`, `NoOctet`).
- An unreadable address in a list is stored as 0 and the cursor stays in front of it, so it ends the list unless a
  comma follows its blanks (`Ipv4Lists.UnreadableItem`, `UnreadableEndsIff`, `AddressLost`).

## Model

| member | source | states |
|---|---|---|
| SegmentedBuffer.Buffer.EmptyIff | include/nano/io_buf.h:34 | while no segment of the chain is drained, `first` is null exactly when no byte is pending |
| SegmentedBuffer.Buffer.IsEmpty | include/nano/io_buf.h:34 | a null `first` means no pending byte; the converse holds while no segment is drained |
| SegmentedBuffer.Buffer.Length | library/io_buf.c:64-70 | the sum over the chain is the length of the byte queue it stands for |
| SegmentedBuffer.Buffer.AddSegment | library/io_buf.c:23-29 | a new segment is linked last; the links stay sound and the byte queue is unchanged |
| SegmentedBuffer.Buffer.LastSegment | library/io_buf.c:73-79 | there is a last segment afterwards, a new one only when the chain was absent; no byte is added or lost |
| SegmentedBuffer.Buffer.SegmentToWrite | library/io_buf.c:82-94 | the returned segment is the last one and has room, the rest of its capacity; only a full last segment gets a successor |
| SegmentedBuffer.Buffer.WriteSome | library/io_buf.c:160-170 | one round moves a non-empty prefix of the data to the end of the byte queue |
| SegmentedBuffer.Buffer.Write | library/io_buf.c:149-173 | appends exactly the given bytes to the byte queue, over any number of segments, and keeps the chain free of drained ones |
| SegmentedBuffer.Buffer.ReadFirst | library/io_buf.c:184-201 | one round moves bytes from the front of the byte queue to the caller, or unlinks a segment |
| SegmentedBuffer.Buffer.Read | library/io_buf.c:176-204 | takes exactly the first min(size, length) bytes, in order, and leaves the others and the rest of the memory alone |
| SegmentedBuffer.Buffer.SendFirst | library/io_buf.c:102-119 | one round keeps wire + buffer as one byte string; a failure moves nothing; it ends the loop exactly when the kernel fails or takes less than it is offered |
| SegmentedBuffer.Buffer.Send | library/io_buf.c:97-122 | the wire grows by a prefix of the byte queue and the buffer keeps the rest, also when the call fails after a partial success; it ends when no byte is left or at the first refusal of the kernel, and not before; it fails exactly when that refusal is an error, with that error |
| SegmentedBuffer.Buffer.RecvSome | library/io_buf.c:131-143 | one round appends exactly the bytes recv(2) took from the socket, and asks for another one exactly when they fill the segment |
| SegmentedBuffer.Buffer.Recv | library/io_buf.c:125-146 | buffer + socket stay one byte string: exactly what left the socket is appended, in order, also when a later round fails; it goes on until recv(2) leaves room or fails, and reports exactly that failure; the chain is never absent afterwards, so `io_buf_is_empty` is wrong exactly when no byte is in it |
| StreamProtocol.WriteBalances | library/io_stream.c:52-81 | a write, whose callbacks may write and close at any depth, leaves every accepted byte exactly once on the wire, in the buffer, or owed by the writes around it |
| StreamProtocol.BufferBalances | library/io_stream.c:73-80 | the same for the end of a write, which buffers the rest or calls `all_sent` |
| StreamProtocol.ActsBalance | library/io_stream.c:52-81 | the same for all that a callback does |
| StreamProtocol.StepBalances | library/io_stream.c:52-223 | a call or an event, with all callbacks it makes, neither loses nor doubles an accepted byte |
| StreamProtocol.RunBalances | library/io_stream.c:52-223 | in every run, however its callbacks re-enter, nothing accepted is lost or doubled |
| StreamProtocol.SilentActs | library/io_stream.c:73-78 | a callback that writes no byte changes nothing but that it may close the stream or give up POLLOUT |
| StreamProtocol.WriteExtends | library/io_stream.c:52-81 | a write, at any depth of re-entrance, adds bytes at the end only, as many as are accepted |
| StreamProtocol.KeepsGrowing | library/io_stream.c:52-81 | a write puts its bytes, and those of its callbacks, behind all others and in the order of the calls, in every state in which no callback of a partly taken write gets a byte accepted |
| StreamProtocol.InOrderKeeps | library/io_stream.c:52-81 | which holds in every state when the `sent` callbacks of partly taken writes write nothing |
| StreamProtocol.WriteGrows | library/io_stream.c:52-81 | so such a write keeps the order |
| StreamProtocol.ActsGrow | library/io_stream.c:52-81 | the same for all that a callback does |
| StreamProtocol.StepConserves | library/io_stream.c:52-223 | a call or an event keeps wire + pending equal to all accepted bytes |
| StreamProtocol.RunConserves | library/io_stream.c:52-223 | in every run in which no partly taken write is re-entered, nothing accepted is lost, doubled or reordered |
| StreamOrder.WritesAlike | library/io_stream.c:52-81 | what a write does depends on the lengths and the answers of the kernel, and on no byte |
| StreamOrder.MarkedReorders | library/io_stream.c:63-80 | bytes that show a partly taken write whose callback adds something out of order |
| StreamOrder.BreakWrite | library/io_stream.c:52-81 | such bytes for a write with any nesting of callbacks |
| StreamOrder.KeepsOrderIff | library/io_stream.c:52-81 | a write with any nesting of callbacks keeps the order, whatever the bytes are, exactly when no byte is accepted while a partly taken write waits for its callback |
| StreamReentrance.ReentrantBytes | library/io_stream.c:63-80 | where all that is written during the `sent` callback of a partly taken write goes: between the two parts of it |
| StreamReentrance.ReentrantOrderIff | library/io_stream.c:63-80 | so such a write keeps the order exactly when those bytes and the rest of its own may be swapped |
| StreamReentrance.NestedOrder | library/io_stream.c:63-80 | the same for one nested write, by what the kernel answers |
| StreamReentrance.ReentrantWriteKeepsOrderIff | library/io_stream.c:63-80 | the order survives a nested write, whatever the bytes are, exactly when the kernel took all or nothing of the outer write, or the inner one adds nothing |
| StreamReentrance.ReentrantWriteStallsIff | library/io_stream.c:63-80 | a nested write that leaves bytes waiting loses its POLLOUT exactly when the outer write was taken whole |
| StreamPolling.ClosesIff | library/io_stream.c:73-76 | a callback that writes nothing closes a waiting stream exactly when it calls for a close, directly or from `all_sent` |
| StreamPolling.WriteStallsIff | library/io_stream.c:73-79 | a write whose callbacks write nothing keeps the request for POLLOUT of a waiting stream exactly when it is not an empty write to a stream that waits, or its `all_sent` closes |
| StreamPolling.WriteKeepsAsking | library/io_stream.c:62-80 | a non-empty write keeps the request, whatever its callbacks write, unless it was taken whole and `sent` writes |
| StreamPolling.ActsKeepAsking | library/io_stream.c:62-80 | the same for all that a callback does |
| StreamPolling.ConnectedAsksIff | library/io_stream.c:143-180 | once connected, a stream asks for POLLOUT exactly when its `connected` callback left bytes behind |
| StreamPolling.StepKeepsNoStall | library/io_stream.c:143-223 | every step with such writes keeps the request for POLLOUT of a waiting stream |
| StreamPolling.RunNeverStalls | library/io_stream.c:62-223 | in every state reached by such writes, an open stream that connects or has pending bytes asks for POLLOUT |
| StreamPolling.StalledSendsNothing | library/io_stream.c:73-78 | a stalled stream sends nothing in any run that poll can produce, until somebody writes bytes |
| StreamPolling.EmptyWriteStalls | library/io_stream.c:73-78 | a reachable state that is stalled: bytes pending, no POLLOUT |
| StreamPolling.FlushShrinks | library/io_stream.c:192-211 | each POLLOUT event that sends a byte strictly shrinks what is pending, and ends the request when nothing is left |
| StreamPolling.FlushRunDrains | library/io_stream.c:192-211 | as many such events as bytes are pending put every accepted byte on the wire |
| StreamCallbacks.WriteAnswers | library/io_stream.c:52-81 | a write answers -1 exactly when the stream is idle and the kernel refuses it, its size exactly when bytes are left behind at the end of the buffer, and 0 otherwise |
| StreamCallbacks.EventAnswers | library/io_stream.c:185-223 | an event answers -1 exactly when the connection failed, a flush met an error other than ECONNRESET, ENOTCONN and EPIPE, or `recv` was reached and failed; and 0 otherwise |
| StreamCallbacks.SoftErrorReturns | library/io_stream.c:193-200 | an error of a flush other than these three ends the event with -1: what was sent before it is out, the stream stays open and nobody is called |
| StreamCallbacks.FatalErrorCloses | library/io_stream.c:194-203 | one of the three closes the stream, calls `sent` and then `recv` on POLLIN, and nothing that the callbacks try has an effect |
| StreamCallbacks.QuietEvent | library/io_stream.c:192-222 | without an error, and with callbacks that do nothing: `sent` is called with the count exactly when it is positive, `all_sent` exactly when the buffer is drained, which ends POLLOUT and the event, and else `recv` on POLLIN |
| StreamCallbacks.FirstCalled | library/io_stream.c:201-209 | a flush that does not return calls `sent` first, with the count or after an error, whatever the callbacks then do |
| StreamCallbacks.WriteTells | library/io_stream.c:63-80 | a write reports to `sent` what it sends, at any depth of re-entrance |
| StreamCallbacks.RunTells | library/io_stream.c:52-223 | in every run the counts given to `sent` add up to the bytes on the wire, but for those of flushes that then failed |
| StreamCallbacks.ToldIsSentIff | library/io_stream.c:52-223 | so they are the bytes on the wire exactly when no flush fails after it has sent a byte |
| StreamCallbacks.UnreportedBytes | library/io_buf.c:97-122 | a flush whose second segment meets EAGAIN sends 2024 bytes and reports none |
| Stream.Connection.constructor | library/io_stream.c:290-310 | a connection starts as the protocol does, before its `connected` callback |
| Stream.Connection.Write | library/io_stream.c:52-81 | on segments, flags and socket, `io_stream_write` does the write step of the protocol, its callbacks included |
| Stream.Connection.SendDirectly | library/io_stream.c:63-72 | the direct part of a write: send(2) once, `sent` for a positive count, and the error of the kernel if it fails |
| Stream.Connection.BufferRest | library/io_stream.c:73-80 | buffers what is left and asks for POLLOUT, or gives POLLOUT up and calls `all_sent` |
| Stream.Connection.Act | library/io_stream.c:71-76 | what a callback does, writes and closes, are consecutive steps |
| Stream.Connection.FinishConnect | library/io_stream.c:143-181 | does the connect step of the protocol: fails, stays silent on an unknown peer, or calls `connected` and looks at the buffer |
| Stream.Connection.Receive | library/io_stream.c:213-222 | does the receive step: `recv` writes what it likes, and its failure closes |
| Stream.Connection.SendBuffered | library/io_stream.c:193 | the front of the buffer goes to the wire, all of it unless the kernel refused a byte; errors are those of the kernel |
| Stream.Connection.AfterFlush | library/io_stream.c:205-210 | does the drained step: POLLOUT ends and `all_sent` runs only when no byte is pending |
| Stream.Connection.Flush | library/io_stream.c:192-211 | does the flush step, with the count and the error of the kernel; bytes are left only when the kernel refused some |
| Stream.Connection.Notify | library/io_stream.c:195-203 | a fatal error closes, and `sent` runs on anything but zero |
| Stream.Connection.HandleEvent | library/io_stream.c:185-223 | does the event step of the protocol, with the outcome of the connection that the kernel reports; a POLLOUT event in which the kernel refuses nothing sends all that was pending |
| Stream.Connection.Close | include/nano/io_stream.h:53 | only the descriptor is given up |
| Stream.Connection.Perform | library/io_stream.c:52-223 | one call of the library does one step of the protocol |
| Stream.Connection.Drive | library/io_stream.c:52-223 | any sequence of calls on real segments is a run of the protocol, so wire + buffer hold each accepted byte once, and in order unless a partly taken write is re-entered |
| Stream.CalmCallsInOrder | library/io_stream.c:63-80 | which cannot happen when no `sent` callback of a write writes |
| BlockQueue.Queue.constructor | library/io_queue.c:24-27 | an empty chain that owns nothing |
| BlockQueue.Queue.AppendToLast | library/io_queue.c:86-89 | a block behind the others, in the last segment |
| BlockQueue.Queue.AppendToNew | library/io_queue.c:64-75 | a block behind the others, in a new segment linked last |
| BlockQueue.Queue.Append | library/io_queue.c:84-90 | refines appending to the queue, whichever segment takes the block |
| BlockQueue.Queue.Store | library/io_queue.c:96-101 | a local block refers to a fresh copy of the bytes of the call, the other kinds to the caller's memory |
| BlockQueue.Queue.Put | library/io_queue.c:93-105 | appends one block; its size is kept modulo 65536 although the full size is returned; the memory of a dynamic block, or the copy of a local one, is handed over, and that of a static one is not |
| BlockQueue.Queue.IsEmpty | include/nano/io_queue.h:48 | true only for an empty queue, and false for an empty queue that keeps a drained segment |
| BlockQueue.Queue.FirstSegment | library/io_queue.c:117-134 | a first segment without blocks is the only one and starts at its beginning |
| BlockQueue.Queue.NoneWaiting | library/io_queue.c:108-131 | the queue is empty exactly when the chain is absent or is one drained segment |
| BlockQueue.Queue.Get | library/io_queue.c:108-114 | the oldest block, and none exactly when the queue is empty, drained segment or not |
| BlockQueue.Queue.Advance | library/io_queue.c:122-130 | removes the oldest block; a drained segment is unlinked, or reset when it is the last |
| BlockQueue.Queue.Drop | library/io_queue.c:117-134 | refines removing the oldest block, fails exactly on an empty queue, and frees the memory of that block unless it is static |
| BlockQueue.Queue.FreeSegment | library/io_queue.c:38-44 | frees what the blocks of one segment own, in order |
| BlockQueue.Queue.Free | library/io_queue.c:47-60 | at the end everything handed over has been freed, each piece once |
| BlockQueue.OwnedIff | library/io_queue.c:31-35 | memory is owned exactly through a block that is not static |
| BlockQueue.Queue.Serve | library/io_queue.c:31-134 | any puts and drops hand over the memory of the blocks put that are not static, in the order of the puts |
| BlockQueue.Queue.ServeAndFree | library/io_queue.c:31-134 | over any puts and drops and a final free, what is freed is the memory of the blocks put that are not static, each piece once and in order |
| DatagramProtocol.SendAnswers | library/io_dgram_client.c:31-47 | a submission answers its size exactly when the datagram was accepted, 0 when it is empty, and -1 when it was refused, which changes nothing |
| DatagramProtocol.EventAnswers | library/io_dgram_client.c:93-106 | a POLLOUT event answers -1 exactly when the kernel refuses the oldest datagram with another error than EAGAIN, and keeps it; it leaves the queue exactly when the kernel takes it |
| DatagramProtocol.StepKeepsOrder | library/io_dgram_client.c:31-107 | sent datagrams, then waiting ones, are the accepted ones in order, and POLLOUT is asked for while the queue has a segment |
| DatagramProtocol.RunKeepsOrder | library/io_dgram_client.c:31-107 | the same in every run of submissions and POLLOUT events |
| DatagramProtocol.SendIntactIff | library/io_dgram_client.c:36-46 | a submission keeps its bytes exactly when it is refused, sent at once, or shorter than 2^16 |
| DatagramProtocol.RunIntact | library/io_dgram_client.c:31-107 | with sizes below 2^16 what is sent and waits is exactly what was accepted |
| DatagramProtocol.StaysChained | library/io_dgram_client.c:31-107 | a segment, once there, stays, and POLLOUT with it |
| DatagramProtocol.QueuedOnceQueuesForever | library/io_dgram_client.c:36-46 | after the first queued datagram POLLOUT is never given up, and every later submission leaves the wire as it is, however often the queue drains |
| DatagramProtocol.PolloutFrom | library/io_dgram_client.c:45-106 | POLLOUT from any state: already queued, or met EAGAIN since |
| DatagramProtocol.PolloutIff | library/io_dgram_client.c:45-106 | over any history POLLOUT is asked for exactly when some submission met EAGAIN |
| DatagramProtocol.EventsDrain | library/io_dgram_client.c:93-106 | as many successful events as datagrams wait send all of them in order |
| DatagramClient.Client.constructor | library/io_dgram_client.c:135-148 | a client starts as the protocol does |
| DatagramClient.Client.Enqueue | library/io_dgram_client.c:45-46 | queues the datagram, cut to a 16-bit size, and asks for POLLOUT |
| DatagramClient.Client.Send | library/io_dgram_client.c:31-47 | does the submission step of the protocol; the datagram and its memory go to the queue exactly when a segment is there or EAGAIN is met, so dynamic memory sent at once is not freed |
| DatagramClient.Client.SendHead | library/io_dgram_client.c:94-104 | a transmitted head leaves the queue and its memory is freed; a failed transmission leaves it in place |
| DatagramClient.Client.HandlePollout | library/io_dgram_client.c:93-107 | does the event step of the protocol |
| DatagramClient.Client.Free | library/io_dgram_client.c:81-85 | frees all memory that was handed over and not yet freed |
| DatagramClient.Client.SendLocalThenReuse | library/io_dgram_client.c:62-65 | a local datagram keeps the bytes of the call although the caller then overwrites its buffer |
| TimerProtocol.CatchUpIsLeast | library/io_timers.c:171-172 | the deadline found by adding periods is the least one after `now` that differs from the old one by whole periods |
| TimerProtocol.CatchUpEndsIff | library/io_timers.c:171-172 | some number of periods leads past `now` exactly when the period is positive |
| TimerProtocol.NearestIsFirst | library/io_timers.c:140-155 | the nearest timer is the first of the armed active ones with the least deadline, and there is one exactly when some timer is armed |
| TimerProtocol.ScriptLeaves | library/io_timers.c:175 | a handler leaves all timers that it does not allocate, free, stop or arm, and makes none due; both lists stay sound |
| TimerProtocol.MovedIsDispatched | library/io_timers.c:171-174 | moving a due timer on, or freeing it, changes no other and makes it due no more |
| TimerProtocol.FireLeaves | library/io_timers.c:163-176 | a round moves or frees the nearest timer, calls its handler and no other, and changes besides what that handler touches |
| TimerProtocol.ProgressStep | library/io_timers.c:163-176 | firing a due timer with the least deadline keeps the history sound, whatever its handler does, and leaves strictly fewer due timers |
| TimerProtocol.RoundsEnd | library/io_timers.c:163-176 | after as many rounds as timers were due none is due, and the handlers called are those of the timers fired |
| TimerProtocol.DispatchComplete | library/io_timers.c:159-179 | a sound history without due timers is complete |
| TimerProtocol.DispatchFires | library/io_timers.c:159-179 | whatever the handlers do, a dispatch calls the handler of every due timer exactly once, in the order of deadlines, unless a handler that was called touched it; of no other timer; and leaves all timers that no handler touched as they were, moved on or freed |
| TimerProtocol.ArmedAgain | library/io_timers.c:171-178 | a handler that arms its timer a millisecond later for the longest time leaves a wait of 2^31 |
| Timers.AllListed | library/io_timers.c:44-55 | two lists without common timers and with ten timers together hold the whole pool |
| Timers.LinkedWithout | library/io_timers.c:84-91 | bridging one timer leaves a sound list of the others |
| Timers.ToIntExact | library/io_timers.c:178 | the waiting time survives the conversion to int exactly below 2^31, and is not taken for -1 below 2^32 - 1; 2^31 itself comes out negative |
| Timers.ToIntWraps | library/io_timers.c:178 | in general it is the int that differs from it by a multiple of 2^32 |
| Timers.Scheduler.constructor | library/io_timers.c:44-55 | all timers of the pool are free and stopped, and no handler was called |
| Timers.Scheduler.Alloc | library/io_timers.c:65-79 | does the allocation of the protocol on the linked lists; null exactly when no timer is free, and then every timer of the pool is in use |
| Timers.Scheduler.TakeFree | library/io_timers.c:70-73 | the first free timer becomes the head of the active list |
| Timers.Scheduler.Reset | library/io_timers.c:74-75 | and is stopped, without a period |
| Timers.Scheduler.Search | library/io_timers.c:84-86 | the place of a timer on the active list and the timer before it, or that it is not there |
| Timers.Scheduler.Free | library/io_timers.c:82-91 | does the release of the protocol: an active timer goes to the free list, for any other nothing changes |
| Timers.Scheduler.Unlink | library/io_timers.c:84-86 | takes one timer off the active list and keeps the others in order |
| Timers.Scheduler.PushFree | library/io_timers.c:87-88 | puts a timer at the head of the free list |
| Timers.Scheduler.FreeAll | library/io_timers.c:58-62 | ends, with every timer of the pool on the free list and none in use |
| Timers.Scheduler.SetTimeout | library/io_timers.c:94-97 | sets the deadline and nothing else; the timer is armed exactly when clock + timeout is positive |
| Timers.Scheduler.SetPeriod | library/io_timers.c:100-104 | sets deadline and period, any int, and arms under the same condition |
| Timers.Scheduler.Stop | library/io_timers.c:107-110 | disarms and keeps the period |
| Timers.Scheduler.FirstArmed | library/io_timers.c:140-144 | the outer loop ends at the first armed timer |
| Timers.Scheduler.LeastFrom | library/io_timers.c:144-153 | the inner one goes on to the nearest |
| Timers.Scheduler.FindNearest | library/io_timers.c:140-155 | the nearest timer of the protocol, or null |
| Timers.Scheduler.Obey | library/io_timers.c:65-110 | one call of a handler does one order of the protocol |
| Timers.Scheduler.RunHandler | library/io_timers.c:175 | records the call of the handler, and then makes the calls of its script, one after the other |
| Timers.Scheduler.Advance | library/io_timers.c:171-172 | the loop ends at the least meeting after `now` |
| Timers.Scheduler.Move | library/io_timers.c:171-174 | moves a periodic timer on and frees a one-shot one |
| Timers.Scheduler.Fire | library/io_timers.c:171-175 | does a round of the protocol: the timer is moved on or freed, then its handler is called, once |
| Timers.Scheduler.FireAll | library/io_timers.c:163-176 | the loop ends, with the state of all rounds |
| Timers.Scheduler.Dispatch | library/io_timers.c:159-176 | does the rounds of the protocol from the reading of the clock, for any scripts of the handlers |
| Timers.Scheduler.GetTimeout | library/io_timers.c:159-179 | the handlers called are those that the protocol fires, in its order, and the dispatch is complete; the result is the least deadline minus `now` exactly when that is below 2^31, and -1 exactly when no timer is armed unless the handlers took 2^31 milliseconds |
| Timers.NegativeWait | library/io_timers.c:159-179 | a sequence of calls after which the result is negative with a timer armed |
| DnsNames.CopyLabel | library/oi_dns.c:129-134 | appends the label and a dot |
| DnsNames.ReadLabels | library/oi_dns.c:104-136 | reads labels into the text up to the root or a pointer, or fails |
| DnsNames.FollowPointer | library/oi_dns.c:109-123 | the text goes on with the name at the target, the cursor stops past the pointer |
| DnsNames.GetObjectName | library/oi_dns.c:97-142 | fills the text and moves the cursor as the decoding function says, with its own limits |
| DnsReference.TargetIsOffset | library/oi_dns.c:113 | the pointer arithmetic is the 14-bit offset of section 4.1.4 of RFC 1035 |
| DnsReference.DecodeSound | library/oi_dns.c:97-142 | a decoded text is the name RFC 1035 denotes, at any nesting, unless a reserved tag is met; the cursor is past the root or the first pointer |
| DnsReference.LabelsSound | library/oi_dns.c:104-142 | the same from inside the loop |
| DnsReference.SelfPointerIsEndless | library/oi_dns.c:116-119 | a pointer at itself denotes no name |
| DnsReference.DecodeComplete | library/oi_dns.c:97-142 | every name RFC 1035 denotes is decoded exactly when its text fits |
| DnsReference.ReadMore | library/oi_dns.c:104-136 | more fuel does not change what the standard reads |
| DnsReference.DecodedIsDenotedIff | library/oi_dns.c:105-121 | a decoded text is what the standard denotes exactly when the name goes through no octet with a reserved tag |
| DnsReference.ReservedIsDecoded | library/oi_dns.c:105-113 | a message with a reserved octet that is decoded |
| DnsReference.SelfPointerIff | library/oi_dns.c:98-119 | -2 is answered exactly when the name itself, not one it points at, ends at a pointer to itself; every other failure is -1 |
| DnsReference.LabelsOverreadIff | library/oi_dns.c:104-136 | the loop reads behind the message exactly when its labels end with it, or the nested call does |
| DnsReference.OverreadIff | library/oi_dns.c:97-142 | the decoder reads the octet behind the message exactly when one of its nested calls runs into the end, for every message, position and stack |
| DnsReference.NeverOverreadsIff | library/oi_dns.c:97-142 | a message is safe from every position exactly when no octet is the length of a label that ends with the message |
| DnsReference.UnendedNameOverreads | library/oi_dns.c:104-136 | such a message |
| DnsReference.BackwardTerminates | library/oi_dns.c:97-142 | with strictly backward pointers the decoder returns, within a stack bound known from the message |
| DnsReference.BackwardLabelsTerminate | library/oi_dns.c:104-142 | the same from inside the loop |
| DnsReference.PointerCycleNeverReturns | library/oi_dns.c:116-121 | two pointers at each other overflow every stack |
| DnsReference.LabelsOverflowIff | library/oi_dns.c:104-136 | the loop overflows the stack exactly when the nested call it makes does |
| DnsReference.OverflowIff | library/oi_dns.c:97-142 | the stack overflows exactly when it cannot hold the chain of nested calls |
| DnsReference.RepeatedCallsNest | library/oi_dns.c:97-142 | a chain in which a call repeats goes on for ever |
| DnsReference.CallsDiffer | library/oi_dns.c:97-142 | a chain without repetition has as many different positions and text lengths as calls |
| DnsReference.DeepCallsRepeat | library/oi_dns.c:97-142 | a chain of 512 calls for each octet of the message repeats |
| DnsReference.ReturnsIff | library/oi_dns.c:97-142 | the decoder returns, given some stack, exactly when no call of its chain repeats, and then with a stack of 512 calls for each octet |
| DnsQuery.WriteLength | library/oi_dns.c:251-254 | the length octet of a piece, modulo 256, in front of it |
| DnsQuery.ClosePiece | library/oi_dns.c:251-254 | one more piece of the domain is in wire form |
| DnsQuery.WriteLengths | library/oi_dns.c:245-254 | the loop turns the copied domain, in place, into its pieces behind their lengths |
| DnsQuery.MakeQuery | library/oi_dns.c:229-261 | the whole packet, octet by octet, and zeros behind it |
| DnsQuery.SplitJoins | library/oi_dns.c:245-254 | the pieces between the dots are the domain, and contain no dot |
| DnsQuery.WireIsLaidOut | library/oi_dns.c:245-254 | the wire form is the pieces, each behind its length |
| DnsQuery.DecodeGoodLabels | library/oi_dns.c:104-136 | pieces of 1 to 63 octets are read back, as long as the text fits |
| DnsQuery.BadPieceRead | library/oi_dns.c:104-136 | a piece of any other length ends the name early or gets a dot put into it |
| DnsQuery.BadPieceBreaks | library/oi_dns.c:97-142 | so a domain with such a piece never reads back |
| DnsQuery.PacketIsLaidOut | library/oi_dns.c:244-260 | the pieces, the root and the question lie behind each other |
| DnsQuery.QueryFields | library/oi_dns.c:233-260 | the fields of sections 4.1.1 and 4.1.2 of RFC 1035, as words in network order: flags 0x0100, one question, no other records, QTYPE 1 and QCLASS 1 |
| DnsQuery.QueryRoundTripIff | library/oi_dns.c:229-261 | the name in a query decodes to the domain and a dot, with the question right behind it, exactly when all pieces have 1 to 63 octets and the text fits |
| UrlEscape.DigitOfHex | library/io_http.c:93-106 | the digit table reads back what the encoder prints |
| UrlEscape.DecodeEncode | library/io_http.c:270-326 | decoding an encoding gives the string back with each plus sign as a space |
| UrlEscape.RoundTripIff | library/io_http.c:270-326 | it gives back the string itself exactly when that has no plus sign |
| UrlEscape.EncodedLength | library/io_http.c:300-307 | the pre-pass is the length of the encoding and its NUL |
| UrlEscape.EncodedLengths | library/io_http.c:260-326 | for an encoding the decoding pre-pass is exact as well |
| UrlEscape.HexDigits | library/io_http.c:316-318 | the digits the encoder prints are those of RFC 3986, in upper case |
| UrlEscape.EscapedIff | library/io_http.c:294-297 | controls, both quotes, the percent sign and the backslash are escaped, and nothing else |
| UrlEscape.EncodingIsClean | library/io_http.c:309-326 | so none of them but the percent sign is left in an encoding |
| UrlEscape.DigitIff | library/io_http.c:93-106 | the decoder reads hexadecimal digits of either case, and takes `@` and the backquote for 9 |
| UrlEscape.SpelledDecodes | library/io_http.c:268-291 | every spelling of a string decodes to it, whichever characters are escaped and in whichever case |
| UrlEscape.EncodingSpells | library/io_http.c:309-326 | the encoding of a string without plus signs is one of its spellings |
| UrlEscape.SpelledIff | library/io_http.c:268-291 | a string spells what it decodes to exactly when each percent sign in it starts an escape of two hexadecimal digits |
| UrlEscape.LaxEscape | library/io_http.c:276-281 | one that does not: `%0G` decodes to the character 16 |
| UrlEscape.EncodeWithinEnough | library/io_http.c:310-326 | a buffer of the computed size holds the whole encoding |
| UrlEscape.EncodeWithinIs | library/io_http.c:310-326 | a smaller buffer gets the encoding of the shortest part of the string that fills it |
| UrlEscape.EncodeWithinFitsIff | library/io_http.c:310-326 | it is not overrun exactly when the whole encoding fits, or that of some part fills it to the last character |
| UrlEscape.EncodeWithinBound | library/io_http.c:310-326 | it is overrun by at most two characters, and a percent sign into one does so |
| UrlEscape.PutEncoded | library/io_http.c:315-322 | one character as itself or as three |
| UrlEscape.UrlEncode | library/io_http.c:310-326 | writes the encoding as far as the loop goes, then NUL, and nothing else |
| UrlEscape.DecodedLength | library/io_http.c:260-267 | the pre-pass: two less for every percent sign |
| UrlEscape.DecodedLengthIff | library/io_http.c:260-291 | it is the decoded length exactly when every percent sign starts an escape, and too small otherwise |
| UrlEscape.DecodeChar | library/io_http.c:274-286 | one round takes at least one character and splits the first decoded character off the decoding of what is left; it looks behind the NUL exactly at a last percent sign |
| UrlEscape.UrlDecode | library/io_http.c:270-291 | writes as much of the decoding as fits, then NUL, and nothing else; looks at the character behind the NUL exactly when the string ends in a percent sign and its decoding fits |
| HeaderMap.SizedAgrees | library/io_map.c:51 | comparing with a sized key is comparing with its first characters |
| HeaderMap.SameIgnoringCaseIff | library/io_map.c:41 | keys are the same exactly when they are as long and differ at most in the case of letters |
| HeaderMap.Heap.constructor | library/io_heap.c:18-21 | an unused heap |
| HeaderMap.Heap.StrDup | library/io_heap.c:24-36 | behind the used bytes, the string and a NUL, if there is room; else nothing changes; a zero length copies the whole string |
| HeaderMap.LayoutSize | library/io_heap.c:24-36 | the used heap is the sum of all lengths plus one |
| HeaderMap.StringsOf | library/io_map.c:103-120 | whatever is added later, every stored pointer reads its string |
| HeaderMap.EntriesDisjoint | library/io_map.c:103-120 | strings of different entries do not overlap |
| HeaderMap.FindSpec | library/io_map.c:38-45 | a lookup finds the first entry whose key differs in case at most |
| HeaderMap.FindsAnyCasing | library/io_map.c:38-45 | with distinct keys every casing finds the entry |
| HeaderMap.FindIsFirst | library/io_map.c:38-45 | an entry with no match before it is the one found |
| HeaderMap.PairsWithNew | library/io_map.c:103-120 | an addition leaves the pointers of all others where they are |
| HeaderMap.PairLaid | library/io_map.c:38-55 | stored pointers read the strings they were stored for |
| HeaderMap.LaidWithNew | library/io_map.c:103-120 | an addition leaves keys, values and heap in step |
| HeaderMap.Map.constructor | library/io_map.c:90-100 | an empty map over an unused heap |
| HeaderMap.Map.Get | library/io_map.c:38-45 | the value of the first entry with this key in any casing, or null |
| HeaderMap.Map.GetSized | library/io_map.c:48-55 | the same for the first characters of a longer string |
| HeaderMap.Map.NewPair | library/io_map.c:59-67 | one more pair, unless the map is full |
| HeaderMap.Map.StrDupBoth | library/io_map.c:107-119 | both strings on the heap, or a null pointer |
| HeaderMap.Map.Append | library/io_map.c:107-119 | with room, one more entry and its bytes; with a full heap a null pointer is stored |
| HeaderMap.Map.Add | library/io_map.c:103-110 | refuses a key present in any casing or a full map, else adds the entry |
| HeaderMap.Map.AddSized | library/io_map.c:113-120 | the same for sized strings |
| HeaderMap.AdditionKeepsDistinctIff | library/io_map.c:113-120 | an addition keeps keys distinct exactly when the key stored is the key looked for or is new, which an empty sized key breaks |
| HeaderMap.FirstAdditionWins | library/io_map.c:103-120 | no later addition changes what a lookup finds |
| HeaderMap.FindWithNew | library/io_map.c:38-45 | a key is found after an addition exactly when it was found before or was added |
| HeaderMap.Map.AddEach | library/io_map.c:103-120 | on the real map, consecutive additions are the run of the next row |
| HeaderMap.RunOfAdditions | library/io_map.c:103-120 | after any run of additions keys are distinct ignoring case, and every key has the value it first got |
| HttpHeaders.ParseLine | library/io_http.c:349-370 | an accepted line has a name and a value of at least one character, so the heap never gets a zero length from here |
| HttpHeaders.SkipSpaces | library/io_http.c:14-21 | stops at the first character that is no space |
| HttpHeaders.MatchToken | library/io_http.c:336-342 | stops behind the token, and fails on an empty one |
| HttpHeaders.ScanLine | library/io_http.c:349-370 | finds the parts of a line as the line function says |
| HttpHeaders.AddLine | library/io_http.c:372-373 | adds exactly the name and the trimmed value of the line, or is refused |
| HttpHeaders.ParseOneLine | library/io_http.c:348-374 | one round of the loop does one step of the parsing function |
| HttpHeaders.HeaderParse | library/io_http.c:345-378 | the outcome, the returned number, the stop position and the contents of the map are those of the parsing function, up to the first null pointer that is stored |
| HeaderGrammar.IsTokenIff | library/io_http.c:330-333 | the characters of a token are letters, digits, 15 marks, DEL and all above |
| HeaderGrammar.RenderedHeaderIff | library/io_http.c:345-378 | a rendered header is its lines, part by part, and the empty line |
| HeaderGrammar.ParsesRenderedLine | library/io_http.c:349-370 | a rendered line, with any spaces between its parts, parses to its name and value |
| HeaderGrammar.ParsedLineIsRendered | library/io_http.c:349-370 | a line that parses is the rendering of some field |
| HeaderGrammar.FitsInTurnIff | library/io_http.c:372-373 | entries are taken one by one exactly when all fit together and no two keys agree up to case |
| HeaderGrammar.ParsesHeader | library/io_http.c:345-378 | a rendered header that fits goes into the map, in order |
| HeaderGrammar.ParseOfRender | library/io_http.c:345-378 | parsing the rendering of a header, between any texts, gives 0, stops at the closing CRLF and leaves exactly its entries |
| HeaderGrammar.ParsedIsLines | library/io_http.c:345-378 | whatever is accepted is rendered lines that fit |
| HeaderGrammar.AcceptsIff | library/io_http.c:345-378 | the parser comes to the end of a header without a null pointer exactly for renderings of headers that the map takes |
| HeaderGrammar.ParsedHeaderIsFound | library/io_http.c:345-378 | afterwards every header is found under any casing of its name |
| HeaderFailures.ComesTo | library/io_http.c:348-374 | behind rendered lines that fit, the parser ends as it does from there with the map they leave |
| HeaderFailures.StopsWithin | library/io_http.c:348-374 | the line in which a failing parser stops, and the rendered lines before it |
| HeaderFailures.UnfinishedParses | library/io_http.c:349-366 | a name, a colon and no CRLF anywhere behind: the line end is a null pointer |
| HeaderFailures.ParsedUnfinished | library/io_http.c:349-366 | and only such a line has one |
| HeaderFailures.NullLineEndIff | library/io_http.c:345-378 | the parser goes on from a null pointer exactly when such a line comes behind zero or more rendered lines that fit |
| HeaderFailures.CrlfAtTheEnd | library/io_http.c:345-378 | a text that ends in CRLF never makes it do that, whatever is in the map |
| HeaderFailures.UnfinishedHeader | library/io_http.c:360-366 | the text `a: b` does |
| HeaderFailures.HeapFullIff | library/io_http.c:372-373 | a null pointer is stored exactly for a new header behind rendered lines that fit, whose strings the heap they leave has no room for |
| HeaderFailures.SuccessIff | library/io_http.c:345-378 | 0 is returned exactly for those renderings, and for renderings of which only the last line overfills the heap |
| HeaderFailures.FullHeader | library/io_http.c:372-378 | one such text: with a heap of one byte, `a: b` and its line ends are a success that stores a null pointer |
| HeaderRefusals.NoNameIff | library/io_http.c:348-352 | a line is refused with -1 exactly when behind its spaces comes something that starts no token |
| HeaderRefusals.NoColonIff | library/io_http.c:354-357 | with -2 exactly when behind a name and spaces comes something that is no colon |
| HeaderRefusals.NoValueIff | library/io_http.c:359-365 | with -3 exactly when behind the colon come spaces and the end of the line |
| HeaderRefusals.RefusedIff | library/io_http.c:345-378 | -1 to -4 are returned exactly for such a line, or a header whose name is in the map or for which no slot is left, behind zero or more rendered lines that fit |
| HeaderRefusals.NoEmptyLineIff | library/io_http.c:367-377 | -5 is returned exactly when a carriage return without a line feed stands behind a header that the map has a place for |
| VarInt.GetVarInt | examples/mqtt.c:36-58 | the reader, with its cursor moved exactly on success |
| VarInt.PutVarInt | examples/mqtt.c:112-135 | stores the encoding from p on, and nothing else |
| VarInt.RevPutVarInt | examples/mqtt.c:80-109 | stores the same bytes, in the same order, up to p |
| VarInt.PutIsEncodeIff | examples/mqtt.c:61-135 | the branches write the encoding of section 1.5.5 of MQTT Version 5.0, of the announced size, exactly below 2^28 |
| VarInt.ReadsEncoded | examples/mqtt.c:43-56 | an encoding is read from any point in it, whatever follows |
| VarInt.ReadsOnlyEncoded | examples/mqtt.c:43-56 | only an encoding is read |
| VarInt.PutIsRead | examples/mqtt.c:36-58 | what put writes is read back |
| VarInt.ReadIsPut | examples/mqtt.c:36-58 | what is read was written by put |
| VarInt.ReadIffPut | examples/mqtt.c:36-135 | at any place in any message n is read, with its size, exactly when n is below 2^28 and the bytes there are its put |
| VarInt.IncompleteIff | examples/mqtt.c:44-55 | the reader runs out of bytes exactly after at most three more bytes that all continue |
| VarInt.NotCompleteIff | examples/mqtt.c:36-58 | NOT_COMPLETE is answered exactly when the bytes are a proper start of some put |
| VarIntWords.ShiftDivides | examples/mqtt.c:86-135 | a shift by seven and a mask of seven bits are the quotient and the remainder by 128, of the number a word holds |
| VarIntWords.PutAgrees | examples/mqtt.c:80-135 | for every 32-bit unsigned the shifts, masks, ors and comparisons of the writers store the bytes of VarInt |
| VarIntWords.GetAgreesIff | examples/mqtt.c:36-58 | from any bytes VarInt reads a number exactly when the masks, shifts and ors of the reader gather it from them |
| VarIntWords.GatherPutIff | examples/mqtt.c:36-135 | with these operators, gathering what was put gives the number, in bytes the reader accepts, exactly below 2^28 |
| VarIntWords.PutGather | examples/mqtt.c:36-135 | and putting what was gathered gives the bytes, for all the reader accepts |
| MaskWords.CheckWord | library/io_ipv4.c:183-184 | the test on a word answers whether ipv4_wtoi makes it |
| MaskWords.Rounds | library/io_ipv4.c:213-216 | after three rounds each nibble holds the number of its bits |
| MaskWords.TallyBytes | library/io_ipv4.c:217 | after the fold each byte holds the number of its bits |
| MaskWords.TotalOf | library/io_ipv4.c:218 | the multiplication adds the four bytes |
| MaskWords.WidthOfBytes | library/io_ipv4.c:211-219 | the result is the sum over the four bytes |
| MaskWords.WidthCountsOnes | library/io_ipv4.c:211-219 | the result is the number of set bits, of every 32-bit word |
| MaskWords.WidthOfMask | library/io_ipv4.c:211-226 | itow undoes wtoi for 0 to 32, and every wtoi passes the mask test |
| MaskWords.TopBit | library/io_ipv4.c:184 | a word that passes has its first bit set and passes without it |
| MaskWords.WidthFound | library/io_ipv4.c:184-225 | a word that passes is a wtoi |
| MaskWords.IsMaskIff | library/io_ipv4.c:179-226 | the mask test accepts exactly the words that wtoi makes |
| Ipv4.DecimalOf | library/io_ipv4.c:19-34 | one, two or three digits |
| Ipv4.Bput | library/io_ipv4.c:19-34 | writes the low octet in decimal, without leading zeros, and nothing else |
| Ipv4.AddDotted | library/io_ipv4.c:55-60 | an octet and a dot behind what is written |
| Ipv4.IToStr | library/io_ipv4.c:52-64 | writes the dotted text and a NUL, and nothing else |
| Ipv4.StrToI | library/io_ipv4.c:98-125 | the number and the end of the address, as the parsing function says, and 0 with an unmoved cursor on failure |
| Ipv4.ReadItem | library/io_ipv4.c:145-147 | one address, or 0 for an unreadable one, and the blanks behind it |
| Ipv4.StoreItem | library/io_ipv4.c:144-153 | one round of the list loop |
| Ipv4.LToI | library/io_ipv4.c:137-155 | stores the list the list function says, at most `limit` of it, and nothing else |
| Ipv4.IsIpFrom | library/io_ipv4.c:159-176 | the recognizer and the parser agree part by part |
| Ipv4.IsIpIff | library/io_ipv4.c:98-176 | the recognizer accepts exactly what the parser reads, but for the form with a leading dot |
| Ipv4.CheckIp | library/io_ipv4.c:159-176 | answers whether four octets with dots between them stand at the start of the text |
| Ipv4.CheckMask | library/io_ipv4.c:179-186 | a text is taken for a mask exactly when it is an address that wtoi makes of some width |
| Ipv4Lists.NumberOfDecimal | library/io_ipv4.c:115 | a printed number is digits that denote it |
| Ipv4Lists.ReadsOctet | library/io_ipv4.c:115-118 | white space and a printed octet are read as the octet |
| Ipv4Lists.ReadsText | library/io_ipv4.c:52-125 | a printed address, with any white space in front, is read as the address |
| Ipv4Lists.ReadsShortFrom | library/io_ipv4.c:106-120 | one to three octets, each behind a dot, from inside the loop |
| Ipv4Lists.ReadsShort | library/io_ipv4.c:98-125 | a text that starts with a dot is read as the low octets of an address |
| Ipv4Lists.ReadsEntry | library/io_ipv4.c:145-148 | the same with blanks behind, as an item of a list |
| Ipv4Lists.ReadsList | library/io_ipv4.c:137-155 | a list of printed addresses that ends the text is read as its first `limit` addresses, from any place |
| Ipv4Lists.ListRoundTrip | library/io_ipv4.c:52-155 | reading a comma separated list of printed addresses gives its first `limit` addresses, for every list and every spacing |
| Ipv4Lists.ReadsBefore | library/io_ipv4.c:137-155 | addresses with commas are read first, whatever comes behind them |
| Ipv4Lists.UnreadableItem | library/io_ipv4.c:144-153 | behind any of them, an unreadable item is stored as 0 and the list goes on only behind a comma |
| Ipv4Lists.UnreadableEndsIff | library/io_ipv4.c:144-153 | it is the last one stored exactly when no comma follows its blanks, nothing follows the comma, or the limit is reached |
| Ipv4Lists.AddressLost | library/io_ipv4.c:144-153 | so a letter and a comma in front of any address lose it |
| Ipv4Numbers.ReadsNumeral | library/io_ipv4.c:115 | strtoul reads white space, a sign, zeros and a number of any size: the number, 2^64 less it behind a minus sign, or the greatest number when it is too large |
| Ipv4Numbers.OnlyNumerals | library/io_ipv4.c:115-118 | and nothing else moves its cursor |
| Ipv4Numbers.PartsIff | library/io_ipv4.c:106-120 | a text of numbers with dots between them is read exactly when each is below 256, or is negative and below 256 with 2^64 added |
| Ipv4Numbers.FourNumbersIff | library/io_ipv4.c:98-176 | four numbers with dots between them are an address, for the parser and for the recognizer, exactly when each of them is taken |
| Ipv4Numbers.IsIpExactly | library/io_ipv4.c:159-176 | the recognizer accepts exactly the texts that start with four such numbers and no digit behind them |
| Ipv4Numbers.NoOctet | library/io_ipv4.c:115-117 | 300 and -1 are no octets, and -18446744073709551615 is the octet 1 |

## Left out

- SegmentedBuffer.Buffer.Length: the sum is unbounded where the source adds in an `int`; the same goes for the
  counts that `io_buf_send` and `io_buf_recv` return.
- SegmentedBuffer.SendRetrying: a signal interrupts a call finitely often, so that the EINTR loops end.
- Stream.Connection.Write: what the callbacks do is a parameter, any finite nesting of writes and closes of this
  stream. They do not free the stream, whose memory the source would go on to use. The errors recorded are those of
  send(2) but for signals, so a direct write that a signal fails is not told from one that was repeated after it.
- Stream.Connection.HandleEvent: `recv` reports success or failure, and takes its bytes from elsewhere.
- DatagramClient.Client.Send: sizes are unbounded where the source returns an `int`, and the address behind a
  block's tag is the tag itself. `Valid` asks that no caller changes memory of a datagram that waits; local
  datagrams need no such promise.
- Timers.Scheduler.Dispatch: handlers arm timers only after the `now` of the dispatch, or for a deadline that never
  comes; any other would be fired again in the same loop. No timer has a negative period, with which the catch-up
  loop would not end. A handler makes finitely many calls.
- Timers.Scheduler.GetTimeout: the clock never goes back, and it and the deadlines are unbounded integers where the
  source has a `long long`.
- DnsQuery.MakeQuery: the buffer is as large as the packet, which the source does not check, and the id is
  stored by a little-endian host.
- UrlEscape.EncodedLength: sizes are unbounded where the source casts a pointer difference to `unsigned` and adds
  modulo 2^64; `io_url_decoded_length` may wrap below zero in the same way.
- HttpHeaders.HeaderParse: the model ends with the first null pointer, read or stored; when more lines follow, the
  source goes on with a map that holds one. The cast of the value length
  to `unsigned` is exact.
- HeaderMap.Map.Append: which of the two strings is copied first is left to the compiler, as in C.
- Ipv4.StrToI: a null text is not modelled; `strtoul` is the function of the C standard with a 64-bit `unsigned
  long` in the C locale.
- VarInt.GetVarInt: there is at least one byte, which the source reads without looking at the end. In memory the
  bytes are numbers, and shifts and masks are arithmetic; `VarIntWords` has the operators themselves.
- `malloc` succeeds, and freed segments are not reused; `io_buf_free` and `io_buf_add` on segments built by callers.
- The POLLIN half of the datagram client, `io_buf` users other than streams, and the poll loop of library/io_ds.c.
- Request lines, status lines and status names in library/io_http.c; the MAC printer library/io_hexmac.c.
- The record reader and the response parser of library/oi_dns.c, which copy by host word sizes.
- MQTT strings, properties and packets: the code is incomplete.
- `ipv4_isimask`, `ipv4_netbits`, the network-order variants and the functions that return static buffers.
- library/io_ipv6.c, library/io_sock_addr.c, library/oi_http_auth.c, library/io_signals.c and logging.
