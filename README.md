# Stream RPC server transport of ntirpc, modelled in Dafny

This project models the server side of ntirpc's connection-oriented (TCP)
RPC transport: the send path of `src/svc_ioq.c`, the transport operations of
`src/svc_vc.c` and the per-descriptor lock records of `src/vc_lock.h`.

- **Record marking and the vectored writer** (`record_marking.dfy`,
  `flush.dfy`). A reply is a list of memory spans. `svc_ioq_flushv` lays them
  out in an iovec array behind a reserved header slot. It cuts them into
  fragments of at most `__svc_maxiov` slots, each with a payload below 2^31.
  Each fragment gets a 4-byte big-endian header, with bit 31 set on the last
  fragment (record marking, section 11 of RFC 5531). The writer calls
  `writev` until nothing remains; after a short write it skips the slots that
  went out and trims the slot that was cut. The array is a Dafny `array`
  rewritten in place. The socket is a list of the values `writev` returns.
  What the writer puts on the wire is proved to be a prefix of the
  record-marked encoding, and all of it when every call succeeds. The
  encoding as the writer marks it is proved to read back as the reply's
  bytes when the reply's final span is non-empty (`RecordMarking.DeframeWire`).
  With the last-fragment bit on the last fragment written, it reads back for
  every non-empty reply (`RecordMarking.CorrectedRoundTrip`; see Findings).
- **Send-queue statistics** (`send_stats.dfy`). These are the 64-bit
  counters of waits between hand-over and flush, and `timespec_diff`.
- **The output queue** (`send_queue.dfy`). A reply is handed over by
  `svc_ioq_write_now` or `svc_ioq_write_submit`. The first pending reply
  makes its caller the drainer. Later replies queue behind it, and a reply
  that would make more than 2000 pending is dropped, with a message logged
  at most every 30 seconds. The drain loop of `svc_ioq_write` flushes
  replies in arrival order until the pending count reaches zero. The
  class's invariant ties the count, the references and the queue to the
  replies admitted, released and held. It also makes the wire the
  concatenation of what each released reply's flush sent.
- **Connections and listeners** (`svc_vc.dfy`, `write_vc.dfy`). This covers:
  - the private state of a listener (`cf_rendezvous`) and of a connection
    (`cf_conn`);
  - the configuration an accepted connection inherits;
  - status, control, `read_vc`, `write_vc`, the xid kept between receive
    and reply;
  - the IPv4-mapped IPv6 address of an IPv4 peer (section 2.5.5.2 of RFC
    4291);
  - the order of teardown.
- **The transport table and the idle reaper** (`clean_idle.dfy`).
  `__svc_clean_idle` either destroys every eligible connection idle longer
  than a timeout, or, with timeout 0, the single most idle one.
  `rendezvous_request` accepts, retries on EINTR, reaps on EMFILE or ENFILE,
  and registers the new connection.
- **Lock records** (`vc_lock.dfy`). This covers the descriptor comparator,
  the lazy binding of a client to its record, and the flag protocol of lock,
  unlock and wait under the signal mask. It also routes a transport's lock
  through its duplex client or its descriptor.

System calls, clocks and other threads become inputs. They are lists of the
values each call returns, in order; a method that runs out of them reports
that it is still waiting. Locks and atomics are single atomic steps.

## Model

| member | source | states |
|---|---|---|
| RecordMarking.BigEndian32 | src/svc_ioq.c:211-212 | The header word is 4 bytes that decode back to the 32-bit value (htonl). |
| RecordMarking.Header | src/svc_ioq.c:207-218 | A fragment header is 4 bytes. Bit 31 is set exactly on the last fragment. The low 31 bits are the payload length, which excludes the header. |
| RecordMarking.FragEnd | src/svc_ioq.c:194-205 | A fragment takes whole spans while slots remain (header included) and the payload stays below 2^31. It stops early only when the slots are full or the next span would overflow. |
| RecordMarking.Frames | src/svc_ioq.c:190-218 | Every fragment the writer cuts can go out in one writev: at least one span, at most maxiov slots, payload below 2^31. |
| RecordMarking.FramesShape | src/svc_ioq.c:190-218 | Fragments tile the message in order. There are none iff the message is empty. Bit 31 goes to the fragment that reaches the final span. A span that does not fit is deferred whole, never split. |
| RecordMarking.FramesTile | src/svc_ioq.c:190-205 | There are no fragments iff no byte remains. The first starts at the first span, each starts where the previous ended, and only empty spans follow the last. |
| RecordMarking.FramesLastFlag | src/svc_ioq.c:207-212 | A fragment's header carries bit 31 iff the fragment reaches the final span. |
| RecordMarking.FramesDeferral | src/svc_ioq.c:194-205 | A fragment that stops before the final span is full, or the next span would take its payload to 2^31. |
| RecordMarking.WireFromUnfold | src/svc_ioq.c:190-228 | The wire is the first fragment's header and payload, then the wire of the rest. |
| RecordMarking.WireFromEmpty | src/svc_ioq.c:190 | A message with no bytes puts nothing on the wire. |
| RecordMarking.Payloads | src/svc_ioq.c:194-205 | The payload of each fragment, one per fragment. |
| RecordMarking.FramesCoverMessage | src/svc_ioq.c:181-228 | The payloads of all fragments, concatenated, are the spans' bytes in order. |
| RecordMarking.WireLength | src/svc_ioq.c:181-228 | The wire is the sum of the span lengths plus 4 bytes per fragment. |
| RecordMarking.EmptyTail | src/svc_ioq.c:207-212 | If no byte follows span e, then the final span is empty or lies before e. |
| RecordMarking.LastFlagOnlyOnFinal | src/svc_ioq.c:207-212 | Only the final fragment's header carries bit 31. The final fragment carries it when the final span is non-empty. |
| RecordMarking.DeframeEncode | src/svc_ioq.c:181-228 | A tiling with bit 31 on its final fragment reads back as exactly the bytes it tiles. |
| RecordMarking.DeframeWire | src/svc_ioq.c:181-228 | Round trip: reading back the writer's wire gives the reply's bytes when the final span is non-empty. |
| RecordMarking.TrailingEmptySpanLeavesRecordOpen | src/svc_ioq.c:207-212 | As written, the spans [[7], []] with two slots go out as one fragment without bit 31, which no reader accepts as a record. |
| RecordMarking.UnclosedRecord | src/svc_ioq.c:207-212 | A lone fragment without bit 31 is not a complete record. |
| RecordMarking.MarkFinal | src/svc_ioq.c:207-212 | The intended marking: the same fragments, with bit 31 on the last one only. |
| RecordMarking.MarkFinalTiles | src/svc_ioq.c:190-218 | With bit 31 moved to the last fragment, the writer's fragments tile a non-empty reply whole. |
| RecordMarking.CorrectedRoundTrip | src/svc_ioq.c:181-228 | With the intended marking, every non-empty reply reads back exactly. |
| Flush.WritevResult | src/svc_ioq.c:222 | writev returns -1 or a count no larger than asked. It returns the full count when the socket takes everything. |
| Flush.LayOut | src/svc_ioq.c:180-188 | Slot 0 is reserved for the header, and slot i+1 holds span i. remaining is the total payload. |
| Flush.GatherSpans | src/svc_ioq.c:194-205 | The gathering loop ends at FragEnd, and fbytes is the payload of the spans taken. |
| Flush.StartFragment | src/svc_ioq.c:190-218 | The header step writes the header just before the gathered spans, with bit 31 iff the fragment reaches the last span. fbytes counts the header. No other slot changes. |
| Flush.SkipWritten | src/svc_ioq.c:237-249 | After a short writev, fully written slots are skipped. The straddled slot loses exactly the leftover bytes. The window's remaining bytes are the old window minus the bytes written. |
| Flush.FindStraddled | src/svc_ioq.c:240-249 | The skipping loop stops at the first slot that was not fully written. The bytes before it plus those written of it are the writev result. |
| Flush.FragmentCount | src/svc_ioq.c:190-218 | Each fragment started moves the writer on by exactly one fragment of the message's count. |
| Flush.CountPositive | src/svc_ioq.c:190 | Bytes remain after span i exactly when at least one fragment remains. |
| Flush.FragmentWindow | src/svc_ioq.c:207-223 | A fragment's window is its header and payload, and the wire is that window followed by the wire of the rest. |
| Flush.BeginFragment | src/svc_ioq.c:190-218 | Starting a fragment keeps the writer's invariant. The window reaches FragEnd, and the sent bytes plus the window plus the rest are the whole wire. |
| Flush.FullWrite | src/svc_ioq.c:225-229 | A writev that takes the whole window ends the fragment. The invariant holds with the window appended to the sent bytes. |
| Flush.ShortWrite | src/svc_ioq.c:237-249 | A short writev appends exactly the bytes written to the sent bytes, and remaining drops by exactly that count. |
| Flush.WriteWindow | src/svc_ioq.c:222-249 | One writev: a negative result is death with nothing more sent. Otherwise the invariant holds, and a full write closes the window. |
| Flush.Call | src/svc_ioq.c:190-249 | One pass of the loop (header step if needed, then writev) keeps the invariant. It dies iff writev fails. A writev taking a whole fragment ends it and leaves one fragment fewer. |
| Flush.PendingDone | src/svc_ioq.c:190 | When nothing remains, the rest of the wire is empty. |
| Flush.Drain | src/svc_ioq.c:190-252 | The writev loop over the laid-out array sends a prefix of the wire, and all of it unless a writev fails. Death iff the last writev was negative. With always-complete writes it makes exactly one call per fragment. |
| Flush.FlushV | src/svc_ioq.c:145-255 | What one flush sends is a prefix of the record-marked encoding, and all of it when it ends normally. It ends dead exactly when the last writev was negative, and all earlier ones succeeded. An empty reply makes no call. With always-complete writes it flushes in one call per fragment. |
| SendStats.TimespecDiff | src/svc_ioq.c:131-143 | timespec_diff is below 2^64. For clock-normalized inputs it is the absolute difference in nanoseconds, modulo 2^64. |
| SendStats.TimespecDiffSymmetric | src/svc_ioq.c:131-143 | The difference does not depend on argument order. |
| SendStats.Largest | src/svc_ioq.c:96-102 | The running maximum bounds every recorded wait, is one of them, and is 0 when nothing is recorded. |
| SendStats.SumBounds | src/svc_ioq.c:96-102 | The largest wait is at most the total, which is at most count times the largest. |
| SendStats.RecordStep | src/svc_ioq.c:96-102 | One more wait adds 1 to the count and the wait to the total, both modulo 2^64. It raises the maximum only if it is larger. |
| SendStats.SendqStats.constructor | src/svc_ioq.c:84-87 | The counters start at zero with recording off. |
| SendStats.SendqStats.Reset | src/svc_ioq.c:89-94 | reset_sendq_stats empties the history and zeroes all three counters. |
| SendStats.SendqStats.Record | src/svc_ioq.c:96-102 | record_sendq_stats appends the wait to the history. count, wait and max stay the wrapped count, the wrapped sum and the maximum of the history. |
| SendStats.SendqStats.Enable | src/svc_ioq.c:104-107 | Recording on, counters unchanged. |
| SendStats.SendqStats.Disable | src/svc_ioq.c:109-112 | Recording off, counters unchanged. |
| SendStats.SendqStats.Get | src/svc_ioq.c:116-121 | get_sendq_stats returns the wrapped count and total of the history, and its largest wait (0 for an empty history), which bounds it and belongs to it. |
| SendStats.SendqStats.RecordFlushWait | src/svc_ioq.c:161-168 | A flush records its wait only when recording is on and the reply was stamped (start time not zero). |
| SendQueue.SentPrefixMeans | src/svc_ioq.c:145-255 | The queue's view of a flush, SentPrefix, means exactly: a prefix of the reply's record-marked encoding. |
| SendQueue.FlushReply | src/svc_ioq.c:145-255 | A flush sends a prefix of its reply's encoding, and all of it when it ends normally. It fails (the caller's signal to mark the connection dead) exactly when the last writev answer it used was negative. |
| SendQueue.FlushStep | src/svc_ioq.c:269-275 | A flush runs exactly when flushing is on; otherwise nothing is sent. The record it returns agrees with the writev answers and with what was sent. |
| SendQueue.DeathsAppend | src/svc_ioq.c:230-236 | A drain has seen a failed flush after one more reply exactly when it had before or that reply's flush failed. |
| SendQueue.DrainedStep | src/svc_ioq.c:262-289 | One more pass of the drain loop keeps the accounting of flushes run and of the dead flag. |
| SendQueue.AccountedAppend | src/svc_ioq.c:277-283 | Releasing one more reply keeps every released reply's sent bytes and flush record consistent. |
| SendQueue.SlowLogStep | src/svc_ioq.c:354-356 | A drop is logged iff now is more than 30 seconds after the last logged time, which then becomes now. |
| SendQueue.SlowLogsSpaced | src/svc_ioq.c:354-356 | Logged drops are among the drops, more than 30 seconds apart, and the first is more than 30 seconds after the starting time. |
| SendQueue.SlowLog.Drop | src/svc_ioq.c:349-362 | One drop follows SlowLogStep and keeps the logs spaced. |
| SendQueue.SlowLog.constructor | src/svc_ioq.c:332 | last_time starts at 0, with nothing logged. |
| SendQueue.SendQueue.constructor | src/svc_ioq.c:344 | An empty queue: count 0, so the first reply's caller drains; nothing sent, no references. |
| SendQueue.SendQueue.Admit | src/svc_ioq.c:340-376 | The caller drains iff the count was 0. The reply is dropped iff the count would pass 2000; its reference is then returned and the count restored. Otherwise it is appended at the tail with one reference. |
| SendQueue.SendQueue.Enqueue | src/svc_ioq.c:344-367 | A reply behind the drainer is counted, referenced and appended at the tail. Nothing else changes. |
| SendQueue.SendQueue.DropReply | src/svc_ioq.c:349-362 | A dropped reply gives back its reference and leaves the count and queue as they were. The log follows SlowLogStep. |
| SendQueue.SendQueue.Write | src/svc_ioq.c:257-293 | The drain loop releases the drainer's reply and then every queued one in FIFO order. It leaves count, queue and references at zero. The wire and the bytes sent only grow. It records one flush per released reply, run exactly when the pool has threads and the transport is not destroyed. The connection ends dead exactly when it was dead before or one of those flushes failed (a negative writev answer, through the class invariant). |
| SendQueue.SendQueue.DrainOne | src/svc_ioq.c:269-281 | One pass flushes when allowed, releases one reference and decrements the count once. It marks the connection dead exactly when its flush's last writev answer was negative, and a flush that ended normally put the whole encoding out. |
| SendQueue.SendQueue.ReleaseOne | src/svc_ioq.c:277-283 | The reply is released, its sent bytes join the wire, its flush record is kept, and the count drops by one. |
| SendQueue.SendQueue.TakeHead | src/svc_ioq.c:284-285 | The drainer takes the queue's head; the rest stays in order and the count is unchanged. |
| SendQueue.SendQueue.WriteNow | src/svc_ioq.c:332-377 | svc_ioq_write_now: a caller finding the count 0 drains inline and has its reply released. Others are queued or dropped as Admit says, with Admit's logging. Only a drain flushes: it appends flush records as Write states, and the wire and the bytes sent only grow. |
| SendQueue.SendQueue.WriteSubmit | src/svc_ioq.c:386-430 | svc_ioq_write_submit: a caller finding the count 0 leaves a pool job holding the reply. Others are queued or dropped, with Admit's logging. Nothing is flushed. |
| SendQueue.SendQueue.RunJob | src/svc_ioq.c:295-303 | svc_ioq_write_callback drains the job's reply and then the queue, appending flush records as Write states; the wire and the bytes sent only grow. |
| StreamConn.PortOf | src/svc_vc.c:168 | The listener's port is nonzero ((u_short)-1), and a connection's is 0 (line 292). |
| StreamConn.ConnStat | src/svc_vc.c:593-608 | DIED iff marked dead. Otherwise MOREREQS iff the codec is not at end of input, and IDLE iff it is. |
| StreamConn.Stat | src/svc_vc.c:393-399 | A listener's status is always IDLE. A connection's is svc_vc_stat's. |
| StreamConn.RendezvousAlwaysIdle | src/svc_vc.c:393-399 | A listener never reports dead or busy, and an idle connection is not dead. |
| StreamConn.ConnControl | src/svc_vc.c:444-451 | The connection's control entry always fails. |
| StreamConn.SetThenGet | src/svc_vc.c:453-475 | SVCSET_CONNMAXREC then SVCGET_CONNMAXREC returns the value set. An unknown request fails and changes nothing. |
| StreamConn.RendezvousControl | src/svc_vc.c:453-475 | Null private state fails. Otherwise get reads maxrec, set writes it, and any other request fails. The sizes never change. |
| StreamConn.CfRendezvous.constructor | src/svc_vc.c:154-156 | The listener's sizes and maxrec as given. |
| StreamConn.AsUnsigned | src/svc_vc.c:380-381 | An int read as u_int: unchanged if non-negative, plus 2^32 if negative. |
| StreamConn.ClampRecvsize | src/svc_vc.c:380-381 | The result is the smaller of recvsize and maxrec read as unsigned. With a positive maxrec it is at most maxrec. |
| StreamConn.MappedPrefix | src/svc_vc.c:112-114 | The 12-byte prefix ::ffff:0:0/96. |
| StreamConn.MapIpv4ToIpv6 | src/svc_vc.c:106-117 | An IPv6 address with the same port, the mapped prefix, and the IPv4 address in the last four bytes. |
| StreamConn.MapIpv4RoundTrip | src/svc_vc.c:106-117 | Reading a mapped address back gives the original port and IPv4 address. |
| StreamConn.MappedIpv4Complete | src/svc_vc.c:106-117 | Every address with the mapped prefix is the mapping of the IPv4 address it carries. |
| StreamConn.MapIpv4Injective | src/svc_vc.c:106-117 | Distinct IPv4 peers map to distinct IPv6 addresses. |
| StreamConn.AddrLen | src/svc_vc.c:323-324 | The length accept reports: shorter than a sockaddr_in6 for IPv4, exactly one for IPv6, two bytes plus the sun_path bytes, terminating NUL included, for AF_LOCAL. |
| StreamConn.RemoteAddr | src/svc_vc.c:344-354 | Intended recording: an IPv4 peer in mapped form with the length of a sockaddr_in6, any other address as accept gave it with accept's length. |
| StreamConn.RemoteAddrAsWritten | src/svc_vc.c:344-354 | As written: fails (the copy overruns the stack sockaddr_in6) exactly for a non-IPv4 address longer than 28 bytes, and otherwise records what RemoteAddr records. |
| StreamConn.LocalPathOverrunsSin6 | src/svc_vc.c:344-354 | Only AF_LOCAL peers overrun, exactly those whose sun_path bytes (terminating NUL included) exceed 26; a 26-character path (27 bytes with its NUL, length 29) is one. |
| StreamConn.PollWait | src/svc_vc.c:515-531 | The wait is still undecided exactly when every answer so far is EINTR or events without POLLIN. |
| StreamConn.PollWaitFirstDecisive | src/svc_vc.c:515-531 | The first answer that is not EINTR or events without POLLIN decides the wait: ready exactly when it has POLLIN, fatal exactly when it is the timeout or another error. |
| StreamConn.ReadVcSpec | src/svc_vc.c:484-541 | A positive return is the bytes read. A non-blocking read always returns. A blocking read never returns 0. A return of 0 means non-blocking with EAGAIN or end of stream. |
| StreamConn.ReadClassification | src/svc_vc.c:503-540 | Non-blocking: the byte count (0 at end of stream included), 0 for EAGAIN, -1 for other errors. Blocking: no return while undecided, -1 after a fatal wait, the byte count after a ready wait and a read of at least one byte, -1 after a ready wait and a zero-byte read or an error. Every return is positive, 0 or -1. |
| StreamConn.CfConn.Accept | src/svc_vc.c:370-387 | The new connection is idle and inherits sendsize, recvsize and maxrec. It is non-blocking iff maxrec is not 0, with recvsize then clamped. Its last receive time is the accept time. |
| StreamConn.CfConn.StatNow | src/svc_vc.c:593-608 | svc_vc_stat on this connection's state. |
| StreamConn.CfConn.ReadVc | src/svc_vc.c:484-541 | read_vc returns ReadVcSpec. It marks the connection dead exactly on -1 and moves the last receive time only when bytes arrived. |
| StreamConn.CfConn.Recv | src/svc_vc.c:610-637 | svc_vc_recv succeeds iff a record is available (non-blocking) and the call decodes, recording its xid. A decode failure marks the connection dead. |
| StreamConn.CfConn.Reply | src/svc_vc.c:669-689 | The reply carries the stored xid, and its status is the encoder's. |
| StreamConn.DodestroySteps | src/svc_vc.c:411-441 | __svc_vc_dodestroy's effects always end with freeing the transport. |
| StreamConn.DestroySteps | src/svc_vc.c:401-409 | svc_vc_destroy unregisters, then runs dodestroy. |
| StreamConn.AddrFrees | src/svc_vc.c:432-439 | The address, tp and netid frees are the only steps between the private state and the transport. |
| StreamConn.StateFrees | src/svc_vc.c:418-431 | Closing the descriptor and freeing private state neither unregisters nor frees the transport. |
| StreamConn.DestroyShape | src/svc_vc.c:401-441 | Teardown is unregister, close and state frees, optional frees, then free the transport. |
| StreamConn.TeardownOrder | src/svc_vc.c:401-441 | Unregister comes first and only once. Freeing the transport comes last and only once. |
| StreamConn.TeardownBranches | src/svc_vc.c:420-431 | The descriptor is closed iff it is not RPC_ANYFD. Listener state is freed iff the port is nonzero. Connection state, with its codec, is freed iff the port is 0. |
| StreamConn.TeardownByRole | src/svc_vc.c:168 | Created listeners are torn down as listeners and connections as connections (lines 292 and 422). |
| StreamWrite.Span | src/svc_vc.c:566 | The offsets a write of n bytes at buf covers. |
| StreamWrite.EagainRewindsBuffer | src/svc_vc.c:566-588 | As written, a tolerated EAGAIN moves buf back one byte. The last byte is resent while len is still reported, and an EAGAIN on the first write reads before the buffer. |
| StreamWrite.WriteLoopAsWritten | src/svc_vc.c:566-588 | write_vc as written: a tolerated EAGAIN still runs the step with i = -1, adding one to cnt and moving the offset back one byte. It returns len or -1, and -1 only when some answer is fatal. It is still writing only with bytes left. |
| StreamWrite.WriteLoopRetrying | src/svc_vc.c:561-588 | The loop with a tolerated EAGAIN retrying the same bytes: it uses at most the answers given, and all of them when it is still writing. |
| StreamWrite.RetryingAgreesAsWritten | src/svc_vc.c:561-588 | When no answer is a tolerated EAGAIN, the loop as written and the retrying loop give the same result and write the same offsets. |
| StreamWrite.EagainRetried | src/svc_vc.c:566-588 | On the inputs that make the written loop rewind, the retrying loop writes each byte once and returns len. |
| StreamWrite.RetryingOffsets | src/svc_vc.c:566-588 | The retrying loop writes contiguous offsets from where it starts, never more than the bytes left. Success returns len with all of them written, and a loop still writing has bytes left. |
| StreamWrite.RetryingFatal | src/svc_vc.c:568-586 | The retrying loop returns -1 only when its last answer is fatal, and every answer before it is non-fatal. |
| StreamWrite.WriteLoop | src/svc_vc.c:566-588 | The write loop, with its two fatal exits, computes exactly what the retrying loop defines. |
| StreamWrite.WriteVc | src/svc_vc.c:547-591 | Result, offsets and answers used are exactly those of the retrying loop. Each byte goes out once, in order. Success returns len. A blocking error, a non-EAGAIN error, or EAGAIN two seconds after the start is fatal: DIED and -1, with every earlier answer non-fatal. Only strm_stat changes. |
| IdleReaper.TimerSub | src/svc_vc.c:791 | timersub preserves the difference in microseconds, and keeps microseconds normalized. |
| IdleReaper.TimerGtMeansLater | src/svc_vc.c:792 | timercmp(>) on normalized timevals is the order of the instants. |
| IdleReaper.Reaped | src/svc_vc.c:798-802 | The table without the expired entries, every other slot unchanged. Its parts are Eligible (a stream connection in the set, up to svc_maxfd, non-blocking unless cleanblock; lines 784-788) and Expired (Eligible and idle more than the timeout in whole seconds; line 798). |
| IdleReaper.ReapedIdempotent | src/svc_vc.c:798-802 | A second reaping right after the first changes nothing. |
| IdleReaper.MostIdleUnique | src/svc_vc.c:790-796 | At most one entry is the most idle. |
| IdleReaper.NoneIdleExcludesMostIdle | src/svc_vc.c:778-796 | When no entry has been idle for a positive time, none is picked. |
| IdleReaper.MostIdleIsOldest | src/svc_vc.c:790-796 | With gettimeofday readings, the pick last received before now and strictly earlier than every eligible lower descriptor. It received no later than any higher one. |
| IdleReaper.LeaderComplete | src/svc_vc.c:781-796 | A scan over every descriptor up to svc_maxfd has found the most idle entry, or found that none is idle. |
| IdleReaper.ConsiderIdle | src/svc_vc.c:790-796 | One slot of a timeout-0 scan keeps the leader invariant. |
| IdleReaper.ReapSlot | src/svc_vc.c:798-802 | The slot being examined still holds its original entry, and clearing it extends the reaped prefix. |
| IdleReaper.Registry.constructor | src/svc_vc.c:781 | An empty table with svc_maxfd at -1. |
| IdleReaper.Registry.Registered | src/svc_vc.c:333 | The descriptors of every registered transport. |
| IdleReaper.Registry.Register | src/svc_vc.c:297 | Registration stores the transport at its descriptor and raises svc_maxfd to cover it. |
| IdleReaper.Registry.CleanIdle | src/svc_vc.c:769-812 | timeout != 0 removes exactly the eligible entries idle more whole seconds than the timeout. timeout 0 removes exactly the most idle one, or nothing if none is idle. The result is true iff something was destroyed. |
| IdleReaper.Decisive | src/svc_vc.c:322-337 | The accept answer that ends the retry loop is one of the answers. |
| IdleReaper.DecisiveFirst | src/svc_vc.c:322-337 | The answer that ends the retry loop is the first that is a socket or a failure other than EINTR, EMFILE and ENFILE. There is none exactly when every answer is one of those three. |
| IdleReaper.Registry.RendezvousRequest | src/svc_vc.c:303-390 | It always returns FALSE. A connection is made iff the deciding answer is an accepted socket. It is then registered at its descriptor, configured from the listener and recorded with its peer's address. Every other slot is unchanged or reaped. |
| VcLock.LockMask | src/vc_lock.h:58-59 | Every signal except SIGINT. |
| VcLock.FdCmp | src/vc_lock.h:13-28 | -1, 0 or 1 exactly as the left key is less than, equal to or greater than the right one. |
| VcLock.FdCmpIsOrder | src/vc_lock.h:13-28 | The comparator is antisymmetric, reflexive at 0 and transitive. |
| VcLock.WaitEnds | src/vc_lock.h:63-64 | The number of wake-ups until the flag is seen clear, none while it stays set. |
| VcLock.VcFdRec.constructor | src/vc_lock.h:31 | A new record is keyed by its descriptor and clear. |
| VcLock.FdIndex.Lookup | src/vc_lock.h:37 | vc_lookup_fd_rec returns the descriptor's record, made clear on first use, and never rebinds a descriptor. |
| VcLock.InitCl | src/vc_lock.h:39-46 | ct_crec is bound to the descriptor's record only when unset. Once set it never changes, so the binding is idempotent. |
| VcLock.AwaitClear | src/vc_lock.h:94-96 | The wait ends exactly when the flag is seen clear. Otherwise the flag is the last value seen. |
| VcLock.Acquire | src/vc_lock.h:62-66 | The lock is taken exactly when the flag is seen clear, and the flag is then rpc_lock_value. |
| VcLock.LockC | src/vc_lock.h:48-67 | vc_fd_lock_c binds the record, blocks all signals but SIGINT (returning the old mask) and takes the flag once it is clear. A record made by the lookup is fresh and added under the descriptor; existing records stay, and no other record's flag changes. |
| VcLock.UnlockC | src/vc_lock.h:69-81 | vc_fd_unlock_c clears the flag and restores the saved mask. |
| VcLock.WaitC | src/vc_lock.h:83-98 | vc_fd_wait_c returns ready exactly when the flag is seen clear. It never writes the flag itself, keeps an existing binding, and changes no other record's flag. |
| VcLock.LockFd | src/vc_lock.h:34 | vc_fd_lock on the descriptor's record in the index, with the same protocol. The record is fresh when the descriptor was new; no other record's flag changes. |
| VcLock.LockX | src/vc_lock.h:107-114 | Locks through the duplex client when xp_p4 is set, else through the descriptor record. When the client is bound to the transport's own descriptor, both routes lock one record. The index changes only by the record the chosen route looks up, and no other record's flag changes. |
| VcLock.UnlockX | src/vc_lock.h:116-123 | Unlocks the record LockX chose, clearing it and restoring the mask. No other record's flag changes. |

## Left out

- Concurrency: mutexes, condition variables, atomics, the `svc_fd_lock` rwlock and the work pool are modelled as atomic sequential steps. That at most one drainer runs under interleaving is not modelled.
- Other threads are modelled through the flag values a waiter sees when woken. `cond_signal` has no state here.
- `SVC_REF`/`SVC_RELEASE` internals are out: references are an integer counter.
- Socket and system calls (`accept`, `poll`, `read`, `write`, `writev`, `close`, `fcntl`, `setsockopt`, `getsockname`, `getpeername`) become lists of answers.
- Clocks (`gettimeofday`, `clock_gettime`, `time`) become parameters.
- `syslog`, `inet_ntop` and `store_sockip` are not modelled: they only format a message.
- The XDR codecs are out (`xdrrec_*`, `xdr_callmsg`, `xdr_replymsg`, `XDR_DESTROY`, `xdr_tail_update`). Their outcomes are boolean inputs: end of input, record available, call decoded, reply encoded.
- Recv: the status that `__xdrrec_getrec` may write into `strm_stat` is not modelled. Recv leaves it unchanged when no record is available.
- Allocation and its failure paths in `svc_vc_create`, `svc_fd_create`, `makefd_xprt` and flushv's `alloca`/`mem_alloc` choice are not modelled. This includes the defects on those paths (a leak and an undeclared variable in `svc_fd_create`, and an unchecked `makefd_xprt` result).
- The `fcntl` failure exits of `rendezvous_request` are not modelled, nor the `__xdrrec_setnonblock` and `TCP_NODELAY` calls.
- `map_ipv4_to_ipv6` leaves the flow label and scope id of the stack copy unset. The model's addresses carry no such fields.
- `__rpc_get_local_uid`, the `PORTMAP` blocks, `svc_vc_getargs` and `svc_vc_freeargs` are not modelled. They call codecs or system services only.
- The ops-table set-up and its abort stubs are the closed datatype `StreamConn.Role`.
- `ntirpc/misc/rpc_dplx_gfd.h` declares a struct and an extern only. It is not part of this model.
- `vc_lookup_fd_rec`, `vc_fd_lock` and `vc_fd_unlock` are declared in `vc_lock.h` but defined elsewhere. The model takes them to look up, or make, the descriptor's record and apply the client protocol to it.
- `xprt_register` and `__xprt_unregister_unlocked` are defined elsewhere. The model fills or clears the table slot and raises `svc_maxfd` on registration. Whether unregistering lowers `svc_maxfd` is not modelled: slots above it are empty, so no reaping outcome depends on it.
- The reaper's table holds, for each connection, the two fields of `cf_conn` it reads (`nonblock`, `last_recv_time`) as values copied at registration, not a reference to the live structure.
- Flush.FlushV: the 32-bit wrap of `remaining` is not modelled. The message total is taken to be below 2^32, which the 2^31 per-span bound does not by itself ensure.
- Flush.FlushV: requires every span to be below 2^31 (`RecordMarking.ValidSpans`), and so does not model what the loop does otherwise. A span of 2^31 bytes or more that starts a fragment makes the gather loop stop with 0 payload bytes and one slot. The writer then sends a bare 4-byte header with no last-fragment bit; `wiov` moves by 0 slots and `remaining` is back where it was. While writev succeeds, this repeats forever. The source's comment says such spans never occur.
- StreamConn.RemoteAddr: models the intended recording, which the rest of the model uses. The copy through the stack sockaddr_in6 overruns it for an AF_LOCAL peer whose sun_path bytes, terminating NUL included, exceed 26 (a path of 26 characters or more) (see Findings, `StreamConn.RemoteAddrAsWritten`); what C then does is undefined and is not modelled.
- SendStats.SendqStats.Record: the race between reading `sq_max` and storing it is not modelled.
- SendQueue.SendQueue.Write: one clock reading is used for every reply of a drain, where the source reads the clock per flush.
- SendQueue.SendQueue.Write: a flush whose writev answers run out reports what it sent so far. The reply is then released as if the flush had ended.
- IdleReaper.Registry.RendezvousRequest: the state after EMFILE/ENFILE reaping is stated as "each changed slot was cleared". It does not name which entries each pass removed, though each pass follows CleanIdle with timeout 0 and cleanblock false, so it removes at most the most idle non-blocking connection.
- The flush path (`Flush.FlushV`, `SendQueue`) models the header marking as written. The corrected marking of the first finding is proved separately (`RecordMarking.CorrectedWire`). It agrees with the written marking whenever the final span is non-empty (`RecordMarking.DeframeWire`).

## Findings

| source | as written | input that shows it | evidently intended | confidence | as-written member | corrected member |
|---|---|---|---|---|---|---|
| src/svc_ioq.c:207-212 | Bit 31 goes to the fragment whose slots reach the end of the iovec array. If a fragment boundary falls before trailing empty spans, `remaining` reaches 0 first and no final fragment is sent. | spans [[7], []] with `__svc_maxiov` = 2 give the bytes 00 00 00 01 07: one fragment without bit 31, so the record is never closed | bit 31 on the last fragment written | low, not executed | RecordMarking.TrailingEmptySpanLeavesRecordOpen | RecordMarking.CorrectedRoundTrip |
| src/svc_vc.c:566-588 | After a tolerated EAGAIN on a non-blocking socket, the loop step `cnt -= i, buf += i` runs with i = -1. It moves buf back one byte and adds one to cnt. | len 2, answers: wrote 1, EAGAIN, wrote 2 give the offsets 0, 0, 1 with return value 2. EAGAIN then a write, with len 1, gives offsets -1, 0. | retry the same bytes (i treated as 0) | medium, not executed | StreamWrite.EagainRewindsBuffer | StreamWrite.WriteVc |
| src/svc_vc.c:344-354 | A non-IPv4 peer address is copied with accept's length into a stack sockaddr_in6 of 28 bytes, and then copied back out with the same length. | an AF_LOCAL peer with a 26-character path: with its NUL, accept reports 29 bytes, one more than the variable holds | copy the address as accept gave it, with its length | medium, not executed | StreamConn.LocalPathOverrunsSin6 | StreamConn.RemoteAddr |
