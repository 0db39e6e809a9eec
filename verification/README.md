# xnetty: a verified model

A Dafny model of the state-changing core of xnetty, a C++17 reactor library, with proofs of what that
core promises. `dafny verify dfyconfig.toml` checks all of it.

Each group of source code has an imperative model of its methods (classes over arrays, loops with
invariants) that is proved against a value model, and the theorems are about every input, every run or
every interleaving of the value model.

| files | part of the library |
|---|---|
| `Words`, `Wrappers` | 64-bit numbers and optional values, for the others |
| `Bytes`, `Utf8`, `ByteBuf`, `WebSocketFrames`, `WebSocketCodec`, `WebSocketExamples` | the growable buffer, the incremental WebSocket decoder, the encoder and the UTF-8 check (RFC 6455 sections 5.2 to 5.4, RFC 3629 section 4) |
| `SpscQueue`, `EventLoopWakeup` | the single-producer single-consumer ring and the wake-up of the event loop, as interleaved atomic steps |
| `Wheel`, `TimerWheel`, `EventLoopTimer`, `KeepAlive`, `WebSocketHandler` | the hashed timer wheel, the clock that drives it, and the WebSocket keep-alive on top |
| `RouterPath`, `RouterTrie`, `Router` | path normalisation, the route trie, its two walks and the hash of static routes |
| `WritePath`, `Pipeline`, `TopicTree`, `Sha1`, `Sha1Example` | writes under partial sends, the handler pipeline, publish and subscribe, and SHA-1 (RFC 3174) |

Timer callbacks are arbitrary: a callback is a total function from the client's state, the id of the
timer and the next id to be issued, to a new client state and a list of additions and cancellations.
The kernel's answers to writes, the readings of the clock, and the interleaving of threads are
parameters of the runs, and so is what becomes of each write of the keep-alive and what
others do with its wheel.

## Where the code does not do what one would expect

Each is proved, with the condition under which the expected property holds.

- `ByteBuf::trim` keeps a prefix of the readable bytes only if the reader is at 0 or nothing is kept
  (`ByteBuffers.TrimKeepsReadableIff`). `ByteBuf::setWriterIndex` accepts an index below the reader, which
  spoils the buffer; it stays valid if and only if the index is refused or is not below the reader.
  `ByteBuf::slice` adds in 64 bits, so a sum that wraps may pass (`ByteBuffers.SliceTestIsRightIff`), and
  `nextPowerOfTwo` ends if and only if its argument is not above 2^63 (`SpscRing.DoublingEndsIff`).
- The UTF-8 check looks at the opening frame of a TEXT message alone. A valid text cut inside a character
  is refused and an invalid one may pass (`WebSocketFrames.TextCheckIsNotTheMessages`); a message is
  delivered if and only if its opening frame passes (`WebSocketFrames.ReceiveMessage`). A delivered text is
  valid if and only if what follows its opening frame is, and so is a valid text delivered
  (`WebSocketFrames.TextCheckIsTheMessagesIff`). The check also lets through two-byte forms led by C0 or C1
  (`Utf8.OverlongIsAccepted`), and nothing else that encodes no text (`Utf8.AcceptedTexts`).
- The wheel issues id 0, which the keep-alive takes for "no timer". A connection has at most one armed
  keep-alive timer on all runs if and only if id 0 was issued before (`KeepAlive.OneArmedIffIdZeroIsGone`).
- A frame with a reserved opcode does not reset the keep-alive, nor does a fragment, which the codec keeps
  to itself. So a connection can time out although a frame came since the PING
  (`KeepAlive.TimeoutAfterReservedFrame`). A timeout means that none came that resets it
  (`KeepAlive.KeepAliveIsSafe`), and where none came, no open connection outlives the timeout
  (`KeepAlive.UnansweredPingTimesOut`).
- A timer with delay 0 added by a callback lands in the slot just swept and fires a full round later
  (`Wheels.DeadlineOfAdd`); the same makes a pong timeout of 0 ms last one round
  (`KeepAlive.PongDueInTicks`). A delay so large that the 64-bit sum wraps is due at once
  (`Wheels.DueAtOnceIff`), and one whose expiration tick wraps comes within a round
  (`EventLoopTimers.WrappingTimerIsEarly`); a timer is not early if and only if neither sum wraps
  (`EventLoopTimers.NotEarlyIff`).
- The greedy walk may end on another route than the one the search matched. It ends on the matched route
  if and only if it consumes every segment and ends on a handler for the method, and then the bindings are
  complete, whatever the names (`RouterTrie.DispatchIsRightIff`). Else another route's handler may be
  called (`Routers.WrongHandlerCalled`), or nothing is answered (`Routers.RequestUnanswered`).
- A literal route registered without a leading '/' is not found for a path that has one, nor the other way
  round, while a route with parameters is: a literal route answers if and only if both have the '/' or
  neither has, and the segments are the same (`Routers.HashIsLiteral`).
- A parameter name repeated in one route can lose the binding of another route
  (`RouterTrie.RepeatedNameLosesBinding`). The bindings are those of the route found if and only if none of
  its names is lost, that is, tried in a branch the search gave up and not bound again after it
  (`RouterTrie.SearchFindsRoutes`); none is when no route repeats a name.
- A flush closes a connection that is not kept alive with the first bytes it gets rid of. Writable events
  then send nothing any more (`WritePath.LostByte`), but flushes do: everything is delivered if and only if
  the closing flush and the later ones together take it all (`WritePath.ClosingFlushSendsAllIff`).

## Model

| member | source | states |
|---|---|---|
| `Bytes.MaskRanges` | src/websocket/websocket_codec.cpp:53-91 | every bit test of the UTF-8 scan is the range of byte values it is meant to single out |
| `Bytes.XorIsExclusive` | src/websocket/websocket_codec.cpp:172-174 | each bit of the exclusive or of two bytes is 0 if and only if the two bits agree |
| `Utf8.IsValidUtf8` | src/websocket/websocket_codec.cpp:53-91 | the scan accepts a byte string if and only if it is a concatenation of UTF8-chars (RFC 3629 section 4, extended by C0 and C1 leads) |
| `Utf8.ScanChar` | src/websocket/websocket_codec.cpp:54-88 | one turn of the scan, with the library's bit tests, finds the length of the UTF8-char at the front, or that there is none |
| `Utf8.ValidIffSplits` | src/websocket/websocket_codec.cpp:53-91 | the left-to-right reading of the grammar is its existential reading: some split into chars exists |
| `Utf8.ValidOfConcat` | src/websocket/websocket_codec.cpp:53-91 | after valid bytes, the whole is valid if and only if what follows them is |
| `Utf8.ValidBefore` | src/websocket/websocket_codec.cpp:53-91 | before valid bytes, in valid bytes, there are only valid bytes: no char starts inside another |
| `Utf8.AcceptedTexts` | src/websocket/websocket_codec.cpp:53-91 | a byte string encodes some sequence of scalar values if and only if it is accepted and holds neither C0 nor C1; so surrogates, longer overlongs and values above 10FFFF are refused |
| `Utf8.OverlongIsAccepted` | src/websocket/websocket_codec.cpp:59-63 | C0 80 passes, though it encodes no text |
| `ByteBuffers.ByteBuf.constructor` | src/buffer/byte_buf.cpp:32-37 | a new buffer is empty, within its indices, with the capacity asked for |
| `ByteBuffers.ByteBuf.CopyOf` | src/buffer/byte_buf.cpp:39-46 | holds exactly the bytes given, in memory of its own |
| `ByteBuffers.ByteBuf.Copy` | src/buffer/byte_buf.cpp:48-54 | a copy has the same readable bytes, in memory of its own |
| `ByteBuffers.ByteBuf.ReadByte` | src/buffer/byte_buf.cpp:93-96 | takes the first readable byte away and returns it; with nothing readable it fails and changes nothing |
| `ByteBuffers.ByteBuf.ReadBytes` | src/buffer/byte_buf.cpp:98-116 | takes exactly the first `len` readable bytes; if fewer are there it fails and changes nothing |
| `ByteBuffers.ByteBuf.WriteByte` | src/buffer/byte_buf.cpp:118-121 | the byte is appended to the readable bytes, whatever reallocation that takes, and the growth is accounted for |
| `ByteBuffers.ByteBuf.WriteBytes` | src/buffer/byte_buf.cpp:123-129 | the bytes are appended to the readable bytes, whatever reallocation that takes, and the growth is accounted for |
| `ByteBuffers.ByteBuf.SetReaderIndex` | src/buffer/byte_buf.cpp:131-136 | moves the reader within the written bytes, and refuses an index past the writer |
| `ByteBuffers.ByteBuf.SetWriterIndex` | src/buffer/byte_buf.cpp:138-143 | moves the writer to any index up to the capacity and refuses one past it; the buffer stays valid if and only if the index is refused or not below the reader |
| `ByteBuffers.ByteBuf.Reserve` | src/buffer/byte_buf.cpp:145-149 | capacity grows to what is asked for and never shrinks; the bytes stay |
| `ByteBuffers.ByteBuf.EnsureWritable` | src/buffer/byte_buf.cpp:151-162 | room for `len` more bytes, by the doubling policy, with the readable bytes unchanged |
| `ByteBuffers.ByteBuf.Expand` | src/buffer/byte_buf.cpp:249-258 | the block grows and every byte and index is kept |
| `ByteBuffers.ByteBuf.Slice` | src/buffer/byte_buf.cpp:171-179 | a buffer of its own with the bytes at absolute positions if they are all written; a refusal exactly when the 64-bit sum is past the writer; and a copy outside the block if the sum wraps and passes |
| `ByteBuffers.SliceTestIsRightIff` | src/buffer/byte_buf.cpp:172 | the test refuses exactly the positions not written if and only if the sum does not wrap, or is past the writer even so |
| `ByteBuffers.SliceTestIsPassed` | src/buffer/byte_buf.cpp:172 | positions that pass the test on an empty buffer |
| `ByteBuffers.ByteBuf.Trim` | src/buffer/byte_buf.cpp:181-196 | a buffer within the limit is untouched; a larger one is cut to it, and what is readable afterwards starts at position 0 of the old block |
| `ByteBuffers.TrimKeepsReadableIff` | src/buffer/byte_buf.cpp:181-196 | cutting keeps a prefix of the readable bytes for all contents if and only if the reader is at 0, nothing is readable or nothing is kept |
| `ByteBuffers.ByteBuf.Shrink` | src/buffer/byte_buf.cpp:198-217 | the readable bytes stay, the reader is at 0, and the capacity is given back exactly beyond the waste threshold |
| `ByteBuffers.ByteBuf.Discard` | src/buffer/byte_buf.cpp:219-226 | drops the first `len` readable bytes, or all of them |
| `ByteBuffers.ByteBuf.Equals` | src/buffer/byte_buf.cpp:228-233 | true if and only if the readable bytes are the same |
| `ByteBuffers.ByteBuf.Swap` | src/buffer/byte_buf.cpp:235-241 | the two buffers exchange their contents |
| `ByteBuffers.AppendsRecopyLessThanTwice` | src/buffer/byte_buf.cpp:151-162 | over any run of appends to a fresh buffer of any capacity, reallocation copies less than twice the bytes appended |
| `ByteBuffers.GrownIsLeastDoubling` | src/buffer/byte_buf.cpp:152-160 | a block grows to the least of its doublings that is large enough, and an empty one to the least of those of 64 |
| `WebSocketFrames.ParseOfPrefix` | src/websocket/websocket_codec.cpp:111-158 | once a frame is complete, what follows it in the buffer does not change how it is read |
| `WebSocketFrames.ParseOfEncode` | src/websocket/websocket_codec.cpp:111-163 | reading a written frame gives back its opcode, final bit, mask bit and payload and consumes exactly its bytes, whatever follows |
| `WebSocketFrames.ReadOnWire` | src/websocket/websocket_codec.cpp:122-175 | for every buffer that holds a frame, by position and bit: the final bit, the opcode, the mask bit, the length announced, and each bit of each payload byte as the exclusive or of the byte at its place and byte i modulo 4 of the key in front of the payload |
| `WebSocketFrames.WrittenOnWire` | src/websocket/websocket_codec.cpp:229-277 | the same positions and bits for every frame written, in the shortest form of its length and with its key in front of its payload |
| `WebSocketExamples.FramesOfHello` | src/websocket/websocket_codec.cpp:229-277 | the text, PING and PONG examples of section 5.7 of RFC 6455, masked and not, byte for byte |
| `WebSocketExamples.LongFrames` | src/websocket/websocket_codec.cpp:251-261 | the 256-byte and 64-kilobyte examples, for any payload of these lengths |
| `WebSocketExamples.MaskedHelloIsRead` | src/websocket/websocket_codec.cpp:93-220 | the masked example is delivered as the text it masks |
| `WebSocketExamples.FragmentsAreRead` | src/websocket/websocket_codec.cpp:184-200 | the fragmented example is delivered as one text |
| `WebSocketCodecs.ParseFrame` | src/websocket/websocket_codec.cpp:111-163 | the field-by-field reading, with all its early returns, is the frame at the start of the buffer; a length that wraps 64 bits is the case that throws |
| `WebSocketCodecs.WebSocketCodec.PrependLeftover` | src/websocket/websocket_codec.cpp:103-109 | the bytes left over come before the new ones, and nothing is left over then |
| `WebSocketCodecs.WebSocketCodec.HandleFrame` | src/websocket/websocket_codec.cpp:165-216 | a complete frame is abandoned, absorbed into the fragments or delivered, as the decoder on values says |
| `WebSocketCodecs.WebSocketCodec.ReadFrame` | src/websocket/websocket_codec.cpp:111-217 | one turn of the loop takes one step of the decoder: frames delivered before it, in it and after it add up |
| `WebSocketCodecs.WebSocketCodec.ChannelRead` | src/websocket/websocket_codec.cpp:93-220 | frames delivered, leftover and fragments after a buffer are those of the decoder on values, over the leftover and the new bytes |
| `WebSocketFrames.DrainOfConcat` | src/websocket/websocket_codec.cpp:111-219 | decoding two pieces one after the other is decoding them at once |
| `WebSocketFrames.ChunkingIndependence` | src/websocket/websocket_codec.cpp:93-220 | however a stream is cut into chunks, from any state, the frames up to and including the first that abandons a buffer are those of the whole; without such a frame all frames, the leftover and the fragments are the same |
| `WebSocketCodecs.EncodeFrame` | src/websocket/websocket_codec.cpp:229-277 | the buffer holds exactly the wire form of the frame |
| `WebSocketFrames.DrainOfEncoded` | src/websocket/websocket_codec.cpp:111-277 | decoding the bytes of any encoded frames is receiving those frames |
| `WebSocketFrames.StopsIff` | src/websocket/websocket_codec.cpp:177-214 | on any frames, the reading stops if and only if one of them is a CLOSE, a control frame that is not final, or a TEXT frame that is not UTF-8 |
| `WebSocketFrames.FinalFramesAreDelivered` | src/websocket/websocket_codec.cpp:186-208 | if none stops it, every final frame is delivered, in order and one for one, reserved opcodes included, and as it came unless it is a continuation |
| `WebSocketFrames.ReceiveMessage` | src/websocket/websocket_codec.cpp:177-214 | a message sent whole or in fragments, with PING and PONG between them, is delivered in one piece after its control frames if its opening frame passes the text check, and nothing is delivered and the buffer abandoned if not |
| `WebSocketFrames.TextCheckIsNotTheMessages` | src/websocket/websocket_codec.cpp:181-184 | the text check is neither implied by nor implies that the message is valid UTF-8 |
| `WebSocketFrames.TextCheckIsTheMessagesIff` | src/websocket/websocket_codec.cpp:181-184 | of these three any two imply the third: a text message is delivered, it is valid UTF-8, and what follows its opening frame is valid UTF-8; for a message in one frame the check is the message's |
| `WebSocketFrames.EncodeThenDecode` | src/websocket/websocket_codec.cpp:93-277 | any messages, whole or in any fragments with control frames between, masked or not, followed by at most one CLOSE, and cut into chunks in any way, come out as the same opcodes and payloads in order |
| `SpscRing.InvExec` | include/xnetty/event/event_loop.h:77-99 | the invariant of the ring and of both threads' positions holds after every interleaving of their atomic steps |
| `SpscRing.FirstInFirstOut` | include/xnetty/event/event_loop.h:77-99 | under every interleaving, items returned, then held, then in the slots are the items accepted, in order |
| `SpscRing.NoSlotIsShared` | include/xnetty/event/event_loop.h:77-99 | the producer never writes a slot whose item the consumer has not released, and the consumer never reads an empty slot |
| `SpscRing.RefusedIffFull` | include/xnetty/event/event_loop.h:78-84 | `push` refuses if and only if the ring was one short of its size when it read `head`, and writes its item otherwise |
| `SpscRing.PopAllTakesAllSeen` | include/xnetty/event/event_loop.h:88-99 | `popAll` returns exactly what had been accepted when it read `tail` and not returned before |
| `SpscRing.NextPowerOfTwo` | include/xnetty/event/event_loop.h:101-110 | the least power of two that is not below the argument |
| `SpscRing.DoublingEndsIff` | include/xnetty/event/event_loop.h:105-108 | in 64 bits the loop ends if and only if its argument is not above 2^63 |
| `SpscRing.MaskIsNext` | include/xnetty/event/event_loop.h:80-94 | on 64-bit words, masking with a power of two less one steps round the ring |
| `SpscQueues.SpscQueue.Push` | include/xnetty/event/event_loop.h:77-87 | appends to what is queued, and refuses if and only if the queue is full |
| `SpscQueues.SpscQueue.PopAll` | include/xnetty/event/event_loop.h:88-99 | returns all that is queued, in order, and leaves the queue empty |
| `EventLoopWakeup.InvExec` | src/event/event_loop.cpp:72-140 | the invariant that ties the flag, the pipe and the queue holds under every interleaving of any number of threads with the loop |
| `EventLoopWakeup.NoLostWakeup` | src/event/event_loop.cpp:72-140 | whenever the loop is about to block and a task is queued whose thread is done queueing it, the pipe is not empty or a thread is about to write it for another task |
| `EventLoopWakeup.TasksRunInOrder` | src/event/event_loop.cpp:110-140 | what ran, what is being run and what is queued is all that was pushed, in order, and nothing twice |
| `EventLoopWakeup.IterationDrains` | src/event/event_loop.cpp:89-90 | a loop left alone after its events runs all that is queued and polls again with an empty queue |
| `EventLoopWakeup.FlagSparesWrites` | src/event/event_loop.cpp:115-123 | under every interleaving, threads that queue tasks wake the loop at most once more often than it clears the flag |
| `Wheels.FireTickIsFirst` | src/event/timer_wheel.cpp:59-75 | the tick predicted for an entry is the first sweep of its slot that is not before its expiration |
| `Wheels.RefinesTick` | src/event/timer_wheel.cpp:59-86 | a turn of the wheel, with any callbacks, fires exactly what is due, in order of addition, and stays in agreement with the set of deadlines |
| `Wheels.WheelRefinesDeadlines` | src/event/timer_wheel.cpp:34-86 | on every run of additions, cancellations and turns with any callbacks, the wheel and a plain set of deadlines fire the same timers in the same order and leave the same client state |
| `Wheels.InvRun` | src/event/timer_wheel.cpp:34-86 | every id issued is pending, cancelled or fired, and only one of them; deadlines once given never change |
| `Wheels.FiresExactlyOnce` | src/event/timer_wheel.cpp:34-86 | firings are ordered by tick and then by addition, each id at most once and only in the tick of its deadline; once that tick is over it has fired if and only if it was not cancelled while pending |
| `Wheels.CallbacksFollowLog` | src/event/timer_wheel.cpp:79-83 | on every run, whatever the callbacks do, they run in the order of the firings, each once |
| `Wheels.CancelPrevents` | src/event/timer_wheel.cpp:48-76 | on every run, a timer cancelled between turns before it fired never fires, whatever comes later |
| `Wheels.UncancelledFires` | src/event/timer_wheel.cpp:34-86 | on every run, a timer that no event and no callback cancels has fired if and only if the tick of its deadline is over |
| `Wheels.DeadlineOfAdd` | src/event/timer_wheel.cpp:34-46 | for every delay and tick: the deadline is the current tick plus the delay in ticks, rounded up, or none if rounding up wraps 64 bits; a delay of no ticks given in a callback comes a full round later, and an expiration that wraps comes within a round |
| `Wheels.DueAtOnceIff` | src/event/timer_wheel.cpp:35-36 | a timer lasts no tick if and only if its delay is 0 or the 64-bit sum wraps |
| `TimerWheels.TimerWheel.constructor` | src/event/timer_wheel.cpp:30 | a wheel of empty slots at tick 0 whose first id is 0 (include/xnetty/event/timer_wheel.h:62) |
| `TimerWheels.TimerWheel.AddTimer` | src/event/timer_wheel.cpp:34-46 | the slots in place become those of the wheel on values with the timer added; ids stay unique and slots ordered |
| `TimerWheels.TimerWheel.CancelTimer` | src/event/timer_wheel.cpp:48-57 | marking the first entry found, and stopping, marks every entry of that id |
| `TimerWheels.TimerWheel.Sweep` | src/event/timer_wheel.cpp:60-77 | the due entries leave the slot to fire, the cancelled are dropped and the rest are kept in order |
| `TimerWheels.TimerWheel.Tick` | src/event/timer_wheel.cpp:59-86 | the turn in place is the turn of the wheel on values, for any callbacks |
| `EventLoopTimers.EventLoop.AdvanceTimer` | src/event/event_loop.cpp:171-182 | runs as many turns as whole ticks have passed, each followed by `onTimerTick`, and moves the reference time by exactly these ticks |
| `EventLoopTimers.EventLoop.RunAfter` | src/event/event_loop.cpp:184-186 | the timer is added to the wheel of the loop and its id returned |
| `EventLoopTimers.RefinesLoopTicks` | src/event/event_loop.cpp:171-182 | the turns of the loop agree with the set of deadlines, `onTimerTick` included |
| `EventLoopTimers.TickedAfterFiring` | src/event/event_loop.cpp:176-179 | in every turn the timers fire first, and then `onTimerTick` is called, once |
| `EventLoopTimers.NoDrift` | src/event/event_loop.cpp:171-182 | after any run the ticks taken are the whole ticks between the start and the last reading of the clock |
| `EventLoopTimers.TimerIsOnTime` | src/event/event_loop.cpp:171-186 | a timer added while the wheel is caught up has not fired before its boundary, and has fired or been cancelled by the first advance at or after it; unless its expiration wraps, the boundary lies after the delay and less than two ticks later |
| `EventLoopTimers.NotEarlyIff` | src/event/timer_wheel.cpp:34-37 | a timer added while the wheel is caught up fires after its delay if and only if neither the rounded delay nor the expiration tick wraps 64 bits |
| `EventLoopTimers.WrappingTimerIsEarly` | src/event/timer_wheel.cpp:36 | a delay that is rounded up without wrapping, but whose expiration wraps, and the early tick it fires in |
| `KeepAlive.KeepAliveIsSafe` | src/websocket/websocket_handler.cpp:57-191 | on every run, whatever writes fail or overflow and whatever others do with the wheel, from a wheel that has issued an id, a connection has at most one armed keep-alive timer, and every timeout comes the pong timeout after a PING with nothing that resets the keep-alive in between |
| `KeepAlive.UnansweredPingTimesOut` | src/websocket/websocket_handler.cpp:76-191 | the other half: on every such run, an open connection does not outlive the pong timeout of a PING that nothing resetting has followed, whatever else it received |
| `KeepAlive.PingsComeInTime` | src/websocket/websocket_handler.cpp:76-180 | on every run from a wheel that has issued an id, every PING is sent the ping interval after the opening or the last frame other than a CLOSE or a reserved opcode, with no CLOSE and no PING since |
| `KeepAlive.IdleConnectionIsPinged` | src/websocket/websocket_handler.cpp:76-180 | the other half: on every such run, an open connection with a ping interval, opened or reset so and not since, does not outlive the interval without a PING |
| `KeepAlive.PingDueInTicks` | src/websocket/websocket_handler.cpp:91 | for every interval and tick: the ping interval in ticks, rounded up; one that wraps ends within a round |
| `KeepAlive.ClosingCancels` | src/websocket/websocket_handler.cpp:57-74 | on every run, a CLOSE frame and the first closing leave a connection without any timer |
| `KeepAlive.OneArmedIffIdZeroIsGone` | src/websocket/websocket_handler.cpp:61-71 | at most one armed timer on all runs if and only if the wheel has issued id 0 before |
| `KeepAlive.PongDueInTicks` | src/websocket/websocket_handler.cpp:117-122 | for every timeout and tick: the pong timeout in ticks, rounded up; one of no ticks lasts one round of the wheel, and one that wraps ends within a round |
| `KeepAlive.RunRefines` | src/websocket/websocket_handler.cpp:57-191 | the keep-alive on the wheel and on its deadlines goes the same way: same connections, same observations, same live timers |
| `KeepAlive.OneLiveEntry` | src/websocket/websocket_handler.cpp:57-124 | no two live entries of the wheel belong to one connection |
| `KeepAlive.ReservedFrameIsIgnored` | src/websocket/websocket_handler.cpp:160-182 | on an open connection a frame with a reserved opcode changes no timer and no field |
| `KeepAlive.TimeoutAfterReservedFrame` | src/websocket/websocket_handler.cpp:76-182 | a run that gets there: a PING, a frame with a reserved opcode, and the timeout |
| `WebSocketHandlers.WsState.CancelTimers` | src/websocket/websocket_handler.cpp:57-74 | the fields and the wheel change as the keep-alive on values says |
| `WebSocketHandlers.WsState.SchedulePing` | src/websocket/websocket_handler.cpp:76-91 | the old timers are cancelled and a ping timer is armed unless the interval is 0, as the keep-alive on values says |
| `WebSocketHandlers.WsState.OnPingTimer` | src/websocket/websocket_handler.cpp:91-122 | the ping callback sends a PING exactly if none is awaiting its PONG, and arms the pong timer even if the write closes the connection |
| `WebSocketHandlers.WsState.WriteFrame` | src/channel/channel_pipeline.cpp:386-398 | what handing on a PING, PONG or CLOSE does to the connection: nothing, a failed write (src/event/worker_loop.cpp:137-140), or an overflow that closes it and cancels its timers |
| `WebSocketHandlers.WsState.OnPongTimer` | src/websocket/websocket_handler.cpp:117-122 | the pong callback closes a connection that is open, and does nothing to a closed one |
| `WebSocketHandlers.WsState.Close` | src/channel/context.cpp:43-49 | closing once makes the connection inactive, which cancels its timers; closing again does nothing |
| `WebSocketHandlers.WsState.ChannelRead` | src/websocket/websocket_handler.cpp:126-183 | the effect of a frame of each opcode on the timers, the PONG or CLOSE sent in answer with the payload that came, and the timer armed after a PONG even if its write closes the connection |
| `RouterPath.NormalizePath` | src/http/router.cpp:74-93 | the loop collapses every run of '/' and drops a trailing one |
| `RouterPath.SplitPath` | src/http/router.cpp:95-108 | the list of maximal runs of characters other than '/' |
| `RouterPath.NormIsJoin` | src/http/router.cpp:74-108 | the normal form is the leading '/', if any, and the segments joined by one '/' each |
| `RouterPath.SameNormIffSameSegments` | src/http/router.cpp:74-108 | two paths have the same normal form if and only if they have the same segments and both or neither start with '/' |
| `RouterPath.NormIsIdempotent` | src/http/router.cpp:74-93 | normalising twice is normalising once |
| `RouterTrie.HandlerAfterInsert` | src/http/router.cpp:149-195 | a registration sets the handler of its route and method and of no other |
| `RouterTrie.BuildIsOk` | src/http/router.cpp:35-196 | in a trie built by any registrations no node has two children of one key, and every route and method has the handler registered last |
| `RouterTrie.MatchIsPath` | src/http/router.cpp:198-225 | for any names, the search succeeds exactly if there is a path, and leaves that path's bindings less the names lost on the way; if it fails it leaves what it was given less the names it tried |
| `RouterTrie.DistinctNamesAreKept` | src/http/router.cpp:198-225 | if no path of the trie repeats a name, a search tries no name that is bound and loses none of its path |
| `RouterTrie.SearchFindsRoutes` | src/http/router.cpp:198-225 | for any registrations, the search succeeds if and only if a route registered for the method matches the segments; failure leaves no bindings, and success those of such a route if and only if none of its names is lost, which holds when no route repeats a name |
| `RouterTrie.SearchPrefers` | src/http/router.cpp:207-223 | of all registered routes that match, the search finds the one that precedes every other: where they part, a literal before a parameter, and of two parameters the one registered first |
| `RouterTrie.KeysInBuild` | src/http/router.cpp:44-51 | the children of every node stand in the order in which the registered routes first have them |
| `RouterTrie.RepeatedNameLosesBinding` | src/http/router.cpp:217-221 | with a repeated name in one route, another route with distinct names loses a binding |
| `RouterTrie.GreedyIsSearch` | src/http/router.cpp:198-225 | when a greedy walk (lines 310-332) consumes every segment and ends on a handler for the method, the search succeeds along that very path with exactly that walk's bindings, for any names and any bindings before |
| `RouterTrie.GreedyWalkIs` | src/http/router.cpp:310-332 | the path of the greedy walk is told by the registrations alone: at each segment the literal, else the parameter registered first |
| `RouterTrie.DispatchIsRightIff` | src/http/router.cpp:307-337 | when a route matches, the greedy walk ends on the route found if and only if it consumes every segment and ends on a handler for the method; the bindings are then that route's, for any names, and the handler is the one registered last for the walk's path in every case |
| `Routers.WrongHandlerCalled` | src/http/router.cpp:307-337 | a request that one route matches is handed to another, shorter route, with the first one's binding |
| `Routers.RequestUnanswered` | src/http/router.cpp:307-337 | a request that a route matches and that gets no answer at all |
| `Routers.Router.AddRoute` | src/http/router.cpp:110-196 | the loops put a route in the hash or in the trie as the table on values says |
| `Routers.Router.OnRequest` | src/http/router.cpp:243-376 | the method gives every request the answer of the table on values: to an unknown method 405, else by the path before the query |
| `Routers.QueryIsIgnored` | src/http/router.cpp:252-256 | for every table and method, a path followed by a '?' and any query gets the answer of the path alone |
| `Routers.WalkTo` | src/http/router.cpp:310-362 | the loop ends on the last node of the greedy walk and tells whether it consumed every segment |
| `Routers.HashIsLiteral` | src/http/router.cpp:123-147 | the hash keyed by normalised text answers as the list of literal routes searched by segments and leading '/', latest first |
| `Routers.KeysAtInputs` | src/http/router.cpp:151-172 | a ':' with letters, digits, '_' and '-' makes a parameter; other names stay literal and go to the trie all the same |
| `Routers.ParamNameChars` | src/http/router.cpp:72 | the characters of a name by their codes |
| `Routers.RequestOutcome` | src/http/router.cpp:110-376 | what any request gets, for any registrations and any query: the latest literal route with the path before the query, or 405; else, if a route matches, the handler registered last for the path of the greedy walk, with complete bindings if the walk consumes every segment and from a route that does not match if it stops early, or no answer without one; else 405 if the walk consumes every segment to a route of another method, and 404 if not |
| `WritePath.Connection.FlushWriteBuf` | src/event/worker_loop.cpp:119-153 | the buffer, the flags and the bytes sent change as the flush on values says, for every answer of the kernel |
| `WritePath.Connection.FireWrite` | src/channel/channel_pipeline.cpp:382-402 | a write at the front of the pipeline is appended, then flushed, or the connection closed if the buffer has passed its water mark |
| `WritePath.Connection.OnWritable` | src/event/worker_loop.cpp:175-196 | the loop sends until the buffer is empty, the kernel is not ready or it fails, and disarms write interest only when empty |
| `WritePath.WritePathConserves` | src/event/worker_loop.cpp:119-196 | on every run, bytes the kernel took followed by bytes pending are all bytes appended, in order, and an open connection with bytes pending has write interest armed |
| `WritePath.WritableSendsAll` | src/event/worker_loop.cpp:183-195 | a writable event in which the kernel keeps taking bytes sends everything and disarms write interest |
| `WritePath.ClosedIff` | src/event/worker_loop.cpp:119-196 | on every run an open connection is closed if and only if some event closes it: a close, an overflowing write, a write to the kernel that fails or sends nothing, or a flush that sends while the connection is not kept alive |
| `WritePath.OpenRunDelivers` | src/event/worker_loop.cpp:119-196 | so as long as nothing closes it, one writable event with a willing kernel delivers all that was appended and leaves the connection open |
| `WritePath.ClosingFlushSendsAllIff` | src/event/worker_loop.cpp:119-153 | a flush closes a connection not kept alive; whatever comes later, writes included, everything appended before is delivered if and only if that flush and the later ones together take it all |
| `WritePath.WritableAddsNothing` | src/event/worker_loop.cpp:175-179 | with writable events alone afterwards, everything is delivered if and only if the closing flush took it all |
| `WritePath.LostByte` | src/event/worker_loop.cpp:142-152 | two bytes of which a closing flush sends one, and no writable event the other |
| `Pipelines.ChannelPipeline.AddEntry` | src/channel/channel_pipeline.cpp:129-141 | inserts a handler at a position and every context again remembers its position |
| `Pipelines.ChannelPipeline.AddFirst` | src/channel/channel_pipeline.cpp:143-148 | the new handler is the first, the order of the others kept |
| `Pipelines.ChannelPipeline.AddLast` | src/channel/channel_pipeline.cpp:150-155 | the new handler is the last, the order of the others kept |
| `Pipelines.ChannelPipeline.AddBefore` | src/channel/channel_pipeline.cpp:161-171 | the new handler stands just before the first of the base name; without one nothing changes |
| `Pipelines.ChannelPipeline.AddAfter` | src/channel/channel_pipeline.cpp:173-183 | the new handler stands just after the first of the base name; without one nothing changes |
| `Pipelines.ChannelPipeline.Replace` | src/channel/channel_pipeline.cpp:185-202 | the first handler of the name is exchanged in place and keeps its context and position |
| `Pipelines.ChannelPipeline.Remove` | src/channel/channel_pipeline.cpp:287-297 | the first handler of the name goes, its context is marked removed, and the others remember their new positions |
| `Pipelines.ChannelPipeline.Clear` | src/channel/channel_pipeline.cpp:299-305 | no handler is left and every context is marked removed |
| `Pipelines.ChannelPipeline.FireReadFrom` | src/channel/channel_pipeline.cpp:220-229 | a read forwarded once by each handler through the index its context remembers goes to the inbound positions |
| `Pipelines.ChannelPipeline.FireWriteFrom` | src/channel/channel_pipeline.cpp:265-274 | a write forwarded likewise goes to the outbound positions below, and is sent if and only if the first handler is outbound |
| `Pipelines.InboundsAre` | src/channel/channel_pipeline.cpp:220-229 | these are exactly the inbound handlers, each once, in ascending order |
| `Pipelines.OutboundsAre` | src/channel/channel_pipeline.cpp:265-274 | these are exactly the outbound handlers, each once, in descending order |
| `TopicTrees.TopicTree.Subscribe` | src/websocket/topic_tree.cpp:88-104 | both indexes gain the pair and stay consistent; nothing is returned if and only if the pair was there |
| `TopicTrees.TopicTree.Unsubscribe` | src/websocket/topic_tree.cpp:106-123 | both indexes lose the pair, no empty topic stays, and the answer tells whether it was there, whether it was the subscriber's last and how many are left |
| `TopicTrees.TopicTree.CreateSubscriber` | src/websocket/topic_tree.cpp:125 | a new subscriber of nothing; the index is unchanged |
| `TopicTrees.TopicTree.FreeSubscriber` | src/websocket/topic_tree.cpp:127-142 | exactly the pairs of the subscriber go, no topic without subscribers stays, and no topic refers to it any more |
| `TopicTrees.TopicTree.Publish` | src/websocket/topic_tree.cpp:157-171 | calls back every subscriber of the topic but the sender, each once, and tells whether there was one |
| `Sha1.SHA1Ctx.Process` | src/util/sha1.cpp:39-77 | the two loops in place are the compression step of RFC 3174 section 6.1 |
| `Sha1.RotlIsArithmetic` | src/util/sha1.cpp:37 | the circular shifts as numbers: x times 2^n modulo 2^32, plus x divided by 2^(32 - n) |
| `Sha1.OctetsAreNumber` | src/util/sha1.cpp:41-44 | a word is the big-endian number of its four bytes |
| `Sha1.WordBytesAreBigEndian` | src/util/sha1.cpp:104-109 | the bytes of a word are its number, big-endian |
| `Sha1.RoundConstants` | src/util/sha1.cpp:52-64 | the constants of the rounds are 2^30 times the square roots of 2, 3, 5 and 10, rounded down |
| `Sha1.FoldOfConcat` | src/util/sha1.cpp:84-87 | folding whole blocks and then the rest is folding them together |
| `Sha1.PadSplits` | src/util/sha1.cpp:89-102 | the padded message is its whole blocks and a tail of one block or two, by the number of bytes left |
| `Sha1.LengthFieldIs` | src/util/sha1.cpp:82-101 | the length field is the length in bits if and only if that is below 2^64 |
| `Sha1.PadIsInjective` | src/util/sha1.cpp:89-102 | no two messages within that range are padded alike |
| `Sha1.ComputeSha1` | src/util/sha1.cpp:79-110 | for every input the block loop and the tail give the digest of the padded message (RFC 3174 sections 4 and 6.1) |
| `Sha1Example.DigestOfAbc` | src/util/sha1.cpp:39-110 | the digest of "abc" is the one of section 7.3 of RFC 3174 |

## Left out

- Sockets, accepting, the pollers, the bootstrap classes, TLS, gzip and the HTTP codec on the generated parser: calls to the system or to code of others.
- Weak memory ordering: the atomic steps of the ring and of the wake-up are sequentially consistent.
- EventLoopWakeup.TasksRunInOrder: the lock-protected list behind a full ring, and several producers on one ring, are not modelled; the queue is the ring at its store and its load of `tail`.
- Exceptions thrown by handlers, tasks and callbacks; the one modelled is the payload string whose length wraps.
- Failing allocation.
- ByteBuffers.ByteBuf.EnsureWritable: sizes near 2^64, where the sum and the doubling wrap, are on unbounded numbers, because no block of that size exists.
- ByteBuffers.ByteBuf.Slice: what a copy outside the block does is not modelled beyond the answer `OutsideBlock`.
- ByteBuffers.ByteBuf.Trim: a cut to 0 succeeds here; in the library it depends on what the implementation's `realloc` does with size 0, and on a null result the old block is put back.
- SpscRing.NextPowerOfTwo: the loop is on unbounded numbers; `SpscRing.DoublingEndsIff` says when the one in 64 bits ends.
- WebSocketCodecs.EncodeFrame: requires a payload shorter than 2^64 bytes, as every string is.
- `WebSocketCodec::write`, which clears the write buffer before it appends, and `tryParse`, which does nothing.
- WebSocketHandlers.WsState.ChannelRead: the application's own callbacks (`onOpen`, `onMessage`, `onClose`), freeing the subscriber on CLOSE, and contexts that have expired are not modelled.
- Wheels.FiresExactlyOnce: the tick counter and the ids do not wrap; at one tick a millisecond 64 bits last hundreds of millions of years.
- EventLoopTimers.NotEarlyIff: stated while the tick counter is more than a round below 2^64.
- Routers.RequestOutcome: a null handler cannot be registered.
- RouterTrie.HandlerAfterInsert: the nodes are values, because a node owns its children; the in-place walk of `findOrCreate` becomes a rebuilt path.
- WritePath.Connection.FireWrite: `close` sets the flag; what its inactive handlers do is part of `WebSocketHandlers`.
- KeepAlive.KeepAliveIsSafe: others may add and cancel any timers, in callbacks and between turns, but not cancel one of the keep-alive's, whose ids they are not given.
- The pending-flush list and the drain lists of the topic tree: nothing in the library fills them.
- TopicTrees.TopicTree.Subscribe: the check for changes during a drain, and the lock, are not modelled.
- Pipelines.ChannelPipeline.FireReadFrom: every handler forwards once and none edits the pipeline while an event travels.
- The traversals of `fireFlush` and `fireClose`, and the events that reach all handlers.
- Base64, response headers, the token bucket, metrics, logging, results and errors, and static files.
