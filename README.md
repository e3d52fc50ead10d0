# SLAY2 — a verified model of the serial layer-2 protocol core

SLAY2 carries eight byte channels over one serial line. Each side of the line is a
`Slay2` endpoint. Its `task()` runs cyclically and does three things:

- It sends a burst of five SYNC bytes at start-up.
- It decodes the bytes it receives into ACK and DATA frames.
- It hands the transmitter the next frame the transmit scheduler picks.

The transmit scheduler queues up to three ACK frames and up to three unacknowledged DATA
frames. ACK frames go first. Next comes the retransmission of the oldest DATA frame once
its timeout has passed. Last comes a new DATA frame, built from the lowest-numbered
channel that has data ready.

Frames are bit-stuffed onto the wire:

- DATA bytes carry 7 payload bits and have bit 7 set.
- ACK bytes carry 6 payload bits and have bits 7..6 equal to 01.
- 0x02 ends a DATA frame and 0x01 ends an ACK frame.
- 0x2C is SYNC. Three SYNC bytes in a row reset the receiver.

Every frame ends with the CRC-32 of its bytes, big-endian. A frame is valid when the CRC
over all its bytes is zero.

The model has one module per part of the core:

- `crc32.dfy` (module `Crc32`): the CRC-32 register that every codec buffer keeps.
- `wire.dfy` (module `Wire`): constants, byte tags, the receiver's byte classes.
- `coder.dfy` (module `Coding`): `Slay2Buffer`'s fields (buffer, count, step, crc) as a `Coder` value.
- `data_codec.dfy`, `ack_codec.dfy` (module `DataCodec`, `AckCodec`): the bit packing, `decodeData`/`decodeAck`, round trips.
- `data_buffers.dfy`, `ack_buffers.dfy` (module `DataBuffers`, `AckBuffers`): the encoding and decoding buffers, step by step, and the encoder classes.
- `fifo.dfy` (module `Fifos`): `Slay2Fifo`, a 1024-byte ring buffer over an array.
- `channel.dfy` (module `Channels`): `Slay2Channel`: send, space, flush, receiver.
- `scheduler.dfy` (module `Scheduling`): `Slay2TxScheduler` as a state value and step functions, with their lemmas.
- `tx_scheduler.dfy` (module `TxSchedulers`): `Slay2TxScheduler` as a class over arrays, proved against `Scheduling`.
- `engine.dfy` (module `Engine`): `Slay2`'s reception, transmission and `task` as functions of the endpoint state.
- `slay2.dfy` (module `Endpoints`): the `Slay2` class, proved against `Engine`.

Code that updates objects in place is modelled as classes whose methods have `modifies`
clauses:

- the FIFO;
- the channel;
- the scheduler's buffer pools and slot arrays;
- the endpoint.

Each such method's `ensures` ties the new state to a step function of the old one. The
lemmas about that step function state what the source promises. The receiver of a frame
is not called from inside the model. `doReception` instead returns the calls it would
make, in order, as `Delivery` values.

## Model

| member | source | states |
|---|---|---|
| `Crc32.CrcTableIsShiftRegister` | src/slay2_buffer.cpp:26 | the table behind `CrcStep` equals eight shifts of the MSB-first CRC-32 register with polynomial 0x04C11DB7, for each single-bit index and for 0x03 and 0xFF |
| `Crc32.CrcFoldAppend` | src/slay2_buffer.cpp:71-74 | feeding the CRC byte by byte, as `addToCrc` does, is the same as feeding `a` and then `b` |
| `Crc32.CrcFoldPush` | src/slay2_buffer.cpp:71-74 | one more byte is one more `xcrc32` step |
| `Crc32.ZeroResidue` | src/slay2.cpp:216 | the CRC over any bytes followed by their own CRC, big-endian, is 0, which is the receiver's validity test |
| `Wire.TagRanges` | src/slay2_buffer.h:85-102 | `isAck` is exactly 0x40..0x7F, `isData` exactly 0x80..0xFF, the end bytes exactly 1 and 2 |
| `Wire.TagSpacesDisjoint` | src/slay2.cpp:161-250 | the receive loop's byte class (SYNC, ACK, end of ACK, DATA, end of DATA, dropped) holds exactly when its test holds; the classes do not overlap |
| `Wire.BufferSizes` | src/slay2_buffer.h:15-20 | RX buffer 264, TX buffer 304, ACK buffer 16, FIFO 1024 bytes |
| `Coding.Flushed` | src/slay2_buffer.cpp:45-50 | flush keeps the buffer bytes, empties the buffer (count 1, step 0) and reseeds the CRC with 0xFFFFFFFF |
| `Coding.Written` | src/slay2_buffer.cpp:52-64 | `getBuffer()` read up to `getCount()` has `count - 1` bytes |
| `DataCodec.DecodeEncodedData` | src/slay2_buffer.cpp:248-258 | `decodeData(k)` of what `pushData` wrote gives back the k-th pushed byte, for every k |
| `DataCodec.DataRoundTrip` | src/slay2_buffer.cpp:218-245 | the streaming decoder's complete bytes after the encoder's wire bytes are exactly the pushed bytes |
| `DataCodec.EncodeDataLength` | src/slay2_buffer.cpp:128-148 | n bytes take n + ceil(n/7) wire bytes |
| `DataCodec.EncodeDataTagged` | src/slay2_buffer.cpp:136-137 | every wire byte the DATA encoder writes has bit 7 set, so the receiver classifies it as DATA |
| `DataCodec.DataStreamPush` | src/slay2_buffer.cpp:218-245 | one more wire byte completes one more byte unless it starts a group of eight |
| `AckCodec.DecodeEncodedAck` | src/slay2_buffer.cpp:206-216 | `decodeAck(k)` of what `pushAck` wrote gives back the k-th pushed byte, for every k |
| `AckCodec.AckRoundTrip` | src/slay2_buffer.cpp:176-203 | the streaming ACK decoder's complete bytes after the encoder's wire bytes are exactly the pushed bytes |
| `AckCodec.EncodeAckLength` | src/slay2_buffer.cpp:78-99 | n bytes take n + ceil(n/3) wire bytes |
| `AckCodec.EncodeAckTagged` | src/slay2_buffer.cpp:86-87 | every wire byte the ACK encoder writes has bits 7..6 equal to 01 |
| `AckCodec.AckStreamPush` | src/slay2_buffer.cpp:176-203 | one more wire byte completes one more byte unless it starts a group of four |
| `DataBuffers.DataPush` | src/slay2_buffer.cpp:128-148 | `pushData` succeeds iff `count < size - 1`; on failure nothing changes |
| `DataBuffers.DataPushEnd` | src/slay2_buffer.cpp:161-172 | `pushEndOfData` succeeds iff the rounded-up count is below the size; on failure nothing changes |
| `DataBuffers.DataPushBig32IsPushAll` | src/slay2_buffer.cpp:150-159 | `pushDataBig32` pushes the four bytes most significant first and ANDs their flags |
| `DataBuffers.DataPushAllKeeps` | src/slay2_buffer.cpp:128-148 | pushes that fit all succeed and keep the encoder invariant: wire bytes = earlier frames + `EncodeData(pushed)`, CRC over all pushed bytes |
| `DataBuffers.DataPushEndKeeps` | src/slay2_buffer.cpp:161-172 | the terminator closes the pending bytes' encoding with 0x02 |
| `DataBuffers.DataFrameEncodes` | src/slay2_scheduler.cpp:123-139 | flush, push sequence number, channel, payload, `pushDataBig32(crc)`, `pushEndOfData` never fails for up to 256 payload bytes and leaves exactly the encoded frame |
| `DataBuffers.DataDecPush` | src/slay2_buffer.cpp:218-245 | the DATA decoder's `pushData` succeeds iff `count < size - 1`; on failure nothing changes |
| `DataBuffers.DataDecPushKeeps` | src/slay2_buffer.cpp:218-245 | one push keeps the decoder invariant: complete bytes = `DecodeDataStream(wire)`, the partial byte, CRC over the complete bytes |
| `DataBuffers.DataDecPushAllKeeps` | src/slay2_buffer.cpp:218-245 | pushes that fit keep the decoder invariant |
| `DataBuffers.DataDecPushAllFits` | src/slay2_buffer.cpp:220 | pushes that fit all succeed |
| `DataBuffers.DataDecodesEncoded` | src/slay2_buffer.cpp:218-245 | a flushed RX decoder fed the encoding of up to 262 bytes holds exactly those bytes and their CRC |
| `DataBuffers.DataEncoder.constructor` | src/slay2_buffer.cpp:34-43 | a new encoding buffer is flushed |
| `DataBuffers.DataEncoder.Flush` | src/slay2_buffer.cpp:45-50 | the new state is `Flushed` of the old |
| `DataBuffers.DataEncoder.Bytes` | src/slay2_buffer.cpp:52-64 | the bytes `getBuffer()` hands out, up to `getCount()` |
| `DataBuffers.DataEncoder.Push` | src/slay2_buffer.cpp:128-148 | the new fields and the flag are `DataPush` of the old fields |
| `DataBuffers.DataEncoder.PushBig32` | src/slay2_buffer.cpp:150-159 | the new fields and the flag are `DataPushBig32` of the old fields |
| `DataBuffers.DataEncoder.PushEnd` | src/slay2_buffer.cpp:161-172 | the new fields and the flag are `DataPushEnd` of the old fields |
| `AckBuffers.AckPush` | src/slay2_buffer.cpp:78-99 | `pushAck` succeeds iff `count < size - 1`; on failure nothing changes |
| `AckBuffers.AckPushEnd` | src/slay2_buffer.cpp:113-124 | `pushEndOfAck` succeeds iff the rounded-up count is below the size; on failure nothing changes |
| `AckBuffers.AckPushBig32IsPushAll` | src/slay2_buffer.cpp:101-110 | `pushAckBig32` pushes the four bytes most significant first and ANDs their flags |
| `AckBuffers.AckPushAllKeeps` | src/slay2_buffer.cpp:78-99 | pushes that fit all succeed and keep the encoder invariant |
| `AckBuffers.AckPushEndKeeps` | src/slay2_buffer.cpp:113-124 | the terminator closes the pending bytes' encoding with 0x01 |
| `AckBuffers.AckFrameEncodes` | src/slay2_scheduler.cpp:205-210 | flush, `pushAck(seqNr)`, `pushAckBig32(crc)`, `pushEndOfAck` in a 16-byte buffer never fails and leaves exactly the encoded ACK frame |
| `AckBuffers.AckDecPush` | src/slay2_buffer.cpp:176-203 | the ACK decoder's `pushAck` succeeds iff `count < size - 1`; on failure nothing changes |
| `AckBuffers.AckDecPushKeeps` | src/slay2_buffer.cpp:176-203 | one push keeps the decoder invariant |
| `AckBuffers.AckDecPushAllKeeps` | src/slay2_buffer.cpp:176-203 | pushes that fit keep the decoder invariant |
| `AckBuffers.AckDecPushAllFits` | src/slay2_buffer.cpp:178 | pushes that fit all succeed |
| `AckBuffers.AckDecodesEncoded` | src/slay2_buffer.cpp:176-203 | a flushed ACK decoder fed the encoding of up to 14 bytes holds exactly those bytes and their CRC |
| `AckBuffers.AckEncoder.constructor` | src/slay2_buffer.cpp:34-43 | a new ACK encoding buffer is flushed |
| `AckBuffers.AckEncoder.Flush` | src/slay2_buffer.cpp:45-50 | the new state is `Flushed` of the old |
| `AckBuffers.AckEncoder.Bytes` | src/slay2_buffer.cpp:52-64 | the bytes `getBuffer()` hands out, up to `getCount()` |
| `AckBuffers.AckEncoder.Push` | src/slay2_buffer.cpp:78-99 | the new fields and the flag are `AckPush` of the old fields |
| `AckBuffers.AckEncoder.PushBig32` | src/slay2_buffer.cpp:101-110 | the new fields and the flag are `AckPushBig32` of the old fields |
| `AckBuffers.AckEncoder.PushEnd` | src/slay2_buffer.cpp:113-124 | the new fields and the flag are `AckPushEnd` of the old fields |
| `Fifos.Fifo.constructor` | src/slay2_buffer.cpp:262-265 | a new FIFO is empty |
| `Fifos.Fifo.Count` | src/slay2_buffer.cpp:267-270 | the number of queued bytes, at most 1024 |
| `Fifos.Fifo.Space` | src/slay2_buffer.cpp:272-275 | 1024 minus the number of queued bytes |
| `Fifos.Fifo.Push` | src/slay2_buffer.cpp:277-290 | succeeds iff fewer than 1024 bytes are queued and then appends the byte; otherwise nothing changes |
| `Fifos.Fifo.Pop` | src/slay2_buffer.cpp:292-305 | -1 iff the FIFO is empty, with nothing changed; otherwise the oldest byte is removed and returned |
| `Fifos.Fifo.Flush` | src/slay2_buffer.cpp:307-311 | the FIFO is empty |
| `Fifos.SlotsDistinct` | src/slay2_buffer.cpp:281-299 | the ring positions of the queued bytes are pairwise distinct, so no byte overwrites another |
| `Channels.Channel.constructor` | src/slay2.cpp:307-314 | channel number set, empty FIFO, no receiver, `txMore` false |
| `Channels.Channel.SetReceiver` | src/slay2.cpp:317-321 | the receiver and its object are replaced and `txMore` is kept |
| `Channels.Channel.Send` | src/slay2.cpp:324-345 | the longest prefix of the data that fits is appended to the FIFO; the count returned is its length; `txMore` is set to `more` whatever fits |
| `Channels.Channel.TxBufferSpace` | src/slay2.cpp:353-356 | 1024 minus the queued bytes |
| `Channels.Channel.FlushTxBuffer` | src/slay2.cpp:358-363 | the FIFO is empty |
| `Scheduling.ResetEmpties` | src/slay2_scheduler.cpp:47-53 | reset empties both queues and zeroes the NACK count and the sequence number, keeping the invariant |
| `Scheduling.ScheduleAckAppends` | src/slay2_scheduler.cpp:201-216 | succeeds iff fewer than three ACKs are queued, then appends the encoded ACK frame for `seqNr`; otherwise nothing changes; the DATA queue is untouched |
| `Scheduling.AcknowledgeReleasesHead` | src/slay2_scheduler.cpp:161-198 | succeeds iff a DATA frame is pending whose first byte decodes to `seqNr`, then removes that frame, rotates its slot and timeout row to the tail and zeroes the NACK count; otherwise nothing changes |
| `Scheduling.AcknowledgeMatchesFrame` | src/slay2_scheduler.cpp:165-168 | the decoded head sequence number is the first byte of the oldest frame's body |
| `Scheduling.FirstReady` | src/slay2_scheduler.cpp:102-111 | the lowest-numbered open channel with 256 or more bytes queued, or with some bytes queued and `txMore` false; -1 iff there is none |
| `Scheduling.Taken` | src/slay2_scheduler.cpp:129-132 | a frame takes all queued bytes, at most 256 |
| `Scheduling.NextXferKeeps` | src/slay2_scheduler.cpp:60-158 | `getNextXfer` keeps the scheduler invariant (both slot arrays permutations of 0..2), with the ACK pop corrected |
| `Scheduling.NextXferSendsAckFirst` | src/slay2_scheduler.cpp:63-78 | with an ACK queued, the oldest ACK frame is sent and leaves the ACK queue while the DATA queue, timeouts, NACK count and sequence number stay, whatever the time and channels; this uses the corrected pop (see Findings) |
| `Scheduling.NextXferRetransmits` | src/slay2_scheduler.cpp:80-98 | with no ACK queued and the oldest DATA frame overdue, that frame is resent, its timestamp becomes now, its timeout 60, and the NACK count increases |
| `Scheduling.NextXferBuildsFrame` | src/slay2_scheduler.cpp:100-153 | otherwise the first ready channel's queued bytes (at most 256) become a new DATA frame with the next sequence number, appended to the DATA queue, with timeout 3 + n/10 + 33 |
| `Scheduling.NextXferIdle` | src/slay2_scheduler.cpp:113-157 | with no ready channel, or the DATA queue full, nothing is sent and nothing changes |
| `Scheduling.NewDataAppends` | src/slay2_scheduler.cpp:123-151 | a new DATA frame is appended to the DATA queue |
| `Scheduling.NewDataTransmitted` | src/slay2_scheduler.cpp:123-152 | the buffer returned for a new DATA frame holds the encoded frame |
| `Scheduling.PopRotateKeepsOrder` | src/slay2_scheduler.cpp:176-182 | popping by rotation, as `acknowledgeXfer` does for the DATA slots, keeps a permutation of the slots |
| `Scheduling.ScheduleAckAsWritten` | src/slay2_scheduler.cpp:201-216 | `scheduleAck` over the ACK slot array as the source leaves it, without the permutation invariant |
| `Scheduling.AckPopAsWrittenAliases` | src/slay2_scheduler.cpp:72-76 | the ACK pop as written leaves slots 1 and 2 naming the same buffer |
| `Scheduling.AckPopAsWrittenLosesAck` | src/slay2_scheduler.cpp:72-76 | after that pop, three `scheduleAck` calls leave the second ACK overwritten by the third |
| `Scheduling.AckPopCorrectedKeepsQueue` | src/slay2_scheduler.cpp:72-76 | after the corrected pop of the only queued ACK, two ACKs scheduled next are both queued, in order |
| `TxSchedulers.InitialSchedInv` | src/slay2_scheduler.cpp:35-44 | the initial scheduler state has the invariant, empty queues, NACK count and sequence number 0 |
| `TxSchedulers.TxScheduler.constructor` | src/slay2_scheduler.cpp:35-44 | slots 0, 1, 2 in order, then reset |
| `TxSchedulers.TxScheduler.Reset` | src/slay2_scheduler.cpp:47-53 | the new state is `ResetStep` of the old |
| `TxSchedulers.TxScheduler.NackCount` | src/slay2_scheduler.cpp:219-222 | the NACK count of the state (`ResetEmpties`, `AcknowledgeReleasesHead` and `NextXferRetransmits` say how it moves) |
| `TxSchedulers.TxScheduler.Sent` | src/slay2.cpp:265 | the bytes of the buffer `getNextXfer` returned: the frame `Transmitted` names |
| `TxSchedulers.TxScheduler.ScheduleAck` | src/slay2_scheduler.cpp:201-216 | the new state and flag are `ScheduleAckStep` of the old state |
| `TxSchedulers.TxScheduler.ShiftData` | src/slay2_scheduler.cpp:176-181 | the DATA slot array and the timeout rows move one place towards the head |
| `TxSchedulers.TxScheduler.ReleaseHead` | src/slay2_scheduler.cpp:174-186 | the head buffer is flushed and rotated to the tail, its timeout row zeroed, the count decreased and the NACK count zeroed |
| `TxSchedulers.TxScheduler.AcknowledgeXfer` | src/slay2_scheduler.cpp:161-198 | the new state and flag are `AcknowledgeStep` of the old state |
| `TxSchedulers.TxScheduler.PopAck` | src/slay2_scheduler.cpp:63-78 | the oldest ACK slot is returned and the slots rotate, which is the corrected pop (see Findings) |
| `TxSchedulers.TxScheduler.Retransmit` | src/slay2_scheduler.cpp:84-97 | the head frame is returned, with new timestamp, timeout 60 and the NACK count plus one |
| `TxSchedulers.SelectChannel` | src/slay2_scheduler.cpp:102-111 | the channel scan returns `FirstReady` of the channel table and changes nothing |
| `TxSchedulers.MoveByte` | src/slay2_scheduler.cpp:135-136 | one byte popped from the channel FIFO is pushed into the frame |
| `TxSchedulers.PushPayload` | src/slay2_scheduler.cpp:133-137 | n bytes popped from the channel FIFO are pushed into the frame, in order |
| `TxSchedulers.BuildDataFrame` | src/slay2_scheduler.cpp:125-139 | the frame built is `DataFrame` of sequence number, channel and the first n queued bytes, which leave the FIFO |
| `TxSchedulers.TakeFrame` | src/slay2_scheduler.cpp:104-139 | the frame takes `Taken` of the channel's queue; the channel view loses those bytes |
| `TxSchedulers.BuildAckFrame` | src/slay2_scheduler.cpp:205-210 | the ACK frame built is `AckFrame` of the sequence number |
| `TxSchedulers.TxScheduler.CommitFrame` | src/slay2_scheduler.cpp:149-152 | the frame is stored in the free slot with timestamp and timeout; count and sequence number advance |
| `TxSchedulers.TxScheduler.NewData` | src/slay2_scheduler.cpp:100-153 | the new state, transfer and channel views are `NewDataStep` of the old |
| `TxSchedulers.TxScheduler.NextDataXfer` | src/slay2_scheduler.cpp:80-157 | with no ACK queued, the new state, transfer and channel views are `NextXferStep` of the old |
| `TxSchedulers.TxScheduler.NextXfer` | src/slay2_scheduler.cpp:60-158 | the new state, transfer and channel views are `NextXferStep` of the old, with the ACK pop corrected (see Findings) |
| `Engine.OnSyncIs` | src/slay2.cpp:161-181 | a SYNC byte counts; the third in a row resets the scheduler, flushes both decoders, expects sequence number 0 and restarts the count |
| `Engine.SyncBurstResets` | src/slay2.cpp:161-181 | three SYNC bytes in a row always leave the endpoint reset, whatever came before, with no receiver call |
| `Engine.TwoSyncsWait` | src/slay2.cpp:164-166 | two SYNC bytes only count |
| `Engine.ByteStepEndsSyncRun` | src/slay2.cpp:182 | every other byte ends the SYNC run first |
| `Engine.ByteStep` | src/slay2.cpp:159-250 | one pass of the receive loop keeps the endpoint invariant and calls at most one receiver |
| `Engine.ReceiveAll` | src/slay2.cpp:159-251 | the receive loop over n bytes keeps the endpoint invariant and calls at most n receivers |
| `Engine.ReceiveAllAppend` | src/slay2.cpp:159-251 | receiving a then b is receiving a + b, with the receiver calls concatenated |
| `Engine.AckBytesReceived` | src/slay2.cpp:185-189 | ACK payload bytes only feed the ACK decoder |
| `Engine.DataBytesReceived` | src/slay2.cpp:208-212 | DATA payload bytes only feed the DATA decoder |
| `Engine.AckEndValid` | src/slay2.cpp:190-205 | end of ACK with CRC 0 and five bytes acknowledges the first byte, then flushes the ACK decoder |
| `Engine.DataEndValid` | src/slay2.cpp:213-248 | end of DATA with CRC 0 and more than six bytes schedules an ACK; if the sequence number is expected, channel `w[1]`'s receiver gets the payload and the expected number advances; the decoder is flushed |
| `Engine.DataEndInvalid` | src/slay2.cpp:213-248 | a frame failing the CRC or length test is dropped and the decoder flushed, nothing else changes |
| `Engine.Delivered` | src/slay2.cpp:226-239 | delivery changes only the DATA decoder's buffer and makes at most one receiver call |
| `Engine.AckFrameDecodes` | src/slay2.cpp:184-199 | the wire bytes of an ACK frame fill a flushed ACK decoder with the sequence number and its CRC, residue 0 |
| `Engine.AckFrameAcknowledges` | src/slay2.cpp:190-205 | a received ACK frame for `seqNr` performs `acknowledgeXfer(seqNr)` and flushes the ACK decoder |
| `Engine.AckReleasesSentFrame` | src/slay2_scheduler.cpp:161-198 | the ACK frame for the oldest frame's sequence number removes that frame and zeroes the NACK count; any other ACK leaves the scheduler as it was |
| `Engine.DataFrameDecodes` | src/slay2.cpp:207-220 | the wire bytes of a DATA frame fill a flushed DATA decoder with the frame and its CRC, residue 0 |
| `Engine.DataFrameReceived` | src/slay2.cpp:213-245 | a received DATA frame with 1 to 256 payload bytes is acknowledged and, if its sequence number is expected, delivered to its channel's receiver |
| `Engine.ShortFrameDropped` | src/slay2.cpp:220 | a DATA frame without payload is dropped without ACK |
| `Engine.NewFrameSent` | src/slay2_scheduler.cpp:123-139 | the new DATA frame carries the sequence number, channel and the first up to 256 queued bytes |
| `Engine.SentFrameDelivered` | src/slay2_scheduler.cpp:123-139 | the DATA frame one endpoint builds is accepted by a peer expecting its sequence number and handed to that channel's receiver |
| `Engine.TransmitsQueuedFrame` | src/slay2.cpp:255-268 | a frame goes out only when at most 24 bytes wait for transmission, with the ACK decoder flushed; it is the oldest ACK, the oldest DATA frame again, or a new DATA frame appended to the queue; with no frame the ACK decoder and the channels are untouched |
| `Engine.TransmitStep` | src/slay2.cpp:255-268 | doTransmission keeps the endpoint invariant |
| `Engine.StartupSyncsOnce` | src/slay2.cpp:131-143 | the SYNC burst is tried while none has been fully sent; once it is, the endpoint is reset exactly once and never sends the burst again |
| `Engine.TaskStep` | src/slay2.cpp:127-147 | start-up, reception, transmission in that order keep the endpoint invariant; transmission uses the corrected ACK pop (see Findings) |
| `Endpoints.Slay2.constructor` | src/slay2.cpp:99-109 | all slots empty, no SYNC sent or seen, sequence number 0 expected, decoders flushed, scheduler reset |
| `Endpoints.Slay2.Open` | src/slay2.cpp:271-286 | a fresh channel goes into slot `id` iff `id` < 8 and the slot is empty; otherwise null and nothing changes |
| `Endpoints.Slay2.Attach` | src/slay2.cpp:280 | the slot gets the channel and the endpoint stays valid |
| `Endpoints.Slay2.Close` | src/slay2.cpp:289-300 | slot `ch.channel` is emptied iff `ch` is not null and its number is below 8 |
| `Endpoints.Slay2.Synced` | src/slay2.cpp:162-181 | the new state is `OnSync` of the old |
| `Endpoints.Slay2.AckFrameEnded` | src/slay2.cpp:190-205 | the new state is `OnAckEnd` of the old |
| `Endpoints.Slay2.HandOver` | src/slay2.cpp:226-239 | the new state and the receiver call are `Delivered` of the old state |
| `Endpoints.Slay2.Advance` | src/slay2.cpp:242 | the expected sequence number advances modulo 256 and nothing else changes |
| `Endpoints.Slay2.Deliver` | src/slay2.cpp:224-243 | delivery, then the advance of the expected number: `ExpectedFrame` |
| `Endpoints.Slay2.AcceptFrame` | src/slay2.cpp:222-243 | `scheduleAck`, then delivery of the expected frame: `OnValidData` |
| `Endpoints.Slay2.DataFrameEnded` | src/slay2.cpp:213-248 | the new state and receiver calls are `OnDataEnd` of the old |
| `Endpoints.Slay2.FrameByte` | src/slay2.cpp:182-250 | a byte that is not SYNC is handled as `ByteStep` says |
| `Endpoints.Slay2.ReceiveByte` | src/slay2.cpp:159-250 | the new state and receiver calls are `ByteStep` of the old |
| `Endpoints.Slay2.ReceiveLoop` | src/slay2.cpp:159-251 | the loop's new state and receiver calls are `ReceiveAll` of the old, for the bytes in order |
| `Endpoints.Slay2.DoReception` | src/slay2.cpp:156-252 | as `ReceiveAll`; the channel table and receivers do not change |
| `Endpoints.Slay2.SendNext` | src/slay2.cpp:259-261 | the new state, channel views and frame are `SendStep` of the old |
| `Endpoints.Slay2.AckDecoderFlush` | src/slay2.cpp:264 | only the ACK decoder is flushed |
| `Endpoints.Slay2.DoTransmission` | src/slay2.cpp:255-268 | the new state, channel views and frame are `TransmitStep` of the old |
| `Endpoints.Slay2.Startup` | src/slay2.cpp:129-143 | the new state and whether the burst was sent are `StartupStep` of the old |
| `Endpoints.Slay2.Task` | src/slay2.cpp:127-147 | the new state, channel views and output are `TaskStep` of the old, with the ACK pop corrected (see Findings) |

## Left out

- `enterCritical`/`leaveCritical` (src/slay2.cpp:129, 146, 330, 343, 360-373) are no-ops. The model is single-threaded.
- `setVerbose` and the `verbose` `cout` logging (src/slay2.cpp:134, 150-153, 165-168, 192, 215) are left out. They produce only console output.
- The receiver callback is not called. `doReception` returns each call as a `Delivery` (function, object, payload), in order. So a receiver that re-enters `send` or `close` during delivery is not modelled. The zero written over the first CRC byte before the call is modelled.
- `receive`, `transmit`, `getTxCount` and `getTime1ms` are parameters of `Task`:
  - the bytes `receive` returns one at a time until it returns 0;
  - what `transmit` returns for the SYNC burst;
  - the TX backlog;
  - the millisecond clock.

  The frame handed to `transmit` is returned. Its return value is ignored, as the source ignores it.
- Function and object pointers (`Slay2Receiver`, `receiverObj`) are `nat`, and 0 is NULL.
- `Slay2` holds its two decoders as `Coder` values that `DataDecPush`/`AckDecPush` update. There is no separate decoder class, and one push has one definition.
- `CrcStep` is an assumed definition. src/slay2_buffer.cpp:26 only declares `xcrc32` as external. The model takes it to be the GNU libiberty table step: polynomial 0x04C11DB7, most significant bit first, no reflection, no final inversion. `CrcTableIsShiftRegister` checks the table against the shift register. Apart from it, only `ZeroResidue` depends on the body of `CrcStep`. These lemmas depend on it through `ZeroResidue`:
  - `AckFrameDecodes`
  - `AckFrameAcknowledges`
  - `AckReleasesSentFrame`
  - `DataFrameDecodes`
  - `DataFrameReceived`
  - `ShortFrameDropped`
  - `SentFrameDelivered`
- The `buffer != NULL` tests of the codec buffers (src/slay2_buffer.cpp:38, 54, 80, 116, 130, 164, 178, 220) are left out. Every buffer is an embedded array, so the NULL branch never runs.
- `Slay2::open`'s `ch != NULL` test after `new` (src/slay2.cpp:278) is left out. Allocation does not fail in the model.
- The destructor `~Slay2` and the `delete` in `close` (src/slay2.cpp:112-124, 298) are left out. The model has no deallocation, so `Close` only empties the slot.
- The channel's back-pointer to its `Slay2` (src/slay2.cpp:309) is left out. It only serves the critical sections.
- `Slay2Channel::getTxBufferSize` (src/slay2.cpp:348-351) is left out. It returns the constant 1024, which `Wire.BufferSizes` states.
- src/slay2_scheduler.h is not part of this model. The model infers the following from src/slay2_scheduler.cpp:
  - the FIFO depth of 3;
  - the timeout table: a timestamp and a timeout per DATA slot, 32-bit unsigned;
  - the 32-bit wrap-around of `time1ms - timestamp`.
- The retransmission test follows src/slay2_scheduler.cpp:84. It is a strict `>` on the 32-bit wrapped difference, not a comparison against a deadline.
- The platform layers and tests (Linux, Win32, null modem) are outside the core and not modelled.

## Findings

| source | as written | input that shows it | evidently intended | confidence | as-written member | corrected member |
|---|---|---|---|---|---|---|
| src/slay2_scheduler.cpp:72-76 | The ACK pop shifts `ackFifo` left and leaves `ackFifo[2]` as it was. Slots 1 and 2 then name the same ACK buffer. | One ACK queued, slots [0,1,2]. `getNextXfer` pops it, leaving [1,2,2]. Then `scheduleAck(c1)`, `scheduleAck(c2)`, `scheduleAck(c3)` with c2 ≠ c3: slots 1 and 2 both hold the ACK for c3, and the ACK for c2 is never sent. | The popped slot goes back to the tail, as `acknowledgeXfer` does for `dataFifo` at lines 176-182. The model's scheduler (`NextXferStep`, `TxScheduler.PopAck`, `TxScheduler.NextXfer`, and through them `TaskStep` and `Slay2.Task`) pops this way. | not executed; high | `Scheduling.AckPopAsWrittenLosesAck` | `Scheduling.AckPopCorrectedKeepsQueue` |
