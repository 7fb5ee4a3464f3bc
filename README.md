# Pothos core logic in Dafny

This project models the sequential core of Pothos, a dataflow framework. It covers six parts:

- **mVRL deframer** (`Deserializer` block). It scans an accumulated byte stream for packets in
  the modified VITA radio link layer format. A packet starts with the magic `mVRL`, then a word
  holding a 12-bit sequence number and a 20-bit byte length. An inner VITA 49 header follows,
  then a stream id, an optional 64-bit timestamp, the payload and the end word `VEND`.
  The model checks each packet and routes it to an output port as a buffer, a label or a
  message. It re-synchronises one byte at a time over garbage.
- **Network sink work cycle.** It drains an input port into an append-only log of sent packets,
  in the order messages, labels, dtype change, buffer.
- **Thread environment.** This is the task registry, with its configuration signature and pool
  size. It also covers one scheduling step of a pool worker and of a dedicated worker, and
  the wake of busy tasks.
- **Block helpers.** These are label propagation from an input to every output, the
  name-to-callable registry, signal emission, the numeric port-setup overloads, `yield`, and
  the weakly cached global framework.
- **Reference counts.** This is the shared/weak count protocol of `sp_counted_base`.
- **Host URI list** of the host explorer. It covers the de-duplicated list with
  `tcp://localhost` first, add and remove, the URI-to-row map, the change test and the entry
  box.

## Representations

- Bytes and 32-bit words are bounded `int` subset types (`Common.Byte`, `Words.Word`).
- A big-endian word is `Words.WordAt`. The `size_t` and 64-bit wrap-around is written out as
  `Common.Add64` and `Common.Sub64`.
- The constants of `SerializeCommon.hpp` are abstract constants with stated assumptions:
  - `MIN_PKT_BYTES` is at least 24.
  - `MAX_PKT_BYTES` and `VEND` are arbitrary.
  - The three flag masks are distinct single bits among the non-reserved bits 20-31.
- The accumulator of the deframer is a `Deframer.Deserializer` object with a byte buffer, an
  `address` and a `length`. The work loop updates them in place.
- Its specification is the function `Deframer.Deframe`. `Frames.Encode` is an independent
  reference layout of a packet, against which the deframer is proved to round-trip.
- `Pothos::Object` serialization is opaque. A serialized object is its bytes, and decoding a
  label from them is a function parameter (`extractLabel`, `encodeLabel`, `encodeDType`).
- Threads, sockets, Qt widgets and settings storage are replaced by the state they change:
  - a stored `seq<string>` for the settings;
  - a log of sent packets for the endpoint;
  - a pool size and a set of handles with dedicated threads;
  - ghost logs of `wake`, `dispose` and `destroy` calls.

## Model

| member | source | states |
|---|---|---|
| Common.Add64 | pothos-blocks/network/NetworkSink.cpp:126 | The sum of two counters wraps modulo 2^64 and equals the true sum when that fits. |
| Common.Sub64 | pothos-blocks/serialize/Deserializer.cpp:124 | The `size_t`/64-bit difference wraps modulo 2^64 and equals the true difference when it is not negative. |
| Common.SubAfterAdd64 | pothos-library/lib/Framework/Block.cpp:65-66 | Adding then subtracting the same 64-bit amount gives back the original value, whatever wraps in between. |
| Words.FromBits | pothos-blocks/serialize/Deserializer.cpp:102-111 | A number assembled from `n` flag bits is below 2^n. |
| Words.BitOfFromBits | pothos-blocks/serialize/Deserializer.cpp:102-111 | Testing bit `i` of a number assembled from bits gives back bit `i`, the `vita_hdr & mask` test. |
| Words.BitAbove | pothos-blocks/serialize/Deserializer.cpp:99-111 | The bits of `low + 2^j * m` at and above `j` are those of `m`, so header fields do not disturb the flag bits. |
| Words.WordBytes | pothos-blocks/serialize/Deserializer.cpp:66-68 | Four bytes laid out in network order read back, by `fromNetwork`, as the word they encode. |
| Words.WordsBytesAt | pothos-blocks/serialize/Deserializer.cpp:64-72 | Word `i` of a laid-out word sequence reads back as the `i`-th word, whatever bytes follow. |
| Words.WordAtShifted | pothos-blocks/serialize/Deserializer.cpp:83-89 | A word read behind a whole number of leading words is read at the shifted index. |
| Deframer.PadUp32 | pothos-blocks/serialize/Deserializer.cpp:69 | `padUp32` gives the smallest multiple of 4 not below the byte count. |
| Deframer.InspectPacket | pothos-blocks/serialize/Deserializer.cpp:61-75 | As written: no magic means invalid; the declared length is the low 20 bits of word 1; fragment iff declared length exceeds the window; oversized is refused even when also a fragment; a whole packet is valid iff its last padded word is `VEND` (callers must keep that read in the window). |
| Deframer.InspectPacketChecked | pothos-blocks/serialize/Deserializer.cpp:61-75 | Corrected inspection: a fragment iff the padded length exceeds the window; a zero length is refused; valid non-fragment iff magic, 0 < length <= MAX, the padded packet fits and its end word is `VEND`; a valid packet advances by 1 to window-length bytes. |
| Deframer.InspectionsAgree | pothos-blocks/serialize/Deserializer.cpp:61-75 | Wherever the as-written inspection reads inside the window, it accepts exactly what the corrected one accepts and with the same result. |
| Deframer.UnpackBuffer | pothos-blocks/serialize/Deserializer.cpp:80-125 | As written: on success the payload starts 24 bytes in with a timestamp and 16 without. |
| Deframer.UnpackBufferChecks | pothos-blocks/serialize/Deserializer.cpp:87-124 | Unpacking fails with `Truncated` iff the padded length exceeds the buffer. It succeeds iff all checks hold: the word count equals `pkt_words32 - 3` in 64-bit arithmetic, `seq12 & 0x4` equals the count nibble, the SID flag is set and bits 30, 27, 26, 23, 22 are clear. On success it yields the sequence number, SID, flags, the 64-bit timestamp from words 4-5, and the wrapping payload length `pkt_bytes - header - 4`. |
| Deframer.UnpackBufferChecked | pothos-blocks/serialize/Deserializer.cpp:121-124 | The corrected unpack agrees with the as-written one whenever it succeeds; header, payload and end word then add up to the declared length, which fits in the buffer; it differs only by refusing, as `PayloadUnderflow`, exactly the packets whose declared length is shorter than header plus end word. |
| Deframer.PayloadOf | pothos-blocks/serialize/Deserializer.cpp:121-124 | The payload window has the unpacked payload length and holds the packet's bytes from the payload offset on. |
| Deframer.Dispatch | pothos-blocks/serialize/Deserializer.cpp:167-207 | `handlePacket`, case by case: an unpack failure is passed on; a SID at or beyond the output count is a range error; otherwise a non-extension packet posts its payload window as a buffer and sets `_nextExpectedIndex` to `tsf` plus the payload length (64-bit); an extension packet with a timestamp posts the decoded label re-indexed to `tsf - _nextExpectedIndex` (64-bit), or fails when the payload is not a label; one without a timestamp posts the payload as a message. Label and message packets leave `_nextExpectedIndex` unchanged. |
| Deframer.Iterate | pothos-blocks/serialize/Deserializer.cpp:140-157 | One loop iteration that consumes a packet advances by at least one byte and at most the window, so the loop terminates. |
| Deframer.IterateInspected | pothos-blocks/serialize/Deserializer.cpp:141-156 | An invalid window slides by one byte; a valid fragment waits. |
| Deframer.IterateWhole | pothos-blocks/serialize/Deserializer.cpp:141-150 | A whole valid packet is either refused with `handlePacket`'s error or consumed with its declared length as the advance. |
| Deframer.DeframeUnfold | pothos-blocks/serialize/Deserializer.cpp:138-158 | The work loop unfolds one iteration: slide, wait, refuse, or post and continue behind the packet. |
| Deframer.DeframeLeavesSuffix | pothos-blocks/serialize/Deserializer.cpp:138-158 | The accumulator left by the loop is a suffix of the one it started with. |
| Deframer.DeframeStops | pothos-blocks/serialize/Deserializer.cpp:138-158 | The loop ends only with fewer than `MIN_PKT_BYTES` left or on a fragment, or on a refused packet, which stays at the front of the accumulator. |
| Deframer.DeframeNextBounded | pothos-blocks/serialize/Deserializer.cpp:186 | `_nextExpectedIndex` stays a 64-bit value across the loop. |
| Deframer.DeframeStep | pothos-blocks/serialize/Deserializer.cpp:138-158 | The posts made so far followed by the rest of the loop equal the loop from the start, for each kind of iteration. |
| Deframer.Deserializer.constructor | pothos-blocks/serialize/Deserializer.cpp:35-40 | A new deserializer has one output, an empty accumulator and `_nextExpectedIndex` 0. |
| Deframer.Deserializer.Advance | pothos-blocks/serialize/Deserializer.cpp:147-149 | Moving the accumulator's address forward by `n` drops the first `n` bytes of its window. |
| Deframer.Deserializer.HandlePacket | pothos-blocks/serialize/Deserializer.cpp:167-207 | Performs `Dispatch`: on success appends its post and stores the new next index; on failure changes nothing. |
| Deframer.Deserializer.Take | pothos-blocks/serialize/Deserializer.cpp:141-150 | A whole valid packet at the front is handled and then consumed by its declared length, or refused with the accumulator untouched. |
| Deframer.Deserializer.Step | pothos-blocks/serialize/Deserializer.cpp:140-157 | One in-place iteration does what `Iterate` says: slide one byte, wait, refuse, or post and advance by the packet length. |
| Deframer.Deserializer.Drain | pothos-blocks/serialize/Deserializer.cpp:138-158 | The in-place `while` loop leaves the accumulator, the posts and the next index that `Deframe` specifies, and fails exactly when `Deframe` reports a fault. |
| Deframer.Deserializer.Work | pothos-blocks/serialize/Deserializer.cpp:127-162 | `work` consumes the whole input buffer, appends it to the accumulator and runs the loop to `Deframe`'s outcome; an emptied accumulator is reset. |
| Frames.EncodeLength | pothos-blocks/serialize/Deserializer.cpp:68-69 | An encoded packet is its declared length rounded up to whole words, less than 4 bytes longer. |
| Frames.HeaderWordsRead | pothos-blocks/serialize/Deserializer.cpp:64-115 | An encoded packet, followed by anything, carries the magic, its declared length, its sequence number, its VITA header and its SID at the places the decoder reads them. |
| Frames.EndWordRead | pothos-blocks/serialize/Deserializer.cpp:69-72 | The decoder's end-word index of an encoded packet lands on `VEND` inside the packet. |
| Frames.InspectEncoded | pothos-blocks/serialize/Deserializer.cpp:61-75 | Both inspections accept an encoded packet, followed by anything, as a whole packet of its declared length. |
| Frames.FlagRead | pothos-blocks/serialize/Deserializer.cpp:102-111 | Each flag bit of an encoded VITA header reads back as set in the reference layout. |
| Frames.VitaHeaderCounts | pothos-blocks/serialize/Deserializer.cpp:95-100 | An encoded VITA header carries `pkt_words32 - 3` in its size field and the packet count in bits 19-16. |
| Frames.VitaHeaderFlags | pothos-blocks/serialize/Deserializer.cpp:102-111 | An encoded VITA header has the SID flag, no reserved bit, and its timestamp and extension flags as set. |
| Frames.PayloadRead | pothos-blocks/serialize/Deserializer.cpp:121-124 | The payload of an encoded packet lies right behind its header. |
| Frames.TimestampRead | pothos-blocks/serialize/Deserializer.cpp:118 | Words 4 and 5 of an encoded packet with a timestamp read back as the 64-bit timestamp. |
| Frames.UnpackEncoded | pothos-blocks/serialize/Deserializer.cpp:80-125 | Unpacking an encoded packet succeeds and returns every field it was encoded with; the payload window covers exactly the payload. |
| Frames.DispatchEncoded | pothos-blocks/serialize/Deserializer.cpp:167-207 | A deliverable encoded packet is posted as its buffer, label or message. A buffer sets the next index to timestamp plus payload length. A label is re-indexed to timestamp minus the next index. |
| Frames.DispatchMissingPort | pothos-blocks/serialize/Deserializer.cpp:178-179 | An encoded packet whose SID names no output is refused with a range error carrying that SID. |
| Frames.IterateEncoded | pothos-blocks/serialize/Deserializer.cpp:141-150 | An iteration over an encoded packet posts it and advances by exactly its declared length. |
| Frames.Leftover | pothos-blocks/serialize/Deserializer.cpp:148-149 | The declared length counts the end word but not the padding in front of it, so advancing by it stops inside the end word: what is left is the last 0 to 3 bytes of `VEND`, as the contract states. |
| Frames.NoMagicInside | pothos-blocks/serialize/Deserializer.cpp:65 | A nonempty run of bytes without the magic, in front of a packet, does not read as the magic either: the packet's 'm' cannot land where the magic has 'V', 'R' or 'L'. |
| Frames.MagicFreeTail | pothos-blocks/serialize/Deserializer.cpp:155-156 | Sliding one byte keeps a magic-free run magic-free. |
| Frames.SkipGarbage | pothos-blocks/serialize/Deserializer.cpp:137-158 | Recovery search: the loop slides over a run of garbage of any length that holds no magic, to the packet behind it, and then behaves as if the garbage were not there. |
| Frames.DeframeEncoded | pothos-blocks/serialize/Deserializer.cpp:138-158 | Deframing an encoded packet posts it and continues on the leftover of its end word and what follows. |
| Frames.StreamCoversLast | pothos-blocks/serialize/Deserializer.cpp:138-139 | Encoded packets back to back are at least as long as the last one, so a last packet of `MIN_PKT_BYTES` keeps the loop running at every packet before it, however short. |
| Frames.SkipToStream | pothos-blocks/serialize/Deserializer.cpp:138-158 | The leftover of an end word (under 4 bytes) in front of a packet stream is skipped. The packets need only be deliverable, with the last at least `MIN_PKT_BYTES` long once encoded. With no packets, the leftover stays in the accumulator. |
| Frames.DeframeStream | pothos-blocks/serialize/Deserializer.cpp:127-162 | Round trip: a stream of deliverable encoded packets, of which only the last need reach `MIN_PKT_BYTES` (earlier ones may be shorter), is deframed into exactly their posts, in order, with the expected next index, no fault, and under 4 bytes left. |
| Frames.GarbledHead | pothos-blocks/serialize/Deserializer.cpp:137-158 | Garbage before the first packet of a stream is skipped, that packet is delivered (it may be shorter than `MIN_PKT_BYTES` when packets follow), and the loop goes on after its declared length. |
| Frames.GarbageOkTail | pothos-blocks/serialize/Deserializer.cpp:137-158 | The conditions on a garbled stream hold again for the rest of the stream after its first packet. |
| Frames.DeframeGarbledAfter | pothos-blocks/serialize/Deserializer.cpp:127-162 | After an end-word leftover, a stream of deliverable packets, the last at least `MIN_PKT_BYTES` long, each preceded by magic-free garbage, is deframed into exactly the packets' posts, in order, with no fault. |
| Frames.DeframeGarbled | pothos-blocks/serialize/Deserializer.cpp:127-162 | Resynchronisation: when garbage holding no magic (nor forming it with the leftover before it) precedes every encoded packet, and only the last packet need reach `MIN_PKT_BYTES`, the loop posts exactly the packets' deliveries, in order, with the expected next index, no fault and under 4 bytes left. |
| Frames.PrefixRead | pothos-blocks/serialize/Deserializer.cpp:65-68 | A cut-off packet still shows its magic and declared length. |
| Frames.FragmentWaits | pothos-blocks/serialize/Deserializer.cpp:70-143 | A packet that has only partly arrived is a fragment, and the loop waits without consuming or posting anything. |
| Findings.ZeroLengthReadsBeforeStart | pothos-blocks/serialize/Deserializer.cpp:68-72 | As written, a declared length of 0 is not a fragment and puts the end-word index at -1, outside the packet; the corrected inspection refuses it. |
| Findings.PaddingNotArrived | pothos-blocks/serialize/Deserializer.cpp:69-72 | As written, a packet whose declared length has arrived but whose padding has not is no fragment, yet its end word lies beyond the window; the corrected inspection calls it a fragment. |
| Findings.UnderflowHeaderBits | pothos-blocks/serialize/Deserializer.cpp:95-111 | The counterexample header has the SID flag, no timestamp, no reserved bit, word count 2 and count nibble 0. |
| Findings.UnderflowWords | pothos-blocks/serialize/Deserializer.cpp:64-72 | The counterexample packet declares 17 bytes, has `VEND` in its padded end word and starts with the magic. |
| Findings.PayloadUnderflowExample | pothos-blocks/serialize/Deserializer.cpp:121-124 | A packet declaring 17 bytes passes every check as written and gets payload length 2^64 - 3. The corrected unpack refuses it, and the work loop then stops on it. |
| ThreadEnv.Smallest | pothos-library/lib/Framework/ThreadEnvironment.cpp:70 | The smallest handle of a non-empty set is in it and below all others. |
| ThreadEnv.SortedKeysFacts | pothos-library/lib/Framework/ThreadEnvironment.cpp:70 | A `std::map` is visited in strictly increasing key order, covering exactly its keys. |
| ThreadEnv.IterationOrder | pothos-library/lib/Framework/ThreadEnvironment.cpp:70 | The loop that picks keys smallest-first yields the map's iteration order. |
| ThreadEnv.RemoveOne | pothos-library/lib/Framework/ThreadEnvironment.cpp:63-64 | Erasing a present handle shrinks the map by one and keeps the other entries. |
| ThreadEnv.ThreadEnvironment.constructor | pothos-library/lib/Framework/ThreadEnvironment.cpp:9-15 | Wait mode is on iff the yield mode is not `"SPIN"`. The signature starts at 0 with no tasks and no threads. |
| ThreadEnv.ThreadEnvironment.RegisterTask | pothos-library/lib/Framework/ThreadEnvironment.cpp:26-53 | Registration adds the handle and bumps the signature by one. Single-task mode gives the handle its own thread. Pool mode grows the pool by one while it is below `numThreads`. |
| ThreadEnv.ThreadEnvironment.UnregisterTask | pothos-library/lib/Framework/ThreadEnvironment.cpp:55-92 | Unregistration removes the handle and bumps the signature by one. It wakes the removed task, then every remaining task in key order. Single-task mode drops the handle's thread. Pool mode shrinks the pool to the task count when it is larger. |
| ThreadEnv.ThreadEnvironment.UnregisterFirst | pothos-library/lib/Framework/ThreadEnvironment.cpp:17-24 | One turn of the destructor's loop unregisters the task with the smallest handle, the first in the ordered map, and keeps the thread invariant. |
| ThreadEnv.ThreadEnvironment.Teardown | pothos-library/lib/Framework/ThreadEnvironment.cpp:17-24 | The destructor unregisters every task, leaving no tasks and no threads. The signature grows by the number of tasks. |
| ThreadEnv.WakeAllBusyTasks | pothos-library/lib/Framework/ThreadEnvironment.cpp:101-119 | The loop wakes exactly the busy tasks other than the caller, in map order, and leaves every flag as it found it. |
| ThreadEnv.BusyTasksExact | pothos-library/lib/Framework/ThreadEnvironment.cpp:104-112 | A task is woken iff it is in the map, is not the caller, and its flag was already set. |
| ThreadEnv.Refresh | pothos-library/lib/Framework/ThreadEnvironment.cpp:150-157 | On a signature change the worker takes a new snapshot, resets the cursor to the end and sets the fail count to 0. Otherwise it keeps its state. |
| ThreadEnv.PoolStep | pothos-library/lib/Framework/ThreadEnvironment.cpp:147-179 | A worker stops iff its index is at least the snapshot size. Otherwise it advances the cursor with wrap-around, tries the task under it, and runs it iff the acquire succeeded. |
| ThreadEnv.PoolStepFailCount | pothos-library/lib/Framework/ThreadEnvironment.cpp:164-177 | `waitOnce` holds iff wait mode is on and the fail count is at least the snapshot size. A productive or waiting run resets the count; an unproductive run or a failed acquire increments it. Others are woken iff the run was productive in wait mode. |
| ThreadEnv.PoolStepRefreshes | pothos-library/lib/Framework/ThreadEnvironment.cpp:150-164 | After a signature change the worker tries the first task of the new snapshot with a fresh fail count. |
| ThreadEnv.RunRoundRobin | pothos-library/lib/Framework/ThreadEnvironment.cpp:147-179 | A thread whose index is beyond the snapshot makes no attempt; any other makes one attempt per outcome, visiting the snapshot's tasks round robin from its cursor, and runs exactly the tasks whose flag it acquired. |
| ThreadEnv.NoWaitBeforeFullSweep | pothos-library/lib/Framework/ThreadEnvironment.cpp:121-177 | Fairness: no attempt waits in a task before the worker has failed once for every task in its snapshot. |
| ThreadEnv.SingleStep | pothos-library/lib/Framework/ThreadEnvironment.cpp:189-205 | A dedicated thread stops iff its handle is gone from its latest snapshot. Otherwise it runs its task, waiting in it iff wait mode is on. |
| NetSink.InputPort.PopMessage | pothos-blocks/network/NetworkSink.cpp:116 | Popping takes the first message and counts it in `totalMessages`. |
| NetSink.InputPort.RemoveFirstLabel | pothos-blocks/network/NetworkSink.cpp:128 | Removing the first label drops it from the list. |
| NetSink.InputPort.Consume | pothos-blocks/network/NetworkSink.cpp:147 | Consuming records the elements consumed. |
| NetSink.MessagePacketsAt | pothos-blocks/network/NetworkSink.cpp:113-118 | The k-th message packet carries the k-th message and the message total counted after its pop. |
| NetSink.LabelPacketsAt | pothos-blocks/network/NetworkSink.cpp:121-129 | The k-th label packet carries the k-th label with index `label.index + totalElements()`, wrapping at 2^64. |
| NetSink.BufferPackets | pothos-blocks/network/NetworkSink.cpp:132-148 | An empty buffer sends nothing. Otherwise a dtype packet goes first iff the dtype differs from the memo, and the cycle ends with a buffer packet carrying `totalElements()`. |
| NetSink.CycleRanks | pothos-blocks/network/NetworkSink.cpp:113-148 | Within one cycle the packets are ordered messages, labels, dtype, buffer. |
| NetSink.CycleCounts | pothos-blocks/network/NetworkSink.cpp:113-148 | One cycle sends one packet per message and per label, one buffer packet iff the buffer is non-empty, and one dtype packet iff it is non-empty with a changed dtype. |
| NetSink.CycleShape | pothos-blocks/network/NetworkSink.cpp:113-148 | The send log of a cycle has the shape M* L* D? B?, with D only if B, and the counts above. |
| NetSink.DtypeSentOnce | pothos-blocks/network/NetworkSink.cpp:136-142 | No dtype packet is sent while the buffer's dtype equals the memo. |
| NetSink.NetworkSink.constructor | pothos-blocks/network/NetworkSink.cpp:47-54 | A new sink has sent nothing. |
| NetSink.NetworkSink.Work | pothos-blocks/network/NetworkSink.cpp:102-149 | When not ready, `work` only yields. When ready, it appends exactly one cycle's packets to the log and empties the message queue and the label list. It updates the dtype memo iff a buffer was sent, and consumes all available elements iff the buffer is non-empty. |
| NetSink.NetworkSink.SendCycle | pothos-blocks/network/NetworkSink.cpp:110-148 | The three loops together append the cycle's packets and leave the port drained. |
| NetSink.NetworkSink.SendMessages | pothos-blocks/network/NetworkSink.cpp:113-118 | The message loop sends every pending message in order and leaves the queue empty. |
| NetSink.NetworkSink.SendLabels | pothos-blocks/network/NetworkSink.cpp:121-129 | The label loop sends every label, re-indexed by the consumed total, and leaves no label. |
| NetSink.NetworkSink.SendBuffer | pothos-blocks/network/NetworkSink.cpp:131-148 | The buffer step sends the dtype change and the buffer, updates the memo and consumes the elements, all only for a non-empty buffer. |
| NetSink.MessagePacketsSnoc | pothos-blocks/network/NetworkSink.cpp:113-118 | One more message adds one packet at the end of the message packets. |
| NetSink.LabelPacketsSnoc | pothos-blocks/network/NetworkSink.cpp:121-129 | One more label adds one packet at the end of the label packets. |
| Blocks.OutputPort.PostLabel | pothos-library/lib/Framework/Block.cpp:67 | Posting a label appends it to the output's labels and changes nothing else. |
| Blocks.OutputPort.PostMessage | pothos-library/lib/Framework/Block.cpp:115 | Posting a message appends it to the output's messages and changes nothing else. |
| Blocks.Rebase | pothos-library/lib/Framework/Block.cpp:64-66 | A propagated label keeps its data. Its new index plus the consumed total equals the old index plus the produced total modulo 2^64, exactly so when no wrap occurs. |
| Blocks.RebaseAll | pothos-library/lib/Framework/Block.cpp:61-68 | Every input label is rebased, in order. |
| Blocks.RebaseKeepsOffsets | pothos-library/lib/Framework/Block.cpp:56-68 | When labels lie within the consumed elements, each keeps its distance from the end of the stream and their relative order. |
| Blocks.PropagateLabels | pothos-library/lib/Framework/Block.cpp:54-70 | Every output receives all input labels, in order, rebased against its own produced total; nothing else on the outputs changes. |
| Blocks.CallHandler | pothos-library/lib/Framework/Block.cpp:118-126 | An unregistered name is a `BlockCallNotFound` error; a registered one calls the stored callable. |
| Blocks.CallAfterRegister | pothos-library/lib/Framework/Block.cpp:92-126 | After registration the name calls the new callable and other names call what they called before. |
| Blocks.NatToString | pothos-library/lib/Framework/Block.cpp:77-90 | `to_string` of an index is a non-empty digit string without leading zero. |
| Blocks.ParseNatToString | pothos-library/lib/Framework/Block.cpp:77-90 | Reading the decimal digits of `to_string(n)` gives back `n`. |
| Blocks.NatToStringInjective | pothos-library/lib/Framework/Block.cpp:77-90 | Distinct indices name distinct ports. |
| Blocks.Block.constructor | pothos-library/lib/Framework/Block.cpp:21-26 | A new block has no calls, slots, ports or sent calls. |
| Blocks.Block.RegisterCallable | pothos-library/lib/Framework/Block.cpp:92-96 | Registration stores or overwrites the callable under its name, and registers a slot iff the callable takes arguments. |
| Blocks.Block.RegisterSlot | pothos-library/lib/Framework/Block.cpp:103-106 | A slot name is added. |
| Blocks.Block.OpaqueCall | pothos-library/lib/Framework/Block.cpp:128-147 | The call checks the name before sending. An unregistered name fails and sends nothing; a registered one sends one call and returns the callable's result. |
| Blocks.Block.EmitSignalArgs | pothos-library/lib/Framework/Block.cpp:108-116 | Emission fails iff the name is no output or no signal. Otherwise exactly one message with the arguments is posted to it. |
| Blocks.Block.SetupInput | pothos-library/lib/Framework/Block.cpp:72-75 | The named input is allocated with its dtype and domain. |
| Blocks.Block.SetupInputIndex | pothos-library/lib/Framework/Block.cpp:77-80 | The numeric overload allocates the input named by `to_string(index)`. |
| Blocks.Block.SetupOutput | pothos-library/lib/Framework/Block.cpp:82-85 | The named output is allocated with its dtype and domain. |
| Blocks.Block.SetupOutputIndex | pothos-library/lib/Framework/Block.cpp:87-90 | The numeric overload allocates the output named by `to_string(index)`. |
| Blocks.Block.Yield | pothos-library/lib/Framework/Block.cpp:149-152 | `yield` sets `workBump` and nothing else. |
| Blocks.FrameworkCache.GetGlobalFramework | pothos-library/lib/Framework/Block.cpp:9-16 | The cached framework is returned while alive; otherwise a new one is created. The caller becomes one more holder, and the cache always refers to the returned framework. |
| Blocks.FrameworkCache.Drop | pothos-library/lib/Framework/Block.cpp:28-37 | A destroyed block gives up its hold on the framework and leaves the cache alone. |
| RefCount.SpCountedBase.constructor | pothos-serialization/include/Pothos/serialization/impl/smart_ptr/detail/sp_counted_base_w32.hpp:49-51 | A new count block has use count 1, weak count 1 and no weak holder. |
| RefCount.SpCountedBase.AddRefCopy | pothos-serialization/include/Pothos/serialization/impl/smart_ptr/detail/sp_counted_base_w32.hpp:72-75 | The use count grows by one; the invariant is kept. |
| RefCount.SpCountedBase.AddRefLock | pothos-serialization/include/Pothos/serialization/impl/smart_ptr/detail/sp_counted_base_w32.hpp:77-97 | Locking fails and changes nothing iff the use count is 0; otherwise it adds one shared owner. |
| RefCount.SpCountedBase.Release | pothos-serialization/include/Pothos/serialization/impl/smart_ptr/detail/sp_counted_base_w32.hpp:99-106 | The use count drops by one. The last release disposes once and drops the shared owners' weak reference, destroying the block when no weak holder remains. |
| RefCount.SpCountedBase.WeakAddRef | pothos-serialization/include/Pothos/serialization/impl/smart_ptr/detail/sp_counted_base_w32.hpp:108-111 | Only the weak count grows. |
| RefCount.SpCountedBase.WeakRelease | pothos-serialization/include/Pothos/serialization/impl/smart_ptr/detail/sp_counted_base_w32.hpp:113-119 | The weak count drops by one. Destroy happens exactly when it reaches 0, after dispose. |
| RefCount.SpCountedBase.DecrementWeak | pothos-serialization/include/Pothos/serialization/impl/smart_ptr/detail/sp_counted_base_w32.hpp:113-119 | The decrement shared by `release` and `weak_release` restores the invariant `weak = #weak + (#shared != 0)`. |
| RefCount.SpCountedBase.UseCount | pothos-serialization/include/Pothos/serialization/impl/smart_ptr/detail/sp_counted_base_w32.hpp:121-124 | The shared count is never negative and is 0 exactly when dispose has run. |
| HostList.FirstOccurrencesMembers | pothos-gui/HostExplorer/HostSelectionTable.cpp:65-69 | De-duplication keeps exactly the elements of the input. |
| HostList.FirstOccurrencesHead | pothos-gui/HostExplorer/HostSelectionTable.cpp:65-69 | De-duplication keeps the first element first. |
| HostList.FirstOccurrencesNoDups | pothos-gui/HostExplorer/HostSelectionTable.cpp:65-69 | De-duplication leaves no duplicates. |
| HostList.FirstOccurrencesSnoc | pothos-gui/HostExplorer/HostSelectionTable.cpp:66-69 | An element appended at the end survives iff it did not occur before. |
| HostList.AppendNewIsFirstOccurrences | pothos-gui/HostExplorer/HostSelectionTable.cpp:65-69 | The accumulating loop computes the first occurrences of the list, in order. |
| HostList.AppendNewFresh | pothos-gui/HostExplorer/HostSelectionTable.cpp:65-69 | A list that already has no duplicates passes through the loop unchanged. |
| HostList.GetHostUriList | pothos-gui/HostExplorer/HostSelectionTable.cpp:59-71 | The host list is never empty and starts with `tcp://localhost`. |
| HostList.GetHostUriListIsFirstOccurrences | pothos-gui/HostExplorer/HostSelectionTable.cpp:61-70 | The host list is the first occurrences of `tcp://localhost` followed by the stored list. |
| HostList.GetHostUriListContents | pothos-gui/HostExplorer/HostSelectionTable.cpp:61-70 | The host list has no duplicates. It holds exactly `tcp://localhost` and the stored URIs. |
| HostList.ListedIsStable | pothos-gui/HostExplorer/HostSelectionTable.cpp:61-70 | A stored list that already starts with `tcp://localhost` and has no duplicates reads back unchanged. |
| HostList.ReadBackIsIdempotent | pothos-gui/HostExplorer/HostSelectionTable.cpp:59-76 | Storing the host list and reading it back gives the same list. |
| HostList.AddAppends | pothos-gui/HostExplorer/HostSelectionTable.cpp:222-229 | Appending a new URI and storing the list makes it the last entry of the next read. |
| HostList.RemoveFirst | pothos-gui/HostExplorer/HostSelectionTable.cpp:207 | Erasing a present URI shortens the list by one. |
| HostList.RemoveFirstCount | pothos-gui/HostExplorer/HostSelectionTable.cpp:207 | Erasing removes exactly one occurrence. |
| HostList.RemoveFirstNoDups | pothos-gui/HostExplorer/HostSelectionTable.cpp:207 | Erasing from a duplicate-free list leaves exactly the other URIs, still duplicate-free. |
| HostList.RemoveEffect | pothos-gui/HostExplorer/HostSelectionTable.cpp:59-208 | After removing a listed URI, the next read is the list with that URI erased. Removing `tcp://localhost` has no visible effect, because every read puts it back first. |
| HostList.NeedsReloadIff | pothos-gui/HostExplorer/HostSelectionTable.cpp:248-255 | For a duplicate-free list, the change test fires iff the row map's keys differ from the listed URIs. |
| HostList.DistinctCount | pothos-gui/HostExplorer/HostSelectionTable.cpp:250 | A duplicate-free list has as many distinct URIs as entries, so comparing sizes is meaningful. |
| HostList.RowsStep | pothos-gui/HostExplorer/HostSelectionTable.cpp:305-314 | Giving the next listed URI the next row extends the row map by one correct entry. |
| HostList.RowsComplete | pothos-gui/HostExplorer/HostSelectionTable.cpp:299-316 | Once every listed URI has its row, the map follows the list and the change test is quiet. |
| HostList.HostSelectionTable.constructor | pothos-gui/HostExplorer/HostSelectionTable.cpp:151-182 | A new table holds the entry row plus one row per listed URI, each URI on row index + 1. |
| HostList.HostSelectionTable.HostUriList | pothos-gui/HostExplorer/HostSelectionTable.cpp:184-187 | The table's list starts with `tcp://localhost`, has no duplicates, and holds exactly that URI and the stored ones. |
| HostList.HostSelectionTable.ReloadTable | pothos-gui/HostExplorer/HostSelectionTable.cpp:299-318 | The rebuilt row map gives the i-th listed URI row i + 1 and covers exactly the list; the row count is the list length plus the entry row. |
| HostList.HostSelectionTable.HandleUpdateStatus | pothos-gui/HostExplorer/HostSelectionTable.cpp:244-265 | The table is rebuilt iff the change test fires. Otherwise the rows are left alone. |
| HostList.HostSelectionTable.HandleAdd | pothos-gui/HostExplorer/HostSelectionTable.cpp:218-237 | Adding a listed URI reports "already exists" and changes nothing. Adding a new URI appends it to the stored list, rebuilds the rows and signals a change. |
| HostList.HostSelectionTable.HandleRemove | pothos-gui/HostExplorer/HostSelectionTable.cpp:202-216 | Removal stores the list with the first occurrence erased, rebuilds the rows and signals a change. Removing `tcp://localhost` leaves the visible list as it was. |
| HostList.HostUriLineEdit.constructor | pothos-gui/HostExplorer/HostSelectionTable.cpp:85-93 | A new entry box is empty and has emitted nothing. |
| HostList.HostUriLineEdit.HandleReturnPressed | pothos-gui/HostExplorer/HostSelectionTable.cpp:103-109 | Empty text and `"tcp://"` emit nothing. Any other text is emitted once and the box is cleared. |

## Left out

- `SerializeCommon.hpp` is not part of this model. `padUp32` is taken as rounding up to a multiple of 4. `MAX_PKT_BYTES` and `VEND` are arbitrary constants. `MIN_PKT_BYTES` is assumed to be at least 24, because `unpackBuffer` reads the first six words of the accumulator unconditionally. `VITA_TSF`, `VITA_SID` and `VITA_EXT` are assumed to be distinct single bits among the non-reserved bits 20-31 of the VITA header.
- `Serializer.cpp` is not part of this model. `Frames.Encode` is an independent reference layout of a packet, written from what the decoder reads. The packet count is encoded as `seq12 & 0x4`, the value the check at `Deserializer.cpp:100` compares.
- `Frames.DeframeGarbled` covers garbage that holds no magic. Garbage that does hold the magic can be taken for a packet header by the recovery search, in the source as in the model, so no general statement is made about it.
- `Deframer.UnpackBufferChecks` models the sequence check exactly as written, comparing `seq12 & 0x4`, not the low nibble, with the count field.
- The debug `assert`s of `Deserializer.cpp` (lines 86, 89, 147, 150, 185) are not checks in the model. For example, a buffer packet without a timestamp is delivered with whatever words 4-5 hold, as in a release build.
- `Pothos::Object` serialization and deserialization are opaque. A message payload is passed on as its bytes. Extracting a label is a function parameter, and a payload that holds no label is refused as `NotALabel`. A malformed object stream is not distinguished further.
- `BufferChunk::append` is concatenation of the accumulated and incoming bytes. Buffer sharing, zero-copy windows and the release of an empty accumulator are modelled only as the window bounds and the reset to an empty buffer.
- `Deframer.Deserializer.Work`: the loop uses the corrected inspection and unpacking (see Findings). The as-written versions are modelled separately as `Deframer.InspectPacket` and `Deframer.UnpackBuffer`, with the inputs on which they differ.
- Threads, mutexes, atomic flags and their memory order, `std::thread` joins and the sleep-poll on `data.unique()` in `ThreadEnvironment.cpp` are not modelled. Registration is a sequential state change. Acquire and task results are supplied as inputs to the step functions, and `wake` calls are a ghost log. `applyThreadConfig` (priority, affinity, logging) is left out.
- `ThreadEnv.ThreadEnvironment.Teardown` states the final state of the destructor. It does not list the wake calls of each `unregisterTask` it makes.
- The socket endpoint, `isReady`, the sleep before `yield`, `handleState`, `activate` and `deactivate` of `NetworkSink.cpp` are left out. The endpoint is a log of `(type, index, payload)` packets, and readiness is a parameter of `Work`.
- Theron actor messaging is left out: the `Block` destructor's shutdown handshake and the send and wait of `opaqueCall`. `opaqueCall` is modelled as a lookup plus a recorded call whose result is the callable's. The `ManagedClass` reflection registrations, `getWorkerStats`, `registerSignal` and the port container helpers are left out as well.
- `sp_counted_base`'s interlocked operations are plain updates, and the compare-exchange retry loop of `add_ref_lock` is a single decision. `dispose` and `destroy` are ghost events, and `get_deleter` is left out. Counter overflow of `long` is not modelled.
- `RefCount.SpCountedBase.UseCount` reads the shared count but requires the invariant, which the source does not demand of its callers.
- `HostSelectionTable.cpp`: remote node queries (`NodeInfo::update`), timers, futures, tool tips, widgets, `reloadRows` and `handleCellClicked` are left out. Settings storage is the stored list, and error messages are a log of strings.
- `HostList.HostSelectionTable.HandleRemove` requires the URI to be listed. The source would erase through an end iterator otherwise, and its remove buttons exist only for listed URIs.

## Findings

| source | as written | input that shows it | evidently intended | confidence | as-written member | corrected member |
|---|---|---|---|---|---|---|
| pothos-blocks/serialize/Deserializer.cpp:68-72 | A declared length of 0 is not a fragment, and the end word is read at index `padUp32(0)/4 - 1`, one word before the packet. | The magic followed by a word whose low 20 bits are 0, in an accumulator of at least `MIN_PKT_BYTES`. | A declared length too short to hold a packet is refused without reading. | not executed | Findings.ZeroLengthReadsBeforeStart | Deframer.InspectPacketChecked |
| pothos-blocks/serialize/Deserializer.cpp:69-72 | The fragment test compares the unpadded length with the window, yet the end word is read from the padded packet. When the declared bytes have arrived but the padding has not, the read lies past the window. | A packet whose payload length is not a multiple of 4, cut right after its declared length. | Such a packet is a fragment until its padded length has arrived. | not executed | Findings.PaddingNotArrived | Deframer.InspectPacketChecked |
| pothos-blocks/serialize/Deserializer.cpp:121-124 | The payload length `pkt_bytes - hdr_words32*4 - 4` wraps around in `size_t` when the declared length is shorter than header plus end word. Every earlier check still passes. | The 24-byte packet of `Findings.UnderflowPacket`: it declares 17 bytes, has no timestamp, word count 2 and `VEND` in word 4, giving payload length 2^64 - 3. | A packet too short for its own header is refused. | not executed | Findings.PayloadUnderflowExample | Deframer.UnpackBufferChecked |
