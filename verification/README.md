# Verified model of the mpshell traffic tools

A Dafny model of the parts of mpshell that carry its hard guarantees, with proofs.

**The HTTP parsers.** A proxy feeds arbitrary TCP segments to a pipelined message parser
(`SequenceSpec`), which finds the length of each body by the rules of section 4.4 of RFC 2616
(`MessageSpec`, `MessageLength`) and, for chunked bodies, runs a second buffered state machine with its own counters
(`ChunkedSpec`). The main results are that segmentation does not matter, that the parsers accept
exactly a declarative grammar (`ChunkedGrammar`, `SequenceGrammar`, `SequenceSoundness`), and that
printing and parsing invert each other. `SequenceThreshold` gives the exact byte bound of the first,
`SequenceErrors` the streams that are rejected.

**The link emulator.** A delivery trace gives opportunities of 1504 bytes each (`LinkSpec`); behind the
link sits one of five queue disciplines (`Disciplines`, `Packets`, `CoDelSpec`, `PieSpec`). The main
results are the closed form of the nested loops (`LinkFluid`), conservation and causality in every run
(`LinkRuns`), order across the whole link (`LinkOrder`), when empty packets fail it (`LinkEmpty`), the
agreement with the older cell emulator (`CellSpec`), CoDel against RFC 8289 and its
whole-run invariants (`CoDelRfc`, `CoDelRuns`, `CoDelThreshold`), and PIE's simulated timer and
controller (`PieSpec`, `PieRuns`, `PieLaw`).

**Two small algorithms.** The ring buffer between file descriptors (`ByteStreams`) and the longest
common substring that picks a recorded request (`ClosestMatch`).

Each object of the source that updates its fields is a class (`ChunkedParser`, `HttpMessages`,
`HttpMessageSequences`, `PacketQueues`, `CoDelQueues`, `PieQueues`, `LinkQueues`, `CellQueues`,
`ByteStreams`). Its methods are proved against functions on values, and the results are proved about
those functions. A thrown exception or a failed assertion is a `None`, `Error` or `Fail` result; such a
result is absorbing. Clock readings and the random draw are parameters.

Where the code differs from what its comments, names or standards say, the model follows the code:

- A chunk size of 2^32-2 or more makes `current_chunk_size_ + 2` wrap, and segmentation then matters
  (`SplittingThreshold` and `ParseSplitThreshold` give the exact bound).
- With trailers enabled the parser looks for an empty line after the last-chunk line, so an empty
  trailer section is not recognised; without a `Trailer` header a trailer section is cut short
  (`RfcTrailersExactly`).
- A header value of only spaces is kept as it is and gains a space each time it is printed
  (`HeaderRoundTrip`, `ReprintExactly`).
- Drophead's loop calls a dequeue whose assertion fails when a second packet would have to go
  (`DropHeadExactly`).
- CoDel delivers the first of the packets it takes and discards the later ones; the RFC drops the
  earlier ones (`DeliversExactly`, `AnotherPacket`). `16 * interval_` wraps in 32 bits, which changes runs
  with an interval of 2^28 ms or more (`IntervalThreshold`).
- PIE's comment says the late updates equal those of a timer. On enqueue they do; on dequeue they come
  after the packet has left (`TimerThreshold`).
- An empty packet passes the size check of `read_packet` and fails an assertion when it is sent
  (`ServeFailsExactly`, `EmptyPacketAborts`).
- `wait_time` returns its 64-bit difference as an `unsigned int` (`WaitTime`).

## Model

| member | source | states |
|---|---|---|
| Text.AtoiNumeral | ezio.cc:57-75 | reading back the usual numeral of n, in any base from 2 to 16, gives n exactly when n fits a `long`, and an exception otherwise |
| Text.AtoiExactly | ezio.cc:57-75 | in any base up to 16, exactly the numerals, with letter digits in either case, of numbers within the range of `long` are accepted, with that number |
| Tokenize.TokensUnique | tokenize.hh:9-38 | the tokens of a string are the only separator-free pieces that join back to it |
| Tokenize.Separators | tokenize.hh:11-17 | the first pass finds all separator offsets, in order |
| Tokenize.Split | tokenize.hh:9-38 | both passes: the result joins back to the input and no piece contains the separator |
| HttpHeader.HeaderRoundTrip | http_header.cc:13-35 | `str()` then the constructor returns the same header if and only if the key has no colon and the value starts with a non-space |
| HttpHeader.ParsedHeader | http_header.cc:18-35 | a parsed line is key, colon, spaces, value, with no colon in the key |
| HttpHeader.ReprintedHeader | http_header.cc:26-35 | a parsed header survives being printed and parsed again if and only if its value is not only spaces |
| HttpHeader.EquivalentExactly | http_message.cc:112-128 | two names are the same exactly if, after leading spaces, they have equal lengths and at each place the same byte or the two cases of one letter |
| HttpHeader.LookupExactly | http_message.cc:130-152 | the lookup gives the value of the first header with the name, and nothing exactly if there is none |
| ChunkedSpec.LoopSafe | chunked_parser.cc:31-98 | from any point inside a call: an answer is positive and at most the segment, what stays buffered is not a complete unit, and the acknowledgement assertion cannot fail |
| ChunkedSpec.ReadSafe | chunked_parser.cc:105-120 | the same for a whole call: `parsed_so_far_ > acked_so_far_` holds whenever it is asserted |
| ChunkedSpec.StepAppend | chunked_parser.cc:35-93 | appending input never changes a turn the state machine could already make |
| ChunkedSpec.LoopAppend | chunked_parser.cc:31-98 | running the loop on a longer buffer is running it on the prefix and then reading the rest |
| ChunkedSpec.ReadAppend | chunked_parser.cc:31-120 | reading x + y is reading x and then y: same state down to the counters, same total, same error |
| ChunkedSpec.WideChunkDiffers | chunked_parser.cc:58-67 | a chunk of size 2^32-2, whose size + 2 wraps to 0, is rejected when its first byte comes alone and accepted in one piece |
| ChunkedSpec.SplittingThreshold | chunked_parser.cc:31-120 | segmentation never matters for up to n buffered and incoming bytes if and only if n < 2^32 |
| ChunkedGrammar.DecodeInvertsEncode | chunked_parser.cc:31-120 | for every encoded body, whatever follows it, under every segmentation: the `npos` lengths plus the final answer are exactly the encoded length |
| ChunkedGrammar.ConsumedIsRead | chunked_parser.cc:31-120 | the bytes handed over segment by segment are those of one call, for any stream without chunk sizes of 2^32-2 or more |
| ChunkedGrammar.BodyRead | chunked_parser.cc:35-93 | from a chunk boundary the loop stops at the end of an encoded body if and only if its tail ends at its first terminator |
| ChunkedGrammar.BodySound | chunked_parser.cc:35-93 | whatever is accepted from a chunk boundary, without a chunk of 2^32-2 bytes or more, is a list of chunks, a last-chunk line and a tail |
| ChunkedGrammar.AcceptsExactly | chunked_parser.cc:31-120 | the parser reports n bytes, without coming to a chunk of 2^32-2 bytes or more, if and only if the first n bytes are an encoded body; on less than 2^32 bytes it cannot accept such a chunk |
| ChunkedGrammar.BlankLineAt | chunked_parser.cc:77-81 | CRLF CRLF first occurs at the end of a nonempty trailer section |
| ChunkedGrammar.RfcTrailersExactly | chunked_parser.cc:76-88 | a body with the trailer section of section 3.6.1 of RFC 2616 is read to its exact end if and only if trailers are enabled just when there is a trailer line |
| ChunkedGrammar.PlainEncoding | chunked_parser.cc:8-29 | the size in hexadecimal, with or without an extension, is read as that size |
| ChunkedGrammar.SizeLineExactly | chunked_parser.cc:8-29 | a chunk header is read exactly if it is hexadecimal digits of either case, then possibly a space and anything up to an extension that starts with ';', and the number fits a `long`; its size is that number modulo 2^32 |
| ChunkedParser.ChunkedBodyParser.constructor | chunked_parser.hh:16-29 | a new parser is at the start of a body |
| ChunkedParser.ChunkedBodyParser.Read | chunked_parser.cc:31-98 | the loop over the object's own buffer and counters has the answer and the final state of the specification |
| ChunkedParser.ChunkedBodyParser.ComputeAckSize | chunked_parser.cc:105-120 | the answer and both counters for a needle found or not found |
| MessageSpec.ReadInBodySafe | http_message.cc:38-59 | reading in the body never fails a size assertion, never claims more than it was given, appends exactly what it claims, and takes everything unless the message is then complete |
| MessageLength.StatusLineExactly | http_response.cc:13-22 | a line has a status code exactly if it is a version, a space, the code, a space and a reason, the first two without spaces |
| MessageLength.ResponseBody | http_response.cc:24-66 | the body of a response, rule by rule: none for a code that starts with 1, for 204, 304 and after HEAD, whatever the headers say; else an encoded body if the last transfer coding is chunked, with trailers just when announced; else Content-Length bytes if there is no transfer coding; else all up to the end of input, or the exception for a missing number and for an empty or multipart/byteranges type |
| MessageLength.ResponseRead | http_response.cc:24-66 | a response with just that body is parsed into it, whatever follows |
| MessageLength.ResponseRejectedParse | http_response.cc:13-58 | a response without a status code, or which the rules reject, is an exception whatever follows its headers |
| MessageLength.RequestRejectedParse | http_request.cc:9-25 | a request that is not GET, HEAD or POST, or a POST without a readable Content-Length, is an exception whatever follows its headers |
| HttpMessages.HttpMessage.SetFirstLine | http_message.cc:10-15 | stores the line and moves to the headers |
| HttpMessages.HttpMessage.AddHeader | http_message.cc:17-21 | appends the parsed header, or reports the exception |
| HttpMessages.HttpMessage.DoneWithHeaders | http_message.cc:23-29 | starts the body with the framing the rules prescribe, or reports the exception |
| HttpMessages.HttpMessage.CalculateRequestBodySize | http_request.cc:9-25 | the body size of a request is known, or an exception is reported |
| HttpMessages.HttpMessage.CalculateResponseBodySize | http_response.cc:24-66 | the rules of section 4.4 of RFC 2616 in order, with a fresh chunked parser for rule 2 |
| HttpMessages.HttpMessage.CalculateSizeByHeaders | http_response.cc:37-65 | rules 2 to 5 |
| HttpMessages.HttpMessage.ReadInBody | http_message.cc:38-59 | the answer and the whole new state of the message |
| HttpMessages.HttpMessage.ReadInComplexBody | http_response.cc:68-84 | the same for a body whose size is not known in advance, including its chunked parser |
| HttpMessages.HttpMessage.Eof | http_message.cc:61-77 | end of input completes exactly a response whose length was not known in advance |
| HttpMessages.HttpMessage.EquivalentStrings | http_message.cc:112-128 | the loop decides equality of the lower-cased strings after leading spaces |
| HttpMessages.HttpMessage.GetHeaderValue | http_message.cc:142-152 | the loop finds the first equivalent header, or reports the exception |
| HttpMessages.HttpMessage.HasHeader | http_message.cc:130-140 | whether a header with an equivalent name exists |
| SequenceSpec.StepDecreases | http_message_sequence.hh:92-137 | every turn that asks for another shortens the buffer or lowers the rank BODY_PENDING > COMPLETE > the rest, so `parse` terminates |
| SequenceSpec.StepSound | http_message_sequence.hh:92-137 | a turn keeps the message rules, finished messages stay, and a turn that stops leaves no complete message and no unread body byte |
| SequenceSpec.ParseSound | http_message_sequence.hh:139-151 | after every call the message in progress is not complete, so the assertion in `eof` is unreachable, and pending bytes never exceed those received |
| SequenceSpec.ReadInBodyAppend | http_message.cc:38-59 | reading in x + y is reading in x and then y, for all three kinds of body, unless a chunk size of 2^32-2 or more wraps |
| SequenceSpec.RunFeed | http_message_sequence.hh:149-150 | running on a longer buffer is running on the prefix and then on what is left plus the rest |
| SequenceSpec.ParseSplit | http_message_sequence.hh:139-151 | `parse(a); parse(b)` ends in exactly the state, or error, of `parse(a + b)`, when fewer than 2^32 bytes are pending or the input announces no chunk of 2^32-2 bytes or more |
| SequenceSpec.NoWideChunkAll | http_message_sequence.hh:139-151 | a stream in which no chunk of 2^32-2 bytes or more is announced can be cut anywhere, whatever its length |
| SequenceSpec.StreamIsBytes | http_message_sequence.hh:139-151 | every segmentation gives what feeding single bytes gives |
| SequenceSpec.SegmentationIndependence | http_message_sequence.hh:139-151 | any two segmentations of a stream end in the same finished messages, the same message in progress down to its chunk parser, or the same error, under the condition of ParseSplit at each call |
| SequenceThreshold.WideResponseDiffers | http_message_sequence.hh:139-151 | after a response header and a size line of FFFFFFFE, 2^32 bytes are accepted in one call and rejected when the first of them comes alone |
| SequenceThreshold.ParseSplitThreshold | http_message_sequence.hh:139-151 | with up to n bytes pending and arriving it never matters where a call is cut if and only if n is below 2^32 |
| SequenceGrammar.MessageRead | http_message_sequence.hh:92-137 | a well-formed message at a boundary is taken off the buffer whole, and no byte more |
| SequenceGrammar.PipelineParse | http_message_sequence.hh:139-151 | back-to-back well-formed messages are parsed into exactly that list, with an empty buffer and a first line pending |
| SequenceGrammar.PipelineAnySegmentation | http_message_sequence.hh:139-151 | the same however the stream is cut into nonempty segments, chunked bodies included and of any length |
| SequenceGrammar.UntilCloseParse | http_response.cc:60-94 | a response whose length nothing announces, or whose chunks break off, is finished by the end of input, with everything received as its body, after any pipelined messages before it |
| SequenceSoundness.FirstMessageSound | http_message_sequence.hh:92-137 | if a run finishes a message, the buffer begins with a well-formed text of one, unless it announces a chunk whose size wraps |
| SequenceSoundness.StreamSound | http_message_sequence.hh:92-151 | the finished messages of any run are exactly the well-formed messages the stream begins with, in order, and what is left finishes none; for streams of any length without a chunk of 2^32-2 bytes or more |
| SequenceSoundness.ResponsesMatchRequests | http_response_parser.cc:12-29 | whatever arrives, in whatever segments, with the end of input and new requests at any point: the i-th finished response carries the HEAD flag of the i-th request, and then has an empty body |
| SequenceSoundness.ResponsesMatchHeads | http_response_parser.cc:12-29 | the same for parsing segment after segment with all requests known beforehand |
| SequenceSoundness.PrintParse | http_message.cc:155-174 | parsing the concatenated `str()` of finished messages yields exactly those messages, for requests and responses |
| SequenceSoundness.PrintParseToEnd | http_message.cc:61-77 | the same with a last response that only the end of the input finishes, because nothing announces its length or its chunks break off |
| SequenceSoundness.RequestsPrintParse | http_request.cc:9-25 | any list of GET and HEAD requests without bodies and POST requests with as many bytes as Content-Length says, printed back to back, is parsed into exactly that list |
| SequenceSoundness.PrintedText | http_message.cc:155-174 | `str()` is the first line, the header block and the body |
| SequenceSoundness.ReprintExactly | http_message.cc:155-174 | a parsed message, whether its text or the end of the input finished it, printed and parsed again up to the end of the input, comes out the same if and only if none of its header values is only spaces |
| SequenceSoundness.StreamToEndSound | http_message.cc:61-77 | what a stream and its end leave finished are the well-formed messages it begins with, in order, and at most one more, which reaches to the end and which nothing else could finish |
| SequenceErrors.UnexpectedResponse | http_response_parser.cc:12-24 | after any pipeline, a response for which no request is left is an exception |
| SequenceErrors.BadHeaderLine | http_header.cc:18-23 | after any pipeline, a header line without a colon is an exception |
| SequenceErrors.NoLength | http_message_sequence.hh:92-137 | after any pipeline, a message to which the rules give no length is an exception |
| SequenceErrors.CutInHeaders | http_message.cc:61-77 | the end of the input before the end of the headers is an exception |
| SequenceErrors.CutInBody | http_message.cc:61-77 | the end of the input in a body of known length is an exception |
| HttpMessageSequences.HttpMessageSequence.constructor | http_message_sequence.hh:34-53 | a new parser waits for a first line |
| HttpMessageSequences.HttpMessageSequence.NewRequestArrived | http_response_parser.cc:26-29 | appends the HEAD flag and nothing else |
| HttpMessageSequences.HttpMessageSequence.PopLine | http_message_sequence.hh:73-90 | returns the first line and removes it with its CRLF |
| HttpMessageSequences.HttpMessageSequence.ParsingStep | http_message_sequence.hh:92-137 | one turn of the state machine on the objects is one turn of the specification |
| HttpMessageSequences.HttpMessageSequence.FirstLineStep | http_response_parser.cc:12-24 | a first line takes the next HEAD flag of a response, or reports the exception |
| HttpMessageSequences.HttpMessageSequence.HeaderStep | http_message_sequence.hh:106-119 | a header line is added, the blank line ends the headers |
| HttpMessageSequences.HttpMessageSequence.BodyStep | http_message_sequence.hh:121-127 | the buffer loses exactly the bytes the body took |
| HttpMessageSequences.HttpMessageSequence.Parse | http_message_sequence.hh:139-151 | the loop on the objects has the outcome and the final state of the specification |
| Packets.DropTailExactly | drop_tail_packet_queue.hh:20-28 | droptail never fails on a good queue and keeps the packet exactly when `can_accept_one` says there is room |
| Packets.ExcessIsLeast | drop_head_packet_queue.hh:26-28 | the number of packets that must go from the head is the least that leaves a good queue |
| Packets.DropHeadExactly | drop_head_packet_queue.hh:20-29 | drophead keeps the longest good suffix if and only if at most one packet has to go; otherwise the assertion at dropping_packet_queue.cc:32 fails |
| Packets.DropHeadByCount | drop_head_packet_queue.hh:20-29 | with a packet limit only, drophead never fails |
| Packets.DropHeadFails | dropping_packet_queue.cc:22-35 | with a byte limit it can, for a packet that fits the limit |
| PacketQueues.InfinitePacketQueue.Enqueue | infinite_packet_queue.hh:30-35 | appends the packet; counters stay exact |
| PacketQueues.InfinitePacketQueue.Dequeue | infinite_packet_queue.hh:37-48 | takes the front packet; counters stay exact |
| PacketQueues.DroppingPacketQueue.Dequeue | dropping_packet_queue.cc:22-35 | takes the front packet, and reports the assertions |
| PacketQueues.DroppingPacketQueue.Accept | dropping_packet_queue.cc:75-81 | appends the packet; counters stay exact |
| PacketQueues.DroppingPacketQueue.EnqueueDropTail | drop_tail_packet_queue.hh:20-28 | the new contents, or the failed assertion |
| PacketQueues.DroppingPacketQueue.EnqueueDropHead | drop_head_packet_queue.hh:20-29 | the drop loop has the result of the specification, or its failed assertion |
| CoDelSpec.GapIsFloor | codel_packet_queue.cc:56-60 | the drop interval is the greatest d with d*d*count <= interval*interval |
| CoDelSpec.ControlLawExactly | codel_packet_queue.cc:56-60 | for every count, the next drop is at t + e or later if and only if e * e * count is at most the square of the interval |
| CoDelSpec.TurnKeeps | codel_packet_queue.cc:73-81 | a turn of the drop loop finds a packet, keeps the invariant, and never divides by a count of 0 |
| CoDelSpec.EntryIsExact | codel_packet_queue.cc:86-88 | entering the dropping state, neither unsigned subtraction wraps and the new count is positive and not above the old one (or is 1) |
| CoDelSpec.EntryKeeps | codel_packet_queue.cc:83-91 | whenever the dropping state is entered, `drop_next_` is not in the future, and exactly the second packet is discarded |
| CoDelSpec.DequeueKeeps | codel_packet_queue.cc:62-94 | every dequeue of a nonempty queue succeeds, keeps `drop_next_ <= now + interval`, `first_above_time_ >= drop_next_` while not dropping and `lastcount_ <= count_`, and takes packets off the front in order |
| CoDelSpec.EnqueueKeeps | codel_packet_queue.cc:97-104 | enqueue never fails and keeps the invariant |
| CoDelSpec.NeverStarves | codel_packet_queue.cc:62-94 | with packets of at most 1504 bytes a dequeue that discarded anything leaves a packet queued |
| CoDelRfc.CodeRefinesRfc | codel_packet_queue.cc:27-94 | against section 5.5 of RFC 8289, for intervals below 2^28 ms: same queue and same five variables afterwards, same packets taken; the code delivers the first of them, the RFC the last |
| CoDelRfc.NextDropMoves | codel_packet_queue.cc:83-91 | on entering the dropping state `drop_next_` is the interval divided by the square root of the new count after now; it stays while nothing is dropped |
| CoDelRfc.TurnMoves | codel_packet_queue.cc:73-81 | each drop in the loop raises the count by one and moves `drop_next_` on by the interval divided by the square root of that count; the turn that leaves the state moves nothing |
| CoDelRfc.RefinesExactly | codel_packet_queue.cc:62-94 | one dequeue refines the RFC's routine, for any interval, if and only if it does not enter the dropping state, with a count that grew by more than 1, between the wrapped and the true 16 * interval after the last drop was due |
| CoDelRfc.DeliversExactly | codel_packet_queue.cc:62-94 | the code delivers the front packet, the RFC the one as far behind it as packets are discarded; that is another one if and only if the front packet has waited for the target, more than 1504 bytes are behind it, `first_above_time_` has passed, and in the dropping state `drop_next_` has too |
| CoDelThreshold.AnotherPacket | codel_packet_queue.cc:74-93 | for every interval a run after which code and RFC deliver different packets |
| CoDelThreshold.WideIntervalDiffers | codel_packet_queue.cc:87-88 | for every interval of 2^28 ms or more a run that ends in another state than the RFC's |
| CoDelThreshold.IntervalThreshold | codel_packet_queue.cc:87-88 | every run with a given interval refines the RFC's routine if and only if the interval is below 2^28 ms |
| CoDelRuns.EveryRun | codel_packet_queue.cc:27-104 | in every run under a clock that does not go back no assertion fails, the invariant holds, accepted packets are those taken, in order, and those queued, and `first_above_time_`, when set, lies one interval after an inner dequeue since which every one saw the delay at or above target and more than 1504 bytes left |
| CoDelRuns.DropsOnlyOnPersistentDelay | codel_packet_queue.cc:27-94 | in every run, every discard rests on an unbroken above-target history at least one interval long |
| CoDelRuns.RunRefinesRfc | codel_packet_queue.cc:62-104 | every run with an interval below 2^28 ms ends with the queue, the five variables and the number of drops of the RFC's routine |
| CoDelQueues.CoDelPacketQueue.Enqueue | codel_packet_queue.cc:97-104 | the object's new state, or the failed assertion |
| CoDelQueues.CoDelPacketQueue.DoDequeue | codel_packet_queue.cc:27-54 | the object's new state and answer, or the failed assertion |
| CoDelQueues.CoDelPacketQueue.DropWhileDue | codel_packet_queue.cc:73-81 | the drop loop on the object has the result of the specification |
| CoDelQueues.CoDelPacketQueue.Dequeue | codel_packet_queue.cc:62-94 | the packet delivered and the object's whole new state |
| PieSpec.CatchUpIsUpdates | pie_packet_queue.cc:127-189 | a call makes exactly one update for each full period before now |
| PieSpec.CatchUpTwice | pie_packet_queue.cc:131-137 | with the occupancy unchanged, an earlier call makes no difference to a later one |
| PieSpec.OnlyTheLastInstantMatters | pie_packet_queue.cc:131-137 | calls at any nondecreasing instants leave the state of one call at the last |
| PieSpec.CatchUpInBounds | pie_packet_queue.cc:161-186 | `drop_prob_` stays in [0, 1] and `burst_allowance_` at most `max_burst_` |
| PieSpec.EmptyQueueForgetsBy | pie_packet_queue.cc:137-174 | a call that comes 1024 / `qdelay_ref_` periods, rounded up, or more after the last update of an empty queue leaves the drop probability at 0 |
| PieSpec.ControllerDirection | pie_packet_queue.cc:141-174 | the correction never lowers the probability at a high delay that has not fallen, and never raises it at a low one that has not risen |
| PieLaw.ProbExactly | pie_packet_queue.cc:138-174 | the new probability is the old one plus an eighth of the signed distance to the reference and ten eighths of the signed change of the delay, over 128, 32 or 16 by the bands below 0.01 and 0.1, kept within [0, 1] and cut by 2 % when nothing is queued or delayed |
| PieLaw.UpdateExactly | pie_packet_queue.cc:137-186 | every other field after an update: the delays, 30 ms off the burst allowance and on the clock, and the reset of rate, count and allowance with its guard |
| PieLaw.Response | pie_packet_queue.cc:150-159 | one more millisecond of delay moves the probability by 11/8, of reference by -1/8 and of previous delay by -5/4 over the divisor; at the reference with unchanged delay it stays |
| PieSpec.AverageBetween | pie_packet_queue.cc:97-102 | the new departure rate lies between the old one and the sample |
| PieLaw.Counted | pie_packet_queue.cc:86-121 | what a departure adds to the count, when a measurement ends, that its sample replaces an eighth of the rate, and that its time is taken off the burst allowance |
| PieLaw.NotCounted | pie_packet_queue.cc:86-91 | without a count, and with fewer than 16384 bytes left, a departure changes nothing |
| PieLaw.EnqueueExactly | pie_packet_queue.cc:36-78 | a packet is turned away exactly if it does not fit, or two maximal packets are queued, no burst allowance is left, the draw is below the probability, and that is at least 0.2 or the delay before the last was at least half the reference |
| PieLaw.NextArrival | pie_packet_queue.cc:36-78 | so it is for the next arrival of every run |
| PieSpec.DequeueKeeps | pie_packet_queue.cc:80-125 | dequeue is first in, first out, and stays in bounds |
| PieSpec.EnqueueKeeps | pie_packet_queue.cc:36-54 | enqueue never fails and stays within limits and bounds |
| PieRuns.EveryRun | pie_packet_queue.cc:36-125 | in every run no assertion fails, the probability, the burst allowance and the limits stay in bounds, and accepted packets are those taken, in order, and those queued |
| PieRuns.TimerThreshold | pie_packet_queue.cc:131-136 | in every run, a dequeue a given time after the last update comes out as with a real 30 ms timer if and only if no period was missed: the update sees the queue without the packet that just left |
| PieRuns.UnmeasuredAsTimed | pie_packet_queue.cc:80-125 | missed periods make no difference to a dequeue while no departure rate is known, measured or about to be, and the drop probability is 0 |
| PieQueues.PiePacketQueue.CalculateDropProb | pie_packet_queue.cc:127-189 | the loop on the object leaves the state of the specification |
| PieQueues.PiePacketQueue.UpdateOnce | pie_packet_queue.cc:138-186 | one period on the object's fields |
| PieQueues.PiePacketQueue.EstimateRate | pie_packet_queue.cc:85-120 | the rate estimator on the object's fields |
| PieQueues.PiePacketQueue.Enqueue | pie_packet_queue.cc:36-54 | the object's new state, or the failed assertion |
| PieQueues.PiePacketQueue.Dequeue | pie_packet_queue.cc:80-125 | the packet and the object's new state |
| Disciplines.CoDelTakes | codel_packet_queue.cc:62-94 | CoDel's dequeue on a nonempty queue succeeds whatever the clock reads |
| Disciplines.GetKeeps | abstract_packet_queue.hh:10-26 | every discipline's dequeue takes packets off the front in order; only CoDel takes more than it hands over |
| Disciplines.PutKeeps | abstract_packet_queue.hh:10-26 | an enqueue fails only for drophead, exactly when more than one packet has to go, and otherwise leaves the old contents or a suffix of them with the new packet |
| LinkSpec.NthClosedForm | link_queue.cc:170-184 | the schedule position and base time after k opportunities |
| LinkSpec.OpportunityIsNext | link_queue.cc:161-184 | opportunity k falls at base + (k div n) * last + schedule[k mod n]; a trace that does not repeat has n opportunities |
| LinkSpec.OpportunitiesInOrder | link_queue.cc:45-61 | the times of opportunities never decrease |
| LinkSpec.RationalizeUses | link_queue.cc:189-229 | `rationalize(now)` uses, and logs, exactly the opportunities with time at most now, in order |
| LinkSpec.Batching | link_queue.cc:189-229 | `rationalize(a); rationalize(b)` is `rationalize(b)` for a <= b, for every discipline that sees the same readings at the same dequeues |
| LinkFluid.DrainTwice | link_queue.cc:198-227 | draining a and then b bytes is draining a + b bytes, with the same packets finished |
| LinkFluid.ServeIsDrain | link_queue.cc:194-227 | the byte-counting inner loop fails no assertion and sends exactly the first pending bytes of its budget, in order |
| LinkFluid.TurnExactly | link_queue.cc:194-227 | the packet finished at an opportunity is the one whose cumulative bytes, divided by 1504 and rounded up, give its number |
| LinkFluid.BytesSent | link_queue.cc:189-228 | n opportunities with no arrivals between send min(backlog, 1504 n) bytes |
| LinkFluid.ServeAllClosedForm | link_queue.cc:189-229 | n opportunities drain 1504 n bytes and log every finished packet at its own opportunity |
| LinkFluid.RationalizeClosedForm | link_queue.cc:189-229 | `rationalize` in closed form: which packets depart, in which order, and at which times of the trace |
| LinkRuns.ReadPacketKeeps | link_queue.cc:134-159 | an arriving packet keeps conservation and causality; the only assertion that can fail is drophead's own, and it does exactly when, once the link is up to date, more than one packet would have to go |
| LinkRuns.Conservation | link_queue.cc:82-132 | at every point of every run arrivals are departures, recorded drops, queued, in transit and CoDel's unrecorded discards, in packets and in bytes, and the output is the departures in order |
| LinkRuns.FlushWritesAll | link_queue.cc:231-237 | at every point of every run, writing leaves no output and everything departed written, in order |
| LinkRuns.Causality | link_queue.cc:186-229 | in every run, whatever the clock reads: departures are strictly later than arrivals, no assertion of the link fails, and the run aborts if and only if under drophead it comes to an arriving packet for which more than one packet would have to go |
| LinkOrder.FirstInFirstOut | link_queue.cc:134-229 | in every run, for every discipline and whatever the clock reads: departures, then the packet in transit, then the queue are the arrivals in order, without those dropped |
| LinkEmpty.ServeFailsExactly | link_queue.cc:198-228 | for every discipline but CoDel an opportunity fails an assertion if and only if some pending packet is empty, too long or from the future, and fewer bytes than it carries are pending before that packet |
| LinkEmpty.TooLargeExactly | link_queue.cc:134-141 | exactly the packets of more than 1504 bytes are refused |
| LinkEmpty.EmptyPacketAborts | link_queue.cc:134-159 | for every discipline the run of an empty packet's arrival and a later call aborts if and only if an opportunity lies between them |
| LinkRuns.RunClosedForm | link_queue.cc:189-229 | the closed form from every reachable state, with opportunities numbered from the start of the trace |
| LinkQueues.LinkQueue.constructor | link_queue.cc:14-27 | a new link is at the start of its trace |
| LinkQueues.LinkQueue.NextDeliveryTime | link_queue.cc:161-168 | the time of the next opportunity, or the largest value when finished |
| LinkQueues.LinkQueue.UseADeliveryOpportunity | link_queue.cc:170-184 | advances the trace and logs the opportunity |
| LinkQueues.LinkQueue.SpendOpportunity | link_queue.cc:194-227 | the inner loop on the object has the result of the specification |
| LinkQueues.LinkQueue.Rationalize | link_queue.cc:189-229 | the outer loop on the object has the result of the specification |
| LinkQueues.LinkQueue.ReadPacket | link_queue.cc:134-159 | the object's new state and log, or the exception or failed assertion |
| LinkQueues.LinkQueue.WritePackets | link_queue.cc:231-237 | the loop hands over the output queue, oldest first |
| LinkQueues.LinkQueue.WaitTime | link_queue.cc:239-250 | the time to the next opportunity after bringing the link up to date, cut to 32 bits: never past the opportunity, and short of it only when that is 2^32 ms or more away |
| CellSpec.CellServeIsDrain | cell_queue.cc:77-95 | charging the whole budget to the front packet and taking back the surplus sends the same bytes |
| CellSpec.SameDeliveries | cell_queue.cc:73-97 | the two emulators, alike before, hand over the same packets and are alike again when brought to the same instant |
| CellQueues.CellQueue.WritePackets | cell_queue.cc:73-97 | the outer loop on the object has the result of the specification |
| CellQueues.CellQueue.SpendOpportunity | cell_queue.cc:77-95 | the inner loop on the object, with its negative counts, has the result of the specification |
| CellQueues.CellQueue.UseADeliveryOpportunity | cell_queue.cc:63-71 | advances the trace |
| CellQueues.CellQueue.ReadPacket | cell_queue.cc:53-56 | appends the packet with all its bytes to transmit |
| ByteStreams.CountsAreExact | bytestream_queue.cc:19-29 | in spite of unsigned wraparound the two counts are the bytes stored and free, and add up to size - 1 |
| ByteStreams.TransfersAreFifo | bytestream_queue.cc:31-86 | through any sequence of short reads and short writes, what was stored and came in is what went out and is still stored, in order |
| ByteStreams.ByteStreamQueue.SpaceToPush | bytestream_queue.cc:37-42 | the read limit is positive and stays inside the buffer and the free space |
| ByteStreams.ByteStreamQueue.Push | bytestream_queue.cc:44-60 | appends what was read to the stream; nothing changes at the end of the file |
| ByteStreams.ByteStreamQueue.BytesToPop | bytestream_queue.cc:69-77 | the bytes offered to a write are a nonempty prefix of the stream |
| ByteStreams.ByteStreamQueue.Pop | bytestream_queue.cc:79-85 | the stream loses exactly the bytes written |
| ClosestMatch.LongestSubstr | replayserver.cc:81-114 | the two-row program returns the maximum length of a text that occurs in both strings |
| ClosestMatch.SuffixIsLongest | replayserver.cc:94-107 | every common text is no longer than the table entry where it ends |
| ClosestMatch.MaxElement | replayserver.cc:125-126 | the first position of a largest element |
| ClosestMatch.Closest | replayserver.cc:117-127 | the first candidate that shares the longest substring with the request |

## Left out

- SequenceSpec.SegmentationIndependence: asks, of each call, that fewer than 2^32 bytes are pending and arriving or that no chunk of 2^32-2 bytes or more is announced, because otherwise the claim can fail (ChunkedSpec.WideChunkDiffers). A stream of smaller chunks may be of any length.
- SequenceSpec.ParseSplit: has the same condition, for the same reason.
- SequenceSoundness.StreamSound: asks that the buffer is below 2^32 bytes or that no chunk of 2^32-2 bytes or more is announced, because the parser accepts such a chunk by its wrapped size, which the grammar does not describe.
- SequenceSoundness.StreamToEndSound: has the same condition, for the same reason.
- SequenceSoundness.FirstMessageSound: has the same condition, for the same reason.
- ChunkedGrammar.BodySound: has the same condition, for the same reason.
- CoDelRuns.EveryRun: assumes fewer than 2^32 arrivals, because the 32-bit count could otherwise come back to 0, and clock readings below 2^64.
- LinkRuns.Conservation: assumes fewer than 2^32 arrivals (for CoDel's count) and readings below 2^64 - 1, where a finished trace would be due again.
- LinkFluid.RationalizeClosedForm: is for every discipline but CoDel, because CoDel's discards depend on its own clock readings.
- LinkEmpty.ServeFailsExactly: is for every discipline but CoDel, which may discard an empty packet before it is sent.
- CellSpec.SameDeliveries: starts from equal pending packets, because the cell queue enqueues without first using the opportunities that are already due.
- PieSpec.EmptyQueueForgetsBy: uses real arithmetic and parameters below 2^31, because floating-point rounding is not modelled.
- PieRuns.EveryRun: takes `max_burst_` below 2^31, because the code casts the allowance to `int`.
- CoDelSpec.GapIsFloor: takes the exact square root, because rounding of `double` is not modelled; the RFC reference uses the same rounded-down interval.
- A finished message is kept as a value without its spent body parser, whose leftover buffer nothing reads again.
- The base class of the limited queues is an object that CoDel and PIE own, since there is no inheritance here; the link holds its discipline as a value, so aliasing between the two is not captured. PIE's and CoDel's readings of the clock are arbitrary there.
- Byte and packet counters, body sizes and absolute parse positions are unbounded; their 32- and 64-bit overflow is not modelled, nor is the addition of times near 2^64. The clock differences of PIE and CoDel do wrap.
- The signs, leading whitespace and "0x" that `strtol` accepts; here a number is digits only.
- Sockets, TLS, DNS, NAT, devices, the event loop, processes, temporary files and system calls.
- Trace files, JSON arguments and log formatting: a trace is a nondecreasing nonempty list with a positive last entry, and the log is a record of its entries.
- Protobuf conversion, and the comparison of stored requests with the environment in `replayserver.cc`.
- The random generator of PIE: the draw is a parameter.
- `wait_time` of the cell queue, `delay_queue.cc`, `rate_delay_queue.cc`, `get_address.cc`, and `mime_type.cc` beyond the first token: easy members.
