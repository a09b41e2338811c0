# A verified model of the xace RPC framework

xace is an RPC framework in Go. This project models the parts of it whose correctness depends on
arithmetic, on whole runs or on interleavings, and proves what they promise:

- **Load balancing** (`Sums`, `Runs`, `WeightedRoundRobin`, `Selectors`): the smooth weighted round
  robin on its live counters, its fairness over whole runs, and the ping and configuration weights that feed it.
- **Pending calls** (`PendingCalls`, `ClientConnection`): the lock regions of a client connection as
  steps of a transition system, with invariants over every interleaving, and the connection object itself.
- **The wire stack** (`Words`, `Varint`, `Wire`, `Strconv`, `Values`, `ValueRoundTrip`, `IterationOrder`,
  `Conversions`, `Arguments`, `Skipping`, `EncBuffers`, `DecBuffers`, `Headers`, `PackDatas`, `MessageHeaders`, `Framing`, `Messages`,
  `EndToEnd`): numbers in the unsigned LEB128 form (section 7.6 of the DWARF version 5 standard), a
  type-tagged recursive value format, a header with elided fields, and length-prefixed frames, up to a
  theorem about whole streams.
- **Buffers and hashing** (`BufferPools`, `JumpHash`): size-classed buffer recycling and jump
  consistent hashing.
- **Failure handling** (`CircuitBreaker`, `ClientCache`, `CachedClients`, `RetryLoop`): the breaker as a
  timed state machine, ownership of cached connections, and the retry policies.

A format or protocol is given once, as functions on values; the methods of the classes are proved to
compute exactly these functions on their fields, and the theorems are about the functions. Data before
and after an encoding are arbitrary throughout: `Spans(data, pos, end, s)` says that `s` stands in `data`
from `pos` to `end`.

## Where the code falls short of what one would expect

Each of these is stated in the lemma named, most of them with the exact condition under which it happens.

- A number from 2^63 on has a second ten-byte form, because bits beyond the 64th are lost (`UniqueShortest`).
- A notification with sequence number 0 and without metadata is received as a request (`HeaderRoundTrip`).
- A frame of fewer than eight bytes is not readable; a message object used again reads it, but swallows
  bytes of the next frame (`ShortFrameAt`). Such frames are notifications with at most one byte of text (`ShortFrames`).
- Floats are written but never read (`FloatLost`); a slice of them survives only when it is empty (`FloatSliceSurvives`).
- A reply with an empty list loses a return code between 0 and 16383 (`ReplyListExact`).
- The reader's final sweep leaves its entries in the table, so a later `Close` completes the calls a
  second time; a failing encoder can add a third completion (`ThreeCompletions`).
- With a negative number of retries a call that was never attempted reports success (`SuccessExactly`).
- A get that is under way during `Close` can leave an open connection in the cache (`ClosingIsFinal`).
- Buffers of the pool's last level do not come back to it unless its size is a doubled minimum (`LastLevelRecycled`).
- A negative configured weight is accepted, and then not every window is served by the weights (`ConfiguredFairness`).
- With all weights zero the first server is selected in spite of its weight (`ZeroWeightPicked`, `SlowServerSelected`).
- The comment above `CalculateWeight` gives the third case as 200 < t < 1000 where the code says
  100 < t; the second case is tried first, so both agree. Negative times, which the comment does not
  mention, weigh nothing.

## Model

| member | source | states |
|---|---|---|
| WeightedRoundRobin.NextWeighted | xace/client/smooth_weighted_round_robin.go:19-48 | one selection over the live objects: nil entries skipped, every counter advanced by its effective weight, effective weights climbing to their weights, the first largest counter picked and charged the total; null exactly when there is no server |
| WeightedRoundRobin.SelectionIs | xace/client/smooth_weighted_round_robin.go:22-47 | server by server: the counter gains the effective weight, which climbs by one until it is the weight, the picked server is the first with the most and pays what all gained, nobody is picked only without servers |
| WeightedRoundRobin.SelectionConservesCurrents | xace/client/smooth_weighted_round_robin.go:20-47 | a selection never changes the sum of the counters, whatever the counters and weights are, also while effective weights climb |
| WeightedRoundRobin.RunConservesCurrents | xace/client/smooth_weighted_round_robin.go:20-47 | the same over every run of any length |
| WeightedRoundRobin.RunSteady | xace/client/smooth_weighted_round_robin.go:30-46 | in every state of a run from zero counters the counters sum to zero and each is above minus the total weight |
| WeightedRoundRobin.Balance | xace/client/smooth_weighted_round_robin.go:30-46 | after t selections a counter is t times the weight minus the total weight times the number of picks, exactly |
| WeightedRoundRobin.PicksAddUp | xace/client/smooth_weighted_round_robin.go:36-47 | t selections hand out exactly t picks |
| WeightedRoundRobin.FirstPeriodExact | xace/client/smooth_weighted_round_robin.go:19-48 | as many selections as the total weight pick every server exactly by its weight and bring the whole list back to its start |
| WeightedRoundRobin.ExactFairness | xace/client/smooth_weighted_round_robin.go:19-48 | every window of that length, wherever it starts in a run, picks each server exactly by its weight and restores every counter: the schedule is periodic |
| WeightedRoundRobin.PrefixDeviation | xace/client/smooth_weighted_round_robin.go:22-46 | at every prefix the counter lies in [1-W, (n-1)(W-1)], the picks never run a whole turn ahead of the proportional share, and lag by at most the bound for n servers |
| WeightedRoundRobin.StrictLag | xace/client/smooth_weighted_round_robin.go:22-46 | the lag behind the proportional share stays strictly below one turn per rival if and only if there is a rival |
| WeightedRoundRobin.CountersFit | xace/client/smooth_weighted_round_robin.go:30-46 | no number a selection computes overflows a signed width in which (n+1) times the total weight fits |
| WeightedRoundRobin.AllZeroRun | xace/client/smooth_weighted_round_robin.go:36-47 | with all weights zero every selection takes the first server and changes nothing |
| WeightedRoundRobin.NeverPicked | xace/client/smooth_weighted_round_robin.go:36-47 | with positive total weight a server of weight zero is never picked in any run |
| WeightedRoundRobin.ZeroWeightPicked | xace/client/smooth_weighted_round_robin.go:19-48 | a zero-weight server is picked in some run if and only if all weights are zero and it is the first server |
| Selectors.CalculateWeight | xace/client/ping_utils.go:82-93 | weight by round-trip time: zero exactly for negative times and from 1000 ms on, one exactly from 200 ms to 999 ms, linear below |
| Selectors.CalculateWeightAntitone | xace/client/ping_utils.go:73-93 | a closer server never weighs less |
| Selectors.CreateWeighted | xace/client/selector.go:141-160 | new, distinct objects in order, each with its server name, a zero counter, and as weight and effective weight exactly the number its metadata parsed to, 1 when none was, or what its ping weighs |
| Selectors.StartingSlot | xace/client/selector.go:141-160 | the list every selector starts from, candidate by candidate |
| Selectors.WeightedSelector.Select | xace/client/selector.go:124-134 | one selection on the kept list, its name returned, the empty string exactly when nothing can be picked |
| Selectors.WeightedSelector.UpdateServer | xace/client/selector.go:136-139 | a new list replaces the old one and all counters restart |
| Selectors.SlowServerSelected | xace/client/ping_utils.go:34-47 | under ping weights a server at 1000 ms or more is ever selected if and only if every server weighs nothing and it is first |
| Selectors.ConfiguredFairness | xace/client/selector.go:141-160 | from a list that starts with the parsed numbers, every window picks candidate i exactly as often as its number says (once without one) if and only if no number is negative |
| PendingCalls.StepKeepsInv | xace/client/client.go:498-881 | every lock region, by any thread, keeps the protocol invariant |
| PendingCalls.ReachableInv | xace/client/client.go:498-881 | the invariant holds over every interleaving of the lock regions |
| PendingCalls.CompletionAccounting | xace/client/client.go:498-881 | over every interleaving: completions of a registered call = removal of its entry + presence at the final sweep + a failing encoder that found the entry gone; so exactly one per removed call before the sweep, at most two with an encoder that does not fail, at most three in all |
| PendingCalls.NobodyHangs | xace/client/client.go:498-527 | at every moment a call ever handed to send is waiting in a live table, held by a thread that will complete it, or completed; after the sweep and with no thread in between, it is completed |
| PendingCalls.ClosedForGood | xace/client/client.go:500-527 | closing and shutdown are never cleared and nothing is registered after either |
| PendingCalls.Routing | xace/client/client.go:634-643 | a response number takes out exactly the call registered under it, once; a number without an entry changes nothing |
| PendingCalls.LateReply | xace/client/client.go:319-330 | the reply to a call that was cancelled or otherwise taken out completes nobody |
| PendingCalls.NoticedOnce | xace/client/client.go:740-746 | the connection-close plugins run exactly once over any mix of Close calls and reader end |
| PendingCalls.RegistrationOverwrites | xace/client/client.go:520-527 | registering leaves every waiting call in place if and only if the next number is free |
| PendingCalls.NextNumberFree | xace/client/client.go:524-527 | the next number is free in every run that has not used up the 64-bit counter |
| PendingCalls.ThreeCompletions | xace/client/client.go:556-564 | runs that reach two completions (sweep, then Close) and three (a failing encoder last) |
| ClientConnection.Client.TryRegister | xace/client/client.go:500-527 | registration exactly when neither shut down nor closing and the codec is known, under the next number, which wraps around; otherwise the refusal's error and nothing changed |
| ClientConnection.Client.Send | xace/client/client.go:498-614 | one undisturbed send: the call stays pending exactly when it was registered, encoded, written and expects a reply; otherwise it is completed once with the error of the step that failed, and its number is free again |
| ClientConnection.Client.Answer | xace/client/client.go:634-722 | one frame: only the call under its number is completed, once; undecodable gives the decode error, a described fault the server error, anything else leaves the error; the loop ends exactly on an undecodable reply |
| ClientConnection.Client.Input | xace/client/client.go:616-767 | the reader's whole life: each waiting call is completed exactly once, by the first response with its number or by the final sweep, with the error the source gives it; a call without error stays without one if and only if its first response was delivered or an undescribed fault |
| ClientConnection.Client.CloseConnection | xace/client/client.go:852-881 | every waiting call fails with ErrShutdown once, the table is emptied, and a second Close reports ErrShutdown |
| Varint.UintRoundTrip | xace/codec/packdata.go:72-85 | every 64-bit number is read back behind any bytes and before any others, and the cursor stops right behind it |
| Varint.UintExample | xace/codec/packdata.go:72-85 | the bytes of a three-group number, lowest group first |
| Varint.DecodeTerminated | xace/codec/packdata.go:168-183 | any whole encoding reads as its group sum modulo 2^64 |
| Varint.AtMostTenBytes | xace/codec/packdata.go:72-85 | at most ten bytes, and ten exactly from 2^63 on |
| Varint.Shortest | xace/codec/packdata.go:72-85 | no whole encoding that reads as the number is shorter |
| Varint.UniqueShortest | xace/codec/packdata.go:72-85 | the packed form is the only shortest one if and only if the number is below 2^63 |
| Varint.SignedRoundTrip | xace/codec/packdata.go:86-100 | signed 64, 32 and 16-bit numbers survive sign extension and truncation |
| Varint.AccumulateStep | xace/codec/decode.go:39-48 | one step of the wrapping accumulation is one step of the exact group sum modulo 2^64 |
| Varint.AccumulateByte | xace/codec/decode.go:39-48 | one byte in the loop: a terminator yields the number, any other byte keeps what the loop knows |
| Wire.StringAt | xace/codec/decode.go:108-116 | a packed string is read back and the cursor stops right behind it |
| Wire.StringExact | xace/codec/decode.go:108-116 | behind any length: nothing for 0, the bytes when the data hold them, a panic when they do not or the length is negative |
| Wire.UnpackFieldExact | xace/codec/decode.go:92-102 | a descriptor read from arbitrary bytes is f ending at e if and only if f is well formed and exactly its flattening stands there |
| Strconv.ParsesDecimal | xace/codec/decode.go:118-151 | decimal text, with or without a sign, reads as its number, too large a number as the largest there is |
| Strconv.ParsesNothing | xace/codec/decode.go:118-151 | text that begins with no digit reads as 0 |
| Strconv.ItoaDecimal | xace/codec/decode.go:118-127 | the text of a number is its decimal text without needless zeros |
| Strconv.TextRoundTrip | xace/codec/decode.go:118-151 | a number read as text and text read as a number invert each other on all 64-bit numbers |
| ValueRoundTrip.ValueSurvives | xace/codec/decode.go:205-338 | every portable value decodes to itself in a fresh target of its type, behind and before any bytes, and the cursor stops exactly at the end |
| ValueRoundTrip.StructAt | xace/codec/decode.go:315-332 | a struct fills the first fields of a longer struct of matching types, the others stay zero |
| ValueRoundTrip.MapSurvives | xace/codec/decode.go:288-313 | a listing of a map anywhere in the data is read back as that map |
| ValueRoundTrip.FloatLost | xace/codec/encode.go:199-201 | a float anywhere in the data leaves a target of any type at its zero value, and the cursor stops before the number |
| ValueRoundTrip.FloatSliceSurvives | xace/codec/encode.go:215-230 | a slice of floats is read back if and only if it is empty |
| IterationOrder.AnyIterationOrder | xace/codec/encode.go:232-248 | two encodings that differ in the order in which maps are iterated, at any depth and anywhere in any data, are both read to their ends and as the same value |
| IterationOrder.PermutedMap | xace/codec/encode.go:243-247 | permuted listings of a map list the same value |
| Conversions.EncodingLayout | xace/codec/encode.go:173-249 | every kind of value starts with its own tag, followed by what the kind prescribes |
| Conversions.SequenceLayout | xace/codec/encode.go:136-171 | fields follow one another whole, elements and map entries without their tags, in order |
| Conversions.ElementTags | xace/codec/encode.go:273-291 | the tags of element types and the types that have none |
| Conversions.SlicePanics | xace/codec/encode.go:215-230 | the encoder panics on a slice if and only if its element type has no tag or an element contains what panics |
| Conversions.MapPanics | xace/codec/encode.go:232-248 | the same for maps by the types of keys and values |
| Conversions.StructPanics | xace/codec/encode.go:207-213 | a struct panics if and only if one of its fields does |
| Conversions.ZeroValues | xace/codec/decode.go:200-202 | what a target holds that nothing was read into |
| Conversions.CharInto | xace/codec/decode.go:207-223 | a character goes into booleans and numbers, anything else panics |
| Conversions.NumberInto | xace/codec/decode.go:224-243 | a number goes into booleans as not 0, into text as signed decimal text, into nothing else but numbers |
| Conversions.NumberIntoUnsigned | xace/codec/decode.go:233-234 | into an unsigned number with as many low bits as it has |
| Conversions.NumberIntoSigned | xace/codec/decode.go:236-237 | into a signed number as the one of its width that agrees in the low bits |
| Conversions.TextInto | xace/codec/decode.go:244-254 | text goes into text and, parsed, into signed numbers of 32 and 64 bits, anything else panics |
| Conversions.OctetStringInto | xace/codec/decode.go:256-261 | byte strings go into byte strings only |
| Conversions.UnknownLeft | xace/codec/decode.go:205-206 | a descriptor without a case leaves the target alone and reads nothing behind it |
| Conversions.StructIntoOther | xace/codec/decode.go:315-318 | a struct into anything else panics |
| Conversions.ListIntoOther | xace/codec/decode.go:263-292 | lists into anything but slices and byte strings panic, maps into anything but maps |
| Conversions.NegativeCount | xace/codec/decode.go:267-301 | a count from 2^31 on makes a list panic and a map empty |
| Conversions.NumbersIntoOctets | xace/codec/decode.go:263-286 | a slice of numbers goes into a byte string as their low bytes |
| Conversions.OtherOctets | xace/codec/decode.go:263-286 | characters go into a byte string as they are, other elements panic or leave zeros |
| Conversions.EntryPut | xace/codec/decode.go:301-313 | an entry read is put into the map read so far |
| Conversions.PutIsAssignment | xace/codec/decode.go:307-311 | putting an entry is an assignment: its key maps to it, other entries stay, no key twice |
| Conversions.SurplusField | xace/codec/decode.go:330-332 | of one field more than the target has the descriptor is read and the cursor left before the value |
| Skipping.SkipsValue | xace/codec/decode.go:163-198 | skipping an encoded value advances by exactly its length, floats included |
| Skipping.SkipMatchesDecode | xace/codec/decode.go:163-198 | skipping and decoding a portable value stop at the same place |
| Skipping.SkipsOther | xace/codec/decode.go:163-192 | a date is skipped as a number, a negative count as nothing, and an unknown descriptor has no value behind it |
| Arguments.ListIntoStruct | xace/codec/decode.go:359-379 | an encoded argument list fills the first fields of the callee's struct, the others stay zero |
| Arguments.ListIntoPointers | xace/codec/decode.go:399-422 | an encoded list is read back through pointers of the same types |
| Arguments.ListIntoSomePointers | xace/codec/decode.go:406-416 | with more or fewer pointers than arguments exactly the shared front is read |
| Arguments.NothingToRead | xace/codec/decode.go:399-422 | no pointers read nothing, an empty payload fails for any other target |
| Arguments.PayloadExamples | xace/codec/encode.go:259-308 | the bytes of an argument list, of a single argument and of a reply with its code |
| Arguments.RetCodeExact | xace/protocol/message.go:353-363 | a 32-bit return code and its data are recovered if and only if they take at least four bytes together |
| Arguments.ReplyRoundTrip | xace/codec/encode.go:301-308 | the payload of one non-list reply always has four bytes or more, so every return code, negative ones included, comes back with exactly the encoded reply, which decodes into a one-element list |
| Arguments.ReplyListExact | xace/protocol/message.go:353-363 | for a reply that is a list, code and data come back if and only if the list is not empty or the code is not between 0 and 16383; otherwise the code reads as -90006 and the payload is left alone |
| EncBuffers.EncBuffer.PackUint | xace/codec/encode.go:79-92 | the loop appends exactly the shortest 7-bit-group form of the number |
| EncBuffers.EncBuffer.EncodeValue | xace/codec/encode.go:173-249 | appends exactly the encoding of the value that the round trip is about, and fails exactly where the source panics |
| EncBuffers.EncBuffer.EncodeNoType | xace/codec/encode.go:136-171 | an element is appended without its descriptor; kinds the source ignores append nothing |
| EncBuffers.EncBuffer.EncodeArguments | xace/codec/encode.go:259-271 | appends the argument list the decoder's theorems are about, or fails where the source panics |
| EncBuffers.EncBuffer.EncodeReply | xace/codec/encode.go:301-308 | appends the sign-extended return code and then the reply |
| DecBuffers.DecBuffer.UnpackUint64 | xace/codec/decode.go:35-50 | the wrapping loop yields the group sum modulo 2^64 up to the first terminator, 0 and the end of the data without one |
| DecBuffers.DecBuffer.ReadField | xace/codec/decode.go:92-102 | the recursive read yields the descriptor that the exactness lemma is about, or fails where the source panics |
| DecBuffers.DecBuffer.DecodeInto | xace/codec/decode.go:335-338 | decoding into a fresh target of a type: the value and the cursor of the format, or failure where the source panics |
| DecBuffers.DecBuffer.DecodeEntriesInto | xace/codec/decode.go:301-313 | map entries are put in order, a later equal key replacing an earlier one |
| DecBuffers.DecBuffer.DecodeFieldsInto | xace/codec/decode.go:316-332 | fields both sides have are decoded, surplus fields lose only their descriptors, missing ones stay zero |
| DecBuffers.DecBuffer.PeekValue | xace/codec/decode.go:195-198 | skipping moves the cursor exactly as the skipping theorems say |
| DecBuffers.DecBuffer.DecodeArguments | xace/codec/decode.go:399-422 | decoding a payload into pointers or a struct, panics turned into an error |
| Headers.HeaderAt | xace/protocol/header_serialize.go:70-115 | a packed header anywhere in the data is read whole by a fresh one and the cursor stops right behind it, for any metadata order |
| Headers.HeaderOver | xace/protocol/header_serialize.go:70-115 | a header that already holds something reads path, name and what was sent, keeps call type and number where they were elided, and adds the metadata to its own |
| Headers.LeastCount | xace/protocol/header_serialize.go:16-34 | the leading count is the smallest that leaves out only defaults, in terms of the fields themselves |
| Headers.RequestExample | xace/protocol/header_serialize.go:14-68 | the bytes of an ordinary request |
| Headers.FullLayout | xace/protocol/header_serialize.go:36-68 | the bytes of a message with every field, tag by tag |
| Headers.PairsLayout | xace/protocol/header_serialize.go:62-67 | metadata are pairs of key and value, in order |
| Headers.AnnouncedFields | xace/protocol/header_serialize.go:74-84 | no count or a count of 0 panics, a count of 1 reads the path alone, five and more read alike |
| Headers.TagsExpected | xace/protocol/header_serialize.go:77-106 | a field with another tag than expected panics |
| Headers.NumberAsText | xace/codec/packdata.go:250-259 | a number where text is expected reads as its decimal text |
| Headers.TextAsNumber | xace/codec/packdata.go:261-271 | decimal text where a number is expected reads as that number |
| Headers.HeaderRoundTrip | xace/protocol/header_serialize.go:14-115 | everything comes back if and only if the message is not a notification with number 0 and no metadata; then exactly the call type differs and reads 0 |
| Headers.ListsRebuild | xace/protocol/header_serialize.go:107-114 | metadata written in any iteration order rebuild the map |
| PackDatas.PackData.PackUint64 | xace/codec/packdata.go:72-85 | appends byte for byte what the encoder's packer appends for the number |
| PackDatas.PackData.UnpackUint64 | xace/codec/packdata.go:168-183 | reads exactly what the decoder's reader reads |
| PackDatas.PackData.PackString | xace/codec/packdata.go:143-151 | appends length and bytes and keeps the cursor at the end |
| PackDatas.PackData.UnpackString | xace/codec/packdata.go:240-248 | reads the string of the format, or fails on a length that is negative or too large |
| PackDatas.PackData.ReadField | xace/codec/packdata.go:224-234 | reads the descriptor of the format, or fails where the source panics |
| MessageHeaders.Header.CountFields | xace/protocol/header_serialize.go:16-34 | five exactly with metadata, three or less exactly without them and with number 0, two exactly for a notification besides |
| MessageHeaders.Header.PackHeader | xace/protocol/header_serialize.go:14-68 | the packed bytes are those of the header theorems for some order of the metadata, and their leading count is the least one in terms of the fields |
| MessageHeaders.Header.UnpackData | xace/protocol/header_serialize.go:70-115 | fields announced are assigned in order and others left as they are, metadata merged, failure exactly where the source panics |
| Framing.ShortFrames | xace/protocol/message.go:264-278 | a frame has fewer than eight bytes if and only if its header is the two-field form and path, method and payload have fewer than two bytes together |
| Framing.FrameAt | xace/protocol/message.go:308-351 | a frame of eight bytes or more with a body below 2^31 is read as the message sent and exactly to its end, whatever receive buffer is reused |
| Framing.ShortFrameAt | xace/protocol/message.go:314-336 | a shorter frame fails at the end of the stream or without a buffer to reuse; with one it succeeds but swallows bytes of the next frame |
| Framing.LongFrameAt | xace/protocol/message.go:321-324 | a body of 2 GiB or more is never received as a whole |
| Framing.FrameExact | xace/protocol/message.go:308-351 | a frame in a stream is received exactly if and only if it has at least eight bytes and a body below 2 GiB |
| Framing.AnyBody | xace/protocol/message.go:308-351 | any length-prefixed body is taken exactly: header on top of what the message holds, payload behind it, failure where the header panics |
| Framing.CutOff | xace/protocol/message.go:317-343 | a stream that ends within a frame fails at its end with the error for that |
| Framing.NoLength | xace/protocol/message.go:321-324 | a length with low 32 bits of 0 or negative, or without an end in eight bytes, is an error |
| Framing.FrameExample | xace/protocol/message.go:264-278 | the bytes of a request with one byte of payload |
| Framing.StreamRoundTrip | xace/protocol/message.go:264-351 | the frames of any sequence of messages, followed by anything, are read back in order and each exactly, if and only if every frame has at least eight bytes and every body is below 2 GiB |
| Messages.Message.EncodeSlicePointer | xace/protocol/message.go:264-278 | the recycled buffer holds exactly length prefix, header and payload whatever it held before, and nobody else holds it |
| Messages.Message.WriteTo | xace/protocol/message.go:286-295 | a first part of the frame reaches the wire, all of it without error, and the buffer is back in the pool either way |
| Messages.Message.Decode | xace/protocol/message.go:308-351 | the message and the stream end up exactly as the framing theorems say, with the same error in the same case |
| Messages.Message.FetchBody | xace/protocol/message.go:326-343 | the body is put together from the bytes read ahead and the stream, or fails exactly when the reused buffer is too small or the stream ends |
| Messages.Message.TakeRetCode | xace/protocol/message.go:353-363 | the return code is split off the payload, short payloads are left alone |
| Messages.PackLen | xace/codec/packdata.go:295-299 | the length prefix is the packed number |
| Messages.UnpackLength | xace/codec/packdata.go:301-306 | the length is the low 32 bits, signed, and the rest are the bytes behind it |
| EndToEnd.RequestDelivered | xace/protocol/message.go:264-351 | a request in a frame of at least eight bytes, anywhere in a stream, delivers the caller's arguments into the callee's struct and leaves the stream right behind it |
| EndToEnd.RequestFrames | xace/protocol/message.go:264-278 | a request's frame has at least eight bytes if and only if an optional header field, a name or an argument is there |
| EndToEnd.ResponseDelivered | xace/protocol/message.go:308-363 | a response delivers its whole header, the return code and the one result |
| BufferPools.SizesAt | xace/util/buffer_pool.go:31-48 | the levels are the minimum doubled until the maximum, then the maximum itself |
| BufferPools.DoubledNext | xace/util/buffer_pool.go:35-41 | doubling one by one |
| BufferPools.FrameSizes | xace/protocol/message.go:15 | the levels of the pool for frames |
| BufferPools.FindPoolBestFit | xace/util/buffer_pool.go:50-62 | a request is pooled if and only if it is at most the maximum, and then served by the first level large enough |
| BufferPools.FindPutPoolFits | xace/util/buffer_pool.go:64-80 | a buffer is kept if and only if its capacity is between minimum and maximum, at a level it is large enough for |
| BufferPools.SameLevel | xace/util/buffer_pool.go:50-80 | a buffer returns to the level that serves requests of its capacity if and only if the capacity is a doubled minimum |
| BufferPools.LastLevelRecycled | xace/util/buffer_pool.go:93-100 | buffers of the last level come back to it if and only if the maximum is a doubled minimum |
| BufferPools.LimitedPool.NewLimitedPool | xace/util/buffer_pool.go:31-48 | an empty valid pool, or a panic exactly when the maximum is below the minimum |
| BufferPools.LimitedPool.Get | xace/util/buffer_pool.go:82-91 | length exactly as asked, held by nobody else and sharing no memory; up to the maximum it waited in the first level of at least the size or is new with exactly that level's capacity; everything else in the pool unchanged |
| BufferPools.LimitedPool.Put | xace/util/buffer_pool.go:93-100 | the buffer goes to exactly one level at full length, or to none when its capacity fits none, and the pool stays valid |
| BufferPools.LimitedPool.Collect | xace/util/buffer_pool.go:8-11 | the collector may drop any waiting buffers at any time, and the pool stays valid |
| JumpHash.ExactIsRounding | xace/client/hash_utils.go:19 | exact arithmetic is one of the admissible roundings, so everything below holds of it as well |
| JumpHash.JumpsForward | xace/client/hash_utils.go:16-20 | every jump lands beyond its bucket and within 64 bits, for every monotone rounding that keeps integers |
| JumpHash.Hash | xace/client/hash_utils.go:9-23 | the loop ends with the last bucket of the jump sequence below the number of buckets |
| JumpHash.HashIsLastLanding | xace/client/hash_utils.go:9-23 | the jump sequence of a key does not depend on the number of buckets, and the result is its last element below that number |
| JumpHash.HashInRange | xace/client/hash_utils.go:9-23 | the result is below the number of buckets, one bucket for counts that are not positive |
| JumpHash.KeepsBucket | xace/client/hash_utils.go:16-22 | the same loop over any jumps that go forward: the results for n and for more buckets agree if and only if the latter is below n |
| JumpHash.MinimalMovement | xace/client/hash_utils.go:8-23 | between n and more buckets a key keeps its bucket if and only if its new bucket is below n |
| JumpHash.GrowByOne | xace/client/hash_utils.go:8-23 | one more bucket: a key stays or moves to the new bucket |
| JumpHash.ShareLaw | xace/client/hash_utils.go:16-20 | by exact arithmetic, from bucket b a key jumps below n if and only if its high bits after the advance are at least (b+1)*2^31/n |
| JumpHash.ShareCount | xace/client/hash_utils.go:16-20 | exactly (b+1)*2^31/n of the 2^31 values of the high bits keep bucket b of n |
| JumpHash.AdvanceInverts | xace/client/hash_utils.go:18 | advancing the key is a bijection of the 64-bit numbers |
| JumpHash.EveryBucketUsed | xace/client/hash_utils.go:9-23 | for every number of buckets, every bucket below it up to the square root of 2^31 is some key's bucket |
| JumpHash.ServerIndexInRange | xace/client/hash_utils.go:49-51 | the chosen index is valid if and only if there is a server, also when the count is truncated to 32 bits |
| JumpHash.ServerIndexIs | xace/client/hash_utils.go:49-51 | up to 2^31 servers the index is the hash of the untruncated count |
| CircuitBreaker.ConsecCircuitBreaker.Ready | xace/client/circuit_breaker.go:67-76 | ready exactly when the window has passed or failures are below the threshold; only the former resets, at the later clock reading |
| CircuitBreaker.ConsecCircuitBreaker.Call | xace/client/circuit_breaker.go:32-65 | a rejected call changes nothing, a failing one counts one more at its end, a successful one leaves no failures |
| CircuitBreaker.FailuresSinceReset | xace/client/circuit_breaker.go:67-85 | over any run the counter is the number of failures since the last reset, modulo 2^64 |
| CircuitBreaker.FailuresOfCalls | xace/client/circuit_breaker.go:32-85 | over a run of calls the counter is the number of failed ones since the last success or expired window |
| CircuitBreaker.Readmission | xace/client/circuit_breaker.go:67-85 | after a failure, calls turned away within the window change nothing, and the first one later than the window is admitted |
| CircuitBreaker.RateBound | xace/client/circuit_breaker.go:32-85 | with all calls failing, an interval of length L admits at most share*(floor(L/(window+1))+1) calls, where share is the threshold but at least one |
| CircuitBreaker.RateBoundReached | xace/client/circuit_breaker.go:32-85 | from any expired breaker some run of failing calls reaches that bound |
| ClientCache.StepKeepsInv | xace/client/xclient.go:270-422 | every lock region keeps every client made either cached under its key or closed |
| ClientCache.NoLeak | xace/client/xclient.go:270-422 | over any interleaving of gets, removals, breaks and closes a client made is the entry of its key or has been closed |
| ClientCache.OneOpenClient | xace/client/xclient.go:299-317 | one server never has two open clients |
| ClientCache.FetchYieldsEntry | xace/client/xclient.go:398-422 | a get that yields a client yields the open entry of its key and leaves other keys alone |
| ClientCache.FetchReuses | xace/client/xclient.go:398-422 | an entry neither closed nor broken is returned and nothing changes; any other is closed, and the client made is what is returned and cached |
| ClientCache.RemovalIsExact | xace/client/xclient.go:360-372 | removing a stale client never evicts or closes its replacement; only the very client that is cached is evicted |
| ClientCache.LateGet | xace/client/xclient.go:279-317 | a get under way when everything is closed can still cache an open client |
| ClientCache.ClosingIsFinal | xace/client/xclient.go:1283-1296 | after Close everything is and stays closed if and only if no get is under way |
| CachedClients.ClientMap.GetCachedClientWithoutLock | xace/client/xclient.go:398-422 | a usable entry is returned, another is closed and replaced by the client that connecting yields |
| CachedClients.ClientMap.GetCachedClient | xace/client/xclient.go:270-324 | nothing after shutdown or when the breaker of the key is not ready, otherwise the same as the get under the lock |
| CachedClients.ClientMap.RemoveClient | xace/client/xclient.go:360-372 | Close is called on the client, and it is evicted exactly if it is the cached one |
| CachedClients.ClientMap.Close | xace/client/xclient.go:1283-1296 | walking the map in any order closes and removes every entry |
| RetryLoop.Call | xace/client/xclient.go:513-586 | the loop takes exactly the turns the policy allows and reports the error of the last attempt made, none if it succeeded, or the first selection's when none was made |
| RetryLoop.TurnOfCall | xace/client/xclient.go:531-586 | turn j asks the server of the j-th selection under Failover and the first one otherwise, attempts exactly when there is a client, and takes the answers in order |
| RetryLoop.TurnsTaken | xace/client/xclient.go:513-519 | no turn exactly after a first selection cut short by the context, or failed under Failfast |
| RetryLoop.AttemptsAre | xace/client/xclient.go:536-547 | attempts are the turns with a client |
| RetryLoop.AttemptBound | xace/client/xclient.go:531-586 | at most retries plus one attempts, none after a success, a service error or a context error, and no early end without one |
| RetryLoop.SuccessExactly | xace/client/xclient.go:531-586 | success is reported if and only if the last attempt succeeded, except exactly for negative retries after a selection without error, when nothing was attempted |
| RetryLoop.AnswersInOrder | xace/client/xclient.go:531-586 | each turn takes the next selection (the same server under Failtry) and attempts take the answers in order |
| RetryLoop.FailedClientsRemoved | xace/client/xclient.go:549-577 | a client whose attempt failed without deciding the call is always removed; turns without a client ask for a removal too, if and only if the first selection did not itself report a service error, which only a hook on new connections or a foreign client builder can make it do |

## Left out

- Sockets, TLS, deadlines, heartbeats, logging, plugins other than the close notification, and the server: input and output. Reads are a byte sequence, writes succeed or fail, clocks and map orders are parameters or arbitrary choices.
- Reflection: values and target types are datatypes, pointers are identified with what they point to, and nil pointers are not values. Panics are a failure result.
- Uint8 scalars, arrays of fixed length and nested slices and maps as elements: the encoder panics on them or the decoder rejects them. Recursive Go types and 8-bit signed integers are not part of the type datatype.
- Decoding into targets that already hold something: maps are merged and slices reused there. Nil and empty slices, maps and byte strings are one value.
- Slice capacity beyond the length of the input: a Go reslice may reach into it where the model fails. In message decoding both fail.
- DecBuffers.DecBuffer.DecodeFieldsInto: a surplus field on the wire loses only its descriptor, as in the source; nothing is claimed about what is read after that.
- Messages.Message.Decode: does not say what a failed read leaves in the header, and the payload is a copy where the source keeps a part of the receive buffer.
- IterationOrder.AnyIterationOrder: keys of Go maps contain no maps, so two listings of one map have equal keys.
- The reuse of encoder, decoder and message objects through their pools, except for the receive buffer of a message and the frame buffers.
- ClientConnection.Client.Send: is stated for a thread nobody interferes with; PendingCalls covers the interleavings.
- The capacity of a call's Done channel: a completion is a signal and an error, and a full channel drops the signal.
- `SendRaw`, which brings its own sequence numbers. The cancellation of a refused call, which uses number 0, is covered as the removal of an arbitrary number.
- ClientConnection.Client.Answer: ServerError stands for whatever error the metadata describe, and what a faulted reply carries besides is not modelled; raw calls are not either.
- Server messages: a frame that is not a response is handed on and answers nobody.
- Wrap-around of the sequence counter in PendingCalls: Reachable is about runs that register fewer than 2^64 calls; RegistrationOverwrites says what goes wrong beyond.
- In ClientCache the unlocked shutdown check is the step Begin, and the first look under the read lock, which changes nothing, is no step. A breaker's answer is a parameter of the get, its failure count after a failed connection is not kept there, and the builders shared between several clients are not modelled.
- JumpHash.Hash: floating-point operations are exact ones followed by an arbitrary monotone rounding that keeps integers; the key text and its FNV hash are not modelled.
- JumpHash.EveryBucketUsed: is about buckets up to the square root of 2^31, 46340, which a key reaches in one jump; whether each higher one is the bucket of some key of the 64-bit generator takes several jumps of one generator and is not decided here.
- JumpHash.ShareLaw: is about exact arithmetic; rounding may move keys whose jump lies within it of a bucket's border.
- BufferPools.FindPoolBestFit: logarithms are exact integer ones, not rounded doubles; sizes are not negative, the minimum is positive, and sizes so large that doubling overflows are not considered.
- `sync.Pool` as a container: a get takes any waiting buffer or makes a new one, and the collector may drop any.
- CircuitBreaker.RateBound: is about calls one after the other and a clock that does not run backwards, as the counters are updated by separate atomic operations.
- RetryLoop.Call: selections and attempts are given by the world it runs in, a selection has a client exactly when it has no error; Failbackup, broadcasting, forking and the shutdown check of `Call` are left out, as is the equal code of `SendRaw`.
- Plain round robin, random, geographic and consistent-hash selectors, doublejump, discovery, compression and codecs other than the native one: easy, or code of other projects.
