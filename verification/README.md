# Verification of the Boost.Asio demo servers

A Dafny 4.11 model of the parts of the repository that carry state or arithmetic, with proofs.
`dafny verify dfyconfig.toml` checks the whole project.

## What is modelled

- **The protobuf codec** (`Varint`, `Utf8`, `Wire`, `WireTheory`, `WireGrammar`, `MessageFold`,
  `BookCodec`, `BookMessage`, `MsgCodec`, `MsgMessage`, `MessageIO`, `PassThrough`). The generated
  classes are classes here: `InternalParse` is the generated loop over tags, with one turn of it in
  `TakeField`, and `InternalSerialize` writes into a buffer at a target index. They are proved against
  a reference semantics that knows neither: split the input into records, then apply the records in
  order. `WireGrammar` says over bytes alone which input is read as what. The library helpers behind
  the generated code follow the Protocol Buffers Encoding specification (sections "Base 128 Varints",
  "Message Structure", "Signed Integers", "Length-Delimited Records", "Groups", "Last One Wins");
  UTF-8 validity follows sections 3 and 4 of RFC 3629. A parse pointer is represented by the bytes it
  points at, the null pointer by `Null`. Server and client declare the same `MsgData` with different
  names for field 2, which are not on the wire, so one class models both.
- **Frames and sockets** (`Frames`, `Readers`, `JsonClient`). Buffers are arrays, `short` conversions
  are explicit. A socket is a list of arrivals cut anywhere; `ReadExactly` is the composed read.
- **The callback sessions** (`PushSession`, `PushTheory`). Two servers share one read handler, which
  keeps partial heads and bodies between arrivals. The handler resets its head-parsed flag after a
  body that arrived together with its head, but not after one that was completed by a later
  arrival. The next byte then makes its loop repeat the old message forever. `SpinsForever` proves
  that of the loop as written and `DeliversIffClean` gives the exact condition on the arrivals.
- **The chat end to end** (`Chat`): request, server session, answer, display.
- **The I/O context pools** (`RoundRobin`, `ServicePool`, `ThreadPool`). The shutdown protocols are
  state machines over the steps of the main thread, the workers and anybody who posts; a run is an
  arbitrary interleaving. Handlers are numbers, and running ones may post more of them anywhere.
  That a context stops in the step that takes away its last work, and takes no handler from then on,
  is what Boost.Asio documents for `io_context::run()`, `stop()` and `executor_work_guard`.
- **The HTTP server** (`HttpServer`) and **the session map** (`SessionMap`): handlers run one at a
  time on one thread, completions arrive in any order. Socket results, request contents and new
  uuids are parameters; new uuids are distinct.

Findings, each with its exact condition and a concrete case:

- A callback session hangs when an arrival ends inside the body of a message that another one
  follows (`DeliversIffClean`, `HangsOnSplitBody`).
- A coroutine session drops the connection on an empty payload, because a read of zero bytes counts
  as a closed peer (`SessionDelivers`, `EmptyMessageCloses`).
- Concatenated messages do not merge when the second explicitly encodes a default that resets a
  field of the first (`ConcatenationMergesIff`, `ExplicitDefaultResets`).
- A chat answer can be longer than the client's array, because the server's words come on top of a
  text that just fitted. The read is clipped to the array; it is the parser that is then told to
  read past its end (`Exchange`, `AnswerSize`, `OverlongAnswer`). In the JSON client it is the
  string built from the array that reads past it (`ReplyRoundTrip`). A negative length is different:
  there the string's constructor throws.
- The draining pool never runs a handler posted to a context that has stopped. A context stops when
  its last work is taken away, by the reset of its guard or the return of a handler, so this can
  happen while its worker still is in `run()` (`PostedRunsIff`, `UnservedHandler`).

## Model

| member | source | states |
|---|---|---|
| Bytes.SignExtendRoundTrip | ProtobufDemo/msg.pb.cc:236-239 | Sign extension to 64 bits followed by keeping the low 32 bits is the identity on int32 |
| Bytes.ToInt32Unique | ProtobufDemo/msg.pb.cc:183 | Of any number the int32 reader keeps the value modulo 2^32, as a signed one |
| Bytes.ToInt16Unique | CoroutineService/MsgNode.cpp:6 | A conversion to short keeps the value modulo 2^16, as a signed one |
| Bytes.LittleEndianMeans | ProtobufDemo/msg.pb.cc:242-248 | Fixed-width values are written least significant byte first: byte i counts 256^i |
| Varint.RoundTrip | ProtobufDemo/msg.pb.cc:183 | Reading back a written varint gives the number and exactly the bytes behind it |
| Varint.EncodeGroup | ProtobufDemo/msg.pb.cc:236-239 | Byte i of a written varint holds the bits 7i to 7i+6 of the number, and its high bit says whether another byte follows |
| Varint.EncodeSpells | ProtobufDemo/msg.pb.cc:236-239 | A written varint is a spelling of its number, and the shortest: its last group is not zero |
| Varint.DecodeIff | ProtobufDemo/msg.pb.cc:183 | From any bytes the number read is that of the spelling in front, shortest or not: the sum of the low seven bits of byte i times 128^i up to the first byte under 128 |
| Varint.DecodeFailsIff | ProtobufDemo/msg.pb.cc:183 | Reading a varint fails exactly when no byte under 128 is among the first so many |
| Varint.PrefixFree | ProtobufDemo/msg.pb.cc:236-239 | No varint encoding is a proper prefix of another |
| Varint.SizeIsLength | ProtobufDemo/msg.pb.cc:275-277 | The threshold chain of the size calculator is the number of bytes written, at most ten |
| Varint.Int32Size | ProtobufDemo/msg.pb.cc:275-277 | An int32 takes one to five bytes when not negative and exactly ten when negative |
| Varint.Int32RoundTrip | ProtobufDemo/msg.pb.cc:183 | Any int32 written as a varint is read back by the ten-byte reader |
| Utf8.ValidIffText | ProtobufDemo/msg.pb.cc:176 | The UTF-8 check (section 4 of RFC 3629) accepts exactly the encodings (section 3) of sequences of scalar values |
| Utf8.NeverValid | ProtobufDemo/msg.pb.cc:176 | Bytes that begin nothing, overlong forms, surrogates and code points that are too large never occur in accepted text |
| WireTheory.ItemRoundTrip | ProtobufDemo/msg.pb.cc:205-209 | A written record, nested groups included, is read back as that record, with the bytes behind it left over |
| WireTheory.GroupRoundTrip | ProtobufDemo/msg.pb.cc:205-209 | The records of a group are read back up to the end-group tag with the group's own number |
| WireTheory.TokenizeRoundTrip | ProtobufDemo/msg.pb.cc:251-254 | A list of records written in order is read back as that list, to a clean end |
| WireTheory.EncodeFieldsInjective | ProtobufDemo/msg.pb.cc:251-254 | Different lists of unknown records never have the same bytes |
| WireTheory.TokenizeAppend | ProtobufDemo/msg.pb.cc:166-210 | After input that ends cleanly, reading goes on with the bytes that follow |
| WireTheory.TokenizeWellFormed | ProtobufDemo/msg.pb.cc:205-209 | Every record that can be read, at any depth, can be written |
| WireTheory.FieldsSizeIsLength | ProtobufDemo/msg.pb.cc:288 | The recursive size of unknown records is the number of bytes written for them |
| WireGrammar.TagIff | ProtobufDemo/msg.pb.cc:168 | A tag is read exactly from the varint of at most five bytes in front, of which 32 bits are kept |
| WireGrammar.ValueIff | ProtobufDemo/msg.pb.cc:172-209 | Behind a tag a value is read exactly when bytes in front spell it by the wire type, and the field number is not 0; the rest is left over |
| WireGrammar.GroupIff | ProtobufDemo/msg.pb.cc:205-209 | A group is read exactly when its bytes split into records that read to a clean end and the end-group tag with the group's own number |
| WireGrammar.ForeignEndFails | ProtobufDemo/msg.pb.cc:205-216 | A group whose first stop is tag 0 or another group's end tag, or that the input ends in, makes the parse of any message fail |
| BookCodec.ApplyFields | ProtobufDemo/msg.pb.cc:219-257 | Applying the records written for one message to another message is merging |
| BookCodec.ParseSerialized | ProtobufDemo/msg.pb.cc:164-257 | Parsing the bytes of y into x gives x merged with y |
| BookCodec.RoundTrip | ProtobufDemo/msg.pb.cc:164-257 | Every Book with a valid name, any pages, any price bits and unknown records of no known kind is read back exactly, all bytes consumed |
| BookCodec.RoundTripIff | ProtobufDemo/msg.pb.cc:164-257 | Those conditions are exact: a Book with an invalid name, or with a known record among the unknown ones, is not read back as itself |
| BookCodec.ParsedIsWellFormed | ProtobufDemo/msg.pb.cc:169-209 | Any successful parse of any bytes leaves a message that meets the round trip's conditions, so parse after serialize after parse is parse |
| MessageFold.ParseAppend | ProtobufDemo/msg.pb.cc:166-216 | Parsing is a fold: after a parses cleanly, parsing a ++ b is parsing b from the state left by a |
| MessageFold.ParseRecord | ProtobufDemo/msg.pb.cc:166-210 | One turn of a parse loop: behind a tag that does not end the message the value is read, the record applied, and the parse goes on behind it; else it fails with the records so far applied |
| MessageFold.ApplyAllUnknown | ProtobufDemo/msg.pb.cc:196-209 | A message that stores what it does not know ends up with exactly the records of no known kind, in order |
| BookCodec.ConcatenationMerges | ProtobufDemo/msg.pb.cc:298-320 | The concatenated bytes of x and y parse as x merged with y |
| BookCodec.ConcatenationMergesIff | ProtobufDemo/msg.pb.cc:298-320 | For arbitrary bytes the concatenation parses as the merge exactly when no explicitly encoded default resets a field |
| BookCodec.ExplicitDefaultResets | ProtobufDemo/msg.pb.cc:172-178 | A concrete case where it does not: a Book with a name, followed by an explicit empty name, parses as the empty message, while merging keeps the name |
| BookCodec.MergeAssociative | ProtobufDemo/msg.pb.cc:298-320 | Merging is associative, unknown records in order |
| BookCodec.MergeIdentity | ProtobufDemo/msg.pb.cc:151-162 | The cleared message is the identity of merging on both sides |
| BookMessage.Book.InternalParse | ProtobufDemo/msg.pb.cc:164-217 | The dispatch loop, with its stop and failure exits, computes the record-by-record meaning of the input; after a failure, too, all fields are described except the one of a record that could not be read |
| BookMessage.Book.TakeField | ProtobufDemo/msg.pb.cc:166-209 | One turn of that loop behind a tag: the parse ends there with the right pointer and fields, or what is left to parse means the same as before |
| BookMessage.PagesFromVarint | ProtobufDemo/msg.pb.cc:181-187 | Tag 16 and any varint behind it, however spelled, set the pages to its number modulo 2^32, as a signed one, and parsing goes on behind it |
| BookMessage.PagesLow32 | ProtobufDemo/msg.pb.cc:181-187 | So a 64-bit varint that somebody else wrote is taken for its low 32 bits |
| BookMessage.PriceFromBytes | ProtobufDemo/msg.pb.cc:189-195 | Tag 29 and four bytes set the price bits to these bytes, least significant first |
| BookMessage.Book.ParseFromString | ProtobufDemo/ProtobufDemo.cpp:13 | Succeeds exactly when the input ends cleanly, not at tag 0 or an end-group tag, and then leaves a well-formed message |
| BookMessage.Book.InternalSerialize | ProtobufDemo/msg.pb.cc:219-257 | Writes the message's records at the target index, changes no other byte, and returns the index behind them |
| BookMessage.Book.ByteSizeLong | ProtobufDemo/msg.pb.cc:259-289 | The computed size is the number of bytes the serializer writes |
| BookMessage.Book.SerializeToString | ProtobufDemo/ProtobufDemo.cpp:10 | A buffer of exactly the computed size is filled to its end with the message's bytes; it fails exactly when they are more than INT_MAX |
| BookMessage.SerializeParts | ProtobufDemo/msg.pb.cc:225-254 | The bytes are tag 10 and name, tag 16 and pages, tag 29 and price, defaults skipped, then the unknown records |
| BookMessage.Book.Clear | ProtobufDemo/msg.pb.cc:151-162 | Resets every field and the unknown records |
| BookMessage.Book.MergeFrom | ProtobufDemo/msg.pb.cc:298-320 | Overwrites with non-default fields only and appends unknown records |
| BookMessage.Book.CopyFrom | ProtobufDemo/msg.pb.cc:322-327 | Makes the target equal to the source whatever it held, also when they are the same object |
| MsgCodec.RoundTrip | AsyncServer_useProtobuf/msg.pb.cc:156-231 | Every well-formed MsgData is read back exactly |
| MsgCodec.RoundTripIff | AsyncServer_useProtobuf/msg.pb.cc:156-231 | A MsgData is read back as itself exactly when its text is valid and no unknown record is a known one |
| MsgCodec.ParsedIsWellFormed | AsyncServer_useProtobuf/msg.pb.cc:161-193 | Any successful parse of any bytes leaves a message that survives a round trip |
| MsgCodec.CollectsUnknown | AsyncServer_useProtobuf/msg.pb.cc:183-193 | Exactly the records of no known kind are collected, in order |
| MsgMessage.MsgData.InternalParse | AsyncServer_useProtobuf/msg.pb.cc:156-201 | The dispatch loop computes the record-by-record meaning of the input; after a failure, too, all fields are described except the one of a record that could not be read |
| MsgMessage.MsgData.TakeField | AsyncServer_useProtobuf/msg.pb.cc:158-193 | One turn of that loop behind a tag: the parse ends there with the right pointer and fields, or what is left to parse means the same as before |
| MsgMessage.IdFromVarint | AsyncServer_useProtobuf/msg.pb.cc:163-168 | Tag 8 and any varint behind it, however spelled, set the id to its number modulo 2^32, as a signed one, and parsing goes on behind it |
| MsgMessage.IdLow32 | AsyncServer_useProtobuf/msg.pb.cc:163-168 | So a 64-bit varint that somebody else wrote is taken for its low 32 bits |
| MsgMessage.MsgData.ParseFromString | SyncClient_useProtobuf/SyncClient_useProtobuf.cpp:46 | Succeeds exactly when the input ends cleanly, and then leaves a well-formed message |
| MsgMessage.MsgData.InternalSerialize | AsyncServer_useProtobuf/msg.pb.cc:203-231 | Writes the message's records at the target index, changes no other byte, and returns the index behind them |
| MsgMessage.MsgData.ByteSizeLong | AsyncServer_useProtobuf/msg.pb.cc:233-254 | The computed size is the number of bytes the serializer writes |
| MsgMessage.MsgData.SerializeToString | SyncClient_useProtobuf/SyncClient_useProtobuf.cpp:28 | A buffer of exactly the computed size is filled to its end with the message's bytes; it fails exactly when they are more than INT_MAX |
| PassThrough.LandsUnknown | AsyncServer_useProtobuf/msg.pb.cc:156-201 | A Book lands whole among a MsgData's unknown records, id 0 and text empty, exactly when none of its own unknown records is one that MsgData knows |
| PassThrough.LosslessPassThrough | AsyncServer_useProtobuf/msg.pb.cc:156-231 | Such a Book's bytes come back from a MsgData program byte for byte and still parse as that Book |
| PassThrough.MsgReturnsIff | AsyncServer_useProtobuf/msg.pb.cc:156-231 | Any written records come back from a MsgData program byte for byte exactly when they are at most a canonical id that is not 0, at most a valid text that is not empty, then records of no known kind |
| PassThrough.LosslessIff | AsyncServer_useProtobuf/msg.pb.cc:156-231 | A Book comes back byte for byte exactly when its records are such; with a name, pages or a price, exactly when none of its unknown records is known to MsgData |
| PassThrough.PassThroughKeepsFields | AsyncServer_useProtobuf/msg.pb.cc:156-231 | Even with colliding records, whatever a MsgData program parses and writes again still parses as a Book with the same name, pages and price |
| PassThrough.LandsUnknownInBook | ProtobufDemo/msg.pb.cc:164-217 | A MsgData lands whole among a Book's unknown records, all fields default, exactly when none of its own unknown records is one that Book knows |
| PassThrough.LosslessThroughBook | ProtobufDemo/msg.pb.cc:164-257 | Such a MsgData's bytes come back from a Book program byte for byte and still parse as that MsgData |
| Bytes.Copy | CoroutineService/MsgNode.cpp:9-12 | A memory copy changes the bytes it covers and no others |
| Frames.NetworkRoundTrip | JsonClient/JsonClient.cpp:52-53 | Any short survives conversion to network order and back |
| Frames.NetworkOrder | CoroutineService/MsgNode.cpp:8-11 | A short is written most significant byte first |
| Frames.FrameRoundTrip | JsonClient/JsonClient.cpp:46-56 | Read four bytes, then as many as they say: gives back the id and payload and the bytes behind the frame |
| Frames.FrameIff | JsonClient/JsonClient.cpp:46-56 | A message is read from the front exactly when the bytes begin with its frame, with at most 32767 payload bytes; all other bytes are refused |
| Frames.StreamRoundTrip | JsonClient/JsonClient.cpp:46-56 | Any list of messages decodes from its concatenated frames to exactly that list |
| Frames.StreamIff | JsonClient/JsonClient.cpp:46-56 | A list of messages is read exactly when the bytes are their frames, one after the other |
| Frames.FramesPrefixFree | CoroutineService/MsgNode.cpp:5-14 | No frame is a proper prefix of another |
| Frames.FrameLengthFitsShort | CoroutineService/MsgNode.cpp:6 | The buffer length in short arithmetic is the real frame length exactly up to 32763 payload bytes |
| Frames.MsgNode.constructor | CoroutineService/MsgNode.h:10-13 | Allocates the capacity and one byte more, which holds the terminator |
| Frames.MsgNode.Clear | CoroutineService/MsgNode.h:18-21 | Zeroes the bytes in front of the terminator and the received count |
| Frames.WriteFrame | CoroutineService/MsgNode.cpp:8-12 | The three copies put exactly the frame at the start of a buffer and leave what is behind it alone |
| Frames.SendNode.constructor | CoroutineService/MsgNode.cpp:5-14 | The buffer holds exactly the frame and the terminator behind it |
| Frames.SendNode.Make | CoroutineService/MsgNode.cpp:5-14 | For payloads of any length: the buffer holds the frame exactly up to 32763 bytes; above that the length in short arithmetic wraps, and either the allocation throws or fewer bytes are allocated than the copies write |
| Frames.AllocationThrowsIff | CoroutineService/MsgNode.cpp:6 | The allocation throws exactly for lengths that are 32764 to 65530 modulo 2^16 |
| JsonClient.SendFrame | JsonClient/JsonClient.cpp:33-42 | The send buffer holds the frame, zeros behind it |
| JsonClient.ReceiveFrame | JsonClient/JsonClient.cpp:46-58 | Reads the head, then the body, clipped to the array; the reply depends on the bytes only, not on how they arrive, and exactly the bytes read are consumed |
| JsonClient.FirstReplyMeans | JsonClient/JsonClient.cpp:46-58 | Behind the head at most 2048 bytes are wanted: the reply is lost exactly when fewer come, a negative length then throws and one over 2048 is read beyond the array |
| JsonClient.ReplyRoundTrip | JsonClient/JsonClient.cpp:46-58 | A framed reply is received exactly when its payload fits the 2048-byte array; for a longer one the read stops at the array's end and the string is built from more bytes than the array has |
| Readers.Socket.ReadExactly | JsonClient/JsonClient.cpp:47 | A read of n bytes over arrivals cut anywhere takes the first n bytes, or fails at the end of the stream |
| Readers.ReadFrames | JsonClient/JsonClient.cpp:46-56 | Reading head and body again and again over arrivals cut anywhere gives what the bytes decode to |
| Readers.ReadFrame | JsonClient/JsonClient.cpp:46-56 | Head and body are read once: the message and the bytes behind it are those that decoding the pending bytes gives |
| Readers.ReadCutFrames | JsonClient/JsonClient.cpp:46-56 | Any messages of at most 32763 payload bytes, encoded one after the other and cut anywhere, are read from the socket as exactly those messages |
| Chat.SendRequest | SyncClient_useProtobuf/SyncClient_useProtobuf.cpp:24-35 | The client's send buffer holds the framed, serialized request |
| Chat.ReceiveReply | SyncClient_useProtobuf/SyncClient_useProtobuf.cpp:36-47 | What the client displays is what the bytes that come back allow, however they are cut: the fields that parsing left, whether or not it succeeded; a length over the array is read clipped and parsed beyond it |
| Chat.ShowsMeans | SyncClient_useProtobuf/SyncClient_useProtobuf.cpp:36-47 | Behind the head at most 2048 bytes are wanted: the answer is lost exactly when fewer come; negative and over-long lengths are told apart |
| Chat.RejectedShown | SyncClient_useProtobuf/SyncClient_useProtobuf.cpp:43-47 | A message that the parse refuses because its text is not UTF-8 is shown all the same |
| Chat.RequestArrives | SyncClient_useProtobuf/SyncClient_useProtobuf.cpp:24-35 | For every id and valid text that fits the send buffer, unframing and parsing the request gives back the id and text |
| Chat.ShowFrame | SyncClient_useProtobuf/SyncClient_useProtobuf.cpp:36-47 | A framed message is displayed exactly when it fits the receive array, and parsed beyond the array's end otherwise |
| Chat.AnswerSize | SyncClient_useProtobuf/SyncClient_useProtobuf.cpp:43-46 | The answer fits the receive array exactly when text, id, the server's words and three bytes more are at most 2048 together |
| Chat.Exchange | SyncClient_useProtobuf/SyncClient_useProtobuf.cpp:24-47 | For every id and valid text that fits the send buffer and every cutting of the request: one delivery, any answer to it has the same id and text, and the client displays that answer exactly when it came split or text and id leave room for the server's words |
| Chat.OverlongAnswer | SyncClient_useProtobuf/SyncClient_useProtobuf.cpp:43-46 | A concrete family that is not displayed: with id 1001, any ASCII text of 2006 to 2040 bytes that arrives in one piece |
| Chat.Converse | SyncClient_useProtobuf/SyncClient_useProtobuf.cpp:24-47 | Sending the request, handling each arrival, answering the delivery and receiving the reply, run one after the other with both directions cut at will, display what Exchange says |
| RoundRobin.Share | CoroutineService/AsioIOServicePool.cpp:15-23 | After k calls context i was handed out ceil((k - i) / n) times when i < k and never otherwise |
| RoundRobin.Balanced | CoroutineService/AsioIOServicePool.cpp:15-23 | Counts of two contexts differ by at most one |
| RoundRobin.Window | CoroutineService/AsioIOServicePool.cpp:15-23 | Any n calls in a row hand out every context exactly once |
| RoundRobin.Index | CoroutineService/AsioIOServicePool.cpp:4-22 | The index stays in range |
| RoundRobin.AsioIOServicePool.GetIOContext | CoroutineService/AsioIOServicePool.cpp:15-23 | Call k hands out the context at the wrapped index |
| ServicePool.StepInv | CoroutineService/AsioIOServicePool.cpp:4-38 | Every step of main thread, workers and posters keeps the invariant: guards before threads, handlers queued, in hand or run, once and in order, a context stopped exactly when its work is gone, joins in turn |
| ServicePool.NoExitBeforeStop | CoroutineService/AsioIOServicePool.cpp:6-13 | In no interleaving does a context stop, or a worker leave run(), before stop is called |
| ServicePool.History | CoroutineService/AsioIOServicePool.cpp:4-38 | In every run what was posted to a context and how many of its handlers returned is what the run's events say, in order |
| ServicePool.CatchesUp | CoroutineService/AsioIOServicePool.cpp:9-13 | As long as a context has not stopped, its worker can run all that is queued without anybody else moving |
| ServicePool.StopDrains | CoroutineService/AsioIOServicePool.cpp:29-38 | When stop has returned, everything posted to a context before that context stopped has run, once and in order |
| ServicePool.PostedRunsIff | CoroutineService/AsioIOServicePool.cpp:29-38 | A handler posted by anybody has run when stop returns exactly when its context had not stopped yet, that is, had not lost its last work; whether its worker is still in run() does not matter |
| ServicePool.UnservedHandler | CoroutineService/AsioIOServicePool.cpp:29-38 | A concrete run of two contexts: stop has reset the first guard, the first worker is still in run(), a handler of the second context posts to the first, and stop returns with that post never run |
| ServicePool.SomeoneCanMove | CoroutineService/AsioIOServicePool.cpp:29-38 | Neither constructor nor stop can deadlock |
| ServicePool.StopTerminates | CoroutineService/AsioIOServicePool.cpp:29-38 | From the call of stop on, the pool's threads take at most four steps a context, two more, and two for each handler queued then or posted since |
| ServicePool.StopReturns | CoroutineService/AsioIOServicePool.cpp:4-38 | From any state stop can be called and return by steps of the pool's own threads alone |
| ThreadPool.StepInv | AsyncServer/IOThreadPool.cpp:3-27 | Every step keeps the invariant: each handler posted is queued, in a worker's hands or finished, once |
| ThreadPool.NoExitBeforeStop | AsyncServer/IOThreadPool.cpp:3-13 | In no interleaving does a worker leave run() before stop is called |
| ThreadPool.History | AsyncServer/IOThreadPool.cpp:3-27 | In every run the handlers posted are those that the run's events post, in order |
| ThreadPool.HistoryCounts | AsyncServer/IOThreadPool.cpp:3-27 | In every run as many handlers were taken and finished as its events take and finish |
| ThreadPool.StopAbandons | AsyncServer/IOThreadPool.cpp:20-22 | Once the stopped flag is set no handler is taken any more, so what is queued never runs |
| ThreadPool.AfterStop | AsyncServer/IOThreadPool.cpp:20-27 | When stop has returned all workers are gone, the handlers taken are those finished, and nothing ever runs again |
| ThreadPool.AbandonedIff | AsyncServer/IOThreadPool.cpp:3-27 | A handler posted at any time, during construction included, can never run exactly when the stopped flag is set by then or there are no workers at all |
| ThreadPool.SomeoneCanMove | AsyncServer/IOThreadPool.cpp:20-27 | The shutdown cannot deadlock |
| ThreadPool.StopTerminates | AsyncServer/IOThreadPool.cpp:20-27 | From the call of stop on, main thread and workers take at most three steps a worker and two more, whatever is posted |
| ThreadPool.StopReturns | AsyncServer/IOThreadPool.cpp:3-27 | From any state stop can be called and return by steps of main thread and workers alone |
| HttpServer.StepKeepsConn | beast_http_server/beast_http_server.cpp:39-170 | Every completion and handler keeps the connection invariant, in every interleaving |
| HttpServer.OneAtATime | beast_http_server/beast_http_server.cpp:52-61 | At most one of read and write is pending and at most one response is written |
| HttpServer.WorkDecreases | beast_http_server/beast_http_server.cpp:39-170 | Every event strictly decreases the work left |
| HttpServer.ConnRun | beast_http_server/beast_http_server.cpp:39-170 | A connection sees at most seven events from its start; what was read and written, its responses, its shutdown and its closing follow from those events alone |
| HttpServer.CanServe | beast_http_server/beast_http_server.cpp:52-161 | Any request can be served, with the response of the dispatch, on an open connection that is still being read |
| HttpServer.CanTimeOut | beast_http_server/beast_http_server.cpp:163-170 | A connection whose timer runs can be closed by it, which ends the operations that run on the socket |
| HttpServer.QuietIsClosed | beast_http_server/beast_http_server.cpp:154-170 | When nothing is pending, the deadline closed the socket or the write handler shut down sending; a response was written exactly when the read succeeded |
| HttpServer.NotQuietMoves | beast_http_server/beast_http_server.cpp:39-170 | A connection with something pending can always move |
| HttpServer.HandleShowsOnce | beast_http_server/beast_http_server.cpp:62-86 | No handler lets a number be in two responses, of one connection or of different ones |
| HttpServer.HandleKeeps | beast_http_server/beast_http_server.cpp:174-183 | Every handler of the server keeps the server invariant |
| HttpServer.EveryRun | beast_http_server/beast_http_server.cpp:174-183 | In every run one accept is pending; connections are started once for each accept event that succeeded; GET /count was answered in processing order with 1, 2, ..., K, K being how often the run's events read it, each number in the response of exactly one connection; every connection sees at most seven events and its state follows from them |
| HttpServer.ProgramState.RequestCount | beast_http_server/beast_http_server.cpp:24-27 | Returns the incremented counter |
| HttpServer.HttpConnect.ReadHandler | beast_http_server/beast_http_server.cpp:52-61 | The read handler, with request processing, is the connection's read step |
| HttpServer.HttpConnect.ProcessRequest | beast_http_server/beast_http_server.cpp:62-86 | Builds the response of the dispatch on method and target, counts, and starts the write |
| HttpServer.HttpConnect.CreateResponse | beast_http_server/beast_http_server.cpp:87-121 | Fills in the response to a GET |
| HttpServer.HttpConnect.CreatePostResponse | beast_http_server/beast_http_server.cpp:122-151 | Fills in the response to a POST |
| HttpServer.HttpConnect.WriteHandler | beast_http_server/beast_http_server.cpp:154-161 | Shuts down sending and cancels the deadline |
| HttpServer.HttpConnect.DeadlineHandler | beast_http_server/beast_http_server.cpp:163-170 | Closes the socket unless the timer was cancelled, aborting what runs on it |
| SessionMap.StepKeeps | CoroutineService/CServer.cpp:9-33 | Accepting and clearing keep the registry invariant |
| SessionMap.EveryRun | CoroutineService/CServer.cpp:9-33 | In every run one accept is armed, with the session created last; the sessions started are those whose accept event had no error; the map holds exactly those of them that no later event cleared |
| SessionMap.ClearedForGood | CoroutineService/CServer.cpp:9-13 | A cleared session never comes back, and clearing it again changes nothing |
| SessionMap.CServer.HandleAccept | CoroutineService/CServer.cpp:22-33 | Starts and registers the session unless there was an error, then re-arms the accept |
| SessionMap.CServer.ClearServer | CoroutineService/CServer.cpp:9-13 | Removes the session from the map and nothing else |
| SessionMap.CServer.StartAccept | CoroutineService/CServer.cpp:15-20 | Arms one accept with a new session |

## Callback and coroutine sessions

The members that model `AsyncServer/Session.cpp`, `AsyncServer_useProtobuf/Session.cpp` and
`CoroutineService/CSession.cpp`, with what they state:

- `Readers.CSession.Start` (CoroutineService/CSession.cpp, lines 29-84): The receive loop posts what the byte stream says, however it is cut, and leaves the session map; the socket is closed unless the length was too long.
- `Readers.SessionDelivers` (CoroutineService/CSession.cpp, lines 43-69): Of encoded messages the session posts those in front of the first empty or over-long one, which is also why it ends; so all of them exactly when every payload has 1 to 2048 bytes.
- `Readers.ReceiveEnd` (CoroutineService/CSession.cpp, lines 37-69): How the loop ends on bytes that begin with no such message: end of stream, negative, over-long or zero length, by the bytes of the head alone.
- `Readers.ReceiveAppend` (CoroutineService/CSession.cpp, lines 29-84): Behind messages that it posts, the loop goes on with the bytes that follow them.
- `Readers.EmptyMessageCloses` (CoroutineService/CSession.cpp, lines 43-69): A concrete case: a single empty message is taken for a closed connection.
- `PushSession.Session.TakeHead` (AsyncServer/Session.cpp, lines 103-191): One turn of the read handler's loop without the head-parsed flag.
- `PushSession.Session.TakeBodyBehind` (AsyncServer/Session.cpp, lines 122-190): The rest of that turn behind a complete head: refuse it, keep a partial body, or deliver the message and go on.
- `PushSession.Session.Deliver` (AsyncServer/Session.cpp, lines 159-190): A body that is whole when its head is: the message is delivered, the head cleared, and the bytes behind it are left for the next turn.
- `PushSession.Session.TakeBody` (AsyncServer/Session.cpp, lines 192-230): One turn with the flag set, as the loop body computes it unless the old body is already complete.
- `PushSession.Session.HandleRead` (AsyncServer/Session.cpp, lines 94-240): One call of the read handler moves the session and delivers messages as the reference semantics says.
- `PushSession.SpinsForever` (AsyncServer/Session.cpp, lines 192-230): With the old body complete and bytes left, any number of turns deliver it again and consume nothing: the loop never ends.
- `PushSession.SpinningIff` (AsyncServer/Session.cpp, lines 192-230): The reference semantics says that an arrival hangs the session exactly when the loop as written goes on for any number of turns.
- `PushTheory.DeliversIffClean` (AsyncServer/Session.cpp, lines 94-240): The session hangs exactly when some arrival ends inside the body of a message that another one follows, and otherwise delivers exactly the messages sent, in order.
- `PushTheory.RefusesIffClean` (AsyncServer/Session.cpp, lines 94-240): With a refused head and any bytes behind acceptable messages, and any cutting: unless it hangs before that, the session delivers exactly the messages in front and is closed, for an id or length over 2048 without a fault, else for a negative length with one.
- `PushTheory.RefusesMessage` (AsyncServer/Session.cpp, lines 122-144): For any messages, the first of them with an id or length over the limit: the session delivers exactly those in front and is closed, unless a cut body hangs it before.
- `PushTheory.HangsOnSplitBody` (AsyncServer_useProtobuf/Session.cpp, lines 168-195): A concrete stream of two messages on which the server hangs.
- `PushTheory.AfterCut` (AsyncServer_useProtobuf/Session.cpp, lines 168-195): After a cut body the last message is still delivered and any other one hangs the session.
- `PushTheory.WholeFirst` (AsyncServer_useProtobuf/Session.cpp, lines 92-166): An arrival that covers a message delivers it and treats its rest as a new arrival.
- `PushTheory.FrameIsEncoded` (AsyncServer/Session.cpp, lines 116-137): The frames of these theorems are, with an id in the head, those that the sending side encodes.
- `Chat.AnswerDelivery` (AsyncServer_useProtobuf/Session.cpp, lines 141-187): A whole message is parsed and, whether or not that succeeded, answered with the id and the server's words in front of the text that the parse left; a split one is sent back as it is.
- `Chat.RejectedAnswered` (AsyncServer_useProtobuf/Session.cpp, lines 141-187): A whole message that the parse refuses because its text is not UTF-8 is answered with that text all the same.
- `Chat.SingleDelivery` (AsyncServer_useProtobuf/Session.cpp, lines 81-197): A single request is delivered once however it arrives, whole exactly when its body is not cut.

## Left out

- BookMessage.Book.InternalParse: when a record cannot be read, what has been put into the field it was meant for by then is left open, as is any one field when not even the tag could be read; the other fields are described. The protobuf library's own padding behind the input is not part of this model: an input that ends inside a tag fails at once, with the null pointer.
- BookMessage.Book.TakeField: leaves the field of a record that cannot be read open, like `InternalParse`.
- MsgMessage.MsgData.TakeField: the same.
- MsgMessage.MsgData.InternalParse: the same, except that the text is at most 16 bytes longer than the input, the parser's slop.
- Frames.SendNode.constructor: requires a payload whose frame length does not wrap around; longer ones are covered by `Make`.
- Frames.SendNode.Make: where the copies write outside the buffer, what that overwrites is not followed.
- JsonClient.ReceiveFrame: what comes of reading past the array is not followed further than naming it.
- Chat.ReceiveReply: the same, and likewise for a negative length given to the parser.
- Arenas, descriptors, reflection, cached sizes, `InternalSwap`, the parser's slop region and its recursion limit: they do not change what messages mean.
- `MergeFrom` and `CopyFrom` of `MsgData`: the same proofs as for `Book` with fewer fields.
- The UTF-8 warning of the serializer, which writes the bytes anyway.
- PushSession.Session.TakeBody: a turn on an old body that is already complete is not run but reported as `Stuck`, because the loop it belongs to never ends; `SpinsForever` describes those turns.
- PushSession.Session.HandleRead: the receive nodes are represented by the bytes copied into them so far; a negative length ends the session as `Faulted`. Below -1 that is an allocation that throws; for -1 it succeeds, the comparison of an unsigned count with the negative length then takes the body for incomplete, and the arrival is copied into an empty buffer, which is not followed.
- Readers.CSession.Start: a negative length ends the session like the exception that allocating its buffer throws; for -1 the allocation succeeds and the program has no defined behaviour.
- The pools as objects with thread handles: constructor and `stop` loops are steps of a main thread in `ServicePool` and `ThreadPool`, one turn a step; only the round robin is a class.
- Send queues and write completions of the sessions, and the logic thread behind them.
- Prices as floating-point numbers: only their 32 bits matter to the code.
- The JSON texts, their parser, and the body of the POST /email answer.
- Sockets, signals, console output, Boost and gRPC; the gRPC services with one string field each; the echo servers, the WebSocket server and the other clients: no further logic of this kind.
- SessionMap.CServer.HandleAccept: a session that cleared itself inside `start()`, before it is inserted, would stay in the map; completions are never delivered inside `start()`, so this is not modelled.
- The time shown by GET /time.
