# Verified models of uvw_net

uvw_net is a C++ library of network clients on top of the uvw event loop. This project models three
connected parts of it in Dafny and proves what they promise.

**DNS service discovery.** `DnsParser` decodes names with compression pointers, `DnsMessage` parses messages,
`DnsEncoder` writes queries and `DnsServiceDiscovery` uses both. `DnsNameSpec` states section 4.1.4 of RFC 1035
as a relation, which the decoder refines; `DnsDivergence` and `DnsMessageDivergence` say exactly when decoding
does not return; `DnsMessageSpec` states the message format of RFC 1035 and RFC 2782 as a relation, compression
included, which the parser refines, and `DnsLayout` writes messages out byte by byte; `DnsRoundTrip` and `DnsSeveralQuestions` say what reads back.

**Modbus/TCP.** `ModbusFrame` reads and writes frames and requests, `ModbusClient` is the client object with its
read buffer, its map of pending transactions and its wrapping id. Frames follow section 3.1.3 of the MODBUS
Messaging on TCP/IP Implementation Guide V1.0b, exceptions section 7 of MODBUS Application Protocol V1.1b3.
`ModbusReassembly`, `ModbusCorrelation` and `ModbusConservation` are about whole runs of the client.

**SunSpec.** `SunSpecModels` decodes model blocks, `SunSpecClient` is the client object and `SunSpecDiscovery` the
discovery that holds candidates. `SunSpecProtocol` gives the effect of each handler as a value; `SunSpecSystem`
puts the client together with a network, `SunSpecWalk` with a bus of compliant devices (a map from unit to
registers), `SunSpecRouting` with a user who reads models; `SunSpecOutcomes` decides how discovery comes out on any
bus, and `SunSpecEndToEnd` goes from a device's registers to the models that this user is given.

Code that updates state in place is modelled by classes and methods with loops, each proved equal to a pure
function; the theorems are about those functions, over all inputs and whole runs.

Conventions of the model:

- A parser sees memory as a total function from address to byte, and is told where its tail is. The bytes at and
  past the tail are arbitrary, because the code looks at them (src/uvw_net/dns_sd/DnsParser.cpp:45 and :68).
- A run of the name decoder that would never return is the result `Diverges`. The decoder takes a budget of hops;
  `DnsDivergence.TailHopsAreExact` proves that the budget it is given changes nothing.
- Any byte with a top bit set is a pointer (src/uvw_net/dns_sd/DnsParser.cpp:46); the test for 64 or more behind it
  (line 68) can never be reached with such a byte. Bits 11 are asked for in the specification only.
- `enum_cast` knows small enumerators only (by default up to 127), so types from 249 on read as `Invalid`.
- A host is little-endian, as the byte swaps assume.
- Publishing runs listeners synchronously. `listed` says that those of the discovery are attached to a client; they
  detach at the first close, connect or error notice. The one for exceptions is part of the client object, because
  it runs in the middle of a handler; the others run when the handler is done, whose last act such a notice is.

Where comments or tests and code disagree, the model follows the code: a client does not probe when it is
constructed (src/uvw_net/sunspec/SunSpecDiscovery.cpp:23 and src/uvw_net/sunspec/SunSpecClient.h:19) but when the
discovery tells it to (line 41); a connection of the Modbus client is not passed on as a connection of the SunSpec
client (src/uvw_net/sunspec/SunSpecClient.cpp:26-29, against tests/uvw_net/sunspec/SunSpecClientTest.cpp:46-53);
RFC 1035 wants pointers to go back, which the parser does not check.

What does not hold of the code, each with its exact condition or a concrete input in the table below:
a question for the root at the end of a message is rejected (`DnsMessageSpec.MessageRefinesRfc1035`), as are empty
texts and service targets of one byte (`DnsMessageSpec.DataIsRead`); unterminated names and reserved label types are accepted; cyclic
pointers keep the parser from returning (`DnsMessageDivergence.MessageDivergesIffNameLoops`); messages of two or
more questions do not read back, unless the first of them has type `Invalid`
(`DnsSeveralQuestions.ReadsBackIffOneQuestion`, `DnsSeveralQuestions.TwoQuestionsReadBack`); responses of more than
127 values do not read back (`ModbusCodec.ResponseRoundTrip`); bytes behind a frame are lost, and so is the part of
a frame that was read before a write completes (`ModbusReassembly.WriteWithinFrameLosesIt`); an unsolicited frame
can make the client forget a request (`ModbusConservation.UnsolicitedFrameForgetsRequest`,
`ModbusCorrelation.StepCorrelates`); a foreign unit ends a discovery before a SunSpec device is found
(`SunSpecWalk.DiscoveryStopsAtForeignUnit`); a device that refuses to have a model entry read leaves its client
listed for ever, neither published nor dropped (`SunSpecOutcomes.OutcomeIsDecided`); and a model whose payload has
not the size that its factory wants is published although nothing has been decoded from it
(`SunSpecDecoding.DecodedIsSaid`, `SunSpecEndToEnd.MisfitExample`).

`dafny verify dfyconfig.toml` checks the project.

## Model

| member | source | states |
|---|---|---|
| `DnsParser.ParseLabels` | src/uvw_net/dns_sd/DnsParser.cpp:33-88 | the loop over labels, with its recursion on pointers, appends to the labels collected so far exactly those that the recursive decoder finds, or fails as it does; the size counts the bytes before the first jump only |
| `DnsParser.ParseName` | src/uvw_net/dns_sd/DnsParser.cpp:9-31 | the decoded name of every address, accepted, rejected or never returned from |
| `DnsParser.Concatenate` | src/uvw_net/dns_sd/DnsParser.cpp:22-27 | the loop leaves every label in order, each followed by a dot |
| `DnsNameSpec.NameRefinesRfc1035` | src/uvw_net/dns_sd/DnsParser.cpp:9-88 | at every well-formed address the relation of section 4.1.4 of RFC 1035 holds of exactly one list of labels and takes at most as many pointers as the address; the decoder returns that list dotted, and for its size the name's own footprint, which ends within the buffer |
| `DnsNameCompleteness.TailPointersSuffice` | src/uvw_net/dns_sd/DnsParser.cpp:53-59 | a name that takes any number of pointers takes no more than there are addresses in the buffer |
| `DnsNameCompleteness.EncodedIffContained` | src/uvw_net/dns_sd/DnsParser.cpp:33-88 | whatever the direction and the number of pointers: some labels are encoded at an address if and only if decoding stays inside the buffer and every pointer starts with bits 11, and then those labels are returned |
| `DnsNameSpec.ScanOfName` | src/uvw_net/dns_sd/DnsParser.cpp:33-88 | soundness: whenever the relation holds, the decoder returns the related labels, with any hop budget from the needed one on |
| `DnsNameSpec.NameOfScan` | src/uvw_net/dns_sd/DnsParser.cpp:33-88 | completeness: what the decoder returns for a name inside the buffer is related to its address |
| `DnsNameSpec.NameIsUnique` | src/uvw_net/dns_sd/DnsParser.cpp:33-88 | the relation is functional |
| `DnsNameSpec.WellFormedIsContained` | src/uvw_net/dns_sd/DnsParser.cpp:46-60 | decoding of well-formed names terminates by segment start and distance to the tail, with no more hops than the start of the segment |
| `DnsNameSpec.ScanFootprint` | src/uvw_net/dns_sd/DnsParser.cpp:61-87 | the size is the sum of the own labels with their length bytes, plus one for a terminator or two for a pointer, and the own labels come first in the name |
| `DnsNameSpec.AcceptsUnterminatedName` | src/uvw_net/dns_sd/DnsParser.cpp:45-80 | a concrete name that is not terminated inside the buffer is accepted, with a size beyond the tail |
| `DnsNameSpec.AcceptsReservedBits` | src/uvw_net/dns_sd/DnsParser.cpp:46-48 | a concrete byte with top bits 01 is followed as a pointer, although it encodes no labels |
| `DnsDivergence.TailHopsAreExact` | src/uvw_net/dns_sd/DnsParser.cpp:53-59 | decoding fails to return if and only if its pointers come back to a segment they have left; otherwise no more than `tail` hops are needed, so that a hop budget of `tail` changes nothing |
| `DnsDivergence.DivergesIffChain` | src/uvw_net/dns_sd/DnsParser.cpp:45-67 | a budget of pointers is used up if and only if the segments are chained by one more legal pointer than it allows |
| `DnsDivergence.MoreHops` | src/uvw_net/dns_sd/DnsParser.cpp:45-67 | a run that returns gives the same result with every larger budget |
| `DnsDivergence.LongChainRevisits` | src/uvw_net/dns_sd/DnsParser.cpp:49-55 | a chain of more pointers than there are addresses visits one of them twice |
| `DnsDivergence.RevisitForever` | src/uvw_net/dns_sd/DnsParser.cpp:53-59 | a segment that is visited twice is visited forever |
| `DnsMessage.ParseQuestion` | src/uvw_net/dns_sd/DnsMessage.cpp:37-57 | the question at an offset of any memory, or its rejection |
| `DnsMessage.ParseAnswer` | src/uvw_net/dns_sd/DnsMessage.cpp:59-91 | the record at an offset of any memory, or its rejection |
| `DnsMessage.ReadDnsRecordData` | src/uvw_net/dns_sd/DnsMessage.cpp:99-164 | the data of a record of each type, with its own reasons to reject |
| `DnsMessage.ReadService` | src/uvw_net/dns_sd/DnsRecordDataSrv.cpp:12-33 | service data, whose target is decoded with the end of the record for its tail, and left empty when that fails |
| `DnsMessage.ParseQuestions` | src/uvw_net/dns_sd/DnsMessage.cpp:217-224 | the loop parses as many questions as counted, each where the one before ends, or rejects all |
| `DnsMessage.ParseRecords` | src/uvw_net/dns_sd/DnsMessage.cpp:227-234 | the same for the records of one section |
| `DnsMessage.ParseSections` | src/uvw_net/dns_sd/DnsMessage.cpp:226-251 | the three sections follow each other |
| `DnsMessage.FromBuffer` | src/uvw_net/dns_sd/DnsMessage.cpp:171-254 | the message that a buffer holds, as far as the parser is concerned; its meaning is given by `DnsLayout.MessageIsRead` and `DnsMessageProperties.SuccessTilesBuffer` |
| `DnsMessageProperties.SuccessTilesBuffer` | src/uvw_net/dns_sd/DnsMessage.cpp:210-251 | accepted questions and records occupy consecutive spans of positive length, from 12 to within the buffer; there are as many as the header counts, but no records in a message that is not a response |
| `DnsMessageProperties.QuestionSpans` | src/uvw_net/dns_sd/DnsMessage.cpp:37-57 | the span of a question is its name's footprint and four bytes, from which type and class are read |
| `DnsMessageProperties.RecordSpans` | src/uvw_net/dns_sd/DnsMessage.cpp:59-133 | the span of a record is the owner's footprint, ten bytes and RDLENGTH; a name-valued record with data fills it with a name whose footprint is RDLENGTH |
| `DnsMessageProperties.TrailingBytesKeepMessage` | src/uvw_net/dns_sd/DnsMessage.cpp:171-254 | if a buffer is accepted and each name the parser reached is decoded within its own tail, as well-formed ones are, then every longer buffer that starts with it gives the same message, for all kinds of records |
| `DnsMessageProperties.DataAgrees` | src/uvw_net/dns_sd/DnsMessage.cpp:99-164 | the same for the data of one record, including the record-local tail of service data |
| `DnsMessageDivergence.MessageDivergesIffNameLoops` | src/uvw_net/dns_sd/DnsMessage.cpp:171-254 | parsing never returns if and only if the parser reaches, everything before being accepted, a question or record one of whose names comes back to a segment it has left |
| `DnsMessageDivergence.RecordDivergesIffLoops` | src/uvw_net/dns_sd/DnsMessage.cpp:59-164 | the same for one record: its owner, the host name that is its data, or the target of a service within the record |
| `DnsMessageSpec.MessageRefinesRfc1035` | src/uvw_net/dns_sd/DnsMessage.cpp:171-254 | whatever pointers its names use: a buffer that holds a message in the sense of RFC 1035 and RFC 2782, with or without bytes behind it, is read as exactly its contents if it is a response whose records are readable, rejected if one of them is not, and read as its questions if it is no response; only a buffer that ends with a question for the root is rejected |
| `DnsMessageSpec.SpeltNameIsRead` | src/uvw_net/dns_sd/DnsParser.cpp:9-88 | a name spelt with or without pointers is decoded, and its size is that of the spelling in place |
| `DnsMessageSpec.QuestionIsRead` | src/uvw_net/dns_sd/DnsMessage.cpp:37-57 | a question is read, except a question for the root at the very end of the buffer |
| `DnsMessageSpec.RecordIsRead` | src/uvw_net/dns_sd/DnsMessage.cpp:59-91 | a record is read if its data is readable, and rejected if not |
| `DnsMessageSpec.DataIsRead` | src/uvw_net/dns_sd/DnsMessage.cpp:99-164 | exactly texts without a byte behind their length and service targets of a single byte are rejected; all other data is read |
| `DnsLayout.MessageIsLaidOut` | src/uvw_net/dns_sd/DnsMessage.cpp:171-254 | every message written out byte by byte without compression is held by its own bytes, in that sense |
| `DnsLayout.MessageIsRead` | src/uvw_net/dns_sd/DnsMessage.cpp:171-254 | and so is read: a response as exactly its contents unless one of its records is not readable, any other message as its questions; only one that ends with a question for the root is rejected |
| `Strings.Split` | src/uvw_net/dns_sd/DnsMessage.cpp:15-27 | the search loop yields the pieces between delimiters |
| `Strings.JoinedParts` | src/uvw_net/dns_sd/DnsMessage.cpp:15-27 | joining the pieces gives the string back; no piece holds the delimiter, and there is one more of them than delimiters |
| `Strings.PartsJoined` | src/uvw_net/dns_sd/DnsMessage.cpp:15-27 | splitting the join of any non-empty list of delimiter-free pieces gives the list back |
| `DnsEncoder.ToBuffer` | src/uvw_net/dns_sd/DnsMessage.cpp:256-308 | the buffer that the nested loops grow, resize and overwrite in place is the one of the pure encoder, for every message |
| `DnsEncoder.EncodeQuestion` | src/uvw_net/dns_sd/DnsMessage.cpp:290-304 | one question appended, its type and class written at an offset that does not move past them |
| `DnsEncoder.EncodeLabel` | src/uvw_net/dns_sd/DnsMessage.cpp:292-295 | one label, behind its length, at a 16-bit offset |
| `DnsRoundTrip.QueryLayout` | src/uvw_net/dns_sd/DnsMessage.cpp:256-308 | what is written for at most one question is the header, the labels behind their lengths, a zero, the type and the class |
| `DnsRoundTrip.HeaderReadsBack` | src/uvw_net/dns_sd/DnsMessage.cpp:190-213 | every flag, opcode, response code, id and count of the written header is read back |
| `DnsRoundTrip.QueryRoundTrip` | src/uvw_net/dns_sd/DnsMessage.cpp:171-308 | reading back what was written for at most one question of recognised type and class gives the message with a dot appended to the question's name, whatever lies behind the buffer |
| `DnsRoundTrip.PrefixIsRejected` | src/uvw_net/dns_sd/DnsMessage.cpp:37-57 | no proper prefix of a written query is accepted, wherever it is cut and whatever bytes follow |
| `DnsSeveralQuestions.ReadsBackIffOneQuestion` | src/uvw_net/dns_sd/DnsMessage.cpp:171-308 | a message without records, of sendable names and recognised types and classes, whose first type is not `Invalid`, reads back with dotted names if and only if it has at most one question |
| `DnsSeveralQuestions.SecondQuestionIsLost` | src/uvw_net/dns_sd/DnsMessage.cpp:300-304 | with two or more questions, whatever their types: if the buffer is accepted at all, the first question comes back with type `Invalid` |
| `DnsSeveralQuestions.TwoQuestionsReadBack` | src/uvw_net/dns_sd/DnsMessage.cpp:300-304 | two concrete questions, the first of type `Invalid`, that do read back under any header, so that the condition on the first type is needed |
| `DnsSeveralQuestions.NamesAreAdjacent` | src/uvw_net/dns_sd/DnsMessage.cpp:289-305 | the names of all questions are written one behind the other, each over the type and class before it |
| `DnsServiceDiscovery.DnsServiceDiscovery.constructor` | src/uvw_net/dns_sd/DnsServiceDiscovery.cpp:10-15 | the stored name ends with a dot, added only if it is missing |
| `DnsServiceDiscovery.DnsServiceDiscovery.Discover` | src/uvw_net/dns_sd/DnsServiceDiscovery.cpp:65-74 | the datagram reads back as asking for the PTR records of exactly the stored name, and nothing else |
| `DnsServiceDiscovery.DnsServiceDiscovery.OnDatagram` | src/uvw_net/dns_sd/DnsServiceDiscovery.cpp:17-58 | the listener returns if and only if parsing does; it then publishes, per kind of data, that of the last record in any section whose name ends with the service name; and nothing without a host name, without answers, or for a message that is not a response |
| `DnsServiceDiscovery.EitherSpelling` | src/uvw_net/dns_sd/DnsServiceDiscovery.cpp:10-15 | a service name is asked for in the same way with and without its trailing dot |
| `ModbusFrame.FromBuffer` | src/uvw_net/modbus/ModbusResponse.cpp:13-50 | for any memory: the frame that the moving pointer and the register loop decode, or none while bytes are missing |
| `ModbusFrame.ToBuffer` | src/uvw_net/modbus/ModbusResponse.cpp:52-82 | the bytes of a frame, written in place into a buffer of the right size |
| `ModbusFrame.WriteValues` | src/uvw_net/modbus/ModbusResponse.cpp:74-79 | the loop writes each register's two bytes, most significant first, and nothing before them |
| `ModbusFrame.CreateModbusExceptionBuffer` | src/uvw_net/modbus/ModbusUtil.cpp:6-39 | the nine bytes of an exception frame, its function with the high bit set |
| `ModbusFrame.ModbusRequest.ToBuffer` | src/uvw_net/modbus/ModbusRequest.cpp:11-32 | the id is one more than before, modulo 65536, and the twelve bytes carry it with the fields of the request |
| `ModbusCodec.ResponseRoundTrip` | src/uvw_net/modbus/ModbusResponse.cpp:13-82 | a normal response with a listed function reads back from what was written for it if and only if it has at most 127 values; bytes behind the frame do not matter |
| `ModbusCodec.FrameRoundTrip` | src/uvw_net/modbus/ModbusResponse.cpp:13-82 | writing what was read from an exact frame gives the same bytes |
| `ModbusCodec.ExceptionRead` | src/uvw_net/modbus/ModbusUtil.cpp:6-39 | an exception frame with length 3 reads as the exception it was made of |
| `ModbusCodec.RequestRoundTrip` | src/uvw_net/modbus/ModbusRequest.cpp:11-32 | a server reads from a request the id, unit, address and length it was made of, and a length field that fits |
| `ModbusClient.ModbusClient.Receive` | src/uvw_net/modbus/ModbusClient.cpp:37-48 | a chunk is appended, and the frame it completes is decoded from the whole buffer |
| `ModbusClient.ModbusClient.EventFor` | src/uvw_net/modbus/ModbusClient.cpp:49-57 | what is published for a frame: an exception, or a reply with the user data of its request |
| `ModbusClient.ModbusClient.Settle` | src/uvw_net/modbus/ModbusClient.cpp:59-60 | the request is forgotten and the buffer cleared |
| `ModbusClient.ModbusClient.OnData` | src/uvw_net/modbus/ModbusClient.cpp:37-66 | the whole event in its order: requests that listeners issue while the frame is published come before its id is erased |
| `ModbusClient.ModbusClient.ReadHoldingRegisters` | src/uvw_net/modbus/ModbusClient.cpp:110-116 | a request is written under the next id, and its user data remembered under that id |
| `ModbusClient.ModbusClient.OnWritten` | src/uvw_net/modbus/ModbusClient.cpp:68-71 | a completed write clears the buffer and nothing else |
| `ModbusReassembly.ChunkingDoesNotMatter` | src/uvw_net/modbus/ModbusClient.cpp:37-66 | however a whole frame is cut into chunks, and whatever lies behind the buffer, the client ends in the same state and publishes the same one event as when it arrives at once, and the buffer ends empty |
| `ModbusReassembly.SilentUntilComplete` | src/uvw_net/modbus/ModbusClient.cpp:40-48 | before the chunk that completes a frame nothing is published, and only the buffer changes |
| `ModbusReassembly.StreamIsDelivered` | src/uvw_net/modbus/ModbusClient.cpp:37-66 | a stream whose chunks do not straddle frames publishes each frame once, in order |
| `ModbusReassembly.StraddlingBytesAreLost` | src/uvw_net/modbus/ModbusClient.cpp:60 | bytes behind a frame in its last chunk are dropped |
| `ModbusReassembly.WritesBetweenFramesAreHarmless` | src/uvw_net/modbus/ModbusClient.cpp:68-71 | writes that complete while no part of a frame has been read change nothing: the chunks are handled as if there were none |
| `ModbusReassembly.WriteWithinFrameLosesIt` | src/uvw_net/modbus/ModbusClient.cpp:68-71 | a write that completes after part of a frame has been read loses that part, and only such a write loses anything: the rest is handled as if it were all, and nothing is published for it if and only if it is shorter than its own fifth and sixth byte seem to say |
| `ModbusReassembly.WholeResponse` | src/uvw_net/modbus/ModbusResponse.cpp:52-82 | every written response of at most 127 values is such a whole frame |
| `ModbusReassembly.WholeException` | src/uvw_net/modbus/ModbusUtil.cpp:6-39 | so is every exception frame with length 3 |
| `ModbusCorrelation.StepCorrelates` | src/uvw_net/modbus/ModbusClient.cpp:49-60 | a step keeps the pending map equal to the unanswered requests if and only if listeners do not issue, while a frame is published, a request with that frame's id |
| `ModbusCorrelation.RepliesAreCorrelated` | src/uvw_net/modbus/ModbusClient.cpp:37-60 | over every run without such a step, replies in any order: pending is exactly the unanswered requests with their user data, and every normal reply was published with that of the request it answers |
| `ModbusCorrelation.StepIsClientStep` | src/uvw_net/modbus/ModbusClient.cpp:37-71 | the runs are runs of the client: the history has no influence on its state |
| `ModbusConservation.RequestsAreConserved` | src/uvw_net/modbus/ModbusClient.cpp:110-116 | over every run in which no id is issued again while it is pending or being published: sent requests are pending or answered, pending is exactly the unanswered ones, ids are consecutive modulo 65536, and every normal reply was published with the user data of the request it answers |
| `ModbusConservation.ReuseComesFirst` | src/uvw_net/modbus/ModbusClient.cpp:49-60 | a run that never issues an id again while it is pending or being published never forgets a request |
| `ModbusConservation.RecentIdsAreFresh` | src/uvw_net/modbus/ModbusRequest.cpp:15 | while no request stays open across 65535 later ones, the ids to come are not pending |
| `ModbusConservation.PromptRunsNeverReuse` | src/uvw_net/modbus/ModbusRequest.cpp:15 | a run in which no request stays open across 65535 later ones, and listeners issue requests only for frames that answer one, is such a run |
| `ModbusConservation.UnsolicitedFrameForgetsRequest` | src/uvw_net/modbus/ModbusClient.cpp:55-59 | a concrete step that breaks the correlation: an unsolicited frame with the next id makes the client forget the request that its listener issues |
| `SunSpecModels.ReadString` | src/uvw_net/sunspec/models/SunSpecCommonModelFactory.cpp:20-39 | the loop over host words returns the longest NUL-free prefix of the registers' bytes in wire order |
| `SunSpecModels.UpdateCommon` | src/uvw_net/sunspec/models/SunSpecCommonModelFactory.cpp:8-18 | the five strings of a block of 65 or 66 registers; a block of another size changes nothing |
| `SunSpecModels.UpdateMppt` | src/uvw_net/sunspec/models/SunSpecMpptInverterExtensionModelFactory.cpp:10-51 | the loop decodes one block for each 20 registers behind the first eight; fewer than eight change nothing |
| `SunSpecModels.UpdateFromBuffer` | src/uvw_net/sunspec/SunSpecModelFactory.cpp:27-47 | the model of a supported id is decoded on top of what was known, on Elgris devices as a meter whatever its id; a block of a size that does not fit is reported as an update, although nothing is decoded from it; an unsupported id or an empty block changes nothing |
| `SunSpecModels.UpdatedStaysIdentified` | src/uvw_net/sunspec/SunSpecModelFactory.cpp:34-36 | every model but the common one carries the id it is stored under, before and after |
| `SunSpecDecoding.DecodedIsSaid` | src/uvw_net/sunspec/SunSpecModelFactory.cpp:38-46 | decoding puts the values of the block over those known before and keeps the others; it gives any values if and only if the block has the size its factory wants (105 registers on Elgris devices and for 203, at least 8 for 160, 50 for 101 and 103), and else leaves the model as it was |
| `SunSpecDecoding.CommonReadsWireOrder` | src/uvw_net/sunspec/models/SunSpecCommonModelFactory.cpp:8-39 | from the bytes of a reply to the common model: each string is the longest NUL-free prefix of its field in wire order, the swaps of codec and factory cancelling out |
| `SunSpecDecoding.PaddedStringReadsBack` | src/uvw_net/sunspec/models/SunSpecCommonModelFactory.cpp:20-39 | a NUL-free string padded into its field is read back unchanged |
| `SunSpecDecoding.BlockReadsOwnWindow` | src/uvw_net/sunspec/models/SunSpecMpptInverterExtensionModelFactory.cpp:26-45 | a block depends on its own 20 registers and the three scale factors only |
| `SunSpecDecoding.WindowsAreDisjoint` | src/uvw_net/sunspec/models/SunSpecMpptInverterExtensionModelFactory.cpp:19-45 | the windows of different blocks are disjoint and within the payload |
| `SunSpecDecoding.PrefixDecodesPrefix` | src/uvw_net/sunspec/models/SunSpecMpptInverterExtensionModelFactory.cpp:19-45 | decoding a prefix of a payload gives a prefix of its blocks, as many as fit |
| `SunSpecDecoding.CappingKeepsTwoBlocks` | src/uvw_net/sunspec/SunSpecClient.cpp:253-256 | the first 48 registers decode to exactly the first two blocks of the whole payload |
| `UnitIds.IdsArePermutation` | src/uvw_net/sunspec/SunSpecClient.cpp:109-170 | the list of units to probe holds each id from 1 to 247 exactly once |
| `SunSpecProtocol.EffectsAreSmall` | src/uvw_net/sunspec/SunSpecClient.cpp:36-47 | a handler issues at most one request, and publishes at most one notice that ends the discovery, as the last thing it does |
| `SunSpecClient.SunSpecClient.NextUnitId` | src/uvw_net/sunspec/SunSpecClient.cpp:172-178 | the next unit of the list, and 0 at its end, when nothing changes |
| `SunSpecClient.SunSpecClient.ProbeNextUnitId` | src/uvw_net/sunspec/SunSpecClient.cpp:181-193 | the header of the next unit is asked for, or the client closes |
| `SunSpecClient.SunSpecClient.OnReadHeader` | src/uvw_net/sunspec/SunSpecClient.cpp:206-227 | a valid header leads to the common block, another one closes the client, a short one does nothing |
| `SunSpecClient.SunSpecClient.OnReadModelEntry` | src/uvw_net/sunspec/SunSpecClient.cpp:233-257 | an entry is put into the table, capped, and the next one is asked for behind its payload; the end mark connects |
| `SunSpecClient.SunSpecClient.OnReadBlock` | src/uvw_net/sunspec/SunSpecClient.cpp:269-276 | the block is parsed, and after the common block the walk begins behind it |
| `SunSpecClient.SunSpecClient.Parse` | src/uvw_net/sunspec/SunSpecClient.cpp:278-290 | the models, and the three parts of the name and their combination, that a block leads to, and whether it is published |
| `SunSpecClient.SunSpecClient.ReadRegisters` | src/uvw_net/sunspec/SunSpecClient.cpp:259-267 | no block of two registers is ever asked for |
| `SunSpecClient.SunSpecClient.ReadModel` | src/uvw_net/sunspec/SunSpecClient.cpp:85-92 | the payload of a known model is asked for, by its id |
| `SunSpecClient.SunSpecClient.OnEvent` | src/uvw_net/sunspec/SunSpecClient.cpp:33-47 | the client, its requests and its notices after any event, with the discovery's listeners |
| `SunSpecClient.SunSpecClient.OnData` | src/uvw_net/sunspec/SunSpecClient.cpp:36-47 | the same from bytes: the reaction to a completed frame, which may issue a request, comes before the frame's own request is forgotten |
| `SunSpecSystem.BytesReachClient` | src/uvw_net/modbus/ModbusClient.cpp:37-60 | the runs below are runs of the client object: bytes change both in the same way |
| `SunSpecSystem.LockStep` | src/uvw_net/sunspec/SunSpecClient.cpp:181-276 | in every phase of a discovery a compliant reply answers the one request under way, is published with that request's user data, and leads to a phase with at most one request under way |
| `SunSpecSystem.RunsAreInLockStep` | src/uvw_net/sunspec/SunSpecClient.cpp:181-276 | from construction on, every run of compliant replies and exceptions is in such a phase |
| `SunSpecSystem.RepliesArriveInChunks` | src/uvw_net/modbus/ModbusClient.cpp:37-60 | a reply has the same effect on the system in whatever chunks it arrives |
| `SunSpecWalk.WalkIsCorrect` | src/uvw_net/sunspec/SunSpecClient.cpp:229-257 | for every chain of entries that ends inside the valid range: one read for each entry and one for the end mark, connect published once, and nothing changed but the addresses, which are the chain's table |
| `SunSpecWalk.TableIsLastEntries` | src/uvw_net/sunspec/SunSpecClient.cpp:245-257 | the table holds exactly the ids of the chain, each with the payload address and length of its last entry, capped at 48 for the MPPT extension; addresses are plain sums without wrap-around |
| `SunSpecWalk.ChainStaysInRange` | src/uvw_net/sunspec/SunSpecClient.h:34-39 | every entry of such a chain lies in the valid range |
| `SunSpecWalk.UnitsAreOfThreeKinds` | src/uvw_net/sunspec/SunSpecClient.cpp:206-227 | every unit is exactly one of these: passed over (absent, or refusing to have its header or its common block read), foreign (a readable header that is not SunSpec's), or a SunSpec device |
| `SunSpecWalk.ProbesInOrder` | src/uvw_net/sunspec/SunSpecClient.cpp:181-193 | units that are passed over are probed one after the other in the order of the list, one exception each |
| `SunSpecWalk.DiscoveryFindsDevice` | src/uvw_net/sunspec/SunSpecClient.cpp:181-276 | on every bus whose first unit, in probing order, that is not passed over is a SunSpec device, discovery ends with connect, once, knowing the device's unit, name, common model and table and nothing else, and has made exactly the requests this takes |
| `SunSpecWalk.DiscoveryStopsAtForeignUnit` | src/uvw_net/sunspec/SunSpecClient.cpp:216-226 | if that first unit is foreign, discovery ends there with close, even if a unit to be probed later is a SunSpec device |
| `SunSpecWalk.DiscoveryGivesUp` | src/uvw_net/sunspec/SunSpecClient.cpp:181-193 | on a bus where every unit is passed over all are probed, each once, before the client closes |
| `SunSpecOutcomes.OutcomeIsDecided` | src/uvw_net/sunspec/SunSpecClient.cpp:181-276 | every bus has exactly one outcome, and its registers decide which: discovery connects if the walk of the first unit that is not passed over comes to an end mark, closes if there is no such unit or it is foreign, stalls if and only if that walk comes to an entry which the device refuses to have read or to address 63000, and else walks for ever |
| `SunSpecOutcomes.WalkEnds` | src/uvw_net/sunspec/SunSpecClient.cpp:229-243 | a walk along any registers, wrapping around as the code does, ends at the first end mark, refused read or address 63000, after one read for each entry; it publishes connect, the exception, or nothing |
| `SunSpecOutcomes.WalkReaches` | src/uvw_net/sunspec/SunSpecClient.cpp:229-238 | until then it publishes nothing and reads the entries at the addresses that follow from each other |
| `SunSpecRouting.RoutesExactly` | src/uvw_net/sunspec/SunSpecClient.cpp:36-47 | which user data and sizes route a reply to the handler it is meant for, exactly; and that only the common block restarts the walk |
| `SunSpecRouting.DiscoveryRoutes` | src/uvw_net/sunspec/SunSpecClient.cpp:36-47 | in each phase of a discovery with entries in the valid range the compliant reply reaches the handler the phase waits for |
| `SunSpecRouting.BlockIsRouted` | src/uvw_net/sunspec/SunSpecClient.cpp:36-47 | the compliant reply to a pending model read reaches `parseBlock` with the requested id, and asks for nothing |
| `SunSpecRouting.UseKeepsServing` | src/uvw_net/sunspec/SunSpecClient.cpp:85-92 | in every run of model reads and replies in any order, with reads from listeners while a reply is published, each pending request asks for exactly the payload of a model that the user has read; and the device, its unit, name, common model and table stay as they are |
| `SunSpecRouting.ReadingInListeners` | src/uvw_net/modbus/ModbusClient.cpp:49-60 | what listeners read while a reply is published, before its id is erased and the buffer cleared, leads to the same state as when it is read right afterwards, as long as no pending id is issued again |
| `SunSpecRouting.DiscoveredServes` | src/uvw_net/sunspec/SunSpecClient.cpp:259-290 | a discovered client whose device lists neither model 1 nor 63000 starts in that state, with the table of the device's chain |
| `SunSpecRouting.ModelsComeFromTheirWindow` | src/uvw_net/sunspec/SunSpecClient.cpp:278-290 | a normal reply publishes at most one model, with the id that was asked for, decoded from the registers at the client's table entry for that id |
| `SunSpecEndToEnd.ReplyIsGenuine` | src/uvw_net/sunspec/SunSpecClient.cpp:229-290 | whatever a device holds when it replies: the reply publishes at most one model, with the id that was asked for: what was known of it, and over that what is said in the payload of the last entry of the device's chain with that id; a refused read publishes the exception |
| `SunSpecEndToEnd.PublishedModelsAreGenuine` | src/uvw_net/sunspec/SunSpecClient.cpp:181-290 | from construction, over discovery on a bus that does not change meanwhile, and every run of reads and replies after it, in any order, the registers changing: each model published answers a read of its id that the user made before, and is what the registers said at that reply, in the payload at the prefix sum of the last chain entry with that id, capped at 48 for the MPPT extension, over what was known of it at that reply; a payload of a size that does not fit says nothing |
| `SunSpecEndToEnd.ReadsOnConnect` | src/uvw_net/sunspec/SunSpecClient.cpp:238-242 | what the listener for connect reads is as good as read right after discovery, so that these runs include it |
| `SunSpecEndToEnd.MisfitIsPublishedUndecoded` | src/uvw_net/sunspec/SunSpecModelFactory.cpp:38-46 | a supported model is published whatever the size of its payload: as it was known before if the size does not fit, and for a model read for the first time only then |
| `SunSpecEndToEnd.MisfitExample` | src/uvw_net/sunspec/SunSpecModelFactory.cpp:38-46 | a concrete inverter with 60 registers of model 101 is discovered, and its model 101 is published without any values |
| `SunSpecDiscovery.SunSpecDiscovery.Discover` | src/uvw_net/sunspec/SunSpecDiscovery.cpp:22-43 | a new client asks for its first header, has published nothing by then, and is listed last |
| `SunSpecDiscovery.SunSpecDiscovery.TakeCandidate` | src/uvw_net/sunspec/SunSpecDiscovery.cpp:45-60 | the search loop finds the candidate, which alone leaves the list, and detaches its listeners |
| `SunSpecDiscovery.SunSpecDiscovery.OnNotice` | src/uvw_net/sunspec/SunSpecDiscovery.cpp:25-33 | a closed or failed candidate is dropped, a connected one published |
| `SunSpecDiscovery.SunSpecDiscovery.OnNotices` | src/uvw_net/sunspec/SunSpecDiscovery.cpp:25-33 | the notices of a client are heard in turn for as long as its listeners are attached |
| `SunSpecDiscovery.SunSpecDiscovery.OnData` | src/uvw_net/sunspec/SunSpecDiscovery.cpp:25-39 | bytes for a client change it, its Modbus client and the lists of the discovery as one step of the runs below does |
| `SunSpecDiscovery.SunSpecDiscovery.OnEnd` | src/uvw_net/sunspec/SunSpecDiscovery.cpp:25-33 | so do the end and the failure of its connection |
| `SunSpecDiscovery.WithoutTakesOne` | src/uvw_net/sunspec/SunSpecDiscovery.cpp:45-54 | taking a candidate removes it once and keeps all others |
| `SunSpecDiscovery.OnlyFirstEndIsHeard` | src/uvw_net/sunspec/SunSpecDiscovery.cpp:56-57 | of all the notices of a candidate the discovery acts on the first that ends it, and no other |
| `SunSpecDiscovery.ClientsAreConserved` | src/uvw_net/sunspec/SunSpecDiscovery.cpp:22-60 | over every run, whatever frames arrive and whatever the holders of clients do: the assertions of `takeCandidate` never fail, and each client is in exactly one list, once: listed while listened to, published if it first connected, dropped if it first closed or failed |
| `SunSpecDiscovery.UnitsAreProbedInOrder` | src/uvw_net/sunspec/SunSpecDiscovery.cpp:34-39 | over every run of a client, whatever frames arrive and whatever its holder does short of reading a model 63000, units are probed in the order of the list, none twice; once the name is known it stays known, and the client does not probe again unless it is told to |
| `SunSpecDiscovery.ReadIsProbe` | src/uvw_net/sunspec/SunSpecClient.cpp:85-92 | a read asks for a header if and only if it is of a model 63000 whose payload the table has where headers are |
| `SunSpecDiscovery.EveryClientProbesInOrder` | src/uvw_net/sunspec/SunSpecDiscovery.cpp:22-43 | every client of every discovery in which nobody reads a model 63000 probes units in the order of the list, none twice |
| `SunSpecDiscovery.NamedClientsProbeNoMore` | src/uvw_net/sunspec/SunSpecDiscovery.cpp:34-39 | a client of such a discovery whose name is known keeps a name, and does not probe again unless it is told to, whatever else happens to it or to others |
| `SunSpecDiscovery.ProbedUnitsAreDistinct` | src/uvw_net/sunspec/SunSpecClient.cpp:109-179 | the probed units are distinct and lie between 1 and 247 |
| `SunSpecDiscovery.ExhaustionProbedAll` | src/uvw_net/sunspec/SunSpecClient.cpp:181-190 | a client closes for want of units only after it has probed all 247 |

## Left out

- ModbusFrame.ToBuffer: requires that the values fit the 16-bit length field, because the original writes past its buffer otherwise.
- DnsParser.ParseLabels: the parameter `recursively` is always true, as in every call; C++ would exhaust its stack where the model says `Diverges`; addresses before the head do not occur.
- DnsEncoder.ToBuffer: where a label makes the 16-bit offset wrap around, the model writes what the original writes, but no theorem says what that means.
- DnsMessageSpec.MessageRefinesRfc1035: says nothing of buffers that hold no message in the sense of RFC 1035, some of which the parser accepts; what it then returns is bounded by `DnsMessageProperties.SuccessTilesBuffer`.
- DnsSeveralQuestions.ReadsBackIffOneQuestion: messages whose first question has type `Invalid` may or may not read back, depending on their bytes; that is not characterised.
- DnsRoundTrip.QueryRoundTrip: messages with records are counted in the header but not written by the encoder, and so are not part of it.
- SunSpecModels.UpdateFromBuffer: inverter and meter values keep their scale factor as an exponent and are not rounded, because floating-point arithmetic is not modelled; MPPT blocks use real powers of ten.
- SunSpecClient.SunSpecClient.Parse: the lower-casing regular expression is modelled for ASCII.
- SunSpecWalk.DiscoveryFindsDevice: a bus answers each request once and before the next one; delays and lost replies are left to `SunSpecSystem` and `SunSpecDiscovery`, where any or no reply may come.
- ModbusReassembly.ChunkingDoesNotMatter: no write completes between the chunks of a frame; `ModbusReassembly.WriteWithinFrameLosesIt` says what one does.
- SunSpecDiscovery.ClientsAreConserved: what listeners read while a frame is handled is a move of its own behind the frame; `SunSpecRouting.ReadingInListeners` says when that is no difference.
- SunSpecEndToEnd.PublishedModelsAreGenuine: the bus does not change between construction and connect.
- The event loop, sockets, timers, the resolver and multicast membership: events are steps of the environment.
- Lifetimes of C++ objects, such as a dropped candidate that is destroyed while its own handler runs.
- `_timeoutCount` and `doRead` of the SunSpec client, which nothing reads or calls.
- The scan of a subnet for Modbus devices, the HTTP client, logging and printing, measured values and block folds.
