# A verified model of the TCP 1553 bus analyzer

The analyzer moves MIL-STD-1553 messages over TCP in packets of 70 bytes: `AA 55`, a mode byte, RT, SA, WC,
and 32 big-endian words. This project models the pipeline that carries them and proves what it promises over
whole byte streams, whole runs and every interleaving of its threads.

| file | part of the system |
|---|---|
| `Bytes.dfy`, `Hex.dfy` | bytes, bitwise or, concatenation; hex printing and `std::stoul(s, nullptr, 16)` |
| `Protocol.dfy` | the message record and the command word |
| `Parser.dfy` | the stream decoder `ProtocolParser`, as a class that erases its accumulator in place |
| `Stream.dfy` | the decoder over whole streams: declarative scan, cuts into calls, emission time, byte conservation |
| `Resync.dfy` | staying in step, and getting back into step after garbage |
| `BusController.dfy` | the encoder, the reply decoder, the round trip |
| `FrameEditor.dfy` | the frame editor's command word, word grid and stored replies |
| `Capture.dfy` | locating the TCP payload in a captured packet; the payload queue |
| `MonitorText.dfy` | the text of one message and its grid layout |
| `Monitor.dfy` | the monitor's filter, pending batch and timed flush |
| `Display.dfy` | from configuration to text and tree, through the filter, and reading the display back |
| `Delivery.dfy` | capture thread and monitor thread interleaved, from sent frames to the display |
| `Connection.dfy` | ownership of client sockets between accept, send and shutdown |
| `Lifecycle.dfy` | `start` and `stop` of the monitor, line by line, beside the threads they create |

How it is put together. The decoder is specified by `Starts` (the offsets at which packets are decoded) and `Stop`
(where the scan runs out of bytes); `ParseStream` is proved to report and keep exactly what they say, and `Stream` and
`Resync` prove what they mean. A packet callback is modelled by the list of messages a call hands out.
The steps `Push`, `Pop` and `Process` of `Delivery` are the critical sections of `PacketHandler`, `ReceiveData` and
`ProcessAndRelayData`; `MonitorTurn` is a `Pop` followed by a `Process` (`TurnIsPopThenProcess`). What a run brings is
read off its steps (`Pushed`, `TallyOf`), not off the state. The three
concurrent parts are step functions over explicit states, one step for each atomic access, critical section or system
call; `Exec` runs any sequence of steps, so a lemma about `Exec` is about every interleaving. Outcomes of system calls,
clocks, filter fields changed by the user interface, memory beyond a captured packet and what an unset structure
holds are parameters.

Where the code and its own remarks disagree, the model follows the code:

- The parser checks neither RT, SA nor WC against the ranges the repository's README gives. SA above 31 spills into the T/R and RT
  bits; WC above 32 keeps 32 words but stores WC mod 32. The lemmas give the exact conditions.
- `protocol.hpp` documents modes 1 and 2; the code sends and accepts 0 and 1, and sends every mode other than RT to BC as 0.
- A remark in `bc.cpp` says the payload is zeroed for RT to BC; the configured words are sent.
- The bus letter is not transmitted; the parser reports bus A for every message.
- `receiveData` cuts a payload at the caller's 4096 bytes and loses the rest.
- Captured length, not the IP total length, ends the payload, so link padding is queued as payload.

Properties that turned out false in general are stated with the condition under which they hold, over all inputs:
at most the first packet of a train is lost (`AtMostFirstLostIffHeaderFree`, `FirstFrameKeptIffCleanEnd`); both
directions of a connection decode side by side (`SplitPacket`); every accepted connection is closed
(`AllClosedIffNeverMismatched`, `CanBeClosedIffNotDropped`) and a failed sender closes its own (`ClosesWhatItLoaded`); the monitor can be restarted
after an error (`FaultsExactly`); a frame arrives as configured (`FrameRoundTrip`, `TrainRoundTrip`,
`CommandWordUnpacks`, `FieldWordOfPureHex`); a reply holds the words it is read for (`TwoDecodersAgree`,
`ReplyIsSelfContained`); what is shown is what was sent (`DisplayedCountIsWordCount`, `ShownCommandMatchesBus`,
`ShownWordsMatchBus`); no payload byte is lost or added (`LosslessIffPayloadsFit`, `ExtractionInvertsBuilding`).
Concrete failing cases stand beside them: `EmbeddedHeadersCanDesynchroniseForever`, `LargeSubaddressSpills`,
`ReconnectDuringFailedWriteLeaks`, `StaleNumberClosesHealthyClient`.

Some proof bodies use `hide` to keep a definition the step does not need away from the solver.

## Model

| member | source | states |
|---|---|---|
| Parser.ProtocolParser.ParseStream | src/core/protocol_parser.cpp:17-79 | one call reports the messages of accumulator plus new bytes and keeps the residue of the scan |
| Parser.ProtocolParser.DecodeHead | src/core/protocol_parser.cpp:49-69 | the record built field by field from the head of the accumulator is the message of those 70 bytes |
| Parser.ProtocolParser.Reset | src/core/protocol_parser.cpp:81-83 | the accumulator is empty afterwards |
| Protocol.MessageTransaction.Clear | src/core/protocol.hpp:32-44 | every field is back to its default, and the record reads as empty |
| Protocol.WordCount | src/core/protocol_parser.cpp:60-61 | the WC byte itself if it is 1 to 32, otherwise 32 |
| Protocol.CommandWordUnpacks | src/core/protocol_parser.cpp:53-55 | RT, T/R and SA are recovered from the command word if and only if RT and SA fit in five bits; WC mod 32 always is |
| Protocol.LargeSubaddressSpills | src/core/protocol_parser.cpp:55 | SA 32 of a receive command reads back as a transmit command to SA 0 |
| Bytes.JoinIsShiftOr | src/core/protocol_parser.cpp:64 | big-endian joining by shift and or is 256 times the high byte plus the low byte |
| Stream.DecoderIsGreedyScan | src/core/protocol_parser.cpp:24-78 | the decoded offsets are the one and only leftmost, non-overlapping, exhaustive sequence of packets |
| Stream.GreedyIsUnique | src/core/protocol_parser.cpp:26-47 | at most one such sequence exists for any stream and starting offset |
| Stream.StopIsFirstBlocked | src/core/protocol_parser.cpp:24-36 | the accumulator begins at the first offset past the last packet where too few bytes remain |
| Stream.BoundedMemory | src/core/protocol_parser.cpp:24-36 | after a call the accumulator is under 6 bytes, or starts with the magic pair and is under 70 |
| Stream.BytesAreConserved | src/core/protocol_parser.cpp:28-77 | the stream is its packets and singly skipped bytes in order, then the accumulator |
| Stream.SettledMeansIdle | src/core/protocol_parser.cpp:21-36 | the accumulators a call without new bytes leaves alone are exactly the bounded ones above |
| Stream.SplitAnywhere | src/core/protocol_parser.cpp:21-78 | cutting a stream in two changes neither the messages nor the final accumulator |
| Stream.ChunkIndependence | src/core/protocol_parser.cpp:21-78 | any series of calls gives the messages and accumulator of one call on the whole stream |
| Stream.PrefixReportsCompletedFrames | src/core/protocol_parser.cpp:24-77 | a prefix reports exactly the packets of the whole stream that end inside it |
| Stream.ExactEmissionTime | src/core/protocol_parser.cpp:24-77 | from any settled accumulator, a packet is reported by precisely the call that delivers its last byte |
| Display.RecordOfPacket | src/core/protocol_parser.cpp:49-69 | every packet gives a valid command on bus A, the big-endian payload words that WC counts, and no status, second command, error or time tag |
| Resync.InStepStaysInStep | src/core/protocol_parser.cpp:49-77 | from a packet boundary on, adjacent packets are all decoded, whatever they embed |
| Resync.WholeFramesDecode | src/core/protocol_parser.cpp:49-77 | a stream of whole packets gives one message a packet and leaves nothing over |
| Resync.ScanFallsIntoStep | src/core/protocol_parser.cpp:26-47 | from any offset up to the second packet the scan reaches the second packet's start |
| Resync.Resynchronises | src/core/protocol_parser.cpp:24-78 | after any garbage, packets 2 to n of a train are the last n-1 messages decoded, and nothing is left over |
| Resync.ResynchronisesAcrossCalls | src/core/protocol_parser.cpp:17-79 | the same for any starting accumulator and any cut into calls |
| Resync.AtMostFirstLostIffHeaderFree | src/core/protocol_parser.cpp:24-78 | at most the first packet of a train of two or more is lost behind every garbage if and only if no header is embedded in the first packet |
| Resync.FirstFrameKeptUnlessOverlapped | src/core/protocol_parser.cpp:24-78 | a packet anywhere is decoded if and only if no decoded packet begins in the 69 bytes before it |
| Resync.FirstFrameKeptIffCleanEnd | src/core/protocol_parser.cpp:24-78 | a packet is decoded behind all garbage with given last 69 bytes if and only if those bytes hold no header |
| Resync.EmbeddedHeadersCanDesynchroniseForever | src/core/protocol_parser.cpp:24-78 | packets that all end in a header can be missed for ever, each decoded packet being three bytes off |
| Hex.RenderIsFourDigits | src/core/bm.cpp:190 | a word prints as exactly four upper-case hex digits that denote it |
| Hex.RenderThenRead | src/ui/FrameComponent.cpp:135-137 | a printed word, read as a data field, is the word |
| Hex.FieldWordOfPureHex | src/core/bc.cpp:166-176 | a pure hex field sends its last four digits if and only if it fits 64 bits or they are zero; past 64 bits 0 is sent |
| Hex.StoulReads | src/core/bc.cpp:166-176 | white space, sign, 0x and digits are read whatever follows: the value, negated modulo 2^64 behind a minus sign, or an exception past 64 bits |
| Hex.StoulRejects | src/core/bc.cpp:166-176 | without a digit there is an exception and 0 is sent |
| BusController.StoredBigEndian | src/core/bc.cpp:169 | a word passed through htons lies high byte first in memory on any host |
| BusController.LoadedBigEndian | src/core/bc.cpp:203 | a word loaded from the wire and passed through ntohs is the big-endian pair on any host |
| BusController.EncodeFrame | src/core/bc.cpp:149-176 | the filled structure's memory image is the 70 bytes of the frame |
| BusController.FillDataWords | src/core/bc.cpp:166-176 | all 32 words are set, rejected and missing fields to 0 |
| BusController.LoadPacket | src/core/bc.cpp:198-199 | after the read, each stored word is the big-endian pair at its place in network order |
| BusController.DecodeReply | src/core/bc.cpp:201-204 | for any reply of six bytes or more the caller's array holds the words the parser would report for the structure, and is otherwise unchanged |
| BusController.ReplyIsSelfContained | src/core/bc.cpp:198-204 | the caller's words come from the reply and not from unset memory if and only if the reply is as long as its WC announces |
| BusController.SendAcyclicFrame | src/core/bc.cpp:137-213 | the bytes sent, the value returned and the words stored, for every outcome of connection, write and read, short ones included |
| BusController.TwoDecodersAgree | src/core/bc.cpp:198-205 | a 70-byte reply is also a parser message exactly when it begins AA 55 00 or AA 55 01, and none otherwise |
| BusController.FrameBytesDecode | src/core/bc.cpp:149-181 | every encoding is a packet with the six header bytes written out, whose payload words are the fields read as hex, 0 where there is none |
| BusController.FrameRoundTrip | src/core/bc.cpp:149-181 | decoding an encoding gives the intended message if and only if RT and SA are 0 to 31 and WC is 0 to 32 |
| BusController.TrainRoundTrip | src/core/bc.cpp:149-181 | a list of encodings decodes to the list of intended messages if and only if all are in range, with nothing left over |
| BusController.DisplayedCountIsWordCount | src/core/bm.cpp:171-175 | for all packets, the displayed WC is the number of data words if and only if the WC byte is at most 32 or a multiple of 32 |
| FrameEditor.FrameComponent.UpdateValues | src/ui/FrameComponent.cpp:97-113 | the grid shows the words in use and blanks behind them |
| FrameEditor.FrameComponent.StoreReceived | src/ui/FrameComponent.cpp:131-140 | stored reply words, sent again, are the same words on the wire |
| FrameEditor.ShownCommandMatchesBus | src/ui/FrameComponent.cpp:91-93 | for all configurations, the shown command word is the transmitted one less the T/R bit if and only if SA bits 8 to 10 are covered by the upper RT bits; in range the difference is just that bit |
| FrameEditor.ShownWordsMatchBus | src/ui/FrameComponent.cpp:95-113 | for all configurations, the cells that show a word are those the monitor decodes a word for if and only if a mode code has one data word and WC 1, or without mode codes WC is 0 to 32 or past 32 with a low byte that also gives 32 words |
| Capture.TcpProxy.PacketHandler | src/core/tcp_proxy.cpp:78-109 | the queue grows by the bytes past the three headers, or not at all |
| Capture.TcpProxy.ReceiveData | src/core/tcp_proxy.cpp:66-76 | the oldest payload leaves the queue and its first maxBytes land in the buffer, the rest of which is unchanged |
| Capture.ExtractionInvertsBuilding | src/core/tcp_proxy.cpp:84-108 | behind 14, 4 or 16 link bytes and any legal header lengths the queued bytes are payload and padding, and the payload alone if and only if there is no padding |
| Capture.CapturedPart | src/core/tcp_proxy.cpp:96-108 | of a packet captured in part, the part of its payload that was captured is queued |
| Capture.OtherLinkQueuesNothing | src/core/tcp_proxy.cpp:90-92 | any other link type queues nothing |
| MonitorText.FormatTransaction | src/core/bm.cpp:160-206 | the built text is time line, header line, data section and blank line |
| MonitorText.TextReadsBack | src/core/bm.cpp:160-206 | from the whole text of any message, whatever follows it, the time line, every header field and every data word read back, and the rest is left |
| MonitorText.HeaderReadsBack | src/core/bm.cpp:170-185 | bus, direction, RT, SA and count can be read back from the header line |
| MonitorText.HeaderExample | src/core/bm.cpp:179-184 | command 7C58 on bus A prints as the line the source gives as its example |
| MonitorText.WordAtColumn | src/core/bm.cpp:187-202 | word i stands at character 6 + 46*(i/8) + 5*(i%8) of the data section |
| MonitorText.GridSeparators | src/core/bm.cpp:187-202 | the label, the blank between words, the break and indent behind every eighth, and the end of the section |
| MonitorText.GridReadsBack | src/core/bm.cpp:187-202 | reading the groups of four back gives the data words for any number of words |
| Monitor.BM.ClearForStart | src/core/bm.cpp:39-45 | accumulator, pending text and keys are empty and the flush clock is set; the callbacks stay |
| Monitor.BM.Collect | src/core/bm.cpp:113-133 | pending text and keys grow by those of the messages that pass the values read for them |
| Monitor.BM.ProcessAndRelayData | src/core/bm.cpp:112-158 | the relay's new state, the text handed over, and the tree calls: each taken key once, as active, in ascending order |
| Monitor.AnnouncedOneWay | src/core/bm.hpp:69-76 | the order of the keys fixes that series of calls completely |
| Monitor.OrderIsNumeric | src/core/bm.hpp:72-76 | keys come in the order of bus, then RT, then SA |
| Monitor.BM.MonitorTurn | src/core/bm.cpp:98-106 | one turn takes at most one payload and processes its first 4096 bytes |
| Monitor.RunDecodesStream | src/core/bm.cpp:112-133 | over a run the parser sees one stream, and one set of filter reads is made for each of its messages |
| Monitor.GuiConservation | src/core/bm.cpp:112-157 | texts taken, then text pending, are the texts of exactly the messages that passed, in order; keys likewise |
| Monitor.FlushTakesAll | src/core/bm.cpp:135-145 | a flush takes the text and keys of exactly the messages since the one before, and leaves nothing pending |
| Monitor.TextReachesCallback | src/core/bm.cpp:147-149 | the callback receives all text taken if and only if it is set or there is none |
| Monitor.KeysReachCallback | src/core/bm.cpp:151-155 | the tree callback is told of all keys taken if and only if it is set or there are none |
| Display.SentFrameIsShown | src/core/bm.cpp:130-186 | the header line of a sent in-range configuration reads back as bus A and its direction, RT, SA and count; unfiltered its key is bus A, RT, SA |
| Display.FilterOnSent | src/core/bm.cpp:115-120 | a message is held back if and only if the filter is on and a set field differs from the configured RT or SA, at any loads of the fields |
| Display.FilteredText | src/core/bm.cpp:113-126 | the text of a train is that of exactly the configurations the filter asks for, in order |
| Display.FilteredKeys | src/core/bm.cpp:128-132 | the keys of a train are the terminals of the same configurations |
| Display.DisplayReadsBack | src/core/bm.cpp:113-206 | the display of a train, read back, is those configurations field by field and word by word |
| Monitor.FlushesAreSpaced | src/core/bm.cpp:135-157 | k flushes put the last flush at least 51*k ms after start |
| Monitor.FlushRateBound | src/core/bm.cpp:44-157 | with a monotone clock k flushes mean at least 51*k ms have passed |
| Monitor.FlushedWhenDue | src/core/bm.cpp:135-157 | after any round the last flush is less than 51 ms old |
| Delivery.InvHolds | src/core/tcp_proxy.cpp:66-109 | in every interleaving the payloads its steps pushed are those parsed, in hand and queued, and the relay is that of the rounds so far |
| Delivery.InOrderDelivery | src/core/tcp_proxy.cpp:66-109 | bytes parsed, in hand and queued are those the steps pushed, in order, each payload cut at 4096 |
| Delivery.StepsAreCounted | src/core/bm.cpp:97-106 | queue length, payload in hand and the reads and clock of every round follow from the order of the steps alone |
| Delivery.QueueDrains | src/core/bm.cpp:97-106 | from every state one turn for each waiting payload drains the queue, and all that was pushed has been parsed |
| Delivery.TurnIsPopThenProcess | src/core/bm.cpp:98-106 | a pop and a process have the effect of one turn of the monitor's loop |
| Delivery.LosslessIffPayloadsFit | src/core/tcp_proxy.cpp:70-75 | once drained nothing pushed was lost if and only if no payload exceeded 4096 bytes |
| Delivery.PrefixOfTrain | src/core/protocol_parser.cpp:24-77 | a prefix of a train of encodings decodes to the messages of its complete frames |
| Delivery.DisplayMatchesParsed | src/core/bm.cpp:97-158 | in every state what was taken for display and what is pending is the text of what was parsed |
| Delivery.DisplayShowsSentFrames | src/core/bm.cpp:97-158 | sent frames captured in any cut show as exactly the first k frames, filtered, and all of them once drained |
| Delivery.DisplayShowsSelection | src/core/bm.cpp:97-206 | for every interleaving and cut, the display read back is exactly the in-range configurations sent that the filter asks for, in order, and the tree their terminals; all of them once drained |
| Delivery.ParsedMessagesAreIntended | src/core/bm.cpp:97-114 | with configurations in range these are the intended messages |
| Delivery.MergedDirectionsDecode | src/core/tcp_proxy.cpp:28-108 | payloads of whole packets from two directions decode to the same interleaving of messages, the accumulator empty in between |
| Delivery.MergeKeepsOrder | src/core/tcp_proxy.cpp:103-108 | an interleaving drops, duplicates and reorders nothing of either direction |
| Delivery.SplitPacket | src/core/tcp_proxy.cpp:103-108 | for every cut of a packet around a packet of the other direction: what is reported, and that it is two messages if and only if the cut is at a boundary or in step with an embedded header |
| Connection.InvHolds | src/core/bc.cpp:78-127 | every open descriptor has one owner in every interleaving of any number of threads |
| Connection.ExactlyOneStatus | src/core/bc.cpp:78-127 | each accepted connection is exactly one of unpublished, held, taken by one thread, closed or dropped, descriptor numbers being reused freely |
| Connection.ClosedAtMostOnce | src/core/bc.cpp:98-122 | no connection is closed twice, no close misses, and m_clientFd never names a closed connection |
| Connection.ClosesOnlyItsOwn | src/core/bc.cpp:87-122 | a thread closes or hangs up only a connection that no other thread and not m_clientFd owns |
| Connection.DroppedForever | src/core/bc.cpp:183-189 | a connection dropped by the mismatch case is never closed |
| Connection.ReconnectDuringFailedWriteLeaks | src/core/bc.cpp:183-189 | a reconnection between a failed write and the exchange reaches the mismatch case |
| Connection.DropsExactlyOnMismatch | src/core/bc.cpp:186-187 | in every run a step drops a connection if and only if it is a failed sender's exchange that returns another client |
| Connection.AllClosedIffNeverMismatched | src/core/bc.cpp:78-127 | once all threads are idle and no client is held, every accepted connection is closed if and only if no such exchange happened |
| Connection.CanBeClosedIffNotDropped | src/core/bc.cpp:78-127 | at every moment an accepted connection can still come to be closed if and only if it has not been dropped |
| Connection.LateConnectionsAreRefused | src/core/bc.cpp:87-90 | once shutdown has cleared the flag no thread enters accept, and a connection accepted afterwards is never published |
| Connection.ClosesWhatItLoaded | src/core/bc.cpp:139-187 | a failed sender closes the connection it loaded if and only if that one is not closed yet; else a later one with its number |
| Connection.StaleNumberClosesHealthyClient | src/core/bc.cpp:183-187 | two reconnections during a failed write reach that case |
| Lifecycle.GoodHolds | src/core/bm.cpp:29-71 | the invariant of threads, handle and flags at each line of start and stop |
| Lifecycle.LifecycleIsSafe | src/core/tcp_proxy.cpp:16-59 | no joinable thread is overwritten, no closed handle used, one thread of each kind, the parser never shared, the handle open while capturing |
| Lifecycle.BetweenCalls | src/core/bm.cpp:29-71 | between calls the monitor is fully up or fully down |
| Lifecycle.MonitorGoesRound | src/core/bm.cpp:97-106 | without a stop request a monitor thread goes round its loop, parsing exactly when it received something |
| Lifecycle.StopLeavesNothing | src/core/bm.cpp:62-71 | stop on an active monitor ends with both threads joined and the handle null |
| Lifecycle.StartComesUp | src/core/bm.cpp:29-60 | a start whose pcap calls succeed returns after thirteen lines of its caller in every interleaving, and leaves the monitor up |
| Lifecycle.StopGoesOn | src/core/bm.cpp:62-71 | while stop is under way every step that changes anything lowers the work left, some step always does, and it ends with the monitor down |
| Lifecycle.StopComesDown | src/core/bm.cpp:62-71 | from every state with the monitor up a stop can run to its end within 17 steps and leaves it down |
| Lifecycle.JoinsComeToAnEnd | src/core/bm.cpp:97-110 | a stop request is never lost: each step of the awaited thread brings its end nearer, and a monitor thread that has ended has cleared both flags |
| Lifecycle.FaultAfterFilterFailure | src/core/tcp_proxy.cpp:29-59 | after a failed filter installation a run faults if and only if start is called again and reaches pcap_breakloop; without a start nothing changes |
| Lifecycle.FaultsExactly | src/core/bm.cpp:29-71 | of all runs, exactly those fault in which that happens |

## Left out

- User interface: panels, trees, dialogs, `CallAfter` and the send loop belong to a library that is not part of this model.
- Connection, lifecycle and delivery are step functions over values rather than methods on fields, because each line interleaves with other threads; aliasing between objects is not modelled there.
- Connection.ExactlyOneStatus: the listening socket `m_serverFd`, `bind` and `listen`, and the API mutex are not part of the state; the mutex only removes interleavings, and what accept returns is free.
- Lifecycle.LifecycleIsSafe: it speaks of runs without a failed filter compile or set; `FaultAfterFilterFailure` says what happens after one.
- Lifecycle.JoinsComeToAnEnd: it bounds the awaited thread's own steps; that the thread is scheduled, and that pcap_dispatch returns, is assumed.
- Monitor.BM.MonitorTurn: the 100 microsecond sleep has no counterpart.
- Delivery.DisplayShowsSelection: one direction, and a run from an empty queue; payloads queued before a restart stay queued and would come first.
- Hex.FieldWordOfPureHex: `unsigned long` has 64 bits and the C locale is in force; locale-dependent white space is not covered.
- Capture.ExtractionInvertsBuilding: IPv6 extension headers, VLAN tags and fragments are not recognised by the code and not part of the packets built.
- MonitorText.FormatTransaction: the wall-clock stamp is a parameter.
- Status words, mode codes, the second command of RT to RT and time tags are carried in the record but nothing in the program interprets them.
- Logging, the `initialize` error texts, and `getConnectedClientCount`.
