# SmartGateway: a verified model

SmartGateway is firmware that connects a framed TCP protocol to a Modbus slave on a UART and
streams ADC measurements by UDP. This project models the parts of it that decide what its octets
mean and what it does with them, and proves what they guarantee for every input, every run and
every interleaving.

Octets are integers 0..255 and counters are mathematical integers; where the firmware relies on a
width (the 32-bit second count, the 64-bit sum, the 16-bit length field, the 32-bit counter of lost
ticks, the CRC register), the model writes it out. Exclusive or is carry-less addition of the
binary digits of a number (`Gf2`). The Kconfig values MAX_BODY and TCP_STREAM_BUF are parameters.
Drivers, sockets, library functions and other tasks are environments: functions that say how the
k-th call turns out, over which every theorem quantifies.

| file | models |
|---|---|
| `Bytes`, `Options`, `Numerals`, `Gf2` | octets and slices, missing values, printf numerals, GF(2) arithmetic |
| `Crc16`, `ModbusAscii`, `ResponseAlign`, `RxRing`, `RtuTransaction`, `UartConfig` | the Modbus link layer of `src/rs232.c` |
| `Framing`, `FramingLaws` | the two framings of the TCP stream |
| `GatewayProtocol`, `GatewayLaws`, `ServerView` | what each frame makes the gateway do, and what the server reads of it |
| `TcpGateway`, `HexConfig` | the buffers and loops of `src/tcp_gateway.c` |
| `Calendar`, `WallClock`, `GwError` | civil dates, the wall clock, the UDP gate, checks and error latch |
| `Adc`, `MsgpackAdc` | sampling, min/max windows, tick accounting, the UDP payload |
| `GasSensor`, `GasLaws`, `Am1002Laws`, `FtdiUsb` | the gas sensor parsers and the USB transfer under them |
| `NetworkManager` | interface selection over reboots |

## What the code does not do

Properties one might expect but that the code has only under a condition; each is stated with the
exact condition.

- A session frame directly behind the SYNC in one segment is always lost to the session, whatever
  follows it (`FramingLaws.PipelinedFrameLost`). What gets through is `FramingLaws.HandoverIff`; a
  frame of at most 9 body octets does behind the decoy 0x55 0x01 (`FramingLaws.ShieldedFrameSurvives`).
- The build assertion alone keeps the session buffer from filling up, but the handshake buffer only
  if it also holds the 18 octets of a SYNC (`FramingLaws.BufferNeverFullIff`). The Kconfig range
  of TCP_STREAM_BUF starts at 256, so no configurable build is affected.
- Chunked and unchunked parsing deliver the same frames, but after a cut the octets kept back differ
  exactly when the first segment ended in junk and too few octets follow that start with junk
  (`Framing.RestsAgreeIff`).
- A build with MAX_BODY 0 never acknowledges anything (`GatewayLaws.AcknowledgedIff`).
- The receive loops count every octet towards the reply, echoed ones too, and stop at the turn in which
  they have enough. A reply behind an echo therefore comes out when that turn also completes it and all
  of it fits the buffer; otherwise as many octets that start in the echo are delivered as a success
  (`RtuTransaction.ReplyBehindEcho`, for an echo shorter than the reply `ShortEchoSpoilsReply`).
  `RtuTransaction.AwaitWholeIff` is that condition, exactly, for any octets and any request.
- A five-octet exception is shorter than every predicted reply and is never delivered where one is
  predicted, whatever the line does (`RtuTransaction.OnlyPredictedLengths`); alone, it is waited for
  until the deadline (`RtuTransaction.ExceptionDelivered`). Where none is predicted it is cut out exactly
  when it is gathered together with the octets before it (`RtuTransaction.ExceptionBehindEcho`).
- Without a prediction the loops stop at five octets, so that a longer reply arrives whole exactly when no
  turn ends with five of its octets while more follow, it fits the buffer, and nothing in it looks like
  an exception (`RtuTransaction.UnpredictedWholeIff`).
- A single write that fails behind its echo is always reported as done. What is delivered is the echo
  itself exactly when slave and function do not stand again in the octets gathered
  (`RtuTransaction.FailedWriteReportedDone`); of an echo a turn ahead that is always so, whatever follows
  (`RtuTransaction.WriteEchoIsAnswer`).
- RTU requests of 4, 258 and 259 octets are encoded to Modbus ASCII but the decoder refuses what
  was encoded (`ModbusAscii.RoundTrip`).
- The SYNC check compares the day with 31 only; a clock set to a day its month does not have reads
  back as another date (`WallClock.SyncThenEncode`).
- The UDP gate opens whatever becomes of the body it is given (`WallClock.OpenImpliesSyncedIff`).
- A synced clock is monotone exactly until its second passes 2^32 - 1 (`WallClock.MonotoneIff`), an
  unsynced one exactly until its 32-bit uptime wraps (`WallClock.UnsyncedMonotoneIff`).
- The USB transfer is freed too early exactly when the cancelled transfer's event is not handled
  within the second wait (`FtdiUsb.SafeIffCancelHandledInTime`, `FtdiUsb.LateCancelIsUnsafe`).
- A %LEL value of a single character at the very front of a line is ignored (`GasLaws.LelFieldIff`).
- With usable storage, failed network modes alternate exactly where the build forces no mode and the
  flip was stored (`NetworkManager.FailedModesAlternate`); for every other boot see
  `NetworkManager.FailedModesLaw`.
- A receiver that joins an AM1002 stream inside a frame finds the frame boundaries exactly when no
  chain of start octets leads through all the frames (`Am1002Laws.AlignsIff`), for one repeated frame
  exactly when no start octet follows the join (`Am1002Laws.RepeatedFrameAlignsIff`). A join at the
  second or third octet never does (`Am1002Laws.JoinedAtThirdOctet`).

Where the repository's documents differ from the code (`docs/TCP_MODBUS_GATEWAY.md` describes an
older frame with a trailing error octet, comments in `src/msgpack_adc.c` call the array header a
map) the model follows the code.

## Model

| member | source | states |
|---|---|---|
| Framing.ChunkIndependence | src/tcp_gateway.c:459-505 | for both framings and every a, b: parsing a then (leftover of a) + b delivers exactly the frames of a + b |
| Framing.AnyChunking | src/tcp_gateway.c:648-748 | however a stream is cut into segments the same frames come out; leftovers differ at most in octets no frame can start with |
| Framing.RestsAgreeIff | src/tcp_gateway.c:459-505 | after a cut into a and b the leftovers are the same octets unless a ended in junk and b is too short to look at and starts with junk |
| Framing.VerdictStable | src/tcp_gateway.c:188-264 | a frame-info verdict other than "too short" never changes when more octets arrive |
| Framing.Conservation | src/tcp_gateway.c:459-505 | octets in = octets skipped, delivered and kept, in order and without a gap |
| Framing.DeliveredAsPrinted | src/tcp_gateway.c:232-264 | the octets of every delivered frame are the printed form of that frame |
| Framing.JunkInFront | src/tcp_gateway.c:651-657 | octets free of STX in front of a stream cost no frame |
| FramingLaws.CompleteIff | src/tcp_gateway.c:188-264 | a frame is recognised, with its length, exactly where a well-formed one is printed at the front |
| FramingLaws.ShortIff | src/tcp_gateway.c:188-264 | the verdict is "too short" exactly while the octets are no frame and some continuation of them is |
| FramingLaws.RefusedInFront | src/tcp_gateway.c:669-673 | refused octets with STX only in front cost no frame behind them |
| FramingLaws.WrongTrailerInFront | src/tcp_gateway.c:247-261 | so a session frame with a wrong trailer or a length over the limit costs only itself |
| FramingLaws.ParseInvertsPrint | src/tcp_gateway.c:648-748 | a concatenation of well-formed frames, with junk free of STX before any of them, parses to exactly those frames with nothing left |
| FramingLaws.CompactRoundTripIff | src/tcp_gateway.c:200-229 | a compact frame parses back exactly when it is a 14-octet SYNC or a non-SYNC without ETX in its body |
| FramingLaws.RestBound | src/tcp_gateway.c:609-612 | no drain leaves more than MAX_BODY+5 octets (session) or max(MAX_BODY+3, 17) (handshake) |
| FramingLaws.RestBoundReached | src/tcp_gateway.c:563-566 | these bounds are attained |
| FramingLaws.BufferNeverFullIff | src/tcp_gateway.c:58-63 | given the build assertion, nothing the buffer can hold ever fills the session buffer, nor the handshake buffer exactly when it holds a SYNC frame |
| FramingLaws.HandoverIff | src/tcp_gateway.c:494-505 | octets behind a SYNC in one segment reach the session untouched exactly when the compact parser cannot decide on them |
| FramingLaws.PipelinedFrameLost | src/tcp_gateway.c:494-505 | a session frame directly behind a SYNC in one segment, whatever follows it, never reaches the session whole |
| FramingLaws.ShieldedFrameSurvives | src/tcp_gateway.c:200-229 | behind a SYNC and 0x55 0x01 a frame is handed over whole exactly when its body has at most 9 octets, and the session parses exactly it |
| TcpGateway.Gateway.BuildCompactTx | src/tcp_gateway.c:267-286 | writes the printed compact frame, or nothing when the body is over the limit |
| TcpGateway.Gateway.SendAll | src/tcp_gateway.c:319-340 | hands the socket a prefix of the frame, all of it exactly when it reports success |
| TcpGateway.Gateway.ReportError | src/tcp_gateway.c:364-368 | latches the code and submits one 0x8E frame with it unless the code is 0 |
| TcpGateway.Gateway.ApplySyncAndRs232 | src/tcp_gateway.c:373-428 | the whole effect of a SYNC on latch, clock, gate, port and output is that of the protocol model |
| TcpGateway.Gateway.BuildResponse82 | src/tcp_gateway.c:430-453 | fills the buffer with the 0x82 frame of Seq, the clock's nine octets and the response; fails only above 256 octets |
| TcpGateway.Gateway.ServeRequest | src/tcp_gateway.c:704-743 | the retry loop and its reply are those of the protocol model |
| TcpGateway.Gateway.SrvRxFrameInfo | src/tcp_gateway.c:188-230 | the scan for ETX computes the compact verdict on the pending octets |
| TcpGateway.Gateway.SrvSessRxFrameInfo | src/tcp_gateway.c:235-264 | the length check computes the session verdict on the pending octets |
| TcpGateway.Gateway.DrainLoop | src/tcp_gateway.c:455-506 | the parse loop, in place: terminates, acts on exactly the parsed frames in order, keeps exactly the leftover, and reports whether a SYNC was among them |
| TcpGateway.Gateway.SessionLoop | src/tcp_gateway.c:608-749 | whatever sizes recv returns, the gateway acts on exactly the frames of the whole stream and never resets a full buffer |
| TcpGateway.Gateway.HandshakeLoop | src/tcp_gateway.c:556-583 | takes exactly the segments up to the first drain with a SYNC and acts on the compact frames in them; always leaves room; never resets |
| TcpGateway.StopsAtFirstSync | src/tcp_gateway.c:556-583 | those segments are a prefix of the stream; no drain before the last has seen a SYNC, and the last has unless the stream ended |
| TcpGateway.Gateway.HandleClient | src/tcp_gateway.c:595-750 | a connection is the handshake on the segments up to the first drain with a SYNC, then, if octets are left, the latch cleared and the session on the compact leftover followed by the rest; behind a SYNC and octets the handshake could not decide on, every frame printed from the SYNC on is acted on, and nothing if the input ends there; its end is latched in every case |
| GatewayProtocol.OneReplyPerRequest | src/tcp_gateway.c:682-747 | over any run: exactly one group of replies per frame, in order; each request one 0x82 with the first answer among at most five transactions or one 0x8E(0x02), each SYNC one 0x81 preceded by 0x8E(0x01) exactly when Ret is 1, nothing else answered; at most 5 transactions per request |
| GatewayProtocol.HandleObeysRule | src/tcp_gateway.c:678-743 | the same for one frame in any state |
| GatewayProtocol.RetryMeaning | src/tcp_gateway.c:708-722 | the retry loop stops at the first answer or after the last attempt and returns that answer |
| GatewayLaws.SyncAcceptedIff | src/tcp_gateway.c:379-413 | Ret is 0 exactly when the body is legal and one of three attempts is granted before any abort, and then the line is the body's; a legal body sets the clock to its date and opens the gate whatever becomes of the UART; any other body changes nothing |
| GatewayLaws.LatchAfterFrame | src/tcp_gateway.c:704-729 | after a request the latch is 2 when all five attempts failed, otherwise a 2 is cleared and any other code kept; after a SYNC it is the code of its Ret; nothing else touches it |
| GatewayLaws.FrameTouches | src/tcp_gateway.c:678-702 | only a SYNC touches clock, gate and line, only a request the UART's transactions, and any other frame nothing |
| GatewayLaws.GateInvariant | src/tcp_gateway.c:386-393 | over any run the UDP gate stays open once open, and open means the clock is synced |
| GatewayLaws.AcknowledgedIff | src/tcp_gateway.c:267-277 | a SYNC is answered exactly when MAX_BODY is not 0 |
| GatewayLaws.ResponseReadsBack | src/tcp_gateway.c:430-453 | the 0x82 frame has the stated octets, fits the transmit buffer exactly when the response has at most 256, and a session parser reads back Seq, time and response |
| GatewayLaws.UartReplyFits | src/rs232.c:1088-1193 | whatever the line delivers and whenever, the RTU path returns at most 256 octets, and an answer exactly when it was not aborted and gathered two octets and the predicted number |
| GatewayLaws.SendsAllIff | src/tcp_gateway.c:326-338 | a frame is sent whole exactly when no send call made is refused |
| GatewayLaws.PartlySent | src/tcp_gateway.c:326-338 | of a frame not sent whole exactly what the calls before the refused one took is accepted |
| ServerView.WireIsSubmittedIff | src/tcp_gateway.c:319-340 | over any run the octets sent are the submitted frames in order and complete exactly when no send call of the run is refused, and fewer otherwise |
| ServerView.ReadInvertsWritten | src/tcp_gateway.c:430-453 | the mixed stream of 0x81, 0x8E and 0x82 frames decodes to exactly the messages written |
| ServerView.ServerReads | src/tcp_gateway.c:678-743 | everything a run submits is such a list of messages, and with no send refused the server reads that list from the socket |
| GatewayLaws.RepliesIgnoreSegmentation | src/tcp_gateway.c:647-748 | two segmentations of the same octets make the gateway do the same things |
| HexConfig.ParseHexInto | src/tcp_gateway.c:95-127 | the one-pass scan returns the pairs of the non-blank characters, or -1 exactly when they are odd in number, not all digits or too many |
| HexConfig.ReadsPrinted | src/tcp_gateway.c:95-127 | exactly the spacings of the printed form of some octets, in either case, are read as those octets, if they fit |
| RxRing.Ring.Push | src/rs232.c:83-98 | for data of any length the unread content becomes the last 511 octets of content + data, octet by octet |
| RxRing.Ring.Pop | src/rs232.c:100-113 | returns and removes the oldest unread octet, or reports empty and changes nothing |
| RxRing.Ring.Reset | src/rs232.c:74-81 | nothing is unread |
| RxRing.LosslessIff | src/rs232.c:74-113 | over any run of pushes, pops and resets, read + unread is everything pushed exactly when no push overflowed and no reset met unread octets, and fewer otherwise |
| RxRing.UnreadIsNewest | src/rs232.c:74-113 | over any run what is unread is the end of what was pushed since the last reset |
| RxRing.Ring.Perform | src/rs232.c:74-113 | any run of operations does to the ring what it does to the FIFO and returns the same octets |
| RxRing.PushesMerge | src/rs232.c:126-134 | how a burst is cut into pushes does not matter |
| RtuTransaction.Receive | src/rs232.c:1088-1211 | the two receive loops on the interrupt ring and the alignment return the code and octets of the turn-by-turn model, and leave the ring empty |
| RtuTransaction.AwaitGathers | src/rs232.c:1110-1172 | undisturbed, the loops gather a prefix of what arrived, and all of it unless they had enough before or the buffer was full |
| RtuTransaction.AwaitWholeIff | src/rs232.c:1110-1172 | everything that arrives is gathered exactly when it fits the buffer and no turn of the second loop ends with enough octets while more follow |
| RtuTransaction.ReplyDelivered | src/rs232.c:1110-1193 | a reply of the predicted length is delivered octet for octet however it is spread over the turns |
| RtuTransaction.ProtocolReplyDelivered | src/rs232.c:1101-1193 | the reply of the application protocol to every legal read and every write is delivered octet for octet |
| RtuTransaction.ReplyBehindEcho | src/rs232.c:1129-1193 | behind any octets a reply of the predicted length comes out when everything is gathered, otherwise as many octets that start before the reply do, as a success |
| RtuTransaction.ShortEchoSpoilsReply | src/rs232.c:1129-1141 | an echo of eight octets that comes with one octet of a nine-octet reply is delivered in its place |
| RtuTransaction.OnlyPredictedLengths | src/rs232.c:1136-1193 | over any turns a success has the predicted length where there is one, so no exception is delivered |
| RtuTransaction.ExceptionDelivered | src/rs232.c:1136-1192 | a lone exception reply is delivered exactly when no length is predicted, otherwise the transaction fails |
| RtuTransaction.ExceptionBehindEcho | src/rs232.c:1129-1193 | behind any octets an exception is cut out exactly when no length is predicted and everything is gathered; unpredicted, a success that starts before it is delivered otherwise |
| RtuTransaction.UnpredictedWholeIff | src/rs232.c:1139-1193 | the exact condition for an answer of unpredicted length to be delivered whole |
| RtuTransaction.FailedWriteReportedDone | src/rs232.c:1129-1193 | a failed single write behind its echo always yields a success of eight octets, the echo itself exactly when slave and function do not recur in what was gathered |
| RtuTransaction.EchoTakenForReply | src/rs232.c:1129-1141 | octets that are enough by themselves and arrive a turn ahead are the answer, predicted or not, whatever follows |
| RtuTransaction.WriteEchoIsAnswer | src/rs232.c:1129-1141 | so the echo of a single write a turn ahead is delivered as its answer, whatever follows |
| Crc16.Compute | src/rs232.c:701-716 | the two loops compute the CRC of the octets |
| Crc16.CrcIsTheRemainder | src/rs232.c:701-716 | the CRC is the one and only remainder of dividing the message, its first 16 digits inverted, by x^16+x^15+x^2+1 over GF(2) |
| Crc16.CheckValueZeroIff | src/rs232.c:818-821 | a message followed by two octets has CRC zero exactly when they are its own CRC, low byte first |
| Crc16.ShiftsInjective | src/rs232.c:707-713 | the shift step, any number of times, is injective on 16-bit words |
| Crc16.ShiftsLinear | src/rs232.c:707-713 | and linear over GF(2) |
| Crc16.AdjacentOctetsDetected | src/rs232.c:701-716 | messages that differ only inside two adjacent octets have different CRCs |
| Crc16.BurstsDetected | src/rs232.c:701-716 | so do equally long messages that differ by any burst of at most 16 digits, wherever it starts |
| Crc16.OddErrorsDetected | src/rs232.c:701-716 | so do any two messages that differ in an odd number of set bits |
| ModbusAscii.ComputeLrc | src/rs232.c:690-698 | the loop computes the two's complement of the octet sum |
| ModbusAscii.LrcCompletesTheSum | src/rs232.c:689-698 | the last octet is the LRC of the others exactly when all sum to zero mod 256 |
| ModbusAscii.RtuToAsciiFrame | src/rs232.c:732-759 | fills the buffer with the ASCII frame of the PDU and its LRC, or fails and writes nothing |
| ModbusAscii.EncodeByIndex | src/rs232.c:732-759 | colon, two upper-case digits per octet, high one first, the LRC, CR and LF, for four octets or more that fit |
| ModbusAscii.AsciiDecodeResponse | src/rs232.c:766-824 | returns 0, -1 or -2 and the ADU exactly as the decoding of the frame says |
| ModbusAscii.RoundTrip | src/rs232.c:732-824 | decoding an encoded ADU gives its PDU plus true CRC exactly for 5..257 octets that fit, otherwise a format error |
| ModbusAscii.RoundTripIsIdentityIff | src/rs232.c:732-824 | the same ADU comes back exactly when its CRC was right |
| ModbusAscii.AcceptedIff | src/rs232.c:766-824 | a frame is accepted exactly when its upper-case form is the encoding of an ADU of 5..257 octets that fits; re-encoding gives that form |
| ModbusAscii.MismatchIff | src/rs232.c:766-808 | the LRC is blamed exactly for frames of the right shape and all digits whose octets do not sum to zero mod 256 |
| ModbusAscii.OneOctetChangeRejected | src/rs232.c:801-808 | changing one decoded octet, LRC included, is always reported as an LRC mismatch |
| ResponseAlign.AlignPassThrough | src/rs232.c:592-652 | in place, the buffer starts with the slice the alignment names, or nothing moves |
| ResponseAlign.EchoStripped | src/rs232.c:605-627 | for any prefix and any matching reply of predicted length exactly the reply comes out, also when doubled |
| ResponseAlign.Align | src/rs232.c:592-652 | every success is a contiguous slice of at least two octets of the input |
| ResponseAlign.PredictedPosition | src/rs232.c:605-635 | with a prediction the octets at the last place of slave and function, else the first, of a doubled buffer in its first half |
| ResponseAlign.UnpredictedPosition | src/rs232.c:637-651 | without one five octets at the last place of slave and any exception, else everything |
| ResponseAlign.LoneException | src/rs232.c:592-652 | in one buffer, behind any octets, the aligner yields a five-octet exception exactly when no length is predicted |
| ResponseAlign.FailedWriteSucceeds | src/rs232.c:610-627 | in one buffer, of a single write's echo followed by its exception the aligner yields the echo, a success, exactly when slave and function do not stand again at octets 1 to 5 |
| ResponseAlign.Expected | src/rs232.c:539-586 | the prediction is unknown or between 6 and 255 |
| ResponseAlign.PredictionIsReplyLength | src/rs232.c:551-578 | for every valid read request it is the length of the reply a slave sends |
| ResponseAlign.PredictionIsWriteReplyLength | src/rs232.c:579-582 | and for every write |
| UartConfig.Port.Apply | src/rs232.c:232-348 | the attempt loop; on success the decoded line, an empty receive ring and no line errors, otherwise nothing changes |
| UartConfig.ReconfigureIff | src/rs232.c:314-347 | succeeds exactly when the octets decode and one of three attempts is granted with no abort up to it |
| UartConfig.SyncBodyCheckIff | src/gw_error.c:78-126 | the check passes exactly the bodies of 14 octets with year 2000..2099, month 1..12, day 1..31, a time of day, less than 1000 ms and five octets some supported line is asked for by |
| UartConfig.LineRoundTrip | src/rs232.c:243-297 | every supported line setting is asked for by exactly one string of octets |
| GwError.CheckedBody | src/gw_error.c:78-126 | a checked body has timegm in 2000..2100 within 32 bits; its date is real exactly when the day exists in the month |
| Calendar.SecondsToDatetime | src/time_helper.c:26-71 | the subtraction loops compute the civil date |
| Calendar.CivilIsTimegmInverse | src/time_helper.c:26-71 | for every second count the date is legal and its timegm is the count |
| Calendar.YearOfWord | src/time_helper.c:65-65 | a 32-bit count stays within the years 1970 to 2106 |
| Calendar.CivilOfTimegm | src/time_helper.c:26-71 | every real date from 1970 on comes back from its timegm |
| Calendar.CivilOrders | src/time_helper.c:26-71 | later seconds are exactly the lexicographically later dates |
| WallClock.Wall.Sync | src/time_helper.c:73-109 | for every body and every library timegm the new clock state is that of the nine octets, or unchanged |
| WallClock.Wall.GetNow | src/time_helper.c:111-148 | the reading is offset plus uptime with millisecond carry and saturation |
| WallClock.SyncedReading | src/time_helper.c:125-141 | the reading at every uptime, in milliseconds: those of the SYNC plus what passed since, the second stopping at 2^32 - 1 |
| WallClock.UnsyncedReading | src/time_helper.c:144-147 | before the first SYNC the 32-bit uptime counted from 2024-12-31 16:00:00 |
| WallClock.Wall.EncodeNow9 | src/time_helper.c:187-210 | writes the nine octets of the reading and nothing else |
| WallClock.EncodedReadsBack | src/time_helper.c:187-210 | the nine octets are a real date and milliseconds and read back as the reading |
| WallClock.SyncThenEncode | src/time_helper.c:73-210 | encoding at the uptime of a checked SYNC returns its nine octets exactly when the day exists |
| WallClock.NeverBackwards | src/time_helper.c:125-141 | between SYNCs and within 32 bits the milliseconds advance by exactly the uptime |
| WallClock.MonotoneIff | src/time_helper.c:125-141 | up to an uptime no reading of a synced clock steps back exactly when the second still fits in 32 bits there |
| WallClock.UnsyncedMonotoneIff | src/time_helper.c:144-147 | the same for an unsynced clock, exactly while the uptime fits in 32 bits |
| WallClock.SyncGate.Notified | src/sync_gate.c:14-22 | for every body syncs the clock from it and opens the gate |
| WallClock.GateOverRuns | src/sync_gate.c:14-27 | over any run of checked SYNCs the gate stays open once open and means a synced clock |
| Adc.Spi.ReadAll | src/adc.c:150-178 | channel i's conversion lands in slot i, whatever was addressed before; fails exactly when one of nine transfers does |
| Adc.VoltsOfWord | src/adc.c:131-139 | the sign extension recovers every 12-bit code, at 10 V for 2048 steps; voltages lie in the part's range |
| Adc.Tracker.PublishSample | src/adc.c:193-217 | published and running extremes are those of the history with the sample appended, stamped with the clock's reading |
| Adc.Tracker.Accept | src/adc.c:238-255 | after every good sample extremes, counters and frozen count are what the history says; the trigger is given at every tenth and otherwise left alone |
| Adc.Tracker.ProcessOneSample | src/adc.c:228-256 | a failed read changes nothing; a good one appends the eight conversions and their time stamp |
| Adc.Tracker.AwaitTrigger | src/udp.c:271-271 | the wait ends with the trigger exactly when it was given before or a period of ten samples is completed meanwhile, at the sample that completes it, and otherwise at its limit |
| Adc.Tracker.GetLatest | src/adc.c:305-316 | min <= raw <= max over at most the 1000 samples of the window and the last one before it, raw and time those of the last sample, count 0 before the first period and 10 after |
| Adc.TicksAccounted | src/adc.c:182-191 | in every interleaving ticks = taken + pending + lost mod 2^32, and none is lost below 127 pending |
| MsgpackAdc.EncodeSnapshot | src/msgpack_adc.c:147-213 | fails exactly on channel count, time stamp or size; otherwise writes exactly the precomputed need, from which a decoder recovers id, stamp, raw, min and max of each channel, count and error code, each in its place |
| MsgpackAdc.PayloadReadsBack | src/msgpack_adc.c:166-208 | whatever follows, a MessagePack decoder recovers 28 fields, and they are the snapshot's, one by one |
| MsgpackAdc.StampFitsIff | src/msgpack_adc.c:66-78 | the time stamp has 17 characters exactly when each field fits its columns, and then reads back |
| MsgpackAdc.PublishedSnapshotsEncode | src/msgpack_adc.c:154-172 | every snapshot of the ADC task at any clock reading is encoded into the UDP buffer |
| MsgpackAdc.Cursor.AppendFixstr | src/msgpack_adc.c:80-108 | appends fixstr or str 8, or changes nothing |
| MsgpackAdc.Round2IsNearest | src/msgpack_adc.c:37-48 | over the reals no hundredth is nearer than the rounded one; rounding is idempotent |
| MsgpackAdc.Round2OddAndMonotone | src/msgpack_adc.c:37-48 | it is odd and monotone |
| GasSensor.SensorCtx.ParseBytes | src/gas_sensor.c:288-348 | the per-octet loop is the stream model; the accumulator has room after every octet |
| GasSensor.AsciiToFloat | src/gas_sensor.c:95-117 | the digit loop computes the value of the text |
| GasLaws.PacketsDoNotMatter | src/gas_sensor.c:288-348 | a stream may be fed in packets of any size |
| GasLaws.NewlineSynchronises | src/gas_sensor.c:318-345 | whatever came before, a line feed empties the accumulator |
| GasLaws.LongLineIsParsed | src/gas_sensor.c:313-345 | of a line of any length what is left after dropping it 24 octets at a time is parsed |
| GasLaws.PpmIsReadBack | src/gas_sensor.c:155-203 | after any octets and a line feed, every printed ppm value 0..999999 is read back exactly, its 16-bit copy clamped |
| GasLaws.PpmFieldIff | src/gas_sensor.c:155-203 | whatever stands before " ppm" behind blanks is read exactly if it has one to eight characters |
| GasLaws.TenthsAreReadBack | src/gas_sensor.c:154-203 | so is every value with one decimal behind any blanks, its 16-bit copy the clamped whole part |
| GasLaws.LelIsReadBack | src/gas_sensor.c:208-255 | every printed %LEL value is read back times 500, its 16-bit copy clamped |
| GasLaws.LelFieldIff | src/gas_sensor.c:208-255 | before "% LEL" exactly if it has one to three and is not a single one at the front of the line |
| GasLaws.O2IsReadBack | src/gas_sensor.c:120-152 | every printed DD.DD% is read back to the hundredth |
| GasLaws.O2FieldIff | src/gas_sensor.c:120-152 | before "%" exactly if it has two to seven characters and "%" is not before the fourth octet |
| Am1002Laws.FrameAcceptedIff | src/gas_sensor.c:258-285 | a 22-octet frame from position 0 is accepted exactly when its header matches and its octets sum to 0 mod 256 |
| Am1002Laws.StreamIsFollowed | src/gas_sensor.c:300-311 | what the receiver holds and reads after any run of valid frames, from any position |
| Am1002Laws.AlignsIff | src/gas_sensor.c:300-311 | joining any stream of valid frames inside a frame, the receiver is at a boundary after the last one exactly when no nondecreasing choice of one 0x16 per frame starts at the join |
| Am1002Laws.AlignedReadsAll | src/gas_sensor.c:300-311 | from a boundary on every frame is read |
| Am1002Laws.RepeatedFrameAlignsIff | src/gas_sensor.c:300-311 | with one frame repeated it aligns exactly when no 0x16 follows the join |
| Am1002Laws.StuckAt | src/gas_sensor.c:300-311 | otherwise it stays there for ever and reads octets 9 and 10 of the rotation exactly when that carries the header |
| Am1002Laws.JoinedAtThirdOctet | src/gas_sensor.c:300-311 | joined at its second or third octet no stream of valid frames is ever aligned; the readings are those of second headers |
| FtdiUsb.SafeIffCancelHandledInTime | src/ftdi_usb.c:157-172 | in every interleaving no transfer is freed while queued or with its event outstanding, exactly when no second wait runs out |
| FtdiUsb.NoStaleCompletion | src/ftdi_usb.c:88-181 | then the semaphore is zero at every enqueue and every read reports its own transfer's outcome, its octets being those behind the two of modem status |
| FtdiUsb.CallbackOctets | src/ftdi_usb.c:88-107 | octet i is octet i + 2 of the transfer, at most 64 of them, none of a failed one |
| FtdiUsb.LateCancelIsUnsafe | src/ftdi_usb.c:163-166 | a run in which a late cancellation signals the next read |
| NetworkManager.EveryAssignment | src/network_manager.c:248-264 | at every assignment of every interleaving ready implies an active interface with the address of its own profile; one mode per boot; a forced reconnect follows five failures in a row |
| NetworkManager.AttemptSucceeds | src/network_manager.c:248-255 | a successful attempt ends in service with the interface's own address |
| NetworkManager.GivesUp | src/network_manager.c:612-639 | a failed attempt of a WiFi build flips the mode, stores it if it can, and reboots |
| NetworkManager.EthernetTriesAgain | src/network_manager.c:584-596 | a failed attempt of an Ethernet-only build starts over |
| NetworkManager.ServiceEnds | src/network_manager.c:258-264 | the end of service takes everything down and uses up a forced reconnect on a WiFi whose link is up |
| NetworkManager.ConnectFailed | src/network_manager.c:218-238 | a failed connect below the limit, or not on an active WiFi, only counts |
| NetworkManager.FifthConnectFailed | src/network_manager.c:218-238 | at the limit the count starts again, and a reconnect is asked for exactly if the WiFi is not ready |
| NetworkManager.ConnectSucceeded | src/network_manager.c:240-244 | a successful connect clears the count and the request |
| NetworkManager.FailedModesAlternate | src/network_manager.c:599-643 | over any run with reboots and usable storage the next failed mode is the other one exactly when the build forces none and the flip was stored |
| NetworkManager.FailedModesLaw | src/config_nvs.c:301-364 | whatever the flash holds and whenever it fails, which mode fails next: default, forced, flipped or the same |
| NetworkManager.EthernetOnlyNeverReboots | src/network_manager.c:584-596 | an Ethernet-only build never reboots or leaves Ethernet |

## Left out

- The CONNECT (0x80) frames of the handshake and their poll timing: resending one constant frame; only its version string parser is modelled.
- RtuTransaction.Receive: sending, the draining and delays around it, and polling the driver when the ring is empty; the protocol model takes arbitrary replies of at most 256 octets instead.
- The receive loop of the ASCII counterpart of `rs232_modbus_txrx`.
- Codes that other tasks set in the shared error latch while a frame is handled.
- What timegm of the Zephyr library returns for months outside 1..12: any function that is the civil arithmetic on the twelve months is admitted.
- WallClock.Wall.EncodeNow9: the locks around the clock's fields, and uptimes of 2^63 ms.
- MsgpackAdc.EncodeSnapshot: floating-point rounding is a parameter on bit patterns; its properties are proved over the reals.
- Adc.Tracker.PublishSample: samples are real numbers.
- GasSensor.SensorCtx.ParseBytes: measured values are real numbers; converting a value of 65536 or more to 16 bits, undefined in C and never reached by a printed reading, wraps.
- The two-channel test payload of `src/msgpack_adc.c`: the same appends in another order.
- NetworkManager.EveryAssignment: the console changing the configuration, and how WiFi and Ethernet come up; an attempt succeeds or fails.
- NetworkManager.FailedModesLaw: takes the erasing of an outdated flash and the writing back of a forced mode at boot to succeed; the firmware ignores both results.
- FtdiUsb.NoStaleCompletion: control transfers, device detection and the connected flag.
- `src/config_nvs.c` except for the boot mode, `src/dip_switch.c`, `src/di_do.c`, `src/wifi_manager.c`, `src/udp.c`, `src/main.c`: menus, wrappers around drivers and start-up order.
