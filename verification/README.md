# ArduConfigurator: models and proofs of its protocol and data cores

ArduConfigurator is a configuration tool for ArduPilot vehicles: a web and desktop application over
serial and WebSocket transports. This project models the parts of it whose correctness depends on
orderings, bit patterns or text formats, and proves what they promise.

| file | models |
|---|---|
| `WebSocketFrames.dfy` | the frame encoder and decoder of the desktop bridge, against sections 5.2 and 5.3 of RFC 6455 |
| `BridgeClient.dfy` | reassembly of a byte stream by overlapping `drain()` activations, every stretch between awaits being one step |
| `OsdCrc.dfy`, `OsdShorthand.dfy` | the table-driven CRC-32 and the fixed-width shorthand blob it guards |
| `SerialTransport.dfy` | `connect()`, `disconnect()` and the port callbacks of the native serial transport as a transition system |
| `ParameterWaiters.dfy` | the readback waiters and the idle-window sync waiters over timed event sequences |
| `BackupText.dfy`, `BackupLines.dfy` | the `.parm` and `.params` printers and the tolerant parser they share, on printed files and on any text |
| `BackupRestore.dfy` | exporting a snapshot, importing a backup against a live set, and writing the drafts |
| `RestoreChain.dfy` | the chain of import, draft validation and write, and the import after it |
| `CanonicalJson.dfy` | the compact JSON text the generator of the AP_Periph tables uses as a key |
| `InternTables.dfy` | that generator, which interns strings, lists and definitions, and the decoder it emits |
| `CacheWorker.dfy` | the service worker's caches under every interleaving of its handlers, with rejecting cache operations |
| `CacheReplies.dfy`, `CacheLifecycle.dfy` | what becomes of each request, install and activation in those runs |
| `Mavftp.dfy` | MAVFTP paths, directory listings and the payload codec |
| `DraftValidation.dfy` | validation of parameter drafts, the ceiling of a bitmask, grouping and summary |
| `Sorting.dfy`, `Texts.dfy`, `Octets.dfy`, `Collections.dfy` | the stable sort, trimming and searching, octets, small datatypes |

Code that updates fields or arrays is a class or a method here too. Each such method is proved equal
to a function of the old state (`View() == Step(old(View()), event)`, `bytes[..] == Encode(p)`), and the
theorems are about those functions, over all runs and all inputs. Functions that only compute have no
row below; the rows name the lemmas that say what they mean.

Properties that do not hold as one would first state them are stated exactly:

- A frame that follows a close frame can still be delivered, in two ways (`DeliversAfterClose`); a frame is
  handed over exactly when the first close or binary frame of the buffer being drained is a binary one,
  whatever was read before (`HandedExactly`). Everything up to the first close frame is delivered in every
  run that has come to rest (`DeliversUpToClose`); completeness is claimed for runs without a close.
- A corrupted shorthand blob can be accepted, but only if its count byte was lowered
  (`BurstAcceptedExactly`, `LowerCountAccepted`). A blob whose fields use their full width does not
  survive being written back (`ReserializeExact`).
- Two serial ports can be open at once (`TwoPortsOpen`): exactly when an `open` succeeds while another open
  port is still being closed or failed to close (`SecondPortExactly`). A port whose `close` fails stays open
  without an owner and its `disconnect()` leaves the status as it was (`FailedCloseLeaks`); the exact
  condition for the final status is `SettledStatusExactly`.
- The text formats print seven digits, so a backup comes back identically exactly when every value survives
  the rounding (`LosslessExactly`), and a controller's own file reports a change exactly where the rounding
  exceeds the import's tolerance (`FileImportExactly`): for 123456.703125 it does (`FileImportReportsChange`).
  No such change is ever staged (`OwnFileStagesNothing`).
- The controller stores single precision: restoring distinct ids converges exactly when every changed value
  is stored within the tolerance (`RestoreConverges`), which 5000.3 is not (`StoredValueDiverges`).
- Exports list the firmware's BAROn_GND_PRESS parameters, which their documentation excludes
  (`PressureIsExported`).
- A backup may list one id several times; restoring it converges exactly when every matched entry agrees
  with what is stored of the last changed entry of its id (`ConvergesExactly`, `RepeatedIdDiverges`). Through the validation
  of drafts, a large value can be reported as changed for ever (`ChainCanStall`, `DistinctChainExactly`).
- Path normalization is not idempotent on runs of slashes or on white space before trailing slashes
  (`IdempotentExactly`), and entries of the directory `/` have no parent (`ListingParents`).
- "Network first" has an exception: a page that was fetched but whose write into the cache is rejected is
  answered from the cache (`CachedAlthoughOnline`). A reply is cached exactly when its own handler's request
  failed or its own write was rejected (`CachedExactly`).
- Navigating to a file that is not HTML replaces the offline shell by that file (`ShellCanBeReplaced`); the
  shell is HTML throughout a run exactly when every response stored as the shell was (`ShellHtmlExactly`).
- The mark `override` is documented as meaning "rescued from invalid"; the code sets it on every staged
  draft that was forced, also where no rescue was needed (`OverrideRescuesExactly` follows the code).
- The bitmask ceiling lets undocumented bits pass when the documented ones leave a gap
  (`CeilingTightExactly`). An enum refuses a draft whose value it lists exactly when the draft is one zero
  and only the other zero is listed (`ListedRefusedExactly`).

## Model

| member | source | states |
|---|---|---|
| WebSocketFrames.BigEndianRoundTrip | apps/desktop/src/websocket-bridge-server.ts:536-546 | A length that fits its field is read back from the network byte order it was written in. |
| WebSocketFrames.UnmaskInvolution | apps/desktop/src/websocket-bridge-server.ts:586-596 | Unmasking with the same four-byte key twice restores the payload, so masking and unmasking are one operation. |
| WebSocketFrames.UnmaskExactly | apps/desktop/src/websocket-bridge-server.ts:586-596 | Each bit of an unmasked octet is set if and only if the bits of the octet and of its key octet, the key repeating every four, differ. |
| WebSocketFrames.EncodeFrame | apps/desktop/src/websocket-bridge-server.ts:523-548 | The array filled in place is exactly the RFC 6455 layout of an unmasked final frame with the shortest length form. |
| WebSocketFrames.EncodeLayout | apps/desktop/src/websocket-bridge-server.ts:523-548 | In numbers: FIN and the opcode, the length in one, three or nine bytes below 126, below 65536 and from there on, no mask, and the payload as it is. |
| WebSocketFrames.UnmaskBytes | apps/desktop/src/websocket-bridge-server.ts:588-595 | The unmasking loop gives the exclusive or of each octet with its key octet. |
| WebSocketFrames.DecodeFrame | apps/desktop/src/websocket-bridge-server.ts:550-603 | The decoder's branches compute the decode function the lemmas below are about, with "incomplete" and "too large" apart. |
| WebSocketFrames.DecodeWire | apps/desktop/src/websocket-bridge-server.ts:550-603 | Any valid frame, masked with any key or not, in any of the three length forms, followed by any bytes, decodes to its opcode, its unmasked payload and exactly those bytes. |
| WebSocketFrames.StrictPrefixIncomplete | apps/desktop/src/websocket-bridge-server.ts:551-584 | Every strict prefix of a valid frame is reported incomplete. |
| WebSocketFrames.DecodeSound | apps/desktop/src/websocket-bridge-server.ts:550-603 | Whatever the decoder accepts is a valid frame of RFC 6455 followed by the bytes given back. |
| WebSocketFrames.DecodeExact | apps/desktop/src/websocket-bridge-server.ts:550-603 | A buffer decodes to a frame and a rest if and only if it is a valid wire form of that frame followed by that rest. |
| WebSocketFrames.TooLargeExactly | apps/desktop/src/websocket-bridge-server.ts:565-576 | A buffer is refused as too large if and only if its eight-byte length has arrived and exceeds 2^53 - 1. |
| WebSocketFrames.EncodeDecode | apps/desktop/src/websocket-bridge-server.ts:523-603 | Decoding an encoded frame followed by any bytes yields the low four bits of the opcode, the payload and exactly those bytes. |
| WebSocketFrames.DecodeExtends | apps/desktop/src/websocket-bridge-server.ts:550-584 | Bytes that arrive later never change a frame that is already complete. |
| WebSocketFrames.FramesSplit | apps/desktop/src/websocket-bridge-server.ts:270-280 | Reading a stream in two pieces gives the same frames and the same leftover as reading it whole, wherever it is cut. |
| BridgeClients.StretchKeeps | apps/desktop/src/websocket-bridge-server.ts:313-340 | One activation of the drain loop up to its next await loses, duplicates and reorders no frame, hands over exactly the binary payloads it takes and answers exactly the pings. |
| BridgeClients.RunKeeps | apps/desktop/src/websocket-bridge-server.ts:270-340 | In every run of chunks, resumptions and socket events, frames taken so far followed by the frames in the buffer are the frames of everything received. |
| BridgeClients.HandedIsPrefix | apps/desktop/src/websocket-bridge-server.ts:270-340 | What was handed over is always an initial part of the binary payloads of the stream. |
| BridgeClients.CompleteRunDelivers | apps/desktop/src/websocket-bridge-server.ts:270-340 | A run with nothing suspended, no close frame and no overflow has delivered every binary payload, answered every ping and kept exactly the unfinished tail. |
| BridgeClients.Confluence | apps/desktop/src/websocket-bridge-server.ts:270-340 | Two complete runs over the same bytes deliver the same, however the bytes were cut and the activations interleaved. |
| BridgeClients.DeliversUpToClose | apps/desktop/src/websocket-bridge-server.ts:270-340 | In every run at rest without overflow, with or without close frames, everything up to the first close frame has been delivered and answered, and only frames of the stream, in order. |
| BridgeClients.ConfluenceUpToClose | apps/desktop/src/websocket-bridge-server.ts:270-340 | Two such runs over the same bytes both deliver everything up to the first close frame, and one delivers an initial part of what the other does. |
| BridgeClients.SmallStreamNeverOverflows | apps/desktop/src/websocket-bridge-server.ts:270-281 | A stream of at most 64 KiB in all never trips the buffer cap. |
| BridgeClients.RunReads | apps/desktop/src/websocket-bridge-server.ts:292-340 | In every run the peer reads exactly the frames sent up to the first close frame, since `close()` also ends the socket; if the socket is destroyed, an initial part of them. |
| BridgeClients.NothingReadAfterEnd | apps/desktop/src/websocket-bridge-server.ts:300-311 | Once the socket is ended or destroyed nothing that is sent later reaches the peer. |
| BridgeClients.ClosedNotifiedOnce | apps/desktop/src/websocket-bridge-server.ts:342-349 | In every run onClosed has been called once if the client counts as closed, and otherwise not at all. |
| BridgeClients.HandedExactly | apps/desktop/src/websocket-bridge-server.ts:270-340 | In any state an event hands a frame over if and only if it starts a stretch and the first close or binary frame of the buffer drained is a binary one, which is the frame handed over; whether a close was read before plays no part. |
| BridgeClients.SentExactly | apps/desktop/src/websocket-bridge-server.ts:270-340 | In every run the binary frames sent carry exactly the payloads of the sendBinary calls made before any close event or destruction, in order; the close frames are exactly those asked for then, one with status 1009 for each chunk that took the buffer above 65536 bytes and one with status 1000 for each close frame a stretch read; and every payload handed over is waited for by one activation or has been settled once. |
| BridgeClients.OverflowExactly | apps/desktop/src/websocket-bridge-server.ts:270-280 | The cap is hit if and only if some chunk takes the buffer above 65536 bytes. |
| BridgeClients.DeliversAfterClose | apps/desktop/src/websocket-bridge-server.ts:313-340 | Finding: both routes by which a binary frame is handed over after a close frame was read, in a later chunk and by an activation suspended before. |
| BridgeClients.BridgeClient.Drain | apps/desktop/src/websocket-bridge-server.ts:313-340 | The loop from its top to its next await changes buffer, handed and written exactly as one stretch of the model. |
| BridgeClients.BridgeClient.OnData | apps/desktop/src/websocket-bridge-server.ts:270-281 | A chunk is appended; above the cap the client is closed with 1009, otherwise an activation starts. |
| BridgeClients.BridgeClient.OnHandlerSettled | apps/desktop/src/websocket-bridge-server.ts:331-334 | A suspended activation continues at the top of its loop. |
| BridgeClients.BridgeClient.Send | apps/desktop/src/websocket-bridge-server.ts:292-298 | A binary frame with the payload is written unless the client is closed or its socket destroyed; an ended socket does not take it (`SentExactly` says which payloads are sent in a run). |
| BridgeClients.BridgeClient.Close | apps/desktop/src/websocket-bridge-server.ts:300-311 | Unless the client is closed or its socket destroyed, a close frame is written and the socket is ended; the client does not become closed by it. |
| BridgeClients.BridgeClient.HandleClosed | apps/desktop/src/websocket-bridge-server.ts:342-349 | The client is marked closed and onClosed is called, the first time only. |
| OsdCrc.BuildEntry | packages/ardupilot-core/src/osd-shorthand.ts:37-41 | Eight conditional shifts give the bit-serial CRC of one byte. |
| OsdCrc.StandardPolynomial | packages/ardupilot-core/src/osd-shorthand.ts:34-44 | The polynomial constant is the generator of IEEE 802.3 with its exponents written out, reflected. |
| OsdCrc.BuildTable | packages/ardupilot-core/src/osd-shorthand.ts:34-44 | All 256 entries of the table are those CRCs. |
| OsdCrc.Crc32 | packages/ardupilot-core/src/osd-shorthand.ts:46-52 | The accumulating loop over the table computes the bit-at-a-time reflected CRC with polynomial 0xEDB88320, init 0 and no final exclusive or. |
| OsdCrc.CrcIsBitSerial | packages/ardupilot-core/src/osd-shorthand.ts:46-52 | For every byte sequence the table-driven CRC equals the bit-serial one. |
| OsdCrc.ByteStepIsBitSerial | packages/ardupilot-core/src/osd-shorthand.ts:49 | One table round is eight bit-serial rounds. |
| OsdCrc.ByteStepInjective | packages/ardupilot-core/src/osd-shorthand.ts:49 | A byte round is injective in the register. |
| OsdCrc.CrcBitsPacked | packages/ardupilot-core/src/osd-shorthand.ts:46-52 | Shifting in up to 32 bits one at a time equals combining them with the register at once. |
| OsdCrc.WindowInjective | packages/ardupilot-core/src/osd-shorthand.ts:46-52 | From one register, different windows of at most 32 bits give different registers. |
| OsdCrc.BurstChangesCrc | packages/ardupilot-core/src/osd-shorthand.ts:46-52 | Two messages that differ only within 32 consecutive bits never share a CRC. |
| OsdCrc.Residue | packages/ardupilot-core/src/osd-shorthand.ts:108-111 | A body followed by a little-endian word has residue 0 if and only if the word is the body's CRC. |
| OsdCrc.LittleEndianRoundTrip | packages/ardupilot-core/src/osd-shorthand.ts:144-147 | The four stored bytes read back as the CRC. |
| OsdShorthand.StripMeaning | packages/ardupilot-core/src/osd-shorthand.ts:55-60 | Stripping removes exactly the trailing NULs and spaces. |
| OsdShorthand.FieldRoundTrip | packages/ardupilot-core/src/osd-shorthand.ts:55-75 | Writing a text into a field and reading it gives its low bytes cut to one less than the width, without trailing NULs and spaces. |
| OsdShorthand.CanonicalTextExact | packages/ardupilot-core/src/osd-shorthand.ts:55-75 | A field keeps a text unchanged if and only if it is short enough, single-byte and ends in no NUL or space. |
| OsdShorthand.ParseSerialize | packages/ardupilot-core/src/osd-shorthand.ts:88-149 | Parsing the serialization of any table succeeds and gives its canonical form. |
| OsdShorthand.BlobLayout | packages/ardupilot-core/src/osd-shorthand.ts:127-149 | A serialized table is magic, version and count, then for each entry 16 bytes of what is replaced and 10 of its replacement, the low bytes of the text cut before the last byte of the field and zeros behind them. |
| OsdShorthand.RoundTripExact | packages/ardupilot-core/src/osd-shorthand.ts:88-149 | A table round-trips unchanged if and only if it has at most 16 entries whose texts all fit. |
| OsdShorthand.AcceptsExactly | packages/ardupilot-core/src/osd-shorthand.ts:88-113 | A blob is accepted if and only if magic, version and count are right, enough bytes are there, and exactly the needed bytes have residue 0. |
| OsdShorthand.RefusedExactly | packages/ardupilot-core/src/osd-shorthand.ts:88-113 | Each of the six errors is raised if and only if its check is the first to fail, in the order length, magic, version, count, truncation, CRC. |
| OsdShorthand.ReserializeExact | packages/ardupilot-core/src/osd-shorthand.ts:114-135 | Writing back what was parsed is stable if and only if no field was used to its full width. |
| OsdShorthand.BurstRejected | packages/ardupilot-core/src/osd-shorthand.ts:104-113 | Any change confined to 32 consecutive bits of a serialized blob, also across body and stored CRC, is rejected unless it lowers the count. |
| OsdShorthand.BurstAcceptedExactly | packages/ardupilot-core/src/osd-shorthand.ts:92-113 | Such a change is accepted if and only if magic and version are kept, the count is lowered and the shorter prefix has residue 0. |
| OsdShorthand.FourByteBurstRejected | packages/ardupilot-core/src/osd-shorthand.ts:104-113 | Any change confined to four consecutive bytes at offset 4 or later makes the parser reject the blob. |
| OsdShorthand.LowerCountAccepted | packages/ardupilot-core/src/osd-shorthand.ts:100-113 | Finding: for one table, setting the count byte from 1 to 0 gives a blob that parses as the empty table. |
| OsdShorthand.DecodeFixedString | packages/ardupilot-core/src/osd-shorthand.ts:55-65 | The two loops return the field's text without its trailing NULs and spaces. |
| OsdShorthand.EncodeFixedString | packages/ardupilot-core/src/osd-shorthand.ts:69-75 | The zero-filled array holds the low bytes of at most width minus one characters. |
| OsdShorthand.ParseOsdShorthand | packages/ardupilot-core/src/osd-shorthand.ts:88-124 | The offset-walking parser, with every error case in the source's order, computes the parse function above. |
| OsdShorthand.SerializeOsdShorthand | packages/ardupilot-core/src/osd-shorthand.ts:127-149 | The offset-walking writer computes the serialize function above. |
| SerialTransport.RunKeeps | apps/desktop/src/native-serial-transport.ts:89-210 | The ownership, latch, close-once and abort invariants hold in every run of calls, callbacks, failures and port losses. |
| SerialTransport.SingleOwner | apps/desktop/src/native-serial-transport.ts:89-210 | Every open port whose close has not failed is held in exactly one place: the attempt, the field, or one pending disconnect. |
| SerialTransport.NeverClosesTwice | apps/desktop/src/native-serial-transport.ts:137-141 | In no run is close called twice on one port. |
| SerialTransport.OneAttempt | apps/desktop/src/native-serial-transport.ts:97-104 | There is at most one attempt at a time, and the latch names it until its finally callback has run. |
| SerialTransport.AbortedNeverPublishes | apps/desktop/src/native-serial-transport.ts:107-168 | No attempt that was in flight when disconnect was called is published by any step of the run, before or after the call. |
| SerialTransport.FlagOnlyRises | apps/desktop/src/native-serial-transport.ts:112-112 | While an attempt exists no step lowers the abort flag. |
| SerialTransport.SettledDisconnect | apps/desktop/src/native-serial-transport.ts:171-210 | When all calls have settled and the last was a disconnect, the field is empty and only ports whose close failed are open; unless that disconnect rejected, the status is disconnected, or error if a port has reported an error since. |
| SerialTransport.StatusExactly | apps/desktop/src/native-serial-transport.ts:89-210 | In every run the status is error if and only if the last thing told was a failed attempt without an intended disconnect or an error of a listened port; disconnected if and only if it was a finished disconnect, one that found the field empty, or the closing of a listened port right after a publication; connected if and only if it was a publication; connecting if and only if it was the start of an attempt. |
| SerialTransport.HistoryExactly | apps/desktop/src/native-serial-transport.ts:89-210 | An attempt counts as published or overlapped, a port as listened to, opened or failed to close, and a disconnect as rejected, if and only if some step of the run made it so. |
| SerialTransport.ReleasedExactly | apps/desktop/src/native-serial-transport.ts:137-205 | In every run close has been called on an open port if and only if neither the field nor an attempt that opened it and has not gone on holds it. |
| SerialTransport.EveryCallSettles | apps/desktop/src/native-serial-transport.ts:89-210 | No deadlock: from every reachable state, with ports answering success or failure, all calls in flight settle by results and continuations alone. |
| SerialTransport.SettledStatusExactly | apps/desktop/src/native-serial-transport.ts:158-210 | In that situation the status is not terminal if and only if the disconnect was rejected and, since an attempt was last published, no listener of a port has fired, no disconnect has finished and none has found the field empty; it then is connected. |
| SerialTransport.TerminalExactly | apps/desktop/src/native-serial-transport.ts:107-210 | In every run the status is terminal if and only if an end was reported since the last attempt was started or published. |
| SerialTransport.FailedCloseLeaks | apps/desktop/src/native-serial-transport.ts:197-209 | Finding: a disconnect whose close fails rejects, leaves its port open with no owner and the status connected. |
| SerialTransport.AtMostOneLive | apps/desktop/src/native-serial-transport.ts:89-210 | At most one port is open that is neither being closed by a disconnect nor one whose close failed. |
| SerialTransport.SecondPortExactly | apps/desktop/src/native-serial-transport.ts:89-210 | In every reachable state a step opens a port beside another open one if and only if an attempt's open succeeds while some open port is being closed by a disconnect or failed to close. |
| SerialTransport.TwoPortsOpen | apps/desktop/src/native-serial-transport.ts:184-205 | Finding: a run in which a connect during a pending close leads to two open ports. |
| SerialTransport.NativeSerialTransport.ConnectCall | apps/desktop/src/native-serial-transport.ts:89-119 | connect() and the synchronous part of doConnect() update the fields as the connect step. |
| SerialTransport.NativeSerialTransport.ContinueConnect | apps/desktop/src/native-serial-transport.ts:137-168 | doConnect() after the open: self-abort, publish, or fail, as the continue step. |
| SerialTransport.NativeSerialTransport.Catch | apps/desktop/src/native-serial-transport.ts:143-153 | The catch block clears the field and reports an error only when no disconnect is intended. |
| SerialTransport.NativeSerialTransport.FinallyConnect | apps/desktop/src/native-serial-transport.ts:101-103 | The finally callback clears the latch and ends the attempt. |
| SerialTransport.NativeSerialTransport.DisconnectCall | apps/desktop/src/native-serial-transport.ts:171-183 | disconnect() up to its first await raises the flag, then waits for the attempt or takes the port. |
| SerialTransport.NativeSerialTransport.CloseHeldPort | apps/desktop/src/native-serial-transport.ts:184-205 | The port is taken off the field before close is called; without one the status is terminal at once. |
| SerialTransport.NativeSerialTransport.ReportDisconnected | apps/desktop/src/native-serial-transport.ts:209-209 | After its close completed a disconnect sets the status disconnected and ends (`StatusExactly` ties the status to it). |
| SerialTransport.NativeSerialTransport.OnPortClose | apps/desktop/src/native-serial-transport.ts:161-165 | The close listener reports disconnected only from connected. |
| SerialTransport.NativeSerialTransport.OnPortError | apps/desktop/src/native-serial-transport.ts:158-160 | The error listener reports an error. |
| ReadbackWaiters.RunKeeps | packages/ardupilot-core/src/runtime-parameter-waiters.ts:34-114 | In every run the set holds exactly the unsettled waiters and exactly those with an armed timer, each settles at most once, only a match resolves it, and it times out no earlier than its deadline. |
| ReadbackWaiters.OutcomeExactly | packages/ardupilot-core/src/runtime-parameter-waiters.ts:42-113 | Read off the events alone: a waiter settles by the first event after its add that is its cancellation, a rejectAll, a readback of its id near its value, or its timer once the timeout it was given has passed, with that outcome and no other; until then it is pending. |
| ReadbackWaiters.FireExact | packages/ardupilot-core/src/runtime-parameter-waiters.ts:70-74 | A timer settles its waiter if and only if the waiter is pending and its own timeout has passed since it was added. |
| ReadbackWaiters.ResolvedMatches | packages/ardupilot-core/src/runtime-parameter-waiters.ts:96-106 | A waiter is resolved only by a readback of the id it was added with whose value is within its tolerance, or a millionth, of the value it was added with. |
| ReadbackWaiters.CancelExact | packages/ardupilot-core/src/runtime-parameter-waiters.ts:79-88 | Cancelling rejects a pending waiter and touches no other; cancelling a settled one changes nothing. |
| ReadbackWaiters.ReadbackExact | packages/ardupilot-core/src/runtime-parameter-waiters.ts:94-106 | A readback resolves, with its own value, all and only the pending waiters with its id and a value within tolerance; every other waiter is untouched. |
| ReadbackWaiters.RejectAllExact | packages/ardupilot-core/src/runtime-parameter-waiters.ts:108-114 | rejectAll leaves none pending and rejects exactly those that were. |
| ReadbackWaiters.SettledForGood | packages/ardupilot-core/src/runtime-parameter-waiters.ts:42-92 | A settled waiter never changes again in any continuation of the run. |
| ReadbackWaiters.NoReadbackMissed | packages/ardupilot-core/src/runtime-parameter-waiters.ts:94-106 | After a matching readback the waiter is never pending again. |
| ReadbackWaiters.ParameterValueWaiterSet.AddWaiter | packages/ardupilot-core/src/runtime-parameter-waiters.ts:42-92 | A new waiter is a member with an armed timer; the tolerance and the timeout default to a ten-thousandth and five seconds. |
| ReadbackWaiters.ParameterValueWaiterSet.CancelWaiter | packages/ardupilot-core/src/runtime-parameter-waiters.ts:79-88 | Cancelling rejects an unsettled waiter and does nothing to a settled one. |
| ReadbackWaiters.ParameterValueWaiterSet.Resolve | packages/ardupilot-core/src/runtime-parameter-waiters.ts:94-106 | The filter-and-settle loop is the readback step, in whatever order the set is walked. |
| ReadbackWaiters.ParameterValueWaiterSet.RejectEvery | packages/ardupilot-core/src/runtime-parameter-waiters.ts:108-114 | The loop and the clear are the reject-all step. |
| ReadbackWaiters.ParameterValueWaiterSet.OnTimer | packages/ardupilot-core/src/runtime-parameter-waiters.ts:70-74 | The timer callback removes its waiter and rejects it. |
| SyncWaiters.RunKeeps | packages/ardupilot-core/src/runtime-parameter-waiters.ts:131-193 | In every run a pending waiter's deadline is its last activity, read off the events, plus its idle window; the pending are the armed, and each settles at most once. |
| SyncWaiters.OutcomeExactly | packages/ardupilot-core/src/runtime-parameter-waiters.ts:139-186 | Read off the events alone: a waiter settles by the first event after its add that resolves or rejects all waiters, or is its timer at least the window it was given after the last progress; until then it is pending. |
| SyncWaiters.FireExact | packages/ardupilot-core/src/runtime-parameter-waiters.ts:170-177 | A timer can time a waiter out if and only if it is pending and a whole window has passed since its last activity. |
| SyncWaiters.TimeoutMeansIdle | packages/ardupilot-core/src/runtime-parameter-waiters.ts:139-177 | A waiter that timed out at t had neither its creation nor any progress within the preceding window. |
| SyncWaiters.SteadySyncNeverTimesOut | packages/ardupilot-core/src/runtime-parameter-waiters.ts:139-177 | A sync whose gaps all stay below the window never times out, however long it lasts. |
| SyncWaiters.AllSettled | packages/ardupilot-core/src/runtime-parameter-waiters.ts:179-193 | resolveAll and rejectAll leave none pending and settle exactly those that were. |
| SyncWaiters.ParameterSyncWaiterSet.AddWaiter | packages/ardupilot-core/src/runtime-parameter-waiters.ts:139-157 | A new waiter is armed and becomes a member. |
| SyncWaiters.ParameterSyncWaiterSet.NoteProgress | packages/ardupilot-core/src/runtime-parameter-waiters.ts:163-168 | The loop re-arms exactly the pending waiters from now. |
| SyncWaiters.ParameterSyncWaiterSet.SettleEach | packages/ardupilot-core/src/runtime-parameter-waiters.ts:179-193 | The settle loop and the clear settle exactly the members. |
| SyncWaiters.ParameterSyncWaiterSet.OnTimer | packages/ardupilot-core/src/runtime-parameter-waiters.ts:170-177 | The idle timer's callback removes its waiter and rejects it. |
| BackupText.ParseTextBackup | packages/ardupilot-core/src/parameter-backups.ts:391-444 | The line loop with its seen set and list computes the recursive scan, with the duplicate and the empty error. |
| BackupText.SerializeAsParm | packages/ardupilot-core/src/parameter-backups.ts:265-284 | The list-building loop produces the `.parm` text. |
| BackupText.SerializeAsParams | packages/ardupilot-core/src/parameter-backups.ts:286-300 | The list-building loop produces the `.params` text. |
| BackupText.SplitUnlines | packages/ardupilot-core/src/parameter-backups.ts:391-400 | Splitting printed lines gives the lines back, and one empty one. |
| BackupText.HeaderComments | packages/ardupilot-core/src/parameter-backups.ts:302-334 | Every header line of either format is a comment, so no header field leaks into the entries. |
| BackupText.ParmLineReads | packages/ardupilot-core/src/parameter-backups.ts:265-284 | A printed `id,value` line parses to its entry, with the value its seven digits stand for. |
| BackupText.ParamsLineReads | packages/ardupilot-core/src/parameter-backups.ts:286-300 | A tab-separated line has the vehicle, component, id, value and type 9 as its five columns and reads as its rounded entry, no other column leaking in. |
| BackupLines.LineReadsExactly | packages/ardupilot-core/src/parameter-backups.ts:391-428 | Any line contributes an entry if and only if, before a comment, its first word that is an id is followed by a word that reads as a number, with any columns, separators and white space around them. |
| BackupLines.ParseTextExactly | packages/ardupilot-core/src/parameter-backups.ts:391-444 | Parsing any text gives the error naming the first repeated id and its line, the error for a text without entries, or all its entries in order, and which of them. |
| BackupLines.JsonExactly | packages/ardupilot-core/src/parameter-backups.ts:346-369 | A backup is taken as JSON if and only if its first character that is no white space is an opening brace or bracket. |
| BackupText.ParmRoundTrip | packages/ardupilot-core/src/parameter-backups.ts:265-444 | Parsing a printed `.parm` succeeds if and only if it has entries and no id repeats, and then gives exactly the entries, rounded, in sorted order. |
| BackupText.ParamsRoundTrip | packages/ardupilot-core/src/parameter-backups.ts:286-444 | The same for `.params`. |
| BackupText.TextReads | packages/ardupilot-core/src/parameter-backups.ts:265-444 | The same for either format through the entry point that tells text from JSON. |
| BackupText.LosslessExactly | packages/ardupilot-core/src/parameter-backups.ts:265-444 | A backup comes back identically from either format if and only if it has entries, no id repeats, they are in order, and every value reads back exactly from its seven digits. |
| BackupRestore.DeriveDraftValues | packages/ardupilot-core/src/parameter-backups.ts:446-525 | The two loops with their counters compute the import diff that the following lemmas characterize. |
| BackupRestore.FateExactly | packages/ardupilot-core/src/parameter-backups.ts:461-499 | In terms of the id, the value and the live parameters: which entries are skipped, excluded, unknown, unchanged and changed, each with its exact condition. |
| BackupRestore.ImportExactly | packages/ardupilot-core/src/parameter-backups.ts:446-525 | For any live set and entries an id is drafted, listed as unknown, or listed as new if and only if its conditions hold, with STAT_ ids, pressure ids and left-out categories written out. |
| BackupRestore.StatEntriesIgnored | packages/ardupilot-core/src/parameter-backups.ts:463-465 | Importing a backup gives the same result as importing it without its STAT_ entries. |
| BackupRestore.ImportSorted | packages/ardupilot-core/src/parameter-backups.ts:517-524 | The unknown and new ids are in order and lose or repeat nothing. |
| BackupRestore.EveryEntryCounted | packages/ardupilot-core/src/parameter-backups.ts:462-501 | Every entry is counted in exactly one of STAT_-skipped, excluded, unknown, changed and unchanged. |
| BackupRestore.DraftsExact | packages/ardupilot-core/src/parameter-backups.ts:494-501 | With distinct ids the drafts are exactly the changed entries, each with its own printed value. |
| BackupRestore.FateAfter | packages/ardupilot-core/src/parameter-backups.ts:462-501 | After the drafts of some ids are written, a matched entry whose id was written and has a changed entry is unchanged if and only if it agrees with what is stored of the last changed one; every other entry keeps its fate. Ids may repeat. |
| BackupRestore.SecondImport | packages/ardupilot-core/src/parameter-backups.ts:446-525 | After the drafts of some ids are written, a second import reports the same unknown, new, excluded and matched entries, and no change if and only if every matched entry whose id has a changed one has its id written and agrees with what is stored of the last changed entry. |
| BackupRestore.ConvergesExactly | packages/ardupilot-core/src/parameter-backups.ts:446-525 | Restore converges if and only if every matched entry whose id has a changed entry agrees within tolerance with what the controller stores of the last changed entry of that id. |
| BackupRestore.RestoreConverges | packages/ardupilot-core/src/parameter-backups.ts:446-525 | With distinct ids importing again after writing the drafts reports no change if and only if the controller stores every changed value within the tolerance; the unknown, new, excluded and matched entries are the same in any case. |
| BackupRestore.RepeatedIdDiverges | packages/ardupilot-core/src/parameter-backups.ts:462-501 | Finding: a backup with one id listed as 1 and as 2, for a parameter that is 0, does not converge. |
| BackupRestore.StoredValueDiverges | packages/ardupilot-core/src/parameter-backups.ts:588-590 | Finding: 5000.3, stored as 5000.2998046875, is reported as changed again. |
| BackupRestore.CreatedBackup | packages/ardupilot-core/src/parameter-backups.ts:184-208 | A created backup is sorted by id, lists no id twice, and holds exactly the exported parameters. |
| BackupRestore.ExportedExactly | packages/ardupilot-core/src/parameter-backups.ts:184-208 | An entry is exported if and only if it is the id and value of a live parameter that is no mirror, not excluded by its definition, no STAT_ id, among the ids asked for, and of no category left out. |
| BackupRestore.PressureIsExported | packages/ardupilot-core/src/parameter-backups.ts:166-208 | Finding: the documentation of the export options says that BAROn_GND_PRESS is always left out of an export; the code lists it, and only the import drops it. |
| BackupRestore.SelfImportIsNoOp | packages/ardupilot-core/src/parameter-backups.ts:184-586 | Exporting any snapshot with default options and importing it against itself changes nothing and reports no unknown or new id, despite mirrors, STAT_ ids and firmware-managed ids. |
| BackupRestore.OwnFileReads | packages/ardupilot-core/src/parameter-backups.ts:184-444 | A file exported from a snapshot parses to the exported entries, rounded, in the same order, or to the empty error. |
| BackupRestore.FileImportExactly | packages/ardupilot-core/src/parameter-backups.ts:184-586 | Imported into the controller it came from, the file reports no unknown or new id; each entry is excluded if its id is stripped, unchanged if its rounded value still matches, and changed otherwise; so no change is reported if and only if every entry that is not stripped survives the rounding within the tolerance. |
| BackupRestore.FileImportReportsChange | packages/ardupilot-core/src/parameter-backups.ts:336-344 | Finding: the file of a controller that holds 123456.703125 reports a change in that controller. |
| RestoreChain.WritesNextValue | packages/ardupilot-core/src/parameter-drafts.ts:309-320 | What the chain writes for a staged draft is the value its entry carries. |
| RestoreChain.DraftAccepted | packages/ardupilot-core/src/parameter-drafts.ts:130-230 | A draft of the chain is accepted if and only if its id is live, its text is a finite number and no negative gain, and the id is forced or its definition allows the number. |
| RestoreChain.ChainConvergesExactly | packages/ardupilot-core/src/parameter-backups.ts:446-525 | Import, draft validation and write together converge if and only if every matched entry whose id has a changed entry has a staged draft and agrees with what is stored of the last changed one. |
| RestoreChain.StagedExactly | packages/ardupilot-core/src/parameter-drafts.ts:288-320 | With distinct ids the draft of a changed entry is staged if and only if it is not refused and differs from the live value by more than a millionth of it. |
| RestoreChain.DistinctChainExactly | packages/ardupilot-core/src/parameter-backups.ts:446-525 | With distinct ids the chain converges if and only if that holds for every changed entry and its value is stored within the tolerance. |
| RestoreChain.ChainCanStall | packages/ardupilot-core/src/runtime-helpers.ts:509-512 | Finding: with 1000000.5 live and 1000000 in the backup the import reports a change that no draft stages, so the chain does not converge. |
| RestoreChain.OwnFileStagesNothing | packages/ardupilot-core/src/parameter-drafts.ts:288-307 | When seven digits keep a value within a millionth, importing a controller's own file may report changes but stages none of them. |
| CanonicalJson.QuoteEnds | scripts/generate-ap-periph-params.py:160-161 | A quoted and escaped string followed by any text determines the string and where it ends. |
| CanonicalJson.DumpEnds | scripts/generate-ap-periph-params.py:160-161 | The text of any JSON value, followed by anything that does not continue a number, determines the value and where it ends. |
| CanonicalJson.DumpInjective | scripts/generate-ap-periph-params.py:160-161 | Two JSON values with the same text are equal. |
| InternTables.KeysInjective | scripts/generate-ap-periph-params.py:160-175 | For strings, lists of pairs and compact definitions alike, values with the same key are equal, so a table lookup by key is a lookup by value. |
| InternTables.Interner.Intern | scripts/generate-ap-periph-params.py:160-164 | The index returned holds the value, which is appended if and only if the table did not hold it. |
| InternTables.Interner.Values | scripts/generate-ap-periph-params.py:178-179 | The table lists its values in index order. |
| InternTables.Interner.NoDuplicates | scripts/generate-ap-periph-params.py:160-164 | No table holds a value twice. |
| InternTables.CompactOf | scripts/generate-ap-periph-params.py:168-174 | The compact definition's indices are in range and expand to the original. |
| InternTables.GroupOne | scripts/generate-ap-periph-params.py:167-176 | One round of the loop files its parameter and keeps everything filed before decodable. |
| InternTables.Generate | scripts/generate-ap-periph-params.py:158-181 | The payload's indices are all in range, no table holds duplicates, and every name is cut behind its first underscore; whatever the parameter set, each of its parameters, and nothing else, is reached through prefix and suffix with its own definition. |
| InternTables.AddGroup | scripts/generate-ap-periph-params.py:238-242 | The entries of one prefix are added under prefix plus suffix, and nothing else changes. |
| InternTables.BuildCatalog | scripts/generate-ap-periph-params.py:219-242 | The catalog the emitted module builds from such a payload is the parameter set itself. |
| InternTables.GenerateThenDecode | scripts/generate-ap-periph-params.py:158-242 | Generator and decoder together are the identity on every parameter set. |
| CacheWorker.RunKeeps | apps/web/public/sw.js:87-211 | One invariant over every interleaving of installs, activations and fetch handlers, with requests that fail and cache operations that reject at any point: whatever rules the network obeys, the caches, pending writes and cached replies obey. |
| CacheWorker.AssetCacheNeverHtml | apps/web/public/sw.js:149-211 | The asset cache never holds HTML, the shell cache holds only the shell key, and no request but a navigation is answered with cached HTML, save for the shell's own URL or where an older cache held HTML. |
| CacheWorker.CachedAssetIsGenuine | apps/web/public/sw.js:178-194 | If every hashed URL has one content, a cached answer to it is that content and not HTML (`CacheReplies.CacheFirstExactly` says when an answer is a cached one). |
| CacheWorker.ShellHtmlExactly | apps/web/public/sw.js:158-166 | The shell, when present, is HTML after every event of a run if and only if every response that a navigation or an install stored as the shell was HTML. |
| CacheWorker.ShellStaysHtml | apps/web/public/sw.js:158-166 | So the offline shell is HTML as long as cacheable answers to navigations and installs are. |
| CacheWorker.ShellCanBeReplaced | apps/web/public/sw.js:158-166 | Finding: one navigation to a script makes that script the offline shell. |
| CacheWorker.FallbackExactly | apps/web/public/sw.js:158-211 | In every run a network-first handler is on its fallback branch if and only if its own request failed or its own write was rejected. |
| CacheWorker.CachedExactly | apps/web/public/sw.js:158-211 | A navigation, or a request that is not for an immutable asset, is answered from a cache if and only if the request of its own handler failed or the write of its answer was rejected. |
| CacheWorker.CachedAlthoughOnline | apps/web/public/sw.js:158-171 | Finding: a page that was fetched, but whose write was rejected, is answered by the older cached page. |
| CacheReplies.AnsweredOnce | apps/web/public/sw.js:158-257 | At any time of any run a request is pending, answered exactly once with its own URL and mode, or given up, and these exclude each other. |
| CacheReplies.AnswerOrigin | apps/web/public/sw.js:158-211 | An answer that is not cached is what the network gave this very handler, and one that may be kept has been kept by it, a navigation as the shell and anything else under its URL; a cached answer is what the handler's own lookup found first, for a navigation the shell, and its own URL only if no cache held the shell. |
| CacheReplies.CacheFirstExactly | apps/web/public/sw.js:178-194 | A request for an immutable URL that is no navigation is answered from a cache if and only if, at its handler's one lookup, the first cache holding the URL held it as non-HTML, and then with exactly that response. |
| CacheReplies.HitIsServed | apps/web/public/sw.js:178-182 | In that case the answer is given at once and the handler never sends a request, before or after. |
| CacheReplies.HtmlIsEvicted | apps/web/public/sw.js:183-187 | A handler whose lookup found HTML under an immutable URL is about to remove the URL from the asset cache, has removed it and nothing else, or has given up. |
| CacheLifecycle.InstallExactly | apps/web/public/sw.js:87-118 | In any run an install is pending, failed to fetch or keep its page, or has put the page it fetched into the shell cache and started precaching exactly its URLs. |
| CacheLifecycle.PrecacheExactly | apps/web/public/sw.js:102-112 | Each URL to precache has its own handler, which is pending, was passed over for a stated reason, or has put what the network gave it into the asset cache. |
| CacheLifecycle.EarlierCachesGo | apps/web/public/sw.js:122-131 | Once an activation has listed the caches, every cache of an earlier version is gone for good, has its own deletion pending, or had one rejected. |
| CacheLifecycle.CurrentCachesStay | apps/web/public/sw.js:122-131 | A current cache, once created, is never deleted. |
| CacheWorker.CacheStorage.OpenCache | apps/web/public/sw.js:97-100 | Opening creates a missing cache behind the existing ones and changes nothing else. |
| CacheWorker.CacheStorage.PutEntry | apps/web/public/sw.js:162-164 | Opening and putting stores the response under its URL in the named cache only. |
| CacheWorker.CacheStorage.DeleteEntry | apps/web/public/sw.js:185-186 | Opening and deleting removes one URL from the named cache only. |
| CacheWorker.CacheStorage.MatchUrl | apps/web/public/sw.js:168-179 | The lookup loop returns what the first cache, in order of creation, holds under the URL. |
| CacheWorker.CacheStorage.DeleteCache | apps/web/public/sw.js:122-128 | The named cache is removed and the others keep their order and contents. |
| CacheWorker.CacheStorage.StaleCaches | apps/web/public/sw.js:125-127 | The filter over the cache names selects exactly those of earlier versions, in order. |
| MavftpPaths.IdempotentExactly | packages/ardupilot-core/src/mavftp.ts:264-279 | Normalization is idempotent if and only if the trimmed path is no run of two or more slashes and no white space precedes its trailing slashes. |
| MavftpPaths.NormalizeShape | packages/ardupilot-core/src/mavftp.ts:264-279 | A normal form has no double slash, no padding at its start and no trailing slash, `/` itself aside. |
| MavftpPaths.NormalizeKeeps | packages/ardupilot-core/src/mavftp.ts:264-279 | A path keeps every component, in order, and its first character; a blank one becomes the virtual root @SYS. |
| MavftpPaths.JoinKeeps | packages/ardupilot-core/src/mavftp.ts:252-262 | A joined path has the components of the directory followed by those of the name. |
| MavftpPaths.ParentExactly | packages/ardupilot-core/src/mavftp.ts:281-293 | The parent is d if and only if d is not empty and the normal form is d, a slash and a name without slashes. |
| MavftpPaths.JoinParentExactly | packages/ardupilot-core/src/mavftp.ts:252-293 | For any directory and name, the parent of the joined path is the normalized directory if and only if that is a directory below the root and what is kept of the name is one path component. |
| MavftpPaths.ListingParents | packages/ardupilot-core/src/mavftp.ts:295-412 | Every entry of a listing has a safe name, and its path's parent is the normalized directory if and only if the directory settles and is not `/`. |
| MavftpPaths.ListingReads | packages/ardupilot-core/src/mavftp.ts:295-412 | A listing of well-formed records with any NUL padding parses to exactly its directories and files, in order, with their sizes. |
| MavftpPayload.EncodePayload | packages/ardupilot-core/src/mavftp.ts:76-89 | The buffer written in place is the header in little-endian order, at most 239 data bytes and zeros. |
| MavftpPayload.EncodeLayout | packages/ardupilot-core/src/mavftp.ts:76-89 | Each field stands at its place: little-endian words at 0 and 8, single bytes from 2 to 6, a zero at 7, the data from 12 on, and zeros up to 251 bytes. |
| MavftpPayload.DecodeEncode | packages/ardupilot-core/src/mavftp.ts:61-89 | Decoding an encoded payload gives each field reduced to its width and the data cut or padded to the size byte. |
| MavftpPayload.RoundTripExact | packages/ardupilot-core/src/mavftp.ts:61-89 | A payload survives if and only if every field fits its width and the data is as long as the size, capped at 239, says. |
| DraftValidation.OrBit | packages/ardupilot-core/src/parameter-drafts.ts:360-360 | The OR of two numbers has exactly the bits of either. |
| DraftValidation.BitmaskMaximum | packages/ardupilot-core/src/parameter-drafts.ts:343-363 | The loop with its mask computes the ceiling, or none for a plain parameter, no options or an index that is no integer from 0 to 30. |
| DraftValidation.MaskBits | packages/ardupilot-core/src/parameter-drafts.ts:353-362 | The ceiling has exactly the documented bits and stays below 2^31, so neither the sign bit nor the final shift matters. |
| DraftValidation.CeilingIsGreatest | packages/ardupilot-core/src/parameter-drafts.ts:331-363 | The ceiling is the greatest OR of documented bits. |
| DraftValidation.CeilingTightExactly | packages/ardupilot-core/src/parameter-drafts.ts:230-250 | Comparing with the ceiling admits only ORs of documented bits if and only if the documented bits leave no gap. |
| DraftValidation.BitmaskRefusesExactly | packages/ardupilot-core/src/parameter-drafts.ts:230-250 | A draft for a bitmask without a declared range is refused if and only if it exceeds every OR of documented bits; overriding always rescues it. |
| DraftValidation.CombinationsPass | packages/ardupilot-core/src/parameter-drafts.ts:230-250 | Every OR of documented bits is accepted, also for a gain. |
| DraftValidation.AcceptedExactly | packages/ardupilot-core/src/parameter-drafts.ts:130-320 | A draft is accepted if and only if it is a finite number, no negative gain, and forced or within every documented bound; a staged one differs beyond the tolerance and carries the difference. |
| DraftValidation.ReasonExactly | packages/ardupilot-core/src/parameter-drafts.ts:145-201 | Each reason that no override rescues is given if and only if its check is the first to fail; an accepted draft says that it matches the current value, or nothing. |
| DraftValidation.LimitExactly | packages/ardupilot-core/src/parameter-drafts.ts:209-281 | A writable draft is refused by the documented minimum, maximum, bits or enum if and only if that limit is the first it breaks. |
| DraftValidation.EntryCarries | packages/ardupilot-core/src/parameter-drafts.ts:130-321 | Every entry carries the id and text asked for, the title and category of the definition or else the id and its family, the current value, and the next value, difference and marks its status calls for. |
| DraftValidation.OverrideRescuesExactly | packages/ardupilot-core/src/parameter-drafts.ts:26-37 | A refusal is marked overridable if and only if overriding rescues it; overriding an accepted draft changes only the mark. |
| DraftValidation.ListedExactly | packages/ardupilot-core/src/parameter-drafts.ts:265-265 | A number whose value is listed is not among the options under `Object.is` if and only if it is one zero and only the other one is listed. |
| DraftValidation.ListedRefusedExactly | packages/ardupilot-core/src/parameter-drafts.ts:260-286 | A draft within the documented range is refused by an enum that lists its value if and only if it is one zero, only the other zero is listed, and it is not forced. |
| DraftValidation.GroupParameterDraftEntries | packages/ardupilot-core/src/parameter-drafts.ts:77-101 | The map of lists, pushed to entry by entry, sorts into the groups the next lemma describes. |
| DraftValidation.GroupsPartition | packages/ardupilot-core/src/parameter-drafts.ts:77-101 | Each entry of an allowed status is kept exactly once, in the group of its category; groups are distinct, sorted and non-empty, and sorted by id inside. |
| DraftValidation.SummaryMatchesGroups | packages/ardupilot-core/src/parameter-drafts.ts:63-101 | The summary counts what the default groups hold, lists their categories in order, and its statuses add up. |
| Sorting.SortKeeps | packages/ardupilot-core/src/parameter-backups.ts:208-208 | Sorting neither adds nor drops an element. |
| Sorting.SortOrdered | packages/ardupilot-core/src/parameter-backups.ts:208-208 | Under a total preorder the result is in order. |
| Sorting.SortStable | packages/ardupilot-core/src/parameter-backups.ts:425-435 | Elements that compare equal keep their order. |

## Left out

- The upgrade handler, origin and token checks, HTTP handshake and hashing of the bridge server are input and output or foreign calls.
- BridgeClients.CompleteRunDelivers: a frame with a length beyond the safe-integer range makes the source's activation reject; the model stops that activation and leaves the bytes in the buffer.
- BridgeClients.RunKeeps: the binary-frame handler is taken to settle without rejecting, as the bridge's own handler does.
- BridgeClients.RunReads: the error that a write after the end raises on the socket is not tied to that write; the socket may be closed or destroyed at any moment. What the socket accepted is taken to reach the peer.
- SerialTransport.RunKeeps: status and frame listeners that call back into the transport synchronously, `send`, and error message texts are not modelled.
- ReadbackWaiters.RunKeeps: numbers are reals, so the rounding of the tolerance test is not captured; waiters of a set are settled in an arbitrary order instead of insertion order; a delay above 2^31 - 1 ms, which runtimes shorten, counts as given.
- SyncWaiters.RunKeeps: timers may fire at any moment from their deadline on; how late they fire is left open.
- SyncWaiters.TimeoutMeansIdle: an idle window above 2^31 - 1 ms, which runtimes shorten, counts as given.
- BackupText.HeaderComments: says that header lines are comments; their wording is computed and not stated further.
- BackupText.LosslessExactly: how JavaScript prints seven digits and reads numbers is a parameter, with the assumption that a printed value is one token that reads as a number; the JSON branch is a parameter too.
- BackupRestore.SelfImportIsNoOp: the category, label and unit columns of a backup, which no import reads, are not modelled, and the regular expressions of the import categories are one classifier function.
- BackupRestore.ConvergesExactly: a draft's text is assumed to read back as the value it prints; what the controller stores of a value is a parameter, without the details of single precision.
- RestoreChain.OwnFileStagesNothing: that seven digits keep a value within a millionth is assumed of the printer.
- InternTables.Generate: a number is the text JSON writes for it, and NaN and the infinities are not modelled; the order in which names are visited is arbitrary instead of sorted.
- Parsing ArduPilot's documentation into compact definitions and the JSON blob of the emitted module are not modelled.
- CacheWorker.RunKeeps: method, origin and range filters, the extraction of asset URLs from the shell's text, the 504 replies and an earlier version of the worker still writing its own caches are not modelled; the URLs to precache are an arbitrary list.
- CacheWorker.CachedExactly: the handlers are transitions on values, one per stretch between awaits; only the cache storage they use is also modelled in place.
- MavftpPaths.ListingReads: listings are modelled after UTF-8 decoding, and the number syntax of sizes is a parameter.
- MavftpPayload.DecodeEncode: fields are natural numbers; negative arguments are not modelled.
- DraftValidation.AcceptedExactly: values are reals with a separate negative zero; the number syntax, the tolerance test, the gain pattern and the family of an id are parameters, and the messages are constructors, and the sorted list over all drafts is not modelled.
- Sorting.SortOrdered: `localeCompare` is an arbitrary total preorder.
- Floating-point rounding throughout.
- React components, graphics, Electron plumbing, firmware download, AI provider adapters and finite data tables hold no invariant of this kind.
