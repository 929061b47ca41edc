# SLIP framing and the Ardulingua hub device, in Dafny

This project models three parts of the Ardulingua system. It proves properties of each model.

- **The SLIP framing layer** (`KIMCFCommsDevel/slipstream.h`) is the byte stuffing of RFC 1055.
  - It uses printable reserved bytes: END `'#'`, ESC `'\\'`, ESC_END `'X'` and ESC_ESC `'E'`.
  - `SlipStream::writeSlipEscaped` transmits a payload as one packet.
  - `SlipStream::readSlipEscaped` captures a packet up to END and removes the escapes in place.
  - Both reach a transport through the forwarding methods `writeBytes`, `readBytesUntil`, `hasBytes`, `writeNow`, `clearInput` and `isStreamReady`.
- **`HubStreamAdapter`** (`ArduinoCoreTestDevice/ArduinoCoreTestDevice.h`) is an Arduino-style stream over the hub's serial port. It keeps a lookahead buffer of at most one byte.
- **The hub device** (`ArduinoCoreTestDevice/ArduinoCoreTestDevice.cpp`) has four parts modelled here:
  - the firmware identity query `GetControllerVersion`;
  - the version window of `Initialize`;
  - the port-name test and status of `DetectDevice`;
  - `Shutdown`, with the flag accessors of the hub class.

Modules:

- `Bytes` (`bytes.dfy`) holds the octet type `byte` that the other modules share.
- `SlipCodec` (`slip_codec.dfy`) is pure. It holds:
  - the constants;
  - `Escape` and `Frame`, the bytes a packet puts on the wire;
  - `Chunks`, the separate writes `writeSlipEscaped` issues for a payload: each maximal run of ordinary bytes, and the two-byte escape of each reserved byte;
  - `DecodeFrom`, the decoding loop of `readSlipEscaped` exactly as written;
  - `Unescape`, the decoding its documentation promises;
  - the lemmas relating these.
- `SlipStream` (`slip_stream.dfy`) covers the stateful side:
  - `Transport` is a reference transport.
    - Its field `quota` lists how many bytes each coming write accepts. A write past the end of the list goes through in full. So any pattern of short writes can be stated, including a short write followed by a full one.
    - `Sent` is everything the transport has accepted.
    - Its input holds the bytes already received. Its `readBytesUntil` is specified by the function `CaptureUntil`.
  - `Delivered(cs, quota)` is what reaches the wire when the writes `cs` are issued in order: the accepted front of each. `Credited(cs, quota)` is the count `writeSlipEscaped` makes of them.
  - `SlipStream` is the mixin bound to a transport. It has `WriteSlipEscaped` and `ReadSlipEscaped`.
  - `CollapseEscapes` is the in-place loop as written.
  - `UnescapeInPlace` is the loop as intended.
- `HubStream` (`hub_stream.dfy`) holds the hub's port and the adapter:
  - `ComPort` stands for the port, with `ReadFromComPort` and `WriteToComPort`. What the port has received and what a write reports are parameters of its state.
  - `HubStreamAdapter` has its one-byte buffer `rdbuf`.
- `ArduinoHub` (`arduino_hub.dfy`) is the hub class `Hub`.
  - Each `client_.call_get` outcome is an input: a `Reply(error, value)`, or `Threw` for an exception.
  - So are the results of the host calls around them.

Modelling choices:

- **Source defects.**
  - `read` calls `rdbuf_.pop()`, which `std::deque` does not have. `pop_front` is plainly meant, and the model removes the front byte.
  - The adapter's constructor is private in the source. The model gives it a constructor so that its methods can be stated.
- **`readSlipEscaped` and `size_t`.** `readSlipEscaped` passes `dest_size - 1` to `readBytesUntil` in `size_t` arithmetic. `SlipCodec.CaptureCapacity` writes out the wrap-around.
- **Undefined behaviour.** The decoding loop as written can read outside `dest` (see Findings).
  - The model reports that outcome as `Overrun` in `DecodeFrom`.
  - It reports it as `UndefinedRead` in `ReadSlipEscaped`.
  - The source's behaviour there is undefined.
- **Value of `ERR_FIRMWARE_NOT_FOUND`.** `rdlmm/DeviceError.h` defines it and is not part of this model. The model uses a stand-in value other than `DEVICE_OK`.
- **Width of `size_t`.** `SIZE_MAX` is fixed at 2^64 - 1 (`slip_codec.dfy`, `SIZE_MAX`). The same header also builds for 32-bit boards, where it is 2^32 - 1. Only `CaptureCapacity` and the bound on `dest.Length` depend on it.
- **`tolower`.** `LowerChar` is `tolower` in the "C" locale: it maps 'A'..'Z' to 'a'..'z' and leaves every other character alone.
- **An unreachable branch.** `readSlipEscaped` tests `nrx == 0` at slipstream.h:205, and that test never succeeds.
  - Line 175 already returns `ERROR_TIMEOUT` for an empty capture.
  - The loop writes one byte per count, so `nrx` ends equal to the non-zero `nread` (`DecodeKeepsCount`).
  - So `ERROR_ENCODING` comes back only on a misread.
- **The host and the firmware disagree.** The host (ArduinoCoreTestDevice.cpp:115-124) calls `?fname` and `?fver` and expects the name `"MM-Ardulingua"`. The firmware (ArduinoCoreTestFirmware/src/main.cpp:84-91) answers only the command `"Version"`, with `["MM-Ard", 2]`. The model follows the host, which as written refuses that firmware.

## Model

| member | source | states |
|---|---|---|
| SlipCodec.ReservedBytes | KIMCFCommsDevel/slipstream.h:13-16 | the reserved bytes are '#', '\\', 'X', 'E' and are pairwise distinct |
| SlipCodec.CaptureCapacity | KIMCFCommsDevel/slipstream.h:170-171 | the capacity passed to readBytesUntil is dest_size - 1 for a non-empty dest and wraps to SIZE_MAX for dest_size 0 |
| SlipCodec.EscapeByte | KIMCFCommsDevel/slipstream.h:113-136 | END goes out as ESC,'X', ESC as ESC,'E', any other byte as itself |
| SlipCodec.Escape | KIMCFCommsDevel/slipstream.h:112-141 | the payload with each END and ESC replaced by its escape, in order; its properties are the lemmas below |
| SlipCodec.Frame | KIMCFCommsDevel/slipstream.h:112-143 | a whole packet on the wire: the escaped payload, then one END |
| SlipCodec.EscapeAppend | KIMCFCommsDevel/slipstream.h:112-137 | escaping a concatenation escapes each part in turn, so the scan can flush run by run |
| SlipCodec.EscapePlain | KIMCFCommsDevel/slipstream.h:134-141 | a run with no END or ESC is transmitted unchanged |
| SlipCodec.EscapeLength | KIMCFCommsDevel/slipstream.h:112-142 | the escaped payload is between |src| and 2|src| bytes, and exactly |src| iff src holds no reserved byte |
| SlipCodec.EscapeHasNoEnd | KIMCFCommsDevel/slipstream.h:114-133 | the escaped payload never contains END |
| SlipCodec.EscapeRun | KIMCFCommsDevel/slipstream.h:134-141 | adding a run of ordinary bytes to the processed prefix appends that run verbatim to what is sent |
| SlipCodec.EscapeNext | KIMCFCommsDevel/slipstream.h:114-133 | adding one byte appends its escape: ESC,'X' for END, ESC,'E' for ESC, the byte otherwise |
| SlipCodec.FrameEndOnlyAtTail | KIMCFCommsDevel/slipstream.h:112-142 | in a transmitted packet END is the last byte and appears nowhere else |
| SlipCodec.Chunks | KIMCFCommsDevel/slipstream.h:112-141 | the writes writeSlipEscaped issues before its END: each maximal run of ordinary bytes, and the escape of each reserved byte, in order |
| SlipCodec.ChunksFlatten | KIMCFCommsDevel/slipstream.h:112-141 | the writes put together are exactly the escaped payload |
| SlipCodec.ChunksShape | KIMCFCommsDevel/slipstream.h:113-136 | every write is a non-empty run with no END or ESC, or one of the two escape pairs |
| SlipCodec.ChunksSourceCount | KIMCFCommsDevel/slipstream.h:110-141 | counting a run by its length and an escape as one byte, the writes stand for exactly the whole payload |
| SlipCodec.ChunksAppend | KIMCFCommsDevel/slipstream.h:121-122 | src restarts after every escape, so the writes of a payload split after a reserved byte are the writes of the first part followed by those of the second |
| SlipCodec.ChunksStep | KIMCFCommsDevel/slipstream.h:114-133 | at a reserved byte the writes made so far grow by the run before it, when there is one, and then its escape |
| SlipCodec.ChunksTail | KIMCFCommsDevel/slipstream.h:138-141 | after the scan the writes of the payload are those made so far plus the remaining run, when there is one |
| SlipCodec.DecodeFrom | KIMCFCommsDevel/slipstream.h:178-203 | the decoding loop exactly as written, one dest byte per count, a pair advancing src by two, with a read outside dest as Overrun; CollapseEscapes and ReadSlipEscaped are proved to follow it |
| SlipCodec.DecodeKeepsCount | KIMCFCommsDevel/slipstream.h:182-204 | the loop as written writes one byte per iteration, so nread comes back equal to the captured count |
| SlipCodec.DecodePlain | KIMCFCommsDevel/slipstream.h:182-208 | an escape-free captured run decodes to itself with no misread |
| SlipCodec.DecodeDanglingEscape | KIMCFCommsDevel/slipstream.h:183-196 | after an escape-free prefix only: an ESC that is the last captured byte is a misread and is kept literally in the output (after an escape pair this fails as written, see DecodeDanglingAfterPair) |
| SlipCodec.DecodePrefix | KIMCFCommsDevel/slipstream.h:182-203 | an escape-free stretch is copied unchanged in front of the rest of the pass |
| SlipCodec.DecodeEscaped | KIMCFCommsDevel/slipstream.h:182-203 | a correctly escaped stretch Escape(q) decodes to q without a misread, using |q| counts, provided counts remain after it |
| SlipCodec.DecodeBadEscape | KIMCFCommsDevel/slipstream.h:183-196 | after any correctly escaped prefix Escape(q), an ESC followed by neither 'X' nor 'E' makes the pass a misread (unless it reads outside dest), and the output starts with q and the literal ESC |
| SlipCodec.DecodeDanglingAfterPair | KIMCFCommsDevel/slipstream.h:182-196 | the capture ESC,'X',ESC with a stale 'X',0 behind it decodes as written to END,END,0 with no misread; a stale 0 there gives END,ESC,0 with a misread |
| SlipCodec.DecodeOverrunsCapture | KIMCFCommsDevel/slipstream.h:182-203 | the loop as written runs past the captured frame of "#": it yields "#",0 with no error, or a misread from a stale ESC, and with two pairs it reads outside dest |
| SlipCodec.Unescape | KIMCFCommsDevel/slipstream.h:153-165 | the documented decoding always completes and yields no more bytes than it was given |
| SlipCodec.UnescapeEscape | KIMCFCommsDevel/slipstream.h:153-165 | decoding an escaped payload gives back the payload, without a misread |
| SlipCodec.UnescapeAfterEscaped | KIMCFCommsDevel/slipstream.h:153-165 | the documented decoding of Escape(q) followed by anything is q, without a misread, in front of the decoding of what follows |
| SlipCodec.UnescapeBadEscape | KIMCFCommsDevel/slipstream.h:153-165 | the documented decoding flags a bad escape after any correctly escaped prefix Escape(q), and its output starts with q and the literal ESC |
| SlipCodec.UnescapeDanglingEscape | KIMCFCommsDevel/slipstream.h:153-165 | the documented decoding of Escape(q) followed by a dangling ESC is q and the ESC, flagged as a misread |
| SlipCodec.EscapeInjective | KIMCFCommsDevel/slipstream.h:112-142 | two payloads with the same escaped form are equal |
| SlipCodec.UnescapePlain | KIMCFCommsDevel/slipstream.h:153-165 | the documented decoding leaves an escape-free run unchanged |
| SlipCodec.DecodeAgreesOnPlain | KIMCFCommsDevel/slipstream.h:182-208 | on escape-free input the loop as written and the documented decoding agree |
| SlipStream.CaptureUntil | KIMCFCommsDevel/slipstream.h:228-244 | a capture is the terminator-free bytes before the first terminator, at most size of them; ERROR_TIMEOUT exactly when no terminator has arrived; ERROR_BUFFER exactly when one has arrived but none within the first size + 1 bytes; a capture exactly when one lies within them |
| SlipStream.Accept | KIMCFCommsDevel/slipstream.h:216-226 | a write never takes more bytes than it is given, and takes them all when its quota allows |
| SlipStream.Delivered | KIMCFCommsDevel/slipstream.h:112-142 | what the wire holds after a sequence of writeBytes calls: the front of each write its quota accepted, in order, each write using up one quota entry |
| SlipStream.Credit | KIMCFCommsDevel/slipstream.h:116-129 | what one write adds to ntx: a run adds the bytes its write took (lines 116, 126, 140), an escape pair adds one only when both bytes went out (118-119, 128-129) |
| SlipStream.Credited | KIMCFCommsDevel/slipstream.h:110-143 | the ntx writeSlipEscaped returns for its writes: the sum of each write's Credit under the quota left by the earlier ones; the final END (142) is not among them and is not counted |
| SlipStream.DeliveredAppend | KIMCFCommsDevel/slipstream.h:112-142 | one more write adds its accepted front to the wire and its credit to the count, under the quota left by the earlier writes |
| SlipStream.DeliveredInFull | KIMCFCommsDevel/slipstream.h:112-142 | writes that all go through in full put exactly their concatenation on the wire |
| SlipStream.CreditedBound | KIMCFCommsDevel/slipstream.h:116-129 | over runs and escapes the count never exceeds the payload bytes they stand for, and equals it when every write goes through in full |
| SlipStream.WireInFull | KIMCFCommsDevel/slipstream.h:106-144 | when every write goes through in full the wire carries exactly Frame(src) and the count is the payload length |
| SlipStream.CreditedAtMostPayload | KIMCFCommsDevel/slipstream.h:104-143 | whatever the transport accepts, the count returned never exceeds the payload length |
| SlipStream.ShortWriteLeavesHole | KIMCFCommsDevel/slipstream.h:114-142 | for the payload 1,END,2, a first write that takes nothing does not stop the later ones: the wire carries ESC,'X',2,END, a packet with a hole, and the count is 2 |
| SlipStream.FrameRoundTrip | KIMCFCommsDevel/slipstream.h:153-165 | a transmitted packet followed by anything is captured up to its END, the rest is left pending, and the documented decoding (Unescape) of the capture is the payload |
| SlipStream.Transport.WriteBytes | KIMCFCommsDevel/slipstream.h:216-226 | the write takes the front of the buffer its quota accepts, reports how many bytes it took, and uses up one quota entry |
| SlipStream.Transport.ReadBytesUntil | KIMCFCommsDevel/slipstream.h:228-244 | fills buffer[0..nread) with the capture and consumes it with its terminator; on an error nothing is consumed or written |
| SlipStream.Transport.HasBytes | KIMCFCommsDevel/slipstream.h:246-254 | true exactly when input is pending |
| SlipStream.Transport.ClearInput | KIMCFCommsDevel/slipstream.h:266-271 | discards the pending input and nothing else |
| SlipStream.Transport.IsStreamReady | KIMCFCommsDevel/slipstream.h:273-282 | reports the ready state |
| SlipStream.SlipStream.WriteBytes | KIMCFCommsDevel/slipstream.h:223-226 | forwards to the transport with its contract |
| SlipStream.SlipStream.ReadBytesUntil | KIMCFCommsDevel/slipstream.h:242-244 | forwards to the transport with its contract |
| SlipStream.SlipStream.HasBytes | KIMCFCommsDevel/slipstream.h:252-254 | forwards to the transport with its contract |
| SlipStream.SlipStream.ClearInput | KIMCFCommsDevel/slipstream.h:269-271 | forwards to the transport with its contract |
| SlipStream.SlipStream.IsStreamReady | KIMCFCommsDevel/slipstream.h:280-282 | forwards to the transport with its contract |
| SlipStream.SlipStream.WriteSlipEscaped | KIMCFCommsDevel/slipstream.h:106-144 | on a non-ready stream returns 0 and sends nothing; otherwise issues the writes Chunks(src) and then END, the wire receives the accepted front of each (Delivered), the result is Credited over them and never exceeds |src|, and it is Frame(src) with |src| when every write goes through in full |
| SlipStream.SlipStream.Emit | KIMCFCommsDevel/slipstream.h:116-142 | one writeBytes call as writeSlipEscaped makes it: the wire grows by the accepted front of the chunk, one quota entry is used, it returns how many bytes the write took, and Credited over the writes issued grows by the chunk's Credit for that number |
| SlipStream.SlipStream.FlushRun | KIMCFCommsDevel/slipstream.h:115-117 | writes a pending run when there is one and adds the bytes the write took to the count |
| SlipStream.SlipStream.WriteEscape | KIMCFCommsDevel/slipstream.h:118-120 | writes the escape pair of END or ESC and counts one only when both bytes went through |
| SlipStream.SlipStream.WriteThrough | KIMCFCommsDevel/slipstream.h:114-133 | at a reserved byte, writes the run before it and then its escape; the writes issued become Chunks of the prefix up to that byte |
| SlipStream.SlipStream.Finish | KIMCFCommsDevel/slipstream.h:138-143 | writes the remaining run and then END; the writes issued become Chunks(src) followed by END |
| SlipStream.SlipStream.ReadSlipEscaped | KIMCFCommsDevel/slipstream.h:167-209 | ERROR_STREAM without reading on a non-ready stream; a capture error passed through; ERROR_TIMEOUT for an empty capture; otherwise dest and the status are those of the loop as written over the capture, ERROR_ENCODING exactly on a misread, and a read outside dest is reported |
| SlipStream.CollapseEscapes | KIMCFCommsDevel/slipstream.h:178-204 | the in-place loop as written produces exactly DecodeFrom of the buffer, its write index never passing its read index |
| SlipStream.UnescapeInPlace | KIMCFCommsDevel/slipstream.h:178-203 | the loop with the counter dropping per consumed byte leaves Unescape of the captured run at the front of dest and the rest untouched |
| HubStream.ComPort.ReadFromComPort | ArduinoCoreTestDevice/ArduinoCoreTestDevice.h:97 | delivers up to maxLen received bytes in order, fewer only when nothing else has arrived |
| HubStream.ComPort.WriteToComPort | ArduinoCoreTestDevice/ArduinoCoreTestDevice.h:66 | reports the port status and sends the command only on status 0 |
| HubStream.Refilled | ArduinoCoreTestDevice/ArduinoCoreTestDevice.h:93-102 | the lookahead buffer after getNextChar: the next received byte when the buffer was empty and a byte had arrived, otherwise unchanged |
| HubStream.Drained | ArduinoCoreTestDevice/ArduinoCoreTestDevice.h:93-102 | the port input after getNextChar: without its first byte exactly when that byte moved to the buffer |
| HubStream.RefillKeepsOneByte | ArduinoCoreTestDevice/ArduinoCoreTestDevice.h:93-102 | a refill keeps the buffer at one byte at most, fetches only into an empty buffer, and loses or reorders no byte |
| HubStream.RefillIdempotent | ArduinoCoreTestDevice/ArduinoCoreTestDevice.h:86-89 | once the buffer holds a byte, another refill fetches nothing |
| HubStream.HubStreamAdapter.constructor | ArduinoCoreTestDevice/ArduinoCoreTestDevice.h:48 | binds the hub and starts with an empty buffer |
| HubStream.HubStreamAdapter.GetNextChar | ArduinoCoreTestDevice/ArduinoCoreTestDevice.h:93-102 | fetches at most one byte, and only when the buffer is empty |
| HubStream.HubStreamAdapter.Read | ArduinoCoreTestDevice/ArduinoCoreTestDevice.h:78-85 | -1 exactly when the buffer is empty after the refill attempt, otherwise returns and removes the front byte |
| HubStream.HubStreamAdapter.Peek | ArduinoCoreTestDevice/ArduinoCoreTestDevice.h:86-89 | like read, but the byte stays in the buffer |
| HubStream.HubStreamAdapter.Available | ArduinoCoreTestDevice/ArduinoCoreTestDevice.h:73-76 | the buffer size after a refill attempt, so 0 or 1, and 1 exactly when a byte was buffered or had arrived |
| HubStream.HubStreamAdapter.TimedRead | ArduinoCoreTestDevice/ArduinoCoreTestDevice.h:50-53 | behaves as read |
| HubStream.HubStreamAdapter.TimedPeek | ArduinoCoreTestDevice/ArduinoCoreTestDevice.h:54-57 | behaves as peek |
| HubStream.HubStreamAdapter.Write | ArduinoCoreTestDevice/ArduinoCoreTestDevice.h:63-67 | all or nothing: n and the first n bytes sent when the port reports 0, otherwise 0 and nothing sent |
| HubStream.HubStreamAdapter.WriteByte | ArduinoCoreTestDevice/ArduinoCoreTestDevice.h:59-61 | a one-byte write of the same all-or-nothing kind |
| HubStream.HubStreamAdapter.AvailableForWrite | ArduinoCoreTestDevice/ArduinoCoreTestDevice.h:69-71 | the largest 32-bit int |
| HubStream.PeekThenRead | ArduinoCoreTestDevice/ArduinoCoreTestDevice.h:78-89 | peek does not consume: the following read returns the byte peek showed |
| ArduinoHub.Identified | ArduinoCoreTestDevice/ArduinoCoreTestDevice.cpp:115-130 | both identity queries answer without error and the name is "MM-Ardulingua" |
| ArduinoHub.VersionAccepted | ArduinoCoreTestDevice/ArduinoCoreTestDevice.cpp:235-236 | the version-window test of Initialize, between g_MinFirmwareVersion 1 and g_MaxFirmwareVersion 2 (cpp:47-48) inclusive; Initialize's contract is stated through it |
| ArduinoHub.VersionWindow | ArduinoCoreTestDevice/ArduinoCoreTestDevice.cpp:47-48 | the accepted firmware versions are exactly 1 and 2 |
| ArduinoHub.LowerChar | ArduinoCoreTestDevice/ArduinoCoreTestDevice.cpp:152 | tolower in the "C" locale: 'A'..'Z' to 'a'..'z', any other character unchanged |
| ArduinoHub.Lower | ArduinoCoreTestDevice/ArduinoCoreTestDevice.cpp:150-153 | lowercasing keeps the length and maps each character by tolower |
| ArduinoHub.LowerIdempotent | ArduinoCoreTestDevice/ArduinoCoreTestDevice.cpp:150-153 | lowercasing twice is lowercasing once |
| ArduinoHub.LowerInPlace | ArduinoCoreTestDevice/ArduinoCoreTestDevice.cpp:150-153 | the iterator loop leaves the lowercased port name in place |
| ArduinoHub.ShouldProbe | ArduinoCoreTestDevice/ArduinoCoreTestDevice.cpp:149-155 | the lowercased port name is non-empty and neither "undefined" nor "unknown" |
| ArduinoHub.ShouldProbeIgnoresCase | ArduinoCoreTestDevice/ArduinoCoreTestDevice.cpp:149-155 | the probe decision does not depend on letter case |
| ArduinoHub.ShouldProbeRefusesUndefined | ArduinoCoreTestDevice/ArduinoCoreTestDevice.cpp:154-155 | an empty port name and "Undefined" are not probed |
| ArduinoHub.ShouldProbeRefusesUnknown | ArduinoCoreTestDevice/ArduinoCoreTestDevice.cpp:154-155 | "UNKNOWN" is not probed |
| ArduinoHub.ShouldProbePortName | ArduinoCoreTestDevice/ArduinoCoreTestDevice.cpp:154-156 | a real port name such as "COM3" is probed |
| ArduinoHub.Hub.constructor | ArduinoCoreTestDevice/ArduinoCoreTestDevice.cpp:85-87 | a new hub is neither initialized nor has its port available |
| ArduinoHub.Hub.GetControllerVersion | ArduinoCoreTestDevice/ArduinoCoreTestDevice.cpp:110-135 | DEVICE_OK exactly when both queries succeed for "MM-Ardulingua", then version is the reported one and 0 on every other path; a ?fname error is returned as is without a ?fver call; a wrong name or an exception gives ERR_FIRMWARE_NOT_FOUND |
| ArduinoHub.Hub.DetectDevice | ArduinoCoreTestDevice/ArduinoCoreTestDevice.cpp:141-202 | CanCommunicate at once when initialized; Misconfigured when the lowercased port name is empty, "undefined" or "unknown"; otherwise CanCommunicate exactly when the probe ran and GetControllerVersion succeeded, else CanNotCommunicate |
| ArduinoHub.Hub.Initialize | ArduinoCoreTestDevice/ArduinoCoreTestDevice.cpp:204-266 | returns the first failing step's code: the name property's code; when the identity check fails, GetControllerVersion's code for each of its failures (the ?fname or ?fver error, or ERR_FIRMWARE_NOT_FOUND for a wrong name or an exception); ERR_VERSION_MISMATCH for an identified version outside 1..2; then the first failing host step; DEVICE_OK exactly when all steps succeed, and sets initialized only then |
| ArduinoHub.Hub.Shutdown | ArduinoCoreTestDevice/ArduinoCoreTestDevice.cpp:290-293 | clears initialized, returns DEVICE_OK and changes nothing else |
| ArduinoHub.Hub.IsPortAvailable | ArduinoCoreTestDevice/ArduinoCoreTestDevice.h:132 | reports portAvailable |
| ArduinoHub.Hub.IsLogicInverted | ArduinoCoreTestDevice/ArduinoCoreTestDevice.h:133 | reports invertedLogic |
| ArduinoHub.Hub.IsTimedOutputActive | ArduinoCoreTestDevice/ArduinoCoreTestDevice.h:134 | reports timedOutputActive |
| ArduinoHub.Hub.SetTimedOutput | ArduinoCoreTestDevice/ArduinoCoreTestDevice.h:135 | sets timedOutputActive and nothing else |
| ArduinoHub.SetThenQueryTimedOutput | ArduinoCoreTestDevice/ArduinoCoreTestDevice.h:134-135 | SetTimedOutput(a) followed by IsTimedOutputActive() returns a |

## Left out

- SlipStream.SlipStream.ReadSlipEscaped: requires a dest of at least one byte. With dest_size 0 the source asks readBytesUntil for SIZE_MAX bytes into an empty buffer, which no transport can honour. CaptureCapacity states that wrap-around.
- SlipStream.SlipStream.WriteNow and SlipStream.Transport.WriteNow: they carry no ensures. The reference transport holds nothing back, so a flush has no effect, and the missing modifies clause says so.
- SlipCodec.DecodeDanglingEscape: holds only when no ESC comes before the dangling one. After an escape pair the loop as written can complete the dangling ESC with a stale byte behind the capture, so the general statement is false. `DecodeDanglingAfterPair` gives the input, and the second Findings row records it. `UnescapeDanglingEscape` proves the general statement for the corrected decoding.
- HubStream.HubStreamAdapter.GetNextChar: a failed port read is not modelled; `ComPort.ReadFromComPort` always succeeds. The source ignores the status ReadFromComPort returns and then tests `read` (ArduinoCoreTestDevice.h:94-100). `read` is never initialised, so after a failed read getNextChar has undefined behaviour, and it may also push the uninitialised `buf`.
- The free function `sproto::writeSlipEscaped` (slipstream.h:30-77) is not modelled. It does not compile as written: it calls `memcpy` with two arguments and calls `writeBytes` outside any class.
- The `const char*` overloads of writeSlipEscaped and readSlipEscaped (slipstream.h:149-151, 212-214) are not modelled separately. They only cast the buffer to `uint8_t*` and forward.
- The CRTP `*_impl` placeholders (slipstream.h:91-96) are not modelled. They are unreachable asserts, and the `Transport` class takes their place.
- Real serial I/O, timeouts and sleeps are left out: `PurgeComPort`, `SleepMs`, the serial-manager property settings of DetectDevice, and the transport's timeout period. A timeout is modelled as "no terminator in the pending input".
- `MMThreadLock`/`MMThreadGuard` are left out. They serve concurrency, which is not modelled.
- The RPC client `client_.call_get` and the rdl/rdlmm libraries are not part of this model. Their results are inputs.
- `foo_`, `barA_`, `barB_`, `CreateProperty`, `UpdateStatus`, `OnVersion` and `OnTest` are not modelled. Their implementations are not part of this model, so Initialize takes their status codes as inputs. The version and test properties, whose results the source ignores, are not modelled.
- ArduinoHub.Hub.DetectDevice: an exception thrown by the host after the probe is not modelled. It leaves the status where the probe put it, which is what the model returns. An exception before the probe is the `hostFault` input.
- ArduinoHub.Hub.constructor: the source leaves `invertedLogic_`, `timedOutputActive_` and `version_` uninitialized. The model takes their starting values as parameters.
- The firmware (`ArduinoCoreTestFirmware/src/main.cpp`), `lib/vs2019/libArdulingua/stub.cpp` and `UnitTests/UnitTestsMain.cpp` are not part of this model. They are firmware and host test harnesses over libraries not part of this model.

## Findings

| source | as written | input that shows it | evidently intended | confidence | as-written member | corrected member |
|---|---|---|---|---|---|---|
| KIMCFCommsDevel/slipstream.h:182-202 | `while (remaining--)` drops the counter once per output byte, while an escape pair advances `src` by two, so each pair makes the pass read one byte past the captured run | the frame of the payload "#" (ESC, 'X', END) read into a 3-byte dest whose last byte is a stale 0: nread 2 is captured and the pass yields "#", 0 with NO_ERROR and nread 2 | drop the counter once per consumed input byte, giving "#" with nread 1 | high, not executed | SlipCodec.DecodeOverrunsCapture | SlipStream.UnescapeInPlace |
| KIMCFCommsDevel/slipstream.h:182-196 | the guard `remaining > 0` counts output bytes, so after an escape pair a dangling ESC at the end of the capture still sees one count left and pairs with the byte behind the capture | the packet ESC, 'X', ESC, END captured as ESC, 'X', ESC (nread 3) into a 5-byte dest whose bytes 3..4 hold a stale 'X', 0: the pass yields END, END, 0 with NO_ERROR and nread 3 | a dangling ESC at the end of the capture is a misread, giving the first END and the ESC with ERROR_ENCODING | high, not executed | SlipCodec.DecodeDanglingAfterPair | SlipCodec.UnescapeDanglingEscape |

The corrected decoding is `SlipCodec.Unescape`. Its round trip `Unescape(Escape(p)) == Scanned(p, false)` is `SlipCodec.UnescapeEscape`. `SlipStream.FrameRoundTrip` carries it through the capture of a whole packet.
