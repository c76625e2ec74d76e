# Patrol link verification

A Dafny model of the patrol robot's communication and device code, and proofs about it:

- the TCP link: framing, the scripted socket under `sendAll` and `pollCommands`, the C++ deframer and
  the Python one of the link check, and delivery from one end to the other (`Bytes`, `FrameProtocol`,
  `TcpStream`, `TcpServer`, `TcpWire`, `FrameParserCheck`, `TcpDelivery`);
- the serial link: CRC-8 as polynomial division over GF(2) and what it detects, the deframer and its
  resynchronisation, the serial manager (`Octets`, `Crc8`, `Crc8Detection`, `SerialLink`,
  `SerialDelivery`, `SerialManager`);
- the recursive-descent JSON parser, RFC 8259 texts as syntax trees, exactly the language it accepts, a
  printer, and the configuration file over them, printed by interpreting its format (`Json`, `JsonParser`,
  `JsonText`, `JsonLanguage`, `JsonRender`, `Decimal`, `Printf`, `ConfigManager`, `ConfigExact`);
- the kernel's frame vector with its in-place changes of representation and its page references
  (`FrameVector`);
- the ownership of V4L2 buffers, mappings and descriptors under any pattern of failing calls
  (`CameraManager`);
- periodic firing on a wrapping 32-bit clock (`Timing`, `Timer`, `TaskScheduler`);
- one client session from the first byte to the last (`Application`, `SessionWire`).

Code that changes state step by step is modelled by methods and classes with the same fields, loops and
branches. Each such method is proved against a function of the old state, and the theorems are about
those functions or are the invariants the methods keep. What the functions compute is also stated without
them: by byte values and offsets (`TcpWire`, `SessionWire`), by positions in the scripts, by the areas of the
address space, by the keys of a file, by recursion over the inputs alone. `dafny verify dfyconfig.toml` checks the whole
project.

## The environment

The kernel, the network and the clock are not modelled as code of their own but as choices the proofs
quantify over.

- Sockets answer from finite scripts of partial transfers and errors. A receive script that has run out
  means that nothing more has arrived; a send script that has run out means that sending fails.
- `CameraManager.Kernel` answers from a finite script too, one answer a call, within the V4L2 rules:
  VIDIOC_QBUF fails on a buffer that is already queued, VIDIOC_DQBUF returns a queued buffer of the
  driver's choice, a failing VIDIOC_DQBUF may take a buffer off the queue without naming it (it is `lost`
  until the next start, since grabFrame never queues it again), a failing VIDIOC_STREAMOFF changes nothing,
  and closing the descriptor releases the queue. A count of failed calls makes "succeeds exactly when no
  call fails" a statement about each method. The readiness wait counts as failed on a timeout. A script
  that has run out means that every call fails.
- The address space is a list of disjoint areas and a map from page addresses to frame numbers.
- Clock readings are parameters that never go back; a session gets the list of its readings. They are
  unbounded; every cut to 32 bits is written out.
- `serial_proto::crc8` works on octets of eight booleans, because its laws are about bits; the TCP code
  works on bytes as numbers.
- The conversion of a double to an integer is a parameter (`trunc`) and doubles keep their lexeme.

## Where the code differs from its documentation

The model follows the code.

- The serial protocol documents LEN as the command byte plus the payload, so at least 1
  (include/modules/serial/Protocol.h:12). `SerialManager::poll` accepts LEN = 0 and reports 2^64 - 1 payload
  bytes, and `buildFrame` with 255 payload bytes writes LEN = 0. `SerialDelivery.RoundTripExact` and
  `SerialDelivery.ZeroLengthExact` say exactly when.
- The TCP receiver skips payloads over 16 MiB, which `sendFrame` sends all the same, with the length cut to
  32 bits. `TcpStream.DeliveryExact` says exactly when delivery is exact.
- `pollCommands` returns -1 or -2 before it parses the bytes it has just read; `TcpServer.PollCommands` says
  what then stays in the buffer.
- The JSON parser decodes \b, \f and \u in its own way; `JsonText.DecodeExact` says exactly which strings are
  affected. It also accepts input that ends right after `[`, `{` or a comma, white space beyond the RFC's
  four characters, incomplete numbers, unknown escapes and trailing bytes; `JsonLanguage.AcceptedExact` is the
  exact language, with the value of every text in it.
- `save` prints strings without escaping them; `ConfigExact.RestoresExactly` says exactly which configurations
  survive.
- `startStreaming` that fails midway leaves buffers queued; `CameraManager.CameraManager.StartStreaming` says which,
  and `CameraManager.CameraManager.FailedStartSticks` what that costs.
- A buffer belongs to the driver or the application only as long as no failing VIDIOC_DQBUF takes one;
  `CameraManager.StreamPartition` is the exact condition.
- `serveClient` ignores the result of `sendText`; `Application.WireExact` says exactly when the framing survives.
- `serveClient` gives up on a poll that meets the end of the stream or an error, with the commands in it;
  `Application.CommandsExact` says exactly when one is lost.
- `frame_vector_create` leaves two flags uninitialised; the invariant of `FrameVector.FrameVector` holds for any
  value of them, because they matter only while there are frames.
- The timers promise a period; `Timing.PunctualExact` gives the exact bound on tick gaps under which the 32-bit
  elapsed time keeps it, which is `interval + g <= 2^32`.

## Model

| member | source | states |
|---|---|---|
| `FrameProtocol.BuildHeader` | include/modules/network/FrameProtocol.h:53-60 | the six header bytes: SOF, type, and the length modulo 2^32 in little-endian order |
| `FrameProtocol.BuildFrame` | include/modules/network/FrameProtocol.h:65-73 | builds the same bytes that header and payload make when they are sent one after the other |
| `Bytes.Le32RoundTrip` | include/modules/network/FrameProtocol.h:53-60 | writing a 32-bit field and reading it back loses exactly what uint32_t loses |
| `FrameProtocol.PackSensor` | include/modules/network/FrameProtocol.h:103-137 | the field-by-field pushes give the 40-byte payload whose fields lie at the documented offsets |
| `FrameProtocol.SensorRoundTrip` | include/modules/network/FrameProtocol.h:79-137 | a reader that knows only offsets and widths gets every one of the 20 fields back, negative ones included |
| `FrameProtocol.SensorLayout` | include/modules/network/FrameProtocol.h:79-137 | the 20 fields by literal byte offsets, low byte first, negative ones in two's complement |
| `TcpWire.Numbers` | include/modules/network/FrameProtocol.h:25-48 | every constant of the protocol by its value |
| `TcpWire.FrameLayout` | include/modules/network/FrameProtocol.h:53-73 | any frame on the wire by byte positions: 0xA5, the type, four bytes of length with weights 1, 256, 65536 and 16777216, the payload |
| `TcpWire.DecodeLeftmost` | src/modules/network/TcpServer.cpp:153-177 | the first position with 0xA5 and a length of at most 16777216 decides: a complete frame there is taken with exactly those bytes and what follows is decoded by itself; an incomplete one is kept |
| `TcpWire.DecodeNothing` | src/modules/network/TcpServer.cpp:153-177 | with no such position nothing is taken and only the last five bytes are kept |
| `TcpWire.CommandDecoded` | src/modules/network/TcpServer.cpp:153-177 | the bytes A5 40 02 00 00 00 a b, behind any bytes other than A5, are the command (a, b) and nothing else |
| `TcpWire.CommandArrives` | src/modules/network/TcpServer.cpp:135-178 | a receiver without a start of frame in its buffer that reads those eight bytes returns 8, appends exactly that command and keeps nothing |
| `TcpWire.CommandSwallowed` | src/modules/network/TcpServer.cpp:135-178 | the condition on the buffer is needed: behind the beginning of another frame the same eight bytes are payload and no command is reported |
| `TcpStream.LengthField` | include/modules/network/FrameProtocol.h:53-60 | what the receiver reads as length is the payload length modulo 2^32 |
| `TcpStream.DecodeSplit` | src/modules/network/TcpServer.cpp:153-177 | cutting a buffer anywhere and deframing in two goes gives the frames and the residue of deframing it in one |
| `TcpStream.DecodeIdempotent` | src/modules/network/TcpServer.cpp:153-177 | the residue holds nothing that another pass would take |
| `TcpStream.ChunkInvariance` | src/modules/network/TcpServer.cpp:135-178 | over any run of receives, the frames delivered and the final buffer are those of one decode of the whole stream |
| `TcpStream.ResidueBound` | src/modules/network/TcpServer.cpp:162-165 | the buffer left after a pass is shorter than 6 bytes plus 16 MiB, and no frame taken is over 16 MiB |
| `TcpStream.DecodeAll` | src/modules/network/TcpServer.cpp:153-177 | frames of at most 16 MiB put back to back come out exactly, whatever bytes follow |
| `TcpStream.DeliveryExact` | src/modules/network/TcpServer.cpp:122-177 | a list of frames is received exactly if and only if no payload is over 16 MiB |
| `TcpServer.Socket.Recv` | src/modules/network/TcpServer.cpp:141 | one answer of recv(): the next event of the script, at most 512 bytes |
| `TcpServer.Socket.Send` | src/modules/network/TcpServer.cpp:109 | one answer of send(): a non-empty part of the data reaches the wire, or nothing does |
| `TcpServer.Transmit` | src/modules/network/TcpServer.cpp:105-120 | how far a full write gets against any script of partial sends and errors; it succeeds exactly when every byte is out |
| `TcpServer.TransmitExact` | src/modules/network/TcpServer.cpp:105-120 | it succeeds exactly if the kernel offers to take as many bytes before it refuses, and otherwise gets rid of exactly those offered |
| `TcpServer.TransmitUses` | src/modules/network/TcpServer.cpp:105-120 | it uses no more answers than that takes |
| `TcpServer.SendAll` | src/modules/network/TcpServer.cpp:105-120 | the loop over partial sends, EINTR and EAGAIN puts exactly the first `taken` bytes on the wire and uses exactly that much of the script |
| `TcpServer.TransmitFrame` | src/modules/network/TcpServer.cpp:122-128 | header and then payload: succeeds exactly when the whole encoded frame is out |
| `TcpServer.SendFrame` | src/modules/network/TcpServer.cpp:122-128 | whatever the kernel answers, the wire grows by a prefix of the encoded frame, all of it exactly on success |
| `TcpServer.SendText` | src/modules/network/TcpServer.cpp:130-133 | the same for a text frame |
| `TcpServer.Drain` | src/modules/network/TcpServer.cpp:138-151 | the receive loop stops on end of stream, on would-block or on an error, and on nothing else |
| `TcpServer.DrainExact` | src/modules/network/TcpServer.cpp:138-151 | by positions in the script: everything before the first answer that is neither data nor an interruption is read, in order, and that answer says why it stopped |
| `TcpServer.Receive` | src/modules/network/TcpServer.cpp:138-151 | reads everything available into the caller's buffer; -1 on end of stream, -2 on an error, otherwise the number of bytes read |
| `TcpServer.ValidAfterMore` | src/modules/network/TcpServer.cpp:143 | appending received bytes keeps frames so far plus buffer equal to one decode of the whole stream |
| `TcpServer.Parse` | src/modules/network/TcpServer.cpp:153-176 | the in-place scan takes exactly the frames of one decode (pinned by byte values in TcpWire), appends exactly the commands among them and erases exactly what was consumed |
| `TcpServer.PollCommands` | src/modules/network/TcpServer.cpp:135-178 | reading then parsing: on -1 or -2 the new bytes stay in the buffer, unparsed, and the commands in them are not reported; otherwise commands and buffer are those of one decode of everything ever received, and the buffer is bounded |
| `FrameParserCheck.FindSof` | test/frame_parser_check.py:29-32 | the first SOF at or after an offset |
| `FrameParserCheck.TwinsAgree` | test/frame_parser_check.py:23-47 | on any buffer the Python parser dispatches exactly the C++ frames, and its residue is the C++ residue without its leading non-SOF bytes |
| `FrameParserCheck.PyDecodeSplit` | test/frame_parser_check.py:23-47 | cutting a buffer anywhere and parsing in two goes dispatches the frames of parsing it in one |
| `FrameParserCheck.PyRunInvariance` | test/frame_parser_check.py:92-100 | over any run of recv calls the dispatched frames and the residue are those of one parse of the whole stream |
| `FrameParserCheck.TwinRunsAgree` | test/frame_parser_check.py:23-47 | the same stream, cut differently for each: same frames, same commands, residues equal up to the dropped prefix |
| `FrameParserCheck.ParseStream` | test/frame_parser_check.py:23-47 | the find-and-unpack loop dispatches exactly the frames of one decode and returns its residue |
| `FrameParserCheck.Stats.Dispatch` | test/frame_parser_check.py:50-75 | the five counters stay equal to the counts over all frames ever dispatched |
| `FrameParserCheck.Stats.Verdict` | test/frame_parser_check.py:105 | passes exactly when no frame seen is a short sensor frame or a video frame that does not start like a JPEG, and some video or text frame was seen |
| `TcpDelivery.TransmitSucceeds` | src/modules/network/TcpServer.cpp:105-120 | if no send fails hard and enough of them accept something, every byte gets out |
| `TcpDelivery.SendFramesSucceeds` | src/modules/network/TcpServer.cpp:122-128 | the same for a list of frames: the wire holds exactly their encodings |
| `TcpDelivery.SendFramesPrefix` | src/modules/network/TcpServer.cpp:122-128 | under any script the bytes written are a prefix of the encodings, equal exactly on success |
| `TcpDelivery.SendFramesAppend` | src/modules/network/TcpServer.cpp:122-128 | one more frame goes out on what is left of the script, unless the run has already failed |
| `TcpDelivery.EndToEnd` | src/modules/network/TcpServer.cpp:105-177 | frames of at most 16 MiB, any partial writes and interruptions, any two chunkings: both receivers report exactly that list in order and keep nothing back |
| `TcpDelivery.BrokenSendIsPrefix` | src/modules/network/TcpServer.cpp:105-177 | when the connection breaks anywhere, the receiver reports a prefix of the frames sent: none invented, reordered or repeated |
| `Octets.OfNatValue` | include/modules/serial/Protocol.h:64 | the cast to uint8_t keeps the value modulo 256 |
| `Crc8.ComputeCrc8` | include/modules/serial/Protocol.h:47-56 | the nested bit loop computes the register function the laws below are about |
| `Crc8.CrcOfOne` | include/modules/serial/Protocol.h:47-56 | the generator by its value: the check byte of the single byte 1 is 7, and of no bytes 0 |
| `Crc8.CrcLinear` | include/modules/serial/Protocol.h:47-56 | the CRC of the bytewise exclusive-or of two messages of equal length is the exclusive-or of their CRCs |
| `Crc8.CrcQuotient` | include/modules/serial/Protocol.h:47-56 | M(x) x^8 + crc(x) is a multiple of x^8 + x^2 + x + 1 over GF(2), with the polynomial product defined by convolution |
| `Crc8.QuotientUnique` | include/modules/serial/Protocol.h:47-56 | dividing by the generator has one quotient, so the loop's result is the remainder |
| `Crc8.VerdictIsDivisibility` | src/modules/serial/SerialManager.cpp:86-88 | the check at the receiver passes exactly when covered bytes and check byte form a multiple of the generator |
| `Crc8Detection.MultipleIsWide` | include/modules/serial/Protocol.h:47-56 | a nonzero multiple of the generator has two nonzero coefficients at least eight places apart |
| `Crc8Detection.BurstDetected` | src/modules/serial/SerialManager.cpp:86-88 | any nonzero error within eight consecutive bits of data and CRC, in a message of any length, makes the check fail |
| `Crc8Detection.NineBitBurstExact` | src/modules/serial/SerialManager.cpp:86-88 | an error within nine consecutive bits goes undetected exactly when it is the generator's own bit pattern |
| `Crc8Detection.CrcParity` | include/modules/serial/Protocol.h:47-56 | the parity of the CRC is the parity of the bytes it covers, for every length |
| `Crc8Detection.OddFlipsDetected` | src/modules/serial/SerialManager.cpp:86-88 | any odd number of flipped bits makes the check fail |
| `Crc8Detection.PeriodExact` | include/modules/serial/Protocol.h:47-56 | x^d = 1 modulo the generator exactly when 127 divides d |
| `Crc8Detection.DivisibleIffSyndrome` | include/modules/serial/Protocol.h:47-56 | divisibility by the generator is the vanishing of the bitwise remainder |
| `Crc8Detection.TwoFlipsExact` | src/modules/serial/SerialManager.cpp:86-88 | two flipped bits go undetected exactly when their distance is a multiple of 127 |
| `SerialLink.BuildFrame` | include/modules/serial/Protocol.h:58-70 | the pushes build AA 55, LEN modulo 256, command, payload and the CRC over LEN onwards |
| `SerialLink.FrameLayout` | include/modules/serial/Protocol.h:58-70 | by value: 0xAA, 0x55, payload length plus 1 modulo 256, then command, payload and check byte |
| `SerialLink.DeframeSplit` | src/modules/serial/SerialManager.cpp:76-96 | cutting a buffer anywhere and deframing in two goes gives the callbacks and the residue of one go |
| `SerialLink.ChunkInvariance` | src/modules/serial/SerialManager.cpp:69-97 | over any run of reads the callbacks and the final buffer are those of one pass over all bytes read |
| `SerialLink.ResidueBound` | src/modules/serial/SerialManager.cpp:76-96 | at most 258 bytes wait for more |
| `SerialLink.GreedySound` | src/modules/serial/SerialManager.cpp:76-96 | every delivered frame is a marked, CRC-correct slice of the stream; slices are disjoint and in order; no good frame starting in the consumed region is missed unless it starts inside a delivered one |
| `SerialLink.GoodFrameExact` | src/modules/serial/SerialManager.cpp:76-94 | a good frame and the callback it causes by byte values: 0xAA, 0x55, LEN bytes and the check byte behind them |
| `SerialLink.RestExact` | src/modules/serial/SerialManager.cpp:76-96 | what is kept is shorter than five bytes, or starts with AA 55 and a LEN that calls for more bytes than there are |
| `SerialLink.Accounting` | src/modules/serial/SerialManager.cpp:76-96 | every byte is counted once: the pieces taken as frames or skipped, joined, with the residue after them, are the stream, and the framed pieces are the callbacks |
| `SerialDelivery.FrameTaken` | include/modules/serial/Protocol.h:58-70 | a built frame with a payload of at most 254 bytes is taken whole and delivered as it was, whatever follows |
| `SerialDelivery.RoundTripExact` | include/modules/serial/Protocol.h:58-70 | a built frame comes out as it went in exactly when its payload has at most 254 bytes |
| `SerialDelivery.DeliveredSizes` | src/modules/serial/SerialManager.cpp:82-94 | no delivered frame has more than 254 payload bytes, except that LEN = 0 reports 2^64 - 1 |
| `SerialDelivery.ZeroLengthExact` | src/modules/serial/SerialManager.cpp:82-94 | AA 55 00 with five bytes buffered is taken as a frame exactly when the next byte is zero, and the callback is told of 2^64 - 1 bytes; otherwise it is skipped by one byte |
| `SerialDelivery.BurstRejected` | src/modules/serial/SerialManager.cpp:82-88 | a frame with SOF and LEN intact, hit anywhere else by a burst of at most eight bits, is not delivered |
| `SerialDelivery.OddFlipsRejected` | src/modules/serial/SerialManager.cpp:82-88 | the same for any odd number of flipped bits |
| `SerialDelivery.DamagedRecovered` | src/modules/serial/SerialManager.cpp:76-96 | after a damaged frame, with nothing like a start of frame in what is left of it and the noise behind it, every following frame is delivered |
| `SerialDelivery.BurstRecovered` | src/modules/serial/SerialManager.cpp:76-96 | in particular a frame hit by a burst of at most eight bits costs no other frame |
| `SerialDelivery.NoiseSkipped` | src/modules/serial/SerialManager.cpp:78-81 | noise without AA 55 is skipped up to the frame behind it |
| `SerialDelivery.LineDeframed` | src/modules/serial/SerialManager.cpp:76-96 | any number of built frames, each behind its own noise, are delivered exactly, whatever follows |
| `SerialDelivery.EndToEnd` | src/modules/serial/SerialManager.cpp:69-97 | noise, frames and noise again, read in any pieces: exactly the commands sent, in order, with at most four noise bytes kept |
| `SerialManager.SerialManager.SendCmd` | src/modules/serial/SerialManager.cpp:62-67 | true exactly when the port is open and write() took the whole frame; what reached the device is a prefix of it |
| `SerialManager.SerialManager.Poll` | src/modules/serial/SerialManager.cpp:69-97 | the in-place loop over the receive buffer delivers exactly one pass over everything ever read and keeps its residue, at most 258 bytes |
| `SerialManager.SerialManager.DeliveredIsGreedy` | src/modules/serial/SerialManager.cpp:69-97 | at any moment in the life of the object the callbacks so far are the leftmost disjoint good frames of the stream, and the buffer is its tail |
| `JsonParser.Parser.SkipWhite` | include/utils/JsonHelper.h:61-63 | moves past exactly the white space |
| `JsonParser.Parser.ExpectChar` | include/utils/JsonHelper.h:66-70 | agrees with the specification on the remaining text, error included |
| `JsonParser.Parser.ReadString` | include/utils/JsonHelper.h:82-103 | the loop over characters and escapes reads what the specification reads, error included |
| `JsonParser.Parser.ReadNumber` | include/utils/JsonHelper.h:104-115 | the digit loops delimit the number the specification delimits |
| `JsonParser.Parser.ReadBool` | include/utils/JsonHelper.h:116-122 | true, false or the error |
| `JsonParser.Parser.ReadNull` | include/utils/JsonHelper.h:123-126 | null or the error |
| `JsonParser.Parser.ReadValue` | include/utils/JsonHelper.h:71-81 | the mutually recursive methods that advance the position agree, on every text, with the specification functions on the remaining text, and terminate |
| `JsonParser.Parser.ReadObject` | include/utils/JsonHelper.h:127-140 | the member loop, including input that ends after `{` or a comma |
| `JsonParser.Parser.ReadArray` | include/utils/JsonHelper.h:141-151 | the element loop, including input that ends after `[` or a comma |
| `JsonParser.ParseText` | include/utils/JsonHelper.h:155-158 | parse(): the node and no error, or the null node and the message |
| `JsonText.StringComplete` | include/utils/JsonHelper.h:82-103 | every string token is read to its end and decoded |
| `JsonText.NumberComplete` | include/utils/JsonHelper.h:104-115 | every number token is read to its end, as an integer exactly when it has neither fraction nor exponent |
| `JsonText.ValueComplete` | include/utils/JsonHelper.h:71-81 | after any value the parser stands exactly behind it |
| `JsonText.ElementsComplete` | include/utils/JsonHelper.h:141-151 | arrays of any length and depth, with white space between any two tokens |
| `JsonText.MembersComplete` | include/utils/JsonHelper.h:127-140 | the same for the members of an object |
| `JsonText.ParseComplete` | include/utils/JsonHelper.h:59-151 | every RFC 8259 text of every value tree, white space anywhere between tokens, is parsed to exactly that tree, whatever follows it |
| `JsonText.LooseComplete` | include/utils/JsonHelper.h:59-151 | the same for the parser's own, wider grammar: any escape, any four characters after \u, any parts of a number, each number followed by nothing that would continue it |
| `JsonLanguage.ValueSound` | include/utils/JsonHelper.h:59-151 | whatever is accepted is such a text and is given its value; only an outermost array or object may be cut off, after its bracket or a comma |
| `JsonLanguage.AcceptedExact` | include/utils/JsonHelper.h:59-158 | parse() reports no error if and only if the input is white space, such a text and anything behind it, or ends inside one in that way; and the node is then the value of that text |
| `JsonLanguage.CharactersExact` | include/utils/JsonHelper.h:61-98 | white space and escapes by character codes |
| `Decimal.AtollExact` | include/utils/JsonHelper.h:104-115 | a whole number is read in base ten from the left, sign in front, saturating at 64 bits |
| `JsonText.LastKeyWins` | include/utils/JsonHelper.h:127-140 | an object has exactly the keys written in it, each with the value of its last occurrence |
| `JsonText.DecodeExact` | include/utils/JsonHelper.h:87-98 | a string is decoded as section 7 of RFC 8259 says exactly when it uses no \b, no \f and no \u other than \u003F |
| `JsonRender.RenderReads` | include/utils/JsonHelper.h:19-51 | every tree of objects, arrays, strings, 64-bit integers, booleans and null has a text whose meaning is that tree |
| `JsonRender.PrintParse` | include/utils/JsonHelper.h:59-151 | printing any such tree and parsing the text gives the tree back |
| `Decimal.FormatIntReads` | src/modules/config/ConfigManager.cpp:54-73 | atoll reads back what printf printed, for every 64-bit integer |
| `Decimal.FormatIntDenotes` | src/modules/config/ConfigManager.cpp:54-73 | what is printed is the decimal notation: digits without a leading zero that read as the number, a minus sign in front of a negative one |
| `ConfigManager.ConfigManager.Load` | src/modules/config/ConfigManager.cpp:10-49 | the field-by-field assignments leave exactly the state and result the specification gives; false exactly for an unreadable file, a text with an error and null, and then nothing has changed |
| `ConfigManager.LoadFailsExact` | src/modules/config/ConfigManager.cpp:10-22 | the same of the specification: when a load fails, and that it then changes nothing |
| `ConfigManager.CameraByFields` | src/modules/config/ConfigManager.cpp:24-30 | for every text that loads: device, width, height and fps each take the string or number that stands under their key in the section, numbers modulo 2^32, and keep their old value when section or key is missing or of another type |
| `ConfigManager.NetworkByFields` | src/modules/config/ConfigManager.cpp:32-36 | the same for bind and for port, modulo 65536 |
| `ConfigManager.SerialByFields` | src/modules/config/ConfigManager.cpp:38-42 | the same for device and baud |
| `ConfigManager.ConfigManager.Save` | src/modules/config/ConfigManager.cpp:51-76 | what it writes restores every field of a clean configuration from any prior state; the text comes from interpreting the format string over the eight arguments |
| `ConfigManager.FormatIsSaved` | src/modules/config/ConfigManager.cpp:54-73 | the literal format with its %s, %d and %u, interpreted over the arguments, prints exactly the specified text |
| `Printf.Fprintf` | src/modules/config/ConfigManager.cpp:54-73 | the left-to-right loop over the format, an argument at each conversion, prints what the format stands for |
| `Printf.Together` | src/modules/config/ConfigManager.cpp:54-73 | two formats one after the other print one after the other |
| `ConfigManager.FileText` | src/modules/config/ConfigManager.cpp:54-73 | the formatted text of a clean configuration is one of the texts of the tree of its fields |
| `ConfigManager.SaveLoadRoundTrip` | src/modules/config/ConfigManager.cpp:10-76 | a configuration whose strings hold no quote, backslash or NUL is restored in every field from any prior state, through decimal printing and the recursive parser |
| `ConfigExact.RestoredIsClean` | src/modules/config/ConfigManager.cpp:10-76 | a configuration restored even from one particular prior state has only such strings |
| `ConfigExact.RestoresExactly` | src/modules/config/ConfigManager.cpp:10-76 | a configuration is restored from every prior state if and only if its strings hold no quote, backslash or NUL |
| `FrameVector.FindVmaExact` | kernel-modules/compat/frame_vector.c:51 | the area found is the only one that contains the address; none is found exactly if none does |
| `FrameVector.PrefixLongest` | kernel-modules/compat/frame_vector.c:78-100 | the specified length is that of the longest run of mappable pages, up to the cap |
| `FrameVector.NotMappable` | kernel-modules/compat/frame_vector.c:83-100 | each of the ways in which the loops stop means that the next page is not mappable |
| `FrameVector.MappingExact` | kernel-modules/compat/frame_vector.c:50-107 | the outcome by the areas alone: -14 if none contains the address, -95 for fsdax, pinning or its error for an ordinary one, the error of follow_pfn or -14 if not even the first page is mappable, otherwise as many pages as are mappable in a row, each with its frame number |
| `FrameVector.FrameVector.constructor` | kernel-modules/compat/frame_vector.c:218-223 | a new vector is valid whatever the two uninitialised flags hold |
| `FrameVector.FrameVector.Create` | kernel-modules/compat/frame_vector.c:201-224 | null exactly for zero, more than 134217727, or no memory; otherwise the size computed in a 32-bit int did not wrap |
| `FrameVector.FrameVector.ToPages` | kernel-modules/compat/frame_vector.c:152-169 | succeeds exactly if it need not convert or every frame number has a page; a failure leaves the vector untouched; the frames recorded never change |
| `FrameVector.FrameVector.ToPfns` | kernel-modules/compat/frame_vector.c:178-191 | converts in place and keeps the frames recorded |
| `FrameVector.FrameVector.PinPages` | kernel-modules/compat/frame_vector.c:70-76 | what pinning user pages leaves in the array, and the references it takes |
| `FrameVector.FrameVector.WalkAreas` | kernel-modules/compat/frame_vector.c:80-100 | the nested loops terminate and record exactly the longest mappable prefix, or report follow_pfn's error or nothing |
| `FrameVector.FrameVector.MapPages` | kernel-modules/compat/frame_vector.c:50-100 | the outcome of everything under the lock is the specified one, in all cases |
| `FrameVector.FrameVector.GetVaddrFrames` | kernel-modules/compat/frame_vector.c:34-109 | spelled out by the area that contains the address, without the specification function: every error code and its condition; the pinned pages with their references; for a special area a count between 1 and the smaller of request and capacity, each page mappable and its frame number recorded, and if the count is smaller, the next page is not mappable |
| `FrameVector.FrameVector.PutVaddrFrames` | kernel-modules/compat/frame_vector.c:121-141 | if there are references, drops one for each recorded frame, on the same pages, whatever conversions came between; its own conversion cannot fail |
| `FrameVector.FrameVector.Destroy` | kernel-modules/compat/frame_vector.c:233-238 | an emptied vector owes no reference |
| `FrameVector.Lifetime` | kernel-modules/compat/frame_vector.c:34-238 | over any sequence of legal calls from create to destroy, the references taken are the references dropped, page by page |
| `CameraManager.CameraManager.constructor` | src/modules/camera/CameraManager.cpp:25 | a closed camera is valid |
| `CameraManager.CameraManager.Open` | src/modules/camera/CameraManager.cpp:27-136 | succeeds exactly when no call after the closing of the old descriptor fails or grants fewer than two buffers; descriptor, number of buffers and the address and length of each are those answered; on any failure nothing stays open or mapped and no buffer entry remains |
| `CameraManager.CameraManager.Prepare` | src/modules/camera/CameraManager.cpp:36-132 | every call between opening the device and the last mapping, each of which may fail |
| `CameraManager.CameraManager.MapAll` | src/modules/camera/CameraManager.cpp:112-132 | after any number of iterations the mappings alive are exactly those in the table; at the end entry i has the length and address of answers 2i and 2i + 1 |
| `CameraManager.CameraManager.StartStreaming` | src/modules/camera/CameraManager.cpp:138-151 | true exactly when no call failed; then the driver owns every buffer, and it owned none before; a failure leaves exactly the buffers before the failing call queued on top of what was queued, with streaming off |
| `CameraManager.StartExact` | src/modules/camera/CameraManager.cpp:138-151 | the same on values, in every state between streams |
| `CameraManager.StartSucceeds` | src/modules/camera/CameraManager.cpp:138-151 | a start succeeds if and only if the driver holds no buffer and the next n + 1 answers are good; otherwise buffer k is named whose QBUF failed, because it was queued or its answer bad, or STREAMON failed with all of them queued |
| `CameraManager.CameraManager.FailedStartSticks` | src/modules/camera/CameraManager.cpp:138-151 | a start that fails after its first QBUF makes every later start on that descriptor fail, whatever starts, stops and grabs are tried |
| `CameraManager.CameraManager.RetryStart` | src/modules/camera/CameraManager.cpp:138-202 | while the driver still holds a buffer of an earlier start, no sequence of starts, stops and grabs gets streaming going or empties the queue |
| `CameraManager.CameraManager.StopStreaming` | src/modules/camera/CameraManager.cpp:153-160 | one STREAMOFF, whose result does not matter to the caller: answered well it empties the queue, otherwise the queue stays; the application holds no buffer |
| `CameraManager.CameraManager.Requeue` | src/modules/camera/CameraManager.cpp:162-172 | the driver owns one more buffer, or nothing changed |
| `CameraManager.GrabKeeps` | src/modules/camera/CameraManager.cpp:174-202 | after every outcome of a grab the buffers are partitioned again; a frame is returned exactly when no call failed; its buffer came from the driver or was the one just given back, and is in no queue; a buffer once lost does not come back |
| `CameraManager.TakeKeeps` | src/modules/camera/CameraManager.cpp:180-201 | a failed wait touches no buffer; only a failed DQBUF can lose one |
| `CameraManager.GrabByAnswers` | src/modules/camera/CameraManager.cpp:174-202 | a grab by the positions of its answers: a frame is returned exactly if the requeue (when a buffer is held), the wait and the dequeue are all answered well, and it is then the bytes and the buffer of the last of these answers |
| `CameraManager.MissByAnswers` | src/modules/camera/CameraManager.cpp:174-202 | a grab that gives nothing stops at the first bad answer; the held buffer is given back exactly if its requeue was answered well |
| `CameraManager.TwoWayExact` | src/modules/camera/CameraManager.cpp:174-202 | driver and application share all buffers between them if and only if no failed DQBUF of this stream took one |
| `CameraManager.StreamPartition` | src/modules/camera/CameraManager.cpp:138-202 | over a whole stream: they do so after each of n grabs if and only if no failed DQBUF among them took a buffer |
| `CameraManager.OwnerCounts` | src/modules/camera/CameraManager.cpp:138-202 | the driver has all buffers but the one held and one for each lossy DQBUF |
| `CameraManager.CameraManager.Ownership` | src/modules/camera/CameraManager.cpp:138-202 | both in every reachable state of a stream |
| `CameraManager.CameraManager.GrabFrame` | src/modules/camera/CameraManager.cpp:174-202 | the bytes, the buffer and the answers left by position in the script, and exactly when there is a frame; the buffer returned is in no queue and none is lost unless a DQBUF dropped it |
| `CameraManager.CameraManager.Take` | src/modules/camera/CameraManager.cpp:180-201 | the half after giving the previous buffer back: bytes and buffer are those of the second answer |
| `CameraManager.CameraManager.UnmapBuffers` | src/modules/camera/CameraManager.cpp:204-209 | removes every mapping of the table exactly once, and none that is not alive |
| `CameraManager.CameraManager.Close` | src/modules/camera/CameraManager.cpp:211-216 | from any state, half open ones included: nothing open, mapped or queued |
| `CameraManager.Run` | src/modules/camera/CameraManager.cpp:25-216 | over any run of calls and any kernel behaviour, ended by the destructor, every successful mmap has been matched by exactly one munmap and no descriptor is open |
| `Timing.ElapsedSound` | include/core/Timer.h:32-33 | the 32-bit truncation never makes an interval longer, and loses nothing below 2^32 ms |
| `Timing.FiringsAppend` | include/core/Timer.h:29-39 | one more tick fires or not by the time since the last firing |
| `Timing.FiringsBounded` | include/core/Timer.h:29-39 | at most floor(T / interval) firings in T milliseconds, wrap or no wrap |
| `Timing.FiringsApart` | include/core/Timer.h:29-39 | consecutive firings are never less than the interval apart, whatever the ticks |
| `Timing.FiringsPunctual` | include/core/Timer.h:29-39 | with gaps of at most g ms and interval + g <= 2^32, consecutive firings are less than interval + g apart and none is overdue at the last tick |
| `Timing.PunctualExact` | include/core/Timer.h:29-39 | every schedule with gaps of at most g ms is served on time exactly when interval + g <= 2^32 |
| `Timing.WrapHidesAll` | include/core/Timer.h:32-34 | ticks exactly 2^32 ms apart never fire |
| `Timer.Timer.constructor` | include/core/Timer.h:16-17 | a timer that has not been started |
| `Timer.Timer.SetInterval` | include/core/Timer.h:19 | a new interval starts a new count from the last firing |
| `Timer.Timer.SetRepeat` | include/core/Timer.h:21 | so does a new repeat setting |
| `Timer.Timer.Start` | include/core/Timer.h:23 | running, counting from now |
| `Timer.Timer.Stop` | include/core/Timer.h:24 | not running, nothing else |
| `Timer.Timer.Reset` | include/core/Timer.h:25 | counting from now, running or not |
| `Timer.Timer.Check` | include/core/Timer.h:29-39 | fires exactly when running and the truncated time since the last firing has reached the interval; a one-shot then stops |
| `Timer.FiresAtMost` | include/core/Timer.h:29-39 | in every reachable state the firings are at most floor(T / interval), and at most one for a one-shot |
| `Timer.FiresOnTime` | include/core/Timer.h:29-39 | checked often enough, every firing is punctual and none is overdue |
| `TaskScheduler.TaskScheduler.constructor` | include/core/TaskScheduler.h:49-50 | no task, ids from zero |
| `TaskScheduler.TaskScheduler.AddTask` | include/core/TaskScheduler.h:18-24 | an id never handed out before, appended last, counting from now |
| `TaskScheduler.TaskScheduler.RemoveTask` | include/core/TaskScheduler.h:26-31 | exactly the task with that id goes, the others stay in order; an unknown id changes nothing |
| `TaskScheduler.TaskScheduler.Tick` | include/core/TaskScheduler.h:33-41 | every task sees the tick, the due ones run in list order and no others, and each task's history stays that of an independent periodic firing |
| `TaskScheduler.DueIdsExact` | include/core/TaskScheduler.h:33-41 | the calls of a tick are the ids of the tasks whose elapsed time has reached their interval, each once, in increasing order |
| `TaskScheduler.RunsAtMost` | include/core/TaskScheduler.h:33-41 | in every reachable state a task has run at most floor(T / interval) times in the T ms since it was added |
| `TaskScheduler.RunsOnTime` | include/core/TaskScheduler.h:33-41 | ticked often enough, every task runs on time |
| `Application.SinceElapsed` | src/app/Application.cpp:144 | subtracting two wrapped readings gives the wrapped elapsed time |
| `Application.Session.Emit` | src/modules/network/TcpServer.cpp:122-128 | a frame of the session is out whole, or the wire ends inside it; wire and script are those of the run of sends so far |
| `Application.Session.HandleGrab` | src/app/Application.cpp:126-140 | one round's frame: sent whole with type 0x10 and exactly the bytes grabbed, and counted, unless empty; the fifth failure in a row ends the session, a success resets the count |
| `Application.Session.HandleSensor` | src/app/Application.cpp:142-154 | telemetry is sent exactly when the 32-bit difference to the last one has reached a second |
| `Application.Session.HandleCommands` | src/app/Application.cpp:156-161 | every command in what has arrived is reported once, in order; the session goes on exactly if the socket merely had no more |
| `Application.Session.Report` | src/app/Application.cpp:163-167 | the frame count starts again exactly when the 32-bit difference to the last time has reached a second, and nothing else changes |
| `Application.Application.Round` | src/app/Application.cpp:125-168 | one turn of the loop consumes one grab of the camera and one clock reading |
| `Application.Application.Stream` | src/app/Application.cpp:125-168 | the whole loop: grabs and clock readings are exactly the consumed prefixes of what camera and clock had to give, and it ends in one of four ways, each with its cause |
| `Application.Application.ServeClient` | src/app/Application.cpp:107-171 | started exactly if the camera starts; then wire, both socket scripts, camera and log are those of a proper session: the text as far as the first send went, then the frames that the consumed grabs and clock readings call for, each whole unless a send failed; five failed grabs in a row end it, and so do a failed send, the peer and stop(), nothing else; every command received up to the last good poll is reported once |
| `SessionWire.SentExact` | src/app/Application.cpp:125-154 | the frames of every session by recursion over grabs and readings alone, in literal bytes: each turn the picture as type 0x10, unless empty, and then, if (reading - last) modulo 2^32 is at least 1000, the 40 telemetry bytes as type 0x01 |
| `SessionWire.VideoExact` | src/app/Application.cpp:125-154 | so the video payloads are, in order, exactly the non-empty pictures grabbed, and the telemetry payloads those of the readings that called for them |
| `SessionWire.TelemetryRead` | src/app/Application.cpp:145-151 | a reader of a telemetry payload finds the reading modulo 2^32, 12000 millivolts, mode 3, and zero in every other field |
| `SessionWire.EndExact` | src/app/Application.cpp:125-168 | the camera is given up exactly if the last five grabs have all missed, and no five in a row before had; every other end by its cause and its place in the loop |
| `SessionWire.ReadyTextSpelled` | src/app/Application.cpp:113-116 | the text character for character, with width and height in decimal notation |
| `Application.Determined` | src/app/Application.cpp:107-171 | the contract determines the session: two proper sessions with the same camera, clock, network and text do the same, end the same way and write the same bytes |
| `Application.SensorSpacing` | src/app/Application.cpp:142-154 | sensor frames after the first are at least 1000 ms of real time apart and carry the clock readings at which they were due |
| `Application.CommandsExact` | src/app/Application.cpp:156-161 | all commands received are reported if and only if the session did not end with the peer, or the unparsed buffer then holds no complete command frame |
| `Application.LostCommand` | src/app/Application.cpp:156-161 | a stop command that arrives together with the end of the stream is reported by no session |
| `Application.NothingDueExact` | src/app/Application.cpp:125-168 | a session sends no frame exactly if, by camera, clock and peer alone, none falls due before it ends |
| `Application.WireExact` | src/app/Application.cpp:113-168 | because the result of sendText is ignored: the bytes written are a prefix of text and frames if and only if, on the script before the call, the text gets out whole, or no frame falls due, or the next send takes nothing, or the text sends nothing and the next send one byte |
| `Application.StaysFailedSafe` | src/app/Application.cpp:113-133 | on a connection on which a failed send stays failed that condition holds |
| `Application.ReadyTextPlain` | src/app/Application.cpp:113-116 | the ready text never contains a start-of-frame byte, for any width and height |
| `Application.RecoveredConnectionCorrupts` | src/app/Application.cpp:113-168 | every session whose connection takes three bytes of the ready text, fails and recovers, with telemetry due in the first round, breaks the framing |
| `Application.RecoveredSession` | src/app/Application.cpp:107-171 | such a session, run through serveClient |
| `Application.SessionReadable` | src/app/Application.cpp:107-171 | either receiver, fed a session with safe framing in any pieces, reports a prefix of the ready text and the session's frames |

## Left out

- `getsockopt`, `accept`, `listen`, `termios`, `open` flags and all other set-up calls: foreign code without branching of its own.
- Unbounded retry: an endless run of EINTR or EAGAIN never ends the loops of `sendAll` and `pollCommands`; the scripts are finite, so termination is not claimed against such a kernel.
- The int `total` of `pollCommands` is unbounded here; more than 2^31 - 1 bytes read in one call would overflow it.
- `buildFrame` and `sendFrame` called with a null payload and a non-zero length.
- A receive callback that is not set, and re-entrant callbacks: callbacks are entries in a list.
- The serial receive buffer survives `close` and `open`; only `poll` and `sendCmd` are modelled.
- SerialManager.SerialManager.Poll: the payload that a LEN = 0 frame claims to have is not modelled, only the length it is told.
- Strings are sequences of characters standing for bytes; text encodings are not modelled.
- `atof` and the cast of a double, and `atoll` beyond 64 bits, where saturation is assumed.
- Recursion depth: the parser's use of the stack is not modelled.
- Files: reading and writing are a text or a failure. A write that fails after the file was opened is not modelled; `save` does not look at it either.
- JPEG content, format and frame-rate negotiation, capability strings, and the numbers they report.
- The kernel's mmap_sem, what `get_user_pages_locked` does inside, and addresses near the top of the address space, where `start + PAGE_SIZE` would wrap; the page size is a parameter. The header that declares `struct frame_vector` is not part of this model, so its size is a parameter of `Create`.
- FrameVector.Lifetime: calls that are not legal (a second get without a put) are left out of the run, because the interface rules them out.
- `open` and `serveClient` are split into a few methods each, at the points where the source goes to its clean-up code.
- A device opened twice at the same time, or used by another process.
- Application.Application.ServeClient: `stop()` from another thread is the end of the list of clock readings, one a round, which is arbitrary.
- Mutexes: each core is driven from one thread. `removeTask` or `addTask` from inside a callback is not modelled, and neither is the overflow of the task id after 2^31 tasks.
- The wording of the JSON parser's messages is modelled, but no theorem says which message an input gets.
- Logging, time formatting, command names, health checks, CLI parsing.
- `StateMachine`, `EventBus`, `MissionManager`, `PatrolController`, `RobotController`: look-ups, setters and empty bodies that would add only easy members.
- Build and deployment scripts.
