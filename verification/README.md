# Verification of the N9 dashcam server

A Dafny 4.11 model of the two servers in this repository — the Python one
(`main.py`, `jt808.py`, `jt1078.py`, `hls.py`, `rtsp_relay.py`) and the Go
JT/T 808 server — and proofs about it. It follows one pipeline: bytes cut at
arbitrary points by TCP become frames and packets, these drive sessions and
channel ownership, and the media ends up in buffers and relay processes.

`dafny verify dfyconfig.toml` checks everything.

## What is modelled

| file | source | content |
|---|---|---|
| `bytes.dfy`, `hex.dfy`, `escaping.dfy` | | bytes, exclusive or, big-endian numbers, search; hexadecimal text; the byte stuffing of JT/T 808-2019, section 4.4.2 |
| `reading.dfy` | | what it means that the cuts between reads do not matter, and when a loop of reads crashes, for any way of draining a buffer |
| `jt808.dfy`, `framer.dfy` | `jt808.py`, `main.py` | Python codec and the buffer that cuts frames |
| `traffic.dfy`, `conversation.dfy` | the same | frames with noise and stray flags between them, and what the Python server handles of them |
| `jt1078.dfy`, `assembler.dfy` | `jt1078.py` | packet parser, resynchronising buffer, fragment assembler |
| `scanner.dfy`, `receiver.dfy` | `jtt808msg_parser.go`, `jtt808msgconnhdlr.go` | Go stream scanner and the receive loop around it |
| `standard.dfy`, `overrun.dfy` | the same | what the scanner does with well-formed frames, and exactly when it reads past its buffer |
| `commands.dfy`, `writer.dfy` | `cmd_1210.go`, `cmd_9212.go`, `jtt808msg_header.go`, `jtt808msg_writer.go` | list-carrying commands, header, message writer |
| `closing.dfy` | `jtt808msgconnhdlr.go` | the `Send`/`Stop`/`Run` close handshake as interleaved atomic steps |
| `session.dfy`, `sessionlaws.dfy` | `main.py`, `jt808.py` | registration and authentication tables over many connections |
| `ownership.dfy` | `main.py` | ownership of video channels |
| `hevc.dfy`, `streamer.dfy`, `jpeg.dfy` | `hls.py` | RASL filter, wait-for-picture buffer, JPEG splitter and frame queue |
| `relay.dfy` | `rtsp_relay.py` | the relay reconciler |

Each object that the source updates in place is a class, each loop a method
with invariants, and every such method is proved equal to a pure function of
the old state. The theorems are about those functions: over a whole byte
stream (`Drain`), over any way of cutting it into reads (`ReadAll`), or over a
whole history of events (`After`).

## Results worth knowing

- Python `StreamBuffer` and `_process_buf` do not depend on how TCP cuts the
  stream, for every byte stream.
- The Go scanner checks the exclusive or of the bytes while they are still
  escaped, although JT/T 808-2019, section 4.4, has the receiver unescape
  first. It therefore accepts exactly the well-formed frames with an even
  number of escaped bytes (`StandardFrames.EvenFramesAreDelivered`).
- The guards `currIdx > maxPos` in the Go scanner let it read one byte past the
  buffer. `Overrun.CrashIff` says exactly when, for every buffer, and
  `Overrun.ServerCrashIff` for every stream and every way of cutting it into
  reads. A few more bytes in the same read prevent it (`Overrun.FewBytesMore`),
  so the outcome depends on the cut. It never happens on a stream of well-formed
  frames.
- `WriteJTT808Msg` does not escape, cuts the length field to ten bits and clears
  the package bit. `Writer.DeliveredIff` gives, for every command and header, the
  exact condition under which the scanner gives the written bytes back, and
  `Writer.WrittenMessageComesBack` the condition for the command itself, exact
  except where a 0x1210 body is read past (`Commands.UncheckedIff`);
  `Writer.FlagInBodyIsLost` is one that is lost.
- When FFmpeg's output ends, the streamer does not wait for a picture again: the
  next process is fed from the middle of the stream (`Streamer.RightStartIff`,
  `Streamer.RestartMissesPicture`).
- The Python framer pairs 0x7E bytes and so handles exactly those messages that
  have an even number of stray 0x7E before them (`Conversations.ArrivesIffInStep`,
  `Conversations.StraysInFrontIff`). Of the same traffic the Go scanner delivers
  every frame with an even number of escaped bytes, whatever the strays
  (`StandardFrames.ResynchronisesAlways`).
- The JPEG reader forgets a trailing 0xFF when it clears its buffer.
  `Jpeg.CutHarmlessIff` gives the exact condition under which a cut is harmless.
- A phone of an even number of digits that is longer than its field is not
  rejected by `build_frame`; the frame then parses to something else
  (`Jt808.BuildThenParse`, an equivalence).

## Model

| member | source | states |
|---|---|---|
| Jt808.EscapeBytes | jt808.py:139-149 | the escaping loop computes the escaping function, byte by byte, for all data |
| Jt808.UnescapeBytes | jt808.py:116-136 | the unescaping loop, with its break on a trailing 0x7D and its copying of unknown pairs, computes the lenient inverse |
| Jt808.Checksum | jt808.py:152-157 | the checksum loop computes the exclusive or of all bytes |
| Escaping.UnescapeEscape | jt808.py:116-149 | unescaping undoes escaping on all data |
| Escaping.EscapeCanonical | jt808.py:139-149 | escaped data never contains the frame marker and uses only the two known pairs |
| Escaping.EscapeUnescapeIff | jt808.py:116-149 | escaping undoes unescaping exactly on canonical wire data |
| Escaping.UnknownPairsCopied | jt808.py:116-136 | unescaping leaves data alone whose 0x7D bytes begin no known pair, and drops a 0x7D at the very end |
| Bytes.XorBitwise | jt808.py:152-157 | the exclusive or of the checksum works bit by bit |
| Escaping.XorsEscape | jtt808-2019-master/jtt808-2019-master/jtt808msg/jtt808msg_utils.go:63-88 | escaping flips the lowest checksum bit once per escaped byte |
| Jt808.BuildThenParse | jt808.py:160-233 | a built frame parses back to the same message, body of any length, phone zero-padded and in lower case, if and only if the phone fits the field of its version |
| Jt808.BuiltVersion | jt808.py:219-224 | a 2019 payload carries version 2 behind its phone |
| Jt808.ReceivedPhone | jt808.py:216-233 | the phone is received in lower case with zeros in front |
| Jt808.RegisterReplyParses | jt808.py:248-255 | the registration reply parses to a 0x8100 message that begins with the serial of the request and the result, and ends with the code |
| Jt808.ReadableIff | jt808.py:160-213 | a frame is readable if and only if it has its flags, its unescaped bytes cancel, and they hold the header that bits 14 and 13 of its properties announce |
| Jt808.SentFrameParses | jt808.py:160-213 | every valid frame, of either version, with or without a package item, parses to what was sent |
| Jt808.ParseEnclosed | jt808.py:160-175 | what a frame parses to depends on its unescaped content alone |
| Jt808.OneByteChanged | jt808.py:166-175 | changing exactly one byte of a valid content, checksum included, makes the frame unreadable |
| Framer.JT808Connection.Receive | main.py:143-144 | after a read the buffer and the handled messages are those of draining the old buffer plus the read |
| Framer.JT808Connection.ProcessBuf | main.py:161-179 | the loop cuts exactly the frames of the specification and hands on those that parse, in order |
| Framer.DrainSplit | main.py:161-179 | draining, receiving more and draining again equals draining once, for all bytes |
| Framer.AnyCuts | main.py:143-179 | messages and residual bytes are the same for every way of cutting any byte stream into reads |
| Conversations.EveryMessageArrives | main.py:161-179 | any list of built frames, with marker-free noise between them and any cuts, is handled as exactly the original messages in order, and nothing stays buffered |
| Conversations.HandledUnderAnyCuts | main.py:161-179 | for any contents, each behind noise and any number of stray markers, and any cuts: a frame is seen if and only if the strays before it are even in number; noise is read as a frame exactly where the strays before it are odd; the parity in the end is what stays buffered |
| Conversations.ArrivesIffInStep | main.py:161-179 | for built messages behind any noise and strays, and any cuts: a message is handled if and only if the strays before it are even in number; only noise that is a message itself, where they are odd, adds to that |
| Conversations.StraysInFrontIff | main.py:161-179 | strays in front of adjoining messages: all are handled if and only if the strays are even in number, none if and only if they are odd, and then a marker stays open |
| Jt1078.StreamBuffer.Feed | jt1078.py:194-195 | feeding appends the bytes |
| Jt1078.StreamBuffer.Packets | jt1078.py:197-239 | the generator yields exactly the packets of the specification and leaves its residual bytes |
| Jt1078.PlausibleIff | jt1078.py:211-227 | a header is accepted if and only if its version is 2, its type is 4, 8, 26, 98 or 99 and its length is between 1 and 65000 |
| Jt1078.ParsesIff | jt1078.py:89-124 | a packet parses if and only if magic number, header and payload are there, and has exactly that payload |
| Jt1078.CodecNames | jt1078.py:46-52 | the five codecs have their names, any other type a numbered one |
| Jt1078.DrainSplit | jt1078.py:197-239 | draining, feeding more and draining again equals draining once, for all bytes |
| Jt1078.AnyCuts | jt1078.py:194-239 | packets and residual bytes are the same for every way of cutting any byte stream into reads |
| Jt1078.RestBounded | jt1078.py:197-239 | at most 65,029 bytes are retained |
| Jt1078.RestShape | jt1078.py:197-209 | what is retained begins with the magic number or is at most three bytes |
| Jt1078.EveryByteAccounted | jt1078.py:197-239 | every byte is in exactly one packet, in noise in which no acceptable header starts, or still buffered |
| Jt1078.EveryPacketParses | jt1078.py:234-239 | whatever was cut out is a packet of a known codec with a payload of 1 to 65,000 bytes and nothing behind it, so the final parse never drops one |
| Jt1078.Sent.DecodesWhole | jt1078.py:89-137 | an encoded packet parses back with all fields equal |
| Jt1078.NoStraddle | jt1078.py:199-208 | no match of the magic number straddles noise and the start of a packet |
| Jt1078.EveryPacketArrives | jt1078.py:197-239 | any list of valid packets, payloads with magic numbers allowed, after magic-free noise and with any cuts, decodes to exactly that list |
| Assembler.FrameAssembler.Feed | jt1078.py:152-182 | one packet moves the assembler as the step function says and returns its frame |
| Assembler.AssemblyFromHistory | jt1078.py:152-182 | a frame is open exactly when a FIRST was not followed by RAW, FIRST or LAST; the buffer is its payloads since, and empty when none is open |
| Assembler.LastReturns | jt1078.py:168-178 | a LAST returns exactly the payloads since the open FIRST, and nothing when none is open |
| Assembler.UnknownPassesThrough | jt1078.py:180-182 | unknown types pass through and leave the assembly alone |
| Assembler.RawReturns | jt1078.py:157-160 | a RAW packet returns its payload and ends whatever was being assembled |
| Assembler.ReturnsNothingIff | jt1078.py:151-182 | nothing is returned exactly for FIRST, for MIDDLE, and for a LAST with no frame open |
| Assembler.FragmentsReassemble | jt1078.py:152-182 | FIRST, MIDDLE*, LAST comes back whole after any history |
| Scanner.ReadLoop | jtt808-2019-master/jtt808-2019-master/jtt808msg/jtt808msg_parser.go:20-44 | the inline unescaping loop, with its guards, reads the bytes of the specification and says where it stops |
| Scanner.ExtractJTT808Msg | jtt808-2019-master/jtt808-2019-master/jtt808msg/jtt808msg_parser.go:14-114 | extraction of header, package item and body, or nil, or a read past the buffer, as specified |
| Scanner.SkipTillValidMsg | jtt808-2019-master/jtt808-2019-master/jtt808msg/jtt808msg_parser.go:5-12 | finds the first 0x7E in range |
| Scanner.TryBeacon | jtt808-2019-master/jtt808-2019-master/jtt808msg/jtt808msg_parser.go:136-153 | the inner loop stops at the first closing flag with the exclusive or of the raw bytes and gives the verdict on that candidate |
| Scanner.GetNextJTT808Msg | jtt808-2019-master/jtt808-2019-master/jtt808msg/jtt808msg_parser.go:121-159 | the nested loops compute the recursive scan, rescanning after rejected candidates |
| Receiver.JTT808Conn.OnRead | jtt808-2019-master/jtt808-2019-master/jtt808server/jtt808msgserver/jtt808msgconnhdlr.go:96-119 | after a read the loop has delivered exactly the drained messages and kept the residual bytes |
| Receiver.ScanExtend | jtt808-2019-master/jtt808-2019-master/jtt808msg/jtt808msg_parser.go:121-159 | when more bytes arrive, a scan keeps its message or goes on where it stopped, unless it ran past the buffer |
| Receiver.DrainSplit | jtt808-2019-master/jtt808-2019-master/jtt808server/jtt808msgserver/jtt808msgconnhdlr.go:102-119 | draining before and after more bytes equals draining once, unless the first drain crashed |
| Receiver.AnyCuts | jtt808-2019-master/jtt808-2019-master/jtt808server/jtt808msgserver/jtt808msgconnhdlr.go:93-121 | for every byte stream and any cuts, unless the loop crashes at an earlier read, the outcome is that of reading all at once |
| Receiver.LoopCrashesIff | jtt808-2019-master/jtt808-2019-master/jtt808server/jtt808msgserver/jtt808msgconnhdlr.go:93-121 | the loop crashes if and only if a beginning of the stream at which a read ends makes the scanner crash |
| StandardFrames.ExtractContent | jtt808-2019-master/jtt808-2019-master/jtt808msg/jtt808msg_parser.go:14-114 | a well-formed frame unescapes to exactly its header and body |
| StandardFrames.ExtractedLengths | jtt808-2019-master/jtt808-2019-master/jtt808msg/jtt808msg_parser.go:46-108 | whatever is extracted, from any bytes, has a header of 21 bytes if bit 13 of its properties is set and of 17 if not, and a body of the length in its ten low bits |
| StandardFrames.ScanFrame | jtt808-2019-master/jtt808-2019-master/jtt808msg/jtt808msg_parser.go:136-153 | a well-formed frame is accepted if its number of escapes is even; otherwise only its last flag is left |
| StandardFrames.Resynchronises | jtt808-2019-master/jtt808-2019-master/jtt808msg/jtt808msg_parser.go:121-159 | after flag-free noise and any number of stray flags the next message is exactly the frame that follows |
| StandardFrames.ResynchronisesAlways | jtt808-2019-master/jtt808-2019-master/jtt808server/jtt808msgserver/jtt808msgconnhdlr.go:93-121 | for any frames with an even number of escapes, each behind noise and then any number of strays, and any cuts: no read past the buffer, and exactly those frames are delivered, in order |
| StandardFrames.DrainStream | jtt808-2019-master/jtt808-2019-master/jtt808msg/jtt808msg_parser.go:121-159 | at every moment of a stream of frames the even ones among the complete frames are delivered, in order, once each, and at most one stale flag is held back with the incomplete frame |
| StandardFrames.EvenFramesAreDelivered | jtt808-2019-master/jtt808-2019-master/jtt808server/jtt808msgserver/jtt808msgconnhdlr.go:93-121 | the same for the receive loop under any cuts, with no read past the buffer |
| Overrun.CandidateCrashIff | jtt808-2019-master/jtt808-2019-master/jtt808msg/jtt808msg_parser.go:14-114 | a complete candidate is overrun exactly when its closing flag is the last byte of the buffer, its raw bytes cancel, its escapes are right and it announces more than it holds; a second flag behind the opening one is read as a header byte |
| Overrun.CrashIff | jtt808-2019-master/jtt808-2019-master/jtt808msg/jtt808msg_parser.go:121-159 | for every buffer, the scanner reads past the end if and only if it comes to such a candidate, having rejected one at every flag before |
| Overrun.DrainCrashIff | jtt808-2019-master/jtt808-2019-master/jtt808server/jtt808msgserver/jtt808msgconnhdlr.go:102-119 | for every stream read at once, the loop crashes if and only if all but the last byte was drained safely and what that left, plus the last byte, is such a candidate, with at most one stale flag in front |
| Overrun.ServerCrashIff | jtt808-2019-master/jtt808-2019-master/jtt808server/jtt808msgserver/jtt808msgconnhdlr.go:93-121 | for every stream and any cuts, the loop crashes if and only if a read ends at a byte of that kind |
| Overrun.FewBytesMore | jtt808-2019-master/jtt808-2019-master/jtt808server/jtt808msgserver/jtt808msgconnhdlr.go:93-121 | no stream that ends with a flag crashes when one to thirteen more bytes are read with it |
| Overrun.MoreBytesNeverCrash | jtt808-2019-master/jtt808-2019-master/jtt808msg/jtt808msg_parser.go:14-114 | a candidate whose closing flag is not the last byte of the buffer never overruns |
| Overrun.CutMatters | jtt808-2019-master/jtt808-2019-master/jtt808msg/jtt808msg_parser.go:129-153 | seventeen concrete bytes that crash the loop when a read ends behind them and do not with any byte more in the same read |
| Overrun.AdjacentFlagsCrash | jtt808-2019-master/jtt808-2019-master/jtt808msg/jtt808msg_parser.go:136-141 | seventeen concrete bytes that begin with two flags and crash |
| Commands.Cmd.Write | jtt808-2019-master/jtt808-2019-master/jtt808msg/cmd/cmd_9212.go:39-50 | both writers append exactly the body |
| Commands.AppendAttachments | jtt808-2019-master/jtt808-2019-master/jtt808msg/cmd/cmd_1210.go:45-49 | the attachment loop appends each length, name and size in order |
| Commands.ParseCmd9212 | jtt808-2019-master/jtt808-2019-master/jtt808msg/cmd/cmd_9212.go:52-133 | the parser with its length checks computes the specification |
| Commands.ParseCmd1210 | jtt808-2019-master/jtt808-2019-master/jtt808msg/cmd/cmd_1210.go:53-84 | the same for the attachment list, as far as its unchecked reads stay inside the body |
| Commands.UncheckedIff | jtt808-2019-master/jtt808-2019-master/jtt808msg/cmd/cmd_1210.go:53-75 | the 0x1210 parser reads past the body if and only if the body does not go on, after its fixed part, with as many whole attachments as it announces |
| Commands.ParsedIff | jtt808-2019-master/jtt808-2019-master/jtt808msg/cmd/cmd_9212.go:39-133 | for all bytes, a command is returned if and only if they begin with it as it is written, under its message id and with the right length and count fields |
| Commands.TooShortIff | jtt808-2019-master/jtt808-2019-master/jtt808msg/cmd/cmd_9212.go:52-90 | the error is returned exactly when the bytes do not begin with any whole command (0x9212), or not with the fixed part (0x1210) |
| Commands.WriteThenParse | jtt808-2019-master/jtt808-2019-master/jtt808msg/cmd/cmd_9212.go:39-133 | a written command with the right length and count fields parses back to itself; any other does not, unless the parser reads past the body |
| Commands.AttachmentMissing | jtt808-2019-master/jtt808-2019-master/jtt808msg/cmd/cmd_1210.go:65-75 | a concrete written command whose body is read past |
| Commands.ParseThenWrite | jtt808-2019-master/jtt808-2019-master/jtt808msg/cmd/cmd_9212.go:52-133 | whatever was parsed is consistent and rewriting it reproduces the consumed prefix |
| Writer.BcdToStringLoop | jtt808-2019-master/jtt808-2019-master/jtt808msg/jtt808msg_utils.go:9-25 | the loop computes the digits, dropping nibbles above nine |
| Writer.StringToBcdLoop | jtt808-2019-master/jtt808-2019-master/jtt808msg/jtt808msg_utils.go:27-45 | the loop packs digit pairs, counting other characters as zero |
| Writer.BcdRoundTrip | jtt808-2019-master/jtt808-2019-master/jtt808msg/jtt808msg_utils.go:9-45 | text of even length comes back with zeros for what is no digit, so unchanged exactly when it is all digits |
| Writer.BcdIsHexWithoutLetters | jtt808-2019-master/jtt808-2019-master/jtt808msg/jtt808msg_utils.go:9-25 | for all bytes, the decimal text is the hexadecimal text without its letters |
| Writer.WriteHeader | jtt808-2019-master/jtt808-2019-master/jtt808msg/jtt808msg_header.go:23-39 | the header writer with its padding loop appends the header bytes |
| Writer.HeaderRoundTrip | jtt808-2019-master/jtt808-2019-master/jtt808msg/jtt808msg_header.go:23-75 | a header parses back if and only if the phone is twenty digits and the package item agrees with property bit 13 |
| Writer.ShortPhoneComesBackPadded | jtt808-2019-master/jtt808-2019-master/jtt808msg/jtt808msg_header.go:27-31 | a shorter phone number of an even number of digits comes back with zeros in front |
| Writer.ParsedHeaderRewrites | jtt808-2019-master/jtt808-2019-master/jtt808msg/jtt808msg_header.go:23-75 | a header parses if and only if the bytes are long enough for what bit 13 announces, and is rewritten to them if and only if the phone bytes are decimal |
| Writer.SentHeaderKeeps | jtt808-2019-master/jtt808-2019-master/jtt808msg/jtt808msg_writer.go:10-21 | message id and body length are put in, bits 10 to 12 of the properties and all other fields are kept, bits 13 to 15 cleared |
| Writer.WriteJTT808Msg | jtt808-2019-master/jtt808-2019-master/jtt808msg/jtt808msg_writer.go:7-32 | the message is the raw header, body and checksum between two flags |
| Writer.RawBeaconWellFormed | jtt808-2019-master/jtt808-2019-master/jtt808msg/jtt808msg_writer.go:10-26 | when the fields fit, header, body and checksum are a well-formed content |
| Writer.SurvivesIff | jtt808-2019-master/jtt808-2019-master/jtt808msg/jtt808msg_parser.go:121-159 | an unescaped frame is delivered whole if and only if its bytes survive unescaping |
| Writer.DeliveredFits | jtt808-2019-master/jtt808-2019-master/jtt808msg/jtt808msg_parser.go:14-159 | whatever is delivered from any buffer has the lengths its own header announces and fits into the buffer |
| Writer.DeliveredIff | jtt808-2019-master/jtt808-2019-master/jtt808msg/jtt808msg_writer.go:7-32 | for every command and header, the scanner gives the written bytes back if and only if the fields fit and the raw bytes survive |
| Writer.WrittenMessageComesBack | jtt808-2019-master/jtt808-2019-master/jtt808msg/jtt808msg_writer.go:7-32 | when the fields fit and agree, the phone is twenty digits and the raw bytes survive, scanner, header parser and command parser return what was written; otherwise they do not, unless the command parser reads past a 0x1210 body |
| Writer.FlagInBodyIsLost | jtt808-2019-master/jtt808-2019-master/jtt808msg/jtt808msg_writer.go:25-31 | a concrete command that the writer accepts and the server cannot read back |
| Closing.NeverPanics | jtt808-2019-master/jtt808-2019-master/jtt808server/jtt808msgserver/jtt808msgconnhdlr.go:142-175 | under any interleaving of any number of callers nothing is sent on a closed channel and it is closed at most once |
| Closing.CountKept | jtt808-2019-master/jtt808-2019-master/jtt808server/jtt808msgserver/jtt808msgconnhdlr.go:155-156 | every step keeps the count equal to the number of callers between increment and decrement |
| Closing.CloseKept | jtt808-2019-master/jtt808-2019-master/jtt808server/jtt808msgserver/jtt808msgconnhdlr.go:142-146 | every step keeps: past the wait nobody is about to send |
| Closing.AcceptedExactlyOnce | jtt808-2019-master/jtt808-2019-master/jtt808server/jtt808msgserver/jtt808msgconnhdlr.go:151-166 | received plus queued messages are, in order and once each, those whose Send returns true; never more than 16 are queued |
| Closing.RefusedIff | jtt808-2019-master/jtt808-2019-master/jtt808server/jtt808msgserver/jtt808msgconnhdlr.go:151-166 | in every run a call is refused if and only if one of its two loads met a stopped connection or its select met 16 queued messages, and accepted if and only if its select met fewer |
| Closing.FiveSteps | jtt808-2019-master/jtt808-2019-master/jtt808server/jtt808msgserver/jtt808msgconnhdlr.go:151-166 | on a running connection with fewer than 16 queued messages a call of its own is accepted, queued and returns true |
| Closing.ReceivesEmptyQueue | jtt808-2019-master/jtt808-2019-master/jtt808server/jtt808msgserver/jtt808msgconnhdlr.go:58-59 | as many receives as there are queued messages take them all, in order |
| Closing.StoppedIff | jtt808-2019-master/jtt808-2019-master/jtt808server/jtt808msgserver/jtt808msgconnhdlr.go:142-175 | the connection is stopped exactly when somebody stopped it or Run has left its receive loop |
| Closing.LateCallsRefused | jtt808-2019-master/jtt808-2019-master/jtt808server/jtt808msgserver/jtt808msgconnhdlr.go:151-175 | after Stop no call is accepted that has not passed its second check |
| Closing.WaitEnds | jtt808-2019-master/jtt808-2019-master/jtt808server/jtt808msgserver/jtt808msgconnhdlr.go:142-146 | after Stop the calls waited for only dwindle, each by its own steps, and without them the wait is over |
| Closing.CloseIsReached | jtt808-2019-master/jtt808-2019-master/jtt808server/jtt808msgserver/jtt808msgconnhdlr.go:142-175 | from every reachable stopped state, every schedule that gives each pending call its remaining steps and then Run three ends with the channel closed, once |
| Session.AuthCodeStore.Validate | jt808.py:428-437 | a code is valid exactly when it equals, stripped, the one on file |
| Session.AuthCodeStore.Issue | jt808.py:421-426 | issues and files the code for the phone |
| Session.Server.OnRegister | main.py:220-236 | registration moves the tables as specified and returns the filed code |
| Session.Server.OnAuth | main.py:256-284 | authentication moves the tables and answers as specified |
| Session.Server.OnHeartbeat | main.py:303-325 | a heartbeat of an unauthenticated phone is refused and changes nothing but the connection's phone; any other marks the device online |
| Session.Server.OnLocation | main.py:336-345 | a location is accepted exactly from authenticated phones and changes nothing but the connection's phone |
| Session.Server.OnLogout | main.py:403-412 | logout withdraws authentication and code |
| Session.Server.OnDisconnect | main.py:148-155 | a disconnect forgets the connection's current phone everywhere |
| SessionLaws.AuthSucceedsIff | main.py:256-284 | AUTH succeeds if and only if the latest event concerning the phone is a REGISTER and the stripped code is the one issued there |
| SessionLaws.AuthedFromHistory | main.py:148-159 | a phone is authenticated if and only if a successful AUTH was not followed by REGISTER, LOGOUT or the disconnect of a connection whose current phone it is |
| SessionLaws.ReportsAcceptedIff | main.py:303-345 | heartbeats and locations are accepted if and only if the authentication of the phone still stands |
| SessionLaws.KnownFromHistory | main.py:148-155 | a device is known if and only if it has registered and its connection was not lost since |
| SessionLaws.ActiveFromHistory | main.py:148-159 | the connection used for signalling is, if any, the one on which the latest successful AUTH of the phone came in, unless it was lost since |
| SessionLaws.StripPadded | jt808.py:428-432 | a code is accepted with blanks around it and zero characters around those |
| SessionLaws.CodesFromHistory | jt808.py:412-441 | a code is on file exactly when the latest reset of the phone is a registration, and it is that one's code |
| SessionLaws.TablesAgree | main.py:220-290 | authenticated phones have a code and a signalling connection; codes and connections belong to known devices; the devices online are those with a code |
| SessionLaws.FallbackUnreachable | main.py:271-276 | a valid code never meets an unknown device |
| SessionLaws.RegisterThenAuth | main.py:236-289 | registration frame, reply frame and AUTH frame are all parsed: the code read out of the reply, sent back in the form of the protocol version on any connection, authenticates the phone of the frame, whatever other phones do in between |
| Ownership.Server.OnClaim | main.py:524-527 | the first packet of a channel makes its connection the owner |
| Ownership.Server.OnCheck | main.py:531-535 | a packet is written exactly when its connection owns the channel |
| Ownership.Server.OnDisconnect | main.py:539-545 | the release loop removes exactly the channels still held |
| Ownership.OwnerIsLatestClaimer | main.py:520-545 | in every run the owner is exactly the latest claimer while connected, and nobody otherwise |
| Ownership.OnlyLatestClaimerWrites | main.py:531-535 | only packets of the latest claimer are written |
| Ownership.WritesIff | main.py:531-535 | a packet of a connected connection, for a channel it has claimed, is written if and only if the latest claim is its own |
| Ownership.ConnectedIff | main.py:500-545 | a connection counts as connected from its start to its disconnect, with the phone it started with |
| Ownership.SeenIff | main.py:520-529 | a channel counts as claimed by a connection exactly when it has sent a packet for it while connected |
| Ownership.EvictedForGood | main.py:524-533 | an evicted connection never owns the channel again |
| Ownership.StaleDisconnectHarmless | main.py:541-545 | the disconnect of a connection once evicted from a channel, at any later time, changes nothing for that channel |
| Hevc.IsH265Rasl | hls.py:29-58 | the jumping scan equals the declarative test over all start codes, but for a bare three-byte code whose header is the last byte |
| Hevc.DroppedByHeaders | hls.py:29-58 | in terms of header bytes: dropped if and only if some NAL begins with 0x10 to 0x13 and every one that begins below 0x40 does |
| Hevc.HeaderAtTheEnd | hls.py:29-58 | three concrete payloads that show what counts at the very end |
| Hevc.NalTypeField | hls.py:40-50 | the type is the six bits after the forbidden bit |
| Streamer.StartIndexMeaning | hls.py:240-258 | sending starts at the first VPS, else the first IDR or CRA, else at the front of a long buffer, else not yet |
| Streamer.PrefixesAreNals | hls.py:16-27 | the prefixes are four-byte start codes with NAL types 32, 19, 20 and 21 |
| Streamer.ChooseStart | hls.py:240-258 | the prefix loop computes that index |
| Streamer.LiveStreamer.WriteFrame | hls.py:227-279 | one payload moves the streamer as specified, through every failure branch, with the input of each process kept apart |
| Streamer.LiveStreamer.ResetSoftly | hls.py:319-332 | a soft reset keeps a running process and otherwise starts afresh |
| Streamer.InterruptedIff | hls.py:262-279 | the streamer goes back to waiting if and only if it is reset, or has something to send while the process is not up or the pipe is broken |
| Streamer.PayloadHeldOrSent | hls.py:227-275 | a payload of RASL pictures alone changes nothing; every other one is held or sent whole |
| Streamer.ExitIsFoundOut | hls.py:265-268 | an exited process is found out by the next payload to be sent, which is lost |
| Streamer.InputOnlyGrows | hls.py:319-327 | only the start of a process and the replacement of an idle streamer end the input of the process before; a soft reset keeps a started process |
| Streamer.AlwaysFaithful | hls.py:227-279 | after any history: while waiting, everything kept since the last interruption is held; while passing on, the latest process has been sent, without a gap and to the last byte, what was kept from the right start on or from the write that started it |
| Streamer.RightStartIff | hls.py:236-263 | in every run, the input of a process started since the last interruption is all that was kept from the right start on if and only if the write that started it was waiting for a picture; otherwise it is what was kept from that write on |
| Streamer.InputStartsWithPicture | hls.py:236-260 | in every run, the input of a process that was started by a write waiting for a picture begins with a VPS, IDR or CRA, or with the last-resort amount of bytes without one |
| Streamer.RestartMissesPicture | hls.py:166-169 | a concrete run in which FFmpeg's output ends and the next process is fed from the middle of the stream |
| Streamer.WaitingHoldsNoPicture | hls.py:236-258 | a waiting streamer holds fewer than 50,000 bytes and no VPS, IDR or CRA prefix |
| Jpeg.JpegReader.OnChunk | hls.py:141-164 | one chunk yields exactly the images of the specification and queues them, dropping the oldest |
| Jpeg.ImagesAccounted | hls.py:142-153 | images are disjoint, in order, start with FF D8 and end at the first FF D9 after it; behind the last one there is no whole image, and it is kept from its FF D8 on |
| Jpeg.CutHarmlessIff | hls.py:143-151 | a cut can never be noticed if and only if the buffer is not cleared with a trailing 0xFF |
| Jpeg.CutLosesImage | hls.py:143-146 | a concrete image that is lost because a read ends with its first byte |
| Jpeg.SafeCutsDoNotMatter | hls.py:141-153 | images do not depend on the cuts when no read but the last ends in 0xFF |
| Jpeg.OldestLeaveFirst | hls.py:154-164 | at most 30 images wait, and everything that left the queue is older than all that wait |
| Jpeg.DropsOnlyWhenFull | hls.py:154-164 | in every run as many images are dropped as were pushed while 30 waited; all others that left were taken |
| Relays.RelayManager.Reconcile | rtsp_relay.py:162-197 | one poll turns the table into the next window, starts a process exactly for the live channels that had none running, stops exactly those of the channels that fall out, and never one that is tracked |
| Relays.RelayManager.Run | rtsp_relay.py:199-216 | over any list of polls, failures skipped, every table follows from the one before by one poll, no tracked process was ever stopped, the last table is the window of the successful polls, and in the end nothing is tracked and every process was stopped or has exited |
| Relays.RelayManager.Shutdown | rtsp_relay.py:213-216 | shutdown leaves no process that is neither stopped nor gone |
| Relays.TrackedIffRecentlyLive | rtsp_relay.py:162-197 | a channel is tracked if and only if some poll saw it live within the idle timeout |
| Relays.StartKeepsAccount | rtsp_relay.py:116-130 | starting or restarting keeps every process tracked, stopped or exited |

## Left out

- Sockets, timeouts, subprocess pipes, logging, HTTP, JSON and the web page: events and parameters stand for them.
- `RunRX` after a failed hand-over to the data channel: the model hands every message over; the original gives up only once the connection is stopped.
- `Closing`: `RunTX` leaves its loop once the connection is stopped; the model lets it receive at any time, and says nothing about the up to 16 accepted messages that are then never received.
- `Closing`: the 32-bit counter is an unbounded integer, so more than 2^31 - 1 simultaneous callers are not modelled.
- `beutils`, the library for big-endian reads at an offset, is not part of this model; its reads are taken to be big-endian.
- Commands.WriteThenParse: says nothing about a 0x1210 body that is read past, for the reason given with Commands.ParseCmd1210; neither does Writer.WrittenMessageComesBack.
- Commands.ParseCmd1210: does not say what a read past the body returns, because that is up to `beutils`; that outcome is called Unchecked.
- The other commands of the Go server: fixed layouts, or writers that do not mirror their parsers.
- Location and registration bodies, dates, GBK text and floating-point positions: they do not influence the tables that are modelled.
- `bytes.fromhex` skips blanks between digits: the model counts a blank as an error. Phones come from parsed headers and contain none.
- `LiveStreamer`: a second coroutine calling `write` while the first awaits the start of FFmpeg; the steps are modelled one after the other.
- Relays.RelayManager.Run: starting FFmpeg always succeeds. In the original it can raise; the loop then ends without its shutdown, and the processes tracked go on.
- Streamer.LiveStreamer.WriteFrame: here, too, starting FFmpeg always gives a process, though it may exit at once.
- `RelayManager._reconcile` reads each process's return code when it comes to it, after awaits within the same poll; the model takes one set of exited processes per poll.
- `Relay` objects are values in the table, since nothing else holds on to them for writing.
- Serial numbers, heartbeat counters, last-seen times and re-requests of streams.
- `jtt808_handler.go` and `tcpserver.go`: the parser they rest on is not part of this repository.
