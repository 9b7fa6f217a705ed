# A verified model of QtWebApp's protocol code

QtWebApp is a web server in C++ for Qt. This project models the code in it that reads and writes protocols and keeps
state across calls, in Dafny 4.11, and proves what that code does for all inputs and all runs. `dafny verify
dfyconfig.toml` checks everything.

* **WebSocket** (`WebSocket*.dfy`). The frame reader is the loop over its processing states, on a device that delivers
  bytes by an arbitrary schedule; it refines a one-shot parser. The writer cuts a message into frames and masks each
  slice in place. The data processor reassembles messages with control frames in between. `FrameOnTheWire` says byte by
  byte which frames the reader accepts. Writer, reader and processor meet in `EndToEnd` and `TextEndToEnd`, and in the
  contract of `DoWriteFrames`, which says what a receiver makes of the bytes on the socket; two whole endpoints with
  their applications and byte channels meet in `PingIsAnswered` and `BothEndsAgree`.
* **Templates** (`Template*.dfy`, `Strings.dfy`). The engine rewrites a string in place by searching for tags. The loops
  are proved to be a rewriting of token lists, and that to be a transformation of template trees; `ConditionShows` and
  `LoopShows` tell what that means for the text.
* **HTTP** (`Http*.dfy`). The streaming request parser with its size accounting, form, cookie and multipart decoding;
  the streaming response printer over a socket that accepts any part of each write; the loop that reads pipelined
  requests and decides about keeping the connection open. `Pipelining` says what this loop does with any stream of
  requests cut into pieces in any way that divides no line break, `UploadDelivered` what it does with uploads, and
  `ClientGetsAnswers` what a client then reads from the bytes that come back.
* **Log rotation** (`FileLogger.dfy`) over a map of files, and the **reference counts of sessions** (`HttpSession.dfy`)
  on a heap of handles.

What changes state in the source is a class or a loop here, proved equal to a function of the old state; the functions
are what the lemmas are about. In the WebSocket part bytes are numbers below 256 and bit tests are division and
remainder; in the HTTP part a byte is a character below 256. Library calls that the properties depend on only through
one fact are parameters: the UTF-8 codec, the masking keys, `toInt` (assumed to read what `QByteArray::number` prints,
and two hexadecimal digits as their value), and the request handler, which is any function from the requests so far to
what is done with the response.

## What the code does otherwise than one might expect

* `setCondition` and `loop` do not end when an end tag is missing (template.cpp:100-103): `LoopEndsExactly` gives the
  condition on the tags, `MissingEndTag` and `NestedStartTags` are instances.
* Numbering can give two nested blocks one name, when one of them is already named like a numbered one; later calls then
  meet a construct inside itself. `LoopKeepsWellFormed` has the exact condition, `LoopNestsOneName` an instance.
* A block tag in the body of a loop that begins with the name of the loop and a dot is taken for a variable of the loop.
  That can happen for names that begin with a keyword, such as `if x`, only. `LoopOnTree` has the exact condition,
  `LoopMistakesTag` an instance.
* A request is charged for its bytes and once more for the front of each line that a piece ends in (httprequest.cpp:31,
  66). So a request within the limit can be refused because of how it arrives; `DispatchedExactly` states the exact
  charge. A piece is what one call of `readHttp` finds. Deliveries inside the first line of a connection are no pieces
  of their own and cost nothing, since `read` waits for a whole line (httpconnectionhandler.cpp:413).
* A lone carriage return ends a line (httprequest.cpp:32, 67), so a delivery that divides a line break ends the head
  there. That is harmless behind the last header when the body is empty or made of the line breaks that are left, and
  cuts off headers or shifts the body otherwise: `SplitLineBreakExactly`. `Pipelining` is about deliveries that divide
  no line break.
* The framing ignores the request method and the status (httpresponse.cpp:98-158), so a body is sent even where a client
  expects none: `ClientReadsExactly` has the exact condition, `NoContentWithBody` an instance.
* A step of the request parser takes no byte only for a negative Content-Length, which ends the request at once:
  `Progress`.
* A cookie part without `=` gets the name `part.left(-1)` (httpcookie.cpp:42-45). `QByteArray::left` returns an empty
  array for a negative length, `QString::left` the whole string. With the former, `Secure` and `HttpOnly` are printed but
  never parsed. The proofs cover both; `CookieRoundTrip` has the exact condition, `SecureIsLost` an instance. `HttpOnly`
  has no initial value in the parsing constructor, so its value there is arbitrary.
* The contiguous backups can exceed their maximum after a rotation, when a gap in their numbers is filled:
  `WithinMaximum` has the exact condition, `GapExceedsMaximum` an instance. Without a gap they never do.
* A head line in a multipart body is read up to 65536 bytes (httprequest.cpp:418). If its line break does not fit, the
  rest of the line break is taken for the end of the head, and the value gets a line break in front; if its name does
  not fit, the field is lost: `FormFieldsExactly`, `LineBreakInValue`, `LongPart`.
* A multipart body of exactly maxMultiPartSize bytes passes the check of the announced size and is refused when it has
  arrived (httprequest.cpp:135, 190): `UploadDelivered`.
* The coding of a request body is ignored, so a chunked body is taken for the next request: `ChunksAreNextRequest`.
* A rotation without a log leaves a gap in front of the backups it keeps: `GaplessStays`.
* A multipart delimiter is taken for the closing one when the boundary is made of dashes alone: `DelimiterIsNotClosing`.
* A file field whose name ends in ` filename=` gets `; filename=` for its file name, which is right for that one name
  only: `NameEatsFileName`, `FileNameExactly`.
* A received frame with the mask bit and an all-zero key is accepted but cannot be printed again, since key 0 stands for
  "not masked" (qwebsocket_p.cpp:720, 737): `AcceptedFrameIsCanonical`.
* An invalid close code is reported with the number 1002, since the code is replaced before it is formatted
  (qwebsocketdataprocessor.cpp:255-256).
* `HttpSession::operator=` never deletes (httpsession.cpp:62-67): `AssignOverLast`.

## Model

| member | source | states |
|---|---|---|
| WebSocketProtocol.BigEndianRoundTrip | QtWebApp/qtwebsockets/src/websockets/qwebsocket_p.cpp:728-734 | a length or key that fits its bytes is read back from them |
| WebSocketProtocol.BigEndianCanonical | QtWebApp/qtwebsockets/src/websockets/qwebsocketframe.cpp:383-414 | bytes read as a number are printed back as the same bytes, so a number has one form per width |
| WebSocketProtocol.BigEndianOrder | QtWebApp/qtwebsockets/src/websockets/qwebsocketframe.cpp:383-414 | of a number in bytes the first byte is the most significant one |
| WebSocketProtocol.BigEndianDigit | QtWebApp/qtwebsockets/src/websockets/qwebsocket_p.cpp:728-734 | byte i of a printed number is its digit to the base 256 that stands i places behind the first |
| WebSocketProtocol.ValidCloseCodes | QtWebApp/qtwebsockets/src/websockets/qwebsocketprotocol_p.h:89-96 | the valid close codes in numbers: 1000 to 1003, 1007 to 1011 and 3000 to 4999 (RFC 6455, section 7.4) |
| WebSocketProtocol.XorBit | QtWebApp/qtwebsockets/src/websockets/qwebsocketprotocol.cpp:205-216 | each bit of the exclusive or is set exactly if the two bits differ |
| WebSocketProtocol.MaskedByte | QtWebApp/qtwebsockets/src/websockets/qwebsocketprotocol.cpp:205-216 | byte i of the payload is combined with byte i mod 4 of the key as it stands on the wire: each of its bits is flipped exactly if that byte of the key has it set (RFC 6455, section 5.3) |
| WebSocketProtocol.MaskingIsAnInvolution | QtWebApp/qtwebsockets/src/websockets/qwebsocketprotocol.cpp:205-216 | masking twice with one key restores every payload, and the all-zero key changes nothing (RFC 6455, section 5.3) |
| WebSocketProtocol.Mask | QtWebApp/qtwebsockets/src/websockets/qwebsocketprotocol.cpp:193-216 | the loop masks exactly the given stretch of the buffer in place; byte i of the stretch is combined with byte i mod 4 of the key in the order of the wire, and nothing else changes |
| WebSocketFrames.TimeoutSplitsData | QtWebApp/qtwebsockets/src/websockets/qwebsocketframe.cpp:318-330 | what a reader can see before the first time-out and what comes later make up all the data |
| WebSocketFrames.StarvedReadTimesOut | QtWebApp/qtwebsockets/src/websockets/qwebsocketframe.cpp:296-298 | in each state, with fewer bytes than the state asks for, the read can only end in the time-out error |
| WebSocketFrames.WebSocketFrame.ReadHeaderBytes | QtWebApp/qtwebsockets/src/websockets/qwebsocketframe.cpp:332-371 | reading on from the state chosen by the header gives the frame of the one-shot parser |
| WebSocketFrames.WebSocketFrame.ReadShortLength | QtWebApp/qtwebsockets/src/websockets/qwebsocketframe.cpp:373-400 | the 16-bit length, which must not be below 126, keeps the reader on course for the frame of the one-shot parser |
| WebSocketFrames.WebSocketFrame.ReadLongLength | QtWebApp/qtwebsockets/src/websockets/qwebsocketframe.cpp:402-436 | the 64-bit length, which must be below 2^63 and above 65535, likewise |
| WebSocketFrames.WebSocketFrame.ReadMaskKey | QtWebApp/qtwebsockets/src/websockets/qwebsocketframe.cpp:438-454 | the masking key, likewise |
| WebSocketFrames.WebSocketFrame.TakePayload | QtWebApp/qtwebsockets/src/websockets/qwebsocketframe.cpp:464-479 | the payload is taken and unmasked in place as the one-shot parser says |
| WebSocketFrames.AwaitData | QtWebApp/qtwebsockets/src/websockets/qwebsocketframe.cpp:318-330 | after a wait the reader goes on where it was, or the frame is the time-out error the one-shot parser gives for the bytes that came |
| WebSocketFrames.ReadFrame | QtWebApp/qtwebsockets/src/websockets/qwebsocketframe.cpp:303-502 | for every schedule of arrivals and time-outs the loop ends, returns the frame or the error of the one-shot parser on the bytes that arrive before a time-out, and leaves the same bytes unread: arrival independence |
| WebSocketFrames.ValidFrameIsKnown | QtWebApp/qtwebsockets/src/websockets/qwebsocketframe.cpp:525-527 | a valid frame has an opcode that the protocol defines |
| WebSocketLayout.HeaderStage | QtWebApp/qtwebsockets/src/websockets/qwebsocketframe.cpp:332-371 | for all bytes: a header is accepted if and only if its three reserved bits are 0, its opcode is 0, 1, 2, 8, 9 or 10, and a control frame has FIN and at most 125 bytes; any other draws error 1002, and nothing behind the two bytes is read (RFC 6455, sections 5.2 and 5.5) |
| WebSocketLayout.FrameOnTheWire | QtWebApp/qtwebsockets/src/websockets/qwebsocketframe.cpp:303-502 | for all bytes and all results: the parser accepts a frame with certain contents and rest if and only if the bytes begin with it, byte by byte, as section 5.2 of RFC 6455 lays it out: header bits, the shortest form of the length, the key, each byte of the payload combined with its byte of the key, at most 2147483646 of them, and the rest behind them |
| WebSocketLayout.RefusedWith | QtWebApp/qtwebsockets/src/websockets/qwebsocketframe.cpp:303-542 | the code of every refusal, in numbers: 1001 where bytes are missing, 1002 for a header or a length that is not allowed, 1009 for a payload that is too long, in the order in which the parser looks |
| WebSocketWriter.HeaderRoundTrip | QtWebApp/qtwebsockets/src/websockets/qwebsocket_p.cpp:707-748 | parsing a printed header gives back FIN, opcode, length and key for every length that has a header (RFC 6455, section 5.2) |
| WebSocketWriter.FrameRoundTrip | QtWebApp/qtwebsockets/src/websockets/qwebsocket_p.cpp:790-798 | parsing a printed frame gives the frame back and consumes exactly its bytes |
| WebSocketWriter.AcceptedFrameIsCanonical | QtWebApp/qtwebsockets/src/websockets/qwebsocketframe.cpp:332-454 | re-printing any accepted frame gives the bytes it was read from if and only if it did not have the mask bit with an all-zero key |
| WebSocketWriter.FrameCountByDivision | QtWebApp/qtwebsockets/src/websockets/qwebsocket_p.cpp:763-774 | the number of frames is the quotient rounded up, and one for an empty message |
| WebSocketWriter.PayloadsAddUp | QtWebApp/qtwebsockets/src/websockets/qwebsocket_p.cpp:775-811 | the payloads of the frames are the message, cut |
| WebSocketWriter.MessageFrameAt | QtWebApp/qtwebsockets/src/websockets/qwebsocket_p.cpp:778-798 | frame i carries slice i of the message; only the first names the type, only the last has FIN (RFC 6455, section 5.4) |
| WebSocketSender.Sender.WriteFrame | QtWebApp/qtwebsockets/src/websockets/qwebsocket_p.cpp:779-808 | one pass of the loop, for a socket that takes any part of each write: the bytes it gets of the header and of the masked slice, what is reported, and whether the loop goes on |
| WebSocketSender.Sender.DoWriteFrames | QtWebApp/qtwebsockets/src/websockets/qwebsocket_p.cpp:753-818 | for every socket: the bytes it gets are those of the frames of the message, each write cut as the socket takes it, up to the first payload of which nothing is taken; the payload reported is what was taken, and there is no error exactly if that is all of it. A connected socket that takes every write whole gets bytes that read as the fragments of the message, cut every 524288 bytes, the first with opcode 0x1 or 0x2 as the caller said and the others with 0x0, each masked with the key drawn for it or not at all; and one call of the processor of any receiver between messages, whatever follows, makes of them the binary message, or the text the bytes decode to, and leaves exactly what follows |
| WebSocketWriter.WholeFramesSent | QtWebApp/qtwebsockets/src/websockets/qwebsocket_p.cpp:753-818 | a socket that takes each write whole gets exactly the frames of the message, and all of the payload is reported |
| WebSocketSender.StopsAtFailure | QtWebApp/qtwebsockets/src/websockets/qwebsocket_p.cpp:790-808 | behind the first payload of which nothing is taken no write is attempted: two for each frame up to there |
| WebSocketSender.MessageReads | QtWebApp/qtwebsockets/src/websockets/qwebsocket_p.cpp:753-811 | what is written for a message reads as its fragments: number, opcodes, FIN bits, keys and slices |
| WebSocketSender.BinaryReads | QtWebApp/qtwebsockets/src/websockets/qwebsocket_p.cpp:753-818 | what is written for a binary message makes any receiver emit it, or end in error 1009 if it is too big |
| WebSocketSender.TextReads | QtWebApp/qtwebsockets/src/websockets/qwebsocket_p.cpp:753-818 | what is written for a text makes any receiver emit the text that it decodes to, or end in error 1007 or 1009 |
| WebSocketSender.Sender.Close | QtWebApp/qtwebsockets/src/websockets/qwebsocket_p.cpp:330-359 | only the first call writes a close frame and settles code and reason; a socket that takes the write whole gets a final frame with opcode 0x8, the code in two bytes and the reason, masked with the key drawn |
| WebSocketSender.Sender.Ping | QtWebApp/qtwebsockets/src/websockets/qwebsocket_p.cpp:474-488 | a ping carries the first 125 bytes; a socket that takes the write whole gets a final frame with opcode 0x9 and these bytes, masked with the key drawn |
| WebSocketSender.Sender.ProcessPing | QtWebApp/qtwebsockets/src/websockets/qwebsocket_p.cpp:1163-1176 | a ping is answered in two writes, header and payload; a socket that takes both whole gets, for up to 125 bytes, a final frame with opcode 0xA and exactly the payload of the ping, masked with the key drawn (RFC 6455, section 5.5.3) |
| WebSocketDataProcessor.DataProcessor.Process | QtWebApp/qtwebsockets/src/websockets/qwebsocketdataprocessor.cpp:123-199 | for every arrival schedule the loop ends and emits the events, reaches the state and leaves the bytes of the fold over the frames of the stream; buffers that fit the message in progress still do afterwards |
| WebSocketDataProcessor.ProcessKeepsValid | QtWebApp/qtwebsockets/src/websockets/qwebsocketdataprocessor.cpp:123-224 | the invariant of a call on any bytes: outside messages both buffers are empty and the converter is clean; inside one the type is text or binary and the other buffer is empty, and a binary buffer is within the limit |
| WebSocketReassembly.RunFramesConcat | QtWebApp/qtwebsockets/src/websockets/qwebsocketdataprocessor.cpp:127-198 | handling frames is a fold: a run over two stretches is the second after the first |
| WebSocketReassembly.OneCallHandlesFrames | QtWebApp/qtwebsockets/src/websockets/qwebsocketdataprocessor.cpp:123-199 | one call handles a non-empty stretch of the frames of the stream |
| WebSocketReassembly.CallsHandleFrames | QtWebApp/qtwebsockets/src/websockets/qwebsocketdataprocessor.cpp:123-199 | any number of calls handle the frames of the stream in order, each once, and leave exactly the rest |
| WebSocketReassembly.RunKeepsValid | QtWebApp/qtwebsockets/src/websockets/qwebsocketdataprocessor.cpp:123-224 | the invariant holds after any number of frames of any stream |
| WebSocketReassembly.CallsKeepValid | QtWebApp/qtwebsockets/src/websockets/qwebsocketdataprocessor.cpp:123-199 | and after any number of calls, whatever errors and time-outs they met |
| WebSocketReassembly.ControlFramesDoNotInterfere | QtWebApp/qtwebsockets/src/websockets/qwebsocketdataprocessor.cpp:130-132 | the messages, frame events, errors and final state of a run are those of its data frames alone (RFC 6455, section 5.4) |
| WebSocketReassembly.FragmentedMeansOpen | QtWebApp/qtwebsockets/src/websockets/qwebsocketdataprocessor.cpp:149-152 | in a run without errors the processor is inside a message exactly when the last data frame was not final |
| WebSocketReassembly.SequenceErrorExactly | QtWebApp/qtwebsockets/src/websockets/qwebsocketdataprocessor.cpp:134-148 | after a run without errors the next valid frame draws error 1002 if and only if it is a continuation with nothing to continue or a new data frame inside a message |
| WebSocketReassembly.MessagesArriveInOrder | QtWebApp/qtwebsockets/src/websockets/qwebsocketdataprocessor.cpp:149-191 | however binary messages are fragmented and whatever control frames lie between and inside them, exactly these messages come out, in order, without an error |
| WebSocketReassembly.RestOfMessageArrives | QtWebApp/qtwebsockets/src/websockets/qwebsocket_p.cpp:778-811 | reading the frames written for the rest of a message completes it, or ends in the size error exactly when it is too long |
| WebSocketReassembly.EndToEnd | QtWebApp/qtwebsockets/src/websockets/qwebsocket_p.cpp:753-818 | for every payload and every sequence of keys, zero keys and no masking included: reading what was written emits exactly one binary message, equal to the payload, and consumes exactly these bytes, if and only if the payload is within the message limit |
| WebSocketReassembly.EndToEndAfterRun | QtWebApp/qtwebsockets/src/websockets/qwebsocket_p.cpp:753-818 | the same for a receiver that has handled any bytes in any number of calls, as long as no message is open |
| WebSocketText.ReceivedText | QtWebApp/qtwebsockets/src/websockets/qwebsocketdataprocessor.cpp:154-191 | one frame of a text: refused if the text so far and the bytes of the frame are over the limit together, otherwise decoded from where the frame before it stopped, and refused if a character is invalid or, at the end, incomplete |
| WebSocketText.TextArrives | QtWebApp/qtwebsockets/src/websockets/qwebsocketdataprocessor.cpp:123-199 | however a text of any length is cut into frames, even inside characters: if its frames fit and its bytes decode, exactly this one message is emitted and its frames hand over the same text; otherwise no message, and error 1009 or 1007, whichever the first offending frame draws (RFC 6455, sections 5.4 and 5.6) |
| WebSocketText.ShortTextFits | QtWebApp/qtwebsockets/src/websockets/qwebsocketdataprocessor.cpp:154-163 | the frames of a text whose bytes are within the message limit always fit, however it is cut |
| WebSocketText.WrittenFramesCarry | QtWebApp/qtwebsockets/src/websockets/qwebsocket_p.cpp:778-798 | the frames written for a message carry it to its end |
| WebSocketText.WrittenFramesAreRead | QtWebApp/qtwebsockets/src/websockets/qwebsocketframe.cpp:303-502 | written frames are read back as they are, and what follows them is not touched |
| WebSocketText.TextEndToEnd | QtWebApp/qtwebsockets/src/websockets/qwebsocket_p.cpp:753-818 | one call on what is written for a text emits exactly the text that its bytes decode to in one piece and leaves exactly the bytes behind it, if and only if its frames fit and it decodes; otherwise the call ends with error 1009 or 1007 and emits no message, whatever the keys |
| WebSocketClose.AtMostOneCloseFrame | QtWebApp/qtwebsockets/src/websockets/qwebsocket_p.cpp:330-359 | in every run of two endpoints each writes at most one close frame (RFC 6455, section 5.5.1) |
| WebSocketClose.ControlFrameEvent | QtWebApp/qtwebsockets/src/websockets/qwebsocketdataprocessor.cpp:229-272 | a valid control frame has at most 125 bytes and opcode 8, 9 or 10; one call reads it, inside a message or not, emits its event alone and changes nothing |
| WebSocketClose.PingArrives | QtWebApp/qtwebsockets/src/websockets/qwebsocket_p.cpp:474-488 | the first 125 bytes passed to ping make the processor of the peer emit a ping with exactly these, whatever it is reading and whatever follows |
| WebSocketClose.PingIsAnswered | QtWebApp/qtwebsockets/src/websockets/qwebsocket_p.cpp:1163-1176 | an endpoint that reads a ping answers at once with bytes that make the processor of its peer emit a pong with exactly the payload of the ping, in any state of either (RFC 6455, section 5.5.3) |
| WebSocketClose.ClosePayloads | QtWebApp/qtwebsockets/src/websockets/qwebsocketdataprocessor.cpp:241-270 | what a close frame says, in numbers: 1000 for no payload, 1002 for one byte or a code outside the valid ranges, 1007 for a reason that is no UTF-8, otherwise the code in the first two bytes and the reason behind them |
| WebSocketClose.FaultIsAnswered | QtWebApp/qtwebsockets/src/websockets/qwebsocket_p.cpp:620-621 | bytes that are no valid frame make an endpoint close with the code of their fault, and the close frame it sends says that code and reason |
| WebSocketClose.CloseIsAnswered | QtWebApp/qtwebsockets/src/websockets/qwebsocket_p.cpp:1190-1194 | a close frame is answered by one with the code and reason it was understood to carry, and both handshake flags are set |
| WebSocketClose.NoSecondClose | QtWebApp/qtwebsockets/src/websockets/qwebsocket_p.cpp:334-337 | an endpoint that has sent its close frame answers no further close frame and no fault |
| WebSocketClose.ReactAllKeepsSettled | QtWebApp/qtwebsockets/src/websockets/qwebsocket_p.cpp:334-337 | answering any events leaves the code and reason of an endpoint that has sent its close frame |
| WebSocketClose.ActKeepsSettled | QtWebApp/qtwebsockets/src/websockets/qwebsocket_p.cpp:334-337 | whatever application or network does, an endpoint that has sent its close frame keeps its code and reason |
| WebSocketClose.HarmlessItemIsRead | QtWebApp/qtwebsockets/src/websockets/qwebsocketdataprocessor.cpp:229-240 | an endpoint that reads a message, ping or pong consumes exactly its bytes and answers only pings |
| WebSocketClose.CloseFrameIsRead | QtWebApp/qtwebsockets/src/websockets/qwebsocketdataprocessor.cpp:241-272 | an endpoint that reads a close frame takes over what the frame says and answers once |
| WebSocketClose.TooLongControlFrame | QtWebApp/qtwebsockets/src/websockets/qwebsocketframe.cpp:528-531 | a control frame longer than 125 bytes is refused by its reader |
| WebSocketClose.MoveBeforeClose | QtWebApp/qtwebsockets/src/websockets/qwebsocket_p.cpp:330-359 | while nobody has closed, every move keeps only harmless items on the way, unless it is the first close |
| WebSocketClose.MoveAfterClose | QtWebApp/qtwebsockets/src/websockets/qwebsocket_p.cpp:1190-1194 | after the first close every move keeps the close frame on the way, or its content in the other endpoint |
| WebSocketClose.OneSidedClose | QtWebApp/qtwebsockets/src/websockets/qwebsocket_p.cpp:330-359 | in every run in which one application closes: until the close frame is read it is on the way behind harmless items, and afterwards the other end holds what it says |
| WebSocketClose.ReadBackExactly | QtWebApp/qtwebsockets/src/websockets/qwebsocketprotocol_p.h:89-96 | a code and reason are read back unchanged if and only if the code is valid and the reason takes 1 to 123 bytes that decode to it, or is missing |
| WebSocketClose.BothEndsAgree | QtWebApp/qtwebsockets/src/websockets/qwebsocket_p.cpp:330-359 | from the start, for every run: once both ends have sent their close frames they hold the same code and reason, if and only if a close frame can carry them (RFC 6455, sections 5.5.1 and 7.4) |
| TemplateTokens.IndexOfTag | QtWebApp/templateengine/template.cpp:60-67 | searching the printed template for a tag finds the first token that is this tag, and nothing inside other tokens |
| TemplateTokens.ReplaceAllRenamesTags | QtWebApp/templateengine/template.cpp:183-188 | replacing the beginning of tags in the text renames exactly the tags that begin so |
| TemplatePass.NumberedTagsAreLexed | QtWebApp/templateengine/template.cpp:178-190 | the six replacements on the text of a loop body are the numbering of its tags |
| TemplatePass.CopiesPrint | QtWebApp/templateengine/template.cpp:177-190 | the copies appended for a loop are the text of the numbered copies |
| TemplatePass.NumberingMakesNone | QtWebApp/templateengine/template.cpp:183-188 | for every name, numbering makes no new start, else or end tag of the loop itself |
| TemplatePass.PassSkips | QtWebApp/templateengine/template.cpp:98 | what stands in front of the next start tag is kept |
| TemplateTree.NumberBlockTag | QtWebApp/templateengine/template.cpp:183-188 | for every name, the six replacements number the name of a block in its tag if and only if the tag does not begin with the name of the loop and a dot |
| TemplateTree.NumberedTokens | QtWebApp/templateengine/template.cpp:178-190 | numbering the tags of a tree is numbering the tree, if and only if that holds of every block tag in it |
| TemplateEngine.IterationStep | QtWebApp/templateengine/template.cpp:65-104 | one round of the loop on the string is one replacement on the tokens; without an end tag it changes nothing |
| TemplateEngine.PassDecidesTermination | QtWebApp/templateengine/template.cpp:65-104 | the loop ends if and only if the rewriting of the tokens is not stuck at a start tag without an end tag behind it, and then with the text and the count of that rewriting |
| TemplateEngine.MissingEndTag | QtWebApp/templateengine/template.cpp:100-103 | a template on which the loop never ends, because the position is not advanced |
| TemplateTermination.LoopEndsExactly | QtWebApp/templateengine/template.cpp:65-104 | read off the tags: a loop that ends has no start tag behind the last end tag; where no construct is nested in itself, that condition is also enough |
| TemplateTermination.NestedStartTags | QtWebApp/templateengine/template.cpp:83-103 | two nested start tags in front of one end tag meet the condition, and the loop never ends |
| TemplateEngine.Template.Rewrite | QtWebApp/templateengine/template.cpp:163-231 | the loop over one kind of construct rewrites the text as the tokens say |
| TemplateEngine.Template.SetCondition | QtWebApp/templateengine/template.cpp:57-153 | text and count after the two loops |
| TemplateEngine.Template.Loop | QtWebApp/templateengine/template.cpp:155-237 | text and count after the loop |
| TemplateEngine.Template.SetVariable | QtWebApp/templateengine/template.cpp:39-55 | every tag of the variable is replaced once, whatever the value contains, and counted |
| TemplateTree.PassOnTree | QtWebApp/templateengine/template.cpp:65-104 | on a tree without constructs inside others of the same name the rewriting replaces and counts exactly the blocks of the kind and name; the result prints the transformed tree if and only if no copies are made or no block tag in a copied body begins with the name and a dot |
| TemplateWellFormed.TakeNodes | QtWebApp/templateengine/template.cpp:75-97 | after a condition is set the tree is still well-formed and has no new tags |
| TemplateWellFormed.IfNotBlocksStay | QtWebApp/templateengine/template.cpp:105-108 | resolving the if blocks of a name leaves its ifnot blocks to the second loop |
| TemplateWellFormed.SetConditionOnTree | QtWebApp/templateengine/template.cpp:57-153 | on the text of every well-formed tree, setting a condition ends and gives the text of the tree in which each if and ifnot block of the name is replaced by the chosen branch; the count is the number of these blocks |
| TemplateWellFormed.TakesCommute | QtWebApp/templateengine/template.cpp:57-153 | resolving blocks of two different kinds or names commutes on the tree |
| TemplateWellFormed.ConditionsCommute | QtWebApp/templateengine/template.cpp:57-153 | setting two different conditions commutes on the final text |
| TemplateLoops.NumberedIsWellFormed | QtWebApp/templateengine/template.cpp:178-190 | a numbered copy of a well-formed body is well-formed if and only if no block in it collides with one around it: one named name.r and the other name with the number, then .r |
| TemplateLoops.NamesAreForeign | QtWebApp/templateengine/template.cpp:178-190 | a well-formed template has a construct tag of a name exactly when a block has that name |
| TemplateLoops.NumberedNamesMeet | QtWebApp/templateengine/template.cpp:183-188 | numbering makes two different block names equal exactly when one is the numbered form of the other |
| TemplateLoops.NamesAfterLoop | QtWebApp/templateengine/template.cpp:178-220 | a name that no block had is the name of a block after a loop exactly when a copy numbers a block of a loop body like it |
| TemplateLoops.LoopKeepsWellFormed | QtWebApp/templateengine/template.cpp:155-237 | a loop leaves a well-formed tree if and only if no numbered name clashes with a block inside or around a body of the loop |
| TemplateLoops.LoopNestsOneName | QtWebApp/templateengine/template.cpp:178-190 | a well-formed template that one round of a loop turns into one with a block inside another of the same name |
| TemplateLoops.PlainNamesDoNotClash | QtWebApp/templateengine/template.cpp:178-190 | there is no clash when no block is named as if the loop had numbered it |
| TemplateLoops.NumberableOnTags | QtWebApp/templateengine/template.cpp:183-188 | whether a well-formed body is numbered right can be read off its construct tags |
| TemplateLoops.PlainNameIsMeant | QtWebApp/templateengine/template.cpp:183-188 | a name that begins with no keyword is numbered right in every template |
| TemplateLoops.NamesWithoutSpaceArePlain | QtWebApp/templateengine/template.cpp:183-188 | a name without a space begins with no keyword |
| TemplateLoops.LoopMistakesTag | QtWebApp/templateengine/template.cpp:183-188 | a well-formed template on which one round of a loop leaves a start tag and an end tag that do not belong together |
| TemplateLoops.LoopOnTree | QtWebApp/templateengine/template.cpp:155-237 | on the text of every well-formed tree and for every name without braces, a loop ends and counts its blocks; the text is that of the tree in which each loop block becomes n numbered copies of its body, or its else part for n = 0, if and only if n = 0 or no construct tag in a body begins with the name and a dot; that tree is well-formed if and only if there is no clash |
| TemplateLoops.NestedLoops | QtWebApp/templateengine/template.cpp:155-237 | loops compose when the first one mistakes no tag and meets no clash: a second call, for instance on an inner loop that the first one has numbered, again has the meaning on trees exactly if it mistakes no tag, and keeps the tree well-formed exactly without a clash |
| TemplateMeaning.BlockIsShown | QtWebApp/templateengine/template.cpp:60-62 | the text of each kind of block, with and without an else part, in its words and braces |
| TemplateMeaning.ConditionShows | QtWebApp/templateengine/template.cpp:57-153 | on every well-formed template with an if or ifnot block of the name: the body stands in its place if the block is an if and the condition true or an ifnot and the condition false, otherwise the else part or nothing; what is around it becomes what it would become on its own |
| TemplateMeaning.CopiesInOrder | QtWebApp/templateengine/template.cpp:177-190 | one more repetition adds the copy with the next number behind the others, and the first number is 0 |
| TemplateMeaning.NumberedNames | QtWebApp/templateengine/template.cpp:183-188 | in copy i the variable or block name.rest becomes name, i, a dot and rest |
| TemplateMeaning.OtherNames | QtWebApp/templateengine/template.cpp:183-188 | texts, variables and blocks of other names stay as they are in a copy |
| TemplateMeaning.LoopShows | QtWebApp/templateengine/template.cpp:155-237 | on every well-formed template with a loop of the name in which no tag is mistaken: in its place stand the texts of copies 0, 1 and so on in order, or its else part if there are none; what is around it becomes what it would become on its own |
| TemplateMeaning.VariableShows | QtWebApp/templateengine/template.cpp:39-55 | the first tag of the name, in braces, is replaced by the value, the text in front of it stays, and the same is done behind it |
| HttpText.HexRoundTrip | QtWebApp/httpserver/httpresponse.cpp:135 | a chunk size is read back from its hexadecimal form |
| HttpText.NumberRoundTrip | QtWebApp/httpserver/httpresponse.cpp:110 | a content length is read back from its decimal form |
| HttpText.DigitsInOrder | QtWebApp/httpserver/httpresponse.cpp:110-135 | decimal digits for lengths, small hexadecimal ones for chunk sizes, the most significant first |
| HttpText.SameLetters | QtWebApp/httpserver/httpconnectionhandler.cpp:332 | texts are the same ignoring case exactly if they have one length and differ only in letters of different case |
| HttpResponses.InsertedNames | QtWebApp/httpserver/httpresponse.cpp:20-30 | inserting a header replaces the one of the same name and keeps all others |
| HttpResponses.InsertedValue | QtWebApp/httpserver/httpresponse.cpp:20-30 | after an insertion the name has the new value, and every other name the one it had |
| HttpResponses.HttpResponse.WriteToSocket | QtWebApp/httpserver/httpresponse.cpp:75-96 | however few bytes each write accepts, all data is sent in order, once; a failed write leaves a prefix |
| HttpResponses.HttpResponse.Write | QtWebApp/httpserver/httpresponse.cpp:98-158 | state and bytes of one write, which for the first one begin with the header block of the framing it settles; that these are what a client reads is AnswerOnTheWire |
| HttpResponses.BodyBytes | QtWebApp/httpserver/httpresponse.cpp:128-157 | for every sequence of writes behind the header block: verbatim concatenation, or chunks that the decoder of section 4.1 of RFC 7230 turns into it, ended by exactly one terminator |
| HttpResponses.ChunkedWrite | QtWebApp/httpserver/httpresponse.cpp:131-154 | one write in chunked mode in front of the bytes of later ones is decoded to its data; an empty write adds no chunk |
| HttpResponses.BodyPartBytes | QtWebApp/httpserver/httpresponse.cpp:128-154 | the bytes of one write: verbatim, or the size in hexadecimal digits, a line break, the data and a line break; nothing for an empty write; the bytes of the last chunk |
| HttpResponses.SplitAtFirstWrite | QtWebApp/httpserver/httpresponse.cpp:102-126 | the header block is sent by the first write and by no other operation |
| HttpResponses.HeaderBlockEnds | QtWebApp/httpserver/httpresponse.cpp:48-73 | the first empty line a client finds is the end of the header block, whatever the body contains |
| HttpClients.HeadComesBack | QtWebApp/httpserver/httpresponse.cpp:48-73 | a parser of status line, header lines cut at a colon and a space, and empty line, on the block and any body: it returns the status, the text, every header with its value in order, every cookie as a Set-Cookie header behind them, and exactly the body (sections 3 and 3.1.2 of RFC 7230), for one-line texts and names without a colon |
| HttpHandlers.SetBeforeWrite | QtWebApp/httpserver/httpresponse.cpp:20-46 | every header, every cookie and the status have, when the first write begins, the value the handler set last |
| HttpHandlers.SettledByFirstWrite | QtWebApp/httpserver/httpresponse.cpp:102-126 | the headers of a complete run are those at the first write and the framing of that write |
| HttpHandlers.FramingHeaders | QtWebApp/httpserver/httpresponse.cpp:104-124 | the last part as first write adds a Content-Length, another first write the chunked coding unless the connection header says close, and neither touches the connection header |
| HttpKeepAlive.Answer | QtWebApp/httpserver/httpconnectionhandler.cpp:329-403 | for every handler: the socket gets the response, finished if the handler did not, and the connection is closed if and only if the request wants that or has version 1.0, or the handler has set Connection last to close before its first write, or, spelled connection, to close in front of a first write that is not the last part, without a framing header of its own |
| HttpKeepAlive.ClosesExactly | QtWebApp/httpserver/httpconnectionhandler.cpp:367-391 | the same condition, on request and operations of the handler alone, is when the headers of the finished response do not keep the connection open |
| HttpKeepAlive.FinishedIsOneMoreWrite | QtWebApp/httpserver/httpconnectionhandler.cpp:359-363 | finishing for a handler that has not sent its last part is one more empty last write |
| HttpKeepAlive.CompleteRun | QtWebApp/httpserver/httpresponse.cpp:98-158 | a complete run sends one header block, whose headers frame exactly the data written, in each of the three framings |
| HttpKeepAlive.KeptOpenIsSelfDelimiting | QtWebApp/httpserver/httpconnectionhandler.cpp:367-403 | whatever a handler writes (nothing, a part before an exception, many parts), if it sets no framing headers and the connection stays open, then the headers frame exactly the data without the connection being closed (rules 3 to 7 of section 3.3.3 of RFC 7230) |
| HttpKeepAlive.ClientReadsExactly | QtWebApp/httpserver/httpconnectionhandler.cpp:367-403 | on a connection that stays open a client reads exactly the data and stops before the next response, if and only if request method and status allow a body (rules 1 and 2 of that section) or no byte of one was sent |
| HttpAnswers.HeadOnTheWire | QtWebApp/httpserver/httpconnectionhandler.cpp:329-403 | what a client reads from the bytes of a response, whatever follows: the status, headers and cookies that the handler set last before its first write, close as Connection if the request wanted it, and a body that those headers frame; it is empty exactly if no data and no chunk was sent |
| HttpAnswers.AnswerOnTheWire | QtWebApp/httpserver/httpconnectionhandler.cpp:329-403 | for every handler with one-line texts that leaves the framing to the library: a client that parses the bytes of the response reads exactly the data written and stops exactly at its end, whatever follows on an open connection, if and only if method and status allow a body or no byte of one was sent (section 3.3.3 of RFC 7230) |
| HttpConversations.ServedInTurn | QtWebApp/httpserver/httpconnectionhandler.cpp:284-408 | what is sent for any stream of requests is read in turn as the bodies the handler wrote for the dispatched ones, and nothing is sent behind an answer that closes |
| HttpConversations.ClientGetsAnswers | QtWebApp/httpserver/httpconnectionhandler.cpp:284-408 | a connection from end to end: for every stream of well-formed requests in pieces that divide no line break, a client that reads one response for each dispatched request gets exactly what the handler wrote for it, in order, and has then read everything sent, whether the connection is open, closed after an answer, or refused |
| HttpConversations.RefusalIsRead | QtWebApp/httpserver/httpconnectionhandler.cpp:312-321 | what a client reads behind the answers when a request is too large: status 413, its text, Connection close, and the message |
| HttpKeepAlive.NoContentWithBody | QtWebApp/httpserver/httpresponse.cpp:98-158 | a body sent with status 204: the connection stays open and the client takes the body for the next response |
| HttpMultiPart.ParseMultiPartFile | QtWebApp/httpserver/httprequest.cpp:404-521 | the three loops over the lines of the file read its parts one after the other |
| HttpMultiPart.DelimiterIsNotClosing | QtWebApp/httpserver/httprequest.cpp:483-486 | a delimiter line is taken for the closing one if and only if the boundary is made of dashes |
| HttpMultiPart.NothingWithoutDelimiter | QtWebApp/httpserver/httprequest.cpp:452-500 | where the delimiter does not occur nothing is delivered, whatever heads and values there are |
| HttpMultiPart.EncodedWords | QtWebApp/httpserver/httprequest.cpp:404-521 | the body of one field or file as a client sends it, word by word, to which the round trips refer (section 4.2 of RFC 7578) |
| HttpMultiPart.MultiPartRoundTrip | QtWebApp/httpserver/httprequest.cpp:404-521 | encoded form fields and files come back: names, values, file names and contents, in order, for all values and contents without the delimiter, line breaks and lines over 65536 bytes included (section 4.1 of RFC 7578, section 5.1.1 of RFC 2046) |
| HttpMultiPart.FileNameIsFound | QtWebApp/httpserver/httprequest.cpp:423-434 | the file name of a head line is found, and none when there is none, even if the name of the field looks like one |
| HttpMultiPart.NameEatsFileName | QtWebApp/httpserver/httprequest.cpp:429-434 | the text that is taken for the file name of a field whose name ends like the key of a file name |
| HttpMultiPart.FileNameExactly | QtWebApp/httpserver/httprequest.cpp:423-434 | a file name comes back if and only if the name of its field does not end like the key of a file name, or the file name is the very text found instead |
| HttpMultiPart.RoundTripExactly | QtWebApp/httpserver/httprequest.cpp:483-486 | two or more fields come back if and only if the boundary is not made of dashes alone |
| HttpLongLines.FormFieldsExactly | QtWebApp/httpserver/httprequest.cpp:404-521 | form fields without further header lines come back if and only if each head line and its line break fit into one read of 65536 bytes and, for two fields or more, the boundary is not made of dashes; the names may have any length |
| HttpLongLines.LineBreakInValue | QtWebApp/httpserver/httprequest.cpp:416-449 | a field whose line break is cut by the read comes back with a line break in front of its value |
| HttpLongLines.LongPart | QtWebApp/httpserver/httprequest.cpp:416-449 | a field whose name does not fit into the first read is lost, and nothing behind it is read in another way, whatever its name contains |
| HttpBodies.UploadDelivered | QtWebApp/httpserver/httprequest.cpp:98-210 | a multipart request whose head arrives with the first of any pieces of its body: the right parameters and files are dispatched if and only if the body is smaller than maxMultiPartSize and the head and the form fields are within it; otherwise the request is refused |
| HttpBodies.UploadedFields | QtWebApp/httpserver/httprequest.cpp:290-317 | what is dispatched for an upload: the form fields, file names and files in order, and the parameters of the URL |
| HttpBodies.BoundaryIsFound | QtWebApp/httpserver/httprequest.cpp:105-117 | the boundary is found with and without quotes |
| HttpBodies.ChunksAreNextRequest | QtWebApp/httpserver/httprequest.cpp:118-129 | the coding of a request body is ignored: a chunked request is dispatched with an empty body, and its first chunk is read as the next request line and refused |
| HttpForm.UrlDecode | QtWebApp/httpserver/httprequest.cpp:385-401 | the loop that edits the buffer it searches equals one pass from left to right: an escape is read from the source, never from decoded text |
| HttpForm.DecodedEncoded | QtWebApp/httpserver/httprequest.cpp:385-401 | decoding takes back percent-encoding, for all bytes and whatever harmless characters the encoder leaves (section 2.1 of RFC 3986) |
| HttpForm.PlusIsSpace | QtWebApp/httpserver/httprequest.cpp:388 | a plus sign is decoded to a space, and every other character but the percent sign to itself |
| HttpForm.PercentStays | QtWebApp/httpserver/httprequest.cpp:391-398 | a percent sign that no number follows stays, and what follows it is decoded on its own |
| HttpForm.PercentIsByte | QtWebApp/httpserver/httprequest.cpp:389-399 | a percent sign and two hexadecimal digits of either case are decoded to the byte they spell, the high digit first |
| HttpForm.Separators | QtWebApp/httpserver/httprequest.cpp:212-256 | the question mark in front of the query, the ampersand between parameters, the equals sign in front of a value, and the content type with which the body is a form |
| HttpForm.ParametersOfAppended | QtWebApp/httpserver/httprequest.cpp:241-255 | the parameters of a list of parts are those of each part, in order |
| HttpForm.FormInFront | QtWebApp/httpserver/httprequest.cpp:227-255 | a form in front of other raw parameters gives its pairs, then theirs |
| HttpForm.FormRoundTrip | QtWebApp/httpserver/httprequest.cpp:212-256 | pairs encoded in the URL, in the body, or split across both come back exactly and in order; those of the body exactly when the content type is missing or that of a form |
| HttpCookies.SplitCSV | QtWebApp/httpserver/httpcookie.cpp:218-263 | the loop cuts at semicolons outside quotes, drops the quotes, trims, and leaves out empty parts |
| HttpCookies.QuotedText | QtWebApp/httpserver/httpcookie.cpp:218-263 | a text in quotes stands for itself without them, semicolons included; outside quotes a semicolon separates |
| HttpCookies.HttpCookie.constructor | QtWebApp/httpserver/httpcookie.cpp:30-95 | the fields set from the parts, in order |
| HttpCookies.HttpCookie.ToByteArray | QtWebApp/httpserver/httpcookie.cpp:97-132 | the printed form, as PrintedWords spells it |
| HttpCookies.PrintedWords | QtWebApp/httpserver/httpcookie.cpp:97-132 | name, equals sign and value, and each attribute that is set behind a semicolon and a space, in its word and order; the version always |
| HttpCookies.SplitJoined | QtWebApp/httpserver/httpcookie.cpp:218-263 | splitting takes back joining, for all parts that are trimmed and free of quotes and semicolons |
| HttpCookies.CookieComesBack | QtWebApp/httpserver/httpcookie.cpp:30-131 | a cookie whose name is no attribute comes back with name, value, comment, domain, path, version and every maximum age, negative ones included; its flags only if the library returns the whole text in front of position -1 |
| HttpCookies.FirstNameStays | QtWebApp/httpserver/httpcookie.cpp:80-93 | the first part that is no attribute names the cookie, and no later part changes its name or value |
| HttpCookies.KeywordNameIsLost | QtWebApp/httpserver/httpcookie.cpp:55-87 | a cookie named like an attribute loses its name |
| HttpCookies.CookieRoundTrip | QtWebApp/httpserver/httpcookie.cpp:30-131 | exactly which cookies come back unchanged |
| HttpCookies.SecureIsLost | QtWebApp/httpserver/httpcookie.cpp:42-46 | a secure cookie that comes back insecure, because a part without = gets an empty name |
| HttpRequests.HttpRequest.DecodeRequestParams | QtWebApp/httpserver/httprequest.cpp:212-256 | the parameters of URL and body are added to those there are, and the path loses its query |
| HttpRequests.HttpRequest.ExtractCookies | QtWebApp/httpserver/httprequest.cpp:258-288 | the cookies of all cookie headers, the last header first |
| HttpRequests.HttpRequest.ReadFromSocket | QtWebApp/httpserver/httprequest.cpp:290-317 | one call is one step of the specification, and takes its bytes from the socket |
| HttpRequestCookies.CookieHeaderRoundTrip | QtWebApp/httpserver/httprequest.cpp:258-288 | every name in a cookie header gets the value it is given last there, and no other cookie is touched |
| HttpRequestCookies.FirstHeaderWins | QtWebApp/httpserver/httprequest.cpp:258-288 | of two cookie headers the first one has the last word on a name in both |
| HttpLimits.StepKeepsPending | QtWebApp/httpserver/httprequest.cpp:290-317 | a step leaves a request that is final or waits with an incomplete line |
| HttpLimits.Progress | QtWebApp/httpserver/httprequest.cpp:290-317 | a step on available bytes takes at least one of them, if and only if the request does not wait for a body of negative length |
| HttpLimits.RunsMakeProgress | QtWebApp/httpserver/httprequest.cpp:290-317 | the same for the request that any bytes, arrived in any pieces, have led to |
| HttpLimits.StepKeepsAnnounced | QtWebApp/httpserver/httprequest.cpp:119-165 | a body is awaited only with an announced length, and with a positive one less than that has been received |
| HttpLimits.LineLimitIsPositive | QtWebApp/httpserver/httprequest.cpp:29-31 | the limit of each line is at least 1, so never the 0 that means no limit, and within what is left |
| HttpLimits.StepIsBounded | QtWebApp/httpserver/httprequest.cpp:118-145 | every step keeps the bounds on what has been consumed |
| HttpLimits.SizeBound | QtWebApp/httpserver/httprequest.cpp:24-210 | for every input, delivered in any pieces: a request without multipart body takes at most maxSize + 1 bytes, and the temporary file of a multipart body is never larger than announced, which is at most maxMultiPartSize |
| HttpConnections.HttpConnectionHandler.Collect | QtWebApp/httpserver/httpconnectionhandler.cpp:299-310 | the inner loop ends, with a final request or nothing left to read |
| HttpConnections.HttpConnectionHandler.ReadHttp | QtWebApp/httpserver/httpconnectionhandler.cpp:284-408 | the loops end, with requests dispatched, bytes sent and request in progress as the recursive reading of the arrived bytes says |
| HttpMessages.RequestLineExactly | QtWebApp/httpserver/httprequest.cpp:39-56 | a line other than the empty one is taken for a request line exactly if two spaces cut it into three words and the third contains HTTP; any other ends the request, and an empty one is skipped |
| HttpMessages.LineParsed | QtWebApp/httpserver/httprequest.cpp:24-147 | each line of a well-formed request takes the parser to the state in front of the next one |
| HttpMessages.ContinuationLine | QtWebApp/httpserver/httprequest.cpp:89-97 | a line without a name adds a space and itself to the value of the header in front of it, and changes no other header; without one it is ignored |
| HttpMessages.FoldedHeader | QtWebApp/httpserver/httprequest.cpp:79-97 | a header on two lines has both texts as its value, with one space between them, and every other header stays |
| HttpPipelining.HeadRead | QtWebApp/httpserver/httprequest.cpp:29-40 | reading within the head: a whole line, a part of one, or abort, decided by the size as the code accounts it |
| HttpPipelining.FoldedHeaderIsRead | QtWebApp/httpserver/httprequest.cpp:65-97 | the same from the bytes of the stream: two steps take exactly the two lines |
| HttpPipelining.BodyRead | QtWebApp/httpserver/httprequest.cpp:158-165 | reading within the body never takes a byte behind its end |
| HttpSplitLines.SplitLineBreakEndsHead | QtWebApp/httpserver/httprequest.cpp:67-76 | a message cut inside the line break of any line: the head ends there, at the carriage return of the empty line, or at the line feed alone, which is taken for an empty line |
| HttpSplitLines.SplitLineBreakGivesBody | QtWebApp/httpserver/httprequest.cpp:98-165 | a head that ends behind the last header takes the following bytes, as many as announced, for the body |
| HttpSplitLines.SplitLineBreakExactly | QtWebApp/httpserver/httprequest.cpp:67-165 | where the cut lies exactly when all headers and the right body are read, and that then the right request is dispatched and exactly the bytes behind it are left |
| HttpSplitLines.SplitDispatchesExactly | QtWebApp/httpserver/httprequest.cpp:67-165 | the right request is dispatched for a message cut inside a line break if and only if the cut lies behind the last header and the body is empty or made of the line breaks that are left; the headers behind the cut must not be cookies alone, the only ones whose loss might not show |
| HttpPipelineRuns.CutCostIs | QtWebApp/httpserver/httprequest.cpp:65-66 | a piece that ends inside a line costs what the line buffer then holds |
| HttpPipelineRuns.StepAt | QtWebApp/httpserver/httprequest.cpp:290-317 | every step stays in line with the message, completes it at its last byte, or aborts because its charge is over the limit |
| HttpPipelineRuns.RunPiece | QtWebApp/httpserver/httpconnectionhandler.cpp:284-408 | reading one piece completes, in order, exactly the requests that end in it |
| HttpPipelineRuns.Pipelining | QtWebApp/httpserver/httpconnectionhandler.cpp:284-408 | however a stream of well-formed requests is cut, as long as no piece ends inside a line break, reading the pieces equals serving the requests one after the other; each is dispatched or refused by its exact charge |
| HttpPipelineRuns.ServedInOrder | QtWebApp/httpserver/httpconnectionhandler.cpp:323-406 | keep-alive requests are dispatched in order until one is too large |
| HttpPipelineRuns.DispatchedExactly | QtWebApp/httpserver/httpconnectionhandler.cpp:284-408 | with a handler that keeps connections open, exactly the requests of the stream are dispatched if and only if each charge is within the limit; otherwise the first ones, and the connection is refused |
| HttpPipelineRuns.RequestOfMessage | QtWebApp/httpserver/httprequest.cpp:50-55 | a dispatched request has the words, headers, body and parameters of its message |
| HttpPipelineRuns.LinesCostNothing | QtWebApp/httpserver/httprequest.cpp:65-66 | pieces that end where lines end add nothing to the charge |
| FileLoggers.RunExists | QtWebApp/logging/filelogger.cpp:141-152 | counting contiguous backups ends, since there are finitely many files |
| FileLoggers.ShiftMoves | QtWebApp/logging/filelogger.cpp:161-164 | renaming from the last to the first moves each backup to the next number and touches nothing else |
| FileLoggers.FileLogger.CountBackups | QtWebApp/logging/filelogger.cpp:139-152 | the number of contiguous backups |
| FileLoggers.FileLogger.RemoveOldest | QtWebApp/logging/filelogger.cpp:154-159 | exactly the oldest backups that exceed the maximum are removed |
| FileLoggers.FileLogger.ShiftBackups | QtWebApp/logging/filelogger.cpp:161-164 | the shift, and no rename has a file in its way |
| FileLoggers.FileLogger.Rotate | QtWebApp/logging/filelogger.cpp:138-168 | for every file system and every maximum: the log gets the suffix .1 as backup 1, each surviving backup i becomes i + 1, only the oldest contiguous ones are lost, all other files are untouched, and no rename targets an existing file |
| FileLoggers.BackupsAfter | QtWebApp/logging/filelogger.cpp:138-168 | the exact number of contiguous backups afterwards, with or without a log |
| FileLoggers.WithinMaximum | QtWebApp/logging/filelogger.cpp:154-159 | the backups are within the maximum afterwards if and only if there was no log, the maximum was reached before, or the gap that is filled does not join them to too many others |
| FileLoggers.GaplessStays | QtWebApp/logging/filelogger.cpp:138-168 | rotation makes a gap if and only if there is no log but a backup that is kept; otherwise the backups stay gapless and within any maximum, changed or not |
| FileLoggers.GapExceedsMaximum | QtWebApp/logging/filelogger.cpp:154-167 | backups 1 and 3 with a maximum of 2 become three backups |
| HttpSessions.HttpSession.Copy | QtWebApp/httpserver/httpsession.cpp:30-42 | a copy adds one handle, and counts still agree |
| HttpSessions.HttpSession.Assign | QtWebApp/httpserver/httpsession.cpp:44-73 | assignment, to itself and of null sessions included, keeps the agreement and deletes nothing |
| HttpSessions.HttpSession.Destroy | QtWebApp/httpserver/httpsession.cpp:75-91 | the agreement is kept, and the data is deleted exactly when this was the last handle |
| HttpSessions.Run | QtWebApp/httpserver/httpsession.cpp:12-91 | over every sequence of creation, copy, assignment and destruction each count equals the number of live handles, data is deleted at most once and never while a handle points to it |
| HttpSessions.AssignOverLast | QtWebApp/httpserver/httpsession.cpp:62-70 | assigning over the last handle leaves its data with count 0 and not deleted |

## Left out

- Sockets beyond arriving bytes and partial writes: TLS, proxies, timers, threads and signals are not modelled; a read that fails with -1 although bytes are available (qwebsocketframe.cpp:377-381, 406-410, 442-446, 469-474) is not.
- The WebSocket handshake: library string and URL handling with easier claims than the frames.
- UTF-8 itself: the decoder is any function for which decoding in pieces is decoding in one, invalid characters are not forgotten, and a text has no more code units than bytes (`IsStreamDecoder`).
- WebSocketSender.Sender.Close: the closing of the TCP socket behind the close frame and what an application does from `aboutToClose` are not modelled.
- WebSocketClose.BothEndsAgree: one application closes (when both do at once the ends may hold different codes, each its own); applications send binary messages only; each read sees all bytes on the way, so a time-out inside a frame, on which the reader closes with 1001, is in no run.
- TemplateEngine.Template.Rewrite: text with an opening brace outside a tag, and tag contents with braces, are outside the token lists on which the methods are stated; balance is a precondition, because the code does not end without it.
- TemplateEngine.Template.SetCondition: as Rewrite.
- TemplateEngine.Template.SetVariable: as Rewrite, but for balance.
- TemplateEngine.Template.Loop: as Rewrite.
- TemplateTermination.LoopEndsExactly: for a construct nested in itself only one direction; there the outcome also depends on which part is taken.
- Templates: file loading, the cache and the warnings.
- HttpRequests.HttpRequest.ReadFromSocket: sizes are unbounded integers; the overflow of a 32-bit sum for a huge Content-Length is not modelled, nor are errors of the temporary file.
- HttpMultiPart.MultiPartRoundTrip: files and fields with a further header line whose head line does not fit into one read; for form fields FormFieldsExactly covers them.
- HttpMultiPart.RoundTripExactly: as MultiPartRoundTrip.
- HttpMultiPart.ParseMultiPartFile: a file part whose boundary follows its head directly, where the code uses a file object it has not created; uploads are lists of names and contents.
- HttpConnections.HttpConnectionHandler.ReadHttp: closing discards unread bytes at once, as it does when nothing is waiting to be written; timers and the switch to WebSocket are not modelled. The request handler respects the assertions of the response object.
- HttpPipelineRuns.Pipelining: requests with continued header lines, multipart bodies or chunked bodies are parsed by the model but not part of the stream (see FoldedHeaderIsRead, UploadDelivered and ChunksAreNextRequest); pieces that divide a line break are not, either, also the harmless ones of SplitLineBreakExactly.
- HttpPipelineRuns.DispatchedExactly: as Pipelining.
- HttpSplitLines.SplitLineBreakExactly: one message and one cut; what becomes of the bytes behind a head that ended too early is not followed.
- HttpKeepAlive.ClientReadsExactly: the client finds headers by name in the list that was printed, for any texts; AnswerOnTheWire is the same on the bytes, for one-line texts.
- HttpAnswers.AnswerOnTheWire: texts with line breaks, with which a handler writes header lines of its own, and handlers that set framing headers themselves.
- HttpConversations.ClientGetsAnswers: as Pipelining for the requests and AnswerOnTheWire for the handler.
- FileLoggers.FileLogger.Rotate: removals and renames that fail for lack of permission, and log names with a percent sign, which the file name templates would expand.
- HttpSessions.Run: steps are atomic; concurrent handles, the stored values and the session store are not modelled. Freedom from leaks is not claimed: AssignOverLast shows one.
- Static files, request mapping, MIME types, settings, the service wrapper and the demos: one-branch or input/output code.
