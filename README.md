# Screenshot OCR tool: a Dafny model of its core

This project models the core logic of a screenshot OCR tool. The tool has two
front ends and several text-recognition backends:

- **The Rust/egui app** (`src/main.rs`):
  - the user drags a selection rectangle over a screenshot, with four corner handles;
  - Tesseract's TSV output is filtered into words;
  - an AI job streams its answer back over a channel, into a results text.
- **The C++/Wayland app** (`captura-cpp/src/captura.cpp`):
  - the same selection, plus moving the selection, a minimum size and a pop-up menu of actions;
  - the conversion of screen buffers of several pixel formats to 32-bit ARGB;
  - the choice of a free buffer.
- **The PaddleOCR socket protocol.** Every message is an 8-byte big-endian length followed by that many bytes.
  - Client side: the C++ client (`captura-cpp/src/ocr/PaddleOCR.cpp`) and the Rust client (`src/paddle_client.rs`), including how each turns the JSON reply into results.
  - Server side: the two Python servers (`servidorOcr/ocr_server.py`, `servidorOcr/server.py`), including `recvall` and the connection loop.
- **The AI clients.**
  - The Ollama streaming client (`src/ollama.rs` and its earlier version `v1/src/ollama.rs`): chunks are forwarded in order, forwarding stops once the receiver is gone, and there is at most one error message.
  - The Gemini client (`src/gemini.rs`): a fixed request shape, and exactly one message on every path.

## How the model is built

- **Modules.** There is one module per component, and each Dafny file holds one module.
  - Shared pieces: `Common`, `Geometry` (egui's `Rect`), `Text` (Rust's `split`, `lines` and `trim`), `Utf8`, `Wire` (u64 big-endian frames) and `Json`.
  - The channel is `Channels`. It is a class with a FIFO queue and flags for a dropped sender and a dropped receiver.
  - The socket is `Sockets`. It is a class whose inbound side is a sequence of received segments, each either data or a reset.
- **Imperative code stays imperative.** The selection state machines are classes whose methods update the same fields as the source: `ScreenshotApp.App` and `Captura.Captura`. Each method is proved against a function that specifies it.
  - The pixel conversions work in place on an `array`, or fill a new one, with nested row and pixel loops.
  - The receive loops (`recvall`, the C++ `received` loop) and the connection and accept loops of the servers are `while` loops.
  - The Ollama forwarding loop is a `while` loop too.
  - Each of these loops is proved against a function that specifies it.
- **Pure code stays pure.** Gemini's request construction and response handling are functions. So are rectangle normalization, the Tesseract row filter and the JSON readers.
- **Foreign code becomes parameters.** Code the model cannot see is a function parameter:
  - f32 parsing;
  - PNG and base64 encoding;
  - JSON text parsing and dumping;
  - `cv2.imdecode`;
  - the OCR engines;
  - the HTTP transport.
- **Numbers.** Coordinates are reals, and "distance < r" is compared as squared distance < r². The 10-bit pixel conversion (`std::round(255 v / 1023)`) is modelled exactly with integers as `(510 v + 1023) / 2046`, which never meets a tie.

## Model

| member | source | states |
|---|---|---|
| Geometry.Normalized | src/main.rs:22-28 | the result has min ≤ max on both axes |
| Geometry.NormalizedKeepsValues | src/main.rs:22-28 | normalizing keeps the two x values and the two y values (as multisets) |
| Geometry.NormalFormUnique | src/main.rs:22-28 | two normalized rectangles with the same coordinate values are equal, so normalizing has one possible result |
| Geometry.NormalizedIdempotent | src/main.rs:22-28 | normalizing twice is normalizing once |
| Geometry.NormalizedFixesNormal | src/main.rs:22-28 | an already-normalized rectangle is left as it is |
| Geometry.FromTwoPos | src/main.rs:267 | `from_two_pos` gives a normalized rectangle |
| Geometry.FromTwoPosSpans | src/main.rs:267-280 | the rectangle's x values are exactly the two points' x values, and likewise for y |
| Text.TrimStartSpec | src/main.rs:198-199 | `trim_start` drops exactly the leading whitespace: what remains is a suffix that starts with a non-space |
| Text.TrimEndSpec | src/main.rs:198-199 | `trim_end` drops exactly the trailing whitespace |
| Text.TrimShape | src/main.rs:198-199 | `trim` gives a slice of the input with no whitespace at either end |
| Text.TrimEmptyIff | src/main.rs:198 | the trimmed text is empty exactly when every character is whitespace |
| Text.Split | src/main.rs:188 | `split('\t')` gives at least one part, and no part holds a tab |
| Text.JoinSplit | src/main.rs:188 | joining the parts with the separator gives back the line |
| Text.SplitCount | src/main.rs:188 | the number of parts is the number of separators plus one |
| Text.CountJoin | src/main.rs:188 | parts without the separator, joined, hold one separator fewer than there are parts |
| Text.Lines | src/main.rs:187 | no line produced by `lines()` holds a newline |
| Text.LinesTerminated | src/main.rs:187 | `lines()` of newline-terminated plain lines gives back those lines |
| Utf8.CharLen | src/paddle_client.rs:80 | the length of the well-formed sequence at the start is at most four and fits in the input |
| Utf8.EncodeChar | servidorOcr/ocr_server.py:208 | a character encodes to as many bytes as its width |
| Utf8.EncodeLength | servidorOcr/ocr_server.py:208-210 | the encoded length is the sum of the widths |
| Utf8.EncodedLengthBound | servidorOcr/ocr_server.py:208-210 | a text of n characters encodes to between n and 4n bytes |
| Utf8.EncodeCharWellFormed | servidorOcr/ocr_server.py:208 | an encoded character is read back as one well-formed sequence of its own length |
| Utf8.EncodeValid | src/paddle_client.rs:80 | what the server encodes always passes the client's `from_utf8` check |
| Wire.EncodeBE | servidorOcr/ocr_server.py:210 | the big-endian encoding has the requested width |
| Wire.DecodeBE | servidorOcr/ocr_server.py:186 | a decoded value is below 256^width |
| Wire.DecodeEncode | src/paddle_client.rs:61-69 | decoding the big-endian encoding of a value that fits gives the value back |
| Wire.EncodeDecode | src/paddle_client.rs:67-69 | encoding a decoded header gives the header bytes back |
| Wire.Header | servidorOcr/ocr_server.py:210 | a `>Q` header is 8 bytes that decode to the length |
| Wire.Frame | servidorOcr/ocr_server.py:208-214 | a frame is 8 bytes plus the payload, and the payload follows the header |
| Wire.UnframeFrame | servidorOcr/ocr_server.py:180-187 | reading a frame from a stream gives the payload and leaves the rest of the stream |
| Channels.Channel.constructor | src/main.rs:135 | a new channel is empty, with both ends held |
| Channels.Channel.Send | src/ollama.rs:36 | `send` fails exactly when the receiver is gone; otherwise it appends to the queue |
| Channels.Channel.TryRecv | src/main.rs:159 | `try_recv` takes the oldest message; on an empty queue it reports `Disconnected` exactly when the sender is gone, and `Empty` otherwise |
| Channels.Channel.DropSender | src/ollama.rs:59 | dropping the sender keeps the queued messages |
| Channels.Channel.DropReceiver | src/main.rs:161 | dropping the receiver discards the queue, and later sends fail |
| Sockets.ReadExactly | servidorOcr/ocr_server.py:144-152 | a full read has exactly n bytes |
| Sockets.AvailAfterRead | servidorOcr/ocr_server.py:144-152 | after reading n bytes, the bytes still available are the old ones without the first n |
| Sockets.Socket.constructor | servidorOcr/ocr_server.py:175 | an accepted connection has its inbound data, nothing sent yet, and is open |
| Sockets.Socket.Recv | servidorOcr/ocr_server.py:148 | `recv(max)` returns at most `max` bytes of the current segment, `b''` at end of stream, and an error on a reset |
| Sockets.Socket.Send | servidorOcr/ocr_server.py:212-214 | `sendall` appends all the bytes or fails, and fails exactly when the peer does not read |
| Sockets.Socket.SendFrame | servidorOcr/ocr_server.py:208-214 | header and body go out together as one frame |
| Sockets.Socket.Close | servidorOcr/ocr_server.py:218-219 | the connection ends up closed |
| Sockets.Socket.RecvAll | servidorOcr/ocr_server.py:144-152 | `recvall(n)` returns exactly the next n bytes in arrival order, or `None` as soon as a `recv` returns empty, and consumes what it read; the `OverflowError` of Python's `recv` for n of 2^63 or more is stated where the servers call it, by `SocketServer.ReadRequest` |
| Sockets.Socket.Pull | servidorOcr/ocr_server.py:147-151 | one pass of the `recvall` loop makes progress and keeps the bytes read a prefix of the stream |
| SocketServer.ShortNotTooLong | servidorOcr/ocr_server.py:210 | any reply shorter than 2^62 characters fits a `>Q` header |
| SocketServer.FramedAppend | servidorOcr/ocr_server.py:208-214 | the bytes sent for two runs of replies are the bytes of each run, in order |
| SocketServer.TakeTurn | servidorOcr/ocr_server.py:179-214 | a turn that goes on consumes a header and a non-empty payload from the stream; a header announcing 2^63 bytes or more ends the session in an exception; `OversizedHeaderCrashes` states it |
| SocketServer.Served | servidorOcr/ocr_server.py:179-214 | the session the request loop has with one connection: the replies to each framed request, in order, up to the first incomplete or empty request, an exception (from the handler, from framing the reply, or from `recvall` for a header announcing 2^63 bytes or more), or a peer that does not read; `ServedFrame`, `Conversation`, `ServedRequests` and `OversizedHeaderCrashes` state it |
| SocketServer.ServedFrame | servidorOcr/ocr_server.py:179-214 | a framed request is answered with its reply and the loop continues; a request of 2^63 bytes or more, an exception or an unframeable reply ends the connection in an exception with nothing sent |
| SocketServer.Conversation | servidorOcr/ocr_server.py:179-214 | there are never more replies than requests, and one reply per request unless an exception escaped; a request of 2^63 bytes or more raises before it is handled |
| SocketServer.ServedRequests | servidorOcr/ocr_server.py:179-214 | serving a stream of framed requests is the request-by-request conversation |
| SocketServer.OversizedHeaderCrashes | servidorOcr/ocr_server.py:144-152 | a header announcing from 2^63 to 2^64 - 1 bytes ends the connection in an exception, with nothing sent, whatever follows it |
| SocketServer.OversizedHeaderStopsServer | servidorOcr/ocr_server.py:174-219 | such a header also ends the server: the client that sent it is the last one served |
| SocketServer.AllOnesHeaderStopsServer | servidorOcr/ocr_server.py:174-219 | eight 0xFF bytes as a header stop the server, whatever follows and whoever comes later |
| SocketServer.Serve | servidorOcr/ocr_server.py:176-219 | a connection sends exactly the framed replies of its session and is then closed |
| SocketServer.Exchanges | servidorOcr/ocr_server.py:179-214 | the request loop sends the framed replies of the session and reports whether an exception escaped, including the `OverflowError` of a header announcing 2^63 bytes or more |
| SocketServer.Round | servidorOcr/ocr_server.py:179-214 | one pass of the request loop keeps the sent bytes equal to the frames of the replies so far and consumes input |
| SocketServer.Exchange | servidorOcr/ocr_server.py:180-214 | one exchange consumes one request and sends one framed reply, or stops with nothing sent; a header announcing 2^63 bytes or more stops it with an exception |
| SocketServer.ReadRequest | servidorOcr/ocr_server.py:180-190 | a request is read when a header and a non-empty payload of that length are there; a missing header, a zero length or a missing payload ends the loop; a length of 2^63 or more is `Overflow`, the `OverflowError` of `recv` |
| SocketServer.SendReply | servidorOcr/ocr_server.py:208-214 | the reply goes out framed exactly when the peer reads |
| SocketServer.Lifetime | servidorOcr/ocr_server.py:174-219 | the server serves clients one at a time, one session each, until the first uncaught exception, such as a header announcing 2^63 bytes or more; `LifetimeShape` and `OversizedHeaderStopsServer` state it |
| SocketServer.LifetimeShape | servidorOcr/ocr_server.py:174-219 | every session but the last ends without an exception; if clients go unserved, the last session crashed |
| SocketServer.AcceptLoop | servidorOcr/ocr_server.py:174-219 | the accept loop serves the connections in order with the state carried from one to the next, stops after a crash (the oversized header among them), and leaves later connections untouched |
| SocketServer.AcceptRun | servidorOcr/ocr_server.py:174-219 | the accept loop's invariant: the sessions served so far are a prefix of the lifetime |
| SocketServer.AcceptOne | servidorOcr/ocr_server.py:175-219 | serving the i-th connection produces the i-th session of the lifetime |
| SocketServer.AcceptStep | servidorOcr/ocr_server.py:174-219 | the i-th session is the one served from the state the previous session left |
| Ocr.JoinedTextAppend | captura-cpp/src/captura.cpp:591-592 | the text shown for two runs of results is the texts of each, in order |
| Ocr.JoinedTextLength | captura-cpp/src/captura.cpp:591-592 | the text shown has one space per result besides the results' text |
| TesseractTsv.RowWord | src/main.rs:188-209 | a kept word has confidence above 50 and a non-blank text without tabs |
| TesseractTsv.RowTextIsLastColumn | src/main.rs:188-197 | the kept text is the line after its eleventh tab |
| TesseractTsv.RowKeptIff | src/main.rs:189-198 | a row is kept exactly when it has 12 columns, columns 6-10 parse, the confidence is above 50, and the text is not blank |
| TesseractTsv.Words | src/main.rs:187-211 | the words come from the rows, at most one each, all with confidence above 50 and non-blank text |
| TesseractTsv.WordsAppend | src/main.rs:187-211 | filtering runs row by row, so the words of two runs are the words of each, in order |
| TesseractTsv.DataRows | src/main.rs:187 | the data rows are all lines but the first |
| TesseractTsv.HeaderSkipped | src/main.rs:187 | the header line never produces a word |
| TesseractTsv.ResultsText | src/main.rs:199 | each kept word's trimmed text followed by one space; its properties are stated by `ResultsTextAppend` and `ResultsTextShape` |
| TesseractTsv.ResultsTextAppend | src/main.rs:199 | the results text of two runs is the text of each, in order |
| TesseractTsv.ResultsTextShape | src/main.rs:198-199 | the results text is empty only with no words, ends in a space and starts with a non-space |
| ScreenshotApp.Opposite | src/main.rs:270-281 | each corner handle has a different, opposite handle |
| ScreenshotApp.PressMode | src/main.rs:236-259 | the first corner within radius 8, in the order TL, TR, BL, BR, selects its resize mode; otherwise the mode is Creating |
| ScreenshotApp.HandleDragKeepsAnchor | src/main.rs:270-281 | dragging a corner moves that corner to the cursor and keeps the opposite corner fixed, as long as the cursor stays on the handle's side of that anchor (`OnHandleSide`); past it, `from_two_pos` reorders the corners |
| ScreenshotApp.RoundU32 | src/main.rs:109-112 | `round() as u32` is below 2^32 and is the nearest integer when in range |
| ScreenshotApp.RoundU32Zero | src/main.rs:111-116 | a rounded size is 0 exactly when it is below one half |
| ScreenshotApp.CropOf | src/main.rs:107-116 | the crop is empty in a direction exactly when the normalized selection is under half a pixel in that direction |
| ScreenshotApp.Dragged | src/main.rs:262-285 | the selection a drag rebuilds: from the start point in Creating mode, from the opposite corner in a resize mode; its properties are stated by `HandleDragKeepsAnchor` and `App.OnDrag` |
| ScreenshotApp.Absorb | src/main.rs:153-158 | the results text after polling a run of chunks, each clearing the placeholder first; its properties are stated by `AbsorbAppend`, `AbsorbConcat` and `AbsorbFromPlaceholder` |
| ScreenshotApp.AbsorbAppend | src/main.rs:153-158 | absorbing chunks in two runs is absorbing them all, in FIFO order |
| ScreenshotApp.AbsorbConcat | src/main.rs:153-158 | when the text never equals the placeholder, polling only appends the chunks |
| ScreenshotApp.AbsorbFromPlaceholder | src/main.rs:153-158 | starting from the placeholder, the chunks replace it |
| ScreenshotApp.App.constructor | src/main.rs:86-100 | the app starts with no selection, no drag, no results and no job |
| ScreenshotApp.App.OnPointerDown | src/main.rs:236-260 | a press acts only when not dragging: a handle press keeps the selection, and any other press starts a zero-size selection at the cursor and clears the words |
| ScreenshotApp.App.OnDrag | src/main.rs:262-285 | a drag rebuilds the selection from the start point (Creating) or from the opposite corner, and leaves it alone with no mode |
| ScreenshotApp.App.PerformOcr | src/main.rs:166-217 | with a non-empty crop and engine output, words and text are replaced by those of the data rows; otherwise nothing changes |
| ScreenshotApp.App.ReadWords | src/main.rs:185-211 | the words and the results text are exactly those of the rows |
| ScreenshotApp.App.OnDragStopped | src/main.rs:287-294 | drag stop keeps the normalized selection, runs OCR on it, and resets mode and start |
| ScreenshotApp.App.NormalizeSelection | src/main.rs:288-289 | normalizing the (always normalized) selection leaves it as it is |
| ScreenshotApp.App.StartImageRecognitionWithAi | src/main.rs:103-149 | a new job starts only with no job running and a non-empty crop; an encoding failure reports the error and starts none |
| ScreenshotApp.App.PollAiResultAsWritten | src/main.rs:151-164 | as written: drains the queue in order, but the `try_recv` probe also takes a chunk that arrives late |
| ScreenshotApp.App.Drain | src/main.rs:153-158 | `try_iter` absorbs every queued chunk, in order, and empties the queue |
| ScreenshotApp.App.PollAiResult | src/main.rs:151-164 | drains the queue in order into the results, and ends the job exactly when the sender is gone |
| ScreenshotApp.LateChunkLost | src/main.rs:153-162 | the chunk that arrives between draining and probing is lost as written, and kept by the corrected poll |
| ScreenshotApp.LateChunkAsWritten | src/main.rs:159-162 | as written, the text shown misses the late chunk |
| ScreenshotApp.LateChunkCorrected | src/main.rs:151-164 | the corrected poll shows every chunk |
| Captura.PressMode | captura-cpp/src/captura.cpp:873-893 | the first corner within 20, in the order TL, TR, BL, BR, selects its resize mode; otherwise a press strictly inside moves the selection, and any other press creates one |
| Captura.MenuDefs | captura-cpp/src/captura.cpp:570-631 | the menu has two to six entries and ends with Copiar and Cerrar |
| Captura.MenuDefsOffer | captura-cpp/src/captura.cpp:572-621 | each backend's button is offered exactly when that backend is built in |
| Captura.SlotsDisjoint | captura-cpp/src/captura.cpp:634-644 | no point lies in two buttons of the grid, even with inclusive bounds |
| Captura.MenuPositionAsWritten | captura-cpp/src/captura.cpp:409-414 | as written: the menu opens at the cursor, moved left by 200 when x + 200 passes the right edge and up by 300 when y + 300 passes the bottom; `MenuOverflowsAsWritten` shows it can still overflow |
| Captura.MenuOverflowsAsWritten | captura-cpp/src/captura.cpp:409-414 | as written: a menu opened near the right edge still runs past the screen |
| Captura.MenuPosition | captura-cpp/src/captura.cpp:409-414 | corrected: the menu lies within the monitor, and the vertical clamp is kept as written |
| Captura.MenuHeightBound | captura-cpp/src/captura.cpp:646-647 | the menu height bounds every drawn menu |
| Captura.CopyAsWritten | captura-cpp/src/captura.cpp:623-629 | as written: any text but the empty one and the ready notice goes to the clipboard and is replaced by "¡Texto copiado!"; `CopyTwiceCopiesNotice` shows the notice is copied on a second press |
| Captura.CopyTwiceCopiesNotice | captura-cpp/src/captura.cpp:623-629 | as written: pressing Copiar twice puts "¡Texto copiado!" on the clipboard |
| Captura.Copy | captura-cpp/src/captura.cpp:623-629 | corrected: the copied notice is not copied either; `CopyOnlyResults` states that only results reach the clipboard and a second press changes nothing |
| Captura.CopyOnlyResults | captura-cpp/src/captura.cpp:623-629 | corrected: Copiar copies only a real result, and a second press changes nothing |
| Captura.CopyTwice | captura-cpp/src/captura.cpp:623-629 | a concrete double press shows the two clipboard histories |
| Captura.Act | captura-cpp/src/captura.cpp:572-631 | as written: Cerrar records exit code 0, Copiar is `CopyAsWritten`, and a recognition button stores its backend's results and shows their texts, each followed by a space |
| Captura.ActCorrected | captura-cpp/src/captura.cpp:572-631 | corrected: `Act` with Copiar replaced by the corrected `Copy` |
| Captura.Captura.constructor | captura-cpp/src/captura.hpp:61-75 | the field defaults: no drag, no menu, no text, no pressed button |
| Captura.Captura.DrawMenu | captura-cpp/src/captura.cpp:559-700 | one button per entry, in order, in its grid slot; the pressed button is reset |
| Captura.Captura.ShowResults | captura-cpp/src/captura.cpp:590-592 | the results are stored and shown as their texts, each followed by a space |
| Captura.Captura.RunAction | captura-cpp/src/captura.cpp:572-631 | as written: running a menu action changes the outputs exactly as `Act` says, so a second Copiar copies the notice; this is the action the menu click runs |
| Captura.Captura.RunActionCorrected | captura-cpp/src/captura.cpp:572-631 | corrected: running a menu action changes the outputs exactly as `ActCorrected` says |
| Captura.Captura.CheckMenuClick | captura-cpp/src/captura.cpp:721-735 | hits the first button containing the click (bounds inclusive), runs it and records its index; with no hit, -1 and no effect |
| Captura.Captura.OnButtonPressed | captura-cpp/src/captura.cpp:721-893 | a click on a visible menu's button runs it and leaves drag, offset and selection alone; any other press hides the menu, clears the pressed mark if the menu was open (keeps it otherwise), keeps the result text, clipboard and exit code, and classifies the press |
| Captura.Captura.StartDrag | captura-cpp/src/captura.cpp:873-893 | a press sets the drag mode, and the offset (a move only) or the selection and last results (a new selection only) as classified; nothing else changes |
| Captura.Captura.OnMotion | captura-cpp/src/captura.cpp:821-861 | motion records the cursor position; each drag mode moves exactly its own coordinates, moving keeps the size, and with no drag only the position changes |
| Captura.Captura.FinishSelection | captura-cpp/src/captura.cpp:369-418 | as written: a selection under 5 in either direction changes nothing; without a buffer the app exits with 1; otherwise the crop is kept, results cleared, and the menu opens at `MenuPositionAsWritten` of the last cursor position with the ready text; this is what a release runs |
| Captura.Captura.FinishSelectionCorrected | captura-cpp/src/captura.cpp:369-418 | corrected: the same, with the menu at `MenuPosition`, which lies within the monitor |
| Captura.Captura.OnButtonReleased | captura-cpp/src/captura.cpp:894-907 | a release ends the drag with the selection normalized; without a drag nothing changes |
| Pixels.SwapRedBlueInvolution | captura-cpp/src/captura.cpp:262-279 | swapping red and blue twice is the identity, and leaves green and alpha alone |
| Pixels.UnpackPack10 | captura-cpp/src/captura.cpp:291-297 | the 2-10-10-10 fields are recovered from the packed word, which fits 32 bits |
| Pixels.Scale10 | captura-cpp/src/captura.cpp:291-293 | the 8-bit value is within half a step of 255 v / 1023 |
| Pixels.Scale10Monotone | captura-cpp/src/captura.cpp:291-293 | the scaling is monotone and maps 0 to 0 and 1023 to 255 |
| Pixels.Scale2 | captura-cpp/src/captura.cpp:294 | the 2-bit alpha scales exactly to 0, 85, 170 or 255 |
| Pixels.Down10 | captura-cpp/src/captura.cpp:280-299 | the 10-bit conversion of one pixel: each 10-bit field scaled to 8 bits, the word rewritten low, middle, high, alpha, with low and high exchanged for XBGR; `Down10Fields` states it |
| Pixels.Down10Fields | captura-cpp/src/captura.cpp:284-297 | each 8-bit channel is the scaled 10-bit field, with red and blue exchanged for XBGR |
| Pixels.Recode | captura-cpp/src/captura.cpp:258-305 | what the conversion does to one pixel of each supported format: nothing, the red-blue swap, or the 10-bit conversion; `SwapRedBlueInvolution`, `Down10Fields` and `ConvertBuffer` state it |
| Pixels.RecodePixel | captura-cpp/src/captura.cpp:258-305 | one pixel is recoded in place for its format, and nothing else changes |
| Pixels.ConvertBuffer | captura-cpp/src/captura.cpp:258-306 | every pixel of a supported 32-bit format is recoded in place; the rest of the buffer is untouched; an unsupported format leaves the buffer unchanged and is reported |
| Pixels.RecodeRow | captura-cpp/src/captura.cpp:266-278 | one row pass recodes that row and keeps the rows before it |
| Pixels.Widen | captura-cpp/src/captura.cpp:315-351 | the 32-bit pixel a 24-bit source pixel becomes; `WidenLayout` states it |
| Pixels.WidenLayout | captura-cpp/src/captura.cpp:315-351 | BGR888 becomes the red-blue swap with opaque alpha; RGB888 becomes alpha 0xFF above the three source bytes |
| Pixels.Convert24To32 | captura-cpp/src/captura.cpp:309-361 | a fresh 4-bytes-per-pixel buffer holds each pixel widened from its source bytes, addressed by stride |
| Pixels.WidenRow | captura-cpp/src/captura.cpp:316-333 | one row pass widens that row and keeps the rows before it |
| Pixels.GetBufferForLS | captura-cpp/src/captura.cpp:202-213 | the highest-index free buffer is chosen, or none when neither is free |
| PaddleCpp.HeaderCheck | captura-cpp/src/ocr/PaddleOCR.cpp:40-45 | as written, a failed `recv` passes the short-header check; the corrected check passes only a full header |
| PaddleCpp.Padded | captura-cpp/src/ocr/PaddleOCR.cpp:53-60 | the body buffer always has the announced length |
| PaddleCpp.ReplyBody | captura-cpp/src/ocr/PaddleOCR.cpp:39-60 | the body the client reads from a stream: none for a short header or a length of 0, else the announced number of bytes, zero-padded after an early end; `ReplyBodyOfFrame` and `ReadReply` state it |
| PaddleCpp.ReplyBodyOfFrame | captura-cpp/src/ocr/PaddleOCR.cpp:39-60 | a framed reply is read back as its payload |
| PaddleCpp.Size | captura-cpp/src/ocr/PaddleOCR.cpp:81-84 | jsoncpp's `size()`: the items of an array, the members of an object, 0 for anything else |
| PaddleCpp.At | captura-cpp/src/ocr/PaddleOCR.cpp:83-96 | jsoncpp's `operator[](index)`, defined only on an array or null (`Indexable`), where anything else throws; out of range or on null it is null |
| PaddleCpp.AsFloat | captura-cpp/src/ocr/PaddleOCR.cpp:85-93 | jsoncpp's `asFloat()`, defined only on null, a boolean or a number (`Numeric`), where a string, array or object throws |
| PaddleCpp.AsString | captura-cpp/src/ocr/PaddleOCR.cpp:96-106 | jsoncpp's `asString()`, defined on anything but an array or object (`Scalar`), where those throw; a number is formatted by the parameter `numText` |
| PaddleCpp.ResObj | captura-cpp/src/ocr/PaddleOCR.cpp:73-76 | the object holding the results: the root's `res` member when there is one, else the root |
| PaddleCpp.KeyOrderTotal | captura-cpp/src/ocr/PaddleOCR.cpp:105 | the order of an object's keys (bytewise, a proper prefix first) is total, asymmetric and irreflexive |
| PaddleCpp.KeyOrderTransitive | captura-cpp/src/ocr/PaddleOCR.cpp:105 | the order of an object's keys is transitive |
| PaddleCpp.InKeyOrderSorted | captura-cpp/src/ocr/PaddleOCR.cpp:105 | the keys a range-for over an object visits are exactly its keys, each once, in strictly increasing key order |
| PaddleCpp.Elements | captura-cpp/src/ocr/PaddleOCR.cpp:105 | a range-for visits an array's items, an object's member values in key order, and nothing for any other value |
| PaddleCpp.MemberValues | captura-cpp/src/ocr/PaddleOCR.cpp:105 | the range-for over an object yields exactly `Elements` of it, by taking the least unvisited key each time |
| PaddleCpp.BoundingBoxUnique | captura-cpp/src/ocr/PaddleOCR.cpp:84-99 | a polygon has one bounding box |
| PaddleCpp.PolyBox | captura-cpp/src/ocr/PaddleOCR.cpp:84-99 | for a polygon whose first four points can be read (`Corners`), the box is the min corner and the extent of those points |
| PaddleCpp.DescribesUnique | captura-cpp/src/ocr/PaddleOCR.cpp:73-108 | a reply describes one outcome: one list of results, or a thrown `Json::LogicError` |
| PaddleCpp.BoxOf | captura-cpp/src/ocr/PaddleOCR.cpp:84-99 | the reference box satisfies the bounding-box property |
| PaddleCpp.Boxed | captura-cpp/src/ocr/PaddleOCR.cpp:83-102 | a text and a polygon give a result with the text's `asString` and the polygon's box, or a zero box for a polygon of fewer than four points |
| PaddleCpp.Described | captura-cpp/src/ocr/PaddleOCR.cpp:73-108 | the reference outcome satisfies the reply's description |
| PaddleCpp.RootArrayThrows | captura-cpp/src/ocr/PaddleOCR.cpp:74 | a reply whose root is an array ends in `Json::LogicError` |
| PaddleCpp.ArrayTextThrows | captura-cpp/src/ocr/PaddleOCR.cpp:104-106 | a `rec_texts` item that is an array ends in `Json::LogicError` |
| PaddleCpp.NumberTextWritten | captura-cpp/src/ocr/PaddleOCR.cpp:104-106 | a number among the texts becomes a result holding that number written out as text |
| PaddleCpp.ObjectPolygonThrows | captura-cpp/src/ocr/PaddleOCR.cpp:83-85 | a `dt_polys` item that is an object of four members ends in `Json::LogicError` |
| PaddleCpp.Extract | captura-cpp/src/ocr/PaddleOCR.cpp:73-108 | `isMember` on a root or `res` that is not an object or null throws; with `rec_texts` and `dt_polys`, texts and polygons are paired up to the shorter `size()`, and a non-array list, an unreadable corner or an array or object text throws; with texts alone, every element (object members in key order) gets a zero box, and an array or object text throws; otherwise there are no results |
| PaddleCpp.Recognize | captura-cpp/src/ocr/PaddleOCR.cpp:5-111 | corrected: no connection gives no results; a peer that has gone away kills the program by `SIGPIPE` at the first `send`; otherwise the request is sent framed, the socket is closed and the outcome is that of the reply body |
| PaddleCpp.Interpret | captura-cpp/src/ocr/PaddleOCR.cpp:62-110 | no body or a parse failure gives no results; otherwise the outcome, results or a throw, is the one the reply describes |
| PaddleCpp.ReadReply | captura-cpp/src/ocr/PaddleOCR.cpp:39-60 | the body is read as the header announces; a short or failed header read, or a zero length, gives no body (the corrected header check) |
| PaddleCpp.ReadBody | captura-cpp/src/ocr/PaddleOCR.cpp:53-60 | the receive loop fills the body with the bytes that arrive and zeros after an early end |
| PaddleRust.Strings | src/paddle_client.rs:16-17 | `rec_texts` decodes exactly when every item is a string, and to those strings |
| PaddleRust.PolygonOf | src/paddle_client.rs:18-19 | a polygon decodes exactly when every point is an `[x, y]` pair |
| PaddleRust.PolygonsOf | src/paddle_client.rs:18-19 | `rec_polys` decodes to one polygon per item |
| PaddleRust.StringsOfStrings | src/paddle_client.rs:14-20 | decoding serialized texts gives them back |
| PaddleRust.PolygonOfPoints | src/paddle_client.rs:18-19 | decoding a serialized polygon gives it back |
| PaddleRust.PolygonsOfPoints | src/paddle_client.rs:18-19 | decoding serialized polygons gives them back |
| PaddleRust.DecodeRaw | src/paddle_client.rs:14-25 | serde's decoding of `RawResponse`: `res`, then `rec_texts` and `rec_polys` of the right types, each struct read from an object (other members ignored) or from an array of exactly its fields in order; `DecodeRawJson`, `DecodeRawArrayForm`, `ArrayFormExactLength` and `DtPolysReplyRejected` state it |
| PaddleRust.DecodeRawJson | src/paddle_client.rs:14-25 | a reply of the expected `res` shape decodes to its data |
| PaddleRust.DecodeRawArrayForm | src/paddle_client.rs:14-25 | the same data written in serde's array form, `[[texts, polys]]` or `{"res": [texts, polys]}`, decodes to that data |
| PaddleRust.ArrayFormResRead | src/paddle_client.rs:14-25 | `{"res":[["a"],[[[1.0,2.0]]]]}` decodes to one text with a one-point polygon |
| PaddleRust.ArrayFormExactLength | src/paddle_client.rs:14-25 | an array form with one field too few or too many, or an empty array, is refused |
| Json.StructField | src/paddle_client.rs:14-25 | a field of a derived-`Deserialize` struct: by name from an object, by position from an array of exactly the field count, an error from anything else |
| PaddleRust.Zip | src/paddle_client.rs:84-90 | the results pair text k with polygon k, up to the shorter list |
| PaddleRust.ReadFrame | src/paddle_client.rs:67-79 | reading a framed reply gives its header and then its body |
| PaddleRust.OutcomeOfReply | src/paddle_client.rs:61-92 | a well-formed UTF-8 JSON reply yields the zipped results |
| PaddleRust.Delivered | src/paddle_client.rs:67-82 | the reading half: header and body by `read_exact`, UTF-8 and the JSON decode, any of which can fail; `ReadFrame`, `OutcomeOfReply` and `Receive` state it |
| PaddleRust.Outcome | src/paddle_client.rs:37-92 | the list a connected client ends up sending: empty on every failure and for a length of 0, else the zipped results; `Recognize` states it |
| PaddleRust.RecognizeInternal | src/paddle_client.rs:46-95 | the request is sent framed; one result list is sent on success or for a zero length; any error sends nothing here |
| PaddleRust.Deliver | src/paddle_client.rs:71-92 | exactly one send for a zero length or a decoded reply, none otherwise; a failed send of results is an error |
| PaddleRust.Receive | src/paddle_client.rs:67-90 | the reply is read and decoded as its specification says |
| PaddleRust.Recognize | src/paddle_client.rs:37-44 | exactly one message reaches the app: the results, or an empty list on any failure |
| PaddleRust.ResReplyBoxesLostByCpp | captura-cpp/src/ocr/PaddleOCR.cpp:73-108 | a reply the Rust client reads in full gives the C++ client its texts with zero-size boxes only |
| PaddleRust.DtPolysReplyRejected | src/paddle_client.rs:14-25 | a `dt_polys` reply without `res`, as the other engines send, is rejected by the Rust client but read by the C++ client |
| Ollama.New | src/ollama.rs:17-23 | the default model is "gemma3:4b" with the extraction prompt |
| Ollama.NewV1 | v1/src/ollama.rs:17-30 | the model is "gemma3:12b"; the prompt is the translation prompt exactly when the feature is on |
| Ollama.BuildRequest | src/ollama.rs:26-29 | the request carries the model, the prompt and exactly one image |
| Ollama.StreamMessages | src/ollama.rs:32-51 | the messages the forwarding loop produces: each batch's chunks in order, up to the first error, which adds one error message; `StreamMessagesShape` states it |
| Ollama.Messages | src/ollama.rs:30-58 | the messages of a whole generation: those of the stream, or one error message when it cannot start; `FailureIsLast` and `GenerateStream` state it |
| Ollama.StreamMessagesShape | src/ollama.rs:32-51 | the messages are the chunks of the batches before the first error, in order, then one error message if there is an error |
| Ollama.FailureIsLast | src/ollama.rs:30-58 | an error message, if any, is the last message |
| Ollama.StreamMessagesAppend | src/ollama.rs:32-51 | error-free batches contribute their chunks and the stream goes on |
| Ollama.Deliver | src/ollama.rs:36 | a send succeeds exactly while the receiver is held |
| Ollama.GenerateStream | src/ollama.rs:25-59 | the app receives exactly the stream's messages, in order; a receiver that hangs up after k messages gets those k, and one more send is attempted |
| Ollama.ForwardStream | src/ollama.rs:32-51 | the forwarding loop sends the stream's messages in order, and stops at the first failed send |
| Ollama.ForwardBatch | src/ollama.rs:35-42 | a batch's responses are sent one by one, and a failed send stops the batch |
| Ollama.ErrorEndsMessages | src/ollama.rs:44-49 | a stream error adds one error message and ends the stream |
| Gemini.New | src/gemini.rs:61-74 | the model is "gemini-2.5-flash-lite", and the prompt is chosen by the translate feature |
| Gemini.BuildRequest | src/gemini.rs:79-95 | one content of two parts: the prompt first, then the PNG image inline |
| Gemini.InlineDataJson | src/gemini.rs:26-31 | inline data serializes with the camelCase keys `mimeType` and `data` |
| Gemini.PartJson | src/gemini.rs:18-24 | a part serializes only its present fields |
| Gemini.PartRoundTrip | src/gemini.rs:18-24 | a serialized part reads back as the part |
| Gemini.PartsRoundTrip | src/gemini.rs:13-16 | serialized parts read back as the parts |
| Gemini.ContentsRoundTrip | src/gemini.rs:8-16 | serialized contents read back as the contents |
| Gemini.RequestRoundTrip | src/gemini.rs:8-31 | the serialized request reads back as the request |
| Gemini.Url | src/gemini.rs:97-100 | the URL is the fixed prefix, the model name, and `:generateContent` |
| Gemini.UrlInjective | src/gemini.rs:97-100 | different models give different URLs |
| Gemini.Headers | src/gemini.rs:105-106 | the key header carries the trimmed key, then the JSON content type |
| Gemini.KeyHeaderTrimmed | src/gemini.rs:105 | the key sent is a slice of the key file with no whitespace at either end |
| Gemini.TextsOf | src/gemini.rs:48-51 | each `ResponsePart` is an object with a string `text`, or the array `[text]`; `TextsRoundTrip` and `TextsArrayRoundTrip` state it |
| Gemini.CandidatesOf | src/gemini.rs:38-46 | each `Candidate` holds `content` and each `ResponseContent` holds an array `parts`, each as an object or a one-element array; `CandidatesRoundTrip` and `CandidatesArrayRoundTrip` state it |
| Gemini.ResponseOf | src/gemini.rs:33-113 | `response.json::<GeminiResponse>()`: an object with an array `candidates`, or the array `[candidates]`; `ResponseRoundTrip`, `ResponseArrayRoundTrip` and `ArrayFormCandidateRead` state it |
| Gemini.IsSuccess | src/gemini.rs:112 | `is_success()`: a status from 200 to 299; `GenerateOutcome` states which message each status gives |
| Gemini.TextsRoundTrip | src/gemini.rs:48-51 | serialized response parts read back as their texts |
| Gemini.CandidatesRoundTrip | src/gemini.rs:38-46 | serialized candidates read back as the candidates |
| Gemini.ResponseRoundTrip | src/gemini.rs:33-51 | a serialized response reads back as the response |
| Gemini.TextsArrayRoundTrip | src/gemini.rs:48-51 | parts in serde's array form read back as their texts |
| Gemini.CandidatesArrayRoundTrip | src/gemini.rs:38-46 | candidates in serde's array form read back as the candidates |
| Gemini.ResponseArrayRoundTrip | src/gemini.rs:33-51 | a response in serde's array form reads back as the response |
| Gemini.ArrayFormCandidateRead | src/gemini.rs:33-119 | `{"candidates":[[[[["hola"]]]]]}` is read as one candidate whose first text is "hola" |
| Gemini.FirstText | src/gemini.rs:115-119 | the first candidate's first part text, or "" when either is missing |
| Gemini.Generate | src/gemini.rs:76-149 | the one message `generate` sends: the first text of a decoded success body, or the decode, API or network error with its prefix; `GenerateOutcome` and `SuccessDeliversFirstText` state it |
| Gemini.GenerateOutcome | src/gemini.rs:76-149 | every path yields one message: the first text on success, and the decode, API (status and body) or network error with its own prefix |
| Gemini.SuccessDeliversFirstText | src/gemini.rs:112-124 | a success body that holds a response delivers that response's first text |
| OcrServer.EngineOf | servidorOcr/ocr_server.py:10-12 | `--model` accepts exactly paddle, lighton and glm-ocr, with paddle by default |
| OcrServer.EngineNameRoundTrip | servidorOcr/ocr_server.py:11 | each engine's name selects that engine |
| OcrServer.PredictionJson | servidorOcr/ocr_server.py:62-65 | the paddle branch returns the first result's JSON when there is one, else `{}` |
| OcrServer.DoOcr | servidorOcr/ocr_server.py:60-140 | an engine's exception is passed on; the text engines return their text with the whole-image polygon |
| OcrServer.WholeImageJson | servidorOcr/ocr_server.py:92-95 | the reply of the vision-language models: one text in `rec_texts`, and in `dt_polys` the polygon of the whole image; `WholeImageReadByCpp` and `WholeImageRejectedByRust` state what the clients make of it |
| OcrServer.ErrorJson | servidorOcr/ocr_server.py:198 | the error reply `{"error": message}`; `InvalidImageAnswered` and `EngineErrorAnswered` state it |
| OcrServer.Respond | servidorOcr/ocr_server.py:194-208 | the reply to one payload: the invalid-image error, the engine's exception as an error, or the dumped prediction; `Replies`, `InvalidImageAnswered` and `EngineErrorAnswered` state it |
| OcrServer.Handler | servidorOcr/ocr_server.py:179-214 | the server as the connection loop sees it, with no state and every request answered; `AlwaysAnswers` and `ConnectionAnswersAll` state it |
| OcrServer.Replies | servidorOcr/ocr_server.py:194-208 | one reply per request, each computed from its own payload alone |
| OcrServer.AlwaysAnswers | servidorOcr/ocr_server.py:179-214 | the handler answers every request and never raises; a connection ends in an exception exactly when some request announces 2^63 bytes or more, and otherwise gets every reply in order |
| OcrServer.ConnectionAnswersAll | servidorOcr/ocr_server.py:174-219 | a connection of framed requests gets one framed reply each, unless a request is of 2^63 bytes or more, which ends it in an exception |
| OcrServer.InvalidImageAnswered | servidorOcr/ocr_server.py:197-198 | an undecodable image is answered with `{"error": "IMAGEN INVALIDA"}` |
| OcrServer.EngineErrorAnswered | servidorOcr/ocr_server.py:200-206 | an engine exception is answered with `{"error": str(e)}` |
| OcrServer.WholeImageReadByCpp | servidorOcr/ocr_server.py:92-95 | the C++ client reads a text engine's reply as one result covering the whole image |
| OcrServer.WholeImageBox | servidorOcr/ocr_server.py:94 | the C++ client can read the whole-image polygon, and its bounding box is the whole image |
| OcrServer.WholeImageRejectedByRust | servidorOcr/ocr_server.py:92-95 | the Rust client rejects a text engine's reply |
| PaddleServer.PredictionText | servidorOcr/server.py:69-76 | the text sent for a prediction: its first result's JSON, or `{}` |
| PaddleServer.HandleAsWritten | servidorOcr/server.py:64-76 | as written: an invalid image replies with the previous prediction, or crashes on a first request; an engine exception crashes |
| PaddleServer.Handle | servidorOcr/server.py:64-76 | corrected: an invalid image is answered with its error text, and only an engine exception crashes |
| PaddleServer.HandlerAsWritten | servidorOcr/server.py:46-84 | as written: the connection loop's handler, carrying the last prediction from one request to the next; `StaleReplyAsWritten` and `FirstInvalidStopsServerAsWritten` state it |
| PaddleServer.Handler | servidorOcr/server.py:46-84 | corrected: the connection loop's handler; `InvalidImageAnswered` and `RepliesAreOwn` state it |
| PaddleServer.OneRequest | servidorOcr/server.py:41-57 | a client that sends one framed request and then closes, the input `FirstInvalidStopsServerAsWritten` uses |
| PaddleServer.AgreeOnImages | servidorOcr/server.py:66-76 | the two handlers agree on every decodable image |
| PaddleServer.StaleReplyAsWritten | servidorOcr/server.py:64-73 | as written, an invalid image after a valid one (each under 2^63 bytes) gets the earlier image's answer |
| PaddleServer.FirstInvalidStopsServerAsWritten | servidorOcr/server.py:64-73 | as written, an invalid first image kills the server with nothing sent |
| PaddleServer.InvalidImageAnswered | servidorOcr/server.py:64-65 | corrected: an invalid image gets the error text and the connection goes on; a request of 2^63 bytes or more ends it in an exception before it is handled |
| PaddleServer.RepliesAreOwn | servidorOcr/server.py:45-84 | corrected: each reply is computed from its own request alone |

## Left out

- Threads, the tokio runtime and async I/O are left out. The mpsc channel is a queue. A receiver that hangs up mid-stream is a parameter: after how many messages it goes.
- The Wayland, xkb, cairo and pango plumbing of `captura.cpp` is left out: `init`, `recheckACK`, `renderSurface`, the keyboard and `sigHandler`. `finish` is modelled only as the exit code it records.
- egui painting, cursor icons, the Tesseract configuration combo boxes and the Escape key in `src/main.rs` are left out. They draw or configure and compute nothing the model uses.
- The Copiar button of the Rust app is left out. It copies the constant "AAAAA".
- f32 parsing of TSV columns is a parameter. Floats are reals, with no NaN, no infinities and no rounding except the explicit `round() as u32`.
- The following foreign code are parameters:
  - PNG encoding (the `image` crate and cairo);
  - base64 encoding;
  - JSON text parsing and dumping (serde_json, jsoncpp, Python's `json`);
  - `cv2.imdecode`;
  - the OCR engines.
- The C++ crop's scaling by the buffer/monitor ratio is left out. The PNG of the crop is an input to `Captura.Captura.FinishSelection`.
- The C++ wrappers GeminiOCR.cpp, OllamaOCR.cpp and TesseractOCR.cpp are not part of this model. The recognition results of their menu actions are an input.
- The getopt CLI of `captura-cpp/src/main.cpp` and the engine loading in `init_ocr` are not part of this model.
- Sockets.Socket.Recv: `EINTR` and `EAGAIN` are not modelled. A receive either returns bytes, reports end of stream, or fails on a reset.
- SocketServer.AcceptLoop: `accept` serves a finite list of connections, not an endless loop.
- SocketServer.TooLong: a reply whose UTF-8 form has 2^64 bytes or more makes `struct.pack` raise. It is modelled as a crash and is otherwise unreachable.
- Ollama.GenerateStream: after the receiver hangs up, the contract does not describe the queue. A dropped receiver's queue can no longer be read.
- Ollama.ForwardStream: as above, the queue after a hang-up is not described.
- Gemini.GenerateOutcome: the one message is the function's result. The channel send itself, and the failure it logs when the receiver is gone, are left out.
- Captura.Captura.OnButtonReleased: the contract states the ended drag and the normalized selection. What `finishSelection` then does is stated by `Captura.Captura.FinishSelection`.
- Captura.Captura.RunAction, Captura.Captura.FinishSelection: these follow the code as written, and so do the menu click and the release that call them. The corrected `RunActionCorrected` and `FinishSelectionCorrected` stand beside them and are not wired into the event handlers.
- PaddleCpp.Extract: a thrown `Json::LogicError` is the outcome `LogicError`; which accessor threw, and the program's termination, are left out.
- PaddleCpp.AsString: how jsoncpp formats a number (`valueToString`, 17 significant digits) is the parameter `numText`.
- PaddleCpp.AsFloat: the rounding of a double to `float` is left out; coordinates are exact reals.
- PaddleCpp.Elements: unsigned-integer, 64-bit integer and double JSON numbers are one kind of number; jsoncpp's conversions between them are left out.
- ScreenshotApp.App.PerformOcr: the `.expect` on `TessImage::from_dynamic_image` (src/main.rs:179-180) panics when the crop cannot be converted. Conversion of a non-empty RGBA crop is taken to succeed, and that panic is not modelled.
- Sockets.Socket: whether the peer reads (`writable`) is fixed when the connection is accepted. A peer that leaves in the middle of a session cannot be expressed, so `SendFrame` never sends the header and then fails on the body.
- SocketServer.TakeTurn, SocketServer.ReadRequest, SocketServer.Served, SocketServer.Lifetime: `recv` allocates its whole buffer first. For a length under 2^63 that the process cannot allocate, `recvall` raises `MemoryError`, which the loop does not catch either, so the server dies. Memory is not modelled: the model reads any such length, and ends the connection cleanly when the bytes stop coming.
- OcrServer.AlwaysAnswers: `response_data.encode('utf-8')` (servidorOcr/ocr_server.py:208) is outside the `try`. A lone surrogate in the reply raises an uncaught `UnicodeEncodeError`. A Dafny `char` cannot hold a surrogate, so the model cannot express this crash, and "the handler never raises" holds only for replies without lone surrogates.
- Captura.Captura.StartDrag: the classification is stated through `Captura.PressMode`. The Wayland input serial and timestamps are left out.
- PaddleCpp.Recognize: a `send` fails in the model only because the peer has gone away, which is `SIGPIPE`. Other `send` errors, whose branch prints, closes the socket and returns no results (captura-cpp/src/ocr/PaddleOCR.cpp:26-37), are not modelled, and neither is a short `send` that writes part of the buffer.
- PaddleCpp.Recognize: uses the corrected header check. The as-written check, where a failed `recv` passes, is modelled only by `PaddleCpp.HeaderCheck`.
- PaddleCpp.ReadBody, PaddleCpp.ReadReply, PaddleCpp.ReplyBody, PaddleCpp.Recognize: `respBody.resize(respSize)` (captura-cpp/src/ocr/PaddleOCR.cpp:54) throws `std::length_error` or `std::bad_alloc` when the announced length cannot be allocated. Nothing catches it, so the program terminates. Memory is not modelled: the model reads any announced length.
- PaddleRust.Recognize, PaddleRust.Receive, PaddleRust.Delivered, PaddleRust.Outcome: `vec![0u8; response_size]` (src/paddle_client.rs:78) panics with a capacity overflow for a length of 2^63 or more, and aborts the process when the allocation fails. The task then sends no message. Memory is not modelled: the model reads any announced length, so "exactly one message" holds only for lengths that can be allocated.

## Findings

| source | as written | input that shows it | evidently intended | confidence | as-written member | corrected member |
|---|---|---|---|---|---|---|
| src/main.rs:159-162 | after draining with `try_iter`, `try_recv` is used as a disconnection probe, and a chunk it receives is dropped | the job sends "Hola"; the poll drains it; "mundo" arrives, then the sender hangs up, before the probe | every chunk reaches `results` ("Holamundo") | not executed | ScreenshotApp.App.PollAiResultAsWritten, ScreenshotApp.LateChunkAsWritten | ScreenshotApp.App.PollAiResult, ScreenshotApp.LateChunkCorrected |
| captura-cpp/src/ocr/PaddleOCR.cpp:41 | `recv(...) < sizeof(respSizeBE)` compares a signed result with an unsigned size, so -1 (an error) passes the check and an uninitialised length is used | the server resets the connection before the reply header | any result other than a full 8-byte header gives empty results | not executed | PaddleCpp.HeaderCheck | PaddleCpp.Recognize |
| servidorOcr/server.py:64-73 | an invalid image sets only `response_text`, which is never sent; the reply uses the previous iteration's `result`, or raises `NameError` on a first request, and nothing catches it | a valid image followed by undecodable bytes; or undecodable bytes first | the invalid image is answered with its error text | not executed | PaddleServer.HandleAsWritten, PaddleServer.StaleReplyAsWritten | PaddleServer.Handle, PaddleServer.InvalidImageAnswered |
| captura-cpp/src/captura.cpp:413 | the menu is moved left by 200 when it would overflow, but it is 340 wide | a selection finished at x = 1700 on a 1920-wide monitor: 1700 + 200 does not exceed 1920, so the menu is not moved, and it spans 1700 to 2040 | the menu lies within the monitor | not executed | Captura.MenuPositionAsWritten, Captura.MenuOverflowsAsWritten, Captura.Captura.FinishSelection | Captura.MenuPosition, Captura.Captura.FinishSelectionCorrected |
| captura-cpp/src/captura.cpp:624-626 | Copiar replaces the result text with "¡Texto copiado!", so a second press copies that notice | press Copiar twice on the result "Hola " | the clipboard only ever receives recognition results | not executed | Captura.CopyAsWritten, Captura.CopyTwiceCopiesNotice, Captura.CopyTwice, Captura.Captura.RunAction | Captura.Copy, Captura.CopyOnlyResults, Captura.Captura.RunActionCorrected |
