# Proofs about a small C HTTP library

This project models five parts of the library as Dafny programs and proves what they do.

* **WebSocket session** (`src/c_http_ws.c`). `WsSession.HttpWs` is the session with its receive
  buffer, parser state and message buffer. It parses frames as bytes arrive, unmasks in place,
  compacts, assembles fragments, answers pings and runs the close handshake. `WsFrames` decodes a
  whole byte stream at once, and every method keeps the session in step with it. `WsOutcome` says
  what a call may end with: the event or socket signal that ended it, the close code and the frames
  it leaves. `WsRoundTrip` is the peer's encoder; `WsRules` says in bytes what is read, refused and
  written; `WsWriters` is the shared writer under its lock,
  in every interleaving; `WsMessageBuffer` is the growth of the message buffer. `Sha1` and `Base64`
  are the streaming hash and the text encoding of the handshake.
* **Template compiler** (`tools/ctmpl.c`). `CtmplCursor` and `CtmplParser` are the cursor and the
  recursive-descent parser; `CtmplGrammar` says at every position whether they accept, what they
  read and where they stop. `CtmplSyntax` and `CtmplTag` give the concrete syntax of the result,
  with every byte; `CtmplCode` is the C text embedded in it; `CtmplContexts` and `CtmplRules` give the
  names, contexts and limits written out. `CtmplSpans` cuts it into what is kept and what is dropped, `CtmplFits` names the
  look-ahead between neighbouring items, and `CtmplAccept` reads printed bodies back.
  `CtmplEmitter` is the code generator writing lines; `CtmplEmit` the statements it stands for;
  `CtmplCapture` says which blocks capture a parameter;
  `CtmplMeaning` and `CtmplTarget` are the two interpreters. `CtmplNames` compares the names a
  generated file has at file scope, `CtmplScopes` those inside its functions and the C texts copied
  there; `CtmplFile` says when the whole file builds. `CtmplLimits` holds inputs on which the
  compiler falls short.
* **Template runtime** (`src/c_http_tpl.c`). `TplOut` is the output object; `TplRuntime` the
  fragment filter and the render-once registry; `TplEscape` the escaping; `TplCss` the sanitizer
  for style declarations, `TplCssRules` what it calls unsafe.
* **Body parsers** (`src/c_http.c`). `JsonScan`, `JsonString` and `JsonLookup` are the JSON string
  accessor, `JsonText` the printer it undoes; `Multipart` the form splitter, `MultipartForms` the forms it reads back.
* **Concurrency and dispatch** (`src/c_http.c`). `Workers` is the accept loop, the worker threads
  and the drain at shutdown as a state machine, `WorkersSpawn` who gets a worker; `Routes` and `Dispatch` are route registration,
  matching, parameter binding and the choice of a handler.

Code that changes objects step by step is modelled by classes and methods with the same loops.
Each method is tied to a function of its inputs or of the old state, and lemmas state what that
function means. Sockets appear as an arbitrary script of arrivals and arbitrary partial writes. C
expressions inside templates are opaque functions of an environment.

## Where the code does not do what it seems to promise

* `ws_msg_reserve` returns early when the needed size equals the capacity, so the terminator of a
  message can be written one byte behind the buffer. `WsMessageBuffer.OverrunsExactly` says for
  which sequences of chunk sizes, and `OverrunExample` gives one. The session keeps a flag
  `overrun` for it.
* A `\u` escape that fills the output buffer of `json_decode_string` exactly leaves no room for
  the terminator. `JsonString.FitsExactly` says when such a string is accepted;
  `JsonString.FitsExample` is one.
* Two components of one name, or a component named like a generated child function (`_block_1`),
  are accepted and make the generated file define a function twice: `CtmplNames.ShadowExample`. The
  list a component name is compared with leaves out ten functions of the runtime
  (`CtmplNames.UnguardedExactly`, `CtmplNames.RuntimeNameExample`), and a render-once handle is
  compared with other handles alone (`CtmplNames.HandleExample`). `CtmplNames.NoClashExactly` is the
  exact condition for names that do not clash at file scope.
* Names inside the generated functions are not compared at all. A component `data` called in a
  block bound to data is hidden by the parameter `tpl_data` (`CtmplFile.LocalNameExample`), one named
  `children` called with a block by the struct `tpl_children` (`CtmplFile.ChildrenNameExample`), and a
  parameter `tpl_children` by that struct too (`CtmplFile.ParameterNameExample`). A block that captures
  the parameter of its component, inside a block bound to data, names a parameter its function does
  not have (`CtmplFile.CaptureExample`). An expression that ends in a line comment swallows the rest
  of its line (`CtmplFile.CommentExample`). `CtmplFile.BuildsExactly` is the exact condition, on the
  template, for a file whose names and copied texts are in order.
* A NUL byte inside a tag is accepted as markup, and the text after it is lost when the literal is
  written. `CtmplPreserve.LiteralWritesExactly` states when; `CtmplLimits.NulAccepted` is a body
  the parser accepts and `CtmplLimits.NulExample` what its function writes.
* A boolean attribute behind an interpolated value in the same attribute run makes the length of
  the pending text wrap around; the allocation then fails and the parser reports an error.
  `CtmplParser.Parser.AttrFlag` says exactly when a boolean attribute is accepted;
  `CtmplLimits.FlagRefused` is a well-formed tag that is refused.
* A request segment written with a colon is routed as its bare text. `Routes.SameMatchesExactly`
  says when two paths match the same routes of all that can be registered,
  `Routes.ReachesPlainPathExactly` for which paths a colon makes a request match the routes of another
  path; `Routes.ColonExample` is one.
* A word `filename=` inside the quoted name of a form field is taken for its file name, unless it
  ends the name or a semicolon follows. `MultipartForms.FileNameExactly` says what comes back;
  `MultipartForms.FileNameExample` is the name `a filename=b`, which gives the file name `b"`.

## Model

| member | source | states |
|---|---|---|
| WsFrames.DecodeAppend | src/c_http_ws.c:885-1083 | decoding a longer stream gives the events of the shorter one and then those of resuming where it stopped |
| WsFrames.ResidueAppend | src/c_http_ws.c:765-776 | the place where the decoder waits after more bytes follows from the place where it waited before |
| WsFrames.DecodePrefix | src/c_http_ws.c:885-1083 | bytes that arrive later never change an event already caused |
| WsFrames.ChunkingDoesNotMatter | src/c_http_ws.c:1205-1279 | for every split of a stream into chunks the events are those of the whole stream decoded at once |
| WsRoundTrip.LengthFormUnique | src/c_http_ws.c:946-987 | the length form the writer chooses is the only one the minimality checks accept (section 5.2 of RFC 6455) |
| WsRoundTrip.DecodeUndoesEncode | src/c_http_ws.c:817-1071 | any messages in any fragments with any keys and pings or pongs between the fragments come back exactly, with one identical pong per ping |
| WsRules.ClientOnWire | src/c_http_ws.c:885-1071 | the frames of that client on the wire: the final bit and opcode, the mask bit and the length in its shortest form, the key, and the payload with every bit turned round where the key says so; under a key of zeros the payload itself |
| WsRules.ClientOpcodes | src/c_http_ws.c:891-958 | they carry the opcodes 1 and 2 for a message, 0 for its further fragments, 9 for a ping and 10 for a pong |
| WsRules.HelloExample | src/c_http_ws.c:817-832 | the masked frame of section 5.7 of RFC 6455 decodes to the text `Hello` |
| WsRules.NextFrameExactly | src/c_http_ws.c:885-1071 | byte for byte, for every stream: when a frame is refused with 1002 for its header or its length, refused with 1009, incomplete, or read, and that every bit of its payload is unmasked |
| WsRules.HeaderExactly | src/c_http_ws.c:891-958 | the two header bytes are accepted exactly without reserved bits, masked, with one of six opcodes, and as sections 5.4 and 5.5 of RFC 6455 ask of fragments and control frames |
| WsRules.LengthExactly | src/c_http_ws.c:946-987 | the extended length has two or eight bytes and must be at least 126, or at least 65536 and below 2^63 |
| WsRules.ControlExactly | src/c_http_ws.c:848-882 | opcode 9 causes a pong with its payload, 10 nothing, 8 a close with the code of its first two bytes, or a violation when it has one |
| WsRules.DataExactly | src/c_http_ws.c:1024-1050 | opcode 1 begins a text, 2 a binary message, 0 goes on with either, and the final bit ends it |
| Bytes.XorAt | src/c_http_ws.c:817-832 | bit k of the exclusive or is set exactly when that bit of one byte is and of the other is not |
| WsParserState.UnmaskFromMasks | src/c_http_ws.c:817-832 | unmasking from any offset turns round exactly the bits the key says |
| WsRoundTrip.ReadUndoesWrite | src/c_http_ws.c:673-707 | a peer reads whole written frames back one by one, whatever follows them |
| WsRoundTrip.ReadTruncated | src/c_http_ws.c:673-707 | a frame cut short anywhere is not a frame |
| WsRules.ServerOnWire | src/c_http_ws.c:673-707 | a frame the session writes: the final bit and the opcode, no mask bit, the length in its shortest form, the payload |
| WsRules.CloseOnWire | src/c_http_ws.c:726-760 | a close frame carries the code most significant byte first and at most 123 bytes of the reason, or nothing for code 0 |
| WsMessageBuffer.OverrunsExactly | src/c_http_ws.c:788-811 | the terminator is written behind the buffer exactly for the chunk sizes that fill it through the early return |
| WsMessageBuffer.OverrunExample | src/c_http_ws.c:788-811 | chunks of 10 and 246 bytes do |
| WsParserState.UnmaskInPieces | src/c_http_ws.c:817-832 | unmasking a payload piece by piece, each from its offset, is unmasking it at once |
| WsSocket.Socket.Send | src/c_http_ws.c:330-346 | a socket write sends some prefix or fails, and the failures are counted |
| WsSocket.Socket.Receive | src/c_http_ws.c:1205-1279 | a receive hands over the next bytes of the stream, loses none and invents none |
| WsSession.HttpWs.MarkDead | src/c_http_ws.c:649-660 | the session is dead for good, an earlier i/o error stays recorded, a nonzero code is kept |
| WsSession.HttpWs.SendFrameLocked | src/c_http_ws.c:673-707 | one whole frame goes out, or exactly one send call has failed: then a part of it, with the session dead and the error recorded |
| WsSession.HttpWs.SendFrame | src/c_http_ws.c:710-722 | nothing is written to a dead session; otherwise one frame, or the error of the one send call that failed |
| WsSession.HttpWs.SendClose | src/c_http_ws.c:726-760 | one close frame with code and reason, the close code set only the first time, no pong lost or added |
| WsSession.HttpWs.Compact | src/c_http_ws.c:765-776 | unread bytes move to the front unchanged |
| WsSession.HttpWs.Violate | src/c_http_ws.c:780-785 | the session ends with the violation the one-shot decoder finds |
| WsSession.HttpWs.MsgReserve | src/c_http_ws.c:788-811 | the message buffer grows by doubling and keeps its content |
| WsSession.HttpWs.UnmaskChunk | src/c_http_ws.c:817-832 | exactly the available part of the payload is unmasked in place with the key at the right offset, bit for bit an exclusive or; nothing else in the buffer changes |
| WsSession.HttpWs.FrameLengthKnown | src/c_http_ws.c:837-845 | a frame that would exceed the message limit is a violation 1009, any other goes on to its mask |
| WsSession.HttpWs.HandleControl | src/c_http_ws.c:848-882 | a ping is answered by one pong with its payload, a pong ignored, a close echoed or refused, as the decoder says; each leaves the close code, the flags and the frames that belong to it |
| WsSession.HttpWs.StepHeader | src/c_http_ws.c:891-958 | the two header bytes either lead to the next stage or end the session with a violation, in step with the decoder |
| WsSession.HttpWs.StepLength | src/c_http_ws.c:959-994 | the extended length is read and checked for minimality, in step with the decoder |
| WsSession.HttpWs.StepChunk | src/c_http_ws.c:1053-1071 | a piece of payload moves from the receive buffer to the control or message buffer, in step with the decoder |
| WsSession.HttpWs.Deliver | src/c_http_ws.c:1024-1050 | a finished message is delivered with its type and exact bytes; the overrun flag is set exactly when the chunks fill the buffer |
| WsSession.HttpWs.PayloadBound | src/c_http_ws.c:837-845 | while a data frame is read the message and the unread payload stay within the limit, control payloads within 125, and no partial message exists between messages |
| WsSession.HttpWs.Stuck | src/c_http_ws.c:885-1083 | when the parser cannot step the decoder has no further event either, and at most 7 bytes are held |
| WsSession.HttpWs.Parse | src/c_http_ws.c:885-1083 | the loop ends with the next event of the one-shot decoder on all bytes received and the close code, flags and frames that event leaves, or asks for input with at most 7 bytes left and all events of the bytes so far caused |
| WsSession.HttpWs.Attempt | src/c_http_ws.c:1214-1276 | one round of receiving either returns with what ended it or goes on, having caused pongs alone; the receive buffer keeps its size |
| WsSession.HttpWs.Await | src/c_http_ws.c:1214-1262 | waiting for input either receives bytes or returns for the signal the socket gave: the end of the stream with 1006, a shutdown with a close frame and 1001, an error with 1006 and the error recorded |
| WsSession.HttpWs.Recv | src/c_http_ws.c:1205-1279 | the result names what ended the call: the next message; or, with every event of the bytes received caused, the peer's close, a violation, the end of the stream or a shutdown, each with its close code; or an i/o error, recorded. Only pongs come before it, and a dead session reports why and reads nothing |
| WsSession.HttpWs.DrainCloseEcho | src/c_http_ws.c:1148-1203 | draining after close ends with a dead session within 5 calls of recv, loses no bytes of the stream, keeps the events in step, and leaves the code it had, that of the peer's close or violation, or 1006 |
| WsSession.HttpWs.DrainOnce | src/c_http_ws.c:1148-1203 | one round of the drain calls recv once and throws away what comes, or ends the drain |
| WsSession.HttpWs.Close | src/c_http_ws.c:1299-1310 | closing sends one close frame with the code and reason, drains and leaves the session dead; it fails only when the frame could not be sent, with the i/o error recorded; closing a dead session succeeds and changes nothing |
| WsSession.HttpWs.SendPing | src/c_http_ws.c:1291-1297 | a ping of more than 125 bytes is refused without writing; otherwise one frame, or a dead session because it was dead or a send call failed |
| WsSession.HttpWs.PeerReadsWholeFrames | src/c_http_ws.c:649-760 | in every valid state the peer reads exactly the frames sent |
| WsWriters.InvAlways | src/c_http_ws.c:649-760 | lock ownership, frame progress and the record of results stay consistent in every interleaving of senders |
| WsWriters.WholeFramesInEveryRun | src/c_http_ws.c:649-760 | in every interleaving the wire is whole frames and at most one truncated frame, which stays only after an i/o error on a dead session |
| WsWriters.DeadIsFinal | src/c_http_ws.c:649-660 | a dead session stays dead and nothing more is written, whatever the threads do |
| WsWriters.LiveSessionsWriteAll | src/c_http_ws.c:649-760 | in every run the session is dead exactly when a job marked it or a write failed, and until then every finished send and close has put its frame on the wire |
| WsWriters.CloseCodeExactly | src/c_http_ws.c:649-760 | the close code changes only by the first close on a live session and by marking dead, each with a nonzero code |
| WsWriters.SomeStep | src/c_http_ws.c:649-760 | while a thread is inside a call some thread can go on, and a writer may write any part of what is left |
| Sha1.Stream.Update | src/c_http_ws.c:135-160 | any piece of data is consumed: whole blocks folded into the state, the rest buffered |
| Sha1.Stream.Final | src/c_http_ws.c:162-184 | the digest is the fold of the block function over the padded message; the zero loop ends although the buffer length wraps |
| Sha1.DigestOfChunks | src/c_http_ws.c:135-184 | however a message is cut into updates the digest is that of the whole message |
| Sha1.PaddingIsMinimal | src/c_http_ws.c:166-171 | the number of zero bytes is the least that ends on a block (section 4 of FIPS 180-1) |
| Sha1.PaddingHoldsLength | src/c_http_ws.c:164-176 | below 2^64 bits the last eight bytes are the length in bits |
| Sha1.OneBlock | src/c_http_ws.c:75-184 | the digest of a message of at most 55 bytes is the block function on the initial words of FIPS 180-1 and the message, 0x80, zeros and the length, written most significant byte first |
| Base64.DecodeUndoesEncode | src/c_http_ws.c:195-305 | decoding gives every non-empty input back, and the text has 4 characters per started group of 3 bytes (section 4 of RFC 4648) |
| Base64.Alphabet | src/c_http_ws.c:190-233 | the character of each value is the one of the alphabet of RFC 4648 |
| Base64.OnlyAlphabet | src/c_http_ws.c:236-255 | no other character has a value |
| Base64.KeyLength | src/c_http_ws.c:257-305 | 24 characters decode to 16 bytes exactly when they are valid and end in two pad characters |
| Base64.DecodedLength | src/c_http_ws.c:284-305 | the decoded length is three bytes per group less the padding |
| Base64.Encode | src/c_http_ws.c:195-233 | the buffer receives the text and a NUL, or stays unchanged when it is too small |
| Base64.Decode | src/c_http_ws.c:257-305 | succeeds exactly for valid text whose bytes fit, and then writes them |
| Base64.ReadGroup | src/c_http_ws.c:265-282 | padding is accepted only at the end of the last group, at most two characters |
| CtmplCursor.Cursor.Advance | tools/ctmpl.c:248-258 | the cursor moves one character and its line data stay those of the consumed prefix |
| CtmplCursor.Cursor.ReportAt | tools/ctmpl.c:280-297 | for every position inside the source the reported line and column are found by counting newlines from the start, as the cursor counts them |
| CtmplCursor.LineIsNewlineCount | tools/ctmpl.c:248-258 | the line is one more than the newlines before the position, and the line start follows the last of them |
| CtmplCursor.Cursor.ReadIdent | tools/ctmpl.c:374-385 | reads the longest identifier at the cursor, or reports that there is none |
| CtmplCursor.Cursor.EatKeyword | tools/ctmpl.c:390-400 | consumes a keyword only at a word boundary |
| CtmplCursor.Cursor.ScanC | tools/ctmpl.c:464-536 | the embedded C code ends where the bracket-counting scan says, with strings and comments skipped, or the error is at the place where that scan gives up |
| CtmplScan.FoundIsDelimited | tools/ctmpl.c:464-536 | code found by the scan is delimited by its own text: the scan does not depend on what follows the terminator |
| CtmplCode.ScanFinds | tools/ctmpl.c:464-536 | for every text of nested brackets, literals with escapes and comments of both kinds, the scan ends in front of the bracket that closes it, whatever its literals and comments hold |
| CtmplParser.Parser.ClassifyAttr | tools/ctmpl.c:595-623 | the escaping context is that of the attribute name, script attributes are refused; for a name that ends before it starts the length wraps around, and exactly the names that then look like a script attribute are refused |
| CtmplContexts.AttrContextExactly | tools/ctmpl.c:595-623 | in any letter case: the seven URL names give the URL context, `style` the style context, names that begin with `on` or `hx-on:` are refused, every other name gives the plain context |
| CtmplParser.Parser.ParseInterp | tools/ctmpl.c:553-581 | succeeds exactly when a closed, non-empty braced expression stands at the cursor, the children form only in text, and consumes exactly it |
| CtmplParser.Parser.ParseComment | tools/ctmpl.c:849-861 | succeeds exactly when an end mark follows, consumes the comment up to the first one and copies it |
| CtmplParser.Parser.ParseDoctype | tools/ctmpl.c:864-874 | succeeds exactly when a closing angle bracket follows and consumes the doctype up to the first one |
| CtmplParser.Parser.ParseClosing | tools/ctmpl.c:877-916 | accepts a closing tag exactly when its name is that of the innermost open tag, and pops that |
| CtmplParser.Parser.AttrFlag | tools/ctmpl.c:1015-1067 | succeeds exactly when the name lies behind the pending text and a closed, non-empty condition in braces follows `?=`; the attribute becomes an if-node that writes its name |
| CtmplParser.Parser.ParseAttributes | tools/ctmpl.c:938-1090 | succeeds exactly when every attribute does and the tag ends; the tag is cut into plain text, quoted and unquoted expressions and boolean attributes whose source is exactly the tag, each with the context of its attribute name |
| CtmplContexts.ValueContext | tools/ctmpl.c:938-1090 | in every accepted tag a value behind white space, a name, `=` and an optional quote has the context of that name, and never the name of a script attribute |
| CtmplParser.Parser.ParseRaw | tools/ctmpl.c:1118-1140 | succeeds exactly when the closing tag of the raw element follows, and copies what stands before the first one |
| CtmplParser.Parser.ParseOpen | tools/ctmpl.c:918-1142 | an open tag is accepted exactly when its name, attributes, raw content and the tag stack allow it: void tags are not pushed, self-closed others and more than 32 open tags are refused; it is consumed exactly |
| CtmplContexts.TagNamesExactly | tools/ctmpl.c:50-63 | the void elements are the fourteen of HTML and the raw ones script and style, in any letter case |
| CtmplRules.LongNameRefused | tools/ctmpl.c:918-936 | tag names have 31 characters at most |
| CtmplRules.FinishExactly | tools/ctmpl.c:1092-1142 | behind its attributes a tag is accepted exactly when it is void or neither self-closed nor the 33rd open one, and its raw content ends |
| CtmplParser.Parser.FinishOpen | tools/ctmpl.c:1092-1142 | behind the attributes, the tag is refused, pushed or followed by raw content exactly as its name, its last two bytes and the tag stack say |
| CtmplParser.Parser.ParseElement | tools/ctmpl.c:842-1142 | whatever stands at an angle bracket is accepted exactly when it is a comment, doctype, closing or open tag that may stand there; it is consumed exactly and yields its nodes and its effect on the open tags |
| CtmplParser.Parser.ParseCallBlock | tools/ctmpl.c:645-696 | a child block after a call, with or without data, is accepted exactly when it parses, and consumed exactly; without one the cursor is back where it was and no brace follows the white space |
| CtmplParser.Parser.CheckBuiltin | tools/ctmpl.c:698-719 | raw needs one argument and no block, fragment and once an argument and a block, none of them data |
| CtmplParser.Parser.ParseCall | tools/ctmpl.c:625-732 | a call is accepted exactly when its name, arguments and child block are, and yields its node |
| CtmplParser.Parser.ParseElse | tools/ctmpl.c:767-801 | an else branch is taken exactly when the keyword follows the white space, otherwise the cursor is back; it succeeds exactly when the branch parses |
| CtmplParser.Parser.ParseIf | tools/ctmpl.c:734-803 | an if chain is accepted exactly when its conditions, blocks and else branches are, and yields the nested if-nodes |
| CtmplParser.Parser.ParseFor | tools/ctmpl.c:805-838 | a loop is accepted exactly when its head and its block are, and yields its node |
| CtmplParser.Parser.ParseText | tools/ctmpl.c:1213-1240 | a run stops at the first special character; the end of the source, and a closing brace behind anything but white space, are errors |
| CtmplParser.Parser.ParseItem | tools/ctmpl.c:1146-1245 | one round of the body loop reads the item that stands at the cursor, ends at a closing brace, or fails, exactly as the grammar says |
| CtmplParser.Parser.ParseBody | tools/ctmpl.c:1146-1245 | terminates on every source and succeeds exactly when items that may stand in a row lead to a closing brace; it returns these items, their nodes and the tags they leave open; on failure an error is reported |
| CtmplParser.Parser.ParseComponent | tools/ctmpl.c:1857-1880 | the body of a component is accepted exactly when its items lead to a closing brace with every tag closed; the accepted body is a well-formed piece whose tags nest in parse order |
| CtmplAccept.ParseUndoesPrint | tools/ctmpl.c:1146-1245 | every well-formed body whose neighbouring items keep their look-ahead apart and whose tags nest and are all closed is accepted in front of a closing brace, and its items are read back |
| CtmplLimits.FlagRefused | tools/ctmpl.c:1015-1067 | the tag `<a x="{y}"b?={c}>` is refused |
| CtmplConserve.MarkupConserved | tools/ctmpl.c:842-1245 | the texts of the parse tree, in order, are the markup of the items |
| CtmplSpans.EveryByteAccounted | tools/ctmpl.c:842-1245 | the source of every body is cut into kept and dropped spans: together they are its bytes, the kept ones with the inserted quotes and blanks are the texts of the tree, and the dropped ones are code, call heads, keywords, the braces of blocks and the white space beside them |
| CtmplConserve.StaticMarkupConserved | tools/ctmpl.c:1364-1392 | a body without expressions compiles to literals whose C values are exactly its source bytes less the white space before the closing brace |
| CtmplConserve.TextCompiles | tools/ctmpl.c:1566-1597 | merging text nodes into literals of bounded size loses and reorders nothing |
| CtmplRules.TextTaken | tools/ctmpl.c:1568-1597 | text nodes go into one literal until its length is above 4000 |
| CtmplLiteral.LiteralReadsBack | tools/ctmpl.c:1364-1392 | every text, escaped as a C literal, is read back exactly by the C rules |
| CtmplLiteral.EmitCharExactly | tools/ctmpl.c:1364-1392 | quotes, backslashes, newline, tab and carriage return have their escapes, other control codes three octal digits, all else stands for itself |
| CtmplPreserve.LiteralWritesExactly | tools/ctmpl.c:1364-1392 | the literal writes the text at run time exactly when the text has no NUL |
| CtmplLimits.NulAccepted | tools/ctmpl.c:918-1142 | the parser accepts an element with a NUL in its tag |
| CtmplLimits.NulExample | tools/ctmpl.c:1364-1392 | the function compiled from it writes less than the template means |
| CtmplPreserve.SimNodes | tools/ctmpl.c:1562-1651 | the emitted statements simulate the template tree step by step, with closures related to generated functions and every value passed to the writer of its context |
| CtmplPreserve.CompiledWritesMeaning | tools/ctmpl.c:1941-2003 | in every file whose functions are found under their names the component functions write what the templates mean |
| CtmplNames.NamesDistinctExactly | tools/ctmpl.c:1396-1440 | the generated function names are distinct exactly when no two components share a name and none is named like a generated function |
| CtmplNames.NoClashExactly | tools/ctmpl.c:1785-1812 | in a file that passes the checks of the compiler no name of a generated function, a runtime declaration or a handle stands for two things at file scope exactly when component names differ, none is that of a child function or a runtime function, and no handle is named like either or like a generated function |
| CtmplNames.UnguardedExactly | tools/ctmpl.c:1711-1726 | the component names that are let through and yet name a function of the runtime are exactly these ten |
| CtmplNames.RuntimeNamesExactly | tools/ctmpl.c:1711-1726 | the names of the runtime header and the reserved names, one by one |
| CtmplNames.RuntimeNameExample | tools/ctmpl.c:1711-1726 | a component named `css` passes the checks and clashes with the runtime |
| CtmplNames.HandleExample | tools/ctmpl.c:1789-1811 | a handle named `tpl_page` beside a component `page` passes the checks and clashes |
| CtmplNames.ShadowExample | tools/ctmpl.c:1711-1726 | a component named `_block_1` beside a call with a child block defines one function twice |
| CtmplScopes.NodesExactly | tools/ctmpl.c:1480-1651 | in the functions generated for a tree every name the generator writes is seen where it stands, every text it copies is complete and none uses the generator's own local, exactly when the template keeps the same in its own terms: nothing it declares hides a function or `out`, no `data` is called in a bound block and no `children` with a block, children and captured parameters are in scope, and data expressions fit their buffer |
| CtmplScopes.TextStep | tools/ctmpl.c:1568-1597 | text nodes merged into one literal ask of the scope what each of them asks |
| CtmplScopes.SiteExactly | tools/ctmpl.c:1525-1559 | at a call with a block the struct, its function, its data pointer and the called function are seen exactly when the callee is not `children`, nothing hides them and no argument uses `tpl_children` |
| CtmplScopes.BlockExactly | tools/ctmpl.c:1948-1986 | the function of a block and its adapter are in order exactly when the statements are, in the scope that the way of binding gives |
| CtmplFile.BuildsExactly | tools/ctmpl.c:1941-2003 | a file that passes the checks of the compiler builds exactly when no name clashes at file scope and every component keeps the condition on scopes and texts |
| CtmplFile.CompilationPreservesMeaning | tools/ctmpl.c:1941-2003 | under that condition and without NUL in texts the generated file builds, and whatever a component renders directly the file renders too |
| CtmplFile.BuildsExample | tools/ctmpl.c:1525-1559 | a page that passes a block using its own parameter to a card builds |
| CtmplFile.LocalNameExample | tools/ctmpl.c:1948-1966 | a component `data` called in a block bound to data passes every check and does not build |
| CtmplFile.ChildrenNameExample | tools/ctmpl.c:1545-1559 | a component `children` called with a block passes every check and does not build |
| CtmplFile.ParameterNameExample | tools/ctmpl.c:1532-1553 | a captured parameter named `tpl_children` passes every check and does not build |
| CtmplFile.CaptureExample | tools/ctmpl.c:1319-1337 | a block that captures the parameter, inside a block bound to data, passes every check and does not build |
| CtmplFile.CommentExample | tools/ctmpl.c:1598-1632 | the expression `{x // y` newline `}` is accepted, and the file does not build |
| CtmplOrder.CompileEarlier | tools/ctmpl.c:1941-2003 | a generated function refers only to child functions emitted before it |
| CtmplLines.ReadUndoesPrint | tools/ctmpl.c:1443-1478 | the lines of a program can be read back to its statements: chains and blocks nest unambiguously |
| CtmplEmitter.Emitter.CollectLambdas | tools/ctmpl.c:1396-1440 | child blocks are collected innermost first, else branches before then branches |
| CtmplEmitter.Emitter.EmitNodes | tools/ctmpl.c:1562-1651 | appends the lines of exactly the statements of the nodes |
| CtmplEmitter.Emitter.EmitIfChain | tools/ctmpl.c:1443-1478 | an if-node is written as a flat chain |
| CtmplEmitter.Emitter.EmitCall | tools/ctmpl.c:1480-1560 | a call is written with its children struct and data pointer |
| CtmplEmitter.Emitter.EmitLambda | tools/ctmpl.c:1948-1985 | a child block becomes a function and, where needed, an adapter, under its number |
| CtmplCapture.CaptureExactly | tools/ctmpl.c:1319-1338 | for every parameter list of declarations: with data, with two declarations or more, or with one that does not end in a name, the block takes tpl_data and passes the data or NULL; without declarations it takes nothing; with one that ends in a name it takes that parameter and the call passes it |
| CtmplCapture.NameExactly | tools/ctmpl.c:1283-1305 | the parameter's name is the identifier the declaration ends in, behind white space, behind a star or on its own |
| CtmplCapture.ModeExactly | tools/ctmpl.c:1319-1338 | the way of binding as a function of the declarations |
| CtmplCapture.AdaptersFit | tools/ctmpl.c:1948-1986 | in every compiled file an adapter stands right behind its function and passes as many arguments as that has parameters |
| CtmplRules.DecReadsBack | tools/ctmpl.c:1416-1422 | the number of a child function is written in decimal |
| CtmplEmitter.Emitter.CompileFile | tools/ctmpl.c:1941-2003 | the file is the lines of all child functions and then of all components |
| CtmplEmitter.LinesReadBack | tools/ctmpl.c:1562-1651 | the emitted lines of a body read back to its statements |
| TplRuntime.ExecuteIsFilter | src/c_http_tpl.c:673-739 | the depth and match counters select exactly the text under a fragment with the chosen name, for every tree |
| TplRuntime.SelectionFilters | src/c_http_tpl.c:673-710 | with a selection the output is the selected part of the full output, and the same once blocks fire |
| TplRuntime.FiresOnce | src/c_http_tpl.c:712-739 | a render-once handle fires at most once |
| TplOut.Output.LitN | src/c_http_tpl.c:100-115 | appends the text unless it is filtered out |
| TplOut.Output.WriteEscaped | src/c_http_tpl.c:163-177 | copying runs and replacing special characters appends the per-character escape |
| TplOut.Output.Select | src/c_http_tpl.c:673-681 | a selected fragment starts with all counters at zero |
| TplOut.Output.BeginFragment | src/c_http_tpl.c:683-695 | one more fragment is open; the outermost match is remembered |
| TplOut.Output.EndFragment | src/c_http_tpl.c:697-710 | one fragment closes; leaving the match ends the selection |
| TplOut.Output.BeginOnce | src/c_http_tpl.c:712-739 | true the first time a handle is seen in a render |
| TplEscape.DecodeUndoesEscape | src/c_http_tpl.c:155-177 | entity decoding gives every escaped text back |
| TplEscape.EscapeIsSafe | src/c_http_tpl.c:155-177 | escaped text has no raw angle bracket or quote and no ampersand outside the five entities |
| TplCss.ComputeCapacity | src/c_http_tpl.c:622-629 | the capacity counts the separators |
| TplCss.WriteOne | src/c_http_tpl.c:584-607 | one declaration is written whole; the early break and the clamp are never taken |
| TplCss.Rebuild | src/c_http_tpl.c:552-610 | within the computed capacity the buffer receives the fixed declarations and a NUL, for every input |
| TplCss.RebuiltIsSafe | src/c_http_tpl.c:552-610 | splitting the result again gives exactly the fixed declarations, and each is safe |
| TplCss.RebuildTwice | src/c_http_tpl.c:552-610 | rebuilding is idempotent |
| TplCss.SplitUndoesJoin | src/c_http_tpl.c:558-582 | joined declarations split into the same declarations, although values may contain separators in parentheses |
| TplCss.CheckUrls | src/c_http_tpl.c:447-480 | the url scan finds every url that is not closed or has a forbidden scheme |
| TplCss.CheckValue | src/c_http_tpl.c:482-497 | a value is unsafe for a control character or angle bracket, a script word, or an unsafe url |
| TplCssRules.UnsafeExactly | src/c_http_tpl.c:482-497 | unsafe are exactly the values with a code below 32, 127 or an angle bracket, with one of five words in any letter case, or with an unsafe url |
| TplCssRules.UrlsExactly | src/c_http_tpl.c:447-480 | a value made of urls and other text has an unsafe url exactly when one of them has a colon and begins with none of `http://`, `https://` and `data:image` |
| TplCssRules.OpenUrl | src/c_http_tpl.c:447-480 | a url that is not closed is unsafe |
| TplCssRules.PropExactly | src/c_http_tpl.c:427-440 | property names are letters, digits and dashes, and begin with no digit |
| TplCssRules.FixExactly | src/c_http_tpl.c:592-604 | a declaration stays as it is, keeps its property in front of the placeholder, or becomes the placeholder |
| JsonScan.SkipValue | src/c_http.c:3077-3176 | the recursive skipper is the bounded scan it stands for |
| JsonLookup.SkipPrinted | src/c_http.c:3077-3176 | skipping a printed value lands behind it exactly when it is nested no deeper than allowed |
| JsonString.DecodeString | src/c_http.c:2984-3068 | the buffer receives the text the units stand for, or the result is -1 for malformed or oversized strings; the flag tells when the NUL had no room |
| JsonString.FitsExactly | src/c_http.c:3003-3060 | a string is accepted exactly when it fits with its NUL, or fills the buffer and ends in a \u escape |
| JsonString.FitsExample | src/c_http.c:3037-3049 | one \u escape into a one-byte buffer is accepted |
| JsonString.Utf8ReadsBack | src/c_http.c:2944-2978 | the encoding of a code point decodes to it, is the shortest form and has no NUL |
| JsonString.UnitsReadBack | src/c_http.c:2984-3068 | a printed string decodes unit by unit, and is malformed exactly when an escape has no value |
| JsonText.TextReadsBack | src/c_http.c:2984-3068 | every text without NUL, printed with the escapes of section 7 of RFC 8259 chosen by code point, decodes to itself |
| JsonText.TextDecodes | src/c_http.c:2984-3068 | and it does so in every buffer with room for it and a NUL |
| JsonText.UnitExactly | src/c_http.c:2984-3068 | what may stand in a string: bytes from 32 on, a backslash with one of eight letters, or four hex digits that are neither 0 nor a surrogate; all else is malformed |
| JsonText.UnicodeReads | src/c_http.c:2931-2978 | four hex digits of either case stand for their code point in UTF-8; 0 and the surrogates are refused |
| JsonLookup.RequestString | src/c_http.c:3179-3242 | the accessor returns the decoded value found by the member search, or -1 |
| JsonLookup.LookupPrinted | src/c_http.c:3179-3242 | on every printed object, empty or with plain keys, the result is the text of the first member with the key when it is a string and nothing before it is nested too deep, otherwise -1; nested members play no part |
| JsonText.LookupText | src/c_http.c:3179-3242 | on every printed object whose value for the key is a printed text the accessor gives that text |
| JsonText.NumbersAreSkipped | src/c_http.c:3120-3176 | every number of section 6 of RFC 8259 is one the lookup skips |
| Multipart.Find | src/c_http.c:3250-3262 | finds the first occurrence |
| Multipart.DispositionAttr | src/c_http.c:3302-3340 | the attribute value is that of the first match at a word boundary, empty when malformed or too long |
| Multipart.AttrAtExactly | src/c_http.c:3302-3318 | an attribute begins the line or stands behind a semicolon, a blank or a tab, in any letter case |
| Multipart.ValueEndExactly | src/c_http.c:3319-3340 | a quoted value ends at the next quote, any other at a semicolon, a carriage return or the end; it is refused when it is too long or has a byte outside 32 to 126 |
| Multipart.PartHeaders | src/c_http.c:3344-3382 | the header lines are read one by one, the last value wins |
| Multipart.ParseMultipart | src/c_http.c:3387-3472 | the loop finds the parts of the specification |
| Multipart.PartsArePlaced | src/c_http.c:3425-3471 | on every body at most 16 parts, inside the body, disjoint, in order, each ending at the first delimiter, with a name below 32 and a file name and media type below 64 characters |
| MultipartForms.NoOverlap | src/c_http.c:3250-3262 | a delimiter that repeats its first character nowhere cannot overlap itself |
| MultipartForms.FileNameExactly | src/c_http.c:3302-3340 | for every disposition line without a file name, one comes back exactly when the first word `filename=` inside the quoted name is followed by a character of the name other than a semicolon; it is what follows up to a semicolon, or else to the end of the line with the closing quote |
| MultipartForms.FileNameExample | src/c_http.c:3302-3340 | a field named `a filename=b` comes back with the file name `b"` |
| MultipartForms.ParseUndoesPrint | src/c_http.c:3387-3472 | the named fields of a printed form, with any header lines in any letter case, come back with their names, file names, media types and exact data (section 5.1.1 of RFC 2046), sixteen at most; unnamed ones are skipped |
| Workers.InvAlways | src/c_http.c:1889-1976 | lock ownership, count, drain state and connection ownership stay consistent in every interleaving |
| Workers.CountIsRight | src/c_http.c:1915-1955 | the count is that of the workers reserved and not retired, never above the limit, and positive whenever it is decremented |
| WorkersSpawn.SpawnedExactly | src/c_http.c:1911-1957 | in every run, a connection the accept loop has let go of has a worker exactly when no step refused it: the server is threaded, there was memory, fewer than the limit were reserved and not retired when that was checked, and its thread was created |
| WorkersSpawn.InlineIsRefused | src/c_http.c:2202-2237 | the accept loop handles a connection itself only if a step refused it |
| WorkersSpawn.CreateServes | src/c_http.c:1940-1957 | a created thread is one more worker, and it has the connection |
| Workers.HandledOnce | src/c_http.c:2202-2237 | each connection is handled at most once and closed only after it, and exactly once when all is done |
| Workers.DrainedIsSafe | src/c_http.c:1961-1976 | when the drain completes the accept loop has returned and every worker has made its last access to the server |
| Workers.WorkShrinks | src/c_http.c:1961-1976 | after the accept loop has returned every step but a spurious wakeup brings the end nearer |
| Workers.NeverStuck | src/c_http.c:1889-1909 | until the drain completes some step is possible: no wakeup is lost |
| Workers.DrainCompletes | src/c_http.c:1961-1976 | from every such state the drain completes within a bounded number of steps |
| Workers.RunsEnd | src/c_http.c:1961-1976 | no run without spurious wakeups is longer than the work left |
| Routes.ParseSegments | src/c_http.c:313-375 | the loop computes the segments of a path, refusing a bare colon and oversized segments |
| Routes.ParseUndoesPrint | src/c_http.c:313-375 | printed segments are read back |
| Routes.MatchAndBind | src/c_http.c:391-429 | matches and binds exactly when the pattern matches and the values fit; otherwise the committed parameters stay |
| Routes.MatchBinds | src/c_http.c:2294-2318 | for every registered route and parsed path a match without binding implies that binding succeeds |
| Routes.RouteTable.Add | src/c_http.c:2242-2323 | a route is appended exactly when the path is acceptable and not taken; otherwise nothing changes |
| Routes.CheckParams | src/c_http.c:2294-2318 | at most 16 parameters, names that fit, none twice |
| Routes.MatchReadsTexts | src/c_http.c:391-429 | whether a pattern matches and what it binds depend on the texts of the request segments alone |
| Routes.SameMatchesExactly | src/c_http.c:2242-2318 | two request paths match the same routes, of all that can be registered, exactly when they have the same number of segments and the same texts, except where both texts start with a colon of their own, or when both have more than 16 such texts and no route matches either |
| Routes.ReachesPlainPathExactly | src/c_http.c:313-375 | a request matches the routes that another path, written without colons, matches exactly when some segment of it is written with a colon and none with two |
| Routes.ColonExample | src/c_http.c:326-331 | a request for `/:users` matches what one for `/users` matches |
| Dispatch.PickIsFirst | src/c_http.c:1490-1525 | in one table the first route with the verb wins, and the first GET route for HEAD only when no HEAD route matches |
| Dispatch.WinnerIsFirst | src/c_http.c:1477-1569 | a server route wins when there is one, otherwise the first mounted router that offers one |
| Dispatch.AllowIsList | src/c_http.c:1405-1422 | the Allow header is empty only without a method, and is the full list whenever that fits |
| Dispatch.MethodNames | src/c_http.c:288-315 | the names of the nine methods in that header |
| Dispatch.CollectAllow | src/c_http.c:1447-1475 | the header lists the methods of the matching routes of the server and of the mounted routers |
| Dispatch.VerbsExistExactly | src/c_http.c:1447-1475 | some method is collected exactly when some route matches the path |
| Dispatch.MethodNotAllowedExactly | src/c_http.c:1577-1602 | without a static answer the result is 404 exactly when no route matches, 405 exactly when one matches and none offers the verb |
| Dispatch.OutcomeReadsTexts | src/c_http.c:1477-1606 | for every server the winner and the outcome of a request are those of its bare segment texts |
| Dispatch.Execute | src/c_http.c:1477-1606 | the outcome is that of the first-match specification, and the parameters of the winner are bound in pattern order |
| Dispatch.DispatchPath | src/c_http.c:1777-1808 | a path that cannot be split matches nothing |
| Dispatch.Server.Use | src/c_http.c:2454-2511 | a router is mounted once, behind the others, at a literal prefix |

## Left out

- WsSession.HttpWs.Recv: the peer is any finite script of arrivals, timeouts and errors; where the script ends the call is shown as still waiting.
- WsSession.HttpWs.Deliver: the delivered bytes are a value; ownership of the buffer until the next call is not modelled.
- WsSession.HttpWs.SendFrame: the lock is modelled in WsWriters, not in the class, whose methods run one at a time.
- WsRoundTrip.DecodeUndoesEncode: lengths are below 2^63, which the format requires.
- CtmplFile.CompilationPreservesMeaning: one direction: where the direct rendering is defined the generated file gives the same; recursion without end and missing components are outside it.
- CtmplNames.NoClashExactly: names from other headers, the include guard, C keywords and the lines copied into a generated file are not compared.
- CtmplFile.BuildsExactly: types and numbers of arguments are left to the C compiler, and so is what C texts mean; which names a parameter list other than a plain single one, a for-head or an expression declares and uses is given. Backslash-newline splices and preprocessor lines inside C texts are not modelled.
- CtmplCapture.CaptureExactly: parameter lists without comments; a comma inside a comment counts like any other.
- CtmplParser.Parser.ParseInterp: a NUL byte inside an expression, which cuts it as a C string, is kept.
- MultipartForms.ParseUndoesPrint: the boundary is given; names, file names and media types are shorter than their buffers and names free of quotes, line breaks and words `filename=`.
- JsonLookup.LookupPrinted: keys without escapes, as the accessor documents.
- Dispatch.Execute: handlers, middleware and static file mounts are parameters; routes added to a router are those present at dispatch.
- Sha1.Stream.Final: the block function is a parameter; its rounds and the accept key built from it are not modelled.
- Allocation failures, out-of-memory paths and integer overflow of bracket counters.
- Error message texts; only positions are modelled.
- `#line` directives, indentation, headers, include lines and guards of generated files; the top level of a template file.
- What `emit_call` writes for a data expression longer than its 256-byte buffer, beyond that the file does not build.
- The check that decides whether style declarations need rebuilding, and the URL writers.
- Balanced tags in every execution: tags are checked in parse order, across branches.
- At most one close frame, or no data behind one: the code does not promise either.
- Handshake headers, subprotocols, UTF-8 validation of text messages (the code does none).
- Static files, content encoding, header parsing, timeouts, and the command line.
