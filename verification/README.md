# Two web servers and a chat server: a verified model

The repository holds two HTTP servers written in C++ (`webserv/` and `ATwebserv/`) and a chat
server written in C (`exam06/`). This project models the parts that carry state over unbounded
input, in the form the source gives them: classes with fields, arrays and a linked list that are
changed step by step, and proves what they are for. Methods are proved against specification
functions; the properties over whole inputs and whole runs are lemmas about those functions.

| file | models |
|---|---|
| `ChatProtocol.dfy` | the chat server as a state machine: what each step does, and what every run keeps |
| `ChatLines.dfy` | the lines it announces, from any contents of its line buffer |
| `ClientList.dfy` | its heap list of clients |
| `ChatServer.dfy` | its buffers, its functions and its main loop, proved to follow the state machine |
| `RequestFraming.dfy` | reassembly of a request from arbitrary fragments, and the completeness verdict |
| `RequestRun.dfy` | one connection over many fragments and many requests |
| `ChunkedBody.dfy` | the decoder for chunked bodies |
| `ChunkedCursor.dfy` | when the decoder's loop ends |
| `ChunkedFraming.dfy` | when a chunked message is taken to be complete |
| `Numbers.dfy` | decimal and hexadecimal conversions, with 32-bit and 64-bit wrap-around |
| `Base64.dfy`, `BasicAuth.dfy` | the Base64 codec and the password check built on it |
| `LineReader.dfy` | the line reader whose static buffer is shared by all descriptors |
| `ResponsePump.dfy` | short reads and partial writes of one response after another |
| `ActiveClient.dfy` | the round-robin token that says which client is served |
| `UrlCleaning.dfy`, `LocationChoice.dfy` | slash normalisation and the choice of the location that serves a URL |
| `Strings.dfy` | searching in strings, and lists of fragments |

The environment is an input: which descriptors are ready, which descriptor `accept` returns, how
many bytes `read` and `write` move, what they carry, and what time it is.

Where the code falls short of its intention, the model keeps the code, and states when it is right:

- `parse_body` slices chunk data from the start of the string, not from the cursor. It decodes a
  well-formed body exactly when the body has each chunk's data at that chunk's own data offset counted
  from the body's start (`ChunkedBody.DecodedExactlyWhenRepeating`); `ChunkedBody.SecondChunkMisread`
  is a body where it has not.
- `hex_to_dec` takes an upper-case letter for a value 32 too small and wraps around at 2^32. It is right
  exactly on the numerals without an upper-case letter whose value fits an int (`Numbers.HexToDecExact`);
  `Numbers.HexMisread` has a numeral of either kind that it misreads.
- A size that `hex_to_dec` reads as negative can hold the decoder's cursor or take it back. The loop never ends
  exactly when the cursor comes back to a position (`ChunkedCursor.NeverEndsExactlyOnRepeat`). It ends when
  each size that it reads is zero or more than minus the length of its line and four
  (`ChunkedCursor.EndsOnSizes`), as in every well-formed body (`ChunkedCursor.WellFormedReadsForward`), and
  the cursor stays where it is exactly on a size equal to that (`ChunkedCursor.StaysExactly`), as with
  the line "fffffff4", a legal number, or "R", which is none (`ChunkedCursor.StallingSizes`). Of any string, the
  loop ends within two turns more than the string is long or never (`ChunkedCursor.EndsSoonOrNever`).
- The completeness test for chunked messages looks at the last five body bytes alone. A message is judged
  complete with its last byte, and not before, exactly when its body ends in one '0' and four CR and LF bytes
  and no proper prefix of it does (`ChunkedFraming.CompleteExactlyAtTheOnlyTerminator`). When the line of the
  last chunk is a single zero, that is when the message carries no data and has no trailer or one whose last line ends
  in '0' (`ChunkedFraming.CompleteAtTheEndExactlyWithoutData`): with data it is judged complete with the
  line of its last chunk (`ChunkedFraming.CompleteTooEarly`), and without data but with any other
  trailer it never is (`ChunkedFraming.LastChunkAlone`).
- A fragment that runs over the end of a request is buffered as part of it. All requests of a connection,
  whatever their headers, are handled unchanged exactly when the fragments break at the end of each, the server
  takes its body to be whole there, and at no break before (`RequestRun.AllHandledExactlyWhenCutRight`). Only
  the ends matter when the server reads each request's length as it is, or the request has neither
  a length field that the server finds, nor "chunked", nor a body (`RequestRun.AllHandledExactlyWhenCut`); a
  length field in another spelling is one that it does not find. After an overrun, a request is complete if
  the length read is that of all the bytes, if it is chunked and they end like a terminator, or if it is neither
  (`RequestRun.Overrun`); once the bytes exceed the length read, nothing is handled any more
  (`RequestRun.AnnouncedStalls`).
- The overflow guards of `ft_atoi` look at the accumulator after it has wrapped around at 2^64. Below that they
  answer -1 or 0 (`Numbers.AtoiGuarded`); the numbers from 2^64 to 2^64 + 2^63 - 2 pass them and are taken for what
  is left above 2^64 (`Numbers.AtoiWraps`).
- A chunked body that ends before its last chunk is decoded as if it had one (`ChunkedBody.NoLastChunkFinishes`);
  one that ends inside a chunk's data throws (`ChunkedBody.CutShortThrows`).
- The length field's value is read from one byte after the colon. It is read right exactly when a blank stands
  there, or when a single digit is lost that what follows repeats (`RequestFraming.LengthReadExactlyAfterBlank`).
- Error cleanup drops the active client and passes the token to nobody. The server is sound after a run
  exactly when every error met a server with a single client (`ActiveClient.HealthyExactlyWhenFailedAlone`);
  otherwise no client is ever served again (`ActiveClient.StalledEverAfter`).
- The chat server keeps an unfinished line in a buffer that all clients share, and writes each text it
  receives over that buffer from its start. A client's own continuation therefore overwrites the line it has
  begun (`ChatLines.ContinuationOverwrites`), and what another client has left there can end up in its line
  (`ChatLines.LeftoverLeaks`). In every run, what is announced are the arrivals, the departures and the lines that
  were sent exactly when every text that ends a line begins that line itself and its first line covers what
  the texts before have left in the buffer (`ChatLines.AllAnnouncedExactlyWhen`). A text leaves the
  buffer clean exactly when it ends its last line (`ChatLines.CleanAfterExactlyComplete`).
- `get_next_line` hands what it has read ahead on one descriptor to the next call, whichever descriptor that is
  for. With BUFFER_SIZE 1, as it is built, there is nothing of that kind (`LineReader.Interleave`); with
  any larger one a file can get a line that is not its own (`LineReader.SharedBufferMixes`).
- A `return` directive that names no location leaves the look-up of the longest match listed after its
  location as it was, or an empty path if there is none, and appends the rest of the URL to it. The path is
  the root of the resulting location followed by the rest once exactly when the chosen location has no such
  directive (`LocationChoice.AnsweredExactlyWhenNamed`); `LocationChoice.UnknownTargetWithoutRoot` and
  `LocationChoice.UnknownTargetRepeatsRest` are requests that end without a root and with the rest twice.

## Model

| member | source | states |
|---|---|---|
| ClientList.NodesDiffer | exam06/mini_serv_original.c:78-134 | a chain of nodes that ends never visits a node twice, so changing one link changes no other |
| ClientList.ClientList.GetId | exam06/mini_serv_original.c:36-47 | the walk finds the id of the first client with the descriptor, or -1 |
| ClientList.ClientList.GetMaxFd | exam06/mini_serv_original.c:49-61 | the walk finds the largest of the listening socket and all listed descriptors |
| ClientList.ClientList.AddClientToList | exam06/mini_serv_original.c:78-99 | the list keeps its contents and order, the newcomer goes to its end with the next id |
| ClientList.ClientList.NodeBefore | exam06/mini_serv_original.c:127-128 | the walk stops at the node before the first match, so the dereferences that follow are defined |
| ClientList.ClientList.Unlink | exam06/mini_serv_original.c:120-131 | unlinking from the head or from the node before removes exactly that client and leaves a proper chain |
| ClientList.ClientList.RmClient | exam06/mini_serv_original.c:114-134 | exactly the first client with the descriptor goes, and its id comes back |
| ChatServer.ChatServer.constructor | exam06/mini_serv_original.c:180-184 | the program starts in the state machine's initial state |
| ChatServer.ChatServer.SendAll | exam06/mini_serv_original.c:63-76 | one copy to every listed client but the excepted one whose descriptor is in `cpy_write`, nobody else |
| ChatServer.ChatServer.AddClient | exam06/mini_serv_original.c:101-112 | an arrival on the heap list and the buffers is the arrival step of the state machine; the text fits `msg` |
| ChatServer.ChatServer.Tell | exam06/mini_serv_original.c:109-110 | an arrival or a departure is printed into `msg`, which it fits, and announced to everyone but its originator |
| ChatServer.ChatServer.DropClient | exam06/mini_serv_original.c:203-210 | a closed connection is the departure step of the state machine |
| ChatServer.ChatServer.PrintLine | exam06/mini_serv_original.c:147 | the printed line fits `buf` and reads "client id: line" |
| ChatServer.ChatServer.ClearLine | exam06/mini_serv_original.c:150-151 | clearing the two C strings leaves both buffers entirely zero |
| ChatServer.ChatServer.SayLine | exam06/mini_serv_original.c:147-151 | a complete line is announced once to everyone but its sender and the scratch buffers are zero again |
| ChatServer.ChatServer.TakeChar | exam06/mini_serv_original.c:143-153 | one character of the received text does one step of the line machine |
| ChatServer.ChatServer.ExMsg | exam06/mini_serv_original.c:136-156 | the whole received text is handled as the line machine says, and `str` is zero again |
| ChatServer.ChatServer.HandleReady | exam06/mini_serv_original.c:193-217 | a ready descriptor is served by the right one of three steps, and the invariant holds after it |
| ChatServer.ChatServer.VisitFd | exam06/mini_serv_original.c:191-217 | one iteration of the descriptor loop keeps to the sweep of the state machine |
| ChatServer.ChatServer.Select | exam06/mini_serv_original.c:187-188 | every listed descriptor is in `cpy_write` when a turn starts |
| ChatServer.ChatServer.Turn | exam06/mini_serv_original.c:187-219 | one turn of the main loop is one turn of the state machine, although the loop's bound is recomputed on the way |
| ChatServer.ChatServer.Run | exam06/mini_serv_original.c:185-221 | the program over any run of turns reaches the state machine's state, with its invariant |
| ChatProtocol.DeliverOnce | exam06/mini_serv_original.c:63-76 | a client receives a sent text exactly once if it is an intended, writable receiver, and otherwise nothing |
| ChatProtocol.AnnounceMail | exam06/mini_serv_original.c:63-76 | an announcement that reaches everyone present but its originator keeps every mailbox what the history owes it |
| ChatProtocol.AcceptKeepsInv | exam06/mini_serv_original.c:101-112 | an arrival keeps list, set, ids and mailboxes consistent, although descriptors are reused |
| ChatProtocol.RemovedAt | exam06/mini_serv_original.c:114-134 | with distinct descriptors, the id looked up and the client removed are one and the same |
| ChatProtocol.LeaveKeepsInv | exam06/mini_serv_original.c:203-210 | a departure keeps them consistent; those who stay are told, the leaver is not |
| ChatProtocol.SayKeepsInv | exam06/mini_serv_original.c:136-156 | any received text, complete lines or not, keeps them consistent |
| ChatProtocol.ReadyIsListed | exam06/mini_serv_original.c:193-206 | every ready descriptor but the listening one is a listed client's, so every removal finds its node |
| ChatProtocol.TurnKeepsInv | exam06/mini_serv_original.c:187-219 | one turn of the main loop keeps the invariant |
| ChatProtocol.RunKeepsInv | exam06/mini_serv_original.c:185-221 | in every run: the set is the socket and the listed descriptors, these are distinct, ids increase and stay below the counter, the history is lawful with exactly the ids handed out arriving in it, and each client has been sent what the history owes it |
| ChatProtocol.LawfulOrder | exam06/mini_serv_original.c:185-215 | a client arrives once and before anything else it does, and speaks and leaves only between its arrival and its departure |
| ChatProtocol.OwedSinceArrival | exam06/mini_serv_original.c:63-76 | what a client is owed is what it is to hear of the events after its one arrival |
| ChatProtocol.AcceptTells | exam06/mini_serv_original.c:101-112 | an arrival sends "server: client id just arrived" with the newcomer's id to every listed client once, and nothing to anyone else |
| ChatProtocol.LeaveTells | exam06/mini_serv_original.c:203-210 | a departure sends "server: client id just left" with the leaver's id to every client that stays once, and nothing to anyone else |
| ChatProtocol.LineTells | exam06/mini_serv_original.c:136-156 | a line is sent behind "client id: " with the sender's id to every other client once, and to nobody else |
| ChatProtocol.SingleReady | exam06/mini_serv_original.c:191-217 | a turn with one ready descriptor accepts, drops or reads that one and does nothing else |
| ChatProtocol.ArrivalInRun | exam06/mini_serv_original.c:185-221 | after any run, the next arrival is told to everyone connected, in these words |
| ChatProtocol.DepartureInRun | exam06/mini_serv_original.c:185-221 | after any run, the next departure is told to everyone who stays, in these words |
| ChatProtocol.SentSinceArrival | exam06/mini_serv_original.c:185-221 | in every run, each client that ever joined was sent exactly the events after its arrival that it did not originate, in these words, in order, once each, until it left |
| ChatProtocol.MaxFdCoversOpen | exam06/mini_serv_original.c:49-61 | no descriptor in the set is above the maximum that `select` and the loop use |
| ChatProtocol.TurnArrivals | exam06/mini_serv_original.c:187-219 | a turn admits at most one client |
| ChatLines.LinesPartitionText | exam06/mini_serv_original.c:136-156 | the complete lines of a text and its remainder concatenate to the text |
| ChatLines.LinesAreLines | exam06/mini_serv_original.c:136-156 | each of them ends with its only line end |
| ChatLines.RestOfCompleteLines | exam06/mini_serv_original.c:136-156 | the remainder is empty exactly when the text ends with a line end |
| ChatLines.SayAnnouncesLines | exam06/mini_serv_original.c:136-156 | each complete line is announced once, in order, and exactly the remainder stays in the line buffer |
| ChatLines.SayAnnounces | exam06/mini_serv_original.c:136-156 | from any line buffer and cursor: exactly which lines are announced, the first one written over the old contents, and exactly what stays behind |
| ChatLines.AnnouncedExactlyWhenShort | exam06/mini_serv_original.c:136-156 | given the line that the client has begun in earlier texts: the lines that end in this text are announced as sent if and only if it has no line end, or its first line was not begun before and covers the buffer's old contents |
| ChatLines.RunFollows | exam06/mini_serv_original.c:185-221 | in every run, the history and the line buffer are those of its arrivals, departures and texts, each text announced over what those before it left |
| ChatLines.ChangeEndsTurn | exam06/mini_serv_original.c:191-217 | an arrival or a departure is the last thing that happens in its turn |
| ChatLines.AllAnnouncedExactlyWhen | exam06/mini_serv_original.c:185-221 | in every run, with descriptors used again, what is announced is every arrival, departure and line as sent if and only if each text that ends a line begins that line itself and covers the buffer's old contents with it |
| ChatLines.ContinuationOverwrites | exam06/mini_serv_original.c:136-156 | of the line "hello" sent in two texts, only "lo" is announced |
| ChatLines.CleanAfterExactlyComplete | exam06/mini_serv_original.c:136-156 | from any line buffer, it is clean after a text exactly when the text ends its last line, or is empty and the buffer was clean |
| ChatLines.LeftoverLeaks | exam06/mini_serv_original.c:136-156 | from a clean buffer, one client's unfinished "abc" makes another client's line "x" end in the stale "c" |
| ChatLines.RunKeepsCleanLine | exam06/mini_serv_original.c:185-221 | over every run of texts made of complete lines the line buffer is clean at each loop top |
| ChatProtocol.AnnouncementsFit | exam06/mini_serv_original.c:26-27 | every announcement fits the buffer it is printed into, terminator included |
| RequestFraming.RequestBuf.AddHeaderData | webserv/webserver/server/request_buf.cpp:11-21 | headers are cut after the first blank line and what follows it becomes the first body fragment |
| RequestFraming.HeadersOfPrefix | webserv/webserver/server/request_buf.cpp:30-34 | while a message arrives, the headers count as received exactly from the end of its blank line on, and are then exactly its headers |
| RequestFraming.RequestBuf.ScanFragment | webserv/webserver/server/request_buf.cpp:48-58 | the inner loop over one fragment decides for the whole body, or leaves counters that describe everything read so far |
| RequestFraming.RequestBuf.ScanBody | webserv/webserver/server/request_buf.cpp:46-60 | the reverse scan over fragments decides a property of the flattened body: its last five bytes are one '0' and four CR/LF bytes |
| RequestFraming.RequestBuf.ValidateRequest | webserv/webserver/server/request_buf.cpp:36-64 | the verdict is that of the length field if there is one, of the scan for a chunked message, and valid for any other |
| RequestFraming.ForeignByte | webserv/webserver/server/request_buf.cpp:54-55 | the scan may give up at a byte that is none of '0', CR, LF: no terminator can reach across it |
| RequestFraming.ScanStep | webserv/webserver/server/request_buf.cpp:47-58 | the counters stand at one and four exactly when the part read ends in a terminator, which then ends the body |
| RequestFraming.Server.UpdateRequestBuffer | webserv/webserver/server/server.cpp:138-158 | the descriptor's framing advances by the fragment, every other descriptor's is untouched, and the verdict is that of the new framing |
| RequestFraming.Server.RemoveHandledRequest | webserv/webserver/server/server.cpp:116-123 | the descriptor starts afresh |
| RequestFraming.PushKeepsFraming | webserv/webserver/server/request_buf.cpp:11-34 | one more fragment keeps headers, body and size equal to those of the stream so far, also when the blank line is split between fragments |
| RequestFraming.FramingFollowsStream | webserv/webserver/server/server.cpp:138-158 | for every fragmentation, headers followed by the flattened body is the stream, the headers end at the first blank line, and the size is the body's length |
| RequestFraming.VerdictIgnoresFragmentation | webserv/webserver/server/server.cpp:138-158 | two fragmentations of one stream give the same headers, body bytes and verdict |
| RequestFraming.AnnouncedLengthIsRead | webserv/webserver/server/request_buf.cpp:41-42 | the length that the servers print into a header section is the number read back from it |
| RequestFraming.LengthReadExactlyAfterBlank | webserv/webserver/server/request_buf.cpp:41-42 | the announced number is read as it is if and only if a blank follows the colon, or it is a single digit that what follows is read as |
| RequestFraming.AnnouncedVerdict | webserv/webserver/server/request_buf.cpp:41-45 | with an announced length the verdict is valid exactly when so many body bytes have arrived |
| RequestFraming.CompleteExactlyAtTheEnd | webserv/webserver/server/request_buf.cpp:36-45 | under every fragmentation, a message that announces its length is judged invalid at each proper prefix, valid with its last byte, and invalid again beyond |
| RequestFraming.ChunkedVerdict | webserv/webserver/server/request_buf.cpp:46-60 | a chunked message is judged valid exactly when its body ends in the terminator, wherever the fragments break |
| RequestFraming.LastChunkIsTerminator | webserv/webserver/server/request_buf.cpp:46-60 | every body that ends in the last chunk is accepted |
| RequestRun.HandleFragment | webserv/webserver/server/webserver.cpp:129-137 | one fragment is framed, and a completed request is handed over and forgotten; other descriptors are untouched |
| RequestRun.HandleFragments | webserv/webserver/server/webserver.cpp:125-146 | over any fragments, the descriptor's buffer is what the fragments since the last request come to |
| RequestRun.Judged | webserv/webserver/server/request_buf.cpp:36-64 | whatever the headers, buffered bytes are judged by what the server takes for the whole body of the message that is due, and are framed as its headers and the bytes after them |
| RequestRun.EndsByKind | webserv/webserver/server/request_buf.cpp:36-64 | which body that is: one as long as the length read, with a length field; one that ends in a terminator, if chunked; any, otherwise |
| RequestRun.PrintedLengthIsRead | webserv/webserver/server/response.cpp:30-39 | a length line as the servers print it is read as the body's length |
| RequestRun.ServedWhileCutRight | webserv/webserver/server/webserver.cpp:125-146 | of any sequence of messages with complete headers, under every fragmentation, the messages before the first that is not cut right are handed over unchanged, and that one is missed or handed over changed |
| RequestRun.AllHandledExactlyWhenCutRight | webserv/webserver/server/webserver.cpp:125-146 | all messages are handed over unchanged if and only if the fragments break at the end of each, its body looks whole there, and at no break before |
| RequestRun.AllHandledExactlyWhenCut | webserv/webserver/server/webserver.cpp:125-146 | when the server reads each body's length, or finds neither a length nor "chunked" and there is no body, all messages are handed over unchanged if and only if every message end is a fragment boundary |
| RequestRun.Overrun | webserv/webserver/server/request_buf.cpp:36-64 | what a fragment over the end of a message does: with a length field it is complete if the length read is that of all the bytes, a chunked one if they end in a terminator, any other always, and it is never the message that was sent |
| RequestRun.AnnouncedStalls | webserv/webserver/server/webserver.cpp:125-146 | once more bytes are buffered than the length read, nothing is handed over whatever arrives |
| RequestFraming.ChunkedPrefixVerdict | webserv/webserver/server/request_buf.cpp:46-60 | at each prefix of a chunked message the verdict is the terminator test on the body bytes so far |
| RequestFraming.BarePrefixVerdict | webserv/webserver/server/request_buf.cpp:61-62 | a message without a length and not chunked is complete from its blank line on, whatever follows |
| RequestFraming.FrameOfPrefix | webserv/webserver/server/server.cpp:138-158 | what is framed of the first bytes of any message: its headers and the body bytes so far |
| ChunkedFraming.CompleteExactlyAtTheOnlyTerminator | webserv/webserver/server/request_buf.cpp:46-60 | any chunked message is judged complete with its last byte and at no prefix before if and only if its body ends in a terminator and no proper prefix of the body does |
| ChunkedFraming.CompleteTooEarly | webserv/webserver/server/request_buf.cpp:46-60 | with at least one data chunk and a single zero as the last chunk's line, the message is judged complete with that line, before its end, under every fragmentation |
| ChunkedFraming.NoneInside | webserv/webserver/server/request_buf.cpp:46-60 | no prefix of the last chunk and its trailer that ends before the last byte looks like a terminator |
| ChunkedFraming.LastChunkAlone | webserv/webserver/server/request_buf.cpp:46-60 | without data and with a single zero as the last chunk's line, the message is judged complete with its last byte if the line before the blank one ends in '0', and at no byte otherwise |
| ChunkedFraming.CompleteAtTheEndExactlyWithoutData | webserv/webserver/server/request_buf.cpp:46-60 | a chunked message with any trailer, whose last chunk's line is a single zero, is judged complete with its last byte and at no prefix before if and only if it carries no data and its last line before the blank one ends in '0', as without a trailer |
| ChunkedBody.AppendAll | webserv/webserver/server/header_handler.cpp:120-129 | the fragments are joined in order |
| ChunkedBody.TakeTurn | webserv/webserver/server/header_handler.cpp:131-136 | one turn of the cursor loop: where it stops, where `substr` throws, what it takes and where the cursor goes, with npos, negative counts and wrap-around |
| ChunkedBody.HeaderHandler.ParseBody | webserv/webserver/server/header_handler.cpp:116-140 | a body with a length is joined as it is, any other is decoded turn by turn from the start of the joined string |
| ChunkedBody.TurnAtChunk | webserv/webserver/server/header_handler.cpp:130-137 | from a chunk's size line the cursor lands exactly on the next one, whatever bytes the data holds |
| ChunkedBody.TurnAtZero | webserv/webserver/server/header_handler.cpp:130-134 | at the zero chunk the loop ends |
| ChunkedBody.DecodesWellFormed | webserv/webserver/server/header_handler.cpp:123-139 | every well-formed body is read to its zero chunk, and the decoded length is the sum of the sizes; sliced at the cursor the result is exactly the chunks' data |
| ChunkedBody.DecodeThrough | webserv/webserver/server/header_handler.cpp:130-137 | the loop goes through well-formed chunks one by one, whatever follows them |
| ChunkedBody.CutShortThrows | webserv/webserver/server/header_handler.cpp:130-137 | a body that ends inside a chunk's data or before its line end throws |
| ChunkedBody.NoLastChunkFinishes | webserv/webserver/server/header_handler.cpp:130-137 | a body that ends before its last chunk is decoded as if it had one |
| ChunkedBody.DecodedExactlyWhenRepeating | webserv/webserver/server/header_handler.cpp:135 | the code's result is the chunks' data if and only if, for every chunk, the body has its data at the chunk's data offset counted from the body's start |
| ChunkedBody.CopiesDecode | webserv/webserver/server/header_handler.cpp:135 | one data chunk, or copies of one chunk, decode correctly |
| ChunkedBody.SecondChunkMisread | webserv/webserver/server/header_handler.cpp:135 | the chunks "a" and "b" decode to "aa" |
| ChunkedCursor.EndsOnSizes | webserv/webserver/server/header_handler.cpp:130-137 | from any position the loop ends, within as many turns as bytes remain and two, when each size that it reads is zero or more than minus the length of its line and four |
| ChunkedCursor.WellFormedReadsForward | webserv/webserver/server/header_handler.cpp:130-137 | every well-formed body meets that condition |
| ChunkedCursor.StaysExactly | webserv/webserver/server/header_handler.cpp:131-136 | a turn leaves the cursor where it is if and only if the size read is minus the length of the size line and four |
| ChunkedCursor.RepeatsForever | webserv/webserver/server/header_handler.cpp:130-137 | a cursor that comes back to a position never gets away |
| ChunkedCursor.NeverEndsExactlyOnRepeat | webserv/webserver/server/header_handler.cpp:130-137 | the loop never ends if and only if its cursor is at one position after two different numbers of turns |
| ChunkedCursor.EndsSoonOrNever | webserv/webserver/server/header_handler.cpp:130-137 | for every string the loop ends within two turns more than its length, or never |
| ChunkedCursor.SizeLineStalls | webserv/webserver/server/header_handler.cpp:130-137 | a body of one such size line holds the loop for any number of turns |
| ChunkedCursor.StallingSizes | webserv/webserver/server/header_handler.cpp:130-137 | "R" and the lower-case number "fffffff4" are such lines |
| Numbers.GetNSize | webserv/webserver/helper/lib_functions.cpp:48-62 | the computed size is the length of the decimal notation, sign included |
| Numbers.PutInArray | webserv/webserver/helper/lib_functions.cpp:64-91 | every write is inside the array and it ends up holding the decimal notation and a NUL, also for the smallest int |
| Numbers.FtItoa | webserv/webserver/helper/lib_functions.cpp:93-106 | a fresh array of exactly the needed size with the decimal notation and a NUL |
| Numbers.DecimalLength | webserv/webserver/helper/lib_functions.cpp:48-62 | no int needs more than 11 characters |
| Numbers.FtAtoi | webserv/webserver/helper/lib_functions.cpp:3-28 | the loops compute the specified conversion, with both overflow guards and the final narrowing |
| Numbers.NarrowedProduct | webserv/webserver/helper/lib_functions.cpp:27 | the unsigned 64-bit product with the sign, narrowed to int, is the signed number |
| Numbers.AtoiReads | webserv/webserver/helper/lib_functions.cpp:3-28 | blanks, one sign and every digit up to the first other byte are read as the number they denote |
| Numbers.BlanksAre | webserv/webserver/helper/lib_functions.cpp:12 | the bytes skipped in front are the space and the five control characters from tab to carriage return |
| Numbers.DigitsAre | webserv/webserver/helper/lib_functions.cpp:20-85 | digits are printed and read as "0123456789" |
| Numbers.AtoiGuarded | webserv/webserver/helper/lib_functions.cpp:18-26 | numbers from 2^63 - 1, or 2^63 after a minus, and below 2^64 are taken for -1 or 0, whatever digits follow |
| Numbers.AtoiWraps | webserv/webserver/helper/lib_functions.cpp:18-26 | the numbers from 2^64 to 2^64 + 2^63 - 2 pass the guards and are taken for what is left above 2^64 |
| Numbers.AtoiItoa | webserv/webserver/helper/lib_functions.cpp:3-106 | `ft_atoi` undoes `ft_itoa` on every int, whatever non-digit text follows |
| Numbers.HexToDecimal | webserv/webserver/helper/check_functions.cpp:41-58 | the loop from the right computes the positional value from the left, modulo 2^32, or -1 for a digit out of range |
| Numbers.HexDefect | webserv/webserver/helper/check_functions.cpp:32-58 | an upper-case letter costs 32 at its position, which bounds how far off a numeral can be |
| Numbers.HexToDecExact | webserv/webserver/helper/check_functions.cpp:32-58 | on hexadecimal numerals of any length the result is their value if and only if no letter is upper case and the value fits an int |
| Numbers.HexMisread | webserv/webserver/helper/check_functions.cpp:32-58 | "100000000" is taken for 0 and "A" for -22 |
| Numbers.HexDigitsAre | webserv/webserver/helper/check_functions.cpp:32-38 | letters and digits stand for the values of "0123456789abcdef" |
| Numbers.HexForeign | webserv/webserver/helper/check_functions.cpp:50-53 | any of the letters g to z makes the result -1 |
| Numbers.HighBytesAreNegative | webserv/webserver/helper/check_functions.cpp:32-38 | a byte above 127 counts as a digit of a negative value |
| Base64.OctetsOfSextets | webserv/webserver/server/Base64.cpp:49-93 | the decoder's shifts undo the encoder's on every group of three bytes |
| Base64.FillerIsHarmless | webserv/webserver/server/Base64.cpp:101-114 | the bytes of an incomplete group do not depend on what the failed look-up of the filler stores |
| Base64.FillSextets | webserv/webserver/server/Base64.cpp:49-52 | the four array elements are the group's sextets |
| Base64.AppendLetters | webserv/webserver/server/Base64.cpp:54-55 | the first n sextets are appended as letters |
| Base64.Base64Encode | webserv/webserver/server/Base64.cpp:39-76 | the byte loop over two reused arrays computes the standard's encoding |
| Base64.EncodeTail | webserv/webserver/server/Base64.cpp:60-74 | one or two left-over bytes become two or three letters and the padding |
| Base64.LookupAll | webserv/webserver/server/Base64.cpp:105-106 | each letter is replaced in place by its index, 255 for a byte outside the alphabet |
| Base64.AppendOctets | webserv/webserver/server/Base64.cpp:91-96 | the first n bytes of the group are appended |
| Base64.Base64Decode | webserv/webserver/server/Base64.cpp:77-116 | the loop decodes everything before the first padding or foreign byte, group by group, and gives back any bytes from the standard's encoding of them |
| Base64.DecodeTail | webserv/webserver/server/Base64.cpp:101-114 | an incomplete group of i letters gives i - 1 bytes |
| Base64.DecodeEncode | webserv/webserver/server/Base64.cpp:39-116 | decoding undoes encoding on every byte sequence |
| Base64.EncodeShape | webserv/webserver/server/Base64.cpp:39-76 | the length is 4 * ceil(n / 3), the padding is (3 - n mod 3) mod 3 characters at the end, everything before it is in the alphabet |
| Base64.EncodeIsStandard | webserv/webserver/server/Base64.cpp:30-76 | for every byte sequence: each three bytes, as a number of 24 bits, become the four characters at its base-64 digits in the alphabet as written out, and one or two left over the first two or three characters and == or = |
| Base64.EncodedGroupAt | webserv/webserver/server/Base64.cpp:47-58 | characters 4g to 4g + 3 of the encoding are those of bytes 3g to 3g + 2 |
| Base64.DecodeChars | webserv/webserver/server/Base64.cpp:85-98 | the four characters of any number of 24 bits decode to its three bytes, whatever follows |
| BasicAuth.ValidateUserPassword | webserv/webserver/server/header_handler.cpp:158-183 | the search over the password lines computes the specified decision, including the exception of `substr` |
| BasicAuth.ListedIsRegistered | webserv/webserver/server/header_handler.cpp:170-181 | the search succeeds exactly when some line matches and every line before it holds a colon |
| BasicAuth.RegisteredMeans | webserv/webserver/server/header_handler.cpp:170-181 | the lines that let a user in are the user, a colon and an encoding of the password, behind lines that all hold a colon |
| BasicAuth.AcceptedExactlyWhenRegistered | webserv/webserver/server/header_handler.cpp:158-183 | for a user without ':' and any password, "Basic " and the standard's encoding of user, colon and password is accepted if and only if the file has such a line |
| BasicAuth.WithoutCredentials | webserv/webserver/server/header_handler.cpp:160-163 | without "Basic" a header is rejected, and one that ends with it throws |
| LineReader.Cpy | webserv/webserver/gnl/get_next_line_utils.cpp:15-36 | a fresh array with the same C string |
| LineReader.JoinFree | webserv/webserver/gnl/get_next_line_utils.cpp:38-65 | a fresh array with the two C strings one after the other |
| LineReader.LineBreak | webserv/webserver/gnl/get_next_line_utils.cpp:67-81 | whether the C string holds a line end |
| LineReader.ReturnValue | webserv/webserver/gnl/get_next_line_utils.cpp:83-95 | 1 exactly when the buffer holds anything |
| LineReader.SaveLine | webserv/webserver/gnl/get_next_line.cpp:49-66 | a fresh array with the buffer's first line |
| LineReader.SaveRemainder | webserv/webserver/gnl/get_next_line.cpp:26-47 | a fresh array with what follows the first line end, empty when there is none |
| LineReader.CopyRest | webserv/webserver/gnl/get_next_line.cpp:37-43 | the copying loop ends with exactly the remainder and a NUL in the new array |
| LineReader.LineAcross | webserv/webserver/gnl/get_next_line.cpp:77-92 | once the buffer holds a line end or the file has ended, splitting the buffer splits the whole pending text |
| LineReader.Descriptor.Read | webserv/webserver/gnl/get_next_line.cpp:79 | any short read: at least one byte before the end of the file, none only there |
| LineReader.Reader.Fill | webserv/webserver/gnl/get_next_line.cpp:79-81 | one read is appended to the static buffer, as a C string |
| LineReader.Reader.FillUntilBreak | webserv/webserver/gnl/get_next_line.cpp:77-86 | the loop ends with a line end in the buffer or at the end of the file, and neither loses nor repeats a byte |
| LineReader.Reader.TakeLine | webserv/webserver/gnl/get_next_line.cpp:87-92 | the end of a call gives out the buffer's first line and keeps exactly the rest |
| LineReader.Reader.GetNextLine | webserv/webserver/gnl/get_next_line.cpp:68-93 | a call returns the first pending line and keeps exactly the rest pending; 0 exactly at the end; with BUFFER_SIZE 1 nothing is held between calls |
| LineReader.LinesHaveNoBreaks | webserv/webserver/gnl/get_next_line.cpp:68-93 | no line holds a line end |
| LineReader.SplitLinesRejoins | webserv/webserver/gnl/get_next_line.cpp:68-93 | the lines, each with a line end, are the file again, with one line end added if the last line had none |
| LineReader.ReadLines | webserv/webserver/server/location_context.cpp:101-104 | for every buffer size and every schedule of short reads the loop ends and has exactly the file's lines |
| LineReader.CallOnce | webserv/webserver/gnl/get_next_line.cpp:68-93 | with BUFFER_SIZE 1 a call delivers the next line of its own file and leaves the buffer empty for the next descriptor |
| LineReader.Interleave | webserv/webserver/server/location_context.cpp:92-110 | with BUFFER_SIZE 1, calls on two descriptors in any order give each its own first lines, as many as calls were made on it |
| LineReader.CallReadingAhead | webserv/webserver/gnl/get_next_line.cpp:68-93 | a call on a file that one read takes in leaves all but its first line in the static buffer |
| LineReader.SharedBufferMixes | webserv/webserver/gnl/get_next_line.cpp:68-93 | for every BUFFER_SIZE of two or more there are two files and a call on each that give the second one a line with bytes of the first |
| ActiveClient.Server.UpdateActiveClient | webserv/webserver/server/file_descriptors.cpp:95-114 | the one loop over flags activates exactly the first client after the given one, or the first of all |
| ActiveClient.Server.AcceptClient | webserv/webserver/server/webserver.cpp:109-114 | the newcomer goes to the end, active only if it is alone, with its time recorded |
| ActiveClient.HeardClientStays | webserv/webserver/server/file_descriptors.cpp:144-178 | a client that has been heard from is not removed before the time limit has passed |
| ActiveClient.Server.CheckTimeOut | webserv/webserver/server/file_descriptors.cpp:158-178 | the client goes exactly when its recorded time is set and old enough, and nobody else does |
| ActiveClient.Server.PassWhenIdle | webserv/webserver/server/webserver.cpp:203-206 | the token moves on before the idle client may be removed |
| ActiveClient.Server.RemoveClient | webserv/webserver/server/server.cpp:125-134 | the client with this descriptor goes, the order of the others stays |
| ActiveClient.Server.CleanUpAfterError | webserv/webserver/server/webserver.cpp:254-259 | the failing client goes and no flag of another client changes |
| ActiveClient.Server.Handle | webserv/webserver/server/webserver.cpp:101-213 | an accepted connection, and what a pass does to the active client, is one step of the model |
| ActiveClient.PassMovesToNext | webserv/webserver/server/file_descriptors.cpp:95-114 | one pass activates the cyclically next position and nobody else |
| ActiveClient.PassesMoveAround | webserv/webserver/server/file_descriptors.cpp:95-114 | k passes from position i activate exactly position (i + k) mod n |
| ActiveClient.EveryoneIsReached | webserv/webserver/server/file_descriptors.cpp:95-114 | from any position every client is active within n passes |
| ActiveClient.TokenMovesAround | webserv/webserver/server/webserver.cpp:117-206 | from any state with position i of n active, over any events that remove nobody, position (i + k) mod n is active after k completed responses and idle passes |
| ActiveClient.EveryoneIsServed | webserv/webserver/server/webserver.cpp:117-206 | within n - 1 of them every client has been active |
| ActiveClient.RunContinues | webserv/webserver/server/webserver.cpp:101-214 | such events may follow any run of the server |
| ActiveClient.IdleRemovedExactlyWhenOld | webserv/webserver/server/file_descriptors.cpp:158-178 | an idle client is removed if and only if its recorded time is set and the time limit has passed since |
| ActiveClient.StepKeepsMonitored | webserv/webserver/server/file_descriptors.cpp:144-178 | every listed client has a recorded time, so the look-up in `check_time_out` never misses |
| ActiveClient.StepHealth | webserv/webserver/server/webserver.cpp:101-214 | accepting, hearing from, answering and timing out a client keep exactly one active; an error does so if and only if the failing client was alone |
| ActiveClient.StalledForGood | webserv/webserver/server/webserver.cpp:254-259 | in one step without a token only an arrival can happen, and it does not bring the token back |
| ActiveClient.StalledEverAfter | webserv/webserver/server/webserver.cpp:254-259 | after an error at a server with other clients, every later event of any run is an arrival, and nobody is active ever again |
| ActiveClient.AtMostOneInEveryRun | webserv/webserver/server/webserver.cpp:101-214 | in every run at most one client is active, and without errors exactly one whenever anyone is connected |
| ActiveClient.HealthyExactlyWhenFailedAlone | webserv/webserver/server/webserver.cpp:254-259 | after any run exactly one client is active whenever anyone is connected, if and only if every error met a server with a single client |
| ResponsePump.HeaderHandler.ReadRequestedFile | webserv/webserver/server/header_handler.cpp:630-641 | a short read from the counter's position appends exactly the bytes the counter passes over |
| ResponsePump.HeaderHandler.GenerateContentLength | webserv/webserver/server/response.cpp:30-39 | the length line carries the size narrowed to int |
| ResponsePump.HeaderHandler.CreateResponse | webserv/webserver/server/header_handler.cpp:665-695 | header section and, unless HEAD was asked, the file, appended to the response; its size is recorded |
| ResponsePump.HeaderHandler.SendResponse | webserv/webserver/server/header_handler.cpp:697-707 | a partial write sends the next unsent bytes; the last one resets the handler |
| ResponsePump.HeaderHandler.ResetHandler | webserv/webserver/server/header_handler.cpp:711-742 | everything the pump uses is cleared but the read counter |
| ResponsePump.Connection.HandleRequest | webserv/webserver/server/file_descriptors.cpp:45-56 | the file is watched, or without a file the client for writing |
| ResponsePump.Connection.ReadingPhase | webserv/webserver/server/webserver.cpp:148-182 | the reading phase is the model's, and says when the pass is over |
| ResponsePump.Connection.BuildOnce | webserv/webserver/server/webserver.cpp:189-190 | a response is built only when none of it has been written |
| ResponsePump.Connection.SendSome | webserv/webserver/server/header_handler.cpp:697-707 | what the write takes goes to the end of the wire |
| ResponsePump.Connection.SendingPhase | webserv/webserver/server/webserver.cpp:184-197 | the sending phase is the model's, with the descriptors handed back at the end |
| ResponsePump.Connection.ServePass | webserv/webserver/server/webserver.cpp:148-201 | one pass of the client loop on the fields and descriptor sets is one step of the pump |
| ResponsePump.Connection.ServeRequest | webserv/webserver/server/webserver.cpp:148-201 | whatever select reports and however short the reads and writes, the passes end, and the wire has grown by the header lines with the file's length among them and, unless only the head is wanted, the file; with status 204 or no file, by header lines with length 0 alone |
| ResponsePump.ServeSession | webserv/webserver/server/webserver.cpp:117-201 | request after request on one connection, the wire carries exactly these replies, in order |
| ResponsePump.ReadingStep | webserv/webserver/server/webserver.cpp:166-182 | while reading, the bytes collected are the file's first bytes; past its end they are the file and the counter is zero |
| ResponsePump.SendingStep | webserv/webserver/server/webserver.cpp:184-197 | while sending, the wire holds a prefix of the one response that was built, and it grows with every pass |
| ResponsePump.EveryScheduleDelivers | webserv/webserver/server/webserver.cpp:166-197 | every schedule of short reads and partial writes stays on course to one response, built once, with the file's length in its header section; each pass makes progress |
| ResponsePump.SomePassIsPossible | webserv/webserver/server/webserver.cpp:148-201 | until the response is out, the descriptor that the pump waits for is watched |
| ResponsePump.PassesAreBounded | webserv/webserver/server/webserver.cpp:148-201 | more passes than there are bytes to read and to send force the response out |
| ResponsePump.ExchangeDelivers | webserv/webserver/server/header_handler.cpp:630-742 | when the client waits for its next request, one header section and exactly the file have been sent, and both counters are zero |
| ResponsePump.SessionDelivers | webserv/webserver/server/header_handler.cpp:630-742 | over any number of requests the wire is one response after another, in order, and the read counter is zero at each request although `reset_handler` never clears it |
| ResponsePump.ResponseIsSelfDelimiting | webserv/webserver/server/response.cpp:30-39 | by the server's own framing a sent response is complete exactly with its last byte, under every fragmentation |
| UrlCleaning.CleanUrl | ATwebserv/request_handler.cpp:531-536 | erasing in place while scanning ends with the specified normal form |
| UrlCleaning.RemoveDuplicateForwardSlashes | webserv/webserver/helper/verify_file_location_functions.cpp:3-20 | the index loop turns each run of slashes into one |
| UrlCleaning.CleanIsClean | ATwebserv/request_handler.cpp:531-536 | no double slash, no trailing slash but in "/" itself, and cleaning twice is cleaning once |
| UrlCleaning.CleanKeepsMeaning | ATwebserv/request_handler.cpp:531-536 | the leading slash and every non-empty segment stay, in order |
| UrlCleaning.CleanIsCanonical | ATwebserv/request_handler.cpp:531-536 | the result is the leading slash and the non-empty segments joined by single slashes, so equal segments give equal results |
| UrlCleaning.SameNormalisation | webserv/webserver/helper/verify_file_location_functions.cpp:3-20 | on every NUL-free string the two servers' functions give its normal form and its collapsed form, which differ by one trailing slash at most |
| LocationChoice.RequestHandler.Consider | ATwebserv/request_handler.cpp:382-409 | one iteration of the reverse search on the fields, with the return directive and the exception of `substr` |
| LocationChoice.RequestHandler.ResolvePath | ATwebserv/request_handler.cpp:363-416 | the method resolves the cleaned URL as specified: error page, exception, or cleaned path and location |
| LocationChoice.VisitTaken | ATwebserv/request_handler.cpp:382-409 | a location that is taken is looked up on top of what those listed after it have left |
| LocationChoice.VisitKeepsStanding | ATwebserv/request_handler.cpp:380-409 | after each location the search holds the look-up of the longest match so far, the last of equals |
| LocationChoice.LastVisit | ATwebserv/request_handler.cpp:383 | location 0 is the default when nothing matched, and throws exactly when it is longer than the URL |
| LocationChoice.ScanStanding | ATwebserv/request_handler.cpp:379-409 | the whole search comes to location 0 with the look-up of the longest match among the others |
| LocationChoice.LongestPrefixServes | ATwebserv/request_handler.cpp:379-416 | the longest location that is a prefix of the URL is chosen (highest index among equals, location 0 without a match) and looked up: through a return directive to a known location, and otherwise on top of the longest match listed after it; it throws exactly when nothing matches and location 0 is longer than the URL |
| LocationChoice.ResolvesUnder | ATwebserv/request_handler.cpp:386-408 | with t the chosen location, or the first that the last item of its return directive names: the URL resolves to id t and t's root with one slash at its end, the rest of the URL, and t's index on an exact match |
| LocationChoice.UnknownNameAppends | ATwebserv/request_handler.cpp:386-408 | with a directive that names no location: the rest of the URL goes to the look-up of the longest match listed after the chosen one, or to an empty path under location 0 |
| LocationChoice.ErrorPagesApart | ATwebserv/request_handler.cpp:373-376 | every URL under /error_pages/ is served from files/error_pages/, whatever the locations |
| LocationChoice.AnsweredExactlyWhenNamed | ATwebserv/request_handler.cpp:386-408 | the path is the resulting location's root, the rest of the URL once, and the index on an exact match, if and only if the chosen location has no return directive or one that names a location |
| LocationChoice.ChoiceIsUnique | ATwebserv/request_handler.cpp:379-409 | at most one location fits that description |
| LocationChoice.UnknownTargetWithoutRoot | ATwebserv/request_handler.cpp:386-405 | without a shorter match listed after it, such a directive looks "/a/x" up as "/x" under location 0 |
| LocationChoice.UnknownTargetRepeatsRest | ATwebserv/request_handler.cpp:386-405 | with one, its root is kept and the rest of "/a/b/x" is appended twice |

## Left out

- Sockets and system calls themselves: `select`, `accept`, `recv`, `send`, `read`, `write`, `open`, `close` and the clock supply inputs; FD_SETSIZE is not modelled.
- Failing system calls and allocations: `fatal` in the chat server, the -1 returns of the line reader, failing `accept`, `fcntl` and `select` in the web server's loop.
- ChatServer.ChatServer.Run: fewer than 2^31 - 1 turns (so `g_id` does not overflow); received texts are free of NUL and shorter than `str`, and an embedded NUL, or 42 * 4096 bytes at once, is not modelled. `send` always succeeds.
- LineReader.Reader.GetNextLine: for a file with NUL bytes, which C strings lose, only progress is promised.
- LineReader.CopyRest: the loop tests the size before the next character; the source tests them the other way round and so reads one byte past the terminator when the buffer ends without a line end.
- ChunkedBody.HeaderHandler.ParseBody: takes a bound on its turns, because the source's loop need not end; `ChunkedCursor.EndsSoonOrNever` shows that a bound two above the length of the body loses nothing. Bodies shorter than 2^31 bytes; `ChunkedCursor` leaves four bytes more.
- ChunkedBody.HeaderHandler.constructor: only the two fields that `parse_body` uses.
- Numbers.HexToDecimal: signed overflow, undefined in C++, is modelled as two's-complement wrap-around.
- RequestFraming.RequestBuf.ScanBody: the scan's counters are unbounded, so bodies of 2^31 line ends are not modelled; a header section that ends less than 16 bytes after the start of the field name is read as ending there.
- Base64.Base64Decode: input lengths that do not fit `int`.
- ResponsePump.Connection.ServePass: uploads, CGI output, writes of zero bytes, descriptors of other clients, and files or responses of 2^31 bytes and more; the text of the header section around the length line is an input.
- ResponsePump.Connection.ServeRequest: the header lines around the length line are the same in all passes of one request, so it does not say which pass's date is printed; `ResponsePump.EveryScheduleDelivers` lets them differ.
- ActiveClient.Server.RemoveClient: erases the one match and stops; the source goes on with an iterator that the erasure has invalidated.
- ActiveClient.Server.CheckTimeOut: expects a recorded time, which `ActiveClient.AtMostOneInEveryRun` shows there is. `check_all_timeout` is not modelled.
- ActiveClient.Server.CleanUpAfterError: the descriptor sets and the closing of descriptors.
- UrlCleaning.CleanUrl: for a string with a NUL, which the source takes for the string's end, only termination is promised.
- LocationChoice.RequestHandler.ResolvePath: the status line that a return directive generates, the line it prints, and the undefined last character of an empty root, which is modelled as "no slash".
- Location resolution of the other server (`match_location_block`), dominated by file-system probes.
- CGI, uploads, directory listings, dates, status phrases, MIME types and logging: string plumbing without state.
- The chunk heuristics of `ATwebserv/client_handler.cpp`, the experimental `exam06/mini_serv.c`, `POC/` and `static/`.
