# A verified model of the minihttpd connection engine

minihttpd is an event-driven HTTP/1.0 and 1.1 server. A main process accepts connections and hands each
descriptor to one of its worker processes; a worker runs an epoll loop over its connections, and every
connection is a state machine that reads a request head, looks up a file or a directory, and sends a
response from a queue of memory and file chunks. This project models that engine in Dafny, in the form the
program has: classes whose methods change fields, buffers and linked lists in place, with ghost state for
what crossed each socket and for the kernel's epoll set. Every system call is a method that may answer
anything its contract allows.

## What is proved

* **A connection, over its whole life.** `Connections.Connection.Inv` holds before and after every step,
  whatever the sockets answer. It says that all bytes read so far are the bytes of the finished exchanges
  followed by those of the request at hand, that all bytes the socket took are what was sent for the
  exchanges followed by a front part of the response at hand, that every response is the one due for its
  bytes and for what the file system said of its path (414, 400, 501, 403, 404, 500, the directory's page, or
  the file up to its size in 32 bits), that its head says so, and that every response but the last said
  keep-alive. While a response is sent, the bytes taken followed by those still queued are head and body;
  after an error, those taken are a front part of the response that was due for the bytes read for it.
* **What the peer reads.** `Connections.Connection.PeerReadsHistory`: a client that goes by the heads alone
  reads back exactly these responses, and the front part of the one at hand, if and only if no response is
  2^32 bytes long and none, but the last when nothing was sent after it, is for a file whose size, modulo
  2^32, is 0 or 2^31 or more. Such a file is answered without a Content-Length or with a negative one on
  a connection that is kept, so that a client takes the next response for its body (`FileSizes.RunsOn`).
* **Reading does not depend on fragmentation.** The scan over chunks finds the first CR LF CR LF of the
  concatenation. All ways of cutting a stream into reads give the same head if and only if its terminator
  stops at `max_http_head_size + 1` or before: a later one may still be accepted when a single large read
  brings it, and is answered 414 otherwise. `Connections.Connection.ReadStream` says so of the machine.
* **What the machine does.** It always stops, in READ, WRITE, CLOSE or closed, and `Runs.Ran` says what it did
  meanwhile, over a log of all answers of the kernel: a readable connection reads; it rests in READ only when
  the read was interrupted or not ready or its head is not complete and not too long; a complete head has its
  response in the history, being sent, or cut off by an answer that fails; sending stops only for an answer
  that stops it, and breaks only for one that breaks it, errno included. `Runs.OneMoreRound` proves it for
  every round of every state. Then the kernel watches for what the connection waits for
  (`Workers.Worker.KernelWatches`, bit by bit).
* **What is on the wire.** `FileSizes.StatusOnTheWire` and its neighbours: of the response that is due, a client
  reads the status that stat() or the refusal asks for, the version, whether the connection goes on, the type
  of the file's name and the body.
* **The worker** keeps its table, its counter and its epoll registry in order over any run of events; no
  step for one connection touches another; every wakeup is answered by the handler of its descriptor; and
  after a sweep no connection is overdue.
* **The queue** stays two disjoint acyclic lists, and every operation is a function of the byte stream it
  stands for. The file window is page-aligned and covers what is sent next, also where 32 bits wrap.
* **The request parser**, which writes NULs into the block it reads, computes a line by line definition of
  the request; printing and parsing is the identity; upper and lower case make no difference in the names of
  headers (`RequestRoundTrip.CaseDoesNotMatter`), and nothing else is passed over
  (`RequestRoundTrip.HeadersDecide`). **The response head** is split by the server's own scanner exactly
  where it ends, and all of it is read back.
* **The MIME table** reads back what was printed, with comments between, and its first match is the longest
  if and only if no entry shadows a later one. **The dispatcher** keeps the running workers balanced, and
  hands over every connection while there is somebody to take it.

## What the code does that one might not expect

* `chunkqueue_length` counts sent bytes and is a 32-bit sum. A response of exactly 2^32 bytes, head
  included, looks empty, and the connection goes on as if it was sent: nothing of it is, and everything is of
  every other response (`ResponseQueues.Finished`, `Exchanges.Fits`). `FileSizes.UnsentResponse` gives the
  files for which that happens.
* The size of a file is cut to 32 bits when it is queued (`FileSizes.WholeFile` says exactly when that
  matters), and a Content-Length of 2^31 or more is printed as a negative number
  (`ResponseHeads.LengthReadsBack` says exactly when).
* A read that gives as many bytes as a new block holds leaves no byte for the NUL that is put behind them.
  `ChunkQueues.ChunkQueue.GetMemory` says exactly when a block is that short, and
  `ChunkQueues.FirstReadFills` that the first read of a connection has such a block.
* A request line whose first word is empty is read through a null pointer.
  `RequestRoundTrip.VerbMissingWhen` says exactly which heads have one.
* `connection_writev_mem_chunk` looks at the wrong variable after a failed `writev`, so every failure is
  fatal; its comment speaks of one that can be retried.
* Header names are matched by their first letters: `Connection` by eight, the size of a pointer. A comment
  calls the supported methods PUT and GET; the code supports GET and POST.
* What was read behind the end of a head is dropped with the request: an exchange's bytes include it.

## Files

| file | models |
|---|---|
| Words, CStrings | 32-bit words; C strings and the C library functions the parsers use |
| Buffer, Pieces, ChunkQueue | src/buffer.cpp; the byte stream a queue stands for; src/chunk.cpp |
| Sockets | the kernel's side of a connection socket, with a log of its answers |
| Terminators, Fragments, Reader | the end of a request head; independence of fragmentation; the read state |
| Windows, Writer | the file window; the write loop |
| Requests, RequestParser, RequestRoundTrip | the request said line by line; the in-place parser; its round trip |
| KeyMap, MimeTable, Mime | the status table; the MIME table's file; the lookup of a type |
| ResponseHead, ResponsePrinter | the response head as text; building it in a buffer |
| Exchanges | which response is due for which bytes, and what a client reads |
| ResponseQueues | the write queue of one response |
| FileSizes | what the size of a file does to its response |
| Runs | what a round and a run of the state machine come to |
| Connection, Worker | the state machine; the table, the sweep and the event loop |
| FdEvents, Dispatcher | the epoll registry; the accept loop's bookkeeping |

## Model

| member | source | states |
|---|---|---|
| `Buffers.AlignSizeCovers` | src/buffer.cpp:49-54 | rounding up to a multiple of 64 covers the request exactly when the 32-bit sum does not wrap; beyond that it gives 0 |
| `Buffers.Buffer.AllocSize` | src/buffer.cpp:57-67 | afterwards the block holds the request; a block that was big enough is untouched, another one is replaced and its bytes are gone |
| `Buffers.Buffer.CopyStringLength` | src/buffer.cpp:70-78 | the buffer holds exactly the copied bytes, NUL-terminated |
| `Buffers.Buffer.AppendPrepareSizes` | src/buffer.cpp:97-106 | room for the bytes, and what is stored is kept |
| `Buffers.Buffer.AppendStringLength` | src/buffer.cpp:119-135 | the stored bytes followed by the appended ones; an empty append changes nothing |
| `Buffers.Buffer.AppendBuffer` | src/buffer.cpp:139-151 | the stored bytes followed by those of the source, which must hold something |
| `Buffers.Buffer.CopyBuffer` | src/buffer.cpp:155-159 | the bytes of the source |
| `Buffers.Buffer.SetLength` | src/buffer.cpp:163-173 | the new length, and the common front is kept |
| `Buffers.Buffer.Reset` | src/buffer.cpp:24-32 | no block and no bytes |
| `Buffers.Buffer.StringLength` | src/buffer.cpp:35-39 | the number of stored bytes, without the NUL |
| `ChunkQueues.Chunk.Reset` | src/chunk.cpp:36-57 | a recycled chunk carries no bytes, offset, descriptor or mapping of its earlier use |
| `ChunkQueues.ChunkQueue.GetUnused` | src/chunk.cpp:121-140 | a clean chunk from the idle list, which is refilled to four when it is empty; both lists stay valid and disjoint |
| `ChunkQueues.ChunkQueue.PushUnused` | src/chunk.cpp:144-155 | the chunk is cleaned and put first in the idle list, unless four are idle already |
| `ChunkQueues.ChunkQueue.AppendChunk` | src/chunk.cpp:204-214 | the chunk is the new last one; the representation invariant of both linked lists is kept |
| `ChunkQueues.ChunkQueue.AppendBuffer` | src/chunk.cpp:157-166 | the stream grows at its end by a copy of the bytes |
| `ChunkQueues.ChunkQueue.PrependBuffer` | src/chunk.cpp:169-180 | the stream grows at its front by a copy of the bytes |
| `ChunkQueues.ChunkQueue.AppendFile` | src/chunk.cpp:276-291 | the stream grows by the file range; an empty name or range adds nothing |
| `ChunkQueues.ChunkQueue.Length` | src/chunk.cpp:191-201 | the bytes of all chunks, sent ones included, in a sum modulo 2^32 |
| `ChunkQueues.ChunkQueue.Reset` | src/chunk.cpp:85-96 | an empty queue; both lists stay valid |
| `ChunkQueues.ChunkQueue.GetMemory` | src/chunk.cpp:219-254 | a place for the requested bytes behind the last byte of the stream; it reaches to the end of its block, with no byte left for a NUL, exactly when the queue before says so: the number is a multiple of 64, and there is no memory chunk at the end, or one with bytes and too little room, or an empty one that is not longer |
| `ChunkQueues.ChunkQueue.FirstBlock` | src/chunk.cpp:219-254 | the first bytes of a request fill their block exactly when their number is a multiple of 64 |
| `ChunkQueues.FirstReadFills` | src/connection.cpp:393-400 | the witness: for the 1024 bytes that a new connection asks for, a new queue gives a place that ends where its block does |
| `ChunkQueues.ChunkQueue.Commit` | src/chunk.cpp:257-271 | the bytes stored behind the stream become part of it |
| `ChunkQueues.ChunkQueue.MarkWritten` | src/chunk.cpp:303-326 | min(len, remaining) bytes leave the front of the stream, the rest of len is returned, and exactly the used up chunks leave the queue |
| `ChunkQueues.ChunkQueue.RemoveFinished` | src/chunk.cpp:330-343 | drops the used up chunks at the front |
| `Pieces.DropStream` | src/chunk.cpp:303-326 | for every queue and count, dropping removes exactly that many bytes from the front of the byte stream and leaves an empty queue or a first chunk with bytes left; dropping 0 preserves the stream |
| `Pieces.DropEmpty` | src/chunk.cpp:303-326 | the queue is used up exactly when at least all its bytes were sent |
| `Pieces.DropDrop` | src/chunk.cpp:303-326 | two short writes are one long write |
| `Pieces.SendConserves` | src/chunk.cpp:303-326 | bytes taken followed by bytes left are the stream before: nothing is lost or sent twice |
| `Pieces.FileBytesSplit` | src/connection.cpp:774-794 | consecutive slices of a file range tile it |
| `Terminators.EndsAtSlice` | src/connection.cpp:461 | a terminator that stops at a position is the four bytes CR LF CR LF before it |
| `Terminators.FirstEndPrefix` | src/connection.cpp:449-484 | more input does not move an end of head that is there |
| `Terminators.FirstEndExists` | src/connection.cpp:449-484 | a stream has no end of head, or a first one |
| `Terminators.TextAt` | src/connection.cpp:450-483 | a chunk's bytes stand at one place of the concatenation of all chunks |
| `Readers.MatchRest` | src/connection.cpp:461-478 | the inner scan over as many chunks as it takes says whether CR LF CR LF starts at this CR, and where it stops |
| `Readers.FindEnd` | src/connection.cpp:449-485 | the nested scan finds the first CR LF CR LF of the concatenation of all chunks, wherever chunk borders and empty chunks are, or that there is none |
| `Readers.CopyHead` | src/connection.cpp:486-497 | the copy loop produces exactly the bytes up to the position found |
| `Readers.HandleRead` | src/connection.cpp:390-427 | one read with the room that FIONREAD asks for, at least 1024 bytes, appends what the socket gave to the stream; the result follows from the number and from errno: failed, not ready or interrupted, closed, or that many bytes; the socket stays readable exactly when the read was interrupted or filled its room; it is assumed not to fill the room exactly when the queue before has no byte to spare behind it, and not to complete a head without a method |
| `Readers.JudgeRead` | src/connection.cpp:448-517 | a complete head, or 414 when more than the limit is there without one, or waiting: the verdict on the concatenation |
| `Fragments.FeedIndependent` | src/connection.cpp:430-519 | however a stream is cut into reads, the head is the same, once enough of it was read |
| `Fragments.FragmentationIndependence` | src/connection.cpp:430-519 | all ways of cutting a stream into reads give the head up to its first terminator if and only if that stops at max_http_head_size + 1 or before |
| `Fragments.FeedWithoutEnd` | src/connection.cpp:504-517 | a stream without terminator is answered 414 exactly when it is longer than the limit, for every way of cutting it |
| `Fragments.FeedSnoc` | src/connection.cpp:430-519 | one more read after a run that ends with waiting is judged with all bytes before it |
| `Writers.Gather` | src/connection.cpp:665-690 | what is gathered is the front of the stream, over memory chunks only, up to the first file or the sixteenth chunk with bytes left, whose number is counted; the length is kept modulo 2^32 |
| `Writers.WritevMemChunk` | src/connection.cpp:665-715 | bytes taken and bytes left are the stream; writev() is asked for all bytes of the memory chunks in front, up to sixteen that have some, and the result follows from its answer: broken exactly when it failed, whatever errno says; as many bytes leave the queue as it took; without bytes to gather it is not called, and a chunk is dropped |
| `Windows.RemapCovers` | src/connection.cpp:753-759 | a new window starts on the page of the next byte to send and is 256 KiB long or reaches to the end of the range; when its far end wraps 32 bits it is 256 KiB long and covers that byte too |
| `Windows.KeptWindowCovers` | src/connection.cpp:743-745 | a window that is kept covers the next byte; one whose far end wraps is never kept |
| `Writers.MoveWindow` | src/connection.cpp:735-772 | the window that is ready is one of the chunk's own file and covers the offset; open() is called exactly without a descriptor, mmap() exactly when the window does not cover the offset, for a window of the page of the offset; it fails exactly when one of them does |
| `Writers.WriteWindow` | src/connection.cpp:774-796 | the slice written is the file's bytes at the chunk's own offset, as many as the chunk has left and the window holds; the result follows from the answer of write(): to be tried again exactly for EINTR and EAGAIN, broken exactly for every other errno |
| `Writers.SendFileChunk` | src/connection.cpp:720-797 | the file step conserves the stream, and its result follows from the last answer of open(), mmap() or write(); a queued file chunk always has bytes left, so the branch for a used up one is dead |
| `Writers.StepKeeps` | src/connection.cpp:809-836 | every step keeps the stream and the invariant of the queue |
| `Writers.HandleWrite` | src/connection.cpp:809-836 | ends for every answer of the socket; bytes taken followed by what is queued are the old stream; it returns 0 exactly when the queue is empty, -2 exactly when the last answer was a failed writev() or a write() that failed other than by EINTR and EAGAIN, -1 exactly when it was a write() that failed by one of those or a refused open() or mmap(), and 1 exactly when it took less than asked |
| `RequestParsers.ScanLine` | src/request.cpp:71-118 | the in-place scan finds the three words of the request line, or that it is none |
| `RequestParsers.ParseVersion` | src/request.cpp:141-191 | the NUL that is put over the dot and taken back again does not matter: the version is the one of the protocol word |
| `RequestParsers.ScanOptions` | src/request.cpp:222-296 | the key and value scanner with its NULs reads the options line by line |
| `RequestParsers.HttpRequestParse` | src/request.cpp:62-321 | the in-place parser gives what the line by line definition says of the head as it was; the lemmas on that definition beside this row say what it means for methods, versions, words, headers and their case |
| `RequestRoundTrip.RequestRoundTrips` | src/request.cpp:62-321 | a printed GET or POST request, its URL without blank, NUL and CR LF, comes back as its method, URL and version, its last Host and Range values without leading blanks, and the keep-alive choice of its last known Connection value; HTTP/1.1 without Host is 400 (section 5.4 of RFC 7230) |
| `RequestRoundTrip.CaseDoesNotMatter` | src/request.cpp:245-258 | two requests whose header names, and the values of whose Connection headers, are the same but for the case of letters are parsed to the same result |
| `RequestRoundTrip.HeadersDecide` | src/request.cpp:224-321 | HTTP/1.1 is accepted exactly with a Host header that is not empty; it is kept alive unless the last Connection header that says keep-alive or close says close, and HTTP/1.0 only when that says keep-alive; names are compared letter by letter, whatever their case |
| `RequestRoundTrip.LastValueIs` | src/request.cpp:255-263 | the value of an option is that of the last header with a value whose name starts with the key but for case, and there is none exactly when there is no such header: a name that differs in more than case is not taken for it |
| `RequestRoundTrip.LastConnectionIs` | src/request.cpp:245-254 | the Connection option is what the last header says whose name starts with Connecti and whose value starts with keep-alive or close, but for case, and unset exactly when there is none |
| `RequestRoundTrip.SplitLineWhen` | src/request.cpp:71-118 | a request line gives three words exactly when it is these words with one blank between them and none in them |
| `RequestRoundTrip.BareCrRefused` | src/request.cpp:270-279 | a CR in a header's value that LF does not follow makes the request one that is answered 400 |
| `RequestRoundTrip.VersionOfNumbers` | src/request.cpp:141-191 | a version of two numbers is HTTP/1.1 for 1 and 1, if the server supports it, HTTP/1.0 for 1 and 0, and refused else, as far as 32 bits tell |
| `RequestRoundTrip.OtherProtocol` | src/request.cpp:141-191 | a protocol word that does not start with HTTP/ is refused |
| `RequestRoundTrip.VersionRefused` | src/request.cpp:141-201 | a request whose version is refused is answered 400 and not kept alive |
| `CStrings.LowerIs` | src/request.cpp:245-258 | two characters are the same in lower case exactly when they are equal or the two forms of one letter |
| `CStrings.HasPrefixIs` | src/request.cpp:245-258 | the comparison of strncasecmp() is that of the letters, whatever their case |
| `RequestRoundTrip.LastWins` | src/request.cpp:224-296 | of several headers taken for the same option the last one counts |
| `RequestRoundTrip.PrefixOfName` | src/request.cpp:245-263 | a header is recognised by what stands before its colon alone |
| `RequestRoundTrip.ParseRules` | src/request.cpp:93-217 | every refused request is answered 400 or 501 and not kept alive; 501 exactly when its line is complete and its method is neither GET nor POST; an accepted HTTP/1.1 request has a Host |
| `RequestRoundTrip.VerbMissingWhen` | src/request.cpp:123-132 | the parser cannot look at a head exactly when its line has three words and it starts with a blank or a NUL |
| `RequestRoundTrip.BlankInFront` | src/request.cpp:81-132 | the witness: a blank in front of two words makes the method empty; a blank in front of three is answered 400 |
| `ResponseHeads.HeadIsSplit` | src/connection.cpp:592-645 | for a type, date and service name without CR, the first CR LF CR LF of head and body ends exactly at the head's end, and a reader finds its lines |
| `ResponseHeads.HeadSaysWhatWasMeant` | src/connection.cpp:614-624 | the head says keep-alive exactly when that was chosen, and a Content-Length exactly when there is a body (sections 3.3.2 and 6.3 of RFC 7230) |
| `ResponseHeads.HeadReadsBack` | src/connection.cpp:592-645 | a client reads of the first line the version, the status as a number and the reason, and of the fields the type, or application/octet-stream without one, the date and the server, as they were meant |
| `ResponseHeads.LengthReadsBack` | src/connection.cpp:620-625 | the printed length is a number exactly below 2^31, and then reads back as the length; above it is negative |
| `ResponsePrinters.WriteResponseHead` | src/connection.cpp:592-645 | the appends build, for every head whose length does not wrap 32 bits, the text that a client reads back in all its parts, as `ResponseHeads.HeadReadsBack` says |
| `ResponsePrinters.HeadLength` | src/connection.cpp:592-645 | a head is less than 300 bytes longer than its type, date and service name |
| `ResponsePrinters.WriteErrorPage` | src/connection.cpp:545-572 | the appends build the page of the status |
| `ResponsePrinters.PageShows` | src/connection.cpp:545-572 | the title and the heading of the page are the status, which reads back as a number, and its text |
| `KeyMaps.QueryHttpStatusString` | src/key_map.cpp:67-74 | the text of an entry with the status, or that there is none |
| `KeyMaps.TextOfAnswer` | src/connection.cpp:557-558 | the lookup succeeds for every status the server answers with, so its asserts hold |
| `KeyMaps.TextsOfAnswers` | src/key_map.cpp:11-61 | the text of each status that the server answers with |
| `MimeTables.ScanQuoted` | src/key_map.cpp:121-152 | the scanner of a quoted word stays inside the line and gives the word the line holds |
| `MimeTables.ScanEntry` | src/key_map.cpp:105-152 | the scanner of a line reads the entry the line defines, or none |
| `MimeTables.MimeTable.Add` | src/key_map.cpp:157-174 | the table grows by the entry, also when its array has to |
| `MimeTables.MimeTableInitialize` | src/key_map.cpp:83-181 | the table holds the entries of the file's lines in their order |
| `MimeTables.EntryRoundTrips` | src/key_map.cpp:105-152 | a printed entry is read back |
| `MimeTables.TableRoundTrips` | src/key_map.cpp:103-176 | a printed table of any length is read back |
| `MimeTables.FileRoundTrips` | src/key_map.cpp:103-176 | the table of a file holds its entries in order, whatever comments, blank lines and lines without an arrow stand between them |
| `MimeTables.EntryWhen` | src/key_map.cpp:105-152 | a line gives an entry exactly when it is no comment and its first arrow stands between that extension and that type, each in quotes behind blanks |
| `Mimes.LookupMime` | src/response.cpp:119-133 | the first entry whose extension ends the path, letter by letter and whatever the case, or that no extension does |
| `Mimes.MatchesIs` | src/response.cpp:124-128 | an entry matches exactly when its extension is not empty and ends the path, whatever the case of letters |
| `Mimes.CaseOfPathDoesNotMatter` | src/response.cpp:121-133 | paths that are the same but for case have the same first match |
| `Mimes.FirstIsLongestWhenOrdered` | src/response.cpp:121-133 | the first match is a longest one for every path if and only if no entry shadows a later, longer extension that it ends |
| `Exchanges.QueryAndFragmentIgnored` | src/response.cpp:74-80 | neither a query nor a fragment changes which file is served |
| `Exchanges.PathOfUrlIs` | src/response.cpp:74-80 | the path is the URL up to its first # or ?, or all of it |
| `Exchanges.FullPathIs` | src/response.cpp:83-89 | a path is looked for below the root directory; one slash in front of it makes no difference |
| `Exchanges.ResponseIsWellFormed` | src/connection.cpp:526-657 | a printed head and its body are a whole response: where the head ends, and what it says |
| `Exchanges.ExchangeEnds` | src/connection.cpp:245-268 | a finished response joins the history: what was read, what was sent and what was promised still add up |
| `Exchanges.ResponseIsRead` | src/connection.cpp:592-657 | for every length of a body: a client that goes by the head reads a response up to its end when the body is not empty and below 2^31 bytes, and else takes everything that follows for the body too, since the head says no length or a negative one (section 3.3.3 of RFC 7230) |
| `Exchanges.FrontIsRead` | src/connection.cpp:298-310 | of a response that is cut off, a client reads what there is, once its head is complete |
| `Exchanges.ClientReadsHistory` | src/connection.cpp:245-250 | a client reads from what was sent exactly the responses, and then what it reads from the rest, if and only if all of them were sent, and every one but the last, with nothing behind it, has a body of 1 to 2^31 - 1 bytes; it never reads more responses than there are |
| `FileSizes.FileBody` | src/response.cpp:112-141 | what stands behind the head for a regular file is the front of that file, as long as its size is in 32 bits |
| `FileSizes.WholeFile` | src/chunk.cpp:276-291 | the whole file is served if and only if its size is below 2^32 |
| `FileSizes.StatusOnTheWire` | src/connection.cpp:598-606 | the status that a client reads in the response that is due: 403, 404 or 500 by what stat() failed with, 403 for what is neither file nor directory, 200 for those; without a look at the file system 414 for a head that did not end in time, 501 for another method than GET and POST, else 400, and then the connection is not kept |
| `FileSizes.VersionOnTheWire` | src/connection.cpp:594-617 | the version that a client reads and whether the connection goes on are what the parser said of the head; a head that did not end in time gets HTTP/1.0 and close |
| `FileSizes.TypeOnTheWire` | src/connection.cpp:626-642 | the type that a client reads: for a file that of the first entry whose extension ends its path, whatever the case, or application/octet-stream; text/html for everything else; and the name of the server |
| `FileSizes.BodyOnTheWire` | src/connection.cpp:526-586 | the body that a client reads: the file up to its size in 32 bits, the page of the directory, or a page with the status and the reason of the status line |
| `FileSizes.PlainIsLookedFor` | src/response.cpp:71-92 | from the request to the file system: of a plain HTTP/1.1 request for a path, whatever query or fragment follows, the path below the root directory is looked for, and the connection is kept |
| `FileSizes.BigFileIsCut` | src/response.cpp:136-137 | the witness: a file of 2^32 bytes is answered 200 without any of them |
| `FileSizes.LengthOfBody` | src/connection.cpp:620-625 | the length of a body: for a regular file its size modulo 2^32, and else between 1 and 2^31 - 1 |
| `FileSizes.NoBodyWhen` | src/chunk.cpp:279 | a response has no body if and only if it is for a regular file whose size is a multiple of 2^32, 0 included |
| `FileSizes.DelimitedWhen` | src/connection.cpp:620-625 | a response says where it ends if and only if it is not for a regular file, or for one whose size modulo 2^32 is between 1 and 2^31 - 1 |
| `FileSizes.FileIsReplied` | src/response.cpp:60-170 | for every size of a file, every URL and every configuration with HTTP/1.1, the response that is due for a request for it with nothing but a host; it keeps the connection alive |
| `FileSizes.RunsOn` | src/connection.cpp:620-625 | every file of another size keeps the connection alive too, and a client takes all that is sent next for its body |
| `FileSizes.EmptyFileRunsOn` | src/connection.cpp:620-625 | the witness: an empty file, without a Content-Length |
| `FileSizes.HugeFileRunsOn` | src/connection.cpp:620-625 | the witness: a file of 2^31 bytes, with a Content-Length of -2147483648 |
| `FileSizes.UnsentResponse` | src/connection.cpp:283-292 | the witness: for every date and service name of together 1 to 900 bytes, the size of a file whose response is 2^32 bytes long |
| `FileSizes.PeerReads` | src/connection.cpp:245-250 | for files of every size: all that was sent on a connection reads as its responses and a front part of the one being sent or cut off, if and only if no response is 2^32 bytes long and no exchange but the last is about a file whose size modulo 2^32 is 0 or 2^31 or more |
| `ResponseQueues.SendingKeepsSmall` | src/connection.cpp:283-292 | once the queue's 32-bit length, which counts sent bytes too, is not 0, it stays so while bytes are left |
| `ResponseQueues.HeadInFront` | src/connection.cpp:581-585 | the queue with the head in front stands for head and body, and its exact length is theirs |
| `Connections.Connection.constructor` | src/connection.cpp:26-44 | a new connection satisfies the invariant |
| `Connections.Connection.StartStep` | src/connection.cpp:180-185 | CON_STATE_REQUEST_START goes to CON_STATE_READ; the start and the last read are at the time that time() gives |
| `Connections.Connection.ReadStep` | src/connection.cpp:430-519 | a readable connection calls read() with the room that FIONREAD asks for, another one does nothing; what it gives, errno included, decides: ERROR, still READ, CLOSE at a time that time() gives, or the state of the verdict on all bytes read; they go behind those read before, and readable stays exactly after an interrupted or full read |
| `Connections.Connection.ReadRun` | src/connection.cpp:430-519 | a run of reads, whatever events come between, ends in the state of the verdict on the cut stream, unless the socket failed or was closed |
| `Connections.Connection.ReadStream` | src/connection.cpp:430-519 | however the bytes of a stream come in, whose first terminator stops at max_http_head_size + 1 or before, the connection goes on with exactly the head, as soon as it was read |
| `Connections.Connection.PeerReadsHistory` | src/connection.cpp:158-343 | in every state of every connection, also after an error, what the peer reads from the bytes it got; nothing but the invariant is asked for |
| `Connections.Connection.ParseStep` | src/connection.cpp:189-204 | status, keep-alive choice and request are those of the head that was read |
| `Connections.Connection.HandleStep` | src/response.cpp:60-170 | a refused request gets no body and the file system is not asked; another one is answered by what stat() says of its path: 403, 404, 500, the page that lists the directory, or the file up to its size in 32 bits with the type of its extension; the URL loses its fragment and query |
| `Connections.Connection.PrepareStep` | src/connection.cpp:526-657 | the queue holds one whole response: the head has the text of the status, the service name, keep-alive exactly as chosen and the length of the body; an error status gets its page, of type text/html; http_response_body_finished is 1 |
| `Connections.Connection.Send` | src/connection.cpp:839-867 | one call of the writer moves bytes from the response to what was sent of it and keeps their sum; its result follows from the last answer of the kernel |
| `Connections.Connection.WriteStep` | src/connection.cpp:283-294 | sending breaks exactly when the last answer was a failed writev() or a write() that failed other than by EINTR and EAGAIN, and rests exactly when it was cut short, to be tried again, or a refused open() or mmap(); when it rests, the socket is not writeable and unsent bytes are queued; the time of the last write is now exactly when bytes went; on the way to RESPONSE_END all was sent, unless the response is 2^32 bytes long, and then none of it is sent and the state is reached at once |
| `Connections.Connection.EndStep` | src/connection.cpp:245-268 | the machine starts over exactly when the head that was sent said keep-alive, and else shutdown() is called: the wait for the close starts now, or is over when that fails; a refused request always closes; the exchange joins the history: all of the response was sent, or nothing of one of 2^32 bytes |
| `Connections.Connection.ErrorStep` | src/connection.cpp:298-310 | an error closes: shutdown() is called, and the wait for the close starts now, or is over when that fails; the peer keeps the front part that was sent, of the response that was due for the bytes read for it |
| `Connections.Connection.CloseStep` | src/connection.cpp:315-331 | what comes in is dropped; the descriptor is closed exactly when read() gave 0, or failed other than by EINTR and EAGAIN, or the timeout is over; then nothing of it is left in the registry |
| `Connections.Connection.Reset` | src/connection.cpp:47-62 | nothing of the request or the response is left; history and promises stay |
| `Connections.Connection.Loop` | src/connection.cpp:158-343 | the loop ends for every answer of the kernel and stops only in READ, WRITE, CLOSE or closed; the whole invariant holds again; and what it did is `Runs.Ran`: from READ with input read() was called, and the machine rests in READ only after an interrupted or unready read or one that left the head open and short enough, closes without a response only after a failed read or one of 0, and else the request has its response in the history, or being sent, or cut off by a failing write; from WRITE with room the response was sent on until it was stopped; from ERROR and CLOSE the peer's bytes were dropped |
| `Runs.OneMoreRound` | src/connection.cpp:158-343 | every round of the machine, in whatever state, goes on with what the run comes to |
| `Runs.RunEnds` | src/connection.cpp:158-343 | a run whose last round changed no state, or closed, came to what it should: every way from where it started to where it rests |
| `Runs.StillAnswering` | src/connection.cpp:245-310 | a request that was read is never lost: every round goes on answering it, until its response is in the history or sending it failed |
| `Runs.RankFalls` | src/connection.cpp:158-343 | every round that changes the state lowers a rank, so that the loop ends |
| `Runs.TimedOn` | src/connection.cpp:180-310 | after every round the last read was now, or when the clock said that reading began, and the last write was now exactly when bytes went, and else what it was before, or 0 since the last response |
| `Connections.Connection.WaitsFor` | src/connection.cpp:356-375 | a resting connection always waits for something: READ and CLOSE for input, WRITE for output; the branch that stops watching is dead |
| `Connections.Connection.TakeErrors` | src/connection.cpp:132-150 | a hangup is an error except in CLOSE, where the close time is set five seconds before what time() gives: the wait is over at once for a clock that has come that far; else the close time stays; other errors are one unless there is a hangup |
| `Connections.Connection.TakeEvents` | src/connection.cpp:123-150 | readable, writeable and the error state follow from the bits of the events, and nothing else changes |
| `Connections.Connection.InHandleRequest` | src/connection.cpp:210-213 | on entry to HANDLE_REQUEST the write queue is empty and the status is 0 or one of a refused request |
| `Connections.Connection.InResponseStart` | src/connection.cpp:529-551 | on entry to RESPONSE_START the status is one of the table: neither 0 nor one without a body |
| `Connections.Connection.NothingLeft` | src/connection.cpp:284-291 | in WRITE the length of the queue is 0 exactly when the response is 2^32 bytes long, and then nothing of it was sent |
| `Workers.AllLive` | src/worker.cpp:102-111 | as many live connections as slots exactly when no slot is free |
| `Workers.Worker.FindFree` | src/worker.cpp:105-111 | the first free slot; the assert behind the search never fires |
| `Workers.Worker.GetNewConnection` | src/worker.cpp:98-118 | a connection in a free slot that knows its slot, exactly when the counter is below the size |
| `Workers.Worker.HandIn` | src/worker.cpp:45-94 | with room in the table, a received descriptor gets a new connection in a slot that was free, which rests in READ and is watched for input; when the table is full, the descriptor is closed again and the table is unchanged; no other connection is touched |
| `Workers.Worker.Register` | src/worker.cpp:90-91 | the connection becomes the handler of its new descriptor, and the worker stays in order |
| `Workers.Worker.TakeFd` | src/worker.cpp:45-46 | a descriptor that was just received is new and has no handler, so its slot in the registry is empty |
| `Workers.Worker.UnixDomainSocketHandle` | src/worker.cpp:25-94 | a hangup stops listening and an error changes nothing; else a descriptor is received: with more than 0 bytes its connection is handed in, as `HandIn` says, 0 and a failure other than by EINTR and EAGAIN stop listening |
| `Workers.Worker.StateMachine` | src/connection.cpp:158-378 | the table stays in order: a connection's slot is freed and counted exactly when it closed, another one is watched for what it waits for; what its machine did is `Runs.Ran`; its exchanges are only added to; no other connection is touched |
| `Workers.Worker.KernelWatches` | src/connection.cpp:356-375 | the wakeups: in every valid worker the kernel watches the descriptor of every connection, for output and not for input in WRITE, for input and not for output in READ and CLOSE, and always for errors and hangups; it watches the timer, and the domain socket exactly as long as the worker listens |
| `Workers.Worker.ConnectionEventHandle` | src/connection.cpp:119-155 | the connection is told of exactly these events, and its machine runs from there; the slot is freed exactly when it is closed |
| `Workers.Worker.RunLoop` | src/connection.cpp:167-343 | the run of one machine, which did what `Runs.Ran` says, leaves all other connections and their registrations alone |
| `Workers.Worker.CheckIdle` | src/worker.cpp:149-171 | afterwards the connection is gone or not overdue; one that was overdue is gone or closing, and one that was not is left alone |
| `Workers.Worker.TimerExpire` | src/worker.cpp:130-174 | a timer event asks for the time; after the sweep of a new second no connection is idle in READ or WRITE, or waits in CLOSE, for too long, whatever the sockets answer; one that was overdue is gone or closing, and one that was not is left alone |
| `Workers.Worker.HandlerOf` | src/main.cpp:322-329 | every descriptor the kernel watches has a handler, and a connection's is the live one of its slot, with that descriptor |
| `Workers.Worker.Dispatch` | src/main.cpp:322-335 | one event is handled by the handler of its descriptor: the timer asks for the time, the domain socket receives, and a connection is told of the events and runs as `Runs.Ran` says; the whole worker stays in order, and the exchanges of every connection |
| `Workers.Worker.Run` | src/main.cpp:306-338 | over any run of events every wakeup is answered at once by its handler, the counter is the number of live connections and at most the size, the registry mirrors the kernel, every connection's invariant holds, and a connection that is still there is in its slot and has all exchanges it had |
| `Workers.Worker.OneMoreHeeded` | src/main.cpp:319-335 | one more wakeup that was answered at once leaves all of them answered |
| `Workers.StartWorker` | src/main.cpp:268-303 | a worker that is started is in order, has room for half as many connections as descriptors, its clock is what time() gave, and it watches its two descriptors for input |
| `FdEventRegistry.FdEvents.RegisterFd` | src/fdevents.cpp:49-61 | an empty slot is filled; nothing is watched yet |
| `FdEventRegistry.FdEvents.UnregisterFd` | src/fdevents.cpp:65-78 | the slot is empty again; nothing is watched any more |
| `FdEventRegistry.FdEvents.SetEvents` | src/fdevents.cpp:81-94 | the kernel watches the descriptor for the mask with ERR and HUP; added exactly the first time, changed later |
| `FdEventRegistry.FdEvents.UnsetEvent` | src/fdevents.cpp:97-108 | the kernel does not watch the descriptor; removed only when it did |
| `FdEventRegistry.FdEvents.OpenFd` | src/worker.cpp:45-46 | a descriptor that was just opened has no handler |
| `Dispatchers.PickKeepsBalance` | src/main.cpp:445-474 | one more connection for the first of the least loaded running workers keeps them balanced |
| `Dispatchers.Dispatcher.PickWorker` | src/main.cpp:445-455 | the first running worker with the fewest connections; one at the largest count is never picked |
| `Dispatchers.Dispatcher.Accept` | src/main.cpp:436-475 | the picked worker, and nobody else, is sent the connection, and its count grows exactly when sendmsg() succeeds; nobody is sent it only when every running worker is at the largest count; the counts add up to the successful hand-overs and none wraps |
| `Dispatchers.Dispatcher.WorkerExit` | src/main.cpp:394-413 | a worker that exited gets no more connections; the others stay balanced |
| `Dispatchers.Dispatcher.Run` | src/main.cpp:388-476 | over any sequence of accepts, failed hand-overs and exits the running workers differ by at most 1 and are non-increasing; each count grows by the connections its worker was given, exactly those run that did not exit, and while one that is not at the largest count runs, every accepted connection is handed to somebody |

## Left out

- Bytes are Dafny characters; they are only compared and copied. The buffers for the method, URL, host, range, file name, full path and content type, which are only copied as a whole, are string values; growth and sharing of those buffers are not modelled.
- Sockets.Socket.Read: assumes that the socket does not fill a place behind which the block has no byte for the closing NUL (`ChunkQueues.ChunkQueue.FullBlock`), since the program would write it behind the block; and that it does not complete a head whose method is empty (`Requests.VerbMissing`), since the program reads that through a null pointer.
- RequestParsers.HttpRequestParse: requires that the request has a method, for the same reason; `RequestRoundTrip.VerbMissingWhen` says exactly which requests have none.
- RequestRoundTrip.RequestRoundTrips, and CaseDoesNotMatter and HeadersDecide with it: prints the versions HTTP/1.0 and HTTP/1.1 only; the parser itself is modelled for every protocol word, with the sign, blanks, zeros and clamping of `strtol`.
- Connections.Connection.Inv: assumes `max_http_head_size` is at most 2^31 - 66, so that no count of a queue of bytes read wraps, and that service name and MIME types are without CR and shorter than 512 MiB.
- Connections.Connection.HandleStep: a directory's page is any non-empty page below 2^30 bytes; the HTML of `http_handle_directory_parse` is not modelled.
- Connections.Connection.PrepareStep: the branches for the statuses 204, 205 and 304 and the default of 403 for a status of 0 are not modelled, because no such status comes here, see `Connections.Connection.InResponseStart`.
- Connections.Connection.CloseStep: what the peer still sends is counted but not looked at.
- Workers.Worker.Dispatch: handles one event; the batch of `epoll_wait`, in which an event may be stale, is not modelled.
- Workers.Worker.Run: the loop's end at shutdown and the signal that asks for it are not modelled.
- Times are unbounded integers, and `time` may answer any; the worker's own `cur_ts` moves in the sweep only.
- Files do not change while they are served, a mapping holds the bytes of its file, and `stat` tells their number; a mapping past the end of a file, which a changed file could cause, reads as zero here.
- Memory never runs out; freeing is not modelled, nor are the leaks of the program.
- Logging, the log process, daemonizing, signals, the reading of the configuration, `getpeername`, closing on exec, and the transport of descriptors between the processes.
- `tcp_sendfile` in src/tcp_socket.cpp, which nothing here calls.
- The table of HTTP methods beyond GET and POST, which only decides that the others are answered 501.
