# hello-libuv request core, modelled in Dafny

`main.c` is a single-file static-file HTTP server built on libuv. For each
buffer a connection delivers it:

1. takes the buffer as one request (reading is never stopped, so every
   buffer of a connection starts a serve of its own);
2. cuts the buffer into lines at CR and LF and chains the non-empty lines
   into a linked list (`http_inflight_new`, `http_inflight_append`);
3. tokenises the first line into method, target and version;
4. turns the target into a relative filesystem path and takes an extension
   from that path with `strtok_r` and `strstr`, then maps the extension to a
   coarse content class (`http_inflight_parse`);
5. opens the file and streams it back through a chain of completion
   callbacks (`on_open`, `on_send`, `on_read`):
   - a `200 OK` header (or a `404 NOT FOUND` header when the open fails);
   - then the file in reads of at most `CHUNK` = 1024 bytes;
   - then an empty final write, after which the connection is closed.

The project models that core as pure functions over immutable data. It has
seven modules:

- `Outcome` (`outcome.dfy`): `Option` and `Result`.
- `CStrings` (`cstrings.dfy`):
  - `strtok_r` as a saved-pointer model (`Strtok`, `Tokens`, `LastToken`);
  - `strstr` (`Find`);
  - an independent reference reading of splitting (`Pieces`, `Segments`: the
    maximal non-empty delimiter-free segments), proved equal to the
    `strtok_r` loop.
- `Inflight` (`inflight.dfy`): the line list as an arena of nodes with
  head and tail indices. It covers allocation, append with the source's
  three branches, and the assembling loop.
- `Request` (`request.dfy`): tokenising, path resolution, extension, the
  class table, and the whole parse.
- `Header` (`header.dfy`):
  - `sprintf` restricted to `%s` (`Format`);
  - the 200 and 404 headers;
  - the header length `on_open` computes.
- `Responder` (`responder.dfy`): the serve context and the three callbacks
  as one step function over completion events.
- `Streaming` (`streaming.dfy`):
  - runs of the responder against an abstract file, with the runtime's read
    offset;
  - an invariant with a termination measure;
  - theorems about what a finished run has written;
  - a driver method, `ServeFile`, that serves a file end to end.

The parser is a function of the received bytes, so it is deterministic by
construction. The source's fatal or undefined parsing paths are
modelled as error values. These are the paths that dereference a NULL head,
read `method` or `ext` uninitialised, or `exit(1)`. The header overrunning
the serve buffer is modelled as the terminal phase `Undefined` instead.

The extension is not simply the text after the last `.` of the path.
The code keeps the last non-empty `.`-separated segment and then widens it
with `strstr` to the suffix of the path that starts at that segment's first
occurrence. So `./a/html.html` gets the extension `html.html`, `./a.b.` gets
`b.`, and a path without a dot after its leading `.` gets everything after
that dot. The model states this behaviour:
- `Request.ExtensionOfLastSegment` gives the extension of every path that is not all dots;
- `Request.ExtensionAfterFinalDot` states when it is exactly the text after the last `.`;
- `Request.ExtensionWidens` exhibits a case where it is wider.

## Model

Two definitions have no row of their own and are stated through other rows.
`Header.Format`, the `sprintf` of `main.c:319` and `main.c:323`, is stated by
the `Header.FormatLength`, `Header.FormatLiteral`, `Header.FormatConversion`,
`Header.OkResponseFilled` and `Header.NotFoundFormatted` rows.
`Responder.Start`, the serve context `on_receive` creates at
`main.c:337-345`, is the starting state of every run. It is stated by the
`Streaming.ServeFile`, `Streaming.ClosedRun` and `Streaming.RunsTerminate`
rows.

| member | source | states |
|---|---|---|
| CStrings.Strtok | main.c:101 | One `strtok_r` call resumed at the saved pointer returns NULL exactly when only delimiters remain. Otherwise it skips the leading delimiters and cuts a non-empty, delimiter-free, maximal token, and the saved pointer moves one past the delimiter it overwrote. |
| CStrings.Tokens | main.c:167 | Every token the `strtok_r` loop sees is non-empty and contains no delimiter. |
| CStrings.Split | main.c:101 | The `strtok_r` loop over a whole string yields no token exactly when the string consists only of delimiters. |
| CStrings.LastToken | main.c:129-131 | The loop that keeps the latest token ends with NULL exactly when there was no token. Otherwise it ends with a genuine token after which only delimiters follow, and whose text is the last token the loop saw. |
| CStrings.Find | main.c:132 | `strstr` returns a position where the needle occurs, with no occurrence before it, or NULL when the needle occurs nowhere. |
| CStrings.TokensAreSegments | main.c:167 | The tokens `strtok_r` hands out from any saved pointer are exactly the maximal non-empty delimiter-free segments of the rest of the string, in order (a reference definition that cuts at every delimiter and drops the empty pieces). |
| CStrings.SplitIsSegments | main.c:166-173 | Splitting a whole string gives exactly its maximal non-empty delimiter-free segments, in input order. |
| CStrings.SplitAppend | main.c:167 | Splitting `a`, a delimiter, then `b` gives the tokens of `a` followed by the tokens of `b`. |
| CStrings.SplitWord | main.c:101 | A non-empty delimiter-free string is exactly one token. |
| Inflight.NewLine | main.c:76-82 | `http_lines_new` allocates a fresh, unlinked node holding the line. The list's lines, head, tail and last node stay unchanged. |
| Inflight.LinkAfterEnd | main.c:86-91 | Linking a node after the last node of a chain extends that chain's lines by exactly that node's content and makes it the new end. |
| Inflight.Append | main.c:84-95 | `http_inflight_append`, through the tail, through the head while the tail is NULL, or as the new head. It keeps the list well formed, keeps an existing head, adds exactly the new line at the end, and makes the new node the last one. |
| Inflight.AddLine | main.c:168-172 | One round of the assembling loop appends the line when it is non-empty, and otherwise leaves the lines unchanged. |
| Inflight.Assemble | main.c:166-173 | Appending the tokens `strtok_r` hands out, one per loop round, adds exactly those tokens to the lines, in order, keeps an existing head, and leaves a head exactly when some line exists. |
| Inflight.InflightNew | main.c:159-176 | The list holds exactly the maximal non-empty CR/LF-free segments of the buffer, in buffer order. Its head is non-NULL exactly when there is one. |
| Request.Tokenise | main.c:100-115 | Against the reference segments of the line at blanks, tabs, CR and LF: more than three segments is the fatal `TooManyTokens`, none is `NoMethod`, and otherwise the method is segment 0 and the target segment 1, empty when absent. The method is non-empty and blank-free, and the line has no method exactly when it is all blanks. |
| Request.SplitRequestLine | main.c:101 | Method, target and version separated by single spaces are exactly the three tokens of the line. |
| Request.TokeniseRoundTrip | main.c:101-110 | Tokenising `m p v`, `m p` or `m` gives back the method and the target, with an empty target when it is absent. |
| Request.FourthTokenRejected | main.c:111-113 | Four words separated by single spaces are rejected as `TooManyTokens`, the case where the source exits. |
| Request.ResolvePath | main.c:118-126 | A target shorter than two characters becomes `./index.html`. Any other target is kept whole behind a leading `.`. The result starts with `.` and has at least three characters. |
| Request.Extension | main.c:128-132 | The extension is missing exactly when the resolved path is all dots. Otherwise it is a non-empty suffix of the path. |
| Request.TokenAfterFinalDot | main.c:129-131 | In a path that does not end at its final dot, the only token followed by nothing but dots is the text after that dot. |
| Request.FinalSegment | main.c:129-131 | For a path that does not end in a dot, the last segment the loop keeps is exactly the text after the final dot. |
| Request.ExtensionOfLastSegment | main.c:128-132 | For every path that is not all dots, the extension is the path from the first occurrence of its last non-empty `.`-separated segment, so `./a.b.` has extension `b.`. |
| Request.ExtensionFromFinalDot | main.c:128-132 | For such a path, the extension is the path from the first occurrence of the text after the final dot. |
| Request.ExtensionAfterFinalDot | main.c:128-132 | When that text occurs only after the final dot, the extension is exactly the text after the final dot. |
| Request.ExtensionWidens | main.c:132 | When the final segment `w` also ends the part before the final dot, and occurs nowhere earlier, the extension is `w.w`, not `w`: `strstr` finds the earlier occurrence. For example, `./a/html.html` has extension `html.html`. |
| Request.IndexExtension | main.c:120-132 | The default document `./index.html` has extension `html`. |
| Request.Classify | main.c:135-143 | The class is the fixed table's entry and Text for every unlisted extension. It is Image exactly for `jpg`, `png`, `gif` and Video exactly for `mkv`, `avi`, `mp4`. |
| Request.ParseLine | main.c:97-150 | A line parses exactly when it tokenises and its resolved path is not all dots. A tokenising error is passed on unchanged, and an all-dots path gives `NoExtension`. A parsed request carries the method and resolved path from the tokeniser. Its extension is the path's extension, a non-empty suffix of the path, and its class is the table's. |
| Request.ParseInflight | main.c:97-101 | Only the head line is parsed, and an empty list is an error (the source dereferences the NULL head). |
| Request.ParseRequest | main.c:338 | Parsing a buffer fails with "no request line" exactly when it has no non-empty CR/LF-free segment. Otherwise it parses the first such segment. |
| Request.RequestLineFirst | main.c:97-101 | For any non-empty first line without CR or LF, whatever follows its CR LF is ignored: only that line is parsed. |
| Request.ParseRequestRoundTrip | main.c:97-150 | `m p v` CR LF followed by anything parses to method `m` and the resolved `p`. It fails exactly when the resolved path is all dots. |
| Request.RootRequest | main.c:118-143 | A request line for `/`, with any method, version and following bytes, parses to `./index.html` with extension `html` and class Text. |
| Header.FormatLength | main.c:320 | `sprintf` with `%s` conversions produces the format's length, minus two per conversion, plus the arguments' lengths. |
| Header.FormatLiteral | main.c:323 | A `%`-free format prefix is copied unchanged and adds no conversion. |
| Header.FormatConversion | main.c:319 | A leading `%s` takes the first argument. |
| Header.FormatTwoConversions | main.c:10-13 | A `%`-free front, `%s`, `/`, `%s` and a `%`-free tail format to the front, the first argument, `/`, the second argument and the tail. |
| Header.OkResponseFilled | main.c:10-13 | `OK_RESPONSE` has exactly two conversions and, filled, reads `HTTP/1.1 200 OK`, CR LF, `Content-Type: <kind>/<ext>`, CR LF CR LF. |
| Header.Label | main.c:305-317 | The classes Text, Image and Video are written as `text`, `image` and `video`, each label for exactly its class. |
| Header.OkHeader | main.c:319 | The 200 header `on_open` writes is the status line, then `Content-Type: ` with the class label, `/` and the literal extension, then a blank line. |
| Header.ClassHeader | main.c:305-320 | The 200 header of each class, spelled out: the status line, `Content-Type: ` with `text`, `image` or `video`, `/`, the extension, then a blank line. |
| Header.OkHeaderLength | main.c:320 | The length `on_open` computes, `strlen(OK_RESPONSE) - 4 + strlen(type) + strlen(ext)`, equals the length of the header `sprintf` wrote. |
| Header.NotFoundFormatted | main.c:323-324 | `sprintf` of the 404 literal writes the literal itself, so the 404 write sends exactly `NOT_FOUND_RESPONSE`. |
| Responder.OnOpen | main.c:289-333 | On a failed open the 404 header is written with `done` set and the handle stays unset. On success the handle is kept, and the 200 header is written in full with `done` clear, or the phase is undefined when the header overruns the 1024-byte buffer. Every write is recorded. |
| Responder.OnSend | main.c:239-258 | The write status is ignored. A `done` write closes the context; any other write issues a read of one whole `CHUNK`. |
| Responder.OnRead | main.c:260-287 | A positive read writes exactly the bytes read with `done` clear. End of file and a read error both write nothing with `done` set. Only end of file closes the handle; a read error leaves it open. |
| Responder.Step | main.c:239-333 | Each callback keeps the request, writes at most one buffer, and any read it issues asks for `CHUNK` bytes. |
| Streaming.OpenKeepsInv | main.c:289-333 | The open completion keeps the run invariant and lowers the measure of remaining events. |
| Streaming.SendKeepsInv | main.c:239-258 | The write completion keeps the run invariant and lowers the measure. |
| Streaming.OkPathRead | main.c:276-284 | A successful read of the next bytes of the file, appended as one write, keeps the body equal to the file up to the new offset in chunks of at most `CHUNK`. |
| Streaming.ReadKeepsInv | main.c:260-287 | The read completion keeps the run invariant: the body is still the file from its start up to the offset, in chunks of at most `CHUNK`. It also lowers the measure. |
| Streaming.AdvanceKeepsInv | main.c:239-333 | Every completion the runtime may deliver keeps the invariant and lowers the measure. |
| Streaming.ReplayKeepsInv | main.c:239-333 | Every run from a state satisfying the invariant ends in one that satisfies it, after at most the measure's number of events. |
| Streaming.RunsTerminate | main.c:239-333 | Every run of one serve context has at most twice the file length plus four completions: the chain of callbacks always ends. |
| Streaming.NextEvent | main.c:254 | The completion a well-behaved runtime delivers next is one the state allows, and its reads do not fail. |
| Streaming.ReplaySnoc | main.c:239-333 | Extending a run by one allowed completion reaches the state that completion leads to. |
| Streaming.OpenedStaysOpened | main.c:272-276 | After a successful open the handle is never unset again. |
| Streaming.NoReadWithoutFile | main.c:322-325 | While the open has not succeeded, no read completes: a failed open never reads. |
| Streaming.AbandonedStep | main.c:264-276 | One completion leaves an open handle abandoned (written off without a close) exactly when it is a read error, and an abandoned handle stays abandoned. |
| Streaming.AbandonedIffReadError | main.c:264-276 | At the end of any run the handle is abandoned exactly when some read failed along the way. |
| Streaming.ReplayKeepsRequest | main.c:338 | A context serves the request it was created for throughout. |
| Streaming.ClosedState | main.c:246-248 | A closed context wrote either the 404 header alone, or the 200 header followed by the file from its start up to the offset in chunks of at most `CHUNK`. It wrote the whole file when the handle was closed at end of file. |
| Streaming.ClosedRun | main.c:239-333 | A finished run after a failed open wrote the 404 header alone and never read. After a successful open it wrote the 200 header, then a prefix of the file in chunks of at most `CHUNK`, and the whole file when the handle was released. The handle is left open exactly when some read failed. |
| Streaming.EmptyFileRun | main.c:270-273 | An empty file gets the 200 header, then one empty write at end of file, then the close with the handle released. |
| Streaming.ServeFile | main.c:335-345 | Serving with a runtime whose writes and reads succeed is a valid run of at most twice the file length plus four events. Unless the header overruns the buffer, it ends with the context closed: a missing file leaves the handle unset, and an opened file ends with the handle released at end of file. A missing file gets exactly the 404 header. An opened file gets the 200 header and then exactly the file's bytes in chunks of at most `CHUNK`, or nothing when the header overruns the buffer. |

## Left out

- The libuv plumbing is left out, because it is runtime code rather than request logic: the event loop, `main`, binding to port 80, the listen backlog of 128, `on_new_connection`, `alloc_buffer`, `on_close`, and the `nread <= 0` branch of `on_receive`. Completions are modelled as events, and the runtime's choices as the events a run may contain.
- Memory management is left out: every `malloc` and `free`, `free_inflight`, `free_req` and `free_serve`. So are the source's memory errors, which have no meaning in a model without a heap. These are the zero-sized `calloc` at `main.c:124` that the resolved path is then copied into, the freeing of the receive buffer, the aliasing of the request buffer, and the read of `res->result` in `on_open` after `free(fs)` has released the object holding it (`main.c:295`, then `main.c:300-301` and `main.c:322`); the model takes that value as the open's result, as intended.
- Responder.Octets: the request is modelled as a `string`, whose characters a byte buffer would keep below 256. Characters of 256 and above, which the source can never receive, are reduced modulo 256 when the extension goes into the header; the model does not exclude them.
- The received buffer is modelled as exactly the received characters, one per byte. The source hands a buffer that is not NUL-terminated to `strtok_r`, and embedded NUL bytes are not modelled.
- Logging to standard error is left out; it has no effect on the response.
- The `exit(1)` on a fourth token is modelled as the error `TooManyTokens`, not as process termination.
- Undefined behaviour is modelled as error results rather than as crashes: `NoRequestLine` for a NULL head, `NoMethod` for an uninitialised `method`, and `NoExtension` for an uninitialised `ext`. A request that fails to parse is not served in the model. The source would crash or behave unpredictably in these cases.
- Responder.OnOpen: a 200 header that does not fit the 1024-byte serve buffer overruns it in the source. The model stops in the terminal phase `Undefined` rather than modelling the overrun.
- Several connections served at once, and the interleaving of their callbacks, are not modelled; one serve context is modelled.
- The model assumes one buffer per connection and no end of stream from the client before the response ends. In the source, reading is never stopped (`main.c:365`), so every further buffer starts another serve context writing to the same client (`main.c:336-345`). The first context to finish closes that shared client, and `on_close` frees it (`main.c:247`, `main.c:235-237`). An end of stream from the client also closes and frees it while a context may still be running (`main.c:346-351`). The contexts are therefore not independent, and the model does not describe these interactions.
- The file is a fixed byte sequence. Changes to the file during a run are not modelled, and neither are reads from an offset other than the sequential one that offset -1 gives.
- Streaming.ReadAgrees: a successful read may return any 1 to `CHUNK` bytes of what is left, and a failed read may happen at any point. A runtime that returns bytes not from the file is not modelled.
- The synchronous `uv_fs_close` at end of file is modelled as releasing the handle; its own result is ignored, as in the source.
- Partial socket writes are not modelled: `uv_write` sends the whole buffer or completes with an error status, and the status is ignored in both cases.
