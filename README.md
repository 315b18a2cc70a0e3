# A verified model of a small HTTP/1.1 server's request handling

The server in `app/main.py` accepts TCP connections and, for each request
buffer it receives, does three things:

- it parses the buffer as text: the request line, the header fields and the body;
- it picks a response by path;
- it sends the response back.

This project models the text-level part in Dafny: the parser, the four
handlers and the routing chain. It then proves what a client can rely on.
The networking around them is left out.

- `wrappers.dfy`: the `Option` and `Result` datatypes.
- `text.dfy` (module `Text`): the Python `str` operations the server relies
  on, over `string`:
  - `find` and `in`;
  - `split(sep)` and `split(sep, 1)`;
  - `startswith` and slicing;
  - `str(n)`.

  The module proves the laws of these operations that the rest of the model
  needs: split/join round trips, splitting around a separator, and the
  number of pieces.
- `request.dfy` (module `Request`): the three extractors of `app/main.py:9-27`.
  - `RequestLineOf` gives the three tokens of the first line.
  - `HeadersOf` runs the header loop, with `ExtractHeaders` as the loop
    itself, as an imperative method.
  - `BodyOf` gives the text after the first CRLF CRLF.
  - `MessageText` / `RequestText` say what a peer writes. The module proves
    that the parser reads a written request back.
- `server.dfy` (module `Server`): the handlers and the if/elif chain of
  `handle_client`.
  - `OkResponse` builds every 200 answer.
  - `Route` is the chain.
  - `Respond` is one pass of the loop body: parse, then route.
  - Responses are read back with the server's own parser, which shows that
    each 200 answer carries a Content-Length equal to the length of its
    body.

Exceptions raised by the source become `Failure` values of type
`ParseError`:

- an `IndexError` on a request line with fewer than three tokens becomes
  `MalformedRequestLine`;
- a `ValueError` on a header line without `": "` becomes `MalformedHeader`.

In the source either one ends the connection without a response.

The file system is a parameter of type `map<string, string>` from full
path to file text. A path missing from the map stands for a
`FileNotFoundError`. The `--directory` argument is a parameter too.

`app/main.py` has no `Accept-Encoding` handling and no compression. It does
not handle `POST` requests, and it does not look at the `Connection`
header. So none of these are modelled: every method is answered as a
read, and the connection stays open until the client closes it.

## Model

| member | source | states |
|---|---|---|
| Text.Split | app/main.py:10 | `s.split(sep)` yields at least one piece; what the pieces are is stated by JoinOfSplit, SplitPiecesLackSeparator and SplitOfJoin |
| Text.Contains | app/main.py:27 | `sep in s`: true exactly when IndexOf finds an occurrence, whose contract states it |
| Text.StartsWith | app/main.py:65 | `path.startswith(prefix)`; SliceAfterPrefix states what it means |
| Text.SliceFrom | app/main.py:6 | `s[n:]`, empty past the end; SliceAfterPrefix states what it gives after a prefix |
| Text.SliceAfterPrefix | app/main.py:30 | a text starts with a prefix exactly when it is the prefix followed by something, and then cutting `len(prefix)` characters leaves exactly that something |
| Text.FindFrom | app/main.py:27 | the result is the first index at or after `k` where the separator occurs; None means it occurs nowhere from `k` on |
| Text.IndexOf | app/main.py:27 | `s.find(sep)`: the first occurrence, with none before it; None exactly when `sep` does not occur in `s` (`sep in s` is `Contains`) |
| Text.JoinOfSplit | app/main.py:10 | joining the pieces of `s.split(sep)` with `sep` gives back `s` |
| Text.SplitPiecesLackSeparator | app/main.py:18 | no piece of `s.split(sep)` contains `sep` |
| Text.SplitAround | app/main.py:18 | for a separator that cannot overlap itself, `(a + sep + b).split(sep)` is `a.split(sep) + b.split(sep)` |
| Text.SplitOfJoin | app/main.py:18 | splitting the join of separator-free pieces gives the pieces back |
| Text.SplitCount | app/main.py:10-13 | `s.split(c)` has one more piece than `s` has copies of `c` |
| Text.SplitOnce | app/main.py:22 | `s.split(sep, 1)` has two parts exactly when `sep` occurs; then the cut is at the first occurrence of `sep` (the first part ends where `s.find(sep)` points), `s` is first part + `sep` + second part; otherwise the one part is `s` |
| Text.NatToString | app/main.py:7 | `str(n)` is a non-empty string of decimal digits with no leading zero, and a single digit exactly when `n < 10` |
| Text.ParseNatOfNatToString | app/main.py:7 | reading the digits of `str(n)` back as a decimal number gives `n` |
| Request.Lines | app/main.py:18 | `request.split("\r\n")`; LinesOfMessage and the Text split lemmas state what the lines are |
| Request.RequestLineOf | app/main.py:9-14 | tokens 0, 1 and 2 of the first line split on spaces, or the IndexError; its meaning is stated by RequestLineFailsIff and RequestLineRoundTrip |
| Request.FoldHeaders | app/main.py:16-24 | the header loop fails only with the header-line error; HeadersEndAtBlankLine, HeaderErrorIff and FoldFieldLines state the rest |
| Request.HeadersOf | app/main.py:16-24 | the header loop over the lines after the request line; ExtractHeaders, HeadersRoundTrip and HeaderLookup state what it returns |
| Request.BodyOf | app/main.py:26-27 | the body is a suffix of the request; when CRLF CRLF occurs it is exactly the text after its first occurrence, and when it does not occur the body is empty; BodyRoundTrip states the round trip |
| Request.RequestLineFailsIff | app/main.py:9-14 | extracting the request line fails (IndexError) exactly when the first line holds fewer than two spaces |
| Request.RequestLineRoundTrip | app/main.py:9-14 | a first line of verb, path and protocol separated by single spaces, possibly followed by more space-separated text, parses to exactly those three tokens |
| Request.FieldOf | app/main.py:22 | a header line splits into a field exactly when it contains `": "`; the name is the text before the first `": "` and the value is everything after it |
| Request.FieldRoundTrip | app/main.py:22 | `name + ": " + value` reads back as `(name, value)` exactly when the name itself holds no `": "` |
| Request.ExtractHeaders | app/main.py:16-24 | the loop over the lines after the request line returns exactly `HeadersOf(request)`: it stops at the first empty line and fails at the first line without `": "` |
| Request.HeaderBlock | app/main.py:18-21 | the header block is the prefix of the lines before the first empty line, and it holds no empty line |
| Request.HeadersEndAtBlankLine | app/main.py:18-21 | the header loop's result depends only on the lines before the first empty line |
| Request.FoldStopsAtBlank | app/main.py:19-21 | lines after an empty line are never read as fields |
| Request.HeaderErrorIff | app/main.py:22 | header parsing fails exactly when some line of the header block has no `": "` |
| Request.LinesOfMessage | app/main.py:18 | the lines of head + CRLF CRLF + body are the head's lines, one empty line and the body's lines |
| Request.HeadersIgnoreBody | app/main.py:16-24 | whatever follows the first CRLF CRLF never changes the headers |
| Request.FoldFieldLines | app/main.py:22-23 | the loop over well-formed field lines enters every field in order |
| Request.HeadersRoundTrip | app/main.py:16-24 | a written request line, field lines, empty line and any body parse to the fields entered in order |
| Request.OverwriteKeys | app/main.py:23 | after entering fields, a name is present exactly when it was before or some field declares it; an undeclared name keeps its old value |
| Request.LastFieldWins | app/main.py:23 | with duplicate names, the value on the last line with that name wins |
| Request.LastValue | app/main.py:23 | reference definition: None exactly when no field has the name, else the value of a field with that name that no later field repeats |
| Request.HeaderLookup | app/main.py:23 | looking a name up among the parsed fields agrees with `LastValue` in both presence and value |
| Request.BodyRoundTrip | app/main.py:26-27 | the body of head + CRLF CRLF + b is `b` exactly when the head holds no CRLF CRLF and does not end in CRLF |
| Request.ParseMessageText | app/main.py:9-27 | a written message reads back as its start line, its fields entered in order, and its body, whatever the body holds |
| Request.ParseRequestText | app/main.py:9-27 | a written request reads back as its three tokens, its fields and its body |
| Server.OkResponse | app/main.py:7 | the f-string shared by the echo, files and user-agent handlers (lines 7, 35 and 69); OkResponseText gives its exact text and OkResponseReadsBack what a client reads from it |
| Server.OkResponseText | app/main.py:69 | every 200 answer is, character for character, `HTTP/1.1 200 OK\r\nContent-Type: <type>\r\nContent-Length: <len(body)>\r\n\r\n<body>`, the text at lines 7, 35 and 69 |
| Server.EchoResponse | app/main.py:5-7 | handle_echo; EchoReadsBack and EchoEndToEnd state its answer |
| Server.UserAgentOf | app/main.py:68 | `headers.get("User-Agent", "Unknown")`; UserAgentOfFields states which value it picks |
| Server.UserAgentResponse | app/main.py:69 | the /user-agent answer; UserAgentReadsBack states it |
| Server.FilePath | app/main.py:30-31 | `f"{directory}/{filename}"` with the "/files/" prefix cut off; FilesReadsBack states that it is `directory + "/" + name` |
| Server.FilesResponse | app/main.py:29-37 | handle_files; FilesReadsBack states the 200 and 404 cases |
| Server.Route | app/main.py:65-75 | the if/elif chain; RouteConditionsExclusive, RouteStatus and RouteFramed state what it answers, and the five EndToEnd lemmas give its exact answer on each branch |
| Server.Respond | app/main.py:50-75 | one pass of the loop body; RespondErrors and RespondToRequestText state its failures and its answers |
| Server.OkResponseReadsBack | app/main.py:7 | every 200 answer reads back as status `HTTP/1.1 200 OK`, exactly the fields Content-Type and Content-Length (`str(len(body))`), and the body |
| Server.OkResponseFramed | app/main.py:35 | every 200 answer (the f-string at lines 7, 35 and 69) carries a Content-Length that is a decimal number equal to the length of its body |
| Server.FixedResponsesReadBack | app/main.py:73-75 | the fixed 404 and root answers read back as their status line with no fields and an empty body |
| Server.EchoReadsBack | app/main.py:5-7 | `/echo/<m>` is answered with status 200, `text/plain`, Content-Length `len(m)` and body `m` |
| Server.UserAgentReadsBack | app/main.py:67-69 | the `/user-agent` answer is 200 `text/plain` with the User-Agent value, or `Unknown`, as body and its length as Content-Length |
| Server.UserAgentOfFields | app/main.py:68 | the agent reported is the value of the request's last User-Agent line, or `Unknown` when there is none |
| Server.FilesReadsBack | app/main.py:29-37 | `/files/<name>` opens `directory + "/" + name`; an existing file is sent as a 200 `application/octet-stream` body with its length; a missing one gets exactly the 404 answer |
| Server.RouteConditionsExclusive | app/main.py:65-75 | no path meets two route conditions, so the order of the chain does not change the answer |
| Server.RouteStatus | app/main.py:65-75 | every answer has status 200 or 404; it is 404 exactly when no route matches or the named file does not exist |
| Server.RouteFramed | app/main.py:65-75 | every answer the chain picks is framed by its Content-Length, or has no body when it has none |
| Server.RespondErrors | app/main.py:50-51 | a request fails with the request-line error exactly when its first line has fewer than two spaces; it fails with the header error exactly when the request line parses and some header-block line lacks `": "` |
| Server.RespondToRequestText | app/main.py:50-75 | a well-formed request is answered by the route of its path, given its fields entered in order |
| Server.EchoEndToEnd | app/main.py:65-66 | a request for `/echo/<m>` is answered with the 200 `text/plain` response whose body is `m`, whatever its other parts |
| Server.UserAgentEndToEnd | app/main.py:67-69 | a request for `/user-agent` is answered with the 200 `text/plain` response whose body is its last User-Agent value, or `Unknown` |
| Server.FilesEndToEnd | app/main.py:70-71 | a request for `/files/<name>` is answered with that file's text as a 200 octet stream, or with the 404 answer when the file does not exist |
| Server.RootEndToEnd | app/main.py:72-73 | a request for `/` is answered with exactly `HTTP/1.1 200 OK\r\n\r\n`, whatever its other parts |
| Server.FallbackEndToEnd | app/main.py:74-75 | a request for any path that matches none of the routes is answered with exactly `HTTP/1.1 404 Not Found\r\n\r\n` |

## Left out

- The listening socket, the accept loop and one thread per connection
  (`app/main.py:81-86`) are not modelled. Neither is the command line
  (`app/main.py:88-92`). The directory is a parameter instead.
- The receive/send loop is not modelled (`app/main.py:39-47`, `77-79`).
  It covers:
  - reads of at most 4096 bytes;
  - the stop on an empty read;
  - `sendall`;
  - closing the connection.

  `Respond` models one pass of the loop body on a whole request buffer. A
  request split across several reads, or two requests in one read, is
  outside the model.
- Logging with `print` is left out (`app/main.py:41`, `48`, `53-63`). The
  body is extracted only to be logged, so `BodyOf` takes no part in
  choosing the answer.
- UTF-8 decoding and encoding are left out. Requests and responses are
  character strings. The Content-Length is `len()` of the body in
  characters, exactly as the code computes it. For a body with non-ASCII
  characters this differs from the number of UTF-8 octets actually sent.
- Opening and reading a file is not modelled: the file system is a map.
  - Only `FileNotFoundError` is modelled, as a missing key.
  - Other errors from `open`/`read` propagate out of the handler and end
    the connection. These include a directory path, a missing permission
    and undecodable file contents.
  - Text-mode newline translation is not modelled.
- The file name is not sanitised in the source. The model keeps this:
  `FilePath` is plain concatenation, so `..` segments reach outside the
  directory.
- Exceptions are values. Where the source raises, the model returns
  `Failure`. What happens to the thread afterwards is not modelled.
- The round-trip lemmas require their inputs to be writable in the form
  the parser expects: tokens without spaces, field names without `": "`,
  and no CRLF inside a line. The model does not cover the parse of other
  inputs beyond the failure cases that `RespondErrors` and `HeaderErrorIff`
  characterise.
