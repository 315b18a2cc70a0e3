/**
 * The route handlers and the dispatch of one request (app/main.py:5-7,
 * 29-37, 50-52 and 65-75). A response is the text the server sends back;
 * the file system is a map from full path to file text, in which an absent
 * path is a file that cannot be found.
 */
module Server {
  import opened Wrappers
  import opened Text
  import opened Request

  const StatusOk: string := "HTTP/1.1 200 OK"
  const StatusNotFound: string := "HTTP/1.1 404 Not Found"
  const ContentType: string := "Content-Type"
  const ContentLength: string := "Content-Length"
  const TextPlain: string := "text/plain"
  const OctetStream: string := "application/octet-stream"
  const EchoPrefix: string := "/echo/"
  const FilesPrefix: string := "/files/"
  const UserAgentPath: string := "/user-agent"
  const RootPath: string := "/"

  /** "HTTP/1.1 404 Not Found\r\n\r\n": no fields, no body. */
  const NotFoundResponse: string := StatusNotFound + HeaderEnd
  /** "HTTP/1.1 200 OK\r\n\r\n": the answer to the root path. */
  const EmptyOkResponse: string := StatusOk + HeaderEnd

  /** The file system as the server sees it: full path to file text. */
  type Files = map<string, string>

  /**
   * A 200 response: the status line, a Content-Type field, a Content-Length
   * field holding `len` of the body in decimal, an empty line and the body.
   * This is the text of the f-strings at app/main.py:7, 35 and 69, which
   * differ only in the content type and the body.
   */
  function OkResponse(contentType: string, body: string): string {
    MessageText(StatusOk, [(ContentType, contentType), (ContentLength, NatToString(|body|))], body)
  }

  /**
   * A 200 response is the text of the source's f-string, character for
   * character (the literal is cut where the named constants begin and end).
   */
  lemma OkResponseText(contentType: string, body: string)
    ensures OkResponse(contentType, body)
         == "HTTP/1.1 200 OK" + "\r\n" + "Content-Type" + ": " + contentType
            + "\r\n" + "Content-Length" + ": " + NatToString(|body|) + "\r\n\r\n" + body
  {
    TwoFieldMessage(StatusOk, ContentType, contentType, ContentLength, NatToString(|body|), body);
  }

  /** The text of a message with two fields, written out. */
  lemma TwoFieldMessage(status: string, name1: string, value1: string, name2: string, value2: string, body: string)
    ensures MessageText(status, [(name1, value1), (name2, value2)], body)
         == status + CRLF + name1 + FieldSep + value1 + CRLF + name2 + FieldSep + value2 + HeaderEnd + body
  {
    var line1, line2 := FieldLine((name1, value1)), FieldLine((name2, value2));
    var lines := [status] + FieldLines([(name1, value1), (name2, value2)]);
    assert lines == [status, line1, line2];
    assert lines[1..] == [line1, line2] && lines[1..][1..] == [line2];
    assert Join([line2], CRLF) == line2;
    assert Join([line1, line2], CRLF) == line1 + CRLF + line2;
    assert Join(lines, CRLF) == status + CRLF + Join([line1, line2], CRLF);
  }

  /** handle_echo: the path without its "/echo/" prefix, sent back as plain text. */
  function EchoResponse(path: string): string {
    OkResponse(TextPlain, SliceFrom(path, |EchoPrefix|))
  }

  /** `headers.get("User-Agent", "Unknown")`. */
  function UserAgentOf(headers: Headers): string {
    if "User-Agent" in headers then headers["User-Agent"] else "Unknown"
  }

  /** The /user-agent answer: the client's User-Agent value as plain text. */
  function UserAgentResponse(headers: Headers): string {
    OkResponse(TextPlain, UserAgentOf(headers))
  }

  /** The file handle_files opens: the directory, a slash, and the path without "/files/". */
  function FilePath(directory: string, path: string): string {
    directory + "/" + SliceFrom(path, |FilesPrefix|)
  }

  /** handle_files: the file's text as an octet stream, or 404 when there is no such file. */
  function FilesResponse(path: string, directory: string, files: Files): string {
    var fullPath := FilePath(directory, path);
    if fullPath in files then OkResponse(OctetStream, files[fullPath])
    else NotFoundResponse
  }

  /** The if/elif chain of handle_client: the response chosen by path, in priority order. */
  function Route(path: string, headers: Headers, directory: string, files: Files): string {
    if StartsWith(path, EchoPrefix) then EchoResponse(path)
    else if path == UserAgentPath then UserAgentResponse(headers)
    else if StartsWith(path, FilesPrefix) then FilesResponse(path, directory, files)
    else if path == RootPath then EmptyOkResponse
    else NotFoundResponse
  }

  /**
   * One pass of handle_client's loop body: parse the request line, then the
   * headers (either raising ends the connection without a response), then
   * answer by route. The body is extracted by the source but only logged.
   */
  function Respond(request: string, directory: string, files: Files): Result<string, ParseError> {
    match RequestLineOf(request)
    case Failure(e) => Failure(e)
    case Success(line) =>
      match HeadersOf(request)
      case Failure(e) => Failure(e)
      case Success(headers) => Success(Route(line.path, headers, directory, files))
  }

  // ---------------------------------------------------------------- reading responses back

  /** The response reads back, with the server's own parser, as this status line, these fields and this body. */
  ghost predicate ReadsBackAs(response: string, status: string, fields: Headers, body: string) {
    Lines(response)[0] == status && HeadersOf(response) == Success(fields) && BodyOf(response) == body
  }

  /**
   * The response's fields parse, and its Content-Length, when present, is a
   * decimal number equal to the length of its body; a response without one
   * has an empty body.
   */
  ghost predicate LengthFramed(response: string) {
    HeadersOf(response).Success? && Framed(HeadersOf(response).value, BodyOf(response))
  }

  /** A Content-Length among these fields is a decimal number equal to the length of the body. */
  ghost predicate Framed(fields: Headers, body: string) {
    && (ContentLength in fields ==>
          && (forall i :: 0 <= i < |fields[ContentLength]| ==> IsDigit(fields[ContentLength][i]))
          && ParseNat(fields[ContentLength]) == |body|)
    && (ContentLength !in fields ==> body == "")
  }

  /** The status line and the two fields of a 200 response can be written and read back. */
  lemma OkPartsWellFormed(contentType: string, length: nat)
    requires '\r' !in contentType
    ensures StatusOk != "" && !Contains(StatusOk, CRLF)
    ensures WellFormedField((ContentType, contentType))
    ensures WellFormedField((ContentLength, NatToString(length)))
  {
    StatusLinesWellFormed();
    ContentTypeWellFormed(contentType);
    ContentLengthWellFormed(length);
  }

  lemma StatusLinesWellFormed()
    ensures StatusOk != "" && !Contains(StatusOk, CRLF)
    ensures StatusNotFound != "" && !Contains(StatusNotFound, CRLF)
  {
    NoFirstCharNoOccurrence(StatusOk, CRLF);
    NoFirstCharNoOccurrence(StatusNotFound, CRLF);
  }

  lemma ContentTypeWellFormed(contentType: string)
    requires '\r' !in contentType
    ensures WellFormedField((ContentType, contentType))
  {
    NoFirstCharNoOccurrence(ContentType, FieldSep);
    NoFirstCharNoOccurrence(FieldLine((ContentType, contentType)), CRLF);
  }

  lemma ContentLengthWellFormed(length: nat)
    ensures WellFormedField((ContentLength, NatToString(length)))
  {
    var digits := NatToString(length);
    forall i | 0 <= i < |digits|
      ensures digits[i] != CRLF[0]
    {
      assert IsDigit(digits[i]);
    }
    assert CRLF[0] !in ContentLength + FieldSep;
    assert FieldLine((ContentLength, digits)) == (ContentLength + FieldSep) + digits;
    NoFirstCharNoOccurrence(ContentLength, FieldSep);
    NoFirstCharNoOccurrence(FieldLine((ContentLength, digits)), CRLF);
  }

  /** The two fields of a 200 response, entered in order, give this map. */
  lemma OkFields(contentType: string, digits: string)
    ensures Overwrite(map[], [(ContentType, contentType), (ContentLength, digits)])
         == map[ContentType := contentType, ContentLength := digits]
  {
    var m := map[][ContentType := contentType];
    assert [(ContentType, contentType), (ContentLength, digits)][1..] == [(ContentLength, digits)];
    assert [(ContentLength, digits)][1..] == [];
    assert Overwrite(m, [(ContentLength, digits)]) == Overwrite(m[ContentLength := digits], []);
  }

  /**
   * Every 200 response the handlers write reads back as status 200, a
   * Content-Type, a Content-Length equal to the length of the body, and the
   * body itself, whatever the body holds.
   */
  lemma OkResponseReadsBack(contentType: string, body: string)
    requires '\r' !in contentType
    ensures ReadsBackAs(OkResponse(contentType, body), StatusOk,
                        map[ContentType := contentType, ContentLength := NatToString(|body|)], body)
  {
    OkPartsWellFormed(contentType, |body|);
    OkMessageReadsBack(contentType, NatToString(|body|), body);
  }

  /** Every 200 response the handlers write is framed by its Content-Length. */
  lemma OkResponseFramed(contentType: string, body: string)
    requires '\r' !in contentType
    ensures LengthFramed(OkResponse(contentType, body))
  {
    var digits := NatToString(|body|);
    OkResponseReadsBack(contentType, body);
    ContentLengthFramed(contentType, digits, body);
    ReadBackFramed(OkResponse(contentType, body), StatusOk,
                   map[ContentType := contentType, ContentLength := digits], body);
  }

  lemma OkMessageReadsBack(contentType: string, digits: string, body: string)
    requires StatusOk != "" && !Contains(StatusOk, CRLF)
    requires WellFormedField((ContentType, contentType))
    requires WellFormedField((ContentLength, digits))
    ensures ReadsBackAs(MessageText(StatusOk, [(ContentType, contentType), (ContentLength, digits)], body),
                        StatusOk, map[ContentType := contentType, ContentLength := digits], body)
  {
    var fields := [(ContentType, contentType), (ContentLength, digits)];
    forall i | 0 <= i < |fields| ensures WellFormedField(fields[i]) {
      if i == 0 {} else {}
    }
    ParseMessageText(StatusOk, fields, body);
    OkFields(contentType, digits);
  }

  /** The content types the handlers write fit on one line. */
  lemma ContentTypesOneLine()
    ensures '\r' !in TextPlain && '\r' !in OctetStream
  {
  }

  /** Two fields whose Content-Length is the body's length in decimal frame that body. */
  lemma ContentLengthFramed(contentType: string, digits: string, body: string)
    requires digits == NatToString(|body|)
    ensures Framed(map[ContentType := contentType, ContentLength := digits], body)
  {
    ParseNatOfNatToString(|body|);
  }

  /** A response that reads back as fields framing its body is length-framed. */
  lemma ReadBackFramed(response: string, status: string, fields: Headers, body: string)
    requires ReadsBackAs(response, status, fields, body) && Framed(fields, body)
    ensures LengthFramed(response)
  {
  }

  /** The fixed answers read back as a status line with no fields and no body. */
  lemma FixedResponsesReadBack()
    ensures ReadsBackAs(NotFoundResponse, StatusNotFound, map[], "")
    ensures ReadsBackAs(EmptyOkResponse, StatusOk, map[], "")
  {
    StatusLinesWellFormed();
    assert NotFoundResponse == MessageText(StatusNotFound, [], "");
    assert EmptyOkResponse == MessageText(StatusOk, [], "");
    ParseMessageText(StatusNotFound, [], "");
    ParseMessageText(StatusOk, [], "");
  }

  /** The fixed answers carry no Content-Length and no body. */
  lemma FixedResponsesFramed()
    ensures LengthFramed(NotFoundResponse) && LengthFramed(EmptyOkResponse)
  {
    FixedResponsesReadBack();
    ReadBackFramed(NotFoundResponse, StatusNotFound, map[], "");
    ReadBackFramed(EmptyOkResponse, StatusOk, map[], "");
  }

  /** "/echo/<message>" is answered with the message as a plain-text body of exactly its length. */
  lemma EchoReadsBack(message: string)
    ensures ReadsBackAs(EchoResponse(EchoPrefix + message), StatusOk,
                        map[ContentType := TextPlain, ContentLength := NatToString(|message|)], message)
  {
    EchoBody(message);
    ContentTypesOneLine();
    OkResponseReadsBack(TextPlain, message);
  }

  lemma EchoBody(message: string)
    ensures EchoResponse(EchoPrefix + message) == OkResponse(TextPlain, message)
  {
    assert SliceFrom(EchoPrefix + message, |EchoPrefix|) == message;
  }

  /** The /user-agent answer's body is the User-Agent value, or "Unknown" without one. */
  lemma UserAgentReadsBack(headers: Headers)
    ensures ReadsBackAs(UserAgentResponse(headers), StatusOk,
                        map[ContentType := TextPlain, ContentLength := NatToString(|UserAgentOf(headers)|)],
                        UserAgentOf(headers))
  {
    ContentTypesOneLine();
    OkResponseReadsBack(TextPlain, UserAgentOf(headers));
  }

  /**
   * "/files/<name>" opens the directory, a slash and the name; an existing
   * file comes back as the body of a 200 answer, a missing one as the fixed
   * 404 answer.
   */
  lemma FilesReadsBack(name: string, directory: string, files: Files)
    ensures FilePath(directory, FilesPrefix + name) == directory + "/" + name
    ensures directory + "/" + name in files ==>
      ReadsBackAs(FilesResponse(FilesPrefix + name, directory, files), StatusOk,
                  map[ContentType := OctetStream,
                      ContentLength := NatToString(|files[directory + "/" + name]|)],
                  files[directory + "/" + name])
    ensures directory + "/" + name !in files ==>
      FilesResponse(FilesPrefix + name, directory, files) == NotFoundResponse
  {
    assert SliceFrom(FilesPrefix + name, |FilesPrefix|) == name;
    var fullPath := directory + "/" + name;
    if fullPath in files {
      ContentTypesOneLine();
      OkResponseReadsBack(OctetStream, files[fullPath]);
    }
  }

  /** Whatever the route, the answer is framed by its Content-Length. */
  lemma RouteFramed(path: string, headers: Headers, directory: string, files: Files)
    ensures LengthFramed(Route(path, headers, directory, files))
  {
    if StartsWith(path, EchoPrefix) {
      ContentTypesOneLine();
      OkResponseFramed(TextPlain, SliceFrom(path, |EchoPrefix|));
    } else if path == UserAgentPath {
      ContentTypesOneLine();
      OkResponseFramed(TextPlain, UserAgentOf(headers));
    } else if StartsWith(path, FilesPrefix) {
      var fullPath := FilePath(directory, path);
      if fullPath in files {
        ContentTypesOneLine();
        OkResponseFramed(OctetStream, files[fullPath]);
      } else {
        FixedResponsesFramed();
      }
    } else {
      FixedResponsesFramed();
    }
  }

  // ---------------------------------------------------------------- routing

  /** No path meets two of the route conditions, so the order of the if/elif chain decides nothing. */
  lemma RouteConditionsExclusive(path: string)
    ensures !(StartsWith(path, EchoPrefix) && StartsWith(path, FilesPrefix))
    ensures !(StartsWith(path, EchoPrefix) && (path == UserAgentPath || path == RootPath))
    ensures !(StartsWith(path, FilesPrefix) && (path == UserAgentPath || path == RootPath))
  {
    if StartsWith(path, EchoPrefix) {
      assert path[1] == EchoPrefix[1] == 'e';
    }
    if StartsWith(path, FilesPrefix) {
      assert path[1] == FilesPrefix[1] == 'f';
    }
  }

  /**
   * The answer's status line is 404 exactly when no route matches, or the
   * path names a file that cannot be found; every other answer is 200.
   */
  lemma RouteStatus(path: string, headers: Headers, directory: string, files: Files)
    ensures Lines(Route(path, headers, directory, files))[0] == StatusOk
         || Lines(Route(path, headers, directory, files))[0] == StatusNotFound
    ensures Lines(Route(path, headers, directory, files))[0] == StatusNotFound
        <==> && !StartsWith(path, EchoPrefix) && path != UserAgentPath && path != RootPath
             && (StartsWith(path, FilesPrefix) ==> FilePath(directory, path) !in files)
  {
    assert StatusOk != StatusNotFound by {
      assert |StatusOk| != |StatusNotFound|;
    }
    ContentTypesOneLine();
    FixedResponsesReadBack();
    if StartsWith(path, EchoPrefix) {
      OkResponseReadsBack(TextPlain, SliceFrom(path, |EchoPrefix|));
    } else if path == UserAgentPath {
      OkResponseReadsBack(TextPlain, UserAgentOf(headers));
    } else if StartsWith(path, FilesPrefix) {
      var fullPath := FilePath(directory, path);
      if fullPath in files {
        OkResponseReadsBack(OctetStream, files[fullPath]);
      }
    }
  }

  // ---------------------------------------------------------------- one request

  /**
   * A request fails with the request-line error exactly when its first line
   * has fewer than two spaces, and with the header error exactly when the
   * request line parses and some line of the header block has no ": ".
   */
  lemma RespondErrors(request: string, directory: string, files: Files)
    ensures Respond(request, directory, files) == Failure(MalformedRequestLine)
        <==> multiset(Lines(request)[0])[' '] < 2
    ensures Respond(request, directory, files) == Failure(MalformedHeader)
        <==> && multiset(Lines(request)[0])[' '] >= 2
             && exists l :: l in HeaderBlock(Lines(request)[1..]) && !Contains(l, FieldSep)
  {
    RespondFailure(request, directory, files);
    RequestLineFailsIff(request);
    HeaderErrorIff(Lines(request)[1..], map[]);
  }

  lemma RespondFailure(request: string, directory: string, files: Files)
    ensures Respond(request, directory, files) == Failure(MalformedRequestLine) <==> RequestLineOf(request).Failure?
    ensures Respond(request, directory, files) == Failure(MalformedHeader)
        <==> RequestLineOf(request).Success? && HeadersOf(request).Failure?
  {
  }

  /** A well-formed request is answered by the route of its path, given the fields it declares. */
  lemma RespondToRequestText(verb: string, path: string, protocol: string, fields: seq<(string, string)>,
                             body: string, directory: string, files: Files)
    requires ' ' !in verb && ' ' !in path && ' ' !in protocol
    requires !Contains(verb + " " + path + " " + protocol, CRLF)
    requires forall i :: 0 <= i < |fields| ==> WellFormedField(fields[i])
    ensures Respond(RequestText(verb, path, protocol, fields, body), directory, files)
         == Success(Route(path, Overwrite(map[], fields), directory, files))
  {
    ParseRequestText(verb, path, protocol, fields, body);
  }

  /**
   * "GET /echo/<message>": the answer is the 200 plain-text response whose
   * body is the message (so its Content-Length is the message's length, by
   * OkResponseReadsBack), whatever the method, the fields and the body of
   * the request.
   */
  lemma EchoEndToEnd(verb: string, message: string, protocol: string, fields: seq<(string, string)>,
                     body: string, directory: string, files: Files)
    requires ' ' !in verb && ' ' !in message && ' ' !in protocol
    requires !Contains(verb + " " + (EchoPrefix + message) + " " + protocol, CRLF)
    requires forall i :: 0 <= i < |fields| ==> WellFormedField(fields[i])
    ensures Respond(RequestText(verb, EchoPrefix + message, protocol, fields, body), directory, files)
         == Success(OkResponse(TextPlain, message))
  {
    var path := EchoPrefix + message;
    assert ' ' !in path;
    RespondToRequestText(verb, path, protocol, fields, body, directory, files);
    assert StartsWith(path, EchoPrefix);
    EchoBody(message);
  }

  /**
   * "GET /user-agent": the answer is the 200 plain-text response whose body
   * is the value on the request's last User-Agent line, or "Unknown" when
   * it has none.
   */
  lemma UserAgentEndToEnd(verb: string, protocol: string, fields: seq<(string, string)>,
                          body: string, directory: string, files: Files)
    requires ' ' !in verb && ' ' !in protocol
    requires !Contains(verb + " " + UserAgentPath + " " + protocol, CRLF)
    requires forall i :: 0 <= i < |fields| ==> WellFormedField(fields[i])
    ensures Respond(RequestText(verb, UserAgentPath, protocol, fields, body), directory, files)
         == Success(OkResponse(TextPlain, match LastValue(fields, "User-Agent")
                                          case Some(agent) => agent
                                          case None => "Unknown"))
  {
    UserAgentRoute(Overwrite(map[], fields), directory, files);
    RespondToRequestText(verb, UserAgentPath, protocol, fields, body, directory, files);
    UserAgentOfFields(fields);
  }

  /**
   * "GET /files/<name>": the answer is the 200 octet-stream response whose
   * body is the text of "<directory>/<name>", or the fixed 404 answer when
   * there is no such file.
   */
  lemma FilesEndToEnd(verb: string, name: string, protocol: string, fields: seq<(string, string)>,
                      body: string, directory: string, files: Files)
    requires ' ' !in verb && ' ' !in name && ' ' !in protocol
    requires !Contains(verb + " " + (FilesPrefix + name) + " " + protocol, CRLF)
    requires forall i :: 0 <= i < |fields| ==> WellFormedField(fields[i])
    ensures Respond(RequestText(verb, FilesPrefix + name, protocol, fields, body), directory, files)
         == Success(if directory + "/" + name in files
                    then OkResponse(OctetStream, files[directory + "/" + name])
                    else NotFoundResponse)
  {
    var path := FilesPrefix + name;
    assert ' ' !in path;
    FilesRoute(name, Overwrite(map[], fields), directory, files);
    RespondToRequestText(verb, path, protocol, fields, body, directory, files);
  }

  /** "GET /": the answer is the fixed 200 response with no fields and no body. */
  lemma RootEndToEnd(verb: string, protocol: string, fields: seq<(string, string)>,
                     body: string, directory: string, files: Files)
    requires ' ' !in verb && ' ' !in protocol
    requires !Contains(verb + " " + RootPath + " " + protocol, CRLF)
    requires forall i :: 0 <= i < |fields| ==> WellFormedField(fields[i])
    ensures Respond(RequestText(verb, RootPath, protocol, fields, body), directory, files)
         == Success(EmptyOkResponse)
  {
    RespondToRequestText(verb, RootPath, protocol, fields, body, directory, files);
    assert !StartsWith(RootPath, EchoPrefix) && !StartsWith(RootPath, FilesPrefix);
  }

  /**
   * Any other path: the answer is the fixed 404 response, whatever the
   * request's verb, fields or body.
   */
  lemma FallbackEndToEnd(verb: string, path: string, protocol: string, fields: seq<(string, string)>,
                         body: string, directory: string, files: Files)
    requires ' ' !in verb && ' ' !in path && ' ' !in protocol
    requires !Contains(verb + " " + path + " " + protocol, CRLF)
    requires forall i :: 0 <= i < |fields| ==> WellFormedField(fields[i])
    requires !StartsWith(path, EchoPrefix) && !StartsWith(path, FilesPrefix)
    requires path != UserAgentPath && path != RootPath
    ensures Respond(RequestText(verb, path, protocol, fields, body), directory, files)
         == Success(NotFoundResponse)
  {
    RespondToRequestText(verb, path, protocol, fields, body, directory, files);
  }

  lemma FilesRoute(name: string, headers: Headers, directory: string, files: Files)
    ensures Route(FilesPrefix + name, headers, directory, files) == FilesResponse(FilesPrefix + name, directory, files)
    ensures FilePath(directory, FilesPrefix + name) == directory + "/" + name
  {
    var path := FilesPrefix + name;
    assert StartsWith(path, FilesPrefix);
    RouteConditionsExclusive(path);
    assert SliceFrom(path, |FilesPrefix|) == name;
  }

  lemma UserAgentRoute(headers: Headers, directory: string, files: Files)
    ensures ' ' !in UserAgentPath
    ensures Route(UserAgentPath, headers, directory, files) == UserAgentResponse(headers)
  {
    RouteConditionsExclusive(UserAgentPath);
  }

  /** The User-Agent the handler reports is the last one the request declares, or "Unknown". */
  lemma UserAgentOfFields(fields: seq<(string, string)>)
    ensures UserAgentOf(Overwrite(map[], fields))
         == match LastValue(fields, "User-Agent")
            case Some(agent) => agent
            case None => "Unknown"
  {
    HeaderLookup(fields, "User-Agent");
  }
}
