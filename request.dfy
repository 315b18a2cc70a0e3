/**
 * The wire parser: the request line, the header fields and the body of one
 * decoded request buffer (app/main.py:9-27). Lines are separated by CRLF,
 * the header block ends at the first empty line, and the body is whatever
 * follows the first CRLF CRLF.
 */
module Request {
  import opened Wrappers
  import opened Text

  const CRLF: string := "\r\n"
  /** The end of the header block: a line break followed by an empty line. */
  const HeaderEnd: string := "\r\n\r\n"
  /** What separates a field name from its value on a header line. */
  const FieldSep: string := ": "

  /** The exceptions the parser raises: an IndexError on a short request line, a ValueError on a header line without ": ". */
  datatype ParseError = MalformedRequestLine | MalformedHeader

  datatype RequestLine = RequestLine(verb: string, path: string, protocol: string)

  /** Field name to value; a later line with the same name overwrites an earlier one. */
  type Headers = map<string, string>

  /** `text.split("\r\n")`. */
  function Lines(text: string): seq<string> {
    Split(text, CRLF)
  }

  lemma CRLFNoSelfOverlap()
    ensures NoSelfOverlap(CRLF)
  {
    forall k | 0 < k < |CRLF|
      ensures CRLF[k..] != CRLF[..|CRLF| - k]
    {
      assert CRLF[k..][0] == '\n' && CRLF[..|CRLF| - k][0] == '\r';
    }
  }

  lemma FieldSepNoSelfOverlap()
    ensures NoSelfOverlap(FieldSep)
  {
    forall k | 0 < k < |FieldSep|
      ensures FieldSep[k..] != FieldSep[..|FieldSep| - k]
    {
      assert FieldSep[k..][0] == ' ' && FieldSep[..|FieldSep| - k][0] == ':';
    }
  }

  lemma SpaceNoSelfOverlap()
    ensures NoSelfOverlap(" ")
  {
  }

  // ---------------------------------------------------------------- request line

  /**
   * extract_request_info_from_request: the first line split on single
   * spaces; verb (the method), path and protocol are tokens 0, 1 and 2, and any
   * further tokens are ignored. Fewer than three tokens is an IndexError.
   */
  function RequestLineOf(request: string): Result<RequestLine, ParseError> {
    var tokens := Split(Lines(request)[0], " ");
    if |tokens| < 3 then Failure(MalformedRequestLine)
    else Success(RequestLine(tokens[0], tokens[1], tokens[2]))
  }

  /** The request line parses exactly when the first line holds at least two spaces. */
  lemma RequestLineFailsIff(request: string)
    ensures RequestLineOf(request).Failure? <==> multiset(Lines(request)[0])[' '] < 2
  {
    SplitCount(Lines(request)[0], ' ');
  }

  /** The first line of `line + CRLF + rest` is `line` when `line` holds no CRLF. */
  lemma FirstLine(line: string, rest: string)
    requires !Contains(line, CRLF)
    ensures Lines(line + CRLF + rest)[0] == line
  {
    CRLFNoSelfOverlap();
    SplitAround(line, CRLF, rest);
  }

  /**
   * Round trip: a request line written as verb, space, path, space,
   * protocol (optionally followed by more space-separated text) parses back
   * to exactly those three tokens.
   */
  lemma RequestLineRoundTrip(verb: string, path: string, protocol: string, tail: string, rest: string)
    requires ' ' !in verb && ' ' !in path && ' ' !in protocol
    requires tail == "" || tail[0] == ' '
    requires !Contains(verb + " " + path + " " + protocol + tail, CRLF)
    ensures RequestLineOf(verb + " " + path + " " + protocol + tail + CRLF + rest)
         == Success(RequestLine(verb, path, protocol))
  {
    var line := verb + " " + path + " " + protocol + tail;
    FirstLine(line, rest);
    RequestLineFromFirstLine(line + CRLF + rest, verb, path, protocol, tail);
  }

  /** A token without spaces comes off a split on " " on its own. */
  lemma SplitOffToken(token: string, rest: string)
    requires ' ' !in token
    ensures Split(token + " " + rest, " ") == [token] + Split(rest, " ")
  {
    SpaceNoSelfOverlap();
    NoFirstCharNoOccurrence(token, " ");
    SplitFirstPiece(token, " ", rest);
  }

  /** The first three tokens of a line written as verb, space, path, space, protocol and a tail. */
  lemma TokensOf(verb: string, path: string, protocol: string, tail: string)
    requires ' ' !in verb && ' ' !in path && ' ' !in protocol
    requires tail == "" || tail[0] == ' '
    ensures |Split(verb + " " + path + " " + protocol + tail, " ")| >= 3
    ensures Split(verb + " " + path + " " + protocol + tail, " ")[..3] == [verb, path, protocol]
  {
    LineAssociates(verb, path, protocol, tail);
    var third := protocol + tail;
    SplitOffToken(verb, path + " " + third);
    SplitOffToken(path, third);
    ProtocolToken(protocol, tail);
  }

  lemma LineAssociates(verb: string, path: string, protocol: string, tail: string)
    ensures verb + " " + path + " " + protocol + tail == verb + " " + (path + " " + (protocol + tail))
  {
  }

  lemma ProtocolToken(protocol: string, tail: string)
    requires ' ' !in protocol
    requires tail == "" || tail[0] == ' '
    ensures Split(protocol + tail, " ")[0] == protocol
  {
    if tail == "" {
      NoFirstCharNoOccurrence(protocol, " ");
      assert protocol + tail == protocol;
    } else {
      var more := tail[1..];
      assert tail == " " + more;
      assert protocol + tail == protocol + " " + more;
      SplitOffToken(protocol, more);
    }
  }

  // ---------------------------------------------------------------- header fields

  /** `key, value = line.split(": ", 1)`: None when the unpacking fails. */
  function FieldOf(line: string): (r: Option<(string, string)>)
    ensures r.Some? <==> Contains(line, FieldSep)
    ensures r.Some? ==> line == r.value.0 + FieldSep + r.value.1 && !Contains(r.value.0, FieldSep)
  {
    var parts := SplitOnce(line, FieldSep);
    if |parts| == 2 then Some((parts[0], parts[1])) else None
  }

  /**
   * The header loop of extract_headers_from_request over `lines`, starting
   * from the fields in `acc`: it stops at the first empty line, and fails at
   * the first non-empty line that has no ": ".
   */
  function FoldHeaders(lines: seq<string>, acc: Headers): (r: Result<Headers, ParseError>)
    ensures r.Failure? ==> r.error == MalformedHeader
    decreases |lines|
  {
    if |lines| == 0 || lines[0] == "" then Success(acc)
    else match FieldOf(lines[0])
      case None => Failure(MalformedHeader)
      case Some(field) => FoldHeaders(lines[1..], acc[field.0 := field.1])
  }

  /** extract_headers_from_request: the header loop over every line after the request line. */
  function HeadersOf(request: string): Result<Headers, ParseError> {
    FoldHeaders(Lines(request)[1..], map[])
  }

  /** extract_headers_from_request, as the source writes it: a loop that fills a dictionary. */
  method ExtractHeaders(request: string) returns (r: Result<Headers, ParseError>)
    ensures r == HeadersOf(request)
  {
    var lines := Lines(request)[1..];
    var headers: Headers := map[];
    var i := 0;
    while i < |lines|
      invariant i <= |lines|
      invariant FoldHeaders(lines[i..], headers) == HeadersOf(request)
    {
      var line := lines[i];
      if line == "" {
        break;
      }
      var parts := SplitOnce(line, FieldSep);
      if |parts| != 2 {
        return Failure(MalformedHeader);
      }
      assert lines[i..][1..] == lines[i + 1..];
      headers := headers[parts[0] := parts[1]];
      i := i + 1;
    }
    return Success(headers);
  }

  /** The lines of the header block: those before the first empty line. */
  function HeaderBlock(lines: seq<string>): (block: seq<string>)
    ensures |block| <= |lines| && block == lines[..|block|]
    ensures "" !in block
    ensures |block| < |lines| ==> lines[|block|] == ""
    decreases |lines|
  {
    if |lines| == 0 || lines[0] == "" then []
    else [lines[0]] + HeaderBlock(lines[1..])
  }

  /** The header loop reads the header block and nothing after it. */
  lemma {:induction false} HeadersEndAtBlankLine(lines: seq<string>, acc: Headers)
    ensures FoldHeaders(lines, acc) == FoldHeaders(HeaderBlock(lines), acc)
    decreases |lines|
  {
    if |lines| > 0 && lines[0] != "" {
      var block := HeaderBlock(lines);
      assert block[0] == lines[0] && block[1..] == HeaderBlock(lines[1..]);
      match FieldOf(lines[0])
      case None =>
      case Some(field) => HeadersEndAtBlankLine(lines[1..], acc[field.0 := field.1]);
    }
  }

  /** Header parsing fails exactly when some line of the header block has no ": ". */
  lemma {:induction false} HeaderErrorIff(lines: seq<string>, acc: Headers)
    ensures FoldHeaders(lines, acc).Failure?
        <==> exists l :: l in HeaderBlock(lines) && !Contains(l, FieldSep)
    decreases |lines|
  {
    if |lines| > 0 && lines[0] != "" {
      var block := HeaderBlock(lines);
      assert block == [lines[0]] + HeaderBlock(lines[1..]);
      match FieldOf(lines[0])
      case None =>
        assert lines[0] in block;
      case Some(field) =>
        HeaderErrorIff(lines[1..], acc[field.0 := field.1]);
    }
  }

  /** Lines after an empty line are never read as header fields. */
  lemma {:induction false} FoldStopsAtBlank(xs: seq<string>, ys: seq<string>, acc: Headers)
    ensures FoldHeaders(xs + [""] + ys, acc) == FoldHeaders(xs, acc)
    decreases |xs|
  {
    if |xs| > 0 && xs[0] != "" {
      assert (xs + [""] + ys)[1..] == xs[1..] + [""] + ys;
      match FieldOf(xs[0])
      case None =>
      case Some(field) => FoldStopsAtBlank(xs[1..], ys, acc[field.0 := field.1]);
    }
  }

  /** The lines of a message are those of its head, an empty line, then those of its body. */
  lemma LinesOfMessage(head: string, body: string)
    ensures Lines(head + HeaderEnd + body) == Lines(head) + [""] + Lines(body)
  {
    CRLFNoSelfOverlap();
    assert head + HeaderEnd + body == head + CRLF + ("" + CRLF + body);
    SplitAround(head, CRLF, "" + CRLF + body);
    SplitAround("", CRLF, body);
    assert Lines("") == [""];
  }

  /** The body never contributes header fields: the headers of a request are those of its head. */
  lemma HeadersIgnoreBody(head: string, body: string)
    ensures HeadersOf(head + HeaderEnd + body) == HeadersOf(head)
  {
    LinesOfMessage(head, body);
    var hl := Lines(head);
    assert (hl + [""] + Lines(body))[1..] == hl[1..] + [""] + Lines(body);
    FoldStopsAtBlank(hl[1..], Lines(body), map[]);
  }

  /** A CRLF CRLF in a text shows up as an empty line after its first line. */
  lemma BlankLineFromHeaderEnd(text: string)
    requires Contains(text, HeaderEnd)
    ensures "" in Lines(text)[1..]
  {
    var i := IndexOf(text, HeaderEnd).value;
    var head, body := text[..i], text[i + |HeaderEnd|..];
    assert text == head + HeaderEnd + body;
    LinesOfMessage(head, body);
    assert Lines(text)[|Lines(head)|] == "";
  }

  /** A join of CRLF-free lines whose last line is not empty neither is empty nor ends with CRLF. */
  lemma {:induction false} JoinNoTrailingCRLF(lines: seq<string>)
    requires |lines| >= 1 && lines[|lines| - 1] != ""
    requires forall i :: 0 <= i < |lines| ==> !Contains(lines[i], CRLF)
    ensures |Join(lines, CRLF)| >= 1 && !EndsWith(Join(lines, CRLF), CRLF)
    decreases |lines|
  {
    var text := Join(lines, CRLF);
    if |lines| == 1 {
      if |text| >= 2 {
        assert !OccursAt(lines[0], CRLF, |text| - 2);
      }
    } else {
      var rest := Join(lines[1..], CRLF);
      JoinNoTrailingCRLF(lines[1..]);
      assert text == lines[0] + CRLF + rest;
      if |rest| >= 2 {
        assert text[|text| - 2..] == rest[|rest| - 2..];
      } else {
        assert text[|text| - 2] == '\n';
      }
    }
  }

  /**
   * A field line splits on its FIRST ": " only, so a value may itself hold
   * ": ": `name + ": " + value` reads back as (name, value) exactly when the
   * name holds no ": ".
   */
  lemma FieldRoundTrip(name: string, value: string)
    ensures FieldOf(name + FieldSep + value) == Some((name, value)) <==> !Contains(name, FieldSep)
  {
    if !Contains(name, FieldSep) {
      FieldSepNoSelfOverlap();
      NoSelfOverlapNoStraddle(name, FieldSep);
      FirstOccurrenceAfter(name, FieldSep, value);
      var s := name + FieldSep + value;
      assert s[..|name|] == name && s[|name| + |FieldSep|..] == value;
    }
  }

  /** The header line a client writes for one field. */
  function FieldLine(field: (string, string)): string {
    field.0 + FieldSep + field.1
  }

  function FieldLines(fields: seq<(string, string)>): (lines: seq<string>)
    ensures |lines| == |fields|
    ensures forall i :: 0 <= i < |fields| ==> lines[i] == FieldLine(fields[i])
  {
    seq(|fields|, i requires 0 <= i < |fields| => FieldLine(fields[i]))
  }

  /** A field a client can write on one header line and have read back unchanged. */
  ghost predicate WellFormedField(field: (string, string)) {
    !Contains(field.0, FieldSep) && !Contains(FieldLine(field), CRLF)
  }

  /** The fields `fields` entered into `acc` in order, a later name overwriting an earlier one. */
  function Overwrite(acc: Headers, fields: seq<(string, string)>): Headers
    decreases |fields|
  {
    if |fields| == 0 then acc
    else Overwrite(acc[fields[0].0 := fields[0].1], fields[1..])
  }

  /** The header loop over well-formed field lines enters each field in order. */
  lemma {:induction false} FoldFieldLines(fields: seq<(string, string)>, acc: Headers)
    requires forall i :: 0 <= i < |fields| ==> !Contains(fields[i].0, FieldSep)
    ensures FoldHeaders(FieldLines(fields), acc) == Success(Overwrite(acc, fields))
    decreases |fields|
  {
    if |fields| > 0 {
      var lines := FieldLines(fields);
      FieldRoundTrip(fields[0].0, fields[0].1);
      assert lines[0] == FieldLine(fields[0]) != "";
      assert lines[1..] == FieldLines(fields[1..]);
      FoldFieldLines(fields[1..], acc[fields[0].0 := fields[0].1]);
    }
  }

  /**
   * Round trip: a request written as a request line, one line per field and
   * an empty line, followed by any body, parses to the fields entered in
   * order (the later of two equal names wins).
   */
  lemma HeadersRoundTrip(requestLine: string, fields: seq<(string, string)>, body: string)
    requires !Contains(requestLine, CRLF)
    requires forall i :: 0 <= i < |fields| ==> WellFormedField(fields[i])
    ensures HeadersOf(Join([requestLine] + FieldLines(fields), CRLF) + HeaderEnd + body)
         == Success(Overwrite(map[], fields))
  {
    var lines := [requestLine] + FieldLines(fields);
    var head := Join(lines, CRLF);
    HeadersIgnoreBody(head, body);
    HeadLines(requestLine, fields);
    assert Lines(head)[1..] == FieldLines(fields);
    FoldFieldLines(fields, map[]);
  }

  /** A head written from a CRLF-free start line and well-formed fields splits back into its lines. */
  lemma HeadLines(startLine: string, fields: seq<(string, string)>)
    requires !Contains(startLine, CRLF)
    requires forall i :: 0 <= i < |fields| ==> WellFormedField(fields[i])
    ensures Lines(Join([startLine] + FieldLines(fields), CRLF)) == [startLine] + FieldLines(fields)
  {
    var lines := [startLine] + FieldLines(fields);
    CRLFNoSelfOverlap();
    forall p | p in lines
      ensures !Contains(p, CRLF)
    {
      if p != startLine {
        var i :| 0 <= i < |fields| && p == FieldLine(fields[i]);
      }
    }
    SplitOfJoin(lines, CRLF);
  }

  /** A name that no field declares keeps its value from `acc`; a declared name is present. */
  lemma {:induction false} OverwriteKeys(acc: Headers, fields: seq<(string, string)>, name: string)
    ensures name in Overwrite(acc, fields) <==> name in acc || exists i :: 0 <= i < |fields| && fields[i].0 == name
    ensures (forall i :: 0 <= i < |fields| ==> fields[i].0 != name) && name in acc
        ==> Overwrite(acc, fields)[name] == acc[name]
    decreases |fields|
  {
    if |fields| > 0 {
      OverwriteKeys(acc[fields[0].0 := fields[0].1], fields[1..], name);
      if exists i :: 0 <= i < |fields| && fields[i].0 == name {
        var i :| 0 <= i < |fields| && fields[i].0 == name;
        if i > 0 {
          assert fields[1..][i - 1].0 == name;
        }
      }
      if exists i :: 0 <= i < |fields[1..]| && fields[1..][i].0 == name {
        var i :| 0 <= i < |fields[1..]| && fields[1..][i].0 == name;
        assert fields[i + 1].0 == name;
      }
    }
  }

  /** Duplicate names: the value of a name is the one on its last field line. */
  lemma {:induction false} LastFieldWins(acc: Headers, fields: seq<(string, string)>, i: nat)
    requires i < |fields|
    requires forall j :: i < j < |fields| ==> fields[j].0 != fields[i].0
    ensures fields[i].0 in Overwrite(acc, fields)
    ensures Overwrite(acc, fields)[fields[i].0] == fields[i].1
    decreases |fields|
  {
    var next := acc[fields[0].0 := fields[0].1];
    if i == 0 {
      forall j | 0 <= j < |fields[1..]|
        ensures fields[1..][j].0 != fields[0].0
      {
        assert fields[1..][j] == fields[j + 1];
      }
      OverwriteKeys(next, fields[1..], fields[0].0);
    } else {
      assert fields[1..][i - 1] == fields[i];
      forall j | i - 1 < j < |fields[1..]|
        ensures fields[1..][j].0 != fields[i].0
      {
        assert fields[1..][j] == fields[j + 1];
      }
      LastFieldWins(next, fields[1..], i - 1);
    }
  }

  /** The value on the last field line named `name`, found by reading the fields from the end. */
  function LastValue(fields: seq<(string, string)>, name: string): (r: Option<string>)
    ensures r.None? <==> forall i :: 0 <= i < |fields| ==> fields[i].0 != name
    ensures r.Some? ==> exists i :: 0 <= i < |fields| && fields[i] == (name, r.value)
                          && forall j :: i < j < |fields| ==> fields[j].0 != name
    decreases |fields|
  {
    if |fields| == 0 then None
    else if fields[|fields| - 1].0 == name then Some(fields[|fields| - 1].1)
    else LastValue(fields[..|fields| - 1], name)
  }

  /**
   * Looking a name up among the parsed fields gives the value on its last
   * field line, and the name is absent exactly when no line declares it.
   */
  lemma HeaderLookup(fields: seq<(string, string)>, name: string)
    ensures name in Overwrite(map[], fields) <==> LastValue(fields, name).Some?
    ensures name in Overwrite(map[], fields) ==> Overwrite(map[], fields)[name] == LastValue(fields, name).value
  {
    OverwriteKeys(map[], fields, name);
    var last := LastValue(fields, name);
    if last.Some? {
      var i :| 0 <= i < |fields| && fields[i] == (name, last.value)
               && forall j :: i < j < |fields| ==> fields[j].0 != name;
      LastFieldWins(map[], fields, i);
    }
  }

  // ---------------------------------------------------------------- body

  /** extract_body_from_request: the text after the first CRLF CRLF, or "" when there is none. */
  function BodyOf(request: string): (body: string)
    ensures |body| <= |request| && request[|request| - |body|..] == body
    ensures Contains(request, HeaderEnd) ==>
      request == request[..IndexOf(request, HeaderEnd).value] + HeaderEnd + body
    ensures !Contains(request, HeaderEnd) ==> body == ""
  {
    if Contains(request, HeaderEnd) then SplitOnce(request, HeaderEnd)[1] else ""
  }

  /** Only a head ending in CRLF lets CRLF CRLF start inside it and run into the appended one. */
  lemma HeaderEndNoStraddle(head: string)
    requires !EndsWith(head, CRLF)
    ensures NoStraddle(head, HeaderEnd)
  {
    assert HeaderEnd[1..][0] == '\n' && HeaderEnd[..3][0] == '\r';
    assert HeaderEnd[3..][0] == '\n' && HeaderEnd[..1][0] == '\r';
    assert HeaderEnd[..2] == CRLF;
  }

  /**
   * Round trip: the body of `head + CRLF CRLF + b` is `b` exactly when
   * `head` holds no CRLF CRLF and does not end with CRLF; otherwise an
   * earlier CRLF CRLF is taken and the body comes out longer than `b`.
   */
  lemma BodyRoundTrip(head: string, b: string)
    ensures BodyOf(head + HeaderEnd + b) == b <==> !Contains(head, HeaderEnd) && !EndsWith(head, CRLF)
  {
    var s := head + HeaderEnd + b;
    if !Contains(head, HeaderEnd) && !EndsWith(head, CRLF) {
      HeaderEndNoStraddle(head);
      FirstOccurrenceAfter(head, HeaderEnd, b);
      assert s[|head| + |HeaderEnd|..] == b;
    } else {
      if Contains(head, HeaderEnd) {
        var i := IndexOf(head, HeaderEnd).value;
        FirstOccurrenceKept(head, HeaderEnd, HeaderEnd + b, i);
        assert s == head + (HeaderEnd + b);
      } else {
        var j := |head| - 2;
        assert s[j..j + 4] == head[j..] + CRLF;
        assert OccursAt(s, HeaderEnd, j);
      }
      var i := IndexOf(s, HeaderEnd).value;
      assert |BodyOf(s)| == |s| - i - 4 > |b|;
    }
  }

  // ---------------------------------------------------------------- whole messages

  /** What a peer writes: a start line, one line per field, an empty line and the body. */
  function MessageText(startLine: string, fields: seq<(string, string)>, body: string): string {
    Join([startLine] + FieldLines(fields), CRLF) + HeaderEnd + body
  }

  /** What a client writes: a request line of three space-separated tokens, then fields and body. */
  function RequestText(verb: string, path: string, protocol: string, fields: seq<(string, string)>, body: string): string {
    MessageText(verb + " " + path + " " + protocol, fields, body)
  }

  /**
   * Round trip: the parser reads a written message back as its start line,
   * its fields entered in order, and its body, whatever the body holds.
   */
  lemma ParseMessageText(startLine: string, fields: seq<(string, string)>, body: string)
    requires startLine != "" && !Contains(startLine, CRLF)
    requires forall i :: 0 <= i < |fields| ==> WellFormedField(fields[i])
    ensures Lines(MessageText(startLine, fields, body))[0] == startLine
    ensures HeadersOf(MessageText(startLine, fields, body)) == Success(Overwrite(map[], fields))
    ensures BodyOf(MessageText(startLine, fields, body)) == body
  {
    var head := Join([startLine] + FieldLines(fields), CRLF);
    HeadersRoundTrip(startLine, fields, body);
    WrittenLines(startLine, fields);
    LinesOfMessage(head, body);
    BodyOfText(startLine, fields, body);
  }

  /** Round trip: the parser reads a written request back as its three tokens, its fields and its body. */
  lemma ParseRequestText(verb: string, path: string, protocol: string, fields: seq<(string, string)>, body: string)
    requires ' ' !in verb && ' ' !in path && ' ' !in protocol
    requires !Contains(verb + " " + path + " " + protocol, CRLF)
    requires forall i :: 0 <= i < |fields| ==> WellFormedField(fields[i])
    ensures RequestLineOf(RequestText(verb, path, protocol, fields, body)) == Success(RequestLine(verb, path, protocol))
    ensures HeadersOf(RequestText(verb, path, protocol, fields, body)) == Success(Overwrite(map[], fields))
    ensures BodyOf(RequestText(verb, path, protocol, fields, body)) == body
  {
    var line := verb + " " + path + " " + protocol;
    ParseMessageText(line, fields, body);
    RequestLineFromExactLine(RequestText(verb, path, protocol, fields, body), verb, path, protocol);
  }

  /** The lines of a written head are its start line and its field lines, none of them empty. */
  lemma WrittenLines(line: string, fields: seq<(string, string)>)
    requires line != "" && !Contains(line, CRLF)
    requires forall i :: 0 <= i < |fields| ==> WellFormedField(fields[i])
    ensures Lines(Join([line] + FieldLines(fields), CRLF)) == [line] + FieldLines(fields)
    ensures forall i :: 0 <= i < |fields| + 1 ==> ([line] + FieldLines(fields))[i] != ""
    ensures forall i :: 0 <= i < |fields| + 1 ==> !Contains(([line] + FieldLines(fields))[i], CRLF)
  {
    var lines := [line] + FieldLines(fields);
    CRLFNoSelfOverlap();
    forall i | 0 <= i < |lines|
      ensures !Contains(lines[i], CRLF) && lines[i] != ""
    {
      if i > 0 {
        assert lines[i][|fields[i - 1].0|] == ':';
      }
    }
    SplitOfJoin(lines, CRLF);
  }

  /** A first line of exactly three space-free tokens parses to those tokens. */
  lemma RequestLineFromFirstLine(request: string, verb: string, path: string, protocol: string, tail: string)
    requires ' ' !in verb && ' ' !in path && ' ' !in protocol
    requires tail == "" || tail[0] == ' '
    requires Lines(request)[0] == verb + " " + path + " " + protocol + tail
    ensures RequestLineOf(request) == Success(RequestLine(verb, path, protocol))
  {
    TokensOf(verb, path, protocol, tail);
    var tokens := Split(Lines(request)[0], " ");
    assert tokens[0] == verb && tokens[1] == path && tokens[2] == protocol by {
      assert tokens[..3][0] == tokens[0] && tokens[..3][1] == tokens[1] && tokens[..3][2] == tokens[2];
    }
  }


  lemma RequestLineFromExactLine(request: string, verb: string, path: string, protocol: string)
    requires ' ' !in verb && ' ' !in path && ' ' !in protocol
    requires Lines(request)[0] == verb + " " + path + " " + protocol
    ensures RequestLineOf(request) == Success(RequestLine(verb, path, protocol))
  {
    assert verb + " " + path + " " + protocol + "" == verb + " " + path + " " + protocol;
    RequestLineFromFirstLine(request, verb, path, protocol, "");
  }

  lemma BodyOfText(line: string, fields: seq<(string, string)>, body: string)
    requires line != "" && !Contains(line, CRLF)
    requires forall i :: 0 <= i < |fields| ==> WellFormedField(fields[i])
    ensures BodyOf(Join([line] + FieldLines(fields), CRLF) + HeaderEnd + body) == body
  {
    var lines := [line] + FieldLines(fields);
    var head := Join(lines, CRLF);
    WrittenLines(line, fields);
    if Contains(head, HeaderEnd) {
      BlankLineFromHeaderEnd(head);
      assert false;
    }
    JoinNoTrailingCRLF(lines);
    BodyRoundTrip(head, body);
  }
}
