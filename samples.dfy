/**
 * The messages the example parses, and what it reports for them.
 */
module Samples {
  import opened Wrappers
  import opened Scan
  import opened Patterns
  import opened HttpGrammar
  import opened Visitor
  import opened Message
  import opened Texts

  const HostField := FieldText("Host", 1, "localhost:8000")
  const ConnectionField := FieldText("Connection", 1, "keep-alive")
  const AcceptField := FieldText("Accept", 1, "text/html")
  const FirstRequestLine := RequestLineText("GET", "/hello.html", '1', '1')
  const FirstMessage :=
    FirstRequestLine + FieldLine(HostField) + FieldLine(ConnectionField) + FieldLine(AcceptField) + "\r\n"

  const StatusConnectionField := FieldText("Connection", 1, "Keep-Alive")
  const ContentTypeField := FieldText("Content-Type", 0, "text/html")
  const ContentLengthField := FieldText("Content-Length", 6, "22")
  const SecondStatusLine := StatusLineText('1', '1', "200", "OK")
  const SecondBody := "<h1>Hello World!</h1>\n"
  const SecondMessage :=
    SecondStatusLine + FieldLine(StatusConnectionField) + FieldLine(ContentTypeField) + FieldLine(ContentLengthField)
    + "\r\n" + SecondBody

  const ThirdMessage := "GET / HTTP/1.0\r\n\r\n"
  const FourthMessage := "HTTP/1.0 2000 " + "Invalid Status - Error intended\r\n\r\n"

  /** The method "GET" and the target "/" of the third message. */
  lemma {:induction false} ThirdRequestHead()
    ensures RequestHeadAt(ThirdMessage, 0) == Some((3, 5))
  {
    var input := ThirdMessage;
    assert RunLength(input, 3, 97, IsUpper) == 0;
    assert RunLength(input, 2, 98, IsUpper) == 1;
    assert RunLength(input, 1, 99, IsUpper) == 2;
    assert RunLength(input, 0, 100, IsUpper) == 3;
    assert input[3..4] == " " && input[5..6] == " ";
    assert input[4..5][0] == '/';
    assert FindFrom(input, 4, " ") == Some(5);
  }

  /** The version "HTTP/1.0" and the CRLF that end the third message's request line. */
  lemma {:induction false} ThirdRequestTail()
    ensures RequestTail(ThirdMessage, 6)
  {
    var input := ThirdMessage;
    assert input == "GET / " + "HTTP/" + "1.0\r\n\r\n";
    LitAtMiddle("GET / ", "HTTP/", "1.0\r\n\r\n");
    assert input == "GET / HTTP/1.0" + "\r\n" + "\r\n";
    LitAtMiddle("GET / HTTP/1.0", "\r\n", "\r\n");
  }

  lemma {:induction false} ThirdStartLine()
    ensures StartLineFields(ThirdMessage) == Some((Request("GET", "/"), 1, 0, 16))
  {
    var input := ThirdMessage;
    ThirdRequestHead();
    ThirdRequestTail();
    assert RequestLineAt(input, 0) == Some((3, 5));
    ThirdMethodTarget();
  }

  lemma {:induction false} ThirdMethodTarget()
    ensures ThirdMessage[0..3] == "GET" && ThirdMessage[4..5] == "/"
  {
    assert ThirdMessage == "GET" + " " + "/" + " HTTP/1.0\r\n\r\n";
  }

  /** The third message: a request without header fields and with an empty body. */
  lemma {:induction false} RequestWithoutHeaders()
    ensures ParseReference(ThirdMessage) == Some(Report(1, 0, Request("GET", "/"), map[], ""))
    ensures Match(HttpMessage, ThirdMessage, 0).cursor == Some(|ThirdMessage|)
  {
    var input := ThirdMessage;
    ThirdStartLine();
    assert input[16..17][0] != ':' && input[17..18][0] != ':';
    assert FindFrom(input, 18, ":").None?;
    assert FindFrom(input, 17, ":").None?;
    assert FindFrom(input, 16, ":").None?;
    assert HeaderList(input, 16, 100) == ([], 16);
    assert input[16..18] == "\r\n" && input[18..] == "";
    MessageMatches(input);
  }

  /** The fourth message: a status code of four digits, so nothing matches. */
  lemma {:induction false} FourDigitStatus()
    ensures ParseReference(FourthMessage).None?
    ensures Match(HttpMessage, FourthMessage, 0).cursor.None?
  {
    FourthNoStartLine();
    MessageMatches(FourthMessage);
  }

  lemma {:induction false} FourthNoStartLine()
    ensures ParseReference(FourthMessage).None?
  {
    var input := FourthMessage;
    assert RunLength(input, 4, 96, IsUpper) == 0;
    assert RunLength(input, 3, 97, IsUpper) == 1;
    assert RunLength(input, 2, 98, IsUpper) == 2;
    assert RunLength(input, 1, 99, IsUpper) == 3;
    assert RunLength(input, 0, 100, IsUpper) == 4;
    assert input[4..5][0] == '/';
    assert RequestHeadAt(input, 0).None?;
    assert input[12..13][0] == '0';
    assert !ResponseHeadAt(input, 0);
    assert StartLineFields(input).None?;
  }

  // ---------------------------------------------------------------------
  // The first message: a request with three header fields and no body
  // ---------------------------------------------------------------------

  /** The first message, line by line, is the text the example parses first. */
  lemma {:induction false} FirstText()
    ensures FirstMessage
            == "GET /hello.html HTTP/1.1\r\n" + "Host: localhost:8000\r\n" + "Connection: keep-alive\r\n"
               + "Accept: text/html\r\n" + "\r\n"
  {
    FirstLineText();
    HostText();
    ConnectionText();
    AcceptText();
  }

  lemma {:induction false} HostText()
    ensures FieldLine(HostField) == "Host: localhost:8000\r\n"
  {
    FieldLineText(HostField, "Host: localhost:8000\r\n");
  }

  lemma {:induction false} ConnectionText()
    ensures FieldLine(ConnectionField) == "Connection: keep-alive\r\n"
  {
    FieldLineText(ConnectionField, "Connection: keep-alive\r\n");
  }

  lemma {:induction false} AcceptText()
    ensures FieldLine(AcceptField) == "Accept: text/html\r\n"
  {
    FieldLineText(AcceptField, "Accept: text/html\r\n");
  }

  lemma {:induction false} FirstLineText()
    ensures FirstRequestLine == "GET /hello.html HTTP/1.1\r\n"
  {
    assert VersionText('1', '1') == "HTTP/1.1";
  }

  /** A header field with one space after the colon, as the samples write them. */
  lemma {:induction false} FieldLineText(f: FieldText, text: string)
    requires f.spaces == 1 && text == f.name + ": " + f.value + "\r\n"
    ensures FieldLine(f) == text
  {
    assert Blanks(1) == " ";
  }

  /** The lines of the first message, each where it is written. */
  predicate FirstLayout(input: string)
  {
    && |input| == 93
    && LitAt(input, 0, FirstRequestLine)
    && LitAt(input, 26, FieldLine(HostField))
    && LitAt(input, 48, FieldLine(ConnectionField))
    && LitAt(input, 72, FieldLine(AcceptField))
    && LitAt(input, 91, "\r\n")
  }

  /** Where the lines of the first message lie. */
  lemma {:induction false} FirstLines()
    ensures FirstLayout(FirstMessage)
  {
    var l, h, c, a := FirstRequestLine, FieldLine(HostField), FieldLine(ConnectionField), FieldLine(AcceptField);
    LitAtEnd([], l);
    LitAtGrow(l, 0, l, h);
    LitAtGrow(l + h, 0, l, c);
    LitAtGrow(l + h + c, 0, l, a);
    LitAtGrow(l + h + c + a, 0, l, "\r\n");
    LitAtEnd(l, h);
    LitAtGrow(l + h, 26, h, c);
    LitAtGrow(l + h + c, 26, h, a);
    LitAtGrow(l + h + c + a, 26, h, "\r\n");
    LitAtEnd(l + h, c);
    LitAtGrow(l + h + c, 48, c, a);
    LitAtGrow(l + h + c + a, 48, c, "\r\n");
    LitAtEnd(l + h + c, a);
    LitAtGrow(l + h + c + a, 72, a, "\r\n");
    LitAtEnd(l + h + c + a, "\r\n");
  }

  /** The request line of the first message reads back as written. */
  lemma {:induction false} FirstRequestRead(input: string)
    requires FirstLayout(input)
    ensures RequestLineAt(input, 0) == Some((3, 15))
    ensures input[0..3] == "GET" && input[4..15] == "/hello.html"
    ensures input[21] == '1' && input[23] == '1'
  {
    RequestLineParts(input, 0, "GET", "/hello.html", '1', '1');
    RequestLineRead(input, 0, "GET", "/hello.html", '1', '1');
  }

  /** The first message is a request for `/hello.html` with method `GET`, in HTTP 1.1. */
  lemma {:induction false} FirstStartLine(input: string)
    requires FirstLayout(input)
    ensures StartLineFields(input) == Some((Request("GET", "/hello.html"), 1, 1, 26))
  {
    FirstRequestRead(input);
  }

  /** The header fields of the first message, part by part. */
  predicate FirstFieldsAt(input: string)
  {
    && |input| == 93
    && FieldAt(input, 26, HostField) && FieldAt(input, 48, ConnectionField) && FieldAt(input, 72, AcceptField)
    && LitAt(input, 91, "\r\n")
  }

  lemma {:induction false} FirstFieldParts(input: string)
    requires FirstLayout(input)
    ensures FirstFieldsAt(input)
  {
    FieldLineParts(input, 26, HostField);
    FieldLineParts(input, 48, ConnectionField);
    FieldLineParts(input, 72, AcceptField);
  }

  /** A list of three, built up front to back. */
  lemma {:induction false} ThreeFields<T>(x: T, y: T, z: T)
    ensures [x] + ([y] + ([z] + [])) == [x, y, z]
  {
  }

  /** The sample header fields read back as written. */
  lemma {:induction false} FirstFieldsWellFormed()
    ensures WellFormedField(HostField) && WellFormedField(ConnectionField) && WellFormedField(AcceptField)
  {
    assert "localhost:8000"[0] != ' ' && "keep-alive"[0] != ' ' && "text/html"[0] != ' ';
  }

  /** The `Host` field heads the first message's header fields. */
  lemma {:induction false} FirstHostStep(input: string)
    requires FieldAt(input, 26, HostField)
    ensures 48 <= |input|
    ensures var tail := HeaderList(input, 48, 99);
            HeaderList(input, 26, 100) == ([("Host", "localhost:8000")] + tail.0, tail.1)
  {
    FirstFieldsWellFormed();
    FieldLineList(input, 26, HostField, 100, 48);
  }

  /** Then the `Connection` field. */
  lemma {:induction false} FirstConnectionStep(input: string)
    requires FieldAt(input, 48, ConnectionField)
    ensures 72 <= |input|
    ensures var tail := HeaderList(input, 72, 98);
            HeaderList(input, 48, 99) == ([("Connection", "keep-alive")] + tail.0, tail.1)
  {
    FirstFieldsWellFormed();
    FieldLineList(input, 48, ConnectionField, 99, 72);
  }

  /** Then the `Accept` field. */
  lemma {:induction false} FirstAcceptStep(input: string)
    requires FieldAt(input, 72, AcceptField)
    ensures 91 <= |input|
    ensures var tail := HeaderList(input, 91, 97);
            HeaderList(input, 72, 98) == ([("Accept", "text/html")] + tail.0, tail.1)
  {
    FirstFieldsWellFormed();
    FieldLineList(input, 72, AcceptField, 98, 91);
  }

  /** The blank line ends the first message's header fields. */
  lemma {:induction false} FirstFieldsEnd(input: string)
    requires |input| == 93 && LitAt(input, 91, "\r\n")
    ensures HeaderList(input, 91, 97) == ([], 91)
  {
    assert input[91..] == "\r\n";
    NoMoreFields(input, 91, 97);
  }

  /** The three header fields of the first message, in order, up to the blank line. */
  lemma {:induction false} FirstFields(input: string)
    requires FirstFieldsAt(input)
    ensures HeaderList(input, 26, 100)
            == ([("Host", "localhost:8000"), ("Connection", "keep-alive"), ("Accept", "text/html")], 91)
  {
    FirstHostStep(input);
    FirstConnectionStep(input);
    FirstAcceptStep(input);
    FirstFieldsEnd(input);
    ThreeFields(("Host", "localhost:8000"), ("Connection", "keep-alive"), ("Accept", "text/html"));
  }

  /** Three distinct names are all stored, each with its own value. */
  lemma {:induction false} FirstHeaders()
    ensures EmplaceAll(map[], [("Host", "localhost:8000"), ("Connection", "keep-alive"), ("Accept", "text/html")])
            == map["Host" := "localhost:8000", "Connection" := "keep-alive", "Accept" := "text/html"]
  {
    var fields := [("Host", "localhost:8000"), ("Connection", "keep-alive"), ("Accept", "text/html")];
    var m1 := map["Host" := "localhost:8000"];
    var m2 := m1["Connection" := "keep-alive"];
    assert "Connection" != "Host" by { assert "Connection"[0] != "Host"[0]; }
    assert "Accept" !in m2 by { assert "Accept"[0] != "Host"[0] && "Accept"[0] != "Connection"[0]; }
    assert EmplaceAll(map[], fields) == EmplaceAll(m1, fields[1..]);
    assert EmplaceAll(m1, fields[1..]) == EmplaceAll(m2, fields[2..]);
    assert EmplaceAll(m2, fields[2..]) == EmplaceAll(m2["Accept" := "text/html"], fields[3..]);
  }

  /** What the example reports for any input laid out as the first message. */
  lemma {:induction false} FirstReport(input: string)
    requires FirstLayout(input)
    ensures ParseReference(input)
            == Some(Report(1, 1, Request("GET", "/hello.html"),
                           map["Host" := "localhost:8000", "Connection" := "keep-alive", "Accept" := "text/html"], ""))
  {
    var f := (Request("GET", "/hello.html"), 1, 1, 26);
    FirstStartLine(input);
    FirstFieldParts(input);
    FirstFields(input);
    ParseFields(input, f);
    FirstHeaders();
    assert input[93..] == "";
  }

  /**
   * The first message: a request matched to its end, reporting HTTP 1.1,
   * method `GET`, target `/hello.html`, three header fields and an empty body.
   */
  lemma {:induction false} RequestWithHeaders()
    ensures ParseReference(FirstMessage)
            == Some(Report(1, 1, Request("GET", "/hello.html"),
                           map["Host" := "localhost:8000", "Connection" := "keep-alive", "Accept" := "text/html"], ""))
    ensures Match(HttpMessage, FirstMessage, 0).cursor == Some(|FirstMessage|)
  {
    FirstLines();
    FirstReport(FirstMessage);
    FirstStartLine(FirstMessage);
    MessageBody(FirstMessage, (Request("GET", "/hello.html"), 1, 1, 26));
  }

  // ---------------------------------------------------------------------
  // The second message: a response with three header fields and a body
  // ---------------------------------------------------------------------

  /** The second message, line by line, is the text the example parses second. */
  lemma {:induction false} SecondText()
    ensures SecondMessage
            == "HTTP/1.1 200 OK\r\n" + "Connection: Keep-Alive\r\n" + "Content-Type:text/html\r\n"
               + "Content-Length:      22\r\n" + "\r\n" + "<h1>Hello World!</h1>\n"
  {
    SecondLineText();
    StatusConnectionText();
    ContentTypeText();
    ContentLengthText();
  }

  lemma {:induction false} SecondLineText()
    ensures SecondStatusLine == "HTTP/1.1 200 OK\r\n"
  {
    assert VersionText('1', '1') == "HTTP/1.1";
  }

  lemma {:induction false} StatusConnectionText()
    ensures FieldLine(StatusConnectionField) == "Connection: Keep-Alive\r\n"
  {
    FieldLineText(StatusConnectionField, "Connection: Keep-Alive\r\n");
  }

  lemma {:induction false} ContentTypeText()
    ensures FieldLine(ContentTypeField) == "Content-Type:text/html\r\n"
  {
    assert Blanks(0) == "";
  }

  lemma {:induction false} ContentLengthText()
    ensures FieldLine(ContentLengthField) == "Content-Length:      22\r\n"
  {
    assert Blanks(6) == "      ";
  }

  /** The lines of the second message, each where it is written. */
  predicate SecondLayout(input: string)
  {
    && |input| == 114
    && LitAt(input, 0, SecondStatusLine)
    && LitAt(input, 17, FieldLine(StatusConnectionField))
    && LitAt(input, 41, FieldLine(ContentTypeField))
    && LitAt(input, 65, FieldLine(ContentLengthField))
    && LitAt(input, 90, "\r\n")
    && LitAt(input, 92, SecondBody)
  }

  /** Where the lines of the second message lie. */
  lemma {:induction false} SecondLines()
    ensures SecondLayout(SecondMessage)
  {
    var l, h, c, a, e, b :=
      SecondStatusLine, FieldLine(StatusConnectionField), FieldLine(ContentTypeField), FieldLine(ContentLengthField),
      "\r\n", SecondBody;
    LitAtEnd([], l);
    LitAtGrow(l, 0, l, h);
    LitAtGrow(l + h, 0, l, c);
    LitAtGrow(l + h + c, 0, l, a);
    LitAtGrow(l + h + c + a, 0, l, e);
    LitAtGrow(l + h + c + a + e, 0, l, b);
    LitAtEnd(l, h);
    LitAtGrow(l + h, 17, h, c);
    LitAtGrow(l + h + c, 17, h, a);
    LitAtGrow(l + h + c + a, 17, h, e);
    LitAtGrow(l + h + c + a + e, 17, h, b);
    LitAtEnd(l + h, c);
    LitAtGrow(l + h + c, 41, c, a);
    LitAtGrow(l + h + c + a, 41, c, e);
    LitAtGrow(l + h + c + a + e, 41, c, b);
    LitAtEnd(l + h + c, a);
    LitAtGrow(l + h + c + a, 65, a, e);
    LitAtGrow(l + h + c + a + e, 65, a, b);
    LitAtEnd(l + h + c + a, e);
    LitAtGrow(l + h + c + a + e, 90, e, b);
    LitAtEnd(l + h + c + a + e, b);
  }

  /** The status line of the second message reads back as written, and is not a request line. */
  lemma {:induction false} SecondStatusRead(input: string)
    requires SecondLayout(input)
    ensures RequestLineAt(input, 0).None? && ResponseLineAt(input, 0) == Some(15)
    ensures input[9..12] == "200" && input[13..15] == "OK" && input[5] == '1' && input[7] == '1'
  {
    StatusLineParts(input, 0, '1', '1', "200", "OK");
    StatusLineNotRequest(input, 0, '1', '1');
    StatusLineRead(input, 0, '1', '1', "200", "OK");
  }

  /** The second message is a response with status `200` and reason `OK`, in HTTP 1.1. */
  lemma {:induction false} SecondStartLine(input: string)
    requires SecondLayout(input)
    ensures StartLineFields(input) == Some((Response("200", "OK"), 1, 1, 17))
  {
    SecondStatusRead(input);
  }

  /** The header fields of the second message, part by part. */
  predicate SecondFieldsAt(input: string)
  {
    && |input| == 114
    && FieldAt(input, 17, StatusConnectionField) && FieldAt(input, 41, ContentTypeField)
    && FieldAt(input, 65, ContentLengthField) && LitAt(input, 90, "\r\n") && LitAt(input, 92, SecondBody)
  }

  lemma {:induction false} SecondFieldParts(input: string)
    requires SecondLayout(input)
    ensures SecondFieldsAt(input)
  {
    FieldLineParts(input, 17, StatusConnectionField);
    FieldLineParts(input, 41, ContentTypeField);
    FieldLineParts(input, 65, ContentLengthField);
  }

  /** The second message's header fields read back as written. */
  lemma {:induction false} SecondFieldsWellFormed()
    ensures WellFormedField(StatusConnectionField) && WellFormedField(ContentTypeField)
    ensures WellFormedField(ContentLengthField)
  {
    assert "Keep-Alive"[0] != ' ' && "text/html"[0] != ' ' && "22"[0] != ' ';
  }

  /** The `Connection` field heads the second message's header fields. */
  lemma {:induction false} SecondConnectionStep(input: string)
    requires FieldAt(input, 17, StatusConnectionField)
    ensures 41 <= |input|
    ensures var tail := HeaderList(input, 41, 99);
            HeaderList(input, 17, 100) == ([("Connection", "Keep-Alive")] + tail.0, tail.1)
  {
    SecondFieldsWellFormed();
    FieldLineList(input, 17, StatusConnectionField, 100, 41);
  }

  /** Then `Content-Type`, written without a space after the colon. */
  lemma {:induction false} SecondContentTypeStep(input: string)
    requires FieldAt(input, 41, ContentTypeField)
    ensures 65 <= |input|
    ensures var tail := HeaderList(input, 65, 98);
            HeaderList(input, 41, 99) == ([("Content-Type", "text/html")] + tail.0, tail.1)
  {
    SecondFieldsWellFormed();
    FieldLineList(input, 41, ContentTypeField, 99, 65);
  }

  /** Then `Content-Length`, written with six spaces after the colon. */
  lemma {:induction false} SecondContentLengthStep(input: string)
    requires FieldAt(input, 65, ContentLengthField)
    ensures 90 <= |input|
    ensures var tail := HeaderList(input, 90, 97);
            HeaderList(input, 65, 98) == ([("Content-Length", "22")] + tail.0, tail.1)
  {
    SecondFieldsWellFormed();
    FieldLineList(input, 65, ContentLengthField, 98, 90);
  }

  /** The blank line ends the second message's header fields: the body has no colon. */
  lemma {:induction false} SecondFieldsEnd(input: string)
    requires |input| == 114 && LitAt(input, 90, "\r\n") && LitAt(input, 92, SecondBody)
    ensures HeaderList(input, 90, 97) == ([], 90)
  {
    assert input[90..] == "\r\n" + SecondBody;
    NoMoreFields(input, 90, 97);
  }

  /** The three header fields of the second message, in order, up to the blank line. */
  lemma {:induction false} SecondFields(input: string)
    requires SecondFieldsAt(input)
    ensures HeaderList(input, 17, 100)
            == ([("Connection", "Keep-Alive"), ("Content-Type", "text/html"), ("Content-Length", "22")], 90)
  {
    SecondConnectionStep(input);
    SecondContentTypeStep(input);
    SecondContentLengthStep(input);
    SecondFieldsEnd(input);
    ThreeFields(("Connection", "Keep-Alive"), ("Content-Type", "text/html"), ("Content-Length", "22"));
  }

  /** Three distinct names are all stored, each with its own value. */
  lemma {:induction false} SecondHeaders()
    ensures EmplaceAll(map[], [("Connection", "Keep-Alive"), ("Content-Type", "text/html"), ("Content-Length", "22")])
            == map["Connection" := "Keep-Alive", "Content-Type" := "text/html", "Content-Length" := "22"]
  {
    var fields := [("Connection", "Keep-Alive"), ("Content-Type", "text/html"), ("Content-Length", "22")];
    var m1 := map["Connection" := "Keep-Alive"];
    var m2 := m1["Content-Type" := "text/html"];
    assert "Content-Type" != "Connection" by { assert "Content-Type"[3] != "Connection"[3]; }
    assert "Content-Length" !in m2 by {
      assert "Content-Length"[3] != "Connection"[3] && "Content-Length"[8] != "Content-Type"[8];
    }
    assert EmplaceAll(map[], fields) == EmplaceAll(m1, fields[1..]);
    assert EmplaceAll(m1, fields[1..]) == EmplaceAll(m2, fields[2..]);
    assert EmplaceAll(m2, fields[2..]) == EmplaceAll(m2["Content-Length" := "22"], fields[3..]);
  }

  /** What the example reports for any input laid out as the second message. */
  lemma {:induction false} SecondReport(input: string)
    requires SecondLayout(input)
    ensures ParseReference(input)
            == Some(Report(1, 1, Response("200", "OK"),
                           map["Connection" := "Keep-Alive", "Content-Type" := "text/html", "Content-Length" := "22"],
                           SecondBody))
  {
    var f := (Response("200", "OK"), 1, 1, 17);
    SecondStartLine(input);
    SecondFieldParts(input);
    SecondFields(input);
    ParseFields(input, f);
    SecondHeaders();
    SecondBodyRest(input);
  }

  /** The body is the rest of the input. */
  lemma {:induction false} SecondBodyRest(input: string)
    requires |input| == 114 && LitAt(input, 92, SecondBody)
    ensures input[92..] == SecondBody
  {
    assert input[92..] == input[92..92 + |SecondBody|];
  }

  /**
   * The second message: a response matched to its end, reporting HTTP 1.1,
   * status `200` with reason `OK`, three header fields and everything after
   * the blank line as the body.
   */
  lemma {:induction false} ResponseWithBody()
    ensures ParseReference(SecondMessage)
            == Some(Report(1, 1, Response("200", "OK"),
                           map["Connection" := "Keep-Alive", "Content-Type" := "text/html", "Content-Length" := "22"],
                           "<h1>Hello World!</h1>\n"))
    ensures Match(HttpMessage, SecondMessage, 0).cursor == Some(|SecondMessage|)
  {
    SecondLines();
    SecondReport(SecondMessage);
    SecondStartLine(SecondMessage);
    MessageBody(SecondMessage, (Response("200", "OK"), 1, 1, 17));
  }
}
