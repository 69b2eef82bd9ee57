/**
 * A whole HTTP message: the start line, up to 100 header fields, an empty
 * line and the body. `ParseReference` says directly, on the text, what the
 * example reports for a message; the lemmas show that matching `httpMessage`
 * and replaying its callbacks on a fresh visitor reports exactly that, that
 * the match always ends at the end of input, and that the visitor never
 * throws. `MatchMessage` runs the example's `parse_and_print` without the
 * printing.
 */
module Message {
  import opened Wrappers
  import opened Scan
  import opened Patterns
  import opened HttpGrammar
  import opened Visitor

  /**
   * The start line at the beginning of the input, read as the visitor
   * stores it: `info`, the major and the minor version, and where the line
   * ends. A request line is tried first.
   */
  function StartLineFields(input: string): (r: Option<(Info, int, int, nat)>)
    ensures r.Some? ==> r.value.3 <= |input|
  {
    match RequestLineAt(input, 0)
    case Some((m, t)) =>
      Some((Request(input[0..m], input[m + 1..t]), DigitValue(input[t + 6]), DigitValue(input[t + 8]), t + 11))
    case None =>
      match ResponseLineAt(input, 0)
      case Some(k) => Some((Response(input[9..12], input[13..k]), DigitValue(input[5]), DigitValue(input[7]), k + 2))
      case None => None
  }

  /**
   * What the example reports for `input`, or `None` when it says the
   * message did not match: the start line, then as many header fields as
   * there are (at most 100), then CRLF; everything after it is the body.
   */
  function ParseReference(input: string): (r: Option<Report>)
  {
    match StartLineFields(input)
    case None => None
    case Some((info, major, minor, p)) =>
      var (fields, q) := HeaderList(input, p, 100);
      if LitAt(input, q, "\r\n") then Some(Report(major, minor, info, EmplaceAll(map[], fields), input[q + 2..]))
      else None
  }

  // ---------------------------------------------------------------------
  // Callbacks of failed attempts
  // ---------------------------------------------------------------------

  /** The callbacks of any match lie inside the input, and name tags of the pattern. */
  lemma {:induction false} FitSpans(p: HttpPattern, input: string, pos: nat)
    requires pos <= |input|
    ensures SpansIn(Match(p, input, pos).events, input)
    ensures forall i :: 0 <= i < |Match(p, input, pos).events| ==> Match(p, input, pos).events[i].tag in Tags(p)
  {
    EventsFit(p, input, pos);
  }

  /** The callbacks inside a request line attempt, matched or not. */
  lemma {:induction false} RequestInner(input: string, pos: nat)
    requires pos <= |input|
    ensures SpansIn(Match(RequestLine.inner, input, pos).events, input)
    ensures forall i :: 0 <= i < |Match(RequestLine.inner, input, pos).events| ==>
              InLine(Request("", ""), Match(RequestLine.inner, input, pos).events[i].tag)
  {
    RequestLineTags();
    FitSpans(RequestLine.inner, input, pos);
  }

  /** A failed request line resets `info` to a `Request`, then fills only that alternative. */
  lemma {:induction false} RequestAttempt(st: VisitorState, input: string, pos: nat)
    requires pos <= |input| && RequestLineAt(input, pos).None?
    ensures SpansIn(Match(RequestLine, input, pos).events, input)
    ensures var r := Run(st, input, Match(RequestLine, input, pos).events);
            r.Some? && r.value.headers == st.headers && r.value.body == st.body
  {
    var inner := RequestLine.inner;
    RequestLineMissing(input, pos);
    RequestInner(input, pos);
    RunLineAttempt(st.(info := Request("", "")), input, Match(inner, input, pos).events);
    RunFirst(st, input, Enter(TagRequest, pos), Match(inner, input, pos).events, st.(info := Request("", "")));
  }

  /** The callbacks inside a status line attempt, matched or not. */
  lemma {:induction false} ResponseInner(input: string, pos: nat)
    requires pos <= |input|
    ensures SpansIn(Match(ResponseLine.inner, input, pos).events, input)
    ensures forall i :: 0 <= i < |Match(ResponseLine.inner, input, pos).events| ==>
              InLine(Response("", ""), Match(ResponseLine.inner, input, pos).events[i].tag)
  {
    ResponseLineTags();
    FitSpans(ResponseLine.inner, input, pos);
  }

  /** A failed status line resets `info` to a `Response`, then fills only that alternative. */
  lemma {:induction false} ResponseAttempt(st: VisitorState, input: string, pos: nat)
    requires pos <= |input| && ResponseLineAt(input, pos).None?
    ensures SpansIn(Match(ResponseLine, input, pos).events, input)
    ensures var r := Run(st, input, Match(ResponseLine, input, pos).events);
            r.Some? && r.value.headers == st.headers && r.value.body == st.body
  {
    var inner := ResponseLine.inner;
    ResponseLineMissing(input, pos);
    ResponseInner(input, pos);
    RunLineAttempt(st.(info := Response("", "")), input, Match(inner, input, pos).events);
    RunFirst(st, input, Enter(TagResponse, pos), Match(inner, input, pos).events, st.(info := Response("", "")));
  }

  /** The callbacks inside a header field attempt, matched or not. */
  lemma {:induction false} HeaderInner(input: string, pos: nat)
    requires pos <= |input|
    ensures SpansIn(Match(Header.inner, input, pos).events, input)
    ensures forall i :: 0 <= i < |Match(Header.inner, input, pos).events| ==>
              Match(Header.inner, input, pos).events[i].tag in {TagHeaderName, TagHeaderValue}
  {
    HeaderTags();
    FitSpans(Header.inner, input, pos);
  }

  /** A failed header field leaves everything the example prints as it was. */
  lemma {:induction false} HeaderAttempt(st: VisitorState, input: string, pos: nat)
    requires pos <= |input| && HeaderAt(input, pos).None?
    ensures Match(Header, input, pos).cursor.None? && SpansIn(Match(Header, input, pos).events, input)
    ensures var r := Run(st, input, Match(Header, input, pos).events);
            r.Some? && ReportOf(r.value) == ReportOf(st)
  {
    var inner := Header.inner;
    HeaderMissing(input, pos);
    HeaderInner(input, pos);
    RunPendingOnly(st, input, Match(inner, input, pos).events);
    RunFirst(st, input, Enter(TagHeader, pos), Match(inner, input, pos).events, st);
  }

  // ---------------------------------------------------------------------
  // Header fields
  // ---------------------------------------------------------------------

  /**
   * What a match outcome `o` does to the visitor `st`: it ends at `list.1`,
   * and its callbacks emplace the fields `list.0` in order and change nothing
   * else the example prints.
   */
  ghost predicate Stores(st: VisitorState, input: string, o: Outcome<HttpTag>, list: (seq<(string, string)>, nat))
  {
    && o.cursor == Some(list.1)
    && SpansIn(o.events, input) && Run(st, input, o.events).Some?
    && ReportOf(Run(st, input, o.events).value) == ReportOf(st).(headers := EmplaceAll(st.headers, list.0))
  }

  /**
   * `header.repeat(0, max)` never fails; it takes the fields `HeaderList`
   * finds, a field that fails half-way stores nothing, and repeated names
   * keep their first value (see `EmplaceAllFirstWins`).
   */
  lemma {:induction false} HeadersRun(st: VisitorState, input: string, pos: nat, max: nat)
    requires pos <= |input|
    ensures Stores(st, input, RepeatFrom(Header, input, pos, 0, max), HeaderList(input, pos, max))
    decreases max
  {
    if max == 0 {
      assert RepeatFrom(Header, input, pos, 0, max) == Outcome(Some(pos), []);
    } else {
      match HeaderAt(input, pos)
      case None => HeadersStop(st, input, pos, max);
      case Some(r) =>
        var next := r.2 + 2;
        HeadersRun(Stored(st, input, pos, r), input, next, max - 1);
        HeadersMore(st, input, pos, max, r);
    }
  }

  /** The repetition over a header field that is there, given what it does after that field. */
  lemma {:induction false} HeadersMore(st: VisitorState, input: string, pos: nat, max: nat, r: (nat, nat, nat))
    requires pos <= |input| && max > 0 && HeaderAt(input, pos) == Some(r)
    requires Stores(Stored(st, input, pos, r), input, RepeatFrom(Header, input, r.2 + 2, 0, max - 1),
                    HeaderList(input, r.2 + 2, max - 1))
    ensures Stores(st, input, RepeatFrom(Header, input, pos, 0, max), HeaderList(input, pos, max))
  {
    RepeatHeaderStep(input, pos, max, r);
    HeaderListStep(input, pos, max, r);
    HeadersNext(st, input, pos, r, RepeatFrom(Header, input, r.2 + 2, 0, max - 1), HeaderList(input, r.2 + 2, max - 1));
  }

  /** The visitor after the header field `r` at `pos` was stored. */
  function Stored(st: VisitorState, input: string, pos: nat, r: (nat, nat, nat)): VisitorState
    requires pos <= r.0 <= |input| && r.1 <= r.2 <= |input|
  {
    st.(headers := Emplace(st.headers, input[pos..r.0], input[r.1..r.2]), pendingName := None, pendingValue := None)
  }

  /** Where no header field follows, the repetition stops where it started. */
  lemma {:induction false} HeadersStop(st: VisitorState, input: string, pos: nat, max: nat)
    requires pos <= |input| && max > 0 && HeaderAt(input, pos).None?
    ensures Stores(st, input, RepeatFrom(Header, input, pos, 0, max), HeaderList(input, pos, max))
  {
    HeaderAttempt(st, input, pos);
    assert RepeatFrom(Header, input, pos, 0, max) == Outcome(Some(pos), Match(Header, input, pos).events);
  }

  /** One round of the repetition over a header field that is there. */
  lemma {:induction false} RepeatHeaderStep(input: string, pos: nat, max: nat, r: (nat, nat, nat))
    requires pos <= |input| && max > 0 && HeaderAt(input, pos) == Some(r)
    ensures var rest := RepeatFrom(Header, input, r.2 + 2, 0, max - 1);
            RepeatFrom(Header, input, pos, 0, max) == Outcome(rest.cursor, HeaderEvents(pos, r.0, r.1, r.2) + rest.events)
  {
    HeaderFound(input, pos, r);
  }

  /** One more header field: it is emplaced, then the rest goes on after its CRLF. */
  lemma {:induction false} HeadersNext(st: VisitorState, input: string, pos: nat, r: (nat, nat, nat),
                    rest: Outcome<HttpTag>, tail: (seq<(string, string)>, nat))
    requires pos <= r.0 <= r.1 <= r.2 && r.2 + 2 <= |input|
    requires Stores(Stored(st, input, pos, r), input, rest, tail)
    ensures Stores(st, input, Outcome(rest.cursor, HeaderEvents(pos, r.0, r.1, r.2) + rest.events),
                   ([(input[pos..r.0], input[r.1..r.2])] + tail.0, tail.1))
  {
    var (c, s, k) := r;
    var st1 := Stored(st, input, pos, r);
    RunHeader(st, input, pos, c, s, k);
    RunAppend(st, input, HeaderEvents(pos, c, s, k), rest.events);
    EmplaceAllStep(st.headers, (input[pos..c], input[s..k]), tail.0);
  }

  /** Emplacing a field, then the others, is emplacing them all. */
  lemma {:induction false} EmplaceAllStep(headers: map<string, string>, field: (string, string), rest: seq<(string, string)>)
    ensures EmplaceAll(headers, [field] + rest) == EmplaceAll(Emplace(headers, field.0, field.1), rest)
  {
    assert ([field] + rest)[0] == field && ([field] + rest)[1..] == rest;
  }

  // ---------------------------------------------------------------------
  // Start line
  // ---------------------------------------------------------------------

  /**
   * What the start line's outcome `o` does to the visitor `st`: its
   * callbacks never throw and keep the headers and the body; it matches
   * exactly when `fields` is there, then ends where they say, and leaves the
   * version and `info` they give.
   */
  ghost predicate StartDone(st: VisitorState, input: string, o: Outcome<HttpTag>, fields: Option<(Info, int, int, nat)>)
  {
    && SpansIn(o.events, input) && Run(st, input, o.events).Some?
    && Run(st, input, o.events).value.headers == st.headers && Run(st, input, o.events).value.body == st.body
    && (o.cursor.Some? <==> fields.Some?)
    && (fields.Some? ==>
          && o.cursor == Some(fields.value.3)
          && ReportOf(Run(st, input, o.events).value)
             == Report(fields.value.1, fields.value.2, fields.value.0, st.headers, st.body))
  }

  /** The start line is read as `StartLineFields` says, from any visitor. */
  lemma {:induction false} StartLineRun(st: VisitorState, input: string)
    ensures StartDone(st, input, Match(StartLine, input, 0), StartLineFields(input))
  {
    match RequestLineAt(input, 0)
    case Some(r) => StartRequestRun(st, input, r);
    case None =>
      match ResponseLineAt(input, 0)
      case Some(k) => StartResponseRun(st, input, k);
      case None => StartMissingRun(st, input);
  }

  lemma {:induction false} StartRequestRun(st: VisitorState, input: string, r: (nat, nat))
    requires RequestLineAt(input, 0) == Some(r)
    ensures StartDone(st, input, Match(StartLine, input, 0), StartLineFields(input))
  {
    StartLineRequest(input, 0, r);
    RequestDone(st, input, r);
  }

  lemma {:induction false} RequestDone(st: VisitorState, input: string, r: (nat, nat))
    requires RequestLineAt(input, 0) == Some(r)
    ensures StartDone(st, input, Outcome(Some(r.1 + 11), RequestEvents(0, r.0, r.1)), StartLineFields(input))
  {
    RunRequestLine(st, input, 0, r.0, r.1);
  }

  lemma {:induction false} StartResponseRun(st: VisitorState, input: string, k: nat)
    requires RequestLineAt(input, 0).None? && ResponseLineAt(input, 0) == Some(k)
    ensures StartDone(st, input, Match(StartLine, input, 0), StartLineFields(input))
  {
    StartLineResponse(input, 0, k);
    RequestAttempt(st, input, 0);
    ResponseDone(st, input, Match(RequestLine, input, 0).events, k);
  }

  /** After any attempt that kept the headers and the body, a status line is read as `StartLineFields` says. */
  lemma {:induction false} ResponseDone(st: VisitorState, input: string, attempt: seq<Event<HttpTag>>, k: nat)
    requires RequestLineAt(input, 0).None? && ResponseLineAt(input, 0) == Some(k)
    requires SpansIn(attempt, input) && Run(st, input, attempt).Some?
    requires Run(st, input, attempt).value.headers == st.headers && Run(st, input, attempt).value.body == st.body
    ensures StartDone(st, input, Outcome(Some(k + 2), attempt + ResponseEvents(0, k)), StartLineFields(input))
  {
    var st1 := Run(st, input, attempt).value;
    RunResponseLine(st1, input, 0, k);
    RunAppend(st, input, attempt, ResponseEvents(0, k));
  }

  lemma {:induction false} StartMissingRun(st: VisitorState, input: string)
    requires RequestLineAt(input, 0).None? && ResponseLineAt(input, 0).None?
    ensures StartDone(st, input, Match(StartLine, input, 0), StartLineFields(input))
  {
    StartLineMissing(input, 0);
    RequestAttempt(st, input, 0);
    BothFailed(st, input, Match(RequestLine, input, 0).events, Match(ResponseLine, input, 0).events);
  }

  lemma {:induction false} BothFailed(st: VisitorState, input: string, a: seq<Event<HttpTag>>, b: seq<Event<HttpTag>>)
    requires RequestLineAt(input, 0).None? && ResponseLineAt(input, 0).None?
    requires SpansIn(a, input) && Run(st, input, a).Some?
    requires Run(st, input, a).value.headers == st.headers && Run(st, input, a).value.body == st.body
    requires b == Match(ResponseLine, input, 0).events
    ensures StartDone(st, input, Outcome(None, a + b), StartLineFields(input))
  {
    ResponseAttempt(Run(st, input, a).value, input, 0);
    RunAppend(st, input, a, b);
  }

  // ---------------------------------------------------------------------
  // The whole message
  // ---------------------------------------------------------------------

  /**
   * What the outcome `o` of `startLine + header.repeat(0, 100)` does to the visitor `st`: its callbacks
   * never throw; it matches exactly when the start line is there, then ends
   * after the header fields, and leaves the start line's fields and the
   * emplaced header fields.
   */
  ghost predicate HeadDone(st: VisitorState, input: string, o: Outcome<HttpTag>)
  {
    && SpansIn(o.events, input) && Run(st, input, o.events).Some?
    && (o.cursor.Some? <==> StartLineFields(input).Some?)
    && (StartLineFields(input).Some? ==>
          var f := StartLineFields(input).value;
          var list := HeaderList(input, f.3, 100);
          && o.cursor == Some(list.1)
          && ReportOf(Run(st, input, o.events).value) == Report(f.1, f.2, f.0, EmplaceAll(st.headers, list.0), st.body))
  }

  /** Everything before the empty line, from any visitor. */
  lemma {:induction false} HeadRun(st: VisitorState, input: string)
    ensures HeadDone(st, input, Match(Then(StartLine, Repeat(Header, 0, 100)), input, 0))
  {
    match StartLineFields(input)
    case None => HeadMissing(st, input);
    case Some(f) => HeadFound(st, input, f);
  }

  lemma {:induction false} HeadMissing(st: VisitorState, input: string)
    requires StartLineFields(input).None?
    ensures HeadDone(st, input, Match(Then(StartLine, Repeat(Header, 0, 100)), input, 0))
  {
    StartLineRun(st, input);
    ThenStops(StartLine, Repeat(Header, 0, 100), input, 0);
  }

  lemma {:induction false} HeadFound(st: VisitorState, input: string, f: (Info, int, int, nat))
    requires StartLineFields(input) == Some(f)
    ensures HeadDone(st, input, Match(Then(StartLine, Repeat(Header, 0, 100)), input, 0))
  {
    var start := Match(StartLine, input, 0);
    StartLineRun(st, input);
    HeadersRun(Run(st, input, start.events).value, input, f.3, 100);
    HeadJoin(st, input, start, Match(Repeat(Header, 0, 100), input, f.3), f);
    ThenGoesOn(StartLine, Repeat(Header, 0, 100), input, 0, f.3);
  }

  lemma {:induction false} HeadJoin(st: VisitorState, input: string, start: Outcome<HttpTag>, headers: Outcome<HttpTag>, f: (Info, int, int, nat))
    requires StartLineFields(input) == Some(f) && f.3 <= |input| && StartDone(st, input, start, Some(f))
    requires Stores(Run(st, input, start.events).value, input, headers, HeaderList(input, f.3, 100))
    ensures HeadDone(st, input, Outcome(headers.cursor, start.events + headers.events))
  {
    RunAppend(st, input, start.events, headers.events);
  }

  /**
   * What the outcome `o` of `httpMessage` does to a fresh visitor: its
   * callbacks never throw; it matches exactly when `ParseReference` finds a
   * message, then ends at the end of input and leaves the visitor with what
   * `ParseReference` reports.
   */
  ghost predicate MessageDone(input: string, o: Outcome<HttpTag>)
  {
    && SpansIn(o.events, input) && Run(Initial(), input, o.events).Some?
    && (o.cursor.Some? <==> ParseReference(input).Some?)
    && (ParseReference(input).Some? ==>
          && o.cursor == Some(|input|)
          && ReportOf(Run(Initial(), input, o.events).value) == ParseReference(input).value)
  }

  /**
   * The main theorem: matching `httpMessage` from the start of the input
   * with a fresh visitor succeeds exactly when `ParseReference` finds a
   * message, then always ends at the end of input and leaves the visitor
   * with exactly what `ParseReference` reports; and whether it matches or
   * not, no callback throws.
   */
  lemma {:induction false} MessageMatches(input: string)
    ensures MessageDone(input, Match(HttpMessage, input, 0))
  {
    match StartLineFields(input)
    case None => MessageNoStart(input);
    case Some(f) =>
      if LitAt(input, HeaderList(input, f.3, 100).1, "\r\n") {
        MessageFound(input, f);
      } else {
        MessageNoBlankLine(input, f);
      }
  }

  /** No callback of `httpMessage` ever throws `std::bad_variant_access`. */
  lemma {:induction false} NeverThrows(input: string)
    ensures SpansIn(Match(HttpMessage, input, 0).events, input)
    ensures Run(Initial(), input, Match(HttpMessage, input, 0).events).Some?
  {
    MessageMatches(input);
  }

  lemma {:induction false} MessageNoStart(input: string)
    requires StartLineFields(input).None?
    ensures MessageDone(input, Match(HttpMessage, input, 0))
  {
    var a1 := Then(StartLine, Repeat(Header, 0, 100));
    var a2 := Then(a1, Literal("\r\n"));
    HeadRun(Initial(), input);
    ThenStops(a1, Literal("\r\n"), input, 0);
    ThenStops(a2, Body, input, 0);
  }

  lemma {:induction false} MessageNoBlankLine(input: string, f: (Info, int, int, nat))
    requires StartLineFields(input) == Some(f) && !LitAt(input, HeaderList(input, f.3, 100).1, "\r\n")
    ensures MessageDone(input, Match(HttpMessage, input, 0))
  {
    var a1 := Then(StartLine, Repeat(Header, 0, 100));
    var a2 := Then(a1, Literal("\r\n"));
    var q := HeaderList(input, f.3, 100).1;
    HeadRun(Initial(), input);
    LiteralNotAt<HttpTag>("\r\n", input, q);
    ThenGoesOn(a1, Literal("\r\n"), input, 0, q);
    assert Match(a1, input, 0).events + [] == Match(a1, input, 0).events;
    ThenStops(a2, Body, input, 0);
  }

  lemma {:induction false} MessageFound(input: string, f: (Info, int, int, nat))
    requires StartLineFields(input) == Some(f) && LitAt(input, HeaderList(input, f.3, 100).1, "\r\n")
    ensures MessageDone(input, Match(HttpMessage, input, 0))
  {
    var q := HeaderList(input, f.3, 100).1;
    var head := Match(Then(StartLine, Repeat(Header, 0, 100)), input, 0);
    HeadRun(Initial(), input);
    assert head == Outcome(Some(q), head.events);
    MessageMatchFound(input, q, q + 2, head.events);
    BodyJoin(input, f, head.events);
  }

  /** Head, CRLF and the rest of the input as the body: the whole message matches. */
  lemma {:induction false} MessageMatchFound(input: string, q: nat, b: nat, head: seq<Event<HttpTag>>)
    requires q <= |input| && LitAt(input, q, "\r\n") && b == q + 2
    requires Match(Then(StartLine, Repeat(Header, 0, 100)), input, 0) == Outcome(Some(q), head)
    ensures Match(HttpMessage, input, 0) == Outcome(Some(|input|), head + [Enter(TagBody, b), Exit(TagBody, b, |input|)])
  {
    var a1 := Then(StartLine, Repeat(Header, 0, 100));
    var a2 := Then(a1, Literal("\r\n"));
    ThenLiteral(a1, "\r\n", input, 0, q, b, head);
    TaggedLeaf(RestOfInput, TagBody, input, b, |input|);
    ThenBoth(a2, Body, input, 0, b, |input|, head, [Enter(TagBody, b), Exit(TagBody, b, |input|)]);
    assert HttpMessage == Then(a2, Body);
  }

  lemma {:induction false} BodyJoin(input: string, f: (Info, int, int, nat), head: seq<Event<HttpTag>>)
    requires StartLineFields(input) == Some(f) && LitAt(input, HeaderList(input, f.3, 100).1, "\r\n")
    requires HeadDone(Initial(), input, Outcome(Some(HeaderList(input, f.3, 100).1), head))
    ensures var q := HeaderList(input, f.3, 100).1;
            MessageDone(input, Outcome(Some(|input|), head + [Enter(TagBody, q + 2), Exit(TagBody, q + 2, |input|)]))
  {
    var list := HeaderList(input, f.3, 100);
    var st := Run(Initial(), input, head).value;
    ParseFields(input, f);
    BodyAfterHead(input, head, list.1 + 2, st);
  }

  /** The body's callbacks after those of the head. */
  lemma {:induction false} BodyAfterHead(input: string, head: seq<Event<HttpTag>>, pos: nat, st: VisitorState)
    requires pos <= |input| && SpansIn(head, input) && Run(Initial(), input, head) == Some(st)
    ensures SpansIn(head + [Enter(TagBody, pos), Exit(TagBody, pos, |input|)], input)
    ensures Run(Initial(), input, head + [Enter(TagBody, pos), Exit(TagBody, pos, |input|)]) == Some(st.(body := input[pos..]))
    ensures ReportOf(st.(body := input[pos..])) == ReportOf(st).(body := input[pos..])
  {
    RunBody(st, input, pos);
    RunAppend(Initial(), input, head, [Enter(TagBody, pos), Exit(TagBody, pos, |input|)]);
  }

  // ---------------------------------------------------------------------
  // What a parsed message holds
  // ---------------------------------------------------------------------

  /** A message is found exactly when the start line is followed, after the header fields, by CRLF. */
  lemma {:induction false} ParseFields(input: string, f: (Info, int, int, nat))
    requires StartLineFields(input) == Some(f)
    ensures var list := HeaderList(input, f.3, 100);
            ParseReference(input).Some? <==> LitAt(input, list.1, "\r\n")
    ensures var list := HeaderList(input, f.3, 100);
            ParseReference(input).Some? ==>
              ParseReference(input).value == Report(f.1, f.2, f.0, EmplaceAll(map[], list.0), input[list.1 + 2..])
  {
  }

  /**
   * The headers of a parsed message: at most 100 names; a name is stored
   * exactly when some header field of the message carries it, and with
   * the value of the first field that carries it (`emplace` keeps the
   * first).
   */
  lemma {:induction false} MessageHeaders(input: string, f: (Info, int, int, nat))
    requires StartLineFields(input) == Some(f) && ParseReference(input).Some?
    ensures var fields := HeaderList(input, f.3, 100).0;
            var headers := ParseReference(input).value.headers;
            && |headers.Keys| <= 100
            && (forall name :: name in headers <==> exists i :: 0 <= i < |fields| && fields[i].0 == name)
            && (forall i :: 0 <= i < |fields| && (forall j :: 0 <= j < i ==> fields[j].0 != fields[i].0) ==>
                  fields[i].0 in headers && headers[fields[i].0] == fields[i].1)
  {
    ParseFields(input, f);
    EmplaceAllFresh(HeaderList(input, f.3, 100).0);
  }

  /**
   * The body of a parsed message is everything after the first empty line
   * that follows the header fields, up to the end of input, and the match
   * of `httpMessage` ends at the end of input.
   */
  lemma {:induction false} MessageBody(input: string, f: (Info, int, int, nat))
    requires StartLineFields(input) == Some(f) && ParseReference(input).Some?
    ensures var q := HeaderList(input, f.3, 100).1;
            && LitAt(input, q, "\r\n")
            && ParseReference(input).value.body == input[q + 2..]
            && Match(HttpMessage, input, 0).cursor == Some(|input|)
  {
    ParseFields(input, f);
    MessageMatches(input);
  }

  // ---------------------------------------------------------------------
  // parse_and_print, without the printing
  // ---------------------------------------------------------------------

  /**
   * Matches `httpMessage` against the whole input with a fresh visitor,
   * which receives the callbacks of the match in order. The result says
   * whether the message matched; when it did, the match ended at the end
   * of input and the visitor holds what `ParseReference` reports.
   */
  method MatchMessage(input: string) returns (matched: Option<nat>, visitor: HttpVisitor)
    ensures fresh(visitor)
    ensures matched.Some? <==> ParseReference(input).Some?
    ensures matched.Some? ==> matched == Some(|input|) && ReportOf(visitor.State()) == ParseReference(input).value
  {
    var o := Match(HttpMessage, input, 0);
    MessageMatches(input);
    visitor := new HttpVisitor();
    var ok := visitor.Replay(input, o.events);
    assert ok;
    matched := o.cursor;
  }
}
