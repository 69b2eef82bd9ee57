# HTTP message parser of the jvpatterns example, in Dafny

The HTTP example of jvpatterns parses a simplified HTTP/1.x message (the
message format of RFC 7230, section 3) with pattern combinators:

- a start line, either a request line or a status line;
- up to 100 header fields;
- an empty line;
- the body, which is the rest of the input.

Tagged sub-patterns report what they matched to an `HttpVisitor`. That
visitor keeps:

- the version digits;
- a `Request` (method and target) or a `Response` (status code and reason
  phrase);
- a map of header fields;
- the body.

This project models the grammar, the matching semantics of the combinators
it uses, the two pre-match hooks and the visitor. It proves what a match
reports, on any input and on the four messages of the example's `main`.

- `Patterns` holds the combinators as a closed datatype: literal, single
  element, `any_of`, `until`, rest of input, sequence, ordered choice, bounded
  greedy repetition and tagging. `Match(p, input, pos)` returns the end
  cursor, or none, together with the callbacks in the order the visitor
  receives them. `Enter` is the pre-match hook of a tagged pattern. `Exit` is
  the visitor call with the matched span. A tagged pattern's children report
  before it does. Callbacks of attempts that later fail are kept, as the
  visitor's effects are never rolled back.
- `Scan` describes the scans the grammar performs directly on the text:
  an occurrence at a position, the first occurrence from a position on, and
  the length of a run of characters.
- `HttpGrammar` holds the grammar values and what each of them matches.
  That is stated on the text through `RequestLineAt`, `ResponseLineAt`,
  `HeaderAt` and `HeaderList`.
- `Visitor` holds the visitor's state, the hooks (`Hook`) and the visitor
  call (`Visit`), plus `Run`, which replays callbacks. The class
  `HttpVisitor` updates its fields in place and is proved against them.
- `Message` holds `ParseReference`, which says on the text alone what the
  example reports for a message. It also holds the main theorem
  `MessageMatches`: matching `httpMessage` and replaying its callbacks on a
  fresh visitor reports exactly that. `MatchMessage` is `parse_and_print`
  without the printing.
- `Texts` holds lines written from their parts (request line, status line,
  header field) and proves that reading them back gives the parts.
- `Samples` holds the four messages of `main` and what is reported for each.

## Model

| member | source | states |
|---|---|---|
| Patterns.UntilIsShortestPrefix | examples/example-http/main.cpp:21-30 | `until{p}` ends at the first position from the start where `p` matches, including the start itself and the end of input; it fails exactly when `p` matches at no such position |
| Patterns.UntilLiteral | examples/example-http/main.cpp:21-30 | `until` on a literal ends at the literal's first occurrence and reports nothing; it fails when there is no occurrence |
| Patterns.RepeatIsGreedy | examples/example-http/main.cpp:21-37 | `repeat(min, max)` succeeds exactly when `min <= max` and `min` consecutive matches succeed. It then ends after a count between `min` and `max`, and stops below `max` only where the next match fails |
| Patterns.RepeatOneChar | examples/example-http/main.cpp:21-31 | repeating a one-character pattern takes the run of matching characters, cut at `max`, and succeeds iff that run is at least `min` long |
| Patterns.EventsFit | examples/example-http/main.cpp:20-37 | every callback of any match, including callbacks from failed attempts, names a tag of the pattern and a span inside the input from the start position on |
| Patterns.HooksBeforeCalls | examples/example-http/main.cpp:20-37 | in the callbacks of any match, including failed attempts, every visitor call has an earlier pre-match hook of the same tag at the same start. Every callback between the two starts at or after that start, and every call between them has its own hook between them: children report before their parent, and calls never cross |
| Patterns.CrossedCallsRejected | examples/example-http/main.cpp:20-37 | the nesting above is strict: a parent whose call comes before its child's call is rejected |
| HttpGrammar.UpperLetterMatch | examples/example-http/main.cpp:13-16 | `upperLetter` consumes exactly one character, only one in 'A'..'Z', and reports nothing; it fails at end of input |
| HttpGrammar.DigitMatch | examples/example-http/main.cpp:17-18 | `digit` consumes exactly one character, only one of "0123456789"; it fails at end of input |
| HttpGrammar.SpaceMatch | examples/example-http/main.cpp:21-31 | the literal " " consumes exactly one space |
| HttpGrammar.HttpVersionMatch | examples/example-http/main.cpp:20 | `httpVersion` matches exactly "HTTP/d.d" (eight characters), and then reports the major digit's span before the minor digit's |
| HttpGrammar.MethodMatch | examples/example-http/main.cpp:21 | the method is the run of upper-case letters, at most 100; it fails where that run is empty |
| HttpGrammar.RequestHeadFound | examples/example-http/main.cpp:21-22 | method, space, target up to the first space, space: the head matches them and reports the method's and the target's spans |
| HttpGrammar.RequestLineFound | examples/example-http/main.cpp:21-23 | where `RequestLineAt` finds a request line, `requestLine` matches to after its CRLF and reports method, target, version digits, then the request |
| HttpGrammar.RequestLineMissing | examples/example-http/main.cpp:21-23 | where `RequestLineAt` finds none, `requestLine` fails after reporting its hook and its attempt |
| HttpGrammar.StatusCodeMatch | examples/example-http/main.cpp:24 | `digit[3]` matches exactly three digits and reports them as the status code; with fewer than three digits it fails |
| HttpGrammar.ResponseHeadFound | examples/example-http/main.cpp:24 | version, space, three digits and space: the head of the status line matches them |
| HttpGrammar.ResponseHeadMissing | examples/example-http/main.cpp:24 | otherwise the head of the status line fails |
| HttpGrammar.ResponseLineFound | examples/example-http/main.cpp:24-26 | where `ResponseLineAt` finds a status line, `responseLine` matches to after its CRLF and reports version digits, code, reason phrase up to the first CRLF, then the response |
| HttpGrammar.ResponseLineMissing | examples/example-http/main.cpp:24-26 | where `ResponseLineAt` finds none, `responseLine` fails after reporting its hook and its attempt |
| HttpGrammar.StartLineRequest | examples/example-http/main.cpp:27 | a request line wins the choice of start line |
| HttpGrammar.StartLineResponse | examples/example-http/main.cpp:27 | without a request line the status line is tried next, after the failed request attempt's callbacks |
| HttpGrammar.StartLineMissing | examples/example-http/main.cpp:27 | with neither line the start line fails, after both attempts |
| HttpGrammar.RequestLineTags | examples/example-http/main.cpp:21-23 | inside the request line only the method, the target and the version digits are tagged |
| HttpGrammar.ResponseLineTags | examples/example-http/main.cpp:24-26 | inside the status line only the version digits, the status code and the reason phrase are tagged |
| HttpGrammar.HeaderTags | examples/example-http/main.cpp:29-31 | inside a header field only its name and its value are tagged |
| HttpGrammar.SpacesMatch | examples/example-http/main.cpp:31 | `" "_p.repeat(0, 100)` skips the run of spaces, at most 100, and never fails |
| HttpGrammar.HeaderNameColon | examples/example-http/main.cpp:29-31 | the header name is the text before the first ':', and the ':' follows it |
| HttpGrammar.HeaderFound | examples/example-http/main.cpp:29-31 | where `HeaderAt` finds a header field, `header` matches to after its CRLF and reports the name, the value, then the field |
| HttpGrammar.HeaderMissing | examples/example-http/main.cpp:29-31 | where `HeaderAt` finds none, `header` fails after reporting its hook and its attempt |
| HttpGrammar.HeaderListEnds | examples/example-http/main.cpp:37 | the list of header fields stops before 100 only where no further header field follows |
| Visitor.Initial | examples/example-http/main.cpp:46-50 | a default-constructed visitor holds an empty `Request`, no headers and an empty body |
| Visitor.Emplace | examples/example-http/main.cpp:104 | emplacing adds exactly the name to the stored names |
| Visitor.Hook | examples/example-http/main.cpp:66-79 | the hooks leave headers, body and version as they were |
| Visitor.EmplaceKeepsFirst | examples/example-http/main.cpp:104 | `emplace` keeps the value already stored under a name and leaves every other name alone |
| Visitor.VisitThrows | examples/example-http/main.cpp:89-97 | a visitor call throws exactly when it needs the `Request` alternative and `info` holds a `Response`, or the other way round |
| Visitor.RunAppend | examples/example-http/main.cpp:82-108 | replaying two sequences of callbacks is replaying the first, then the second from where the first left off |
| Visitor.RunVersion | examples/example-http/main.cpp:84-87 | the version callbacks store the numeric values of the two digits |
| Visitor.RunRequestLine | examples/example-http/main.cpp:66-72 | a matched request line leaves `info` holding a `Request` of its method and target, and the version its digits; nothing else changes |
| Visitor.RunResponseLine | examples/example-http/main.cpp:73-79 | a matched status line leaves `info` holding a `Response` of its code and reason phrase, and the version its digits; nothing else changes |
| Visitor.RunHeaderField | examples/example-http/main.cpp:99-102 | a header field's name and value callbacks only set the two pending strings |
| Visitor.RunHeader | examples/example-http/main.cpp:99-104 | a matched header field is emplaced under its name, and the pending strings are moved from |
| Visitor.RunBody | examples/example-http/main.cpp:106-107 | the body callback stores the rest of the input |
| Visitor.EmplaceAllNames | examples/example-http/main.cpp:104 | after emplacing fields, a name is stored iff it was stored before or some field carries it |
| Visitor.EmplaceAllSize | examples/example-http/main.cpp:104 | emplacing fields adds at most as many names as there are fields |
| Visitor.EmplaceAllKeepsEarlier | examples/example-http/main.cpp:104 | a stored name keeps its value whatever is emplaced later |
| Visitor.EmplaceAllFirstWins | examples/example-http/main.cpp:104 | a new name gets the value of the first field that carries it |
| Visitor.HttpVisitor.constructor | examples/example-http/main.cpp:46-58 | the fields start as in a default-constructed visitor |
| Visitor.HttpVisitor.MatchHook | examples/example-http/main.cpp:66-79 | the state becomes what `Hook` gives: `info` reset to an empty `Request` before a request line, to an empty `Response` before a status line |
| Visitor.HttpVisitor.Call | examples/example-http/main.cpp:82-108 | it succeeds exactly when `Visit` does and then leaves the state `Visit` gives; when it throws, nothing has been assigned |
| Visitor.HttpVisitor.Replay | examples/example-http/main.cpp:82-108 | delivering callbacks in order, stopping at the first that throws, leaves the visitor exactly as `Run` says |
| Message.RequestAttempt | examples/example-http/main.cpp:60-72 | the callbacks of a failed request line, hook included, never throw and keep headers and body |
| Message.ResponseAttempt | examples/example-http/main.cpp:60-79 | the callbacks of a failed status line, hook included, never throw and keep headers and body |
| Message.HeaderAttempt | examples/example-http/main.cpp:29-31 | a header field that fails part-way fails the match, and its callbacks never throw and change nothing the example prints |
| Message.HeadersRun | examples/example-http/main.cpp:37 | `header.repeat(0, 100)` never fails, ends after the fields `HeaderList` finds, and emplaces them in order |
| Message.StartLineRun | examples/example-http/main.cpp:27 | the start line matches exactly when `StartLineFields` finds one, never throws, and leaves its version and `info` |
| Message.HeadRun | examples/example-http/main.cpp:37 | from any visitor, start line and header fields match exactly when `StartLineFields` finds a start line. They then end after the fields `HeaderList` finds and report the start line with those fields emplaced; no callback throws |
| Message.MessageMatches | examples/example-http/main.cpp:37 | with a fresh visitor, `httpMessage` matches exactly when `ParseReference` finds a message, then ends at the end of input and leaves the visitor with what `ParseReference` reports; no callback throws either way |
| Message.NeverThrows | examples/example-http/main.cpp:89-97 | no callback of `httpMessage` ever throws `std::bad_variant_access`, on any input |
| Message.MessageMatchFound | examples/example-http/main.cpp:33-37 | head, CRLF and the body: the whole message matches up to the end of input |
| Message.MessageHeaders | examples/example-http/main.cpp:104 | the reported headers hold at most 100 names, exactly the names of the message's fields, each with the value of its first field |
| Message.MessageBody | examples/example-http/main.cpp:33-37 | the body is everything after the empty line that follows the header fields, and the match ends at the end of input |
| Message.MatchMessage | examples/example-http/main.cpp:113-114 | matching with a fresh visitor succeeds exactly when `ParseReference` finds a message, ends at the end of input, and the visitor holds what it reports |
| Texts.FieldLineParts | examples/example-http/main.cpp:29-31 | a written header field line has its name, ':', spaces, value and CRLF where they were written |
| Texts.FieldRead | examples/example-http/main.cpp:29-31 | a written header field, with a name without ':' and a value without CR, is found by `HeaderAt` with that name and value |
| Texts.FieldLineRead | examples/example-http/main.cpp:29-31 | the same for a written line as a whole |
| Texts.FieldLineList | examples/example-http/main.cpp:29-37 | a written header field heads the list of header fields read from its position |
| Texts.NoMoreFields | examples/example-http/main.cpp:29 | where no ':' follows, no header field is found and the list is empty |
| Texts.VersionRead | examples/example-http/main.cpp:20 | "HTTP/d.d" written with two digits is read back, digits included |
| Texts.RequestLineParts | examples/example-http/main.cpp:21-23 | a written request line has method, spaces, target, version and CRLF where they were written |
| Texts.MethodRun | examples/example-http/main.cpp:21 | a written method of 1 to 100 upper-case letters, followed by a space, ends where it was written |
| Texts.RequestHeadRead | examples/example-http/main.cpp:21-22 | a written method and target without spaces are read back by `RequestHeadAt` |
| Texts.RequestLineRead | examples/example-http/main.cpp:21-23 | a written request line is read back by `RequestLineAt`, with its method, target and version digits |
| Texts.StatusLineParts | examples/example-http/main.cpp:24-26 | a written status line has version, code, reason phrase and CRLF where they were written |
| Texts.StatusLineNotRequest | examples/example-http/main.cpp:21-27 | a status line is never a request line: "HTTP" is followed by '/', not by a space |
| Texts.StatusLineRead | examples/example-http/main.cpp:24-26 | a written status line with a three-digit code and a reason phrase without CR is read back by `ResponseLineAt`, with its code, reason phrase and version digits |
| Samples.FirstText | examples/example-http/main.cpp:143-148 | the first message, assembled from its lines, is the example's first text |
| Samples.FirstFields | examples/example-http/main.cpp:144-148 | its header fields are Host, Connection and Accept, in that order, with their values, up to the empty line |
| Samples.FirstReport | examples/example-http/main.cpp:143-148 | any text laid out as the first message is reported as HTTP 1.1, `GET` of `/hello.html`, three headers and an empty body |
| Samples.RequestWithHeaders | examples/example-http/main.cpp:143-148 | the first message matches to its end and is reported as above |
| Samples.SecondText | examples/example-http/main.cpp:150-156 | the second message, assembled from its lines, is the example's second text |
| Samples.SecondFields | examples/example-http/main.cpp:151-155 | its header fields are Connection, Content-Type (no space after the colon) and Content-Length (six spaces), in that order, up to the empty line |
| Samples.SecondReport | examples/example-http/main.cpp:150-156 | any text laid out as the second message is reported as HTTP 1.1, status 200 `OK`, three headers and the HTML body |
| Samples.ResponseWithBody | examples/example-http/main.cpp:150-156 | the second message matches to its end and is reported as above |
| Samples.ThirdStartLine | examples/example-http/main.cpp:158-160 | the third message starts with a request line: `GET` of `/`, HTTP 1.0 |
| Samples.RequestWithoutHeaders | examples/example-http/main.cpp:158-160 | the third message matches to its end and is reported as HTTP 1.0, `GET` of `/`, no headers and an empty body |
| Samples.FourDigitStatus | examples/example-http/main.cpp:162-164 | the fourth message, whose status code has four digits, has no report and does not match |

## Left out

- Printing: `parse_and_print` writes its report to standard output (lines
  116-137). `Report` holds what it prints, and `MatchMessage` returns the
  match result and the visitor in place of printing.
- The overload and tag dispatch of C++ (ADL selection of the two `match`
  overloads, `if constexpr` on the tag type) becomes an enumeration of tags
  and a `match` on it.
- The library `jvpatterns.hpp` is not part of this model. Only the
  combinators the example uses are modelled, with the semantics their use
  here implies. Iterators become indices into a `string`.
- Message.MatchMessage: it first matches and then replays the callbacks in
  order on a fresh visitor, whereas C++ interleaves matching and calls. The
  two agree because no pattern's outcome depends on the visitor, and hooks
  and calls never fail a match.
- Visitor.Visit: the moved-from pending header strings are unspecified in
  C++, so `None` stands for them and no contract states their contents. A
  header call made while either string is moved-from emplaces nothing in
  the model, whereas C++ emplaces the unspecified strings. `httpMessage`
  never makes such a call, because a header's name and value callbacks
  always come right before its own call.
- Visitor.Visit: a version digit read from an empty span at the end of
  input would be undefined behaviour. The model leaves the field unchanged
  there, and the grammar never produces such a span.
- Texts: reading back is proved line by line (request line, status line,
  one header field) and for the four messages of `main`. A round trip for a
  whole message written from arbitrary parts is not proved.
- Memory and allocation (`std::string` copies, `std::move`) are not
  modelled; strings are values.
