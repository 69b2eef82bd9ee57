/**
 * The simplified HTTP/1.x grammar of the example (request-line or
 * status-line, header fields, an empty line, then the body), written with
 * the combinators of `Patterns`, and what each of its lines matches,
 * described directly on the input text.
 */
module HttpGrammar {
  import opened Wrappers
  import opened Scan
  import opened Patterns

  /** The tag identities of the grammar, one per tag struct. */
  datatype HttpTag =
    | TagMajor | TagMinor
    | TagMethod | TagTarget | TagRequest
    | TagStatusCode | TagStatusMessage | TagResponse
    | TagHeaderName | TagHeaderValue | TagHeader
    | TagBody

  type HttpPattern = Pattern<HttpTag>

  const UpperLetter: HttpPattern := Element(IsUpper)
  const Digit: HttpPattern := AnyOf("0123456789")

  const HttpVersion: HttpPattern :=
    Then(Then(Then(Literal("HTTP/"), Tagged(Digit, TagMajor)), Literal(".")), Tagged(Digit, TagMinor))
  /** The request line up to its version: method, space, target, space. */
  const RequestHead: HttpPattern :=
    Then(Then(Then(Tagged(Repeat(UpperLetter, 1, 100), TagMethod), Literal(" ")), Tagged(Until(Literal(" ")), TagTarget)),
         Literal(" "))
  const RequestLine: HttpPattern := Tagged(Then(Then(RequestHead, HttpVersion), Literal("\r\n")), TagRequest)
  /** The status line up to its reason phrase: version, space, three-digit code, space. */
  const ResponseHead: HttpPattern :=
    Then(Then(Then(HttpVersion, Literal(" ")), Tagged(Repeat(Digit, 3, 3), TagStatusCode)), Literal(" "))
  const ResponseLine: HttpPattern :=
    Tagged(Then(Then(ResponseHead, Tagged(Until(Literal("\r\n")), TagStatusMessage)), Literal("\r\n")), TagResponse)
  const StartLine: HttpPattern := Or(RequestLine, ResponseLine)

  const HeaderName: HttpPattern := Tagged(Until(Literal(":")), TagHeaderName)
  const HeaderValue: HttpPattern := Tagged(Until(Literal("\r\n")), TagHeaderValue)
  /** A header field up to its value: the name, ':' and up to 100 spaces. */
  const Spaces: HttpPattern := Repeat(Literal(" "), 0, 100)
  const HeaderHead: HttpPattern := Then(Then(HeaderName, Literal(":")), Spaces)
  const Header: HttpPattern := Tagged(Then(Then(HeaderHead, HeaderValue), Literal("\r\n")), TagHeader)

  /** The rest of the input, whatever it is. */
  const Body: HttpPattern := Tagged(RestOfInput, TagBody)

  const HttpMessage: HttpPattern := Then(Then(Then(StartLine, Repeat(Header, 0, 100)), Literal("\r\n")), Body)

  // ---------------------------------------------------------------------
  // Characters
  // ---------------------------------------------------------------------

  predicate IsUpper(c: char) { 'A' <= c <= 'Z' }
  predicate IsDigit(c: char) { '0' <= c <= '9' }
  predicate IsSpace(c: char) { c == ' ' }

  /** The number a decimal digit stands for. */
  function DigitValue(c: char): (v: int)
    ensures IsDigit(c) ==> 0 <= v <= 9
  {
    c as int - '0' as int
  }

  /** `upperLetter` consumes exactly one character, and only one in 'A'..'Z'; it fails at end of input. */
  lemma {:induction false} UpperLetterMatch(input: string, pos: nat)
    ensures OneCharFrom(UpperLetter, IsUpper, input, pos)
  {
  }

  /** `digit` consumes exactly one character, and only one of "0123456789"; it fails at end of input. */
  lemma {:induction false} DigitMatch(input: string, pos: nat)
    ensures OneCharFrom(Digit, IsDigit, input, pos)
  {
    forall q | pos <= q < |input|
      ensures (input[q] in "0123456789") == IsDigit(input[q])
    {
      var c := input[q];
      if IsDigit(c) {
        var i := c as int - '0' as int;
        assert "0123456789"[i] == c;
      }
    }
  }

  /** The one-space literal consumes exactly one character, a space. */
  lemma {:induction false} SpaceMatch(input: string, pos: nat)
    ensures OneCharFrom(Pattern<HttpTag>.Literal(" "), IsSpace, input, pos)
  {
    forall q | pos <= q < |input|
      ensures (input[q..q + 1] == " ") == IsSpace(input[q])
    {
      if IsSpace(input[q]) {
        assert input[q..q + 1] == [input[q]];
      }
    }
  }

  // ---------------------------------------------------------------------
  // "HTTP/" digit "." digit
  // ---------------------------------------------------------------------

  /** "HTTP/d.d" at `pos`. */
  predicate VersionAt(input: string, pos: nat)
  {
    && LitAt(input, pos, "HTTP/") && pos + 8 <= |input|
    && IsDigit(input[pos + 5]) && input[pos + 6] == '.' && IsDigit(input[pos + 7])
  }

  /** The callbacks of a matched version: the major digit's span, then the minor digit's. */
  function VersionEvents(pos: nat): seq<Event<HttpTag>>
  {
    [Enter(TagMajor, pos + 5), Exit(TagMajor, pos + 5, pos + 6), Enter(TagMinor, pos + 7), Exit(TagMinor, pos + 7, pos + 8)]
  }

  /**
   * `httpVersion` matches exactly "HTTP/d.d", eight characters, and reports
   * the one-digit spans of the major and the minor version.
   */
  lemma {:induction false} HttpVersionMatch(input: string, pos: nat, e: nat)
    requires pos <= |input| && e == pos + 8
    ensures Match(HttpVersion, input, pos).cursor == if VersionAt(input, pos) then Some(e) else None
    ensures VersionAt(input, pos) ==> Match(HttpVersion, input, pos).events == VersionEvents(pos)
  {
    var lit: HttpPattern := Literal("HTTP/");
    var major := Tagged(Digit, TagMajor);
    var minor := Tagged(Digit, TagMinor);
    var v2 := Then(lit, major);
    var v3 := Then(v2, Literal("."));
    assert HttpVersion == Then(v3, minor);
    DigitMatch(input, pos);
    if !LitAt(input, pos, "HTTP/") {
      LiteralNotAt<HttpTag>("HTTP/", input, pos);
      ThenFirstFails(lit, major, input, pos);
      ThenFirstFails(v2, Literal("."), input, pos);
      ThenFirstFails(v3, minor, input, pos);
    } else if !(pos + 5 < |input| && IsDigit(input[pos + 5])) {
      TaggedFails(Digit, TagMajor, input, pos + 5);
      ThenSecondFails(lit, major, input, pos, pos + 5);
      ThenFirstFails(v2, Literal("."), input, pos);
      ThenFirstFails(v3, minor, input, pos);
    } else {
      var e2 := [Enter(TagMajor, pos + 5), Exit(TagMajor, pos + 5, pos + 6)];
      LiteralAt<HttpTag>("HTTP/", input, pos, pos + 5);
      OneCharAt(Digit, IsDigit, input, pos + 5, pos + 6);
      TaggedLeaf(Digit, TagMajor, input, pos + 5, pos + 6);
      ThenBoth(lit, major, input, pos, pos + 5, pos + 6, [], e2);
      assert [] + e2 == e2;
      assert pos + 7 <= |input| ==> input[pos + 6..pos + 7] == [input[pos + 6]];
      if !LitAt(input, pos + 6, ".") {
        ThenNoLiteral(v2, ".", input, pos, pos + 6);
        ThenFirstFails(v3, minor, input, pos);
      } else if !(pos + 7 < |input| && IsDigit(input[pos + 7])) {
        ThenLiteral(v2, ".", input, pos, pos + 6, pos + 7, e2);
        TaggedFails(Digit, TagMinor, input, pos + 7);
        ThenSecondFails(v3, minor, input, pos, pos + 7);
      } else {
        ThenLiteral(v2, ".", input, pos, pos + 6, pos + 7, e2);
        OneCharAt(Digit, IsDigit, input, pos + 7, e);
        TaggedLeaf(Digit, TagMinor, input, pos + 7, e);
        ThenBoth(v3, minor, input, pos, pos + 7, e, e2, [Enter(TagMinor, pos + 7), Exit(TagMinor, pos + 7, e)]);
      }
    }
  }

  // ---------------------------------------------------------------------
  // Request line
  // ---------------------------------------------------------------------

  /**
   * The method and target at `pos`, if they are there: 1 to 100 upper-case
   * letters ending before position `m`, a space, then the text up to the
   * first space, at `t`.
   */
  function RequestHeadAt(input: string, pos: nat): (r: Option<(nat, nat)>)
    requires pos <= |input|
    ensures r.Some? ==> pos < r.value.0 < r.value.1 < |input|
  {
    var m := MethodEnd(input, pos);
    if m == pos || !LitAt(input, m, " ") then None
    else match FindFrom(input, m + 1, " ")
      case None => None
      case Some(t) => Some((m, t))
  }

  /** Where a method starting at `pos` ends: after the run of upper-case letters there, at most 100. */
  function MethodEnd(input: string, pos: nat): nat
    requires pos <= |input|
  {
    pos + RunLength(input, pos, 100, IsUpper)
  }

  /** The end of a request line at `pos`: the version, then CRLF. */
  predicate RequestTail(input: string, pos: nat)
  {
    VersionAt(input, pos) && LitAt(input, pos + 8, "\r\n")
  }

  /** The converse of the definition of `RequestHeadAt`, from what it looks for. */
  lemma {:induction false} RequestHeadAtFrom(input: string, pos: nat, m: nat, t: nat)
    requires pos <= |input| && m == MethodEnd(input, pos) && m != pos
    requires LitAt(input, m, " ") && FindFrom(input, m + 1, " ") == Some(t)
    ensures RequestHeadAt(input, pos) == Some((m, t))
  {
  }

  /**
   * The request line at `pos`, if there is one: the method ending before
   * `m`, the target ending at `t` (see `RequestHeadAt`), then a space, the
   * version and CRLF.
   */
  function RequestLineAt(input: string, pos: nat): (r: Option<(nat, nat)>)
    requires pos <= |input|
    ensures r.Some? ==> pos < r.value.0 < r.value.1 && r.value.1 + 11 <= |input|
  {
    match RequestHeadAt(input, pos)
    case None => None
    case Some((m, t)) => if RequestTail(input, t + 1) then Some((m, t)) else None
  }

  /** The callbacks of the method and the target. */
  function RequestHeadEvents(pos: nat, m: nat, t: nat): seq<Event<HttpTag>>
  {
    [Enter(TagMethod, pos), Exit(TagMethod, pos, m)] + [Enter(TagTarget, m + 1), Exit(TagTarget, m + 1, t)]
  }

  /** The callbacks of a matched request line, children before their parent. */
  function RequestEvents(pos: nat, m: nat, t: nat): seq<Event<HttpTag>>
  {
    [Enter(TagRequest, pos)] + RequestHeadEvents(pos, m, t) + VersionEvents(t + 1) + [Exit(TagRequest, pos, t + 11)]
  }

  /** The method (1 to 100 upper-case letters) matches up to `MethodEnd`, and fails where that run is empty. */
  lemma {:induction false} MethodMatch(input: string, pos: nat, m: nat)
    requires pos <= |input| && m == MethodEnd(input, pos)
    ensures Match(Tagged(Repeat(UpperLetter, 1, 100), TagMethod), input, pos)
              == if m == pos then Outcome(None, [Enter(TagMethod, pos)])
                 else Outcome(Some(m), [Enter(TagMethod, pos), Exit(TagMethod, pos, m)])
  {
    var run := Repeat(UpperLetter, 1, 100);
    UpperLetterMatch(input, pos);
    RepeatOneChar(UpperLetter, IsUpper, input, pos, 1, 100, m);
    if m > pos {
      TaggedLeaf(run, TagMethod, input, pos, m);
    }
  }

  /** Where `RequestHeadAt` finds method and target, the head matches them and reports their spans. */
  lemma {:induction false} RequestHeadFound(input: string, pos: nat, r: (nat, nat))
    requires pos <= |input| && RequestHeadAt(input, pos) == Some(r)
    ensures Match(RequestHead, input, pos) == Outcome(Some(r.1 + 1), RequestHeadEvents(pos, r.0, r.1))
  {
    var (m, t) := r;
    assert m == MethodEnd(input, pos) && m > pos && LitAt(input, m, " ");
    assert FindFrom(input, m + 1, " ") == Some(t);
    MethodMatched(input, pos, m);
    TargetFound(input, pos, m, t);
  }

  /** Where `RequestHeadAt` finds nothing, the head fails. */
  lemma {:induction false} RequestHeadMissing(input: string, pos: nat)
    requires pos <= |input| && RequestHeadAt(input, pos).None?
    ensures Match(RequestHead, input, pos).cursor.None?
  {
    var m := MethodEnd(input, pos);
    if m == pos || !LitAt(input, m, " ") {
      MethodFails(input, pos);
    } else {
      MethodMatched(input, pos, m);
      TargetMissing(input, pos, m);
    }
  }

  /** Without a method or the space after it, the head fails. */
  lemma {:induction false} MethodFails(input: string, pos: nat)
    requires pos <= |input|
    requires var m := MethodEnd(input, pos); m == pos || !LitAt(input, m, " ")
    ensures Match(RequestHead, input, pos).cursor.None?
  {
    var sp: HttpPattern := Literal(" ");
    var a1 := Tagged(Repeat(UpperLetter, 1, 100), TagMethod);
    var a2 := Then(a1, sp);
    var a3 := Then(a2, Tagged(Until(sp), TagTarget));
    var m := MethodEnd(input, pos);
    MethodMatch(input, pos, m);
    if m == pos {
      ThenFirstFails(a1, sp, input, pos);
    } else {
      ThenNoLiteral(a1, " ", input, pos, m);
    }
    ThenFirstFails(a2, Tagged(Until(sp), TagTarget), input, pos);
    ThenFirstFails(a3, sp, input, pos);
    assert RequestHead == Then(a3, sp);
  }


  /** The method and the space after it take the head to `m + 1`. */
  lemma {:induction false} MethodMatched(input: string, pos: nat, m: nat)
    requires pos <= |input| && m == MethodEnd(input, pos) && m > pos && LitAt(input, m, " ")
    ensures Match(Then(Tagged(Repeat(UpperLetter, 1, 100), TagMethod), Literal(" ")), input, pos)
            == Outcome(Some(m + 1), [Enter(TagMethod, pos), Exit(TagMethod, pos, m)])
  {
    MethodMatch(input, pos, m);
    ThenLiteral(Tagged(Repeat(UpperLetter, 1, 100), TagMethod), " ", input, pos, m, m + 1, [Enter(TagMethod, pos), Exit(TagMethod, pos, m)]);
  }


  /** With no space after the target, the head fails. */
  lemma {:induction false} TargetMissing(input: string, pos: nat, m: nat)
    requires pos < m < |input|
    requires Match(Then(Tagged(Repeat(UpperLetter, 1, 100), TagMethod), Literal(" ")), input, pos).cursor == Some(m + 1)
    requires FindFrom(input, m + 1, " ").None?
    ensures Match(RequestHead, input, pos).cursor.None?
  {
    var sp: HttpPattern := Literal(" ");
    var target := Tagged(Until(sp), TagTarget);
    var a2 := Then(Tagged(Repeat(UpperLetter, 1, 100), TagMethod), sp);
    var a3 := Then(a2, target);
    TaggedUntilMissing<HttpTag>(" ", TagTarget, input, m + 1);
    ThenSecondFails(a2, target, input, pos, m + 1);
    ThenFirstFails(a3, sp, input, pos);
    assert RequestHead == Then(a3, sp);
  }


  /** The target runs up to the first space after `m + 1`, at `t`, and the head ends after it. */
  lemma {:induction false} TargetFound(input: string, pos: nat, m: nat, t: nat)
    requires pos < m < |input|
    requires Match(Then(Tagged(Repeat(UpperLetter, 1, 100), TagMethod), Literal(" ")), input, pos)
             == Outcome(Some(m + 1), [Enter(TagMethod, pos), Exit(TagMethod, pos, m)])
    requires FindFrom(input, m + 1, " ") == Some(t)
    ensures Match(RequestHead, input, pos) == Outcome(Some(t + 1), RequestHeadEvents(pos, m, t))
  {
    var a3 := Then(Then(Tagged(Repeat(UpperLetter, 1, 100), TagMethod), Literal(" ")), Tagged(Until(Literal(" ")), TagTarget));
    TargetSpan(input, pos, m, t);
    FindFromFirst(input, m + 1, " ");
    ThenLiteral(a3, " ", input, pos, t, t + 1, RequestHeadEvents(pos, m, t));
    assert RequestHead == Then(a3, Literal(" "));
  }

  lemma {:induction false} TargetSpan(input: string, pos: nat, m: nat, t: nat)
    requires pos < m < |input|
    requires Match(Then(Tagged(Repeat(UpperLetter, 1, 100), TagMethod), Literal(" ")), input, pos)
             == Outcome(Some(m + 1), [Enter(TagMethod, pos), Exit(TagMethod, pos, m)])
    requires FindFrom(input, m + 1, " ") == Some(t)
    ensures Match(Then(Then(Tagged(Repeat(UpperLetter, 1, 100), TagMethod), Literal(" ")), Tagged(Until(Literal(" ")), TagTarget)), input, pos)
            == Outcome(Some(t), RequestHeadEvents(pos, m, t))
  {
    TaggedUntilFound(" ", TagTarget, input, m + 1, t);
    ThenBoth(Then(Tagged(Repeat(UpperLetter, 1, 100), TagMethod), Literal(" ")), Tagged(Until(Literal(" ")), TagTarget),
             input, pos, m + 1, t, [Enter(TagMethod, pos), Exit(TagMethod, pos, m)], [Enter(TagTarget, m + 1), Exit(TagTarget, m + 1, t)]);
  }




  /** After the target's space, the request line needs the version and CRLF. */
  lemma {:induction false} RequestTailMatch(input: string, pos: nat, t: nat, e3: seq<Event<HttpTag>>)
    requires pos <= t && t + 1 <= |input|
    requires Match(RequestHead, input, pos) == Outcome(Some(t + 1), e3)
    ensures !RequestTail(input, t + 1) ==> Match(RequestLine.inner, input, pos).cursor.None?
    ensures RequestTail(input, t + 1) ==>
              Match(RequestLine, input, pos) == Outcome(Some(t + 11), [Enter(TagRequest, pos)] + e3 + VersionEvents(t + 1) + [Exit(TagRequest, pos, t + 11)])
  {
    var a5 := Then(RequestHead, HttpVersion);
    var a6 := Then(a5, Literal("\r\n"));
    assert RequestLine == Tagged(a6, TagRequest);
    HttpVersionMatch(input, t + 1, t + 9);
    if !VersionAt(input, t + 1) {
      ThenSecondFails(RequestHead, HttpVersion, input, pos, t + 1);
      ThenFirstFails(a5, Literal("\r\n"), input, pos);
    } else {
      var e5 := e3 + VersionEvents(t + 1);
      ThenBoth(RequestHead, HttpVersion, input, pos, t + 1, t + 9, e3, VersionEvents(t + 1));
      if !LitAt(input, t + 9, "\r\n") {
        ThenNoLiteral(a5, "\r\n", input, pos, t + 9);
      } else {
        ThenLiteral(a5, "\r\n", input, pos, t + 9, t + 11, e5);
        TaggedMatched(a6, TagRequest, input, pos, t + 11, e5);
      }
    }
  }


  /** Where `RequestLineAt` finds a request line, `requestLine` matches it and reports its fields. */
  lemma {:induction false} RequestLineFound(input: string, pos: nat, r: (nat, nat))
    requires pos <= |input| && RequestLineAt(input, pos) == Some(r)
    ensures Match(RequestLine, input, pos) == Outcome(Some(r.1 + 11), RequestEvents(pos, r.0, r.1))
  {
    assert RequestHeadAt(input, pos) == Some(r) && RequestTail(input, r.1 + 1);
    RequestHeadFound(input, pos, r);
    RequestTailMatch(input, pos, r.1, RequestHeadEvents(pos, r.0, r.1));
  }

  /** Where `RequestLineAt` finds none, `requestLine` fails. */
  lemma {:induction false} RequestLineMissing(input: string, pos: nat)
    requires pos <= |input| && RequestLineAt(input, pos).None?
    ensures Match(RequestLine, input, pos) == Outcome(None, [Enter(TagRequest, pos)] + Match(RequestLine.inner, input, pos).events)
  {
    RequestInnerFails(input, pos);
    TaggedFailsEvents(RequestLine.inner, TagRequest, input, pos);
  }

  lemma {:induction false} RequestInnerFails(input: string, pos: nat)
    requires pos <= |input| && RequestLineAt(input, pos).None?
    ensures Match(RequestLine.inner, input, pos).cursor.None?
  {
    match RequestHeadAt(input, pos)
    case None =>
      RequestHeadMissing(input, pos);
      RequestHeadFails(input, pos);
    case Some(r) =>
      assert !RequestTail(input, r.1 + 1);
      RequestHeadFound(input, pos, r);
      RequestTailMatch(input, pos, r.1, RequestHeadEvents(pos, r.0, r.1));
  }

  /** Without method and target, the request line fails. */
  lemma {:induction false} RequestHeadFails(input: string, pos: nat)
    requires pos <= |input| && Match(RequestHead, input, pos).cursor.None?
    ensures Match(RequestLine.inner, input, pos).cursor.None?
  {
    var a5 := Then(RequestHead, HttpVersion);
    ThenFirstFails(RequestHead, HttpVersion, input, pos);
    ThenFirstFails(a5, Literal("\r\n"), input, pos);
    assert RequestLine.inner == Then(a5, Literal("\r\n"));
  }


  // ---------------------------------------------------------------------
  // Status line
  // ---------------------------------------------------------------------

  /** Version, space, exactly three digits and space at `pos`: the start of a status line. */
  predicate ResponseHeadAt(input: string, pos: nat)
    requires pos <= |input|
  {
    && VersionAt(input, pos) && LitAt(input, pos + 8, " ")
    && RunLength(input, pos + 9, 3, IsDigit) == 3 && LitAt(input, pos + 12, " ")
  }

  /**
   * The status line at `pos`, if there is one: `ResponseHeadAt`, then the
   * reason phrase up to the first CRLF, at the returned position.
   */
  function ResponseLineAt(input: string, pos: nat): (r: Option<nat>)
    requires pos <= |input|
    ensures r.Some? ==> pos + 13 <= r.value && r.value + 2 <= |input|
  {
    if ResponseHeadAt(input, pos) then FindFrom(input, pos + 13, "\r\n") else None
  }

  /** The callbacks of the version and the status code. */
  function ResponseHeadEvents(pos: nat): seq<Event<HttpTag>>
  {
    VersionEvents(pos) + [Enter(TagStatusCode, pos + 9), Exit(TagStatusCode, pos + 9, pos + 12)]
  }

  /** The callbacks of a matched status line, children before their parent. */
  function ResponseEvents(pos: nat, k: nat): seq<Event<HttpTag>>
  {
    [Enter(TagResponse, pos)] + ResponseHeadEvents(pos) + [Enter(TagStatusMessage, pos + 13), Exit(TagStatusMessage, pos + 13, k)]
    + [Exit(TagResponse, pos, k + 2)]
  }

  /** `digit[3]` tagged as the status code: exactly three digits, or failure. */
  lemma {:induction false} StatusCodeMatch(input: string, pos: nat, e: nat)
    requires pos <= |input| && e == pos + 3
    ensures RunLength(input, pos, 3, IsDigit) == 3 ==>
              Match(Tagged(Repeat(Digit, 3, 3), TagStatusCode), input, pos)
                == Outcome(Some(e), [Enter(TagStatusCode, pos), Exit(TagStatusCode, pos, e)])
    ensures RunLength(input, pos, 3, IsDigit) != 3 ==>
              Match(Tagged(Repeat(Digit, 3, 3), TagStatusCode), input, pos).cursor.None?
  {
    var n := RunLength(input, pos, 3, IsDigit);
    DigitMatch(input, pos);
    if n == 3 {
      RepeatOneChar(Digit, IsDigit, input, pos, 3, 3, e);
      TaggedLeaf(Repeat(Digit, 3, 3), TagStatusCode, input, pos, e);
    } else {
      RepeatOneChar(Digit, IsDigit, input, pos, 3, 3, pos + n);
      TaggedFails(Repeat(Digit, 3, 3), TagStatusCode, input, pos);
    }
  }

  /** Version and space at `pos` take the status line to `pos + 9`. */
  lemma {:induction false} VersionSpaceMatch(input: string, pos: nat)
    requires pos <= |input|
    ensures VersionAt(input, pos) && LitAt(input, pos + 8, " ") ==>
              Match(Then(HttpVersion, Literal(" ")), input, pos) == Outcome(Some(pos + 9), VersionEvents(pos))
    ensures !(VersionAt(input, pos) && LitAt(input, pos + 8, " ")) ==>
              Match(Then(HttpVersion, Literal(" ")), input, pos).cursor.None?
  {
    HttpVersionMatch(input, pos, pos + 8);
    if !VersionAt(input, pos) {
      ThenFirstFails(HttpVersion, Literal(" "), input, pos);
    } else if LitAt(input, pos + 8, " ") {
      ThenLiteral(HttpVersion, " ", input, pos, pos + 8, pos + 9, VersionEvents(pos));
    } else {
      ThenNoLiteral(HttpVersion, " ", input, pos, pos + 8);
    }
  }

  /** Where `ResponseHeadAt` holds, the head of the status line matches it. */
  lemma {:induction false} ResponseHeadFound(input: string, pos: nat)
    requires pos <= |input| && ResponseHeadAt(input, pos)
    ensures Match(ResponseHead, input, pos) == Outcome(Some(pos + 13), ResponseHeadEvents(pos))
  {
    var b1 := Then(HttpVersion, Literal(" "));
    var code := Tagged(Repeat(Digit, 3, 3), TagStatusCode);
    VersionSpaceMatch(input, pos);
    StatusCodeMatch(input, pos + 9, pos + 12);
    ThenBoth(b1, code, input, pos, pos + 9, pos + 12, VersionEvents(pos),
             [Enter(TagStatusCode, pos + 9), Exit(TagStatusCode, pos + 9, pos + 12)]);
    ThenLiteral(Then(b1, code), " ", input, pos, pos + 12, pos + 13, ResponseHeadEvents(pos));
    assert ResponseHead == Then(Then(b1, code), Literal(" "));
  }

  /** Where `ResponseHeadAt` fails, so does the head of the status line. */
  lemma {:induction false} ResponseHeadMissing(input: string, pos: nat)
    requires pos <= |input| && !ResponseHeadAt(input, pos)
    ensures Match(ResponseHead, input, pos).cursor.None?
  {
    var b1 := Then(HttpVersion, Literal(" "));
    var code := Tagged(Repeat(Digit, 3, 3), TagStatusCode);
    VersionSpaceMatch(input, pos);
    if !(VersionAt(input, pos) && LitAt(input, pos + 8, " ")) {
      ThenFirstFails(b1, code, input, pos);
      ThenFirstFails(Then(b1, code), Literal(" "), input, pos);
    } else {
      StatusCodeMatch(input, pos + 9, pos + 12);
      if RunLength(input, pos + 9, 3, IsDigit) != 3 {
        ThenSecondFails(b1, code, input, pos, pos + 9);
        ThenFirstFails(Then(b1, code), Literal(" "), input, pos);
      } else {
        ThenBoth(b1, code, input, pos, pos + 9, pos + 12, VersionEvents(pos),
                 [Enter(TagStatusCode, pos + 9), Exit(TagStatusCode, pos + 9, pos + 12)]);
        ThenNoLiteral(Then(b1, code), " ", input, pos, pos + 12);
      }
    }
    assert ResponseHead == Then(Then(b1, code), Literal(" "));
  }

  /** Where `ResponseLineAt` finds a status line ending at `k`, `responseLine` matches it and reports its fields. */
  lemma {:induction false} ResponseLineFound(input: string, pos: nat, k: nat)
    requires pos <= |input| && ResponseLineAt(input, pos) == Some(k)
    ensures Match(ResponseLine, input, pos) == Outcome(Some(k + 2), ResponseEvents(pos, k))
  {
    var b6 := Then(Then(ResponseHead, Tagged(Until(Literal("\r\n")), TagStatusMessage)), Literal("\r\n"));
    StatusLineFound(input, pos, k);
    TaggedMatched(b6, TagResponse, input, pos, k + 2,
                  ResponseHeadEvents(pos) + [Enter(TagStatusMessage, pos + 13), Exit(TagStatusMessage, pos + 13, k)]);
    assert ResponseLine == Tagged(b6, TagResponse);
  }

  /** The status line found by `ResponseLineAt`, up to and including its CRLF. */
  lemma {:induction false} StatusLineFound(input: string, pos: nat, k: nat)
    requires pos <= |input| && ResponseLineAt(input, pos) == Some(k)
    ensures Match(Then(Then(ResponseHead, Tagged(Until(Literal("\r\n")), TagStatusMessage)), Literal("\r\n")), input, pos)
            == Outcome(Some(k + 2), ResponseHeadEvents(pos) + [Enter(TagStatusMessage, pos + 13), Exit(TagStatusMessage, pos + 13, k)])
  {
    ReasonPhraseFound(input, pos, k);
    FindFromFirst(input, pos + 13, "\r\n");
    ThenLiteral(Then(ResponseHead, Tagged(Until(Literal("\r\n")), TagStatusMessage)), "\r\n", input, pos, k, k + 2,
                ResponseHeadEvents(pos) + [Enter(TagStatusMessage, pos + 13), Exit(TagStatusMessage, pos + 13, k)]);
  }

  /** After the head, the reason phrase runs up to the first CRLF, at `k`. */
  lemma {:induction false} ReasonPhraseFound(input: string, pos: nat, k: nat)
    requires pos <= |input| && ResponseHeadAt(input, pos) && FindFrom(input, pos + 13, "\r\n") == Some(k)
    ensures Match(Then(ResponseHead, Tagged(Until(Literal("\r\n")), TagStatusMessage)), input, pos)
            == Outcome(Some(k), ResponseHeadEvents(pos) + [Enter(TagStatusMessage, pos + 13), Exit(TagStatusMessage, pos + 13, k)])
  {
    ResponseHeadFound(input, pos);
    TaggedUntilFound("\r\n", TagStatusMessage, input, pos + 13, k);
    ThenBoth(ResponseHead, Tagged(Until(Literal("\r\n")), TagStatusMessage), input, pos, pos + 13, k, ResponseHeadEvents(pos),
             [Enter(TagStatusMessage, pos + 13), Exit(TagStatusMessage, pos + 13, k)]);
  }


  /** Where `ResponseLineAt` finds none, `responseLine` fails. */
  lemma {:induction false} ResponseLineMissing(input: string, pos: nat)
    requires pos <= |input| && ResponseLineAt(input, pos).None?
    ensures Match(ResponseLine, input, pos) == Outcome(None, [Enter(TagResponse, pos)] + Match(ResponseLine.inner, input, pos).events)
  {
    var message := Tagged(Until(Literal("\r\n")), TagStatusMessage);
    var b5 := Then(ResponseHead, message);
    if !ResponseHeadAt(input, pos) {
      ResponseHeadMissing(input, pos);
      ThenFirstFails(ResponseHead, message, input, pos);
    } else {
      ResponseHeadFound(input, pos);
      TaggedUntilMissing<HttpTag>("\r\n", TagStatusMessage, input, pos + 13);
      ThenSecondFails(ResponseHead, message, input, pos, pos + 13);
    }
    ThenFirstFails(b5, Literal("\r\n"), input, pos);
    TaggedFailsEvents(Then(b5, Literal("\r\n")), TagResponse, input, pos);
    assert ResponseLine == Tagged(Then(b5, Literal("\r\n")), TagResponse);
  }

  // ---------------------------------------------------------------------
  // Header fields
  // ---------------------------------------------------------------------

  /**
   * The header field at `pos`, if there is one: the name is the text before
   * the first ':' (at `c`), up to 100 spaces are skipped (the value starts at
   * `s`), and the value is the text up to the first CRLF (at `k`).
   */
  function HeaderAt(input: string, pos: nat): (r: Option<(nat, nat, nat)>)
    requires pos <= |input|
    ensures r.Some? ==> pos <= r.value.0 < r.value.1 <= r.value.2 && r.value.2 + 2 <= |input|
  {
    match FindFrom(input, pos, ":")
    case None => None
    case Some(c) =>
      var s := ValueStart(input, c);
      match FindFrom(input, s, "\r\n")
      case None => None
      case Some(k) => Some((c, s, k))
  }

  /** Where the value of a header field whose ':' is at `c` starts: after up to 100 spaces. */
  function ValueStart(input: string, c: nat): nat
    requires c < |input|
  {
    c + 1 + RunLength(input, c + 1, 100, IsSpace)
  }

  /** The callbacks of the name of a header field ending at `c`. */
  function HeaderNameEvents(pos: nat, c: nat): seq<Event<HttpTag>>
  {
    [Enter(TagHeaderName, pos), Exit(TagHeaderName, pos, c)]
  }

  /** The callbacks of a header field's name and value, in the order they fire. */
  function HeaderFieldEvents(pos: nat, c: nat, s: nat, k: nat): seq<Event<HttpTag>>
  {
    HeaderNameEvents(pos, c) + [Enter(TagHeaderValue, s), Exit(TagHeaderValue, s, k)]
  }

  /** The callbacks of a matched header field: its name, its value, then the whole field. */
  function HeaderEvents(pos: nat, c: nat, s: nat, k: nat): seq<Event<HttpTag>>
  {
    [Enter(TagHeader, pos)] + HeaderFieldEvents(pos, c, s, k) + [Exit(TagHeader, pos, k + 2)]
  }

  /** Name, ':' and the skipped spaces, with the name ending at `c` and the value starting at `s`. */
  lemma {:induction false} HeaderHeadFound(input: string, pos: nat, c: nat, s: nat)
    requires pos <= |input| && FindFrom(input, pos, ":") == Some(c)
    requires s == ValueStart(input, c)
    ensures Match(HeaderHead, input, pos) == Outcome(Some(s), HeaderNameEvents(pos, c))
  {
    HeaderHeadParts(input, pos, c, s);
    assert HeaderHead == Then(Then(HeaderName, Literal(":")), Spaces);
  }

  lemma {:induction false} HeaderHeadParts(input: string, pos: nat, c: nat, s: nat)
    requires pos <= |input| && FindFrom(input, pos, ":") == Some(c)
    requires s == ValueStart(input, c)
    ensures Match(Then(Then(HeaderName, Literal(":")), Spaces), input, pos) == Outcome(Some(s), HeaderNameEvents(pos, c))
  {
    HeaderNameColon(input, pos, c);
    SpacesMatch(input, c + 1, s);
    ThenBoth(Then(HeaderName, Literal(":")), Spaces, input, pos, c + 1, s, HeaderNameEvents(pos, c), []);
    assert HeaderNameEvents(pos, c) + [] == HeaderNameEvents(pos, c);
  }

  /** The name ends at the first ':', at `c`, and the ':' follows it. */
  lemma {:induction false} HeaderNameColon(input: string, pos: nat, c: nat)
    requires pos <= |input| && FindFrom(input, pos, ":") == Some(c)
    ensures Match(Then(HeaderName, Literal(":")), input, pos) == Outcome(Some(c + 1), HeaderNameEvents(pos, c))
  {
    TaggedUntilFound(":", TagHeaderName, input, pos, c);
    FindFromFirst(input, pos, ":");
    ThenLiteral(HeaderName, ":", input, pos, c, c + 1, HeaderNameEvents(pos, c));
  }

  /** `" "_p.repeat(0, 100)` skips the run of spaces, at most 100, and never fails. */
  lemma {:induction false} SpacesMatch(input: string, pos: nat, e: nat)
    requires pos <= |input| && e == pos + RunLength(input, pos, 100, IsSpace)
    ensures Match(Spaces, input, pos) == Outcome(Some(e), [])
  {
    SpaceMatch(input, pos);
    RepeatOneChar(Pattern<HttpTag>.Literal(" "), IsSpace, input, pos, 0, 100, e);
  }


  /** Where `HeaderAt` finds a header field, `header` matches it and reports its name and value. */
  lemma {:induction false} HeaderFound(input: string, pos: nat, r: (nat, nat, nat))
    requires pos <= |input| && HeaderAt(input, pos) == Some(r)
    ensures Match(Header, input, pos) == Outcome(Some(r.2 + 2), HeaderEvents(pos, r.0, r.1, r.2))
  {
    var (c, s, k) := r;
    var h4 := Then(Then(HeaderHead, HeaderValue), Literal("\r\n"));
    HeaderLineFound(input, pos, c, s, k);
    TaggedMatched(h4, TagHeader, input, pos, k + 2, HeaderFieldEvents(pos, c, s, k));
    assert Header == Tagged(h4, TagHeader);
  }

  /** A header field found by `HeaderAt`, up to and including its CRLF. */
  lemma {:induction false} HeaderLineFound(input: string, pos: nat, c: nat, s: nat, k: nat)
    requires pos <= |input| && HeaderAt(input, pos) == Some((c, s, k))
    ensures Match(Then(Then(HeaderHead, HeaderValue), Literal("\r\n")), input, pos)
            == Outcome(Some(k + 2), HeaderFieldEvents(pos, c, s, k))
  {
    HeaderValueFound(input, pos, c, s, k);
    HeaderAtParts(input, pos, c, s, k);
    FindFromFirst(input, s, "\r\n");
    ThenLiteral(Then(HeaderHead, HeaderValue), "\r\n", input, pos, k, k + 2, HeaderFieldEvents(pos, c, s, k));
  }

  /** The three scans behind a header field found by `HeaderAt`. */
  lemma {:induction false} HeaderAtParts(input: string, pos: nat, c: nat, s: nat, k: nat)
    requires pos <= |input| && HeaderAt(input, pos) == Some((c, s, k))
    ensures FindFrom(input, pos, ":") == Some(c)
    ensures s == ValueStart(input, c) && FindFrom(input, s, "\r\n") == Some(k)
  {
  }

  /** The converse of `HeaderAtParts`. */
  lemma {:induction false} HeaderAtFrom(input: string, pos: nat, c: nat, s: nat, k: nat)
    requires pos <= |input| && FindFrom(input, pos, ":") == Some(c)
    requires s == ValueStart(input, c) && FindFrom(input, s, "\r\n") == Some(k)
    ensures HeaderAt(input, pos) == Some((c, s, k))
  {
  }

  /** Name, ':', spaces and value of a header field found by `HeaderAt`. */
  lemma {:induction false} HeaderValueFound(input: string, pos: nat, c: nat, s: nat, k: nat)
    requires pos <= |input| && HeaderAt(input, pos) == Some((c, s, k))
    ensures Match(Then(HeaderHead, HeaderValue), input, pos)
            == Outcome(Some(k), HeaderFieldEvents(pos, c, s, k))
  {
    HeaderAtParts(input, pos, c, s, k);
    HeaderHeadFound(input, pos, c, s);
    TaggedUntilFound("\r\n", TagHeaderValue, input, s, k);
    ThenBoth(HeaderHead, HeaderValue, input, pos, s, k, HeaderNameEvents(pos, c),
             [Enter(TagHeaderValue, s), Exit(TagHeaderValue, s, k)]);
  }


  /** Where `HeaderAt` finds none, `header` fails. */
  lemma {:induction false} HeaderMissing(input: string, pos: nat)
    requires pos <= |input| && HeaderAt(input, pos).None?
    ensures Match(Header, input, pos) == Outcome(None, [Enter(TagHeader, pos)] + Match(Header.inner, input, pos).events)
  {
    var h3 := Then(HeaderHead, HeaderValue);
    match FindFrom(input, pos, ":")
    case None => NoColon(input, pos);
    case Some(c) => NoValueEnd(input, pos, c);
    ThenFirstFails(h3, Literal("\r\n"), input, pos);
    TaggedFailsEvents(Then(h3, Literal("\r\n")), TagHeader, input, pos);
    assert Header == Tagged(Then(h3, Literal("\r\n")), TagHeader);
  }

  /** Without a ':' from `pos` on there is no header field. */
  lemma {:induction false} NoColon(input: string, pos: nat)
    requires pos <= |input| && FindFrom(input, pos, ":").None?
    ensures Match(Then(HeaderHead, HeaderValue), input, pos).cursor.None?
  {
    TaggedUntilMissing<HttpTag>(":", TagHeaderName, input, pos);
    ThenFirstFails(HeaderName, Literal(":"), input, pos);
    ThenFirstFails(Then(HeaderName, Literal(":")), Spaces, input, pos);
    ThenFirstFails(HeaderHead, HeaderValue, input, pos);
  }

  /** Without a CRLF after the value's start there is no header field. */
  lemma {:induction false} NoValueEnd(input: string, pos: nat, c: nat)
    requires pos <= |input| && FindFrom(input, pos, ":") == Some(c)
    requires FindFrom(input, ValueStart(input, c), "\r\n").None?
    ensures Match(Then(HeaderHead, HeaderValue), input, pos).cursor.None?
  {
    var s := ValueStart(input, c);
    TaggedUntilMissing<HttpTag>("\r\n", TagHeaderValue, input, s);
    HeaderHeadFound(input, pos, c, s);
    ThenSecondFails(HeaderHead, HeaderValue, input, pos, s);
  }


  /**
   * The header fields from `pos` on, at most `max` of them, as (name, value)
   * pairs in input order, and the position after the last one.
   */
  function HeaderList(input: string, pos: nat, max: nat): (r: (seq<(string, string)>, nat))
    requires pos <= |input|
    ensures |r.0| <= max && pos <= r.1 <= |input|
    decreases max, |input| - pos
  {
    if max == 0 then ([], pos)
    else match HeaderAt(input, pos)
      case None => ([], pos)
      case Some(r) =>
        var rest := HeaderList(input, r.2 + 2, max - 1);
        ([(input[pos..r.0], input[r.1..r.2])] + rest.0, rest.1)
  }

  /** Fewer than `max` fields in the list means no header field follows it. */
  ghost predicate StopsAtGap(input: string, pos: nat, max: nat)
    requires pos <= |input|
  {
    var r := HeaderList(input, pos, max);
    |r.0| < max ==> HeaderAt(input, r.1).None?
  }

  /** The list stops early only where no header field follows. */
  lemma {:induction false} HeaderListEnds(input: string, pos: nat, max: nat)
    requires pos <= |input|
    ensures StopsAtGap(input, pos, max)
    decreases max
  {
    if max > 0 {
      match HeaderAt(input, pos)
      case None =>
        HeaderListNone(input, pos, max);
      case Some(r) =>
        var next := r.2 + 2;
        HeaderListEnds(input, next, max - 1);
        StopsAtGapStep(input, pos, max, r, next);
    }
  }

  lemma {:induction false} StopsAtGapStep(input: string, pos: nat, max: nat, r: (nat, nat, nat), next: nat)
    requires pos <= |input| && max > 0 && HeaderAt(input, pos) == Some(r) && next == r.2 + 2
    requires StopsAtGap(input, next, max - 1)
    ensures StopsAtGap(input, pos, max)
  {
    HeaderListStep(input, pos, max, r);
  }

  /** Where no header field is at `pos`, the list is empty and ends there. */
  lemma {:induction false} HeaderListNone(input: string, pos: nat, max: nat)
    requires pos <= |input| && HeaderAt(input, pos).None?
    ensures HeaderList(input, pos, max) == ([], pos)
  {
  }

  /** One field more: the list goes on after the field's CRLF. */
  lemma {:induction false} HeaderListStep(input: string, pos: nat, max: nat, r: (nat, nat, nat))
    requires pos <= |input| && max > 0 && HeaderAt(input, pos) == Some(r)
    ensures var tail := HeaderList(input, r.2 + 2, max - 1);
            HeaderList(input, pos, max) == ([(input[pos..r.0], input[r.1..r.2])] + tail.0, tail.1)
  {
  }

  // ---------------------------------------------------------------------
  // Start line: the request line first, the status line otherwise
  // ---------------------------------------------------------------------

  /** A request line wins the choice. */
  lemma {:induction false} StartLineRequest(input: string, pos: nat, r: (nat, nat))
    requires pos <= |input| && RequestLineAt(input, pos) == Some(r)
    ensures Match(StartLine, input, pos) == Outcome(Some(r.1 + 11), RequestEvents(pos, r.0, r.1))
  {
    RequestLineFound(input, pos, r);
    OrFirst(RequestLine, ResponseLine, input, pos);
  }

  /** Without a request line, the status line is tried next; the failed attempt's callbacks come first. */
  lemma {:induction false} StartLineResponse(input: string, pos: nat, k: nat)
    requires pos <= |input| && RequestLineAt(input, pos).None? && ResponseLineAt(input, pos) == Some(k)
    ensures Match(StartLine, input, pos)
            == Outcome(Some(k + 2), Match(RequestLine, input, pos).events + ResponseEvents(pos, k))
  {
    RequestLineMissing(input, pos);
    ResponseLineFound(input, pos, k);
    OrSecond(RequestLine, ResponseLine, input, pos);
  }

  /** With neither line, the start line fails after trying both. */
  lemma {:induction false} StartLineMissing(input: string, pos: nat)
    requires pos <= |input| && RequestLineAt(input, pos).None? && ResponseLineAt(input, pos).None?
    ensures Match(StartLine, input, pos)
            == Outcome(None, Match(RequestLine, input, pos).events + Match(ResponseLine, input, pos).events)
  {
    RequestLineMissing(input, pos);
    ResponseLineMissing(input, pos);
    OrSecond(RequestLine, ResponseLine, input, pos);
  }

  // ---------------------------------------------------------------------
  // Which tags a line can report, matched or not
  // ---------------------------------------------------------------------

  /** Inside the request line only the method, the target and the version digits are tagged. */
  lemma {:induction false} RequestLineTags()
    ensures RequestLine.Tagged? && RequestLine.tag == TagRequest
    ensures Tags(RequestLine.inner) == {TagMethod, TagTarget, TagMajor, TagMinor}
  {
    var a1 := Tagged(Repeat(UpperLetter, 1, 100), TagMethod);
    assert Tags(UpperLetter) == {};
    assert Tags(a1) == {TagMethod};
    assert Tags(Then(a1, Literal(" "))) == {TagMethod};
    assert Tags(Then(Then(a1, Literal(" ")), Tagged(Until(Literal(" ")), TagTarget))) == {TagMethod, TagTarget};
    assert Tags(RequestHead) == {TagMethod, TagTarget};
    assert Tags(HttpVersion) == {TagMajor, TagMinor};
  }

  /** Inside the status line only the version digits, the code and the message are tagged. */
  lemma {:induction false} ResponseLineTags()
    ensures ResponseLine.Tagged? && ResponseLine.tag == TagResponse
    ensures Tags(ResponseLine.inner) == {TagMajor, TagMinor, TagStatusCode, TagStatusMessage}
  {
    assert Tags(HttpVersion) == {TagMajor, TagMinor};
    assert Tags(Then(HttpVersion, Literal(" "))) == {TagMajor, TagMinor};
    assert Tags(Tagged(Repeat(Digit, 3, 3), TagStatusCode)) == {TagStatusCode};
    assert Tags(ResponseHead) == {TagMajor, TagMinor, TagStatusCode};
    assert Tags(Tagged(Until(Literal("\r\n")), TagStatusMessage)) == {TagStatusMessage};
  }

  /** Inside a header field only its name and its value are tagged. */
  lemma {:induction false} HeaderTags()
    ensures Header.Tagged? && Header.tag == TagHeader
    ensures Tags(Header.inner) == {TagHeaderName, TagHeaderValue}
  {
  }
}
