/**
 * The visitor of the HTTP example: what it stores, how the pre-match hooks
 * of the request and the status line reset it, and what each callback does
 * with the span it receives. `Run` replays a sequence of callbacks; the
 * class `HttpVisitor` does the same in place and is proved against it.
 */
module Visitor {
  import opened Wrappers
  import opened Patterns
  import opened HttpGrammar

  /** `std::variant<Request, Response>`. */
  datatype Info =
    | Request(requestMethod: string, target: string)
    | Response(statusCode: string, statusMessage: string)

  /**
   * The visitor's members. The two pending header strings are moved from
   * when a header is stored; `None` stands for a moved-from string, whose
   * contents are unspecified.
   */
  datatype VisitorState = VisitorState(
    major: int, minor: int,
    info: Info,
    headers: map<string, string>,
    body: string,
    pendingName: Option<string>, pendingValue: Option<string>)

  /** What the example prints after a successful match. */
  datatype Report = Report(major: int, minor: int, info: Info, headers: map<string, string>, body: string)

  function ReportOf(st: VisitorState): (r: Report)
    ensures r.headers == st.headers && r.info == st.info && r.body == st.body
  {
    Report(st.major, st.minor, st.info, st.headers, st.body)
  }

  /** A default-constructed visitor: both versions 0, an empty `Request`, no headers, an empty body. */
  function Initial(): (st: VisitorState)
    ensures st.info == Request("", "") && st.headers == map[] && st.body == ""
  {
    VisitorState(0, 0, Request("", ""), map[], "", Some(""), Some(""))
  }

  /** `std::map::emplace`: the pair is inserted only when the name is not there yet. */
  function Emplace(headers: map<string, string>, name: string, value: string): (r: map<string, string>)
    ensures r.Keys == headers.Keys + {name}
  {
    if name in headers then headers else headers[name := value]
  }

  /**
   * The pre-match hooks: matching a request line first resets `info` to an
   * empty `Request`, matching a status line to an empty `Response`; other
   * tagged patterns have no hook.
   */
  function Hook(st: VisitorState, tag: HttpTag): (r: VisitorState)
    ensures r.headers == st.headers && r.body == st.body && r.major == st.major && r.minor == st.minor
  {
    match tag
    case TagRequest => st.(info := Request("", ""))
    case TagResponse => st.(info := Response("", ""))
    case _ => st
  }

  /**
   * The visitor call after a tagged pattern matched `input[b..e]`. `None`
   * stands for the `std::bad_variant_access` that `std::get` throws when
   * `info` holds the other alternative. A version digit reads the first
   * character of its span; an empty span at the end of input would be
   * undefined, and leaves the field as it was.
   */
  function Visit(st: VisitorState, tag: HttpTag, input: string, b: nat, e: nat): (r: Option<VisitorState>)
    requires b <= e <= |input|
  {
    var text := input[b..e];
    match tag
    case TagMajor => Some(if b < |input| then st.(major := DigitValue(input[b])) else st)
    case TagMinor => Some(if b < |input| then st.(minor := DigitValue(input[b])) else st)
    case TagMethod => if st.info.Request? then Some(st.(info := st.info.(requestMethod := text))) else None
    case TagTarget => if st.info.Request? then Some(st.(info := st.info.(target := text))) else None
    case TagStatusCode => if st.info.Response? then Some(st.(info := st.info.(statusCode := text))) else None
    case TagStatusMessage => if st.info.Response? then Some(st.(info := st.info.(statusMessage := text))) else None
    case TagHeaderName => Some(st.(pendingName := Some(text)))
    case TagHeaderValue => Some(st.(pendingValue := Some(text)))
    case TagHeader =>
      (match (st.pendingName, st.pendingValue)
       case (Some(name), Some(value)) =>
         Some(st.(headers := Emplace(st.headers, name, value), pendingName := None, pendingValue := None))
       case _ => Some(st.(pendingName := None, pendingValue := None)))
    case TagBody => Some(st.(body := text))
    case _ => Some(st)
  }

  /** The span a callback reports, if any, lies inside the input. */
  predicate SpanIn(ev: Event<HttpTag>, input: string)
  {
    ev.Exit? ==> ev.begin <= ev.end <= |input|
  }

  predicate SpansIn(evs: seq<Event<HttpTag>>, input: string)
  {
    forall i :: 0 <= i < |evs| ==> SpanIn(evs[i], input)
  }

  function Step(st: VisitorState, input: string, ev: Event<HttpTag>): Option<VisitorState>
    requires SpanIn(ev, input)
  {
    match ev
    case Enter(tag, _) => Some(Hook(st, tag))
    case Exit(tag, b, e) => Visit(st, tag, input, b, e)
  }

  /** The visitor after the callbacks `evs`, in order; `None` once one of them throws. */
  function Run(st: VisitorState, input: string, evs: seq<Event<HttpTag>>): Option<VisitorState>
    requires SpansIn(evs, input)
    decreases |evs|
  {
    if evs == [] then Some(st)
    else match Step(st, input, evs[0])
      case None => None
      case Some(st') => Run(st', input, evs[1..])
  }

  /** `Emplace` keeps the first value stored under a name and leaves every other name alone. */
  lemma {:induction false} EmplaceKeepsFirst(headers: map<string, string>, name: string, value: string, other: string)
    ensures var r := Emplace(headers, name, value);
            && r[name] == (if name in headers then headers[name] else value)
            && (other != name ==> (other in r <==> other in headers))
            && (other != name && other in headers ==> r[other] == headers[other])
  {
  }

  /**
   * A callback throws exactly when it needs the `Request` alternative and
   * `info` holds a `Response`, or the other way round.
   */
  lemma {:induction false} VisitThrows(st: VisitorState, tag: HttpTag, input: string, b: nat, e: nat)
    requires b <= e <= |input|
    ensures Visit(st, tag, input, b, e).None?
            <==> (tag in {TagMethod, TagTarget} && st.info.Response?)
                 || (tag in {TagStatusCode, TagStatusMessage} && st.info.Request?)
  {
  }

  /** Replaying two sequences of callbacks is replaying the first, then the second from where it left off. */
  lemma {:induction false} RunAppend(st: VisitorState, input: string, a: seq<Event<HttpTag>>, b: seq<Event<HttpTag>>)
    requires SpansIn(a, input) && SpansIn(b, input)
    ensures SpansIn(a + b, input)
    ensures Run(st, input, a + b) == match Run(st, input, a) case None => None case Some(s) => Run(s, input, b)
    decreases |a|
  {
    assert forall i :: 0 <= i < |a + b| ==> (a + b)[i] == if i < |a| then a[i] else b[i - |a|];
    if a == [] {
      assert a + b == b;
    } else {
      assert (a + b)[0] == a[0] && (a + b)[1..] == a[1..] + b;
      match Step(st, input, a[0])
      case None =>
      case Some(st') => RunAppend(st', input, a[1..], b);
    }
  }

  // ---------------------------------------------------------------------
  // Replaying the callbacks of each line
  // ---------------------------------------------------------------------

  /**
   * A tag whose callbacks neither reset `info` nor store a header or the
   * body, and that only fill the alternative `info` holds.
   */
  predicate InLine(info: Info, tag: HttpTag)
  {
    match tag
    case TagMajor => true
    case TagMinor => true
    case TagMethod => info.Request?
    case TagTarget => info.Request?
    case TagStatusCode => info.Response?
    case TagStatusMessage => info.Response?
    case _ => false
  }

  /** Such callbacks never throw, and keep the headers, the body and the alternative `info` holds. */
  lemma {:induction false} RunLineAttempt(st: VisitorState, input: string, evs: seq<Event<HttpTag>>)
    requires SpansIn(evs, input) && forall i :: 0 <= i < |evs| ==> InLine(st.info, evs[i].tag)
    ensures var r := Run(st, input, evs);
            && r.Some? && r.value.headers == st.headers && r.value.body == st.body
            && r.value.info.Request? == st.info.Request?
    decreases |evs|
  {
    if evs != [] {
      assert InLine(st.info, evs[0].tag) && SpanIn(evs[0], input);
      var st' := Step(st, input, evs[0]).value;
      assert st'.info.Request? == st.info.Request?;
      assert SpansIn(evs[1..], input) && forall i :: 0 <= i < |evs[1..]| ==> InLine(st'.info, evs[1..][i].tag) by {
        forall i | 0 <= i < |evs[1..]| ensures evs[1..][i] == evs[i + 1] { }
      }
      RunLineAttempt(st', input, evs[1..]);
    }
  }

  /** The callbacks of a header field's name and value alone change nothing the example prints. */
  lemma {:induction false} RunPendingOnly(st: VisitorState, input: string, evs: seq<Event<HttpTag>>)
    requires SpansIn(evs, input) && forall i :: 0 <= i < |evs| ==> evs[i].tag in {TagHeaderName, TagHeaderValue}
    ensures Run(st, input, evs).Some? && ReportOf(Run(st, input, evs).value) == ReportOf(st)
    decreases |evs|
  {
    if evs != [] {
      assert evs[0].tag in {TagHeaderName, TagHeaderValue};
      var st' := Step(st, input, evs[0]).value;
      assert SpansIn(evs[1..], input) && forall i :: 0 <= i < |evs[1..]| ==> evs[1..][i].tag in {TagHeaderName, TagHeaderValue} by {
        forall i | 0 <= i < |evs[1..]| ensures evs[1..][i] == evs[i + 1] { }
      }
      RunPendingOnly(st', input, evs[1..]);
    }
  }

  /** Two callbacks in a row. */
  lemma {:induction false} RunPair(st: VisitorState, input: string, a: Event<HttpTag>, b: Event<HttpTag>, mid: VisitorState)
    requires SpanIn(a, input) && SpanIn(b, input) && Step(st, input, a) == Some(mid)
    ensures SpansIn([a, b], input) && Run(st, input, [a, b]) == Step(mid, input, b)
  {
    assert [a, b][1..] == [b];
    assert Run(st, input, [a, b]) == Run(mid, input, [b]);
    assert [b][1..] == [];
    match Step(mid, input, b)
    case None =>
    case Some(x) => assert Run(mid, input, [b]) == Run(x, input, []);
  }

  /** The version callbacks store the two digits. */
  lemma {:induction false} RunVersion(st: VisitorState, input: string, pos: nat)
    requires VersionAt(input, pos)
    ensures SpansIn(VersionEvents(pos), input)
    ensures Run(st, input, VersionEvents(pos))
            == Some(st.(major := DigitValue(input[pos + 5]), minor := DigitValue(input[pos + 7])))
  {
    var a := [Enter(TagMajor, pos + 5), Exit(TagMajor, pos + 5, pos + 6)];
    var b := [Enter(TagMinor, pos + 7), Exit(TagMinor, pos + 7, pos + 8)];
    var st1 := st.(major := DigitValue(input[pos + 5]));
    assert VersionEvents(pos) == a + b;
    RunSpan(st, input, TagMajor, pos + 5, pos + 6, st1);
    RunSpan(st1, input, TagMinor, pos + 7, pos + 8, st1.(minor := DigitValue(input[pos + 7])));
    RunAppend(st, input, a, b);
  }

  /** Emplacing header fields one after another, in order. */
  function EmplaceAll(headers: map<string, string>, fields: seq<(string, string)>): (r: map<string, string>)
    decreases |fields|
  {
    if fields == [] then headers else EmplaceAll(Emplace(headers, fields[0].0, fields[0].1), fields[1..])
  }

  /** After emplacing `fields`, a name is stored iff it was there before or some field carries it. */
  lemma {:induction false} EmplaceAllNames(headers: map<string, string>, fields: seq<(string, string)>, name: string)
    ensures name in EmplaceAll(headers, fields) <==> name in headers || exists i :: 0 <= i < |fields| && fields[i].0 == name
    decreases |fields|
  {
    if fields != [] {
      EmplaceAllNames(Emplace(headers, fields[0].0, fields[0].1), fields[1..], name);
      if exists i :: 0 <= i < |fields| && fields[i].0 == name {
        var i :| 0 <= i < |fields| && fields[i].0 == name;
        if i > 0 { assert fields[1..][i - 1].0 == name; }
      }
      if exists i :: 0 <= i < |fields[1..]| && fields[1..][i].0 == name {
        var i :| 0 <= i < |fields[1..]| && fields[1..][i].0 == name;
        assert fields[i + 1].0 == name;
      }
    }
  }

  /** Emplacing `fields` adds at most `|fields|` names. */
  lemma {:induction false} EmplaceAllSize(headers: map<string, string>, fields: seq<(string, string)>)
    ensures |EmplaceAll(headers, fields).Keys| <= |headers.Keys| + |fields|
    decreases |fields|
  {
    if fields != [] {
      var h := Emplace(headers, fields[0].0, fields[0].1);
      EmplaceAllSize(h, fields[1..]);
      if fields[0].0 !in headers {
        assert h.Keys == headers.Keys + {fields[0].0};
      }
    }
  }

  /** A name already present keeps its value whatever is emplaced later. */
  lemma {:induction false} EmplaceAllKeepsEarlier(headers: map<string, string>, fields: seq<(string, string)>, name: string)
    requires name in headers
    ensures name in EmplaceAll(headers, fields) && EmplaceAll(headers, fields)[name] == headers[name]
    decreases |fields|
  {
    if fields != [] {
      EmplaceAllKeepsEarlier(Emplace(headers, fields[0].0, fields[0].1), fields[1..], name);
    }
  }

  /**
   * Repeated names keep their first value: a new name gets the value of the
   * first field that carries it.
   */
  lemma {:induction false} EmplaceAllFirstWins(headers: map<string, string>, fields: seq<(string, string)>, i: nat)
    requires i < |fields| && fields[i].0 !in headers
    requires forall j :: 0 <= j < i ==> fields[j].0 != fields[i].0
    ensures fields[i].0 in EmplaceAll(headers, fields) && EmplaceAll(headers, fields)[fields[i].0] == fields[i].1
    decreases |fields|
  {
    var h := Emplace(headers, fields[0].0, fields[0].1);
    if i == 0 {
      EmplaceAllKeepsEarlier(h, fields[1..], fields[0].0);
    } else {
      assert fields[1..][i - 1] == fields[i];
      forall j | 0 <= j < i - 1 ensures fields[1..][j].0 != fields[i].0 {
        assert fields[1..][j] == fields[j + 1];
      }
      EmplaceAllFirstWins(h, fields[1..], i - 1);
    }
  }

  /**
   * Emplacing `fields` into an empty map: the names stored are those of
   * the fields, each with the value of the first field carrying it.
   */
  lemma {:induction false} EmplaceAllFresh(fields: seq<(string, string)>)
    ensures var headers := EmplaceAll(map[], fields);
            && |headers.Keys| <= |fields|
            && (forall name :: name in headers <==> exists i :: 0 <= i < |fields| && fields[i].0 == name)
            && (forall i :: 0 <= i < |fields| && (forall j :: 0 <= j < i ==> fields[j].0 != fields[i].0) ==>
                  fields[i].0 in headers && headers[fields[i].0] == fields[i].1)
  {
    var headers := EmplaceAll(map[], fields);
    EmplaceAllSize(map[], fields);
    forall name ensures name in headers <==> exists i :: 0 <= i < |fields| && fields[i].0 == name {
      EmplaceAllNames(map[], fields, name);
    }
    forall i | 0 <= i < |fields| && (forall j :: 0 <= j < i ==> fields[j].0 != fields[i].0)
      ensures fields[i].0 in headers && headers[fields[i].0] == fields[i].1
    {
      EmplaceAllFirstWins(map[], fields, i);
    }
  }

  lemma {:induction false} RunSpan(st: VisitorState, input: string, tag: HttpTag, b: nat, e: nat, after: VisitorState)
    requires b <= e <= |input| && tag !in {TagRequest, TagResponse} && Visit(st, tag, input, b, e) == Some(after)
    ensures SpansIn([Enter(tag, b), Exit(tag, b, e)], input)
    ensures Run(st, input, [Enter(tag, b), Exit(tag, b, e)]) == Some(after)
  {
    RunPair(st, input, Enter(tag, b), Exit(tag, b, e), st);
  }

  /** One callback. */
  lemma {:induction false} RunOne(st: VisitorState, input: string, ev: Event<HttpTag>)
    requires SpanIn(ev, input)
    ensures SpansIn([ev], input) && Run(st, input, [ev]) == Step(st, input, ev)
  {
    assert [ev][1..] == [];
    match Step(st, input, ev)
    case None =>
    case Some(x) => assert Run(st, input, [ev]) == Run(x, input, []);
  }

  /** A callback, then more. */
  lemma {:induction false} RunFirst(st: VisitorState, input: string, ev: Event<HttpTag>, rest: seq<Event<HttpTag>>, mid: VisitorState)
    requires SpanIn(ev, input) && SpansIn(rest, input) && Step(st, input, ev) == Some(mid)
    ensures SpansIn([ev] + rest, input) && Run(st, input, [ev] + rest) == Run(mid, input, rest)
  {
    RunOne(st, input, ev);
    RunAppend(st, input, [ev], rest);
  }

  /** The method and the target of a request line, stored into a `Request`. */
  lemma {:induction false} RunRequestHead(st: VisitorState, input: string, pos: nat, m: nat, t: nat)
    requires st.info.Request? && pos <= m < m + 1 <= t <= |input|
    ensures SpansIn(RequestHeadEvents(pos, m, t), input)
    ensures Run(st, input, RequestHeadEvents(pos, m, t)) == Some(st.(info := Request(input[pos..m], input[m + 1..t])))
  {
    var a := [Enter(TagMethod, pos), Exit(TagMethod, pos, m)];
    var b := [Enter(TagTarget, m + 1), Exit(TagTarget, m + 1, t)];
    var st1 := st.(info := st.info.(requestMethod := input[pos..m]));
    RunSpan(st, input, TagMethod, pos, m, st1);
    RunSpan(st1, input, TagTarget, m + 1, t, st.(info := Request(input[pos..m], input[m + 1..t])));
    RunAppend(st, input, a, b);
  }

  /** Method, target and version of a request line, once `info` holds a `Request`. */
  lemma {:induction false} RunRequestFields(st: VisitorState, input: string, pos: nat, m: nat, t: nat)
    requires st.info.Request? && pos <= m < m + 1 <= t && VersionAt(input, t + 1)
    ensures SpansIn(RequestHeadEvents(pos, m, t) + VersionEvents(t + 1), input)
    ensures Run(st, input, RequestHeadEvents(pos, m, t) + VersionEvents(t + 1))
            == Some(st.(info := Request(input[pos..m], input[m + 1..t]),
                        major := DigitValue(input[t + 6]), minor := DigitValue(input[t + 8])))
  {
    var st2 := st.(info := Request(input[pos..m], input[m + 1..t]));
    RunRequestHead(st, input, pos, m, t);
    RunVersion(st2, input, t + 1);
    RunAppend(st, input, RequestHeadEvents(pos, m, t), VersionEvents(t + 1));
  }

  /**
   * A matched request line leaves `info` holding its method and target, and
   * the version fields holding its digits; nothing else changes.
   */
  lemma {:induction false} RunRequestLine(st: VisitorState, input: string, pos: nat, m: nat, t: nat)
    requires pos <= m < m + 1 <= t && RequestTail(input, t + 1)
    ensures SpansIn(RequestEvents(pos, m, t), input)
    ensures Run(st, input, RequestEvents(pos, m, t))
            == Some(st.(info := Request(input[pos..m], input[m + 1..t]),
                        major := DigitValue(input[t + 6]), minor := DigitValue(input[t + 8])))
  {
    var e := [Enter(TagRequest, pos)];
    var f := RequestHeadEvents(pos, m, t) + VersionEvents(t + 1);
    var x := [Exit(TagRequest, pos, t + 11)];
    var st1 := st.(info := Request("", ""));
    var st3 := st.(info := Request(input[pos..m], input[m + 1..t]),
                   major := DigitValue(input[t + 6]), minor := DigitValue(input[t + 8]));
    RunOne(st, input, e[0]);
    RunRequestFields(st1, input, pos, m, t);
    RunOne(st3, input, x[0]);
    assert RequestEvents(pos, m, t) == e + f + x;
    RunAppend(st, input, e, f);
    RunAppend(st, input, e + f, x);
  }

  /** The status code and the reason phrase of a status line, stored into a `Response`. */
  lemma {:induction false} RunStatus(st: VisitorState, input: string, pos: nat, k: nat)
    requires st.info.Response? && pos + 13 <= k <= |input|
    ensures SpansIn([Enter(TagStatusCode, pos + 9), Exit(TagStatusCode, pos + 9, pos + 12)]
                    + [Enter(TagStatusMessage, pos + 13), Exit(TagStatusMessage, pos + 13, k)], input)
    ensures Run(st, input, [Enter(TagStatusCode, pos + 9), Exit(TagStatusCode, pos + 9, pos + 12)]
                           + [Enter(TagStatusMessage, pos + 13), Exit(TagStatusMessage, pos + 13, k)])
            == Some(st.(info := Response(input[pos + 9..pos + 12], input[pos + 13..k])))
  {
    var a := [Enter(TagStatusCode, pos + 9), Exit(TagStatusCode, pos + 9, pos + 12)];
    var b := [Enter(TagStatusMessage, pos + 13), Exit(TagStatusMessage, pos + 13, k)];
    var st1 := st.(info := st.info.(statusCode := input[pos + 9..pos + 12]));
    RunSpan(st, input, TagStatusCode, pos + 9, pos + 12, st1);
    RunSpan(st1, input, TagStatusMessage, pos + 13, k, st.(info := Response(input[pos + 9..pos + 12], input[pos + 13..k])));
    RunAppend(st, input, a, b);
  }

  /**
   * A matched status line leaves `info` holding its code and reason phrase,
   * and the version fields holding its digits; nothing else changes.
   */
  lemma {:induction false} RunResponseLine(st: VisitorState, input: string, pos: nat, k: nat)
    requires pos <= |input| && ResponseLineAt(input, pos) == Some(k)
    ensures SpansIn(ResponseEvents(pos, k), input)
    ensures Run(st, input, ResponseEvents(pos, k))
            == Some(st.(info := Response(input[pos + 9..pos + 12], input[pos + 13..k]),
                        major := DigitValue(input[pos + 5]), minor := DigitValue(input[pos + 7])))
  {
    var e := [Enter(TagResponse, pos)];
    var v := VersionEvents(pos);
    var c := [Enter(TagStatusCode, pos + 9), Exit(TagStatusCode, pos + 9, pos + 12)];
    var sm := [Enter(TagStatusMessage, pos + 13), Exit(TagStatusMessage, pos + 13, k)];
    var x := [Exit(TagResponse, pos, k + 2)];
    var st1 := st.(info := Response("", ""));
    var st2 := st1.(major := DigitValue(input[pos + 5]), minor := DigitValue(input[pos + 7]));
    var st3 := st2.(info := Response(input[pos + 9..pos + 12], input[pos + 13..k]));
    assert ResponseHeadAt(input, pos);
    RunOne(st, input, e[0]);
    RunVersion(st1, input, pos);
    RunStatus(st2, input, pos, k);
    RunOne(st3, input, x[0]);
    assert ResponseEvents(pos, k) == e + v + (c + sm) + x;
    RunAppend(st2, input, c, sm);
    RunAppend(st, input, e, v);
    RunAppend(st, input, e + v, c + sm);
    RunAppend(st, input, e + v + (c + sm), x);
  }

  /** The name and the value of a header field are kept pending. */
  lemma {:induction false} RunHeaderField(st: VisitorState, input: string, pos: nat, c: nat, s: nat, k: nat)
    requires pos <= c <= s <= k <= |input|
    ensures SpansIn(HeaderFieldEvents(pos, c, s, k), input)
    ensures Run(st, input, HeaderFieldEvents(pos, c, s, k))
            == Some(st.(pendingName := Some(input[pos..c]), pendingValue := Some(input[s..k])))
  {
    var st1 := st.(pendingName := Some(input[pos..c]));
    RunSpan(st, input, TagHeaderName, pos, c, st1);
    RunSpan(st1, input, TagHeaderValue, s, k, st1.(pendingValue := Some(input[s..k])));
    RunAppend(st, input, HeaderNameEvents(pos, c), [Enter(TagHeaderValue, s), Exit(TagHeaderValue, s, k)]);
  }

  /** A matched header field is emplaced under its name; the pending strings are moved from. */
  lemma {:induction false} RunHeader(st: VisitorState, input: string, pos: nat, c: nat, s: nat, k: nat)
    requires pos <= c <= s <= k && k + 2 <= |input|
    ensures SpansIn(HeaderEvents(pos, c, s, k), input)
    ensures Run(st, input, HeaderEvents(pos, c, s, k))
            == Some(st.(headers := Emplace(st.headers, input[pos..c], input[s..k]), pendingName := None, pendingValue := None))
  {
    var e := [Enter(TagHeader, pos)];
    var f := HeaderFieldEvents(pos, c, s, k);
    var x := [Exit(TagHeader, pos, k + 2)];
    var st2 := st.(pendingName := Some(input[pos..c]), pendingValue := Some(input[s..k]));
    RunOne(st, input, e[0]);
    RunHeaderField(st, input, pos, c, s, k);
    RunOne(st2, input, x[0]);
    RunAppend(st, input, e, f);
    RunAppend(st, input, e + f, x);
  }

  /** The body callback stores the rest of the input. */
  lemma {:induction false} RunBody(st: VisitorState, input: string, pos: nat)
    requires pos <= |input|
    ensures SpansIn([Enter(TagBody, pos), Exit(TagBody, pos, |input|)], input)
    ensures Run(st, input, [Enter(TagBody, pos), Exit(TagBody, pos, |input|)]) == Some(st.(body := input[pos..]))
  {
    RunPair(st, input, Enter(TagBody, pos), Exit(TagBody, pos, |input|), st);
    assert input[pos..|input|] == input[pos..];
  }

  // ---------------------------------------------------------------------
  // The visitor object
  // ---------------------------------------------------------------------

  /** `struct HttpVisitor`, whose callbacks update its members in place. */
  class HttpVisitor {
    var major: int
    var minor: int
    var info: Info
    var headers: map<string, string>
    var body: string
    var tmpHeaderName: Option<string>
    var tmpHeaderValue: Option<string>

    function State(): VisitorState
      reads this
    {
      VisitorState(major, minor, info, headers, body, tmpHeaderName, tmpHeaderValue)
    }

    /** A default-constructed visitor. */
    constructor()
      ensures State() == Initial()
    {
      major, minor := 0, 0;
      info := Request("", "");
      headers := map[];
      body := "";
      tmpHeaderName, tmpHeaderValue := Some(""), Some("");
    }

    /** The overloads of `match` for the request and the status line, before the pattern is tried. */
    method MatchHook(tag: HttpTag)
      modifies this
      ensures State() == Hook(old(State()), tag)
    {
      if tag == TagRequest {
        info := Request("", "");
      } else if tag == TagResponse {
        info := Response("", "");
      }
    }

    /**
     * `operator()` after a tagged pattern matched `input[b..e]`. It returns
     * `false` where `std::get` throws, and then nothing has been assigned.
     */
    method Call(tag: HttpTag, input: string, b: nat, e: nat) returns (ok: bool)
      requires b <= e <= |input|
      modifies this
      ensures ok <==> Visit(old(State()), tag, input, b, e).Some?
      ensures ok ==> State() == Visit(old(State()), tag, input, b, e).value
      ensures !ok ==> State() == old(State())
    {
      ok := true;
      match tag {
        case TagMajor =>
          if b < |input| {
            major := DigitValue(input[b]);
          }
        case TagMinor =>
          if b < |input| {
            minor := DigitValue(input[b]);
          }
        case TagMethod =>
          ok := info.Request?;
          if ok {
            info := info.(requestMethod := input[b..e]);
          }
        case TagTarget =>
          ok := info.Request?;
          if ok {
            info := info.(target := input[b..e]);
          }
        case TagStatusCode =>
          ok := info.Response?;
          if ok {
            info := info.(statusCode := input[b..e]);
          }
        case TagStatusMessage =>
          ok := info.Response?;
          if ok {
            info := info.(statusMessage := input[b..e]);
          }
        case TagHeaderName =>
          tmpHeaderName := Some(input[b..e]);
        case TagHeaderValue =>
          tmpHeaderValue := Some(input[b..e]);
        case TagHeader =>
          if tmpHeaderName.Some? && tmpHeaderValue.Some? {
            headers := Emplace(headers, tmpHeaderName.value, tmpHeaderValue.value);
          }
          tmpHeaderName, tmpHeaderValue := None, None;
        case TagBody =>
          body := input[b..e];
        case _ =>
      }
    }

    /**
     * Delivers the callbacks `evs` in order, stopping at the first that
     * throws: the visitor ends exactly as `Run` says.
     */
    method Replay(input: string, evs: seq<Event<HttpTag>>) returns (ok: bool)
      requires SpansIn(evs, input)
      modifies this
      ensures ok <==> Run(old(State()), input, evs).Some?
      ensures ok ==> State() == Run(old(State()), input, evs).value
    {
      var i := 0;
      ok := true;
      while i < |evs|
        invariant 0 <= i <= |evs| && SpansIn(evs[i..], input)
        invariant Run(old(State()), input, evs) == Run(State(), input, evs[i..])
      {
        assert evs[i..][0] == evs[i] && evs[i..][1..] == evs[i + 1..];
        match evs[i] {
          case Enter(tag, _) =>
            MatchHook(tag);
          case Exit(tag, b, e) =>
            assert SpanIn(evs[i..][0], input);
            ok := Call(tag, input, b, e);
            if !ok {
              return;
            }
        }
        i := i + 1;
      }
    }
  }
}
