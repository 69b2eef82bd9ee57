/**
 * The combinator core that the HTTP grammar is built from: patterns over a
 * sequence of characters, composed by sequence, ordered choice, bounded
 * greedy repetition and tagging. Matching is a function of the pattern, the
 * input and a start position; it returns the end cursor (or no match) and the
 * sequence of callbacks a visitor receives, in the order it receives them.
 */
module Patterns {
  import opened Wrappers
  import opened Scan

  /** A pattern; `T` is the type of tag identities. */
  datatype Pattern<T> =
    | Literal(text: string)                     // "..."_p
    | Element(test: char -> bool)               // predicate_elem
    | AnyOf(chars: string)                      // any_of
    | Until(stop: Pattern<T>)                   // until{ stop }
    | RestOfInput                               // predicate returning the end of input
    | Then(first: Pattern<T>, second: Pattern<T>)  // a + b
    | Or(left: Pattern<T>, right: Pattern<T>)      // a | b
    | Repeat(item: Pattern<T>, min: nat, max: nat) // p.repeat(min, max), p[n]
    | Tagged(inner: Pattern<T>, tag: T)         // p.tag<T>()

  /**
   * A callback as the visitor sees it: `Enter` is the pre-match hook of a
   * tagged pattern, `Exit` the visitor call with the matched span.
   */
  datatype Event<T> = Enter(tag: T, at: nat) | Exit(tag: T, begin: nat, end: nat)

  datatype Outcome<T> = Outcome(cursor: Option<nat>, events: seq<Event<T>>)

  /** Matches `p` against `input` starting at `pos`. */
  function Match<T>(p: Pattern<T>, input: string, pos: nat): (r: Outcome<T>)
    requires pos <= |input|
    ensures r.cursor.Some? ==> pos <= r.cursor.value <= |input|
    decreases p, 0, |input| - pos
  {
    match p
    case Literal(text) =>
      Outcome(if pos + |text| <= |input| && input[pos..pos + |text|] == text then Some(pos + |text|) else None, [])
    case Element(test) =>
      Outcome(if pos < |input| && test(input[pos]) then Some(pos + 1) else None, [])
    case AnyOf(chars) =>
      Outcome(if pos < |input| && input[pos] in chars then Some(pos + 1) else None, [])
    case Until(stop) =>
      ScanUntil(stop, input, pos)
    case RestOfInput =>
      Outcome(Some(|input|), [])
    case Then(a, b) =>
      var ra := Match(a, input, pos);
      if ra.cursor.None? then ra
      else
        var rb := Match(b, input, ra.cursor.value);
        Outcome(rb.cursor, ra.events + rb.events)
    case Or(a, b) =>
      var ra := Match(a, input, pos);
      if ra.cursor.Some? then ra
      else
        var rb := Match(b, input, pos);
        Outcome(rb.cursor, ra.events + rb.events)
    case Repeat(item, min, max) =>
      RepeatFrom(item, input, pos, min, max)
    case Tagged(inner, tag) =>
      var ri := Match(inner, input, pos);
      Outcome(ri.cursor, [Enter(tag, pos)] + ri.events
                         + if ri.cursor.Some? then [Exit(tag, pos, ri.cursor.value)] else [])
  }

  /** `until`: tries `stop` at `at`, `at + 1`, ... up to the end of input; the first hit ends the match. */
  function ScanUntil<T>(stop: Pattern<T>, input: string, at: nat): (r: Outcome<T>)
    requires at <= |input|
    ensures r.cursor.Some? ==> at <= r.cursor.value <= |input|
    decreases stop, 1, |input| - at
  {
    var rs := Match(stop, input, at);
    if rs.cursor.Some? then Outcome(Some(at), rs.events)
    else if at == |input| then Outcome(None, rs.events)
    else
      var rest := ScanUntil(stop, input, at + 1);
      Outcome(rest.cursor, rs.events + rest.events)
  }

  /** Greedy repetition: at most `max` more matches of `item`, of which at least `min` are needed. */
  function RepeatFrom<T>(item: Pattern<T>, input: string, pos: nat, min: nat, max: nat): (r: Outcome<T>)
    requires pos <= |input|
    ensures r.cursor.Some? ==> pos <= r.cursor.value <= |input|
    decreases item, 1, max, |input| - pos
  {
    if max == 0 then Outcome(if min == 0 then Some(pos) else None, [])
    else
      var ri := Match(item, input, pos);
      if ri.cursor.None? then Outcome(if min == 0 then Some(pos) else None, ri.events)
      else
        var rest := RepeatFrom(item, input, ri.cursor.value, if min == 0 then 0 else min - 1, max - 1);
        Outcome(rest.cursor, ri.events + rest.events)
  }

  // ---------------------------------------------------------------------
  // Until: the shortest prefix before `stop` matches
  // ---------------------------------------------------------------------

  /**
   * `Until(stop)` ends at the first position, from `pos` on, where `stop`
   * matches; it fails exactly when `stop` matches nowhere from `pos` to the
   * end of input.
   */
  lemma {:induction false} UntilIsShortestPrefix<T>(stop: Pattern<T>, input: string, pos: nat)
    requires pos <= |input|
    ensures var r := Match(Until(stop), input, pos).cursor;
            && (r.Some? ==> && Match(stop, input, r.value).cursor.Some?
                            && forall k :: pos <= k < r.value ==> Match(stop, input, k).cursor.None?)
            && (r.None? ==> forall k :: pos <= k <= |input| ==> Match(stop, input, k).cursor.None?)
  {
    ScanUntilFirst(stop, input, pos);
  }

  lemma {:induction false} ScanUntilFirst<T>(stop: Pattern<T>, input: string, at: nat)
    requires at <= |input|
    ensures var r := ScanUntil(stop, input, at).cursor;
            && (r.Some? ==> && Match(stop, input, r.value).cursor.Some?
                            && forall k :: at <= k < r.value ==> Match(stop, input, k).cursor.None?)
            && (r.None? ==> forall k :: at <= k <= |input| ==> Match(stop, input, k).cursor.None?)
    decreases |input| - at
  {
    if Match(stop, input, at).cursor.None? && at < |input| {
      ScanUntilFirst(stop, input, at + 1);
    }
  }

  // ---------------------------------------------------------------------
  // Repeat: greedy, bounded, never retries a smaller count
  // ---------------------------------------------------------------------

  /** The cursor after `n` consecutive matches of `item` from `pos`, if all `n` succeed. */
  function Iterate<T>(item: Pattern<T>, input: string, pos: nat, n: nat): (r: Option<nat>)
    requires pos <= |input|
    ensures r.Some? ==> pos <= r.value <= |input|
    decreases n
  {
    if n == 0 then Some(pos)
    else match Match(item, input, pos).cursor
      case None => None
      case Some(q) => Iterate(item, input, q, n - 1)
  }

  /**
   * `Repeat(item, min, max)` succeeds exactly when `min <= max` and `min`
   * consecutive matches of `item` succeed; it then ends after some count `n`
   * between `min` and `max` at which it stopped because `max` was reached or
   * the next match failed (it never settles for fewer).
   */
  lemma {:induction false} RepeatIsGreedy<T>(item: Pattern<T>, input: string, pos: nat, min: nat, max: nat)
    requires pos <= |input|
    ensures var r := Match(Repeat(item, min, max), input, pos).cursor;
            && (r.Some? <==> min <= max && Iterate(item, input, pos, min).Some?)
            && (r.Some? ==> exists n :: && min <= n <= max && Iterate(item, input, pos, n) == r
                                        && (n < max ==> Match(item, input, r.value).cursor.None?))
  {
    RepeatFromGreedy(item, input, pos, min, max);
  }

  lemma {:induction false} RepeatFromGreedy<T>(item: Pattern<T>, input: string, pos: nat, min: nat, max: nat)
    requires pos <= |input|
    ensures var r := RepeatFrom(item, input, pos, min, max).cursor;
            && (r.Some? <==> min <= max && Iterate(item, input, pos, min).Some?)
            && (r.Some? ==> exists n :: && min <= n <= max && Iterate(item, input, pos, n) == r
                                        && (n < max ==> Match(item, input, r.value).cursor.None?))
    decreases max
  {
    var r := RepeatFrom(item, input, pos, min, max).cursor;
    if max == 0 {
      if r.Some? {
        assert Iterate(item, input, pos, 0) == r;
      }
    } else {
      var ri := Match(item, input, pos);
      if ri.cursor.None? {
        if r.Some? {
          assert Iterate(item, input, pos, 0) == r;
        }
      } else {
        var q := ri.cursor.value;
        var min' := if min == 0 then 0 else min - 1;
        RepeatFromGreedy(item, input, q, min', max - 1);
        assert r == RepeatFrom(item, input, q, min', max - 1).cursor;
        if min > 0 {
          assert Iterate(item, input, pos, min) == Iterate(item, input, q, min');
        }
        if r.Some? {
          var n' :| && min' <= n' <= max - 1 && Iterate(item, input, q, n') == r
                    && (n' < max - 1 ==> Match(item, input, r.value).cursor.None?);
          assert Iterate(item, input, pos, n' + 1) == r;
        }
      }
    }
  }

  // ---------------------------------------------------------------------
  // Callbacks: which tags and which positions a match can report
  // ---------------------------------------------------------------------

  /** The tags that occur in a pattern. */
  ghost function Tags<T>(p: Pattern<T>): set<T>
  {
    match p
    case Literal(_) => {}
    case Element(_) => {}
    case AnyOf(_) => {}
    case Until(stop) => Tags(stop)
    case RestOfInput => {}
    case Then(a, b) => Tags(a) + Tags(b)
    case Or(a, b) => Tags(a) + Tags(b)
    case Repeat(item, _, _) => Tags(item)
    case Tagged(inner, tag) => Tags(inner) + {tag}
  }

  /** An event names a tag from `tags` and positions between `lo` and `hi`. */
  ghost predicate Fits<T>(ev: Event<T>, tags: set<T>, lo: nat, hi: nat)
  {
    && ev.tag in tags
    && match ev
       case Enter(_, at) => lo <= at <= hi
       case Exit(_, b, e) => lo <= b <= e <= hi
  }

  ghost predicate AllFit<T>(evs: seq<Event<T>>, tags: set<T>, lo: nat, hi: nat)
  {
    forall i :: 0 <= i < |evs| ==> Fits(evs[i], tags, lo, hi)
  }

  /**
   * Every callback of a match, including those of attempts that later failed,
   * names a tag of the pattern and a span inside the input from `pos` on.
   */
  lemma {:induction false} EventsFit<T>(p: Pattern<T>, input: string, pos: nat)
    requires pos <= |input|
    ensures AllFit(Match(p, input, pos).events, Tags(p), pos, |input|)
    decreases p, 0
  {
    match p
    case Literal(_) =>
    case Element(_) =>
    case AnyOf(_) =>
    case Until(stop) => ScanUntilEventsFit(stop, input, pos);
    case RestOfInput =>
    case Then(a, b) =>
      EventsFit(a, input, pos);
      var ra := Match(a, input, pos);
      if ra.cursor.Some? {
        EventsFit(b, input, ra.cursor.value);
      }
    case Or(a, b) =>
      EventsFit(a, input, pos);
      EventsFit(b, input, pos);
    case Repeat(item, min, max) => RepeatFromEventsFit(item, input, pos, min, max);
    case Tagged(inner, tag) =>
      EventsFit(inner, input, pos);
  }

  lemma {:induction false} ScanUntilEventsFit<T>(stop: Pattern<T>, input: string, at: nat)
    requires at <= |input|
    ensures AllFit(ScanUntil(stop, input, at).events, Tags(stop), at, |input|)
    decreases stop, 1, |input| - at
  {
    EventsFit(stop, input, at);
    if Match(stop, input, at).cursor.None? && at < |input| {
      ScanUntilEventsFit(stop, input, at + 1);
    }
  }

  lemma {:induction false} RepeatFromEventsFit<T>(item: Pattern<T>, input: string, pos: nat, min: nat, max: nat)
    requires pos <= |input|
    ensures AllFit(RepeatFrom(item, input, pos, min, max).events, Tags(item), pos, |input|)
    decreases item, 1, max
  {
    if max > 0 {
      EventsFit(item, input, pos);
      var ri := Match(item, input, pos);
      if ri.cursor.Some? {
        RepeatFromEventsFit(item, input, ri.cursor.value, if min == 0 then 0 else min - 1, max - 1);
      }
    }
  }

  // ---------------------------------------------------------------------
  // Callbacks: a tag's hook comes first, its children next, its call last
  // ---------------------------------------------------------------------

  /** The position a callback starts at. */
  function StartOf<T>(ev: Event<T>): nat
  {
    match ev
    case Enter(_, at) => at
    case Exit(_, b, _) => b
  }

  /** Some hook strictly between `lo` and `k` belongs to the call at `k`. */
  ghost predicate HookBetween<T>(evs: seq<Event<T>>, lo: nat, k: nat)
    requires k < |evs| && evs[k].Exit?
  {
    exists i :: lo < i < k && evs[i] == Enter(evs[k].tag, evs[k].begin)
  }

  /**
   * The call at `j` belongs to the hook at `i`: same tag, same start. Every
   * callback between the two starts at or after that start, and every call
   * between them has its own hook between them too, so the callbacks of the
   * children are enclosed by their parent's hook and call.
   */
  ghost predicate Encloses<T>(evs: seq<Event<T>>, i: nat, j: nat)
    requires i < j < |evs| && evs[j].Exit?
  {
    && evs[i] == Enter(evs[j].tag, evs[j].begin)
    && (forall k :: i < k < j ==> evs[j].begin <= StartOf(evs[k]))
    && (forall k :: i < k < j && evs[k].Exit? ==> HookBetween(evs, i, k))
  }

  /** The call at `j` comes after a hook that encloses it. */
  ghost predicate CallAfterHook<T>(evs: seq<Event<T>>, j: nat)
    requires j < |evs| && evs[j].Exit?
  {
    exists i :: 0 <= i < j && Encloses(evs, i, j)
  }

  /** Every call in `evs` comes after a hook that encloses it. */
  ghost predicate HooksFirst<T>(evs: seq<Event<T>>)
  {
    forall j :: 0 <= j < |evs| && evs[j].Exit? ==> CallAfterHook(evs, j)
  }

  /** A parent whose call comes before its child's call is not enclosing: calls may not cross. */
  lemma {:induction false} CrossedCallsRejected<T>(parent: T, child: T)
    requires parent != child
    ensures !HooksFirst([Enter(parent, 0), Enter(child, 0), Exit(parent, 0, 2), Exit(child, 0, 1)])
  {
    var evs := [Enter(parent, 0), Enter(child, 0), Exit(parent, 0, 2), Exit(child, 0, 1)];
    assert evs[3] == Exit(child, 0, 1);
    forall i | 0 <= i < 3 ensures !Encloses(evs, i, 3) {
      if i == 1 {
        assert evs[2].Exit? && !HookBetween(evs, 1, 2);
      } else {
        assert evs[i] != Enter(child, 0);
      }
    }
    assert !CallAfterHook(evs, 3);
  }

  /**
   * In the callbacks of any match, failed attempts included, each visitor
   * call comes after the hook of the same tagged pattern at the same start,
   * and the calls in between are enclosed by hooks in between: children
   * report before their parent.
   */
  lemma {:induction false} HooksBeforeCalls<T>(p: Pattern<T>, input: string, pos: nat)
    requires pos <= |input|
    ensures HooksFirst(Match(p, input, pos).events)
    decreases p, 0
  {
    match p
    case Literal(_) =>
    case Element(_) =>
    case AnyOf(_) =>
    case Until(stop) => ScanUntilHooksFirst(stop, input, pos);
    case RestOfInput =>
    case Then(a, b) =>
      HooksBeforeCalls(a, input, pos);
      var ra := Match(a, input, pos);
      if ra.cursor.Some? {
        HooksBeforeCalls(b, input, ra.cursor.value);
        HooksFirstAppend(ra.events, Match(b, input, ra.cursor.value).events);
      }
    case Or(a, b) =>
      HooksBeforeCalls(a, input, pos);
      if Match(a, input, pos).cursor.None? {
        HooksBeforeCalls(b, input, pos);
        HooksFirstAppend(Match(a, input, pos).events, Match(b, input, pos).events);
      }
    case Repeat(item, min, max) => RepeatFromHooksFirst(item, input, pos, min, max);
    case Tagged(inner, tag) =>
      var ri := Match(inner, input, pos);
      HooksBeforeCalls(inner, input, pos);
      EventsFit(inner, input, pos);
      if ri.cursor.Some? {
        HooksFirstClose(ri.events, Tags(inner), tag, pos, ri.cursor.value, |input|);
      } else {
        HooksFirstAppend([Enter(tag, pos)], ri.events);
        assert [Enter(tag, pos)] + ri.events + [] == [Enter(tag, pos)] + ri.events;
      }
  }

  lemma {:induction false} ScanUntilHooksFirst<T>(stop: Pattern<T>, input: string, at: nat)
    requires at <= |input|
    ensures HooksFirst(ScanUntil(stop, input, at).events)
    decreases stop, 1, |input| - at
  {
    HooksBeforeCalls(stop, input, at);
    if Match(stop, input, at).cursor.None? && at < |input| {
      ScanUntilHooksFirst(stop, input, at + 1);
      HooksFirstAppend(Match(stop, input, at).events, ScanUntil(stop, input, at + 1).events);
    }
  }

  lemma {:induction false} RepeatFromHooksFirst<T>(item: Pattern<T>, input: string, pos: nat, min: nat, max: nat)
    requires pos <= |input|
    ensures HooksFirst(RepeatFrom(item, input, pos, min, max).events)
    decreases item, 1, max
  {
    if max > 0 {
      HooksBeforeCalls(item, input, pos);
      var ri := Match(item, input, pos);
      if ri.cursor.Some? {
        var min' := if min == 0 then 0 else min - 1;
        RepeatFromHooksFirst(item, input, ri.cursor.value, min', max - 1);
        HooksFirstAppend(ri.events, RepeatFrom(item, input, ri.cursor.value, min', max - 1).events);
      }
    }
  }

  lemma {:induction false} HooksFirstAppend<T>(a: seq<Event<T>>, b: seq<Event<T>>)
    requires HooksFirst(a) && HooksFirst(b)
    ensures HooksFirst(a + b)
  {
    forall j | 0 <= j < |a + b| && (a + b)[j].Exit?
      ensures CallAfterHook(a + b, j)
    {
      if j < |a| {
        assert a[j] == (a + b)[j] && CallAfterHook(a, j);
        var i :| 0 <= i < j && Encloses(a, i, j);
        EnclosesLeft(a, b, i, j);
      } else {
        assert b[j - |a|] == (a + b)[j] && CallAfterHook(b, j - |a|);
        var i :| 0 <= i < j - |a| && Encloses(b, i, j - |a|);
        EnclosesRight(a, b, i, j - |a|);
      }
    }
  }

  /** Enclosure within `a` survives appending `b`. */
  lemma {:induction false} EnclosesLeft<T>(a: seq<Event<T>>, b: seq<Event<T>>, i: nat, j: nat)
    requires i < j < |a| && a[j].Exit? && Encloses(a, i, j)
    ensures Encloses(a + b, i, j)
  {
    var c := a + b;
    assert c[i] == a[i] && c[j] == a[j];
    forall k | i < k < j ensures c[j].begin <= StartOf(c[k]) && (c[k].Exit? ==> HookBetween(c, i, k)) {
      assert c[k] == a[k];
      if c[k].Exit? {
        var i' :| i < i' < k && a[i'] == Enter(a[k].tag, a[k].begin);
        assert c[i'] == a[i'];
      }
    }
  }

  /** Enclosure within `b` survives prepending `a`, shifted by `|a|`. */
  lemma {:induction false} EnclosesRight<T>(a: seq<Event<T>>, b: seq<Event<T>>, i: nat, j: nat)
    requires i < j < |b| && b[j].Exit? && Encloses(b, i, j)
    ensures Encloses(a + b, |a| + i, |a| + j)
  {
    var c := a + b;
    assert c[|a| + i] == b[i] && c[|a| + j] == b[j];
    forall k | |a| + i < k < |a| + j
      ensures c[|a| + j].begin <= StartOf(c[k]) && (c[k].Exit? ==> HookBetween(c, |a| + i, k))
    {
      assert c[k] == b[k - |a|];
      if c[k].Exit? {
        var i' :| i < i' < k - |a| && b[i'] == Enter(b[k - |a|].tag, b[k - |a|].begin);
        assert c[|a| + i'] == b[i'];
      }
    }
  }

  /** Closing a tagged match: its call comes last and encloses its hook and its children's callbacks. */
  lemma {:induction false} HooksFirstClose<T>(inner: seq<Event<T>>, tags: set<T>, tag: T, pos: nat, e: nat, hi: nat)
    requires HooksFirst(inner) && AllFit(inner, tags, pos, hi)
    ensures HooksFirst([Enter(tag, pos)] + inner + [Exit(tag, pos, e)])
  {
    var a := [Enter(tag, pos)] + inner;
    var c := a + [Exit(tag, pos, e)];
    HooksFirstAppend([Enter(tag, pos)], inner);
    forall j | 0 <= j < |c| && c[j].Exit?
      ensures CallAfterHook(c, j)
    {
      if j < |a| {
        assert a[j] == c[j] && CallAfterHook(a, j);
        var i :| 0 <= i < j && Encloses(a, i, j);
        EnclosesLeft(a, [Exit(tag, pos, e)], i, j);
      } else {
        assert c[0] == Enter(tag, pos) && c[j] == Exit(tag, pos, e);
        forall k | 0 < k < j ensures c[j].begin <= StartOf(c[k]) && (c[k].Exit? ==> HookBetween(c, 0, k)) {
          assert c[k] == inner[k - 1];
          assert Fits(inner[k - 1], tags, pos, hi);
          if c[k].Exit? {
            assert CallAfterHook(inner, k - 1);
            var i0 :| 0 <= i0 < k - 1 && Encloses(inner, i0, k - 1);
            assert c[i0 + 1] == inner[i0];
          }
        }
        assert Encloses(c, 0, j);
      }
    }
  }

  // ---------------------------------------------------------------------
  // Literals and single-character patterns
  // ---------------------------------------------------------------------

  /** `p` matches exactly one character satisfying `test`, and reports nothing, at every position from `pos` on. */
  ghost predicate OneCharFrom<T>(p: Pattern<T>, test: char -> bool, input: string, pos: nat)
  {
    forall q :: pos <= q <= |input| ==>
      Match(p, input, q) == Outcome(if q < |input| && test(input[q]) then Some(q + 1) else None, [])
  }

  /** A single-character pattern consumes the character at `q` when it passes `test`. */
  lemma {:induction false} OneCharAt<T>(p: Pattern<T>, test: char -> bool, input: string, q: nat, e: nat)
    requires OneCharFrom(p, test, input, q) && q < |input| && test(input[q]) && e == q + 1
    ensures Match(p, input, q) == Outcome(Some(e), [])
  {
    assert Match(p, input, q) == Outcome(Some(q + 1), []);
  }

  /**
   * Bounded greedy repetition of a single-character pattern takes the run of
   * matching characters, cut off at `max`, and succeeds iff that run is at
   * least `min` long.
   */
  lemma {:induction false} RepeatOneChar<T>(p: Pattern<T>, test: char -> bool, input: string, pos: nat, min: nat, max: nat, e: nat)
    requires pos <= |input| && e == pos + RunLength(input, pos, max, test)
    requires OneCharFrom(p, test, input, pos)
    ensures Match(Repeat(p, min, max), input, pos) == Outcome(if pos + min <= e then Some(e) else None, [])
  {
    RepeatFromOneChar(p, test, input, pos, min, max);
    var r := RepeatFrom(p, input, pos, min, max);
    if pos + min <= e {
      assert r.cursor.value == e;
    }
  }

  lemma {:induction false} RepeatFromOneChar<T>(p: Pattern<T>, test: char -> bool, input: string, pos: nat,
                                                min: nat, max: nat)
    requires pos <= |input|
    requires OneCharFrom(p, test, input, pos)
    ensures var n := RunLength(input, pos, max, test);
            var r := RepeatFrom(p, input, pos, min, max);
            && r.events == [] && (r.cursor.Some? <==> min <= n)
            && (r.cursor.Some? ==> r.cursor.value == pos + n)
    decreases max
  {
    var n := RunLength(input, pos, max, test);
    if max == 0 {
    } else if pos < |input| && test(input[pos]) {
      var min' := if min == 0 then 0 else min - 1;
      OneCharAt(p, test, input, pos, pos + 1);
      RepeatFromStep(p, input, pos, pos + 1, min, max);
      RepeatFromOneChar(p, test, input, pos + 1, min', max - 1);
      assert n == 1 + RunLength(input, pos + 1, max - 1, test);
    } else {
      assert Match(p, input, pos) == Outcome(None, []);
      assert n == 0;
    }
  }

  /** An item that matches without callbacks hands the rest of the repetition on to the position after it. */
  lemma {:induction false} RepeatFromStep<T>(item: Pattern<T>, input: string, pos: nat, m: nat, min: nat, max: nat)
    requires pos <= m <= |input| && max > 0 && Match(item, input, pos) == Outcome(Some(m), [])
    ensures RepeatFrom(item, input, pos, min, max) == RepeatFrom(item, input, m, if min == 0 then 0 else min - 1, max - 1)
  {
    var rest := RepeatFrom(item, input, m, if min == 0 then 0 else min - 1, max - 1);
    assert RepeatFrom(item, input, pos, min, max) == Outcome(rest.cursor, [] + rest.events);
    assert [] + rest.events == rest.events;
  }

  /** `Until(Literal(s))` ends at the first occurrence of `s` from `pos` on, and reports nothing. */
  lemma {:induction false} UntilLiteral<T>(s: string, input: string, pos: nat)
    requires pos <= |input|
    ensures Match(Pattern<T>.Until(Literal(s)), input, pos) == Outcome(FindFrom(input, pos, s), [])
  {
    ScanUntilLiteral<T>(s, input, pos);
  }

  lemma {:induction false} ScanUntilLiteral<T>(s: string, input: string, at: nat)
    requires at <= |input|
    ensures ScanUntil(Pattern<T>.Literal(s), input, at) == Outcome(FindFrom(input, at, s), [])
    decreases |input| - at
  {
    if !LitAt(input, at, s) && at < |input| {
      ScanUntilLiteral<T>(s, input, at + 1);
    }
  }

  // ---------------------------------------------------------------------
  // One step of a sequence or a tag, for proofs about larger patterns
  // ---------------------------------------------------------------------

  lemma {:induction false} ThenBoth<T>(a: Pattern<T>, b: Pattern<T>, input: string, pos: nat, m: nat, e: nat,
                    ea: seq<Event<T>>, eb: seq<Event<T>>)
    requires pos <= |input| && m <= |input|
    requires Match(a, input, pos) == Outcome(Some(m), ea) && Match(b, input, m) == Outcome(Some(e), eb)
    ensures Match(Then(a, b), input, pos) == Outcome(Some(e), ea + eb)
  {
  }

  lemma {:induction false} ThenFirstFails<T>(a: Pattern<T>, b: Pattern<T>, input: string, pos: nat)
    requires pos <= |input| && Match(a, input, pos).cursor.None?
    ensures Match(Then(a, b), input, pos).cursor.None?
  {
  }

  lemma {:induction false} ThenSecondFails<T>(a: Pattern<T>, b: Pattern<T>, input: string, pos: nat, m: nat)
    requires pos <= |input| && m <= |input|
    requires Match(a, input, pos).cursor == Some(m) && Match(b, input, m).cursor.None?
    ensures Match(Then(a, b), input, pos).cursor.None?
  {
  }

  lemma {:induction false} TaggedMatched<T>(inner: Pattern<T>, tag: T, input: string, pos: nat, e: nat, ei: seq<Event<T>>)
    requires pos <= |input| && Match(inner, input, pos) == Outcome(Some(e), ei)
    ensures Match(Tagged(inner, tag), input, pos) == Outcome(Some(e), [Enter(tag, pos)] + ei + [Exit(tag, pos, e)])
  {
  }

  lemma {:induction false} TaggedFails<T>(inner: Pattern<T>, tag: T, input: string, pos: nat)
    requires pos <= |input| && Match(inner, input, pos).cursor.None?
    ensures Match(Tagged(inner, tag), input, pos).cursor.None?
  {
  }

  lemma {:induction false} LiteralAt<T>(s: string, input: string, pos: nat, e: nat)
    requires LitAt(input, pos, s) && e == pos + |s|
    ensures Match(Pattern<T>.Literal(s), input, pos) == Outcome(Some(e), [])
  {
  }

  lemma {:induction false} LiteralNotAt<T>(s: string, input: string, pos: nat)
    requires pos <= |input| && !LitAt(input, pos, s)
    ensures Match(Pattern<T>.Literal(s), input, pos).cursor.None?
  {
  }

  /** A matched pattern followed by a literal that is there: the events are the pattern's alone. */
  lemma {:induction false} ThenLiteral<T>(a: Pattern<T>, s: string, input: string, pos: nat, m: nat, e: nat, ea: seq<Event<T>>)
    requires pos <= |input| && Match(a, input, pos) == Outcome(Some(m), ea) && LitAt(input, m, s) && e == m + |s|
    ensures Match(Then(a, Literal(s)), input, pos) == Outcome(Some(e), ea)
  {
    LiteralAt<T>(s, input, m, e);
    ThenBoth(a, Literal(s), input, pos, m, e, ea, []);
    assert ea + [] == ea;
  }

  lemma {:induction false} ThenNoLiteral<T>(a: Pattern<T>, s: string, input: string, pos: nat, m: nat)
    requires pos <= |input| && Match(a, input, pos).cursor == Some(m) && !LitAt(input, m, s)
    ensures Match(Then(a, Literal(s)), input, pos).cursor.None?
  {
    LiteralNotAt<T>(s, input, m);
    ThenSecondFails(a, Literal(s), input, pos, m);
  }

  /** A tagged pattern that reports nothing itself reports exactly its own span. */
  lemma {:induction false} TaggedLeaf<T>(inner: Pattern<T>, tag: T, input: string, pos: nat, e: nat)
    requires pos <= |input| && Match(inner, input, pos) == Outcome(Some(e), [])
    ensures Match(Tagged(inner, tag), input, pos) == Outcome(Some(e), [Enter(tag, pos), Exit(tag, pos, e)])
  {
    TaggedMatched(inner, tag, input, pos, e, []);
    assert [Enter(tag, pos)] + [] + [Exit(tag, pos, e)] == [Enter(tag, pos), Exit(tag, pos, e)];
  }

  /** A tagged `Until(Literal(s))` spans the text up to the first `s`, at `k`. */
  lemma {:induction false} TaggedUntilFound<T>(s: string, tag: T, input: string, pos: nat, k: nat)
    requires pos <= |input| && FindFrom(input, pos, s) == Some(k)
    ensures Match(Tagged(Until(Literal(s)), tag), input, pos) == Outcome(Some(k), [Enter(tag, pos), Exit(tag, pos, k)])
  {
    UntilLiteral<T>(s, input, pos);
    TaggedLeaf(Until(Literal(s)), tag, input, pos, k);
  }

  /** Without an `s` from `pos` on, a tagged `Until(Literal(s))` fails. */
  lemma {:induction false} TaggedUntilMissing<T>(s: string, tag: T, input: string, pos: nat)
    requires pos <= |input| && FindFrom(input, pos, s).None?
    ensures Match(Tagged(Until(Literal(s)), tag), input, pos).cursor.None?
  {
    UntilLiteral<T>(s, input, pos);
    TaggedFails(Pattern<T>.Until(Literal(s)), tag, input, pos);
  }

  /** Ordered choice commits to the first alternative once it matches. */
  lemma {:induction false} OrFirst<T>(a: Pattern<T>, b: Pattern<T>, input: string, pos: nat)
    requires pos <= |input| && Match(a, input, pos).cursor.Some?
    ensures Match(Or(a, b), input, pos) == Match(a, input, pos)
  {
  }

  /** When the first alternative fails the second is tried; the first one's callbacks stay. */
  lemma {:induction false} OrSecond<T>(a: Pattern<T>, b: Pattern<T>, input: string, pos: nat)
    requires pos <= |input| && Match(a, input, pos).cursor.None?
    ensures Match(Or(a, b), input, pos)
            == Outcome(Match(b, input, pos).cursor, Match(a, input, pos).events + Match(b, input, pos).events)
  {
  }

  /** A sequence whose first part fails is that failure, callbacks included. */
  lemma {:induction false} ThenStops<T>(a: Pattern<T>, b: Pattern<T>, input: string, pos: nat)
    requires pos <= |input| && Match(a, input, pos).cursor.None?
    ensures Match(Then(a, b), input, pos) == Match(a, input, pos)
  {
  }

  /** A sequence whose first part matches up to `m` goes on from `m`. */
  lemma {:induction false} ThenGoesOn<T>(a: Pattern<T>, b: Pattern<T>, input: string, pos: nat, m: nat)
    requires pos <= |input| && Match(a, input, pos).cursor == Some(m)
    ensures Match(Then(a, b), input, pos)
            == Outcome(Match(b, input, m).cursor, Match(a, input, pos).events + Match(b, input, m).events)
  {
  }

  /** A failed tagged pattern reports its pre-match hook and its inner attempt, and no span. */
  lemma {:induction false} TaggedFailsEvents<T>(inner: Pattern<T>, tag: T, input: string, pos: nat)
    requires pos <= |input| && Match(inner, input, pos).cursor.None?
    ensures Match(Tagged(inner, tag), input, pos) == Outcome(None, [Enter(tag, pos)] + Match(inner, input, pos).events)
  {
    assert [Enter(tag, pos)] + Match(inner, input, pos).events + [] == [Enter(tag, pos)] + Match(inner, input, pos).events;
  }
}
