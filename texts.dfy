/**
 * Messages written out from their parts: a request line or a status line,
 * header fields and a body, as text. Reading such text back reports the
 * parts that were written, which is what the example relies on for
 * well-formed messages.
 *
 * Only the `...Parts` lemmas look at a written line as a whole; the others
 * work from where each part of it lies.
 */
module Texts {
  import opened Wrappers
  import opened Scan
  import opened HttpGrammar
  import opened Visitor
  import opened Message

  // ---------------------------------------------------------------------
  // Header fields
  // ---------------------------------------------------------------------

  /** `n` spaces. */
  function Blanks(n: nat): (r: string)
    ensures |r| == n
  {
    if n == 0 then "" else " " + Blanks(n - 1)
  }

  /** Every character of `Blanks(n)` is a space. */
  lemma {:induction false} BlanksSpaces(n: nat)
    ensures forall i :: 0 <= i < n ==> Blanks(n)[i] == ' '
  {
    if n > 0 {
      BlanksSpaces(n - 1);
      assert forall i :: 1 <= i < n ==> Blanks(n)[i] == Blanks(n - 1)[i - 1];
    }
  }

  /** A header field as written: its name, the spaces after the colon, and its value. */
  datatype FieldText = FieldText(name: string, spaces: nat, value: string)

  /**
   * A field that reads back as written: the name has no colon, the value
   * no CR, and the spaces after the colon are all skipped (at most 100 of
   * them, and the value does not begin with one more).
   */
  predicate WellFormedField(f: FieldText)
  {
    && ':' !in f.name && '\r' !in f.value && f.spaces <= 100
    && (f.spaces == 100 || f.value == [] || f.value[0] != ' ')
  }

  /** Every field reads back as written. */
  predicate WellFormedFields(fields: seq<FieldText>)
  {
    forall i :: 0 <= i < |fields| ==> WellFormedField(fields[i])
  }

  /** `<name>:<spaces><value>` and CRLF. */
  function FieldLine(f: FieldText): (r: string)
    ensures |r| == |f.name| + 1 + f.spaces + |f.value| + 2
  {
    f.name + ":" + Blanks(f.spaces) + f.value + "\r\n"
  }

  /** `n` spaces from `from` on. */
  predicate SpacesAt(input: string, from: nat, n: nat)
  {
    from + n <= |input| && forall j :: from <= j < from + n ==> input[j] == ' '
  }

  /** The parts of field `f`, written one after the other from `pos`. */
  predicate FieldAt(input: string, pos: nat, f: FieldText)
  {
    var c := pos + |f.name|;
    var s := c + 1 + f.spaces;
    && LitAt(input, pos, f.name) && LitAt(input, c, ":") && SpacesAt(input, c + 1, f.spaces)
    && LitAt(input, s, f.value) && LitAt(input, s + |f.value|, "\r\n")
  }

  /** Written spaces are spaces. */
  lemma {:induction false} BlanksAt(input: string, from: nat, n: nat)
    requires LitAt(input, from, Blanks(n))
    ensures SpacesAt(input, from, n)
  {
    LitAtChars(input, from, Blanks(n));
    BlanksSpaces(n);
    forall j | from <= j < from + n ensures input[j] == ' ' {
      assert input[j] == Blanks(n)[j - from];
    }
  }

  /** Where each part of a written field lies. */
  lemma {:induction false} FieldLineParts(input: string, pos: nat, f: FieldText)
    requires LitAt(input, pos, FieldLine(f))
    ensures FieldAt(input, pos, f)
  {
    LitAtSplit(input, pos, f.name + ":" + Blanks(f.spaces) + f.value, "\r\n");
    LitAtSplit(input, pos, f.name + ":" + Blanks(f.spaces), f.value);
    LitAtSplit(input, pos, f.name + ":", Blanks(f.spaces));
    LitAtSplit(input, pos, f.name, ":");
    BlanksAt(input, pos + |f.name| + 1, f.spaces);
  }

  /** A run of `n` spaces, not followed by another, is skipped whole. */
  lemma {:induction false} SpacesRun(input: string, from: nat, n: nat)
    requires SpacesAt(input, from, n) && n <= 100
    requires n == 100 || from + n == |input| || input[from + n] != ' '
    ensures RunLength(input, from, 100, IsSpace) == n
  {
    RunLengthExact(input, from, 100, IsSpace, n);
  }

  /** What follows the spaces of a well-formed field is not one more space. */
  lemma {:induction false} NoSpaceAfter(input: string, s: nat, f: FieldText)
    requires WellFormedField(f) && f.spaces < 100
    requires LitAt(input, s, f.value) && LitAt(input, s + |f.value|, "\r\n")
    ensures s < |input| && input[s] != ' '
  {
    if f.value == [] {
      assert input[s..s + 2][0] == input[s];
    } else {
      assert input[s..s + |f.value|][0] == input[s];
    }
  }

  /** The spaces after the colon are skipped, and no more: the value starts where it was written. */
  lemma {:induction false} FieldSpaces(input: string, c: nat, f: FieldText)
    requires WellFormedField(f) && SpacesAt(input, c + 1, f.spaces)
    requires LitAt(input, c + 1 + f.spaces, f.value) && LitAt(input, c + 1 + f.spaces + |f.value|, "\r\n")
    ensures ValueStart(input, c) == c + 1 + f.spaces
  {
    if f.spaces < 100 {
      NoSpaceAfter(input, c + 1 + f.spaces, f);
    }
    SpacesRun(input, c + 1, f.spaces);
  }

  /** A written field is read back: the name ends at the colon, the value after the spaces. */
  lemma {:induction false} FieldRead(input: string, pos: nat, f: FieldText, c: nat, s: nat, k: nat)
    requires WellFormedField(f) && FieldAt(input, pos, f)
    requires c == pos + |f.name| && s == c + 1 + f.spaces && k == s + |f.value|
    ensures HeaderAt(input, pos) == Some((c, s, k))
    ensures input[pos..c] == f.name && input[s..k] == f.value
  {
    DelimiterAfter(input, pos, f.name, ":", c);
    FieldSpaces(input, c, f);
    DelimiterAfter(input, s, f.value, "\r\n", k);
    HeaderAtFrom(input, pos, c, s, k);
  }

  /**
   * The first delimiter after a written name or value is the one written
   * right after it, when the text holds no first character of the delimiter.
   */
  lemma {:induction false} DelimiterAfter(input: string, from: nat, text: string, d: string, k: nat)
    requires |d| > 0 && d[0] !in text && LitAt(input, from, text) && k == from + |text| && LitAt(input, k, d)
    ensures FindFrom(input, from, d) == Some(k)
  {
    FindFromAfter(input, from, text, d);
  }

  /** A written field is read back by `HeaderAt`. */
  lemma {:induction false} FieldLineRead(input: string, pos: nat, f: FieldText, c: nat, s: nat, k: nat)
    requires WellFormedField(f) && LitAt(input, pos, FieldLine(f))
    requires c == pos + |f.name| && s == c + 1 + f.spaces && k == s + |f.value|
    ensures HeaderAt(input, pos) == Some((c, s, k))
    ensures (input[pos..c], input[s..k]) == (f.name, f.value)
  {
    FieldLineParts(input, pos, f);
    FieldRead(input, pos, f, c, s, k);
  }

  /**
   * A written field in front of the header fields that follow it: the list
   * read from `pos` is that field's name and value, then the list read
   * after its CRLF.
   */
  lemma {:induction false} FieldLineList(input: string, pos: nat, f: FieldText, max: nat, next: nat)
    requires WellFormedField(f) && FieldAt(input, pos, f) && max > 0
    requires next == pos + |f.name| + 1 + f.spaces + |f.value| + 2
    ensures next <= |input|
    ensures HeaderList(input, pos, max) == ([(f.name, f.value)] + HeaderList(input, next, max - 1).0, HeaderList(input, next, max - 1).1)
  {
    var c := pos + |f.name|;
    var s := c + 1 + f.spaces;
    var k := s + |f.value|;
    FieldRead(input, pos, f, c, s, k);
    FieldListStep(input, pos, max, (c, s, k), f.name, f.value, next);
  }

  /** A header field found at `pos`, read as `name` and `value`, heads the list. */
  lemma {:induction false} FieldListStep(input: string, pos: nat, max: nat, r: (nat, nat, nat), name: string, value: string, next: nat)
    requires pos <= |input| && max > 0 && HeaderAt(input, pos) == Some(r)
    requires input[pos..r.0] == name && input[r.1..r.2] == value && next == r.2 + 2
    ensures next <= |input|
    ensures HeaderList(input, pos, max) == ([(name, value)] + HeaderList(input, next, max - 1).0, HeaderList(input, next, max - 1).1)
  {
    HeaderListStep(input, pos, max, r);
    var tail := HeaderList(input, r.2 + 2, max - 1);
    assert HeaderList(input, next, max - 1) == tail;
  }

  /** Where nothing that follows has a colon, no header field is found, and the list is empty. */
  lemma {:induction false} NoMoreFields(input: string, pos: nat, max: nat)
    requires pos <= |input| && ':' !in input[pos..]
    ensures HeaderAt(input, pos).None? && HeaderList(input, pos, max) == ([], pos)
  {
    FindFromMissing(input, pos, ':');
    HeaderListNone(input, pos, max);
  }

  // ---------------------------------------------------------------------
  // Start lines
  // ---------------------------------------------------------------------

  /** `HTTP/<major>.<minor>`. */
  function VersionText(major: char, minor: char): (r: string)
    ensures |r| == 8
  {
    "HTTP/" + [major] + "." + [minor]
  }

  /** A written version is read back, digit by digit. */
  lemma {:induction false} VersionRead(input: string, pos: nat, major: char, minor: char)
    requires IsDigit(major) && IsDigit(minor) && LitAt(input, pos, VersionText(major, minor))
    ensures VersionAt(input, pos) && input[pos + 5] == major && input[pos + 7] == minor
  {
    LitAtSplit(input, pos, "HTTP/" + [major] + ".", [minor]);
    LitAtSplit(input, pos, "HTTP/" + [major], ".");
    LitAtSplit(input, pos, "HTTP/", [major]);
    LitAtChars(input, pos, VersionText(major, minor));
  }

  /** `<method> <target> HTTP/<major>.<minor>` and CRLF. */
  function RequestLineText(verb: string, target: string, major: char, minor: char): (r: string)
    ensures |r| == |verb| + |target| + 12
  {
    verb + " " + target + " " + VersionText(major, minor) + "\r\n"
  }

  /**
   * A request line that reads back as written: a method of 1 to 100
   * upper-case letters, a target without a space, and version digits.
   */
  predicate WellFormedRequest(verb: string, target: string, major: char, minor: char)
  {
    && 1 <= |verb| <= 100 && (forall ch :: ch in verb ==> IsUpper(ch))
    && ' ' !in target && IsDigit(major) && IsDigit(minor)
  }

  /** The parts of a request line, written one after the other from `pos`. */
  predicate RequestLineAtParts(input: string, pos: nat, verb: string, target: string, major: char, minor: char)
  {
    var m := pos + |verb|;
    var t := m + 1 + |target|;
    && LitAt(input, pos, verb) && LitAt(input, m, " ") && LitAt(input, m + 1, target)
    && LitAt(input, t, " ") && LitAt(input, t + 1, VersionText(major, minor)) && LitAt(input, t + 9, "\r\n")
  }

  /** Where each part of a written request line lies. */
  lemma {:induction false} RequestLineParts(input: string, pos: nat, verb: string, target: string, major: char, minor: char)
    requires LitAt(input, pos, RequestLineText(verb, target, major, minor))
    ensures RequestLineAtParts(input, pos, verb, target, major, minor)
  {
    var v := VersionText(major, minor);
    LitAtSplit(input, pos, verb + " " + target + " " + v, "\r\n");
    LitAtSplit(input, pos, verb + " " + target + " ", v);
    LitAtSplit(input, pos, verb + " " + target, " ");
    LitAtSplit(input, pos, verb + " ", target);
    LitAtSplit(input, pos, verb, " ");
  }

  /** A written method followed by a space is the whole run of upper-case letters. */
  lemma {:induction false} MethodRun(input: string, pos: nat, verb: string, m: nat)
    requires 1 <= |verb| <= 100 && (forall ch :: ch in verb ==> IsUpper(ch))
    requires LitAt(input, pos, verb) && LitAt(input, m, " ") && m == pos + |verb|
    ensures MethodEnd(input, pos) == m
  {
    LitAtChars(input, pos, verb);
    forall j | pos <= j < m ensures IsUpper(input[j]) {
      assert input[j] == verb[j - pos];
    }
    assert input[m..m + 1][0] == input[m];
    RunLengthExact(input, pos, 100, IsUpper, |verb|);
  }

  /** The method is the run of upper-case letters, the target runs up to the next space. */
  lemma {:induction false} RequestHeadRead(input: string, pos: nat, verb: string, target: string, m: nat, t: nat)
    requires 1 <= |verb| <= 100 && (forall ch :: ch in verb ==> IsUpper(ch)) && ' ' !in target
    requires m == pos + |verb| && t == m + 1 + |target|
    requires LitAt(input, pos, verb) && LitAt(input, m, " ") && LitAt(input, m + 1, target) && LitAt(input, t, " ")
    ensures RequestHeadAt(input, pos) == Some((m, t))
  {
    MethodRun(input, pos, verb, m);
    FindFromAfter(input, m + 1, target, " ");
    RequestHeadAtFrom(input, pos, m, t);
  }

  /** A written request line is read back: the method, the target and the version. */
  lemma {:induction false} RequestLineRead(input: string, pos: nat, verb: string, target: string, major: char, minor: char)
    requires WellFormedRequest(verb, target, major, minor) && RequestLineAtParts(input, pos, verb, target, major, minor)
    ensures var m := pos + |verb|;
            var t := m + 1 + |target|;
            && RequestLineAt(input, pos) == Some((m, t))
            && input[pos..m] == verb && input[m + 1..t] == target
            && input[t + 6] == major && input[t + 8] == minor
  {
    var m := pos + |verb|;
    var t := m + 1 + |target|;
    RequestHeadRead(input, pos, verb, target, m, t);
    VersionRead(input, t + 1, major, minor);
  }

  /** `HTTP/<major>.<minor> <code> <reason>` and CRLF. */
  function StatusLineText(major: char, minor: char, code: string, reason: string): (r: string)
    ensures |r| == |code| + |reason| + 12
  {
    VersionText(major, minor) + " " + code + " " + reason + "\r\n"
  }

  /** A status line that reads back as written: version digits, a three-digit code, a reason without CR. */
  predicate WellFormedStatus(major: char, minor: char, code: string, reason: string)
  {
    && IsDigit(major) && IsDigit(minor)
    && |code| == 3 && (forall ch :: ch in code ==> IsDigit(ch)) && '\r' !in reason
  }

  /** The parts of a status line, written one after the other from `pos`. */
  predicate StatusLineAtParts(input: string, pos: nat, major: char, minor: char, code: string, reason: string)
  {
    && LitAt(input, pos, VersionText(major, minor)) && LitAt(input, pos + 8, " ") && LitAt(input, pos + 9, code)
    && LitAt(input, pos + 12, " ") && LitAt(input, pos + 13, reason) && LitAt(input, pos + 13 + |reason|, "\r\n")
  }

  /** Where each part of a written status line lies. */
  lemma {:induction false} StatusLineParts(input: string, pos: nat, major: char, minor: char, code: string, reason: string)
    requires |code| == 3 && LitAt(input, pos, StatusLineText(major, minor, code, reason))
    ensures StatusLineAtParts(input, pos, major, minor, code, reason)
  {
    var v := VersionText(major, minor);
    LitAtSplit(input, pos, v + " " + code + " " + reason, "\r\n");
    LitAtSplit(input, pos, v + " " + code + " ", reason);
    LitAtSplit(input, pos, v + " " + code, " ");
    LitAtSplit(input, pos, v + " ", code);
    LitAtSplit(input, pos, v, " ");
  }

  /** A written status line is not a request line: `HTTP` is followed by `/`, not by a space. */
  lemma {:induction false} StatusLineNotRequest(input: string, pos: nat, major: char, minor: char)
    requires LitAt(input, pos, VersionText(major, minor))
    ensures RequestLineAt(input, pos).None?
  {
    LitAtChars(input, pos, VersionText(major, minor));
    RunLengthExact(input, pos, 100, IsUpper, 4);
    NotLitAt(input, pos + 4, " ");
  }

  /** A written status line is read back: the version, the code and the reason phrase. */
  lemma {:induction false} StatusLineRead(input: string, pos: nat, major: char, minor: char, code: string, reason: string)
    requires WellFormedStatus(major, minor, code, reason) && StatusLineAtParts(input, pos, major, minor, code, reason)
    ensures var k := pos + 13 + |reason|;
            && ResponseLineAt(input, pos) == Some(k)
            && input[pos + 9..pos + 12] == code && input[pos + 13..k] == reason
            && input[pos + 5] == major && input[pos + 7] == minor
  {
    VersionRead(input, pos, major, minor);
    LitAtChars(input, pos + 9, code);
    LitAtChars(input, pos + 12, " ");
    RunLengthExact(input, pos + 9, 3, IsDigit, 3);
    FindFromAfter(input, pos + 13, reason, "\r\n");
  }
}
