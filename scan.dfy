/**
 * Direct, combinator-free descriptions of the scans the HTTP grammar
 * performs: "a literal occurs here", "the first occurrence from here on" and
 * "the length of a run of characters", each with its declarative meaning.
 */
module Scan {
  import opened Wrappers

  /** `s` occurs in `input` at position `pos`. */
  predicate LitAt(input: string, pos: nat, s: string)
  {
    pos + |s| <= |input| && input[pos..pos + |s|] == s
  }

  /** The first position from `from` on (up to the end of input) where `s` occurs. */
  function FindFrom(input: string, from: nat, s: string): (r: Option<nat>)
    requires from <= |input|
    ensures r.Some? ==> from <= r.value && r.value + |s| <= |input|
    decreases |input| - from
  {
    if LitAt(input, from, s) then Some(from)
    else if from == |input| then None
    else FindFrom(input, from + 1, s)
  }

  /**
   * `FindFrom` finds the first occurrence: `s` occurs where it stops and
   * nowhere before, and when it finds nothing `s` occurs nowhere from `from` on.
   */
  lemma {:induction false} FindFromFirst(input: string, from: nat, s: string)
    requires from <= |input|
    ensures var r := FindFrom(input, from, s);
            && (r.Some? ==> LitAt(input, r.value, s) && forall j :: from <= j < r.value ==> !LitAt(input, j, s))
            && (r.None? ==> forall j :: from <= j <= |input| ==> !LitAt(input, j, s))
    decreases |input| - from
  {
    if !LitAt(input, from, s) && from < |input| {
      FindFromFirst(input, from + 1, s);
    }
  }

  /** A position with the description of the first occurrence is the one `FindFrom` returns. */
  lemma {:induction false} FindFromUnique(input: string, from: nat, s: string, k: nat)
    requires from <= k <= |input| && LitAt(input, k, s)
    requires forall j :: from <= j < k ==> !LitAt(input, j, s)
    ensures FindFrom(input, from, s) == Some(k)
  {
    FindFromFirst(input, from, s);
  }

  /**
   * The length of the run of characters satisfying `test` from `from` on,
   * cut off at `max`.
   */
  function RunLength(input: string, from: nat, max: nat, test: char -> bool): (n: nat)
    requires from <= |input|
    ensures n <= max && from + n <= |input|
    decreases max, |input| - from
  {
    if max == 0 || from == |input| || !test(input[from]) then 0
    else 1 + RunLength(input, from + 1, max - 1, test)
  }

  /**
   * `RunLength` measures a maximal run: every character in it passes `test`,
   * and a run shorter than `max` ends at the end of input or at a character
   * that fails it.
   */
  lemma {:induction false} RunLengthRun(input: string, from: nat, max: nat, test: char -> bool)
    requires from <= |input|
    ensures var n := RunLength(input, from, max, test);
            && (forall j :: from <= j < from + n ==> test(input[j]))
            && (n < max ==> from + n == |input| || !test(input[from + n]))
    decreases max
  {
    if max > 0 && from < |input| && test(input[from]) {
      RunLengthRun(input, from + 1, max - 1, test);
    }
  }

  /** `a + b` occurs at `pos` exactly when `a` does and `b` follows it. */
  lemma {:induction false} LitAtSplit(input: string, pos: nat, a: string, b: string)
    ensures LitAt(input, pos, a + b) <==> LitAt(input, pos, a) && LitAt(input, pos + |a|, b)
  {
    if pos + |a| + |b| <= |input| {
      assert input[pos..pos + |a| + |b|] == input[pos..pos + |a|] + input[pos + |a|..pos + |a| + |b|];
      if input[pos..pos + |a| + |b|] == a + b {
        assert input[pos..pos + |a|] == (a + b)[..|a|];
        assert input[pos + |a|..pos + |a| + |b|] == (a + b)[|a|..];
      }
    }
  }

  /** Where `s` occurs, the input holds the characters of `s`. */
  lemma {:induction false} LitAtChars(input: string, pos: nat, s: string)
    requires LitAt(input, pos, s)
    ensures forall i :: 0 <= i < |s| ==> input[pos + i] == s[i]
  {
    forall i | 0 <= i < |s| ensures input[pos + i] == s[i] {
      assert input[pos..pos + |s|][i] == input[pos + i];
    }
  }

  /** A literal does not occur where its first character is missing. */
  lemma {:induction false} NotLitAt(input: string, pos: nat, s: string)
    requires |s| > 0 && (pos >= |input| || input[pos] != s[0])
    ensures !LitAt(input, pos, s)
  {
    if pos + |s| <= |input| {
      assert input[pos..pos + |s|][0] == input[pos];
    }
  }

  /**
   * `s` is first found right after `seg` when it occurs there and `seg`
   * does not hold its first character.
   */
  lemma {:induction false} FindFromAfter(input: string, from: nat, seg: string, s: string)
    requires |s| > 0 && LitAt(input, from, seg) && s[0] !in seg && LitAt(input, from + |seg|, s)
    ensures FindFrom(input, from, s) == Some(from + |seg|)
  {
    LitAtChars(input, from, seg);
    forall j | from <= j < from + |seg| ensures !LitAt(input, j, s) {
      assert input[j] == seg[j - from];
      NotLitAt(input, j, s);
    }
    FindFromUnique(input, from, s, from + |seg|);
  }

  /** A character that does not occur from `from` on is not found. */
  lemma {:induction false} FindFromMissing(input: string, from: nat, c: char)
    requires from <= |input| && c !in input[from..]
    ensures FindFrom(input, from, [c]).None?
    decreases |input| - from
  {
    if from < |input| {
      assert input[from] == input[from..][0];
      NotLitAt(input, from, [c]);
      assert input[from + 1..] == input[from..][1..];
      FindFromMissing(input, from + 1, c);
    }
  }

  /** An occurrence stays where it is when more input follows. */
  lemma {:induction false} LitAtGrow(input: string, pos: nat, s: string, more: string)
    requires LitAt(input, pos, s)
    ensures LitAt(input + more, pos, s)
  {
    assert (input + more)[pos..pos + |s|] == input[pos..pos + |s|];
  }

  /** What is appended last occurs at the end. */
  lemma {:induction false} LitAtEnd(a: string, s: string)
    ensures LitAt(a + s, |a|, s)
  {
    assert (a + s)[|a|..|a| + |s|] == s;
  }

  /** A literal occurs where a text is built around it. */
  lemma {:induction false} LitAtMiddle(a: string, s: string, b: string)
    ensures LitAt(a + s + b, |a|, s)
  {
    assert (a + s + b)[|a|..|a| + |s|] == s;
  }

  /**
   * The converse of `RunLengthRun`: a run of `n` characters that pass
   * `test`, cut off at `max` or followed by the end of input or a character
   * that fails, has length `n`.
   */
  lemma {:induction false} RunLengthExact(input: string, from: nat, max: nat, test: char -> bool, n: nat)
    requires from + n <= |input| && n <= max
    requires forall j :: from <= j < from + n ==> test(input[j])
    requires n == max || from + n == |input| || !test(input[from + n])
    ensures RunLength(input, from, max, test) == n
    decreases n
  {
    if n > 0 {
      RunLengthExact(input, from + 1, max - 1, test, n - 1);
    }
  }
}
