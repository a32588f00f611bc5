/**
 * The sanitiser rules whose effect can be stated without a regular-expression
 * engine (amd/src/editor.js, `cleanHTML`, lines 769-843): a global,
 * case-insensitive replacement of a literal (`/&nbsp;/gi`, `/<br>/gi`), the
 * collapse of a closing mark, whitespace and the same opening mark
 * (`/<\/sup>(\s*)+<sup>/gi` with replacement `$1`), and the deletion of every
 * zero-width no-break space (`/﻿/gi`).
 */
module TextRules {
  import opened Wrappers

  /** The placeholder character the editor uses to keep an empty mark focusable. */
  const Placeholder: char := '\U{FEFF}'

  /** JavaScript's `\s`: the WhiteSpace and LineTerminator code points of ECMAScript. */
  predicate IsSpace(c: char) {
    c == '\t' || c == '\n' || c == '\U{000B}' || c == '\U{000C}' || c == '\r' || c == ' '
    || c == '\U{00A0}' || c == '\U{1680}' || ('\U{2000}' <= c <= '\U{200A}')
    || c == '\U{2028}' || c == '\U{2029}' || c == '\U{202F}' || c == '\U{205F}'
    || c == '\U{3000}' || c == '\U{FEFF}'
  }

  /** JavaScript's `/\S/.test(s)`: some character is not whitespace. */
  predicate HasNonSpace(s: string) {
    exists k | 0 <= k < |s| :: !IsSpace(s[k])
  }

  /** Case folding used by the `i` flag; outside ASCII no character folds onto an ASCII letter. */
  function Lower(c: char): char {
    if 'A' <= c <= 'Z' then (c as int + 32) as char else c
  }

  predicate SameIgnoringCase(a: string, b: string) {
    |a| == |b| && forall k | 0 <= k < |a| :: Lower(a[k]) == Lower(b[k])
  }

  predicate StartsWith(s: string, lit: string) {
    |lit| <= |s| && SameIgnoringCase(s[..|lit|], lit)
  }

  /** `lit` occurs in `s` (case-insensitively) at some position. */
  predicate Occurs(lit: string, s: string) {
    exists k | 0 <= k <= |s| :: StartsWith(s[k..], lit)
  }

  // ---------------------------------------------------------------------------
  // A literal pattern, replaced globally: /lit/gi -> repl
  // ---------------------------------------------------------------------------

  /**
   * `s.replace(/lit/gi, repl)` for a pattern with no special characters: the
   * string is scanned from the left; at a match the replacement is emitted and
   * scanning resumes after the match, otherwise one character is kept.
   */
  function ReplaceAll(s: string, lit: string, repl: string): string
    decreases |s|
  {
    if s == [] || lit == [] then s
    else if StartsWith(s, lit) then repl + ReplaceAll(s[|lit|..], lit, repl)
    else [s[0]] + ReplaceAll(s[1..], lit, repl)
  }

  /** No character of `repl` equals (ignoring case) a character of `lit`. */
  predicate Unrelated(repl: string, lit: string) {
    forall x, y | 0 <= x < |repl| && 0 <= y < |lit| :: Lower(repl[x]) != Lower(lit[y])
  }

  /** A string without the pattern is left alone. */
  lemma {:induction false} ReplaceAllWithoutMatch(s: string, lit: string, repl: string)
    requires lit != [] && !Occurs(lit, s)
    ensures ReplaceAll(s, lit, repl) == s
    decreases |s|
  {
    if s != [] {
      assert s[0..] == s;
      forall k | 0 <= k <= |s[1..]|
        ensures !StartsWith(s[1..][k..], lit)
      {
        assert s[1..][k..] == s[k + 1..];
      }
      ReplaceAllWithoutMatch(s[1..], lit, repl);
    }
  }

  /**
   * While the output holds no character of `repl`, it is a copy of the input:
   * the first `m` characters of the output are the first `m` of the input.
   */
  lemma {:induction false} ReplaceAllCopiesPrefix(t: string, lit: string, repl: string, m: nat)
    requires lit != [] && repl != []
    requires m <= |ReplaceAll(t, lit, repl)|
    requires forall i, x | 0 <= i < m && 0 <= x < |repl| :: ReplaceAll(t, lit, repl)[i] != repl[x]
    ensures m <= |t| && ReplaceAll(t, lit, repl)[..m] == t[..m]
    decreases |t|
  {
    var r := ReplaceAll(t, lit, repl);
    if t == [] || m == 0 {
    } else if StartsWith(t, lit) {
      ReplaceAllAtMatch(t, lit, repl);
      assert false;
    } else {
      var r' := ReplaceAll(t[1..], lit, repl);
      assert r == [t[0]] + r';
      forall i, x | 0 <= i < m - 1 && 0 <= x < |repl|
        ensures r'[i] != repl[x]
      {
        assert r'[i] == r[i + 1];
      }
      ReplaceAllCopiesPrefix(t[1..], lit, repl, m - 1);
      assert r[..m] == [t[0]] + r'[..m - 1];
    }
  }

  /** At a match the output begins with the replacement. */
  lemma ReplaceAllAtMatch(t: string, lit: string, repl: string)
    requires lit != [] && repl != [] && StartsWith(t, lit)
    ensures ReplaceAll(t, lit, repl)[0] == repl[0]
  {
  }

  /** A position the scan keeps (no match there) cannot start a match in the output. */
  lemma NoMatchAtKeptPosition(s: string, lit: string, repl: string)
    requires lit != [] && repl != [] && Unrelated(repl, lit)
    requires s != [] && !StartsWith(s, lit)
    ensures !StartsWith([s[0]] + ReplaceAll(s[1..], lit, repl), lit)
  {
    var rest := ReplaceAll(s[1..], lit, repl);
    var r := [s[0]] + rest;
    if StartsWith(r, lit) {
      var m := |lit| - 1;
      forall i, x | 0 <= i < m && 0 <= x < |repl|
        ensures rest[i] != repl[x]
      {
        assert r[..|lit|][i + 1] == rest[i];
        assert Lower(rest[i]) == Lower(lit[i + 1]);
      }
      assert r[..|lit|] == [s[0]] + rest[..m];
      ReplaceAllCopiesPrefix(s[1..], lit, repl, m);
      assert false;
    }
  }

  /**
   * After a global replacement whose replacement text is non-empty and shares
   * no character with the pattern, the pattern no longer occurs anywhere.
   */
  lemma {:induction false} ReplaceAllLeavesNoMatch(s: string, lit: string, repl: string)
    requires lit != [] && repl != [] && Unrelated(repl, lit)
    ensures !Occurs(lit, ReplaceAll(s, lit, repl))
    decreases |s|
  {
    var r := ReplaceAll(s, lit, repl);
    if s == [] {
    } else if StartsWith(s, lit) {
      var rest := ReplaceAll(s[|lit|..], lit, repl);
      ReplaceAllLeavesNoMatch(s[|lit|..], lit, repl);
      assert r == repl + rest;
      forall k | 0 <= k <= |r|
        ensures !StartsWith(r[k..], lit)
      {
        if k < |repl| {
          assert r[k..][0] == repl[k];
        } else {
          assert r[k..] == rest[k - |repl|..];
        }
      }
    } else {
      var rest := ReplaceAll(s[1..], lit, repl);
      ReplaceAllLeavesNoMatch(s[1..], lit, repl);
      assert r == [s[0]] + rest;
      forall k | 0 <= k <= |r|
        ensures !StartsWith(r[k..], lit)
      {
        if k == 0 {
          NoMatchAtKeptPosition(s, lit, repl);
        } else {
          assert r[k..] == rest[k - 1..];
        }
      }
    }
  }

  // ---------------------------------------------------------------------------
  // /<\/tag>(\s*)+<tag>/gi -> "$1"
  // ---------------------------------------------------------------------------

  function CloseTag(tag: string): string { "</" + tag + ">" }

  function OpenTag(tag: string): string { "<" + tag + ">" }

  /** The shape of a closing tag `</…>` (no further `<`) and of an opening tag `<…>`. */
  predicate TagPair(cl: string, op: string) {
    |cl| >= 2 && cl[0] == '<' && cl[1] == '/' && (forall k | 1 <= k < |cl| :: cl[k] != '<')
    && op != [] && op[0] == '<'
  }

  lemma TagPairOf(tag: string)
    requires forall k | 0 <= k < |tag| :: tag[k] != '<'
    ensures TagPair(CloseTag(tag), OpenTag(tag))
  {
    var cl := CloseTag(tag);
    forall k | 1 <= k < |cl|
      ensures cl[k] != '<'
    {
      if 2 <= k < |cl| - 1 {
        assert cl[k] == tag[k - 2];
      }
    }
  }

  /** Length of the longest whitespace prefix of `s`. */
  function SpaceRun(s: string): (n: nat)
    ensures n <= |s|
  {
    if s == [] || !IsSpace(s[0]) then 0 else 1 + SpaceRun(s[1..])
  }

  /** The run is all whitespace and cannot be extended: what the greedy `(\s*)+` captures. */
  lemma {:induction false} SpaceRunIsMaximal(s: string)
    ensures forall k | 0 <= k < SpaceRun(s) :: IsSpace(s[k])
    ensures SpaceRun(s) < |s| ==> !IsSpace(s[SpaceRun(s)])
  {
    if s != [] && IsSpace(s[0]) {
      SpaceRunIsMaximal(s[1..]);
      forall k | 0 <= k < SpaceRun(s)
        ensures IsSpace(s[k])
      {
        if k > 0 {
          assert s[k] == s[1..][k - 1];
        }
      }
    }
  }

  /**
   * The match of `<\/tag>(\s*)+<tag>` at the start of `s` (closing tag `cl`,
   * opening tag `op`), as the length of the captured whitespace. The greedy
   * group takes the whole whitespace run; the opening tag can then only match
   * right after it, since no whitespace character is `<`.
   */
  function MarkJoinAt(s: string, cl: string, op: string): (w: Option<nat>)
    requires cl != []
    ensures w.Some? ==> |cl| + w.value + |op| <= |s|
  {
    if !StartsWith(s, cl) then None
    else
      var w := SpaceRun(s[|cl|..]);
      if StartsWith(s[|cl| + w..], op) then Some(w) else None
  }

  /**
   * `s.replace(/<\/tag>(\s*)+<tag>/gi, "$1")`: each closing mark followed by
   * whitespace and the same opening mark is replaced by that whitespace.
   */
  function JoinMarks(s: string, cl: string, op: string): string
    requires cl != []
    decreases |s|
  {
    if s == [] then s
    else match MarkJoinAt(s, cl, op)
      case Some(w) => s[|cl|..|cl| + w] + JoinMarks(s[|cl| + w + |op|..], cl, op)
      case None => [s[0]] + JoinMarks(s[1..], cl, op)
  }

  /** The rule for one tag name. */
  function JoinTag(s: string, tag: string): string {
    JoinMarks(s, CloseTag(tag), OpenTag(tag))
  }

  /** Text containing no `/` (and not followed by one) passes through unchanged before the rest is joined. */
  lemma {:induction false} JoinMarksKeepsPrefix(a: string, b: string, cl: string, op: string)
    requires TagPair(cl, op)
    requires forall k | 0 <= k < |a| :: a[k] != '/'
    requires b == [] || b[0] != '/'
    ensures JoinMarks(a + b, cl, op) == a + JoinMarks(b, cl, op)
    decreases |a|
  {
    if a != [] {
      var s := a + b;
      assert !StartsWith(s, cl) by {
        if |cl| <= |s| {
          assert s[..|cl|][1] == s[1] == (if |a| >= 2 then a[1] else b[0]);
        }
      }
      assert MarkJoinAt(s, cl, op) == None;
      assert JoinMarks(s, cl, op) == [s[0]] + JoinMarks(s[1..], cl, op);
      assert s[0] == a[0] && s[1..] == a[1..] + b;
      JoinMarksKeepsPrefix(a[1..], b, cl, op);
      assert a == [a[0]] + a[1..];
    } else {
      assert a + b == b;
    }
  }

  /** Text without `<` has no match at all. */
  lemma {:induction false} JoinMarksWithoutTags(s: string, cl: string, op: string)
    requires TagPair(cl, op)
    requires forall k | 0 <= k < |s| :: s[k] != '<'
    ensures JoinMarks(s, cl, op) == s
    decreases |s|
  {
    if s != [] {
      assert !StartsWith(s, cl) by {
        if |cl| <= |s| {
          assert s[..|cl|][0] == s[0];
        }
      }
      JoinMarksWithoutTags(s[1..], cl, op);
    }
  }

  /** Text whose only `<` is its first character has no match either. */
  lemma JoinMarksSingleTag(s: string, cl: string, op: string)
    requires TagPair(cl, op)
    requires forall k | 1 <= k < |s| :: s[k] != '<'
    ensures JoinMarks(s, cl, op) == s
  {
    if s != [] {
      assert MarkJoinAt(s, cl, op) == None by {
        if StartsWith(s, cl) {
          var w := SpaceRun(s[|cl|..]);
          if |op| <= |s[|cl| + w..]| {
            assert s[|cl| + w..][..|op|][0] == s[|cl| + w];
          }
        }
      }
      JoinMarksWithoutTags(s[1..], cl, op);
    }
  }

  lemma {:induction false} SpaceRunOver(w: string, rest: string)
    requires forall k | 0 <= k < |w| :: IsSpace(w[k])
    requires rest == [] || !IsSpace(rest[0])
    ensures SpaceRun(w + rest) == |w|
    decreases |w|
  {
    if w != [] {
      assert (w + rest)[1..] == w[1..] + rest;
      SpaceRunOver(w[1..], rest);
    }
  }

  lemma StartsWithItself(lit: string, rest: string)
    ensures StartsWith(lit + rest, lit)
  {
    assert (lit + rest)[..|lit|] == lit;
  }

  /** At a match the captured whitespace is emitted and the scan resumes after the opening tag. */
  lemma JoinMarksAtMatch(s: string, cl: string, op: string, w: string, b: string)
    requires cl != [] && MarkJoinAt(s, cl, op) == Some(|w|)
    requires s[|cl|..|cl| + |w|] == w && s[|cl| + |w| + |op|..] == b
    ensures JoinMarks(s, cl, op) == w + JoinMarks(b, cl, op)
  {
  }

  /** A closing mark, whitespace `w` and the same opening mark collapse to `w`. */
  lemma JoinMarksCollapses(w: string, b: string, cl: string, op: string)
    requires TagPair(cl, op)
    requires forall k | 0 <= k < |w| :: IsSpace(w[k])
    ensures JoinMarks(cl + (w + (op + b)), cl, op) == w + JoinMarks(b, cl, op)
  {
    var s := cl + (w + (op + b));
    StartsWithItself(cl, w + (op + b));
    assert s[|cl|..] == w + (op + b);
    SpaceRunOver(w, op + b);
    assert s[|cl| + |w|..] == op + b;
    StartsWithItself(op, b);
    assert MarkJoinAt(s, cl, op) == Some(|w|);
    assert s[|cl|..|cl| + |w|] == w;
    assert s[|cl| + |w| + |op|..] == b;
    JoinMarksAtMatch(s, cl, op, w, b);
  }

  /**
   * `a</tag>w<tag>b</tag>` becomes `awb</tag>`: two marks separated only by
   * whitespace become one mark holding both texts and the whitespace (so
   * `<sup>12</sup> <sup>34</sup>` becomes `<sup>12 34</sup>`).
   */
  lemma JoinWithin(a: string, w: string, b: string, cl: string, op: string)
    requires TagPair(cl, op)
    requires forall k | 0 <= k < |a| :: a[k] != '/'
    requires forall k | 0 <= k < |w| :: IsSpace(w[k])
    requires forall k | 0 <= k < |b| :: b[k] != '<' && b[k] != '/'
    ensures JoinMarks(a + (cl + (w + (op + (b + cl)))), cl, op) == a + (w + (b + cl))
  {
    JoinMarksKeepsPrefix(a, cl + (w + (op + (b + cl))), cl, op);
    JoinMarksCollapses(w, b + cl, cl, op);
    JoinMarksKeepsPrefix(b, cl, cl, op);
    JoinMarksSingleTag(cl, cl, op);
  }

  // ---------------------------------------------------------------------------
  // /﻿/gi -> ""
  // ---------------------------------------------------------------------------

  /** `s.replace(/c/gi, "")` for a character that has no case: every `c` is dropped, the rest kept in order. */
  function DeleteAll(s: string, c: char): (r: string)
    ensures forall k | 0 <= k < |r| :: r[k] != c
    ensures |r| <= |s|
  {
    if s == [] then []
    else if s[0] == c then DeleteAll(s[1..], c)
    else [s[0]] + DeleteAll(s[1..], c)
  }

  /** A string without `c` is unchanged. */
  lemma {:induction false} DeleteAllWithout(s: string, c: char)
    requires forall k | 0 <= k < |s| :: s[k] != c
    ensures DeleteAll(s, c) == s
  {
    if s != [] {
      DeleteAllWithout(s[1..], c);
    }
  }

  /** Deleting distributes over concatenation. */
  lemma {:induction false} DeleteAllAppend(a: string, b: string, c: char)
    ensures DeleteAll(a + b, c) == DeleteAll(a, c) + DeleteAll(b, c)
  {
    if a == [] {
      assert a + b == b;
    } else {
      assert (a + b)[0] == a[0] && (a + b)[1..] == a[1..] + b;
      DeleteAllAppend(a[1..], b, c);
    }
  }
}
