/** The Python string built-ins the analysis code relies on: `str.lower`,
    the `in` substring test, `str.endswith`, `str.strip`, `str.splitlines`
    and `str.join`, each restricted to the characters stated below. */
module Strings {

  datatype Option<+T> = None | Some(value: T)

  // ---------------------------------------------------------------------
  // Lower-casing
  // ---------------------------------------------------------------------

  /** Upper-case letters that `str.lower` maps in this model: ASCII A..Z and
      the Latin-1 capitals U+00C0..U+00DE except the multiplication sign
      U+00D7 (the block holding the accented letters of Portuguese). */
  predicate IsUpper(c: char) {
    ('A' <= c <= 'Z') || ('\U{C0}' <= c <= '\U{DE}' && c != '\U{D7}')
  }

  /** `c.lower()` on one character: each capital moves 32 code points down
      the table to its small letter; every other character is unchanged. */
  function Lower(c: char): char {
    if IsUpper(c) then (c as int + 32) as char else c
  }

  /** `s.lower()`, character by character. */
  function LowerStr(s: string): (r: string)
    ensures |r| == |s|
    ensures forall i | 0 <= i < |r| :: !IsUpper(r[i])
    ensures forall i | 0 <= i < |s| :: !IsUpper(s[i]) ==> r[i] == s[i]
  {
    seq(|s|, i requires 0 <= i < |s| => Lower(s[i]))
  }

  /** Lower-casing leaves no capital behind and changes nothing twice. */
  lemma LowerIdempotent(c: char)
    ensures !IsUpper(Lower(c)) && Lower(Lower(c)) == Lower(c)
  {
  }

  lemma {:induction false} LowerStrIdempotent(s: string)
    ensures LowerStr(LowerStr(s)) == LowerStr(s)
  {
    forall i | 0 <= i < |s| ensures LowerStr(LowerStr(s))[i] == LowerStr(s)[i] {
      LowerIdempotent(s[i]);
    }
  }

  /** Lower-casing commutes with taking a slice. */
  lemma LowerStrSlice(s: string, a: nat, b: nat)
    requires a <= b <= |s|
    ensures LowerStr(s[a..b]) == LowerStr(s)[a..b]
  {
  }

  lemma LowerStrAppend(s: string, t: string)
    ensures LowerStr(s + t) == LowerStr(s) + LowerStr(t)
  {
  }

  /** A string without capitals is its own lower-cased form. */
  lemma LowerStrNoCapital(s: string)
    requires forall i | 0 <= i < |s| :: !IsUpper(s[i])
    ensures LowerStr(s) == s
  {
  }

  // ---------------------------------------------------------------------
  // Substring search: Python's `pat in s`
  // ---------------------------------------------------------------------

  /** `pat` occurs in `s` starting at index `i`. */
  predicate OccursAt(s: string, pat: string, i: int) {
    0 <= i && i + |pat| <= |s| && s[i..i + |pat|] == pat
  }

  /** `pat in s`: some window of `s` equals `pat` (the empty string is in
      every string). */
  function Contains(s: string, pat: string): (found: bool)
    ensures pat == [] ==> found
    ensures found ==> |pat| <= |s|
  {
    assert pat == [] ==> OccursAt(s, pat, 0);
    exists i | 0 <= i <= |s| - |pat| :: OccursAt(s, pat, i)
  }

  /** `c` occurs nowhere in `s`. */
  predicate Lacks(s: string, c: char) {
    forall j | 0 <= j < |s| :: s[j] != c
  }

  /** Being a substring is transitive: a pattern found in a piece of `u` is
      found in `u`. */
  lemma ContainsTransitive(u: string, t: string, pat: string)
    requires Contains(u, t) && Contains(t, pat)
    ensures Contains(u, pat)
  {
    var i :| 0 <= i <= |u| - |t| && OccursAt(u, t, i);
    var j :| 0 <= j <= |t| - |pat| && OccursAt(t, pat, j);
    SliceOfSlice(u, i, i + |t|, j, j + |pat|);
    assert OccursAt(u, pat, i + j);
  }

  lemma SliceOfSlice(s: string, a: int, b: int, c: int, d: int)
    requires 0 <= a <= b <= |s| && 0 <= c <= d <= b - a
    ensures s[a..b][c..d] == s[a + c..a + d]
  {
    assert forall k | 0 <= k < d - c :: s[a..b][c..d][k] == s[a + c..a + d][k];
  }

  /** A substring stays a substring after both sides are lower-cased. */
  lemma ContainsLower(u: string, t: string)
    requires Contains(u, t)
    ensures Contains(LowerStr(u), LowerStr(t))
  {
    var i :| 0 <= i <= |u| - |t| && OccursAt(u, t, i);
    LowerStrSlice(u, i, i + |t|);
    assert OccursAt(LowerStr(u), LowerStr(t), i);
  }

  /** Both halves of a concatenation are substrings of it. */
  lemma ContainsParts(s: string, t: string)
    ensures Contains(s + t, s) && Contains(s + t, t)
  {
    assert OccursAt(s + t, s, 0);
    assert OccursAt(s + t, t, |s|);
  }

  /** `s.endswith(suffix)`. */
  function EndsWith(s: string, suffix: string): (b: bool)
    ensures b <==> exists p: string :: s == p + suffix
  {
    AppendEndsWith(s, suffix);
    if |suffix| <= |s| && s[|s| - |suffix|..] == suffix then
      assert s == s[..|s| - |suffix|] + suffix;
      true
    else
      false
  }

  /** Whatever `suffix` is appended to ends the result. */
  lemma AppendEndsWith(s: string, suffix: string)
    ensures forall p: string :: s == p + suffix ==> |suffix| <= |s| && s[|s| - |suffix|..] == suffix
  {
    forall p: string | s == p + suffix
      ensures |suffix| <= |s| && s[|s| - |suffix|..] == suffix
    {
      assert s[|p|..] == suffix;
    }
  }

  // ---------------------------------------------------------------------
  // Whitespace and `str.strip`
  // ---------------------------------------------------------------------

  /** `c.isspace()`: the characters Python treats as whitespace. */
  predicate IsSpace(c: char) {
    || ('\t' <= c <= '\r')
    || ('\U{1C}' <= c <= ' ')
    || c == '\U{85}' || c == '\U{A0}' || c == '\U{1680}'
    || ('\U{2000}' <= c <= '\U{200A}')
    || c == '\U{2028}' || c == '\U{2029}' || c == '\U{202F}'
    || c == '\U{205F}' || c == '\U{3000}'
  }

  /** `s[a..b]` is what stripping `s` keeps: everything outside it is
      whitespace and it neither starts nor ends with whitespace. */
  predicate StrippedBounds(s: string, a: int, b: int) {
    && 0 <= a <= b <= |s|
    && (forall i | 0 <= i < a :: IsSpace(s[i]))
    && (forall i | b <= i < |s| :: IsSpace(s[i]))
    && (a < b ==> !IsSpace(s[a]) && !IsSpace(s[b - 1]))
  }

  /** Index of the first non-whitespace character at or after `i`. */
  function SkipSpaces(s: string, i: nat): (k: nat)
    requires i <= |s|
    ensures i <= k <= |s|
    ensures forall j | i <= j < k :: IsSpace(s[j])
    ensures k < |s| ==> !IsSpace(s[k])
    decreases |s| - i
  {
    if i < |s| && IsSpace(s[i]) then SkipSpaces(s, i + 1) else i
  }

  /** Index just after the last non-whitespace character of `s[lo..hi]`. */
  function SkipSpacesBack(s: string, lo: nat, hi: nat): (k: nat)
    requires lo <= hi <= |s|
    ensures lo <= k <= hi
    ensures forall j | k <= j < hi :: IsSpace(s[j])
    ensures lo < k ==> !IsSpace(s[k - 1])
    decreases hi - lo
  {
    if lo < hi && IsSpace(s[hi - 1]) then SkipSpacesBack(s, lo, hi - 1) else hi
  }

  /** `s` neither starts nor ends with whitespace. */
  predicate Trimmed(s: string) {
    s != [] ==> !IsSpace(s[0]) && !IsSpace(s[|s| - 1])
  }

  /** Where `s.strip()` cuts `s`. */
  function StripBounds(s: string): (ab: (int, int))
    ensures StrippedBounds(s, ab.0, ab.1)
  {
    var a := SkipSpaces(s, 0);
    (a, SkipSpacesBack(s, a, |s|))
  }

  /** `s.strip()`: the slice of `s` left after removing leading and trailing
      whitespace. */
  function Strip(s: string): (r: string)
    ensures exists a, b :: StrippedBounds(s, a, b) && r == s[a..b]
    ensures Trimmed(r)
  {
    var ab := StripBounds(s);
    s[ab.0..ab.1]
  }

  /** The bounds that define a strip are unique, so `Strip` is the only
      function meeting its contract. */
  lemma {:induction false} StrippedBoundsUnique(s: string, a: int, b: int, a': int, b': int)
    requires StrippedBounds(s, a, b) && StrippedBounds(s, a', b')
    ensures a < b ==> a == a' && b == b'
    ensures s[a..b] == s[a'..b']
  {
    if a < b {
      assert a' < b' && a == a' && b == b';
    }
  }

  lemma StripIdempotent(s: string)
    ensures Strip(Strip(s)) == Strip(s)
  {
    var r := Strip(s);
    assert StrippedBounds(r, 0, |r|);
    var ab := StripBounds(r);
    StrippedBoundsUnique(r, ab.0, ab.1, 0, |r|);
  }

  /** Lower-casing neither creates nor removes whitespace. */
  lemma LowerKeepsSpace(c: char)
    ensures IsSpace(Lower(c)) <==> IsSpace(c)
  {
  }

  /** An occurrence in the lower-cased text of a pattern that neither
      starts nor ends with whitespace lies inside the part `strip` keeps. */
  lemma OccurrenceInsideStrip(s: string, pat: string, i: int)
    requires pat != [] && !IsSpace(pat[0]) && !IsSpace(pat[|pat| - 1])
    requires OccursAt(LowerStr(s), pat, i)
    ensures StripBounds(s).0 <= i && i + |pat| <= StripBounds(s).1
  {
    var ls := LowerStr(s);
    assert ls[i..i + |pat|][0] == ls[i];
    assert ls[i..i + |pat|][|pat| - 1] == ls[i + |pat| - 1];
    LowerKeepsSpace(s[i]);
    LowerKeepsSpace(s[i + |pat| - 1]);
  }

  /** The lower-cased stripped string is a slice of the lower-cased
      original. */
  lemma LowerStrip(s: string)
    ensures LowerStr(Strip(s)) == LowerStr(s)[StripBounds(s).0..StripBounds(s).1]
  {
    LowerStrSlice(s, StripBounds(s).0, StripBounds(s).1);
  }

  /** An occurrence that lies inside a slice is an occurrence in the
      slice. */
  lemma OccurrenceInSlice(u: string, a: int, b: int, pat: string, i: int)
    requires 0 <= a <= i && i + |pat| <= b <= |u|
    requires OccursAt(u, pat, i)
    ensures Contains(u[a..b], pat)
  {
    SliceOfSlice(u, a, b, i - a, i - a + |pat|);
    assert OccursAt(u[a..b], pat, i - a);
  }

  /** An occurrence, in the lower-cased text, of a pattern whose first and
      last characters are not whitespace survives stripping: lower-casing
      maps no whitespace to a letter, so the occurrence lies inside the kept
      slice. */
  lemma StripKeepsOccurrence(s: string, pat: string)
    requires pat != [] && !IsSpace(pat[0]) && !IsSpace(pat[|pat| - 1])
    requires Contains(LowerStr(s), pat)
    ensures Contains(LowerStr(Strip(s)), pat)
  {
    var ls := LowerStr(s);
    var i :| 0 <= i <= |ls| - |pat| && OccursAt(ls, pat, i);
    OccurrenceInsideStrip(s, pat, i);
    OccurrenceInSlice(ls, StripBounds(s).0, StripBounds(s).1, pat, i);
    LowerStrip(s);
  }

  /** Stripping creates no occurrence: the stripped text is a slice. */
  lemma StripAddsNoOccurrence(s: string, pat: string)
    requires Contains(LowerStr(Strip(s)), pat)
    ensures Contains(LowerStr(s), pat)
  {
    var a, b := StripBounds(s).0, StripBounds(s).1;
    var ls := LowerStr(s);
    LowerStrip(s);
    assert OccursAt(ls, ls[a..b], a);
    ContainsTransitive(ls, ls[a..b], pat);
  }

  /** So the `in` test on the lower-cased text gives the same answer before
      and after stripping, for such a pattern. */
  lemma StripKeepsLowerContains(s: string, pat: string)
    requires pat != [] && !IsSpace(pat[0]) && !IsSpace(pat[|pat| - 1])
    ensures Contains(LowerStr(Strip(s)), pat) <==> Contains(LowerStr(s), pat)
  {
    if Contains(LowerStr(s), pat) {
      StripKeepsOccurrence(s, pat);
    }
    if Contains(LowerStr(Strip(s)), pat) {
      StripAddsNoOccurrence(s, pat);
    }
  }

  // ---------------------------------------------------------------------
  // Lines: `str.splitlines()` and `sep.join(parts)`
  // ---------------------------------------------------------------------

  /** The line boundaries of `str.splitlines()` (`\r\n` counts as one). */
  predicate IsLineBreak(c: char) {
    || ('\n' <= c <= '\r')
    || ('\U{1C}' <= c <= '\U{1E}')
    || c == '\U{85}' || c == '\U{2028}' || c == '\U{2029}'
  }

  predicate NoLineBreak(s: string) {
    forall j | 0 <= j < |s| :: !IsLineBreak(s[j])
  }

  predicate AllBreaks(s: string) {
    forall j | 0 <= j < |s| :: IsLineBreak(s[j])
  }

  /** Index of the first line boundary at or after `i`, or `|s|`. */
  function NextBreak(s: string, i: nat): (k: nat)
    requires i <= |s|
    ensures i <= k <= |s|
    ensures NoLineBreak(s[i..k])
    ensures k < |s| ==> IsLineBreak(s[k])
    decreases |s| - i
  {
    if i == |s| || IsLineBreak(s[i]) then i else NextBreak(s, i + 1)
  }

  /** Number of characters the boundary at `k` takes: two for `\r\n`. */
  function BreakWidth(s: string, k: nat): nat
    requires k < |s|
  {
    if s[k] == '\r' && k + 1 < |s| && s[k + 1] == '\n' then 2 else 1
  }

  /** `s.splitlines()`: the pieces between line boundaries, with no empty
      piece after a final boundary and none at all for the empty string. */
  function SplitLines(s: string): (lines: seq<string>)
    ensures forall k | 0 <= k < |lines| :: NoLineBreak(lines[k])
    ensures s == [] <==> lines == []
    decreases |s|
  {
    if s == [] then []
    else
      var k := NextBreak(s, 0);
      if k == |s| then [s]
      else [s[..k]] + SplitLines(s[k + BreakWidth(s, k)..])
  }

  /** The characters of `s` that are not line boundaries, in order. */
  function DropBreaks(s: string): string {
    if s == [] then []
    else (if IsLineBreak(s[0]) then [] else [s[0]]) + DropBreaks(s[1..])
  }

  /** Concatenation of pieces: `"".join(parts)`. Every piece is a
      substring of the result. */
  function Concat(parts: seq<string>): (r: string)
    ensures forall i | 0 <= i < |parts| :: Contains(r, parts[i])
  {
    if parts == [] then []
    else
      var rest := Concat(parts[1..]);
      assert OccursAt(parts[0], parts[0], 0);
      PrependKeepsParts(parts[0], parts[0], rest, parts[1..]);
      parts[0] + rest
  }

  /** `sep.join(parts)`. Every piece is a substring of the result, and so
      is the separator when there are two pieces or more. */
  function Join(sep: string, parts: seq<string>): (r: string)
    ensures forall i | 0 <= i < |parts| :: Contains(r, parts[i])
    ensures |parts| >= 2 ==> Contains(r, sep)
  {
    if parts == [] then []
    else if |parts| == 1 then
      assert OccursAt(parts[0], parts[0], 0);
      parts[0]
    else
      var rest := Join(sep, parts[1..]);
      ContainsParts(parts[0], sep);
      PrependKeepsParts(parts[0] + sep, parts[0], rest, parts[1..]);
      ContainsParts(parts[0] + sep, rest);
      ContainsTransitive(parts[0] + sep + rest, parts[0] + sep, sep);
      parts[0] + sep + rest
  }

  /** Putting `x` (which holds `head`) in front of a text holding each of
      `tail` gives a text holding `head` and each of `tail`. */
  lemma PrependKeepsParts(x: string, head: string, rest: string, tail: seq<string>)
    requires Contains(x, head)
    requires forall k | 0 <= k < |tail| :: Contains(rest, tail[k])
    ensures Contains(x + rest, head)
    ensures forall k | 0 <= k < |tail| :: Contains(x + rest, tail[k])
  {
    ContainsParts(x, rest);
    ContainsTransitive(x + rest, x, head);
    forall k | 0 <= k < |tail| ensures Contains(x + rest, tail[k]) {
      ContainsTransitive(x + rest, rest, tail[k]);
    }
  }

  lemma {:induction false} DropBreaksAppend(s: string, t: string)
    ensures DropBreaks(s + t) == DropBreaks(s) + DropBreaks(t)
    decreases |s|
  {
    if s != [] {
      assert (s + t)[1..] == s[1..] + t;
      DropBreaksAppend(s[1..], t);
    } else {
      assert s + t == t;
    }
  }

  lemma {:induction false} DropBreaksNone(s: string)
    requires NoLineBreak(s)
    ensures DropBreaks(s) == s
    decreases |s|
  {
    if s != [] {
      DropBreaksNone(s[1..]);
    }
  }

  lemma {:induction false} DropBreaksAll(s: string)
    requires AllBreaks(s)
    ensures DropBreaks(s) == []
    decreases |s|
  {
    if s != [] {
      DropBreaksAll(s[1..]);
    }
  }

  /** One step of `SplitLines` on a text that holds a line boundary. */
  lemma SplitLinesStep(s: string)
    requires s != [] && NextBreak(s, 0) < |s|
    ensures SplitLines(s) == [s[..NextBreak(s, 0)]]
                             + SplitLines(s[NextBreak(s, 0) + BreakWidth(s, NextBreak(s, 0))..])
  {
    var k := NextBreak(s, 0);
    var rest := s[k + BreakWidth(s, k)..];
    assert SplitLines(s) == [s[..k]] + SplitLines(rest);
  }

  lemma ConcatCons(x: string, rest: seq<string>)
    ensures Concat([x] + rest) == x + Concat(rest)
  {
    assert ([x] + rest)[1..] == rest;
  }

  /** Dropping the boundaries from a line, a boundary and the rest. */
  lemma DropBreaksSplit(line: string, brk: string, rest: string)
    requires NoLineBreak(line)
    requires AllBreaks(brk)
    ensures DropBreaks(line + brk + rest) == line + DropBreaks(rest)
  {
    calc {
      DropBreaks(line + brk + rest);
      { assert line + brk + rest == line + (brk + rest); }
      DropBreaks(line + (brk + rest));
      { DropBreaksAppend(line, brk + rest); DropBreaksNone(line); }
      line + DropBreaks(brk + rest);
      { DropBreaksAppend(brk, rest); DropBreaksAll(brk); }
      line + ([] + DropBreaks(rest));
      { assert [] + DropBreaks(rest) == DropBreaks(rest); }
      line + DropBreaks(rest);
    }
  }

  /** A text with a boundary at `k` is the line before it, the boundary's
      characters and the rest. */
  lemma BreakPieces(s: string, k: nat)
    requires k < |s| && IsLineBreak(s[k])
    ensures s == s[..k] + s[k..k + BreakWidth(s, k)] + s[k + BreakWidth(s, k)..]
    ensures AllBreaks(s[k..k + BreakWidth(s, k)])
  {
    var w := BreakWidth(s, k);
    assert s[k..k + w][0] == s[k];
    if w == 2 {
      assert s[k..k + w][1] == s[k + 1] == '\n';
    }
  }

  /** The step of `SplitLinesLosesOnlyBreaks`: if the lines after the
      first boundary lose only boundaries, so do all the lines. */
  lemma SplitLinesLosesOnlyBreaksStep(s: string)
    requires s != [] && NextBreak(s, 0) < |s|
    requires Concat(SplitLines(s[NextBreak(s, 0) + BreakWidth(s, NextBreak(s, 0))..]))
             == DropBreaks(s[NextBreak(s, 0) + BreakWidth(s, NextBreak(s, 0))..])
    ensures Concat(SplitLines(s)) == DropBreaks(s)
  {
    var k := NextBreak(s, 0);
    var w := BreakWidth(s, k);
    var rest := s[k + w..];
    BreakPieces(s, k);
    calc {
      Concat(SplitLines(s));
      { SplitLinesStep(s); }
      Concat([s[..k]] + SplitLines(rest));
      { ConcatCons(s[..k], SplitLines(rest)); }
      s[..k] + Concat(SplitLines(rest));
      s[..k] + DropBreaks(rest);
      { DropBreaksSplit(s[..k], s[k..k + w], rest); }
      DropBreaks(s);
    }
  }

  /** Splitting loses exactly the line boundaries: the lines, put back
      together, are the text with every boundary character removed. */
  lemma {:induction false} SplitLinesLosesOnlyBreaks(s: string)
    ensures Concat(SplitLines(s)) == DropBreaks(s)
    decreases |s|
  {
    if s != [] {
      var k := NextBreak(s, 0);
      if k == |s| {
        assert s[..k] == s;
        DropBreaksNone(s);
        ConcatCons(s, []);
      } else {
        SplitLinesLosesOnlyBreaks(s[k + BreakWidth(s, k)..]);
        SplitLinesLosesOnlyBreaksStep(s);
      }
    }
  }

  /** A line, one boundary character other than `\r`, and a rest split
      into the line followed by the lines of the rest. */
  lemma SplitAroundBreak(line: string, b: char, u: string)
    requires NoLineBreak(line) && IsLineBreak(b) && b != '\r'
    ensures SplitLines(line + [b] + u) == [line] + SplitLines(u)
  {
    var t := line + [b] + u;
    var k := |line|;
    assert t[..k] == line && t[k] == b;
    NextBreakAt(t, 0, k);
    assert BreakWidth(t, k) == 1;
    assert t[k + 1..] == u;
    SplitLinesStep(t);
  }

  /** One step of splitting joined paragraphs: the first paragraph, then
      the lines of the rest. */
  lemma SplitJoinStep(parts: seq<string>)
    requires |parts| > 1 && NoLineBreak(parts[0])
    ensures SplitLines(Join("\n", parts)) == [parts[0]] + SplitLines(Join("\n", parts[1..]))
  {
    assert Join("\n", parts) == parts[0] + ['\n'] + Join("\n", parts[1..]);
    SplitAroundBreak(parts[0], '\n', Join("\n", parts[1..]));
  }

  /** Paragraphs joined with `"\n"` split back into the same paragraphs,
      provided none holds a line boundary and the last one is not empty
      (`splitlines` drops an empty piece after a final boundary). */
  lemma {:induction false} SplitJoinRoundTrip(parts: seq<string>)
    requires parts != [] && parts[|parts| - 1] != []
    requires forall k | 0 <= k < |parts| :: NoLineBreak(parts[k])
    ensures SplitLines(Join("\n", parts)) == parts
    decreases |parts|
  {
    if |parts| == 1 {
      var s := Join("\n", parts);
      assert s == parts[0];
      assert s[0..] == s;
      NextBreakNone(s, 0);
    } else {
      SplitJoinStep(parts);
      SplitJoinRoundTrip(parts[1..]);
      assert parts == [parts[0]] + parts[1..];
    }
  }

  /** When the last paragraph is empty, the `"\n"` before it is a final
      boundary, after which `splitlines` yields no piece: the paragraphs
      come back without that last one. */
  lemma {:induction false} SplitJoinDropsLastEmpty(init: seq<string>)
    requires forall k | 0 <= k < |init| :: NoLineBreak(init[k])
    ensures SplitLines(Join("\n", init + [[]])) == init
    decreases |init|
  {
    var parts := init + [[]];
    if init == [] {
      assert parts == [[]];
    } else {
      var tail := init[1..];
      assert parts[0] == init[0] && parts[1..] == tail + [[]];
      SplitJoinStep(parts);
      SplitJoinDropsLastEmpty(tail);
      assert init == [init[0]] + tail;
    }
  }

  /** Every line `splitlines` yields is a substring of the text. */
  lemma {:induction false} SplitLinesInText(s: string)
    ensures forall k | 0 <= k < |SplitLines(s)| :: Contains(s, SplitLines(s)[k])
    decreases |s|
  {
    if s != [] {
      var k := NextBreak(s, 0);
      if k == |s| {
        assert OccursAt(s, s, 0);
      } else {
        var rest := s[k + BreakWidth(s, k)..];
        SplitLinesStep(s);
        SplitLinesInText(rest);
        assert OccursAt(s, s[..k], 0);
        assert OccursAt(s, rest, k + BreakWidth(s, k));
        forall j | 0 <= j < |SplitLines(rest)| ensures Contains(s, SplitLines(rest)[j]) {
          ContainsTransitive(s, rest, SplitLines(rest)[j]);
        }
      }
    }
  }

  lemma {:induction false} NextBreakNone(s: string, i: nat)
    requires i <= |s| && NoLineBreak(s[i..])
    ensures NextBreak(s, i) == |s|
    decreases |s| - i
  {
    if i < |s| {
      assert s[i..][0] == s[i];
      assert s[i + 1..] == s[i..][1..];
      NextBreakNone(s, i + 1);
    }
  }

  lemma {:induction false} NextBreakAt(s: string, i: nat, k: nat)
    requires i <= k < |s| && NoLineBreak(s[i..k]) && IsLineBreak(s[k])
    ensures NextBreak(s, i) == k
    decreases k - i
  {
    if i < k {
      assert s[i..k][0] == s[i];
      assert s[i + 1..k] == s[i..k][1..];
      NextBreakAt(s, i + 1, k);
    }
  }
}
