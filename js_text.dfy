/** The pieces of JavaScript string semantics that the application relies on:
    the `\s` and `.` character classes of its regular expressions,
    `toLowerCase`, `includes`, `trim` and `split(/\s+/)`.
    Strings are sequences of characters; see README for what that leaves out. */
module JsText {

  /** ECMAScript LineTerminator: the characters that `.` in a regular
      expression does not match. */
  predicate IsLineTerminator(c: char) {
    c == '\n' || c == '\r' || c == '\U{2028}' || c == '\U{2029}'
  }

  /** ECMAScript WhiteSpace: tab, vertical tab, form feed, the byte order
      mark and every space separator (category Zs). */
  const WhiteSpace: set<char> := {
    '\t', '\U{000B}', '\U{000C}', '\U{FEFF}', ' ', '\U{00A0}', '\U{1680}',
    '\U{2000}', '\U{2001}', '\U{2002}', '\U{2003}', '\U{2004}', '\U{2005}',
    '\U{2006}', '\U{2007}', '\U{2008}', '\U{2009}', '\U{200A}',
    '\U{202F}', '\U{205F}', '\U{3000}'
  }

  /** `\s` in an ECMAScript regular expression, which is also the set that
      `String.prototype.trim` strips: WhiteSpace plus LineTerminator. */
  predicate IsSpace(c: char) {
    c in WhiteSpace || IsLineTerminator(c)
  }

  predicate IsAsciiLower(c: char) { 'a' <= c <= 'z' }
  predicate IsAsciiUpper(c: char) { 'A' <= c <= 'Z' }
  /** `\d` without the `u` flag. */
  predicate IsAsciiDigit(c: char) { '0' <= c <= '9' }

  ghost predicate AllSpace(s: string) {
    forall i :: 0 <= i < |s| ==> IsSpace(s[i])
  }

  ghost predicate NoSpace(s: string) {
    forall i :: 0 <= i < |s| ==> !IsSpace(s[i])
  }

  function ToLowerChar(c: char): (r: char)
    ensures !IsAsciiUpper(r)
    ensures IsAsciiUpper(c) ==> r as int == c as int + 32
    ensures !IsAsciiUpper(c) ==> r == c
  {
    if IsAsciiUpper(c) then (c as int - 'A' as int + 'a' as int) as char else c
  }

  /** `String.prototype.toLowerCase`, restricted to the ASCII letters: every
      upper-case letter becomes its lower-case partner, 32 code points up, and
      every other character is kept. */
  function ToLower(s: string): (r: string)
    ensures |r| == |s|
    ensures forall i :: 0 <= i < |r| ==> !IsAsciiUpper(r[i])
    ensures forall i :: 0 <= i < |s| && IsAsciiUpper(s[i]) ==> r[i] as int == s[i] as int + 32
    ensures forall i :: 0 <= i < |s| && !IsAsciiUpper(s[i]) ==> r[i] == s[i]
  {
    if s == [] then []
    else
      var rest := ToLower(s[1..]);
      assert forall i :: 0 < i < |s| ==> s[i] == s[1..][i - 1] && ([ToLowerChar(s[0])] + rest)[i] == rest[i - 1];
      [ToLowerChar(s[0])] + rest
  }

  /** Lower-casing twice is lower-casing once. */
  lemma ToLowerIdempotent(s: string)
    ensures ToLower(ToLower(s)) == ToLower(s)
  {
    var once := ToLower(s);
    var twice := ToLower(once);
    forall i | 0 <= i < |s| ensures twice[i] == once[i] {
      assert !IsAsciiUpper(once[i]);
    }
  }

  predicate OccursAt(s: string, sub: string, i: int) {
    0 <= i && i + |sub| <= |s| && s[i..i + |sub|] == sub
  }

  /** `String.prototype.includes`. */
  predicate Includes(s: string, sub: string) {
    exists i | 0 <= i <= |s| - |sub| :: OccursAt(s, sub, i)
  }

  /** The number of whitespace characters `s` starts with. */
  function LeadingSpaces(s: string): (n: nat)
    ensures n <= |s|
    ensures forall i :: 0 <= i < n ==> IsSpace(s[i])
    ensures n < |s| ==> !IsSpace(s[n])
  {
    if s == [] || !IsSpace(s[0]) then 0 else 1 + LeadingSpaces(s[1..])
  }

  /** The number of whitespace characters `s` ends with. */
  function TrailingSpaces(s: string): (n: nat)
    ensures n <= |s|
    ensures forall i :: |s| - n <= i < |s| ==> IsSpace(s[i])
    ensures n < |s| ==> !IsSpace(s[|s| - 1 - n])
  {
    if s == [] || !IsSpace(s[|s| - 1]) then 0 else 1 + TrailingSpaces(s[..|s| - 1])
  }

  /** The index of the first whitespace character, or `|s|` when there is none. */
  function FirstSpace(s: string): (n: nat)
    ensures n <= |s|
    ensures forall i :: 0 <= i < n ==> !IsSpace(s[i])
    ensures n < |s| ==> IsSpace(s[n])
  {
    if s == [] || IsSpace(s[0]) then 0 else 1 + FirstSpace(s[1..])
  }

  /** `String.prototype.trim`: what is left after stripping whitespace at both
      ends. The result is a slice `s[a..b]` with only whitespace outside it,
      and it neither starts nor ends with whitespace. */
  function Trim(s: string): (r: string)
    ensures exists a, b :: 0 <= a <= b <= |s| && r == s[a..b] && AllSpace(s[..a]) && AllSpace(s[b..])
    ensures r != [] ==> !IsSpace(r[0]) && !IsSpace(r[|r| - 1])
    ensures r == [] <==> AllSpace(s)
  {
    var a := LeadingSpaces(s);
    var rest := s[a..];
    var b := a + |rest| - TrailingSpaces(rest);
    assert s[a..b] == rest[..|rest| - TrailingSpaces(rest)];
    assert AllSpace(s[b..]) by {
      assert s[b..] == rest[|rest| - TrailingSpaces(rest)..];
    }
    assert AllSpace(s) ==> a == |s|;
    assert a < |s| ==> a < b by {
      if a < |s| { assert rest[0] == s[a]; }
    }
    s[a..b]
  }

  /** `s` with every maximal run of whitespace replaced by a single space:
      a whitespace character is kept, as a space, only where its run ends. */
  function Squeeze(s: string): string {
    if s == [] then []
    else if IsSpace(s[0]) && |s| > 1 && IsSpace(s[1]) then Squeeze(s[1..])
    else [if IsSpace(s[0]) then ' ' else s[0]] + Squeeze(s[1..])
  }

  /** `pieces.join(' ')`. */
  function JoinWithSpace(pieces: seq<string>): string {
    if pieces == [] then []
    else if |pieces| == 1 then pieces[0]
    else pieces[0] + [' '] + JoinWithSpace(pieces[1..])
  }

  lemma {:induction false} SqueezeKeepsWord(w: string, t: string)
    requires NoSpace(w)
    ensures Squeeze(w + t) == w + Squeeze(t)
  {
    if w == [] {
      assert w + t == t;
    } else {
      assert (w + t)[0] == w[0];
      assert (w + t)[1..] == w[1..] + t;
      SqueezeKeepsWord(w[1..], t);
    }
  }

  /** A run of whitespace that ends the text or is followed by a
      non-whitespace character squeezes to one space. */
  lemma {:induction false} SqueezeGap(g: string, t: string)
    requires g != [] && AllSpace(g) && (t == [] || !IsSpace(t[0]))
    ensures Squeeze(g + t) == [' '] + Squeeze(t)
  {
    assert (g + t)[0] == g[0];
    assert (g + t)[1..] == g[1..] + t;
    if |g| > 1 {
      assert (g + t)[1] == g[1];
      SqueezeGap(g[1..], t);
    } else {
      assert g[1..] + t == t;
    }
  }

  lemma SqueezeWordGapTail(w: string, g: string, t: string)
    requires NoSpace(w) && g != [] && AllSpace(g) && (t == [] || !IsSpace(t[0]))
    ensures Squeeze(w + (g + t)) == w + [' '] + Squeeze(t)
  {
    SqueezeKeepsWord(w, g + t);
    SqueezeGap(g, t);
  }

  /** The first piece of `s` and the whitespace run after it. */
  lemma GapBounds(s: string, i: nat, j: nat)
    requires i == FirstSpace(s) < |s| && j == i + LeadingSpaces(s[i..])
    ensures i < j <= |s| && (j < |s| ==> !IsSpace(s[j]))
    ensures NoSpace(s[..i]) && AllSpace(s[i..j])
  {
    var rest := s[i..];
    var n := LeadingSpaces(rest);
    assert rest[0] == s[i];
    assert n > 0;
    if j < |s| {
      assert s[j] == rest[n];
    }
    NoSpaceBefore(s, i);
    SpaceRun(rest, n);
    assert s[i..j] == rest[..n];
  }

  lemma NoSpaceBefore(s: string, i: nat)
    requires i == FirstSpace(s)
    ensures NoSpace(s[..i])
  {
    forall k | 0 <= k < i ensures !IsSpace(s[..i][k]) {
      assert s[..i][k] == s[k];
    }
  }

  lemma SpaceRun(s: string, n: nat)
    requires n == LeadingSpaces(s)
    ensures AllSpace(s[..n])
  {
    forall k | 0 <= k < n ensures IsSpace(s[..n][k]) {
      assert s[..n][k] == s[k];
    }
  }

  /** A word followed by a gap squeezes to the word and one space. */
  lemma SqueezeWordThenGap(s: string, i: nat, j: nat)
    requires i == FirstSpace(s) < |s| && j == i + LeadingSpaces(s[i..])
    ensures Squeeze(s) == s[..i] + [' '] + Squeeze(s[j..])
  {
    GapBounds(s, i, j);
    SqueezeAround(s, i, j);
  }

  lemma SqueezeAround(s: string, i: nat, j: nat)
    requires i < j <= |s| && (j < |s| ==> !IsSpace(s[j]))
    requires NoSpace(s[..i]) && AllSpace(s[i..j])
    ensures Squeeze(s) == s[..i] + [' '] + Squeeze(s[j..])
  {
    var t := s[j..];
    assert t != [] ==> t[0] == s[j];
    SqueezeWordGapTail(s[..i], s[i..j], t);
    SplitInThree(s, i, j);
  }

  lemma SplitInThree<T>(s: seq<T>, i: nat, j: nat)
    requires i <= j <= |s|
    ensures s == s[..i] + (s[i..j] + s[j..])
  {
  }

  /** `s.split(/\s+/)`: the pieces between maximal runs of whitespace, with an
      empty first (last) piece when `s` starts (ends) with whitespace. */
  function SplitOnSpaceRuns(s: string): (r: seq<string>)
    ensures |r| >= 1
    decreases |s|
  {
    var i := FirstSpace(s);
    if i == |s| then [s]
    else
      var j := i + LeadingSpaces(s[i..]);
      [s[..i]] + SplitOnSpaceRuns(s[j..])
  }

  lemma SplitUnfold(s: string, i: nat, j: nat)
    requires i == FirstSpace(s) < |s| && j == i + LeadingSpaces(s[i..])
    ensures SplitOnSpaceRuns(s) == [s[..i]] + SplitOnSpaceRuns(s[j..])
  {
  }

  /** The pieces are exactly the text between the whitespace runs: joined
      with single spaces they give `s` with each run squeezed to one space. */
  lemma {:induction false} SplitJoinsToSqueeze(s: string)
    ensures JoinWithSpace(SplitOnSpaceRuns(s)) == Squeeze(s)
    decreases |s|
  {
    var i := FirstSpace(s);
    if i == |s| {
      SqueezeKeepsWord(s, []);
      assert s + [] == s;
    } else {
      var j := i + LeadingSpaces(s[i..]);
      var rest := SplitOnSpaceRuns(s[j..]);
      SplitUnfold(s, i, j);
      SplitJoinsToSqueeze(s[j..]);
      SqueezeWordThenGap(s, i, j);
      var r := [s[..i]] + rest;
      assert r[0] == s[..i] && r[1..] == rest;
    }
  }

  /** No piece holds whitespace. */
  lemma {:induction false} SplitPiecesHaveNoSpace(s: string)
    ensures forall k :: 0 <= k < |SplitOnSpaceRuns(s)| ==> NoSpace(SplitOnSpaceRuns(s)[k])
    decreases |s|
  {
    var i := FirstSpace(s);
    if i < |s| {
      var j := i + LeadingSpaces(s[i..]);
      var rest := SplitOnSpaceRuns(s[j..]);
      SplitUnfold(s, i, j);
      SplitPiecesHaveNoSpace(s[j..]);
      var r := [s[..i]] + rest;
      assert forall k :: 0 < k < |r| ==> r[k] == rest[k - 1];
      assert NoSpace(r[0]) by {
        forall k | 0 <= k < i ensures !IsSpace(s[..i][k]) {
          assert s[..i][k] == s[k];
        }
      }
    }
  }

  /** There is one piece iff `s` has no whitespace, and only the first and
      the last piece can be empty, the first one only when `s` is empty or
      starts with whitespace. */
  lemma {:induction false} SplitPieceShape(s: string)
    ensures var r := SplitOnSpaceRuns(s);
      && (|r| == 1 <==> NoSpace(s))
      && (s != [] && !IsSpace(s[0]) ==> r[0] != [])
      && (forall k :: 0 < k < |r| - 1 ==> r[k] != [])
    decreases |s|
  {
    var i := FirstSpace(s);
    if i < |s| {
      var j := i + LeadingSpaces(s[i..]);
      var rest := SplitOnSpaceRuns(s[j..]);
      SplitUnfold(s, i, j);
      SplitPieceShape(s[j..]);
      var r := [s[..i]] + rest;
      assert forall k :: 0 < k < |r| ==> r[k] == rest[k - 1];
      assert |rest| > 1 ==> j < |s| && !IsSpace(s[j..][0]);
    }
  }

  /** The number of maximal runs of non-whitespace characters in `s`, counted
      at the last character of each run. */
  function Runs(s: string): nat {
    if s == [] then 0
    else Runs(s[1..]) + (if !IsSpace(s[0]) && (|s| == 1 || IsSpace(s[1])) then 1 else 0)
  }

  lemma {:induction false} RunsAppend(a: string, b: string)
    requires a == [] || b == [] || IsSpace(a[|a| - 1]) || IsSpace(b[0])
    ensures Runs(a + b) == Runs(a) + Runs(b)
  {
    if a == [] {
      assert a + b == b;
    } else if b == [] {
      assert a + b == a;
    } else {
      assert (a + b)[1..] == a[1..] + b;
      if |a| > 1 {
        RunsAppend(a[1..], b);
      }
    }
  }

  lemma {:induction false} RunsAllSpace(s: string)
    requires AllSpace(s)
    ensures Runs(s) == 0
  {
    if s != [] {
      RunsAllSpace(s[1..]);
    }
  }

  lemma {:induction false} RunsNoSpace(s: string)
    requires s != [] && NoSpace(s)
    ensures Runs(s) == 1
  {
    if |s| > 1 {
      RunsNoSpace(s[1..]);
    }
  }

  /** Splitting a string that neither starts nor ends with whitespace yields
      one piece per maximal run of non-whitespace characters. */
  lemma {:induction false} SplitCountsRuns(s: string)
    requires s != [] && !IsSpace(s[0]) && !IsSpace(s[|s| - 1])
    ensures |SplitOnSpaceRuns(s)| == Runs(s)
    decreases |s|
  {
    var i := FirstSpace(s);
    if i == |s| {
      RunsNoSpace(s);
    } else {
      var j := i + LeadingSpaces(s[i..]);
      SplitUnfold(s, i, j);
      RunsOfWordThenGap(s, i, j);
      SplitCountsRuns(s[j..]);
    }
  }

  /** One step of `SplitCountsRuns`: a word, a gap, then the rest. */
  lemma RunsOfWordThenGap(s: string, i: nat, j: nat)
    requires s != [] && !IsSpace(s[|s| - 1])
    requires i == FirstSpace(s) < |s| && j == i + LeadingSpaces(s[i..])
    requires !IsSpace(s[0])
    ensures i < j < |s| && !IsSpace(s[j])
    ensures Runs(s) == 1 + Runs(s[j..])
  {
    WordThenGap(s, i, j);
    RunsOfWordGapTail(s, i, j);
  }

  lemma RunsOfWordGapTail(s: string, i: nat, j: nat)
    requires 0 < i < j <= |s| && NoSpace(s[..i]) && AllSpace(s[i..j])
    ensures Runs(s) == 1 + Runs(s[j..])
  {
    var word, gap, tail := s[..i], s[i..j], s[j..];
    assert s == word + (gap + tail);
    RunsAllSpace(gap);
    RunsAppend(gap, tail);
    assert (gap + tail)[0] == gap[0];
    RunsNoSpace(word);
    RunsAppend(word, gap + tail);
  }

  lemma WordThenGap(s: string, i: nat, j: nat)
    requires s != [] && !IsSpace(s[|s| - 1])
    requires i == FirstSpace(s) < |s| && j == i + LeadingSpaces(s[i..])
    requires !IsSpace(s[0])
    ensures 0 < i < j < |s| && !IsSpace(s[j])
    ensures NoSpace(s[..i]) && AllSpace(s[i..j])
  {
    GapBounds(s, i, j);
  }

  /** Trimming does not change the number of runs. */
  lemma TrimKeepsRuns(s: string)
    ensures Runs(Trim(s)) == Runs(s)
  {
    var a, b :| 0 <= a <= b <= |s| && Trim(s) == s[a..b] && AllSpace(s[..a]) && AllSpace(s[b..]);
    var head, mid, tail := s[..a], s[a..b], s[b..];
    assert s == head + (mid + tail);
    RunsAllSpace(head);
    RunsAllSpace(tail);
    RunsAppend(mid, tail);
    RunsAppend(head, mid + tail);
  }
}
