/**
  The text normalisation that `CDMarkdownParser.parse` runs on the raw
  markdown before any element sees it: five rewrites of the character
  string, applied in a fixed order.

  Each rewrite is a function over `string`. Line terminators are reduced
  to '\n' and word characters to ASCII letters, digits and '_'.
 */
module Normalizer {

  /** The string with every `c` removed: what a rewrite of `c` must keep. */
  function Without(s: string, c: char): (r: string)
    ensures |r| <= |s|
    decreases |s|
  {
    if s == [] then []
    else (if s[0] == c then [] else [s[0]]) + Without(s[1..], c)
  }

  lemma {:induction false} WithoutAppend(a: string, b: string, c: char)
    ensures Without(a + b, c) == Without(a, c) + Without(b, c)
    decreases |a|
  {
    if a != [] {
      assert (a + b)[1..] == a[1..] + b;
      WithoutAppend(a[1..], b, c);
    } else {
      assert a + b == b;
    }
  }

  // ---------------------------------------------------------------------
  // Step 1: the regular expression "\n\n+" is replaced by "\n".
  // ---------------------------------------------------------------------

  /** No two newlines stand next to each other. */
  predicate NoDoubleNewline(s: string)
  {
    forall i :: 0 < i < |s| && s[i] == '\n' ==> s[i - 1] != '\n'
  }

  /** `s` without its leading newlines: the rest of a run once its first '\n' is consumed. */
  function SkipNewlines(s: string): (r: string)
    ensures |r| <= |s|
    ensures r == s[|s| - |r|..]
    ensures r != [] ==> r[0] != '\n'
    ensures Without(r, '\n') == Without(s, '\n')
    decreases |s|
  {
    if s != [] && s[0] == '\n' then SkipNewlines(s[1..]) else s
  }

  /**
    Greedy left-to-right replacement of "\n\n+" by "\n": every maximal run
    of newlines becomes exactly one newline (a run of one is left alone).
   */
  function CollapseNewlines(s: string): (r: string)
    ensures |r| <= |s|
    ensures s != [] ==> r != [] && r[0] == s[0]
    ensures NoDoubleNewline(r)
    ensures Without(r, '\n') == Without(s, '\n')
    decreases |s|
  {
    if s == [] then []
    else if s[0] == '\n' then
      var rest := SkipNewlines(s[1..]);
      WithoutAppend("\n", CollapseNewlines(rest), '\n');
      "\n" + CollapseNewlines(rest)
    else
      WithoutAppend([s[0]], CollapseNewlines(s[1..]), '\n');
      [s[0]] + CollapseNewlines(s[1..])
  }

  /**
    Reference reading of step 1, position by position: keep every character
    of the original except a newline whose predecessor is a newline.
   */
  function DropRepeatedNewlines(s: string, afterNewline: bool): string
    decreases |s|
  {
    if s == [] then []
    else (if afterNewline && s[0] == '\n' then [] else [s[0]])
         + DropRepeatedNewlines(s[1..], s[0] == '\n')
  }

  lemma {:induction false} DropAfterRun(t: string)
    ensures DropRepeatedNewlines(t, true) == DropRepeatedNewlines(SkipNewlines(t), false)
    decreases |t|
  {
    if t != [] && t[0] == '\n' {
      DropAfterRun(t[1..]);
    }
  }

  /** The scan of `CollapseNewlines` agrees with the position-wise reading. */
  lemma {:induction false} CollapseDropsRepeatedNewlines(s: string)
    ensures CollapseNewlines(s) == DropRepeatedNewlines(s, false)
    decreases |s|
  {
    if s != [] {
      if s[0] == '\n' {
        DropAfterRun(s[1..]);
        CollapseDropsRepeatedNewlines(SkipNewlines(s[1..]));
      } else {
        CollapseDropsRepeatedNewlines(s[1..]);
      }
    }
  }

  /** Step 1 changes the text exactly when it holds two adjacent newlines. */
  lemma {:induction false} CollapseUnchangedIff(s: string)
    ensures CollapseNewlines(s) == s <==> NoDoubleNewline(s)
    decreases |s|
  {
    if NoDoubleNewline(s) && s != [] {
      assert NoDoubleNewline(s[1..]) by {
        forall i | 0 < i < |s[1..]| && s[1..][i] == '\n' ensures s[1..][i - 1] != '\n' {
          assert s[i + 1] == '\n';
        }
      }
      if s[0] == '\n' {
        assert |s| > 1 ==> s[1] != '\n';
        assert SkipNewlines(s[1..]) == s[1..];
      }
      CollapseUnchangedIff(s[1..]);
      assert s == [s[0]] + s[1..];
    }
  }

  /** Running step 1 twice is the same as running it once. */
  lemma CollapseIdempotent(s: string)
    ensures CollapseNewlines(CollapseNewlines(s)) == CollapseNewlines(s)
  {
    CollapseUnchangedIff(CollapseNewlines(s));
  }

  // ---------------------------------------------------------------------
  // Steps 2 and 3: literal replacement (NSString.replaceOccurrences without
  // the regular-expression option).
  // ---------------------------------------------------------------------

  const NonBreakingSpaceEntity: string := "&nbsp;"

  /** The target of the space-space-newline step, taken literally: two spaces,
      '[', '\n', '|', '\r', '|', '\r', '\n', ']'. */
  const SpaceSpaceBreakLiteral: string := "  [\n|\r|\r\n]"

  const ForcedBreak: string := "\n\n"

  /** `pat` occurs in `s` starting at index `i`. */
  predicate OccursAt(s: string, pat: string, i: int)
  {
    0 <= i && i + |pat| <= |s| && s[i..i + |pat|] == pat
  }

  predicate Occurs(s: string, pat: string)
  {
    exists i | 0 <= i <= |s| - |pat| :: OccursAt(s, pat, i)
  }

  /**
    Left-to-right, non-overlapping replacement of every occurrence of the
    literal `pat` by `rep`; the scan resumes after each replaced occurrence.
   */
  function ReplaceOccurrences(s: string, pat: string, rep: string): (r: string)
    requires |pat| > 0
    ensures |rep| <= |pat| ==> |r| <= |s|
    decreases |s|
  {
    if |s| < |pat| then s
    else if s[..|pat|] == pat then rep + ReplaceOccurrences(s[|pat|..], pat, rep)
    else [s[0]] + ReplaceOccurrences(s[1..], pat, rep)
  }

  lemma OccursShift(s: string, pat: string, i: int, k: nat)
    requires k <= |s| && 0 <= i
    ensures OccursAt(s[k..], pat, i) <==> OccursAt(s, pat, i + k)
  {
    if 0 <= i && i + |pat| <= |s| - k {
      assert s[k..][i..i + |pat|] == s[i + k..i + k + |pat|];
    }
  }

  /**
    The scan copies everything before the first occurrence, writes `rep` in
    its place and carries on after it. With `ReplaceUnchangedWhenAbsent`
    this fixes the output on every input.
   */
  lemma {:induction false} ReplaceAtFirstOccurrence(x: string, y: string, pat: string, rep: string)
    requires |pat| > 0
    requires forall i :: 0 <= i < |x| ==> !OccursAt(x + pat + y, pat, i)
    ensures ReplaceOccurrences(x + pat + y, pat, rep) == x + rep + ReplaceOccurrences(y, pat, rep)
    decreases |x|
  {
    if x == [] {
      assert x + pat + y == pat + y;
      ReplaceAtHead(pat, y, rep);
    } else {
      var s := x + pat + y;
      var t := x[1..] + pat + y;
      assert s == [x[0]] + t;
      assert !OccursAt(s, pat, 0);
      ReplaceCopiesHead(s, pat, rep);
      forall i | 0 <= i < |x[1..]|
        ensures !OccursAt(t, pat, i)
      {
        OccursShift(s, pat, i, 1);
      }
      var tail := ReplaceOccurrences(y, pat, rep);
      assert ReplaceOccurrences(t, pat, rep) == x[1..] + rep + tail by {
        ReplaceAtFirstOccurrence(x[1..], y, pat, rep);
      }
      assert [x[0]] + (x[1..] + rep + tail) == x + rep + tail by {
        assert x == [x[0]] + x[1..];
      }
    }
  }

  lemma ReplaceAtHead(pat: string, y: string, rep: string)
    requires |pat| > 0
    ensures ReplaceOccurrences(pat + y, pat, rep) == rep + ReplaceOccurrences(y, pat, rep)
  {
    var s := pat + y;
    assert s[..|pat|] == pat && s[|pat|..] == y;
  }

  lemma ReplaceCopiesHead(s: string, pat: string, rep: string)
    requires |pat| > 0 && |s| >= |pat| && !OccursAt(s, pat, 0)
    ensures ReplaceOccurrences(s, pat, rep) == [s[0]] + ReplaceOccurrences(s[1..], pat, rep)
  {
  }

  /** Text in which the target does not occur is returned unchanged. */
  lemma {:induction false} ReplaceUnchangedWhenAbsent(s: string, pat: string, rep: string)
    requires |pat| > 0
    requires !Occurs(s, pat)
    ensures ReplaceOccurrences(s, pat, rep) == s
    decreases |s|
  {
    if |s| >= |pat| {
      assert !OccursAt(s, pat, 0);
      assert !Occurs(s[1..], pat) by {
        forall i | 0 <= i <= |s[1..]| - |pat| ensures !OccursAt(s[1..], pat, i) {
          OccursShift(s, pat, i, 1);
        }
      }
      ReplaceUnchangedWhenAbsent(s[1..], pat, rep);
      assert s == [s[0]] + s[1..];
    }
  }

  /** When the replacement is shorter, any occurrence makes the text shrink. */
  lemma {:induction false} ReplaceShrinksWhenPresent(s: string, pat: string, rep: string)
    requires |pat| > 0 && |rep| < |pat|
    requires Occurs(s, pat)
    ensures |ReplaceOccurrences(s, pat, rep)| < |s|
    decreases |s|
  {
    var i :| 0 <= i <= |s| - |pat| && OccursAt(s, pat, i);
    if s[..|pat|] != pat {
      assert i != 0;
      OccursShift(s, pat, i - 1, 1);
      ReplaceShrinksWhenPresent(s[1..], pat, rep);
    }
  }

  /** For a shorter replacement (both literal steps), the text is unchanged
      exactly when the target does not occur in it. */
  lemma ReplaceUnchangedIff(s: string, pat: string, rep: string)
    requires |pat| > 0 && |rep| < |pat|
    ensures ReplaceOccurrences(s, pat, rep) == s <==> !Occurs(s, pat)
  {
    if Occurs(s, pat) {
      ReplaceShrinksWhenPresent(s, pat, rep);
    } else {
      ReplaceUnchangedWhenAbsent(s, pat, rep);
    }
  }

  /** The first character of `pat` occurs nowhere else in `pat`. */
  predicate HeadUnique(pat: string)
  {
    |pat| > 0 && pat[0] !in pat[1..]
  }

  /** No occurrence of `pat` starts before index `k` when `s[..k]` lacks `pat[0]`. */
  lemma {:induction false} ReplaceKeepsHeadFreePrefix(s: string, pat: string, rep: string, k: nat)
    requires |pat| > 0 && k <= |s|
    requires pat[0] !in s[..k]
    ensures ReplaceOccurrences(s, pat, rep) == s[..k] + ReplaceOccurrences(s[k..], pat, rep)
    decreases k
  {
    if k > 0 {
      assert s[0] in s[..k];
      if |s| >= |pat| {
        assert s[..|pat|][0] == s[0];
      }
      assert pat[0] !in s[1..][..k - 1] by {
        assert s[1..][..k - 1] == s[..k][1..];
      }
      ReplaceKeepsHeadFreePrefix(s[1..], pat, rep, k - 1);
      assert s[1..][k - 1..] == s[k..];
      assert s[..k] == [s[0]] + s[1..][..k - 1];
    }
  }

  /** The first character of the scan's output over a string that starts with `pat[0]`. */
  lemma ReplaceHeadChar(u: string, pat: string, rep: string)
    requires |pat| > 0 && |rep| > 0
    requires u != [] && u[0] == pat[0]
    ensures var r := ReplaceOccurrences(u, pat, rep);
            r != [] && (r[0] == pat[0] || r[0] == rep[0])
  {
  }

  /**
    When `pat[0]` occurs only at the head of `pat` and no character of `rep`
    occurs in `pat`, no occurrence of `pat` survives the replacement.
   */
  lemma {:induction false} ReplaceLeavesNoOccurrence(s: string, pat: string, rep: string)
    requires HeadUnique(pat) && |rep| > 0
    requires forall c :: c in rep ==> c !in pat
    ensures !Occurs(ReplaceOccurrences(s, pat, rep), pat)
    decreases |s|
  {
    var r := ReplaceOccurrences(s, pat, rep);
    if |s| >= |pat| {
      var step := if s[..|pat|] == pat then |rep| else 1;
      var t := if s[..|pat|] == pat then s[|pat|..] else s[1..];
      var rest := ReplaceOccurrences(t, pat, rep);
      ReplaceLeavesNoOccurrence(t, pat, rep);
      assert r[step..] == rest;
      forall i | 0 <= i <= |r| - |pat| ensures !OccursAt(r, pat, i) {
        if i >= step {
          OccursShift(r, pat, i - step, step);
        } else if s[..|pat|] == pat {
          assert rep[i] in rep;
          assert pat[0] in pat;
          assert r[i..i + |pat|][0] == rep[i];
        } else {
          NoOccurrenceAtHead(s, pat, rep);
        }
      }
    }
  }

  /** The case of `ReplaceLeavesNoOccurrence` where the scan copies `s[0]`. */
  lemma NoOccurrenceAtHead(s: string, pat: string, rep: string)
    requires HeadUnique(pat) && |rep| > 0
    requires forall c :: c in rep ==> c !in pat
    requires |s| >= |pat| && s[..|pat|] != pat
    ensures !OccursAt([s[0]] + ReplaceOccurrences(s[1..], pat, rep), pat, 0)
  {
    var t := s[1..];
    var rest := ReplaceOccurrences(t, pat, rep);
    var r := [s[0]] + rest;
    if |r| >= |pat| && s[0] == pat[0] {
      var n := |pat| - 1;
      assert r[..|pat|] == [s[0]] + rest[..n];
      // k: the first index of pat[0] in t, or n when t[..n] lacks it
      var k := FirstIndexOrLimit(t, pat[0], n);
      ReplaceKeepsHeadFreePrefix(t, pat, rep, k);
      if k == n {
        assert rest[..n] == t[..n];
        assert s[..|pat|] == [s[0]] + t[..n];
      } else {
        ReplaceHeadChar(t[k..], pat, rep);
        var tail := ReplaceOccurrences(t[k..], pat, rep);
        assert rest == t[..k] + tail;
        assert r[k + 1] == tail[0];
        assert pat[1..][k] == pat[k + 1];
        assert pat[k + 1] in pat[1..];
        assert rep[0] in rep;
        assert r[..|pat|][k + 1] != pat[k + 1];
      }
    }
  }

  /** The first index below `limit` where `c` stands in `t`, or `limit`. */
  function FirstIndexOrLimit(t: string, c: char, limit: nat): (k: nat)
    requires limit <= |t|
    ensures k <= limit
    ensures c !in t[..k]
    ensures k < limit ==> t[k] == c
  {
    if limit == 0 then 0
    else
      var k := FirstIndexOrLimit(t, c, limit - 1);
      if k < limit - 1 then k
      else
        assert t[..limit] == t[..limit - 1] + [t[limit - 1]];
        if t[limit - 1] == c then limit - 1 else limit
  }

  /** Step 2: every "&nbsp;" becomes one space, and none is left behind. */
  lemma NbspStepLeavesNoEntity(s: string)
    ensures !Occurs(ReplaceOccurrences(s, NonBreakingSpaceEntity, " "), NonBreakingSpaceEntity)
  {
    assert NonBreakingSpaceEntity[1..] == "nbsp;";
    ReplaceLeavesNoOccurrence(s, NonBreakingSpaceEntity, " ");
  }

  /** Step 2 is idempotent. */
  lemma NbspStepIdempotent(s: string)
    ensures var r := ReplaceOccurrences(s, NonBreakingSpaceEntity, " ");
            ReplaceOccurrences(r, NonBreakingSpaceEntity, " ") == r
  {
    NbspStepLeavesNoEntity(s);
    ReplaceUnchangedWhenAbsent(ReplaceOccurrences(s, NonBreakingSpaceEntity, " "), NonBreakingSpaceEntity, " ");
  }

  /**
    Step 3 searches for its target literally, so text without a '[' (for
    instance an ordinary "two spaces then newline") is never changed by it.
   */
  lemma ForcedBreakNeedsLiteralBracket(s: string)
    requires '[' !in s
    ensures ReplaceOccurrences(s, SpaceSpaceBreakLiteral, ForcedBreak) == s
  {
    forall i | 0 <= i <= |s| - |SpaceSpaceBreakLiteral| ensures !OccursAt(s, SpaceSpaceBreakLiteral, i) {
      assert s[i..i + |SpaceSpaceBreakLiteral|][2] == s[i + 2];
      assert s[i + 2] in s;
    }
    ReplaceUnchangedWhenAbsent(s, SpaceSpaceBreakLiteral, ForcedBreak);
  }

  // ---------------------------------------------------------------------
  // Step 4: the regular expression "^[^\t\_\d+\+\-\*\# +\w+]" (anchors match
  // at line starts) is replaced by "".
  // ---------------------------------------------------------------------

  predicate IsDigit(c: char) { '0' <= c <= '9' }

  /** ASCII reading of the regular-expression class \w. */
  predicate IsWordChar(c: char)
  {
    'a' <= c <= 'z' || 'A' <= c <= 'Z' || IsDigit(c) || c == '_'
  }

  /** The characters of the negated class: a line starting with one of them keeps it. */
  predicate AllowedLineStart(c: char)
  {
    c == '\t' || c == '_' || IsDigit(c) || c == '+' || c == '-' || c == '*'
    || c == '#' || c == ' ' || IsWordChar(c)
  }

  function NewlineCount(s: string): nat
    decreases |s|
  {
    if s == [] then 0 else (if s[0] == '\n' then 1 else 0) + NewlineCount(s[1..])
  }

  /**
    Deletes the first character of every line when it is not allowed.
    Line starts are those of the original text (all matches are found
    before any is replaced); `atLineStart` says whether `s[0]` is one.
   */
  function StripFrom(s: string, atLineStart: bool): (r: string)
    ensures |r| <= |s|
    ensures |s| - |r| <= (if atLineStart then 1 else 0) + NewlineCount(s)
    decreases |s|
  {
    if s == [] then []
    else (if atLineStart && !AllowedLineStart(s[0]) then [] else [s[0]])
         + StripFrom(s[1..], s[0] == '\n')
  }

  /** Step 4 over the whole text; the text begins at a line start. */
  function StripLineStarts(s: string): (r: string)
    ensures |s| - |r| <= 1 + NewlineCount(s)
  {
    StripFrom(s, true)
  }

  /** What step 4 does to one line of text. */
  function StripFirst(line: string): string
  {
    if line != [] && !AllowedLineStart(line[0]) then line[1..] else line
  }

  lemma {:induction false} StripInsideLine(x: string, rest: string)
    requires '\n' !in x
    ensures StripFrom(x + rest, false) == x + StripFrom(rest, false)
    decreases |x|
  {
    if x != [] {
      assert x[0] in x;
      assert (x + rest)[1..] == x[1..] + rest;
      assert '\n' !in x[1..] by {
        forall c | c in x[1..] ensures c != '\n' { assert c in x; }
      }
      StripInsideLine(x[1..], rest);
    } else {
      assert x + rest == rest;
    }
  }

  /**
    Step 4 works line by line: a non-empty line loses at most its first
    character, and only when that character is not allowed; the newline
    that ends it and everything after are handled independently.
   */
  lemma StripLineByLine(line: string, rest: string)
    requires line != [] && '\n' !in line
    ensures StripLineStarts(line + "\n" + rest) == StripFirst(line) + "\n" + StripLineStarts(rest)
  {
    assert line[0] in line;
    assert '\n' !in line[1..] by {
      forall c | c in line[1..] ensures c != '\n' { assert c in line; }
    }
    assert (line + "\n" + rest)[1..] == line[1..] + ("\n" + rest);
    StripInsideLine(line[1..], "\n" + rest);
    assert ("\n" + rest)[1..] == rest;
  }

  /** The last line (no newline after it) is handled the same way. */
  lemma StripLastLine(line: string)
    requires line != [] && '\n' !in line
    ensures StripLineStarts(line) == StripFirst(line)
  {
    assert line[0] in line;
    assert '\n' !in line[1..] by {
      forall c | c in line[1..] ensures c != '\n' { assert c in line; }
    }
    StripInsideLine(line[1..], []);
    assert line[1..] + [] == line[1..];
  }

  /** A newline at a line start is not in the allowed class: an empty line disappears. */
  lemma StripEmptyLine(rest: string)
    ensures StripLineStarts("\n" + rest) == StripLineStarts(rest)
  {
    assert !AllowedLineStart('\n');
    assert ("\n" + rest)[1..] == rest;
  }

  /** Every line of `s` starts with an allowed character (the empty text has no line start). */
  predicate LineStartsAllowed(s: string, atLineStart: bool)
  {
    && (atLineStart && s != [] ==> AllowedLineStart(s[0]))
    && (forall i :: 0 < i < |s| && s[i - 1] == '\n' ==> AllowedLineStart(s[i]))
  }

  /** Step 4 leaves the text unchanged exactly when every line start is allowed. */
  lemma {:induction false} StripUnchangedIff(s: string, atLineStart: bool)
    ensures StripFrom(s, atLineStart) == s <==> LineStartsAllowed(s, atLineStart)
    decreases |s|
  {
    if s != [] {
      StripUnchangedIff(s[1..], s[0] == '\n');
      var tail := StripFrom(s[1..], s[0] == '\n');
      if LineStartsAllowed(s, atLineStart) {
        assert LineStartsAllowed(s[1..], s[0] == '\n') by {
          forall i | 0 < i < |s[1..]| && s[1..][i - 1] == '\n'
            ensures AllowedLineStart(s[1..][i])
          {
            assert s[i] == '\n';
          }
        }
        assert s == [s[0]] + s[1..];
      } else if atLineStart && !AllowedLineStart(s[0]) {
        assert |StripFrom(s, atLineStart)| < |s|;
      } else {
        var i :| 0 < i < |s| && s[i - 1] == '\n' && !AllowedLineStart(s[i]);
        assert !LineStartsAllowed(s[1..], s[0] == '\n') by {
          if i == 1 {
            assert s[1..][0] == s[1];
          } else {
            assert s[1..][i - 2] == '\n' && s[1..][i - 1] == s[i];
          }
        }
        assert StripFrom(s, atLineStart) == [s[0]] + tail;
        assert tail != s[1..];
        assert ([s[0]] + tail)[1..] == tail;
      }
    }
  }

  // ---------------------------------------------------------------------
  // Step 5: the regular expression "\n[ ]{1,4}" is replaced by "\n" and
  // four spaces.
  // ---------------------------------------------------------------------

  const ContinuationIndent: string := "    "

  /** How many spaces `s` starts with, counting at most `max`. */
  function LeadingSpaces(s: string, max: nat): (k: nat)
    ensures k <= max && k <= |s|
    ensures forall i :: 0 <= i < k ==> s[i] == ' '
    ensures k < max && k < |s| ==> s[k] != ' '
    decreases max
  {
    if max == 0 || s == [] || s[0] != ' ' then 0
    else 1 + LeadingSpaces(s[1..], max - 1)
  }

  lemma {:induction false} LeadingSpacesFull(s: string, max: nat)
    requires max <= |s| && forall i :: 0 <= i < max ==> s[i] == ' '
    ensures LeadingSpaces(s, max) == max
    decreases max
  {
    if max > 0 {
      LeadingSpacesFull(s[1..], max - 1);
    }
  }

  lemma {:induction false} LeadingSpacesStopAtNewline(a: string, b: string, max: nat)
    requires b != [] && b[0] == '\n'
    ensures LeadingSpaces(a + b, max) == LeadingSpaces(a, max)
    decreases max
  {
    if a == [] {
      assert a + b == b;
    } else if max > 0 && a[0] == ' ' {
      assert (a + b)[1..] == a[1..] + b;
      LeadingSpacesStopAtNewline(a[1..], b, max - 1);
    }
  }

  /** Every newline that is followed by a space is followed by at least four. */
  predicate IndentCanonical(s: string)
  {
    forall i :: 0 <= i < |s| - 1 ==> IndentedAt(s, i)
  }

  /** A newline at `i` that is followed by a space is followed by four. */
  predicate IndentedAt(s: string, i: nat)
    requires i < |s| - 1
  {
    s[i] == '\n' && s[i + 1] == ' ' ==> i + 4 < |s| && s[i + 1..i + 5] == ContinuationIndent
  }

  lemma CanonicalCons(c: char, rest: string)
    requires IndentCanonical(rest)
    requires c == '\n' && rest != [] ==> rest[0] != ' '
    ensures IndentCanonical([c] + rest)
  {
    var t := [c] + rest;
    forall i | 0 <= i < |t| - 1
      ensures IndentedAt(t, i)
    {
      if i > 0 && t[i] == '\n' && t[i + 1] == ' ' {
        assert IndentedAt(rest, i - 1);
        assert t[i + 1..i + 5] == rest[i..i + 4];
      }
    }
  }

  lemma CanonicalIndentPrefix(rest: string)
    requires IndentCanonical(rest)
    ensures IndentCanonical("\n" + ContinuationIndent + rest)
  {
    var t := "\n" + ContinuationIndent + rest;
    forall i | 0 <= i < |t| - 1
      ensures IndentedAt(t, i)
    {
      if i == 0 {
        assert t[1..5] == ContinuationIndent;
      } else if i >= 5 && t[i] == '\n' && t[i + 1] == ' ' {
        assert IndentedAt(rest, i - 5);
        assert t[i + 1..i + 5] == rest[i - 4..i];
      }
    }
  }

  /** A newline followed only by spaces keeps just the newline once spaces are dropped. */
  lemma {:induction false} SpacesOnly(u: string)
    requires u != [] && u[0] == '\n'
    requires forall i :: 1 <= i < |u| ==> u[i] == ' '
    ensures Without(u, ' ') == "\n"
    decreases |u|
  {
    if |u| > 1 {
      var v := [u[0]] + u[2..];
      assert u == [u[0]] + [u[1]] + u[2..];
      WithoutAppend([u[0]], [u[1]] + u[2..], ' ');
      WithoutAppend([u[1]], u[2..], ' ');
      WithoutAppend([u[0]], u[2..], ' ');
      SpacesOnly(v);
    } else {
      assert u == "\n";
    }
  }

  /** The rewritten match keeps the non-space content of what it replaced. */
  lemma IndentMatchKeepsContent(s: string, k: nat, rest: string)
    requires 1 + k <= |s| && s[0] == '\n'
    requires forall i :: 1 <= i < 1 + k ==> s[i] == ' '
    requires Without(rest, ' ') == Without(s[1 + k..], ' ')
    ensures Without("\n" + ContinuationIndent + rest, ' ') == Without(s, ' ')
  {
    WithoutAppend("\n" + ContinuationIndent, rest, ' ');
    SpacesOnly("\n" + ContinuationIndent);
    WithoutAppend(s[..1 + k], s[1 + k..], ' ');
    assert s == s[..1 + k] + s[1 + k..];
    SpacesOnly(s[..1 + k]);
  }

  /** How many spaces a match at the head of `s` swallows after its newline (0: no match). */
  function IndentMatchLength(s: string): (k: nat)
    requires s != []
    ensures 1 + k <= |s|
    ensures forall i :: 1 <= i < 1 + k ==> s[i] == ' '
  {
    if s[0] == '\n' then LeadingSpaces(s[1..], 4) else 0
  }

  /**
    Greedy left-to-right rewrite of a newline followed by one to four
    spaces into a newline followed by exactly four spaces.
   */
  function IndentContinuations(s: string): (r: string)
    ensures |r| >= |s|
    ensures s != [] ==> r != [] && r[0] == s[0]
    decreases |s|
  {
    if s == [] then []
    else
      var k := IndentMatchLength(s);
      if k == 0 then [s[0]] + IndentContinuations(s[1..])
      else "\n" + ContinuationIndent + IndentContinuations(s[1 + k..])
  }

  /**
    After step 5 every newline followed by a space is followed by four, and
    the non-space characters are those of the input, in order.
   */
  lemma {:induction false} IndentContinuationsCanonical(s: string)
    ensures IndentCanonical(IndentContinuations(s))
    ensures Without(IndentContinuations(s), ' ') == Without(s, ' ')
    decreases |s|
  {
    if s != [] {
      var k := IndentMatchLength(s);
      if k == 0 {
        var rest := IndentContinuations(s[1..]);
        IndentContinuationsCanonical(s[1..]);
        WithoutAppend([s[0]], rest, ' ');
        WithoutAppend([s[0]], s[1..], ' ');
        assert s == [s[0]] + s[1..];
        CanonicalCons(s[0], rest);
      } else {
        var rest := IndentContinuations(s[1 + k..]);
        IndentContinuationsCanonical(s[1 + k..]);
        IndentMatchKeepsContent(s, k, rest);
        CanonicalIndentPrefix(rest);
      }
    }
  }

  /** One step of the scan, as an equation. */
  lemma IndentUnfold(s: string)
    requires s != []
    ensures var k := IndentMatchLength(s);
            IndentContinuations(s)
            == (if k == 0 then [s[0]] else "\n" + ContinuationIndent) + IndentContinuations(s[1 + k..])
  {
  }

  /** Step 5 leaves the text unchanged exactly when its indentation is already canonical. */
  lemma {:induction false} IndentUnchangedIff(s: string)
    ensures IndentContinuations(s) == s <==> IndentCanonical(s)
    decreases |s|
  {
    if IndentContinuations(s) == s {
      IndentContinuationsCanonical(s);
    }
    if IndentCanonical(s) && s != [] {
      if s[0] == '\n' && |s| > 1 && s[1] == ' ' {
        assert IndentedAt(s, 0);
        assert s[1..5] == ContinuationIndent;
        assert s[1..][..4] == s[1..5];
        LeadingSpacesFull(s[1..], 4);
        IndentCanonicalSuffix(s, 5);
        IndentUnchangedIff(s[5..]);
        assert s == "\n" + ContinuationIndent + s[5..];
      } else {
        IndentCanonicalSuffix(s, 1);
        IndentUnchangedIff(s[1..]);
        assert s == [s[0]] + s[1..];
      }
    }
  }

  lemma IndentCanonicalSuffix(s: string, k: nat)
    requires k <= |s| && IndentCanonical(s)
    ensures IndentCanonical(s[k..])
  {
    forall i | 0 <= i < |s[k..]| - 1
      ensures IndentedAt(s[k..], i)
    {
      assert IndentedAt(s, i + k);
      if s[k..][i] == '\n' && s[k..][i + 1] == ' ' {
        assert s[i + k + 1..i + k + 5] == s[k..][i + 1..i + 5];
      }
    }
  }

  /** Running step 5 twice is the same as running it once. */
  lemma IndentIdempotent(s: string)
    ensures IndentContinuations(IndentContinuations(s)) == IndentContinuations(s)
  {
    IndentContinuationsCanonical(s);
    IndentUnchangedIff(IndentContinuations(s));
  }

  function Spaces(k: nat): (r: string)
    ensures |r| == k && forall i :: 0 <= i < k ==> r[i] == ' '
  {
    seq(k, _ => ' ')
  }

  /** Text without a newline passes step 5 unchanged. */
  lemma {:induction false} IndentNoNewline(x: string)
    requires '\n' !in x
    ensures IndentContinuations(x) == x
    decreases |x|
  {
    if x != [] {
      assert x[0] in x;
      assert '\n' !in x[1..] by {
        forall i | 0 <= i < |x[1..]| ensures x[1..][i] != '\n' {
          assert x[1..][i] == x[i + 1] && x[i + 1] in x;
        }
      }
      IndentUnfold(x);
      IndentNoNewline(x[1..]);
      assert x == [x[0]] + x[1..];
    }
  }

  /** The spaces a match swallows from `k` spaces followed by a non-space, counting at most `max`. */
  lemma {:induction false} LeadingSpacesOfRun(k: nat, x: string, max: nat)
    requires x == [] || x[0] != ' '
    ensures LeadingSpaces(Spaces(k) + x, max) == if k <= max then k else max
    decreases max
  {
    var u := Spaces(k) + x;
    if max > 0 && k > 0 {
      assert u[0] == ' ';
      assert u[1..] == Spaces(k - 1) + x;
      LeadingSpacesOfRun(k - 1, x, max - 1);
    } else if k == 0 {
      assert u == x;
    }
  }

  /**
    One line of step 5: a newline followed by one to four spaces comes out
    with exactly four; a newline without a following space, or followed by
    more than four, comes out as it went in; the rest of the line is copied.
    With `IndentSplitAtNewline` this fixes the step on every text.
   */
  lemma IndentLine(k: nat, x: string)
    requires '\n' !in x && (x == [] || x[0] != ' ')
    ensures IndentContinuations("\n" + Spaces(k) + x)
            == "\n" + Spaces(if k == 0 then 0 else if k <= 4 then 4 else k) + x
  {
    LeadingSpacesOfRun(k, x, 4);
    if k <= 4 {
      IndentLineShort(k, x);
    } else {
      IndentLineLong(k, x);
    }
  }

  lemma IndentLineShort(k: nat, x: string)
    requires k <= 4 && '\n' !in x && (x == [] || x[0] != ' ')
    requires LeadingSpaces(Spaces(k) + x, 4) == k
    ensures IndentContinuations("\n" + Spaces(k) + x) == "\n" + Spaces(if k == 0 then 0 else 4) + x
  {
    IndentNewlineThenSpaces(k, x);
    IndentNoNewline(x);
    assert ContinuationIndent == Spaces(4);
    assert Spaces(0) == [];
  }

  /** The scan's first step over a newline and `k` spaces it takes in whole. */
  lemma IndentNewlineThenSpaces(k: nat, x: string)
    requires k <= 4 && LeadingSpaces(Spaces(k) + x, 4) == k
    ensures IndentContinuations("\n" + Spaces(k) + x)
            == (if k == 0 then "\n" else "\n" + ContinuationIndent) + IndentContinuations(x)
  {
    var s := "\n" + Spaces(k) + x;
    assert s[1..] == Spaces(k) + x;
    assert s[1 + k..] == x;
    IndentUnfold(s);
  }

  lemma IndentLineLong(k: nat, x: string)
    requires k > 4 && '\n' !in x
    requires LeadingSpaces(Spaces(k) + x, 4) == 4
    ensures IndentContinuations("\n" + Spaces(k) + x) == "\n" + Spaces(k) + x
  {
    var rest := Spaces(k - 4) + x;
    IndentNewlineThenFour(k, x);
    NoNewlineAfterSpaces(k - 4, x);
    IndentNoNewline(rest);
    FourMoreSpaces(k - 4, x);
  }

  lemma FourMoreSpaces(n: nat, x: string)
    ensures "\n" + ContinuationIndent + (Spaces(n) + x) == "\n" + Spaces(n + 4) + x
  {
    assert ContinuationIndent + Spaces(n) == Spaces(n + 4) by {
      assert forall i :: 0 <= i < 4 ==> ContinuationIndent[i] == ' ';
    }
  }

  lemma IndentNewlineThenFour(k: nat, x: string)
    requires k > 4 && LeadingSpaces(Spaces(k) + x, 4) == 4
    ensures IndentContinuations("\n" + Spaces(k) + x)
            == "\n" + ContinuationIndent + IndentContinuations(Spaces(k - 4) + x)
  {
    var s := "\n" + Spaces(k) + x;
    assert s[1..] == Spaces(k) + x;
    assert s[5..] == Spaces(k - 4) + x;
    IndentUnfold(s);
  }

  lemma NoNewlineAfterSpaces(n: nat, x: string)
    requires '\n' !in x
    ensures '\n' !in Spaces(n) + x
  {
    var u := Spaces(n) + x;
    forall i | 0 <= i < |u| ensures u[i] != '\n' {
      if i >= n {
        assert u[i] == x[i - n] && x[i - n] in x;
      }
    }
  }

  /** A match at the head of `a` cannot run on into a following newline. */
  lemma IndentMatchStopsAtNewline(a: string, b: string)
    requires a != [] && b != [] && b[0] == '\n'
    ensures IndentMatchLength(a + b) == IndentMatchLength(a)
  {
    if a[0] == '\n' {
      assert (a + b)[1..] == a[1..] + b;
      LeadingSpacesStopAtNewline(a[1..], b, 4);
    }
  }

  /** One step of the scan over `a + b` consumes the same head as over `a` alone. */
  lemma IndentUnfoldAppend(a: string, b: string)
    requires a != [] && b != [] && b[0] == '\n'
    ensures var k := IndentMatchLength(a);
            IndentContinuations(a + b)
            == (if k == 0 then [a[0]] else "\n" + ContinuationIndent) + IndentContinuations(a[1 + k..] + b)
  {
    var ab := a + b;
    var k := IndentMatchLength(a);
    IndentMatchStopsAtNewline(a, b);
    assert ab[0] == a[0];
    assert ab[1 + k..] == a[1 + k..] + b;
    IndentUnfold(ab);
  }

  /** The inductive step: the split carries over from the rest of `a` to `a`. */
  lemma IndentSplitStep(a: string, b: string)
    requires a != [] && b != [] && b[0] == '\n'
    requires var t := a[1 + IndentMatchLength(a)..];
             IndentContinuations(t + b) == IndentContinuations(t) + IndentContinuations(b)
    ensures IndentContinuations(a + b) == IndentContinuations(a) + IndentContinuations(b)
  {
    var k := IndentMatchLength(a);
    var head := if k == 0 then [a[0]] else "\n" + ContinuationIndent;
    var t := a[1 + k..];
    IndentUnfold(a);
    IndentUnfoldAppend(a, b);
    SequenceAssociative(head, IndentContinuations(t), IndentContinuations(b));
  }

  /** Concatenation regroups; kept apart so the step above stays small. */
  lemma SequenceAssociative(head: string, left: string, right: string)
    ensures head + (left + right) == (head + left) + right
  {
  }

  /** A split just before a newline is a clean boundary of step 5's scan. */
  lemma {:induction false} IndentSplitAtNewline(a: string, b: string)
    requires b != [] && b[0] == '\n'
    ensures IndentContinuations(a + b) == IndentContinuations(a) + IndentContinuations(b)
    decreases |a|
  {
    if a == [] {
      assert a + b == b;
    } else {
      IndentSplitAtNewline(a[1 + IndentMatchLength(a)..], b);
      IndentSplitStep(a, b);
    }
  }

  // ---------------------------------------------------------------------
  // The whole normalisation, in the order `parse` runs it.
  // ---------------------------------------------------------------------

  function Normalize(s: string): (r: string)
    ensures IndentCanonical(r)
  {
    var collapsed := CollapseNewlines(s);
    var spaced := ReplaceOccurrences(collapsed, NonBreakingSpaceEntity, " ");
    var broken := ReplaceOccurrences(spaced, SpaceSpaceBreakLiteral, ForcedBreak);
    var stripped := StripLineStarts(broken);
    IndentContinuationsCanonical(stripped);
    IndentContinuations(stripped)
  }

  // ---------------------------------------------------------------------
  // Markup characters at line starts
  // ---------------------------------------------------------------------

  /**
    A line that opens with a quote, link, image or code marker loses that
    marker; the rest of the line and the following lines are kept.
   */
  lemma MarkupLineStartStripped(c: char, text: string, rest: string)
    requires c == '>' || c == '[' || c == '!' || c == '`'
    requires '\n' !in text
    ensures StripLineStarts([c] + text + "\n" + rest) == text + "\n" + StripLineStarts(rest)
  {
    var line := [c] + text;
    assert '\n' !in line by {
      assert forall i :: 1 <= i < |line| ==> line[i] == text[i - 1];
    }
    StripLineByLine(line, rest);
    assert StripFirst(line) == text;
  }
}
