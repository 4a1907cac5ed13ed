/**
  The level-aware list element (`CDMarkdownList`): its line pattern, the
  rewrite of a matched marker region into a bullet glyph, and its two
  attribute passes. The driver that finds matches and chooses the range
  and level (`CDMarkdownLevelElement`) is not part of this model, so range
  and level are parameters here.
 */
module Lists {
  import opened Wrappers
  import opened StyledStrings
  import opened Normalizer

  const DefaultIndicator: string := "•"
  const DefaultSeparator: string := " "
  const DefaultMaxLevel: int := 0

  /** The glyph of an item that follows the canonical continuation indent; not configurable. */
  const SubItemIndicator: string := "◦"

  /** The pattern text around the repetition bound: ^\s*([\*\+\-]{1,  and  })[ TAB]+(.+)$ */
  const PatternHead: string := "^\\s*([\\*\\+\\-]{1,"
  const PatternTail: string := "})[ \t]+(.+)$"

  // ---------------------------------------------------------------------
  // Decimal rendering of the bound ("\(maxLevel)")
  // ---------------------------------------------------------------------

  predicate AllDigits(s: string)
  {
    forall i :: 0 <= i < |s| ==> IsDigit(s[i])
  }

  function DigitChar(d: nat): (c: char)
    requires d < 10
    ensures IsDigit(c) && c as int - '0' as int == d
  {
    ('0' as int + d) as char
  }

  /** The decimal digits of `n`, most significant first, without leading zeros. */
  function Decimal(n: nat): (r: string)
    ensures |r| > 0 && AllDigits(r)
    ensures n > 0 ==> r[0] != '0'
    decreases n
  {
    if n < 10 then [DigitChar(n)] else Decimal(n / 10) + [DigitChar(n % 10)]
  }

  /** The number a string of decimal digits denotes. */
  function DigitsValue(s: string): nat
    requires AllDigits(s)
    decreases |s|
  {
    if s == [] then 0
    else DigitsValue(s[..|s| - 1]) * 10 + (s[|s| - 1] as int - '0' as int)
  }

  /** Reading the rendered digits back gives the number. */
  lemma {:induction false} DecimalRoundTrip(n: nat)
    ensures DigitsValue(Decimal(n)) == n
    decreases n
  {
    if n >= 10 {
      DecimalRoundTrip(n / 10);
      var d := Decimal(n);
      assert d[..|d| - 1] == Decimal(n / 10);
    }
  }

  // ---------------------------------------------------------------------
  // What the pattern matches on one line
  // ---------------------------------------------------------------------

  /** \s, reduced to ASCII white space other than the line terminator. */
  predicate IsRegexSpace(c: char)
  {
    c == ' ' || c == '\t' || c == '\U{000B}' || c == '\U{000C}' || c == '\r'
  }

  predicate IsMarker(c: char)
  {
    c == '*' || c == '+' || c == '-'
  }

  /** [ \t] */
  predicate IsSeparatorChar(c: char)
  {
    c == ' ' || c == '\t'
  }

  datatype CharClass = RegexSpace | Marker | SeparatorChar

  predicate InClass(c: char, k: CharClass)
  {
    match k
    case RegexSpace => IsRegexSpace(c)
    case Marker => IsMarker(c)
    case SeparatorChar => IsSeparatorChar(c)
  }

  /** The length of the longest prefix of `s` drawn from class `k`. */
  function RunLength(s: string, k: CharClass): (n: nat)
    ensures n <= |s|
    ensures forall i :: 0 <= i < n ==> InClass(s[i], k)
    ensures n < |s| ==> !InClass(s[n], k)
    decreases |s|
  {
    if s == [] || !InClass(s[0], k) then 0 else 1 + RunLength(s[1..], k)
  }

  /** A prefix of class `k` that cannot be extended is the longest one. */
  lemma {:induction false} RunLengthExact(s: string, k: CharClass, n: nat)
    requires n <= |s| && forall i :: 0 <= i < n ==> InClass(s[i], k)
    requires n < |s| ==> !InClass(s[n], k)
    ensures RunLength(s, k) == n
    decreases n
  {
    if n > 0 {
      RunLengthExact(s[1..], k, n - 1);
    }
  }

  lemma {:induction false} RunLengthAtLeast(s: string, k: CharClass, n: nat)
    requires n <= |s| && forall i :: 0 <= i < n ==> InClass(s[i], k)
    ensures RunLength(s, k) >= n
    decreases n
  {
    if n > 0 {
      RunLengthAtLeast(s[1..], k, n - 1);
    }
  }

  /**
    A marker run is accepted when it is non-empty, made of '*', '+' and '-',
    and no longer than `maxLevel` unless `maxLevel <= 0` (unbounded).
   */
  predicate MarkerRunAccepted(run: string, maxLevel: int)
  {
    && |run| > 0
    && (forall i :: 0 <= i < |run| ==> IsMarker(run[i]))
    && (maxLevel <= 0 || |run| <= maxLevel)
  }

  /**
    The regular expression's reading of a line, with the split made explicit:
    `w` leading white-space characters, a marker run of length `m`, `p` >= 1
    spaces or tabs, then at least one character of content.
   */
  predicate IsListLine(line: string, maxLevel: int, w: nat, m: nat, p: nat)
  {
    && w + m + p < |line|
    && (forall i :: 0 <= i < w ==> IsRegexSpace(line[i]))
    && MarkerRunAccepted(line[w..w + m], maxLevel)
    && p > 0
    && (forall i :: w + m <= i < w + m + p ==> IsSeparatorChar(line[i]))
  }

  /** Where a match puts its groups: the marker run starts at `markerStart` and
      has `level` characters; the content group starts at `contentStart`. */
  datatype ListMatch = ListMatch(markerStart: nat, level: nat, contentStart: nat)

  /**
    The match of the list pattern on one line, as the backtracking engine
    finds it: leading white space, the whole marker run, the separators taken
    greedily except that the content group needs at least one character.
   */
  function MatchLine(line: string, maxLevel: int): (r: Option<ListMatch>)
    requires '\n' !in line
    ensures r.Some? ==>
              && r.value.markerStart + r.value.level < r.value.contentStart
              && IsListLine(line, maxLevel, r.value.markerStart, r.value.level,
                            r.value.contentStart - r.value.markerStart - r.value.level)
              && (r.value.contentStart == |line| - 1 || !IsSeparatorChar(line[r.value.contentStart]))
  {
    var w := RunLength(line, RegexSpace);
    var m := RunLength(line[w..], Marker);
    var p := RunLength(line[w + m..], SeparatorChar);
    if m == 0 || (maxLevel > 0 && m > maxLevel) || p == 0 then None
    else if w + m + p < |line| then
      RunsFormShape(line, maxLevel, w, m, p);
      Some(ListMatch(w, m, w + m + p))
    else if p >= 2 then
      RunsFormShape(line, maxLevel, w, m, |line| - 1 - w - m);
      Some(ListMatch(w, m, |line| - 1))
    else None
  }

  /** The three maximal runs, with `q` of the separators kept, have the pattern's shape. */
  lemma RunsFormShape(line: string, maxLevel: int, w: nat, m: nat, q: nat)
    requires w == RunLength(line, RegexSpace) && w + m <= |line| && m == RunLength(line[w..], Marker)
    requires 0 < m && (maxLevel <= 0 || m <= maxLevel)
    requires 0 < q <= RunLength(line[w + m..], SeparatorChar) && w + m + q < |line|
    ensures IsListLine(line, maxLevel, w, m, q)
  {
    var run := line[w..w + m];
    forall i | 0 <= i < m ensures IsMarker(run[i]) {
      assert run[i] == line[w..][i];
      assert InClass(line[w..][i], Marker);
    }
    var tail := line[w + m..];
    forall i | w + m <= i < w + m + q ensures IsSeparatorChar(line[i]) {
      assert line[i] == tail[i - (w + m)];
      assert InClass(tail[i - (w + m)], SeparatorChar);
    }
    forall i | 0 <= i < w ensures IsRegexSpace(line[i]) {
      assert InClass(line[i], RegexSpace);
    }
  }

  /**
    Any split of the pattern's shape has the marker position and level that
    `MatchLine` computes; one whose separators cannot be extended also has
    its content start.
   */
  lemma ShapeIsUnique(line: string, maxLevel: int, w': nat, m': nat, p': nat)
    requires '\n' !in line
    requires IsListLine(line, maxLevel, w', m', p')
    ensures var r := MatchLine(line, maxLevel);
            r.Some? && r.value.markerStart == w' && r.value.level == m'
    ensures w' + m' + p' == |line| - 1 || !IsSeparatorChar(line[w' + m' + p'])
            ==> MatchLine(line, maxLevel).value.contentStart == w' + m' + p'
  {
    assert line[w'..w' + m'][0] == line[w'];
    RunLengthExact(line, RegexSpace, w');
    assert forall i :: 0 <= i < m' ==> line[w'..][i] == line[w'..w' + m'][i];
    assert line[w'..][m'] == line[w' + m'];
    RunLengthExact(line[w'..], Marker, m');
    var tail := line[w' + m'..];
    assert forall i :: 0 <= i < p' ==> tail[i] == line[w' + m' + i];
    RunLengthAtLeast(tail, SeparatorChar, p');
  }

  /**
    `MatchLine` finds a match exactly when the line has the pattern's shape,
    and the shape fixes the marker's position and the level.
   */
  lemma MatchLineIff(line: string, maxLevel: int)
    requires '\n' !in line
    ensures MatchLine(line, maxLevel).Some? <==> exists w, m, p :: IsListLine(line, maxLevel, w, m, p)
    ensures forall w, m, p :: IsListLine(line, maxLevel, w, m, p) ==>
              && MatchLine(line, maxLevel).Some?
              && MatchLine(line, maxLevel).value.markerStart == w
              && MatchLine(line, maxLevel).value.level == m
  {
    forall w, m, p | IsListLine(line, maxLevel, w, m, p)
      ensures && MatchLine(line, maxLevel).Some?
              && MatchLine(line, maxLevel).value.markerStart == w
              && MatchLine(line, maxLevel).value.level == m
    {
      ShapeIsUnique(line, maxLevel, w, m, p);
    }
    var r := MatchLine(line, maxLevel);
    if r.Some? {
      var mt := r.value;
      assert IsListLine(line, maxLevel, mt.markerStart, mt.level, mt.contentStart - mt.markerStart - mt.level);
    }
  }

  /** A run longer than a positive bound makes the line fall through unmatched. */
  lemma LongRunDoesNotMatch(line: string, maxLevel: int, w: nat, m: nat)
    requires '\n' !in line
    requires maxLevel > 0 && m > maxLevel && w + m <= |line|
    requires forall i :: 0 <= i < w ==> IsRegexSpace(line[i])
    requires forall i :: w <= i < w + m ==> IsMarker(line[i])
    ensures MatchLine(line, maxLevel) == None
  {
    RunLengthExact(line, RegexSpace, w);
    assert forall i :: 0 <= i < m ==> line[w..][i] == line[w + i];
    RunLengthAtLeast(line[w..], Marker, m);
  }

  // ---------------------------------------------------------------------
  // The element
  // ---------------------------------------------------------------------

  /** The configurable properties of a list element, read together. */
  datatype ListSettings = ListSettings(maxLevel: int, indicator: string, separator: string, font: Option<nat>,
                                       color: Option<nat>, backgroundColor: Option<nat>,
                                       paragraphStyle: Option<ParagraphStyle>)

  class MarkdownList {
    var maxLevel: int
    var font: Option<nat>
    var color: Option<nat>
    var backgroundColor: Option<nat>
    var paragraphStyle: Option<ParagraphStyle>
    var separator: string
    var indicator: string

    /** A missing paragraph style is replaced by the list's own default. */
    constructor (font: Option<nat>, maxLevel: int, indicator: string, separator: string,
                 color: Option<nat>, backgroundColor: Option<nat>, paragraphStyle: Option<ParagraphStyle>)
      ensures this.maxLevel == maxLevel && this.indicator == indicator && this.separator == separator
      ensures this.font == font && this.color == color && this.backgroundColor == backgroundColor
      ensures this.paragraphStyle == Some(if paragraphStyle.Some? then paragraphStyle.value else ListDefaultStyle)
    {
      this.maxLevel := maxLevel;
      this.indicator := indicator;
      this.separator := separator;
      this.font := font;
      this.color := color;
      this.backgroundColor := backgroundColor;
      this.paragraphStyle := Some(if paragraphStyle.Some? then paragraphStyle.value else ListDefaultStyle);
    }

    function Settings(): (r: ListSettings)
      reads this
      ensures r.maxLevel == maxLevel && r.indicator == indicator && r.separator == separator
      ensures r.font == font && r.color == color && r.backgroundColor == backgroundColor
      ensures r.paragraphStyle == paragraphStyle
    {
      ListSettings(maxLevel, indicator, separator, font, color, backgroundColor, paragraphStyle)
    }

    /** The initializer with every argument left at its default. */
    constructor WithDefaults()
      ensures maxLevel == DefaultMaxLevel && indicator == DefaultIndicator && separator == DefaultSeparator
      ensures font == None && color == None && backgroundColor == None
      ensures paragraphStyle == Some(ListDefaultStyle)
    {
      maxLevel := DefaultMaxLevel;
      indicator := DefaultIndicator;
      separator := DefaultSeparator;
      font, color, backgroundColor := None, None, None;
      paragraphStyle := Some(ListDefaultStyle);
    }

    /**
      The pattern text: the repetition bound of the marker run is the decimal
      `maxLevel` when positive, and empty ("{1,}": unbounded) otherwise.
     */
    function Regex(): (r: string)
      reads this
      ensures |r| >= |PatternHead| + |PatternTail|
      ensures r[..|PatternHead|] == PatternHead
      ensures r[|r| - |PatternTail|..] == PatternTail
      ensures var bound := r[|PatternHead|..|r| - |PatternTail|];
              && (bound == [] <==> maxLevel <= 0)
              && AllDigits(bound)
              && (maxLevel > 0 ==> DigitsValue(bound) == maxLevel && bound[0] != '0')
    {
      var bound := if maxLevel > 0 then Decimal(maxLevel) else "";
      var r := PatternHead + bound + PatternTail;
      assert r[|PatternHead|..|r| - |PatternTail|] == bound;
      if maxLevel > 0 then DecimalRoundTrip(maxLevel); r else r
    }

    /** The glyph and separator that replace a marker region preceded by `lookback`. */
    function Glyph(lookback: string): string
      reads this
    {
      (if lookback == ContinuationIndent then SubItemIndicator else indicator) + separator
    }

    /**
      The characters after `formatText`: the region [loc, loc + len) becomes
      the sub-item glyph when the four characters before it are spaces, the
      configured indicator otherwise, each followed by the separator; nothing
      outside the region changes.
     */
    function FormattedChars(chars: string, loc: nat, len: nat): (r: string)
      reads this
      requires 4 <= loc && loc + len <= |chars|
      ensures |r| == |chars| - len + |Glyph(chars[loc - 4..loc])|
      ensures r[..loc] == chars[..loc]
      ensures r[|r| - (|chars| - (loc + len))..] == chars[loc + len..]
      ensures chars[loc - 4..loc] == ContinuationIndent ==>
                r[loc..|r| - (|chars| - (loc + len))] == SubItemIndicator + separator
      ensures chars[loc - 4..loc] != ContinuationIndent ==>
                r[loc..|r| - (|chars| - (loc + len))] == indicator + separator
    {
      var g := Glyph(chars[loc - 4..loc]);
      var r := chars[..loc] + g + chars[loc + len..];
      assert r[loc..|r| - (|chars| - (loc + len))] == g;
      assert r[|r| - (|chars| - (loc + len))..] == chars[loc + len..];
      r
    }

    /** formatText(_:range:level:); `level` plays no part. */
    method FormatText(text: StyledText, loc: nat, len: nat, level: int)
      requires text.Valid() && 4 <= loc && loc + len <= |text.chars|
      modifies text
      ensures text.Valid()
      ensures text.chars == FormattedChars(old(text.chars), loc, len)
      ensures text.Value() == Splice(old(text.Value()), loc, len, Glyph(old(text.chars[loc - 4..loc])))
    {
      var previous := text.chars[loc - 4..loc];
      if previous == ContinuationIndent {
        text.ReplaceCharacters(loc, len, SubItemIndicator + separator);
      } else {
        text.ReplaceCharacters(loc, len, indicator + separator);
      }
    }

    /**
      addFullAttributes(_:range:level:): without a paragraph style nothing
      happens; otherwise a copy of it, unchanged, covers exactly the range.
     */
    method AddFullAttributes(text: StyledText, loc: nat, len: nat, level: int)
      requires text.Valid() && loc + len <= |text.chars|
      modifies text
      ensures text.Valid()
      ensures paragraphStyle == None ==> text.Value() == old(text.Value())
      ensures paragraphStyle.Some? ==>
                text.Value() == WithAttributes(old(text.Value()),
                                               map[ParagraphStyleKey := ParagraphValue(paragraphStyle.value)], loc, len)
    {
      if paragraphStyle.Some? {
        var updated := paragraphStyle.value;
        text.AddAttribute(ParagraphStyleKey, ParagraphValue(updated), loc, len);
      }
    }

    /**
      addAttributes(_:range:level:): the attribute-table entry for `level - 1`
      covers exactly the range. `attributesForLevel` is the element's table.
     */
    method AddAttributes(text: StyledText, loc: nat, len: nat, level: int, attributesForLevel: int -> Attributes)
      requires text.Valid() && loc + len <= |text.chars|
      modifies text
      ensures text.Valid()
      ensures text.Value() == WithAttributes(old(text.Value()), attributesForLevel(level - 1), loc, len)
    {
      text.AddAttributes(attributesForLevel(level - 1), loc, len);
    }
  }

  /**
    An item whose line follows a newline and one to four spaces is, after the
    indentation step of normalisation, preceded by exactly four spaces, so
    `formatText` gives it the sub-item glyph.
   */
  lemma ContinuationBecomesSubItem(list: MarkdownList, k: nat, item: string, loc: nat, len: nat)
    requires 1 <= k <= 4 && item != [] && item[0] != ' '
    requires loc == 1 + |ContinuationIndent| && len <= |item|
    ensures var t := IndentContinuations("\n" + Spaces(k) + item);
            && loc + len <= |t|
            && t[loc - 4..loc] == ContinuationIndent
            && list.FormattedChars(t, loc, len)[loc..loc + |list.Glyph(ContinuationIndent)|]
               == SubItemIndicator + list.separator
  {
    var s := "\n" + Spaces(k) + item;
    assert s[1..][..k] == Spaces(k);
    assert s[1..][k] == item[0];
    assert LeadingSpaces(s[1..], 4) == k;
    IndentUnfold(s);
    assert s[1 + k..] == item;
    var t := IndentContinuations(s);
    assert t[loc - 4..loc] == ContinuationIndent;
  }

  /**
    Rewriting the region a match gives (marker run plus separators) keeps the
    line's leading white space and its content, and leaves none of the run.
   */
  lemma FormatMatchedLine(list: MarkdownList, before: string, line: string, after: string)
    requires '\n' !in line && MatchLine(line, list.maxLevel).Some?
    requires var mt := MatchLine(line, list.maxLevel).value; 4 <= |before| + mt.markerStart
    ensures var mt := MatchLine(line, list.maxLevel).value;
            var loc := |before| + mt.markerStart;
            var chars := before + line + after;
            list.FormattedChars(chars, loc, mt.contentStart - mt.markerStart)
            == before + line[..mt.markerStart] + list.Glyph(chars[loc - 4..loc]) + line[mt.contentStart..] + after
  {
    var mt := MatchLine(line, list.maxLevel).value;
    FormatRegion(list, before, line, after, mt.markerStart, mt.contentStart);
  }

  /** Rewriting any region [start, end) of a line embedded in a text. */
  lemma FormatRegion(list: MarkdownList, before: string, line: string, after: string, start: nat, end: nat)
    requires start <= end <= |line| && 4 <= |before| + start
    ensures var loc := |before| + start;
            var chars := before + line + after;
            list.FormattedChars(chars, loc, end - start)
            == before + line[..start] + list.Glyph(chars[loc - 4..loc]) + line[end..] + after
  {
    var loc := |before| + start;
    var chars := before + line + after;
    var len := end - start;
    var g := list.Glyph(chars[loc - 4..loc]);
    assert list.FormattedChars(chars, loc, len) == chars[..loc] + g + chars[loc + len..];
    assert chars[..loc] == before + line[..start];
    assert chars[loc + len..] == line[end..] + after;
  }
}
