# CDMarkdownKit core, modelled in Dafny

CDMarkdownKit turns Markdown text into an attributed string. This project
models two parts of it.

- **`CDMarkdownParser`**, the driver. First it runs five in-place rewrites
  of the raw text. Then it gives every character the base font, foreground
  colour, background colour and paragraph style. Last it lets each element
  of its pipeline rewrite the attributed string. The pipeline is the escaping
  group, the default group, the caller's custom elements and the unescaping
  group, in that order. The automatic-link element is skipped while
  automatic link detection is off. Callers edit the custom elements in place:
  they append an element, or remove the first entry that is the same object.
- **`CDMarkdownList`**, the level-aware list element. Its pattern takes the
  marker-run bound from `maxLevel`. `formatText` replaces a marker region by
  a bullet glyph and the separator. It uses the sub-item glyph `◦` when the
  four characters before the region are spaces, and the configured indicator
  otherwise. It also has a paragraph-style pass and a per-level attribute
  pass.

Files and modules:

- `wrappers.dfy` (`Wrappers`): the `Option` type used for Swift optionals.
- `styled_text.dfy` (`StyledStrings`): the attributed string, as a value
  (`Styled`) and as a class updated in place (`StyledText`). `Splice` gives
  the meaning of `replaceCharacters(in:with:)`. `WithAttributes` gives the
  meaning of `addAttributes(_:range:)`.
- `normalizer.dfy` (`Normalizer`): the five normalisation rewrites as
  functions over `string`, and their properties.
- `list.dfy` (`Lists`): the list pattern and a matcher for one line, and the
  `MarkdownList` class with `formatText`, `addFullAttributes` and
  `addAttributes`.
- `parser.dfy` (`Parsing`): element objects and kinds, the custom-element
  list, the automatic-link gate, the base attributes, and the
  `MarkdownParser` class with its `Parse` loop.

Four behaviours of the code are easy to misread; the model follows the code:

- Runs of two or more newlines collapse to a single `"\n"`, not to a blank
  line.
- The space-space-newline step searches for the literal ten-character string
  `"  [\n|\r|\r\n]"`, because no regular-expression option is passed. An
  ordinary line ending of two spaces and a newline is therefore left alone.
- The line-start strip keeps only tab, `_`, digits, `+`, `-`, `*`, `#`,
  space and word characters. Any other white space at a line start is
  deleted. So is the newline of an empty line, and so is a leading `>`, `[`,
  `!` or backquote.
- The sub-item glyph `◦` is fixed in the code. It is not a setting.

## Model

| member | source | states |
|---|---|---|
| Normalizer.CollapseNewlines | Source/CDMarkdownParser.swift:186-190 | No two newlines are adjacent afterwards; the first character and all non-newline characters are kept in order; the text never grows |
| Normalizer.CollapseDropsRepeatedNewlines | Source/CDMarkdownParser.swift:186-190 | The greedy scan equals the position-wise reading: a character is dropped exactly when it is a newline right after a newline of the original, so each run of two or more becomes one newline and single newlines stay |
| Normalizer.CollapseUnchangedIff | Source/CDMarkdownParser.swift:186-190 | The collapse step changes the text exactly when it holds two adjacent newlines |
| Normalizer.CollapseIdempotent | Source/CDMarkdownParser.swift:186-190 | Collapsing twice gives the same text as collapsing once |
| Normalizer.ReplaceOccurrences | Source/CDMarkdownParser.swift:191-199 | Literal, left-to-right, non-overlapping replacement; a replacement no longer than the target never lengthens the text |
| Normalizer.ReplaceAtFirstOccurrence | Source/CDMarkdownParser.swift:191-199 | The text before the first occurrence of the target is copied, that occurrence becomes the replacement, and the scan resumes right after it; with the unchanged-when-absent lemma this fixes the output on every input |
| Normalizer.ReplaceUnchangedWhenAbsent | Source/CDMarkdownParser.swift:191-199 | Text in which the target does not occur is returned unchanged |
| Normalizer.ReplaceShrinksWhenPresent | Source/CDMarkdownParser.swift:191-199 | With a shorter replacement, any occurrence of the target makes the text strictly shorter |
| Normalizer.ReplaceUnchangedIff | Source/CDMarkdownParser.swift:191-199 | With a shorter replacement (both literal steps), the text is unchanged exactly when the target does not occur |
| Normalizer.ReplaceLeavesNoOccurrence | Source/CDMarkdownParser.swift:191-194 | When the target's head character is unique in it and the replacement shares no character with it, no occurrence survives |
| Normalizer.NbspStepLeavesNoEntity | Source/CDMarkdownParser.swift:191-194 | After the `&nbsp;` step no `&nbsp;` remains |
| Normalizer.NbspStepIdempotent | Source/CDMarkdownParser.swift:191-194 | Running the `&nbsp;` step again changes nothing |
| Normalizer.ForcedBreakNeedsLiteralBracket | Source/CDMarkdownParser.swift:195-199 | The space-space-newline step leaves any text without a `[` unchanged, because its target is a literal |
| Normalizer.StripFrom | Source/CDMarkdownParser.swift:200-209 | Deletes the first character of each original line when it is outside the allowed class; removes at most one character per line start |
| Normalizer.StripLineStarts | Source/CDMarkdownParser.swift:200-209 | The text starts at a line start; at most one character per line is removed |
| Normalizer.StripLineByLine | Source/CDMarkdownParser.swift:200-209 | The step works line by line: a non-empty line loses at most its first character, only when that character is not allowed, and the lines after it are processed independently |
| Normalizer.StripLastLine | Source/CDMarkdownParser.swift:200-209 | A last line without a newline after it is handled the same way |
| Normalizer.StripEmptyLine | Source/CDMarkdownParser.swift:200-209 | The newline of an empty line is itself a disallowed line start and is deleted |
| Normalizer.StripUnchangedIff | Source/CDMarkdownParser.swift:200-209 | The strip step changes the text exactly when some line starts with a character outside the allowed class |
| Normalizer.MarkupLineStartStripped | Source/CDMarkdownParser.swift:200 | A line opening with `>`, `[`, `!` or a backquote loses that character and keeps the rest |
| Normalizer.LeadingSpaces | Source/CDMarkdownParser.swift:211 | Counts the spaces the greedy `[ ]{1,4}` takes: at most the bound, all spaces, and stopping at the first non-space below the bound |
| Normalizer.IndentContinuations | Source/CDMarkdownParser.swift:211-218 | The greedy scan for a newline and one to four spaces never shrinks the text and keeps its first character |
| Normalizer.IndentContinuationsCanonical | Source/CDMarkdownParser.swift:211-218 | After the step every newline followed by a space is followed by four spaces, and the non-space characters are those of the input, in order |
| Normalizer.IndentNoNewline | Source/CDMarkdownParser.swift:211-218 | Text without a newline is left unchanged |
| Normalizer.IndentLine | Source/CDMarkdownParser.swift:211-218 | A line opening with a newline and `k` spaces: one to four spaces become exactly four, none or more than four stay as they are, and the rest of the line is copied |
| Normalizer.IndentUnchangedIff | Source/CDMarkdownParser.swift:211-218 | The indent step changes the text exactly when its indentation is not yet canonical |
| Normalizer.IndentIdempotent | Source/CDMarkdownParser.swift:211-218 | Running the indent step twice gives the same text as running it once |
| Normalizer.IndentSplitAtNewline | Source/CDMarkdownParser.swift:211-218 | A cut just before a newline is a clean boundary of the indent scan |
| Normalizer.Normalize | Source/CDMarkdownParser.swift:186-218 | The five steps in the order `parse` runs them; the result has canonical continuation indentation |
| StyledStrings.Splice | Source/CDMarkdownList.swift:85-90 | `replaceCharacters`: the prefix and suffix and their attributes are kept, the new characters are in place, the length changes by the size difference, and inserted characters take the attributes of the first replaced character, or of a neighbour for a pure insertion |
| StyledStrings.SpliceUndo | Source/CDMarkdownList.swift:85-90 | Replacing the new characters by the old ones restores the text |
| StyledStrings.WithAttributes | Source/CDMarkdownList.swift:113-114 | `addAttributes` over a range: characters unchanged, positions outside the range unchanged, inside the range the added keys win and the other keys are kept |
| StyledStrings.WithAttributesIdempotent | Source/CDMarkdownList.swift:113-114 | Adding the same attributes twice over a range is the same as adding them once |
| StyledStrings.WithAttributesCompose | Source/CDMarkdownParser.swift:223-230 | Two additions over one range equal one addition of both, the later winning |
| StyledStrings.StyledText.FromString | Source/CDMarkdownParser.swift:180 | `NSAttributedString(string:)`: the given characters, each with no attributes |
| StyledStrings.StyledText.ReplaceCharacters | Source/CDMarkdownList.swift:85-90 | The in-place text becomes the splice of its old value |
| StyledStrings.StyledText.AddAttributes | Source/CDMarkdownList.swift:113-114 | The in-place text becomes its old value with the attributes added over the range |
| StyledStrings.StyledText.AddAttribute | Source/CDMarkdownParser.swift:223-230 | Adding one key and value over a range, as the font, colour and paragraph-style helpers do |
| Lists.DecimalRoundTrip | Source/CDMarkdownList.swift:48 | The decimal text written for `maxLevel` reads back as `maxLevel` |
| Lists.MarkdownList.Regex | Source/CDMarkdownList.swift:47-50 | The pattern is the fixed head, the bound and the fixed tail; the bound is empty (unbounded) exactly when `maxLevel <= 0`, else the decimal digits of `maxLevel`, with no leading zero |
| Lists.MatchLine | Source/CDMarkdownList.swift:36 | A match splits the line into leading white space, an accepted marker run, at least one space or tab, and non-empty content; the separators are taken greedily, so the content starts at a non-separator, or at the last character when only separators follow the marker run |
| Lists.ShapeIsUnique | Source/CDMarkdownList.swift:36 | Any split of the line into the pattern's shape has the marker position and level that `MatchLine` reports, and its content start too when its separators cannot be extended |
| Lists.MatchLineIff | Source/CDMarkdownList.swift:36 | A line matches exactly when it has the pattern's shape, with a marker run that is non-empty, all `*`/`+`/`-`, and within a positive `maxLevel`; the shape fixes the marker position and the level |
| Lists.LongRunDoesNotMatch | Source/CDMarkdownList.swift:36 | A marker run longer than a positive `maxLevel` leaves the line unmatched |
| Lists.MarkdownList.constructor | Source/CDMarkdownList.swift:54-78 | Every setting is stored; a missing paragraph style is replaced by the list's own default |
| Lists.MarkdownList.WithDefaults | Source/CDMarkdownList.swift:54-63 | The defaults are indicator `•`, separator `" "`, `maxLevel` 0 and no font or colours |
| Lists.MarkdownList.FormattedChars | Source/CDMarkdownList.swift:83-91 | Prefix and suffix of the range are kept; the range becomes `Glyph` plus separator, where `Glyph` is `◦` when the four characters before it are spaces and the indicator otherwise; the length changes accordingly |
| Lists.MarkdownList.FormatText | Source/CDMarkdownList.swift:80-93 | The text becomes the splice of the range by the glyph chosen from the four characters before it; `level` plays no part |
| Lists.MarkdownList.AddFullAttributes | Source/CDMarkdownList.swift:95-108 | Without a paragraph style the text is unchanged; otherwise exactly the range gets that style, unmodified |
| Lists.MarkdownList.AddAttributes | Source/CDMarkdownList.swift:110-115 | Exactly the range gets the attribute-table entry for `level - 1` |
| Lists.FormatMatchedLine | Source/CDMarkdownList.swift:83-91 | Formatting the marker run and separators of a matched line keeps its leading white space and its content and puts the glyph between them |
| Lists.FormatRegion | Source/CDMarkdownList.swift:83-91 | Rewriting any region of a line set in a text replaces just that region by the glyph; the text before and after it is kept |
| Lists.ContinuationBecomesSubItem | Source/CDMarkdownList.swift:83-86 | An item after a newline and one to four spaces is, after the indent step, preceded by exactly four spaces and so gets the sub-item glyph |
| Parsing.RemoveFirst | Source/CDMarkdownParser.swift:169-176 | Without the element the list is unchanged; with it the length drops by one |
| Parsing.RemoveFirstMultiset | Source/CDMarkdownParser.swift:169-176 | Exactly one copy of the element leaves the list's multiset, when there is one; every other entry stays |
| Parsing.RemoveFirstAt | Source/CDMarkdownParser.swift:170-175 | Removal cuts the list at the first position holding the very same object |
| Parsing.AddThenRemove | Source/CDMarkdownParser.swift:165-176 | Appending an absent element and removing it restores the list; for an element already present the earlier copy goes and the new one stays at the end |
| Parsing.MarkdownParser.AddCustomElement | Source/CDMarkdownParser.swift:165-167 | The element is appended at the end; nothing else changes |
| Parsing.MarkdownParser.RemoveCustomElement | Source/CDMarkdownParser.swift:169-176 | The list becomes `RemoveFirst` of the old list; nothing else changes |
| Parsing.MarkdownParser.constructor | Source/CDMarkdownParser.swift:73-162 | Groups laid out as escaping (code escaping, escaping), default (header … underline, then image where the platform has it), unescaping (code, syntax, unescaping); a missing paragraph style becomes the parser default; the list element receives the caller's paragraph style as given, so it falls back to its own default |
| Parsing.NewElements | Source/CDMarkdownParser.swift:60-151 | The element allocations of the stored properties and of `init`: fresh, pairwise distinct element objects with exactly the given kinds, in order |
| Parsing.Executed | Source/CDMarkdownParser.swift:236-237 | The elements that pass the automatic-link gate, in pipeline order; never more than the pipeline holds |
| Parsing.ExecutedAllWhenEnabled | Source/CDMarkdownParser.swift:236-237 | With detection on, every element runs |
| Parsing.ExecutedGroup | Source/CDMarkdownParser.swift:236-237 | A group whose every element passes the gate runs whole |
| Parsing.ExecutedMembership | Source/CDMarkdownParser.swift:236-243 | An element runs exactly when it is in the pipeline and is not an automatic-link element while detection is off |
| Parsing.ExecutedUnchangedIff | Source/CDMarkdownParser.swift:236-243 | With detection off, the pipeline runs whole exactly when it holds no automatic-link element |
| Parsing.ExecutedAppend | Source/CDMarkdownParser.swift:232-237 | The gate acts element by element, so it distributes over the four groups and keeps their order |
| Parsing.RunElementsAppend | Source/CDMarkdownParser.swift:236-243 | Running two groups is running the first and then the second on its output |
| Parsing.BaseAdditions | Source/CDMarkdownParser.swift:220-230 | The four whole-range additions of font, foreground colour, background colour and paragraph style give text without attributes exactly those four on every character, characters unchanged |
| Parsing.MarkdownParser.AddBaseAttributes | Source/CDMarkdownParser.swift:220-230 | The text becomes its characters with exactly the base attributes on each |
| Parsing.RunPipeline | Source/CDMarkdownParser.swift:236-243 | The elements that run are exactly those that pass the automatic-link gate, in pipeline order, and the text becomes what they produce one after another |
| Parsing.KindsExecuted | Source/CDMarkdownParser.swift:236-237 | The kinds of the elements that run are the pipeline's kinds with the automatic-link kind dropped while detection is off |
| Parsing.GateAroundAutoLink | Source/CDMarkdownParser.swift:236-237 | Between kinds the gate keeps, a lone automatic-link kind is kept exactly when detection is on |
| Parsing.GateDefaultKinds | Source/CDMarkdownParser.swift:154-159 | In the default group the gate removes only the automatic-link element |
| Parsing.ExecutionOrderOf | Source/CDMarkdownParser.swift:232-235 | For groups laid out as the initializer lays them out, the run order is code escaping, escaping, the gated default group, the gated custom elements, code, syntax, unescaping |
| Parsing.MarkdownParser.ExecutionOrder | Source/CDMarkdownParser.swift:154-160 | The same run order for the parser's own groups and current custom elements, that is for the gated `Pipeline()` (escaping, default, custom, unescaping, lines 232-235) |
| Parsing.MarkdownParser.Parse | Source/CDMarkdownParser.swift:179-245 | The elements that run are exactly the gated pipeline in order, and the result is what they produce, one after another, from the normalised text carrying the base attributes on every character; the text starts as `StyledText.FromString` of the normalised string (line 180) |

## Left out

- The regular-expression engine is not modelled. Each pattern's effect is written out by hand.
- Only `\n` ends a line. `\r`, `\r\n` and the Unicode line terminators do not start or end lines for `^`, `$` or `.`.
- `\w` is reduced to ASCII letters, digits and `_`. `\s` is reduced to space, tab, vertical tab, form feed and carriage return.
- Offsets count Dafny characters, not UTF-16 code units. Text outside the Basic Multilingual Plane is therefore not measured as Foundation measures it.
- Lists.MatchLine: applies the list pattern to one line with no newline in it. A match whose leading `\s*` runs across blank lines into the next line is not modelled.
- `parse(_:)` on a pre-styled string is not modelled. `Parse` takes plain text, as `parse(_:)` on a `String` does. Attributes carried through the normalisation rewrites are not tracked.
- Fonts, colours and paragraph styles are abstract tokens. This covers the system-font and colour defaults and the `lineSpacing = 1.38` floating-point settings.
- The bodies of the header, quote, link, automatic-link, emphasis, underline, code, syntax, image, escaping and unescaping elements are not part of this model. `Parse` takes their effect as the parameter `effect`.
- The bold, italic, bold-italic and underline fonts and the image size only configure those elements, so they are not parameters of the model.
- `CDMarkdownLevelElement`, which finds the matches, picks the range and level, and clamps `attributesForLevel`, is not part of this model. Range, level and the attribute table are parameters.
- `listMatches` and `replaceMatches` in `CDMarkdownList.swift` are unused wrappers over Foundation and are not modelled.
- Conditional compilation is reduced to one constructor argument, `withImage`. It says whether the default group ends with an image element.
- The gate tests the exact dynamic type. A subclass of the automatic-link element would still run, so it belongs under `Custom` kinds here.
- Lists.MarkdownList.FormatText: requires `4 <= loc`. Swift reads the four characters before the range unconditionally, so an earlier location traps.
- The escaping, default and unescaping groups are `var` in Swift but are never reassigned after `init`, so they are `const` here.
- Of the parser's elements, only the list element's configuration is modelled (`listFormat`). The others are element objects with a kind.
