# bmfont-utils text layout, in Dafny

This project models the text layout engine of bmfont-utils and proves
properties of the model. The engine turns a string into the vertex, UV and
index arrays of one textured quad per glyph of a bitmap font (an AngelCode
BMFont atlas). It has two parts:

- **WordWrapper** (`word_wrapper.dfy`) — a greedy line breaker.
  - `greedy` cuts one line off the front of a text. A forward scan adds up
    advances, kerning and letter spacing while the running width stays
    below the column width.
  - A newline ends the line, and is kept in it.
  - On overflow, a backward search finds the nearest break point (space,
    soft hyphen, en dash, hyphen-minus) and replaces it with its
    replacement text. Without one, the line is cut hard and a newline is
    appended.
  - `wrap` repeats `greedy` until the text is used up and joins the lines.
- **LayoutGenerator** (`layout_generator.dfy`) — the glyph placer.
  - The constructor divides every glyph metric and kerning amount by the
    font's nominal size and every atlas coordinate by the atlas size.
  - `layout` wraps the text unless wrapping is off, splits it at newlines
    and walks each line one UTF-16 code unit at a time:
    - a tab moves the pen by the tab width;
    - a code without a glyph is skipped;
    - a glyph gets the kerning with the previous placed glyph and the
      letter spacing (only when such a glyph exists on the line), then
      emits four vertices, four UV pairs and six indices, then advances the
      pen.
  - Right alignment starts the pen at the unused width. Justification adds
    an equal share of the unused width before every space and no-break
    space.

The other files:

- `strings.dfy` — text as `seq<int>` of UTF-16 code units, with split, join
  and concatenation.
- `font.dfy` — the raw and normalised glyph records, the last-wins glyph
  table and the first-match kerning lookup.
- `layout_properties.dfy` — reference definitions, independent of the walk,
  and the theorems that relate the walk to them:
  - `Glyphs` — the glyphs a line places;
  - `Emits` — which quad each placed glyph owns in the output arrays;
  - `PenAt`, `GlyphX` — a closed form of the pen position.
- `scenarios.dfy` — worked examples on concrete fonts.

Numbers are modelled as mathematical reals, not IEEE doubles. The
letter-spacing and tab-width fields that `wrap` stores on the shared
wrapper instance are explicit parameters here.

`layout` calls a line measurement `this.wrapper.mesure(text)`, but
WordWrapper.ts declares no such member. The model therefore takes the line
measurement as a parameter `measure: Text -> real`. Every theorem holds
for any such function. The ones about alignment state their result in
terms of `measure(line)`.

Behaviour of the code that is easy to misread, which the model keeps:

- The breaker adds the letter spacing to every code unit, the first one
  included (WordWrapper.ts:104).
- The scan continues only while the running width is strictly below the
  column width (WordWrapper.ts:79). So a text exactly as wide as the column
  still gets broken; with no break code in it, a newline is appended
  ("AAAA" at width 2, `Scenarios.ExactFitBreaks`).
- For "AA AA AA" in a column of width 2 with letters of advance 0.5, the
  code breaks at the first space when the space glyph also advances 0.5
  (`Scenarios.ThreeWordsSpaceGlyph`). It keeps "AA AA" on the first line
  whenever the space advances at least 0 and less than 0.5, for instance
  not at all in a font without a space glyph
  (`Scenarios.ThreeWordsNoSpaceGlyph`).
- The layout's kerning context is the previous placed glyph of the line.
  Tabs and unsupported codes do not reset it. The breaker's context is the
  code unit just before, whatever it is.

## Model

| member | source | states |
|---|---|---|
| Strings.Split | src/lib/LayoutGenerator.ts:94 | splitting at newlines gives one piece more than there are newlines, and no piece contains a newline |
| Strings.JoinSplit | src/lib/LayoutGenerator.ts:94 | joining the pieces of a split with the separator gives back the text, so splitting loses nothing |
| Strings.SplitJoin | src/lib/LayoutGenerator.ts:94 | splitting a join of separator-free pieces gives back exactly those pieces |
| Strings.Count | src/lib/LayoutGenerator.ts:102-103 | the occurrence count is at most the length and is zero exactly when the code does not occur (the regular-expression match is then null) |
| Font.NormalizeChar | src/lib/LayoutGenerator.ts:40-58 | each glyph metric times the nominal size, and each atlas coordinate times the atlas size, gives back the pixel value; the UV rectangle is as wide and high as the glyph in atlas units |
| Font.NormalizeLossless | src/lib/LayoutGenerator.ts:40-58 | the pixel glyph record can be rebuilt from the normalised one |
| Font.GlyphTable | src/lib/LayoutGenerator.ts:40-46 | every table entry is stored under its own id |
| Font.GlyphTableKeys | src/lib/LayoutGenerator.ts:40-46 | exactly the ids listed in the atlas have an entry |
| Font.GlyphTableLastWins | src/lib/LayoutGenerator.ts:40-59 | an id listed several times holds the normalisation of its last listing |
| Font.AdvanceTableKeys | src/lib/WordWrapper.ts:59-61 | exactly the ids listed in the atlas have an advance, whatever the atlas size |
| Font.AdvanceTableLastWins | src/lib/WordWrapper.ts:59-61 | an id listed several times holds the advance of its last listing over the nominal size |
| Font.AdvanceTableAgrees | src/lib/WordWrapper.ts:59-61 | the breaker's advance cache has the same ids as the placer's glyph table and the same advance for each |
| Font.NormalizeKernings | src/lib/LayoutGenerator.ts:61-65 | the pairs are kept in order and each amount times the nominal size is the raw amount |
| Font.FindKerning | src/lib/LayoutGenerator.ts:120-122 | the lookup finds nothing exactly when no pair matches, and otherwise the first matching pair in list order |
| Font.KerningAmountScales | src/lib/WordWrapper.ts:62-66 | looking up in the normalised list gives the raw first-match amount over the nominal size |
| WordWrapper.NewWrapper | src/lib/WordWrapper.ts:49-69 | the constructor keeps the break points and the kerning switch and normalises every kerning amount by the nominal size; it needs only a non-zero nominal size |
| WordWrapper.NewWrapperKeys | src/lib/WordWrapper.ts:59-61 | the advance cache has an entry exactly for the ids listed in the atlas |
| WordWrapper.NewWrapperAdvances | src/lib/WordWrapper.ts:59-61 | the advance cache holds, for each id, the advance of its last listing over the nominal size |
| WordWrapper.BreakCache | src/lib/WordWrapper.ts:68 | the cache lists the codes of the break points, in order |
| WordWrapper.FindBreakPoint | src/lib/WordWrapper.ts:114-115 | a break point is found exactly when the code is in the cache, and it is the first one with that code |
| WordWrapper.DefaultReplacementsEndInNewline | src/lib/WordWrapper.ts:3-20 | every default replacement text ends in a newline |
| WordWrapper.Scan | src/lib/WordWrapper.ts:79-107 | a newline stop is at a newline at or after the start; an overflow stop is within the text and strictly after the start when the start still fits |
| WordWrapper.ScanSpec | src/lib/WordWrapper.ts:79-107 | the scan stops at the end of a newline-free text all of whose prefixes are narrower than the width, at the first newline when everything before it fits, or at the first prefix whose accumulated width (advance or tab width, kerning with the previous code when kerning is on, letter spacing for every code) reaches the width |
| WordWrapper.LineWidthPlain | src/lib/WordWrapper.ts:91-104 | without kerning and tabs a text's width is its advances plus one letter spacing per code unit, the first included |
| WordWrapper.LastBreak | src/lib/WordWrapper.ts:109-122 | the backward search returns the nearest break code at or before the overflow point, or reports that there is none back to the start |
| WordWrapper.CharCost | src/lib/WordWrapper.ts:91-104 | no contract of its own; `WordWrapper.ScanSpec` and `WordWrapper.LineWidthPlain` state the width it adds up to |
| WordWrapper.Greedy | src/lib/WordWrapper.ts:72-126 | the remainder is a suffix of the input, strictly shorter when the text is non-empty and either the width is positive or the text starts with a break code, so a text on which wrap ends leaves a remainder on which it ends too |
| WordWrapper.GreedyShapes | src/lib/WordWrapper.ts:72-126 | every cut is a prefix/remainder split of the text, a break code replaced by its replacement text, or a hard break with a newline appended |
| WordWrapper.GreedyFits | src/lib/WordWrapper.ts:79-85 | a newline-free text all of whose prefixes fit is returned whole with an empty remainder |
| WordWrapper.GreedyNewline | src/lib/WordWrapper.ts:86-89 | a newline reached while everything before it fits ends the line, newline included |
| WordWrapper.ScanOverflows | src/lib/WordWrapper.ts:79-109 | the scan overflows exactly at the first prefix that reaches the width |
| WordWrapper.GreedyBreakpoint | src/lib/WordWrapper.ts:109-120 | on overflow the nearest break code at or before the overflow point is consumed once and replaced by its replacement text |
| WordWrapper.GreedyHardBreak | src/lib/WordWrapper.ts:124-125 | on overflow with no break code back to the start the line is cut at the overflow point with a newline appended |
| WordWrapper.GreedyZeroWidthBreak | src/lib/WordWrapper.ts:109-120 | with width zero or less a leading break code is replaced at once |
| WordWrapper.GreedyStalls | src/lib/WordWrapper.ts:124-125 | with width zero or less and no leading break code greedy returns a bare newline and the whole text, so wrap makes no progress |
| WordWrapper.Pieces | src/lib/WordWrapper.ts:142-149 | no contract of its own: the lines the loop collects, one greedy step each. `WordWrapper.WrapUnchanged`, `WordWrapper.WrapLinesEnd` and `WordWrapper.WrapZeroWidth` state what they are |
| WordWrapper.Wrap | src/lib/WordWrapper.ts:129-152 | no contract of its own: the lines joined with nothing between them. `WordWrapper.WrapUnchanged`, `WordWrapper.DefaultWrapLinesEnd`, `WordWrapper.WrapZeroWidth` and the `Scenarios` lemmas state what it returns |
| WordWrapper.WrapZeroWidth | src/lib/WordWrapper.ts:109-149 | at width zero or less, a text made of break codes wraps to one line per code, that code's replacement text, so the loop ends |
| WordWrapper.WrapUnchanged | src/lib/WordWrapper.ts:129-152 | a text each of whose lines fits the width comes back from wrap unchanged |
| WordWrapper.GreedyKeepsFittingLine | src/lib/WordWrapper.ts:79-89 | on such a text greedy cuts off its first line verbatim and the remainder's lines still fit |
| WordWrapper.GreedyLineEnds | src/lib/WordWrapper.ts:109-125 | with replacements ending in a newline, a greedy line that leaves text over ends in a newline |
| WordWrapper.WrapLinesEnd | src/lib/WordWrapper.ts:145-151 | with such replacements every wrapped line but the last ends in a newline |
| WordWrapper.DefaultWrapLinesEnd | src/lib/WordWrapper.ts:3-20 | with the default break points every wrapped line but the last ends in a newline |
| LayoutGenerator.NewGenerator | src/lib/LayoutGenerator.ts:37-73 | the baseline offset and default line height are the font's over its nominal size, every glyph is stored under its id, and the wrapper uses kerning and the default break points; the tables themselves are stated by `NewGeneratorGlyphs` and `NewGeneratorKernings` |
| LayoutGenerator.NewGeneratorGlyphs | src/lib/LayoutGenerator.ts:40-70 | exactly the ids listed in the atlas have a glyph, an id listed several times holds the normalisation of its last listing, and the wrapper's advance cache has the same ids with each glyph's advance |
| LayoutGenerator.NewGeneratorKernings | src/lib/LayoutGenerator.ts:61-70 | the kerning list is the font's in order with each amount times the nominal size giving the raw amount, and the wrapper holds the same list |
| LayoutGenerator.Resolve | src/lib/LayoutGenerator.ts:76-84 | no contract of its own: the option defaults (letter spacing 0, the font's line height over its size, tab width 1, left alignment). What they do is stated by `LayoutProperties.PlaceLinePositions` and `LayoutProperties.LayoutEmits` |
| LayoutGenerator.LayoutText | src/lib/LayoutGenerator.ts:86-91 | no contract of its own: the text as given when wrapping is off, otherwise wrapped. `LayoutProperties.NoWrapLines` states the first case, and the `WordWrapper` lemmas about `Wrap` the second |
| LayoutGenerator.Layout | src/lib/LayoutGenerator.ts:75-178 | no contract of its own. `LayoutProperties.LayoutEmits`, `LayoutProperties.LayoutCardinality` and `LayoutProperties.IndicesInRange` state which quads it returns, their shapes, UVs, vertical positions and indices. The horizontal positions are stated line by line: `LayoutProperties.PlaceLinePositions` holds for each line `LayoutLines` places, since `LayoutProperties.PlaceLineSpec` leaves the earlier lines' vertices unchanged, and `LayoutProperties.RightAlignShift`, `LayoutProperties.JustifyFill` and `LayoutProperties.AdvanceConservation` specialise it |
| LayoutGenerator.LineFill | src/lib/LayoutGenerator.ts:101-103 | no contract of its own; `LayoutProperties.FillTotal` and `LayoutProperties.JustifyFill` state that the shares add up to the unused width |
| LayoutGenerator.LineStart | src/lib/LayoutGenerator.ts:105 | no contract of its own; `LayoutProperties.RightAlignShift` states that right alignment shifts the line by the unused width |
| LayoutGenerator.PlaceLine | src/lib/LayoutGenerator.ts:100-170 | no contract of its own; `LayoutProperties.PlaceLineSpec` and `LayoutProperties.PlaceLinePositions` state what a line emits and where |
| LayoutGenerator.Step | src/lib/LayoutGenerator.ts:107-169 | no contract of its own; `LayoutProperties.StepEmits` and `LayoutProperties.WalkStep` state what one code unit does |
| LayoutGenerator.PlaceGlyph | src/lib/LayoutGenerator.ts:118-169 | no contract of its own; `LayoutProperties.StepEmits` states the quad it appends and `LayoutProperties.AdvanceConservation` where it lies |
| LayoutProperties.StepEmits | src/lib/LayoutGenerator.ts:107-169 | a code with a glyph appends exactly one quad that belongs to it; a tab or a code without a glyph leaves the arrays and the vertex counter alone |
| LayoutProperties.WalkStep | src/lib/LayoutGenerator.ts:107-169 | one code unit keeps the walk invariant: the pen equals the closed form, the previous glyph is the last placed glyph of the line, and one quad exists per placed glyph at its closed-form left edge |
| LayoutProperties.PlaceLineSpec | src/lib/LayoutGenerator.ts:100-170 | a whole line adds the line's glyphs' quads after the earlier ones, which stay unchanged |
| LayoutProperties.PlaceLinePositions | src/lib/LayoutGenerator.ts:104-168 | each placed glyph's left edge is its closed-form pen position plus its x offset, and the pen ends at the closed form of the whole line (advances, kerning and letter spacing between placed glyphs, tab widths, justification shares) |
| LayoutProperties.LayoutLinesSpec | src/lib/LayoutGenerator.ts:100-171 | the lines one after the other produce the glyphs of every line tagged with its line number, and the vertex counter is four per quad |
| LayoutProperties.LinesPlacedAt | src/lib/LayoutGenerator.ts:100 | line i's glyphs carry line number i and come right after those of the earlier lines |
| LayoutProperties.LayoutEmits | src/lib/LayoutGenerator.ts:86-177 | a layout has one quad per placed glyph of the wrapped text. Each quad is the glyph's size, has its top edge at -(i × line height) - y offset + baseline offset for line i, carries the glyph's UVs (u1,v1 u2,v1 u1,v2 u2,v2), and has indices [4k, 4k+2, 4k+1, 4k+1, 4k+2, 4k+3] |
| LayoutProperties.LinesPlacedCount | src/lib/LayoutGenerator.ts:94-118 | splitting at newlines loses and adds no glyph: the lines place as many glyphs as the text has non-newline codes with a glyph |
| LayoutProperties.LayoutCardinality | src/lib/LayoutGenerator.ts:133-164 | the vertex, UV and index arrays have 8, 8 and 6 entries per placed glyph |
| LayoutProperties.IndicesInRange | src/lib/LayoutGenerator.ts:154-166 | every index names an existing vertex (below half the vertex-array length), and quad k uses exactly vertices 4k..4k+3 in the pattern of its two triangles |
| LayoutProperties.NoWrapLines | src/lib/LayoutGenerator.ts:86-94 | with wrapping off the lines are the text's own newline-separated pieces and the quads count its placeable codes |
| LayoutProperties.RightAlignShift | src/lib/LayoutGenerator.ts:101-105 | right alignment moves every glyph of a left-aligned line, and its final pen, right by width - measure(line); when the measurement equals the placed advance the line ends at the width |
| LayoutProperties.JustifyFill | src/lib/LayoutGenerator.ts:102-113 | justification moves each glyph right by one share per space or no-break space up to and including it; the shares total width - measure(line) when the line has a space and nothing otherwise |
| LayoutProperties.FillTotal | src/lib/LayoutGenerator.ts:102-103 | the justification shares of a line add up to its unused width, or to zero without spaces |
| LayoutProperties.AdvanceConservation | src/lib/LayoutGenerator.ts:115-168 | on a left-aligned tab-free line each glyph's left edge is the sum of the advances, kernings and spacings before it, plus its own kerning, spacing and x offset; its right edge is its width further on; the pen ends at the total advance |
| LayoutProperties.SkipUnsupported | src/lib/LayoutGenerator.ts:109-118 | without justification, codes with no glyph change nothing: the walk gives the same pen, previous glyph and arrays as the walk over the line with them removed |
| Scenarios.ThreeWordsSpaceGlyph | src/lib/WordWrapper.ts:72-152 | "AA AA AA" at width 2 with 0.5 advances for letters and space wraps to "AA\nAA\nAA" |
| Scenarios.ThreeWordsNoSpaceGlyph | src/lib/WordWrapper.ts:72-152 | the same text in a font without a space glyph wraps to "AA AA\nAA" |
| Scenarios.ExactFitBreaks | src/lib/WordWrapper.ts:79-125 | "AAAA" at width 2, exactly as wide as the column and with no break code, wraps to "AAAA" with a newline appended |
| Scenarios.ZeroWidthBreakCodes | src/lib/WordWrapper.ts:109-149 | at width 0 a space and a hyphen-minus wrap to a newline, then "-" and a newline |
| Scenarios.ZeroAtlasWrapper | src/lib/WordWrapper.ts:59-66 | a font with nominal size 2 and atlas size 0 still gives the line breaker an advance of 1.5 for a glyph of advance 3 and a kerning amount of 1 for a raw amount of 2 |
| Scenarios.KernedPair | src/lib/LayoutGenerator.ts:118-168 | "AB" with unit glyphs, kerning(A, B) = -0.1 and no letter spacing draws A at 0 and B at 0.9, and the pen ends at 1.9 |

## Left out

- getGeometry (LayoutGenerator.ts:181-194) wraps the arrays in a BufferGeometry from another package, which is not part of this model.
- Parsing the BMFont atlas description is done by the external loader. The model starts from its fields (chars, kernings, info.size, common.scaleW/scaleH/base/lineHeight).
- The line measurement `mesure` has no definition in WordWrapper.ts. It is a parameter of `Layout`, and nothing is assumed about it.
- Numbers are reals. IEEE rounding, NaN and Infinity are not modelled.
- Font.NormalizeChar, Font.GlyphTable, LayoutGenerator.NewGenerator: these require a non-zero nominal size and a non-zero atlas size (`Font.Divisible`), the divisors at LayoutGenerator.ts:41-51. The source divides without checking and would produce Infinity or NaN.
- Font.AdvanceTable, Font.NormalizeKernings, WordWrapper.NewWrapper: these require only a non-zero nominal size (`Font.Sized`), their one divisor at WordWrapper.ts:60 and 65 and LayoutGenerator.ts:64. A zero atlas size is accepted (`Scenarios.ZeroAtlasWrapper`). With a zero nominal size the source would produce Infinity or NaN.
- WordWrapper.Wrap: defined on the texts on which the source's loop ends (`WordWrapper.Finishes`). These are every text at a positive width and, at width zero or less, the empty text and texts made only of break codes, which are used up one code per step (`WordWrapper.WrapZeroWidth`). At width zero or less any other text reaches a remainder that starts with a code that is no break code. Greedy then returns that remainder unchanged for ever (`WordWrapper.GreedyStalls`), so the source never returns and there is no result to model.
- LayoutGenerator.LayoutText: requires wrapping off or a text on which wrap ends, for the same reason.
- An absent `width` is not modelled. The source would pass it to wrap as undefined, which wrap defaults to 10, and would compute NaN positions for right alignment and justification.
- Centre alignment is not in the source's options, so it is not modelled.
- Optional output channels and glyph counts are not in this version of the source.
- The breaker keeps letter spacing and tab width as fields of the shared instance between calls. Here they are parameters of each call, so the sharing between calls is not modelled.
- Strings.Split: models String.prototype.split with a one-code-unit separator, the form of the split at newlines (LayoutGenerator.ts:94). The split into single code units, `split('')` (LayoutGenerator.ts:107), is modelled by walking the line's code units one by one (`PlaceChars`).
- LayoutProperties.AdvanceConservation: stated for left-aligned lines without tabs. The general case, with tabs, right alignment or justification, is `LayoutProperties.PlaceLinePositions`.
- LayoutProperties.SkipUnsupported: stated without justification, because a space or no-break space without a glyph still takes a justification share.
