# Terminal Markdown tables: text measurement and layout

This project models, in Dafny, the text helpers and the table layout that the
gemini-cli terminal renders Markdown tables with:

- `packages/cli/src/ui/utils/textUtils.ts`:
  - the code-point helpers `toCodePoints`, `cpLen` and `cpSlice`;
  - `getAsciiArtWidth`;
  - `isBinary`;
  - `getPlainTextLength`, which removes inline Markdown markup before it
    measures a cell;
  - `wrappedLineCount`, which counts the terminal rows a cell takes.
- `packages/cli/src/ui/utils/TableRenderer.tsx`:
  - natural column widths;
  - the total bordered width;
  - proportional scaling with a floor of three columns;
  - header and row heights;
  - the three border lines;
  - the vertical separators of a row block;
  - the order of the blocks.

A JavaScript string is a sequence of UTF-16 code units (`JsStrings.JsString`).
A Node `Buffer` is a sequence of bytes.

The `string-width` package is a foreign library. Every operation that measures
text takes it as a parameter `measure`, a function from strings to natural
numbers.

Each regular-expression replacement and split is modelled as the scan the
regular-expression engine performs:

- A lazy `(.*?)` stops at the nearest closer it can reach without crossing a
  line terminator.
- `split` on `\n|<br\s*\/?>` (case-insensitive) cuts at the leftmost break.
  It keeps the segments and the breaks between them.

`isBinary` and `wrappedLineCount` loop in the source, so they are methods.
Each is proved against a specification function. Everything else is written
as functions and lemmas, as the source writes it as expression chains.

Files and modules:

| file | module | models |
|---|---|---|
| `js_strings.dfy` | `JsStrings` | strings, bytes, `split`/`join` on one character, slice indices, subsequences |
| `code_points.dfy` | `CodePoints` | `toCodePoints`, `cpLen`, `cpSlice` |
| `ascii_art.dfy` | `AsciiArt` | `getAsciiArtWidth` |
| `binary_sniff.dfy` | `BinarySniff` | `isBinary` |
| `plain_text.dfy` | `PlainText` | `getPlainTextLength` |
| `line_wrap.dfy` | `LineWrap` | `wrappedLineCount` |
| `table_layout.dfy` | `TableLayout` | column widths, scaling, heights |
| `table_grid.dfy` | `TableGrid` | borders, row blocks, block order |

### Scaling: the model follows the code

The comment at `TableRenderer.tsx:37` reads as a promise that the table fits
the terminal. The code keeps that promise for the columns only.

- When the table overflows, each column is scaled by
  `terminalWidth / totalWidth`.
- The `n + 1` separator columns are not scaled.
- So even when no column is raised to the floor of 3, the bordered table can
  be wider than the terminal.

The model follows the code and proves both sides:

- `TableLayout.ScaledColumnsFit`: the scaled columns alone fit.
- `TableLayout.ScaledTableCanOverflow`: ten columns of natural width 20 on a
  100-column terminal scale to 9 each. With their eleven separators the
  bordered table is 101 columns wide.

## Model

| member | source | states |
|---|---|---|
| JsStrings.RelativeIndex | packages/cli/src/ui/utils/textUtils.ts:67-71 | The index `slice`/`subarray` take from an argument is clamped to `[0, len]`. An in-range argument is kept as is. |
| JsStrings.SplitOn | packages/cli/src/ui/utils/textUtils.ts:19 | `split('\n')` gives at least one piece. No piece holds the separator. Joining the pieces with the separator gives the input back. |
| JsStrings.SplitOnJoinWith | packages/cli/src/ui/utils/TableRenderer.tsx:95 | Splitting on a separator undoes joining with it, when no part holds the separator. |
| JsStrings.SubsequenceTrans | packages/cli/src/ui/utils/textUtils.ts:78-85 | Deleting from a text that was itself obtained by deleting is still deleting. This chains the seven replacements. |
| JsStrings.SubsequenceLength | packages/cli/src/ui/utils/textUtils.ts:78-85 | Text obtained by deleting units is never longer than the original. |
| CodePoints.ToCodePoints | packages/cli/src/ui/utils/textUtils.ts:57-61 | Joining the code points gives the string back. Each element is one unit or a surrogate pair. No lone high surrogate is followed by an element starting with a low one. |
| CodePoints.CpLenVersusLength | packages/cli/src/ui/utils/textUtils.ts:63-65 | `CpLen` (`cpLen`): `cpLen(s) <= s.length`. The two are equal exactly when `s` holds no surrogate pair. |
| CodePoints.ToCodePointsOfConcat | packages/cli/src/ui/utils/textUtils.ts:57-61 | Re-splitting joined code points of the iterator's shape gives the same code points. |
| CodePoints.CpSliceCodePoints | packages/cli/src/ui/utils/textUtils.ts:67-71 | `CpSlice` (`cpSlice`): the code points of `cpSlice(s, a, b)` are exactly code points `a..b` of `s`, after JavaScript's clamping of negative and oversized indices. |
| CodePoints.CpSliceLength | packages/cli/src/ui/utils/textUtils.ts:67-71 | For `0 <= a <= b`, `cpLen(cpSlice(s, a, b)) == min(b, cpLen(s)) - min(a, cpLen(s))`. |
| CodePoints.CpSliceSplit | packages/cli/src/ui/utils/textUtils.ts:67-71 | For every cut `k`, negative ones included, `cpSlice(s, 0, k) + cpSlice(s, k) == s`. |
| AsciiArt.MaxLength | packages/cli/src/ui/utils/textUtils.ts:19 | `Math.max` of the line lengths is at least every line's length and equal to one of them. |
| AsciiArt.AsciiArtWidthIsLongestLine | packages/cli/src/ui/utils/textUtils.ts:14-20 | `GetAsciiArtWidth` (`getAsciiArtWidth`): the empty string gives 0. Otherwise no newline-free stretch of the art is longer than the width, and some stretch is exactly that long. |
| BinarySniff.SampleLength | packages/cli/src/ui/utils/textUtils.ts:37 | The sample never exceeds the buffer. For a non-negative `sampleSize` it is `min(length, sampleSize)`. |
| BinarySniff.IsBinary | packages/cli/src/ui/utils/textUtils.ts:29-49 | The loop returns true exactly when the buffer is present and a NUL byte occurs within the sample. |
| BinarySniff.AbsentIsText | packages/cli/src/ui/utils/textUtils.ts:33-35 | A `null` or `undefined` buffer is never binary. |
| BinarySniff.NulInPrefix | packages/cli/src/ui/utils/textUtils.ts:37-48 | For `sampleSize >= 0`, the verdict is: some byte at an index below both the length and `sampleSize` is 0. |
| BinarySniff.DefaultSampleSize | packages/cli/src/ui/utils/textUtils.ts:29-32 | Without a sample size, the verdict is: some byte among the first 512 is 0. |
| BinarySniff.BeyondSampleIgnored | packages/cli/src/ui/utils/textUtils.ts:37 | Appending bytes after the first `sampleSize` never changes the verdict. |
| BinarySniff.NegativeSampleSize | packages/cli/src/ui/utils/textUtils.ts:37 | A negative `sampleSize` makes `subarray` count from the end. All but the last `-sampleSize` bytes are examined. |
| PlainText.FindCloserFinds | packages/cli/src/ui/utils/textUtils.ts:79-84 | `FindCloser`: the lazy `(.*?)close` finds a closer with no line terminator before it and no earlier closer. When it finds none, every closer lies past a line terminator. |
| PlainText.FindCloserIsNearest | packages/cli/src/ui/utils/textUtils.ts:79-84 | The converse: the nearest closer reachable on the same line is exactly the one found. |
| PlainText.FindLinkTailFinds | packages/cli/src/ui/utils/textUtils.ts:85 | The link tail `\]\(.*?\)` is the nearest `](` and the nearest `)` after it, both on the same line. When there is none, no label/URL split of the rest of the line exists. |
| PlainText.PairStep | packages/cli/src/ui/utils/textUtils.ts:79-84 | Each step of a global pair replacement moves forward, and what it keeps lies within the stretch it passes over. |
| PlainText.LinkStep | packages/cli/src/ui/utils/textUtils.ts:85 | Each step of the link replacement moves forward, and what it keeps lies within the stretch it passes over. |
| PlainText.StripPairDeletesOnly | packages/cli/src/ui/utils/textUtils.ts:79-84 | `StripPair` is `StripPairFrom` from index 0. Each delimited-pair replacement only deletes units, so its result is a subsequence of its input. |
| PlainText.StripLinksDeletesOnly | packages/cli/src/ui/utils/textUtils.ts:85 | `StripLinks`, which is `StripLinksFrom` from index 0: the link replacement only deletes units. |
| PlainText.CleanTextDeletesOnly | packages/cli/src/ui/utils/textUtils.ts:77-87 | `CleanText`, the text `GetPlainTextLength` measures: the text handed to `string-width` is a subsequence of the cell text, so it is never longer. |
| PlainText.StripPairUnchanged | packages/cli/src/ui/utils/textUtils.ts:79-84 | A replacement whose opener never occurs leaves the text alone. |
| PlainText.ApplyAllUnchanged | packages/cli/src/ui/utils/textUtils.ts:78-85 | A chain of replacements none of whose openers occur leaves the text alone. |
| PlainText.ApplyAllAppend | packages/cli/src/ui/utils/textUtils.ts:78-85 | Chaining replacements is sequential composition: running `a ++ b` is running `a`, then `b`. |
| PlainText.CleanTextOfPlainText | packages/cli/src/ui/utils/textUtils.ts:77-87 | Text without `*`, `_`, `~`, `` ` ``, `[` and `<u>` is measured as it stands. |
| PlainText.BoldIsStripped | packages/cli/src/ui/utils/textUtils.ts:79 | `**Foo**` is measured as `Foo`. |
| PlainText.LinkKeepsLabel | packages/cli/src/ui/utils/textUtils.ts:85 | `[Link](url)` is measured as `Link`. |
| PlainText.SplitPairStage | packages/cli/src/ui/utils/textUtils.ts:80 | The italic replacement leaves `*a` LF `b*` alone: the line feed stops the lazy match. |
| PlainText.SplitPairIsKept | packages/cli/src/ui/utils/textUtils.ts:77-87 | A delimiter pair split by a line feed is not stripped at all: `*a` LF `b*` is measured unchanged. |
| LineWrap.SkipSpaces | packages/cli/src/ui/utils/textUtils.ts:91 | The greedy `\s*` stops at the first unit that is not white space. |
| LineWrap.BreakEndIsBreakToken | packages/cli/src/ui/utils/textUtils.ts:91 | `BreakEnd`: the scanner reports a break from `q` to `e` exactly when that stretch matches `\n\|<br\s*\/?>` (case-insensitive). It misses none and reports no false one. |
| LineWrap.SegmentsRebuildText | packages/cli/src/ui/utils/textUtils.ts:91 | `Segments` and `Breaks` rebuild the text when the breaks are put back between the segments. Every cut is a break, and no segment holds one. The cuts are the leftmost ones: no break starts inside a segment, not even one that would run past its end. |
| LineWrap.LeftmostCutsUnique | packages/cli/src/ui/utils/textUtils.ts:91 | At most one split of a text cuts at its leftmost breaks. So the split is fully determined, and `<br` LF `>` can only split as `['', '']`. |
| LineWrap.SegmentsOfJoin | packages/cli/src/ui/utils/textUtils.ts:91 | Splitting undoes joining lines with `<br>`, when no line holds a line feed or `<`. |
| LineWrap.ThreeLineSplit | packages/cli/src/ui/utils/textUtils.ts:91 | `Line 1<br>Line 2<br>Line 3` splits into its three lines. |
| LineWrap.CeilDiv | packages/cli/src/ui/utils/textUtils.ts:94 | `Math.ceil(p / w)` for a positive width is the least `r` with `p <= r * w`. |
| LineWrap.CeilDivAntitone | packages/cli/src/ui/utils/textUtils.ts:94 | A larger width never gives a larger ceiling. |
| LineWrap.AtLeastOne | packages/cli/src/ui/utils/textUtils.ts:94-96 | `Math.max(1, x)` is at least 1 and at least `x`, and is one of the two. |
| LineWrap.SegmentRows | packages/cli/src/ui/utils/textUtils.ts:94 | Every segment, even an empty one, takes at least one row. |
| LineWrap.WrappedLineCount | packages/cli/src/ui/utils/textUtils.ts:89-97 | The loop's count equals the specified line count: 1 for a width of zero or less, otherwise `max(1, sum of the segments' rows)`. |
| LineWrap.NonPositiveWidthIsOneRow | packages/cli/src/ui/utils/textUtils.ts:90 | A width of zero or less gives exactly one row, whatever the text. |
| LineWrap.LineCountIsSum | packages/cli/src/ui/utils/textUtils.ts:91-96 | `LineCount` (what `wrappedLineCount` returns): at a positive width the count is the sum over the segments of `max(1, ceil(plain / width))`. So it is at least the number of segments, and at least 1. |
| LineWrap.LineCountAntitone | packages/cli/src/ui/utils/textUtils.ts:91-96 | For `0 < w1 <= w2` the count at `w2` is at most the count at `w1`. |
| LineWrap.LineCountAmple | packages/cli/src/ui/utils/textUtils.ts:91-96 | When every segment's plain width fits, each segment takes exactly one row. |
| LineWrap.JoinedLinesRows | packages/cli/src/ui/utils/textUtils.ts:89-97 | Lines joined with `<br>` take one row each at any positive width they all fit in, when no line holds a line feed or `<`. |
| TableLayout.MaxFrom | packages/cli/src/ui/utils/TableRenderer.tsx:31-34 | `Math.max(init, ...xs)` is at least `init` and every `xs[i]`, and equals one of them. |
| TableLayout.NaturalWidths | packages/cli/src/ui/utils/TableRenderer.tsx:29-35 | One natural width per header, each at least the padding of 2. |
| TableLayout.NaturalWidthIsWidestCell | packages/cli/src/ui/utils/TableRenderer.tsx:29-35 | A natural width is 2 plus the widest plain width over the header and the column's cells, a missing cell counted as `''`. With no rows it is the header's width plus 2. |
| TableLayout.TotalWidthIsSumPlusSeparators | packages/cli/src/ui/utils/TableRenderer.tsx:38 | `TotalWidth`: the `reduce` total is `sum(widths) + n + 1`. |
| TableLayout.AdjustWidths | packages/cli/src/ui/utils/TableRenderer.tsx:41-44 | One adjusted width per column, each at least 3, whatever the terminal width. |
| TableLayout.NoOverflowKeepsWidths | packages/cli/src/ui/utils/TableRenderer.tsx:39-44 | `AdjustWidth`, applied per column by `AdjustWidths`: when `totalWidth <= terminalWidth`, `adjusted[i] == max(natural[i], 3)`. |
| TableLayout.ScaledNotWider | packages/cli/src/ui/utils/TableRenderer.tsx:43 | Scaling by a ratio below one never widens a column. |
| TableLayout.NeverStretched | packages/cli/src/ui/utils/TableRenderer.tsx:39-44 | Always `adjusted[i] <= max(natural[i], 3)`: columns are never stretched. |
| TableLayout.ScaledColumnsFit | packages/cli/src/ui/utils/TableRenderer.tsx:37-44 | When the table overflows a positive terminal width and no column is raised to the floor, the adjusted widths sum to less than the terminal width. |
| TableLayout.ScaledTableCanOverflow | packages/cli/src/ui/utils/TableRenderer.tsx:37-44 | Separators are not scaled: ten 20-wide columns on a 100-wide terminal scale to 9 each, and the bordered width is 101. |
| TableLayout.BlockHeight | packages/cli/src/ui/utils/TableRenderer.tsx:46-59 | `BlockHeight`, which `HeaderHeight` and `RowHeights` apply: a header or row height is at least 1 and at least every cell's wrapped line count at its adjusted width minus 2. It is 1 or one of those counts. |
| TableLayout.RowHeights | packages/cli/src/ui/utils/TableRenderer.tsx:51-59 | One height per row, each at least 1. |
| TableLayout.HeightCoversSegments | packages/cli/src/ui/utils/TableRenderer.tsx:46-59 | With columns at least 3 wide the content width is at least 1. So no cell takes the `width <= 0` shortcut, and a row is at least as tall as any of its cells has break-separated segments. |
| TableLayout.ComputeLayout | packages/cli/src/ui/utils/TableRenderer.tsx:28-59 | The layout has one natural and one adjusted width per header. Its total is `sum + n + 1`, adjusted widths are at least 3, the header height is at least 1, and there is one height of at least 1 per row. |
| TableGrid.DashRuns | packages/cli/src/ui/utils/TableRenderer.tsx:118-119 | One run per column. A run is `width - 2` units long, or empty for a column narrower than 2, and every unit of it is `─`. |
| TableGrid.BorderLength | packages/cli/src/ui/utils/TableRenderer.tsx:117-136 | `Border`, which `RenderTopBorder`, `RenderSeparator` and `RenderBottomBorder` apply: with at least one column, every border is `sum(widths) + n + 1` long, the table's `totalWidth` formula. With no columns it is 4 long. |
| TableGrid.Recolor | packages/cli/src/ui/utils/TableRenderer.tsx:117-136 | Recolouring changes each unit independently and keeps the length. |
| TableGrid.BordersDifferOnlyInGlyphs | packages/cli/src/ui/utils/TableRenderer.tsx:117-136 | Replacing one border kind's corners and joiner (`┌┬┐`, `├┼┤`, `└┴┘`) by another's turns one border into the other, unit for unit. |
| TableGrid.SeparatorColumnLines | packages/cli/src/ui/utils/TableRenderer.tsx:87-99 | `SeparatorColumn`: a vertical separator for `h` lines is `h` copies of its content, one per line. |
| TableGrid.CellPiecesShape | packages/cli/src/ui/utils/TableRenderer.tsx:105-113 | In `CellPieces`, each cell contributes its cell box, `height` tall and holding the cell, then its separator, `height + 1` lines tall. The separator is ` │ ` between cells and ` │` after the last one. |
| TableGrid.RowShape | packages/cli/src/ui/utils/TableRenderer.tsx:102-115 | `RenderRow` (`renderRow`): a row block has `2n + 1` children. It starts with `│ `, puts ` │ ` between cells and ends with ` │`. Every separator spans `height + 1` lines, and every cell box is `height` tall and holds its cell in order. |
| TableGrid.RowAsWideAsBorder | packages/cli/src/ui/utils/TableRenderer.tsx:61-136 | A full row's line is exactly as wide as the borders above and below it. |
| TableGrid.RenderTableOrder | packages/cli/src/ui/utils/TableRenderer.tsx:138-146 | `RenderTable` puts the blocks in drawing order. Block 0 is the top border, block 1 the header row, block 2 the separator. Block `3 + i` is data row `i` with `rowHeights[i] + 1` lines, and the last block is the bottom border. |
| TableGrid.RenderTableLines | packages/cli/src/ui/utils/TableRenderer.tsx:138-146 | The table has `rows + 4` blocks and takes `3 + (headerHeight + 1) + sum(rowHeights) + rows` lines. |
| TableGrid.RenderTableBorders | packages/cli/src/ui/utils/TableRenderer.tsx:138-146 | Every border line of the table is as long as the bordered width of the adjusted columns. |
| TableGrid.TableShape | packages/cli/src/ui/utils/TableRenderer.tsx:23-147 | `TableRenderer`: for the layout the renderer computes, the table takes the line count above, at least `2 * rows + 5` lines, and every border line has the bordered width. |

## Left out

- Ink and React rendering is not modelled: `Box`, `Text`, flex layout,
  `Colors`, `React.memo`, `marginY`. Where content lands inside a cell box is
  Ink's decision. Only the borders, the separators, and the box widths and
  heights are modelled.
- `RenderInline` is not part of this model, so what a cell displays after
  inline rendering is not modelled.
- `string-width` is a foreign library. It is the parameter `measure`, any
  function returning a natural number.
- Table detection and block splitting are not part of this model.
- `exportToMarkdown.ts` is left out. Its point is an asynchronous file write
  with a time-based fallback name.
- TableLayout.AdjustWidth: the ratio `terminalWidth / totalWidth` is a double
  in the source. The model uses the exact `floor(w * terminalWidth /
  totalWidth)`, which can differ from the double computation at
  exact-integer boundaries.
- TableLayout.RowHeights: requires every row to have no more cells than there
  are headers. A longer row indexes `adjustedWidths` out of range, and the
  source computes `NaN` for it.
- TableGrid.RenderTable: requires the same of every row.
- LineWrap.WrappedLineCount: the width is an integer. Fractional and `NaN`
  widths are not modelled; the table only passes integers.
- BinarySniff.IsBinary: `sampleSize` is an integer. A fractional, `NaN` or
  infinite sample size is not modelled.
