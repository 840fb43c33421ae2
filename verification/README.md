# Spreadsheet search page: a Dafny model of its data core

The page (`app/page.tsx`) lets a user load a spreadsheet, shows its first
sheet as a table and filters the table as the user types. In each cell,
occurrences of the query, taken leftmost-first without overlap, are
highlighted. This project models the pure
transformations behind it and proves what they guarantee:

- **Grid normalisation** (`handleFile` after decoding, module `Grid` in
  `grid.dfy`). The first row becomes the headers. A falsy or whitespace-only
  header cell becomes `Column i+1`. The remaining rows become body rows, at
  least as wide as the header row and never truncated.
- **Row filter** (the `filtered` memo, module `Search` in `search.dfy`). A
  blank query (after `trim`) shows every row. Otherwise a row stays when one of
  its cells, lower-cased, contains the lower-cased untrimmed query.
- **Query escaping** (`escapeRegExp`, module `RegexEscape` in `regex.dfy`).
  One backslash goes before each regular-expression metacharacter, so the
  pattern stands for the query literally.
- **Highlighting** (`renderHighlighted`, module `Highlighting` in
  `highlight.dfy`, examples in `highlight_examples.dfy`).
  `text.split(/(q)/gi)` becomes a leftmost, non-overlapping scan. Each part is
  classified by `pattern.test(part)`, and the regular expression's `lastIndex`
  carries over from one part to the next as the `g` flag makes it do.
- **Caption and empty state** (module `View` in `view.dfy`). The caption shows
  the upload prompt, or the file name with the row count in singular or plural
  form. A "No matching rows" row shows when there are headers and no row is
  shown.
- **JavaScript string primitives** (module `JsText` in `jstext.dfy`): `trim`,
  `toLowerCase`, `includes`, case-insensitive comparison, and `String(n)` for
  integers.

Main results:

- The escaped query is a literal pattern for the query (`EscapedIsLiteral`).
- The stateful `test` classification marks exactly the odd parts of the split
  (`ClassifyAlternates`).
- Highlighting a cell gives the unique leftmost segmentation of its text
  (`HighlightIsTheLeftmost`).
- Under ASCII case folding, the filter keeps a row exactly when one of its
  cells would show a marked part (`FilterAgreesWithHighlight`). On the page
  itself the two can disagree outside ASCII (see "Left out").

Four behaviours of the page that are easy to miss, which the model keeps:

- Short body rows are widened by setting `length`. This leaves holes that
  `map` skips, so widened cells stay `undefined` rather than becoming `""`.
  The model writes them as `Missing`. They display as `""` either way.
- Header inference tests `String(v || "")`, so a header cell holding the
  number 0 is replaced by `Column i+1`.
- The filter searches every cell of a row, including cells beyond the header
  width. The table only draws cells up to the header width, so a row can be
  kept because of a cell that is never shown.
- The caption's separator is written in the page as the three characters
  `â€”` (an em dash whose UTF-8 bytes were read as Windows-1252). The model
  uses those characters, because they are what the page displays.

## Model

| member | source | states |
|---|---|---|
| JsText.IsJsWhitespace | app/page.tsx:38 | the ECMAScript WhiteSpace and LineTerminator code points `trim` strips; `TrimStartSpec` and `TrimEndSpec` state that only these are dropped |
| JsText.Trim | app/page.tsx:38 | `trim` as leading then trailing whitespace removal; `TrimStartSpec` and `TrimEndSpec` state what each step keeps and drops |
| JsText.IsBlank | app/page.tsx:61 | `!s.trim()`; `BlankIffAllWhitespace` characterises it |
| JsText.Lower | app/page.tsx:62-63 | `toLowerCase` keeps the length and lower-cases each character in place |
| JsText.TrimStartSpec | app/page.tsx:38 | `trim` drops only leading JavaScript whitespace; the result is a suffix whose first character is not whitespace |
| JsText.TrimEndSpec | app/page.tsx:38 | `trim` drops only trailing whitespace; the result is a prefix whose last character is not whitespace |
| JsText.BlankIffAllWhitespace | app/page.tsx:61 | `!s.trim()` holds exactly when every character of `s` is whitespace |
| JsText.NotBlankWitness | app/page.tsx:70 | a string with one non-whitespace character is not blank |
| JsText.Includes | app/page.tsx:63 | `s.includes(sub)`: `sub` occurs at some index; `IncludesLowerIffMatch` relates it to case-insensitive matching |
| JsText.IncludesLowerIffMatch | app/page.tsx:63 | lower-casing both sides and calling `includes` finds exactly the case-insensitive occurrences of the query |
| JsText.SameUpToCaseIff | app/page.tsx:71 | comparison with the `i` flag, character by character, agrees with comparing the lower-cased strings |
| JsText.NatToString | app/page.tsx:113 | decimal digits without leading zeros |
| JsText.ParseNatToString | app/page.tsx:113 | the written digits read back as the number |
| JsText.IntToString | app/page.tsx:63 | `String(n)` is non-empty, starts with `-` exactly for negatives, holds no whitespace, and the digits after the sign have no leading zero and read back as the magnitude of `n` |
| Grid.CellText | app/page.tsx:135 | `String(c ?? "")` is the string itself, `String(n)` for a number (whose digits read back as it, by `IntToString`), or `""` for null/undefined |
| Grid.IsFalsy | app/page.tsx:38 | JavaScript falsiness as the header fallback tests it: `""`, 0, null and undefined; `HeaderKeptIff` states which cells keep their own text |
| Grid.HeaderProbe | app/page.tsx:38 | the string the header test trims (a falsy cell gives `""`); `HeaderKeptIff` states when it is not blank |
| Grid.ColumnLabel | app/page.tsx:38 | the fallback name `Column ${i + 1}`; `ColumnLabelWellFormed` states its prefix, its number and that it is not blank |
| Grid.HeaderName | app/page.tsx:38 | the header for one first-row cell; `HeaderNameSpec` states it is never blank and when it is the cell's own text |
| Grid.InferHeaders | app/page.tsx:37-38 | one header per cell of the first row |
| Grid.NormalizeRow | app/page.tsx:43-49 | the row's width is the larger of its own and the header width; null/undefined become `""`; other cells keep their value; widened positions are left unset |
| Grid.Normalize | app/page.tsx:30-52 | an empty grid gives no headers and no rows; otherwise there are as many headers as first-row cells, and one body row per later row, as wide as both; each cell the row has keeps its value (a string stays a string, a number a number), except null/undefined, which becomes `""`; widened positions stay unset |
| Grid.ColumnLabelWellFormed | app/page.tsx:38 | `Column i+1` is not blank, starts with `Column ` and names the one-based column number |
| Grid.HeaderNameSpec | app/page.tsx:38 | a header is never blank; a falsy or whitespace-only cell gets `Column i+1`; any other cell keeps its untrimmed text |
| Grid.HeadersSpec | app/page.tsx:37-38 | every inferred header is non-blank and is the header of its first-row cell |
| Grid.HeaderKeptIff | app/page.tsx:38 | a cell keeps its own text as header exactly when it is a string with a visible character or a non-zero number |
| Grid.VisibleHeader | app/page.tsx:38 | a string cell that starts with a visible character is its own header |
| Grid.HeaderOnly | app/page.tsx:37-41 | a grid that is only a header row gives headers and no body rows |
| Grid.RenderedTexts | app/page.tsx:133-135 | one displayed text per header |
| Grid.RenderedRowSpec | app/page.tsx:133-135 | after normalisation the table shows each decoded cell's text, `""` where the row is short, and nothing beyond the header width |
| Grid.ExampleNameAge | app/page.tsx:30-52 | `[["Name","Age"],["Al",30],["",""]]` gives headers Name, Age and both body rows unchanged |
| Grid.ExampleBlankHeader | app/page.tsx:38 | an empty first header becomes `Column 1` |
| Search.CellMatches | app/page.tsx:63 | `String(cell ?? "").toLowerCase().includes(q)`; `IncludesLowerIffMatch` turns it into a case-insensitive occurrence |
| Search.RowMatches | app/page.tsx:63 | `row.some(...)` over every cell of the row; `FilterAgreesWithHighlight` relates it to highlighting |
| Search.KeepMatching | app/page.tsx:63 | a row is kept exactly when some cell matches; kept rows are a subsequence of the input, in order |
| Search.Filter | app/page.tsx:60-64 | a blank query shows all rows unchanged; otherwise a row is shown exactly when it is an input row that matches; order is kept and no row is added |
| Search.SubsequenceReflexive | app/page.tsx:61 | the unfiltered rows trivially keep their order |
| Search.KeepAppend | app/page.tsx:63 | filtering distributes over concatenation, so each row is decided on its own |
| Search.KeepAllIff | app/page.tsx:63 | the filter keeps every row exactly when every row matches |
| Search.FilterIdempotent | app/page.tsx:60-64 | filtering the filtered rows again changes nothing |
| Search.ExampleAli | app/page.tsx:60-64 | "ali" keeps the row with "Alice" and drops the row with "Bob" |
| RegexEscape.IsRegexMeta | app/page.tsx:67 | the fourteen characters of the class `escapeRegExp` escapes; `EscapedIsLiteral` states that escaping exactly these makes the pattern literal |
| RegexEscape.EscapeRegExp | app/page.tsx:67 | the escaped query is the query lengthened by one backslash per metacharacter |
| RegexEscape.EscapedIsLiteral | app/page.tsx:67 | the escaped query, read as a pattern, stands for exactly the query taken literally |
| RegexEscape.EscapeUnchangedIff | app/page.tsx:67 | escaping changes the query exactly when it holds a metacharacter |
| RegexEscape.ExampleEscapePlus | app/page.tsx:67 | `3+3=6` becomes `3\+3=6` |
| Highlighting.FirstMatch | app/page.tsx:72 | the scan for the next occurrence at or after a position; any position found leaves room for the whole query |
| Highlighting.FirstMatchSpec | app/page.tsx:71-72 | the position found is an occurrence of the query up to case with none before it; no position is found only when the query does not occur |
| Highlighting.FirstMatchAt | app/page.tsx:72 | an occurrence of the query with none before it is the position the scan finds |
| Highlighting.SplitAround | app/page.tsx:72 | `text.split(/(q)/gi)` as a leftmost, non-overlapping scan; `SplitSpells`, `SplitMatchedParts` and `SplitGapLeftmost` state its meaning |
| Highlighting.SplitSpells | app/page.tsx:72 | the split has an odd number of parts, which spell out the text |
| Highlighting.Classify | app/page.tsx:73-74 | one classification per part |
| Highlighting.Highlight | app/page.tsx:68-84 | a blank query leaves the text as one unmarked segment |
| Highlighting.SplitMatchedParts | app/page.tsx:71-72 | the odd parts of the split equal the query up to case |
| Highlighting.SplitGapLeftmost | app/page.tsx:72 | no occurrence of the query starts inside an even part |
| Highlighting.GapHasNoMatch | app/page.tsx:72 | an even part holds no occurrence of the query |
| Highlighting.Test | app/page.tsx:74 | `pattern.test(part)` with `lastIndex`; `TestMiss` and `TestHit` state its two outcomes |
| Highlighting.TestMiss | app/page.tsx:74 | `test` on a part with no occurrence fails and resets `lastIndex` to 0 |
| Highlighting.TestHit | app/page.tsx:74 | `test` from 0 on an occurrence succeeds and moves `lastIndex` past it |
| Highlighting.ClassifyAlternates | app/page.tsx:71-74 | for any starting `lastIndex`, `test` marks exactly the odd parts of the split |
| Highlighting.HighlightByPosition | app/page.tsx:68-84 | highlighting equals the split parts marked by position |
| Highlighting.HighlightParts | app/page.tsx:72-81 | the segments carry the split parts in order and are marked at the odd positions |
| Highlighting.HighlightIsLeftmost | app/page.tsx:68-84 | highlighting meets the leftmost-segmentation specification |
| Highlighting.LeftmostUnique | app/page.tsx:72 | at most one segmentation of a text meets the specification |
| Highlighting.HighlightIsTheLeftmost | app/page.tsx:68-84 | a segmentation meets the specification exactly when it is the highlighting |
| Highlighting.MoreThanOnePart | app/page.tsx:72 | the split has more than one part exactly when the query occurs in the text |
| Highlighting.HighlightMarksIffOccurs | app/page.tsx:68-84 | some segment is marked exactly when the query occurs in the text |
| Highlighting.HighlightGapsClean | app/page.tsx:72-81 | an unmarked segment holds no occurrence of the query |
| Highlighting.FilterAgreesWithHighlight | app/page.tsx:60-84 | for ASCII case folding, the filter keeps a row exactly when one of its cells, highlighted, shows a marked part |
| HighlightExamples.BananaSplit | app/page.tsx:72 | `"banana".split(/(an)/gi)` is `b, an, "", an, a` |
| HighlightExamples.ExampleBanana | app/page.tsx:68-84 | "banana" with "an" gives b, marked an, an empty part, marked an, a |
| HighlightExamples.PlusSplit | app/page.tsx:67-72 | the metacharacter `+` is split around literally |
| HighlightExamples.ExamplePlus | app/page.tsx:67-84 | "3+3=6" with "+" marks only the plus sign |
| View.Caption | app/page.tsx:111-116 | with no file name the caption is the upload prompt; otherwise it is the file name, then the separator, then the count's digits, then ` row` or ` rows` (the `s` exactly when the count is not 1), with nothing else around or between them |
| View.CaptionPromptIff | app/page.tsx:111-116 | the upload prompt shows exactly when there is no file name |
| View.CaptionShowsCount | app/page.tsx:113 | the number after the separator reads back as the number of rows shown |
| View.ShowsNoMatchingRows | app/page.tsx:140 | `headers.length > 0 && filtered.length === 0`; `NoMatchingRowsIff` ties it to the rows and the query |
| View.NoMatchingRowsIff | app/page.tsx:140-146 | "No matching rows" shows exactly when there are headers and either no body rows (blank query) or no row matching the query |

## Left out

- React state, hooks, memoisation and rendering (JSX, `<mark>`, CSS classes) are not modelled. The model works on the values these carry.
- Reading the file (`file.arrayBuffer`) and decoding the workbook (`XLSX.read`, `sheet_to_json`) are not modelled. The decoded first sheet is the input of `Grid.Normalize`, with cells as strings, integers or null/undefined.
- Asynchronous loading is not modelled. The file name is set before the await, and the headers and rows after it, so a slower earlier load could overwrite a later one.
- The `!file`, `!data` and `data[0] || []` guards are not modelled: the grid is a sequence of rows, so none of them can be missing.
- The file input handler, the query input and the Clear button (which sets the query to `""`) are not modelled. They only assign state.
- JsText.Lower: only ASCII letters are lower-cased; the full Unicode case mapping of `toLowerCase` and of the `i` flag is not modelled.
- Highlighting.FilterAgreesWithHighlight: holds only because one ASCII folding stands for both `toLowerCase` (the filter) and the `i` flag of a regular expression without `u` (the highlight), which upper-cases one UTF-16 unit at a time. On the page they can disagree outside ASCII. A cell holding the Kelvin sign U+212A with the query `k` is kept by the filter, because its lower case is `k`, but nothing in it is highlighted. Conversely, a cell `Σ` with the query `ς` is highlighted but filtered out.
- Grid.Cell: numbers are integers, assumed to lie within 2^53 in magnitude. Beyond that, `String(n)` prints the shortest digits that round to the same double, and from 10^21 on it uses exponent form (`1e+21`). `JsText.IntToString` reproduces neither. Floating-point cells and their formatting are not modelled either. Because the decoder is called with `raw: false`, it may hand over formatted text for number cells; the model accepts either kind of cell.
- JsText.IntToString: agrees with `String(n)` only for integers of magnitude up to 2^53; see `Grid.Cell` above.
- Highlighting.SplitAround: requires a non-empty query. `Highlight` calls it only for non-blank queries, which are non-empty.
- Highlighting.Highlight: searches for the query itself rather than for the compiled regular expression. `RegexEscape.EscapedIsLiteral` shows that the escaped pattern stands for exactly that text. The regular-expression engine itself is not modelled.
- Row striping (`ri % 2`) and the React keys are presentation only.
