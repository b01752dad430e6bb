# htable table reconstruction, modelled in Dafny

htable turns a photograph of a table into structured data. It binarises the
image, passes it to an OCR engine, and rebuilds a table from the recognised
text using only white-space geometry. The table is then shown as a table view
and a column view, and can be exported as CSV.

This project models that core and proves properties of it:

- `Text` gives the JavaScript string built-ins the core relies on, over
  `seq<char>`: `trim` with the ECMAScript white-space set, `split`/`join` on
  one character, `split(/\s{2,}/)`, `indexOf` with a start offset, and
  `substring` with its clamping and swapping. It also gives the placement
  predicates (`OccursAt`, `Placed`) used to say where strings sit inside a
  line.
- `TableData` gives the table every view consumes: an ordered header list and
  one record per row. It also gives the cell rule `row[header] || ""`.
- `OcrUtils` models `htable/lib/ocr-utils.ts`:
  - the binarisation loop, as a method over a byte array;
  - `extractTableStructure`, as a method proved equal to a specification
    function `Extract`;
  - `extractTableData` with its placeholder fallback.

  The header slicing loop, the cursor search for header offsets, the record
  filling and the row loop are each a method with a loop. Each is proved
  against its own specification function.
- `ResultsDisplay` models the CSV text that `downloadCSV` builds, and the
  cells of the table view.
- `ColumnView` models the `columnData` pivot as a method with a loop, and the
  cards it renders.

The OCR engine is not modelled. Its result is an input:
`ExtractTableData(recognized: Option<string>)`, where `None` stands for any
exception thrown before the text reached `extractTableStructure`. The
fallback loop does not terminate when the trimmed header line has 1 or 2
characters, because `i += 0` never advances. The model reports that case as
the outcome `Hangs`, or `NeverReturns` at the top level, rather than
excluding it.

Three behaviours of the code are easy to misread; the model follows the
code:

- The equal-width fallback ("split by equal parts", "Assume at least 3
  columns", htable/lib/ocr-utils.ts:71 and :73) does not let the last slice
  absorb the remainder.
  Slicing stops only when the offset reaches the length, so a trimmed header
  line of length L >= 3 gives 3 headers when 3 divides L, 5 when L = 5, and 4
  otherwise. For example, "JustOneHeaderNoGaps" gives 4 headers, not 3.
- A table always has at least two headers. So the single-header branch
  (lines 118-127, which assigns tokens to headers by position) is never taken.
  Data rows after a fallback header line are cut at header offsets, like all
  other rows.
- Rows are cut at the header offsets, not at white-space runs, so a value
  narrower than its header spills into the next column. With the header line
  "Name  Age  City" the offsets are 0, 6 and 11, and the data line
  "Bob  25  LA" gives the cells "Bob  2", "5  LA" and "" (`ScenarioOffsets`,
  `ScenarioCells`).

## Model

| member | source | states |
|---|---|---|
| Text.TrimSpec | htable/lib/ocr-utils.ts:66 | `trim` yields a contiguous part of its input, and that part neither starts nor ends with white space |
| Text.TrimShape | htable/lib/ocr-utils.ts:53 | what `trim` removes is white space on both sides, and a string trims to "" exactly when it is all white space |
| Text.Split | htable/lib/ocr-utils.ts:53 | `split("\n")` yields at least one piece, and no piece contains the separator |
| Text.SplitJoin | htable/components/results-display.tsx:22-25 | splitting a joined list gives back the list, when no element contains the separator |
| Text.JoinSplit | htable/lib/ocr-utils.ts:53 | joining the pieces of a split gives back the original string |
| Text.JoinAvoids | htable/components/results-display.tsx:22-25 | a character that is not the separator and is in no element is not in the joined text |
| Text.IndexFrom | htable/lib/ocr-utils.ts:98 | `indexOf` returns -1 or an offset at or after the start where the needle occurs |
| Text.IndexFromFirst | htable/lib/ocr-utils.ts:98 | if the needle occurs at or after the start, `indexOf` finds an occurrence, and none comes before the one it finds |
| Text.SubstringSpec | htable/lib/ocr-utils.ts:78 | `substring(a, b)` is the slice `[a, b)` when the bounds are in order and in range; otherwise it is a part of the string starting at the smaller clamped bound |
| Text.NonEmpty | htable/lib/ocr-utils.ts:67 | `filter(h => h)` keeps exactly the non-empty strings, never adding one |
| Text.NonEmptySingle | htable/lib/ocr-utils.ts:67 | a one-element list keeps its element exactly when it is non-empty |
| Text.NonEmptyAppend | htable/lib/ocr-utils.ts:67 | filtering a concatenation is filtering each part and concatenating, so the kept strings keep their order |
| Text.NonEmptyKeeps | htable/lib/ocr-utils.ts:67 | every non-empty string of the list is kept, with its offset |
| Text.SplitGapsPlaced | htable/lib/ocr-utils.ts:65 | the pieces of `split(/\s{2,}/)` occur in the line at the offsets `GapOffsets` gives, from left to right without overlap, and none holds a run of two white-space characters |
| Text.SplitGapsSeparated | htable/lib/ocr-utils.ts:65 | the last piece ends at the end of the line, and between two consecutive pieces lies a maximal white-space run of length at least 2 |
| Text.SplitGapsCovers | htable/lib/ocr-utils.ts:65 | every non-white-space character of the line lies inside some piece |
| Text.TrimKeeps | htable/lib/ocr-utils.ts:66 | a non-white-space character of a piece lies inside the piece's trim |
| Text.TrimNoGap | htable/lib/ocr-utils.ts:66 | trimming a piece without such a run leaves a piece without one, and with non-white-space ends |
| OcrUtils.Threshold | htable/lib/ocr-utils.ts:30-32 | a channel becomes 255 exactly when R + G + B > 384 (an average above 128), and 0 otherwise |
| OcrUtils.Binarize | htable/lib/ocr-utils.ts:29-37 | after the loop, the buffer is the binarised image of its old contents, with every byte in place |
| OcrUtils.BinarizedPixel | htable/lib/ocr-utils.ts:29-37 | in each pixel, R, G and B all take the pixel's threshold value, and alpha is unchanged |
| OcrUtils.BinarizeIdempotent | htable/lib/ocr-utils.ts:29-37 | binarising a binarised buffer changes nothing |
| OcrUtils.GapTokensPlaced | htable/lib/ocr-utils.ts:64-67 | the header tokens occur in the header line in order, without overlap; each is non-empty, has non-white-space ends and holds no run of two white-space characters; every non-white-space character of the line lies inside some token |
| OcrUtils.GapPieces | htable/lib/ocr-utils.ts:65 | the pieces of the header line start at offset 0, follow one another without overlap, end at the end of the line, and are separated by maximal white-space runs of length at least 2 |
| OcrUtils.SteppedLength | htable/lib/ocr-utils.ts:76-79 | a loop stepping by w from offset i below L makes SliceCount(L - i, w) turns |
| OcrUtils.SteppedAt | htable/lib/ocr-utils.ts:76-79 | turn k of a loop stepping by w from offset i cuts at offset i + k*w, which is below L |
| OcrUtils.FallbackAt | htable/lib/ocr-utils.ts:76-79 | fallback slice k from offset i is the trimmed part of the trimmed header line from i + k*w, which lies inside the line, to i + (k+1)*w or the end of the line |
| OcrUtils.FallbackLength | htable/lib/ocr-utils.ts:76-79 | the fallback produces one header per turn of the slicing loop |
| OcrUtils.SliceCountCovers | htable/lib/ocr-utils.ts:76-79 | the number of turns is ceil(L / w): the last slice starts below L and ends at or past L |
| OcrUtils.FallbackCount | htable/lib/ocr-utils.ts:73-79 | with w = floor(L / 3) and L >= 3, there are 3 slices when 3 divides L, 5 when L = 5, and 4 otherwise |
| OcrUtils.FallbackPlaced | htable/lib/ocr-utils.ts:76-79 | the trimmed slices occur in the trimmed header line left to right, without overlap, and slice k lies within its window `[i + k*w, i + (k+1)*w)` |
| OcrUtils.WindowsCons | htable/lib/ocr-utils.ts:76-79 | a slice in the first window followed by slices in the windows one step on puts slice k in window k |
| OcrUtils.SliceHeaders | htable/lib/ocr-utils.ts:75-79 | the loop that truncates `headers` and refills it ends with exactly the fallback slices, or none for an empty line |
| OcrUtils.HeaderSetSize | htable/lib/ocr-utils.ts:64-80 | for a non-blank header line, the header step diverges exactly when there are fewer than 2 tokens and the trimmed line is shorter than 3; otherwise there are at least 2 headers, and 3 to 5 from the fallback |
| OcrUtils.HeaderSetPlaced | htable/lib/ocr-utils.ts:64-80 | whichever attempt produced the headers, they occur in the header line in order, without overlap |
| OcrUtils.LocateNonDecreasing | htable/lib/ocr-utils.ts:94-103 | the offsets the cursor search records lie inside the line, at or after the cursor, and never decrease |
| OcrUtils.LocateFindsAll | htable/lib/ocr-utils.ts:94-103 | when the headers occur in order from the cursor, the search records one offset per header; each is at or before the given occurrence, and together they again form an in-order placement |
| OcrUtils.HeaderPositions | htable/lib/ocr-utils.ts:94-103 | the loop's offsets equal the recursive search `Locate` |
| OcrUtils.SearchLocates | htable/lib/ocr-utils.ts:94-103 | the search loop from any turn appends the offsets `Locate` gives for the remaining headers to what it has already found |
| OcrUtils.RecordKeys | htable/lib/ocr-utils.ts:106-117 | the record has one key per distinct header |
| OcrUtils.RecordLastWins | htable/lib/ocr-utils.ts:113-115 | a header's value is the last cell written for it; when two headers are equal, the later one wins |
| OcrUtils.FillRow | htable/lib/ocr-utils.ts:106-117 | the loop writing `row[headers[j]]` builds the record of the cut cells |
| OcrUtils.PositionalCell | htable/lib/ocr-utils.ts:118-127 | in the single-header branch, every header is a key, and a header that no later header repeats gets the data line's token at its position, or "" when there are fewer tokens; `ExtractRows` shows this branch is never taken |
| OcrUtils.ScenarioOffsets | htable/lib/ocr-utils.ts:94-103 | the header line "Name  Age  City" gives the offsets 0, 6 and 11 |
| OcrUtils.ScenarioCells | htable/lib/ocr-utils.ts:106-117 | cutting "Bob  25  LA" at the offsets 0, 6 and 11 gives the cells "Bob  2", "5  LA" and "" |
| OcrUtils.ScenarioFind | htable/lib/ocr-utils.ts:98 | `indexOf` from a start finds a needle at q when it occurs there and its first character does not occur between the start and q |
| OcrUtils.CellAt | htable/lib/ocr-utils.ts:106-117 | a header that no later header repeats gets the trimmed slice from its offset to the next offset (the line's end for the last header), or "" when its offset is at or past the line's end |
| OcrUtils.NonBlank | htable/lib/ocr-utils.ts:53 | the kept lines are exactly the lines whose trim is non-empty |
| OcrUtils.NonBlankSingle | htable/lib/ocr-utils.ts:53 | a one-line list keeps its line exactly when the line's trim is non-empty |
| OcrUtils.NonBlankAppend | htable/lib/ocr-utils.ts:53 | filtering a concatenation is filtering each part and concatenating, so the kept lines keep their input order |
| OcrUtils.BuildRows | htable/lib/ocr-utils.ts:83-130 | the row loop builds one row per data line, in order, as the specification `Rows` gives them |
| OcrUtils.ExtractTableStructure | htable/lib/ocr-utils.ts:51-133 | the step-by-step extraction returns what `Extract` specifies: the table, the thrown message, or divergence |
| OcrUtils.ExtractFails | htable/lib/ocr-utils.ts:53-57 | the extraction throws exactly when fewer than 2 lines are non-blank, and the message is "Could not detect a table structure in the image" |
| OcrUtils.ExtractHeaders | htable/lib/ocr-utils.ts:59-80 | the headers are the tokens of the first non-blank line when it has at least two; otherwise they are its 3 to 5 equal-width slices, or the extraction diverges when its trimmed length is 1 or 2 |
| OcrUtils.ExtractRows | htable/lib/ocr-utils.ts:83-130 | an extracted table has at least 2 headers and one row per non-blank line after the first, in input order; each row is cut at the header offsets and has exactly the headers as keys |
| OcrUtils.RowsShape | htable/lib/ocr-utils.ts:85-129 | with two or more headers, every row takes the offset branch, and the table is well formed |
| OcrUtils.ExtractOffsets | htable/lib/ocr-utils.ts:94-103 | in an extracted table, every header is found in the header line; the offsets are in order without overlap, and strictly increase when no header is empty |
| OcrUtils.ExtractCell | htable/lib/ocr-utils.ts:106-117 | the cell of row k under header j is the trimmed slice of the trimmed data line between header j's offset and the next header's offset (or the line's end), or "" past the line's end |
| OcrUtils.Placeholder | htable/lib/ocr-utils.ts:158-164 | the placeholder table is well formed |
| OcrUtils.PlaceholderCells | htable/lib/ocr-utils.ts:158-164 | the placeholder has headers "Column 1".."Column 3" and two rows whose cell under column c of row r is "Data 3r+c+1" |
| OcrUtils.ExtractTableData | htable/lib/ocr-utils.ts:136-166 | the result is the extracted table; the placeholder when recognition or extraction threw; no return exactly when extraction diverges. Whatever it returns is well formed, with at least 2 headers and 1 row |
| ResultsDisplay.TableView | htable/components/results-display.tsx:94-101 | the table view has one line per row and one cell per header |
| ResultsDisplay.TableViewCell | htable/components/results-display.tsx:98 | a cell shows the row's value for the column's header, or "" when the row has no such key |
| ResultsDisplay.CsvLines | htable/components/results-display.tsx:22-25 | the export has one line more than there are rows |
| ResultsDisplay.CsvSplitLines | htable/components/results-display.tsx:22-25 | when no header or cell holds a newline, the CSV text has exactly 1 + rows.length lines: the headers joined by commas, then each row's cells in header order, rows in order |
| ResultsDisplay.CsvFields | htable/components/results-display.tsx:23-24 | when, in addition, no header or cell holds a comma and there is a header, splitting a CSV line at commas gives back exactly the headers, or exactly that row's table-view cells |
| ResultsDisplay.CommaCellAddsField | htable/components/results-display.tsx:24 | values are not quoted: a cell "x,y" puts two fields on its line |
| ColumnView.Column | htable/components/column-view.tsx:17 | a column has one value per row, in row order: the row's cell, or "" when the key is missing |
| ColumnView.BuildColumnData | htable/components/column-view.tsx:14-18 | the `forEach` ends with exactly the pivot `ColumnData`, whatever the repetitions among the headers |
| ColumnView.ColumnDataShape | htable/components/column-view.tsx:16-17 | the pivot has one entry per distinct header; each list has rows.length elements, and element i is row i's cell |
| ColumnView.DuplicateHeaderIdle | htable/components/column-view.tsx:16-18 | repeating a header leaves the pivot unchanged |
| ColumnView.Cards | htable/components/column-view.tsx:22-33 | one card per header |
| ColumnView.CardsMatchTable | htable/components/column-view.tsx:22-33 | card j carries header j, and its i-th value is the cell the table view shows in row i, column j |

## Left out

- Image decoding, canvas drawing, `putImageData` and the lossy `toDataURL("image/jpeg")` re-encoding (htable/lib/ocr-utils.ts:5-27, 39-47). Only the byte loop is modelled. The `!ctx` early resolve and an image that never loads (so the promise never settles) are outside the model.
- Binarize: requires a buffer length that is a multiple of 4. An RGBA `ImageData` buffer always has such a length.
- The Tesseract worker (htable/lib/ocr-utils.ts:142-148) is a foreign asynchronous engine. Its text is an input, and any exception it or preprocessing throws is the input `None`. `console.error` is left out.
- JavaScript strings are sequences of UTF-16 code units, while a Dafny `char` is a Unicode scalar value. The model therefore covers text whose characters all lie in the Basic Multilingual Plane. For any other character (an emoji, say), JavaScript counts two units where the model counts one, so lengths, `floor(L / 3)`, `indexOf` offsets and `substring` bounds differ; lone surrogates are not represented. White space is the ECMAScript set used by `trim` and `\s`.
- Property lookup on plain objects can reach prototype members: `row["constructor"]` is truthy on a row without that key, and assigning `columnData["__proto__"]` does not create an entry. The model treats rows and the pivot as plain maps, so a missing key reads as "".
- Records are maps, so the insertion order of keys is not modelled. It matters only for `JSON.stringify`.
- `JSON.stringify`, the JSON tab and export, and the Blob/URL/anchor download steps (htable/components/results-display.tsx:27-47, 113-117) are library calls and I/O.
- React state, the tabs, and all styling are left out. So is the column view's rendering of an empty value as an italic "Empty" placeholder (htable/components/column-view.tsx:28). The model keeps the value "" itself.
- htable/app/page.tsx, htable/components/image-upload.tsx and htable/components/image-capture.tsx are user-interface and device I/O code. They are not part of this model.
