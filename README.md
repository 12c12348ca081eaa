# pdf-handler in Dafny

pdf-handler is a browser page with four PDF tools, all in `main.js`:

- **Split** extracts the pages named by a range text such as `1,3-5,7`.
- **Merge** concatenates a list of PDFs that the user edits.
- **Images to PDF** puts each picked PNG or JPEG image on a page of its own size.
- **Info** lists a document's page count and information fields.

This project models the logic of those tools and proves what they promise:

- `parsePageRange`, with JavaScript's `split`, `trim` and `parseInt` modelled exactly;
- the guards, status texts and output file name of the split button;
- the merge list, edited by `push` and `splice`, and the sequential, all-or-nothing merge loop;
- the image-type dispatch and the per-image page loop;
- the `'N/A'` fallbacks of the info panel.

The PDF library, the browser's file reading and the DOM are seen from outside:

- A document is its pages in order, plus its information fields.
- A picked file carries what reading, loading or embedding its bytes gives: a value or an error message (`Pdf.SourceFile`).
- Each click handler is one sequential step. It returns an outcome datatype with the status line it shows and, on success, the output file name and pages.

Modules, one file each:

| module | what it holds |
|---|---|
| `Wrappers` | `Option` (NaN or undefined) and `Result` (a thrown error) |
| `JsString` | `trim`, `split`, `join` and `replace(/c/g, …)` on strings |
| `JsNumber` | `parseInt` without a radix (leading white space, sign, `0x` prefix, longest digit run) and decimal printing |
| `Pdf` | pages, documents, metadata, picked files, `copyPages` and `addPage` |
| `PageRange` | `parsePageRange`: a loop method proved against the specification function `PageSet` |
| `PageRangeExamples` | the parser on concrete texts |
| `SplitTool`, `MergeTool`, `ImageTool` | the split, merge and image tools; the state their handlers change is a class field |
| `InfoTool` | the info tool; its handler keeps no state, so it is a function from the picked file to what the panel shows |

## Model

| member | source | states |
|---|---|---|
| PageRange.ParsePageRange | main.js:68-88 | The result is the pages the text selects, listed once each in increasing order: strictly increasing, every entry in [0, totalPages), and k is listed iff k is in `PageSet` |
| PageRange.AddSegment | main.js:72-84 | One loop step adds exactly what the segment selects to the set built so far |
| PageRange.AddRangeSegment | main.js:73-78 | A hyphenated segment adds nothing if either end is NaN; otherwise it adds the clamped range |
| PageRange.AddSinglePage | main.js:80-83 | A plain segment adds pageNum - 1 only when pageNum is a number in [1, totalPages] |
| PageRange.AddRange | main.js:76-78 | The counting loop from max(1, start) to min(totalPages, end) adds exactly the indices first-1 … last-1 |
| PageRange.PageSet | main.js:69-85 | Every selected index lies in [0, totalPages) |
| PageRange.Pages | main.js:76-77 | k is added iff first - 1 <= k < last |
| PageRange.SegmentPages | main.js:73-83 | What one trimmed segment selects lies in [0, totalPages) |
| PageRange.Segments | main.js:70 | `split(',')` then `trim` of each piece: there is always at least one segment, and none starts or ends with white space; `SegmentsAppend` and `PageSetOfSegment` state how the segments follow the text |
| PageRange.RangePages | main.js:73-78 | What a hyphenated segment selects, from parseInt of its two ends, lies in [0, totalPages) |
| PageRange.SinglePage | main.js:80-83 | What a plain segment selects, from parseInt of the segment, lies in [0, totalPages) |
| PageRange.AscendingElements | main.js:87 | `Array.from(set).sort((a, b) => a - b)`: strictly increasing, the same elements as the set, as many as the set has |
| PageRange.AscendingUnique | main.js:87 | Two strictly increasing lists with the same elements are equal, so the sorted listing is determined by the set |
| PageRange.SortedListing | main.js:87 | Any strictly increasing list of exactly the set's elements is its sorted listing |
| PageRange.PageSetMembership | main.js:69-85 | An index is selected iff some segment selects it |
| PageRange.SegmentOrderIrrelevant | main.js:69-85 | Texts with the same segments, in any order and with any repetitions, select the same pages |
| PageRange.PageSetConcat | main.js:70-85 | Joining two texts with a comma selects the union of their pages |
| PageRange.SegmentsAppend | main.js:70 | The segments of `a,b` are those of a followed by those of b |
| PageRange.ContributionsAppend | main.js:72 | Per-segment contributions of concatenated segment lists concatenate |
| PageRange.UnionAllMembership | main.js:69-85 | k is in the union of the contributions iff it is in one of them |
| PageRange.UnionAllBound | main.js:69-85 | A union of sets bounded by totalPages is bounded by it |
| PageRange.UnionAllPrefix | main.js:72-85 | One more loop iteration adds exactly the next segment's contribution |
| PageRange.UnionAllAppend | main.js:72-85 | The union over concatenated lists is the union of the two unions |
| PageRange.UnionAll | main.js:69-85 | The `Set` the loop fills: the union of the segments' contributions, described by `UnionAllMembership`, `UnionAllPrefix` and `UnionAllBound` |
| PageRange.PageSetOfSegment | main.js:70-72 | A text without a comma is one segment: its trimmed self |
| PageRange.PageSetEmpty | main.js:69-87 | The empty text selects nothing |
| PageRange.SinglePageSegment | main.js:80-83 | The segment `n` selects {n - 1} when 1 <= n <= totalPages, and nothing otherwise (0, too large, negative) |
| PageRange.NegativeNumberSegment | main.js:73-75 | `-5` splits into an empty start that is NaN, so it is skipped |
| PageRange.PageSetOfNumber | main.js:69-87 | The text `n` selects exactly {n - 1} if page n exists, else nothing |
| PageRange.RangeSegment | main.js:73-78 | The segment `a-b` (plus any further `-…` pieces) selects k iff 0 <= k < totalPages and a <= k + 1 <= b: inverted ranges are empty, ranges past the end are clamped, a third piece is ignored |
| PageRange.PageSetOfRange | main.js:69-87 | The same holds for a whole text that is one range |
| PageRange.SegmentOfPieces | main.js:73-74 | A hyphenated segment is decided by parseInt of its first two pieces, trimmed |
| PageRange.RangePieces | main.js:74 | Splitting `x-y-…` at hyphens gives x and y as the first two pieces |
| PageRange.NumeralText | main.js:70-74 | A decimal numeral is unchanged by trim and holds no hyphen or comma |
| PageRangeExamples.MixedExample | main.js:68-88 | `1,3-5,7` on a document of at least 7 pages gives [0, 2, 3, 4, 6] |
| PageRangeExamples.RepeatExample | main.js:68-88 | `1,1,1-2` gives [0, 1]: repeated pages are listed once |
| PageRangeExamples.ClampedRangeExample | main.js:76 | `1-1000` on 10 pages gives 0 … 9 |
| PageRangeExamples.InvertedRangeExample | main.js:76 | `5-2` gives [] |
| PageRangeExamples.ExtraHyphenExample | main.js:74 | `1-3-9` gives [0, 1, 2] |
| PageRangeExamples.OutOfBoundsExample | main.js:81 | `0,100` on 10 pages gives [] |
| PageRangeExamples.NegativeExample | main.js:73-75 | `-5` gives [] |
| PageRangeExamples.WordExample | main.js:80-81 | `abc` gives [] |
| PageRangeExamples.EmptyExample | main.js:70-87 | The empty text gives [] |
| JsNumber.ParseIntOfIntToString | main.js:195 | parseInt reads back every integer printed in decimal |
| JsNumber.ParseIntOfDecimal | main.js:80 | Leading white space is skipped and the digits stop at the first non-digit |
| JsNumber.ParseIntOfNegative | main.js:80 | `-n` followed by non-digits reads as -n |
| JsNumber.ParseIntOfMinus | main.js:80 | A minus sign negates the unsigned value |
| JsNumber.ParseIntOfUnsigned | main.js:80 | An optional plus sign changes nothing |
| JsNumber.ParseIntAfterSpace | main.js:80 | Leading white space does not change the value |
| JsNumber.ParseIntSeesTrimStart | main.js:74-80 | parseInt depends only on the text after leading white space |
| JsNumber.ParseIntNaN | main.js:74-81 | No digit after the sign gives NaN |
| JsNumber.ParseUnsignedOfDecimal | main.js:80 | Digits followed by a non-digit read as their decimal value |
| JsNumber.UnsignedStartsWithDigit | main.js:80 | A number read starts with a digit |
| JsNumber.DigitRunSpec | main.js:80 | The digit run is the longest prefix of digits |
| JsNumber.DigitRunOfDigits | main.js:80 | The run ends exactly where the digits do |
| JsNumber.DigitsValueOfNatToString | main.js:80 | Decimal printing and digit evaluation are inverse |
| JsNumber.ParseIntHexExample | main.js:80 | `0x1A` reads as 26: parseInt without a radix accepts hexadecimal |
| JsNumber.ParseIntBarePrefixExample | main.js:80 | `0x` is NaN and `0` is 0 |
| JsNumber.ParseIntTrailingTextExample | main.js:80 | ` -12abc` reads as -12 |
| JsNumber.ParseIntEmptyExample | main.js:74-75 | The empty string is NaN |
| JsNumber.ParseIntWordExample | main.js:80-81 | `abc` is NaN |
| JsNumber.NatToString | main.js:155 | Decimal printing gives at least one digit and no leading zero |
| JsNumber.ParseInt | main.js:74-80 | parseInt without a radix, NaN as `None`; its contract is carried by `ParseIntOfIntToString`, `ParseIntOfDecimal`, `ParseIntOfMinus`, `ParseIntSeesTrimStart` and `ParseIntNaN` |
| JsString.TrimSpec | main.js:70 | trim leaves no white space at either end and never grows the text |
| JsString.TrimStartSpec | main.js:70 | What trimming the front removes is white space, and what remains starts with a non-space |
| JsString.TrimEndSpec | main.js:70 | The same, at the end |
| JsString.TrimPadded | main.js:70 | White space around a trimmed core is removed and the core kept |
| JsString.TrimIdempotent | main.js:70 | Trimming twice is trimming once |
| JsString.Trim | main.js:70-74 | String.prototype.trim; its contract is carried by `TrimSpec`, `TrimPadded` and `TrimIdempotent` |
| JsString.Split | main.js:70-74 | String.prototype.split with one character: there is always at least one piece |
| JsString.Join | main.js:70-74 | The inverse of `Split`, as `JoinSplit` and `SplitJoin` state |
| JsString.JoinSplit | main.js:70-74 | Joining the pieces of a split with the separator gives the text back |
| JsString.SplitJoin | main.js:70-74 | Splitting a join of separator-free pieces gives the pieces back |
| JsString.SplitPiecesFree | main.js:70-74 | No piece contains the separator |
| JsString.SplitWithoutSeparator | main.js:70-80 | Without the separator the text is one piece |
| JsString.SplitAtSeparator | main.js:73-74 | With the separator there are at least two pieces |
| JsString.SplitAppend | main.js:70 | Splitting `a<sep>b` gives the pieces of a, then those of b |
| JsString.ReplaceAll | main.js:153 | Every occurrence of the character is replaced and every other character kept |
| JsString.ReplaceAllIsSplitJoin | main.js:153 | Replacing all occurrences is splitting at them and joining with the replacement |
| SplitTool.Splitter.Load | main.js:100-123 | No file: nothing changes. A loaded file replaces the document and reports its page count. A load error reports "Error: …" and keeps the previous document |
| SplitTool.Splitter.Click | main.js:125-156 | Guards in order: no document does nothing; empty trimmed text gives "Please enter page numbers to extract"; an empty page set gives "No valid pages found in range"; otherwise the pages at the ascending indices are copied under the split file name, and the message counts them |
| SplitTool.ExtractedPages | main.js:140-150 | The output is non-empty, page j is source page indices[j], the indices increase (no page twice), and every selected page is there |
| SplitTool.SplitFileNameShape | main.js:153 | The name is the text plus 16 fixed characters, contains no comma, and keeps every other character of the text in place |
| SplitTool.NameMiddleRoundTrip | main.js:153 | For a text without underscores, cutting the name's middle at underscores gives the comma-separated pieces back, and the text is recovered |
| SplitTool.NameCollision | main.js:153 | `1,2` and `1_2` give the same file name |
| SplitTool.SplitFileName | main.js:153 | The download name is `split-pages-` and `.pdf` around a middle as long as the text |
| SplitTool.NameMiddle | main.js:153 | `rangeStr.replace(/,/g, '_')`: as long as the text, with no comma left |
| SplitTool.ExtractedMessage | main.js:155 | The success status line counting the extracted pages, used by `Splitter.Click` |
| SplitTool.LoadedMessage | main.js:116 | The status line reporting the loaded document's page count, used by `Splitter.Load` |
| MergeTool.Merger.Add | main.js:206-213 | A selection is appended after the existing files in order, and the status shows the new count; an empty selection changes nothing |
| MergeTool.Merger.Remove | main.js:193-198 | The list becomes `splice(index, 1)` of the old list and the status is redrawn |
| MergeTool.Merger.Merge | main.js:219-245 | An empty list does nothing. If some file fails to load, the first failure's "Error: …" is shown and there is no output. Otherwise the output is every file's pages in list order, named merged-document.pdf |
| MergeTool.SpliceInRange | main.js:196 | Removing at a valid index deletes exactly that entry: length minus one, earlier entries kept, later ones moved down |
| MergeTool.SpliceNegative | main.js:196 | A negative index counts from the end |
| MergeTool.SplicePastEnd | main.js:196 | An index past the end removes nothing |
| MergeTool.SpliceKeepsEntries | main.js:196 | A removal keeps a sub-multiset and loses at most one entry |
| MergeTool.DeleteButtonRemovesItsEntry | main.js:186-196 | The delete button of entry i carries `i`, which parseInt reads back, so exactly entry i is removed |
| MergeTool.SpliceStart | main.js:196 | The start position lies between 0 and the length of the list; the length itself is the position past the end, where nothing is removed |
| MergeTool.SpliceOne | main.js:196 | `list.splice(index, 1)`, as `SpliceInRange`, `SpliceNegative`, `SplicePastEnd` and `SpliceKeepsEntries` state |
| MergeTool.ListStatus | main.js:171-203 | The status under the list is empty exactly when the list is empty, and otherwise "N file(s) ready to merge" |
| MergeTool.MergedMessage | main.js:239 | The success status line counting the merged files, used by `Merger.Merge` |
| MergeTool.LoadAll | main.js:228-234 | On success there is one document per file |
| MergeTool.LoadAllOk | main.js:228-234 | The merge loads iff every file loads, and then document i is what file i loads to |
| MergeTool.LoadAllFirstError | main.js:228-243 | A failed merge reports the error of a file before which every file loads |
| MergeTool.LoadAllStopsAt | main.js:228-234 | A file that fails after files that all load decides the error |
| MergeTool.LoadAllPrefixError | main.js:228-234 | The same, stated with the files before it loading |
| MergeTool.LoadAllSnocOne | main.js:228-234 | One more loaded file appends its document |
| MergeTool.MergeStep | main.js:231-233 | One iteration appends that file's pages to the pages gathered so far |
| MergeTool.MergedPages | main.js:228-236 | Over each document's pages (`PagesOf`), page j of document i sits at position (pages of documents before i) + j, and the page count is the sum of the documents' page counts |
| MergeTool.CopyAllPages | main.js:232 | Copying `getPageIndices()` (`AllIndices`, the indices 0 … count - 1) copies the whole document in order |
| Pdf.AddPages | main.js:233 | `forEach(addPage)` appends the copied pages, in order |
| Pdf.CopyPages | main.js:149 | `copyPages(doc, indices)`: the pages at the given positions in the order listed, as `ExtractedPages` and `CopyAllPages` state |
| Pdf.Concat | main.js:228-234 | The merged document's pages, document after document, as `ConcatLength`, `ConcatAt` and `ConcatAppend` state |
| Pdf.ConcatAppend | main.js:228-234 | Merging two lists of documents concatenates their pages |
| Pdf.ConcatLength | main.js:228-234 | The merged page count is the sum of the page counts |
| Pdf.ConcatAt | main.js:228-234 | Each document keeps its page order and the documents follow list order |
| ImageTool.ImageConverter.Select | main.js:255-265 | The selection replaces the list, even when empty; only a non-empty one reports "N image(s) selected" |
| ImageTool.ImageConverter.Convert | main.js:267-308 | An empty list does nothing. If an image fails, its "Error: …" is shown and there is no output. Otherwise there is one page per image, named converted-images.pdf, and the message counts them |
| ImageTool.FormatOfSupported | main.js:282-288 | Exactly image/png, image/jpeg and image/jpg select an embedder: PNG for the first, JPEG for the two others |
| ImageTool.FormatOf | main.js:282-288 | A declared type selects an embedder exactly when it is one of the three supported types |
| ImageTool.Embed | main.js:279-288 | A read error is the image's error, whatever its type; an embedded image was read and has a supported type |
| ImageTool.ImagePage | main.js:290-296 | `addPage([w, h])` then `drawImage` at (0, 0), w by h, as `ConvertAllOk` states page by page |
| ImageTool.SelectedMessage | main.js:262 | The status line counting the selected images, used by `ImageConverter.Select` |
| ImageTool.ConvertedMessage | main.js:302 | The success status line counting the converted images, used by `ImageConverter.Convert` |
| ImageTool.EmbedDispatch | main.js:279-288 | A read error is reported first, even for an unsupported type. A readable file of an unsupported type fails with "Unsupported image type: <type>"; a supported one embeds iff its embedder accepts the bytes, with the size that embedder (`EmbedAs`) reports |
| ImageTool.ConvertAll | main.js:276-297 | On success there is one page per image |
| ImageTool.ConvertAllOk | main.js:276-297 | The conversion succeeds iff every image embeds, and then page i has image i's width and height with image i drawn at (0, 0) at full size |
| ImageTool.ConvertAllFirstError | main.js:276-306 | A failed conversion reports the error of an image before which every image embeds |
| ImageTool.ConvertAllStopsAt | main.js:276-297 | An image that fails after images that all embed decides the outcome, whatever follows |
| ImageTool.UnsupportedTypeAborts | main.js:286-288 | A readable image of an unsupported type after images that all embed aborts the whole batch with a message naming the type |
| ImageTool.ReadErrorAborts | main.js:279-288 | An image whose bytes cannot be read, after images that all embed, aborts the batch with the read error, whatever its type |
| ImageTool.ConvertAllEmbedsAll | main.js:276-297 | Images that all embed convert |
| ImageTool.ConvertAllKeepsError | main.js:276-297 | After the first error, further images change nothing |
| InfoTool.OrNotAvailableShown | main.js:329-333 | `value \|\| 'N/A'` is never empty. It is the value when that is a non-empty string, and it is "N/A" exactly when the value is absent, empty or itself "N/A" |
| InfoTool.NotAvailableAmbiguous | main.js:329-333 | A field reading "N/A" is shown like a missing or empty one |
| InfoTool.OrNotAvailable | main.js:329-333 | `value \|\| 'N/A'`: the text shown is never empty |
| InfoTool.ShowInfo | main.js:315-386 | The info handler: nothing is shown exactly when no file is picked, and only an error exactly when the document does not load; `ShowInfoOfLoaded` and `ShowInfoOfFailed` give the panel's contents |
| InfoTool.ShowInfoOfLoaded | main.js:317-381 | A loaded document shows the file's name and size and its page count; each of the five text fields is `value \|\| 'N/A'` of the document's field, so it is never empty and is the document's own value when that is non-empty; the dates are the document's own, so a date row appears exactly when the date exists |
| InfoTool.ShowInfoOfFailed | main.js:383-385 | A file that does not load shows only "Error: …" |

## Left out

- `readFileAsArrayBuffer` (main.js:7-14) and `downloadPDF` (main.js:57-65) are host I/O. A picked file carries its load and embed results instead, and an outcome carries the output's name and pages instead of a download.
- `renderPDFPreview` (main.js:17-54) is canvas rendering with a floating-point scale. A preview failure is caught inside `renderPDFPreview` itself (main.js:49-53), which shows "Could not generate preview" in the preview box; it changes no status line and is not modelled.
- The pdf-lib internals (`load`, `copyPages`, `addPage`, `drawImage`, `embedPng`/`embedJpg`, `save`) are foreign library calls. Their results are abstract values. Only reading, `load` and the embedders can fail in the model; `copyPages` and `addPage` (main.js:149-150 and 232-233), `addPage` and `drawImage` (main.js:290-296) and `save` are assumed not to throw. In the source a throw there reaches the handler's catch and shows "Error: …"; `Splitter.Click` has no such outcome once its guards pass, and `Merger.Merge` and `ImageConverter.Convert` always succeed once every load or embed does.
- For the PDF tools a read error and a load error reach the same catch with their own message, so `SourceFile.asPdf` stands for reading and then loading. The image loop reads before it checks the type, so there the read error is a field of its own that `ImageTool.Embed` looks at first.
- The DOM, `innerHTML`, CSS classes, the page-range placeholder, the worker configuration (main.js:4) and the transient "Loading…", "Splitting…" and "Processing file i of n…" status lines are UI plumbing.
- `updateMergeFileList` (main.js:171-204) is modelled only through its status line (`MergeTool.ListStatus`); the list markup is not.
- The file size in KB via `toFixed(2)` (main.js:345) and dates via `toLocaleString` (main.js:374, 379) are floating point and locale-dependent. The info view keeps the size in bytes and the raw timestamps.
- `async`/`await` is not modelled: each handler is one sequential step, so clicks that interleave while a handler awaits are not captured.
- JsNumber.ParseInt: numbers are unbounded integers. The double rounding of very long digit strings and the sign of `-0` are not modelled; comparisons with page numbers are unaffected.
- JsString.Trim: white space is ECMAScript's WhiteSpace and LineTerminator set. Strings are sequences of Unicode characters rather than UTF-16 code units. A character outside the Basic Multilingual Plane counts once here but twice in JavaScript; no modelled behaviour depends on lengths of such text.
