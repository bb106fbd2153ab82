# Page selection for `/process/split`, modelled in Dafny

This project models the page-selection core of a PDF processing service
written in Go (a clean-architecture Echo application). The core has two parts.

* The split handler in `internal/rest/pdf.go`:
  * `validateAndParseRanges` turns an expression such as `1,3,5-8` into the
    ordered page list `[1,3,5,6,7,8]`, or into one of five errors.
  * `generateFixedRange` cuts `1..totalPages` into windows of `fixed_range` pages.
  * `StartSplit` checks the request for the `ranges`, `remove_pages` and
    `fixed_range` modes, then calls the service.
  * `respondWithPdfOrZip` and `isZipFile` choose the content type from the output name.
* The orchestration in `pdf/service.go`:
  * the keep-list of `RemovePagesPdf`;
  * the choice between one PDF and a zip archive;
  * the archive loop of `splitPdfWithZip`, which rewinds the upload before each extraction;
  * the names given to every output.

How the model is built:

* The PDF repository (pdfcpu behind temporary files) is an oracle: a datatype of function values.
* As in the Go repository, the oracle reads the upload from its current position to the end and leaves it there. This is why the model keeps the file's position, and why every contract that reads the upload states where it leaves it.
* A ghost log of repository calls records the bytes each call was given. This makes "rewound before every extraction", "one call per window, in order" and "nothing after the first failure" statable.
* A zip archive is its ordered list of named entries.
* The zip writer's failures are oracles too.

Modules:

| module | file | models |
|---|---|---|
| `Common` | `common.dfy` | `byte`, `Option`, `Result` (Go's `(value, error)`) |
| `Text` | `text.dfy` | `strings.Split`/`Join`, `strings.TrimSpace`, `strconv.Atoi`, `%d`, `strings.HasSuffix` |
| `Domain` | `domain.dfy` | `domain.PdfFile`, `domain.SplitPdfFile`, zip entries |
| `Pages` | `pages.dfy` | runs of consecutive pages, concatenation |
| `RangeParser` | `range_parser.dfy` | `validateAndParseRanges` |
| `Windows` | `windows.dfy` | `generateFixedRange` |
| `Archive` | `archive.dfy` | the `archive/zip` writer as used by the service |
| `Service` | `service.dfy` | `pdf/service.go` |
| `Rest` | `rest.dfy` | `StartSplit`, `StartCompress`, `respondWithPdfOrZip`, `isZipFile` |

Behaviour of the code worth knowing:

* The parser accepts page `0` and a leading `+`, because `Atoi` accepts them. It never yields a negative page, because `Atoi` never sees a `-`.
* The empty expression fails as `invalid number: ` (`EmptyInput`), the error `Atoi("")` gives. The handler refuses an empty field earlier, with `Invalid Range`.
* A lone `-` or `-3` fails on its empty range start (`SpanWithEmptyStart`), not as a range format error.
* The bound check compares only the **last** parsed page with the page count, not the largest (`BoundChecksLastOnly`).
* Removing every page hands an empty keep-list to the extractor (`ComplementEmpty`, `RemovePagesPdf`). Nothing refuses it.
* A document without pages gets no windows rather than an error. With several windows, or with none, the result is a zip archive, possibly empty (`NoWindowsEmptyArchive`).
* Nothing checks the uploaded name. An upload named `x.zip` split into one part is served as `application/zip` (`ServedContentType`).

## Model

| member | source | states |
|---|---|---|
| Text.SplitOn | internal/rest/pdf.go:223 | `strings.Split` gives one more piece than there are separators, and no piece contains the separator |
| Text.SplitThenJoin | internal/rest/pdf.go:223 | splitting loses nothing: joining the pieces with the separator gives back the input |
| Text.JoinThenSplit | internal/rest/pdf.go:228 | pieces without the separator are recovered exactly by splitting their join |
| Text.TrimSpace | internal/rest/pdf.go:225 | the result is a slice of the input with only white space cut off around it, and neither end is white space |
| Text.Atoi | internal/rest/pdf.go:251 | `Atoi` succeeds only on a nonempty string; a negative result needs a leading `-`; an unsigned success is all digits |
| Text.AtoiOfDecimalString | internal/rest/pdf.go:251 | parsing a number printed with `%d` gives the number back |
| Text.DecimalStringInjective | pdf/service.go:129 | different numbers print differently under `%d` |
| RangeParser.SpanPages | internal/rest/pdf.go:227-249 | a span that parses yields at least one page and no negative page |
| RangeParser.TokenPages | internal/rest/pdf.go:225-256 | every token that parses contributes at least one page, none negative |
| RangeParser.ParseRanges | internal/rest/pdf.go:220-260 | a successful parse is nonempty and has no negative page, so the handler may read its last element |
| RangeParser.TokenPagesTogether | internal/rest/pdf.go:223-256 | a successful parse has at least one page per comma-separated token |
| RangeParser.ParseEachAppend | internal/rest/pdf.go:224-257 | the pages of the tokens come in the order the tokens are written; an error in an earlier token wins |
| RangeParser.ParseEachOk | internal/rest/pdf.go:224-257 | the expression parses exactly when every token parses |
| RangeParser.FirstBadTokenDecides | internal/rest/pdf.go:230-253 | the first failing token's error is returned, and no pages at all |
| RangeParser.ErrorPersists | internal/rest/pdf.go:230-253 | once a prefix of the tokens fails, the whole parse fails with the same error |
| RangeParser.TokenWithSeveralDashes | internal/rest/pdf.go:228-231 | a token with two or more `-` fails as `invalid range format` with the trimmed token |
| RangeParser.SpanToken | internal/rest/pdf.go:233-249 | in `a-b`, a bad start is reported before a bad end, each with its untrimmed side; a descending span is refused; an ascending one gives exactly `a..b` |
| RangeParser.SpanWithEmptyStart | internal/rest/pdf.go:233-236 | `-3` and a lone `-` fail on the empty range start |
| RangeParser.SpanWithEmptyEnd | internal/rest/pdf.go:238-241 | `3-` fails on the empty range end |
| RangeParser.SpanOfNumbers | internal/rest/pdf.go:243-249 | a printed span `m-n` gives `m..n` ascending, and is refused as descending when `m > n` (`5-2`) |
| RangeParser.SpanWithBadStart | internal/rest/pdf.go:233-236 | a span whose start is not a number fails on its start (`a-3`) |
| RangeParser.NumberToken | internal/rest/pdf.go:250-255 | a printed number stands for that single page |
| RangeParser.EmptyInput | internal/rest/pdf.go:251-254 | the empty expression fails as `invalid number: ` |
| RangeParser.SingleToken | internal/rest/pdf.go:223-224 | an expression without a comma is parsed as one token |
| RangeParser.ParsePrintedPages | internal/rest/pdf.go:220-260 | round trip: pages printed with `%d` and joined by commas parse back to the same list, in order |
| RangeParser.ValidateAndParseRanges | internal/rest/pdf.go:220-260 | the loop returns exactly the specified parse: the pages of all tokens in order, or the first error |
| RangeParser.AppendToken | internal/rest/pdf.go:225-256 | one loop step appends the token's pages to the result, or returns the token's error |
| Pages.AppendRun | internal/rest/pdf.go:247-249 | the counting loop appends exactly the run `lo..hi`, ascending |
| Windows.GenerateFixedRange | internal/rest/pdf.go:203-218 | the nested loops return exactly the specified windows |
| Windows.FixedWindows | internal/rest/pdf.go:203-218 | the specified windows of `generateFixedRange`: concatenated, they are exactly `1..totalPages`, with no gap, overlap or repetition, and none when there are no pages |
| Windows.WindowsFromCover | internal/rest/pdf.go:205-215 | the windows from page `i` on cover exactly `i..totalPages` |
| Windows.FixedWindowsShape | internal/rest/pdf.go:205-214 | there are `ceil(totalPages / fixedRange)` windows, and window `k` is the run `k*fixedRange+1 .. min((k+1)*fixedRange, totalPages)` |
| Windows.WindowsFromShape | internal/rest/pdf.go:205-214 | closed form of the windows from page `i`: their count and the run each holds |
| Windows.WindowSizes | internal/rest/pdf.go:206-209 | every window has 1 to `fixedRange` pages, and every window but the last has exactly `fixedRange` |
| Windows.SingleWindow | internal/rest/pdf.go:205-209 | exactly one window comes out iff `1 <= totalPages <= fixedRange`; none iff `totalPages < 1` |
| Archive.ZipWriter.constructor | pdf/service.go:102-103 | a new writer holds no entry |
| Archive.ZipWriter.Create | pdf/service.go:130-133 | `Create` adds an empty entry with the name, unless the writer fails; nothing else changes |
| Archive.ZipWriter.Write | pdf/service.go:135-137 | `Write` appends the bytes to the last entry, unless the writer fails; earlier entries are untouched |
| Archive.ZipWriter.Close | pdf/service.go:117-119 | `Close` keeps the entries and reports the writer's failure |
| Service.File.SeekStart | pdf/service.go:106 | `Seek(0, io.SeekStart)` puts the file back at its first byte |
| Service.File.ReadAll | internal/repository/pdf.go:109-115 | the repository reads from the current position to the end and leaves the file at its end |
| Service.PdfService.RepoSplit | pdf/service.go:16-20 | an extraction gives the oracle's result for the bytes from the current position, is logged with them, and leaves the file at its end |
| Service.PdfService.PageCount | pdf/service.go:141-143 | the page count is the repository's, for the bytes from the current position; the file is left at its end |
| Service.PdfService.CompressPdf | pdf/service.go:32-44 | one compression call; on success the output is `compressed_<name>` holding the repository's bytes unchanged; otherwise the repository's error. The file is left at its end |
| Service.PdfService.SplitPdfByRanges | pdf/service.go:46-58 | one extraction of the page list as given; the output is `split_<name>`; the file is left at its end |
| Service.PdfService.RemovePagesPdf | pdf/service.go:60-79 | the loop builds the keep-list `Complement(removePages, pageCount)` and makes one extraction of it, even when it is empty; the file is left at its end |
| Service.Complement | pdf/service.go:61-66 | the keep-list built by the loop holds only pages of `1..pageCount` that are not removed, and at most `pageCount` of them |
| Service.ComplementMembers | pdf/service.go:61-66 | a page is kept iff it is in `1..pageCount` and not removed |
| Service.ComplementAscending | pdf/service.go:62-65 | the keep-list is strictly ascending, so no page appears twice |
| Service.ComplementSameRemovals | pdf/service.go:63 | only which pages of the document are removed matters: order, repetitions and out-of-range numbers do not |
| Service.ComplementEmpty | pdf/service.go:61-66 | the keep-list is empty iff every page of the document is removed |
| Service.ComplementNothingRemoved | pdf/service.go:61-66 | removing no page of the document keeps `1..pageCount` |
| Service.PdfService.SplitAndZipPdfByFixedRange | pdf/service.go:81-86 | one window gives a plain PDF; any other number of windows gives an archive. The file is left at its end, or untouched when there are no windows |
| Service.PdfService.SplitPdfWithoutZip | pdf/service.go:88-99 | one extraction from where the file stands, named `split_<name>`; its failure names the window; the file is left at its end |
| Service.PdfService.SplitPdfWithZip | pdf/service.go:101-126 | the loop rewinds and extracts window by window and adds each result as the next entry. It stops at the first failure, and on success the closed archive is named `split_<name>.zip`. The file is left at its end, or untouched when there are no windows |
| Service.PdfService.AddWindows | pdf/service.go:105-115 | the loop over the windows builds exactly the archive `ArchiveUpTo` specifies and makes exactly its calls; it leaves the file at its end, or untouched when there are no windows |
| Service.PdfService.AddWindow | pdf/service.go:106-114 | one turn of the loop: a rewind, one extraction of the whole document, and the archive one window further on, or that window's error |
| Service.PdfService.AddToZip | pdf/service.go:128-139 | entry `index` is named `split_part_{index+1}.pdf` and holds the content; a create or write failure is returned |
| Service.PartNameNumber | pdf/service.go:129 | the entry name `split_part_%d.pdf` carries the 1-based index: the number between `split_part_` and `.pdf` parses back to `index + 1` |
| Service.PartNamesDistinct | pdf/service.go:129 | different windows get different entry names |
| Service.ArchiveEntries | pdf/service.go:105-115 | a finished archive has one entry per window, in window order; entry `i` is `split_part_{i+1}.pdf` with the pages `fra[i]` extracted from the whole document |
| Service.SplitCallsInOrder | pdf/service.go:105-107 | every extraction of the loop reads the whole document; the extractions follow the windows in order, one per window when the loop gets through |
| Service.ArchiveErrorPersists | pdf/service.go:107-114 | after a failure no later window is extracted and the error is final |
| Service.ArchiveReliable | pdf/service.go:105-115 | with a writer that never fails, the archive is built iff every window can be extracted |
| Service.AbortAtFailedWindow | pdf/service.go:107-110 | the first window that cannot be extracted is the last one attempted, and its error is the result: no partial archive |
| Service.OutputNames | pdf/service.go:32-126 | outputs are `compressed_<name>`, `split_<name>` or `split_<name>.zip`. They carry the repository's bytes unchanged. The content is an archive exactly when there is not exactly one window |
| Service.SingleWindowNoZip | pdf/service.go:82-83 | one window: a single extraction from where the file stands, a plain PDF named `split_<name>` |
| Service.NoWindowsEmptyArchive | pdf/service.go:85 | no window: no extraction, and an empty archive named `split_<name>.zip` |
| Service.ZipOfAllWindows | pdf/service.go:101-126 | a reliable writer and successful extractions give the entries `split_part_1.pdf`, `split_part_2.pdf`, ..., one per window, in order, each holding its window's pages |
| Rest.CheckPageList | internal/rest/pdf.go:125-157 | the checks on a `ranges` or `remove_page` field: what passes is exactly the parser's list, nonempty, with no negative page and its last page within the count |
| Rest.Decide | internal/rest/pdf.go:123-184 | the `StartSplit` switch: each mode reaches its service call exactly when its own checks pass. The page list handed on is exactly the parser's list of the field (`ranges` or `remove_page`), nonempty with its last page in range. A refused page list is answered 400 with `CheckPageList`'s message. The windows handed on are `generateFixedRange`'s: they cover `1..pageCount`, each of 1 to `fixedRange` pages. Every other case is a 400 |
| Rest.PositionAfter | internal/rest/pdf.go:138-177 | after a decided split the upload is where it was when the request is refused, at its end after a service call, and rewound when an empty archive read nothing |
| Rest.PageListChecked | internal/rest/pdf.go:124-136 | a page list passes iff it is not empty, parses, and its last page is within the count; what passes is the parsed list. The messages are `Invalid Range` and the parser's error text |
| Rest.BoundChecksLastOnly | internal/rest/pdf.go:134 | only the last page is bounded: a list passes whenever its last page is within the document |
| Rest.LaterPageBeyondCount | internal/rest/pdf.go:155 | `5,1` on a three-page document passes the checks |
| Rest.FixedRangeDecision | internal/rest/pdf.go:167-172 | a size below 1 is refused before windows are computed; otherwise the windows cover the document in order, each of at most the size |
| Rest.UnknownMode | internal/rest/pdf.go:182-183 | any other mode is refused with `Invalid Split Mode` |
| Rest.IsZipFile | internal/rest/pdf.go:199-201 | a name is a zip name exactly when it is some stem followed by `.zip` |
| Rest.ContentType | internal/rest/pdf.go:188-191 | the content type is `application/zip` exactly for a zip name and `application/pdf` for every other |
| Rest.RespondWithPdfOrZip | internal/rest/pdf.go:187-197 | the download is status 200, offered as the attachment `filename=<name>`, holding the file's content unchanged, typed zip exactly for a zip name |
| Rest.ZipSuffix | internal/rest/pdf.go:199-201 | the `split_` prefix does not change whether a name ends in `.zip`; appending `.zip` always does |
| Rest.ServedContentType | internal/rest/pdf.go:187-191 | an archive is served as `application/zip`; a single PDF is served as `application/pdf` unless the upload's own name ends in `.zip` |
| Rest.SplitCallsReadWholeDocument | internal/rest/pdf.go:116-175 | every repository call of the split handler reads the whole document; a refused request makes no extraction |
| Rest.SplitBadRequest | internal/rest/pdf.go:123-183 | the handler answers 400 iff the page count is known and the checks refuse the request, with the check's message |
| Rest.PdfHandler.StartSplit | internal/rest/pdf.go:101-185 | the handler's response and repository calls are those specified: the page count first, then the mode's checks, then at most one service call; the upload ends where `SplitPosition` says |
| Rest.PdfHandler.SplitMode | internal/rest/pdf.go:123-184 | the switch on the split mode gives the decided response and calls, and leaves the upload where `PositionAfter` says |
| Rest.PdfHandler.SplitByRangesMode | internal/rest/pdf.go:124-144 | the `ranges` case: checks, then one extraction of the parsed list from the rewound file; a failure gives 500 `Failed to split PDF`; the upload ends where `PositionAfter` says |
| Rest.PdfHandler.RemovePagesMode | internal/rest/pdf.go:145-165 | the `remove_pages` case: checks, then one extraction of the keep-list from the rewound file; the upload ends where `PositionAfter` says |
| Rest.PdfHandler.FixedRangeMode | internal/rest/pdf.go:167-180 | the `fixed_range` case: a size check, then the windows and the split from the rewound file; a failure gives 500 `Failed to split PDF by fixed range`; the upload ends where `PositionAfter` says |
| Rest.PdfHandler.ParsePageList | internal/rest/pdf.go:125-136 | the three checks of a page list field give exactly the specified outcome |
| Rest.PdfHandler.StartCompress | internal/rest/pdf.go:67-85 | one compression of the rewound file. On success it is served as `application/pdf` under the service's name. Otherwise the answer is 500 `Failed to compress pdf`. The upload is left at its end |

## Left out

- HTTP transport: `Bind`, `Validate`, `FormFile`, `validateAndOpenFile` and the Echo context are not modelled. A request is its bound fields, the upload's name and its bytes. A response is a status with a message, or a streamed download with its headers.
- The upload's lifetime: `validateAndOpenFile` closes the file with `defer` before returning it. The model's file is always readable.
- `Seek` errors: the Go code ignores them; the model's `SeekStart` always succeeds.
- The repository internals (temporary files, `uuid`, pdfcpu's `Split`, `MergeCreateFile` and `Optimize`) are an oracle. So is `io.Copy` failing inside it.
- `context.Context` is passed through and never consulted; it is left out.
- The PKZIP byte format: an archive is its ordered list of entries. The writer's failures are oracles of the entries written so far.
- Text.Atoi: integers are unbounded, so the range error that Go's `Atoi` gives for numbers beyond 64 bits is not modelled.
- Text.TrimSpace: trims ASCII white space only, not the other Unicode spaces Go's `TrimSpace` removes.
- Windows.GenerateFixedRange: requires `fixedRange >= 1` unless the document has no pages. With size 0 the Go loop never ends; with a negative size it runs until `i` wraps around past the smallest `int` or memory runs out. The handler refuses such sizes first. The 64-bit overflow of `i += fixedRange` for sizes near the largest `int` is not modelled.
- RangeParser.AppendToken: integers are unbounded, so two effects of the span loop `for i := start; i <= end; i++` are not modelled. With `end` equal to the largest 64-bit `int` (`9223372036854775807-9223372036854775807`), Go's `i++` wraps around and the loop never ends; the model returns that one page. A huge span such as `1-100000000000` is expanded in full before the last-page bound check, so Go runs out of memory there; the model answers 400 `Ranges exceed page count`. The same holds for `Pages.AppendRun`.
- Service.PdfService.RemovePagesPdf: `slices.Contains` is modelled as sequence membership.
- The text of the service's wrapped errors (`%v` of a page list) is not modelled. The errors keep their kind, the window and the cause. The handler replaces them with its own messages.
- `NewPdfHandler`, `NewService` and the route wiring are left out.
