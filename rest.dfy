/** internal/rest/pdf.go: the `/process/split` and `/process/compress`
    handlers, without the HTTP plumbing. A request is the bound form fields,
    the uploaded file's name and the file; a response is either a JSON error
    with its status or a streamed download. */
module Rest {
  import opened Common
  import opened Text
  import opened Domain
  import opened Pages
  import opened RangeParser
  import opened Windows
  import opened Archive
  import opened Service

  const SplitModeRange := "ranges"
  const SplitModeFixedRange := "fixed_range"
  const SplitModeRemovePages := "remove_pages"

  /** What the handler sends back. */
  datatype Response =
    | Json(status: int, message: string)
    | Stream(status: int, contentType: string, disposition: string, body: Payload)

  /** The outcome of the checks `StartSplit` makes once the page count is known
      and before it calls the service. */
  datatype Decision =
    | BadRequest(message: string)
    | SplitByRanges(pages: seq<int>)
    | RemovePages(removePages: seq<int>, pageCount: int)
    | SplitByFixedRange(windows: seq<seq<int>>)

  /** The checks on a page list field (`ranges` or `remove_page`): present,
      well formed, and its LAST page not beyond the document. */
  function CheckPageList(text: string, pageCount: int): (r: Result<seq<int>, string>)
    ensures r.Ok? ==> ParseRanges(text) == Ok(r.value)
    ensures r.Ok? ==> |r.value| >= 1 && Last(r.value) <= pageCount
    ensures r.Ok? ==> forall k :: 0 <= k < |r.value| ==> r.value[k] >= 0
  {
    if text == "" then Err("Invalid Range")
    else
      match ParseRanges(text)
      case Err(e) => Err(e.Message())
      case Ok(pages) => if Last(pages) > pageCount then Err("Ranges exceed page count") else Ok(pages)
  }

  /** The dispatch of `StartSplit` on the split mode. */
  function Decide(req: SplitPdfFile, pageCount: int): (r: Decision)
    ensures r.SplitByRanges? <==> req.splitMode == SplitModeRange && CheckPageList(req.ranges, pageCount).Ok?
    ensures r.RemovePages? <==> req.splitMode == SplitModeRemovePages && CheckPageList(req.removePages, pageCount).Ok?
    ensures r.SplitByFixedRange? <==> req.splitMode == SplitModeFixedRange && req.fixedRange >= 1
    ensures r.SplitByRanges? ==> ParseRanges(req.ranges) == Ok(r.pages) && |r.pages| >= 1 && Last(r.pages) <= pageCount
    ensures r.RemovePages? ==>
              && ParseRanges(req.removePages) == Ok(r.removePages)
              && |r.removePages| >= 1 && Last(r.removePages) <= pageCount && r.pageCount == pageCount
    ensures req.splitMode == SplitModeRange && CheckPageList(req.ranges, pageCount).Err? ==>
              r == BadRequest(CheckPageList(req.ranges, pageCount).error)
    ensures req.splitMode == SplitModeRemovePages && CheckPageList(req.removePages, pageCount).Err? ==>
              r == BadRequest(CheckPageList(req.removePages, pageCount).error)
    ensures r.SplitByFixedRange? ==>
              && r.windows == FixedWindows(pageCount, req.fixedRange)
              && Flatten(r.windows) == Interval(1, pageCount)
              && forall k :: 0 <= k < |r.windows| ==> 1 <= |r.windows[k]| <= req.fixedRange
  {
    if req.splitMode == SplitModeRange then
      match CheckPageList(req.ranges, pageCount)
      case Err(m) => BadRequest(m)
      case Ok(pages) => SplitByRanges(pages)
    else if req.splitMode == SplitModeRemovePages then
      match CheckPageList(req.removePages, pageCount)
      case Err(m) => BadRequest(m)
      case Ok(pages) => RemovePages(pages, pageCount)
    else if req.splitMode == SplitModeFixedRange then
      if req.fixedRange <= 0 then BadRequest("Fixed range must be greater than 0")
      else
        WindowSizes(pageCount, req.fixedRange);
        SplitByFixedRange(FixedWindows(pageCount, req.fixedRange))
    else BadRequest("Invalid Split Mode")
  }

  /** A page list is let through exactly when it is not empty, parses, and its
      last page is within the document; what is let through is the parsed list,
      nonempty and without negative pages. */
  lemma PageListChecked(text: string, pageCount: int)
    ensures CheckPageList(text, pageCount).Ok? <==>
              text != "" && ParseRanges(text).Ok? && Last(ParseRanges(text).value) <= pageCount
    ensures CheckPageList(text, pageCount).Ok? ==>
              var pages := CheckPageList(text, pageCount).value;
              && pages == ParseRanges(text).value
              && |pages| >= 1 && Last(pages) <= pageCount
              && forall k :: 0 <= k < |pages| ==> pages[k] >= 0
    ensures text == "" ==> CheckPageList(text, pageCount) == Err("Invalid Range")
    ensures text != "" && ParseRanges(text).Err? ==> CheckPageList(text, pageCount) == Err(ParseRanges(text).error.Message())
  {
  }

  /** Only the last page is compared with the page count: a list printed with
      %d passes whenever its last page is within the document, even if an
      earlier page is not (`5,1` on a three-page document goes through). */
  lemma BoundChecksLastOnly(pages: seq<nat>, pageCount: int)
    requires |pages| >= 1 && pages[|pages| - 1] <= pageCount
    ensures CheckPageList(Join(PrintedPages(pages), ','), pageCount) == Ok(pages)
  {
    var text := Join(PrintedPages(pages), ',');
    ParsePrintedPages(pages);
    JoinNotEmpty(PrintedPages(pages), ',');
  }

  /** A later page beyond the document is let through when the last one is not. */
  lemma LaterPageBeyondCount()
    ensures CheckPageList(Join(PrintedPages([5, 1]), ','), 3) == Ok([5, 1])
  {
    BoundChecksLastOnly([5, 1], 3);
  }

  lemma {:induction false} JoinNotEmpty(parts: seq<string>, sep: char)
    requires |parts| >= 1 && |parts[0]| >= 1
    ensures Join(parts, sep) != ""
  {
    if |parts| > 1 {
      assert Join(parts, sep)[0] == parts[0][0];
    }
  }

  /** The fixed-range mode: a size below 1 is refused before any window is
      computed; otherwise the windows cover the document's pages in order,
      each with at most `fixedRange` pages. */
  lemma FixedRangeDecision(req: SplitPdfFile, pageCount: int)
    requires req.splitMode == SplitModeFixedRange
    ensures req.fixedRange <= 0 <==> Decide(req, pageCount) == BadRequest("Fixed range must be greater than 0")
    ensures req.fixedRange >= 1 ==>
              && Decide(req, pageCount).SplitByFixedRange?
              && Flatten(Decide(req, pageCount).windows) == Interval(1, pageCount)
              && forall k :: 0 <= k < |Decide(req, pageCount).windows| ==> 1 <= |Decide(req, pageCount).windows[k]| <= req.fixedRange
  {
    if req.fixedRange >= 1 {
      WindowSizes(pageCount, req.fixedRange);
    }
  }

  /** A mode other than the three known ones is refused, whatever else the
      request holds. */
  lemma UnknownMode(req: SplitPdfFile, pageCount: int)
    requires req.splitMode !in {SplitModeRange, SplitModeRemovePages, SplitModeFixedRange}
    ensures Decide(req, pageCount) == BadRequest("Invalid Split Mode")
  {
  }

  // ---------------------------------------------------------------------------
  // Content type

  /** `isZipFile`: the name is some stem followed by `.zip`. */
  predicate IsZipFile(fileName: string)
    ensures IsZipFile(fileName) <==> exists stem :: fileName == stem + ".zip"
  {
    var zip := HasSuffix(fileName, ".zip");
    assert zip ==> fileName == fileName[..|fileName| - 4] + ".zip";
    zip
  }

  /** The content type of a download: zip exactly for a `.zip` name, PDF for
      every other. */
  function ContentType(fileName: string): (r: string)
    ensures r == "application/zip" || r == "application/pdf"
    ensures r == "application/zip" <==> IsZipFile(fileName)
  {
    if IsZipFile(fileName) then "application/zip" else "application/pdf"
  }

  /** `respondWithPdfOrZip`: status 200, the content type chosen by the name,
      the file offered as an attachment under its name. */
  function RespondWithPdfOrZip(file: PdfFile): (r: Response)
    ensures r.Stream? && r.status == 200 && r.body == file.content
    ensures r.disposition == "attachment; filename=" + file.name
    ensures r.contentType == "application/zip" <==> IsZipFile(file.name)
  {
    Stream(200, ContentType(file.name), "attachment; filename=" + file.name, file.content)
  }

  /** Putting a prefix without a `.` (such as `split_`) in front of a name
      does not change whether it ends in `.zip`; appending `.zip` always makes
      it one. */
  lemma ZipSuffix(prefix: string, fileName: string)
    requires '.' !in prefix
    ensures IsZipFile(prefix + fileName) <==> IsZipFile(fileName)
    ensures IsZipFile(prefix + fileName + ".zip")
  {
    var s := prefix + fileName;
    if |fileName| >= 4 {
      assert s[|s| - 4..] == fileName[|fileName| - 4..];
    } else if |s| >= 4 {
      assert s[|s| - 4] == prefix[|s| - 4];
    }
    assert (s + ".zip")[|s + ".zip"| - 4..] == ".zip";
  }

  /** The content type follows the kind of output: an archive is always served
      as `application/zip`, a single PDF as `application/pdf` unless the
      uploaded name itself ends in `.zip`. */
  lemma ServedContentType(repo: Repository, zip: ZipBackend, fileName: string, input: seq<byte>, doc: seq<byte>, fra: seq<seq<int>>)
    requires FixedRangeOutcome(repo, zip, fileName, input, doc, fra).Ok?
    ensures var out := FixedRangeOutcome(repo, zip, fileName, input, doc, fra).value;
            RespondWithPdfOrZip(out).contentType ==
              if |fra| != 1 || IsZipFile(fileName) then "application/zip" else "application/pdf"
  {
    ZipSuffix("split_", fileName);
  }

  // ---------------------------------------------------------------------------
  // What the handlers answer and which repository calls they make

  /** A service outcome turned into a response: the file, or a 500 with the
      handler's own message (the service's error text is not shown). */
  function Served(out: Result<PdfFile, ServiceError>, failure: string): Response
  {
    match out
    case Err(_) => Json(500, failure)
    case Ok(file) => RespondWithPdfOrZip(file)
  }

  /** The response of `StartSplit` for a document `doc`; the file is rewound
      before every service call, so each sees the whole document. */
  function SplitResponse(repo: Repository, zip: ZipBackend, req: SplitPdfFile, fileName: string, doc: seq<byte>): Response
  {
    match repo.pageCount(doc)
    case Err(_) => Json(500, "Failed to get page count")
    case Ok(pageCount) => DecisionResponse(repo, zip, fileName, doc, Decide(req, pageCount))
  }

  /** The response once the checks have decided. */
  function DecisionResponse(repo: Repository, zip: ZipBackend, fileName: string, doc: seq<byte>, decision: Decision): Response
  {
    match decision
    case BadRequest(m) => Json(400, m)
    case SplitByRanges(pages) => Served(RangesOutcome(repo, fileName, doc, pages), "Failed to split PDF")
    case RemovePages(removed, n) => Served(RangesOutcome(repo, fileName, doc, Complement(removed, n)), "Failed to split PDF")
    case SplitByFixedRange(windows) =>
      Served(FixedRangeOutcome(repo, zip, fileName, doc, doc, windows), "Failed to split PDF by fixed range")
  }

  /** The repository calls `StartSplit` makes: the page count, then those of
      the service call the checks let through, if any. */
  function SplitCalls(repo: Repository, zip: ZipBackend, req: SplitPdfFile, doc: seq<byte>): seq<RepoCall>
  {
    [PageCountCall(doc)] +
    match repo.pageCount(doc)
    case Err(_) => []
    case Ok(pageCount) => DecisionCalls(repo, zip, doc, Decide(req, pageCount))
  }

  function DecisionCalls(repo: Repository, zip: ZipBackend, doc: seq<byte>, decision: Decision): seq<RepoCall>
  {
    match decision
    case BadRequest(_) => []
    case SplitByRanges(pages) => [SplitCall(doc, pages)]
    case RemovePages(removed, n) => [SplitCall(doc, Complement(removed, n))]
    case SplitByFixedRange(windows) => FixedRangeCalls(repo, zip, doc, doc, windows)
  }

  /** Every repository call of the split handler reads the whole document, and
      a request the checks refuse reaches no extraction at all. */
  lemma SplitCallsReadWholeDocument(repo: Repository, zip: ZipBackend, req: SplitPdfFile, doc: seq<byte>)
    ensures forall c :: c in SplitCalls(repo, zip, req, doc) ==> c.input == doc
    ensures repo.pageCount(doc).Ok? && Decide(req, repo.pageCount(doc).value).BadRequest? ==>
              SplitCalls(repo, zip, req, doc) == [PageCountCall(doc)]
  {
    if repo.pageCount(doc).Ok? {
      match Decide(req, repo.pageCount(doc).value)
      case SplitByFixedRange(windows) =>
        if |windows| != 1 {
          SplitCallsInOrder(repo, zip, doc, windows, |windows|);
        }
      case _ =>
    }
  }

  /** The split handler answers 400 exactly when the page count is known and
      the checks refuse the request, with the check's message. */
  lemma SplitBadRequest(repo: Repository, zip: ZipBackend, req: SplitPdfFile, fileName: string, doc: seq<byte>)
    ensures SplitResponse(repo, zip, req, fileName, doc).Json? && SplitResponse(repo, zip, req, fileName, doc).status == 400
        <==> repo.pageCount(doc).Ok? && Decide(req, repo.pageCount(doc).value).BadRequest?
    ensures repo.pageCount(doc).Ok? && Decide(req, repo.pageCount(doc).value).BadRequest? ==>
              SplitResponse(repo, zip, req, fileName, doc).message == Decide(req, repo.pageCount(doc).value).message
  {
  }

  /** The response of `StartCompress`: always served as a PDF. */
  function CompressResponse(repo: Repository, fileName: string, doc: seq<byte>): Response
  {
    match CompressOutcome(repo, fileName, doc)
    case Err(_) => Json(500, "Failed to compress pdf")
    case Ok(file) => Stream(200, "application/pdf", "attachment; filename=" + file.name, file.content)
  }

  /** Where the upload stands after a decided split: a refused request leaves
      it where it was; a service call reads it to its end after the rewind,
      except an archive of no windows, which reads nothing and leaves it
      rewound. */
  function PositionAfter(decision: Decision, before: int, end: int): (pos: int)
    ensures pos == before || pos == 0 || pos == end
    ensures decision.SplitByRanges? || decision.RemovePages? ==> pos == end
  {
    match decision
    case BadRequest(_) => before
    case SplitByFixedRange(windows) => if windows == [] then 0 else end
    case _ => end
  }

  /** Where `StartSplit` leaves the upload: at its end after the page count,
      then wherever the decided split leaves it. */
  function SplitPosition(repo: Repository, req: SplitPdfFile, doc: seq<byte>): int
  {
    match repo.pageCount(doc)
    case Err(_) => |doc|
    case Ok(n) => PositionAfter(Decide(req, n), |doc|, |doc|)
  }

  /** `PdfHandler`: the handlers over one service. */
  class PdfHandler {
    const service: PdfService

    constructor (service: PdfService)
      ensures this.service == service
    {
      this.service := service;
    }

    /** `StartSplit`, from the bound request on. */
    method StartSplit(req: SplitPdfFile, fileName: string, src: File) returns (resp: Response)
      requires src.Valid()
      modifies service, src
      ensures src.Valid()
      ensures src.pos == SplitPosition(service.repo, req, src.data)
      ensures resp == SplitResponse(service.repo, service.zip, req, fileName, src.data)
      ensures service.calls == old(service.calls) + SplitCalls(service.repo, service.zip, req, src.data)
    {
      src.SeekStart();
      var pageCount := service.PageCount(src);
      if pageCount.Err? {
        return Json(500, "Failed to get page count");
      }
      var decision := Decide(req, pageCount.value);
      resp := SplitMode(req, fileName, src, pageCount.value);
      assert service.calls == old(service.calls) + ([PageCountCall(src.data)]
               + DecisionCalls(service.repo, service.zip, src.data, decision));
    }

    /** The `switch` of `StartSplit` on the split mode, once the page count is known. */
    method SplitMode(req: SplitPdfFile, fileName: string, src: File, n: int) returns (resp: Response)
      requires src.Valid()
      modifies service, src
      ensures src.Valid() && src.pos == PositionAfter(Decide(req, n), old(src.pos), |src.data|)
      ensures resp == DecisionResponse(service.repo, service.zip, fileName, src.data, Decide(req, n))
      ensures service.calls == old(service.calls) + DecisionCalls(service.repo, service.zip, src.data, Decide(req, n))
    {
      if req.splitMode == SplitModeRange {
        resp := SplitByRangesMode(req, fileName, src, n);
      } else if req.splitMode == SplitModeRemovePages {
        resp := RemovePagesMode(req, fileName, src, n);
      } else if req.splitMode == SplitModeFixedRange {
        resp := FixedRangeMode(req, fileName, src, n);
      } else {
        return Json(400, "Invalid Split Mode");
      }
    }

    /** The `ranges` case of `StartSplit`. */
    method SplitByRangesMode(req: SplitPdfFile, fileName: string, src: File, n: int) returns (resp: Response)
      requires src.Valid() && req.splitMode == SplitModeRange
      modifies service, src
      ensures src.Valid() && src.pos == PositionAfter(Decide(req, n), old(src.pos), |src.data|)
      ensures resp == DecisionResponse(service.repo, service.zip, fileName, src.data, Decide(req, n))
      ensures service.calls == old(service.calls) + DecisionCalls(service.repo, service.zip, src.data, Decide(req, n))
    {
      var ranges := ParsePageList(req.ranges, n);
      if ranges.Err? {
        return Json(400, ranges.error);
      }
      src.SeekStart();
      var out := service.SplitPdfByRanges(fileName, src, ranges.value);
      if out.Err? {
        return Json(500, "Failed to split PDF");
      }
      return RespondWithPdfOrZip(out.value);
    }

    /** The `remove_pages` case of `StartSplit`. */
    method RemovePagesMode(req: SplitPdfFile, fileName: string, src: File, n: int) returns (resp: Response)
      requires src.Valid() && req.splitMode == SplitModeRemovePages
      modifies service, src
      ensures src.Valid() && src.pos == PositionAfter(Decide(req, n), old(src.pos), |src.data|)
      ensures resp == DecisionResponse(service.repo, service.zip, fileName, src.data, Decide(req, n))
      ensures service.calls == old(service.calls) + DecisionCalls(service.repo, service.zip, src.data, Decide(req, n))
    {
      var ranges := ParsePageList(req.removePages, n);
      if ranges.Err? {
        return Json(400, ranges.error);
      }
      src.SeekStart();
      var out := service.RemovePagesPdf(fileName, src, ranges.value, n);
      if out.Err? {
        return Json(500, "Failed to split PDF");
      }
      return RespondWithPdfOrZip(out.value);
    }

    /** The `fixed_range` case of `StartSplit`. */
    method FixedRangeMode(req: SplitPdfFile, fileName: string, src: File, n: int) returns (resp: Response)
      requires src.Valid() && req.splitMode == SplitModeFixedRange
      modifies service, src
      ensures src.Valid() && src.pos == PositionAfter(Decide(req, n), old(src.pos), |src.data|)
      ensures resp == DecisionResponse(service.repo, service.zip, fileName, src.data, Decide(req, n))
      ensures service.calls == old(service.calls) + DecisionCalls(service.repo, service.zip, src.data, Decide(req, n))
    {
      if req.fixedRange <= 0 {
        return Json(400, "Fixed range must be greater than 0");
      }
      var fixedRange := GenerateFixedRange(n, req.fixedRange);
      src.SeekStart();
      var out := service.SplitAndZipPdfByFixedRange(fileName, src, fixedRange);
      if out.Err? {
        return Json(500, "Failed to split PDF by fixed range");
      }
      return RespondWithPdfOrZip(out.value);
    }

    /** The checks of one page list field inside `StartSplit`. */
    method ParsePageList(text: string, pageCount: int) returns (r: Result<seq<int>, string>)
      ensures r == CheckPageList(text, pageCount)
    {
      if text == "" {
        return Err("Invalid Range");
      }
      var ranges := ValidateAndParseRanges(text);
      if ranges.Err? {
        return Err(ranges.error.Message());
      }
      if ranges.value[|ranges.value| - 1] > pageCount {
        return Err("Ranges exceed page count");
      }
      r := Ok(ranges.value);
    }

    /** `StartCompress`, from the opened upload on. */
    method StartCompress(fileName: string, src: File) returns (resp: Response)
      requires src.Valid()
      modifies service, src
      ensures src.Valid() && src.pos == |src.data|
      ensures resp == CompressResponse(service.repo, fileName, src.data)
      ensures service.calls == old(service.calls) + [CompressCall(src.data)]
    {
      src.SeekStart();
      var out := service.CompressPdf(fileName, src);
      if out.Err? {
        return Json(500, "Failed to compress pdf");
      }
      resp := Stream(200, "application/pdf", "attachment; filename=" + out.value.name, out.value.content);
    }
  }
}
