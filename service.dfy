/** pdf/service.go: the split and compress orchestration around the PDF
    repository. The repository (pdfcpu behind temporary files) is an oracle;
    like the Go repository it reads the uploaded file from its CURRENT
    position to the end, so where the file stands before each call matters. */
module Service {
  import opened Common
  import opened Text
  import opened Domain
  import opened Pages
  import opened Archive

  /** `PdfRepository`: what compressing, extracting pages and counting pages
      give for the bytes read from the file. */
  datatype Repository = Repository(
    compress: seq<byte> -> Result<seq<byte>, string>,
    split: (seq<byte>, seq<int>) -> Result<seq<byte>, string>,
    pageCount: seq<byte> -> Result<int, string>)

  /** One call into the repository, with the bytes it was given. */
  datatype RepoCall =
    | CompressCall(input: seq<byte>)
    | SplitCall(input: seq<byte>, pages: seq<int>)
    | PageCountCall(input: seq<byte>)

  /** The errors the service returns. */
  datatype ServiceError =
    | RepositoryFailed(cause: string)                    // returned as the repository gave it
    | WindowSplitFailed(pages: seq<int>, cause: string)  // "failed to split pdf for range %v: %w"
    | EntryCreateFailed(cause: string)                   // "failed to create zip entry: %w"
    | EntryWriteFailed(cause: string)                    // "failed to write split content to zip: %w"
    | ZipCloseFailed(cause: string)                      // "failed to close zip writer: %w"

  /** The uploaded `multipart.File`: fixed content and a read position. */
  class File {
    const data: seq<byte>
    var pos: int

    ghost predicate Valid()
      reads this
    {
      0 <= pos <= |data|
    }

    /** What a reader gets from the current position on. */
    function Remaining(): seq<byte>
      reads this
      requires Valid()
    {
      data[pos..]
    }

    constructor (data: seq<byte>)
      ensures this.data == data && pos == 0 && Valid()
    {
      this.data := data;
      pos := 0;
    }

    /** `Seek(0, io.SeekStart)`. */
    method SeekStart()
      modifies this
      ensures pos == 0 && Valid()
    {
      pos := 0;
    }

    /** `io.Copy` out of the file: everything from the position on; the file
        is left at its end. */
    method ReadAll() returns (bytes: seq<byte>)
      requires Valid()
      modifies this
      ensures bytes == old(Remaining())
      ensures pos == |data| && Valid()
    {
      bytes := data[pos..];
      pos := |data|;
    }
  }

  // ---------------------------------------------------------------------------
  // RemovePagesPdf: the pages to keep

  /** The pages among `1..n` that are not in `removePages`, ascending. */
  function Complement(removePages: seq<int>, n: int): (r: seq<int>)
    ensures forall p :: p in r ==> 1 <= p <= n && p !in removePages
    ensures n >= 0 ==> |r| <= n
    decreases if n < 0 then 0 else n
  {
    if n <= 0 then [] else Complement(removePages, n - 1) + (if n in removePages then [] else [n])
  }

  /** A page is kept exactly when it is a page of the document and not removed. */
  lemma {:induction false} ComplementMembers(removePages: seq<int>, n: int)
    ensures forall p :: p in Complement(removePages, n) <==> 1 <= p <= n && p !in removePages
    decreases if n < 0 then 0 else n
  {
    if n > 0 {
      ComplementMembers(removePages, n - 1);
    }
  }

  /** The kept pages are strictly ascending (so no page is kept twice). */
  lemma {:induction false} ComplementAscending(removePages: seq<int>, n: int)
    ensures StrictlyAscending(Complement(removePages, n))
    decreases if n < 0 then 0 else n
  {
    if n > 0 {
      var before := Complement(removePages, n - 1);
      ComplementAscending(removePages, n - 1);
      ComplementMembers(removePages, n - 1);
      var keep := Complement(removePages, n);
      forall i, j | 0 <= i < j < |keep| ensures keep[i] < keep[j] {
        if j >= |before| {
          assert keep == before + [n] && keep[j] == n;
          assert keep[i] == before[i] && before[i] in before;
          assert before[i] <= n - 1;
        } else {
          assert keep[i] == before[i] && keep[j] == before[j];
          assert before[i] < before[j];
        }
      }
    }
  }

  /** Only which pages of the document are removed matters: the order, the
      repetitions and the out-of-range numbers of `removePages` do not. */
  lemma {:induction false} ComplementSameRemovals(removePages: seq<int>, others: seq<int>, n: int)
    requires forall p :: 1 <= p <= n ==> (p in removePages <==> p in others)
    ensures Complement(removePages, n) == Complement(others, n)
    decreases if n < 0 then 0 else n
  {
    if n > 0 {
      ComplementSameRemovals(removePages, others, n - 1);
    }
  }

  /** Nothing is kept exactly when every page is removed (`RemovePagesPdf`
      extracts that empty list all the same). */
  lemma ComplementEmpty(removePages: seq<int>, n: int)
    ensures Complement(removePages, n) == [] <==> forall p :: 1 <= p <= n ==> p in removePages
  {
    ComplementMembers(removePages, n);
    if Complement(removePages, n) != [] {
      assert Complement(removePages, n)[0] in Complement(removePages, n);
    }
  }

  /** Removing no page of the document keeps them all. */
  lemma {:induction false} ComplementNothingRemoved(removePages: seq<int>, n: int)
    requires forall p :: 1 <= p <= n ==> p !in removePages
    ensures Complement(removePages, n) == Interval(1, n)
    decreases if n < 0 then 0 else n
  {
    if n > 0 {
      ComplementNothingRemoved(removePages, n - 1);
      IntervalSnoc(1, n - 1);
    }
  }

  // ---------------------------------------------------------------------------
  // Output names and the zip archive

  /** `fmt.Sprintf("split_part_%d.pdf", index+1)`. */
  function PartName(index: nat): string
  {
    "split_part_" + DecimalString(index + 1) + ".pdf"
  }

  /** The number between `split_part_` and `.pdf` is the 1-based index. */
  lemma PartNameNumber(index: nat)
    ensures var name := PartName(index);
            |name| >= 16 && Atoi(name[11..|name| - 4]) == Some(index + 1)
  {
    var name := PartName(index);
    assert name[11..|name| - 4] == DecimalString(index + 1);
    AtoiOfDecimalString(index + 1);
  }

  /** Entry names are distinct, so no entry of the archive shadows another. */
  lemma PartNamesDistinct(i: nat, j: nat)
    requires PartName(i) == PartName(j)
    ensures i == j
  {
    PartNameNumber(i);
    PartNameNumber(j);
  }

  /** `addToZip`: entry `index` is named after its 1-based position and holds
      `content`; the archive is given up if the writer refuses either step. */
  function AddEntry(zip: ZipBackend, entries: seq<ZipEntry>, content: seq<byte>, index: nat): Result<seq<ZipEntry>, ServiceError>
  {
    var name := PartName(index);
    match zip.createError(entries, name)
    case Some(e) => Err(EntryCreateFailed(e))
    case None =>
      match zip.writeError(entries + [ZipEntry(name, [])], content)
      case Some(e) => Err(EntryWriteFailed(e))
      case None => Ok(entries + [ZipEntry(name, content)])
  }

  /** The archive after the first `k` windows of `splitPdfWithZip`'s loop, each
      window extracted from the whole document `doc`; the first failure ends it. */
  function ArchiveUpTo(repo: Repository, zip: ZipBackend, doc: seq<byte>, fra: seq<seq<int>>, k: nat): Result<seq<ZipEntry>, ServiceError>
    requires k <= |fra|
  {
    if k == 0 then Ok([])
    else
      match ArchiveUpTo(repo, zip, doc, fra, k - 1)
      case Err(e) => Err(e)
      case Ok(entries) =>
        match repo.split(doc, fra[k - 1])
        case Err(e) => Err(WindowSplitFailed(fra[k - 1], e))
        case Ok(content) => AddEntry(zip, entries, content, k - 1)
  }

  /** The repository calls made by the first `k` windows: one per window that
      is reached, none after the first failure. */
  function SplitCallsUpTo(repo: Repository, zip: ZipBackend, doc: seq<byte>, fra: seq<seq<int>>, k: nat): seq<RepoCall>
    requires k <= |fra|
  {
    if k == 0 then []
    else if ArchiveUpTo(repo, zip, doc, fra, k - 1).Err? then SplitCallsUpTo(repo, zip, doc, fra, k - 1)
    else SplitCallsUpTo(repo, zip, doc, fra, k - 1) + [SplitCall(doc, fra[k - 1])]
  }

  /** One extraction of the whole document per window, for the first `m` windows, in order. */
  function WindowCalls(doc: seq<byte>, fra: seq<seq<int>>, m: nat): (calls: seq<RepoCall>)
    requires m <= |fra|
    ensures |calls| == m
    ensures forall i :: 0 <= i < m ==> calls[i] == SplitCall(doc, fra[i])
  {
    seq(m, i requires 0 <= i < m => SplitCall(doc, fra[i]))
  }

  /** A finished archive has one entry per window, in window order: entry `i`
      is `split_part_{i+1}.pdf` and holds the pages `fra[i]` extracted from the
      whole document. */
  lemma {:induction false} ArchiveEntries(repo: Repository, zip: ZipBackend, doc: seq<byte>, fra: seq<seq<int>>, k: nat)
    requires k <= |fra|
    requires ArchiveUpTo(repo, zip, doc, fra, k).Ok?
    ensures var entries := ArchiveUpTo(repo, zip, doc, fra, k).value;
            && |entries| == k
            && forall i :: 0 <= i < k ==>
                 repo.split(doc, fra[i]).Ok? && entries[i] == ZipEntry(PartName(i), repo.split(doc, fra[i]).value)
  {
    if k > 0 {
      ArchiveEntries(repo, zip, doc, fra, k - 1);
    }
  }

  /** Every repository call of the loop reads the whole document (the file is
      rewound first) and they follow the windows in order; a loop that gets
      through makes exactly one call per window. */
  lemma {:induction false} SplitCallsInOrder(repo: Repository, zip: ZipBackend, doc: seq<byte>, fra: seq<seq<int>>, k: nat)
    requires k <= |fra|
    ensures var calls := SplitCallsUpTo(repo, zip, doc, fra, k);
            && |calls| <= k
            && calls == WindowCalls(doc, fra, |calls|)
            && (ArchiveUpTo(repo, zip, doc, fra, k).Ok? ==> |calls| == k)
  {
    if k > 0 {
      SplitCallsInOrder(repo, zip, doc, fra, k - 1);
      ArchiveOkPrefix(repo, zip, doc, fra, k);
      if ArchiveUpTo(repo, zip, doc, fra, k - 1).Ok? {
        WindowCallsSnoc(doc, fra, k - 1);
      }
    }
  }

  /** An archive that gets through `k` windows got through the first `k - 1`. */
  lemma ArchiveOkPrefix(repo: Repository, zip: ZipBackend, doc: seq<byte>, fra: seq<seq<int>>, k: nat)
    requires 1 <= k <= |fra|
    ensures ArchiveUpTo(repo, zip, doc, fra, k).Ok? ==> ArchiveUpTo(repo, zip, doc, fra, k - 1).Ok?
  {
  }

  lemma WindowCallsSnoc(doc: seq<byte>, fra: seq<seq<int>>, m: nat)
    requires m < |fra|
    ensures WindowCalls(doc, fra, m) + [SplitCall(doc, fra[m])] == WindowCalls(doc, fra, m + 1)
  {
  }

  /** One more window of the loop: it is extracted from the whole document
      and, if that works, added as the next entry. */
  lemma ArchiveStep(repo: Repository, zip: ZipBackend, doc: seq<byte>, fra: seq<seq<int>>, i: nat, entries: seq<ZipEntry>)
    requires i < |fra|
    requires ArchiveUpTo(repo, zip, doc, fra, i) == Ok(entries)
    ensures ArchiveUpTo(repo, zip, doc, fra, i + 1) ==
              match repo.split(doc, fra[i])
              case Err(e) => Err(WindowSplitFailed(fra[i], e))
              case Ok(content) => AddEntry(zip, entries, content, i)
    ensures SplitCallsUpTo(repo, zip, doc, fra, i + 1) == SplitCallsUpTo(repo, zip, doc, fra, i) + [SplitCall(doc, fra[i])]
  {
  }

  /** A window reached by the loop is extracted from the whole document. */
  lemma SplitCallsStep(repo: Repository, zip: ZipBackend, doc: seq<byte>, fra: seq<seq<int>>, i: nat)
    requires i < |fra| && ArchiveUpTo(repo, zip, doc, fra, i).Ok?
    ensures SplitCallsUpTo(repo, zip, doc, fra, i + 1) == SplitCallsUpTo(repo, zip, doc, fra, i) + [SplitCall(doc, fra[i])]
  {
  }

  /** After a failure nothing more happens: the error and the calls made so far
      are final. */
  lemma {:induction false} ArchiveErrorPersists(repo: Repository, zip: ZipBackend, doc: seq<byte>, fra: seq<seq<int>>, k: nat, m: nat)
    requires k <= m <= |fra|
    requires ArchiveUpTo(repo, zip, doc, fra, k).Err?
    ensures ArchiveUpTo(repo, zip, doc, fra, m) == ArchiveUpTo(repo, zip, doc, fra, k)
    ensures SplitCallsUpTo(repo, zip, doc, fra, m) == SplitCallsUpTo(repo, zip, doc, fra, k)
    decreases m
  {
    if m > k {
      ArchiveErrorPersists(repo, zip, doc, fra, k, m - 1);
    }
  }

  /** With a writer that never fails, the archive is built exactly when every
      window can be extracted. */
  lemma {:induction false} ArchiveReliable(repo: Repository, zip: ZipBackend, doc: seq<byte>, fra: seq<seq<int>>, k: nat)
    requires k <= |fra| && zip.Reliable()
    ensures ArchiveUpTo(repo, zip, doc, fra, k).Ok? <==> forall i :: 0 <= i < k ==> repo.split(doc, fra[i]).Ok?
  {
    if k > 0 {
      ArchiveReliable(repo, zip, doc, fra, k - 1);
      var name := PartName(k - 1);
      var previous := ArchiveUpTo(repo, zip, doc, fra, k - 1);
      if previous.Ok? && repo.split(doc, fra[k - 1]).Ok? {
        assert zip.createError(previous.value, name).None?;
        assert zip.writeError(previous.value + [ZipEntry(name, [])], repo.split(doc, fra[k - 1]).value).None?;
      }
    }
  }

  /** The first window that cannot be extracted decides the outcome: the split
      of the later windows is never attempted and no archive is returned. */
  lemma AbortAtFailedWindow(repo: Repository, zip: ZipBackend, name: string, doc: seq<byte>, fra: seq<seq<int>>, j: nat)
    requires j < |fra| && zip.Reliable()
    requires forall i :: 0 <= i < j ==> repo.split(doc, fra[i]).Ok?
    requires repo.split(doc, fra[j]).Err?
    ensures WithZipOutcome(repo, zip, name, doc, fra) == Err(WindowSplitFailed(fra[j], repo.split(doc, fra[j]).error))
    ensures SplitCallsUpTo(repo, zip, doc, fra, |fra|) == WindowCalls(doc, fra, j + 1)
  {
    ArchiveReliable(repo, zip, doc, fra, j);
    SplitCallsInOrder(repo, zip, doc, fra, j);
    ArchiveErrorPersists(repo, zip, doc, fra, j + 1, |fra|);
    assert SplitCallsUpTo(repo, zip, doc, fra, j + 1) == WindowCalls(doc, fra, j) + [SplitCall(doc, fra[j])];
  }

  // ---------------------------------------------------------------------------
  // The outcome of each service operation, given the bytes the repository reads

  function CompressOutcome(repo: Repository, fileName: string, input: seq<byte>): Result<PdfFile, ServiceError>
  {
    match repo.compress(input)
    case Err(e) => Err(RepositoryFailed(e))
    case Ok(content) => Ok(PdfFile("compressed_" + fileName, PdfBytes(content)))
  }

  function RangesOutcome(repo: Repository, fileName: string, input: seq<byte>, pages: seq<int>): Result<PdfFile, ServiceError>
  {
    match repo.split(input, pages)
    case Err(e) => Err(RepositoryFailed(e))
    case Ok(content) => Ok(PdfFile("split_" + fileName, PdfBytes(content)))
  }

  function WithoutZipOutcome(repo: Repository, fileName: string, input: seq<byte>, pages: seq<int>): Result<PdfFile, ServiceError>
  {
    match repo.split(input, pages)
    case Err(e) => Err(WindowSplitFailed(pages, e))
    case Ok(content) => Ok(PdfFile("split_" + fileName, PdfBytes(content)))
  }

  function WithZipOutcome(repo: Repository, zip: ZipBackend, fileName: string, doc: seq<byte>, fra: seq<seq<int>>): Result<PdfFile, ServiceError>
  {
    match ArchiveUpTo(repo, zip, doc, fra, |fra|)
    case Err(e) => Err(e)
    case Ok(entries) =>
      match zip.closeError(entries)
      case Some(e) => Err(ZipCloseFailed(e))
      case None => Ok(PdfFile("split_" + fileName + ".zip", ZipArchive(entries)))
  }

  /** `SplitAndZipPdfByFixedRange`: one window gives a plain PDF extracted from
      where the file stands (`input`), any other number of windows an archive
      built from the whole document (`doc`). */
  function FixedRangeOutcome(repo: Repository, zip: ZipBackend, fileName: string, input: seq<byte>, doc: seq<byte>, fra: seq<seq<int>>): Result<PdfFile, ServiceError>
  {
    if |fra| == 1 then WithoutZipOutcome(repo, fileName, input, fra[0])
    else WithZipOutcome(repo, zip, fileName, doc, fra)
  }

  function FixedRangeCalls(repo: Repository, zip: ZipBackend, input: seq<byte>, doc: seq<byte>, fra: seq<seq<int>>): seq<RepoCall>
  {
    if |fra| == 1 then [SplitCall(input, fra[0])]
    else SplitCallsUpTo(repo, zip, doc, fra, |fra|)
  }

  /** What each successful operation is called and what it carries: the
      repository's bytes unchanged, under the upload's name with a prefix, and
      a zip archive exactly when there is not exactly one window. */
  lemma OutputNames(repo: Repository, zip: ZipBackend, fileName: string, input: seq<byte>, doc: seq<byte>, pages: seq<int>, fra: seq<seq<int>>)
    ensures CompressOutcome(repo, fileName, input).Ok? <==> repo.compress(input).Ok?
    ensures CompressOutcome(repo, fileName, input).Ok? ==>
              CompressOutcome(repo, fileName, input).value == PdfFile("compressed_" + fileName, PdfBytes(repo.compress(input).value))
    ensures RangesOutcome(repo, fileName, input, pages).Ok? <==> repo.split(input, pages).Ok?
    ensures RangesOutcome(repo, fileName, input, pages).Ok? ==>
              RangesOutcome(repo, fileName, input, pages).value == PdfFile("split_" + fileName, PdfBytes(repo.split(input, pages).value))
    ensures var r := FixedRangeOutcome(repo, zip, fileName, input, doc, fra);
            r.Ok? ==> (r.value.name == (if |fra| == 1 then "split_" + fileName else "split_" + fileName + ".zip")
                       && (r.value.content.ZipArchive? <==> |fra| != 1))
  {
  }

  /** With exactly one window, that window is extracted once from where the
      file stands, and the result is a plain PDF. */
  lemma SingleWindowNoZip(repo: Repository, zip: ZipBackend, fileName: string, input: seq<byte>, doc: seq<byte>, window: seq<int>)
    ensures FixedRangeCalls(repo, zip, input, doc, [window]) == [SplitCall(input, window)]
    ensures FixedRangeOutcome(repo, zip, fileName, input, doc, [window]) ==
              if repo.split(input, window).Ok? then Ok(PdfFile("split_" + fileName, PdfBytes(repo.split(input, window).value)))
              else Err(WindowSplitFailed(window, repo.split(input, window).error))
  {
  }

  /** No window at all still gives an (empty) archive, without any extraction. */
  lemma NoWindowsEmptyArchive(repo: Repository, zip: ZipBackend, fileName: string, input: seq<byte>, doc: seq<byte>)
    requires zip.closeError([]).None?
    ensures FixedRangeOutcome(repo, zip, fileName, input, doc, []) == Ok(PdfFile("split_" + fileName + ".zip", ZipArchive([])))
    ensures FixedRangeCalls(repo, zip, input, doc, []) == []
  {
  }

  /** With a writer that never fails and every window extracted, the archive
      holds one entry per window, `split_part_1.pdf`, `split_part_2.pdf`, ...,
      in window order. */
  lemma ZipOfAllWindows(repo: Repository, zip: ZipBackend, fileName: string, doc: seq<byte>, fra: seq<seq<int>>)
    requires zip.Reliable()
    requires forall i :: 0 <= i < |fra| ==> repo.split(doc, fra[i]).Ok?
    ensures var r := WithZipOutcome(repo, zip, fileName, doc, fra);
            && r.Ok? && r.value.name == "split_" + fileName + ".zip" && r.value.content.ZipArchive?
            && |r.value.content.entries| == |fra|
            && forall i :: 0 <= i < |fra| ==>
                 r.value.content.entries[i] == ZipEntry(PartName(i), repo.split(doc, fra[i]).value)
    ensures SplitCallsUpTo(repo, zip, doc, fra, |fra|) == WindowCalls(doc, fra, |fra|)
  {
    ArchiveReliable(repo, zip, doc, fra, |fra|);
    ArchiveEntries(repo, zip, doc, fra, |fra|);
    SplitCallsInOrder(repo, zip, doc, fra, |fra|);
    assert zip.closeError(ArchiveUpTo(repo, zip, doc, fra, |fra|).value).None?;
  }

  // ---------------------------------------------------------------------------
  // The service

  /** `pdf.Service`: the repository it calls, the zip writer it builds archives
      with, and (ghost) the repository calls made so far. */
  class PdfService {
    const repo: Repository
    const zip: ZipBackend
    ghost var calls: seq<RepoCall>

    /** `NewService(pdfRepo)`. */
    constructor (repo: Repository, zip: ZipBackend)
      ensures this.repo == repo && this.zip == zip && calls == []
    {
      this.repo := repo;
      this.zip := zip;
      calls := [];
    }

    /** `pdfRepo.Split(file, pages)`: reads the file from its position on. */
    method RepoSplit(file: File, pages: seq<int>) returns (r: Result<seq<byte>, string>)
      requires file.Valid()
      modifies this, file
      ensures file.Valid() && file.pos == |file.data|
      ensures r == repo.split(old(file.Remaining()), pages)
      ensures calls == old(calls) + [SplitCall(old(file.Remaining()), pages)]
    {
      var input := file.ReadAll();
      calls := calls + [SplitCall(input, pages)];
      r := repo.split(input, pages);
    }

    /** `PageCount`: the repository's page count of the file from its position on. */
    method PageCount(file: File) returns (r: Result<int, string>)
      requires file.Valid()
      modifies this, file
      ensures file.Valid() && file.pos == |file.data|
      ensures r == repo.pageCount(old(file.Remaining()))
      ensures calls == old(calls) + [PageCountCall(old(file.Remaining()))]
    {
      var input := file.ReadAll();
      calls := calls + [PageCountCall(input)];
      r := repo.pageCount(input);
    }

    /** `CompressPdf`: the repository's compressed bytes, named `compressed_<name>`. */
    method CompressPdf(fileName: string, file: File) returns (r: Result<PdfFile, ServiceError>)
      requires file.Valid()
      modifies this, file
      ensures file.Valid() && file.pos == |file.data|
      ensures r == CompressOutcome(repo, fileName, old(file.Remaining()))
      ensures calls == old(calls) + [CompressCall(old(file.Remaining()))]
    {
      var input := file.ReadAll();
      calls := calls + [CompressCall(input)];
      var content := repo.compress(input);
      if content.Err? {
        return Err(RepositoryFailed(content.error));
      }
      r := Ok(PdfFile("compressed_" + fileName, PdfBytes(content.value)));
    }

    /** `SplitPdfByRanges`: the parsed pages handed to the repository as they
        are, the output named `split_<name>`. */
    method SplitPdfByRanges(fileName: string, file: File, ranges: seq<int>) returns (r: Result<PdfFile, ServiceError>)
      requires file.Valid()
      modifies this, file
      ensures file.Valid() && file.pos == |file.data|
      ensures r == RangesOutcome(repo, fileName, old(file.Remaining()), ranges)
      ensures calls == old(calls) + [SplitCall(old(file.Remaining()), ranges)]
    {
      var splitContent := RepoSplit(file, ranges);
      if splitContent.Err? {
        return Err(RepositoryFailed(splitContent.error));
      }
      r := Ok(PdfFile("split_" + fileName, PdfBytes(splitContent.value)));
    }

    /** `RemovePagesPdf`: keeps the pages `1..pageCount` that are not removed,
        in ascending order, and extracts them, even when none is left. */
    method RemovePagesPdf(fileName: string, file: File, removePages: seq<int>, pageCount: int) returns (r: Result<PdfFile, ServiceError>)
      requires file.Valid()
      modifies this, file
      ensures file.Valid() && file.pos == |file.data|
      ensures r == RangesOutcome(repo, fileName, old(file.Remaining()), Complement(removePages, pageCount))
      ensures calls == old(calls) + [SplitCall(old(file.Remaining()), Complement(removePages, pageCount))]
    {
      var ranges: seq<int> := [];
      var page := 0;
      while page < pageCount
        invariant 0 <= page && (page <= pageCount || page == 0)
        invariant ranges == Complement(removePages, page)
      {
        if page + 1 !in removePages {
          ranges := ranges + [page + 1];
        }
        page := page + 1;
      }
      assert ranges == Complement(removePages, pageCount);
      var splitContent := RepoSplit(file, ranges);
      if splitContent.Err? {
        return Err(RepositoryFailed(splitContent.error));
      }
      r := Ok(PdfFile("split_" + fileName, PdfBytes(splitContent.value)));
    }

    /** `SplitAndZipPdfByFixedRange`: one window gives a plain PDF, any other
        number of windows (none included) an archive. */
    method SplitAndZipPdfByFixedRange(fileName: string, file: File, fra: seq<seq<int>>) returns (r: Result<PdfFile, ServiceError>)
      requires file.Valid()
      modifies this, file
      ensures file.Valid()
      ensures file.pos == if |fra| == 0 then old(file.pos) else |file.data|
      ensures r == FixedRangeOutcome(repo, zip, fileName, old(file.Remaining()), file.data, fra)
      ensures calls == old(calls) + FixedRangeCalls(repo, zip, old(file.Remaining()), file.data, fra)
    {
      if |fra| == 1 {
        r := SplitPdfWithoutZip(file, fileName, fra[0]);
        return;
      }
      r := SplitPdfWithZip(file, fileName, fra);
    }

    /** `splitPdfWithoutZip`: one extraction, named `split_<name>`. */
    method SplitPdfWithoutZip(file: File, fileName: string, rangeSet: seq<int>) returns (r: Result<PdfFile, ServiceError>)
      requires file.Valid()
      modifies this, file
      ensures file.Valid() && file.pos == |file.data|
      ensures r == WithoutZipOutcome(repo, fileName, old(file.Remaining()), rangeSet)
      ensures calls == old(calls) + [SplitCall(old(file.Remaining()), rangeSet)]
    {
      var splitContent := RepoSplit(file, rangeSet);
      if splitContent.Err? {
        return Err(WindowSplitFailed(rangeSet, splitContent.error));
      }
      r := Ok(PdfFile("split_" + fileName, PdfBytes(splitContent.value)));
    }

    /** `splitPdfWithZip`: for each window in turn, rewind the file, extract the
        window and add it to the archive as the next entry; stop at the first
        failure; close the archive and name it `split_<name>.zip`. */
    method SplitPdfWithZip(file: File, fileName: string, fra: seq<seq<int>>) returns (r: Result<PdfFile, ServiceError>)
      requires file.Valid()
      modifies this, file
      ensures file.Valid()
      ensures file.pos == if |fra| == 0 then old(file.pos) else |file.data|
      ensures r == WithZipOutcome(repo, zip, fileName, file.data, fra)
      ensures calls == old(calls) + SplitCallsUpTo(repo, zip, file.data, fra, |fra|)
    {
      var zipWriter := new ZipWriter(zip);
      var err := AddWindows(file, zipWriter, fra);
      if err.Some? {
        return Err(err.value);
      }
      var closeErr := zipWriter.Close();
      if closeErr.Some? {
        return Err(ZipCloseFailed(closeErr.value));
      }
      r := Ok(PdfFile("split_" + fileName + ".zip", ZipArchive(zipWriter.entries)));
    }

    /** The loop of `splitPdfWithZip` over a new writer: window after window
        until the first failure. */
    method AddWindows(file: File, zipWriter: ZipWriter, fra: seq<seq<int>>) returns (err: Option<ServiceError>)
      requires file.Valid() && zipWriter.backend == zip && zipWriter.entries == []
      modifies this, file, zipWriter
      ensures file.Valid()
      ensures file.pos == if |fra| == 0 then old(file.pos) else |file.data|
      ensures ArchiveUpTo(repo, zip, file.data, fra, |fra|) == if err.None? then Ok(zipWriter.entries) else Err(err.value)
      ensures calls == old(calls) + SplitCallsUpTo(repo, zip, file.data, fra, |fra|)
    {
      var i := 0;
      while i < |fra|
        invariant 0 <= i <= |fra|
        invariant file.Valid()
        invariant i == 0 ==> file.pos == old(file.pos)
        invariant i > 0 ==> file.pos == |file.data|
        invariant zipWriter.backend == zip
        invariant ArchiveUpTo(repo, zip, file.data, fra, i) == Ok(zipWriter.entries)
        invariant calls == old(calls) + SplitCallsUpTo(repo, zip, file.data, fra, i)
      {
        SplitCallsStep(repo, zip, file.data, fra, i);
        err := AddWindow(file, zipWriter, fra, i);
        if err.Some? {
          ArchiveErrorPersists(repo, zip, file.data, fra, i + 1, |fra|);
          return;
        }
        i := i + 1;
      }
      err := None;
    }

    /** One turn of the loop of `splitPdfWithZip`: rewind the file, extract
        window `i` from the whole document and add it as entry `i`. */
    method AddWindow(file: File, zipWriter: ZipWriter, fra: seq<seq<int>>, i: nat) returns (err: Option<ServiceError>)
      requires file.Valid() && i < |fra| && zipWriter.backend == zip
      requires ArchiveUpTo(repo, zip, file.data, fra, i) == Ok(zipWriter.entries)
      modifies this, file, zipWriter
      ensures file.Valid() && file.pos == |file.data|
      ensures calls == old(calls) + [SplitCall(file.data, fra[i])]
      ensures ArchiveUpTo(repo, zip, file.data, fra, i + 1) == if err.None? then Ok(zipWriter.entries) else Err(err.value)
    {
      ghost var entries := zipWriter.entries;
      file.SeekStart();
      var splitContent := RepoSplit(file, fra[i]);
      ArchiveStep(repo, zip, file.data, fra, i, entries);
      if splitContent.Err? {
        assert ArchiveUpTo(repo, zip, file.data, fra, i + 1) == Err(WindowSplitFailed(fra[i], splitContent.error));
        return Some(WindowSplitFailed(fra[i], splitContent.error));
      }
      assert ArchiveUpTo(repo, zip, file.data, fra, i + 1) == AddEntry(zip, entries, splitContent.value, i);
      err := AddToZip(zipWriter, splitContent.value, i);
    }

    /** `addToZip`: a new entry `split_part_{index+1}.pdf` holding `content`. */
    method AddToZip(zipWriter: ZipWriter, content: seq<byte>, index: nat) returns (err: Option<ServiceError>)
      requires zipWriter.backend == zip
      modifies zipWriter
      ensures AddEntry(zip, old(zipWriter.entries), content, index) ==
                if err.None? then Ok(zipWriter.entries) else Err(err.value)
    {
      ghost var before := zipWriter.entries;
      var fileName := PartName(index);
      var createErr := zipWriter.Create(fileName);
      if createErr.Some? {
        return Some(EntryCreateFailed(createErr.value));
      }
      var writeErr := zipWriter.Write(content);
      if writeErr.Some? {
        return Some(EntryWriteFailed(writeErr.value));
      }
      assert [] + content == content;
      assert zipWriter.entries == before + [ZipEntry(fileName, content)];
      err := None;
    }
  }
}
