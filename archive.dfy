/** The zip archive that `splitPdfWithZip` (pdf/service.go) fills through
    Go's `archive/zip` writer, modelled as its ordered list of entries. The
    writer's own failures cannot be predicted from the service code, so they
    are given by a backend of oracles that look at the archive written so far. */
module Archive {
  import opened Common
  import opened Domain

  /** When `Create`, `Write` and `Close` of the zip writer fail, and with what
      error text: each oracle sees the entries written so far and the argument. */
  datatype ZipBackend = ZipBackend(
    createError: (seq<ZipEntry>, string) -> Option<string>,
    writeError: (seq<ZipEntry>, seq<byte>) -> Option<string>,
    closeError: seq<ZipEntry> -> Option<string>)
  {
    /** A backend that never fails, which is what an in-memory buffer gives. */
    ghost predicate Reliable()
    {
      && (forall es, name :: createError(es, name).None?)
      && (forall es, content :: writeError(es, content).None?)
      && (forall es :: closeError(es).None?)
    }
  }

  /** `zip.Writer` over an in-memory buffer: the entries written so far, the
      last of which is the one `Write` appends to. */
  class ZipWriter {
    const backend: ZipBackend
    var entries: seq<ZipEntry>

    /** `zip.NewWriter(&buffer)`: an empty archive. */
    constructor (backend: ZipBackend)
      ensures this.backend == backend && entries == []
    {
      this.backend := backend;
      entries := [];
    }

    /** `Create(name)`: starts a new, empty entry, unless the backend refuses. */
    method Create(name: string) returns (err: Option<string>)
      modifies this
      ensures err == backend.createError(old(entries), name)
      ensures entries == if err.None? then old(entries) + [ZipEntry(name, [])] else old(entries)
    {
      err := backend.createError(entries, name);
      if err.None? {
        entries := entries + [ZipEntry(name, [])];
      }
    }

    /** `Write(content)` on the writer of the last entry: appends the bytes to it,
        unless the backend refuses. */
    method Write(content: seq<byte>) returns (err: Option<string>)
      requires |entries| >= 1
      modifies this
      ensures err == backend.writeError(old(entries), content)
      ensures |entries| == |old(entries)| && entries[..|entries| - 1] == old(entries)[..|entries| - 1]
      ensures var last := old(entries)[|entries| - 1];
              entries[|entries| - 1] == if err.None? then ZipEntry(last.name, last.content + content) else last
    {
      err := backend.writeError(entries, content);
      if err.None? {
        var last := entries[|entries| - 1];
        entries := entries[..|entries| - 1] + [ZipEntry(last.name, last.content + content)];
      }
    }

    /** `Close()`: finishes the archive, unless the backend refuses. */
    method Close() returns (err: Option<string>)
      ensures err == backend.closeError(entries)
    {
      err := backend.closeError(entries);
    }
  }
}
