/** The records the page-selection code passes around. */
module Domain {
  import opened Common

  /** One named member of a zip archive. */
  datatype ZipEntry = ZipEntry(name: string, content: seq<byte>)

  /** What an output file carries: the bytes of one PDF, or a zip archive
      given by its ordered list of entries (the PKZIP byte encoding is not modelled). */
  datatype Payload = PdfBytes(bytes: seq<byte>) | ZipArchive(entries: seq<ZipEntry>)

  /** `domain.PdfFile`: an output artifact, its name and its content. */
  datatype PdfFile = PdfFile(name: string, content: Payload)

  /** `domain.SplitPdfFile`: the form fields of a split request. */
  datatype SplitPdfFile = SplitPdfFile(splitMode: string, ranges: string, fixedRange: int, removePages: string)
}
