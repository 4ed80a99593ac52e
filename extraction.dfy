/**
 * Text extraction for an uploaded file: the extractor is chosen by the file name's
 * extension compared case-insensitively; unsupported types and extractor failures
 * give empty text instead of an error.
 */
module Extraction {
  import opened Wrappers
  import opened Entities
  import opened JavaText
  import opened DocumentText

  /**
   * The two extractors the service calls: PDFBox's text stripper (`None` when loading or
   * stripping throws) and `new String(bytes)` in the platform charset, which never throws.
   */
  datatype Extractors = Extractors(pdfText: Bytes -> Option<string>, decodeText: Bytes -> string)

  /** The file name's extension is "pdf" in any letter case. */
  predicate IsPdfName(filename: string) {
    EqualsIgnoreCase(GetExtension(filename), "pdf")
  }

  /** The file name's extension is "txt" in any letter case. */
  predicate IsTxtName(filename: string) {
    EqualsIgnoreCase(GetExtension(filename), "txt")
  }

  /**
   * `extractText`: a PDF's stripped text (or "" when PDFBox fails), a text file's decoded
   * bytes, and "" for every other extension.
   */
  function ExtractText(content: Bytes, filename: string, extractors: Extractors): (text: string)
    ensures IsPdfName(filename) ==> text == extractors.pdfText(content).GetOr("")
    ensures IsTxtName(filename) ==> text == extractors.decodeText(content)
    ensures !IsPdfName(filename) && !IsTxtName(filename) ==> text == ""
  {
    var ext := GetExtension(filename);
    var extension := ToLower(ext);
    ToLowerOfLower("pdf");
    ToLowerOfLower("txt");
    ToLowerEqualsIff(ext, "pdf");
    ToLowerEqualsIff(ext, "txt");
    assert extension == "pdf" <==> IsPdfName(filename);
    assert extension == "txt" <==> IsTxtName(filename);
    if extension == "pdf" then
      match extractors.pdfText(content)
      case Some(t) => t
      case None => ""
    else if extension == "txt" then extractors.decodeText(content)
    else ""
  }
}
