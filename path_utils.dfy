/** The two content-type lookups of the backend's path utilities. */
module PathUtils {
  import opened Text

  const MimePdf := "application/pdf"
  const MimeWord := "application/msword"
  // Written as two literals only so that the verifier can read its first characters.
  const MimeWordOpenXml := "application/" + "vnd.openxmlformats-officedocument.wordprocessingml.document"
  const MimeText := "text/plain"
  const MimeOctetStream := "application/octet-stream"

  /** Every value the extension lookup can give. */
  const KnownMimeTypes: set<string> := {MimePdf, MimeWord, MimeWordOpenXml, MimeText, MimeOctetStream}

  /** The extensions the lookup recognises, already lower-case. */
  const KnownExtensions: set<string> := {".pdf", ".doc", ".docx", ".txt"}

  /** The input formats the recognizer client accepts. */
  datatype FormContentType = Pdf | Json | Jpeg | Png | Tiff | Bmp

  /**
   * MIME type of a file extension. The comparison ignores ASCII case; the four
   * known extensions need their leading dot, and anything else is binary.
   */
  function GetContentTypeFromExtension(extension: string): (mime: string)
    ensures mime in KnownMimeTypes
    ensures mime == MimePdf <==> ToLowerInvariant(extension) == ".pdf"
    ensures mime == MimeWord <==> ToLowerInvariant(extension) == ".doc"
    ensures mime == MimeWordOpenXml <==> ToLowerInvariant(extension) == ".docx"
    ensures mime == MimeText <==> ToLowerInvariant(extension) == ".txt"
    ensures mime == MimeOctetStream <==> ToLowerInvariant(extension) !in KnownExtensions
  {
    var lower := ToLowerInvariant(extension);
    if lower == ".pdf" then MimePdf
    else if lower == ".doc" then MimeWord
    else if lower == ".docx" then MimeWordOpenXml
    else if lower == ".txt" then MimeText
    else MimeOctetStream
  }

  /** Recognizer format of a MIME type: exactly "application/pdf" is PDF, all else JSON. */
  function GetFormContentTyp(contentType: string): (format: FormContentType)
    ensures format == Pdf || format == Json
    ensures format == Pdf <==> contentType == MimePdf
  {
    if contentType == MimePdf then Pdf else Json
  }

  /** The extension lookup gives the same answer for an extension and its lower-case form. */
  lemma ContentTypeIgnoresCase(extension: string)
    ensures GetContentTypeFromExtension(extension) == GetContentTypeFromExtension(ToLowerInvariant(extension))
  {
    LowerIdempotent(extension);
  }

  /** The four known extensions map to their MIME types. */
  lemma KnownExtensionTypes()
    ensures GetContentTypeFromExtension(".pdf") == MimePdf
    ensures GetContentTypeFromExtension(".doc") == MimeWord
    ensures GetContentTypeFromExtension(".docx") == MimeWordOpenXml
    ensures GetContentTypeFromExtension(".txt") == MimeText
  {
    LowerFixesExactlyLowerStrings(".pdf");
    LowerFixesExactlyLowerStrings(".doc");
    LowerFixesExactlyLowerStrings(".docx");
    LowerFixesExactlyLowerStrings(".txt");
  }

  /** Capitals in a known extension do not matter. */
  lemma UpperCaseExtensionTypes()
    ensures GetContentTypeFromExtension(".PDF") == MimePdf
    ensures GetContentTypeFromExtension(".DocX") == MimeWordOpenXml
  {
    assert ToLowerInvariant(".PDF") == ".pdf";
    assert ToLowerInvariant(".DocX") == ".docx";
  }

  /** The empty string, an extension without its dot and an unknown extension are all binary. */
  lemma UnknownExtensionTypes()
    ensures GetContentTypeFromExtension("") == MimeOctetStream
    ensures GetContentTypeFromExtension("pdf") == MimeOctetStream
    ensures GetContentTypeFromExtension(".png") == MimeOctetStream
  {
    assert ToLowerInvariant("pdf")[0] == 'p';
    assert ToLowerInvariant(".png")[1] == 'p';
  }

  /** Unlike the extension lookup, the format lookup is case-sensitive. */
  lemma FormContentTypIsCaseSensitive()
    ensures GetFormContentTyp("APPLICATION/PDF") == Json
    ensures GetFormContentTyp(GetContentTypeFromExtension(".PDF")) == Pdf
  {
    UpperCaseExtensionTypes();
  }

  /** Chaining the lookups singles out exactly the extensions that lower-case to ".pdf". */
  lemma ExtensionToFormat(extension: string)
    ensures GetFormContentTyp(GetContentTypeFromExtension(extension)) == Pdf
        <==> ToLowerInvariant(extension) == ".pdf"
  {
  }
}
