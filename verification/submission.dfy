/** What pressing "Convert to PDF" leads to (main.py, main layout): the URL is
    normalised, the PDF is rendered from the embed URL, and on success a file
    name is derived for the download. The browser pipeline `generate_pdf` is a
    parameter: it maps an embed URL to what that call does. */
module Submission {
  import opened Wrappers
  import opened DigitCapture
  import opened ScribdLink

  type Byte = bv8

  /** How a call of `generate_pdf` ends. It returns `None` when no driver is
      found, or when an exception inside its `try` is caught. An exception
      raised outside that `try` escapes: one from `setup_driver` (installing
      or starting the driver) or one from `driver.quit()` in `finally`. */
  datatype PdfRun =
    | Returned(pdf: Option<seq<Byte>>)
    | Raised

  datatype Outcome =
      /** Empty input: only the "paste a URL" hint is shown. */
    | Idle
      /** No document link in the input: the "Invalid URL format" toast. */
    | InvalidUrl
      /** The render gave `None` or no bytes: no download is offered. */
    | ConversionFailed(embedUrl: string)
      /** An exception escaped `generate_pdf` and ends the handler. */
    | RenderCrash(embedUrl: string)
      /** `.group(1)` on a failed `embeds/` search: an uncaught
          `AttributeError`. */
    | FileNameCrash(embedUrl: string)
      /** The download button with the PDF and its file name. */
    | Ready(embedUrl: string, pdf: seq<Byte>, fileName: string)

  /** The handler of the convert button for input `urlInput`. */
  function OnConvert(urlInput: string, generatePdf: string -> PdfRun): (r: Outcome)
    ensures r == Idle <==> urlInput == []
    ensures r == InvalidUrl <==> urlInput != [] && NoMatch(DocumentPattern, urlInput)
    ensures !r.FileNameCrash?
    ensures r.ConversionFailed? || r.RenderCrash? || r.Ready? ==>
      ConvertScribdLink(urlInput) == Some(r.embedUrl)
    ensures r.RenderCrash? <==>
      urlInput != [] && ConvertScribdLink(urlInput).Some?
      && generatePdf(ConvertScribdLink(urlInput).value) == Raised
    ensures r.ConversionFailed? ==> generatePdf(r.embedUrl) in {Returned(None), Returned(Some([]))}
    ensures r.Ready? ==> generatePdf(r.embedUrl) == Returned(Some(r.pdf)) && |r.pdf| > 0
    ensures r.Ready? ==>
      r.fileName == FileNamePrefix + Search(DocumentPattern, urlInput).value.group + FileNameSuffix
  {
    if urlInput == [] then
      Idle
    else
      match ConvertScribdLink(urlInput)
      case None => InvalidUrl
      case Some(embedUrl) =>
        match generatePdf(embedUrl)
        case Raised => RenderCrash(embedUrl)
        case Returned(pdfBytes) =>
          // `if pdf_bytes:` is false for `None` and for empty bytes alike.
          if pdfBytes.None? || pdfBytes.value == [] then
            ConversionFailed(embedUrl)
          else
            FileNameRoundTrip(urlInput);
            match DownloadFileName(embedUrl)
            case Some(fileName) => Ready(embedUrl, pdfBytes.value, fileName)
            case None => FileNameCrash(embedUrl)
  }
}
