/** Errors of the PDF core (`PdfError`), minus the wrapped I/O and lopdf errors. */
module PdfErrors {
  datatype PdfError =
    | OpenError(message: string)
    | SaveError(message: string)
    | FontNotFound(name: string)
    | FontAlreadyExists(name: string)
    | FontParseError(message: string)
    | FontSubsetError(message: string)
    | InvalidPage(page: nat, count: nat)
    | ImageError(message: string)
    | ParseError(message: string)
}
