/** The ways a run of the downloader can stop with an exception. */
module Failures {
  import opened Wrappers

  datatype Failure =
    /** `raise_for_status` on the root page: a 4xx or 5xx status. */
    | HttpError(status: int)
    /** `UnexpectedSpringerDocumentTypeException`: the document marker's id is
        not "book" (None when the marker carries no id). */
    | UnexpectedDocumentType(documentType: Option<string>)
    /** `UnexpectedSpringerContentFileTypeException`: a content response whose
        Content-Type names neither pdf nor tiff. */
    | UnexpectedContentFileType(contentType: string)
    /** The `KeyError` of `response.headers["Content-Type"]` when the header is absent. */
    | MissingContentType
    /** `os.remove` of a path that does not exist (`FileNotFoundError`). */
    | FileNotFound(path: string)
}
