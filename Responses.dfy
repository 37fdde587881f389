/**
 * What the two endpoints answer (packages/backend/app/models.py and the
 * object literals of packages/backend/src/index.ts), shared by both backends.
 */
module Responses {
  /** The answer to `POST /api/upload`. */
  datatype UploadResponse = UploadResponse(
    id: string,
    columns: seq<string>,
    totalRows: int,
    invalidRows: int,
    delimiter: char,
    errors: seq<string>)

  /** The answer to `GET /api/data/:id`. */
  datatype DataResponse = DataResponse(
    columns: seq<string>,
    rows: seq<seq<string>>,
    page: int,
    pageSize: int,
    totalRows: int,
    totalPages: int,
    hasMore: bool)

  /** The 404 message for an id that is unknown or expired. */
  const NotFoundMessage: string := "CSV-Daten nicht gefunden oder abgelaufen."

  /** How many diagnostics an upload response carries at most. */
  const MaxReportedErrors: nat := 10

  /** `errors.slice(0, 10)` / `errors[:10]`: the first ten diagnostics, in order. */
  function FirstErrors(errors: seq<string>): (r: seq<string>)
    ensures |r| == if |errors| < MaxReportedErrors then |errors| else MaxReportedErrors
    ensures forall i :: 0 <= i < |r| ==> r[i] == errors[i]
  {
    if |errors| <= MaxReportedErrors then errors else errors[..MaxReportedErrors]
  }
}
