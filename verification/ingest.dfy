/** The script's entry point (`main`): compute the window for the run date,
    download its records, and, unless the batch is empty, turn it into a
    table and upload that under the key for the run date. The upload itself
    is not modelled; the outcome names what would be uploaded where. */
module Ingest {
  import opened Base
  import opened Calendar
  import MonthWindow
  import Pagination
  import CsvTable

  /** The API as a whole: for the filter window `[start, end)`, the endpoint
      serving that window's records page by page. */
  type Server = (string, string) -> Pagination.Endpoint

  datatype RunOutcome =
    | Uploaded(key: string, table: CsvTable.Table)   // the upload that is issued
    | NoRecordsForWindow                             // clean exit, nothing uploaded
    | Failed(error: Pagination.DownloadError)        // the run aborts

  /** The endpoint `main` pages through for `runDate`. */
  function EndpointFor(server: Server, runDate: Date): Pagination.Endpoint
    requires MonthWindow.Supported(runDate)
  {
    var w := MonthWindow.GetMonthWindow(runDate);
    server(w.0, w.1)
  }

  /** `main`, from the run date on. Also returns the offsets requested. A
      download error is passed on; an empty batch ends the run before any
      table is built or upload issued; otherwise the table of the batch is
      uploaded under the run date's key. */
  method Run(runDate: Date, server: Server) returns (outcome: RunOutcome, offsets: seq<nat>)
    requires MonthWindow.Supported(runDate)
    requires Pagination.EventuallyStops(EndpointFor(server, runDate), Pagination.PageSize)
    ensures |offsets| > 0
    ensures Pagination.IsLastRequest(EndpointFor(server, runDate), Pagination.PageSize, |offsets| - 1)
    ensures match Pagination.DownloadResult(EndpointFor(server, runDate), Pagination.PageSize, |offsets| - 1)
            case Err(e) => outcome == Failed(e)
            case Ok(batch) =>
              if |batch| == 0 then outcome == NoRecordsForWindow
              else outcome.Uploaded? && outcome.key == MonthWindow.BuildS3Key(runDate)
                   && CsvTable.IsTableOf(outcome.table, batch)
  {
    var w := MonthWindow.GetMonthWindow(runDate);
    var download;
    download, offsets := Pagination.DownloadMonthWindow(server(w.0, w.1), Pagination.PageSize);
    if download.Err? {
      return Failed(download.error), offsets;
    }
    var records := download.value;
    if |records| == 0 {
      return NoRecordsForWindow, offsets;
    }
    var encoded := CsvTable.RecordsToTable(records);
    var key := MonthWindow.BuildS3Key(runDate);
    outcome := Uploaded(key, encoded.value);
  }
}
