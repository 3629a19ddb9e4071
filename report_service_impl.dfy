/**
 * The report service: each of its two operations makes one call to the time
 * record repository, passing its arguments through unchanged, and returns
 * the repository's page as it is.  The calls made are recorded so that "one
 * repository call and no other" is part of the result.
 */
module ReportServiceImpl {
  import opened Entities
  import opened Paging
  import Repo = TimeRecordRepository

  /** A call to the time record repository, with its arguments. */
  datatype RepositoryCall =
    | BetweenQuery(startDate: int, endDate: int, pageable: Pageable)
    | EmployeeQuery(username: string, startDate: int, endDate: int, pageable: Pageable)

  /** The page the repository returns for `call`, the table holding `records`. */
  function Execute(records: seq<TimeRecord>, call: RepositoryCall): Page<ReportRow>
    requires Valid(call.pageable)
  {
    match call
    case BetweenQuery(startDate, endDate, pageable) =>
      Repo.FindAllBetweenStartDateAndEndDate(records, startDate, endDate, pageable)
    case EmployeeQuery(username, startDate, endDate, pageable) =>
      Repo.FindAllByEmployeeAndDateRange(records, username, startDate, endDate, pageable)
  }

  /** The repository calls a service operation made, in order, and the page it returned. */
  datatype Delegation = Delegation(calls: seq<RepositoryCall>, result: Page<ReportRow>)

  /**
   * `getReportData`: exactly one repository call, `findAllBetweenStartDateAndEndDate`
   * with the same window and page request, whose page is returned unchanged.
   */
  function GetReportData(records: seq<TimeRecord>, startDate: int, endDate: int, pageable: Pageable)
    : (d: Delegation)
    requires Valid(pageable)
    ensures d.calls == [BetweenQuery(startDate, endDate, pageable)]
    ensures d.result == Repo.FindAllBetweenStartDateAndEndDate(records, startDate, endDate, pageable)
  {
    var call := BetweenQuery(startDate, endDate, pageable);
    Delegation([call], Execute(records, call))
  }

  /**
   * `getReportDataForSpecificEmployee`: exactly one repository call,
   * `findAllByEmployeeAndDateRange` with the same user name, window and page
   * request, whose page is returned unchanged; so every row is that user's.
   */
  function GetReportDataForSpecificEmployee(
    records: seq<TimeRecord>, username: string, startDate: int, endDate: int, pageable: Pageable)
    : (d: Delegation)
    requires Valid(pageable)
    ensures d.calls == [EmployeeQuery(username, startDate, endDate, pageable)]
    ensures d.result == Repo.FindAllByEmployeeAndDateRange(records, username, startDate, endDate, pageable)
    ensures forall row :: row in d.result.content ==> row.employeeName == username
  {
    var call := EmployeeQuery(username, startDate, endDate, pageable);
    Delegation([call], Execute(records, call))
  }

  /**
   * When nothing matches, both operations return a page (never an error) with
   * no rows and a total of zero, and still make their one repository call.
   */
  lemma EmptyResultIsEmptyPage(
    records: seq<TimeRecord>, username: string, startDate: int, endDate: int, pageable: Pageable)
    requires Valid(pageable)
    ensures Repo.WindowKeys(records, startDate, endDate) == {} ==>
              var d := GetReportData(records, startDate, endDate, pageable);
              d.result.totalElements == 0 && d.result.content == [] && |d.calls| == 1
    ensures Repo.WindowKeysFor(records, username, startDate, endDate) == {} ==>
              var d := GetReportDataForSpecificEmployee(records, username, startDate, endDate, pageable);
              d.result.totalElements == 0 && d.result.content == [] && |d.calls| == 1
  {
    var all := Repo.AllEmployeesReport(records, startDate, endDate);
    var mine := Repo.EmployeeReport(records, username, startDate, endDate);
    if Repo.WindowKeys(records, startDate, endDate) == {} && all != [] {
      Repo.RowKeysNonEmpty(all);
      assert false;
    }
    if Repo.WindowKeysFor(records, username, startDate, endDate) == {} && mine != [] {
      Repo.RowKeysNonEmpty(mine);
      assert false;
    }
  }
}
