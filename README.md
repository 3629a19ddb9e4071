# Work-hours report: a verified model

This project models the read path of a Spring web application that reports
employees' work hours. The application stores time records: an employee
worked on a project from one instant to another. An authenticated user asks
for a report over a date window. The report has one row per (employee name,
project name) pair, with the total hours of the records that lie entirely
inside the window. Rows are ordered by employee name, then project name, and
the list is returned one page at a time. An administrator sees every
employee's rows. Any other user sees only rows whose employee name equals
their login name.

The model has six modules, each with its own file:

- `Entities` (`entities.dfy`): the stored records, the report row and the hours a record contributes.
- `Collation` (`collation.dfy`): the string order used by `ORDER BY`.
- `Paging` (`paging.dfy`): page requests and the page cut from an ordered result.
- `TimeRecordRepository` (`time_record_repository.dfy`): the two native SQL queries, written as filter, group, sum, sort and page functions.
- `ReportServiceImpl` (`report_service_impl.dfy`): the service, which hands each request to one repository query.
- `ReportController` (`report_controller.dfy`): the endpoint. It covers the
  case-insensitive administrator check, the choice of service call, the page
  request, the seven model attributes written into a mutable `ReportModel`
  object, and the view name.

Modelling choices:

- Timestamps are integer seconds.
- Hours are exact reals: `(timeTo - timeFrom) / 3600`.
- The service and the controller return the calls they make together with
  the result. This lets the delegation itself, not just the value, be stated.
- The query's `WHERE` clause has no `IS NULL` guard, so a missing date
  bound matches no record. The model follows the code and always takes both
  bounds as values. It does not adopt the reading that a missing bound means
  "unconstrained".
- Time records are not required to have `timeFrom <= timeTo`, because
  neither the entity nor the query enforces it. Only the lemmas that need
  that assumption (`WellFormed`) state it.

## Model

| member | source | states |
|---|---|---|
| Entities.Hours | src/main/java/org/example/xphrtestingassignment/repository/TimeRecordRepository.java:19 | a record's hours times 3600 equal its length in seconds, and they are non-negative when the record ends no earlier than it starts |
| Collation.LessIrreflexive | src/main/java/org/example/xphrtestingassignment/repository/TimeRecordRepository.java:26 | no name sorts before itself |
| Collation.LessTransitive | src/main/java/org/example/xphrtestingassignment/repository/TimeRecordRepository.java:26 | the name order is transitive |
| Collation.LessTrichotomy | src/main/java/org/example/xphrtestingassignment/repository/TimeRecordRepository.java:26 | of any two names, either they are equal or one sorts before the other (the order is total); with `LessAsymmetric`, exactly one of the three holds |
| Collation.LessAsymmetric | src/main/java/org/example/xphrtestingassignment/repository/TimeRecordRepository.java:26 | two names never each sort before the other |
| TimeRecordRepository.KeyLessIrreflexive | src/main/java/org/example/xphrtestingassignment/repository/TimeRecordRepository.java:25-26 | no (employee, project) key sorts before itself |
| TimeRecordRepository.KeyLessTransitive | src/main/java/org/example/xphrtestingassignment/repository/TimeRecordRepository.java:25-26 | ordering by employee name, then project name, is transitive |
| TimeRecordRepository.KeyLessTrichotomy | src/main/java/org/example/xphrtestingassignment/repository/TimeRecordRepository.java:25-26 | two different keys are always ordered one way, so the report order is total |
| TimeRecordRepository.Between | src/main/java/org/example/xphrtestingassignment/repository/TimeRecordRepository.java:23-24 | a record is kept exactly when it is stored, starts at or after the start date, and ends strictly before the end date |
| TimeRecordRepository.BetweenFor | src/main/java/org/example/xphrtestingassignment/repository/TimeRecordRepository.java:37-39 | a record is kept exactly when it is stored, lies in the window, and belongs to an employee with the given name |
| TimeRecordRepository.InsertKey | src/main/java/org/example/xphrtestingassignment/repository/TimeRecordRepository.java:25-26 | inserting into a sorted duplicate-free key list keeps it sorted, and its members become the old members plus the new key |
| TimeRecordRepository.GroupKeys | src/main/java/org/example/xphrtestingassignment/repository/TimeRecordRepository.java:25-26 | the groups are sorted, have no duplicates, and are exactly the (employee name, project name) pairs that occur |
| TimeRecordRepository.Rows | src/main/java/org/example/xphrtestingassignment/repository/TimeRecordRepository.java:18-19 | one row per group key, in the order of the keys, with that key's names and summed hours |
| TimeRecordRepository.Aggregate | src/main/java/org/example/xphrtestingassignment/repository/TimeRecordRepository.java:18-26 | the rows are strictly ordered, their keys are exactly the pairs that occur, and each total is the sum of the hours of that pair's records |
| TimeRecordRepository.SumHoursBetween | src/main/java/org/example/xphrtestingassignment/repository/TimeRecordRepository.java:19-25 | summing a group over the filtered records equals summing, over all records, the hours of those in the window |
| TimeRecordRepository.SumHoursBetweenFor | src/main/java/org/example/xphrtestingassignment/repository/TimeRecordRepository.java:33-40 | for a key of the named employee, summing over the employee-filtered records equals the window sum for that key |
| TimeRecordRepository.SumHoursConcat | src/main/java/org/example/xphrtestingassignment/repository/TimeRecordRepository.java:19 | a group's sum over two record lists joined is the sum of the two sums |
| TimeRecordRepository.KeysBetween | src/main/java/org/example/xphrtestingassignment/repository/TimeRecordRepository.java:23-25 | the groups of the filtered records are exactly the window's keys |
| TimeRecordRepository.KeysBetweenFor | src/main/java/org/example/xphrtestingassignment/repository/TimeRecordRepository.java:37-40 | the groups of the employee-filtered records are exactly that employee's window keys |
| TimeRecordRepository.AllEmployeesReport | src/main/java/org/example/xphrtestingassignment/repository/TimeRecordRepository.java:18-26 | the report is ordered by employee then project without duplicates, has a row for exactly the pairs with a record inside the window, and each row's total is the window sum of its pair |
| TimeRecordRepository.EmployeeReport | src/main/java/org/example/xphrtestingassignment/repository/TimeRecordRepository.java:32-41 | as above, restricted to the named employee, and every row carries that employee's name |
| TimeRecordRepository.FindAllBetweenStartDateAndEndDate | src/main/java/org/example/xphrtestingassignment/repository/TimeRecordRepository.java:18-30 | the page keeps the request and counts all groups of the window; its rows are exactly the slice of the full ordered report at offsets [page * size, page * size + size), cut off at the end (so at most page-size rows, none past the end), and row i is report row offset+i |
| TimeRecordRepository.FindAllByEmployeeAndDateRange | src/main/java/org/example/xphrtestingassignment/repository/TimeRecordRepository.java:32-46 | the same paging facts over the employee's report: exactly the requested slice of it, counting that employee's groups, and every row on the page belongs to the named employee |
| TimeRecordRepository.GroupCount | src/main/java/org/example/xphrtestingassignment/repository/TimeRecordRepository.java:25-30 | the report has as many rows as the window has distinct pairs |
| TimeRecordRepository.GroupCountFor | src/main/java/org/example/xphrtestingassignment/repository/TimeRecordRepository.java:39-46 | the employee report has as many rows as that employee's window has distinct pairs |
| TimeRecordRepository.DistinctRowsCount | src/main/java/org/example/xphrtestingassignment/repository/TimeRecordRepository.java:25-26 | a strictly ordered row list has as many rows as distinct keys |
| TimeRecordRepository.OfEmployee | src/main/java/org/example/xphrtestingassignment/repository/TimeRecordRepository.java:39 | filtering rows by employee name keeps exactly the rows with that name |
| TimeRecordRepository.OfEmployeeSorted | src/main/java/org/example/xphrtestingassignment/repository/TimeRecordRepository.java:39-41 | filtering an ordered report by employee keeps it ordered |
| TimeRecordRepository.SortedRowsDetermined | src/main/java/org/example/xphrtestingassignment/repository/TimeRecordRepository.java:25-26 | two strictly ordered row lists with the same rows are equal, so the grouped result has one possible order |
| TimeRecordRepository.EmployeeReportIsRestriction | src/main/java/org/example/xphrtestingassignment/repository/TimeRecordRepository.java:18-41 | the employee query's result is exactly the all-employee result with the other employees' rows removed |
| TimeRecordRepository.EmployeePageIsRestriction | src/main/java/org/example/xphrtestingassignment/repository/TimeRecordRepository.java:18-46 | an employee's page is exactly the requested slice of the all-employee report filtered to that employee, row for row |
| TimeRecordRepository.BetweenConcat | src/main/java/org/example/xphrtestingassignment/repository/TimeRecordRepository.java:23-24 | filtering two joined record lists equals joining the filtered lists |
| TimeRecordRepository.WindowSumConcat | src/main/java/org/example/xphrtestingassignment/repository/TimeRecordRepository.java:19-24 | a window sum over two joined record lists is the sum of their window sums |
| TimeRecordRepository.OutOfWindowIgnored | src/main/java/org/example/xphrtestingassignment/repository/TimeRecordRepository.java:23-24 | storing one more record outside the window leaves the all-employee report and every employee's report unchanged |
| TimeRecordRepository.InWindowCounted | src/main/java/org/example/xphrtestingassignment/repository/TimeRecordRepository.java:19-25 | storing one more record inside the window makes its pair a report key and adds exactly its hours to that pair's total, leaving other pairs' totals unchanged |
| TimeRecordRepository.WindowBoundaries | src/main/java/org/example/xphrtestingassignment/repository/TimeRecordRepository.java:23-24 | a record starting exactly at the start date is counted, and a record ending exactly at the end date is not |
| TimeRecordRepository.WindowSumNonNegative | src/main/java/org/example/xphrtestingassignment/repository/TimeRecordRepository.java:19 | over records that end no earlier than they start, a window sum is non-negative |
| TimeRecordRepository.TotalsNonNegative | src/main/java/org/example/xphrtestingassignment/repository/TimeRecordRepository.java:19-41 | over such records, every row of both reports has a non-negative total |
| TimeRecordRepository.EmptyWindow | src/main/java/org/example/xphrtestingassignment/repository/TimeRecordRepository.java:23-24 | over such records, a window whose start is not before its end yields empty reports |
| TimeRecordRepository.ContributionAbsent | src/main/java/org/example/xphrtestingassignment/repository/TimeRecordRepository.java:19-25 | a record whose pair is not in a key list contributes nothing to that list's rows |
| TimeRecordRepository.ContributionOnce | src/main/java/org/example/xphrtestingassignment/repository/TimeRecordRepository.java:19-25 | a record whose pair occurs once in a duplicate-free key list contributes its hours once |
| TimeRecordRepository.RowsOfNothing | src/main/java/org/example/xphrtestingassignment/repository/TimeRecordRepository.java:19 | rows over no records total zero hours |
| TimeRecordRepository.RowsSplit | src/main/java/org/example/xphrtestingassignment/repository/TimeRecordRepository.java:19-25 | rows over a record list and one more record total the old rows plus that record's contribution |
| TimeRecordRepository.RowsCoverTotal | src/main/java/org/example/xphrtestingassignment/repository/TimeRecordRepository.java:19-25 | when the keys cover every record's pair once, the rows total all the records' hours |
| TimeRecordRepository.TotalHoursConcat | src/main/java/org/example/xphrtestingassignment/repository/TimeRecordRepository.java:19 | the hours of two joined record lists add up |
| TimeRecordRepository.TotalHoursBetween | src/main/java/org/example/xphrtestingassignment/repository/TimeRecordRepository.java:19-24 | the filtered records' hours equal the window total |
| TimeRecordRepository.HoursConserved | src/main/java/org/example/xphrtestingassignment/repository/TimeRecordRepository.java:18-26 | the rows' totals add up to the total hours of all records inside the window, so grouping loses and duplicates nothing |
| TimeRecordRepository.TwoIntervalsOneRow | src/main/java/org/example/xphrtestingassignment/repository/TimeRecordRepository.java:18-26 | two records of one employee on one project (9:00 to 12:00 and 13:00 to 14:30) give a single row of 4.5 hours |
| Paging.TotalPages | src/main/java/org/example/xphrtestingassignment/repository/TimeRecordRepository.java:27-30 | the page count is the least n with n pages of the page size covering all elements |
| Paging.PageOf | src/main/java/org/example/xphrtestingassignment/repository/TimeRecordRepository.java:27-30 | a page holds the request and the total, has at most page-size rows, is empty past the end, otherwise holds min(size, remaining) rows, and its row i is element offset+i |
| Paging.PageContains | src/main/java/org/example/xphrtestingassignment/web/ReportController.java:40 | element i of the result is shown on page i / size at position i % size |
| Paging.PagesUpToPrefix | src/main/java/org/example/xphrtestingassignment/web/ReportController.java:40 | the first n pages together are the first min(n * size, total) elements |
| Paging.AllPagesCoverResult | src/main/java/org/example/xphrtestingassignment/web/ReportController.java:40 | walking all pages from page 0 gives back the whole ordered result, each element once |
| ReportServiceImpl.GetReportData | src/main/java/org/example/xphrtestingassignment/service/impl/ReportServiceImpl.java:24-31 | the service makes exactly one call, the all-employee query with the same window and page request, and returns its page unchanged |
| ReportServiceImpl.GetReportDataForSpecificEmployee | src/main/java/org/example/xphrtestingassignment/service/impl/ReportServiceImpl.java:33-40 | the service makes exactly one call, the employee query with the same username, window and page request, returns its page, and every row is that employee's |
| ReportServiceImpl.EmptyResultIsEmptyPage | src/main/java/org/example/xphrtestingassignment/service/impl/ReportServiceImpl.java:30-39 | when no record lies in the window, either service operation returns a page with no rows and a total of zero, after one repository call |
| ReportController.CharMatchesUpper | src/main/java/org/example/xphrtestingassignment/web/ReportController.java:44-45 | a character matches an upper-case letter or underscore ignoring case exactly when it is that character, its lower-case letter, or one of the non-ASCII characters Java maps onto it: dotless small i and dotted capital I for I, long small s for S, Kelvin sign for K |
| ReportController.AdminAuthorityMatches | src/main/java/org/example/xphrtestingassignment/web/ReportController.java:44-45 | an authority equals "ROLE_ADMIN" ignoring case exactly when it has the same length and each character spells the matching character ignoring case |
| ReportController.IsAdmin | src/main/java/org/example/xphrtestingassignment/web/ReportController.java:44-45 | the user is an administrator exactly when some authority equals "ROLE_ADMIN" ignoring case |
| ReportController.IsAdminOfConcat | src/main/java/org/example/xphrtestingassignment/web/ReportController.java:44-45 | joining two authority lists makes an administrator exactly when either list does |
| ReportController.TestPrincipals | src/main/java/org/example/xphrtestingassignment/web/ReportController.java:44-45 | "ROLE_ADMIN" and "role_admin" make an administrator; "ROLE_EMPLOYEE" and a bare "ADMIN" do not |
| ReportController.RoleLabel | src/main/java/org/example/xphrtestingassignment/web/ReportController.java:66 | the role shown is "ADMIN" exactly for administrators and "EMPLOYEE" exactly for everyone else |
| ReportController.AccessPolicy | src/main/java/org/example/xphrtestingassignment/web/ReportController.java:52-57 | the window and page request reach the service unchanged; the all-employee call is chosen exactly for administrators, and otherwise the call names the user's own login |
| ReportController.AdminSeesAllEmployees | src/main/java/org/example/xphrtestingassignment/web/ReportController.java:53-54 | for an administrator, the one repository call is the all-employee query, and the page is that query's page |
| ReportController.EmployeeSeesOnlyOwnRows | src/main/java/org/example/xphrtestingassignment/web/ReportController.java:42-56 | for any other user, the one repository call is the employee query with their login name, and every row shown is theirs |
| Entities.KeyOf | src/main/java/org/example/xphrtestingassignment/repository/TimeRecordRepository.java:25 | defines a record's group: its employee's name and its project's name |
| TimeRecordRepository.KeyLess | src/main/java/org/example/xphrtestingassignment/repository/TimeRecordRepository.java:26 | defines the report order: employee name first, then project name |
| TimeRecordRepository.InWindow | src/main/java/org/example/xphrtestingassignment/repository/TimeRecordRepository.java:23-24 | defines the window test: starts at or after the start date and ends strictly before the end date |
| TimeRecordRepository.InWindowFor | src/main/java/org/example/xphrtestingassignment/repository/TimeRecordRepository.java:37-39 | defines the employee query's test: the window test and the employee's name equals the username |
| TimeRecordRepository.SumHours | src/main/java/org/example/xphrtestingassignment/repository/TimeRecordRepository.java:19 | defines a group's total over a record list: the sum of the hours of that group's records |
| TimeRecordRepository.WindowSum | src/main/java/org/example/xphrtestingassignment/repository/TimeRecordRepository.java:19-25 | the reference definition the report totals are proved equal to: one pass over the whole table adding the hours of each record in the window and in the group |
| Paging.IsRequestedSlice | src/main/java/org/example/xphrtestingassignment/repository/TimeRecordRepository.java:27-30 | defines the page a request asks for: the elements at offsets [page * size, page * size + size) that exist |
| ReportServiceImpl.Execute | src/main/java/org/example/xphrtestingassignment/service/impl/ReportServiceImpl.java:30-39 | defines what a repository call returns: the all-employee query's page or the employee query's page for the call's arguments |
| ReportController.ToUpper | src/main/java/org/example/xphrtestingassignment/web/ReportController.java:45 | defines `Character.toUpperCase` on Basic Latin letters and on the two other characters (U+0131, U+017F) whose upper case is one |
| ReportController.ToLower | src/main/java/org/example/xphrtestingassignment/web/ReportController.java:45 | defines `Character.toLowerCase` on Basic Latin letters and on the two other characters (U+0130, U+212A) whose lower case is one |
| ReportController.EqualsIgnoreCase | src/main/java/org/example/xphrtestingassignment/web/ReportController.java:45 | defines `equalsIgnoreCase`: same length and each position equal, equal upper-cased, or equal lower-cased after upper-casing |
| ReportController.Serve | src/main/java/org/example/xphrtestingassignment/web/ReportController.java:53-57 | defines what a service call returns: the service operation the call names, with its arguments |
| ReportController.Authorized | src/main/java/org/example/xphrtestingassignment/annotation/UserAuthentication.java:9-10 | defines who may call the endpoint: a holder of "ROLE_ADMIN" or "ROLE_EMPLOYEE" |
| ReportController.ReportAttributes | src/main/java/org/example/xphrtestingassignment/web/ReportController.java:59-66 | the model after the seven attribute writes holds exactly the old names plus the seven, each of the seven with its value, and every other name unchanged |
| ReportController.ReportModel.AddAttribute | src/main/java/org/example/xphrtestingassignment/web/ReportController.java:59-66 | adding an attribute sets that name to the value and leaves the other attributes unchanged |
| ReportController.GetReportData | src/main/java/org/example/xphrtestingassignment/web/ReportController.java:31-72 | the endpoint renders "work_hours_report". It makes one service call, chosen by the access policy, with page request (page, size). The new model is `ReportAttributes` of the old one: the seven attributes set to the report page, dates, page, size, username and role. A non-administrator's report contains only their own rows |

## Left out

- Missing (`null`) date bounds: the model always passes both bounds. A null bound makes the SQL comparison unknown, and the model does not represent that.
- `PageRequest.of` rejects a negative page or a size below 1. `GetReportData` states this as a precondition instead of modelling the exception.
- `page` and `size` are unbounded integers. Java `int` overflow of `page * size` is not modelled.
- Default parameter values (page 0, size 10) are applied by the web framework before the method runs, so they are not modelled.
- Sorting uses code-point order as the database collation. Locale-aware collations are not modelled.
- Hours are exact reals. The database's numeric result and the DTO's `BigDecimal` rounding are not modelled.
- Case mapping covers Basic Latin letters plus the four characters that Java maps onto or from one: U+0130, U+0131, U+017F and U+212A. Together these give the full set of strings that equal "ROLE_ADMIN" ignoring case. Java's other case mappings never involve a Basic Latin letter, so they are not modelled. Two strings without "ROLE_ADMIN" in the comparison may therefore compare differently from Java, but the endpoint makes no such comparison.
- The count query Spring derives for a native paged query is not modelled. The page total is taken to be the number of grouped rows.
- Pages of an unpaged request and `Page.empty()` are not modelled.
- Access control before the method runs (the `@UserAuthentication` pre-authorisation) is stated as the `Authorized` precondition of `ReportController.GetReportData`.
- `ReportController.GetReportData`: the list of service calls it returns is ghost, because the Java method returns only the view name.
- `TotalsNonNegative` and `EmptyWindow` hold only for records that end no earlier than they start. The source does not enforce this, so these lemmas assume it.
- Logging, the `LocalDateTime.now()` clock, Thymeleaf rendering, JPA mapping, lazy loading and dependency injection are not modelled.
- Responses when the store is unavailable are not modelled: queries always return.
- `ReportDTO` and `UserRoles` are not part of this model. Their shapes are taken from how the core uses them: a (name, name, hours) row, and the two role names ADMIN and EMPLOYEE.
