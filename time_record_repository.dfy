/**
 * The two native aggregation queries of the time record repository, as pure
 * functions over the content of the `time_record` table (joined with its
 * employee and project).  Both queries
 *   - keep a record iff `time_from >= startDate AND time_to < endDate`
 *     (the employee query also iff `e.name = username`),
 *   - group the kept records by (employee name, project name) and sum their hours,
 *   - order the groups by employee name, then project name,
 *   - and return the requested page of the ordered groups.
 */
module TimeRecordRepository {
  import opened Entities
  import Collation
  import opened Paging

  // ---------------------------------------------------------------------------
  // ORDER BY e.name, p.name

  /** Group `a` sorts strictly before group `b`. */
  predicate KeyLess(a: GroupKey, b: GroupKey) {
    || Collation.Less(a.employeeName, b.employeeName)
    || (a.employeeName == b.employeeName && Collation.Less(a.projectName, b.projectName))
  }

  lemma KeyLessIrreflexive(a: GroupKey)
    ensures !KeyLess(a, a)
  {
    Collation.LessIrreflexive(a.employeeName);
    Collation.LessIrreflexive(a.projectName);
  }

  lemma KeyLessTransitive(a: GroupKey, b: GroupKey, c: GroupKey)
    requires KeyLess(a, b) && KeyLess(b, c)
    ensures KeyLess(a, c)
  {
    if Collation.Less(a.employeeName, b.employeeName) && Collation.Less(b.employeeName, c.employeeName) {
      Collation.LessTransitive(a.employeeName, b.employeeName, c.employeeName);
    } else if a.employeeName == b.employeeName == c.employeeName {
      Collation.LessTransitive(a.projectName, b.projectName, c.projectName);
    }
  }

  lemma KeyLessTrichotomy(a: GroupKey, b: GroupKey)
    ensures KeyLess(a, b) || a == b || KeyLess(b, a)
  {
    Collation.LessTrichotomy(a.employeeName, b.employeeName);
    Collation.LessTrichotomy(a.projectName, b.projectName);
  }

  /** Strictly ascending group keys: ordered, and so without repetition. */
  predicate Sorted(ks: seq<GroupKey>) {
    forall i, j :: 0 <= i < j < |ks| ==> KeyLess(ks[i], ks[j])
  }

  /** Report rows strictly ascending by (employee name, project name). */
  predicate RowsSorted(rows: seq<ReportRow>) {
    forall i, j :: 0 <= i < j < |rows| ==> KeyLess(RowKey(rows[i]), RowKey(rows[j]))
  }

  /** The groups that occur in a report. */
  function RowKeys(rows: seq<ReportRow>): set<GroupKey> {
    set row | row in rows :: RowKey(row)
  }

  // ---------------------------------------------------------------------------
  // WHERE tr.time_from >= :startDate AND tr.time_to < :endDate [AND e.name = :username]

  /** The half-open window test of both queries. */
  predicate InWindow(r: TimeRecord, startDate: int, endDate: int) {
    r.timeFrom >= startDate && r.timeTo < endDate
  }

  /** The extra condition of the employee query. */
  predicate InWindowFor(r: TimeRecord, username: string, startDate: int, endDate: int) {
    InWindow(r, startDate, endDate) && r.employee.name == username
  }

  /** The records the all-employees query keeps, in table order. */
  function Between(records: seq<TimeRecord>, startDate: int, endDate: int): (m: seq<TimeRecord>)
    ensures forall r :: r in m <==> r in records && InWindow(r, startDate, endDate)
  {
    if records == [] then []
    else
      (if InWindow(records[0], startDate, endDate) then [records[0]] else [])
      + Between(records[1..], startDate, endDate)
  }

  /** The records the employee query keeps, in table order. */
  function BetweenFor(records: seq<TimeRecord>, username: string, startDate: int, endDate: int)
    : (m: seq<TimeRecord>)
    ensures forall r :: r in m <==> r in records && InWindowFor(r, username, startDate, endDate)
  {
    if records == [] then []
    else
      (if InWindowFor(records[0], username, startDate, endDate) then [records[0]] else [])
      + BetweenFor(records[1..], username, startDate, endDate)
  }

  /** The groups of the records kept by the all-employees query. */
  function WindowKeys(records: seq<TimeRecord>, startDate: int, endDate: int): set<GroupKey> {
    set r | r in records && InWindow(r, startDate, endDate) :: KeyOf(r)
  }

  /** The groups of the records kept by the employee query. */
  function WindowKeysFor(records: seq<TimeRecord>, username: string, startDate: int, endDate: int)
    : set<GroupKey>
  {
    set r | r in records && InWindowFor(r, username, startDate, endDate) :: KeyOf(r)
  }

  /**
   * Reference definition of a group's total: one pass over the whole table
   * adding the hours of every record that is in the window and in the group.
   */
  function WindowSum(records: seq<TimeRecord>, startDate: int, endDate: int, k: GroupKey): real {
    if records == [] then 0.0
    else
      (if InWindow(records[0], startDate, endDate) && KeyOf(records[0]) == k then Hours(records[0]) else 0.0)
      + WindowSum(records[1..], startDate, endDate, k)
  }

  // ---------------------------------------------------------------------------
  // GROUP BY e.name, p.name with SUM(hours), ordered

  /** The groups of a sequence of records. */
  function Keys(recs: seq<TimeRecord>): set<GroupKey> {
    set r | r in recs :: KeyOf(r)
  }

  /** `SUM(...)` of one group: the hours of the records of group `k`. */
  function SumHours(recs: seq<TimeRecord>, k: GroupKey): real {
    if recs == [] then 0.0
    else (if KeyOf(recs[0]) == k then Hours(recs[0]) else 0.0) + SumHours(recs[1..], k)
  }

  lemma SortedTail(ks: seq<GroupKey>)
    requires Sorted(ks) && ks != []
    ensures Sorted(ks[1..]) && ks[0] !in ks[1..]
  {
    KeyLessIrreflexive(ks[0]);
  }

  lemma SortedCons(k: GroupKey, ks: seq<GroupKey>)
    requires Sorted(ks)
    requires forall x :: x in ks ==> KeyLess(k, x)
    ensures Sorted([k] + ks)
  {
    var r := [k] + ks;
    forall i, j | 0 <= i < j < |r| ensures KeyLess(r[i], r[j]) {
      if i == 0 {
        assert r[j] == ks[j - 1];
      } else {
        assert r[i] == ks[i - 1] && r[j] == ks[j - 1];
      }
    }
  }

  /** Adds group `k` to a strictly ascending key sequence, at its place, unless it is there. */
  function InsertKey(ks: seq<GroupKey>, k: GroupKey): (r: seq<GroupKey>)
    requires Sorted(ks)
    ensures Sorted(r)
    ensures forall x :: x in r <==> x in ks || x == k
  {
    if ks == [] then [k]
    else if k == ks[0] then ks
    else if KeyLess(k, ks[0]) then
      assert forall x :: x in ks ==> KeyLess(k, x) by {
        forall x | x in ks ensures KeyLess(k, x) {
          if x != ks[0] {
            KeyLessTransitive(k, ks[0], x);
          }
        }
      }
      SortedCons(k, ks);
      [k] + ks
    else
      SortedTail(ks);
      var rest := InsertKey(ks[1..], k);
      KeyLessTrichotomy(k, ks[0]);
      SortedCons(ks[0], rest);
      assert ks == [ks[0]] + ks[1..];
      [ks[0]] + rest
  }

  /** The distinct groups of `recs`, strictly ascending. */
  function GroupKeys(recs: seq<TimeRecord>): (ks: seq<GroupKey>)
    ensures Sorted(ks)
    ensures forall k :: k in ks <==> k in Keys(recs)
  {
    if recs == [] then []
    else
      assert recs == [recs[0]] + recs[1..];
      assert Keys(recs) == {KeyOf(recs[0])} + Keys(recs[1..]);
      InsertKey(GroupKeys(recs[1..]), KeyOf(recs[0]))
  }

  /** The report row of group `k`. */
  function Row(recs: seq<TimeRecord>, k: GroupKey): ReportRow {
    ReportRow(k.employeeName, k.projectName, SumHours(recs, k))
  }

  /** One row per key, in key order. */
  function Rows(ks: seq<GroupKey>, recs: seq<TimeRecord>): (rows: seq<ReportRow>)
    ensures |rows| == |ks|
    ensures forall i :: 0 <= i < |ks| ==> rows[i] == Row(recs, ks[i])
  {
    if ks == [] then [] else [Row(recs, ks[0])] + Rows(ks[1..], recs)
  }

  /**
   * GROUP BY / SUM / ORDER BY over the records a query kept: one row per
   * distinct group, strictly ascending, each holding its group's sum.
   */
  function Aggregate(recs: seq<TimeRecord>): (rows: seq<ReportRow>)
    ensures RowsSorted(rows)
    ensures RowKeys(rows) == Keys(recs)
    ensures forall row :: row in rows ==> row.totalHours == SumHours(recs, RowKey(row))
  {
    var ks := GroupKeys(recs);
    var rows := Rows(ks, recs);
    assert forall i :: 0 <= i < |rows| ==> RowKey(rows[i]) == ks[i];
    assert RowKeys(rows) == Keys(recs) by {
      forall k | k in Keys(recs) ensures k in RowKeys(rows) {
        var i :| 0 <= i < |ks| && ks[i] == k;
        assert RowKey(rows[i]) == k;
      }
    }
    rows
  }

  // ---------------------------------------------------------------------------
  // The two queries, before paging

  /** A group's sum over the kept records is its sum over the window. */
  lemma {:induction false} SumHoursBetween(records: seq<TimeRecord>, startDate: int, endDate: int, k: GroupKey)
    ensures SumHours(Between(records, startDate, endDate), k) == WindowSum(records, startDate, endDate, k)
  {
    if records != [] {
      SumHoursBetween(records[1..], startDate, endDate, k);
      var head := if InWindow(records[0], startDate, endDate) then [records[0]] else [];
      SumHoursConcat(head, Between(records[1..], startDate, endDate), k);
    }
  }

  /** For a group of employee `username`, the employee query keeps all of the group's records. */
  lemma {:induction false} SumHoursBetweenFor(records: seq<TimeRecord>, username: string, startDate: int, endDate: int, k: GroupKey)
    requires k.employeeName == username
    ensures SumHours(BetweenFor(records, username, startDate, endDate), k) == WindowSum(records, startDate, endDate, k)
  {
    if records != [] {
      SumHoursBetweenFor(records[1..], username, startDate, endDate, k);
      var head := if InWindowFor(records[0], username, startDate, endDate) then [records[0]] else [];
      SumHoursConcat(head, BetweenFor(records[1..], username, startDate, endDate), k);
    }
  }

  lemma {:induction false} SumHoursConcat(a: seq<TimeRecord>, b: seq<TimeRecord>, k: GroupKey)
    ensures SumHours(a + b, k) == SumHours(a, k) + SumHours(b, k)
  {
    if a != [] {
      assert (a + b)[0] == a[0] && (a + b)[1..] == a[1..] + b;
      SumHoursConcat(a[1..], b, k);
    } else {
      assert a + b == b;
    }
  }

  lemma KeysBetween(records: seq<TimeRecord>, startDate: int, endDate: int)
    ensures Keys(Between(records, startDate, endDate)) == WindowKeys(records, startDate, endDate)
  {
  }

  lemma KeysBetweenFor(records: seq<TimeRecord>, username: string, startDate: int, endDate: int)
    ensures Keys(BetweenFor(records, username, startDate, endDate)) == WindowKeysFor(records, username, startDate, endDate)
  {
  }

  /**
   * `findAllBetweenStartDateAndEndDate` before paging: one row per group that
   * has a record in the window, strictly ascending by (employee, project),
   * each with the exact sum of the hours of that group's records in the window.
   */
  function AllEmployeesReport(records: seq<TimeRecord>, startDate: int, endDate: int)
    : (rows: seq<ReportRow>)
    ensures RowsSorted(rows)
    ensures RowKeys(rows) == WindowKeys(records, startDate, endDate)
    ensures forall row :: row in rows ==> row.totalHours == WindowSum(records, startDate, endDate, RowKey(row))
  {
    var m := Between(records, startDate, endDate);
    KeysBetween(records, startDate, endDate);
    forall k ensures SumHours(m, k) == WindowSum(records, startDate, endDate, k) {
      SumHoursBetween(records, startDate, endDate, k);
    }
    Aggregate(m)
  }

  /**
   * `findAllByEmployeeAndDateRange` before paging: as above, restricted to the
   * records of employee `username`; every row belongs to `username`.
   */
  function EmployeeReport(records: seq<TimeRecord>, username: string, startDate: int, endDate: int)
    : (rows: seq<ReportRow>)
    ensures RowsSorted(rows)
    ensures RowKeys(rows) == WindowKeysFor(records, username, startDate, endDate)
    ensures forall row :: row in rows ==> row.employeeName == username
    ensures forall row :: row in rows ==> row.totalHours == WindowSum(records, startDate, endDate, RowKey(row))
  {
    var m := BetweenFor(records, username, startDate, endDate);
    KeysBetweenFor(records, username, startDate, endDate);
    var rows := Aggregate(m);
    forall row | row in rows ensures row.employeeName == username {
      assert RowKey(row) in RowKeys(rows);
    }
    forall row | row in rows
      ensures row.totalHours == WindowSum(records, startDate, endDate, RowKey(row))
    {
      assert RowKey(row) in RowKeys(rows);
      SumHoursBetweenFor(records, username, startDate, endDate, RowKey(row));
    }
    rows
  }

  // ---------------------------------------------------------------------------
  // The two queries, paged

  /** `findAllBetweenStartDateAndEndDate(startDate, endDate, pageable)`. */
  function FindAllBetweenStartDateAndEndDate(
    records: seq<TimeRecord>, startDate: int, endDate: int, pageable: Pageable)
    : (p: Page<ReportRow>)
    requires Valid(pageable)
    ensures p.pageable == pageable
    ensures p.totalElements == |WindowKeys(records, startDate, endDate)|
    ensures |p.content| <= pageable.pageSize
    ensures var all := AllEmployeesReport(records, startDate, endDate);
            forall i :: 0 <= i < |p.content| ==>
              Offset(pageable) + i < |all| && p.content[i] == all[Offset(pageable) + i]
    ensures IsRequestedSlice(p.content, AllEmployeesReport(records, startDate, endDate), pageable)
  {
    GroupCount(records, startDate, endDate);
    PageIsSlice(AllEmployeesReport(records, startDate, endDate), pageable);
    PageOf(AllEmployeesReport(records, startDate, endDate), pageable)
  }

  /** `findAllByEmployeeAndDateRange(username, startDate, endDate, pageable)`. */
  function FindAllByEmployeeAndDateRange(
    records: seq<TimeRecord>, username: string, startDate: int, endDate: int, pageable: Pageable)
    : (p: Page<ReportRow>)
    requires Valid(pageable)
    ensures p.pageable == pageable
    ensures p.totalElements == |WindowKeysFor(records, username, startDate, endDate)|
    ensures |p.content| <= pageable.pageSize
    ensures forall row :: row in p.content ==> row.employeeName == username
    ensures var all := EmployeeReport(records, username, startDate, endDate);
            forall i :: 0 <= i < |p.content| ==>
              Offset(pageable) + i < |all| && p.content[i] == all[Offset(pageable) + i]
    ensures IsRequestedSlice(p.content, EmployeeReport(records, username, startDate, endDate), pageable)
  {
    var all := EmployeeReport(records, username, startDate, endDate);
    GroupCountFor(records, username, startDate, endDate);
    PageIsSlice(all, pageable);
    var p := PageOf(all, pageable);
    forall row | row in p.content ensures row.employeeName == username {
      var i :| 0 <= i < |p.content| && p.content[i] == row;
      assert row in all;
    }
    p
  }

  /** The all-employees query has one row per group with a record in the window. */
  lemma GroupCount(records: seq<TimeRecord>, startDate: int, endDate: int)
    ensures |AllEmployeesReport(records, startDate, endDate)| == |WindowKeys(records, startDate, endDate)|
  {
    DistinctRowsCount(AllEmployeesReport(records, startDate, endDate));
  }

  /** The employee query has one row per group of that employee with a record in the window. */
  lemma GroupCountFor(records: seq<TimeRecord>, username: string, startDate: int, endDate: int)
    ensures |EmployeeReport(records, username, startDate, endDate)| == |WindowKeysFor(records, username, startDate, endDate)|
  {
    DistinctRowsCount(EmployeeReport(records, username, startDate, endDate));
  }

  /**
   * A page of the employee query is the same page of the all-employees
   * report restricted to that employee.
   */
  lemma EmployeePageIsRestriction(
    records: seq<TimeRecord>, username: string, startDate: int, endDate: int, pageable: Pageable)
    requires Valid(pageable)
    ensures var p := FindAllByEmployeeAndDateRange(records, username, startDate, endDate, pageable);
            var own := OfEmployee(AllEmployeesReport(records, startDate, endDate), username);
            forall i :: 0 <= i < |p.content| ==>
              Offset(pageable) + i < |own| && p.content[i] == own[Offset(pageable) + i]
    ensures var p := FindAllByEmployeeAndDateRange(records, username, startDate, endDate, pageable);
            var own := OfEmployee(AllEmployeesReport(records, startDate, endDate), username);
            IsRequestedSlice(p.content, own, pageable)
  {
    EmployeeReportIsRestriction(records, username, startDate, endDate);
  }

  /** In a strictly ascending report there are as many rows as groups. */
  lemma {:induction false} DistinctRowsCount(rows: seq<ReportRow>)
    requires RowsSorted(rows)
    ensures |RowKeys(rows)| == |rows|
  {
    if rows != [] {
      var tail := rows[1..];
      assert RowsSorted(tail);
      DistinctRowsCount(tail);
      assert rows == [rows[0]] + tail;
      assert RowKeys(rows) == {RowKey(rows[0])} + RowKeys(tail);
      KeyLessIrreflexive(RowKey(rows[0]));
      assert RowKey(rows[0]) !in RowKeys(tail);
    }
  }

  // ---------------------------------------------------------------------------
  // The employee query is the all-employees query restricted to one employee

  lemma RowsSortedCons(x: ReportRow, rows: seq<ReportRow>)
    requires RowsSorted(rows)
    requires forall y :: y in rows ==> KeyLess(RowKey(x), RowKey(y))
    ensures RowsSorted([x] + rows)
  {
    var r := [x] + rows;
    forall i, j | 0 <= i < j < |r| ensures KeyLess(RowKey(r[i]), RowKey(r[j])) {
      if i == 0 {
        assert r[j] == rows[j - 1];
      } else {
        assert r[i] == rows[i - 1] && r[j] == rows[j - 1];
      }
    }
  }

  /** The rows of `rows` that belong to employee `username`, in order. */
  function OfEmployee(rows: seq<ReportRow>, username: string): (r: seq<ReportRow>)
    ensures forall x :: x in r <==> x in rows && x.employeeName == username
  {
    if rows == [] then []
    else if rows[0].employeeName == username then [rows[0]] + OfEmployee(rows[1..], username)
    else OfEmployee(rows[1..], username)
  }

  lemma {:induction false} OfEmployeeSorted(rows: seq<ReportRow>, username: string)
    requires RowsSorted(rows)
    ensures RowsSorted(OfEmployee(rows, username))
  {
    if rows != [] {
      var rest := OfEmployee(rows[1..], username);
      assert RowsSorted(rows[1..]);
      OfEmployeeSorted(rows[1..], username);
      if rows[0].employeeName == username {
        forall y | y in rest ensures KeyLess(RowKey(rows[0]), RowKey(y)) {
          var j :| 0 <= j < |rows[1..]| && rows[1..][j] == y;
          assert rows[j + 1] == y;
        }
        RowsSortedCons(rows[0], rest);
      }
    }
  }

  lemma HasMember(rows: seq<ReportRow>)
    requires rows != []
    ensures exists x :: x in rows
  {
    assert rows[0] in rows;
  }

  /** Two strictly ascending reports with the same rows are the same sequence. */
  lemma {:induction false} SortedRowsDetermined(a: seq<ReportRow>, b: seq<ReportRow>)
    requires RowsSorted(a) && RowsSorted(b)
    requires forall x :: x in a <==> x in b
    ensures a == b
    decreases |a|
  {
    if a == [] {
      if b != [] {
        HasMember(b);
        assert false;
      }
    } else if b == [] {
      HasMember(a);
      assert false;
    } else {
      if a[0] != b[0] {
        assert b[0] in a && a[0] in b;
        var i :| 0 <= i < |a| && a[i] == b[0];
        var j :| 0 <= j < |b| && b[j] == a[0];
        assert KeyLess(RowKey(a[0]), RowKey(b[0]));
        assert KeyLess(RowKey(b[0]), RowKey(a[0]));
        KeyLessTransitive(RowKey(a[0]), RowKey(b[0]), RowKey(a[0]));
        KeyLessIrreflexive(RowKey(a[0]));
      } else {
        KeyLessIrreflexive(RowKey(a[0]));
        assert RowsSorted(a[1..]) && RowsSorted(b[1..]);
        assert a[0] !in a[1..] by {
          forall k | 1 <= k < |a| ensures a[k] != a[0] {
            assert KeyLess(RowKey(a[0]), RowKey(a[k]));
          }
        }
        assert b[0] !in b[1..] by {
          forall k | 1 <= k < |b| ensures b[k] != b[0] {
            assert KeyLess(RowKey(b[0]), RowKey(b[k]));
          }
        }
        forall x ensures x in a[1..] <==> x in b[1..] {
          assert x in a <==> x == a[0] || x in a[1..];
          assert x in b <==> x == b[0] || x in b[1..];
        }
        SortedRowsDetermined(a[1..], b[1..]);
        assert a == [a[0]] + a[1..] && b == [b[0]] + b[1..];
      }
    }
  }

  /**
   * What the employee query returns is exactly what the all-employees query
   * returns for the same window, keeping the rows of employee `username`.
   */
  lemma EmployeeReportIsRestriction(records: seq<TimeRecord>, username: string, startDate: int, endDate: int)
    ensures EmployeeReport(records, username, startDate, endDate)
         == OfEmployee(AllEmployeesReport(records, startDate, endDate), username)
  {
    var mine := EmployeeReport(records, username, startDate, endDate);
    var all := AllEmployeesReport(records, startDate, endDate);
    var restricted := OfEmployee(all, username);
    OfEmployeeSorted(all, username);
    forall x ensures x in mine <==> x in restricted {
      if x in mine {
        assert RowKey(x) in WindowKeysFor(records, username, startDate, endDate);
        assert RowKey(x) in RowKeys(all);
        var y :| y in all && RowKey(y) == RowKey(x);
        assert y == x;
      }
      if x in restricted {
        assert RowKey(x) in RowKeys(all);
        var r :| r in records && InWindow(r, startDate, endDate) && KeyOf(r) == RowKey(x);
        assert RowKey(x) in WindowKeysFor(records, username, startDate, endDate);
        var y :| y in mine && RowKey(y) == RowKey(x);
        assert y == x;
      }
    }
    SortedRowsDetermined(mine, restricted);
  }

  // ---------------------------------------------------------------------------
  // Which records contribute

  lemma {:induction false} BetweenConcat(a: seq<TimeRecord>, b: seq<TimeRecord>, startDate: int, endDate: int)
    ensures Between(a + b, startDate, endDate) == Between(a, startDate, endDate) + Between(b, startDate, endDate)
  {
    if a == [] {
      assert a + b == b;
    } else {
      assert (a + b)[0] == a[0] && (a + b)[1..] == a[1..] + b;
      BetweenConcat(a[1..], b, startDate, endDate);
    }
  }

  lemma {:induction false} WindowSumConcat(a: seq<TimeRecord>, b: seq<TimeRecord>, startDate: int, endDate: int, k: GroupKey)
    ensures WindowSum(a + b, startDate, endDate, k) == WindowSum(a, startDate, endDate, k) + WindowSum(b, startDate, endDate, k)
  {
    if a == [] {
      assert a + b == b;
    } else {
      assert (a + b)[0] == a[0] && (a + b)[1..] == a[1..] + b;
      WindowSumConcat(a[1..], b, startDate, endDate, k);
    }
  }

  /** A record outside the window changes neither query's result. */
  lemma OutOfWindowIgnored(records: seq<TimeRecord>, r: TimeRecord, startDate: int, endDate: int)
    requires !InWindow(r, startDate, endDate)
    ensures AllEmployeesReport(records + [r], startDate, endDate) == AllEmployeesReport(records, startDate, endDate)
    ensures forall username ::
              EmployeeReport(records + [r], username, startDate, endDate) == EmployeeReport(records, username, startDate, endDate)
  {
    BetweenConcat(records, [r], startDate, endDate);
    assert Between([r], startDate, endDate) == [];
    assert Between(records, startDate, endDate) + [] == Between(records, startDate, endDate);
    forall username
      ensures EmployeeReport(records + [r], username, startDate, endDate) == EmployeeReport(records, username, startDate, endDate)
    {
      EmployeeReportIsRestriction(records + [r], username, startDate, endDate);
      EmployeeReportIsRestriction(records, username, startDate, endDate);
    }
  }

  /**
   * A record inside the window adds its group to the report and its hours to
   * that group's total, and leaves every other group's total as it was.
   */
  lemma InWindowCounted(records: seq<TimeRecord>, r: TimeRecord, startDate: int, endDate: int)
    requires InWindow(r, startDate, endDate)
    ensures KeyOf(r) in RowKeys(AllEmployeesReport(records + [r], startDate, endDate))
    ensures WindowSum(records + [r], startDate, endDate, KeyOf(r))
         == WindowSum(records, startDate, endDate, KeyOf(r)) + Hours(r)
    ensures forall k :: k != KeyOf(r) ==>
              WindowSum(records + [r], startDate, endDate, k) == WindowSum(records, startDate, endDate, k)
  {
    assert r in records + [r];
    assert [r][1..] == [];
    WindowSumConcat(records, [r], startDate, endDate, KeyOf(r));
    forall k | k != KeyOf(r)
      ensures WindowSum(records + [r], startDate, endDate, k) == WindowSum(records, startDate, endDate, k)
    {
      WindowSumConcat(records, [r], startDate, endDate, k);
    }
  }

  /**
   * The window is closed at its start and open at its end: a record starting
   * exactly at `startDate` is reported, one ending exactly at `endDate` is not.
   */
  lemma WindowBoundaries(records: seq<TimeRecord>, r: TimeRecord, startDate: int, endDate: int)
    ensures r.timeFrom == startDate && r.timeTo < endDate ==>
              KeyOf(r) in RowKeys(AllEmployeesReport(records + [r], startDate, endDate))
    ensures r.timeTo == endDate ==>
              AllEmployeesReport(records + [r], startDate, endDate) == AllEmployeesReport(records, startDate, endDate)
  {
    if r.timeFrom == startDate && r.timeTo < endDate {
      InWindowCounted(records, r, startDate, endDate);
    }
    if r.timeTo == endDate {
      OutOfWindowIgnored(records, r, startDate, endDate);
    }
  }

  // ---------------------------------------------------------------------------
  // Consequences of well-formed intervals

  lemma {:induction false} WindowSumNonNegative(records: seq<TimeRecord>, startDate: int, endDate: int, k: GroupKey)
    requires forall r :: r in records ==> WellFormed(r)
    ensures WindowSum(records, startDate, endDate, k) >= 0.0
  {
    if records != [] {
      assert records[0] in records;
      WindowSumNonNegative(records[1..], startDate, endDate, k);
    }
  }

  /** If no interval is reversed, every total of either query is non-negative. */
  lemma TotalsNonNegative(records: seq<TimeRecord>, username: string, startDate: int, endDate: int)
    requires forall r :: r in records ==> WellFormed(r)
    ensures forall row :: row in AllEmployeesReport(records, startDate, endDate) ==> row.totalHours >= 0.0
    ensures forall row :: row in EmployeeReport(records, username, startDate, endDate) ==> row.totalHours >= 0.0
  {
    forall k {
      WindowSumNonNegative(records, startDate, endDate, k);
    }
  }

  lemma RowKeysNonEmpty(rows: seq<ReportRow>)
    requires rows != []
    ensures RowKeys(rows) != {}
  {
    assert RowKey(rows[0]) in RowKeys(rows);
  }

  /** If no interval is reversed, a window with `startDate >= endDate` reports nothing. */
  lemma EmptyWindow(records: seq<TimeRecord>, username: string, startDate: int, endDate: int)
    requires forall r :: r in records ==> WellFormed(r)
    requires startDate >= endDate
    ensures AllEmployeesReport(records, startDate, endDate) == []
    ensures EmployeeReport(records, username, startDate, endDate) == []
  {
    var all := AllEmployeesReport(records, startDate, endDate);
    var mine := EmployeeReport(records, username, startDate, endDate);
    assert WindowKeys(records, startDate, endDate) == {};
    assert WindowKeysFor(records, username, startDate, endDate) == {};
    if all != [] {
      RowKeysNonEmpty(all);
      assert false;
    }
    if mine != [] {
      RowKeysNonEmpty(mine);
      assert false;
    }
  }

  // ---------------------------------------------------------------------------
  // No hours are lost or counted twice by grouping

  /** The hours of all records of a sequence. */
  function TotalHours(recs: seq<TimeRecord>): real {
    if recs == [] then 0.0 else Hours(recs[0]) + TotalHours(recs[1..])
  }

  /** The sum of the totals of a report. */
  function SumOfTotals(rows: seq<ReportRow>): real {
    if rows == [] then 0.0 else rows[0].totalHours + SumOfTotals(rows[1..])
  }

  /** Sum over keys `ks` of what record `r` adds to each of them. */
  function Contribution(ks: seq<GroupKey>, r: TimeRecord): real {
    if ks == [] then 0.0
    else (if KeyOf(r) == ks[0] then Hours(r) else 0.0) + Contribution(ks[1..], r)
  }

  lemma {:induction false} ContributionAbsent(ks: seq<GroupKey>, r: TimeRecord)
    requires KeyOf(r) !in ks
    ensures Contribution(ks, r) == 0.0
  {
    if ks != [] {
      assert forall x :: x in ks[1..] ==> x in ks;
      ContributionAbsent(ks[1..], r);
    }
  }

  lemma {:induction false} ContributionOnce(ks: seq<GroupKey>, r: TimeRecord)
    requires Sorted(ks) && KeyOf(r) in ks
    ensures Contribution(ks, r) == Hours(r)
  {
    SortedTail(ks);
    if KeyOf(r) == ks[0] {
      ContributionAbsent(ks[1..], r);
    } else {
      assert ks == [ks[0]] + ks[1..];
      ContributionOnce(ks[1..], r);
    }
  }

  lemma {:induction false} RowsOfNothing(ks: seq<GroupKey>)
    ensures SumOfTotals(Rows(ks, [])) == 0.0
  {
    if ks != [] {
      assert Rows(ks, [])[1..] == Rows(ks[1..], []);
      RowsOfNothing(ks[1..]);
    }
  }

  lemma {:induction false} RowsSplit(ks: seq<GroupKey>, recs: seq<TimeRecord>)
    requires recs != []
    ensures SumOfTotals(Rows(ks, recs)) == Contribution(ks, recs[0]) + SumOfTotals(Rows(ks, recs[1..]))
  {
    if ks != [] {
      assert Rows(ks, recs)[1..] == Rows(ks[1..], recs);
      assert Rows(ks, recs[1..])[1..] == Rows(ks[1..], recs[1..]);
      RowsSplit(ks[1..], recs);
    }
  }

  lemma {:induction false} RowsCoverTotal(ks: seq<GroupKey>, recs: seq<TimeRecord>)
    requires Sorted(ks)
    requires forall r :: r in recs ==> KeyOf(r) in ks
    ensures SumOfTotals(Rows(ks, recs)) == TotalHours(recs)
  {
    if recs == [] {
      RowsOfNothing(ks);
    } else {
      assert recs[0] in recs;
      assert forall r :: r in recs[1..] ==> r in recs;
      RowsSplit(ks, recs);
      ContributionOnce(ks, recs[0]);
      RowsCoverTotal(ks, recs[1..]);
    }
  }

  /** The hours of the kept records, in one pass over the table. */
  function WindowTotal(records: seq<TimeRecord>, startDate: int, endDate: int): real {
    if records == [] then 0.0
    else
      (if InWindow(records[0], startDate, endDate) then Hours(records[0]) else 0.0)
      + WindowTotal(records[1..], startDate, endDate)
  }

  lemma {:induction false} TotalHoursConcat(a: seq<TimeRecord>, b: seq<TimeRecord>)
    ensures TotalHours(a + b) == TotalHours(a) + TotalHours(b)
  {
    if a == [] {
      assert a + b == b;
    } else {
      assert (a + b)[0] == a[0] && (a + b)[1..] == a[1..] + b;
      TotalHoursConcat(a[1..], b);
    }
  }

  lemma {:induction false} TotalHoursBetween(records: seq<TimeRecord>, startDate: int, endDate: int)
    ensures TotalHours(Between(records, startDate, endDate)) == WindowTotal(records, startDate, endDate)
  {
    if records != [] {
      var head := if InWindow(records[0], startDate, endDate) then [records[0]] else [];
      TotalHoursConcat(head, Between(records[1..], startDate, endDate));
      TotalHoursBetween(records[1..], startDate, endDate);
      assert head != [] ==> head[1..] == [];
    }
  }

  /** The totals of the report add up to the hours of all records in the window. */
  lemma HoursConserved(records: seq<TimeRecord>, startDate: int, endDate: int)
    ensures SumOfTotals(AllEmployeesReport(records, startDate, endDate)) == WindowTotal(records, startDate, endDate)
  {
    var m := Between(records, startDate, endDate);
    var ks := GroupKeys(m);
    forall r | r in m ensures KeyOf(r) in ks {
      assert KeyOf(r) in Keys(m);
    }
    RowsCoverTotal(ks, m);
    TotalHoursBetween(records, startDate, endDate);
  }

  // ---------------------------------------------------------------------------
  // A worked case

  /**
   * Tom logs 09:00-12:00 and 13:00-14:30 on ProjectA; a window covering the
   * whole day reports a single row of 4.5 hours.
   */
  lemma TwoIntervalsOneRow()
    ensures var tom := Employee(1, "Tom");
            var projectA := Project(1, "ProjectA");
            var records := [TimeRecord(1, tom, projectA, 9 * 3600, 12 * 3600),
                            TimeRecord(2, tom, projectA, 13 * 3600, 14 * 3600 + 1800)];
            AllEmployeesReport(records, 0, 24 * 3600) == [ReportRow("Tom", "ProjectA", 4.5)]
  {
    var tom := Employee(1, "Tom");
    var projectA := Project(1, "ProjectA");
    var r1 := TimeRecord(1, tom, projectA, 9 * 3600, 12 * 3600);
    var r2 := TimeRecord(2, tom, projectA, 13 * 3600, 14 * 3600 + 1800);
    var records := [r1, r2];
    var k := GroupKey("Tom", "ProjectA");
    var rows := AllEmployeesReport(records, 0, 24 * 3600);
    assert records[1..] == [r2] && records[1..][1..] == [];
    assert Hours(r1) == 3.0 && Hours(r2) == 1.5;
    assert WindowSum([r2], 0, 24 * 3600, k) == 1.5 + WindowSum([], 0, 24 * 3600, k);
    assert WindowSum(records, 0, 24 * 3600, k) == 3.0 + WindowSum([r2], 0, 24 * 3600, k);
    assert WindowKeys(records, 0, 24 * 3600) == {k};
    assert RowKeys(rows) == {k};
    RowKeysNonEmpty(rows);
    assert RowKey(rows[0]) in RowKeys(rows);
    if |rows| > 1 {
      assert RowKey(rows[1]) in RowKeys(rows);
      KeyLessIrreflexive(k);
      assert false;
    }
    assert rows == [rows[0]];
    assert rows[0].totalHours == 4.5;
  }
}
