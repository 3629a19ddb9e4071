/**
 * The three persisted entities read by the report (employee, project,
 * time_record) and the derived report row.  Timestamps are whole seconds
 * since an arbitrary epoch; the persistence mapping (ids generated by the
 * store, lazy associations, column lengths) is not modelled.
 */
module Entities {

  /** A row of the `employee` table.  `name` is the key the report groups by. */
  datatype Employee = Employee(id: int, name: string)

  /** A row of the `project` table. */
  datatype Project = Project(id: int, name: string)

  /**
   * A row of the `time_record` table: one logged interval of work of one
   * employee on one project.  Nothing in the entity forces `timeFrom <= timeTo`.
   */
  datatype TimeRecord = TimeRecord(
    id: int,
    employee: Employee,
    project: Project,
    timeFrom: int,
    timeTo: int)

  /** One row of the report: total hours of one employee on one project. */
  datatype ReportRow = ReportRow(employeeName: string, projectName: string, totalHours: real)

  /** The pair the report groups by: (employee name, project name). */
  datatype GroupKey = GroupKey(employeeName: string, projectName: string)

  /** The group a record falls into (`GROUP BY e.name, p.name`). */
  function KeyOf(r: TimeRecord): GroupKey {
    GroupKey(r.employee.name, r.project.name)
  }

  /** The group a report row stands for. */
  function RowKey(row: ReportRow): GroupKey {
    GroupKey(row.employeeName, row.projectName)
  }

  /** The interval is not reversed; the store does not enforce this. */
  predicate WellFormed(r: TimeRecord) {
    r.timeFrom <= r.timeTo
  }

  /**
   * Elapsed hours of a record, `EXTRACT(EPOCH FROM (time_to - time_from)) / 3600`,
   * kept exact (no rounding).
   */
  function Hours(r: TimeRecord): (h: real)
    ensures h * 3600.0 == (r.timeTo - r.timeFrom) as real
    ensures WellFormed(r) ==> h >= 0.0
  {
    (r.timeTo - r.timeFrom) as real / 3600.0
  }
}
