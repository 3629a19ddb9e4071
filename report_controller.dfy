/**
 * The report endpoint `GET /web/reports`: it builds the page request, decides
 * from the caller's authorities whether the caller is an administrator,
 * asks the report service for everybody's rows (administrator) or for the
 * caller's own rows (anyone else), fills the model handed to the view and
 * names the view.
 */
module ReportController {
  import opened Entities
  import opened Paging
  import Repo = TimeRecordRepository
  import Service = ReportServiceImpl

  /** The two roles of the application. */
  datatype UserRole = ADMIN | EMPLOYEE {
    /** The enum constant's name. */
    function Name(): string {
      match this
      case ADMIN => "ADMIN"
      case EMPLOYEE => "EMPLOYEE"
    }
  }

  /** Spring Security's prefix for role authorities. */
  const RolePrefix: string := "ROLE_"

  /** The authority the endpoint looks for: "ROLE_ADMIN". */
  const AdminAuthority: string := RolePrefix + ADMIN.Name()

  /** The authenticated principal: its user name and its granted authorities. */
  datatype UserDetails = UserDetails(username: string, authorities: seq<string>)

  // ---------------------------------------------------------------------------
  // String.equalsIgnoreCase

  const DotlessSmallI: char := '\U{0131}'
  const DottedCapitalI: char := '\U{0130}'
  const LongSmallS: char := '\U{017F}'
  const KelvinSign: char := '\U{212A}'

  /**
   * `Character.toUpperCase` on Basic Latin letters and on the two other
   * characters whose upper case is a Basic Latin letter: the dotless small i
   * and the long small s.
   */
  function ToUpper(c: char): char {
    if 'a' <= c <= 'z' then (c as int - 32) as char
    else if c == DotlessSmallI then 'I'
    else if c == LongSmallS then 'S'
    else c
  }

  /**
   * `Character.toLowerCase` on Basic Latin letters and on the two other
   * characters whose lower case is a Basic Latin letter: the dotted capital I
   * and the Kelvin sign.
   */
  function ToLower(c: char): char {
    if 'A' <= c <= 'Z' then (c as int + 32) as char
    else if c == DottedCapitalI then 'i'
    else if c == KelvinSign then 'k'
    else c
  }

  /** Two characters match ignoring case: equal, equal upper-cased, or equal lower-cased after upper-casing. */
  predicate CharEqualsIgnoreCase(a: char, b: char) {
    a == b || ToUpper(a) == ToUpper(b) || ToLower(ToUpper(a)) == ToLower(ToUpper(b))
  }

  /** `a.equalsIgnoreCase(b)`: same length and every position matches ignoring case. */
  predicate EqualsIgnoreCase(a: string, b: string) {
    |a| == |b| && forall i :: 0 <= i < |a| ==> CharEqualsIgnoreCase(a[i], b[i])
  }

  /**
   * The ways a character can spell the upper-case letter (or underscore) `t`
   * ignoring case: `t` itself, its lower-case letter, for `I` also the
   * dotless small i and the dotted capital I, for `S` the long small s and for
   * `K` the Kelvin sign.
   */
  predicate SpellsIgnoringCase(c: char, t: char) {
    || c == t
    || c == ToLower(t)
    || (t == 'I' && (c == DotlessSmallI || c == DottedCapitalI))
    || (t == 'S' && c == LongSmallS)
    || (t == 'K' && c == KelvinSign)
  }

  lemma CharMatchesUpper(c: char, t: char)
    requires 'A' <= t <= 'Z' || t == '_'
    ensures CharEqualsIgnoreCase(c, t) <==> SpellsIgnoringCase(c, t)
  {
  }

  /** An authority matches "ROLE_ADMIN" ignoring case iff it spells it letter by letter in either case. */
  lemma AdminAuthorityMatches(a: string)
    ensures EqualsIgnoreCase(a, AdminAuthority) <==>
              |a| == |AdminAuthority| && forall i :: 0 <= i < |a| ==> SpellsIgnoringCase(a[i], AdminAuthority[i])
  {
    assert AdminAuthority == "ROLE_ADMIN";
    forall i | 0 <= i < |a| && i < |AdminAuthority| {
      CharMatchesUpper(a[i], AdminAuthority[i]);
    }
  }

  // ---------------------------------------------------------------------------
  // The access decision

  /**
   * `getAuthorities().stream().anyMatch(auth -> auth.equalsIgnoreCase("ROLE_ADMIN"))`.
   */
  function IsAdmin(authorities: seq<string>): (b: bool)
    ensures b <==> exists i :: 0 <= i < |authorities| && EqualsIgnoreCase(authorities[i], AdminAuthority)
  {
    if authorities == [] then false
    else EqualsIgnoreCase(authorities[0], AdminAuthority) || IsAdmin(authorities[1..])
  }

  /** Which other authorities a caller holds never matters: only whether one of them is the admin one. */
  lemma {:induction false} IsAdminOfConcat(a: seq<string>, b: seq<string>)
    ensures IsAdmin(a + b) == (IsAdmin(a) || IsAdmin(b))
  {
    if a == [] {
      assert a + b == b;
    } else {
      assert (a + b)[0] == a[0] && (a + b)[1..] == a[1..] + b;
      IsAdminOfConcat(a[1..], b);
    }
  }

  /**
   * The principals the endpoint's tests build with `.roles("ADMIN")` and
   * `.roles("EMPLOYEE")` hold "ROLE_ADMIN" and "ROLE_EMPLOYEE"; the first is an
   * administrator, the second is not, and a lower-case spelling still counts.
   */
  lemma TestPrincipals()
    ensures IsAdmin([RolePrefix + ADMIN.Name()])
    ensures !IsAdmin([RolePrefix + EMPLOYEE.Name()])
    ensures IsAdmin(["role_admin"])
    ensures !IsAdmin([ADMIN.Name()])
  {
    assert EqualsIgnoreCase("ROLE_ADMIN", AdminAuthority);
    assert EqualsIgnoreCase("role_admin", AdminAuthority);
    assert !CharEqualsIgnoreCase('E', 'A');
    assert !EqualsIgnoreCase("ROLE_EMPLOYEE", AdminAuthority);
  }

  /** The role shown to the view: "ADMIN" for an administrator, otherwise "EMPLOYEE". */
  function RoleLabel(isAdmin: bool): (role: string)
    ensures role == "ADMIN" <==> isAdmin
    ensures role == "EMPLOYEE" <==> !isAdmin
  {
    if isAdmin then ADMIN.Name() else EMPLOYEE.Name()
  }

  /** A call to the report service, with its arguments. */
  datatype ServiceCall =
    | ReportDataCall(startDate: int, endDate: int, pageable: Pageable)
    | SpecificEmployeeCall(username: string, startDate: int, endDate: int, pageable: Pageable)

  /**
   * The branch of the endpoint: an administrator gets everybody's report,
   * anyone else the report of their own user name; window and page request
   * are passed on unchanged.
   */
  function AccessPolicy(user: UserDetails, startDate: int, endDate: int, pageable: Pageable)
    : (c: ServiceCall)
    ensures c.startDate == startDate && c.endDate == endDate && c.pageable == pageable
    ensures c.ReportDataCall? <==> IsAdmin(user.authorities)
    ensures c.SpecificEmployeeCall? ==> c.username == user.username
  {
    if IsAdmin(user.authorities) then ReportDataCall(startDate, endDate, pageable)
    else SpecificEmployeeCall(user.username, startDate, endDate, pageable)
  }

  /** What the service does for `call`. */
  function Serve(records: seq<TimeRecord>, call: ServiceCall): Service.Delegation
    requires Valid(call.pageable)
  {
    match call
    case ReportDataCall(startDate, endDate, pageable) =>
      Service.GetReportData(records, startDate, endDate, pageable)
    case SpecificEmployeeCall(username, startDate, endDate, pageable) =>
      Service.GetReportDataForSpecificEmployee(records, username, startDate, endDate, pageable)
  }

  /** An administrator's page is exactly the all-employees query's page for the same window and request. */
  lemma AdminSeesAllEmployees(
    records: seq<TimeRecord>, user: UserDetails, startDate: int, endDate: int, pageable: Pageable)
    requires Valid(pageable) && IsAdmin(user.authorities)
    ensures var d := Serve(records, AccessPolicy(user, startDate, endDate, pageable));
            && d.calls == [Service.BetweenQuery(startDate, endDate, pageable)]
            && d.result == Repo.FindAllBetweenStartDateAndEndDate(records, startDate, endDate, pageable)
  {
  }

  /**
   * Anyone else gets the employee query's page for their own user name, so
   * only their own rows (and, by `EmployeePageIsRestriction`, exactly their
   * rows of the all-employees report).
   */
  lemma EmployeeSeesOnlyOwnRows(
    records: seq<TimeRecord>, user: UserDetails, startDate: int, endDate: int, pageable: Pageable)
    requires Valid(pageable) && !IsAdmin(user.authorities)
    ensures var d := Serve(records, AccessPolicy(user, startDate, endDate, pageable));
            && d.calls == [Service.EmployeeQuery(user.username, startDate, endDate, pageable)]
            && d.result == Repo.FindAllByEmployeeAndDateRange(records, user.username, startDate, endDate, pageable)
            && (forall row :: row in d.result.content ==> row.employeeName == user.username)
  {
    var call := AccessPolicy(user, startDate, endDate, pageable);
    assert call == SpecificEmployeeCall(user.username, startDate, endDate, pageable);
  }

  // ---------------------------------------------------------------------------
  // The model handed to the view

  /** The values the endpoint puts into the model. */
  datatype Attribute =
    | ReportData(page: Page<ReportRow>)
    | Timestamp(time: int)
    | Number(value: int)
    | Text(text: string)

  /** The view's model: named attributes, updated in place. */
  class ReportModel {
    var attributes: map<string, Attribute>

    constructor ()
      ensures attributes == map[]
    {
      attributes := map[];
    }

    /** `addAttribute(name, value)`: sets `name` to `value`, replacing what was there. */
    method AddAttribute(name: string, value: Attribute)
      modifies this
      ensures attributes == old(attributes)[name := value]
    {
      attributes := attributes[name := value];
    }
  }

  /** The names of the attributes the endpoint hands to the view. */
  const ReportAttributeNames: set<string> :=
    {"reportData", "startDate", "endDate", "currentPage", "pageSize", "username", "role"}

  /**
   * The model after the endpoint's seven `addAttribute` calls, in the order it
   * makes them, starting from `before`.
   */
  function ReportAttributes(
    before: map<string, Attribute>, reportData: Page<ReportRow>, startDate: int, endDate: int,
    page: int, size: int, username: string, role: string): (m: map<string, Attribute>)
    ensures m.Keys == before.Keys + ReportAttributeNames
    ensures m["reportData"] == ReportData(reportData)
    ensures m["startDate"] == Timestamp(startDate) && m["endDate"] == Timestamp(endDate)
    ensures m["currentPage"] == Number(page) && m["pageSize"] == Number(size)
    ensures m["username"] == Text(username) && m["role"] == Text(role)
    ensures forall name :: name in before && name !in ReportAttributeNames ==> m[name] == before[name]
  {
    before
      ["reportData" := ReportData(reportData)]
      ["startDate" := Timestamp(startDate)]
      ["endDate" := Timestamp(endDate)]
      ["currentPage" := Number(page)]
      ["pageSize" := Number(size)]
      ["username" := Text(username)]
      ["role" := Text(role)]
  }

  /** The view the endpoint always renders. */
  const ViewName: string := "work_hours_report"

  /**
   * What `@UserAuthentication` lets through: a caller holding the ADMIN or
   * the EMPLOYEE role.  Spring Security checks it before the endpoint runs.
   */
  predicate Authorized(user: UserDetails) {
    RolePrefix + ADMIN.Name() in user.authorities || RolePrefix + EMPLOYEE.Name() in user.authorities
  }

  /**
   * `getReportData(startDate, endDate, page, size, userDetails, model)` against
   * a table holding `records`.  `serviceCalls` records the calls made to the
   * report service.
   */
  method GetReportData(
    records: seq<TimeRecord>, startDate: int, endDate: int, page: int, size: int,
    user: UserDetails, model: ReportModel)
    returns (view: string, ghost serviceCalls: seq<ServiceCall>)
    requires page >= 0 && size >= 1
    requires Authorized(user)
    modifies model
    ensures view == ViewName
    ensures serviceCalls == [AccessPolicy(user, startDate, endDate, PageRequest(page, size))]
    ensures serviceCalls[0].pageable.pageNumber == page && serviceCalls[0].pageable.pageSize == size
    ensures model.attributes == ReportAttributes(
              old(model.attributes), Serve(records, serviceCalls[0]).result, startDate, endDate,
              page, size, user.username, RoleLabel(IsAdmin(user.authorities)))
    ensures !IsAdmin(user.authorities) ==>
              forall row :: row in model.attributes["reportData"].page.content ==> row.employeeName == user.username
  {
    var pageable := PageRequest(page, size);
    var username := user.username;
    var isAdmin := IsAdmin(user.authorities);
    var reportData: Page<ReportRow>;
    if isAdmin {
      reportData := Service.GetReportData(records, startDate, endDate, pageable).result;
      serviceCalls := [ReportDataCall(startDate, endDate, pageable)];
    } else {
      reportData := Service.GetReportDataForSpecificEmployee(records, username, startDate, endDate, pageable).result;
      serviceCalls := [SpecificEmployeeCall(username, startDate, endDate, pageable)];
      assert forall row :: row in reportData.content ==> row.employeeName == username;
    }

    model.AddAttribute("reportData", ReportData(reportData));
    model.AddAttribute("startDate", Timestamp(startDate));
    model.AddAttribute("endDate", Timestamp(endDate));
    model.AddAttribute("currentPage", Number(page));
    model.AddAttribute("pageSize", Number(size));
    model.AddAttribute("username", Text(username));
    model.AddAttribute("role", Text(RoleLabel(isAdmin)));

    view := ViewName;
  }
}
