/** Responses of the four entity routes: an HTTP status and the JSON envelope,
    whose single key names the collection, the created entity, or `error`. */
module Http {
  import opened Schema

  /** A row of `GET /api/projects`: the project's columns plus the name of
      the LEFT JOINed department (null when no department matches). */
  datatype ProjectListing = ProjectListing(
    id: nat, name: string, customerName: string, description: Option<string>,
    departmentId: int, departmentName: Option<string>, createdAt: nat)

  /** A row of `GET /api/booking-accounts`: the account's columns plus the
      name and customer of the LEFT JOINed project (null when none matches). */
  datatype AccountListing = AccountListing(
    id: nat, name: string, description: Option<string>, projectId: int,
    projectName: Option<string>, customerName: Option<string>, createdAt: nat)

  datatype Body =
    | Users(users: seq<User>)
    | UserCreated(user: User)
    | Departments(departments: seq<Department>)
    | DepartmentCreated(department: Department)
    | Projects(projects: seq<ProjectListing>)
    | ProjectCreated(project: Project)
    | BookingAccounts(bookingAccounts: seq<AccountListing>)
    | BookingAccountCreated(bookingAccount: BookingAccount)
    | Error(error: string)

  datatype Response = Response(status: nat, body: Body)

  /** A query-string parameter read with `searchParams.get`: absent (null),
      present but empty, or non-empty with the value `parseInt` gives it. */
  datatype IdParam = Absent | Blank | Given(id: int)

  /** Only a non-empty parameter is truthy and adds a WHERE clause. */
  predicate Filters(p: IdParam) {
    p.Given?
  }

  /** The parameter is sent untyped and compared with an INTEGER column, so
      the server reads it as an INTEGER: a value outside that range fails the
      query before it runs. */
  predicate BindsAsInteger(p: IdParam) {
    !p.Given? || FitsInt32(p.id)
  }
}
