/** `app/api/projects/route.ts`: list projects (optionally of one department)
    with their department's name, newest first; create one. */
module ProjectsRoute {
  import opened Schema
  import opened Ordering
  import opened Http
  import opened Store

  /** The fields of the JSON body that the handler destructures. */
  datatype ProjectBody = ProjectBody(
    name: Option<string>, customerName: Option<string>, description: Option<string>,
    departmentId: Option<int>)

  const MissingMessage := "Name, customer name, and department ID are required"
  const InvalidReferenceMessage := "Invalid department ID"
  const CreateFailedMessage := "Failed to create project"
  const FetchFailedMessage := "Failed to fetch projects"

  predicate MissingRequired(b: ProjectBody) {
    FalsyText(b.name) || FalsyText(b.customerName) || FalsyId(b.departmentId)
  }

  function ListingCreatedAt(row: ProjectListing): int { row.createdAt }

  /** The WHERE clause: present only for a non-empty `department_id`. */
  predicate Selected(p: Project, param: IdParam) {
    !Filters(param) || p.departmentId == param.id
  }

  /** One project LEFT JOINed with the departments on `p.department_id = d.id`. */
  function JoinDepartment(p: Project, departments: seq<Department>): ProjectListing {
    var name := match Find(departments, (d: Department) => d.id == p.departmentId)
                case Some(d) => Some(d.name)
                case None => None;
    ProjectListing(p.id, p.name, p.customerName, p.description, p.departmentId, name, p.createdAt)
  }

  /** The join keeps every column of the row it extends, so distinct rows
      stay distinct. */
  lemma JoinDepartmentInjective(p: Project, departments: seq<Department>)
    ensures forall q :: JoinDepartment(q, departments) == JoinDepartment(p, departments) ==> q == p
  {
  }

  /** The selected, joined rows in table order (before ORDER BY). */
  function Rows(projects: seq<Project>, departments: seq<Department>, param: IdParam)
    : (r: seq<ProjectListing>)
    ensures forall row :: row in r <==>
      exists p :: p in projects && Selected(p, param) && row == JoinDepartment(p, departments)
    ensures forall p :: Selected(p, param) ==>
      multiset(r)[JoinDepartment(p, departments)] == multiset(projects)[p]
    ensures !Filters(param) ==> |r| == |projects|
    ensures |r| <= |projects|
  {
    if projects == [] then []
    else
      var rest := Rows(projects[1..], departments, param);
      assert forall p :: p in projects <==> p == projects[0] || p in projects[1..];
      assert projects == [projects[0]] + projects[1..];
      JoinDepartmentInjective(projects[0], departments);
      if Selected(projects[0], param) then [JoinDepartment(projects[0], departments)] + rest
      else rest
  }

  /** `GET /api/projects`: the selected, joined rows, newest first. */
  function List(projects: seq<Project>, departments: seq<Department>, param: IdParam, outage: bool)
    : (r: Response)
    ensures outage || !BindsAsInteger(param) ==> r == Response(500, Error(FetchFailedMessage))
    ensures !outage && BindsAsInteger(param) ==>
      && r.status == 200 && r.body.Projects?
      && multiset(r.body.projects) == multiset(Rows(projects, departments, param))
      && SortedDesc(r.body.projects, ListingCreatedAt)
  {
    if outage || !BindsAsInteger(param) then Response(500, Error(FetchFailedMessage))
    else Response(200, Projects(SortDesc(Rows(projects, departments, param), ListingCreatedAt)))
  }

  /** What the listing contains: with a filter exactly the projects of that
      department, without one every project, each joined to its department
      and listed as often as it occurs in the table: once, since ids are
      distinct. */
  lemma ListContents(projects: seq<Project>, departments: seq<Department>, param: IdParam)
    ensures BindsAsInteger(param) ==>
      var rows := List(projects, departments, param, false).body.projects;
      && (forall row :: row in rows <==>
            exists p :: p in projects && Selected(p, param) && row == JoinDepartment(p, departments))
      && (forall p :: Selected(p, param) ==>
            multiset(rows)[JoinDepartment(p, departments)] == multiset(projects)[p])
      && (DistinctIds(projects, ProjectId) ==>
            forall p :: p in projects && Selected(p, param) ==> multiset(rows)[JoinDepartment(p, departments)] == 1)
      && (Filters(param) ==> forall row :: row in rows ==> row.departmentId == param.id)
      && (!Filters(param) ==> |rows| == |projects|)
  {
    if BindsAsInteger(param) {
      var rows := List(projects, departments, param, false).body.projects;
      var unsorted := Rows(projects, departments, param);
      SameMultisetSameMembers(rows, unsorted);
      if DistinctIds(projects, ProjectId) {
        RowsOnce(projects, departments, param);
      }
    }
  }

  /** Over a table whose ids are distinct, each selected row is joined and
      listed exactly once. */
  lemma RowsOnce(projects: seq<Project>, departments: seq<Department>, param: IdParam)
    requires DistinctIds(projects, ProjectId)
    ensures forall p :: p in projects && Selected(p, param) ==>
      multiset(Rows(projects, departments, param))[JoinDepartment(p, departments)] == 1
  {
    forall p | p in projects && Selected(p, param)
      ensures multiset(Rows(projects, departments, param))[JoinDepartment(p, departments)] == 1
    {
      var k :| 0 <= k < |projects| && projects[k] == p;
      OccursOnce(projects, ProjectId, k);
    }
  }

  /** The joined department name is the name of the project's own
      department, or null when no department has that id. */
  lemma JoinedNameIsOwnDepartment(p: Project, departments: seq<Department>)
    requires DistinctIds(departments, DepartmentId)
    ensures JoinDepartment(p, departments).departmentName.None? <==> !HasDepartment(departments, p.departmentId)
    ensures forall d :: d in departments && d.id == p.departmentId ==>
      JoinDepartment(p, departments).departmentName == Some(d.name)
  {
    var found := Find(departments, (d: Department) => d.id == p.departmentId);
    if found.Some? {
      forall d | d in departments && d.id == p.departmentId
        ensures JoinDepartment(p, departments).departmentName == Some(d.name)
      {
        var i :| 0 <= i < |departments| && departments[i] == d;
        var j :| 0 <= j < |departments| && departments[j] == found.value;
        SameIdSamePosition(departments, DepartmentId, i, j);
      }
    }
  }

  /** Over a store that keeps its constraints, every listed project carries
      the name of its department (the foreign key guarantees a match). */
  lemma ListedProjectsNameTheirDepartment(db: Database, param: IdParam)
    requires db.Valid() && BindsAsInteger(param)
    ensures forall row :: row in List(db.projects, db.departments, param, false).body.projects ==>
      exists d :: d in db.departments && d.id == row.departmentId && row.departmentName == Some(d.name)
  {
    ListContents(db.projects, db.departments, param);
    forall row | row in List(db.projects, db.departments, param, false).body.projects
      ensures exists d :: d in db.departments && d.id == row.departmentId && row.departmentName == Some(d.name)
    {
      var p :| p in db.projects && Selected(p, param) && row == JoinDepartment(p, db.departments);
      assert HasDepartment(db.departments, p.departmentId);
      var d :| d in db.departments && d.id == p.departmentId;
      SerialKeysDistinct(db.departments, DepartmentId, db.departmentSerial);
      JoinedNameIsOwnDepartment(p, db.departments);
    }
  }

  /** The response of `POST /api/projects` against the departments table,
      given that the store would number the new row `id` and stamp it `now`.
      `request` is None when the body is not JSON, or is JSON `null`
      (destructuring it throws); any other JSON value is destructured, its
      missing fields absent. The insert fails with 500 when the sequence is
      exhausted. */
  function Create(departments: seq<Department>, request: Option<ProjectBody>, outage: bool,
                  id: nat, now: nat): (r: Response)
    ensures r.status in {201, 400, 500}
    ensures r.status == 400 && r.body == Error(MissingMessage) <==>
      request.Some? && MissingRequired(request.value)
    ensures r.status == 400 ==> r.body == Error(MissingMessage) || r.body == Error(InvalidReferenceMessage)
    ensures r.status == 400 && r.body == Error(InvalidReferenceMessage) <==>
      && request.Some? && !MissingRequired(request.value) && !outage && !Exhausted(id)
      && VarcharAccepts(request.value.name.value, ProjectNameMax)
      && VarcharAccepts(request.value.customerName.value, ProjectCustomerMax)
      && FitsInt32(request.value.departmentId.value)
      && !HasDepartment(departments, request.value.departmentId.value)
    ensures r.status == 500 ==> r.body == Error(CreateFailedMessage)
    ensures r.status == 201 <==>
      && request.Some? && !MissingRequired(request.value) && !outage && !Exhausted(id)
      && CheckProjectInsert(departments, request.value.name.value, request.value.customerName.value,
                            request.value.departmentId.value) == None
    ensures r.status == 201 ==>
      && request.Some? && !MissingRequired(request.value)
      && HasDepartment(departments, request.value.departmentId.value)
      && r.body == ProjectCreated(StoredProject(id, request.value.name.value, request.value.customerName.value,
                                                request.value.description, request.value.departmentId.value, now))
  {
    if request.None? then Response(500, Error(CreateFailedMessage))
    else if MissingRequired(request.value) then Response(400, Error(MissingMessage))
    else if outage || Exhausted(id) then Response(500, Error(CreateFailedMessage))
    else
      var b := request.value;
      match CheckProjectInsert(departments, b.name.value, b.customerName.value, b.departmentId.value)
      case None =>
        Response(201, ProjectCreated(StoredProject(id, b.name.value, b.customerName.value, b.description,
                                                   b.departmentId.value, now)))
      case Some(f) => FailureResponse(f)
  }

  /** The catch block: 23503 is a bad reference, anything else an internal
      error. There is no conflict case. */
  function FailureResponse(f: StoreFailure): (r: Response)
    ensures r.status == 400 <==> SqlState(f) == "23503"
    ensures r.body == Error(if r.status == 400 then InvalidReferenceMessage else CreateFailedMessage)
    ensures r.status in {400, 500}
  {
    if f == ForeignKeyViolation then Response(400, Error(InvalidReferenceMessage))
    else Response(500, Error(CreateFailedMessage))
  }

  /** `POST /api/projects`: validate, insert, map the outcome. The created
      row is returned as stored, without a department name. */
  method Post(db: Database, request: Option<ProjectBody>, outage: bool) returns (resp: Response)
    requires db.Valid()
    modifies db
    ensures db.Valid()
    ensures resp == Create(old(db.departments), request, outage, old(db.projectSerial), old(db.clock))
    ensures db.projects == if resp.status == 201 then old(db.projects) + [resp.body.project] else old(db.projects)
    ensures db.users == old(db.users) && db.departments == old(db.departments)
    ensures db.bookingAccounts == old(db.bookingAccounts)
    ensures db.userSerial == old(db.userSerial) && db.departmentSerial == old(db.departmentSerial)
    ensures db.accountSerial == old(db.accountSerial)
    ensures request.None? || MissingRequired(request.value) || outage
            || !FitsInt32(request.value.departmentId.value) || Exhausted(old(db.projectSerial)) ==>
      db.projectSerial == old(db.projectSerial)
    ensures request.Some? && !MissingRequired(request.value) && !outage
            && FitsInt32(request.value.departmentId.value) && !Exhausted(old(db.projectSerial)) ==>
      db.projectSerial == old(db.projectSerial) + 1
    ensures db.clock == if resp.status == 201 then old(db.clock) + 1 else old(db.clock)
  {
    if request.None? {
      return Response(500, Error(CreateFailedMessage));
    }
    var b := request.value;
    if MissingRequired(b) {
      return Response(400, Error(MissingMessage));
    }
    var r := db.InsertProject(b.name.value, b.customerName.value, b.description, b.departmentId.value, outage);
    match r
    case Success(row) => resp := Response(201, ProjectCreated(row));
    case Failure(f) => resp := FailureResponse(f);
  }
}
