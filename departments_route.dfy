/** `app/api/departments/route.ts`: list departments by name, create one. */
module DepartmentsRoute {
  import opened Schema
  import opened Ordering
  import opened Http
  import opened Store

  /** The fields of the JSON body that the handler destructures. */
  datatype DepartmentBody = DepartmentBody(name: Option<string>, description: Option<string>)

  const MissingMessage := "Name and description are required"
  const DuplicateMessage := "Department name already exists"
  const CreateFailedMessage := "Failed to create department"
  const FetchFailedMessage := "Failed to fetch departments"

  predicate MissingRequired(b: DepartmentBody) {
    FalsyText(b.name) || FalsyText(b.description)
  }

  /** Every department carries a non-empty description. */
  predicate DescriptionsPresent(ds: seq<Department>) {
    forall d :: d in ds ==> d.description.Some? && d.description.value != ""
  }

  /** `GET /api/departments`: every department, ascending by name. */
  function List(departments: seq<Department>, outage: bool): (r: Response)
    ensures outage ==> r == Response(500, Error(FetchFailedMessage))
    ensures !outage ==>
      && r.status == 200 && r.body.Departments?
      && multiset(r.body.departments) == multiset(departments)
      && SortedAsc(r.body.departments, DepartmentName)
  {
    if outage then Response(500, Error(FetchFailedMessage))
    else Response(200, Departments(SortAsc(departments, DepartmentName)))
  }

  /** Since names are unique, the listing is the one and only arrangement of
      the table by name: any ascending permutation of the table equals it. */
  lemma ListIsDetermined(departments: seq<Department>, arrangement: seq<Department>)
    requires UniqueKey(departments, DepartmentName)
    requires multiset(arrangement) == multiset(departments)
    requires SortedAsc(arrangement, DepartmentName)
    ensures List(departments, false).body.departments == arrangement
  {
    var listed := List(departments, false).body.departments;
    forall i, j | 0 <= i < j < |listed| ensures listed[i].name != listed[j].name {
      assert listed[i] in multiset(departments) && listed[j] in multiset(departments);
      var i' :| 0 <= i' < |departments| && departments[i'] == listed[i];
      var j' :| 0 <= j' < |departments| && departments[j'] == listed[j];
      if i' == j' {
        MultisetDistinctPositions(listed, i, j);
        assert multiset(departments)[listed[i]] >= 2;
        CountInUnique(departments, i');
        assert false;
      }
    }
    SortedAscUnique(listed, arrangement, DepartmentName);
  }

  /** A row that sits at two positions occurs at least twice. */
  lemma MultisetDistinctPositions<T>(s: seq<T>, i: nat, j: nat)
    requires i < j < |s| && s[i] == s[j]
    ensures multiset(s)[s[i]] >= 2
  {
    assert s == s[..j] + [s[j]] + s[j+1..];
    assert s[i] in s[..j];
  }

  /** In a table with unique names, each row occurs once. */
  lemma {:induction false} CountInUnique(ds: seq<Department>, k: nat)
    requires UniqueKey(ds, DepartmentName) && k < |ds|
    ensures multiset(ds)[ds[k]] == 1
  {
    var x := ds[k];
    assert ds == ds[..k] + [x] + ds[k+1..];
    forall m | 0 <= m < |ds| && m != k ensures ds[m] != x {
      if m < k { assert DepartmentName(ds[m]) != DepartmentName(ds[k]); }
      else { assert DepartmentName(ds[k]) != DepartmentName(ds[m]); }
    }
    assert x !in ds[..k];
    var tail := ds[k+1..];
    forall m | 0 <= m < |tail| ensures tail[m] != x {
      assert tail[m] == ds[k + 1 + m];
    }
    assert x !in tail;
    assert x !in multiset(ds[..k]) && x !in multiset(ds[k+1..]);
  }

  /** The response of `POST /api/departments` against the table `departments`,
      given that the store would number the new row `id` and stamp it `now`.
      `request` is None when the body is not JSON, or is JSON `null`
      (destructuring it throws); any other JSON value is destructured, its
      missing fields absent. The insert fails with 500 when the sequence is
      exhausted. */
  function Create(departments: seq<Department>, request: Option<DepartmentBody>, outage: bool,
                  id: nat, now: nat): (r: Response)
    ensures r.status in {201, 400, 409, 500}
    ensures r.status == 400 <==> request.Some? && MissingRequired(request.value)
    ensures r.status == 400 ==> r.body == Error(MissingMessage)
    ensures r.status == 409 <==>
      && request.Some? && !MissingRequired(request.value) && !outage && !Exhausted(id)
      && VarcharAccepts(request.value.name.value, DepartmentNameMax)
      && exists d :: d in departments && d.name == VarcharValue(request.value.name.value, DepartmentNameMax)
    ensures r.status == 409 ==> r.body == Error(DuplicateMessage)
    ensures r.status == 500 ==> r.body == Error(CreateFailedMessage)
    ensures r.status == 201 <==>
      && request.Some? && !MissingRequired(request.value) && !outage && !Exhausted(id)
      && VarcharAccepts(request.value.name.value, DepartmentNameMax)
      && forall d :: d in departments ==> d.name != VarcharValue(request.value.name.value, DepartmentNameMax)
    ensures r.status == 201 ==>
      r.body == DepartmentCreated(StoredDepartment(id, request.value.name.value, request.value.description, now))
  {
    if request.None? then Response(500, Error(CreateFailedMessage))
    else if MissingRequired(request.value) then Response(400, Error(MissingMessage))
    else if outage || Exhausted(id) then Response(500, Error(CreateFailedMessage))
    else
      var b := request.value;
      match CheckDepartmentInsert(departments, b.name.value)
      case None => Response(201, DepartmentCreated(StoredDepartment(id, b.name.value, b.description, now)))
      case Some(f) => FailureResponse(f)
  }

  /** The catch block: 23505 is a conflict, anything else an internal error. */
  function FailureResponse(f: StoreFailure): (r: Response)
    ensures r.status == 409 <==> SqlState(f) == "23505"
    ensures r.body == Error(if r.status == 409 then DuplicateMessage else CreateFailedMessage)
    ensures r.status in {409, 500}
  {
    if f == UniqueViolation then Response(409, Error(DuplicateMessage))
    else Response(500, Error(CreateFailedMessage))
  }

  /** `POST /api/departments`: validate, insert, map the outcome. */
  method Post(db: Database, request: Option<DepartmentBody>, outage: bool) returns (resp: Response)
    requires db.Valid()
    modifies db
    ensures db.Valid()
    ensures resp == Create(old(db.departments), request, outage, old(db.departmentSerial), old(db.clock))
    ensures db.departments ==
      if resp.status == 201 then old(db.departments) + [resp.body.department] else old(db.departments)
    ensures db.users == old(db.users) && db.projects == old(db.projects)
    ensures db.bookingAccounts == old(db.bookingAccounts)
    ensures db.userSerial == old(db.userSerial) && db.projectSerial == old(db.projectSerial)
    ensures db.accountSerial == old(db.accountSerial)
    ensures request.None? || MissingRequired(request.value) || outage || Exhausted(old(db.departmentSerial)) ==>
      db.departmentSerial == old(db.departmentSerial)
    ensures request.Some? && !MissingRequired(request.value) && !outage && !Exhausted(old(db.departmentSerial)) ==>
      db.departmentSerial == old(db.departmentSerial) + 1
    ensures db.clock == if resp.status == 201 then old(db.clock) + 1 else old(db.clock)
    ensures old(DescriptionsPresent(db.departments)) ==> DescriptionsPresent(db.departments)
  {
    if request.None? {
      return Response(500, Error(CreateFailedMessage));
    }
    var b := request.value;
    if MissingRequired(b) {
      return Response(400, Error(MissingMessage));
    }
    var r := db.InsertDepartment(b.name.value, b.description, outage);
    match r
    case Success(row) => resp := Response(201, DepartmentCreated(row));
    case Failure(f) => resp := FailureResponse(f);
  }

  /** Posting the same department twice: the first succeeds, the second is a
      conflict, whatever timestamps the store hands out, unless the first
      took the sequence's last value. */
  lemma SecondIdenticalPostConflicts(departments: seq<Department>, b: DepartmentBody,
                                     id1: nat, now1: nat, id2: nat, now2: nat)
    requires Create(departments, Some(b), false, id1, now1).status == 201
    ensures Create(departments + [Create(departments, Some(b), false, id1, now1).body.department],
                   Some(b), false, id2, now2)
            == if Exhausted(id2) then Response(500, Error(CreateFailedMessage))
               else Response(409, Error(DuplicateMessage))
  {
    var row := Create(departments, Some(b), false, id1, now1).body.department;
    assert row in departments + [row] && row.name == VarcharValue(b.name.value, DepartmentNameMax);
  }

  /** A created row keeps the route's table invariant: names stay pairwise
      distinct and every description stays non-empty. */
  lemma CreateKeepsTableInvariant(departments: seq<Department>, request: Option<DepartmentBody>,
                                  id: nat, now: nat)
    requires UniqueKey(departments, DepartmentName) && DescriptionsPresent(departments)
    requires Create(departments, request, false, id, now).status == 201
    ensures var row := Create(departments, request, false, id, now).body.department;
      UniqueKey(departments + [row], DepartmentName) && DescriptionsPresent(departments + [row])
  {
    var row := Create(departments, request, false, id, now).body.department;
    UniqueKeyAppend(departments, DepartmentName, row);
  }
}
