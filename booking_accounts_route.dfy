/** `app/api/booking-accounts/route.ts`: list booking accounts (optionally of
    one project) with their project's name and customer, newest first;
    create one. */
module BookingAccountsRoute {
  import opened Schema
  import opened Ordering
  import opened Http
  import opened Store

  /** The fields of the JSON body that the handler destructures. */
  datatype AccountBody = AccountBody(
    name: Option<string>, description: Option<string>, projectId: Option<int>)

  const MissingMessage := "Name and project ID are required"
  const InvalidReferenceMessage := "Invalid project ID"
  const CreateFailedMessage := "Failed to create booking account"
  const FetchFailedMessage := "Failed to fetch booking accounts"

  predicate MissingRequired(b: AccountBody) {
    FalsyText(b.name) || FalsyId(b.projectId)
  }

  function ListingCreatedAt(row: AccountListing): int { row.createdAt }

  /** The WHERE clause: present only for a non-empty `project_id`. */
  predicate Selected(a: BookingAccount, param: IdParam) {
    !Filters(param) || a.projectId == param.id
  }

  /** One account LEFT JOINed with the projects on `ba.project_id = p.id`;
      only the projects table is joined. */
  function JoinProject(a: BookingAccount, projects: seq<Project>): AccountListing {
    match Find(projects, (p: Project) => p.id == a.projectId)
    case Some(p) =>
      AccountListing(a.id, a.name, a.description, a.projectId, Some(p.name), Some(p.customerName), a.createdAt)
    case None =>
      AccountListing(a.id, a.name, a.description, a.projectId, None, None, a.createdAt)
  }

  /** The join keeps every column of the row it extends, so distinct rows
      stay distinct. */
  lemma JoinProjectInjective(a: BookingAccount, projects: seq<Project>)
    ensures forall b :: JoinProject(b, projects) == JoinProject(a, projects) ==> b == a
  {
  }

  /** The selected, joined rows in table order (before ORDER BY). */
  function Rows(accounts: seq<BookingAccount>, projects: seq<Project>, param: IdParam)
    : (r: seq<AccountListing>)
    ensures forall row :: row in r <==>
      exists a :: a in accounts && Selected(a, param) && row == JoinProject(a, projects)
    ensures forall a :: Selected(a, param) ==>
      multiset(r)[JoinProject(a, projects)] == multiset(accounts)[a]
    ensures !Filters(param) ==> |r| == |accounts|
    ensures |r| <= |accounts|
  {
    if accounts == [] then []
    else
      var rest := Rows(accounts[1..], projects, param);
      assert forall a :: a in accounts <==> a == accounts[0] || a in accounts[1..];
      assert accounts == [accounts[0]] + accounts[1..];
      JoinProjectInjective(accounts[0], projects);
      if Selected(accounts[0], param) then [JoinProject(accounts[0], projects)] + rest
      else rest
  }

  /** `GET /api/booking-accounts`: the selected, joined rows, newest first. */
  function List(accounts: seq<BookingAccount>, projects: seq<Project>, param: IdParam, outage: bool)
    : (r: Response)
    ensures outage || !BindsAsInteger(param) ==> r == Response(500, Error(FetchFailedMessage))
    ensures !outage && BindsAsInteger(param) ==>
      && r.status == 200 && r.body.BookingAccounts?
      && multiset(r.body.bookingAccounts) == multiset(Rows(accounts, projects, param))
      && SortedDesc(r.body.bookingAccounts, ListingCreatedAt)
  {
    if outage || !BindsAsInteger(param) then Response(500, Error(FetchFailedMessage))
    else Response(200, BookingAccounts(SortDesc(Rows(accounts, projects, param), ListingCreatedAt)))
  }

  /** What the listing contains: with a filter exactly the accounts of that
      project, without one every account, each joined to its project and
      listed as often as it occurs in the table: once, since ids are
      distinct. */
  lemma ListContents(accounts: seq<BookingAccount>, projects: seq<Project>, param: IdParam)
    ensures BindsAsInteger(param) ==>
      var rows := List(accounts, projects, param, false).body.bookingAccounts;
      && (forall row :: row in rows <==>
            exists a :: a in accounts && Selected(a, param) && row == JoinProject(a, projects))
      && (forall a :: Selected(a, param) ==>
            multiset(rows)[JoinProject(a, projects)] == multiset(accounts)[a])
      && (DistinctIds(accounts, AccountId) ==>
            forall a :: a in accounts && Selected(a, param) ==> multiset(rows)[JoinProject(a, projects)] == 1)
      && (Filters(param) ==> forall row :: row in rows ==> row.projectId == param.id)
      && (!Filters(param) ==> |rows| == |accounts|)
  {
    if BindsAsInteger(param) {
      var rows := List(accounts, projects, param, false).body.bookingAccounts;
      var unsorted := Rows(accounts, projects, param);
      SameMultisetSameMembers(rows, unsorted);
      if DistinctIds(accounts, AccountId) {
        RowsOnce(accounts, projects, param);
      }
    }
  }

  /** Over a table whose ids are distinct, each selected row is joined and
      listed exactly once. */
  lemma RowsOnce(accounts: seq<BookingAccount>, projects: seq<Project>, param: IdParam)
    requires DistinctIds(accounts, AccountId)
    ensures forall a :: a in accounts && Selected(a, param) ==>
      multiset(Rows(accounts, projects, param))[JoinProject(a, projects)] == 1
  {
    forall a | a in accounts && Selected(a, param)
      ensures multiset(Rows(accounts, projects, param))[JoinProject(a, projects)] == 1
    {
      var k :| 0 <= k < |accounts| && accounts[k] == a;
      OccursOnce(accounts, AccountId, k);
    }
  }

  /** The joined project name and customer are those of the account's own
      project, or both null when no project has that id. */
  lemma JoinedFieldsAreOwnProject(a: BookingAccount, projects: seq<Project>)
    requires DistinctIds(projects, ProjectId)
    ensures var row := JoinProject(a, projects);
      (row.projectName.None? <==> !HasProject(projects, a.projectId)) &&
      (row.customerName.None? <==> !HasProject(projects, a.projectId))
    ensures forall p :: p in projects && p.id == a.projectId ==>
      JoinProject(a, projects).projectName == Some(p.name) &&
      JoinProject(a, projects).customerName == Some(p.customerName)
  {
    var found := Find(projects, (p: Project) => p.id == a.projectId);
    if found.Some? {
      forall p | p in projects && p.id == a.projectId
        ensures JoinProject(a, projects).projectName == Some(p.name)
        ensures JoinProject(a, projects).customerName == Some(p.customerName)
      {
        var i :| 0 <= i < |projects| && projects[i] == p;
        var j :| 0 <= j < |projects| && projects[j] == found.value;
        SameIdSamePosition(projects, ProjectId, i, j);
      }
    }
  }

  /** Over a store that keeps its constraints, every listed account carries
      its own project's name and customer (the foreign key guarantees a match). */
  lemma ListedAccountsNameTheirProject(db: Database, param: IdParam)
    requires db.Valid() && BindsAsInteger(param)
    ensures forall row :: row in List(db.bookingAccounts, db.projects, param, false).body.bookingAccounts ==>
      exists p :: p in db.projects && p.id == row.projectId
               && row.projectName == Some(p.name) && row.customerName == Some(p.customerName)
  {
    ListContents(db.bookingAccounts, db.projects, param);
    SerialKeysDistinct(db.projects, ProjectId, db.projectSerial);
    forall row | row in List(db.bookingAccounts, db.projects, param, false).body.bookingAccounts
      ensures exists p :: p in db.projects && p.id == row.projectId
                       && row.projectName == Some(p.name) && row.customerName == Some(p.customerName)
    {
      var a :| a in db.bookingAccounts && Selected(a, param) && row == JoinProject(a, db.projects);
      assert HasProject(db.projects, a.projectId);
      var p :| p in db.projects && p.id == a.projectId;
      JoinedFieldsAreOwnProject(a, db.projects);
    }
  }

  /** The response of `POST /api/booking-accounts` against the projects table,
      given that the store would number the new row `id` and stamp it `now`.
      `request` is None when the body is not JSON, or is JSON `null`
      (destructuring it throws); any other JSON value is destructured, its
      missing fields absent. The insert fails with 500 when the sequence is
      exhausted. */
  function Create(projects: seq<Project>, request: Option<AccountBody>, outage: bool,
                  id: nat, now: nat): (r: Response)
    ensures r.status in {201, 400, 500}
    ensures r.status == 400 && r.body == Error(MissingMessage) <==>
      request.Some? && MissingRequired(request.value)
    ensures r.status == 400 ==> r.body == Error(MissingMessage) || r.body == Error(InvalidReferenceMessage)
    ensures r.status == 400 && r.body == Error(InvalidReferenceMessage) <==>
      && request.Some? && !MissingRequired(request.value) && !outage && !Exhausted(id)
      && VarcharAccepts(request.value.name.value, AccountNameMax)
      && FitsInt32(request.value.projectId.value)
      && !HasProject(projects, request.value.projectId.value)
    ensures r.status == 500 ==> r.body == Error(CreateFailedMessage)
    ensures r.status == 201 <==>
      && request.Some? && !MissingRequired(request.value) && !outage && !Exhausted(id)
      && CheckAccountInsert(projects, request.value.name.value, request.value.projectId.value) == None
    ensures r.status == 201 ==>
      && request.Some? && !MissingRequired(request.value)
      && HasProject(projects, request.value.projectId.value)
      && r.body == BookingAccountCreated(StoredAccount(id, request.value.name.value, request.value.description,
                                                        request.value.projectId.value, now))
  {
    if request.None? then Response(500, Error(CreateFailedMessage))
    else if MissingRequired(request.value) then Response(400, Error(MissingMessage))
    else if outage || Exhausted(id) then Response(500, Error(CreateFailedMessage))
    else
      var b := request.value;
      match CheckAccountInsert(projects, b.name.value, b.projectId.value)
      case None =>
        Response(201, BookingAccountCreated(StoredAccount(id, b.name.value, b.description, b.projectId.value, now)))
      case Some(f) => FailureResponse(f)
  }

  /** The catch block: 23503 is a bad reference, anything else an internal
      error. There is no conflict case. */
  function FailureResponse(f: StoreFailure): (r: Response)
    ensures r.status == 400 <==> SqlState(f) == "23503"
    ensures r.body == Error(if r.status == 400 then InvalidReferenceMessage else CreateFailedMessage)
    ensures r.status in {400, 500}
  {
    if f == ForeignKeyViolation then Response(400, Error(InvalidReferenceMessage))
    else Response(500, Error(CreateFailedMessage))
  }

  /** `POST /api/booking-accounts`: validate, insert, map the outcome. The
      created row is returned as stored, without project name or customer. */
  method Post(db: Database, request: Option<AccountBody>, outage: bool) returns (resp: Response)
    requires db.Valid()
    modifies db
    ensures db.Valid()
    ensures resp == Create(old(db.projects), request, outage, old(db.accountSerial), old(db.clock))
    ensures db.bookingAccounts ==
      if resp.status == 201 then old(db.bookingAccounts) + [resp.body.bookingAccount] else old(db.bookingAccounts)
    ensures db.users == old(db.users) && db.departments == old(db.departments)
    ensures db.projects == old(db.projects)
    ensures db.userSerial == old(db.userSerial) && db.departmentSerial == old(db.departmentSerial)
    ensures db.projectSerial == old(db.projectSerial)
    ensures request.None? || MissingRequired(request.value) || outage
            || !FitsInt32(request.value.projectId.value) || Exhausted(old(db.accountSerial)) ==>
      db.accountSerial == old(db.accountSerial)
    ensures request.Some? && !MissingRequired(request.value) && !outage
            && FitsInt32(request.value.projectId.value) && !Exhausted(old(db.accountSerial)) ==>
      db.accountSerial == old(db.accountSerial) + 1
    ensures db.clock == if resp.status == 201 then old(db.clock) + 1 else old(db.clock)
  {
    if request.None? {
      return Response(500, Error(CreateFailedMessage));
    }
    var b := request.value;
    if MissingRequired(b) {
      return Response(400, Error(MissingMessage));
    }
    var r := db.InsertBookingAccount(b.name.value, b.description, b.projectId.value, outage);
    match r
    case Success(row) => resp := Response(201, BookingAccountCreated(row));
    case Failure(f) => resp := FailureResponse(f);
  }
}
