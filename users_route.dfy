/** `app/api/users/route.ts`: list users newest first, create one. */
module UsersRoute {
  import opened Schema
  import opened Ordering
  import opened Http
  import opened Store

  /** The fields of the JSON body that the handler destructures. */
  datatype UserBody = UserBody(
    name: Option<string>, email: Option<string>, role: Option<string>, department: Option<string>)

  const MissingMessage := "All fields (name, email, role, department) are required"
  const DuplicateMessage := "Email already exists"
  const CreateFailedMessage := "Failed to create user"
  const FetchFailedMessage := "Failed to fetch users"

  predicate MissingRequired(b: UserBody) {
    FalsyText(b.name) || FalsyText(b.email) || FalsyText(b.role) || FalsyText(b.department)
  }

  function UserCreatedAt(u: User): int { u.createdAt }

  /** `GET /api/users`: every user exactly once, newest first. */
  function List(users: seq<User>, outage: bool): (r: Response)
    ensures outage ==> r == Response(500, Error(FetchFailedMessage))
    ensures !outage ==>
      && r.status == 200 && r.body.Users?
      && multiset(r.body.users) == multiset(users)
      && SortedDesc(r.body.users, UserCreatedAt)
  {
    if outage then Response(500, Error(FetchFailedMessage))
    else Response(200, Users(SortDesc(users, UserCreatedAt)))
  }

  /** The row a valid request would store. */
  function NewUser(b: UserBody, id: nat, now: nat): User
    requires !MissingRequired(b)
  {
    StoredUser(id, b.name.value, b.email.value, b.role.value, b.department.value, now)
  }

  /** The response of `POST /api/users` against the table `users`, given that
      the store would number the new row `id` and stamp it `now`. `request` is
      None when the body is not JSON, or is JSON `null` (destructuring it
      throws); any other JSON value is destructured, its missing fields absent.
      The insert fails with 500 when the sequence is exhausted. */
  function Create(users: seq<User>, request: Option<UserBody>, outage: bool, id: nat, now: nat)
    : (r: Response)
    ensures r.status in {201, 400, 409, 500}
    ensures r.status == 400 <==> request.Some? && MissingRequired(request.value)
    ensures r.status == 400 ==> r.body == Error(MissingMessage)
    ensures r.status == 409 <==>
      && request.Some? && !MissingRequired(request.value) && !outage && !Exhausted(id)
      && VarcharAccepts(request.value.name.value, UserNameMax)
      && VarcharAccepts(request.value.email.value, UserEmailMax)
      && VarcharAccepts(request.value.role.value, UserRoleMax)
      && VarcharAccepts(request.value.department.value, UserDepartmentMax)
      && exists u :: u in users && u.email == VarcharValue(request.value.email.value, UserEmailMax)
    ensures r.status == 409 ==> r.body == Error(DuplicateMessage)
    ensures r.status == 500 ==> r.body == Error(CreateFailedMessage)
    ensures r.status == 201 <==>
      && request.Some? && !MissingRequired(request.value) && !outage && !Exhausted(id)
      && CheckUserInsert(users, request.value.name.value, request.value.email.value,
                         request.value.role.value, request.value.department.value) == None
    ensures r.status == 201 ==>
      && (forall u :: u in users ==> u.email != VarcharValue(request.value.email.value, UserEmailMax))
      && r.body == UserCreated(StoredUser(id, request.value.name.value, request.value.email.value,
                                          request.value.role.value, request.value.department.value, now))
  {
    if request.None? then Response(500, Error(CreateFailedMessage))
    else if MissingRequired(request.value) then Response(400, Error(MissingMessage))
    else if outage || Exhausted(id) then Response(500, Error(CreateFailedMessage))
    else
      var b := request.value;
      match CheckUserInsert(users, b.name.value, b.email.value, b.role.value, b.department.value)
      case None => Response(201, UserCreated(NewUser(b, id, now)))
      case Some(f) => FailureResponse(f)
  }

  /** The catch block: 23505 is a conflict, anything else an internal error. */
  function FailureResponse(f: StoreFailure): (r: Response)
    ensures r.status == 409 <==> SqlState(f) == "23505"
    ensures r.body == Error(if r.status == 409 then DuplicateMessage else CreateFailedMessage)
    ensures r.status in {409, 500}
  {
    if f == UniqueViolation then Response(409, Error(DuplicateMessage))
    else Response(500, Error(CreateFailedMessage))
  }

  /** A valid request whose fields its columns accept conflicts exactly when
      its email, as the column stores it, is already taken, unless the
      sequence is exhausted. */
  lemma ConflictIffEmailTaken(users: seq<User>, b: UserBody, id: nat, now: nat)
    requires !MissingRequired(b)
    requires VarcharAccepts(b.name.value, UserNameMax) && VarcharAccepts(b.email.value, UserEmailMax)
    requires VarcharAccepts(b.role.value, UserRoleMax) && VarcharAccepts(b.department.value, UserDepartmentMax)
    ensures Exhausted(id) ==> Create(users, Some(b), false, id, now) == Response(500, Error(CreateFailedMessage))
    ensures !Exhausted(id) ==>
      (Create(users, Some(b), false, id, now).status == 409 <==>
       exists u :: u in users && u.email == VarcharValue(b.email.value, UserEmailMax))
    ensures !Exhausted(id) ==>
      (Create(users, Some(b), false, id, now).status == 201 <==>
       forall u :: u in users ==> u.email != VarcharValue(b.email.value, UserEmailMax))
  {
  }

  /** `POST /api/users`: validate, insert, map the outcome. */
  method Post(db: Database, request: Option<UserBody>, outage: bool) returns (resp: Response)
    requires db.Valid()
    modifies db
    ensures db.Valid()
    ensures resp == Create(old(db.users), request, outage, old(db.userSerial), old(db.clock))
    ensures db.users == if resp.status == 201 then old(db.users) + [resp.body.user] else old(db.users)
    ensures db.departments == old(db.departments) && db.projects == old(db.projects)
    ensures db.bookingAccounts == old(db.bookingAccounts)
    ensures db.departmentSerial == old(db.departmentSerial) && db.projectSerial == old(db.projectSerial)
    ensures db.accountSerial == old(db.accountSerial)
    ensures request.None? || MissingRequired(request.value) || outage || Exhausted(old(db.userSerial)) ==>
      db.userSerial == old(db.userSerial)
    ensures request.Some? && !MissingRequired(request.value) && !outage && !Exhausted(old(db.userSerial)) ==>
      db.userSerial == old(db.userSerial) + 1
    ensures db.clock == if resp.status == 201 then old(db.clock) + 1 else old(db.clock)
  {
    if request.None? {
      return Response(500, Error(CreateFailedMessage));
    }
    var b := request.value;
    if MissingRequired(b) {
      return Response(400, Error(MissingMessage));
    }
    var r := db.InsertUser(b.name.value, b.email.value, b.role.value, b.department.value, None, outage);
    match r
    case Success(row) => resp := Response(201, UserCreated(row));
    case Failure(f) => resp := FailureResponse(f);
  }

  /** Posting the same user twice (the second email may differ from the
      first by trailing spaces the column cuts off): the second post is a
      conflict, or an internal error if the first one took the sequence's
      last value. */
  lemma SecondPostWithSameEmailConflicts(users: seq<User>, b: UserBody, b': UserBody,
                                         id1: nat, now1: nat, id2: nat, now2: nat)
    requires Create(users, Some(b), false, id1, now1).status == 201
    requires !MissingRequired(b') && !MissingRequired(b)
    requires VarcharValue(b'.email.value, UserEmailMax) == VarcharValue(b.email.value, UserEmailMax)
    requires VarcharAccepts(b'.name.value, UserNameMax) && VarcharAccepts(b'.email.value, UserEmailMax)
    requires VarcharAccepts(b'.role.value, UserRoleMax) && VarcharAccepts(b'.department.value, UserDepartmentMax)
    ensures Create(users + [Create(users, Some(b), false, id1, now1).body.user], Some(b'), false, id2, now2)
            == if Exhausted(id2) then Response(500, Error(CreateFailedMessage))
               else Response(409, Error(DuplicateMessage))
  {
    var row := Create(users, Some(b), false, id1, now1).body.user;
    assert row in users + [row] && row.email == VarcharValue(b'.email.value, UserEmailMax);
    ConflictIffEmailTaken(users + [row], b', id2, now2);
  }
}
