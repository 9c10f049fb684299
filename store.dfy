/** An in-memory stand-in for the PostgreSQL database that `createTables`
    creates: four tables, one SERIAL counter per table, and a clock that
    stands in for CURRENT_TIMESTAMP. The constraints of the schema (unique
    names and emails, foreign keys, VARCHAR limits, INTEGER range) are the
    only reasons an insert fails, besides an outage of the connection and
    an exhausted sequence. */
module Store {
  import opened Schema

  /** The first row of `s` that satisfies `p`, if any. */
  function Find<T>(s: seq<T>, p: T -> bool): (r: Option<T>)
    ensures r.Some? ==> r.value in s && p(r.value)
    ensures r.None? <==> forall x :: x in s ==> !p(x)
  {
    if s == [] then None
    else if p(s[0]) then Some(s[0])
    else
      assert forall x :: x in s ==> x == s[0] || x in s[1..];
      Find(s[1..], p)
  }

  function UserId(u: User): int { u.id }
  function DepartmentId(d: Department): int { d.id }
  function ProjectId(p: Project): int { p.id }
  function AccountId(a: BookingAccount): int { a.id }
  function UserEmail(u: User): string { u.email }
  function DepartmentName(d: Department): string { d.name }

  /** SERIAL keys: positive, below the next value of the sequence, and
      strictly increasing in insertion order (so pairwise distinct). */
  ghost predicate SerialKeys<T>(s: seq<T>, id: T -> int, next: nat) {
    && (forall i {:trigger id(s[i])} :: 0 <= i < |s| ==> 1 <= id(s[i]) < next)
    && (forall i, j {:trigger id(s[i]), id(s[j])} :: 0 <= i < j < |s| ==> id(s[i]) < id(s[j]))
  }

  /** A SERIAL column is fed by an INTEGER sequence: once it has handed out
      2147483647, `nextval` fails, and with it every insert into the table. */
  predicate Exhausted(next: nat) {
    next > Int32Max
  }

  /** No two rows share an id. */
  ghost predicate DistinctIds<T>(s: seq<T>, id: T -> int) {
    forall i, j {:trigger id(s[i]), id(s[j])} :: 0 <= i < j < |s| ==> id(s[i]) != id(s[j])
  }

  /** Two positions holding the same id are one position. */
  lemma SameIdSamePosition<T>(s: seq<T>, id: T -> int, i: nat, j: nat)
    requires DistinctIds(s, id) && i < |s| && j < |s| && id(s[i]) == id(s[j])
    ensures i == j
  {
  }

  lemma SerialKeysDistinct<T>(s: seq<T>, id: T -> int, next: nat)
    requires SerialKeys(s, id, next)
    ensures DistinctIds(s, id)
  {
    forall i, j | 0 <= i < j < |s| ensures id(s[i]) != id(s[j]) {
      assert id(s[i]) < id(s[j]);
    }
  }

  /** A UNIQUE column: no two rows share `key`. */
  ghost predicate UniqueKey<T>(s: seq<T>, key: T -> string) {
    forall i, j {:trigger key(s[i]), key(s[j])} :: 0 <= i < j < |s| ==> key(s[i]) != key(s[j])
  }

  lemma SerialKeysAppend<T>(s: seq<T>, id: T -> int, next: nat, x: T)
    requires SerialKeys(s, id, next) && 1 <= next && id(x) == next
    ensures SerialKeys(s + [x], id, next + 1)
  {
    var t := s + [x];
    forall i, j | 0 <= i < j < |t| ensures id(t[i]) < id(t[j]) {
      if j < |s| { assert t[i] == s[i] && t[j] == s[j]; } else { assert t[i] == s[i]; }
    }
  }

  lemma SerialKeysBump<T>(s: seq<T>, id: T -> int, next: nat)
    requires SerialKeys(s, id, next)
    ensures SerialKeys(s, id, next + 1)
  {
  }

  /** In a list whose ids are distinct, each row occurs once. */
  lemma {:induction false} OccursOnce<T>(s: seq<T>, id: T -> int, k: nat)
    requires DistinctIds(s, id) && k < |s|
    ensures multiset(s)[s[k]] == 1
  {
    var x := s[k];
    assert s == s[..k] + [x] + s[k+1..];
    var head, tail := s[..k], s[k+1..];
    forall m | 0 <= m < |head| ensures head[m] != x {
      assert id(s[m]) != id(s[k]);
    }
    forall m | 0 <= m < |tail| ensures tail[m] != x {
      assert tail[m] == s[k + 1 + m] && id(s[k]) != id(s[k + 1 + m]);
    }
    assert x !in head && x !in tail;
  }

  lemma UniqueKeyAppend<T>(s: seq<T>, key: T -> string, x: T)
    requires UniqueKey(s, key)
    requires forall y :: y in s ==> key(y) != key(x)
    ensures UniqueKey(s + [x], key)
  {
    var t := s + [x];
    forall i, j | 0 <= i < j < |t| ensures key(t[i]) != key(t[j]) {
      assert t[i] == s[i];
      if j < |s| { assert t[j] == s[j]; } else { assert t[i] in s; }
    }
  }

  predicate HasDepartment(ds: seq<Department>, id: int) {
    exists d :: d in ds && d.id == id
  }

  predicate HasProject(ps: seq<Project>, id: int) {
    exists p :: p in ps && p.id == id
  }

  /** The row an accepted INSERT INTO users stores: every VARCHAR value as
      its column keeps it. */
  function StoredUser(id: nat, name: string, email: string, role: string, department: string,
                      createdAt: nat): User
  {
    User(id, VarcharValue(name, UserNameMax), VarcharValue(email, UserEmailMax),
         VarcharValue(role, UserRoleMax), VarcharValue(department, UserDepartmentMax), createdAt)
  }

  function StoredDepartment(id: nat, name: string, description: Option<string>, createdAt: nat): Department {
    Department(id, VarcharValue(name, DepartmentNameMax), description, createdAt)
  }

  function StoredProject(id: nat, name: string, customerName: string, description: Option<string>,
                         departmentId: int, createdAt: nat): Project
  {
    Project(id, VarcharValue(name, ProjectNameMax), VarcharValue(customerName, ProjectCustomerMax),
            description, departmentId, createdAt)
  }

  function StoredAccount(id: nat, name: string, description: Option<string>, projectId: int,
                         createdAt: nat): BookingAccount
  {
    BookingAccount(id, VarcharValue(name, AccountNameMax), description, projectId, createdAt)
  }

  /** The constraint an INSERT INTO users would break, if any. A value too
      long for its column is refused first; the UNIQUE test compares the
      email as the column would store it. */
  function CheckUserInsert(users: seq<User>, name: string, email: string, role: string, department: string)
    : (r: Option<StoreFailure>)
    ensures r == None <==>
      && VarcharAccepts(name, UserNameMax) && VarcharAccepts(email, UserEmailMax)
      && VarcharAccepts(role, UserRoleMax) && VarcharAccepts(department, UserDepartmentMax)
      && forall u :: u in users ==> u.email != VarcharValue(email, UserEmailMax)
    ensures r == Some(UniqueViolation) <==>
      && VarcharAccepts(name, UserNameMax) && VarcharAccepts(email, UserEmailMax)
      && VarcharAccepts(role, UserRoleMax) && VarcharAccepts(department, UserDepartmentMax)
      && exists u :: u in users && u.email == VarcharValue(email, UserEmailMax)
    ensures r != Some(ForeignKeyViolation)
  {
    if !(VarcharAccepts(name, UserNameMax) && VarcharAccepts(email, UserEmailMax)
         && VarcharAccepts(role, UserRoleMax) && VarcharAccepts(department, UserDepartmentMax))
    then Some(OtherFault)
    else if Find(users, (u: User) => u.email == VarcharValue(email, UserEmailMax)).Some? then Some(UniqueViolation)
    else None
  }

  /** The constraint an INSERT INTO departments would break, if any; the
      UNIQUE test compares the name as stored. */
  function CheckDepartmentInsert(departments: seq<Department>, name: string): (r: Option<StoreFailure>)
    ensures r == None <==>
      && VarcharAccepts(name, DepartmentNameMax)
      && forall d :: d in departments ==> d.name != VarcharValue(name, DepartmentNameMax)
    ensures r == Some(UniqueViolation) <==>
      && VarcharAccepts(name, DepartmentNameMax)
      && exists d :: d in departments && d.name == VarcharValue(name, DepartmentNameMax)
    ensures r != Some(ForeignKeyViolation)
  {
    if !VarcharAccepts(name, DepartmentNameMax) then Some(OtherFault)
    else if Find(departments, (d: Department) => d.name == VarcharValue(name, DepartmentNameMax)).Some? then
      Some(UniqueViolation)
    else None
  }

  /** The constraint an INSERT INTO projects would break, if any. */
  function CheckProjectInsert(departments: seq<Department>, name: string, customerName: string, departmentId: int)
    : (r: Option<StoreFailure>)
    ensures r == None <==>
      && VarcharAccepts(name, ProjectNameMax) && VarcharAccepts(customerName, ProjectCustomerMax)
      && FitsInt32(departmentId) && HasDepartment(departments, departmentId)
    ensures r == Some(ForeignKeyViolation) <==>
      && VarcharAccepts(name, ProjectNameMax) && VarcharAccepts(customerName, ProjectCustomerMax)
      && FitsInt32(departmentId) && !HasDepartment(departments, departmentId)
    ensures r != Some(UniqueViolation)
  {
    if !(VarcharAccepts(name, ProjectNameMax) && VarcharAccepts(customerName, ProjectCustomerMax)
         && FitsInt32(departmentId))
    then Some(OtherFault)
    else if Find(departments, (d: Department) => d.id == departmentId).None? then Some(ForeignKeyViolation)
    else None
  }

  /** The constraint an INSERT INTO booking_accounts would break, if any. */
  function CheckAccountInsert(projects: seq<Project>, name: string, projectId: int): (r: Option<StoreFailure>)
    ensures r == None <==>
      VarcharAccepts(name, AccountNameMax) && FitsInt32(projectId) && HasProject(projects, projectId)
    ensures r == Some(ForeignKeyViolation) <==>
      VarcharAccepts(name, AccountNameMax) && FitsInt32(projectId) && !HasProject(projects, projectId)
    ensures r != Some(UniqueViolation)
  {
    if !(VarcharAccepts(name, AccountNameMax) && FitsInt32(projectId)) then Some(OtherFault)
    else if Find(projects, (p: Project) => p.id == projectId).None? then Some(ForeignKeyViolation)
    else None
  }

  class Database {
    var users: seq<User>
    var departments: seq<Department>
    var projects: seq<Project>
    var bookingAccounts: seq<BookingAccount>
    /** Next value of each table's SERIAL sequence; past 2147483647 the
        sequence is exhausted. */
    var userSerial: nat
    var departmentSerial: nat
    var projectSerial: nat
    var accountSerial: nat
    /** Stand-in for CURRENT_TIMESTAMP: advances with every stored row. */
    var clock: nat

    /** The constraints of the schema. */
    ghost predicate Valid()
      reads this
    {
      && 1 <= userSerial <= Int32Max + 1 && 1 <= departmentSerial <= Int32Max + 1
      && 1 <= projectSerial <= Int32Max + 1 && 1 <= accountSerial <= Int32Max + 1
      && SerialKeys(users, UserId, userSerial)
      && SerialKeys(departments, DepartmentId, departmentSerial)
      && SerialKeys(projects, ProjectId, projectSerial)
      && SerialKeys(bookingAccounts, AccountId, accountSerial)
      && UniqueKey(users, UserEmail)
      && UniqueKey(departments, DepartmentName)
      && (forall p :: p in projects ==> HasDepartment(departments, p.departmentId))
      && (forall a :: a in bookingAccounts ==> HasProject(projects, a.projectId))
    }

    /** A freshly created, empty schema. */
    constructor ()
      ensures Valid()
      ensures users == [] && departments == [] && projects == [] && bookingAccounts == []
      ensures userSerial == 1 && departmentSerial == 1 && projectSerial == 1 && accountSerial == 1
      ensures clock == 0
    {
      users, departments, projects, bookingAccounts := [], [], [], [];
      userSerial, departmentSerial, projectSerial, accountSerial := 1, 1, 1, 1;
      clock := 0;
    }

    /** `INSERT INTO users (...) RETURNING *`. `createdAt` is the explicit
        timestamp the seeder supplies, or None for the column default. An
        exhausted sequence fails the statement before anything is stored;
        otherwise the sequence value is consumed by every attempt, also one
        that a constraint then refuses. */
    method InsertUser(name: string, email: string, role: string, department: string,
                      createdAt: Option<nat>, outage: bool)
      returns (r: Result<User, StoreFailure>)
      requires Valid()
      modifies this
      ensures Valid()
      ensures departments == old(departments) && projects == old(projects)
      ensures bookingAccounts == old(bookingAccounts)
      ensures departmentSerial == old(departmentSerial) && projectSerial == old(projectSerial)
      ensures accountSerial == old(accountSerial)
      ensures outage || Exhausted(old(userSerial)) ==>
        r == Failure(OtherFault) && users == old(users) && userSerial == old(userSerial) && clock == old(clock)
      ensures !outage && !Exhausted(old(userSerial)) ==> userSerial == old(userSerial) + 1
      ensures !outage && !Exhausted(old(userSerial)) ==>
        r == match CheckUserInsert(old(users), name, email, role, department)
             case Some(f) => Failure(f)
             case None => Success(StoredUser(old(userSerial), name, email, role, department,
                                             if createdAt.Some? then createdAt.value else old(clock)))
      ensures users == if r.Success? then old(users) + [r.value] else old(users)
      ensures clock == if r.Success? then old(clock) + 1 else old(clock)
    {
      if outage || Exhausted(userSerial) {
        return Failure(OtherFault);
      }
      var id := userSerial;
      userSerial := userSerial + 1;
      SerialKeysBump(users, UserId, id);
      var check := CheckUserInsert(users, name, email, role, department);
      if check.Some? {
        return Failure(check.value);
      }
      var row := StoredUser(id, name, email, role, department,
                            if createdAt.Some? then createdAt.value else clock);
      SerialKeysAppend(users, UserId, id, row);
      UniqueKeyAppend(users, UserEmail, row);
      users := users + [row];
      clock := clock + 1;
      r := Success(row);
    }

    /** `INSERT INTO departments (name, description) RETURNING *`. */
    method InsertDepartment(name: string, description: Option<string>, outage: bool)
      returns (r: Result<Department, StoreFailure>)
      requires Valid()
      modifies this
      ensures Valid()
      ensures users == old(users) && projects == old(projects)
      ensures bookingAccounts == old(bookingAccounts)
      ensures userSerial == old(userSerial) && projectSerial == old(projectSerial)
      ensures accountSerial == old(accountSerial)
      ensures outage || Exhausted(old(departmentSerial)) ==>
        && r == Failure(OtherFault) && departments == old(departments)
        && departmentSerial == old(departmentSerial) && clock == old(clock)
      ensures !outage && !Exhausted(old(departmentSerial)) ==> departmentSerial == old(departmentSerial) + 1
      ensures !outage && !Exhausted(old(departmentSerial)) ==>
        r == match CheckDepartmentInsert(old(departments), name)
             case Some(f) => Failure(f)
             case None => Success(StoredDepartment(old(departmentSerial), name, description, old(clock)))
      ensures departments == if r.Success? then old(departments) + [r.value] else old(departments)
      ensures clock == if r.Success? then old(clock) + 1 else old(clock)
    {
      if outage || Exhausted(departmentSerial) {
        return Failure(OtherFault);
      }
      var id := departmentSerial;
      departmentSerial := departmentSerial + 1;
      SerialKeysBump(departments, DepartmentId, id);
      var check := CheckDepartmentInsert(departments, name);
      if check.Some? {
        return Failure(check.value);
      }
      var row := StoredDepartment(id, name, description, clock);
      SerialKeysAppend(departments, DepartmentId, id, row);
      UniqueKeyAppend(departments, DepartmentName, row);
      forall p | p in projects ensures HasDepartment(departments + [row], p.departmentId) {
        var d :| d in departments && d.id == p.departmentId;
        assert d in departments + [row];
      }
      departments := departments + [row];
      clock := clock + 1;
      r := Success(row);
    }

    /** `INSERT INTO projects (...) RETURNING *`; the foreign key is checked
        here. A `department_id` outside the INTEGER range is refused when the
        parameters are bound, before the sequence is consulted. */
    method InsertProject(name: string, customerName: string, description: Option<string>,
                         departmentId: int, outage: bool)
      returns (r: Result<Project, StoreFailure>)
      requires Valid()
      modifies this
      ensures Valid()
      ensures users == old(users) && departments == old(departments)
      ensures bookingAccounts == old(bookingAccounts)
      ensures userSerial == old(userSerial) && departmentSerial == old(departmentSerial)
      ensures accountSerial == old(accountSerial)
      ensures outage || !FitsInt32(departmentId) || Exhausted(old(projectSerial)) ==>
        && r == Failure(OtherFault) && projects == old(projects)
        && projectSerial == old(projectSerial) && clock == old(clock)
      ensures !outage && FitsInt32(departmentId) && !Exhausted(old(projectSerial)) ==>
        projectSerial == old(projectSerial) + 1
      ensures !outage && !Exhausted(old(projectSerial)) ==>
        r == match CheckProjectInsert(old(departments), name, customerName, departmentId)
             case Some(f) => Failure(f)
             case None => Success(StoredProject(old(projectSerial), name, customerName, description,
                                                departmentId, old(clock)))
      ensures projects == if r.Success? then old(projects) + [r.value] else old(projects)
      ensures clock == if r.Success? then old(clock) + 1 else old(clock)
    {
      if outage || !FitsInt32(departmentId) || Exhausted(projectSerial) {
        return Failure(OtherFault);
      }
      var id := projectSerial;
      projectSerial := projectSerial + 1;
      SerialKeysBump(projects, ProjectId, id);
      var check := CheckProjectInsert(departments, name, customerName, departmentId);
      if check.Some? {
        return Failure(check.value);
      }
      var row := StoredProject(id, name, customerName, description, departmentId, clock);
      SerialKeysAppend(projects, ProjectId, id, row);
      forall a | a in bookingAccounts ensures HasProject(projects + [row], a.projectId) {
        var q :| q in projects && q.id == a.projectId;
        assert q in projects + [row];
      }
      projects := projects + [row];
      clock := clock + 1;
      r := Success(row);
    }

    /** `INSERT INTO booking_accounts (...) RETURNING *`; the foreign key is
        checked here, and a `project_id` outside the INTEGER range is refused
        when the parameters are bound. */
    method InsertBookingAccount(name: string, description: Option<string>, projectId: int, outage: bool)
      returns (r: Result<BookingAccount, StoreFailure>)
      requires Valid()
      modifies this
      ensures Valid()
      ensures users == old(users) && departments == old(departments) && projects == old(projects)
      ensures userSerial == old(userSerial) && departmentSerial == old(departmentSerial)
      ensures projectSerial == old(projectSerial)
      ensures outage || !FitsInt32(projectId) || Exhausted(old(accountSerial)) ==>
        && r == Failure(OtherFault) && bookingAccounts == old(bookingAccounts)
        && accountSerial == old(accountSerial) && clock == old(clock)
      ensures !outage && FitsInt32(projectId) && !Exhausted(old(accountSerial)) ==>
        accountSerial == old(accountSerial) + 1
      ensures !outage && !Exhausted(old(accountSerial)) ==>
        r == match CheckAccountInsert(old(projects), name, projectId)
             case Some(f) => Failure(f)
             case None => Success(StoredAccount(old(accountSerial), name, description, projectId, old(clock)))
      ensures bookingAccounts == if r.Success? then old(bookingAccounts) + [r.value] else old(bookingAccounts)
      ensures clock == if r.Success? then old(clock) + 1 else old(clock)
    {
      if outage || !FitsInt32(projectId) || Exhausted(accountSerial) {
        return Failure(OtherFault);
      }
      var id := accountSerial;
      accountSerial := accountSerial + 1;
      SerialKeysBump(bookingAccounts, AccountId, id);
      var check := CheckAccountInsert(projects, name, projectId);
      if check.Some? {
        return Failure(check.value);
      }
      var row := StoredAccount(id, name, description, projectId, clock);
      SerialKeysAppend(bookingAccounts, AccountId, id, row);
      bookingAccounts := bookingAccounts + [row];
      clock := clock + 1;
      r := Success(row);
    }

    /** `DELETE FROM booking_accounts`. Sequences are not reset. */
    method ClearBookingAccounts()
      requires Valid()
      modifies this
      ensures Valid()
      ensures bookingAccounts == []
      ensures users == old(users) && departments == old(departments) && projects == old(projects)
      ensures userSerial == old(userSerial) && departmentSerial == old(departmentSerial)
      ensures projectSerial == old(projectSerial) && accountSerial == old(accountSerial)
      ensures clock == old(clock)
    {
      bookingAccounts := [];
    }

    /** `DELETE FROM projects`; ON DELETE CASCADE removes every booking
        account, since each one references a project. */
    method ClearProjects()
      requires Valid()
      modifies this
      ensures Valid()
      ensures projects == [] && bookingAccounts == []
      ensures users == old(users) && departments == old(departments)
      ensures userSerial == old(userSerial) && departmentSerial == old(departmentSerial)
      ensures projectSerial == old(projectSerial) && accountSerial == old(accountSerial)
      ensures clock == old(clock)
    {
      projects := [];
      bookingAccounts := [];
    }

    /** `DELETE FROM departments`; ON DELETE CASCADE removes every project,
        and through them every booking account. */
    method ClearDepartments()
      requires Valid()
      modifies this
      ensures Valid()
      ensures departments == [] && projects == [] && bookingAccounts == []
      ensures users == old(users)
      ensures userSerial == old(userSerial) && departmentSerial == old(departmentSerial)
      ensures projectSerial == old(projectSerial) && accountSerial == old(accountSerial)
      ensures clock == old(clock)
    {
      departments := [];
      projects := [];
      bookingAccounts := [];
    }

    /** `DELETE FROM users`. */
    method ClearUsers()
      requires Valid()
      modifies this
      ensures Valid()
      ensures users == []
      ensures departments == old(departments) && projects == old(projects)
      ensures bookingAccounts == old(bookingAccounts)
      ensures userSerial == old(userSerial) && departmentSerial == old(departmentSerial)
      ensures projectSerial == old(projectSerial) && accountSerial == old(accountSerial)
      ensures clock == old(clock)
    {
      users := [];
    }
  }
}
