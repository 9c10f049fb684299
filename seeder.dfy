/** `seed-database.js`: clear the four tables children-first, then insert the
    sample departments, projects, five booking accounts per project, and
    users, in that order. */
module Seeder {
  import opened Schema
  import opened Store

  datatype SeedDepartment = SeedDepartment(name: string, description: string)
  datatype SeedProject = SeedProject(name: string, customerName: string, description: string, departmentId: int)
  datatype SeedUser = SeedUser(name: string, email: string, role: string, department: string)

  const Departments: seq<SeedDepartment> := [
    SeedDepartment("IoT Solutions", "Internet of Things development and consulting"),
    SeedDepartment("Industry 4.0", "Industrial automation and digitalization"),
    SeedDepartment("App Development", "Mobile and web application development"),
    SeedDepartment("DevOps & Cloud", "DevOps practices and cloud infrastructure"),
    SeedDepartment("Data Analytics", "Business intelligence and data science")
  ]

  /** Each project names its department by a literal id, 1 to 5. */
  const Projects: seq<SeedProject> := [
    SeedProject("BMW Connected Car Platform", "BMW AG", "IoT platform for connected vehicles", 1),
    SeedProject("Mercedes Production Line Optimization", "Mercedes-Benz AG", "Industry 4.0 solution for production efficiency", 2),
    SeedProject("Siemens Mobile Workforce App", "Siemens AG", "Mobile app for field technicians", 3),
    SeedProject("Volkswagen CI/CD Pipeline", "Volkswagen AG", "DevOps automation for software delivery", 4),
    SeedProject("Bosch Production Analytics", "Robert Bosch GmbH", "Data analytics for manufacturing insights", 5),
    SeedProject("BASF Smart Factory Initiative", "BASF SE", "IoT sensors and monitoring systems", 1),
    SeedProject("SAP Digital Twin Platform", "SAP SE", "Digital twin implementation for Industry 4.0", 2),
    SeedProject("Adidas E-Commerce Portal", "Adidas AG", "Next-generation shopping experience", 3),
    SeedProject("Deutsche Bank Cloud Migration", "Deutsche Bank AG", "Cloud infrastructure modernization", 4),
    SeedProject("Bayer Research Data Platform", "Bayer AG", "Advanced analytics for pharmaceutical research", 5)
  ]

  const AccountNames: seq<string> := [
    "Scrum Meetings", "Refinement Sessions", "Development Work", "Business Analysis", "Quality Assurance"
  ]

  const Users: seq<SeedUser> := [
    SeedUser("John Doe", "john.doe@example.com", "developer", "engineering"),
    SeedUser("Jane Smith", "jane.smith@example.com", "designer", "design"),
    SeedUser("Mike Johnson", "mike.johnson@example.com", "manager", "engineering"),
    SeedUser("Sarah Wilson", "sarah.wilson@example.com", "analyst", "business"),
    SeedUser("David Brown", "david.brown@example.com", "developer", "engineering"),
    SeedUser("Emily Davis", "emily.davis@example.com", "tester", "quality assurance"),
    SeedUser("Chris Miller", "chris.miller@example.com", "developer", "engineering"),
    SeedUser("Lisa Garcia", "lisa.garcia@example.com", "designer", "design")
  ]

  function AccountDescription(name: string): (r: string)
    ensures |r| == |name| + 23 && r[..|name|] == name && r[|name|..] == " activities for project"
  {
    name + " activities for project"
  }

  /** What a booking account is, apart from its id and timestamp. */
  datatype AccountShape = AccountShape(name: string, description: Option<string>, projectId: int)

  function Shape(a: BookingAccount): AccountShape {
    AccountShape(a.name, a.description, a.projectId)
  }

  function Shapes(s: seq<BookingAccount>): seq<AccountShape> {
    seq(|s|, k requires 0 <= k < |s| => Shape(s[k]))
  }

  lemma ShapesAppend(s: seq<BookingAccount>, a: BookingAccount)
    ensures Shapes(s + [a]) == Shapes(s) + [Shape(a)]
  {
  }

  /** The accounts one project receives: one per name, in order. */
  function AccountsOf(projectId: int, names: seq<string>): seq<AccountShape> {
    seq(|names|, k requires 0 <= k < |names| =>
      AccountShape(names[k], Some(AccountDescription(names[k])), projectId))
  }

  lemma AccountsStep(start: seq<BookingAccount>, before: seq<BookingAccount>, row: BookingAccount,
                     projectId: int, names: seq<string>, a: nat)
    requires a < |names|
    requires Shapes(before) == Shapes(start) + AccountsOf(projectId, names)[..a]
    requires Shape(row) == AccountShape(names[a], Some(AccountDescription(names[a])), projectId)
    ensures Shapes(before + [row]) == Shapes(start) + AccountsOf(projectId, names)[..a + 1]
  {
    ShapesAppend(before, row);
    AccountsOfStep(projectId, names, a);
  }

  lemma AccountsOfStep(projectId: int, names: seq<string>, a: nat)
    requires a < |names|
    ensures AccountsOf(projectId, names)[..a + 1] ==
      AccountsOf(projectId, names)[..a] + [AccountShape(names[a], Some(AccountDescription(names[a])), projectId)]
  {
  }

  /** The accounts of the nested loop, project after project. */
  function SeededAccounts(projectIds: seq<int>, names: seq<string>): seq<AccountShape> {
    if projectIds == [] then []
    else SeededAccounts(projectIds[..|projectIds| - 1], names) + AccountsOf(projectIds[|projectIds| - 1], names)
  }

  lemma SeededAccountsStep(projectIds: seq<int>, names: seq<string>, i: nat)
    requires i < |projectIds|
    ensures SeededAccounts(projectIds[..i + 1], names) ==
      SeededAccounts(projectIds[..i], names) + AccountsOf(projectIds[i], names)
  {
    assert projectIds[..i + 1][..i] == projectIds[..i];
  }

  lemma {:induction false} SeededAccountsLength(projectIds: seq<int>, names: seq<string>)
    ensures |SeededAccounts(projectIds, names)| == |names| * |projectIds|
  {
    if projectIds != [] {
      var n := |projectIds|;
      SeededAccountsLength(projectIds[..n - 1], names);
      assert |names| * n == |names| * (n - 1) + |names|;
    }
  }

  /** Account `a` of project `i` sits at position `|names| * i + a` of the
      nested loop's output: every project receives one account per name. */
  lemma {:induction false} SeededAccountsAt(projectIds: seq<int>, names: seq<string>, i: nat, a: nat)
    requires i < |projectIds| && a < |names|
    ensures |SeededAccounts(projectIds, names)| == |names| * |projectIds|
    ensures |names| * i + a < |names| * |projectIds|
    ensures SeededAccounts(projectIds, names)[|names| * i + a] ==
      AccountShape(names[a], Some(AccountDescription(names[a])), projectIds[i])
  {
    var n, m := |projectIds|, |names|;
    var init := projectIds[..n - 1];
    SeededAccountsLength(projectIds, names);
    SeededAccountsLength(init, names);
    assert m * (i + 1) <= m * n by {
      MulMonotone(m, i + 1, n);
    }
    if i < n - 1 {
      assert m * (i + 1) <= m * (n - 1) by {
        MulMonotone(m, i + 1, n - 1);
      }
      SeededAccountsAt(init, names, i, a);
    } else {
      assert m * i == m * (n - 1);
    }
  }

  lemma MulMonotone(m: nat, x: nat, y: nat)
    requires x <= y
    ensures m * x <= m * y
  {
  }

  /** A prefix one longer is the prefix followed by the next element. */
  lemma PrefixGrows<T>(s: seq<T>, k: nat)
    requires k < |s|
    ensures s[..k + 1] == s[..k] + [s[k]]
  {
  }

  /** The ids a SERIAL sequence hands out from `first` on. */
  function Serials(first: nat, n: nat): seq<int> {
    seq(n, k requires 0 <= k < n => first + k)
  }

  /** The department rows the first loop stores. */
  function DepartmentRows(samples: seq<SeedDepartment>, firstId: nat, firstTime: nat): seq<Department> {
    seq(|samples|, k requires 0 <= k < |samples| =>
      Department(firstId + k, samples[k].name, Some(samples[k].description), firstTime + k))
  }

  /** The project rows the second loop stores. */
  function ProjectRows(samples: seq<SeedProject>, firstId: nat, firstTime: nat): seq<Project> {
    seq(|samples|, k requires 0 <= k < |samples| =>
      Project(firstId + k, samples[k].name, samples[k].customerName, Some(samples[k].description),
              samples[k].departmentId, firstTime + k))
  }

  /** The user rows the last loop stores, all stamped with one timestamp. */
  function UserRows(samples: seq<SeedUser>, firstId: nat, createdAt: nat): seq<User> {
    seq(|samples|, k requires 0 <= k < |samples| =>
      User(firstId + k, samples[k].name, samples[k].email, samples[k].role, samples[k].department, createdAt))
  }

  /** Sample departments the schema accepts: unique names within VARCHAR(100). */
  predicate DepartmentSamplesFit(samples: seq<SeedDepartment>) {
    && (forall i, j :: 0 <= i < j < |samples| ==> samples[i].name != samples[j].name)
    && (forall i :: 0 <= i < |samples| ==> FitsVarchar(samples[i].name, DepartmentNameMax))
  }

  /** Sample projects whose columns fit the schema (the reference aside). */
  predicate ProjectSamplesFit(samples: seq<SeedProject>) {
    forall i :: 0 <= i < |samples| ==>
      && FitsVarchar(samples[i].name, ProjectNameMax)
      && FitsVarchar(samples[i].customerName, ProjectCustomerMax)
      && FitsInt32(samples[i].departmentId)
  }

  predicate AccountNamesFit(names: seq<string>) {
    forall i :: 0 <= i < |names| ==> FitsVarchar(names[i], AccountNameMax)
  }

  /** Sample users the schema accepts: unique emails, columns within their limits. */
  predicate UserSamplesFit(samples: seq<SeedUser>) {
    && (forall i, j :: 0 <= i < j < |samples| ==> samples[i].email != samples[j].email)
    && (forall i :: 0 <= i < |samples| ==>
          && FitsVarchar(samples[i].name, UserNameMax) && FitsVarchar(samples[i].email, UserEmailMax)
          && FitsVarchar(samples[i].role, UserRoleMax) && FitsVarchar(samples[i].department, UserDepartmentMax))
  }

  /** The sample departments have distinct names that fit their column. */
  lemma SampleDepartmentsFit()
    ensures DepartmentSamplesFit(Departments)
  {
  }

  /** The sample projects fit their columns and reference departments 1 to 5
      by literal id, the first of them department 1. */
  lemma SampleProjectsFit()
    ensures ProjectSamplesFit(Projects)
    ensures forall i :: 0 <= i < |Projects| ==> 1 <= Projects[i].departmentId <= |Departments|
    ensures Projects[0].departmentId == 1
  {
  }

  lemma SampleAccountNamesFit()
    ensures AccountNamesFit(AccountNames)
  {
  }

  /** The sample users have distinct emails and fit their columns. */
  lemma SampleUsersFit()
    ensures UserSamplesFit(Users)
  {
    SampleEmailsDistinct();
    SampleUserColumnsFit();
  }

  lemma SampleEmailsDistinct()
    ensures forall i, j :: 0 <= i < j < |Users| ==> Users[i].email != Users[j].email
  {
  }

  lemma SampleUserColumnsFit()
    ensures forall i :: 0 <= i < |Users| ==>
          && FitsVarchar(Users[i].name, UserNameMax) && FitsVarchar(Users[i].email, UserEmailMax)
          && FitsVarchar(Users[i].role, UserRoleMax) && FitsVarchar(Users[i].department, UserDepartmentMax)
  {
  }

  /** The rows of the first loop carry the consecutive ids of the sequence,
      so a department id is present exactly when it lies in that range. */
  lemma DepartmentRowsHave(samples: seq<SeedDepartment>, firstId: nat, firstTime: nat, id: int)
    ensures HasDepartment(DepartmentRows(samples, firstId, firstTime), id) <==>
      firstId <= id < firstId + |samples|
  {
    var rows := DepartmentRows(samples, firstId, firstTime);
    if firstId <= id < firstId + |samples| {
      assert rows[id - firstId].id == id;
    }
  }

  /** Every id the second loop collects names one of its stored rows. */
  lemma ProjectRowsHave(samples: seq<SeedProject>, firstId: nat, firstTime: nat)
    ensures forall k :: 0 <= k < |samples| ==>
      HasProject(ProjectRows(samples, firstId, firstTime), Serials(firstId, |samples|)[k])
  {
    var rows := ProjectRows(samples, firstId, firstTime);
    forall k | 0 <= k < |samples| ensures HasProject(rows, Serials(firstId, |samples|)[k]) {
      assert rows[k] in rows;
    }
  }

  /** Inserting sample department d after the first d never breaks a constraint. */
  lemma DepartmentInsertAccepted(samples: seq<SeedDepartment>, first: nat, t0: nat, d: nat)
    requires DepartmentSamplesFit(samples) && d < |samples|
    ensures CheckDepartmentInsert(DepartmentRows(samples, first, t0)[..d], samples[d].name) == None
  {
    var rows := DepartmentRows(samples, first, t0)[..d];
    forall x | x in rows ensures x.name != samples[d].name {
      var k :| 0 <= k < d && rows[k] == x;
    }
  }

  /** Inserting user u after the first u never breaks a constraint. */
  lemma UserInsertAccepted(samples: seq<SeedUser>, first: nat, createdAt: nat, u: nat)
    requires UserSamplesFit(samples) && u < |samples|
    ensures CheckUserInsert(UserRows(samples, first, createdAt)[..u], samples[u].name, samples[u].email,
                            samples[u].role, samples[u].department) == None
  {
    var rows := UserRows(samples, first, createdAt)[..u];
    forall x | x in rows ensures x.email != samples[u].email {
      var k :| 0 <= k < u && rows[k] == x;
    }
  }

  datatype SeedOutcome =
    | Completed(departments: nat, projects: nat, bookingAccounts: nat, users: nat)
    | Aborted(failure: StoreFailure)

  /** Whether a sequence whose next value is `next` can number `n` more rows. */
  predicate HasRoom(next: nat, n: nat) {
    next + n <= Int32Max + 1
  }

  /** How many of `n` inserts in a row the sequence at `next` numbers before
      it is exhausted. */
  function Numbered(next: nat, n: nat): nat
    requires next <= Int32Max + 1
  {
    if HasRoom(next, n) then n else Int32Max + 1 - next
  }

  /** The first loop: one department per sample, its returned id collected.
      An exhausted sequence fails the insert, and the run with it. */
  method InsertDepartments(db: Database, samples: seq<SeedDepartment>)
    returns (failure: Option<StoreFailure>, departmentIds: seq<int>)
    requires db.Valid() && db.departments == [] && DepartmentSamplesFit(samples)
    modifies db
    ensures db.Valid()
    ensures failure.None? <==> HasRoom(old(db.departmentSerial), |samples|)
    ensures failure.Some? ==> failure.value == OtherFault
    ensures |departmentIds| == Numbered(old(db.departmentSerial), |samples|)
    ensures db.departments == DepartmentRows(samples, old(db.departmentSerial), old(db.clock))[..|departmentIds|]
    ensures departmentIds == Serials(old(db.departmentSerial), |samples|)[..|departmentIds|]
    ensures db.departmentSerial == old(db.departmentSerial) + |departmentIds|
    ensures db.clock == old(db.clock) + |departmentIds|
    ensures db.users == old(db.users) && db.projects == old(db.projects)
    ensures db.bookingAccounts == old(db.bookingAccounts)
    ensures db.userSerial == old(db.userSerial) && db.projectSerial == old(db.projectSerial)
    ensures db.accountSerial == old(db.accountSerial)
  {
    ghost var rows := DepartmentRows(samples, db.departmentSerial, db.clock);
    ghost var ids := Serials(db.departmentSerial, |samples|);
    ghost var first, t0 := db.departmentSerial, db.clock;
    departmentIds := [];
    var d := 0;
    while d < |samples|
      invariant 0 <= d <= |samples| && |departmentIds| == d
      invariant db.Valid()
      invariant db.departments == rows[..d] && departmentIds == ids[..d]
      invariant db.departmentSerial == first + d && db.clock == t0 + d
      invariant db.users == old(db.users) && db.projects == old(db.projects)
      invariant db.bookingAccounts == old(db.bookingAccounts)
      invariant db.userSerial == old(db.userSerial) && db.projectSerial == old(db.projectSerial)
      invariant db.accountSerial == old(db.accountSerial)
    {
      var ok, id := InsertSampleDepartment(db, samples, d, rows, first, t0);
      if !ok {
        return Some(OtherFault), departmentIds;
      }
      PrefixGrows(ids, d);
      departmentIds := departmentIds + [id];
      d := d + 1;
    }
    failure := None;
  }

  /** One pass of the first loop: department d is stored as the next row,
      unless the sequence is exhausted. */
  method InsertSampleDepartment(db: Database, samples: seq<SeedDepartment>, d: nat,
                                ghost rows: seq<Department>, ghost first: nat, ghost t0: nat)
    returns (ok: bool, id: int)
    requires db.Valid() && DepartmentSamplesFit(samples) && d < |samples|
    requires rows == DepartmentRows(samples, first, t0) && db.departments == rows[..d]
    requires db.departmentSerial == first + d && db.clock == t0 + d
    modifies db
    ensures db.Valid()
    ensures ok <==> !Exhausted(first + d)
    ensures ok ==> && db.departments == rows[..d + 1] && id == first + d
                   && db.departmentSerial == first + d + 1 && db.clock == t0 + d + 1
    ensures !ok ==> && db.departments == old(db.departments)
                    && db.departmentSerial == old(db.departmentSerial) && db.clock == old(db.clock)
    ensures db.users == old(db.users) && db.projects == old(db.projects)
    ensures db.bookingAccounts == old(db.bookingAccounts)
    ensures db.userSerial == old(db.userSerial) && db.projectSerial == old(db.projectSerial)
    ensures db.accountSerial == old(db.accountSerial)
  {
    DepartmentInsertAccepted(samples, first, t0, d);
    var r := db.InsertDepartment(samples[d].name, Some(samples[d].description), false);
    ok := r.Success?;
    if !ok {
      return ok, 0;
    }
    assert r.value == rows[d];
    PrefixGrows(rows, d);
    id := r.value.id;
  }

  /** The second loop. Each sample names its department by literal id; the
      first insert that fails stops the run, with the ids collected so far.
      It fails on an exhausted sequence, or else on a missing department. */
  method InsertProjects(db: Database, samples: seq<SeedProject>)
    returns (failure: Option<StoreFailure>, projectIds: seq<int>)
    requires db.Valid() && db.projects == [] && ProjectSamplesFit(samples)
    modifies db
    ensures db.Valid()
    ensures |projectIds| <= |samples|
    ensures db.projects == ProjectRows(samples, old(db.projectSerial), old(db.clock))[..|projectIds|]
    ensures projectIds == Serials(old(db.projectSerial), |samples|)[..|projectIds|]
    ensures db.clock == old(db.clock) + |projectIds|
    ensures db.projectSerial ==
      old(db.projectSerial) + |projectIds| + if failure == Some(ForeignKeyViolation) then 1 else 0
    ensures forall k :: 0 <= k < |projectIds| ==> HasDepartment(db.departments, samples[k].departmentId)
    ensures failure.None? <==> |projectIds| == |samples|
    ensures failure.Some? ==>
      failure.value == if Exhausted(old(db.projectSerial) + |projectIds|) then OtherFault else ForeignKeyViolation
    ensures failure == Some(ForeignKeyViolation) ==> !HasDepartment(db.departments, samples[|projectIds|].departmentId)
    ensures db.users == old(db.users) && db.departments == old(db.departments)
    ensures db.bookingAccounts == old(db.bookingAccounts)
    ensures db.userSerial == old(db.userSerial) && db.accountSerial == old(db.accountSerial)
    ensures db.departmentSerial == old(db.departmentSerial)
  {
    ghost var rows := ProjectRows(samples, db.projectSerial, db.clock);
    ghost var ids := Serials(db.projectSerial, |samples|);
    ghost var first, t0 := db.projectSerial, db.clock;
    projectIds := [];
    var p := 0;
    while p < |samples|
      invariant 0 <= p <= |samples| && |projectIds| == p
      invariant db.Valid()
      invariant db.projects == rows[..p] && projectIds == ids[..p]
      invariant db.projectSerial == first + p && db.clock == t0 + p
      invariant db.users == old(db.users) && db.departments == old(db.departments)
      invariant db.bookingAccounts == old(db.bookingAccounts)
      invariant db.userSerial == old(db.userSerial) && db.accountSerial == old(db.accountSerial)
      invariant db.departmentSerial == old(db.departmentSerial)
    {
      var id;
      failure, id := InsertSampleProject(db, samples, p, first, t0);
      if failure.Some? {
        ProjectRowsReferenced(db, samples, rows, p);
        return;
      }
      ProjectRowsStep(samples, first, t0, p);
      SerialsStep(first, |samples|, p);
      projectIds := projectIds + [id];
      p := p + 1;
    }
    ProjectRowsReferenced(db, samples, rows, p);
    assert rows[..p] == rows && ids[..p] == ids;
    failure := None;
  }

  /** One step of the second loop: the INSERT of sample project `p`, with
      the sequence at `first + p` and the clock at `t0 + p`. */
  method InsertSampleProject(db: Database, samples: seq<SeedProject>, p: nat, ghost first: nat, ghost t0: nat)
    returns (failure: Option<StoreFailure>, id: int)
    requires db.Valid() && ProjectSamplesFit(samples) && p < |samples|
    requires db.projectSerial == first + p && db.clock == t0 + p
    modifies db
    ensures db.Valid()
    ensures failure.Some? <==> Exhausted(first + p) || !HasDepartment(db.departments, samples[p].departmentId)
    ensures failure.None? ==>
      && db.projects == old(db.projects) + [Project(first + p, samples[p].name, samples[p].customerName,
                                                     Some(samples[p].description), samples[p].departmentId, t0 + p)]
      && id == first + p
      && db.projectSerial == first + p + 1 && db.clock == t0 + p + 1
    ensures failure.Some? ==>
      && failure.value == (if Exhausted(first + p) then OtherFault else ForeignKeyViolation)
      && db.projects == old(db.projects) && db.clock == old(db.clock)
      && db.projectSerial == first + p + (if Exhausted(first + p) then 0 else 1)
    ensures db.users == old(db.users) && db.departments == old(db.departments)
    ensures db.bookingAccounts == old(db.bookingAccounts)
    ensures db.userSerial == old(db.userSerial) && db.accountSerial == old(db.accountSerial)
    ensures db.departmentSerial == old(db.departmentSerial)
  {
    var sample := samples[p];
    assert FitsVarchar(sample.name, ProjectNameMax) && FitsVarchar(sample.customerName, ProjectCustomerMax)
      && FitsInt32(sample.departmentId);
    ghost var check := CheckProjectInsert(db.departments, sample.name, sample.customerName, sample.departmentId);
    assert check == None <==> HasDepartment(db.departments, sample.departmentId);
    assert check != None ==> check == Some(ForeignKeyViolation);
    var r := db.InsertProject(sample.name, sample.customerName, Some(sample.description),
                              sample.departmentId, false);
    if r.Failure? {
      if Exhausted(first + p) {
        assert r.error == OtherFault && db.projectSerial == first + p;
      } else {
        assert r.error == ForeignKeyViolation && db.projectSerial == first + p + 1;
      }
      failure, id := Some(r.error), 0;
    } else {
      assert r.value.id == first + p;
      failure, id := None, r.value.id;
    }
  }

  /** The collected ids one longer: the next serial value. */
  lemma SerialsStep(first: nat, n: nat, p: nat)
    requires p < n
    ensures Serials(first, n)[..p + 1] == Serials(first, n)[..p] + [first + p]
  {
    PrefixGrows(Serials(first, n), p);
  }

  /** The project rows one longer: the next sample's row, numbered and
      stamped one past the previous. */
  lemma ProjectRowsStep(samples: seq<SeedProject>, first: nat, t0: nat, p: nat)
    requires p < |samples|
    ensures ProjectRows(samples, first, t0)[..p + 1] ==
      ProjectRows(samples, first, t0)[..p] +
      [Project(first + p, samples[p].name, samples[p].customerName, Some(samples[p].description),
               samples[p].departmentId, t0 + p)]
  {
    PrefixGrows(ProjectRows(samples, first, t0), p);
  }

  /** Stored projects reference existing departments, so the samples behind
      the first `p` rows do too. */
  lemma ProjectRowsReferenced(db: Database, samples: seq<SeedProject>, rows: seq<Project>, p: nat)
    requires db.Valid() && p <= |rows| == |samples| && db.projects == rows[..p]
    requires forall k :: 0 <= k < |rows| ==> rows[k].departmentId == samples[k].departmentId
    ensures forall k :: 0 <= k < p ==> HasDepartment(db.departments, samples[k].departmentId)
  {
    forall k | 0 <= k < p ensures HasDepartment(db.departments, samples[k].departmentId) {
      assert db.projects[k] in db.projects;
    }
  }

  /** The inner loop: the accounts of one project, one per name. A stored
      project's id always binds as an INTEGER, so an insert fails only on an
      exhausted sequence, which stops the loop. `added` counts the stored rows. */
  method InsertAccountsOf(db: Database, projectId: int, names: seq<string>)
    returns (failure: Option<StoreFailure>, added: nat)
    requires db.Valid() && AccountNamesFit(names) && HasProject(db.projects, projectId)
    modifies db
    ensures db.Valid()
    ensures failure.None? <==> HasRoom(old(db.accountSerial), |names|)
    ensures failure.Some? ==> failure.value == OtherFault
    ensures added == Numbered(old(db.accountSerial), |names|)
    ensures Shapes(db.bookingAccounts) == Shapes(old(db.bookingAccounts)) + AccountsOf(projectId, names)[..added]
    ensures |db.bookingAccounts| == |old(db.bookingAccounts)| + added
    ensures db.accountSerial == old(db.accountSerial) + added
    ensures db.users == old(db.users) && db.departments == old(db.departments)
    ensures db.projects == old(db.projects) && db.userSerial == old(db.userSerial)
    ensures db.departmentSerial == old(db.departmentSerial) && db.projectSerial == old(db.projectSerial)
  {
    ghost var start := db.bookingAccounts;
    ghost var first := db.accountSerial;
    added := 0;
    var a := 0;
    while a < |names|
      invariant 0 <= a <= |names| && added == a
      invariant db.Valid()
      invariant Shapes(db.bookingAccounts) == Shapes(start) + AccountsOf(projectId, names)[..a]
      invariant |db.bookingAccounts| == |start| + added
      invariant db.accountSerial == first + a
      invariant db.users == old(db.users) && db.departments == old(db.departments)
      invariant db.projects == old(db.projects) && db.userSerial == old(db.userSerial)
      invariant db.departmentSerial == old(db.departmentSerial) && db.projectSerial == old(db.projectSerial)
    {
      var ok := InsertSampleAccount(db, projectId, names, a, start);
      if !ok {
        return Some(OtherFault), added;
      }
      added := added + 1;
      a := a + 1;
    }
    assert AccountsOf(projectId, names)[..a] == AccountsOf(projectId, names);
    failure := None;
  }

  /** One step of the inner loop: account `names[a]` of the project. */
  method InsertSampleAccount(db: Database, projectId: int, names: seq<string>, a: nat, ghost start: seq<BookingAccount>)
    returns (ok: bool)
    requires db.Valid() && AccountNamesFit(names) && HasProject(db.projects, projectId) && a < |names|
    requires Shapes(db.bookingAccounts) == Shapes(start) + AccountsOf(projectId, names)[..a]
    modifies db
    ensures db.Valid()
    ensures ok <==> !Exhausted(old(db.accountSerial))
    ensures ok ==> Shapes(db.bookingAccounts) == Shapes(start) + AccountsOf(projectId, names)[..a + 1]
    ensures !ok ==> db.bookingAccounts == old(db.bookingAccounts)
    ensures |db.bookingAccounts| == |old(db.bookingAccounts)| + (if ok then 1 else 0)
    ensures db.accountSerial == old(db.accountSerial) + (if ok then 1 else 0)
    ensures db.users == old(db.users) && db.departments == old(db.departments)
    ensures db.projects == old(db.projects) && db.userSerial == old(db.userSerial)
    ensures db.departmentSerial == old(db.departmentSerial) && db.projectSerial == old(db.projectSerial)
  {
    StoredProjectIdFits(db, projectId);
    var accountName := names[a];
    var description := AccountDescription(accountName);
    ghost var before := db.bookingAccounts;
    var r := db.InsertBookingAccount(accountName, Some(description), projectId, false);
    ok := r.Success?;
    if ok {
      AccountsStep(start, before, r.value, projectId, names, a);
    }
  }

  /** The nested loop: for every project id, one account per name, counted
      in `bookingAccountCount`. It stops where the sequence is exhausted, so
      the stored accounts are always a prefix of the expected ones. */
  method InsertBookingAccounts(db: Database, projectIds: seq<int>, names: seq<string>)
    returns (failure: Option<StoreFailure>, bookingAccountCount: nat)
    requires db.Valid() && db.bookingAccounts == [] && AccountNamesFit(names)
    requires forall k :: 0 <= k < |projectIds| ==> HasProject(db.projects, projectIds[k])
    modifies db
    ensures db.Valid()
    ensures failure.None? <==> HasRoom(old(db.accountSerial), |names| * |projectIds|)
    ensures failure.Some? ==> failure.value == OtherFault
    ensures bookingAccountCount == |db.bookingAccounts| == Numbered(old(db.accountSerial), |names| * |projectIds|)
    ensures |SeededAccounts(projectIds, names)| == |names| * |projectIds|
    ensures Shapes(db.bookingAccounts) == SeededAccounts(projectIds, names)[..bookingAccountCount]
    ensures db.accountSerial == old(db.accountSerial) + bookingAccountCount
    ensures db.users == old(db.users) && db.departments == old(db.departments)
    ensures db.projects == old(db.projects) && db.userSerial == old(db.userSerial)
    ensures db.departmentSerial == old(db.departmentSerial) && db.projectSerial == old(db.projectSerial)
  {
    ghost var first := db.accountSerial;
    ghost var m := |names|;
    SeededAccountsLength(projectIds, names);
    bookingAccountCount := 0;
    var i := 0;
    while i < |projectIds|
      invariant 0 <= i <= |projectIds|
      invariant db.Valid()
      invariant Shapes(db.bookingAccounts) == SeededAccounts(projectIds[..i], names)
      invariant bookingAccountCount == |db.bookingAccounts| == m * i
      invariant db.accountSerial == first + m * i
      invariant db.users == old(db.users) && db.departments == old(db.departments)
      invariant db.projects == old(db.projects) && db.userSerial == old(db.userSerial)
      invariant db.departmentSerial == old(db.departmentSerial) && db.projectSerial == old(db.projectSerial)
    {
      var added;
      failure, added := InsertAccountsAt(db, projectIds, names, i);
      bookingAccountCount := bookingAccountCount + added;
      if failure.Some? {
        AccountsStopEarly(projectIds, names, first, i, added);
        return;
      }
      assert m * (i + 1) == m * i + m;
      i := i + 1;
    }
    assert projectIds[..i] == projectIds;
    assert SeededAccounts(projectIds, names)[..m * i] == SeededAccounts(projectIds, names);
    failure := None;
  }

  /** Where the nested loop stops when project `i` gets only `added` of its
      accounts: the sequence had no room for the whole run, the count is what
      it still numbered, and the stored accounts are that prefix. */
  lemma AccountsStopEarly(projectIds: seq<int>, names: seq<string>, first: nat, i: nat, added: nat)
    requires i < |projectIds| && first + |names| * i <= Int32Max + 1
    requires !HasRoom(first + |names| * i, |names|)
    requires added == Numbered(first + |names| * i, |names|)
    ensures !HasRoom(first, |names| * |projectIds|)
    ensures |names| * i + added == Numbered(first, |names| * |projectIds|)
    ensures |names| * i + added <= |SeededAccounts(projectIds, names)|
    ensures SeededAccounts(projectIds[..i], names) + AccountsOf(projectIds[i], names)[..added] ==
            SeededAccounts(projectIds, names)[..|names| * i + added]
  {
    MulMonotone(|names|, i + 1, |projectIds|);
    assert |names| * (i + 1) == |names| * i + |names|;
    SeededAccountsPrefix(projectIds, names, i, added);
  }

  /** The accounts of the first `i` projects, then the first `a` accounts of
      project `i`, are where the nested loop's output begins. */
  lemma SeededAccountsPrefix(projectIds: seq<int>, names: seq<string>, i: nat, a: nat)
    requires i < |projectIds| && a <= |names|
    ensures |names| * i + a <= |SeededAccounts(projectIds, names)|
    ensures SeededAccounts(projectIds[..i], names) + AccountsOf(projectIds[i], names)[..a] ==
            SeededAccounts(projectIds, names)[..|names| * i + a]
  {
    var m := |names|;
    var whole := SeededAccounts(projectIds, names);
    var before := SeededAccounts(projectIds[..i], names);
    var next := AccountsOf(projectIds[i], names);
    SeededAccountsStep(projectIds, names, i);
    SeededAccountsLength(projectIds[..i], names);
    SeededAccountsLength(projectIds, names);
    MulMonotone(m, i + 1, |projectIds|);
    assert m * (i + 1) == m * i + m;
    SeededAccountsTake(projectIds, names, i + 1);
    assert whole[..m * (i + 1)] == before + next;
    assert whole[..m * i + a] == (before + next)[..m * i + a];
    assert (before + next)[..m * i + a] == before + next[..a];
  }

  /** The accounts of the first `j` projects begin the nested loop's output. */
  lemma {:induction false} SeededAccountsTake(projectIds: seq<int>, names: seq<string>, j: nat)
    requires j <= |projectIds|
    ensures |names| * j <= |SeededAccounts(projectIds, names)|
    ensures SeededAccounts(projectIds, names)[..|names| * j] == SeededAccounts(projectIds[..j], names)
  {
    var n, m := |projectIds|, |names|;
    SeededAccountsLength(projectIds, names);
    MulMonotone(m, j, n);
    if j == n {
      assert projectIds[..j] == projectIds;
    } else {
      var init := projectIds[..n - 1];
      SeededAccountsLength(init, names);
      MulMonotone(m, j, n - 1);
      SeededAccountsTake(init, names, j);
      assert init[..j] == projectIds[..j];
      assert SeededAccounts(projectIds, names) == SeededAccounts(init, names) + AccountsOf(projectIds[n - 1], names);
    }
  }

  /** One pass of the outer loop: the accounts of project `projectIds[i]`
      follow those of the projects before it, as far as the sequence reaches. */
  method InsertAccountsAt(db: Database, projectIds: seq<int>, names: seq<string>, i: nat)
    returns (failure: Option<StoreFailure>, added: nat)
    requires db.Valid() && AccountNamesFit(names) && i < |projectIds|
    requires HasProject(db.projects, projectIds[i])
    requires Shapes(db.bookingAccounts) == SeededAccounts(projectIds[..i], names)
    modifies db
    ensures db.Valid()
    ensures failure.None? <==> HasRoom(old(db.accountSerial), |names|)
    ensures failure.Some? ==> failure.value == OtherFault
    ensures added == Numbered(old(db.accountSerial), |names|)
    ensures Shapes(db.bookingAccounts) ==
      SeededAccounts(projectIds[..i], names) + AccountsOf(projectIds[i], names)[..added]
    ensures failure.None? ==> Shapes(db.bookingAccounts) == SeededAccounts(projectIds[..i + 1], names)
    ensures |db.bookingAccounts| == |old(db.bookingAccounts)| + added
    ensures db.accountSerial == old(db.accountSerial) + added
    ensures db.users == old(db.users) && db.departments == old(db.departments)
    ensures db.projects == old(db.projects) && db.userSerial == old(db.userSerial)
    ensures db.departmentSerial == old(db.departmentSerial) && db.projectSerial == old(db.projectSerial)
  {
    failure, added := InsertAccountsOf(db, projectIds[i], names);
    if failure.None? {
      SeededAccountsStep(projectIds, names, i);
      assert AccountsOf(projectIds[i], names)[..added] == AccountsOf(projectIds[i], names);
    }
  }

  /** The last loop: the sample users, each with the explicit `created_at`,
      as far as the sequence reaches. */
  method InsertUsers(db: Database, samples: seq<SeedUser>, startedAt: nat)
    returns (failure: Option<StoreFailure>)
    requires db.Valid() && db.users == [] && UserSamplesFit(samples)
    modifies db
    ensures db.Valid()
    ensures failure.None? <==> HasRoom(old(db.userSerial), |samples|)
    ensures failure.Some? ==> failure.value == OtherFault
    ensures db.users == UserRows(samples, old(db.userSerial), startedAt)[..Numbered(old(db.userSerial), |samples|)]
    ensures db.userSerial == old(db.userSerial) + |db.users|
    ensures db.departments == old(db.departments) && db.projects == old(db.projects)
    ensures db.bookingAccounts == old(db.bookingAccounts)
    ensures db.departmentSerial == old(db.departmentSerial) && db.projectSerial == old(db.projectSerial)
    ensures db.accountSerial == old(db.accountSerial)
  {
    ghost var rows := UserRows(samples, db.userSerial, startedAt);
    ghost var first := db.userSerial;
    var u := 0;
    while u < |samples|
      invariant 0 <= u <= |samples|
      invariant db.Valid()
      invariant db.users == rows[..u] && db.userSerial == first + u
      invariant db.departments == old(db.departments) && db.projects == old(db.projects)
      invariant db.bookingAccounts == old(db.bookingAccounts)
      invariant db.departmentSerial == old(db.departmentSerial) && db.projectSerial == old(db.projectSerial)
      invariant db.accountSerial == old(db.accountSerial)
    {
      var ok := InsertSampleUser(db, samples, u, startedAt, rows, first);
      if !ok {
        return Some(OtherFault);
      }
      u := u + 1;
    }
    failure := None;
  }

  /** One pass of the last loop: user u is stored as the next row, unless
      the sequence is exhausted. */
  method InsertSampleUser(db: Database, samples: seq<SeedUser>, u: nat, startedAt: nat,
                          ghost rows: seq<User>, ghost first: nat)
    returns (ok: bool)
    requires db.Valid() && UserSamplesFit(samples) && u < |samples|
    requires rows == UserRows(samples, first, startedAt) && db.users == rows[..u]
    requires db.userSerial == first + u
    modifies db
    ensures db.Valid()
    ensures ok <==> !Exhausted(first + u)
    ensures ok ==> db.users == rows[..u + 1] && db.userSerial == first + u + 1
    ensures !ok ==> db.users == old(db.users) && db.userSerial == old(db.userSerial)
    ensures db.departments == old(db.departments) && db.projects == old(db.projects)
    ensures db.bookingAccounts == old(db.bookingAccounts)
    ensures db.departmentSerial == old(db.departmentSerial) && db.projectSerial == old(db.projectSerial)
    ensures db.accountSerial == old(db.accountSerial)
  {
    var sample := samples[u];
    UserInsertAccepted(samples, first, startedAt, u);
    var r := db.InsertUser(sample.name, sample.email, sample.role, sample.department, Some(startedAt), false);
    ok := r.Success?;
    if ok {
      assert r.value == rows[u];
      PrefixGrows(rows, u);
    }
  }

  /** A stored project's id was handed out by the sequence, so it lies in
      the INTEGER range and binds as a `project_id`. */
  lemma StoredProjectIdFits(db: Database, projectId: int)
    requires db.Valid() && HasProject(db.projects, projectId)
    ensures FitsInt32(projectId)
  {
    var p :| p in db.projects && p.id == projectId;
    var k :| 0 <= k < |db.projects| && db.projects[k] == p;
    assert ProjectId(db.projects[k]) < db.projectSerial;
  }

  /** The four sample arrays of the script. */
  datatype SampleData = SampleData(
    departments: seq<SeedDepartment>, projects: seq<SeedProject>,
    accountNames: seq<string>, users: seq<SeedUser>)

  const Samples := SampleData(Departments, Projects, AccountNames, Users)

  /** What the seeding run relies on in its data: every value fits the
      schema, and the projects reference departments by their position
      counted from 1, the first project department 1. */
  predicate SampleDataFits(data: SampleData) {
    && DepartmentSamplesFit(data.departments) && ProjectSamplesFit(data.projects)
    && AccountNamesFit(data.accountNames) && UserSamplesFit(data.users)
    && data.projects != [] && data.projects[0].departmentId == 1 && data.accountNames != []
    && forall k :: 0 <= k < |data.projects| ==> 1 <= data.projects[k].departmentId <= |data.departments|
  }

  /** The script's own arrays are such data. */
  lemma SampleDataFitsSchema()
    ensures SampleDataFits(Samples)
  {
    SampleDepartmentsFit();
    SampleProjectsFit();
    SampleAccountNamesFit();
    SampleUsersFit();
  }

  /** With the departments numbered from `first`, every sample project finds
      its department exactly when the numbering starts at 1. */
  lemma SampleReferencesResolve(data: SampleData, first: nat, t0: nat)
    requires SampleDataFits(data) && first >= 1
    ensures first == 1 ==> forall k :: 0 <= k < |data.projects| ==>
      HasDepartment(DepartmentRows(data.departments, first, t0), data.projects[k].departmentId)
    ensures first != 1 ==> !HasDepartment(DepartmentRows(data.departments, first, t0), data.projects[0].departmentId)
  {
    forall k | 0 <= k < |data.projects|
      ensures HasDepartment(DepartmentRows(data.departments, first, t0), data.projects[k].departmentId) <==>
              first <= data.projects[k].departmentId < first + |data.departments|
    {
      DepartmentRowsHave(data.departments, first, t0, data.projects[k].departmentId);
    }
  }

  /** How the second loop ends over the departments the first one stored.
      Numbered from 1, every reference resolves, so it stops only where the
      projects sequence runs out; otherwise it stops at the very first
      project, on the foreign key unless the sequence is already exhausted. */
  lemma ProjectsPhaseOutcome(data: SampleData, firstDepartment: nat, t0: nat, departments: seq<Department>,
                             firstProject: nat, failure: Option<StoreFailure>, projectIds: seq<int>)
    requires SampleDataFits(data) && firstDepartment >= 1
    requires departments == DepartmentRows(data.departments, firstDepartment, t0)
    requires |projectIds| <= |data.projects| && firstProject + |projectIds| <= Int32Max + 1
    requires forall k :: 0 <= k < |projectIds| ==> HasDepartment(departments, data.projects[k].departmentId)
    requires failure.None? <==> |projectIds| == |data.projects|
    requires failure.Some? ==>
      failure.value == if Exhausted(firstProject + |projectIds|) then OtherFault else ForeignKeyViolation
    requires failure == Some(ForeignKeyViolation) ==> !HasDepartment(departments, data.projects[|projectIds|].departmentId)
    ensures firstDepartment == 1 ==>
      && (failure.None? <==> HasRoom(firstProject, |data.projects|))
      && (failure.Some? ==> failure.value == OtherFault)
      && |projectIds| == Numbered(firstProject, |data.projects|)
    ensures firstDepartment != 1 ==>
      projectIds == [] && failure == Some(if Exhausted(firstProject) then OtherFault else ForeignKeyViolation)
  {
    SampleReferencesResolve(data, firstDepartment, t0);
  }

  /** The last two loops, once the sample projects are stored: the booking
      accounts, then the users. Each stops where its sequence runs out, and
      the users are reached only when every account went in. */
  method SeedAccountsAndUsers(db: Database, data: SampleData, projectIds: seq<int>, startedAt: nat)
    returns (outcome: SeedOutcome)
    requires db.Valid() && db.bookingAccounts == [] && db.users == [] && SampleDataFits(data)
    requires |projectIds| == |data.projects|
    requires forall k :: 0 <= k < |projectIds| ==> HasProject(db.projects, projectIds[k])
    modifies db
    ensures db.Valid()
    ensures db.departments == old(db.departments) && db.projects == old(db.projects)
    ensures db.projectSerial == old(db.projectSerial) && db.departmentSerial == old(db.departmentSerial)
    ensures |db.bookingAccounts| == Numbered(old(db.accountSerial), |data.accountNames| * |data.projects|)
    ensures |SeededAccounts(projectIds, data.accountNames)| == |data.accountNames| * |data.projects|
    ensures Shapes(db.bookingAccounts) == SeededAccounts(projectIds, data.accountNames)[..|db.bookingAccounts|]
    ensures db.accountSerial == old(db.accountSerial) + |db.bookingAccounts|
    ensures !HasRoom(old(db.accountSerial), |data.accountNames| * |data.projects|) ==> db.users == []
    ensures HasRoom(old(db.accountSerial), |data.accountNames| * |data.projects|) ==>
      db.users == UserRows(data.users, old(db.userSerial), startedAt)[..Numbered(old(db.userSerial), |data.users|)]
    ensures db.userSerial == old(db.userSerial) + |db.users|
    ensures outcome.Completed? <==>
      HasRoom(old(db.accountSerial), |data.accountNames| * |data.projects|) && HasRoom(old(db.userSerial), |data.users|)
    ensures outcome.Aborted? ==> outcome.failure == OtherFault
    ensures outcome.Completed? ==>
      outcome == Completed(|data.departments|, |data.projects|,
                           |data.accountNames| * |data.projects|, |data.users|)
  {
    var failure, bookingAccountCount := InsertBookingAccounts(db, projectIds, data.accountNames);
    if failure.Some? {
      return Aborted(failure.value);
    }
    failure := InsertUsers(db, data.users, startedAt);
    if failure.Some? {
      return Aborted(failure.value);
    }
    outcome := Completed(|data.departments|, |data.projects|, bookingAccountCount, |data.users|);
  }

  /** The four DELETEs, children first so that no cascade is needed. The
      sequences and the clock keep their values. */
  method ClearTables(db: Database)
    requires db.Valid()
    modifies db
    ensures db.Valid()
    ensures db.departments == [] && db.projects == [] && db.bookingAccounts == [] && db.users == []
    ensures db.userSerial == old(db.userSerial) && db.departmentSerial == old(db.departmentSerial)
    ensures db.projectSerial == old(db.projectSerial) && db.accountSerial == old(db.accountSerial)
    ensures db.clock == old(db.clock)
  {
    db.ClearBookingAccounts();
    db.ClearProjects();
    db.ClearDepartments();
    db.ClearUsers();
  }

  /** The projects loop and what follows it, over the departments the first
      loop stored, numbered from `firstDepartment` and stamped from `t0`. */
  method SeedProjectsOnward(db: Database, data: SampleData, startedAt: nat,
                            ghost firstDepartment: nat, ghost t0: nat)
    returns (outcome: SeedOutcome, projectIds: seq<int>)
    requires db.Valid() && SampleDataFits(data) && firstDepartment >= 1
    requires db.departments == DepartmentRows(data.departments, firstDepartment, t0)
    requires db.projects == [] && db.bookingAccounts == [] && db.users == []
    modifies db
    ensures db.Valid()
    ensures db.departments == old(db.departments) && db.departmentSerial == old(db.departmentSerial)
    ensures db.projectSerial ==
      old(db.projectSerial) + |projectIds| + if outcome == Aborted(ForeignKeyViolation) then 1 else 0
    ensures db.accountSerial == old(db.accountSerial) + |db.bookingAccounts|
    ensures db.userSerial == old(db.userSerial) + |db.users|
    ensures firstDepartment != 1 ==>
      && outcome == Aborted(if Exhausted(old(db.projectSerial)) then OtherFault else ForeignKeyViolation)
      && projectIds == [] && db.projects == [] && db.bookingAccounts == [] && db.users == []
    ensures firstDepartment == 1 ==>
      && |projectIds| == Numbered(old(db.projectSerial), |data.projects|)
      && projectIds == Serials(old(db.projectSerial), |data.projects|)[..|projectIds|]
      && db.projects == ProjectRows(data.projects, old(db.projectSerial), old(db.clock))[..|projectIds|]
    ensures firstDepartment == 1 && !HasRoom(old(db.projectSerial), |data.projects|) ==>
      outcome == Aborted(OtherFault) && db.bookingAccounts == [] && db.users == []
    ensures firstDepartment == 1 && HasRoom(old(db.projectSerial), |data.projects|) ==>
      && |db.bookingAccounts| == Numbered(old(db.accountSerial), |data.accountNames| * |data.projects|)
      && |SeededAccounts(projectIds, data.accountNames)| == |data.accountNames| * |data.projects|
      && Shapes(db.bookingAccounts) == SeededAccounts(projectIds, data.accountNames)[..|db.bookingAccounts|]
    ensures !HasRoom(old(db.accountSerial), |data.accountNames| * |data.projects|) ==> db.users == []
    ensures firstDepartment == 1 && HasRoom(old(db.projectSerial), |data.projects|)
            && HasRoom(old(db.accountSerial), |data.accountNames| * |data.projects|) ==>
      db.users == UserRows(data.users, old(db.userSerial), startedAt)[..Numbered(old(db.userSerial), |data.users|)]
    ensures outcome.Completed? <==>
      && firstDepartment == 1 && HasRoom(old(db.projectSerial), |data.projects|)
      && HasRoom(old(db.accountSerial), |data.accountNames| * |data.projects|)
      && HasRoom(old(db.userSerial), |data.users|)
    ensures outcome.Aborted? && firstDepartment == 1 ==> outcome.failure == OtherFault
    ensures outcome.Completed? ==>
      outcome == Completed(|data.departments|, |data.projects|,
                           |data.accountNames| * |data.projects|, |data.users|)
  {
    ghost var firstProject, t1 := db.projectSerial, db.clock;
    var failure;
    failure, projectIds := InsertProjects(db, data.projects);
    ProjectsPhaseOutcome(data, firstDepartment, t0, db.departments, firstProject, failure, projectIds);
    if failure.Some? {
      return Aborted(failure.value), projectIds;
    }
    assert Serials(firstProject, |data.projects|)[..|projectIds|] == Serials(firstProject, |data.projects|);
    assert ProjectRows(data.projects, firstProject, t1)[..|projectIds|] == ProjectRows(data.projects, firstProject, t1);
    ProjectRowsHave(data.projects, firstProject, t1);
    outcome := SeedAccountsAndUsers(db, data, projectIds, startedAt);
  }

  /** `seedDatabase` over the sample arrays `data` (the script's are
      `Samples`; `SampleDataFitsSchema` shows they qualify). `startedAt` is
      the `new Date()` the sample users carry. The DELETEs do not reset the
      SERIAL sequences, while the sample projects name departments by literal
      id: only on a database whose departments sequence is still at 1 do the
      projects go in; otherwise the first project insert breaks its foreign
      key and the run stops there, with the new departments stored and every
      other table empty. Each loop also stops, with an internal fault, where
      its table's sequence runs out of INTEGER values; the rows stored up to
      then stay. */
  method SeedDatabase(db: Database, data: SampleData, startedAt: nat)
    returns (outcome: SeedOutcome, departmentIds: seq<int>, projectIds: seq<int>)
    requires db.Valid() && SampleDataFits(data)
    modifies db
    ensures db.Valid()
    ensures |departmentIds| == Numbered(old(db.departmentSerial), |data.departments|)
    ensures db.departments == DepartmentRows(data.departments, old(db.departmentSerial), old(db.clock))[..|departmentIds|]
    ensures departmentIds == Serials(old(db.departmentSerial), |data.departments|)[..|departmentIds|]
    ensures db.departmentSerial == old(db.departmentSerial) + |departmentIds|
    ensures db.projectSerial ==
      old(db.projectSerial) + |projectIds| + if outcome == Aborted(ForeignKeyViolation) then 1 else 0
    ensures db.accountSerial == old(db.accountSerial) + |db.bookingAccounts|
    ensures db.userSerial == old(db.userSerial) + |db.users|
    ensures !HasRoom(old(db.departmentSerial), |data.departments|) ==>
      && outcome == Aborted(OtherFault)
      && projectIds == [] && db.projects == [] && db.bookingAccounts == [] && db.users == []
    ensures HasRoom(old(db.departmentSerial), |data.departments|) && old(db.departmentSerial) != 1 ==>
      && outcome == Aborted(if Exhausted(old(db.projectSerial)) then OtherFault else ForeignKeyViolation)
      && projectIds == [] && db.projects == [] && db.bookingAccounts == [] && db.users == []
    ensures HasRoom(old(db.departmentSerial), |data.departments|) && old(db.departmentSerial) == 1 ==>
      && |projectIds| == Numbered(old(db.projectSerial), |data.projects|)
      && projectIds == Serials(old(db.projectSerial), |data.projects|)[..|projectIds|]
      && db.projects ==
           ProjectRows(data.projects, old(db.projectSerial), old(db.clock) + |data.departments|)[..|projectIds|]
    ensures !HasRoom(old(db.projectSerial), |data.projects|) ==> db.bookingAccounts == [] && db.users == []
    ensures HasRoom(old(db.departmentSerial), |data.departments|) && old(db.departmentSerial) == 1
            && HasRoom(old(db.projectSerial), |data.projects|) ==>
      && |db.bookingAccounts| == Numbered(old(db.accountSerial), |data.accountNames| * |data.projects|)
      && |SeededAccounts(projectIds, data.accountNames)| == |data.accountNames| * |data.projects|
      && Shapes(db.bookingAccounts) == SeededAccounts(projectIds, data.accountNames)[..|db.bookingAccounts|]
    ensures !HasRoom(old(db.accountSerial), |data.accountNames| * |data.projects|) ==> db.users == []
    ensures HasRoom(old(db.departmentSerial), |data.departments|) && old(db.departmentSerial) == 1
            && HasRoom(old(db.projectSerial), |data.projects|)
            && HasRoom(old(db.accountSerial), |data.accountNames| * |data.projects|) ==>
      db.users == UserRows(data.users, old(db.userSerial), startedAt)[..Numbered(old(db.userSerial), |data.users|)]
    ensures outcome.Completed? <==>
      && HasRoom(old(db.departmentSerial), |data.departments|) && old(db.departmentSerial) == 1
      && HasRoom(old(db.projectSerial), |data.projects|)
      && HasRoom(old(db.accountSerial), |data.accountNames| * |data.projects|)
      && HasRoom(old(db.userSerial), |data.users|)
    ensures outcome.Aborted? && old(db.departmentSerial) == 1 ==> outcome.failure == OtherFault
    ensures outcome.Completed? ==>
      outcome == Completed(|data.departments|, |data.projects|,
                           |data.accountNames| * |data.projects|, |data.users|)
  {
    ClearTables(db);
    var failure;
    failure, departmentIds := InsertDepartments(db, data.departments);
    if failure.Some? {
      return Aborted(failure.value), departmentIds, [];
    }
    assert DepartmentRows(data.departments, old(db.departmentSerial), old(db.clock))[..|departmentIds|] ==
           DepartmentRows(data.departments, old(db.departmentSerial), old(db.clock));
    outcome, projectIds := SeedProjectsOnward(db, data, startedAt, old(db.departmentSerial), old(db.clock));
  }

  /** The script run once against freshly created tables: five departments,
      ten projects, fifty booking accounts and eight users. */
  method FirstRun(startedAt: nat) returns (outcome: SeedOutcome)
    ensures outcome == Completed(5, 10, 50, 8)
  {
    var db := new Database();
    SampleDataFitsSchema();
    var departmentIds, projectIds;
    outcome, departmentIds, projectIds := SeedDatabase(db, Samples, startedAt);
  }

  /** The script run twice: the DELETEs keep the department sequence at 6,
      so the second run's first project, which names department 1, is
      refused by the foreign key and nothing after it is inserted. */
  method SecondRun(startedAt: nat, restartedAt: nat) returns (first: SeedOutcome, second: SeedOutcome)
    ensures first == Completed(5, 10, 50, 8)
    ensures second == Aborted(ForeignKeyViolation)
  {
    var db := new Database();
    SampleDataFitsSchema();
    var departmentIds, projectIds;
    first, departmentIds, projectIds := SeedDatabase(db, Samples, startedAt);
    assert db.departmentSerial == 6 && db.projectSerial == 11;
    second, departmentIds, projectIds := SeedDatabase(db, Samples, restartedAt);
  }
}
