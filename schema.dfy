/** Rows of the four tables created by `createTables`, the column limits of the
    schema, and the small value types shared by every route. */
module Schema {

  datatype Option<+T> = None | Some(value: T)

  datatype Result<+R, +E> = Success(value: R) | Failure(error: E)

  /** VARCHAR(n) limits of the schema, in characters. */
  const UserNameMax := 100
  const UserEmailMax := 100
  const UserRoleMax := 50
  const UserDepartmentMax := 50
  const DepartmentNameMax := 100
  const ProjectNameMax := 200
  const ProjectCustomerMax := 200
  const AccountNameMax := 100

  /** Range of a PostgreSQL INTEGER column (the foreign-key columns). */
  const Int32Min := -0x8000_0000
  const Int32Max := 0x7fff_ffff

  predicate FitsInt32(x: int) {
    Int32Min <= x <= Int32Max
  }

  /** A value VARCHAR(n) stores as it is: at most n characters. */
  predicate FitsVarchar(s: string, n: nat) {
    |s| <= n
  }

  /** A value a VARCHAR(n) column accepts: one that fits, or a longer one
      whose characters past the n-th are all spaces. Anything else is
      refused with "value too long". */
  predicate VarcharAccepts(s: string, n: nat) {
    |s| <= n || forall i :: n <= i < |s| ==> s[i] == ' '
  }

  /** The value VARCHAR(n) stores: the value cut to n characters. For an
      accepted value only spaces are cut, and a value that fits is kept. */
  function VarcharValue(s: string, n: nat): (r: string)
    ensures |r| <= n && r <= s
    ensures |r| == |s| <==> FitsVarchar(s, n)
    ensures FitsVarchar(s, n) ==> r == s
    ensures VarcharAccepts(s, n) <==> forall i :: |r| <= i < |s| ==> s[i] == ' '
  {
    if |s| <= n then s else s[..n]
  }

  datatype User = User(
    id: nat, name: string, email: string, role: string, department: string, createdAt: nat)

  datatype Department = Department(
    id: nat, name: string, description: Option<string>, createdAt: nat)

  datatype Project = Project(
    id: nat, name: string, customerName: string, description: Option<string>,
    departmentId: int, createdAt: nat)

  datatype BookingAccount = BookingAccount(
    id: nat, name: string, description: Option<string>, projectId: int, createdAt: nat)

  /** How the store classifies a failed statement: SQLSTATE 23505, 23503, or anything else. */
  datatype StoreFailure = UniqueViolation | ForeignKeyViolation | OtherFault

  function SqlState(f: StoreFailure): string {
    match f
    case UniqueViolation => "23505"
    case ForeignKeyViolation => "23503"
    case OtherFault => "XX000"
  }

  /** JavaScript truthiness of a string body field: absent, null and "" are falsy. */
  predicate FalsyText(s: Option<string>) {
    s.None? || s.value == ""
  }

  /** JavaScript truthiness of a numeric body field: absent, null and 0 are falsy. */
  predicate FalsyId(x: Option<int>) {
    x.None? || x.value == 0
  }
}
