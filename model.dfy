/** The employee record, its closed role enum, and the mapping between stored rows,
    records and the dictionaries the HTTP layer emits. */
module EmployeeModel {
  import opened Common

  /** The three roles; `Staff` is the member the source calls EMPLOYEE. */
  datatype EmployeeRole = Admin | Moderator | Staff

  /** `role.value`: the string stored in the `role` column. */
  function RoleValue(role: EmployeeRole): string {
    match role
    case Admin => "админ"
    case Moderator => "модератор"
    case Staff => "сотрудник"
  }

  /** `EmployeeRole(s)`: the enum member whose value is `s`, or nothing (a ValueError). */
  function ParseRole(s: string): (r: Option<EmployeeRole>)
    ensures forall role :: r == Some(role) <==> RoleValue(role) == s
  {
    if s == "админ" then Some(Admin)
    else if s == "модератор" then Some(Moderator)
    else if s == "сотрудник" then Some(Staff)
    else None
  }

  lemma RoleRoundTrip(role: EmployeeRole)
    ensures ParseRole(RoleValue(role)) == Some(role)
  {
  }

  /** The six capability columns, in the order the table declares them. */
  datatype Flag =
    | RequiredModeration
    | AutopostingPermission
    | AddEmployeePermission
    | EditEmployeePermPermission
    | TopUpBalancePermission
    | SignUpSocialNetPermission

  const AllFlags: seq<Flag> := [RequiredModeration, AutopostingPermission, AddEmployeePermission,
                                EditEmployeePermPermission, TopUpBalancePermission, SignUpSocialNetPermission]

  /** Position of a flag in the declared column order. */
  function FlagIndex(f: Flag): (k: nat)
    ensures k < |AllFlags| && AllFlags[k] == f
  {
    match f
    case RequiredModeration => 0
    case AutopostingPermission => 1
    case AddEmployeePermission => 2
    case EditEmployeePermPermission => 3
    case TopUpBalancePermission => 4
    case SignUpSocialNetPermission => 5
  }

  /** The column (and dictionary key, and permission name) of a flag. */
  function ColumnName(f: Flag): string {
    match f
    case RequiredModeration => "required_moderation"
    case AutopostingPermission => "autoposting_permission"
    case AddEmployeePermission => "add_employee_permission"
    case EditEmployeePermPermission => "edit_employee_perm_permission"
    case TopUpBalancePermission => "top_up_balance_permission"
    case SignUpSocialNetPermission => "sign_up_social_net_permission"
  }

  /** Different flags live in different columns, none of them the key column. */
  lemma ColumnNamesDistinct(f: Flag, g: Flag)
    ensures ColumnName(f) == ColumnName(g) <==> f == g
    ensures ColumnName(f) != "account_id"
  {
  }

  /** The six capability flags of one employee. */
  datatype Permissions = Permissions(
    requiredModeration: bool,
    autopostingPermission: bool,
    addEmployeePermission: bool,
    editEmployeePermPermission: bool,
    topUpBalancePermission: bool,
    signUpSocialNetPermission: bool)

  const NoPermissions := Permissions(false, false, false, false, false, false)

  function FlagValue(p: Permissions, f: Flag): bool {
    match f
    case RequiredModeration => p.requiredModeration
    case AutopostingPermission => p.autopostingPermission
    case AddEmployeePermission => p.addEmployeePermission
    case EditEmployeePermPermission => p.editEmployeePermPermission
    case TopUpBalancePermission => p.topUpBalancePermission
    case SignUpSocialNetPermission => p.signUpSocialNetPermission
  }

  /** Two flag sets are equal exactly when they agree on every flag. */
  lemma PermissionsExtensional(p: Permissions, q: Permissions)
    requires forall f :: FlagValue(p, f) == FlagValue(q, f)
    ensures p == q
  {
    assert FlagValue(p, RequiredModeration) == FlagValue(q, RequiredModeration);
    assert FlagValue(p, AutopostingPermission) == FlagValue(q, AutopostingPermission);
    assert FlagValue(p, AddEmployeePermission) == FlagValue(q, AddEmployeePermission);
    assert FlagValue(p, EditEmployeePermPermission) == FlagValue(q, EditEmployeePermPermission);
    assert FlagValue(p, TopUpBalancePermission) == FlagValue(q, TopUpBalancePermission);
    assert FlagValue(p, SignUpSocialNetPermission) == FlagValue(q, SignUpSocialNetPermission);
  }

  /** `p` with flag `f` set to `b`. */
  function WithFlag(p: Permissions, f: Flag, b: bool): (q: Permissions)
    ensures FlagValue(q, f) == b
    ensures forall g :: g != f ==> FlagValue(q, g) == FlagValue(p, g)
  {
    match f
    case RequiredModeration => p.(requiredModeration := b)
    case AutopostingPermission => p.(autopostingPermission := b)
    case AddEmployeePermission => p.(addEmployeePermission := b)
    case EditEmployeePermPermission => p.(editEmployeePermPermission := b)
    case TopUpBalancePermission => p.(topUpBalancePermission := b)
    case SignUpSocialNetPermission => p.(signUpSocialNetPermission := b)
  }

  /** A row of the `employees` table as the store returns it; `role` is raw text and
      `createdAt` is the store-assigned creation time. */
  datatype Row = Row(
    id: int,
    organizationId: int,
    invitedFromAccountId: int,
    accountId: int,
    perms: Permissions,
    name: string,
    role: string,
    createdAt: int)

  /** The `Employee` record: a row whose role has been checked against the enum. */
  datatype Employee = Employee(
    id: int,
    organizationId: int,
    invitedFromEmployeeId: int,
    accountId: int,
    perms: Permissions,
    name: string,
    role: EmployeeRole,
    createdAt: int)

  /** `e` carries every column of `row` unchanged, the role as the enum member it names. */
  predicate IsRecordOf(e: Employee, row: Row) {
    && e.id == row.id
    && e.organizationId == row.organizationId
    && e.invitedFromEmployeeId == row.invitedFromAccountId
    && e.accountId == row.accountId
    && e.perms == row.perms
    && e.name == row.name
    && RoleValue(e.role) == row.role
    && e.createdAt == row.createdAt
  }

  /** One element of the list comprehension in `serialize`. */
  function Record(row: Row, role: EmployeeRole): Employee {
    Employee(row.id, row.organizationId, row.invitedFromAccountId, row.accountId,
             row.perms, row.name, role, row.createdAt)
  }

  /** `Employee.serialize(rows)`: one record per row, in order, unless some row's role is
      not an enum value, in which case the first such row raises. */
  function Serialize(rows: seq<Row>): (r: Result<seq<Employee>>)
    ensures r.Success? <==> forall i :: 0 <= i < |rows| ==> ParseRole(rows[i].role).Some?
    ensures r.Success? ==> |r.value| == |rows| && forall i :: 0 <= i < |rows| ==> IsRecordOf(r.value[i], rows[i])
    ensures r.Failure? ==> exists i :: 0 <= i < |rows| && ParseRole(rows[i].role).None?
                                    && r.error == InvalidRole(rows[i].role)
                                    && forall j :: 0 <= j < i ==> ParseRole(rows[j].role).Some?
  {
    if rows == [] then Success([])
    else
      match ParseRole(rows[0].role)
      case None => Failure(InvalidRole(rows[0].role))
      case Some(role) =>
        match Serialize(rows[1..])
        case Failure(e) =>
          ghost var i :| 0 <= i < |rows[1..]| && ParseRole(rows[1..][i].role).None?
                         && e == InvalidRole(rows[1..][i].role)
                         && forall j :: 0 <= j < i ==> ParseRole(rows[1..][j].role).Some?;
          assert ParseRole(rows[i + 1].role).None? && forall j :: 0 <= j < i + 1 ==> ParseRole(rows[j].role).Some?;
          Failure(e)
        case Success(rest) => Success([Record(rows[0], role)] + rest)
  }

  /** Serializing one more row with a valid role appends its record to the others'. */
  lemma {:induction false} SerializeAppend(rows: seq<Row>, row: Row, role: EmployeeRole)
    requires Serialize(rows).Success?
    requires ParseRole(row.role) == Some(role)
    ensures Serialize(rows + [row]) == Success(Serialize(rows).value + [Record(row, role)])
  {
    if rows == [] {
      assert rows + [row] == [row] && [row][0] == row && [row][1..] == [];
      assert Serialize([row]) == Success([Record(row, role)] + []);
      assert [Record(row, role)] + [] == [] + [Record(row, role)];
    } else {
      assert (rows + [row])[0] == rows[0];
      assert (rows + [row])[1..] == rows[1..] + [row];
      var first :| ParseRole(rows[0].role) == Some(first);
      var rest := Serialize(rows[1..]).value;
      assert Serialize(rows).value == [Record(rows[0], first)] + rest;
      SerializeAppend(rows[1..], row, role);
      assert [Record(rows[0], first)] + (rest + [Record(row, role)])
          == ([Record(rows[0], first)] + rest) + [Record(row, role)];
    }
  }

  /** The columns of the `employees` table as the record and its dictionary name them. */
  datatype Column =
    | IdColumn
    | OrganizationIdColumn
    | InvitedFromColumn
    | AccountIdColumn
    | FlagColumn(flag: Flag)
    | NameColumn
    | RoleColumn
    | CreatedAtColumn

  /** The key under which `to_dict` (and a query's argument dictionary) names a column. */
  function ColumnText(c: Column): string {
    match c
    case IdColumn => "id"
    case OrganizationIdColumn => "organization_id"
    case InvitedFromColumn => "invited_from_employee_id"
    case AccountIdColumn => "account_id"
    case FlagColumn(f) => ColumnName(f)
    case NameColumn => "name"
    case RoleColumn => "role"
    case CreatedAtColumn => "created_at"
  }

  /** Distinct columns have distinct keys, so a dictionary keyed by `Column` has as many
      string keys as it has entries. */
  lemma ColumnTextInjective(c: Column, d: Column)
    ensures ColumnText(c) == ColumnText(d) ==> c == d
  {
    if c.FlagColumn? && d.FlagColumn? {
      ColumnNamesDistinct(c.flag, d.flag);
    }
  }

  const DictColumns: set<Column> := {
    IdColumn, OrganizationIdColumn, InvitedFromColumn, AccountIdColumn,
    FlagColumn(RequiredModeration), FlagColumn(AutopostingPermission), FlagColumn(AddEmployeePermission),
    FlagColumn(EditEmployeePermPermission), FlagColumn(TopUpBalancePermission), FlagColumn(SignUpSocialNetPermission),
    NameColumn, RoleColumn, CreatedAtColumn}

  /** `DictColumns` lists every column there is. */
  lemma DictColumnsComplete()
    ensures forall c :: c in DictColumns
  {
    forall c ensures c in DictColumns {
      match c
      case FlagColumn(f) => {
        match f
        case RequiredModeration =>
        case AutopostingPermission =>
        case AddEmployeePermission =>
        case EditEmployeePermPermission =>
        case TopUpBalancePermission =>
        case SignUpSocialNetPermission =>
      }
      case _ =>
    }
  }

  const FlagColumns: set<Column> := {
    FlagColumn(RequiredModeration), FlagColumn(AutopostingPermission), FlagColumn(AddEmployeePermission),
    FlagColumn(EditEmployeePermPermission), FlagColumn(TopUpBalancePermission), FlagColumn(SignUpSocialNetPermission)}

  const OtherColumns: set<Column> := {
    IdColumn, OrganizationIdColumn, InvitedFromColumn, AccountIdColumn, NameColumn, RoleColumn, CreatedAtColumn}

  lemma FlagColumnsCount()
    ensures |FlagColumns| == 6
  {
    var s1: set<Column> := {FlagColumn(RequiredModeration)};
    var s2 := s1 + {FlagColumn(AutopostingPermission)};
    var s3 := s2 + {FlagColumn(AddEmployeePermission)};
    var s4 := s3 + {FlagColumn(EditEmployeePermPermission)};
    var s5 := s4 + {FlagColumn(TopUpBalancePermission)};
    var s6 := s5 + {FlagColumn(SignUpSocialNetPermission)};
    assert |s6| == 6;
    assert s6 == FlagColumns;
  }

  lemma OtherColumnsCount()
    ensures |OtherColumns| == 7
  {
    var s1: set<Column> := {IdColumn};
    var s2 := s1 + {OrganizationIdColumn};
    var s3 := s2 + {InvitedFromColumn};
    var s4 := s3 + {AccountIdColumn};
    var s5 := s4 + {NameColumn};
    var s6 := s5 + {RoleColumn};
    var s7 := s6 + {CreatedAtColumn};
    assert |s7| == 7;
    assert s7 == OtherColumns;
  }

  /** `DictColumns` holds thirteen distinct columns. */
  lemma DictColumnsCount()
    ensures |DictColumns| == 13
  {
    FlagColumnsCount();
    OtherColumnsCount();
    assert OtherColumns * FlagColumns == {};
    assert |OtherColumns + FlagColumns| == 13;
    assert DictColumns == OtherColumns + FlagColumns;
  }

  /** A JSON-ready value of `to_dict`; `TimestampValue` stands for `created_at.isoformat()`. */
  datatype Value = IntValue(i: int) | BoolValue(b: bool) | TextValue(s: string) | TimestampValue(t: int)

  /** `Employee.to_dict()`, its keys given as the columns they name. */
  function ToDict(e: Employee): (d: map<Column, Value>)
    ensures d.Keys == DictColumns
    ensures forall c :: c in d
  {
    DictColumnsComplete();
    map[
      IdColumn := IntValue(e.id),
      OrganizationIdColumn := IntValue(e.organizationId),
      InvitedFromColumn := IntValue(e.invitedFromEmployeeId),
      AccountIdColumn := IntValue(e.accountId),
      FlagColumn(RequiredModeration) := BoolValue(e.perms.requiredModeration),
      FlagColumn(AutopostingPermission) := BoolValue(e.perms.autopostingPermission),
      FlagColumn(AddEmployeePermission) := BoolValue(e.perms.addEmployeePermission),
      FlagColumn(EditEmployeePermPermission) := BoolValue(e.perms.editEmployeePermPermission),
      FlagColumn(TopUpBalancePermission) := BoolValue(e.perms.topUpBalancePermission),
      FlagColumn(SignUpSocialNetPermission) := BoolValue(e.perms.signUpSocialNetPermission),
      NameColumn := TextValue(e.name),
      RoleColumn := TextValue(RoleValue(e.role)),
      CreatedAtColumn := TimestampValue(e.createdAt)
    ]
  }

  /** `to_dict` emits exactly thirteen distinct keys. */
  lemma DictHasThirteenKeys(e: Employee)
    ensures |ToDict(e)| == 13
  {
    DictColumnsCount();
    assert |ToDict(e).Keys| == 13;
  }

  /** A row whose role is an enum value survives `to_dict(serialize([row])[0])`: every
      column reappears under its own key, the role as the same text. */
  lemma DictReproducesRow(row: Row)
    requires ParseRole(row.role).Some?
    ensures Serialize([row]).Success?
    ensures var d := ToDict(Serialize([row]).value[0]);
      && d[IdColumn] == IntValue(row.id)
      && d[OrganizationIdColumn] == IntValue(row.organizationId)
      && d[InvitedFromColumn] == IntValue(row.invitedFromAccountId)
      && d[AccountIdColumn] == IntValue(row.accountId)
      && (forall f :: d[FlagColumn(f)] == BoolValue(FlagValue(row.perms, f)))
      && d[NameColumn] == TextValue(row.name)
      && d[RoleColumn] == TextValue(row.role)
      && d[CreatedAtColumn] == TimestampValue(row.createdAt)
  {
    var e := Serialize([row]).value[0];
    assert IsRecordOf(e, [row][0]);
    forall f ensures ToDict(e)[FlagColumn(f)] == BoolValue(FlagValue(e.perms, f)) {
      match f
      case RequiredModeration =>
      case AutopostingPermission =>
      case AddEmployeePermission =>
      case EditEmployeePermPermission =>
      case TopUpBalancePermission =>
      case SignUpSocialNetPermission =>
    }
  }
}
