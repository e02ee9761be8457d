/** The employee service: permission checks and existence checks around the repository,
    and the notification sent when an employee is added. */
module EmployeeService {
  import opened Common
  import opened EmployeeModel
  import opened EmployeeTable
  import opened EmployeeRepository

  /** What `notify_employee_added` is told about a new employee. */
  datatype Notification = Notification(accountId: int, organizationId: int, employeeName: string, role: string)

  /** The flags `create_employee` grants for the role text "admin": all but moderation. */
  const AdminDefaults := Permissions(false, true, true, true, true, true)

  /** The six flags `create_employee` stores for a role text. Only the English text "admin"
      is granted anything; the enum's own texts, "админ" included, get no flag. */
  function RoleDefaults(role: string): (p: Permissions)
    ensures !p.requiredModeration
    ensures p != NoPermissions <==> role == "admin"
    ensures role == "admin" ==> forall f :: f != RequiredModeration ==> FlagValue(p, f)
  {
    if role == "admin" then AdminDefaults else NoPermissions
  }

  /** `permission_map` of `_check_employee_permission`: each flag's column name to the
      flag's value, and no other key. */
  function PermissionMap(p: Permissions): (m: map<string, bool>)
    ensures forall f :: ColumnName(f) in m && m[ColumnName(f)] == FlagValue(p, f)
    ensures forall name :: name in m ==> exists f :: ColumnName(f) == name
  {
    forall f, g ensures ColumnName(f) == ColumnName(g) ==> f == g {
      ColumnNamesDistinct(f, g);
    }
    forall f ensures f in AllFlags {
      assert AllFlags[FlagIndex(f)] == f;
    }
    map f | f in AllFlags :: ColumnName(f) := FlagValue(p, f)
  }

  /** `permission_map.get(name, False)`: true exactly when `name` is the column name of a
      flag that is set; any other name is refused. */
  function HasPermission(p: Permissions, name: string): (b: bool)
    ensures b <==> exists f :: ColumnName(f) == name && FlagValue(p, f)
  {
    var m := PermissionMap(p);
    if name in m then m[name] else false
  }

  /** What `_check_employee_permission` does for an account, given the table's rows: the
      first of the account's records decides; an admin passes every check; anyone else
      passes only with the named flag set. It never returns false: refusal is an error. */
  function CheckOutcome(rows: seq<Row>, accountId: int, permission: string): (r: Result<bool>)
    ensures r != Success(false)
    ensures var found := RowsOfAccount(rows, accountId);
      && (Serialize(found).Failure? ==> r == Failure(Serialize(found).error))
      && (found == [] ==> r == Failure(EmployeeNotFound))
      && (r.Success? <==> Serialize(found).Success? && found != []
                          && (found[0].role == RoleValue(Admin) || HasPermission(found[0].perms, permission)))
      && (Serialize(found).Success? && found != [] && r.Failure? ==>
            r.error == InsufficientPermissions(accountId, permission))
  {
    var found := RowsOfAccount(rows, accountId);
    match Serialize(found)
    case Failure(e) => Failure(e)
    case Success(employees) =>
      if employees == [] then Failure(EmployeeNotFound)
      else
        var employee := employees[0];
        assert IsRecordOf(employee, found[0]);
        assert employee.role == Admin <==> found[0].role == RoleValue(Admin) by {
          RoleRoundTrip(employee.role);
        }
        if employee.role == Admin then Success(true)
        else if HasPermission(employee.perms, permission) then Success(true)
        else Failure(InsufficientPermissions(accountId, permission))
  }

  /** `EmployeeService`: the service over one repository and the bot it notifies. */
  class EmployeeService {
    const repo: EmployeeRepo
    /** The notifications sent so far, oldest first. */
    ghost var notified: seq<Notification>

    ghost predicate Valid()
      reads repo.db
    {
      repo.db.Valid()
    }

    constructor (repo: EmployeeRepo)
      ensures this.repo == repo && notified == []
    {
      this.repo := repo;
      notified := [];
    }

    /** `create_employee`: unless the inviter is 0 (the first admin), the inviter must hold
        `add_employee_permission`; then the row is inserted with the role's default flags,
        the bot is notified and the new id returned. A refused inviter changes nothing. */
    method CreateEmployee(organizationId: int, invitedFromAccountId: int, accountId: int,
                          name: string, role: string) returns (r: Result<int>)
      requires Valid()
      modifies this, repo.db
      ensures Valid()
      ensures var check := CheckOutcome(old(repo.db.rows), invitedFromAccountId, "add_employee_permission");
        if invitedFromAccountId != 0 && check.Failure? then
          && r == Failure(check.error)
          && repo.db.rows == old(repo.db.rows)
          && notified == old(notified)
        else
          && r == Success(old(repo.db.nextId))
          && repo.db.rows == old(repo.db.rows) + [Row(r.value, organizationId, invitedFromAccountId, accountId,
                                                      RoleDefaults(role), name, role, old(repo.db.now))]
          && notified == old(notified) + [Notification(accountId, organizationId, name, role)]
    {
      if invitedFromAccountId != 0 {
        var allowed := CheckPermission(invitedFromAccountId, "add_employee_permission");
        if allowed.Failure? {
          return Failure(allowed.error);
        }
      }

      var requiredModeration := false;
      var autopostingPermission := false;
      var addEmployeePermission := false;
      var editEmployeePermPermission := false;
      var topUpBalancePermission := false;
      var signUpSocialNetPermission := false;

      if role == "admin" {
        requiredModeration := false;
        autopostingPermission := true;
        addEmployeePermission := true;
        editEmployeePermPermission := true;
        topUpBalancePermission := true;
        signUpSocialNetPermission := true;
      }

      var id := repo.CreateEmployee(organizationId, invitedFromAccountId, accountId, name, role,
                                    Permissions(requiredModeration, autopostingPermission, addEmployeePermission,
                                                editEmployeePermPermission, topUpBalancePermission,
                                                signUpSocialNetPermission));
      notified := notified + [Notification(accountId, organizationId, name, role)];
      return Success(id);
    }

    /** `get_employee_by_account_id`: the repository's answer, passed through. */
    method GetEmployeeByAccountId(accountId: int) returns (r: Result<seq<Employee>>)
      ensures r == Serialize(RowsOfAccount(repo.db.rows, accountId))
    {
      r := repo.GetEmployeeByAccountId(accountId);
    }

    /** `get_employees_by_organization`: the repository's answer, passed through. */
    method GetEmployeesByOrganization(organizationId: int) returns (r: Result<seq<Employee>>)
      requires Valid()
      ensures r == Serialize(NewestFirst(repo.db.rows, organizationId))
      ensures r.Success? ==> forall i, j :: 0 <= i < j < |r.value| ==> r.value[i].createdAt > r.value[j].createdAt
    {
      r := repo.GetEmployeesByOrganization(organizationId);
    }

    /** `update_employee_permissions`: an account without records is an error; otherwise
        the supplied flags are written on the account's rows. */
    method UpdateEmployeePermissions(accountId: int, patch: PermissionPatch) returns (r: Result<()>)
      requires Valid()
      modifies repo.db
      ensures Valid()
      ensures var found := Serialize(RowsOfAccount(old(repo.db.rows), accountId));
        if found.Failure? then r == Failure(found.error) && repo.db.rows == old(repo.db.rows)
        else if found.value == [] then r == Failure(EmployeeNotFound) && repo.db.rows == old(repo.db.rows)
        else r == Success(()) && repo.db.rows == PatchedWhere(old(repo.db.rows), accountId, patch)
    {
      var employees := repo.GetEmployeeByAccountId(accountId);
      if employees.Failure? {
        return Failure(employees.error);
      }
      if employees.value == [] {
        return Failure(EmployeeNotFound);
      }
      repo.UpdateEmployeePermissions(accountId, patch);
      return Success(());
    }

    /** `update_employee_role`: an account without records is an error; otherwise the
        role's text is written on the account's rows. */
    method UpdateEmployeeRole(accountId: int, role: EmployeeRole) returns (r: Result<()>)
      requires Valid()
      modifies repo.db
      ensures Valid()
      ensures var found := Serialize(RowsOfAccount(old(repo.db.rows), accountId));
        if found.Failure? then r == Failure(found.error) && repo.db.rows == old(repo.db.rows)
        else if found.value == [] then r == Failure(EmployeeNotFound) && repo.db.rows == old(repo.db.rows)
        else r == Success(()) && repo.db.rows == WithRole(old(repo.db.rows), accountId, RoleValue(role))
    {
      var employees := repo.GetEmployeeByAccountId(accountId);
      if employees.Failure? {
        return Failure(employees.error);
      }
      if employees.value == [] {
        return Failure(EmployeeNotFound);
      }
      repo.UpdateEmployeeRole(accountId, role);
      return Success(());
    }

    /** `delete_employee`: an account without records is an error; otherwise its rows go. */
    method DeleteEmployee(accountId: int) returns (r: Result<()>)
      requires Valid()
      modifies repo.db
      ensures Valid()
      ensures var found := Serialize(RowsOfAccount(old(repo.db.rows), accountId));
        if found.Failure? then r == Failure(found.error) && repo.db.rows == old(repo.db.rows)
        else if found.value == [] then r == Failure(EmployeeNotFound) && repo.db.rows == old(repo.db.rows)
        else r == Success(()) && repo.db.rows == RowsNotOfAccount(old(repo.db.rows), accountId)
    {
      var employees := repo.GetEmployeeByAccountId(accountId);
      if employees.Failure? {
        return Failure(employees.error);
      }
      if employees.value == [] {
        return Failure(EmployeeNotFound);
      }
      repo.DeleteEmployee(accountId);
      return Success(());
    }

    /** `check_employee_permission`: the private check, exposed. */
    method CheckEmployeePermission(accountId: int, permission: string) returns (r: Result<bool>)
      ensures r == CheckOutcome(repo.db.rows, accountId, permission)
    {
      r := CheckPermission(accountId, permission);
    }

    /** `_check_employee_permission`. */
    method CheckPermission(accountId: int, permission: string) returns (r: Result<bool>)
      ensures r == CheckOutcome(repo.db.rows, accountId, permission)
    {
      var employees := repo.GetEmployeeByAccountId(accountId);
      if employees.Failure? {
        return Failure(employees.error);
      }
      if employees.value == [] {
        return Failure(EmployeeNotFound);
      }

      var employee := employees.value[0];

      if employee.role == Admin {
        return Success(true);
      }

      var permissionMap := PermissionMap(employee.perms);
      var hasPermission := if permission in permissionMap then permissionMap[permission] else false;

      if !hasPermission {
        return Failure(InsufficientPermissions(accountId, permission));
      }

      return Success(true);
    }
  }

  /** A created row is the last of its account's rows. */
  lemma CreatedRowListedLast(rows: seq<Row>, row: Row)
    ensures RowsOfAccount(rows + [row], row.accountId) == RowsOfAccount(rows, row.accountId) + [row]
  {
    assert (rows + [row])[..|rows|] == rows;
  }

  /** An employee created with one of the enum's role texts is read back as the record of
      the inserted row, after the account's earlier records. */
  lemma CreatedEmployeeIsFetched(rows: seq<Row>, row: Row, role: EmployeeRole)
    requires Serialize(RowsOfAccount(rows, row.accountId)).Success?
    requires row.role == RoleValue(role)
    ensures Serialize(RowsOfAccount(rows + [row], row.accountId))
         == Success(Serialize(RowsOfAccount(rows, row.accountId)).value + [Record(row, role)])
  {
    CreatedRowListedLast(rows, row);
    RoleRoundTrip(role);
    SerializeAppend(RowsOfAccount(rows, row.accountId), row, role);
  }

  /** An employee created with the role text "admin" (the only text that is granted flags)
      can never be read back: while its row is in the table, serializing the account's rows
      raises on its role. */
  lemma GrantedEmployeeIsUnreadable(rows: seq<Row>, row: Row)
    requires row in rows && row.role == "admin"
    ensures RoleDefaults(row.role) != NoPermissions
    ensures Serialize(RowsOfAccount(rows, row.accountId)).Failure?
  {
    assert row in RowsOfAccount(rows, row.accountId);
  }

  /** After its rows are deleted, an account is not found by any check. */
  lemma DeletedEmployeeNotFound(rows: seq<Row>, accountId: int, permission: string)
    ensures CheckOutcome(RowsNotOfAccount(rows, accountId), accountId, permission) == Failure(EmployeeNotFound)
  {
    NothingLeftOfDeletedAccount(rows, accountId);
  }

  /** Only the first record decides: a later record of the same account that holds the
      flag does not make up for a first one that lacks it. */
  lemma OnlyFirstRecordDecides(rows: seq<Row>, accountId: int, f: Flag)
    requires Serialize(RowsOfAccount(rows, accountId)).Success?
    requires |RowsOfAccount(rows, accountId)| >= 2
    requires var found := RowsOfAccount(rows, accountId);
      found[0].role != RoleValue(Admin) && !FlagValue(found[0].perms, f) && FlagValue(found[1].perms, f)
    ensures CheckOutcome(rows, accountId, ColumnName(f)) == Failure(InsufficientPermissions(accountId, ColumnName(f)))
  {
  }

  /** An admin passes every check, whatever the name asked for, known or not. */
  lemma AdminPassesEveryCheck(rows: seq<Row>, accountId: int, permission: string)
    requires Serialize(RowsOfAccount(rows, accountId)).Success?
    requires RowsOfAccount(rows, accountId) != []
    requires RowsOfAccount(rows, accountId)[0].role == RoleValue(Admin)
    ensures CheckOutcome(rows, accountId, permission) == Success(true)
  {
  }

  /** A name that is no flag's column name is refused to everyone but an admin. */
  lemma UnknownPermissionRefused(rows: seq<Row>, accountId: int, permission: string)
    requires Serialize(RowsOfAccount(rows, accountId)).Success?
    requires RowsOfAccount(rows, accountId) != []
    requires RowsOfAccount(rows, accountId)[0].role != RoleValue(Admin)
    requires forall f :: ColumnName(f) != permission
    ensures CheckOutcome(rows, accountId, permission) == Failure(InsufficientPermissions(accountId, permission))
  {
  }
}
