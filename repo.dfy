/** The employee repository: each call becomes one statement on the `employees` table,
    and selected rows are serialized into `Employee` records. */
module EmployeeRepository {
  import opened Common
  import opened EmployeeModel
  import opened EmployeeTable

  /** The six optional keyword arguments of `update_employee_permissions`; `None` leaves
      that flag as it is. */
  datatype PermissionPatch = PermissionPatch(
    requiredModeration: Option<bool>,
    autopostingPermission: Option<bool>,
    addEmployeePermission: Option<bool>,
    editEmployeePermPermission: Option<bool>,
    topUpBalancePermission: Option<bool>,
    signUpSocialNetPermission: Option<bool>)

  const EmptyPatch := PermissionPatch(None, None, None, None, None, None)

  /** The argument a patch supplies for one flag. */
  function Requested(patch: PermissionPatch, f: Flag): Option<bool> {
    match f
    case RequiredModeration => patch.requiredModeration
    case AutopostingPermission => patch.autopostingPermission
    case AddEmployeePermission => patch.addEmployeePermission
    case EditEmployeePermPermission => patch.editEmployeePermPermission
    case TopUpBalancePermission => patch.topUpBalancePermission
    case SignUpSocialNetPermission => patch.signUpSocialNetPermission
  }

  /** What a sparse update means for one row: a supplied flag takes its value, an
      omitted one keeps the row's. */
  function Patched(p: Permissions, patch: PermissionPatch): Permissions {
    Permissions(
      patch.requiredModeration.GetOr(p.requiredModeration),
      patch.autopostingPermission.GetOr(p.autopostingPermission),
      patch.addEmployeePermission.GetOr(p.addEmployeePermission),
      patch.editEmployeePermPermission.GetOr(p.editEmployeePermPermission),
      patch.topUpBalancePermission.GetOr(p.topUpBalancePermission),
      patch.signUpSocialNetPermission.GetOr(p.signUpSocialNetPermission))
  }

  lemma PatchedValue(p: Permissions, patch: PermissionPatch, f: Flag)
    ensures FlagValue(Patched(p, patch), f) == Requested(patch, f).GetOr(FlagValue(p, f))
  {
    match f
    case RequiredModeration =>
    case AutopostingPermission =>
    case AddEmployeePermission =>
    case EditEmployeePermPermission =>
    case TopUpBalancePermission =>
    case SignUpSocialNetPermission =>
  }

  /** The sparse update applied to every row of one account. */
  function PatchedWhere(rows: seq<Row>, accountId: int, patch: PermissionPatch): seq<Row> {
    seq(|rows|, i requires 0 <= i < |rows| =>
      if rows[i].accountId == accountId then rows[i].(perms := Patched(rows[i].perms, patch)) else rows[i])
  }

  /** `fields` (the SET entries) and `args` (the argument dictionary) are the ones
      `update_employee_permissions` builds for `patch`. */
  ghost predicate IsSetClause(accountId: int, patch: PermissionPatch, fields: seq<Flag>, args: map<Column, Param>) {
    // one SET entry per supplied flag and none for an omitted one
    && (forall f :: f in fields <==> Requested(patch, f).Some?)
    // entries follow the declared column order, so none repeats
    && InColumnOrder(fields)
    // the dictionary holds the key and exactly the supplied flags, with their values
    && (forall c :: c in args <==> c == AccountIdColumn || (c.FlagColumn? && c.flag in fields))
    && args[AccountIdColumn] == IntParam(accountId)
    && forall f :: f in fields ==> args[FlagColumn(f)] == BoolParam(Requested(patch, f).value)
  }

  /** The flags of `flags` that the patch supplies, in the same order. */
  function SuppliedFlags(patch: PermissionPatch, flags: seq<Flag>): seq<Flag> {
    if flags == [] then []
    else
      var f := flags[|flags| - 1];
      SuppliedFlags(patch, flags[..|flags| - 1]) + (if Requested(patch, f).Some? then [f] else [])
  }

  lemma {:induction false} SuppliedFlagsMembers(patch: PermissionPatch, flags: seq<Flag>)
    ensures forall f :: f in SuppliedFlags(patch, flags) <==> f in flags && Requested(patch, f).Some?
  {
    if flags != [] {
      var front, f := flags[..|flags| - 1], flags[|flags| - 1];
      assert flags == front + [f];
      SuppliedFlagsMembers(patch, front);
    }
  }

  /** Flags listed in strictly increasing column position, hence without repetition. */
  predicate InColumnOrder(flags: seq<Flag>) {
    forall i, j :: 0 <= i < j < |flags| ==> FlagIndex(flags[i]) < FlagIndex(flags[j])
  }

  /** Keeping some of the flags keeps their column order. */
  lemma {:induction false} SuppliedFlagsInColumnOrder(patch: PermissionPatch, flags: seq<Flag>)
    requires InColumnOrder(flags)
    ensures InColumnOrder(SuppliedFlags(patch, flags))
  {
    if flags != [] {
      var front, f := flags[..|flags| - 1], flags[|flags| - 1];
      assert InColumnOrder(front) by {
        forall i, j | 0 <= i < j < |front| ensures FlagIndex(front[i]) < FlagIndex(front[j]) {
          assert front[i] == flags[i] && front[j] == flags[j];
        }
      }
      SuppliedFlagsInColumnOrder(patch, front);
      var kept := SuppliedFlags(patch, front);
      SuppliedFlagsMembers(patch, front);
      forall g | g in kept ensures FlagIndex(g) < FlagIndex(f) {
        var k :| 0 <= k < |front| && front[k] == g;
        assert flags[k] == g;
      }
      if Requested(patch, f).Some? {
        var fields := kept + [f];
        assert SuppliedFlags(patch, flags) == fields;
        forall i, j | 0 <= i < j < |fields| ensures FlagIndex(fields[i]) < FlagIndex(fields[j]) {
          assert fields[i] == kept[i] && kept[i] in kept;
          if j < |kept| {
            assert fields[j] == kept[j];
          } else {
            assert fields[j] == f;
          }
        }
      } else {
        assert SuppliedFlags(patch, flags) == kept + [] == kept;
      }
    }
  }

  /** The argument dictionary built while walking `flags`: the key, then the value of
      each supplied flag under its column. */
  function SetArgs(accountId: int, patch: PermissionPatch, flags: seq<Flag>): map<Column, Param> {
    if flags == [] then map[AccountIdColumn := IntParam(accountId)]
    else
      var f := flags[|flags| - 1];
      var args := SetArgs(accountId, patch, flags[..|flags| - 1]);
      match Requested(patch, f)
      case Some(value) => args[FlagColumn(f) := BoolParam(value)]
      case None => args
  }

  lemma {:induction false} SetArgsEntries(accountId: int, patch: PermissionPatch, flags: seq<Flag>)
    ensures var args := SetArgs(accountId, patch, flags);
      && (forall c :: c in args <==> c == AccountIdColumn || (c.FlagColumn? && c.flag in flags && Requested(patch, c.flag).Some?))
      && args[AccountIdColumn] == IntParam(accountId)
      && forall f :: f in flags && Requested(patch, f).Some? ==> args[FlagColumn(f)] == BoolParam(Requested(patch, f).value)
  {
    if flags != [] {
      var front, f := flags[..|flags| - 1], flags[|flags| - 1];
      assert flags == front + [f];
      SetArgsEntries(accountId, patch, front);
    }
  }

  /** One `if <flag> is not None` step of `update_employee_permissions`, for the flag `f`
      at column position `k`: append its SET entry and bind its value. */
  method SetIfSupplied(accountId: int, patch: PermissionPatch, ghost k: nat, f: Flag,
                       fields: seq<Flag>, args: map<Column, Param>)
    returns (fields': seq<Flag>, args': map<Column, Param>)
    requires k < |AllFlags| && AllFlags[k] == f
    requires fields == SuppliedFlags(patch, AllFlags[..k]) && args == SetArgs(accountId, patch, AllFlags[..k])
    ensures fields' == SuppliedFlags(patch, AllFlags[..k + 1]) && args' == SetArgs(accountId, patch, AllFlags[..k + 1])
  {
    assert AllFlags[..k + 1][..k] == AllFlags[..k];
    fields', args' := fields, args;
    match Requested(patch, f)
    case Some(value) =>
      fields' := fields + [f];
      args' := args[FlagColumn(f) := BoolParam(value)];
    case None =>
  }

  /** `update_employee_permissions` builds its SET list and argument dictionary by one
      `if ... is not None` step per flag, in column order. */
  method BuildPermissionUpdate(accountId: int, patch: PermissionPatch)
    returns (fields: seq<Flag>, args: map<Column, Param>)
    ensures fields == SuppliedFlags(patch, AllFlags) && args == SetArgs(accountId, patch, AllFlags)
    ensures IsSetClause(accountId, patch, fields, args)
  {
    ghost var k := 0;
    fields := [];
    args := map[AccountIdColumn := IntParam(accountId)];
    fields, args := SetIfSupplied(accountId, patch, k, RequiredModeration, fields, args);
    k := k + 1;
    fields, args := SetIfSupplied(accountId, patch, k, AutopostingPermission, fields, args);
    k := k + 1;
    fields, args := SetIfSupplied(accountId, patch, k, AddEmployeePermission, fields, args);
    k := k + 1;
    fields, args := SetIfSupplied(accountId, patch, k, EditEmployeePermPermission, fields, args);
    k := k + 1;
    fields, args := SetIfSupplied(accountId, patch, k, TopUpBalancePermission, fields, args);
    k := k + 1;
    fields, args := SetIfSupplied(accountId, patch, k, SignUpSocialNetPermission, fields, args);
    assert AllFlags[..k + 1] == AllFlags;
    SuppliedSetClause(accountId, patch);
  }

  /** The SET list of the supplied flags, taken in column order, with its argument
      dictionary, is the clause `update_employee_permissions` means. */
  lemma SuppliedSetClause(accountId: int, patch: PermissionPatch)
    ensures IsSetClause(accountId, patch, SuppliedFlags(patch, AllFlags), SetArgs(accountId, patch, AllFlags))
  {
    SuppliedFlagsMembers(patch, AllFlags);
    SetArgsEntries(accountId, patch, AllFlags);
    forall f ensures f in AllFlags {
      assert AllFlags[FlagIndex(f)] == f;
    }
    assert InColumnOrder(AllFlags) by {
      forall i, j | 0 <= i < j < |AllFlags| ensures FlagIndex(AllFlags[i]) < FlagIndex(AllFlags[j]) {
        assert AllFlags[FlagIndex(AllFlags[i])] == AllFlags[i];
        assert AllFlags[FlagIndex(AllFlags[j])] == AllFlags[j];
      }
    }
    SuppliedFlagsInColumnOrder(patch, AllFlags);
  }

  /** The SET list built for a patch does to a row exactly what the patch means. */
  lemma SetClauseAppliesPatch(p: Permissions, accountId: int, patch: PermissionPatch,
                                                 fields: seq<Flag>, args: map<Column, Param>)
    requires IsSetClause(accountId, patch, fields, args)
    ensures Binds(fields, args)
    ensures AssignFlags(p, fields, args) == Patched(p, patch)
  {
    forall g ensures FlagValue(AssignFlags(p, fields, args), g) == FlagValue(Patched(p, patch), g) {
      AssignFlagsValue(p, fields, args, g);
      PatchedValue(p, patch, g);
    }
    PermissionsExtensional(AssignFlags(p, fields, args), Patched(p, patch));
  }

  /** No SET entry is built exactly when no flag is supplied, and then the patch changes nothing. */
  lemma EmptySetClause(rows: seq<Row>, accountId: int, patch: PermissionPatch,
                                          fields: seq<Flag>, args: map<Column, Param>)
    requires IsSetClause(accountId, patch, fields, args)
    ensures fields == [] <==> patch == EmptyPatch
    ensures fields == [] ==> PatchedWhere(rows, accountId, patch) == rows
  {
    if fields != [] {
      assert fields[0] in fields;
    } else {
      assert forall f :: Requested(patch, f).None?;
      assert Requested(patch, RequiredModeration).None? && Requested(patch, AutopostingPermission).None?;
      assert Requested(patch, AddEmployeePermission).None? && Requested(patch, EditEmployeePermPermission).None?;
      assert Requested(patch, TopUpBalancePermission).None? && Requested(patch, SignUpSocialNetPermission).None?;
    }
  }

  /** `EmployeeRepo`: the repository over one table. */
  class EmployeeRepo {
    const db: Table

    constructor (db: Table)
      ensures this.db == db
    {
      this.db := db;
    }

    /** `create_employee`: the eleven arguments go into one INSERT unchanged; its id is returned. */
    method CreateEmployee(organizationId: int, invitedFromAccountId: int, accountId: int,
                          name: string, role: string, perms: Permissions) returns (id: int)
      requires db.Valid()
      modifies db
      ensures db.Valid()
      ensures id == old(db.nextId)
      ensures db.rows == old(db.rows) + [Row(id, organizationId, invitedFromAccountId, accountId,
                                             perms, name, role, old(db.now))]
    {
      id := db.Insert(NewRow(organizationId, invitedFromAccountId, accountId, name, role, perms));
    }

    /** `get_employee_by_account_id`: the account's rows, serialized, or `[]`. */
    method GetEmployeeByAccountId(accountId: int) returns (r: Result<seq<Employee>>)
      ensures r == Serialize(RowsOfAccount(db.rows, accountId))
      ensures RowsOfAccount(db.rows, accountId) == [] ==> r == Success([])
    {
      var rows := db.SelectByAccount(accountId);
      if rows != [] {
        r := Serialize(rows);
      } else {
        r := Success([]);
      }
    }

    /** `get_employees_by_organization`: the organization's rows, newest first, serialized. */
    method GetEmployeesByOrganization(organizationId: int) returns (r: Result<seq<Employee>>)
      requires db.Valid()
      ensures r == Serialize(NewestFirst(db.rows, organizationId))
      ensures r.Success? ==> forall i, j :: 0 <= i < j < |r.value| ==> r.value[i].createdAt > r.value[j].createdAt
    {
      var rows := db.SelectByOrganization(organizationId);
      if rows != [] {
        r := Serialize(rows);
      } else {
        r := Success([]);
      }
      if r.Success? {
        forall i, j | 0 <= i < j < |r.value| ensures r.value[i].createdAt > r.value[j].createdAt {
          assert IsRecordOf(r.value[i], rows[i]) && IsRecordOf(r.value[j], rows[j]);
        }
      }
    }

    /** `update_employee_permissions`: only the supplied flags are written, on every row of
        the account; with nothing supplied no statement runs. */
    method UpdateEmployeePermissions(accountId: int, patch: PermissionPatch)
      requires db.Valid()
      modifies db
      ensures db.Valid()
      ensures db.rows == PatchedWhere(old(db.rows), accountId, patch)
      ensures db.nextId == old(db.nextId) && db.now == old(db.now)
      ensures patch == EmptyPatch ==> db.rows == old(db.rows)
    {
      var fields, args := BuildPermissionUpdate(accountId, patch);
      EmptySetClause(db.rows, accountId, patch, fields, args);
      if fields == [] {
        return;
      }
      forall p: Permissions ensures Binds(fields, args) && AssignFlags(p, fields, args) == Patched(p, patch) {
        SetClauseAppliesPatch(p, accountId, patch, fields, args);
      }
      db.UpdateFlags(fields, args);
    }

    /** `update_employee_role`: stores the enum's value text. */
    method UpdateEmployeeRole(accountId: int, role: EmployeeRole)
      requires db.Valid()
      modifies db
      ensures db.Valid()
      ensures db.rows == WithRole(old(db.rows), accountId, RoleValue(role))
      ensures db.nextId == old(db.nextId) && db.now == old(db.now)
    {
      db.UpdateRole(accountId, RoleValue(role));
    }

    /** `delete_employee`. */
    method DeleteEmployee(accountId: int)
      requires db.Valid()
      modifies db
      ensures db.Valid()
      ensures db.rows == RowsNotOfAccount(old(db.rows), accountId)
      ensures db.nextId == old(db.nextId) && db.now == old(db.now)
    {
      db.Delete(accountId);
    }
  }
}
