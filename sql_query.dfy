/** The `employees` table and the semantics of the statements run against it: the
    INSERT, the account-keyed SELECT, UPDATE and DELETE, and the organization listing. */
module EmployeeTable {
  import opened EmployeeModel

  /** The eleven columns an INSERT supplies; `id` and `created_at` come from the store. */
  datatype NewRow = NewRow(
    organizationId: int,
    invitedFromAccountId: int,
    accountId: int,
    name: string,
    role: string,
    perms: Permissions)

  /** A value bound to a named placeholder of a query. */
  datatype Param = IntParam(i: int) | BoolParam(b: bool)

  /** Rows sit in insertion order: ids and creation times strictly increase along them. */
  ghost predicate Chronological(rows: seq<Row>) {
    forall i, j :: 0 <= i < j < |rows| ==> rows[i].id < rows[j].id && rows[i].createdAt < rows[j].createdAt
  }

  /** `SELECT * FROM employees WHERE account_id = :account_id`, in table order. */
  function RowsOfAccount(rows: seq<Row>, accountId: int): (rs: seq<Row>)
    ensures forall r :: r in rs <==> r in rows && r.accountId == accountId
    ensures |rs| <= |rows|
  {
    if rows == [] then []
    else
      var last := rows[|rows| - 1];
      assert rows == rows[..|rows| - 1] + [last];
      RowsOfAccount(rows[..|rows| - 1], accountId) + (if last.accountId == accountId then [last] else [])
  }

  /** What `DELETE FROM employees WHERE account_id = :account_id` leaves, in table order. */
  function RowsNotOfAccount(rows: seq<Row>, accountId: int): (rs: seq<Row>)
    ensures forall r :: r in rs <==> r in rows && r.accountId != accountId
    ensures |rs| <= |rows|
  {
    if rows == [] then []
    else
      var last := rows[|rows| - 1];
      assert rows == rows[..|rows| - 1] + [last];
      RowsNotOfAccount(rows[..|rows| - 1], accountId) + (if last.accountId != accountId then [last] else [])
  }

  /** After the DELETE, the account-keyed SELECT finds nothing. */
  lemma {:induction false} NothingLeftOfDeletedAccount(rows: seq<Row>, accountId: int)
    ensures RowsOfAccount(RowsNotOfAccount(rows, accountId), accountId) == []
  {
    if rows != [] {
      var front, last := rows[..|rows| - 1], rows[|rows| - 1];
      NothingLeftOfDeletedAccount(front, accountId);
      var kept := RowsNotOfAccount(front, accountId);
      if last.accountId != accountId {
        assert RowsNotOfAccount(rows, accountId) == kept + [last];
        assert (kept + [last])[..|kept|] == kept;
        assert RowsOfAccount(kept + [last], accountId) == RowsOfAccount(kept, accountId);
      } else {
        assert RowsNotOfAccount(rows, accountId) == kept + [];
        assert kept + [] == kept;
      }
    }
  }

  /** `SELECT * FROM employees WHERE organization_id = :organization_id ORDER BY created_at DESC`
      over a table kept in insertion order: the matching rows, last inserted first. */
  function NewestFirst(rows: seq<Row>, organizationId: int): (rs: seq<Row>)
    ensures forall r :: r in rs <==> r in rows && r.organizationId == organizationId
    ensures |rs| <= |rows|
  {
    if rows == [] then []
    else
      var last := rows[|rows| - 1];
      assert rows == rows[..|rows| - 1] + [last];
      (if last.organizationId == organizationId then [last] else []) + NewestFirst(rows[..|rows| - 1], organizationId)
  }

  /** Two rows inserted one after the other into the same organization are listed latest
      first, ahead of the organization's older rows. */
  lemma LaterInsertListedFirst(rows: seq<Row>, first: Row, second: Row)
    requires first.organizationId == second.organizationId
    ensures NewestFirst(rows + [first, second], first.organizationId)
         == [second, first] + NewestFirst(rows, first.organizationId)
  {
    assert (rows + [first, second])[..|rows| + 1] == rows + [first];
    assert (rows + [first])[..|rows|] == rows;
  }

  /** Ordered by `created_at` descending. */
  ghost predicate NewestToOldest(rs: seq<Row>) {
    forall i, j :: 0 <= i < j < |rs| ==> rs[i].createdAt > rs[j].createdAt
  }

  /** In a chronological table every row before the last is older than it. */
  lemma EarlierRowsOlder(rows: seq<Row>)
    requires Chronological(rows) && rows != []
    ensures forall r :: r in rows[..|rows| - 1] ==>
      r.id < rows[|rows| - 1].id && r.createdAt < rows[|rows| - 1].createdAt
  {
    forall r | r in rows[..|rows| - 1]
      ensures r.id < rows[|rows| - 1].id && r.createdAt < rows[|rows| - 1].createdAt
    {
      var k :| 0 <= k < |rows| - 1 && rows[..|rows| - 1][k] == r;
      assert rows[k] == r;
    }
  }

  /** The listing really is ordered by `created_at` descending. */
  lemma {:induction false} NewestFirstDescending(rows: seq<Row>, organizationId: int)
    requires Chronological(rows)
    ensures NewestToOldest(NewestFirst(rows, organizationId))
  {
    if rows != [] {
      var front, last := rows[..|rows| - 1], rows[|rows| - 1];
      NewestFirstDescending(front, organizationId);
      EarlierRowsOlder(rows);
      var tail := NewestFirst(front, organizationId);
      if last.organizationId == organizationId {
        var rs := [last] + tail;
        forall i, j | 0 <= i < j < |rs| ensures rs[i].createdAt > rs[j].createdAt {
          assert rs[j] == tail[j - 1] && tail[j - 1] in tail;
          if i > 0 {
            assert rs[i] == tail[i - 1];
          }
        }
      }
    }
  }

  /** Deleting rows keeps the rest in insertion order. */
  lemma {:induction false} DeleteKeepsChronological(rows: seq<Row>, accountId: int)
    requires Chronological(rows)
    ensures Chronological(RowsNotOfAccount(rows, accountId))
  {
    if rows != [] {
      var front, last := rows[..|rows| - 1], rows[|rows| - 1];
      DeleteKeepsChronological(front, accountId);
      EarlierRowsOlder(rows);
      var kept := RowsNotOfAccount(front, accountId);
      if last.accountId != accountId {
        var rs := kept + [last];
        forall i, j | 0 <= i < j < |rs|
          ensures rs[i].id < rs[j].id && rs[i].createdAt < rs[j].createdAt
        {
          assert rs[i] == kept[i] && kept[i] in kept;
          if j < |kept| {
            assert rs[j] == kept[j];
          }
        }
      }
    }
  }

  /** `UPDATE employees SET role = :role WHERE account_id = :account_id`. */
  function WithRole(rows: seq<Row>, accountId: int, role: string): seq<Row> {
    seq(|rows|, i requires 0 <= i < |rows| =>
      if rows[i].accountId == accountId then rows[i].(role := role) else rows[i])
  }

  /** Every flag of a SET list has a boolean bound to its placeholder. */
  predicate Binds(fields: seq<Flag>, args: map<Column, Param>) {
    forall f :: f in fields ==> FlagColumn(f) in args && args[FlagColumn(f)].BoolParam?
  }

  /** The SET list `f1 = :f1, f2 = :f2, ...` applied to one row's flags, left to right. */
  function AssignFlags(p: Permissions, fields: seq<Flag>, args: map<Column, Param>): Permissions
    requires Binds(fields, args)
    decreases |fields|
  {
    if fields == [] then p
    else AssignFlags(WithFlag(p, fields[0], args[FlagColumn(fields[0])].b), fields[1..], args)
  }

  /** A flag named in the SET list takes its bound value; any other flag keeps its own. */
  lemma {:induction false} AssignFlagsValue(p: Permissions, fields: seq<Flag>, args: map<Column, Param>, g: Flag)
    requires Binds(fields, args)
    ensures FlagValue(AssignFlags(p, fields, args), g)
         == if g in fields then args[FlagColumn(g)].b else FlagValue(p, g)
    decreases |fields|
  {
    if fields != [] {
      var q := WithFlag(p, fields[0], args[FlagColumn(fields[0])].b);
      AssignFlagsValue(q, fields[1..], args, g);
      assert g in fields <==> g == fields[0] || g in fields[1..];
    }
  }

  /** `UPDATE employees SET <fields> WHERE account_id = :account_id`. */
  function WithFlags(rows: seq<Row>, accountId: int, fields: seq<Flag>, args: map<Column, Param>): seq<Row>
    requires Binds(fields, args)
  {
    seq(|rows|, i requires 0 <= i < |rows| =>
      if rows[i].accountId == accountId then rows[i].(perms := AssignFlags(rows[i].perms, fields, args)) else rows[i])
  }

  /** The `employees` table: its rows, the next SERIAL id and the store's clock. */
  class Table {
    var rows: seq<Row>
    var nextId: int
    var now: int

    ghost predicate Valid()
      reads this
    {
      && Chronological(rows)
      && forall i :: 0 <= i < |rows| ==> rows[i].id < nextId && rows[i].createdAt < now
    }

    constructor ()
      ensures Valid()
      ensures rows == []
    {
      rows := [];
      nextId := 1;
      now := 0;
    }

    /** The INSERT ... RETURNING id: one new row with the supplied columns, a fresh id and
        the current time. */
    method Insert(n: NewRow) returns (id: int)
      requires Valid()
      modifies this
      ensures Valid()
      ensures id == old(nextId)
      ensures forall r :: r in old(rows) ==> r.id < id
      ensures rows == old(rows) + [Row(id, n.organizationId, n.invitedFromAccountId, n.accountId,
                                       n.perms, n.name, n.role, old(now))]
      ensures now > old(now)
    {
      id := nextId;
      rows := rows + [Row(id, n.organizationId, n.invitedFromAccountId, n.accountId,
                          n.perms, n.name, n.role, now)];
      nextId := nextId + 1;
      now := now + 1;
    }

    /** The account-keyed SELECT (both `get_employee_by_id` and `get_employee_by_account_id`). */
    method SelectByAccount(accountId: int) returns (rs: seq<Row>)
      ensures rs == RowsOfAccount(rows, accountId)
    {
      rs := [];
      var i := 0;
      while i < |rows|
        invariant 0 <= i <= |rows|
        invariant rs == RowsOfAccount(rows[..i], accountId)
      {
        assert rows[..i + 1][..i] == rows[..i];
        if rows[i].accountId == accountId {
          rs := rs + [rows[i]];
        }
        i := i + 1;
      }
      assert rows[..i] == rows;
    }

    /** The organization listing, newest first. */
    method SelectByOrganization(organizationId: int) returns (rs: seq<Row>)
      requires Valid()
      ensures rs == NewestFirst(rows, organizationId)
      ensures NewestToOldest(rs)
    {
      rs := [];
      var i := 0;
      while i < |rows|
        invariant 0 <= i <= |rows|
        invariant rs == NewestFirst(rows[..i], organizationId)
      {
        assert rows[..i + 1][..i] == rows[..i];
        if rows[i].organizationId == organizationId {
          rs := [rows[i]] + rs;
        }
        i := i + 1;
      }
      assert rows[..i] == rows;
      NewestFirstDescending(rows, organizationId);
    }

    /** The role UPDATE, row by row. */
    method UpdateRole(accountId: int, role: string)
      requires Valid()
      modifies this
      ensures Valid()
      ensures rows == WithRole(old(rows), accountId, role)
      ensures nextId == old(nextId) && now == old(now)
    {
      var i := 0;
      while i < |rows|
        invariant 0 <= i <= |rows| == |old(rows)|
        invariant forall k :: 0 <= k < i ==> rows[k] == WithRole(old(rows), accountId, role)[k]
        invariant forall k :: i <= k < |rows| ==> rows[k] == old(rows)[k]
        invariant forall k :: 0 <= k < |rows| ==> rows[k].id == old(rows)[k].id && rows[k].createdAt == old(rows)[k].createdAt
        invariant nextId == old(nextId) && now == old(now)
      {
        if rows[i].accountId == accountId {
          rows := rows[i := rows[i].(role := role)];
        }
        i := i + 1;
      }
    }

    /** The dynamically built flag UPDATE: the SET list `fields`, each bound in `args`, on
        the rows whose account is `args[account_id]`. */
    method UpdateFlags(fields: seq<Flag>, args: map<Column, Param>)
      requires Valid()
      requires Binds(fields, args)
      requires AccountIdColumn in args && args[AccountIdColumn].IntParam?
      modifies this
      ensures Valid()
      ensures rows == WithFlags(old(rows), args[AccountIdColumn].i, fields, args)
      ensures nextId == old(nextId) && now == old(now)
    {
      var accountId := args[AccountIdColumn].i;
      var i := 0;
      while i < |rows|
        invariant 0 <= i <= |rows| == |old(rows)|
        invariant forall k :: 0 <= k < i ==> rows[k] == WithFlags(old(rows), accountId, fields, args)[k]
        invariant forall k :: i <= k < |rows| ==> rows[k] == old(rows)[k]
        invariant forall k :: 0 <= k < |rows| ==> rows[k].id == old(rows)[k].id && rows[k].createdAt == old(rows)[k].createdAt
        invariant nextId == old(nextId) && now == old(now)
      {
        if rows[i].accountId == accountId {
          rows := rows[i := rows[i].(perms := AssignFlags(rows[i].perms, fields, args))];
        }
        i := i + 1;
      }
    }

    /** The DELETE: every row of the account goes, the others stay in order. */
    method Delete(accountId: int)
      requires Valid()
      modifies this
      ensures Valid()
      ensures rows == RowsNotOfAccount(old(rows), accountId)
      ensures nextId == old(nextId) && now == old(now)
    {
      var kept := [];
      var i := 0;
      while i < |rows|
        invariant 0 <= i <= |rows|
        invariant kept == RowsNotOfAccount(rows[..i], accountId)
      {
        assert rows[..i + 1][..i] == rows[..i];
        if rows[i].accountId != accountId {
          kept := kept + [rows[i]];
        }
        i := i + 1;
      }
      assert rows[..i] == rows;
      DeleteKeepsChronological(rows, accountId);
      forall k | 0 <= k < |kept| ensures kept[k].id < nextId && kept[k].createdAt < now {
        assert kept[k] in rows;
      }
      rows := kept;
    }
  }
}
