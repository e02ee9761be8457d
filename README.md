# Employee service: a Dafny model

This project models the employee component of the service:
- an organization's employees are stored in one `employees` table;
- each employee has a role and six capability flags;
- the service layer checks permissions before it adds, changes or removes employees.

The model follows the Python code in four layers, one module each:

- `Common` (`common.dfy`): `Option`, `Result` and the errors the core raises. These are
  `EmployeeNotFound`, `InsufficientPermissions` and `InvalidRole`. `InvalidRole` stands for
  the `ValueError` that `EmployeeRole(text)` raises for an unknown role text.
- `EmployeeModel` (`model.dfy`): the `EmployeeRole` enum and its Russian value texts, the
  six flags, the raw table `Row`, the `Employee` record, `serialize` and `to_dict`.
- `EmployeeTable` (`sql_query.dfy`): the `employees` table as a class over a sequence of
  rows, with one method per SQL statement. An INSERT assigns the next SERIAL id and the
  current time. The table is kept *chronological*: ids and creation times strictly
  increase along the rows. This is how `ORDER BY created_at DESC` is given meaning.
- `EmployeeRepository` (`repo.dfy`): the repository class. Each call becomes one statement
  and the selected rows are serialized. The sparse permission update builds its SET list
  and argument dictionary with one `if ... is not None` step per flag.
- `EmployeeService` (`service.dfy`): the service class. Its parts:
  - the inviter check of `create_employee`;
  - the role-text defaults, including the literal `"admin"` comparison;
  - the existence checks of the three mutations;
  - the permission check: the first record decides, an admin passes everything, and
    `permission_map.get(name, False)` decides for anyone else;
  - a ghost log of the bot notifications.

Two behaviours of the code are kept as written and proved as lemmas.

The first is about admin defaults. `create_employee` grants the admin flags only to the
English text `"admin"`. That text is not a value of `EmployeeRole`, whose admin value is
`"админ"`. So an employee created with granted flags can never be read back
(`GrantedEmployeeIsUnreadable`). An employee created as `"админ"` gets no flag, but still
passes every check through the admin bypass (`AdminPassesEveryCheck`).

The second: only the first of an account's records is consulted (`OnlyFirstRecordDecides`).

Two further facts about the code shape the model:
- The enum's values are Cyrillic texts (internal/model/employee.py:9-11), while
  `create_employee` compares the role text with `"admin"`
  (internal/service/employee/service.py:40).
- `check_employee_permission` never returns `False`. A refusal is raised as an error
  (internal/service/employee/service.py:173-177).

## Model

| member | source | states |
|---|---|---|
| EmployeeModel.ParseRole | internal/model/employee.py:8-11 | `EmployeeRole(text)` succeeds exactly for the three value texts, with the member whose value is that text |
| EmployeeModel.RoleRoundTrip | internal/model/employee.py:8-11 | parsing a role's value text gives back the same role |
| EmployeeModel.FlagIndex | internal/repo/employee/sql_query.py:8-13 | every flag has a position in the table's column order |
| EmployeeModel.ColumnNamesDistinct | internal/repo/employee/sql_query.py:8-13 | the six flag column names are pairwise different and none is `account_id` |
| EmployeeModel.PermissionsExtensional | internal/model/employee.py:20-25 | two flag sets that agree on every flag are equal |
| EmployeeModel.WithFlag | internal/repo/employee/repo.py:107-113 | assigning one flag sets that flag and leaves the other five unchanged |
| EmployeeModel.Serialize | internal/model/employee.py:32-51 | succeeds iff every row's role text is an enum value; on success one record per row, in order, each carrying the row's columns; on failure the error names the role text of the first bad row |
| EmployeeModel.SerializeAppend | internal/model/employee.py:32-51 | serializing one more row with a valid role appends exactly that row's record to the records of the others |
| EmployeeModel.ColumnTextInjective | internal/model/employee.py:53-68 | different dictionary keys have different texts |
| EmployeeModel.DictColumnsComplete | internal/model/employee.py:53-68 | every column of the record appears among the dictionary's keys |
| EmployeeModel.FlagColumnsCount | internal/model/employee.py:59-64 | the six flag keys are distinct |
| EmployeeModel.OtherColumnsCount | internal/model/employee.py:55-58 | the seven other keys are distinct |
| EmployeeModel.DictColumnsCount | internal/model/employee.py:53-68 | the dictionary has thirteen distinct keys |
| EmployeeModel.ToDict | internal/model/employee.py:53-68 | the keys are exactly the thirteen columns |
| EmployeeModel.DictHasThirteenKeys | internal/model/employee.py:53-68 | every record's dictionary has thirteen entries |
| EmployeeModel.DictReproducesRow | internal/model/employee.py:32-68 | for a row with a valid role, `to_dict(serialize([row])[0])` reproduces every column, with the role as the same text |
| EmployeeTable.RowsOfAccount | internal/repo/employee/sql_query.py:31-39 | the account-keyed SELECT returns exactly the table's rows of that account and no more rows than the table has |
| EmployeeTable.RowsNotOfAccount | internal/repo/employee/sql_query.py:53-56 | the DELETE keeps exactly the rows of other accounts |
| EmployeeTable.NothingLeftOfDeletedAccount | internal/repo/employee/sql_query.py:53-56 | after the DELETE the account-keyed SELECT finds nothing |
| EmployeeTable.NewestFirst | internal/repo/employee/sql_query.py:41-45 | the organization SELECT returns exactly the organization's rows |
| EmployeeTable.LaterInsertListedFirst | internal/repo/employee/sql_query.py:41-45 | after inserting E1 then E2 into one organization, the listing starts `[E2, E1]`, ahead of the older rows |
| EmployeeTable.EarlierRowsOlder | internal/repo/employee/sql_query.py:41-45 | in a chronological table every row before the last is older than it |
| EmployeeTable.NewestFirstDescending | internal/repo/employee/sql_query.py:41-45 | over a chronological table the organization SELECT is ordered by `created_at` descending |
| EmployeeTable.DeleteKeepsChronological | internal/repo/employee/sql_query.py:53-56 | deleting rows keeps the table chronological |
| EmployeeTable.AssignFlagsValue | internal/repo/employee/repo.py:107-113 | after the SET list runs, a flag it names holds its bound value and every other flag keeps its own |
| EmployeeTable.Table.Insert | internal/repo/employee/sql_query.py:1-28 | appends one row with the supplied columns, the next id and the current time, and returns that id, which is larger than every existing id; the table stays chronological |
| EmployeeTable.Table.SelectByAccount | internal/repo/employee/sql_query.py:31-39 | its loop returns the rows of the account in table order |
| EmployeeTable.Table.SelectByOrganization | internal/repo/employee/sql_query.py:41-45 | its loop returns the organization's rows, newest first, in strictly descending `created_at` |
| EmployeeTable.Table.UpdateRole | internal/repo/employee/sql_query.py:47-51 | sets the role text on every row of the account and changes nothing else |
| EmployeeTable.Table.UpdateFlags | internal/repo/employee/repo.py:107-113 | runs the built SET list on every row of the account; the table stays chronological |
| EmployeeTable.Table.Delete | internal/repo/employee/sql_query.py:53-56 | removes exactly the account's rows, keeping the others in order; the table stays chronological |
| EmployeeRepository.PatchedValue | internal/repo/employee/repo.py:65-101 | under a patch, a supplied flag takes its value and an omitted one keeps the old value |
| EmployeeRepository.SuppliedFlagsMembers | internal/repo/employee/repo.py:79-101 | the SET list holds exactly the supplied flags |
| EmployeeRepository.SuppliedFlagsInColumnOrder | internal/repo/employee/repo.py:79-101 | the SET list keeps the column order, so no flag is listed twice |
| EmployeeRepository.SetArgsEntries | internal/repo/employee/repo.py:76-101 | the argument dictionary holds `account_id` and exactly the supplied flags, each bound to its supplied value |
| EmployeeRepository.SetIfSupplied | internal/repo/employee/repo.py:79-101 | one `is not None` step appends the flag and binds its value exactly when the patch supplies it |
| EmployeeRepository.BuildPermissionUpdate | internal/repo/employee/repo.py:76-101 | the six steps build the SET list of the supplied flags in column order, with its argument dictionary |
| EmployeeRepository.SuppliedSetClause | internal/repo/employee/repo.py:76-101 | that list and dictionary are a well-formed clause for the patch: one entry per supplied flag, in column order, each bound to its value, with `account_id` bound to the key |
| EmployeeRepository.SetClauseAppliesPatch | internal/repo/employee/repo.py:76-113 | running that clause on a row changes its flags exactly as the patch asks |
| EmployeeRepository.EmptySetClause | internal/repo/employee/repo.py:103-104 | the SET list is empty iff no flag is supplied, and then the table is left unchanged |
| EmployeeRepository.EmployeeRepo.CreateEmployee | internal/repo/employee/repo.py:16-47 | the eleven arguments go into one inserted row unchanged; the new id is returned |
| EmployeeRepository.EmployeeRepo.GetEmployeeByAccountId | internal/repo/employee/repo.py:49-55 | the account's rows, serialized; no rows gives `[]` |
| EmployeeRepository.EmployeeRepo.GetEmployeesByOrganization | internal/repo/employee/repo.py:57-63 | the organization's rows, newest first, serialized; the records are in strictly descending `created_at` |
| EmployeeRepository.EmployeeRepo.UpdateEmployeePermissions | internal/repo/employee/repo.py:65-113 | only the supplied flags change, on every row of the account; with nothing supplied the table is unchanged |
| EmployeeRepository.EmployeeRepo.UpdateEmployeeRole | internal/repo/employee/repo.py:115-125 | stores the enum value's text as the role of the account's rows |
| EmployeeRepository.EmployeeRepo.DeleteEmployee | internal/repo/employee/repo.py:127-130 | removes the account's rows |
| EmployeeService.RoleDefaults | internal/service/employee/service.py:33-47 | moderation is never granted; some flag is granted iff the role text is exactly `"admin"`, and then all five other flags are |
| EmployeeService.PermissionMap | internal/service/employee/service.py:162-169 | maps each flag's column name to that flag's value and has no other key |
| EmployeeService.HasPermission | internal/service/employee/service.py:171 | true iff the name is the column name of a flag that is set; any other name resolves to false |
| EmployeeService.CheckOutcome | internal/service/employee/service.py:143-177 | never false; a serialization error propagates; no record gives `EmployeeNotFound`; success iff the first record is `"админ"` or holds the named flag; otherwise `InsufficientPermissions` with the account and the name |
| EmployeeService.EmployeeService.CreateEmployee | internal/service/employee/service.py:19-70 | with a nonzero inviter whose `add_employee_permission` check fails: that error, nothing inserted, nothing notified; otherwise one row with the role's default flags, one notification, and the new id |
| EmployeeService.EmployeeService.GetEmployeeByAccountId | internal/service/employee/service.py:72-76 | the account's records as the repository serializes them |
| EmployeeService.EmployeeService.GetEmployeesByOrganization | internal/service/employee/service.py:78-82 | the organization's records, newest first |
| EmployeeService.EmployeeService.UpdateEmployeePermissions | internal/service/employee/service.py:84-108 | a lookup error propagates and an account without records gives `EmployeeNotFound`, both with the table unchanged; otherwise the patch is applied to the account's rows |
| EmployeeService.EmployeeService.UpdateEmployeeRole | internal/service/employee/service.py:110-124 | the same existence check; then the role text is stored and the flags are left as they were |
| EmployeeService.EmployeeService.DeleteEmployee | internal/service/employee/service.py:126-133 | the same existence check; then the account's rows are removed |
| EmployeeService.EmployeeService.CheckEmployeePermission | internal/service/employee/service.py:135-141 | answers as the private check does |
| EmployeeService.EmployeeService.CheckPermission | internal/service/employee/service.py:143-177 | its steps (lookup, first record, admin bypass, map lookup, raise) give the outcome `CheckOutcome` describes |
| EmployeeService.CreatedRowListedLast | internal/service/employee/service.py:49-61 | a created row is the last of its account's rows |
| EmployeeService.CreatedEmployeeIsFetched | internal/service/employee/service.py:49-76 | reading an account back after creating an employee with an enum role text gives the account's earlier records followed by the record of the new row |
| EmployeeService.GrantedEmployeeIsUnreadable | internal/service/employee/service.py:40-47 | the only role text that is granted flags is `"admin"`, and while a row with that role is in the table, every read of its account raises |
| EmployeeService.DeletedEmployeeNotFound | internal/service/employee/service.py:126-152 | after a delete, every permission check on that account gives `EmployeeNotFound` |
| EmployeeService.OnlyFirstRecordDecides | internal/service/employee/service.py:154-175 | a non-admin first record without the flag is refused, even when a later record of the account holds it |
| EmployeeService.AdminPassesEveryCheck | internal/service/employee/service.py:157-159 | a first record with the admin role passes the check for any name, known or not |
| EmployeeService.UnknownPermissionRefused | internal/service/employee/service.py:171-175 | a name that is no flag's column name is refused to every non-admin |

## Left out

- HTTP handlers, configuration, migrations and the DDL, the interface protocols, tracing
  and logging are not modelled. Logging calls have no effect on the model.
- `async` scheduling and concurrent requests are not modelled. Every call runs alone,
  so a row cannot change between the existence check and the mutation that follows it.
- The bot client is not modelled. `notify_employee_added` only appends to a ghost log.
  A failure of the bot call, which would raise after the row is inserted, is not modelled.
- Store failures (connection loss, constraint violations) are not modelled. Every
  statement succeeds.
- The inviter column has a naming mismatch. The INSERT writes `invited_from_account_id`,
  but `serialize` reads `invited_from_employee_id`. The model uses one column for both,
  so a created row is read back with its inviter. With the real schema one of the two
  names fails.
- An SQL SELECT without `ORDER BY` has no defined order. The model returns such rows in
  table (insertion) order.
- `created_at` is an integer clock, not a `datetime`. `isoformat()` is modelled by tagging
  the value as a timestamp (`TimestampValue`), not by producing text.
- The keys of `to_dict` are the `Column` datatype. `ColumnText` gives each key's text,
  and `ColumnTextInjective` proves that different keys have different texts.
- The SET list is modelled as the sequence of its flags, not as SQL text. The
  `", ".join` of `name = :name` entries is left out.
- `EmployeeRepository.EmployeeRepo.CreateEmployee` takes all six flags as one required
  `Permissions` value. The source gives each flag a default of `False`
  (internal/repo/employee/repo.py:24-29). Its only caller passes all six, so no behaviour is lost.
- `EmployeeService.EmployeeService.CreateEmployee`: the role stays an unchecked string, as
  in the code. An invalid role text is stored, and it raises only when the row is read.
- The message texts of the errors are not modelled. `InsufficientPermissions` carries the
  account id and the permission name that the message is built from.
- The query `get_employee_by_id` (internal/repo/employee/sql_query.py:31-34) is never used
  by the repository. It is the same statement as the account-keyed SELECT, which
  `EmployeeTable.Table.SelectByAccount` models.
