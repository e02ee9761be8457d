/** Failure-carrying values shared by every layer of the employee service. */
module Common {

  datatype Option<T> = None | Some(value: T) {
    /** The value if present, otherwise `default` (Python's `x if x is not None else default`). */
    function GetOr(default: T): T {
      match this
      case Some(v) => v
      case None => default
    }
  }

  /** The exceptions the core raises. `InvalidRole` stands for the ValueError that
      `EmployeeRole(s)` raises for a string outside the enum. */
  datatype Error =
    | EmployeeNotFound
    | InsufficientPermissions(accountId: int, permission: string)
    | InvalidRole(value: string)

  /** A call either returns a value or raises one of the errors above. */
  datatype Result<T> = Success(value: T) | Failure(error: Error)
}
