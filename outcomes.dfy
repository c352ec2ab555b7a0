/** Outcomes of the model functions.

    The repository signals failure by returning (or, in a few places, throwing)
    instances of its exception classes instead of the rows it would otherwise
    return. Callers test the class of what came back. Here each class is one
    `ErrorKind`, and a call either yields a value or one of those kinds.
 */
module Outcomes {

  datatype Option<+T> = None | Some(value: T)

  /** One constructor per exception class the core produces.
      `DatabaseException` also stands for every path on which the database
      round trip fails, including the TypeErrors the source raises while
      building a `databaseException` it never imported.
      `ReferenceError` is the error JavaScript throws for an unbound name.
      The colour model's `colorException` is always caught inside that model
      and replaced by a `databaseException`, so it has no kind here. */
  datatype ErrorKind =
    | PostItException
    | UserException
    | AuthException
    | CategoryException
    | DatabaseException
    | ReferenceError

  datatype Result<+T> = Ok(value: T) | Err(error: ErrorKind)
}
