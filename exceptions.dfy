/**
 * The typed failures of the services and the result types that carry them,
 * in place of the exceptions the services throw.
 */
module Exceptions {

  datatype ServiceError =
    | LibraryNotFound(message: string)
      /** The key that was looked up; the message text belongs to CheckableService. */
    | CheckableNotFound(isbn: string)
    | ResourceExists(message: string)

  /** An optional value, as a lookup that may find nothing returns it. */
  datatype Option<T> = None | Some(value: T)

  /** The outcome of a query: a value, or the failure that was thrown. */
  datatype Result<T> = Ok(value: T) | Err(error: ServiceError)

  /** The outcome of a command that returns nothing on success. */
  datatype Outcome = Pass | Fail(error: ServiceError)

  /** The message of a failed lookup by library name. */
  function LibraryNotFoundMessage(name: string): string
  {
    "Library with the name: " + name + " was not found"
  }

  /** The message of a rejected save of a library whose name is taken. */
  function LibraryExistsMessage(name: string): string
  {
    "Library with name: " + name + " already exists!"
  }
}
