/** The domain values the create-user workflow passes around: the `User`
    entity with its `UserId` and `UserName` value objects, the optional result
    of a lookup, and the typed failure that replaces the thrown "already
    exists" exception. */
module Users {

  /** Opaque identifier of a user; `Value` is what is written to the `id` column. */
  datatype UserId = UserId(value: string)

  /** The name of a user; treated as an opaque string (no validation is modelled). */
  datatype UserName = UserName(value: string)

  /** A user: an identifier and a name, immutable once built. */
  datatype User = User(id: UserId, name: UserName)

  /** "Found" or "not found", in place of a null reference. */
  datatype Option<T> = None | Some(value: T)

  /** The outcome of an operation that returns nothing but may fail. */
  datatype Outcome<E> = Pass | Fail(error: E)

  /** The business-rule failure of CreateUser: a user with this name is already stored. */
  datatype DuplicateName = DuplicateName(name: string)
}
