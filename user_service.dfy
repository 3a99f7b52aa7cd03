/** `UserService.Exists`: run the name query and answer whether it returned a row. */
module UserService {
  import opened Users
  import opened UsersTable
  import UserRepositoryFind

  /** Whether the query by `user`'s name yields a row; read-only. */
  function Exists(rows: seq<Row>, user: User): (found: bool)
    ensures found <==> Stored(rows, user.name.value)
  {
    SelectNonEmpty(rows, user.name.value);
    Select(rows, user.name.value) != []
  }

  /** Exists and Find run the same query: a user exists exactly when Find on
      its name is present, and then Find's user carries that name. */
  lemma ExistsIffFindPresent(rows: seq<Row>, user: User)
    ensures Exists(rows, user) <==> UserRepositoryFind.Find(rows, user.name).Some?
    ensures Exists(rows, user) ==> UserRepositoryFind.Find(rows, user.name).value.name == user.name
  {
  }
}
