/** The SQL-backed `UserRepository`: the object the after version of Program is
    given, holding the `users` table it saves to and finds in. */
module Repository {
  import opened Users
  import opened UsersTable
  import UserRepositoryFind

  class UserRepository {
    /** The `users` table behind the repository, in table order. */
    var rows: seq<Row>

    constructor (rows: seq<Row>)
      ensures this.rows == rows
    {
      this.rows := rows;
    }

    /** Save runs the id-keyed MERGE: the user's row replaces the name of any
        row with its id, and is inserted when no row has that id. */
    method Save(user: User)
      modifies this
      ensures rows == Upsert(old(rows), ToRow(user))
      ensures !HasId(old(rows), user.id.value) ==> rows == old(rows) + [ToRow(user)]
      ensures ToRow(user) in rows
    {
      rows := Upsert(rows, ToRow(user));
    }

    /** Find through the repository object; reads the table and changes nothing. */
    method Find(userName: UserName) returns (r: Option<User>)
      ensures r == UserRepositoryFind.Find(rows, userName)
      ensures r.None? <==> !Stored(rows, userName.value)
      ensures r.Some? ==> r.value.name == userName
    {
      r := UserRepositoryFind.Find(rows, userName);
    }
  }
}
