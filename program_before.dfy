/** The first version of `Program.CreateUser`: check the name with
    `UserService.Exists`, then write the user with a literal
    `INSERT INTO users (id, name)` against the configured database. */
module ProgramBefore {
  import opened Users
  import opened UsersTable
  import UserRepositoryFind
  import UserService

  /** The database the configured connection string names; only its `users`
      table is modelled. */
  class UsersDatabase {
    var users: seq<Row>

    constructor (users: seq<Row>)
      ensures this.users == users
    {
      this.users := users;
    }
  }

  /** Build the user (with the identifier `newId` its constructor would
      generate), fail with a duplicate error if the name is taken, otherwise
      append its row to the table. */
  method CreateUser(db: UsersDatabase, userName: string, newId: UserId)
    returns (result: Outcome<DuplicateName>)
    modifies db
    ensures Stored(old(db.users), userName) ==>
              result == Fail(DuplicateName(userName)) && db.users == old(db.users)
    ensures !Stored(old(db.users), userName) ==>
              result == Pass && db.users == old(db.users) + [Row(newId.value, userName)]
    ensures |db.users| == |old(db.users)| + (if result.Pass? then 1 else 0)
    ensures result.Pass? ==>
              UserRepositoryFind.Find(db.users, UserName(userName)) == Some(User(newId, UserName(userName))) &&
              UserService.Exists(db.users, User(newId, UserName(userName)))
    ensures NamesDistinct(old(db.users)) ==> NamesDistinct(db.users)
    ensures IdsDistinct(old(db.users)) && !HasId(old(db.users), newId.value) ==> IdsDistinct(db.users)
  {
    var user := User(newId, UserName(userName));
    if UserService.Exists(db.users, user) {
      return Fail(DuplicateName(userName));
    }
    ghost var before := db.users;
    db.users := db.users + [ToRow(user)];
    UserRepositoryFind.InsertedUserIsFound(before, user);
    if NamesDistinct(before) {
      AppendKeepsNamesDistinct(before, ToRow(user));
    }
    if IdsDistinct(before) && !HasId(before, newId.value) {
      AppendKeepsIdsDistinct(before, ToRow(user));
    }
    result := Pass;
  }
}
