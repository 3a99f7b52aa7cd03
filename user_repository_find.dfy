/** `UserRepository.Find`: run the name query and rebuild a user from the first
    row it returns, or report that there is none. */
module UserRepositoryFind {
  import opened Users
  import opened UsersTable

  /** The user of the first row, in table order, whose name is `userName`;
      `None` (not an error) when no row has it. Only reads the table. */
  function Find(rows: seq<Row>, userName: UserName): (r: Option<User>)
    ensures r.None? <==> !Stored(rows, userName.value)
    ensures r.Some? ==> r.value.name == userName
    ensures forall k :: IsFirstMatch(rows, userName.value, k) ==> r == Some(ToUser(rows[k]))
  {
    SelectNonEmpty(rows, userName.value);
    SelectHead(rows, userName.value);
    var hits := Select(rows, userName.value);
    if hits != [] then
      assert hits[0] in hits;
      Some(ToUser(hits[0]))
    else
      None
  }

  /** When the name is stored, Find returns the user of the first matching row:
      same id, same name. */
  lemma FindReturnsFirstMatch(rows: seq<Row>, userName: UserName)
    requires Stored(rows, userName.value)
    ensures exists k :: IsFirstMatch(rows, userName.value, k) &&
                        Find(rows, userName) == Some(User(UserId(rows[k].id), userName))
  {
    FirstMatchExists(rows, userName.value);
    var k :| IsFirstMatch(rows, userName.value, k);
    assert Find(rows, userName) == Some(User(UserId(rows[k].id), userName));
  }

  /** After an INSERT of a user whose name was not stored, Find on that name
      returns that very user. */
  lemma InsertedUserIsFound(rows: seq<Row>, user: User)
    requires !Stored(rows, user.name.value)
    ensures Find(rows + [ToRow(user)], user.name) == Some(user)
  {
  }

  /** After the MERGE of a user whose name was not stored, Find on that name
      returns that very user, whether the id was new or already present. */
  lemma SavedUserIsFound(rows: seq<Row>, user: User)
    requires !Stored(rows, user.name.value)
    ensures Find(Upsert(rows, ToRow(user)), user.name) == Some(user)
  {
  }

  /** Saving a user under an existing id with a new name overwrites that row:
      when names were distinct, Find on the old name is then absent and Find on
      the new name returns the saved user. */
  lemma OverwrittenNameIsAbsent(rows: seq<Row>, k: int, user: User)
    requires NamesDistinct(rows) && !Stored(rows, user.name.value)
    requires 0 <= k < |rows| && rows[k].id == user.id.value
    ensures Find(Upsert(rows, ToRow(user)), UserName(rows[k].name)) == None
    ensures Find(Upsert(rows, ToRow(user)), user.name) == Some(user)
  {
    var r := Upsert(rows, ToRow(user));
    forall i | 0 <= i < |r| ensures r[i].name != rows[k].name {
      if i != k && r[i] != ToRow(user) {
        assert r[i] == rows[i];
      }
    }
    assert !Stored(r, rows[k].name);
    SavedUserIsFound(rows, user);
  }
}
