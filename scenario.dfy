/** The Entity Framework walk-through: on an empty store, create "naruse",
    read back the first stored user, then try to create "naruse" again. */
module Scenario {
  import opened Users
  import opened UsersTable
  import opened Repository
  import opened ProgramAfter
  import ProgramBefore

  /** Through an injected repository: the first stored row is "naruse" with the
      generated id, Find returns that user, and the second creation is a
      duplicate. */
  method NaruseScenario(firstId: UserId, secondId: UserId)
    returns (head: Row, found: Option<User>, second: Outcome<DuplicateName>)
    ensures head == Row(firstId.value, "naruse")
    ensures found == Some(User(firstId, UserName("naruse")))
    ensures second == Fail(DuplicateName("naruse"))
  {
    var userRepository := new UserRepository([]);
    var program := new Program(userRepository);
    var first := program.CreateUser("naruse", firstId);
    assert first == Pass;
    head := userRepository.rows[0];
    found := userRepository.Find(UserName("naruse"));
    second := program.CreateUser("naruse", secondId);
  }

  /** The same walk-through against the database the first version inserts into. */
  method NaruseScenarioBefore(firstId: UserId, secondId: UserId)
    returns (head: Row, second: Outcome<DuplicateName>)
    ensures head == Row(firstId.value, "naruse")
    ensures second == Fail(DuplicateName("naruse"))
  {
    var db := new ProgramBefore.UsersDatabase([]);
    var first := ProgramBefore.CreateUser(db, "naruse", firstId);
    head := db.users[0];
    second := ProgramBefore.CreateUser(db, "naruse", secondId);
  }
}
