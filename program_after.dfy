/** The second version of `Program`: the repository is injected through the
    constructor and `CreateUser` persists through its `Save`. */
module ProgramAfter {
  import opened Users
  import opened UsersTable
  import UserRepositoryFind
  import UserService
  import opened Repository

  class Program {
    /** The repository given to the constructor; the only storage CreateUser touches. */
    var userRepository: UserRepository

    constructor (userRepository: UserRepository)
      ensures this.userRepository == userRepository
    {
      this.userRepository := userRepository;
    }

    /** Build the user (with the identifier `newId` its constructor would
        generate), fail with a duplicate error before any Save if the name is
        taken, otherwise Save it through the injected repository. */
    method CreateUser(userName: string, newId: UserId) returns (result: Outcome<DuplicateName>)
      modifies userRepository
      ensures Stored(old(userRepository.rows), userName) ==>
                result == Fail(DuplicateName(userName)) && userRepository.rows == old(userRepository.rows)
      ensures !Stored(old(userRepository.rows), userName) ==>
                result == Pass && userRepository.rows == Upsert(old(userRepository.rows), Row(newId.value, userName))
      ensures result.Pass? && !HasId(old(userRepository.rows), newId.value) ==>
                userRepository.rows == old(userRepository.rows) + [Row(newId.value, userName)]
      ensures result.Pass? ==>
                UserRepositoryFind.Find(userRepository.rows, UserName(userName)) == Some(User(newId, UserName(userName))) &&
                UserService.Exists(userRepository.rows, User(newId, UserName(userName)))
      ensures NamesDistinct(old(userRepository.rows)) && IdsDistinct(old(userRepository.rows)) ==>
                NamesDistinct(userRepository.rows) && IdsDistinct(userRepository.rows)
    {
      var user := User(newId, UserName(userName));
      if UserService.Exists(userRepository.rows, user) {
        return Fail(DuplicateName(userName));
      }
      ghost var before := userRepository.rows;
      userRepository.Save(user);
      UserRepositoryFind.SavedUserIsFound(before, user);
      if NamesDistinct(before) && IdsDistinct(before) {
        UpsertKeepsDistinct(before, ToRow(user));
      }
      result := Pass;
    }
  }
}
