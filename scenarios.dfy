/** Concrete calls against a fresh, empty store, proved from the contracts
    of the service and the handler alone. */
module Scenarios {
  import opened Domain
  import opened Repository
  import opened Service
  import opened ExceptionHandler

  function Jane(): UserDTO {
    UserDTO(None, "Jane", "Doe", "jane@x.com", Date(2000, 1, 1))
  }

  /** Creating Jane stores her under a new id; creating her again is refused
      with status 400 and the message naming her address. */
  method CreateTwice() returns (first: Result<User>, second: Result<User>, response: Response)
    ensures first.Ok? && first.value.id.Some? && first.value == ToEntity(Jane()).(id := first.value.id)
    ensures |first.value.id.value| > 0
    ensures second == Err(EmailAlreadyUsedException("User with email 'jane@x.com' already exists."))
    ensures response == Response(BAD_REQUEST, Single(ErrorDTO("User with email 'jane@x.com' already exists.")))
  {
    var repository := new UserRepository();
    var service := new UserService(repository);
    assert !EmailInUse(repository.users, "jane@x.com");
    first := service.CreateUser(Jane());
    var id := first.value.id.value;
    assert repository.users[id].emailAddress == "jane@x.com";
    assert EmailInUse(repository.users, "jane@x.com");
    second := service.CreateUser(Jane());
    assert EmailUsedMessage("jane@x.com") == "User with email 'jane@x.com' already exists.";
    response := HandleServiceException(second.exception);
  }

  /** Fetching an id that was never stored gives status 404 and the message naming it. */
  method FetchUnknown(id: string) returns (fetched: Result<UserDTO>, response: Response)
    ensures fetched.Err?
    ensures response == Response(NOT_FOUND, Single(ErrorDTO("The user with id '" + id + "' does not exist")))
  {
    var repository := new UserRepository();
    var service := new UserService(repository);
    fetched := service.FetchUserById(id);
    response := HandleServiceException(fetched.exception);
  }

  /** editUser as written: the edit of Jane's last name is reported as done,
      but fetching her afterwards still shows the old one. */
  method EditIsNotSaved() returns (edited: Result<UserDTO>, fetched: Result<UserDTO>)
    ensures edited.Ok? && edited.value.lastName == "Smith"
    ensures fetched.Ok? && fetched.value.lastName == "Doe"
  {
    var repository := new UserRepository();
    var service := new UserService(repository);
    var created := service.CreateUser(Jane());
    var id := created.value.id.value;
    edited := service.EditUser(id, Jane().(lastName := "Smith"));
    fetched := service.FetchUserById(id);
  }

  /** The corrected edit: the new last name is stored under the same id and
      address, and a fetch shows it. */
  method EditIsSaved() returns (id: string, edited: Result<UserDTO>, fetched: Result<UserDTO>)
    ensures edited.Ok? && edited.value.lastName == "Smith"
    ensures fetched.Ok? && fetched.value == edited.value
    ensures fetched.value.id == Some(id) && fetched.value.emailAddress == "jane@x.com"
  {
    var repository := new UserRepository();
    var service := new UserService(repository);
    var created := service.CreateUser(Jane());
    id := created.value.id.value;
    edited := service.EditAndSaveUser(id, Jane().(lastName := "Smith"));
    fetched := service.FetchUserById(id);
  }
}
