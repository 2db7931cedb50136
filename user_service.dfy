/** The user lifecycle service (service.UserService): create, fetch one,
    fetch all, edit and delete against the user table, enforcing email
    uniqueness on create and edit and the existence of the id on fetch, edit
    and delete. */
module Service {
  import opened Domain
  import opened Repository

  class UserService {
    const userRepository: UserRepository

    constructor (userRepository: UserRepository)
      ensures this.userRepository == userRepository
    {
      this.userRepository := userRepository;
    }

    ghost predicate Valid()
      reads this, userRepository
    {
      userRepository.Valid()
    }

    /** emailExists: whether some stored user already has this address. */
    function EmailExists(email: string): (b: bool)
      reads this, userRepository
      requires Valid()
      ensures b <==> EmailInUse(userRepository.users, email)
    {
      userRepository.FindOneByEmailAddress(email).Some?
    }

    /** createUser: refuses an address already in use and leaves the table as
        it was; otherwise saves the DTO's fields as one record and returns it. */
    method CreateUser(userDTO: UserDTO) returns (r: Result<User>)
      requires Valid()
      modifies userRepository
      ensures Valid()
      ensures EmailInUse(old(userRepository.users), userDTO.emailAddress) ==>
        && r == Err(EmailAlreadyUsedException(EmailUsedMessage(userDTO.emailAddress)))
        && userRepository.users == old(userRepository.users)
        && userRepository.order == old(userRepository.order)
      ensures !EmailInUse(old(userRepository.users), userDTO.emailAddress) ==>
        && r.Ok? && r.value.id.Some?
        && r.value == ToEntity(userDTO).(id := r.value.id)
        && (userDTO.id.None? ==> r.value.id.value !in old(userRepository.users) && |r.value.id.value| > 0)
        && (userDTO.id.Some? ==> r.value.id == userDTO.id)
        && userRepository.users == old(userRepository.users)[r.value.id.value := r.value]
        && userRepository.order ==
             if r.value.id.value in old(userRepository.users) then old(userRepository.order)
             else old(userRepository.order) + [r.value.id.value]
      ensures EmailsUnique(old(userRepository.users)) ==> EmailsUnique(userRepository.users)
    {
      var emailTaken := EmailExists(userDTO.emailAddress);
      if emailTaken {
        return Err(EmailAlreadyUsedException(EmailUsedMessage(userDTO.emailAddress)));
      }
      var user := ToEntity(userDTO);
      ghost var before := userRepository.users;
      var saved := userRepository.Save(user);
      if EmailsUnique(before) {
        PutPreservesEmailsUnique(before, saved.id.value, saved);
      }
      r := Ok(saved);
    }

    /** fetchUserById: the stored user as a DTO, or the not-found exception. */
    function FetchUserById(id: string): (r: Result<UserDTO>)
      reads this, userRepository
      requires Valid()
      ensures r.Err? <==> id !in userRepository.users
      ensures r.Err? ==> r.exception == UserDoesNotExistException(UserNotFoundMessage(id))
      ensures r.Ok? ==> r.value.id == Some(id) && ToEntity(r.value) == userRepository.users[id]
    {
      var userResult := userRepository.FindById(id);
      if userResult.None? then Err(UserDoesNotExistException(UserNotFoundMessage(id)))
      else Ok(ToDto(userResult.value))
    }

    /** fetchAllUsers: one DTO per stored user, in findAll order. */
    method FetchAllUsers() returns (userDTOList: seq<UserDTO>)
      requires Valid()
      ensures |userDTOList| == |userRepository.users|
      ensures forall i :: 0 <= i < |userDTOList| ==> ToEntity(userDTOList[i]) == userRepository.FindAll()[i]
      ensures forall k :: k in userRepository.users ==> ToDto(userRepository.users[k]) in userDTOList
    {
      var userList := userRepository.FindAll();
      userDTOList := [];
      for i := 0 to |userList|
        invariant |userDTOList| == i
        invariant forall j :: 0 <= j < i ==> userDTOList[j] == ToDto(userList[j])
      {
        userDTOList := userDTOList + [ToDto(userList[i])];
      }
      forall k | k in userRepository.users
        ensures ToDto(userRepository.users[k]) in userDTOList
      {
        var i :| 0 <= i < |userList| && userList[i] == userRepository.users[k];
        assert userDTOList[i] == ToDto(userList[i]);
      }
    }

    /** editUser as written: checks that the id exists, then that a changed
        address is not in use, and returns the DTO it was given. It saves
        nothing, so the table is never changed. */
    function EditUser(id: string, userDTO: UserDTO): (r: Result<UserDTO>)
      reads this, userRepository
      requires Valid()
      ensures id !in userRepository.users ==>
        r == Err(UserDoesNotExistException(UserNotFoundMessage(id)))
      ensures (&& id in userRepository.users
               && userDTO.emailAddress != userRepository.users[id].emailAddress
               && EmailInUse(userRepository.users, userDTO.emailAddress)) ==>
        r == Err(EmailAlreadyUsedException(EmailUsedMessage(userDTO.emailAddress)))
      ensures r.Ok? <==>
        && id in userRepository.users
        && (userDTO.emailAddress == userRepository.users[id].emailAddress
            || !EmailInUse(userRepository.users, userDTO.emailAddress))
      ensures r.Ok? ==> r.value == userDTO
    {
      var userResult := userRepository.FindById(id);
      if userResult.None? then Err(UserDoesNotExistException(UserNotFoundMessage(id)))
      else if userDTO.emailAddress != userResult.value.emailAddress && EmailExists(userDTO.emailAddress) then
        Err(EmailAlreadyUsedException(EmailUsedMessage(userDTO.emailAddress)))
      else Ok(userDTO)
    }

    /** editUser as evidently intended: the same checks, then the DTO's fields
        replace the stored record under the same id, which is returned. */
    method EditAndSaveUser(id: string, userDTO: UserDTO) returns (r: Result<UserDTO>)
      requires Valid()
      modifies userRepository
      ensures Valid()
      ensures r.Err? ==>
        && r == old(EditUser(id, userDTO))
        && userRepository.users == old(userRepository.users)
        && userRepository.order == old(userRepository.order)
      ensures r.Ok? <==> old(EditUser(id, userDTO)).Ok?
      ensures r.Ok? ==>
        && r.value == userDTO.(id := Some(id))
        && userRepository.users == old(userRepository.users)[id := ToEntity(r.value)]
        && userRepository.order == old(userRepository.order)
      ensures EmailsUnique(old(userRepository.users)) ==> EmailsUnique(userRepository.users)
    {
      var checked := EditUser(id, userDTO);
      if checked.Err? {
        return checked;
      }
      ghost var before := userRepository.users;
      var user := ToEntity(userDTO.(id := Some(id)));
      var saved := userRepository.Save(user);
      if EmailsUnique(before) {
        PutPreservesEmailsUnique(before, id, saved);
      }
      r := Ok(ToDto(saved));
    }

    /** deleteUser: the not-found exception and no change for an absent id;
        otherwise exactly that record is removed. */
    method DeleteUser(id: string) returns (r: Result<()>)
      requires Valid()
      modifies userRepository
      ensures Valid()
      ensures id !in old(userRepository.users) ==>
        && r == Err(UserDoesNotExistException(UserNotFoundMessage(id)))
        && userRepository.users == old(userRepository.users)
        && userRepository.order == old(userRepository.order)
      ensures id in old(userRepository.users) ==>
        && r == Ok(())
        && userRepository.users == old(userRepository.users) - {id}
        && userRepository.order == Remove(old(userRepository.order), id)
      ensures id !in userRepository.users
      ensures EmailsUnique(old(userRepository.users)) ==> EmailsUnique(userRepository.users)
    {
      var userResult := userRepository.FindById(id);
      if userResult.None? {
        return Err(UserDoesNotExistException(UserNotFoundMessage(id)));
      }
      userRepository.DeleteById(id);
      r := Ok(());
    }
  }

  /** Delete is not idempotent: deleting the same id twice, the second call fails. */
  method DeleteTwice(service: UserService, id: string) returns (first: Result<()>, second: Result<()>)
    requires service.Valid()
    modifies service.userRepository
    ensures first.Ok? <==> id in old(service.userRepository.users)
    ensures second == Err(UserDoesNotExistException(UserNotFoundMessage(id)))
  {
    first := service.DeleteUser(id);
    second := service.DeleteUser(id);
  }
}
