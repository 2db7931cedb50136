/** Values the user service works with: the stored entity, its transfer
    object, the ModelMapper copy between them, the two domain exceptions with
    their fixed messages, and the table-wide email predicates. */
module Domain {

  datatype Option<T> = None | Some(value: T)

  /** A java.time.LocalDate; the service only copies it. */
  datatype Date = Date(year: int, month: int, day: int)

  /** The persisted entity (model.User). `id` is None until the store assigns one. */
  datatype User = User(id: Option<string>, firstName: string, lastName: string,
                       emailAddress: string, dateOfBirth: Date)

  /** The transfer object (dto.UserDTO), the same five fields. */
  datatype UserDTO = UserDTO(id: Option<string>, firstName: string, lastName: string,
                             emailAddress: string, dateOfBirth: Date)

  /** ModelMapper's DTO-to-entity mapping: every field is copied, the id included. */
  function ToEntity(dto: UserDTO): (user: User)
    ensures user.id == dto.id && user.emailAddress == dto.emailAddress
    ensures user.firstName == dto.firstName && user.lastName == dto.lastName
    ensures user.dateOfBirth == dto.dateOfBirth
  {
    User(dto.id, dto.firstName, dto.lastName, dto.emailAddress, dto.dateOfBirth)
  }

  /** ModelMapper's entity-to-DTO mapping; it loses nothing, so mapping back
      gives the entity again. */
  function ToDto(user: User): (dto: UserDTO)
    ensures ToEntity(dto) == user
  {
    UserDTO(user.id, user.firstName, user.lastName, user.emailAddress, user.dateOfBirth)
  }

  datatype ServiceException =
    | UserDoesNotExistException(message: string)
    | EmailAlreadyUsedException(message: string)

  /** A service call either returns a value or throws one of the two exceptions. */
  datatype Result<T> = Ok(value: T) | Err(exception: ServiceException)

  /** String.format("The user with id '%s' does not exist", id) */
  function UserNotFoundMessage(id: string): string {
    "The user with id '" + id + "' does not exist"
  }

  /** String.format("User with email '%s' already exists.", email) */
  function EmailUsedMessage(email: string): string {
    "User with email '" + email + "' already exists."
  }

  /** A text framed by a fixed prefix and suffix determines what stands between them. */
  lemma {:induction false} FramedInjective(prefix: string, suffix: string, a: string, b: string)
    requires prefix + a + suffix == prefix + b + suffix
    ensures a == b
  {
    var m := prefix + a + suffix;
    assert |a| == |b|;
    assert a == m[|prefix|..|prefix| + |a|];
    assert b == m[|prefix|..|prefix| + |b|];
  }

  /** The not-found message names the id verbatim: two ids give two messages. */
  lemma NotFoundMessageInjective(a: string, b: string)
    requires UserNotFoundMessage(a) == UserNotFoundMessage(b)
    ensures a == b
  {
    FramedInjective("The user with id '", "' does not exist", a, b);
  }

  /** The email-used message names the address verbatim: two addresses give two messages. */
  lemma EmailUsedMessageInjective(a: string, b: string)
    requires EmailUsedMessage(a) == EmailUsedMessage(b)
    ensures a == b
  {
    FramedInjective("User with email '", "' already exists.", a, b);
  }

  /** Some stored user has this email address. */
  ghost predicate EmailInUse(users: map<string, User>, email: string) {
    exists k :: k in users && users[k].emailAddress == email
  }

  /** No two stored users share an email address. */
  ghost predicate EmailsUnique(users: map<string, User>) {
    forall k1, k2 :: k1 in users && k2 in users && users[k1].emailAddress == users[k2].emailAddress ==> k1 == k2
  }

  /** Storing a user under `k` keeps emails unique when no OTHER stored user has its email. */
  lemma PutPreservesEmailsUnique(users: map<string, User>, k: string, user: User)
    requires EmailsUnique(users)
    requires forall j :: j in users && j != k ==> users[j].emailAddress != user.emailAddress
    ensures EmailsUnique(users[k := user])
  {
  }
}
