# User management: the user lifecycle service and its error responses

This project is a Dafny model of the decision logic in a small Spring Boot
CRUD service for user records: a first name, a last name, an email address
and a date of birth. It covers two parts:

- `UserService`: create, fetch-by-id, fetch-all, edit and delete against
  the user table.
- util `GlobalExceptionHandler`: turns the service's exceptions and
  bean-validation failures into an HTTP status and an error body.

The MongoDB repository is modelled as an in-memory table (class
`Repository.UserRepository`). It holds a map from id to stored user and the
sequence of ids in the order `findAll` lists them. Its invariant `Valid()`
says three things: every stored id is listed exactly once, nothing else is
listed, and each stored user carries its own id. `save` gives a user
without an id a fresh one that no stored id equals. With an id, `save`
stores the user under that id.

The service (class `Service.UserService`) holds the repository, as the
Java class does. Operations that change the store are methods with
`modifies`: `CreateUser`, `DeleteUser` and the corrected `EditAndSaveUser`.
`FetchAllUsers` is a method with the source's loop. The read-only
operations are functions: `EmailExists`, `FetchUserById` and `EditUser`.
The two exceptions are the constructors of `Domain.ServiceException`, and
a call returns `Domain.Result`. Email uniqueness (`Domain.EmailsUnique`:
no two stored users share an address) is not assumed. Each state-changing
method proves that it preserves it.

Modules: `Domain` (entity, DTO, ModelMapper copy, exceptions, messages),
`Repository`, `Service`, `ExceptionHandler`, and `Scenarios` (scenario
methods: call sequences on an empty store whose outcomes are proved from
the contracts alone).

Edit is the one place in the modelled service where the code's behaviour
and its surroundings disagree. The code (`UserService.java:61-75`) only validates and returns the input DTO;
it never saves. Yet the PUT endpoint returns that result as the updated
user (`UserController.java:54-57`), the service test stubs
`save(updatedUser)` for the success path (`UserServiceTest.java:103`) and
checks that `save` is not called on the not-found path
(`UserServiceTest.java:125`). `Service.UserService.EditUser` follows the
code. The evidently intended full replace is modelled separately (see
Findings).

## Model

| member | source | states |
|---|---|---|
| `Domain.ToEntity` | src/main/java/com/users/management/service/UserService.java:35 | ModelMapper copies every DTO field, the id included, into the entity |
| `Domain.ToDto` | src/main/java/com/users/management/service/UserService.java:49 | the entity-to-DTO copy loses nothing: mapping it back gives the same entity |
| `Domain.NotFoundMessageInjective` | src/main/java/com/users/management/service/UserService.java:44 | the message "The user with id '<id>' does not exist" names the id verbatim: different ids give different messages |
| `Domain.EmailUsedMessageInjective` | src/main/java/com/users/management/service/UserService.java:32 | the message "User with email '<e>' already exists." names the address verbatim: different addresses give different messages |
| `Domain.PutPreservesEmailsUnique` | src/main/java/com/users/management/service/UserService.java:31-37 | storing a user whose email no other stored user has keeps all stored emails distinct |
| `Repository.FreshId` | src/main/java/com/users/management/service/UserService.java:37 | the id the store assigns on insert is non-empty and not among the ids already used |
| `Repository.UserRepository.FindById` | src/main/java/com/users/management/service/UserService.java:41 | the lookup finds a user exactly when the id is stored, and then it is the stored user |
| `Repository.UserRepository.FindAll` | src/main/java/com/users/management/service/UserService.java:53 | lists every stored user exactly once, in the store's order, as many entries as stored users |
| `Repository.UserRepository.FindOneByEmailAddress` | src/main/java/com/users/management/repository/UserRepository.java:12 | finds a user exactly when some stored user has the address; what it finds is that stored user, under its own id |
| `Repository.UserRepository.Save` | src/main/java/com/users/management/service/UserService.java:37 | a user without an id gets a fresh, non-empty id and is appended. A user with an id is stored under it. Only that one entry changes, and the saved user equals the input except for the id |
| `Repository.UserRepository.DeleteById` | src/main/java/com/users/management/service/UserService.java:90 | removes exactly that id from the table and from the listing; the invariant is kept |
| `Service.UserService.EmailExists` | src/main/java/com/users/management/service/UserService.java:77-81 | true exactly when some stored user already has the address |
| `Service.UserService.CreateUser` | src/main/java/com/users/management/service/UserService.java:30-38 | address in use: EmailAlreadyUsed with the fixed message, table unchanged. Otherwise: one record with the DTO's fields is stored under a non-empty id new to the table (when the DTO has none) and returned; a new id is appended to the findAll listing and the existing users keep their order. Email uniqueness is preserved |
| `Service.UserService.FetchUserById` | src/main/java/com/users/management/service/UserService.java:40-50 | fails with UserDoesNotExist and the fixed message exactly when the id is absent. Otherwise returns a DTO whose id is the requested id and whose fields are the stored user's |
| `Service.UserService.FetchAllUsers` | src/main/java/com/users/management/service/UserService.java:52-59 | one DTO per stored user, position by position in findAll order, the same length as the table; every stored user appears; nothing changes |
| `Service.UserService.EditUser` | src/main/java/com/users/management/service/UserService.java:61-75 | absent id: UserDoesNotExist, whatever the email. Present id with an unchanged email: succeeds even though that address is in use. Changed email: EmailAlreadyUsed exactly when some stored user has it. On success it returns exactly the input DTO and saves nothing |
| `Service.UserService.EditAndSaveUser` | src/main/java/com/users/management/service/UserService.java:61-75 | corrected edit: fails exactly as `EditUser` does, changing nothing. On success the DTO's fields replace the stored record under the same id, which is returned. Listing order and email uniqueness are kept |
| `Service.UserService.DeleteUser` | src/main/java/com/users/management/service/UserService.java:83-91 | absent id: UserDoesNotExist, nothing changes. Present id: exactly that record is removed and the others stay in order. Afterwards the id is absent. Email uniqueness is preserved |
| `Service.DeleteTwice` | src/main/java/com/users/management/service/UserService.java:83-91 | delete is not idempotent: the second delete of the same id fails with UserDoesNotExist |
| `ExceptionHandler.UserDoesNotExist` | src/main/java/com/users/management/util/GlobalExceptionHandler.java:26-31 | status 404, a single error whose message is the exception's message verbatim |
| `ExceptionHandler.EmailAlreadyUsed` | src/main/java/com/users/management/util/GlobalExceptionHandler.java:33-38 | status 400, a single error whose message is the exception's message verbatim |
| `ExceptionHandler.HandleServiceException` | src/main/java/com/users/management/util/GlobalExceptionHandler.java:26-38 | status 404 exactly for UserDoesNotExist, 400 exactly for EmailAlreadyUsed, and the body carries the message |
| `ExceptionHandler.HandleServiceExceptionInjective` | src/main/java/com/users/management/util/GlobalExceptionHandler.java:26-38 | two exceptions that produce the same response are the same exception |
| `ExceptionHandler.HandleMethodArgumentNotValid` | src/main/java/com/users/management/util/GlobalExceptionHandler.java:40-55 | status 400 whatever status is passed in. There is one entry per field error plus one per global error. Field entries "<field>, <message>" come first in input order, then global entries "<objectName>, <message>" in input order |
| `Scenarios.CreateTwice` | src/main/java/com/users/management/service/UserService.java:30-37 | creating Jane Doe succeeds with a new, non-empty id. Creating her again yields "User with email 'jane@x.com' already exists." with status 400 |
| `Scenarios.FetchUnknown` | src/main/java/com/users/management/service/UserService.java:40-45 | fetching an unknown id yields status 404 with "The user with id '<id>' does not exist" |
| `Scenarios.EditIsNotSaved` | src/main/java/com/users/management/service/UserService.java:61-75 | as written, an edit of the last name reports the new name, but a later fetch still returns the old one |
| `Scenarios.EditIsSaved` | src/main/java/com/users/management/service/UserService.java:61-75 | with the corrected edit, a later fetch returns the edited record, with the same id and the same address |

## Left out

- The MongoDB driver, its ObjectId generation and its `DuplicateKeyException`: the store is an in-memory table. `FreshId` only has to avoid the ids in use, and no exception handler in the repository catches a duplicate-key error.
- Concurrency: each call is one atomic step on the table, so the race between `emailExists` and `save` is not modelled.
- `Repository.UserRepository.FindOneByEmailAddress`: when two stored users share the address, the real query throws. The model returns the first match in findAll order instead. This cannot happen while `EmailsUnique` holds, and every operation preserves it.
- Bean-validation annotations on the DTO (`@NotBlank`, `@Email`, `@Past`): their rules live in javax.validation and `@Past` reads the wall clock. The model takes their outcome as given, as the binding result passed to `HandleMethodArgumentNotValid`.
- Java `null`: strings and dates are never null here. A null email in `editUser` would throw, and "%s" would print "null".
- JSON (de)serialisation, the `dd-MM-yyyy` date format, the controller's routes, its `ResponseEntity` and its Location header.
- The `headers` and `request` parameters of `handleMethodArgumentNotValid`: the body never reads them.
- exception/GlobalExceptionHandler.java: its methods carry no `@ExceptionHandler` annotation, so they are never called.
- Accessors, `equals`, `hashCode` and `toString` of the DTOs: Dafny datatypes compare structurally.

## Findings

| source | as written | input that shows it | evidently intended | confidence | as-written member | corrected member |
|---|---|---|---|---|---|---|
| src/main/java/com/users/management/service/UserService.java:61-75 | `editUser` checks the id and the email and returns the input DTO, but never saves it | create Jane Doe, then edit her last name to "Smith": the edit returns "Smith", but fetching her still returns "Doe" | the DTO's fields replace the stored record under the same id (a full replace), as the PUT endpoint and the save stubbed in the service test imply | not executed; high | `Scenarios.EditIsNotSaved` | `Service.UserService.EditAndSaveUser` |
