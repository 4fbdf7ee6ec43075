/**
 * The service's unit-test scenarios, replayed against the contracts of
 * UserService alone: each builds a repository in the state the test
 * arranges, runs one operation, and states what the test asserts.
 */
module Scenarios {

  import opened Wrappers
  import opened Models
  import opened Validation
  import opened Traces
  import opened Repositories
  import opened Logging
  import opened Services

  /** Listing an empty store returns the empty list and logs start then end. */
  method GetAllOnEmptyStore(elapsedMs: nat) returns (r: Outcome<seq<User>>, entries: seq<LogEntry>)
    ensures r == Ok([])
    ensures entries == [Info(RetrievingAllUsers, []), Info(AllUsersRetrieved, [MillisecondsArg(elapsedMs)])]
  {
    var timeline := new Timeline();
    var repository := new UserRepository([], map[], map[], timeline);
    var logger := new LoggerAdapter(timeline);
    var service := new UserService(repository, logger);
    r := service.GetAllAsync(elapsedMs);
    entries := logger.entries;
  }

  /** A failing store: the same exception is logged once and rethrown, and both information entries are still written. */
  method GetAllWhenStoreThrows(e: Exception, elapsedMs: nat) returns (r: Outcome<seq<User>>, entries: seq<LogEntry>)
    ensures r == StorageError(e)
    ensures Errors(entries) == [Error(e, RetrievingAllUsersFailed, [])]
    ensures Infos(entries) == [Info(RetrievingAllUsers, []), Info(AllUsersRetrieved, [MillisecondsArg(elapsedMs)])]
  {
    var timeline := new Timeline();
    var repository := new UserRepository([], map[Operation.GetAll := e], map[], timeline);
    var logger := new LoggerAdapter(timeline);
    var service := new UserService(repository, logger);
    r := service.GetAllAsync(elapsedMs);
    entries := logger.entries;
    AppendTimedSection([], Info(RetrievingAllUsers, []), Some(Error(e, RetrievingAllUsersFailed, [])),
                       Info(AllUsersRetrieved, [MillisecondsArg(elapsedMs)]));
  }

  /** Listing a store of one user returns exactly that user, and logs start then end. */
  method GetAllWithOneUser(user: User, elapsedMs: nat) returns (r: Outcome<seq<User>>, entries: seq<LogEntry>)
    ensures r == Ok([user])
    ensures entries == [Info(RetrievingAllUsers, []), Info(AllUsersRetrieved, [MillisecondsArg(elapsedMs)])]
  {
    var timeline := new Timeline();
    var repository := new UserRepository([user], map[], map[], timeline);
    var logger := new LoggerAdapter(timeline);
    var service := new UserService(repository, logger);
    r := service.GetAllAsync(elapsedMs);
    entries := logger.entries;
  }

  /** An unknown id is a normal, absent result; both entries carry the requested id. */
  method GetByIdOfUnknownUser(id: Guid, elapsedMs: nat) returns (r: Outcome<Option<User>>, entries: seq<LogEntry>)
    ensures r == Ok(None)
    ensures entries == [Info(RetrievingUser, [IdArg(id)]), Info(UserRetrieved, [IdArg(id), MillisecondsArg(elapsedMs)])]
  {
    var timeline := new Timeline();
    var repository := new UserRepository([], map[], map[], timeline);
    var logger := new LoggerAdapter(timeline);
    var service := new UserService(repository, logger);
    r := service.GetByIdAsync(id, elapsedMs);
    entries := logger.entries;
  }

  /** A stored user is returned unchanged when looked up by its id; both entries carry that id. */
  method GetByIdOfStoredUser(user: User, elapsedMs: nat) returns (r: Outcome<Option<User>>, entries: seq<LogEntry>)
    ensures r == Ok(Some(user))
    ensures entries == [Info(RetrievingUser, [IdArg(user.id)]), Info(UserRetrieved, [IdArg(user.id), MillisecondsArg(elapsedMs)])]
  {
    var timeline := new Timeline();
    var repository := new UserRepository([user], map[], map[], timeline);
    var logger := new LoggerAdapter(timeline);
    var service := new UserService(repository, logger);
    r := service.GetByIdAsync(user.id, elapsedMs);
    entries := logger.entries;
  }

  /** A failing lookup: the exception is logged once with the requested id and rethrown; both information entries are still written. */
  method GetByIdWhenStoreThrows(id: Guid, e: Exception, elapsedMs: nat) returns (r: Outcome<Option<User>>, entries: seq<LogEntry>)
    ensures r == StorageError(e)
    ensures Errors(entries) == [Error(e, RetrievingUserFailed, [IdArg(id)])]
    ensures Infos(entries) == [Info(RetrievingUser, [IdArg(id)]), Info(UserRetrieved, [IdArg(id), MillisecondsArg(elapsedMs)])]
  {
    var timeline := new Timeline();
    var repository := new UserRepository([], map[Operation.GetById := e], map[], timeline);
    var logger := new LoggerAdapter(timeline);
    var service := new UserService(repository, logger);
    r := service.GetByIdAsync(id, elapsedMs);
    entries := logger.entries;
    AppendTimedSection([], Info(RetrievingUser, [IdArg(id)]), Some(Error(e, RetrievingUserFailed, [IdArg(id)])),
                       Info(UserRetrieved, [IdArg(id), MillisecondsArg(elapsedMs)]));
  }

  /** An empty name is rejected with both messages joined; nothing is logged and the repository is never called. */
  method CreateWithEmptyName(newId: Guid, elapsedMs: nat) returns (r: Outcome<bool>, entries: seq<LogEntry>, ghost calls: seq<RepositoryCall>)
    requires newId != EmptyGuid
    ensures r == ValidationError("Full name cannot be null or empty" + ", " + "Full name must be greater than 3 letter")
    ensures entries == [] && calls == []
  {
    var timeline := new Timeline();
    var repository := new UserRepository([], map[], map[], timeline);
    var logger := new LoggerAdapter(timeline);
    var service := new UserService(repository, logger);
    EmptyNameMessages();
    r := service.CreateAsync(CreateUserDto(""), newId, elapsedMs);
    entries := logger.entries;
    calls := repository.received;
  }

  /** A name already stored is rejected after the uniqueness check; create is never reached and nothing is logged. */
  method CreateWithTakenName(name: string, existing: Guid, newId: Guid, elapsedMs: nat)
    returns (r: Outcome<bool>, entries: seq<LogEntry>, ghost calls: seq<RepositoryCall>)
    requires Validate(CreateUserDto(name)) == []
    requires newId != EmptyGuid && newId != existing
    ensures r == DuplicateName && r.Message() == "Name already exist"
    ensures entries == [] && calls == [NameIsExistCall(name)]
  {
    var timeline := new Timeline();
    var repository := new UserRepository([User(existing, name)], map[], map[], timeline);
    var logger := new LoggerAdapter(timeline);
    var service := new UserService(repository, logger);
    r := service.CreateAsync(CreateUserDto(name), newId, elapsedMs);
    entries := logger.entries;
    calls := repository.received;
  }

  /**
   * A valid, unique name (such as "Emir TARTAR", see ExampleNameIsValid) is
   * stored under the new id; the result is the flag the repository was told
   * to report (`.Returns(true)` in the test), bracketed by two entries.
   */
  method CreateWithValidUniqueName(name: string, answer: bool, newId: Guid, elapsedMs: nat)
    returns (r: Outcome<bool>, entries: seq<LogEntry>, stored: seq<User>)
    requires Validate(CreateUserDto(name)) == []
    requires newId != EmptyGuid
    ensures r == Ok(answer)
    ensures stored == [User(newId, name)]
    ensures entries == [ Info(CreatingUser, [IdArg(newId), TextArg(name)]),
                         Info(UserCreated, [IdArg(newId), MillisecondsArg(elapsedMs)]) ]
  {
    var timeline := new Timeline();
    var repository := new UserRepository([], map[], map[Operation.Create := answer], timeline);
    var logger := new LoggerAdapter(timeline);
    var service := new UserService(repository, logger);
    var user := CreateUserDtoToUserObject(CreateUserDto(name), newId);
    assert [] + [user] == [user];
    assert !AnyWithName(repository.users, name);
    assert Operation.NameIsExist !in repository.faults && Operation.Create !in repository.faults;
    r := service.CreateAsync(CreateUserDto(name), newId, elapsedMs);
    assert r == Ok(repository.Reported(Operation.Create, true));
    assert repository.users == [] + [user];
    assert logger.entries == [] + TimedSection(Info(CreatingUser, [IdArg(newId), TextArg(name)]), None,
                                               Info(UserCreated, [IdArg(newId), MillisecondsArg(elapsedMs)]));
    entries := logger.entries;
    stored := repository.users;
  }

  /** A failing insert is logged with the same exception between the two information entries, and rethrown. */
  method CreateWhenStoreThrows(name: string, e: Exception, newId: Guid, elapsedMs: nat)
    returns (r: Outcome<bool>, entries: seq<LogEntry>, stored: seq<User>)
    requires Validate(CreateUserDto(name)) == []
    requires newId != EmptyGuid
    ensures r == StorageError(e) && stored == []
    ensures entries == [ Info(CreatingUser, [IdArg(newId), TextArg(name)]),
                         Error(e, CreatingUserFailed, []),
                         Info(UserCreated, [IdArg(newId), MillisecondsArg(elapsedMs)]) ]
  {
    var timeline := new Timeline();
    var repository := new UserRepository([], map[Operation.Create := e], map[], timeline);
    var logger := new LoggerAdapter(timeline);
    var service := new UserService(repository, logger);
    r := service.CreateAsync(CreateUserDto(name), newId, elapsedMs);
    entries := logger.entries;
    stored := repository.users;
  }

  /** Deleting a stored user returns the flag the repository was told to report, empties the store, and logs the id of the record found. */
  method DeleteExistingUser(id: Guid, answer: bool, elapsedMs: nat)
    returns (r: Outcome<bool>, entries: seq<LogEntry>, stored: seq<User>)
    ensures r == Ok(answer) && stored == []
    ensures entries == [Info(DeletingUser, [IdArg(id)]), Info(UserDeleted, [IdArg(id), MillisecondsArg(elapsedMs)])]
  {
    var timeline := new Timeline();
    var repository := new UserRepository([User(id, "Emir TARTAR")], map[], map[Operation.Delete := answer], timeline);
    var logger := new LoggerAdapter(timeline);
    var service := new UserService(repository, logger);
    r := service.DeleteByIdAsync(id, elapsedMs);
    entries := logger.entries;
    stored := repository.users;
  }

  /** Deleting an unknown id fails with "User not found" after the lookup alone; nothing is logged. */
  method DeleteUnknownUser(id: Guid, elapsedMs: nat)
    returns (r: Outcome<bool>, entries: seq<LogEntry>, ghost calls: seq<RepositoryCall>)
    ensures r == NotFound && r.Message() == "User not found"
    ensures entries == [] && calls == [GetByIdCall(id)]
  {
    var timeline := new Timeline();
    var repository := new UserRepository([], map[], map[], timeline);
    var logger := new LoggerAdapter(timeline);
    var service := new UserService(repository, logger);
    r := service.DeleteByIdAsync(id, elapsedMs);
    entries := logger.entries;
    calls := repository.received;
  }

  /** A failing delete is logged once with the same exception, rethrown, and the record stays. */
  method DeleteWhenStoreThrows(e: Exception, id: Guid, elapsedMs: nat)
    returns (r: Outcome<bool>, entries: seq<LogEntry>, stored: seq<User>)
    ensures r == StorageError(e) && stored == [User(id, "Emir TARTAR")]
    ensures entries == [ Info(DeletingUser, [IdArg(id)]),
                         Error(e, DeletingUserFailed, []),
                         Info(UserDeleted, [IdArg(id), MillisecondsArg(elapsedMs)]) ]
  {
    var timeline := new Timeline();
    var repository := new UserRepository([User(id, "Emir TARTAR")], map[Operation.Delete := e], map[], timeline);
    var logger := new LoggerAdapter(timeline);
    var service := new UserService(repository, logger);
    r := service.DeleteByIdAsync(id, elapsedMs);
    entries := logger.entries;
    stored := repository.users;
  }
}
