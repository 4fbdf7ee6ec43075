/**
 * UserService: the four user-lifecycle operations of the Users API. Each is
 * a short pipeline: an optional early rejection, a "start" log entry, one
 * repository call inside try/catch/finally, an error entry and rethrow on
 * failure, and an "end" entry that is always written.
 *
 * Exceptions are the alternatives of `Outcome`; awaiting is a plain call;
 * the stopwatch reading and the new user's Guid are parameters.
 */
module Services {

  import opened Wrappers
  import opened Models
  import opened Validation
  import opened Traces
  import opened Repositories
  import opened Logging

  /** How an operation ends: a value, or the exception it throws. */
  datatype Outcome<+T> =
    | Ok(value: T)
    | ValidationError(message: string)  // FluentValidation.ValidationException
    | DuplicateName                     // ArgumentException("Name already exist")
    | NotFound                          // ArgumentException("User not found")
    | StorageError(exception: Exception) // the repository's exception, rethrown unchanged
  {
    /** The message of the exception the operation throws. */
    function Message(): (m: string)
      requires !Ok?
      ensures ValidationError? ==> m == message
      ensures DuplicateName? ==> m == "Name already exist"
      ensures NotFound? ==> m == "User not found"
      ensures StorageError? ==> m == exception.message
    {
      match this
      case ValidationError(m) => m
      case DuplicateName => NameAlreadyExist
      case NotFound => UserNotFound
      case StorageError(e) => e.message
    }
  }

  const NameAlreadyExist := "Name already exist"
  const UserNotFound := "User not found"

  const RetrievingAllUsers := "Retrieving all users"
  const AllUsersRetrieved := "All users retrieved in {0}ms"
  const RetrievingAllUsersFailed := "Something went wrong while retrieving all users"

  const RetrievingUser := "Retrieving user with id : {0}"
  const UserRetrieved := "User with id : {0} retrieved in {1}ms"
  const RetrievingUserFailed := "Something went wrong while retrieving user with id : {0}"

  const CreatingUser := "Creating user with id {0} and name: {1}"
  const UserCreated := "User with id: {0} created in {1}ms"
  const CreatingUserFailed := "Something went wrong while creating a user"

  const DeletingUser := "Deleting user with id : {0}"
  const UserDeleted := "User with id: {0} deleted in {1}ms"
  const DeletingUserFailed := "Something went wrong while deleting user"

  /** `CreateUserDtoToUserObject`: a new user whose id is the freshly minted Guid and whose name is the request's. */
  function CreateUserDtoToUserObject(request: CreateUserDto, newId: Guid): (user: User)
    ensures user.fullName == request.fullName
    ensures user.id == newId
  {
    User(newId, request.fullName)
  }

  class UserService {
    const userRepository: UserRepository
    const logger: LoggerAdapter

    /** The repository and the logger record on one timeline, so the order of log entries and calls is observable. */
    ghost predicate SharesTimeline()
    {
      userRepository.timeline == logger.timeline
    }

    constructor (userRepository: UserRepository, logger: LoggerAdapter)
      requires userRepository.timeline == logger.timeline
      ensures this.userRepository == userRepository && this.logger == logger
      ensures SharesTimeline()
    {
      this.userRepository := userRepository;
      this.logger := logger;
    }

    /** Lists every user; a failing repository is logged and rethrown, and the end entry is always written. */
    method GetAllAsync(elapsedMs: nat) returns (r: Outcome<seq<User>>)
      requires SharesTimeline()
      modifies userRepository`received, logger, logger.timeline
      ensures userRepository.received == old(userRepository.received) + [GetAllCall]
      ensures var fault := Operation.GetAll in userRepository.faults;
        && r == (if fault then StorageError(userRepository.faults[Operation.GetAll]) else Ok(userRepository.users))
        && logger.entries == old(logger.entries) + TimedSection(
             Info(RetrievingAllUsers, []),
             if fault then Some(Error(userRepository.faults[Operation.GetAll], RetrievingAllUsersFailed, [])) else None,
             Info(AllUsersRetrieved, [MillisecondsArg(elapsedMs)]))
        && logger.timeline.events == old(logger.timeline.events) + TimedEvents(
             Info(RetrievingAllUsers, []),
             GetAllCall,
             if fault then Some(Error(userRepository.faults[Operation.GetAll], RetrievingAllUsersFailed, [])) else None,
             Info(AllUsersRetrieved, [MillisecondsArg(elapsedMs)]))
    {
      logger.LogInformation(RetrievingAllUsers, []);
      var response := userRepository.GetAllAsync();
      if response.Threw? {
        logger.LogError(response.exception, RetrievingAllUsersFailed, []);
      }
      logger.LogInformation(AllUsersRetrieved, [MillisecondsArg(elapsedMs)]);
      r := if response.Threw? then StorageError(response.exception) else Ok(response.value);
    }
    /** Looks one user up; an absent user is a normal result. Every entry carries the requested id. */
    method GetByIdAsync(id: Guid, elapsedMs: nat) returns (r: Outcome<Option<User>>)
      requires SharesTimeline()
      modifies userRepository`received, logger, logger.timeline
      ensures userRepository.received == old(userRepository.received) + [GetByIdCall(id)]
      ensures var fault := Operation.GetById in userRepository.faults;
        && r == (if fault then StorageError(userRepository.faults[Operation.GetById])
                 else Ok(FirstWithId(userRepository.users, id)))
        && logger.entries == old(logger.entries) + TimedSection(
             Info(RetrievingUser, [IdArg(id)]),
             if fault then Some(Error(userRepository.faults[Operation.GetById], RetrievingUserFailed, [IdArg(id)])) else None,
             Info(UserRetrieved, [IdArg(id), MillisecondsArg(elapsedMs)]))
        && logger.timeline.events == old(logger.timeline.events) + TimedEvents(
             Info(RetrievingUser, [IdArg(id)]),
             GetByIdCall(id),
             if fault then Some(Error(userRepository.faults[Operation.GetById], RetrievingUserFailed, [IdArg(id)])) else None,
             Info(UserRetrieved, [IdArg(id), MillisecondsArg(elapsedMs)]))
    {
      logger.LogInformation(RetrievingUser, [IdArg(id)]);
      var response := userRepository.GetByIdAsync(id);
      if response.Threw? {
        logger.LogError(response.exception, RetrievingUserFailed, [IdArg(id)]);
      }
      logger.LogInformation(UserRetrieved, [IdArg(id), MillisecondsArg(elapsedMs)]);
      r := if response.Threw? then StorageError(response.exception) else Ok(response.value);
    }

    /**
     * Validates the request, rejects a name already in use, then stores a
     * new user with the minted id `newId` inside the timed section.
     */
    method CreateAsync(request: CreateUserDto, newId: Guid, elapsedMs: nat) returns (r: Outcome<bool>)
      requires userRepository.Valid()
      requires newId != EmptyGuid && newId !in Ids(userRepository.users)
      requires SharesTimeline()
      modifies userRepository`users, userRepository`received, logger, logger.timeline
      ensures userRepository.Valid()
      // An invalid request is rejected before anything is logged or called.
      ensures Validate(request) != [] ==>
        && r == ValidationError(ValidationMessage(request))
        && userRepository.users == old(userRepository.users)
        && userRepository.received == old(userRepository.received)
        && logger.entries == old(logger.entries)
        && logger.timeline.events == old(logger.timeline.events)
      // The uniqueness check is outside the try: a failure there, or a name in use, is untimed and unlogged.
      ensures Validate(request) == [] && Operation.NameIsExist in userRepository.faults ==>
        && r == StorageError(userRepository.faults[Operation.NameIsExist])
        && userRepository.users == old(userRepository.users)
        && userRepository.received == old(userRepository.received) + [NameIsExistCall(request.fullName)]
        && logger.entries == old(logger.entries)
        && logger.timeline.events == old(logger.timeline.events) + [Called(NameIsExistCall(request.fullName))]
      ensures Validate(request) == [] && Operation.NameIsExist !in userRepository.faults
              && AnyWithName(old(userRepository.users), request.fullName) ==>
        && r == DuplicateName
        && userRepository.users == old(userRepository.users)
        && userRepository.received == old(userRepository.received) + [NameIsExistCall(request.fullName)]
        && logger.entries == old(logger.entries)
        && logger.timeline.events == old(logger.timeline.events) + [Called(NameIsExistCall(request.fullName))]
      // A valid, unique request reaches the repository's create with the new user, inside the timed section.
      ensures Validate(request) == [] && Operation.NameIsExist !in userRepository.faults
              && !AnyWithName(old(userRepository.users), request.fullName) ==>
        var user := CreateUserDtoToUserObject(request, newId);
        var fault := Operation.Create in userRepository.faults;
        && userRepository.received
           == old(userRepository.received) + [NameIsExistCall(request.fullName), CreateCall(user)]
        && userRepository.users == (if fault then old(userRepository.users) else old(userRepository.users) + [user])
        && r == (if fault then StorageError(userRepository.faults[Operation.Create])
                 else Ok(userRepository.Reported(Operation.Create, true)))
        && logger.entries == old(logger.entries) + TimedSection(
             Info(CreatingUser, [IdArg(user.id), TextArg(user.fullName)]),
             if fault then Some(Error(userRepository.faults[Operation.Create], CreatingUserFailed, [])) else None,
             Info(UserCreated, [IdArg(user.id), MillisecondsArg(elapsedMs)]))
        && logger.timeline.events == old(logger.timeline.events) + [Called(NameIsExistCall(request.fullName))] + TimedEvents(
             Info(CreatingUser, [IdArg(user.id), TextArg(user.fullName)]),
             CreateCall(user),
             if fault then Some(Error(userRepository.faults[Operation.Create], CreatingUserFailed, [])) else None,
             Info(UserCreated, [IdArg(user.id), MillisecondsArg(elapsedMs)]))
    {
      var errors := Validate(request);
      if errors != [] {
        return ValidationError(ValidationMessage(request));
      }

      var nameIsExist := userRepository.NameIsExist(request.fullName);
      if nameIsExist.Threw? {
        return StorageError(nameIsExist.exception);
      }
      if nameIsExist.value {
        return DuplicateName;
      }

      var user := CreateUserDtoToUserObject(request, newId);

      logger.LogInformation(CreatingUser, [IdArg(user.id), TextArg(user.fullName)]);
      var response := userRepository.CreateAsync(user);
      if response.Threw? {
        logger.LogError(response.exception, CreatingUserFailed, []);
      }
      logger.LogInformation(UserCreated, [IdArg(user.id), MillisecondsArg(elapsedMs)]);
      r := if response.Threw? then StorageError(response.exception) else Ok(response.value);
    }

    /**
     * Looks the user up outside the try, rejects an unknown id, then deletes
     * the record found inside the timed section. The entries carry the id
     * of the record found.
     */
    method DeleteByIdAsync(id: Guid, elapsedMs: nat) returns (r: Outcome<bool>)
      requires userRepository.Valid()
      requires SharesTimeline()
      modifies userRepository`users, userRepository`received, logger, logger.timeline
      ensures userRepository.Valid()
      // The lookup is outside the try: its failure propagates with nothing logged.
      ensures Operation.GetById in userRepository.faults ==>
        && r == StorageError(userRepository.faults[Operation.GetById])
        && userRepository.users == old(userRepository.users)
        && userRepository.received == old(userRepository.received) + [GetByIdCall(id)]
        && logger.entries == old(logger.entries)
        && logger.timeline.events == old(logger.timeline.events) + [Called(GetByIdCall(id))]
      ensures Operation.GetById !in userRepository.faults && FirstWithId(old(userRepository.users), id).None? ==>
        && r == NotFound
        && userRepository.users == old(userRepository.users)
        && userRepository.received == old(userRepository.received) + [GetByIdCall(id)]
        && logger.entries == old(logger.entries)
        && logger.timeline.events == old(logger.timeline.events) + [Called(GetByIdCall(id))]
      ensures Operation.GetById !in userRepository.faults && FirstWithId(old(userRepository.users), id).Some? ==>
        var user := FirstWithId(old(userRepository.users), id).value;
        var fault := Operation.Delete in userRepository.faults;
        && user.id == id
        && userRepository.received == old(userRepository.received) + [GetByIdCall(id), DeleteCall(user)]
        && userRepository.users == (if fault then old(userRepository.users) else RemoveWithId(old(userRepository.users), id))
        && r == (if fault then StorageError(userRepository.faults[Operation.Delete])
                 else Ok(userRepository.Reported(Operation.Delete, true)))
        && logger.entries == old(logger.entries) + TimedSection(
             Info(DeletingUser, [IdArg(user.id)]),
             if fault then Some(Error(userRepository.faults[Operation.Delete], DeletingUserFailed, [])) else None,
             Info(UserDeleted, [IdArg(user.id), MillisecondsArg(elapsedMs)]))
        && logger.timeline.events == old(logger.timeline.events) + [Called(GetByIdCall(id))] + TimedEvents(
             Info(DeletingUser, [IdArg(user.id)]),
             DeleteCall(user),
             if fault then Some(Error(userRepository.faults[Operation.Delete], DeletingUserFailed, [])) else None,
             Info(UserDeleted, [IdArg(user.id), MillisecondsArg(elapsedMs)]))
    {
      var lookup := userRepository.GetByIdAsync(id);
      if lookup.Threw? {
        return StorageError(lookup.exception);
      }
      if lookup.value.None? {
        return NotFound;
      }
      var user := lookup.value.value;

      logger.LogInformation(DeletingUser, [IdArg(user.id)]);
      ghost var before := userRepository.users;
      var response := userRepository.DeleteAsync(user);
      if response.Threw? {
        logger.LogError(response.exception, DeletingUserFailed, []);
      }
      logger.LogInformation(UserDeleted, [IdArg(user.id), MillisecondsArg(elapsedMs)]);
      assert user.id in Ids(before);
      r := if response.Threw? then StorageError(response.exception) else Ok(response.value);
    }
  }
}
