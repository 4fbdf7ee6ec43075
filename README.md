# Users API service core, in Dafny

A model of the core of a .NET unit-testing course repository:

- the **user lifecycle service** `UserService` of the Users API (list all, get by id, create, delete by id), with the repository and logger it is given;
- the **create-request validator** `CreateUserDtoValidator` (two FluentValidation rules over the full name) and the `string.Join` that turns its violations into one message;
- the **guarded integer division** `ValueSamples.Divide` and the sample data the assertion exercises check.

Every service operation is a short pipeline: an optional early rejection, a "start" log entry, one repository call inside try/catch/finally, an error entry and a rethrow when that call throws, and an "end" entry that the finally block always writes. The model states this exactly. Each operation's contract says which log entries appear, with which template and arguments, and in which order. It says which repository calls are received, what the store becomes, and which outcome comes out. It also says how the entries and the calls interleave: the start entry comes before the repository call, and the error and end entries after it.

How the model is built:

- **Exceptions.** They are the alternatives of `Services.Outcome`: `ValidationError(message)`, `DuplicateName`, `NotFound`, or `StorageError(e)`. `StorageError(e)` carries the repository's own exception unchanged.
- **Repository.** `Repositories.UserRepository` models the repository as the service sees it:
  - an ordered store of `User(id, fullName)` records;
  - a map `faults` from each operation to the exception it currently throws (a failing database, or a substitute set up with `.Throws`);
  - a map `answers` from a write to the flag it is set up to report (a substitute set up with `.Returns(b)`); a write with no answer reports whether a row changed;
  - a ghost record `received` of the calls it has been given, which plays the part of `Received` and `DidNotReceive`.
- **Logger.** `Logging.LoggerAdapter` is an append-only trace of `Info(template, args)` and `Error(exception, template, args)` entries. Templates are never formatted.
- **Timeline.** `Traces.Timeline` is a ghost record shared by the logger and the repository. Each logger entry and each repository call is appended to it as it happens, so the service's contracts can state the order of entries relative to calls. `Traces.TimedEvents` is the order of one timed call: start entry, call, error entry if the call threw, end entry.
- **Timed sections.** `Logging.TimedSection` names the common shape of a timed section. Lemmas about it state that such a section adds exactly two information entries, start then end, and one error entry exactly when the call threw.
- **Stopwatch and Guid.** The stopwatch reading is an opaque `nat` parameter. The Guid that `Guid.NewGuid` would mint is a parameter too: it must not be `Guid.Empty` and must not already be in the store.
- **Test scenarios.** The `Scenarios` module replays the service's unit tests (`4.RealWorld/Users.Api.Tests.Unit/UserServiceTests.cs`) against the service's contracts alone.

Details of the code that the model keeps, and that are easy to misread:

- The delete entries carry `user.Id` of the record the lookup returned, not the argument. `Services.UserService.DeleteByIdAsync` proves the two are equal.
- The lookup in delete and the name check in create sit outside the try. A storage failure there propagates with nothing logged.
- `NotEmpty` also rejects a name made only of white space (FluentValidation tests `string.IsNullOrWhiteSpace`).
- `MinimumLength(3)` accepts a name of exactly three characters, despite its message "must be greater than 3 letter". The length is `String.Length`, which counts UTF-16 code units.

## Model

| member | source | states |
|---|---|---|
| `Validation.Utf16Length` | 4.RealWorld/Users.Api/DTOs/CreateUserDtoValidator.cs:11 | the length MinimumLength measures lies between the number of characters and twice it, and equals the number of characters when all are in the Basic Multilingual Plane |
| `Validation.IsEmptyOrWhiteSpace` | 4.RealWorld/Users.Api/DTOs/CreateUserDtoValidator.cs:9 | NotEmpty's `string.IsNullOrWhiteSpace` test: the empty name is blank, and a blank name's String.Length is its number of characters, since every .NET white-space character is a single UTF-16 unit |
| `Validation.Validate` | 4.RealWorld/Users.Api/DTOs/CreateUserDtoValidator.cs:7-12 | the "cannot be null or empty" message is present exactly when the name is empty or white space; the "must be greater than 3 letter" message is present exactly when the name is shorter than 3 code units; no other message appears, and when both appear NotEmpty's comes first |
| `Validation.ValidIffNoMessages` | 4.RealWorld/Users.Api/DTOs/CreateUserDtoValidator.cs:9-11 | the message list is empty exactly when the name has a visible character and at least 3 code units (both directions) |
| `Validation.Join` | 4.RealWorld/Users.Api/Services/UserService.cs:74 | `string.Join` of no parts is empty and of one part is that part; otherwise the result starts with the first part |
| `Validation.JoinEndsWithLast` | 4.RealWorld/Users.Api/Services/UserService.cs:74 | a join of one or more parts ends with the last part |
| `Validation.JoinLength` | 4.RealWorld/Users.Api/Services/UserService.cs:74 | a join of n parts is exactly as long as the parts together plus its n - 1 separators |
| `Validation.ValidationMessage` | 4.RealWorld/Users.Api/Services/UserService.cs:72-75 | the exception message is empty exactly when the request is valid, starts with the first violation otherwise, and is both messages joined by ", " when both rules fail |
| `Validation.JoinAppend` | 4.RealWorld/Users.Api/Services/UserService.cs:74 | `string.Join` with one more part appends the separator and that part (the recursive definition agrees with a left-to-right join) |
| `Validation.InvalidRequestMessage` | 4.RealWorld/Users.Api/Services/UserService.cs:72-75 | an invalid request has at least one violation, and the joined message is non-empty and starts with the first violation |
| `Validation.EmptyNameMessages` | 4.RealWorld/Users.Api/DTOs/CreateUserDtoValidator.cs:9-11 | the empty name breaks both rules, so the message is "Full name cannot be null or empty, Full name must be greater than 3 letter" |
| `Validation.BlankNameMessage` | 4.RealWorld/Users.Api/DTOs/CreateUserDtoValidator.cs:9-11 | three spaces break only NotEmpty; the length rule accepts them |
| `Validation.MinimumLengthBoundary` | 4.RealWorld/Users.Api/DTOs/CreateUserDtoValidator.cs:11 | a name of exactly 3 letters passes both rules and a name of 2 letters breaks only the length rule |
| `Validation.ExampleNameIsValid` | 4.RealWorld/Users.Api.Tests.Unit/UserServiceTests.cs:202-215 | "Emir TARTAR" is a valid request |
| `Repositories.AnyWithName` | 4.RealWorld/Users.Api/Repositories/UserRepository.cs:21-24 | true exactly when some stored user has that full name |
| `Repositories.FirstWithId` | 4.RealWorld/Users.Api/Repositories/UserRepository.cs:26-29 | absent exactly when no stored user has the id; otherwise the first stored user with that id |
| `Repositories.RemoveWithId` | 4.RealWorld/Users.Api/Repositories/UserRepository.cs:40-47 | the store after the delete holds exactly the records whose id differs, and is no larger |
| `Repositories.RemoveWithIdUnique` | 4.RealWorld/Users.Api/Repositories/UserRepository.cs:40-47 | deleting keeps the store keyed by id |
| `Repositories.RemoveWithIdCount` | 4.RealWorld/Users.Api/Repositories/UserRepository.cs:44-46 | in a store keyed by id, deleting a present id changes exactly one row and an absent id none |
| `Repositories.RemoveWithIdAppend` | 4.RealWorld/Users.Api/Repositories/UserRepository.cs:40-47 | deleting filters the store in order: it distributes over any split of the store into a front and a back, so the remaining records keep their order |
| `Repositories.AppendFreshKeyed` | 4.RealWorld/Users.Api/Repositories/UserRepository.cs:31-38 | inserting a user with an unused id keeps the store keyed by id and adds exactly that id |
| `Repositories.UserRepository.GetAllAsync` | 4.RealWorld/Users.Api/Repositories/UserRepository.cs:16-19 | records the call, in its own log and on the shared timeline; returns the whole store, or throws the configured exception |
| `Repositories.UserRepository.GetByIdAsync` | 4.RealWorld/Users.Api/Repositories/UserRepository.cs:26-29 | records the call, in its own log and on the shared timeline; returns the first user with the id or none, or throws |
| `Repositories.UserRepository.NameIsExist` | 4.RealWorld/Users.Api/Repositories/UserRepository.cs:21-24 | records the call, in its own log and on the shared timeline; returns whether the name is stored, or throws |
| `Repositories.UserRepository.CreateAsync` | 4.RealWorld/Users.Api/Repositories/UserRepository.cs:31-38 | records the call, in its own log and on the shared timeline; appends the user and returns true (one row changed), or the answer a substitute was configured with, or throws and stores nothing; the store stays keyed by id |
| `Repositories.UserRepository.DeleteAsync` | 4.RealWorld/Users.Api/Repositories/UserRepository.cs:40-47 | records the call, in its own log and on the shared timeline; removes the records with the user's id and returns whether a row changed, or the answer a substitute was configured with, or throws and removes nothing |
| `Traces.TimedEvents` | 4.RealWorld/Users.Api/Services/UserService.cs:86-103 | the steps of a timed call in order: the start entry first, the repository call second, the error entry third exactly when the call threw, and the end entry last |
| `Logging.LoggerAdapter.LogInformation` | 4.RealWorld/Users.Api/Logging/ILoggerAdapter.cs:5 | appends exactly one information entry with the template and arguments given, to the log and to the shared timeline |
| `Logging.LoggerAdapter.LogError` | 4.RealWorld/Users.Api/Logging/ILoggerAdapter.cs:6 | appends exactly one error entry carrying the exception object, template and arguments given, to the log and to the shared timeline |
| `Logging.FiltersAppend` | 4.RealWorld/Users.Api/Logging/ILoggerAdapter.cs:5-6 | the information and error entries of an extended trace are those of the old trace followed by those of the extension |
| `Logging.TimedSection` | 4.RealWorld/Users.Api/Services/UserService.cs:86-103 | the try/catch/finally trace is the start entry, then the error entry exactly when there is one, then the end entry: three entries on failure, two otherwise |
| `Logging.TimedSectionShape` | 4.RealWorld/Users.Api/Services/UserService.cs:86-103 | a timed section has exactly two information entries, start then end, one error entry exactly when the call threw, and ends with the end entry |
| `Logging.AppendTimedSection` | 4.RealWorld/Users.Api/Services/UserService.cs:24-41 | an operation's timed section adds to the log its start and end information entries and its error entry, if any, and nothing else |
| `Services.CreateUserDtoToUserObject` | 4.RealWorld/Users.Api/Services/UserService.cs:135-144 | the new user has the request's full name and the freshly minted id |
| `Services.Outcome.Message` | 4.RealWorld/Users.Api/Services/UserService.cs:74-112 | the message of each thrown exception: the joined validation text (line 74), "Name already exist" (line 81), "User not found" (line 112), or the repository exception's own message |
| `Services.UserService.constructor` | 4.RealWorld/Users.Api/Services/UserService.cs:16-20 | the service keeps the repository and the logger it is given, the very objects, so the calls it makes are observed on them; the two must record on one timeline |
| `Services.UserService.GetAllAsync` | 4.RealWorld/Users.Api/Services/UserService.cs:22-42 | returns the repository's list unchanged or rethrows its exception; logs "Retrieving all users", then on failure one error entry with the same exception, then always "All users retrieved in {0}ms"; on the shared timeline the start entry precedes the `GetAllAsync` call (lines 24, 30) |
| `Services.UserService.GetByIdAsync` | 4.RealWorld/Users.Api/Services/UserService.cs:44-64 | returns the repository's answer unchanged, where an absent user is a normal result, or rethrows; start, optional error and end entries all carry the requested id; on the shared timeline the start entry precedes the `GetByIdAsync` call (lines 46, 52) |
| `Services.UserService.CreateAsync` | 4.RealWorld/Users.Api/Services/UserService.cs:66-104 | an invalid request fails with `ValidationMessage` before any call or entry; a failing name check or a taken name fails with no entry, and create is never reached; otherwise the new user (request's name, minted id) is handed to create, and the result is exactly the flag the repository reports, true or false, or its rethrown exception, in a timed section whose entries carry that same id; on the shared timeline the name check comes first, then the "Creating user" entry, then the create call (lines 77, 86, 92) |
| `Services.UserService.DeleteByIdAsync` | 4.RealWorld/Users.Api/Services/UserService.cs:106-133 | a failing lookup or an unknown id fails with no entry, and delete is never reached; otherwise the record found (whose id is the argument) is deleted, and the result is exactly the flag the repository reports, true or false, or its rethrown exception, in a timed section whose entries carry the record's id; on the shared timeline the lookup comes first, then the "Deleting user" entry, then the delete call (lines 108, 115, 121) |
| `Scenarios.GetAllOnEmptyStore` | 4.RealWorld/Users.Api.Tests.Unit/UserServiceTests.cs:64-76 | an empty store gives an empty list and exactly the two entries start then end (lines 27-38 assert the empty list alone) |
| `Scenarios.GetAllWithOneUser` | 4.RealWorld/Users.Api.Tests.Unit/UserServiceTests.cs:41-62 | a store of one user gives exactly that user, with the two entries start then end |
| `Scenarios.GetAllWhenStoreThrows` | 4.RealWorld/Users.Api.Tests.Unit/UserServiceTests.cs:79-93 | the same exception is rethrown and logged once, and both information entries are written |
| `Scenarios.GetByIdOfUnknownUser` | 4.RealWorld/Users.Api.Tests.Unit/UserServiceTests.cs:126-139 | an unknown id gives an absent result and two entries carrying the id (lines 96-106 assert the absent result alone) |
| `Scenarios.GetByIdOfStoredUser` | 4.RealWorld/Users.Api.Tests.Unit/UserServiceTests.cs:108-124 | looking up a stored user by its id gives that user unchanged, with two entries carrying the id |
| `Scenarios.GetByIdWhenStoreThrows` | 4.RealWorld/Users.Api.Tests.Unit/UserServiceTests.cs:142-160 | a failing lookup is rethrown and logged once with the requested id, and both information entries are written |
| `Scenarios.CreateWithEmptyName` | 4.RealWorld/Users.Api.Tests.Unit/UserServiceTests.cs:163-173 | the empty name fails with both messages joined by ", ", with no entry and no repository call |
| `Scenarios.CreateWithTakenName` | 4.RealWorld/Users.Api.Tests.Unit/UserServiceTests.cs:176-186 | a taken name fails with "Name already exist" after the name check alone, with no entry |
| `Scenarios.CreateWithValidUniqueName` | 4.RealWorld/Users.Api.Tests.Unit/UserServiceTests.cs:202-239 | with create set up to return a given flag (`.Returns(true)` in the tests), a valid unique name gives exactly that flag, stores the user under the new id, and logs the create and created entries with that id |
| `Scenarios.CreateWhenStoreThrows` | 4.RealWorld/Users.Api.Tests.Unit/UserServiceTests.cs:242-259 | a failing insert is rethrown and logged once between the two information entries, and nothing is stored |
| `Scenarios.DeleteExistingUser` | 4.RealWorld/Users.Api.Tests.Unit/UserServiceTests.cs:262-323 | with delete set up to return a given flag (`.Returns(true)` in the tests), deleting a stored user gives exactly that flag, empties the store, and logs the deleting and deleted entries with its id |
| `Scenarios.DeleteUnknownUser` | 4.RealWorld/Users.Api.Tests.Unit/UserServiceTests.cs:283-295 | an unknown id fails with "User not found" after the lookup alone, with no entry |
| `Scenarios.DeleteWhenStoreThrows` | 4.RealWorld/Users.Api.Tests.Unit/UserServiceTests.cs:326-348 | a failing delete is rethrown and logged once between the two information entries, and the record stays |
| `TestingTechniques.TruncatedQuotientCorrect` | 2.Techniques/TestingTechniques/ValueSamples.cs:50 | the model of C#'s `a / b` leaves a remainder smaller than the divisor with the dividend's sign, and is no larger than the dividend |
| `TestingTechniques.TruncatedQuotientUnique` | 2.Techniques/TestingTechniques/ValueSamples.cs:50 | any quotient with that remainder property is the modelled one |
| `TestingTechniques.TruncationIsNotEuclidean` | 2.Techniques/TestingTechniques/ValueSamples.cs:50 | -7 / 2 is -3 in C# but -4 under Euclidean division |
| `TestingTechniques.TruncatedQuotient` | 2.Techniques/TestingTechniques/ValueSamples.cs:50 | the magnitude is abs(a) / abs(b), and the result is negative exactly when the operands' signs differ, unless it is 0 |
| `TestingTechniques.ValueSamples.EnsureThatDivisorIsNotZero` | 2.Techniques/TestingTechniques/ValueSamples.cs:53-59 | throws DivideByZeroException exactly when the argument is 0, otherwise has no effect |
| `TestingTechniques.ValueSamples.Divide` | 2.Techniques/TestingTechniques/ValueSamples.cs:45-51 | throws DivideByZeroException exactly when either operand is 0, and OverflowException exactly for int.MinValue / -1; otherwise returns the truncated quotient, which fits in an int |
| `TestingTechniques.DivideByZeroCases` | 2.Techniques/TestingTechniques.Tests.Unit/ValueSamplesTests.cs:82-88 | Divide(1, 0) throws with "Attempted to divide by zero.", Divide(0, 5) throws too, Divide(-7, 2) is -3 |
| `TestingTechniques.ValueSamples.constructor` | 2.Techniques/TestingTechniques/ValueSamples.cs:5-43 | the sample fields hold the named sample name, age, date of birth and user, and the sample lists |
| `TestingTechniques.SampleValuesMatchAssertions` | 2.Techniques/TestingTechniques.Tests.Unit/ValueSamplesTests.cs:9-80 | the named sample values the constructor stores pass the assertion exercises: the name's prefix and suffix, the age range, the date bounds, the user built from them, three users with one equal to ("Emir TARTAR", 31, 1993-04-29) and one "Emirov…" older than 31, and 5 among the numbers |

## Left out

- The Entity Framework layer behind `UserRepository` (DbContext, SQL Server, change tracking). The repository is modelled only by its observable contract over an ordered store, with configurable failures.
- `Repositories.UserRepository.CreateAsync`: reports true unless an answer is configured, because `SaveChangesAsync` after one `AddAsync` changes one row. A configured answer changes only the flag: the user is still appended, where a substitute would store nothing.
- `Repositories.UserRepository.DeleteAsync`: a configured answer changes only the flag. The record is still removed, where a substitute set up with `.Returns(true)` (`4.RealWorld/Users.Api.Tests.Unit/UserServiceTests.cs:273`) removes nothing, so `Scenarios.DeleteExistingUser` ends with an empty store.
- A substitute whose `GetByIdAsync` returns a user regardless of the id asked for (`Arg.Any<Guid>()` at `4.RealWorld/Users.Api.Tests.Unit/UserServiceTests.cs:117`). The model's lookup always answers by id, so `Scenarios.GetByIdOfStoredUser` looks the user up by its own id.
- `ILoggerAdapter`'s implementation, template formatting and log levels. The logger is the trace of calls it receives.
- `Stopwatch` timing. Elapsed milliseconds are an arbitrary `nat` passed to each operation.
- `Guid.NewGuid`, which is nondeterministic. The minted id is a parameter required to be neither `Guid.Empty` nor stored already.
- `async`/`await` and `CancellationToken`. Each call is synchronous and cancellation is not modelled.
- The race between `NameIsExist` and `CreateAsync` under concurrent creates. This is a concurrency gap outside a sequential model.
- `Services.UserService.CreateAsync`: requires the minted id to be unused, which `Guid.NewGuid` provides only with overwhelming probability.
- A null `FullName`. The model assumes the request's name is a non-null string, on the grounds that the API's model binding rejects a missing non-nullable record parameter before the service runs. For a null name the validator would report only the NotEmpty message.
- A null request. `CreateAsync(null)` would make `Validate` throw before any repository call or log entry; the model's request is always present.
- `Repositories.UserRepository.NameIsExist`: compares names by exact character equality. The database's collation, which may ignore case or trailing spaces, is not modelled.
- `Repositories.UserRepository.DeleteAsync`: returns false when no stored record has the user's id. Entity Framework's `SaveChangesAsync` would throw a concurrency exception instead. The service never reaches that case, because it deletes only a record its lookup just returned.
- `IsWhiteSpace` follows .NET's `char.IsWhiteSpace` table. No other Unicode property is modelled.
- `TestingTechniques.ValueSamples.Divide`: returns the `int` quotient. The C# method widens it to `float`, which rounds quotients above 2^24 in magnitude.
- The `ExampleEvent` event, `RaiseExampleEvent`, event monitoring and `InternalSecretNumber`. These are test-framework demonstrations with no logic.
- The HTTP controllers, `Program.cs` dependency-injection wiring and the `3.Concepts` sample API. They are framework glue.
- The calculator test files. `Calculator` itself is not part of this model, and the tests demonstrate output helpers and fixture lifecycles.
