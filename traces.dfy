/**
 * What the service's two collaborators observe, and the one timeline on
 * which both record it: the logger's entries and the repository's calls,
 * interleaved in the order the service makes them.
 */
module Traces {

  import opened Wrappers
  import opened Models

  /** A value passed for a template placeholder. */
  datatype LogArg = IdArg(id: Guid) | TextArg(text: string) | MillisecondsArg(ms: nat)

  /** One logger call: `LogInformation(template, args)` or `LogError(exception, template, args)`. */
  datatype LogEntry =
    | Info(template: string, args: seq<LogArg>)
    | Error(exception: Exception, template: string, args: seq<LogArg>)

  /** One call received by the repository, with its argument. */
  datatype RepositoryCall =
    | GetAllCall
    | GetByIdCall(id: Guid)
    | NameIsExistCall(fullName: string)
    | CreateCall(user: User)
    | DeleteCall(user: User)

  /** One step the service takes towards a collaborator: a log entry written, or a repository call made. */
  datatype Event = Logged(entry: LogEntry) | Called(call: RepositoryCall)

  /** The ghost record shared by the logger and the repository, in the order of the steps. */
  class Timeline {
    ghost var events: seq<Event>

    constructor ()
      ensures events == []
    {
      events := [];
    }
  }

  /**
   * The steps of one timed repository call: the "start" entry, then the
   * call, then the catch block's error entry when the call threw, then the
   * finally block's "end" entry.
   */
  function TimedEvents(start: LogEntry, call: RepositoryCall, failure: Option<LogEntry>, end: LogEntry): (events: seq<Event>)
    ensures |events| == if failure.Some? then 4 else 3
    ensures events[0] == Logged(start) && events[1] == Called(call)
    ensures failure.Some? ==> events[2] == Logged(failure.value)
    ensures events[|events| - 1] == Logged(end)
  {
    [Logged(start), Called(call)] + (if failure.Some? then [Logged(failure.value)] else []) + [Logged(end)]
  }
}
