/**
 * ILoggerAdapter: structured logging with a message template and its
 * positional arguments. The logger is an append-only trace of the calls it
 * receives; templates are never formatted.
 */
module Logging {

  import opened Wrappers
  import opened Models
  import opened Traces

  class LoggerAdapter {
    var entries: seq<LogEntry>
    /** Where every entry is also recorded, beside the repository's calls. */
    const timeline: Timeline

    constructor (timeline: Timeline)
      ensures entries == [] && this.timeline == timeline
    {
      entries := [];
      this.timeline := timeline;
    }

    method LogInformation(template: string, args: seq<LogArg>)
      modifies this, timeline
      ensures entries == old(entries) + [Info(template, args)]
      ensures timeline.events == old(timeline.events) + [Logged(Info(template, args))]
    {
      entries := entries + [Info(template, args)];
      timeline.events := timeline.events + [Logged(Info(template, args))];
    }

    method LogError(exception: Exception, template: string, args: seq<LogArg>)
      modifies this, timeline
      ensures entries == old(entries) + [Error(exception, template, args)]
      ensures timeline.events == old(timeline.events) + [Logged(Error(exception, template, args))]
    {
      entries := entries + [Error(exception, template, args)];
      timeline.events := timeline.events + [Logged(Error(exception, template, args))];
    }
  }

  /** The information entries of a trace, in order. */
  function Infos(trace: seq<LogEntry>): (r: seq<LogEntry>)
    ensures forall k :: 0 <= k < |r| ==> r[k].Info? && r[k] in trace
  {
    if trace == [] then []
    else (if trace[0].Info? then [trace[0]] else []) + Infos(trace[1..])
  }

  /** The error entries of a trace, in order. */
  function Errors(trace: seq<LogEntry>): (r: seq<LogEntry>)
    ensures forall k :: 0 <= k < |r| ==> r[k].Error? && r[k] in trace
  {
    if trace == [] then []
    else (if trace[0].Error? then [trace[0]] else []) + Errors(trace[1..])
  }

  /** Filtering distributes over appending, so a trace extended by an operation gains exactly that operation's entries. */
  lemma FiltersAppend(a: seq<LogEntry>, b: seq<LogEntry>)
    ensures Infos(a + b) == Infos(a) + Infos(b)
    ensures Errors(a + b) == Errors(a) + Errors(b)
  {
    InfosAppend(a, b);
    ErrorsAppend(a, b);
  }

  /** The information half of FiltersAppend. */
  lemma {:induction false} InfosAppend(a: seq<LogEntry>, b: seq<LogEntry>)
    ensures Infos(a + b) == Infos(a) + Infos(b)
  {
    if a == [] {
      assert a + b == b;
    } else {
      var head := if a[0].Info? then [a[0]] else [];
      assert Infos(a) == head + Infos(a[1..]);
      assert (a + b)[0] == a[0] && (a + b)[1..] == a[1..] + b;
      assert Infos(a + b) == head + Infos(a[1..] + b);
      InfosAppend(a[1..], b);
      AppendAssociative(head, Infos(a[1..]), Infos(b));
    }
  }

  /** The error half of FiltersAppend. */
  lemma {:induction false} ErrorsAppend(a: seq<LogEntry>, b: seq<LogEntry>)
    ensures Errors(a + b) == Errors(a) + Errors(b)
  {
    if a == [] {
      assert a + b == b;
    } else {
      var head := if a[0].Error? then [a[0]] else [];
      assert Errors(a) == head + Errors(a[1..]);
      assert (a + b)[0] == a[0] && (a + b)[1..] == a[1..] + b;
      assert Errors(a + b) == head + Errors(a[1..] + b);
      ErrorsAppend(a[1..], b);
      AppendAssociative(head, Errors(a[1..]), Errors(b));
    }
  }

  /** Appending entries is associative. */
  lemma AppendAssociative(x: seq<LogEntry>, y: seq<LogEntry>, z: seq<LogEntry>)
    ensures x + (y + z) == (x + y) + z
  {
  }

  /**
   * The entries one timed repository call leaves: the "start" information
   * entry, the error entry of the catch block when the call threw, and the
   * "end" information entry of the finally block.
   */
  function TimedSection(start: LogEntry, failure: Option<LogEntry>, end: LogEntry): (section: seq<LogEntry>)
    ensures |section| == if failure.Some? then 3 else 2
    ensures section[0] == start && section[|section| - 1] == end
    ensures failure.Some? ==> section[1] == failure.value
  {
    [start] + (if failure.Some? then [failure.value] else []) + [end]
  }

  /**
   * A timed section holds exactly two information entries, start then end,
   * whether or not the call threw; it holds one error entry exactly when it
   * threw; and the end entry is always last.
   */
  lemma TimedSectionShape(start: LogEntry, failure: Option<LogEntry>, end: LogEntry)
    requires start.Info? && end.Info?
    requires failure.Some? ==> failure.value.Error?
    ensures Infos(TimedSection(start, failure, end)) == [start, end]
    ensures Errors(TimedSection(start, failure, end)) == if failure.Some? then [failure.value] else []
    ensures TimedSection(start, failure, end)[0] == start
    ensures TimedSection(start, failure, end)[|TimedSection(start, failure, end)| - 1] == end
  {
    TimedSectionInfos(start, failure, end);
    TimedSectionErrors(start, failure, end);
  }

  /** The information half of TimedSectionShape. */
  lemma TimedSectionInfos(start: LogEntry, failure: Option<LogEntry>, end: LogEntry)
    requires start.Info? && end.Info?
    requires failure.Some? ==> failure.value.Error?
    ensures Infos(TimedSection(start, failure, end)) == [start, end]
  {
    FiltersSingle(start);
    FiltersSingle(end);
    if failure.Some? {
      var error := failure.value;
      assert TimedSection(start, failure, end) == [start] + ([error] + [end]);
      FiltersSingle(error);
      InfosAppend([error], [end]);
      InfosAppend([start], [error] + [end]);
    } else {
      assert TimedSection(start, failure, end) == [start] + [end];
      InfosAppend([start], [end]);
    }
  }

  /** The error half of TimedSectionShape. */
  lemma TimedSectionErrors(start: LogEntry, failure: Option<LogEntry>, end: LogEntry)
    requires start.Info? && end.Info?
    requires failure.Some? ==> failure.value.Error?
    ensures Errors(TimedSection(start, failure, end)) == if failure.Some? then [failure.value] else []
  {
    FiltersSingle(start);
    FiltersSingle(end);
    if failure.Some? {
      var error := failure.value;
      assert TimedSection(start, failure, end) == [start] + ([error] + [end]);
      FiltersSingle(error);
      ErrorsAppend([error], [end]);
      ErrorsAppend([start], [error] + [end]);
    } else {
      assert TimedSection(start, failure, end) == [start] + [end];
      ErrorsAppend([start], [end]);
    }
  }

  /** The filters of a one-entry trace. */
  lemma FiltersSingle(e: LogEntry)
    ensures Infos([e]) == if e.Info? then [e] else []
    ensures Errors([e]) == if e.Error? then [e] else []
  {
    assert [e][1..] == [];
  }

  /** Extending a trace by a timed section adds its two information entries and its error entry, if any, and nothing else. */
  lemma AppendTimedSection(trace: seq<LogEntry>, start: LogEntry, failure: Option<LogEntry>, end: LogEntry)
    requires start.Info? && end.Info?
    requires failure.Some? ==> failure.value.Error?
    ensures Infos(trace + TimedSection(start, failure, end)) == Infos(trace) + [start, end]
    ensures Errors(trace + TimedSection(start, failure, end))
         == Errors(trace) + (if failure.Some? then [failure.value] else [])
  {
    FiltersAppend(trace, TimedSection(start, failure, end));
    TimedSectionShape(start, failure, end);
  }
}
