/**
 * Correlated logging: `ContextFilter.filter` tags every record with the name
 * of the asyncio task that produced it, so that the records of one SSH
 * session can be grouped together.
 */
module Logging {
  import opened Wrappers

  /** The two kinds of message the session loop logs, `INPUT: ...` and `OUTPUT: ...`. */
  datatype Kind = Input | Output

  /** A running asyncio task, known to the filter only by its name. */
  datatype Task = Task(name: string)

  /**
   * A log record: the `task_name` attribute (absent until the filter sets it),
   * and the message, kept as its kind and the text after the prefix.
   */
  datatype LogRecord = LogRecord(taskName: Option<string>, kind: Kind, text: string) {
    /** The message as the logger writes it: `INPUT: ` or `OUTPUT: `, then the text. */
    function Message(): (m: string)
      ensures kind == Input ==> |m| == |text| + 7 && m[..7] == "INPUT: " && m[7..] == text
      ensures kind == Output ==> |m| == |text| + 8 && m[..8] == "OUTPUT: " && m[8..] == text
    {
      (if kind == Input then "INPUT: " else "OUTPUT: ") + text
    }
  }

  /** Reads a logged message back into its kind and text; `None` for a message of neither form. */
  function ParseMessage(m: string): (r: Option<(Kind, string)>)
    ensures r.Some? && r.value.0 == Input ==> m == "INPUT: " + r.value.1
    ensures r.Some? && r.value.0 == Output ==> m == "OUTPUT: " + r.value.1
  {
    if |m| >= 7 && m[..7] == "INPUT: " then Some((Input, m[7..]))
    else if |m| >= 8 && m[..8] == "OUTPUT: " then Some((Output, m[8..]))
    else None
  }

  /** A record's kind and text can be read back from its logged message. */
  lemma MessageRoundTrip(record: LogRecord)
    ensures ParseMessage(record.Message()) == Some((record.kind, record.text))
  {
    var m := record.Message();
    if record.kind == Output {
      assert m[..7][0] == 'O';
    }
  }

  /** The name the filter records when no task is running. */
  const NoTask: string := "NONE"

  /** The filter's verdict: whether to keep the record, and the record as tagged. */
  datatype Filtered = Filtered(keep: bool, record: LogRecord)

  /**
   * `ContextFilter.filter`: sets `task_name` to the current task's name, or
   * to "NONE" outside any task, and keeps every record.
   */
  function Filter(current: Option<Task>, record: LogRecord): (r: Filtered)
    ensures r.keep
    ensures current.Some? ==> r.record.taskName == Some(current.value.name)
    ensures current.None? ==> r.record.taskName == Some(NoTask)
    ensures r.record.kind == record.kind && r.record.text == record.text
  {
    var taskName := if current.Some? then current.value.name else NoTask;
    Filtered(true, record.(taskName := Some(taskName)))
  }

  /**
   * `logger.info(...)` from inside `current`: the records that reach the log
   * file, after the logger's filter has seen the new record.
   */
  function Info(current: Option<Task>, kind: Kind, text: string): (written: seq<LogRecord>)
    ensures |written| == 1
    ensures written[0].taskName == Some(current.GetOr(Task(NoTask)).name)
    ensures written[0].kind == kind && written[0].text == text
  {
    var f := Filter(current, LogRecord(None, kind, text));
    if f.keep then [f.record] else []
  }

  /** An `info` call writes exactly one record: the message, tagged with the running task's name. */
  lemma InfoRecord(current: Option<Task>, kind: Kind, text: string)
    ensures Info(current, kind, text) == [LogRecord(Some(current.GetOr(Task(NoTask)).name), kind, text)]
  {
  }
}
