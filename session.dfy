/**
 * One SSH session (`handle_client`): name the session, ask for a greeting
 * before reading anything, then answer the client line by line until the
 * input ends or the client sends a break, mirroring every line to the log.
 */
module Session {
  import opened Wrappers
  import opened Registry
  import opened Conversation
  import opened Logging
  import opened Seqs

  /**
   * A line as the reader returns it, newline included. It is never empty: a
   * blank command arrives as "\n", and an empty read means the input ended.
   */
  type ReadLine = s: string | s != [] witness "\n"

  /** What reading the client's input can give: a line, or a break. */
  datatype StdinEvent = Line(text: ReadLine) | Break

  /** The arguments of one `ainvoke` call: the configured session id, the user name and the message. */
  datatype Request = Request(sessionId: string, username: string, content: string)

  /** Every session key starts with this. */
  const SessionPrefix: string := "session-"

  /** Python's `s.rstrip('\n')`: drops every trailing newline, and nothing else. */
  function RStripNewlines(s: string): (r: string)
    ensures r <= s
    ensures r == [] || r[|r| - 1] != '\n'
    ensures forall i :: |r| <= i < |s| ==> s[i] == '\n'
    decreases |s|
  {
    if s != [] && s[|s| - 1] == '\n' then RStripNewlines(s[..|s| - 1]) else s
  }

  /** Stripping twice is stripping once. */
  lemma RStripIdempotent(s: string)
    ensures RStripNewlines(RStripNewlines(s)) == RStripNewlines(s)
  {
  }

  /** The lines the loop reads: the input up to, and not including, the first break. */
  function LinesRead(stdin: seq<StdinEvent>): (lines: seq<string>)
    ensures |lines| <= |stdin|
    decreases |stdin|
  {
    if stdin == [] || stdin[0] == Break then [] else [stdin[0].text] + LinesRead(stdin[1..])
  }

  /**
   * The lines read are the texts of the input's first events, in order, and
   * reading stops only at the end of the input or at a break.
   */
  lemma {:induction false} LinesReadSpec(stdin: seq<StdinEvent>)
    ensures var lines := LinesRead(stdin);
      && (forall i :: 0 <= i < |lines| ==> stdin[i].Line? && stdin[i].text == lines[i])
      && (|lines| < |stdin| ==> stdin[|lines|] == Break)
    decreases |stdin|
  {
    if stdin != [] && stdin[0] != Break {
      LinesReadSpec(stdin[1..]);
      var lines := LinesRead(stdin);
      forall i | 0 <= i < |lines|
        ensures stdin[i].Line? && stdin[i].text == lines[i]
      {
        if i > 0 {
          assert lines[i] == LinesRead(stdin[1..])[i - 1];
        }
      }
    }
  }

  /**
   * The messages a session sends for the lines it reads, in order: the empty
   * greeting request, then each line with its trailing newlines stripped.
   */
  function Messages(lines: seq<string>): (contents: seq<string>)
    ensures |contents| == |lines| + 1 && contents[0] == ""
    decreases |lines|
  {
    if lines == [] then [""]
    else
      var n := |lines| - 1;
      Messages(lines[..n]) + [RStripNewlines(lines[n])]
  }

  /** Each line read becomes, stripped, the message after the greeting at its position. */
  lemma {:induction false} MessagesAt(lines: seq<string>, j: nat)
    requires j < |lines|
    ensures Messages(lines)[j + 1] == RStripNewlines(lines[j])
    decreases |lines|
  {
    var n := |lines| - 1;
    if j < n {
      MessagesAt(lines[..n], j);
    }
  }

  /** Reading one more line sends one more message. */
  lemma MessagesSnoc(lines: seq<string>, text: string)
    ensures Messages(lines + [text]) == Messages(lines) + [RStripNewlines(text)]
  {
    assert (lines + [text])[..|lines|] == lines;
  }

  /** The messages a session sends for its whole input. */
  function Contents(stdin: seq<StdinEvent>): (contents: seq<string>)
    ensures |contents| == |LinesRead(stdin)| + 1 && contents[0] == ""
  {
    Messages(LinesRead(stdin))
  }

  /** The message after the greeting at position `j` is the `j`-th input event, a line, stripped. */
  lemma ContentsAt(stdin: seq<StdinEvent>, j: nat)
    requires j < |LinesRead(stdin)|
    ensures stdin[j].Line? && Contents(stdin)[j + 1] == RStripNewlines(stdin[j].text)
  {
    LinesReadSpec(stdin);
    MessagesAt(LinesRead(stdin), j);
  }

  /** The requests a session makes for `contents`: one per message, in order. */
  function RequestsFor(key: string, username: string, contents: seq<string>): (requests: seq<Request>)
    ensures |requests| == |contents|
    decreases |contents|
  {
    if contents == [] then []
    else
      var n := |contents| - 1;
      RequestsFor(key, username, contents[..n]) + [Request(key, username, contents[n])]
  }

  /** Every request of a session carries the same session key and user name, and the message at its position. */
  lemma {:induction false} RequestsForAt(key: string, username: string, contents: seq<string>, j: nat)
    requires j < |contents|
    ensures RequestsFor(key, username, contents)[j] == Request(key, username, contents[j])
    decreases |contents|
  {
    var n := |contents| - 1;
    if j < n {
      RequestsForAt(key, username, contents[..n], j);
    }
  }

  /**
   * The log a session writes for `contents` answered by `replies`, as the
   * logger emits it from the session's task: an OUTPUT record for the
   * greeting, then for each later message an INPUT record followed by an
   * OUTPUT record with its answer.
   */
  function SessionLog(key: string, contents: seq<string>, replies: seq<string>): (log: seq<LogRecord>)
    requires |contents| == |replies| >= 1
    ensures |log| == 2 * |contents| - 1
    decreases |contents|
  {
    var n := |contents| - 1;
    if n == 0 then Info(Some(Task(key)), Output, replies[0])
    else
      SessionLog(key, contents[..n], replies[..n])
        + Info(Some(Task(key)), Input, contents[n]) + Info(Some(Task(key)), Output, replies[n])
  }

  /** One more message appends its INPUT record and its answer's OUTPUT record. */
  lemma SessionLogSnoc(key: string, contents: seq<string>, replies: seq<string>, content: string, reply: string)
    requires |contents| == |replies| >= 1
    ensures SessionLog(key, contents + [content], replies + [reply])
      == SessionLog(key, contents, replies) + Info(Some(Task(key)), Input, content) + Info(Some(Task(key)), Output, reply)
  {
    assert (contents + [content])[..|contents|] == contents;
    assert (replies + [reply])[..|replies|] == replies;
  }

  /** The texts of the records of one kind, in order. */
  function TextsOf(log: seq<LogRecord>, kind: Kind): seq<string>
    decreases |log|
  {
    if log == [] then []
    else
      var n := |log| - 1;
      TextsOf(log[..n], kind) + (if log[n].kind == kind then [log[n].text] else [])
  }

  /** Picking the texts of one kind distributes over concatenation. */
  lemma {:induction false} TextsOfAppend(a: seq<LogRecord>, b: seq<LogRecord>, kind: Kind)
    ensures TextsOf(a + b, kind) == TextsOf(a, kind) + TextsOf(b, kind)
    decreases |b|
  {
    if b == [] {
      assert a + b == a;
    } else {
      var n := |b| - 1;
      assert (a + b)[..|a + b| - 1] == a + b[..n];
      TextsOfAppend(a, b[..n], kind);
    }
  }

  /**
   * The INPUT records of a session's log are its messages after the greeting
   * and its OUTPUT records its answers, each in order; so N lines read give N
   * INPUT and N + 1 OUTPUT records.
   */
  lemma {:induction false} SessionLogTexts(key: string, contents: seq<string>, replies: seq<string>)
    requires |contents| == |replies| >= 1
    ensures TextsOf(SessionLog(key, contents, replies), Input) == contents[1..]
    ensures TextsOf(SessionLog(key, contents, replies), Output) == replies
    decreases |contents|
  {
    var n := |contents| - 1;
    var task := Some(Task(key));
    if n == 0 {
      InfoTexts(task, Output, replies[0], Input);
      InfoTexts(task, Output, replies[0], Output);
      assert replies == [replies[0]];
    } else {
      var before := SessionLog(key, contents[..n], replies[..n]);
      assert SessionLog(key, contents, replies)
        == before + Info(task, Input, contents[n]) + Info(task, Output, replies[n]);
      SessionLogTexts(key, contents[..n], replies[..n]);
      RoundTexts(before, task, contents[n], replies[n]);
      DropLastTail(contents);
      DropLast(replies);
    }
  }

  /** A round's INPUT record adds its message to the INPUT texts, its OUTPUT record its answer to the OUTPUT texts. */
  lemma RoundTexts(before: seq<LogRecord>, task: Option<Task>, content: string, reply: string)
    ensures TextsOf(before + Info(task, Input, content) + Info(task, Output, reply), Input)
      == TextsOf(before, Input) + [content]
    ensures TextsOf(before + Info(task, Input, content) + Info(task, Output, reply), Output)
      == TextsOf(before, Output) + [reply]
  {
    var input := Info(task, Input, content);
    var output := Info(task, Output, reply);
    InfoTexts(task, Input, content, Input);
    InfoTexts(task, Input, content, Output);
    InfoTexts(task, Output, reply, Input);
    InfoTexts(task, Output, reply, Output);
    TextsOfAppend(before + input, output, Input);
    TextsOfAppend(before, input, Input);
    TextsOfAppend(before + input, output, Output);
    TextsOfAppend(before, input, Output);
    assert TextsOf(before + input, Output) == TextsOf(before, Output);
    assert TextsOf(before + input + output, Input) == TextsOf(before + input, Input);
  }

  /** A session's log opens with the OUTPUT record of the greeting. */
  lemma {:induction false} SessionLogOpens(key: string, contents: seq<string>, replies: seq<string>)
    requires |contents| == |replies| >= 1
    ensures SessionLog(key, contents, replies)[0] == LogRecord(Some(key), Output, replies[0])
    decreases |contents|
  {
    var n := |contents| - 1;
    InfoRecord(Some(Task(key)), Output, replies[0]);
    if n > 0 {
      SessionLogOpens(key, contents[..n], replies[..n]);
    }
  }

  /**
   * After the greeting, the `j`-th message's INPUT record and its answer's
   * OUTPUT record sit next to each other, at positions 2j - 1 and 2j.
   */
  lemma {:induction false} SessionLogAt(key: string, contents: seq<string>, replies: seq<string>, j: nat)
    requires |contents| == |replies| && 1 <= j < |contents|
    ensures SessionLog(key, contents, replies)[2 * j - 1] == LogRecord(Some(key), Input, contents[j])
    ensures SessionLog(key, contents, replies)[2 * j] == LogRecord(Some(key), Output, replies[j])
    decreases |contents|
  {
    var n := |contents| - 1;
    var task := Some(Task(key));
    var before := SessionLog(key, contents[..n], replies[..n]);
    assert SessionLog(key, contents, replies) == before + Info(task, Input, contents[n]) + Info(task, Output, replies[n]);
    if j < n {
      SessionLogAt(key, contents[..n], replies[..n], j);
    } else {
      InfoRecord(task, Input, contents[n]);
      InfoRecord(task, Output, replies[n]);
    }
  }

  /** Every record of a session's log carries the session's key as its task name. */
  lemma {:induction false} SessionLogTaskNames(key: string, contents: seq<string>, replies: seq<string>)
    requires |contents| == |replies| >= 1
    ensures forall r :: r in SessionLog(key, contents, replies) ==> r.taskName == Some(key)
    decreases |contents|
  {
    var n := |contents| - 1;
    if n > 0 {
      SessionLogTaskNames(key, contents[..n], replies[..n]);
    }
  }

  /** The one record an `info` call writes contributes its text to its own kind only. */
  lemma InfoTexts(current: Option<Task>, k: Kind, text: string, kind: Kind)
    ensures TextsOf(Info(current, k, text), kind) == if k == kind then [text] else []
  {
    var written := Info(current, k, text);
    assert written[..0] == [];
  }

  /** Different tokens give different session keys, so sessions never share a history. */
  lemma DistinctTokensDistinctKeys(token1: string, token2: string)
    requires token1 != token2
    ensures SessionPrefix + token1 != SessionPrefix + token2
  {
    assert (SessionPrefix + token1)[|SessionPrefix|..] == token1;
    assert (SessionPrefix + token2)[|SessionPrefix|..] == token2;
  }

  /**
   * `handle_client` for a client logged in as `username`, whose input is
   * `stdin`; `token` stands for the random UUID. Returns the session key, the
   * requests made, the writes to the client, the log records and the exit
   * status; the registry ends up holding the session's whole conversation
   * under its key, and no other session's history changes.
   */
  method HandleClient(registry: SessionRegistry, token: string, username: string, stdin: seq<StdinEvent>, chain: Chain)
    returns (sessionKey: string, requests: seq<Request>, stdout: seq<string>, log: seq<LogRecord>, status: int)
    requires registry.Valid()
    modifies registry, registry.HistoryFrame(SessionPrefix + token)
    ensures sessionKey == SessionPrefix + token
    ensures requests == RequestsFor(sessionKey, username, Contents(stdin))
    ensures stdout == Replies(chain, username, old(registry.HistoryOf(sessionKey)), Contents(stdin))
    ensures log == SessionLog(sessionKey, Contents(stdin), stdout)
    ensures status == 0
    ensures registry.Valid()
    ensures sessionKey in registry.sessions
    ensures registry.sessions == old(registry.sessions)[sessionKey := registry.sessions[sessionKey]]
    ensures sessionKey in old(registry.sessions) ==> registry.sessions == old(registry.sessions)
    ensures registry.sessions[sessionKey].messages == old(registry.HistoryOf(sessionKey)) + Exchange(Contents(stdin), stdout)
    ensures forall k :: k in old(registry.sessions) && k != sessionKey ==>
      registry.sessions[k].messages == old(registry.sessions[k].messages)
  {
    sessionKey := SessionPrefix + token;
    ghost var prior := registry.HistoryOf(sessionKey);
    var greeting := Invoke(registry, sessionKey, username, "", chain);
    requests, stdout, log := Converse(registry, sessionKey, username, stdin, chain, prior, greeting);
    status := 0;
  }

  /**
   * The greeting's log record and the loop of `handle_client` that reads
   * `stdin` line by line, asks for an answer to each stripped line and writes
   * it back, until the input ends or a break arrives. The session already
   * holds its history, which ends with the greeting exchange; every answer is
   * appended to that same history object, and the registry keeps its entries.
   */
  method Converse(registry: SessionRegistry, sessionKey: string, username: string, stdin: seq<StdinEvent>,
                  chain: Chain, ghost prior: seq<Message>, greeting: string)
    returns (requests: seq<Request>, stdout: seq<string>, log: seq<LogRecord>)
    requires registry.Valid() && sessionKey in registry.sessions
    requires greeting == chain(username, prior + [Human("")])
    requires registry.sessions[sessionKey].messages == prior + [Human(""), Ai(greeting)]
    modifies registry, registry.sessions[sessionKey]
    ensures requests == RequestsFor(sessionKey, username, Contents(stdin))
    ensures stdout == Replies(chain, username, prior, Contents(stdin))
    ensures log == SessionLog(sessionKey, Contents(stdin), stdout)
    ensures registry.Valid()
    ensures registry.sessions == old(registry.sessions)
    ensures registry.sessions[sessionKey].messages == prior + Exchange(Contents(stdin), stdout)
  {
    var task := Task(sessionKey);
    ghost var history := registry.sessions[sessionKey];
    ghost var entry := registry.sessions;
    stdout := [greeting];
    log := Info(Some(task), Output, greeting);
    requests := [Request(sessionKey, username, "")];
    ghost var contents := Contents(stdin[..0]);
    GreetingStep(sessionKey, username, chain, prior, greeting);

    var i := 0;
    while i < |stdin| && stdin[i].Line?
      invariant 0 <= i <= |stdin|
      invariant |LinesRead(stdin[..i])| == i
      invariant contents == Contents(stdin[..i])
      invariant requests == RequestsFor(sessionKey, username, contents)
      invariant stdout == Replies(chain, username, prior, contents)
      invariant log == SessionLog(sessionKey, contents, stdout)
      invariant registry.Valid()
      invariant registry.sessions == entry
      invariant history.messages == prior + Exchange(contents, stdout)
    {
      var line := RStripNewlines(stdin[i].text);
      log := log + Info(Some(task), Input, line);
      var reply := Ask(registry, sessionKey, username, chain, prior, contents, stdout, line);
      ContentsStep(stdin, i);
      RoundStep(sessionKey, username, contents, stdout, line, reply);
      stdout := stdout + [reply];
      log := log + Info(Some(task), Output, reply);
      requests := requests + [Request(sessionKey, username, line)];
      contents := contents + [line];
      i := i + 1;
    }
    ContentsAtStop(stdin, i);
  }

  /** The greeting is the one answer to the empty message, asked with the history found under the key. */
  lemma GreetingStep(key: string, username: string, chain: Chain, prior: seq<Message>, reply: string)
    requires reply == chain(username, prior + [Human("")])
    ensures [reply] == Replies(chain, username, prior, [""])
    ensures prior + [Human(""), Ai(reply)] == prior + Exchange([""], [reply])
    ensures [Request(key, username, "")] == RequestsFor(key, username, [""])
  {
    RepliesSnoc(chain, username, prior, [], "");
    ExchangeSnoc([], [], "", reply);
    assert [] + [""] == [""] && prior + Exchange([], []) == prior;
    assert [""][..0] == [];
  }

  /** One round of the loop extends the requests and the log exactly as their specification functions do. */
  lemma RoundStep(key: string, username: string, contents: seq<string>, replies: seq<string>, line: string, reply: string)
    requires |contents| == |replies| >= 1
    ensures RequestsFor(key, username, contents) + [Request(key, username, line)]
      == RequestsFor(key, username, contents + [line])
    ensures SessionLog(key, contents, replies) + Info(Some(Task(key)), Input, line) + Info(Some(Task(key)), Output, reply)
      == SessionLog(key, contents + [line], replies + [reply])
  {
    SessionLogSnoc(key, contents, replies, line, reply);
    assert (contents + [line])[..|contents|] == contents;
  }

  /** Reading one more line: the lines read so far grow by its text, the messages by its stripped text. */
  lemma ContentsStep(stdin: seq<StdinEvent>, i: nat)
    requires i < |stdin| && stdin[i].Line? && |LinesRead(stdin[..i])| == i
    ensures |LinesRead(stdin[..i + 1])| == i + 1
    ensures Contents(stdin[..i + 1]) == Contents(stdin[..i]) + [RStripNewlines(stdin[i].text)]
  {
    LinesReadSnoc(stdin[..i], stdin[i].text);
    assert stdin[..i] + [stdin[i]] == stdin[..i + 1];
    MessagesSnoc(LinesRead(stdin[..i]), stdin[i].text);
  }

  /** Appending a line to an input that holds no break appends its text to the lines read. */
  lemma {:induction false} LinesReadSnoc(events: seq<StdinEvent>, text: ReadLine)
    requires |LinesRead(events)| == |events|
    ensures LinesRead(events + [Line(text)]) == LinesRead(events) + [text]
    decreases |events|
  {
    if events == [] {
      assert [Line(text)][1..] == [];
    } else {
      assert (events + [Line(text)])[1..] == events[1..] + [Line(text)];
      assert events[0] != Break;
      LinesReadSnoc(events[1..], text);
    }
  }

  /** When the loop stops after `n` lines, at the end of the input or at a break, it has read all it reads. */
  lemma ContentsAtStop(stdin: seq<StdinEvent>, n: nat)
    requires n <= |stdin| && |LinesRead(stdin[..n])| == n
    requires n == |stdin| || stdin[n] == Break
    ensures Contents(stdin) == Contents(stdin[..n])
  {
    LinesReadStops(stdin, n);
  }

  /** Reading `n` lines followed by the end of the input or a break reads exactly those lines. */
  lemma {:induction false} LinesReadStops(stdin: seq<StdinEvent>, n: nat)
    requires n <= |stdin| && |LinesRead(stdin[..n])| == n
    requires n == |stdin| || stdin[n] == Break
    ensures LinesRead(stdin) == LinesRead(stdin[..n])
    decreases n
  {
    if n == 0 {
      assert stdin[..0] == [];
    } else {
      assert stdin[..n][0] != Break;
      assert stdin[..n][1..] == stdin[1..][..n - 1];
      LinesReadStops(stdin[1..], n - 1);
    }
  }
}
