# A verified model of the DECEIVE SSH honeypot's session core

DECEIVE is an SSH honeypot. An attacker logs in with an account from a small
table. Each command they type is answered by a language model that pretends
to be a Linux shell. Every line typed and every answer written goes to a log
file, tagged with the session it belongs to. This project models the
server's own logic in `ssh_server.py` and proves what that logic guarantees.

The model has five parts, one module each:

- **Auth** (`auth.dfy`): the password gate.
  - `begin_auth` says whether a user must authenticate at all.
  - `validate_password` checks a submitted password against the account
    table, which is `map<string, string>`.
  - The sentinel `'*'` stands for a missing account.
- **Logging** (`logging.dfy`): `ContextFilter.filter` and the records that
  `logger.info` writes.
  - The filter tags each record with the running task's name, or `NONE`.
  - It never drops a record.
- **Registry** (`registry.dfy`): `llm_sessions` and `llm_get_session_history`.
  - `SessionRegistry` is a class whose `sessions` field maps session keys to
    `ChatHistory` objects.
  - A lookup creates the history if it is absent and returns the stored one
    if it is present.
- **Conversation** (`conversation.dfy`): the history-keeping chain,
  `with_message_history`.
  - The prompt-and-model chain is an opaque total function `Chain`. It takes
    the user name and the messages so far.
  - `Invoke` is one `ainvoke` call. It looks up the history, asks the chain,
    and appends the request and its answer.
  - `Replies` and `Exchange` specify the answers and the transcript of a
    whole sequence of requests.
- **Session** (`session.dfy`): `handle_client`.
  - The client's input is a sequence of events, `Line(text)` or `Break`.
    A line is never empty: a blank command arrives as `"\n"`, and an empty
    read means the input has ended.
  - The session sends an empty greeting request first. It then sends each
    line with its trailing newlines stripped, and stops at the end of the
    input or at the first break.
  - It returns the requests made, the writes to the client, the log records
    and the exit status.
  - `HandleClient` and its loop, `Converse`, are proved against the
    specification functions `RequestsFor`, `Replies` and `SessionLog`. The
    lemmas describe what those functions produce.

The random UUID becomes a `token` parameter. The session key is
`"session-" + token`.

A description of the server's design says that a non-empty password admits a
user exactly when the submitted password equals it. The code also refuses an
account whose stored password is `'*'`, because `'*'` is the lookup's default
(`ssh_server.py:85-86`). The model follows the code.
`Auth.SentinelAccountNeverValidates` states this case, and
`Auth.NonEmptySecretNeedsExactPassword` excludes it.

## Model

| member | source | states |
|---|---|---|
| Auth.Get | ssh_server.py:79 | `accounts.get(username)` is `Some` exactly for known users, and then holds their stored password |
| Auth.BeginAuth | ssh_server.py:77-79 | authentication is skipped exactly when the user is known and their stored password is the empty string |
| Auth.ValidatePassword | ssh_server.py:84-86 | a password validates exactly when the user is known, the stored password is not `'*'`, and the submitted password equals it |
| Auth.UnknownUserRejected | ssh_server.py:77-86 | an unknown user must authenticate and no password validates, including the empty one and `'*'` |
| Auth.SentinelAccountNeverValidates | ssh_server.py:84-86 | an account stored with password `'*'` must authenticate and can never log in with a password |
| Auth.EmptySecretAdmitsAnyPassword | ssh_server.py:77-86 | a known user with an empty stored password gets in with any password |
| Auth.NonEmptySecretNeedsExactPassword | ssh_server.py:77-86 | a known user whose stored password is neither empty nor `'*'` gets in exactly when the submitted password equals it |
| Auth.Admitted | ssh_server.py:77-86 | the gate as a whole, with `begin_auth` consulted first and `validate_password` only when a password is needed, admits exactly the known users whose password is empty, or is not `'*'` and matches |
| Logging.LogRecord.Message | ssh_server.py:44-59 | an INPUT record is logged as `INPUT: ` followed by its text, and an OUTPUT record as `OUTPUT: ` followed by its text |
| Logging.ParseMessage | ssh_server.py:44-59 | a message read back as INPUT or OUTPUT is exactly that prefix followed by the text read back |
| Logging.MessageRoundTrip | ssh_server.py:44-59 | every record's kind and text can be read back from its logged message |
| Logging.Filter | ssh_server.py:99-109 | the filter always keeps the record; it sets `task_name` to the current task's name, or to `NONE` outside any task; the message is unchanged |
| Logging.Info | ssh_server.py:138-139 | one `logger.info` call writes exactly one record, with the given kind and text, tagged by the filter |
| Logging.InfoRecord | ssh_server.py:99-109 | the record written is the message tagged with the running task's name, or `NONE` |
| Registry.ChatHistory.constructor | ssh_server.py:121 | a new history holds no messages |
| Registry.SessionRegistry.constructor | ssh_server.py:144 | the registry starts empty |
| Registry.SessionRegistry.GetSessionHistory | ssh_server.py:119-122 | afterwards the key is present and the result is its history; if the key was already present, nothing changes and the stored history is returned; otherwise a fresh empty history is stored under the key and no other key is touched; no two keys share a history |
| Registry.SessionRegistry.LookupTwice | ssh_server.py:119-122 | two lookups of the same key return the same history; only that key is added, and every other entry stays bound to its old history |
| Conversation.Exchange | ssh_server.py:50-56 | requests answered one by one add two turns each to a history |
| Conversation.ExchangeTurns | ssh_server.py:35-56 | a session's transcript holds exactly its messages as client turns and its answers as model turns, each in order |
| Conversation.ExchangePrefix | ssh_server.py:50-56 | a history only grows: the turns of earlier requests stay at its front |
| Conversation.Replies | ssh_server.py:35-59 | a session gets exactly one answer per message it sends |
| Conversation.RepliesPrefix | ssh_server.py:47-56 | the first k answers depend only on the first k messages |
| Conversation.ReplyAt | ssh_server.py:50-56 | the i-th answer is the chain's answer to the prior history, then every earlier message and answer, then the i-th message |
| Conversation.Invoke | ssh_server.py:175-179 | one call answers from the stored history plus the new message, then appends the message and the answer; only this key's entry may be created, and every other history is unchanged |
| Conversation.Ask | ssh_server.py:50-56 | a later request in a session gets the next of its `Replies`, and the session's history grows by that request and its answer |
| Session.RStripNewlines | ssh_server.py:48 | `rstrip('\n')` returns a prefix of the line that does not end in a newline, and everything it removed is newlines |
| Session.RStripIdempotent | ssh_server.py:48 | stripping twice is stripping once |
| Session.LinesRead | ssh_server.py:47 | the loop reads at most as many lines as there are input events |
| Session.LinesReadSpec | ssh_server.py:46-61 | the lines read are the texts of the first input events, in order, and reading stops only at the end of the input or at a break |
| Session.Messages | ssh_server.py:35-52 | a session sends one message more than it reads lines, and the first message is empty |
| Session.MessagesAt | ssh_server.py:47-52 | the j-th line read, stripped, is message j + 1, counting the greeting as message 0 |
| Session.Contents | ssh_server.py:35-52 | the messages for an input are the greeting's empty message plus one per line read |
| Session.ContentsAt | ssh_server.py:47-52 | the message at position j + 1 comes from the j-th input event, which is a line, with its trailing newlines stripped |
| Session.RequestsFor | ssh_server.py:33-56 | one request per message |
| Session.RequestsForAt | ssh_server.py:33-56 | every request carries the same session key and user name, and the message at its own position |
| Session.SessionLog | ssh_server.py:44-59 | a session with N + 1 messages writes 2N + 1 log records |
| Session.SessionLogOpens | ssh_server.py:43-44 | the log opens with the greeting's OUTPUT record |
| Session.SessionLogAt | ssh_server.py:47-59 | for each line, the INPUT record of its stripped text is followed directly by the OUTPUT record of its answer |
| Session.SessionLogTexts | ssh_server.py:44-59 | the INPUT texts are exactly the stripped lines and the OUTPUT texts exactly the answers, in order; so N lines give N INPUT and N + 1 OUTPUT records |
| Session.SessionLogTaskNames | ssh_server.py:29-31 | every record of a session's log carries the session key as its task name |
| Session.DistinctTokensDistinctKeys | ssh_server.py:29 | different tokens give different session keys |
| Session.HandleClient | ssh_server.py:24-63 | the session key is `"session-"` plus the token; the requests, the writes and the log are exactly `RequestsFor`, `Replies` and `SessionLog` of the input's messages, answered from the key's prior history; the exit status is 0, with or without a break; the key's history ends up as the prior history plus the whole exchange; no other session's history changes |
| Session.Converse | ssh_server.py:43-61 | the read loop, given the greeting, produces the same traces and history as `HandleClient` states; the registry's entries stay bound to the same history objects |
| Session.GreetingStep | ssh_server.py:35-44 | the greeting is the one answer to the empty message, asked with the history found under the key |
| Session.RoundStep | ssh_server.py:48-59 | one line extends the requests by one request and the log by its INPUT and OUTPUT records |
| Session.ContentsStep | ssh_server.py:47-48 | reading one more line adds its stripped text to the messages |
| Session.ContentsAtStop | ssh_server.py:46-61 | once the loop stops at the end of the input or at a break, the messages sent are those of the whole input |

## Left out

- `Auth.Admitted` is an assumption about the SSH server library: it asks for no password when `begin_auth` returns false, and otherwise lets `validate_password` decide. That flow is not in `ssh_server.py`.
- The asyncssh transport and server wiring are not modelled; they are network I/O. This covers `start_server`, `connection_made`, `connection_lost`, `password_auth_supported`, host-key loading and `process.exit`, whose status is returned as a value.
- The malformed `logger.error(..., file=sys.stderr)` call in `connection_lost` is not modelled.
- The chat model and the prompt template are an opaque total function, `Conversation.Chain`. Its persona text is data, and a chain that fails or raises is not modelled.
- The history-keeping wrapper lives inside a library, not in `ssh_server.py`. `Conversation.Invoke` models it by an explicit assumption: each call reads the stored history, asks the chain with it plus the new message, then appends both turns.
- The system prompt's `{username}` is not modelled. The chain receives the user name directly.
- `uuid.uuid4()` is not modelled; its randomness becomes the `token` parameter. That two sessions get different tokens is a premise of `Session.DistinctTokensDistinctKeys`, not something proved.
- asyncio concurrency is not modelled. A session runs on its own from start to end, and interleaving several sessions on one registry is not covered. Naming the task becomes an `Option<Task>` given to the filter.
- `asyncio.current_task()` raising `RuntimeError` when no event loop runs is not modelled. `Logging.Filter` takes the current task as an `Option`.
- Exceptions other than a break are not modelled, such as a failing model call or a dropped connection. They would end `handle_client` early.
- `read_accounts` is not modelled; it reads a JSON file. The account table is a parameter.
- The logging setup is not modelled. This covers the handler, the format string, and the `formatTime` override with its local-time conversion. Log records are kept as their task name, kind and text.
- `Registry.SessionRegistry.GetSessionHistory` does not state in its `ensures` that an existing history's messages are unchanged. That follows from its `modifies this` frame, which does not include any history object.
- The analysis script `scripts/log_analyzer_ai.py` is not part of this model. It is clustering and plotting built on numeric libraries.
