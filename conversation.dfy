/**
 * The conversation engine as the session loop uses it: the prompt template
 * piped into the chat model (an opaque function of the user name and the
 * messages so far), wrapped so that every call reads and extends the
 * history the registry keeps for one session key.
 */
module Conversation {
  import opened Registry
  import opened Seqs

  /**
   * The prompt template piped into the chat model: given the user name, which
   * fills the persona instruction, and the ordered messages so far, it
   * returns the completion text.
   */
  type Chain = (string, seq<Message>) -> string

  /** The turns that requests with `contents` answered by `replies` add to a history, in order. */
  function Exchange(contents: seq<string>, replies: seq<string>): (turns: seq<Message>)
    requires |contents| == |replies|
    ensures |turns| == 2 * |contents|
    decreases |contents|
  {
    if contents == [] then []
    else
      var n := |contents| - 1;
      Exchange(contents[..n], replies[..n]) + [Human(contents[n]), Ai(replies[n])]
  }

  /** The contents of the client's turns, in order. */
  function HumanTurns(turns: seq<Message>): seq<string>
    decreases |turns|
  {
    if turns == [] then []
    else
      var n := |turns| - 1;
      HumanTurns(turns[..n]) + (if turns[n].Human? then [turns[n].content] else [])
  }

  /** The contents of the model's turns, in order. */
  function AiTurns(turns: seq<Message>): seq<string>
    decreases |turns|
  {
    if turns == [] then []
    else
      var n := |turns| - 1;
      AiTurns(turns[..n]) + (if turns[n].Ai? then [turns[n].content] else [])
  }

  /**
   * The transcript of a session holds the client's lines and the model's
   * answers, each in the order they were produced, and nothing else.
   */
  lemma {:induction false} ExchangeTurns(contents: seq<string>, replies: seq<string>)
    requires |contents| == |replies|
    ensures HumanTurns(Exchange(contents, replies)) == contents
    ensures AiTurns(Exchange(contents, replies)) == replies
    decreases |contents|
  {
    if contents != [] {
      var n := |contents| - 1;
      var before := Exchange(contents[..n], replies[..n]);
      assert Exchange(contents, replies) == before + [Human(contents[n]), Ai(replies[n])];
      ExchangeTurns(contents[..n], replies[..n]);
      PairTurns(before, contents[n], replies[n]);
      DropLast(contents);
      DropLast(replies);
    }
  }

  /** One request and its answer add one turn to each side of the transcript. */
  lemma PairTurns(before: seq<Message>, content: string, reply: string)
    ensures HumanTurns(before + [Human(content), Ai(reply)]) == HumanTurns(before) + [content]
    ensures AiTurns(before + [Human(content), Ai(reply)]) == AiTurns(before) + [reply]
  {
    var turns := before + [Human(content), Ai(reply)];
    assert turns[..|turns| - 1] == before + [Human(content)];
    assert (before + [Human(content)])[..|before|] == before;
  }

  /** A history only grows: the turns of earlier requests stay at the front. */
  lemma {:induction false} ExchangePrefix(contents: seq<string>, replies: seq<string>, k: nat)
    requires |contents| == |replies| && k <= |contents|
    ensures Exchange(contents[..k], replies[..k]) <= Exchange(contents, replies)
    decreases |contents|
  {
    if k < |contents| {
      var n := |contents| - 1;
      assert contents[..n][..k] == contents[..k];
      assert replies[..n][..k] == replies[..k];
      ExchangePrefix(contents[..n], replies[..n], k);
    } else {
      assert contents[..k] == contents && replies[..k] == replies;
    }
  }

  /**
   * The answers a session gets when it sends `contents` one after another,
   * starting from the history `prior`: each request sees `prior`, every earlier
   * request and answer, and its own message.
   */
  function Replies(chain: Chain, username: string, prior: seq<Message>, contents: seq<string>): (replies: seq<string>)
    ensures |replies| == |contents|
    decreases |contents|
  {
    if contents == [] then []
    else
      var n := |contents| - 1;
      var earlier := Replies(chain, username, prior, contents[..n]);
      earlier + [chain(username, prior + Exchange(contents[..n], earlier) + [Human(contents[n])])]
  }

  /** Sending one more message appends one answer, which sees the whole conversation so far. */
  lemma RepliesSnoc(chain: Chain, username: string, prior: seq<Message>, contents: seq<string>, content: string)
    ensures var replies := Replies(chain, username, prior, contents);
      Replies(chain, username, prior, contents + [content])
        == replies + [chain(username, prior + Exchange(contents, replies) + [Human(content)])]
  {
    assert (contents + [content])[..|contents|] == contents;
  }

  /** Answering one more message appends its two turns to the history. */
  lemma ExchangeSnoc(contents: seq<string>, replies: seq<string>, content: string, reply: string)
    requires |contents| == |replies|
    ensures Exchange(contents + [content], replies + [reply])
      == Exchange(contents, replies) + [Human(content), Ai(reply)]
  {
    assert (contents + [content])[..|contents|] == contents;
    assert (replies + [reply])[..|replies|] == replies;
  }

  /** The first answers depend only on the first requests. */
  lemma {:induction false} RepliesPrefix(chain: Chain, username: string, prior: seq<Message>, contents: seq<string>, k: nat)
    requires k <= |contents|
    ensures Replies(chain, username, prior, contents)[..k] == Replies(chain, username, prior, contents[..k])
    decreases |contents|
  {
    if k < |contents| {
      var n := |contents| - 1;
      assert contents[..n][..k] == contents[..k];
      RepliesPrefix(chain, username, prior, contents[..n], k);
    } else {
      assert contents[..k] == contents;
    }
  }

  /** The `i`-th answer is what the chain says to the whole conversation before it plus the `i`-th message. */
  lemma ReplyAt(chain: Chain, username: string, prior: seq<Message>, contents: seq<string>, i: nat)
    requires i < |contents|
    ensures var replies := Replies(chain, username, prior, contents);
      replies[i] == chain(username, prior + Exchange(contents[..i], replies[..i]) + [Human(contents[i])])
  {
    var replies := Replies(chain, username, prior, contents);
    RepliesPrefix(chain, username, prior, contents, i + 1);
    RepliesPrefix(chain, username, prior, contents, i);
    assert contents[..i + 1][..i] == contents[..i];
    assert replies[..i + 1][i] == replies[i];
  }

  /**
   * One `ainvoke` of the history-keeping wrapper: look up (or create) the
   * history of `sessionId`, ask the chain with that history plus the new
   * message, then append the message and the answer to the history. Every
   * other session's history is left as it was.
   */
  method Invoke(registry: SessionRegistry, sessionId: string, username: string, content: string, chain: Chain)
    returns (reply: string)
    requires registry.Valid()
    modifies registry, registry.HistoryFrame(sessionId)
    ensures registry.Valid()
    ensures sessionId in registry.sessions
    ensures registry.sessions == old(registry.sessions)[sessionId := registry.sessions[sessionId]]
    ensures sessionId in old(registry.sessions) ==> registry.sessions == old(registry.sessions)
    ensures sessionId !in old(registry.sessions) ==> fresh(registry.sessions[sessionId])
    ensures reply == chain(username, old(registry.HistoryOf(sessionId)) + [Human(content)])
    ensures registry.sessions[sessionId].messages == old(registry.HistoryOf(sessionId)) + [Human(content), Ai(reply)]
    ensures forall k :: k in old(registry.sessions) && k != sessionId ==>
      registry.sessions[k].messages == old(registry.sessions[k].messages)
  {
    var h := registry.GetSessionHistory(sessionId);
    reply := chain(username, h.messages + [Human(content)]);
    h.messages := h.messages + [Human(content), Ai(reply)];
  }

  /**
   * One later request of a session whose history holds `prior` followed by
   * the exchange so far: the answer is the next of the session's replies,
   * and the history grows by the request and its answer.
   */
  method Ask(registry: SessionRegistry, sessionKey: string, username: string, chain: Chain,
             ghost prior: seq<Message>, ghost contents: seq<string>, ghost replies: seq<string>, line: string)
    returns (reply: string)
    requires registry.Valid() && sessionKey in registry.sessions
    requires |contents| == |replies| && replies == Replies(chain, username, prior, contents)
    requires registry.sessions[sessionKey].messages == prior + Exchange(contents, replies)
    modifies registry, registry.sessions[sessionKey]
    ensures replies + [reply] == Replies(chain, username, prior, contents + [line])
    ensures registry.Valid()
    ensures registry.sessions == old(registry.sessions)
    ensures registry.sessions[sessionKey].messages == prior + Exchange(contents + [line], replies + [reply])
  {
    reply := Invoke(registry, sessionKey, username, line, chain);
    RepliesSnoc(chain, username, prior, contents, line);
    ExchangeSnoc(contents, replies, line, reply);
  }
}
