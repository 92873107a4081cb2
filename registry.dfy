/**
 * The process-wide registry of conversation histories (`llm_sessions` and
 * `llm_get_session_history`): one history object per session key, created
 * the first time the key is looked up.
 */
module Registry {

  /** A turn of a conversation: what the client typed, or what the model answered. */
  datatype Message = Human(content: string) | Ai(content: string)

  /** `InMemoryChatMessageHistory`: a mutable list of messages. */
  class ChatHistory {
    var messages: seq<Message>

    constructor ()
      ensures messages == []
    {
      messages := [];
    }
  }

  /** The `llm_sessions` dictionary. */
  class SessionRegistry {
    var sessions: map<string, ChatHistory>

    /** No two keys share a history object, so no session can see another's turns. */
    ghost predicate Valid()
      reads this
    {
      forall k1, k2 :: k1 in sessions && k2 in sessions && k1 != k2 ==> sessions[k1] != sessions[k2]
    }

    /** The history stored under `key`, or the empty one a lookup would create. */
    ghost function HistoryOf(key: string): seq<Message>
      reads this, sessions.Values
    {
      if key in sessions then sessions[key].messages else []
    }

    /** The history object stored under `key`, as a frame: empty when there is none yet. */
    ghost function HistoryFrame(key: string): set<object>
      reads this
    {
      if key in sessions then {sessions[key]} else {}
    }

    constructor ()
      ensures Valid() && sessions == map[]
    {
      sessions := map[];
    }

    /**
     * `llm_get_session_history`: returns the history stored under
     * `sessionId`, first storing a new empty one if there is none. No other
     * key is added, removed or rebound, and no history's messages change.
     */
    method GetSessionHistory(sessionId: string) returns (h: ChatHistory)
      requires Valid()
      modifies this
      ensures Valid()
      ensures sessionId in sessions && h == sessions[sessionId]
      ensures sessionId in old(sessions) ==> sessions == old(sessions)
      ensures sessionId !in old(sessions) ==>
        fresh(h) && h.messages == [] && sessions == old(sessions)[sessionId := h]
    {
      if sessionId !in sessions {
        var created := new ChatHistory();
        sessions := sessions[sessionId := created];
      }
      h := sessions[sessionId];
    }

    /** Two lookups of the same key give the same history, and the second changes nothing. */
    method LookupTwice(sessionId: string) returns (h1: ChatHistory, h2: ChatHistory)
      requires Valid()
      modifies this
      ensures Valid()
      ensures sessionId in sessions && h1 == h2 && h2 == sessions[sessionId]
      ensures sessions.Keys == old(sessions).Keys + {sessionId}
      ensures forall k :: k in old(sessions) ==> sessions[k] == old(sessions)[k]
    {
      h1 := GetSessionHistory(sessionId);
      ghost var between := sessions;
      h2 := GetSessionHistory(sessionId);
      assert sessions == between;
    }
  }
}
