/**
 * The language-model call of a chat turn, as an oracle. Which reply the
 * model gives is not modelled: it is an input to the turn. What is modelled
 * is how the call extends the history it was given.
 */
module Llm {
  import opened SessionStore

  /** The outcome of `llm.chat`: an exception, or the reply text (`None` content read as ""). */
  datatype LlmResult = Failed | Replied(text: string)

  /** The history `llm.chat` returns: a copy of the input, the user message, then the reply. */
  function Chat(history: History, userMessage: string, reply: string): History
  {
    history + [Message("user", userMessage), Message("assistant", reply)]
  }

  /** `updated_history[-1]["content"] = text`. */
  function WithLastContent(h: History, text: string): History
    requires h != []
  {
    h[..|h| - 1] + [h[|h| - 1].(content := text)]
  }

  /**
   * The history the chat endpoint stores: the history sent, then the user
   * message, then the assistant's reply with its text replaced.
   */
  lemma StoredHistory(history: History, userMessage: string, reply: string, cleaned: string)
    ensures var h := WithLastContent(Chat(history, userMessage, reply), cleaned);
      && |h| == |history| + 2
      && h[..|history|] == history
      && h[|history|] == Message("user", userMessage)
      && h[|history| + 1] == Message("assistant", cleaned)
  {
    var c := Chat(history, userMessage, reply);
    assert c[..|c| - 1] == history + [Message("user", userMessage)];
  }
}
