/**
 * agent/base_agent.py: `BaseAgent`. An agent holds a system message built
 * from its instructions and a history of messages; every question is sent
 * to the AI client as the system message, the history and the question, in
 * that order. The client is whatever answers a message list: its answers
 * are parameters of the model.
 */
module Agent {

  /** A chat message (`BaseMessage`): its content and its type. */
  datatype Message = Message(content: string, role: string)

  const SYSTEM: string := "system"
  const USER: string := "user"
  const ASSISTANT: string := "assistant"

  /** The message list sent to the client for `question`. */
  function Prompt(system: Message, history: seq<Message>, question: string): seq<Message>
  {
    [system] + history + [Message(question, USER)]
  }

  /**
   * The prompt opens with the system message, carries the history in order,
   * and closes with the question as a "user" message.
   */
  lemma PromptShape(system: Message, history: seq<Message>, question: string)
    ensures var p := Prompt(system, history, question);
            && |p| == |history| + 2
            && p[0] == system
            && p[1..|p| - 1] == history
            && p[|p| - 1] == Message(question, USER)
  {
    var p := Prompt(system, history, question);
    assert p[1..|p| - 1] == history;
  }

  class BaseAgent {
    /** The client's reply to a message list. */
    const ask: seq<Message> -> string
    /** The chunks the client streams for a message list. */
    const askStream: seq<Message> -> seq<string>
    var history: seq<Message>
    var system: Message

    constructor(ask: seq<Message> -> string, askStream: seq<Message> -> seq<string>, instructions: string)
      ensures this.ask == ask && this.askStream == askStream
      ensures history == [] && system == Message(instructions, SYSTEM)
    {
      this.ask := ask;
      this.askStream := askStream;
      history := [];
      system := Message(instructions, SYSTEM);
    }

    method AppendAssistantMessage(message: string)
      modifies this
      ensures history == old(history) + [Message(message, ASSISTANT)] && system == old(system)
    {
      history := history + [Message(message, ASSISTANT)];
    }

    method AppendUserMessage(message: string)
      modifies this
      ensures history == old(history) + [Message(message, USER)] && system == old(system)
    {
      history := history + [Message(message, USER)];
    }

    method ClearHistoryMessages()
      modifies this
      ensures history == [] && system == old(system)
    {
      history := [];
    }

    /** `ask_ai`: the client's reply to the prompt, returned as it is; the history is not touched. */
    method AskAi(question: string) returns (response: string)
      ensures response == ask(Prompt(system, history, question))
    {
      var messages := [system] + history + [Message(question, USER)];
      response := ask(messages);
    }

    /** `ask_ai_stream`: passes on the client's chunks one by one, in order. */
    method AskAiStream(question: string) returns (chunks: seq<string>)
      ensures chunks == askStream(Prompt(system, history, question))
    {
      var messages := [system] + history + [Message(question, USER)];
      var stream := askStream(messages);
      chunks := [];
      for i := 0 to |stream|
        invariant chunks == stream[..i]
      {
        chunks := chunks + [stream[i]];
      }
      assert stream[..|stream|] == stream;
    }
  }
}
