/**
 * agent/stub_client.py: the older `StubClient`, which answers with one of
 * two canned texts by keyword, or a short default reply.
 */
module LegacyStubClient {
  import opened Agent
  import StubClient

  /** `ask_ai`: "Spanish" picks the first example, else "Japanese" the second, else the default reply. */
  function AskAi(messages: seq<Message>, example1: string, example2: string): (r: string)
    requires |messages| > 0
    ensures r == example1 || r == example2 || r == StubClient.DEFAULT_REPLY
    ensures StubClient.Mentions(messages[0].content, "Spanish") || StubClient.Mentions(messages[0].content, "Japanese")
            || r == StubClient.DEFAULT_REPLY
  {
    var content := messages[0].content;
    if StubClient.Mentions(content, "Spanish") then example1
    else if StubClient.Mentions(content, "Japanese") then example2
    else StubClient.DEFAULT_REPLY
  }

  /**
   * Only the first message matters; "Spanish" takes precedence over
   * "Japanese"; a keyword at index 0 is not noticed; with no keyword the
   * default reply comes back.
   */
  lemma AskAiDispatch(messages: seq<Message>, example1: string, example2: string)
    requires |messages| > 0
    ensures AskAi(messages, example1, example2) == AskAi([messages[0]], example1, example2)
    ensures StubClient.Mentions(messages[0].content, "Spanish") ==> AskAi(messages, example1, example2) == example1
    ensures (!StubClient.Mentions(messages[0].content, "Spanish") && StubClient.Mentions(messages[0].content, "Japanese"))
              ==> AskAi(messages, example1, example2) == example2
    ensures (!StubClient.Mentions(messages[0].content, "Spanish") && !StubClient.Mentions(messages[0].content, "Japanese"))
              ==> AskAi(messages, example1, example2) == StubClient.DEFAULT_REPLY
  {
  }

  /** The current client gives the same answers, except for its extra audio example. */
  lemma AgreesWithCurrentClient(messages: seq<Message>, ex: StubClient.Examples)
    requires |messages| > 0
    requires !StubClient.Mentions(messages[0].content, "from the same audio input")
    ensures AskAi(messages, ex.example1, ex.example2) == StubClient.AskAi(messages, ex)
  {
  }
}
