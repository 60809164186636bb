/** `process_question` of agent.py: answer a question with the tool the
    router picks, or else with the language-model agent, and turn every
    failure into an error reply. The agent itself is not modelled: what its
    `invoke` returns or raises is the parameter `reply`. */
module Agent {
  import opened Wrappers
  import opened Text
  import opened Tools
  import opened Router

  /** What `agent_executor.invoke({"input": question})` does: return a
      dictionary, whose "output" and "input" entries may be missing, or raise
      an exception whose text is `error`. */
  datatype AgentReply =
    | Replied(output: Option<string>, input: Option<string>)
    | Failed(error: string)

  /** The dictionary `process_question` returns, one variant per shape:
      `success` is true for the first two and false for the last. */
  datatype Response =
    | ToolReply(response: string, toolUsed: string)
    | AgentAnswer(response: string, input: Option<string>)
    | ErrorReply(response: string, error: string)

  predicate Success(r: Response) {
    !r.ErrorReply?
  }

  /** The text of the `KeyError` raised when the agent's dictionary has no
      "output" entry. */
  const MissingOutput := "'output'"

  /** One sentence of agent.py:53. It is written as two literals because the
      verifier does not look inside a long string literal, and
      `FirstLetters` needs its first character; the same holds for
      `SorryPrefix`. */
  const AuthTitle := "Authorization error " + "when accessing the LLM provider (403 - Unauthorized)."

  /** The four lines of advice given for a refused authorization. */
  const AuthMessage :=
    AuthTitle + "\n"
    + "Check your API key and environment variables (API_KEY, API_BASE, AZURE_DEPLOYMENT).\n"
    + "In PowerShell: $env:API_KEY = 'YOUR_KEY' or use setx to persist.\n"
    + "Also confirm endpoint and model permissions."

  const SorryPrefix := "Sorry, " + "an error occurred while processing your question: "

  /** An exception text that reads as a refused authorization. */
  predicate IsAuthError(err: string) {
    Contains(err, "403") || Contains(err, "Unauthorized") || Contains(err, "access_denied")
  }

  /** The reply to an exception: the fixed authorization message for an
      authorization failure, the apology followed by the text otherwise;
      either way the text itself is kept as `error`. */
  function Classify(err: string): (r: Response)
    ensures r.ErrorReply? && r.error == err
    ensures r.response == AuthMessage <==> IsAuthError(err)
    ensures !IsAuthError(err) <==> r.response == SorryPrefix + err
  {
    FirstLetters(err);
    if IsAuthError(err) then ErrorReply(AuthMessage, err)
    else ErrorReply(SorryPrefix + err, err)
  }

  /** The reply built from what the agent returned or raised: its output and
      input when the output is there, the classified error otherwise. */
  function AgentResponse(reply: AgentReply): (r: Response)
    ensures Success(r) <==> reply.Replied? && reply.output.Some?
    ensures r.AgentAnswer? ==> r.response == reply.output.value && r.input == reply.input
    ensures reply.Failed? ==> r == Classify(reply.error)
    ensures reply.Replied? && reply.output.None? ==> r == Classify(MissingOutput)
  {
    match reply
    case Replied(Some(output), input) => AgentAnswer(output, input)
    case Replied(None, _) => Classify(MissingOutput)
    case Failed(error) => Classify(error)
  }

  /** What the caller of the agent sees: an answer when the output is there;
      for an exception, the authorization advice exactly when its text reads
      as a refused authorization, and the apology with the text otherwise; a
      missing output is never taken for an authorization failure. */
  lemma AgentReplies(reply: AgentReply)
    ensures reply.Replied? && reply.output.Some? ==>
              AgentResponse(reply) == AgentAnswer(reply.output.value, reply.input)
    ensures reply.Failed? && IsAuthError(reply.error) ==>
              AgentResponse(reply) == ErrorReply(AuthMessage, reply.error)
    ensures reply.Failed? && !IsAuthError(reply.error) ==>
              AgentResponse(reply) == ErrorReply(SorryPrefix + reply.error, reply.error)
    ensures reply.Replied? && reply.output.None? ==>
              AgentResponse(reply) == ErrorReply(SorryPrefix + MissingOutput, MissingOutput)
  {
    MissingOutputNotAuth();
  }

  /** The text of the missing-output `KeyError` mentions none of the
      authorization markers. */
  lemma MissingOutputNotAuth()
    ensures !IsAuthError(MissingOutput)
  {
    var m := MissingOutput;
    assert m == "'output'";
    MissingChar(m, "403", '4');
    MissingChar(m, "Unauthorized", 'U');
    MissingChar(m, "access_denied", 'a');
  }

  /** `process_question(question, agent_executor)`. A routed question goes,
      unchanged, to the tool registered under the router's name, and the agent
      is not consulted; any other question gets the agent's reply. Nothing
      escapes as an exception. */
  method ProcessQuestion(question: string, reply: AgentReply, env: Environment)
    returns (r: Response)
    ensures r.ToolReply? <==> IdentifyTool(question).Some?
    ensures r.ToolReply? ==>
              && r.toolUsed == IdentifyTool(question).value
              && Lookup(r.toolUsed).Some?
              && r.response == Run(Lookup(r.toolUsed).value.kind, question, env)
    ensures IdentifyTool(question).None? ==> r == AgentResponse(reply)
  {
    var toolName := IdentifyTool(question);
    if toolName.Some? {
      var name := toolName.value;
      NamesDistinct();
      var i := 0;
      while i < |AllTools|
        invariant 0 <= i <= |AllTools|
        invariant forall j :: 0 <= j < i ==> AllTools[j].name != name
      {
        if AllTools[i].name == name {
          var result := Run(AllTools[i].kind, question, env);
          return ToolReply(result, name);
        }
        i := i + 1;
      }
      // Every name the router returns is registered, so the search above
      // always returns.
      assert false;
    }
    r := AgentResponse(reply);
  }

  /** The authorization message and the apology differ in their first
      letter. */
  lemma FirstLetters(err: string)
    ensures AuthMessage[0] == 'A' && (SorryPrefix + err)[0] == 'S'
  {
    assert AuthMessage[0] == AuthTitle[0];
    assert (SorryPrefix + err)[0] == SorryPrefix[0];
  }
}
