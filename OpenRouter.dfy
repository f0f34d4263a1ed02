/** server/openrouter.ts: `generateResponse` builds a two-message chat
    request and returns the first choice of the reply. The HTTP call itself
    (URL, headers, API key, JSON decoding) is the abstract function `send`. */
module OpenRouter {

  import opened Wrappers
  import opened Text

  const ModelName: string := "qwen/qwen2.5-vl-72b-instruct:free"

  /** The one error every failure is turned into. */
  const GenerationError: string := "Failed to generate AI response"

  datatype ChatMessage = ChatMessage(role: string, content: string)

  datatype ChatRequest = ChatRequest(model: string, messages: seq<ChatMessage>)

  /** What the call to the completion service can end in: an exception
      (network failure, unreadable body), a non-ok status with its text, or
      an ok reply carrying the content of each choice in order. */
  datatype FetchOutcome = Threw | NotOk(errorText: string) | Completed(choices: seq<string>)

  /** The system instruction: the character's name and personality. */
  function SystemPrompt(characterName: string, personality: string): (r: string)
    ensures Contains(r, characterName)
    ensures Contains(r, personality)
  {
    var head := "You are ";
    var middle := ", a character with the following personality: ";
    var tail := ". \nRespond to the user's message while staying in character.";
    InfixContained(head, characterName, middle + personality + tail);
    assert head + characterName + middle + personality + tail
        == head + characterName + (middle + personality + tail);
    InfixContained(head + characterName + middle, personality, tail);
    head + characterName + middle + personality + tail
  }

  /** The request body: the fixed model, then exactly a system message and
      the user's message, verbatim. */
  function BuildRequest(characterName: string, personality: string, userMessage: string): (r: ChatRequest)
    ensures r.model == ModelName
    ensures |r.messages| == 2
    ensures r.messages[0].role == "system" && r.messages[1].role == "user"
    ensures Contains(r.messages[0].content, characterName) && Contains(r.messages[0].content, personality)
    ensures r.messages[1].content == userMessage
  {
    ChatRequest(ModelName, [ChatMessage("system", SystemPrompt(characterName, personality)),
                            ChatMessage("user", userMessage)])
  }

  /** `data.choices[0].message.content`, with every failure collapsed into
      the single generic error (an empty `choices` throws a TypeError). */
  function FirstChoice(outcome: FetchOutcome): (r: Result<string, string>)
    ensures r.Success? <==> outcome.Completed? && |outcome.choices| > 0
    ensures r.Success? ==> r.value == outcome.choices[0]
    ensures r.Failure? ==> r.error == GenerationError
  {
    match outcome
    case Completed(choices) =>
      if |choices| > 0 then Success(choices[0]) else Failure(GenerationError)
    case _ => Failure(GenerationError)
  }

  /** `generateResponse(characterName, personality, userMessage)`. */
  function GenerateResponse(characterName: string, personality: string, userMessage: string,
                            send: ChatRequest -> FetchOutcome): (r: Result<string, string>)
    ensures var outcome := send(BuildRequest(characterName, personality, userMessage));
      && (r.Success? <==> outcome.Completed? && |outcome.choices| > 0)
      && (r.Success? ==> r.value == outcome.choices[0])
    ensures r.Failure? ==> r.error == GenerationError
  {
    FirstChoice(send(BuildRequest(characterName, personality, userMessage)))
  }
}
