/** The `POST /generate-response` handler: a guidance message for an empty
    history, otherwise a canned reply or the upstream's answer, always behind
    the "Savbot: " label. */
module Handler {
  import opened Wrappers
  import opened Text
  import opened Chat
  import opened Rules
  import opened Relay

  /** The decoded request body; `chatHistory` is None when the key is absent
      or null. */
  datatype Request = Request(chatHistory: Option<History>)

  const Label: string := "Savbot: "
  const Guidance: string := "Savbot: Please provide a question for me to answer."

  /** `not chat_history`: the key is missing, null or an empty list. */
  predicate NoQuestion(data: Request): (r: bool)
    ensures !r ==> data.chatHistory.Some? && |data.chatHistory.value| > 0
  {
    data.chatHistory.None? || data.chatHistory.value == []
  }

  /** `handle_generate_response`. `transport` holds the outcome of each request
      the relay would issue; `sent` lists the requests actually issued. */
  method HandleGenerateResponse(data: Request, transport: seq<Outcome>)
    returns (response: string, sent: seq<Payload>)
    requires |transport| >= Retries
    requires !NoQuestion(data) ==> HasPrompt(data.chatHistory.value)
    ensures Label <= response
    ensures NoQuestion(data) ==> response == Guidance && sent == []
    ensures !NoQuestion(data) ==>
      var history := data.chatHistory.value;
      var canned := MatchRule(Normalise(LastPrompt(history)));
      (canned.Some? ==> response == Label + canned.value && sent == []) &&
      (canned.None? ==>
        response == Label + RelayReply(transport) &&
        |sent| == AttemptCount(transport) &&
        forall k :: 0 <= k < |sent| ==> sent[k] == Payload(history))
  {
    if NoQuestion(data) {
      response, sent := Guidance, [];
      return;
    }
    var chatHistory := data.chatHistory.value;
    var userPrompt := Normalise(LastPrompt(chatHistory));
    var responseText: string;
    var canned := MatchRule(userPrompt);
    if canned.Some? {
      responseText, sent := canned.value, [];
    } else {
      ghost var sleeps;
      responseText, sent, sleeps := GetAiResponseFromApi(chatHistory, transport);
    }
    response := Label + responseText;
  }

  /** A prompt with surrounding whitespace and different letter case gets the
      same rule outcome as the bare prompt: "  What's Your Name " is answered
      like "what's your name". */
  lemma PaddingAndCaseIgnored(pre: string, s: string, post: string, t: string)
    requires AllSpace(pre) && AllSpace(post) && SameUpToCase(s, t)
    ensures MatchRule(Normalise(pre + s + post)) == MatchRule(Normalise(t))
  {
    NormaliseIgnoresPadding(pre, s, post);
    NormaliseIgnoresCase(s, t);
  }
}
