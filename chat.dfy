/** The conversation history a caller posts with every request. */
module Chat {
  import opened Wrappers

  /** One part of a turn; `text` is None when the part has no "text" key. */
  datatype Part = Part(text: Option<string>)

  /** One message of the conversation, tagged with its role. */
  datatype Turn = Turn(role: string, parts: seq<Part>)

  /** The whole conversation, oldest turn first; it is sent upstream unchanged. */
  type History = seq<Turn>

  /** The history has a latest turn whose first part carries text: what the
      handler reads as the user's current message. */
  predicate HasPrompt(h: History) {
    |h| > 0 && |h[|h| - 1].parts| > 0 && h[|h| - 1].parts[0].text.Some?
  }

  /** `chat_history[-1]['parts'][0]['text']` */
  function LastPrompt(h: History): (r: string)
    requires HasPrompt(h)
    ensures Part(Some(r)) in h[|h| - 1].parts
  {
    h[|h| - 1].parts[0].text.value
  }
}
