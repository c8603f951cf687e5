/** The upstream relay: posts the conversation to the generative-language API,
    retrying a failed request with exponential backoff, and turns the outcome
    into one reply string. */
module Relay {
  import opened Wrappers
  import opened Chat
  import opened Text

  /** The request body: `{"contents": chat_history}`. */
  datatype Payload = Payload(contents: History)

  /** The reply body, as far as the relay reads it:
      `candidates[0].content.parts[0].text`, each level possibly absent. */
  datatype Content = Content(parts: Option<seq<Part>>)
  datatype Candidate = Candidate(content: Option<Content>)
  datatype Body = Body(candidates: Option<seq<Candidate>>)

  /** What one attempt yields: a decoded body, a failure of the request itself
      (a requests.exceptions.RequestException, with its message), or any other
      exception raised while handling the reply. */
  datatype Outcome = Received(body: Body) | RequestFailed(error: string) | OtherError

  const Retries: nat := 3

  const Unclear: string := "I couldn't get a clear answer from the AI. Maybe try rephrasing?"
  const Unexpected: string := "An unexpected error occurred while processing your text request."
  const Fallback: string := "Something went wrong and I couldn't get a text response."

  const ApologyOpening: string := "Sorry, I couldn't reach the AI for text at the moment. (Error: "

  function Apology(error: string): string {
    ApologyOpening + error + ")"
  }

  /** The answer of a body whose first candidate's first part has non-empty
      text; None for every other shape (each test is Python truthiness, so an
      empty list and an empty text count as absent). */
  function AnswerText(body: Body): (r: Option<string>)
    ensures r.Some? ==> r.value != ""
  {
    if body.candidates.Some? && |body.candidates.value| > 0
      && body.candidates.value[0].content.Some?
      && body.candidates.value[0].content.value.parts.Some?
      && |body.candidates.value[0].content.value.parts.value| > 0
      && body.candidates.value[0].content.value.parts.value[0].text.Some?
      && body.candidates.value[0].content.value.parts.value[0].text.value != ""
    then Some(body.candidates.value[0].content.value.parts.value[0].text.value)
    else None
  }

  /** The body of a reply that carries `text` as its only answer. */
  function AnswerBody(text: string): Body {
    Body(Some([Candidate(Some(Content(Some([Part(Some(text))]))))]))
  }

  /** The text of a well-formed reply is what the relay returns; an empty one
      is not an answer. */
  lemma AnswerTextOfAnswerBody(text: string)
    ensures AnswerText(AnswerBody(text)) == if text == "" then None else Some(text)
  {
  }

  /** Only the first candidate and its first part are read. */
  lemma AnswerTextReadsFirstOnly(c: Candidate, cs: seq<Candidate>, p: Part, ps: seq<Part>)
    requires c.content == Some(Content(Some([p] + ps)))
    ensures AnswerText(Body(Some([c] + cs))) == if p.text.Some? && p.text.value != "" then p.text else None
  {
    assert ([c] + cs)[0] == c;
    assert ([p] + ps)[0] == p;
  }

  /** The reply of the attempt that ends the loop. */
  function FinalReply(o: Outcome): (r: string)
    ensures r != ""
    ensures o.RequestFailed? ==> Contains(r, o.error)
  {
    match o
    case Received(body) => if AnswerText(body).Some? then AnswerText(body).value else Unclear
    case RequestFailed(error) => ContainsInfix(ApologyOpening, error, ")"); Apology(error)
    case OtherError => Unexpected
  }

  /** The number of request failures the transport starts with. */
  function LeadingFailures(transport: seq<Outcome>): nat {
    if transport != [] && transport[0].RequestFailed? then 1 + LeadingFailures(transport[1..]) else 0
  }

  /** How many requests the relay issues: one more than the leading failures,
      but never more than Retries. */
  function AttemptCount(transport: seq<Outcome>): nat {
    if LeadingFailures(transport) < Retries then LeadingFailures(transport) + 1 else Retries
  }

  /** What the relay answers, given one outcome for each possible attempt. */
  function RelayReply(transport: seq<Outcome>): string
    requires |transport| >= Retries
  {
    FinalReply(transport[AttemptCount(transport) - 1])
  }

  function Pow2(n: nat): nat {
    if n == 0 then 1 else 2 * Pow2(n - 1)
  }

  /** The leading failures are counted exactly: k failures followed by an
      outcome that is not a failure make k leading failures. */
  lemma {:induction false} LeadingFailuresExact(transport: seq<Outcome>, k: nat)
    requires k < |transport| && !transport[k].RequestFailed?
    requires forall j :: 0 <= j < k ==> transport[j].RequestFailed?
    ensures LeadingFailures(transport) == k
  {
    if k > 0 {
      assert forall j :: 0 <= j < k - 1 ==> transport[1..][j] == transport[j + 1];
      LeadingFailuresExact(transport[1..], k - 1);
    }
  }

  /** Leading failures are at least as many as the failures a prefix shows. */
  lemma {:induction false} LeadingFailuresAtLeast(transport: seq<Outcome>, k: nat)
    requires k <= |transport|
    requires forall j :: 0 <= j < k ==> transport[j].RequestFailed?
    ensures LeadingFailures(transport) >= k
  {
    if k > 0 {
      assert forall j :: 0 <= j < k - 1 ==> transport[1..][j] == transport[j + 1];
      LeadingFailuresAtLeast(transport[1..], k - 1);
    }
  }

  /** k request failures and then any other outcome: the relay makes
      min(k + 1, Retries) attempts; it answers from that outcome when it is
      reached and apologises with the last error otherwise. */
  lemma FailuresThenOutcome(transport: seq<Outcome>, k: nat)
    requires Retries <= |transport| && k < |transport| && !transport[k].RequestFailed?
    requires forall j :: 0 <= j < k ==> transport[j].RequestFailed?
    ensures AttemptCount(transport) == if k + 1 < Retries then k + 1 else Retries
    ensures RelayReply(transport) ==
      if k < Retries then FinalReply(transport[k]) else Apology(transport[Retries - 1].error)
  {
    LeadingFailuresExact(transport, k);
    if k >= Retries {
      assert transport[Retries - 1].RequestFailed?;
    }
  }

  /** Three request failures in a row: three attempts, then the apology that
      carries the third error. */
  lemma GivesUpAfterRetries(transport: seq<Outcome>)
    requires Retries <= |transport|
    requires forall j :: 0 <= j < Retries ==> transport[j].RequestFailed?
    ensures AttemptCount(transport) == Retries
    ensures RelayReply(transport) == Apology(transport[Retries - 1].error)
  {
    LeadingFailuresAtLeast(transport, Retries);
  }

  /** A transport that fails twice and then answers: three attempts, and the
      answer is returned. */
  lemma TwoFailuresThenAnswer(e1: string, e2: string, text: string)
    requires text != ""
    ensures AttemptCount([RequestFailed(e1), RequestFailed(e2), Received(AnswerBody(text))]) == 3
    ensures RelayReply([RequestFailed(e1), RequestFailed(e2), Received(AnswerBody(text))]) == text
  {
    var t := [RequestFailed(e1), RequestFailed(e2), Received(AnswerBody(text))];
    FailuresThenOutcome(t, 2);
  }

  /** `get_ai_response_from_api`: up to Retries requests, each posting the
      history unchanged, sleeping 1, 2, ... time units between a failed request
      and the next. `transport[i]` is the outcome of the i-th request; `sent`
      lists the requests issued and `sleeps` the delays slept, in order. The
      loop always returns from inside, so the fallback after it is never reached. */
  method GetAiResponseFromApi(chatHistory: History, transport: seq<Outcome>)
    returns (reply: string, sent: seq<Payload>, ghost sleeps: seq<nat>)
    requires |transport| >= Retries
    ensures reply == RelayReply(transport)
    ensures |sent| == AttemptCount(transport)
    ensures forall k :: 0 <= k < |sent| ==> sent[k] == Payload(chatHistory)
    ensures |sleeps| == |sent| - 1
    ensures forall k :: 0 <= k < |sleeps| ==> sleeps[k] == Pow2(k)
    ensures sleeps <= [1, 2]
  {
    var payload := Payload(chatHistory);
    sent := [];
    sleeps := [];
    var delay := 1;
    for i := 0 to Retries
      invariant i < Retries
      invariant delay == Pow2(i)
      invariant |sent| == i && forall k :: 0 <= k < i ==> sent[k] == payload
      invariant |sleeps| == i && forall k :: 0 <= k < i ==> sleeps[k] == Pow2(k)
      invariant forall j :: 0 <= j < i ==> transport[j].RequestFailed?
    {
      sent := sent + [payload];
      match transport[i]
      case Received(body) =>
        LeadingFailuresExact(transport, i);
        var answer := AnswerText(body);
        if answer.Some? {
          reply := answer.value;
        } else {
          reply := Unclear;
        }
        return;
      case RequestFailed(error) =>
        if i < Retries - 1 {
          sleeps := sleeps + [delay];
          delay := delay * 2;
        } else {
          LeadingFailuresAtLeast(transport, Retries);
          reply := Apology(error);
          return;
        }
      case OtherError =>
        LeadingFailuresExact(transport, i);
        reply := Unexpected;
        return;
    }
    assert false;
    reply := Fallback;
  }
}
