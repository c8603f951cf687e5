# SavBot backend — a Dafny model of its request handler and upstream relay

SavBot is a small Flask service. It has a single endpoint of interest,
`POST /generate-response`, which receives a chat history. When the latest user
message matches one of a few fixed rules, it answers with a canned reply.
Otherwise it forwards the whole history to a generative-language API and
returns the first text the API sends back. Every answer carries the
`"Savbot: "` label. The API call is tried up to three times: a request failure
is retried at most twice, after waiting 1 and then 2 time units.

The model has six modules:

- `Wrappers` (`wrappers.dfy`): the `Option` type used for JSON keys that may be absent.
- `Text` (`text.dfy`): the string operations the handler uses, written as
  functions. These are `str.lower` (ASCII letters), `str.strip` (Python's
  whitespace set) and the substring test `needle in s`. The module also proves
  the normalisation lemmas: surrounding whitespace and letter case make no
  difference, and normalising twice is the same as normalising once.
- `Chat` (`chat.dfy`): the history posted by the caller (turns made of parts), and
  the handler's reading of the latest message.
- `Rules` (`rules.dfy`): the handler's if/elif chain, modelled as a pure function
  `MatchRule` as written. Beside it is the same set of rules written as an ordered
  table (`RuleTable`, evaluated by `FirstMatch`). A lemma proves that the two agree
  on every prompt, and from that follow first-match-wins, the priority
  examples, and that the `== "tell me a joke"` / `== "give me a fun fact"`
  alternatives never decide anything.
- `Relay` (`relay.dfy`): `get_ai_response_from_api` as an imperative method.
  Its `for` loop keeps `delay == 2^i`. It is proved against the specification
  functions `AttemptCount` and `RelayReply`, and lemmas about those functions
  give the attempt count and the reply. The method's own contract states the
  backoff delays: they form a prefix of `[1, 2]`. The
  fallback `return` after the loop is proved unreachable: the loop invariant
  `i < Retries` makes the code after the loop dead. That code starts with
  `assert false`, so the fallback reply it assigns is never returned.
- `Handler` (`handler.dfy`): `handle_generate_response` as a method. It calls
  the relay method only when no rule matches.

The network is an input. `transport[i]` is the outcome of the i-th request the
relay would issue: a decoded body, a request failure with its message, or any
other exception. The methods return the list of requests they actually issued
(`sent`), so "the upstream is not called" is stated as `sent == []`. The relay
also returns the delays it slept as ghost data.

The relay makes `min(leading failures + 1, 3)` attempts, that is, at most two
retries, and it sleeps only between attempts: 1, then 2 time units.

The four canned replies that end in an emoji are spelled with the characters
that app.py holds at that point: the emoji's UTF-8 bytes read as Windows-1252
characters.

## Model

| member | source | states |
|---|---|---|
| `Text.Lower` | app.py:73 | lowercasing keeps the length and replaces each ASCII capital by its small letter, leaving every other character as it is |
| `Text.LeadingSpaces` | app.py:73 | counts the whitespace a prompt starts with: all of those characters are whitespace, and the next one is not |
| `Text.TrailingSpaces` | app.py:73 | counts the whitespace a prompt ends with: all of those characters are whitespace, and the one before them is not |
| `Text.Normalise` | app.py:73 | definition of `.lower().strip()`; its result is trimmed, no longer than the prompt and free of capitals. Its properties are in `NormaliseIgnoresCase`, `NormaliseIgnoresPadding` and `NormaliseIdempotent` |
| `Text.StripKeepsNoCapitals` | app.py:73 | stripping a string without capitals leaves none, since strip only removes characters |
| `Text.Strip` | app.py:73 | the stripped prompt neither starts nor ends with whitespace and is no longer than the input |
| `Text.StripParts` | app.py:73 | strip removes only whitespace: the input is whitespace, then the stripped text, then whitespace |
| `Text.StripUnique` | app.py:73 | whitespace, then a trimmed middle, then whitespace: strip returns exactly that middle, so strip is fully determined by its contract |
| `Text.StripIgnoresPadding` | app.py:73 | adding whitespace around a string does not change its strip |
| `Text.StripIdempotent` | app.py:73 | stripping twice is stripping once |
| `Text.NormaliseIgnoresCase` | app.py:73 | two prompts whose characters pair up as equal, or as the capital and small form of one ASCII letter, normalise to the same string |
| `Text.NormaliseIgnoresPadding` | app.py:73 | surrounding whitespace does not change the normalised prompt |
| `Text.NormaliseIdempotent` | app.py:73 | normalising an already normalised prompt changes nothing |
| `Text.Contains` | app.py:86-93 | definition of the substring test `needle in s`; a needle longer than the prompt is never found and the empty needle always is. Its meaning is stated by `ContainsIffOccurs` |
| `Text.ContainsIffOccurs` | app.py:86-93 | the substring test holds exactly when the needle occurs at some position of the prompt |
| `Text.ContainsInfix` | app.py:86-89 | a string built around a keyword contains that keyword |
| `Text.ContainsHasChar` | app.py:86-93 | a prompt that contains a keyword holds each of the keyword's characters |
| `Chat.LastPrompt` | app.py:73 | definition of `chat_history[-1]['parts'][0]['text']`: the text is carried by a part of the latest turn |
| `Rules.MatchRule` | app.py:82-97 | definition of the if/elif chain as written; a match is one of the six canned replies, and an empty prompt always goes upstream. Its properties are in `MatchRuleIsRuleTable` and the lemmas after it |
| `Rules.FirstMatchPicksFirstFiring` | app.py:82-97 | in an ordered rule table, a rule that fires with no earlier rule firing supplies the reply |
| `Rules.FirstMatchNoneIffNoneFires` | app.py:94-97 | a rule table gives no reply exactly when none of its rules fires |
| `Rules.FirstMatchFromFiringRule` | app.py:82-97 | every reply of a rule table is the reply of a rule that fires, with no earlier rule firing |
| `Rules.MatchRuleIsRuleTable` | app.py:82-97 | the if/elif chain as written gives the same result as the ordered rule table on every prompt |
| `Rules.MatchRulePicksFirstFiring` | app.py:82-93 | first match wins in the handler's chain: the first firing rule decides the reply |
| `Rules.MatchRuleFromFirstFiring` | app.py:82-93 | every canned reply comes from the first rule of the chain that fires |
| `Rules.ExactRequestsSubsumed` | app.py:86-89 | the `== "tell me a joke"` and `== "give me a fun fact"` alternatives add nothing to the keyword tests |
| `Rules.JokeOutranksMood` | app.py:82-93 | any prompt containing "joke" gets the joke reply, whatever mood words it also contains |
| `Rules.PositiveOutranksNegative` | app.py:82-93 | without "joke" or "fun fact", a prompt with a positive word gets the positive reply even if it also has a negative word |
| `Rules.FallthroughIffNoRuleFires` | app.py:94-97 | the chain falls through to the upstream exactly when no rule fires |
| `Relay.AnswerText` | app.py:39-46 | definition of the reading of `candidates[0].content.parts[0].text`; an answer is never empty. Its properties are in `AnswerTextOfAnswerBody` and `AnswerTextReadsFirstOnly` |
| `Relay.FinalReply` | app.py:39-56 | definition of the reply of the attempt that ends the loop; it is never empty, and after a request failure it contains the error message. Used by `FailuresThenOutcome`, `GivesUpAfterRetries` and `GetAiResponseFromApi` |
| `Relay.AnswerTextOfAnswerBody` | app.py:39-43 | a reply body carrying a non-empty text yields that text; an empty text yields no answer |
| `Relay.AnswerTextReadsFirstOnly` | app.py:40-43 | only the first candidate's first part is read; the candidates and parts after it are ignored |
| `Relay.LeadingFailuresExact` | app.py:34-53 | k request failures followed by another outcome are exactly k leading failures |
| `Relay.LeadingFailuresAtLeast` | app.py:34-53 | a prefix of k request failures means at least k leading failures |
| `Relay.FailuresThenOutcome` | app.py:32-56 | k request failures and then another outcome give min(k + 1, 3) attempts. The reply comes from that outcome when it is reached (answer text, "couldn't get a clear answer", or "unexpected error", with no retry); otherwise it is the apology carrying the third error |
| `Relay.GivesUpAfterRetries` | app.py:47-53 | three request failures in a row give three attempts and the apology that embeds the last error |
| `Relay.TwoFailuresThenAnswer` | app.py:32-53 | a transport that fails twice and then answers leads to exactly three attempts, and the answer is returned |
| `Relay.GetAiResponseFromApi` | app.py:23-57 | returns `RelayReply` and issues `AttemptCount` requests, each posting the history unchanged. The delays slept are 1, 2, … (each double the last) with one fewer sleep than attempts, so they form a prefix of [1, 2]. The loop always returns, so the fallback at line 57 is unreachable |
| `Handler.NoQuestion` | app.py:68-70 | definition of `not chat_history`; when it is false the history is present and non-empty. Its consequences are stated by `HandleGenerateResponse` |
| `Handler.HandleGenerateResponse` | app.py:66-101 | a missing or empty history gives exactly the guidance message and sends no request. Otherwise the reply is "Savbot: " followed by the canned reply for the normalised last prompt, with no request sent. When no rule matches, it is "Savbot: " followed by the relay's reply, and the full history goes upstream on each attempt. Every response starts with "Savbot: " |
| `Handler.PaddingAndCaseIgnored` | app.py:73-93 | a prompt with surrounding whitespace and different letter case gets the same rule outcome as the bare prompt |

## Left out

- Flask setup, routing, the `GET /` liveness text, CORS, port selection and `app.run` are framework plumbing and are not modelled.
- The HTTP call, `raise_for_status` and JSON decoding are foreign library calls. Each attempt is an abstract `Outcome`. `RequestFailed` covers every `requests` exception: connection errors, HTTP error statuses and, in recent `requests` versions, an undecodable body. `OtherError` covers every other exception raised while the reply is read, for example a body whose nesting is not made of objects and lists.
- The reply body is typed: `text` is a string when present. A truthy non-string `text`, which Python would format with `str()`, is not modelled.
- `Relay.GetAiResponseFromApi`: needs one outcome for each possible attempt (`|transport| >= 3`). It records the sleeps as ghost data. Real time, `async`/`await` and the `print` logging are not modelled.
- `Handler.HandleGenerateResponse`: requires a non-empty history whose last turn's first part has a `"text"` key. The source raises outside any handler there, and the framework turns that into an error response, which is not modelled. A request body that is not a JSON object is also not modelled.
- `Text.Lower`: lowercases the ASCII letters only. Python's full Unicode lowercasing is not modelled, including the few non-ASCII characters it maps to ASCII letters (such as U+212A KELVIN SIGN to `k`).
- The handler's debugging `print` of the normalised prompt (app.py:76) is console output and is not modelled.
- The API key and URL construction are configuration and are not modelled.
