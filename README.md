# discord-message-mover: the history pager and the post-text helpers

This project models the logic of `utils.js` in a Discord bot that moves a thread's messages
elsewhere:

- `GetMessagesFromThread` (module `ThreadMessages`): a `do … while` loop that asks the platform
  for pages of up to 100 messages of a thread. Every request after the first carries a `before`
  cursor: the id of the last message collected so far, when that id is non-empty. Each page is
  appended to an accumulator. The loop runs until the accumulator is at least as long as the
  thread's `message_count`. Then the accumulator is reversed once, so newest-first pages come out
  oldest first.
- `CreateFirstPostMessage` (module `PostText`): the first message of a new forum post. It holds
  the original content, then a line with the author's mention `<@id>`, then a line with the
  posting date and time.
- `capitalize` (module `PostText`): upper-cases the first character and keeps the rest.

The platform is a `PageSource`: a pure function from a request (thread id, limit 100, optional
`before` cursor) to either a page of messages or the `ApiError` that `DiscordRequest` throws on
a non-OK status. The method `ThreadMessages.GetMessagesFromThread` is the loop itself. It is
proved equal to the specification function `ThreadMessages.Fetch`, which records every pass of
the loop (`RunFrom`). The lemmas state what the loop promises about those passes.

The code has no stop on a short page. So an empty page after a non-empty one leaves the loop
state exactly as it was, and under a pure source the loop repeats the same request forever. The
model returns `Diverges(state)` for that run. `DivergesIsFixedPoint` proves that state is a
fixed point of one pass with the loop test still true. For the same reason, a thread whose
`message_count` exceeds the messages the platform still holds is never fetched
(`DeletedMessagesDiverge`). An empty first page makes `messages.at(-1).id`
throw; the model returns `Aborted(NoLastMessage)`.

Library behaviour comes in as parameters. The locale date and time formatting of
`Intl.DateTimeFormat` is a `Formatter` (a function of the raw timestamp). The upper-case
mapping of `toUpperCase` is a `char -> string` function (full case mapping, possibly several
characters). The two line labels use the emoji U+1F464 (bust in silhouette) and U+1F552 (clock
face three o'clock). `utils.js:66-67` shows their UTF-8 bytes mis-decoded as single-byte
characters.

## Model

| member | source | states |
|---|---|---|
| `ThreadMessages.GetMessagesFromThread` | utils.js:42-52 | the loop returns exactly what `Fetch` says: the reversed accumulator, the thrown error, or the repeated state of a run that never ends |
| `ThreadMessages.BeforeCursor` | utils.js:46 | no `before` cursor is sent exactly when `lastMsgID` is null or the empty string; otherwise the cursor is that id |
| `ThreadMessages.Step` | utils.js:46-49 | one pass: a failed request throws that request's error; an empty first page leaves the accumulator empty and `messages.at(-1).id` throws; otherwise the page is appended and the cursor is the id of the last message collected |
| `ThreadMessages.RunFrom` | utils.js:43-51 | the do-loop makes at least one pass, and the first pass starts from the given state and sends the request for its cursor |
| `ThreadMessages.Fetch` | utils.js:43-51 | a returned list is at least `message_count` long; a run that never returns has a non-empty state shorter than `message_count` that one more pass maps to itself |
| `ThreadMessages.StepAppends` | utils.js:46-49 | one pass appends the received page to the accumulator and puts the cursor on its last message; the state is unchanged exactly when the page is empty, and grows otherwise |
| `ThreadMessages.RunIterations` | utils.js:43-50 | the first pass starts from the empty accumulator; every request asks for 100 messages before the current cursor and gets the source's answer; a pass is followed by another only after a non-empty page, starting from the old accumulator followed by that page, cursor on its last message, length still below `message_count` |
| `ThreadMessages.FirstRequestUncursored` | utils.js:44-47 | a request is always made, and the first one has no `before` cursor |
| `ThreadMessages.FetchedIsReversedPages` | utils.js:48-51 | a returned list is the reverse of all pages concatenated in request order, at least `message_count` long, and the last response was a page |
| `ThreadMessages.FailureAborts` | utils.js:33-47 | the fetch ends in `RequestFailed` exactly when its last request failed, with that request's error, and no messages are returned |
| `ThreadMessages.NoLastMessageOnlyFirst` | utils.js:49 | once something is collected, `messages.at(-1).id` never throws |
| `ThreadMessages.EmptyFirstPage` | utils.js:44-49 | the fetch throws on the missing last message exactly when the first page is empty |
| `ThreadMessages.DivergesIsFixedPoint` | utils.js:45-50 | a run never returns exactly when a later page is empty; its repeated state keeps the loop test true and one more pass leads back to it |
| `ThreadMessages.NonEmptyPagesReturn` | utils.js:45-50 | when every request the loop can send for the thread gets a non-empty page, the fetch returns |
| `ThreadMessages.Covered` | utils.js:45-50 | with full pages the loop reads at least `message_count` messages and overshoots by less than one page |
| `ThreadMessages.ServedRun` | utils.js:42-52 | against a platform that serves a newest-first history: an empty history throws, a history at least `message_count` long returns its newest messages (whole pages) reversed, a shorter one never returns |
| `ThreadMessages.FetchReturnsHistory` | utils.js:42-52 | a thread whose `message_count` equals the messages held is fetched whole, reversed |
| `ThreadMessages.DeletedMessagesDiverge` | utils.js:45-50 | a thread whose `message_count` exceeds the messages held is never fetched |
| `ThreadMessages.ReversedIsOldestFirst` | utils.js:51 | reversing a newest-first list gives posting order |
| `Discord.Reverse` | utils.js:51 | the reversal keeps the length and puts element `i` at position `n-1-i` |
| `PostText.CreateFirstPostMessage` | utils.js:54-68 | the first post starts with the original content followed by a line break |
| `PostText.FirstPostRoundTrip` | utils.js:65-67 | reading the first post back recovers the original content (line breaks included), the mentioned author id and the "date at time" text |
| `PostText.AuthorLineRoundTrip` | utils.js:66 | the author line holds the mention `<@id>` and gives the id back; it is single-line when the id is |
| `PostText.PostedLineRoundTrip` | utils.js:67 | the date line gives back "date at time"; it is single-line when both formatted parts are |
| `PostText.Capitalize` | utils.js:96-98 | "" stays ""; otherwise the upper-case mapping of the first character followed by the rest unchanged |
| `PostText.CapitalizeIdempotent` | utils.js:96-98 | with an upper-case mapping that gives exactly one character and is idempotent, capitalizing twice equals capitalizing once; multi-character mappings are not covered |

## Left out

- `VerifyDiscordRequest` (utils.js:5-16): an Ed25519 signature check in a foreign library, plus HTTP response side effects.
- `DiscordRequest` (utils.js:18-40): URL building, auth headers from the environment, JSON encoding and `fetch`; it appears only as the `PageSource` and its `Failure` response.
- `CreateWebhook` and `InstallGlobalCommands` (utils.js:70-88): single HTTP calls; the latter also logs and swallows errors.
- `getRandomEmoji` (utils.js:91-94): depends on randomness.
- `Intl.DateTimeFormat` formatting and the Unicode case mapping: library behaviour, taken as function parameters.
- `Capitalize`: JavaScript strings are UTF-16; `charAt(0)` of a string starting with a character outside the Basic Multilingual Plane is half a surrogate pair, which the model's characters (Unicode scalar values) do not represent.
- CapitalizeIdempotent: holds only for upper-case mappings that give one character; `capitalize` of a string starting with 'ß' gives "SS…", whose second capitalization is not covered.
- `GetMessagesFromThread`: a run that repeats its state forever is reported as `Diverges` instead of looping; the page source is a pure function, so a platform whose answers change between identical requests is not modelled.
- app.js (the interaction dispatcher) and commands.js (command registration): HTTP plumbing with no logic of the pager or the text helpers.
- Relaying messages through webhooks, pacing delays, forum-post creation and job state: none of these is in the code.
