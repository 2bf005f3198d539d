# Gemini chat client: the conversation-history buffer

`aichat.py` is a terminal chat client for Google Gemini. Its one piece of
state is `conversation_history`, a list of `{"role": ..., "parts": [text]}`
entries that is sent as context with every prompt. This project models that
buffer and the code that drives it.

- `History`: the buffer itself. `add_to_history` maps the role
  "assistant" to "model" and appends the entry. It then deletes the first two
  entries while `len(json.dumps(history))` exceeds `MAX_HISTORY_TOKENS` (4000)
  and more than one entry remains. The class `ConversationHistory` keeps the
  list in a `seq` field: `Add` runs the trimming loop in place and is proved
  against the function `Added`; `Clear` is the `/clear` reset.
- `GeminiErrors`: `ask_gemini` sorts a failed call into one of five kinds by
  ordered substring tests. Some tests are case-sensitive and some are not.
- `Commands`: `main` recognises each input line by `line.strip().lower()`.
  A blank line is skipped. The four slash-commands are recognised. Anything
  else is sent to the model exactly as typed.
- `Chat`: `ask_gemini` makes one exchange. The history is appended to only
  after the remote call returns an answer. `HandleLine` is one pass of
  `main`'s loop, and `Session` is the loop up to `/quit`.
- `Text`: the Python string operations this relies on, modelled for these
  uses: `str.isspace`, `strip`, `lower` and `in`.

The length of `json.dumps(history)` is a parameter, `Size`, which is any
function from histories to natural numbers. Every general property holds for
every such function; the scenario lemmas (`NewestExchangeCanBeEvicted`,
`ThreeExchangesKeepTwo`, `RetryAfterFailure`, `AssistantStoredAsModel`) each
fix one size function. The remote call is also a parameter, `Remote`. It takes the
number of the input line being handled, the history and the prompt, and
returns the answer text or the text of the exception. Because each line's
call is its own request, a prompt that fails on one line can be answered
when it is typed again (`Chat.RetryAfterFailure`).

The code does not protect the newest exchange. The buffer is sometimes
described as never evicting its most recent user/model pair, but trimming
runs after each single append:
- After the prompt is appended, the history can be trimmed down to that one
  entry.
- The answer's append can then remove both entries, leaving the history
  empty (`Chat.NewestExchangeCanBeEvicted`).

Trimming also stops as soon as the history is no longer strictly over the
budget (`>` on aichat.py:87). When each entry weighs a quarter of the
budget, four entries weigh exactly the budget and stay, so three exchanges
leave the last two exchanges and not only the last one
(`Chat.ThreeExchangesKeepTwo`). The model follows the code.

What does hold: from an empty history, after every input line the entries
alternate "user", "model", ... and the length is even
(`Chat.ReplayedKeepsAlternation`); only between the two appends of one
exchange is the length odd. Each successful exchange is kept whole or
dropped whole (`Chat.ExchangeKeepsPairWhole`).

## Model

| member | source | states |
|---|---|---|
| History.CanonicalRole | aichat.py:82 | The stored role is never "assistant"; it is "model" exactly when the caller passed "assistant" or "model"; any other role is kept unchanged |
| History.PairsTrimmed | aichat.py:87-92 | The trimming loop removes a number of whole pairs that fits in the list, and the loop condition (over budget and more than one entry) is false on what is left |
| History.Added | aichat.py:79-92 | The history after `add_to_history(role, text)`: the new entry appended, then `Trimmed`; characterised by `AddedAppendsThenTrims` |
| History.Trimmed | aichat.py:87-92 | What the trimming loop leaves: the list less `PairsTrimmed` leading pairs; characterised by `PairsTrimmed`, `TrimmedRemovesFewest`, `TrimmedUnique` and `AddedAppendsThenTrims` |
| History.TrimmedRemovesFewest | aichat.py:87-90 | Before each pair the loop removed, the loop condition held, so no pair is removed that the loop would not remove |
| History.TrimmedUnique | aichat.py:87-90 | Conversely, any count of pairs before which the condition held and after which it fails is exactly the count trimming removes |
| History.AddedAppendsThenTrims | aichat.py:79-92 | `add_to_history` gives the old history plus the one new entry `{role', [text]}` with an even number of leading entries removed; the new entry is last unless the list is empty; the result is within budget or has at most one entry; every removed pair was removed under the loop condition |
| History.AddedFlipsParity | aichat.py:83-90 | Each `add_to_history` changes the parity of the history's length |
| History.AddedHasNoAssistantRole | aichat.py:82-83 | A history with no "assistant" entry never gets one from `add_to_history` |
| History.ConversationHistory.constructor | aichat.py:77 | The history starts empty |
| History.ConversationHistory.Add | aichat.py:79-92 | The in-place append-and-trim loop leaves exactly `Added(old history, role, text)`, which is within budget or at most one entry long; the loop terminates and its `else: break` branch is unreachable |
| History.ConversationHistory.Formatted | aichat.py:94-96 | `get_formatted_history`: the list as it stands; `Chat.Ask` states that the remote call sees exactly this list |
| History.ConversationHistory.Clear | aichat.py:177-178 | `/clear` leaves the history empty |
| GeminiErrors.Classify | aichat.py:127-136 | The kind reported is one whose test matches the message, and no test earlier in the chain matches: auth, then lowered "quota", then case-sensitive "Resource has been exhausted", then lowered "billing account", then unknown |
| GeminiErrors.QuotaShadowsResourceExhausted | aichat.py:129-132 | A message without the auth text that mentions "quota" in any letter case is reported as a quota error, never as resource exhausted |
| Text.IsSpace | aichat.py:168 | Python's `str.isspace` for one character: the bidirectional classes WS, B, S and the category Zs, written out; used by `strip` |
| Text.Strip | aichat.py:168-181 | `s.strip()` as `rstrip` after `lstrip`; characterised by `StripStartMeaning`, `StripEndMeaning`, `StripEmptyIffAllSpace` and `StripRemovesPadding` |
| Text.Lower | aichat.py:129-181 | `str.lower()` on ASCII letters, keeping the length; related to the command comparison by `Commands.EqualsLoweredIffLower` |
| Text.StripStartMeaning | aichat.py:168 | `lstrip` removes a whitespace-only prefix and keeps a suffix that does not start with whitespace |
| Text.StripEndMeaning | aichat.py:168 | `rstrip` removes a whitespace-only suffix and keeps a prefix that does not end with whitespace |
| Text.StripEmptyIffAllSpace | aichat.py:168-169 | `line.strip()` is empty exactly when the line is whitespace only |
| Text.StripRemovesPadding | aichat.py:171 | `strip` of a word padded with whitespace on both sides gives the word |
| Text.Contains | aichat.py:127-133 | Python's `pat in s`; characterised by `ContainsIffOccurs` |
| Text.ContainsIffOccurs | aichat.py:127-133 | `pat in s` holds exactly when `pat` occurs at some position of `s` |
| Commands.EqualsLoweredIffLower | aichat.py:171 | Comparing character by character after lowering is the same as comparing `s.lower()` with the word |
| Commands.Keyword | aichat.py:171-181 | `prompt.strip().lower()`, the form each command test compares; characterised by `RecognizeMeaning` |
| Commands.Recognize | aichat.py:168-195 | The command a line selects, tested in the loop's order; characterised by `RecognizeMeaning` |
| Commands.RecognizeMeaning | aichat.py:168-195 | A line is skipped exactly when it is whitespace only; each of `/quit`, `/help`, `/clear`, `/history` is selected exactly when the stripped, lowered line equals it; every other line is a prompt carrying the line unstripped |
| Commands.SameStripSameCommand | aichat.py:168-181 | Lines that strip to the same text select the same command |
| Commands.RecognizePadded | aichat.py:168-181 | A word with whitespace padding selects the same command as the bare word, and as a prompt it is sent with its padding |
| Commands.UpperCaseQuitWithPadding | aichat.py:171-173 | "/QUIT" typed with spaces before it and a tab after it ends the session |
| Chat.Exchanged | aichat.py:112-138 | The history after `ask_gemini` with a given remote outcome: both appends on an answer, none on an exception; characterised by `ExchangeKeepsAlternation` and `ExchangeKeepsPairWhole` |
| Chat.Ask | aichat.py:99-138 | The remote call sees the history as it was; on an answer the prompt as "user" and then the answer as "model" are appended through `add_to_history`, and the answer is returned; on an exception the history is unchanged and the failure is classified |
| Chat.TrimmedKeepsAlternation | aichat.py:87-90 | Trimming removes whole pairs, so an alternating history stays alternating and keeps its parity |
| Chat.AddedKeepsAlternation | aichat.py:82-90 | Appending the entry whose role fits the next position keeps a history alternating |
| Chat.ExchangeKeepsAlternation | aichat.py:117-118 | An exchange, answered or failed, keeps an even-length alternating history even and alternating |
| Chat.ExchangeKeepsPairWhole | aichat.py:117-118 | After an answered exchange on an even history, the history is that history plus the new pair with an even number of leading entries removed: it ends with the whole pair or is empty, and when not empty it is within budget |
| Chat.NewestExchangeCanBeEvicted | aichat.py:87-90 | With entries each over the budget, even a first exchange leaves the history empty |
| Chat.ThreeExchangesKeepTwo | aichat.py:87-90 | With each entry a quarter of the budget, three exchanges leave exactly the last two, because four entries weigh exactly the budget and the loop runs only strictly above it |
| Chat.RetryAfterFailure | aichat.py:106-138 | A prompt whose call fails leaves the history empty, and the same prompt on the next line, answered, is stored |
| Chat.AssistantStoredAsModel | aichat.py:82-83 | An answer added under the role "assistant" is stored under "model", after the prompt |
| Chat.AfterLine | aichat.py:164-195 | The history after one input line, the remote call being the one for that line's number; characterised by `AfterLineMeaning` |
| Chat.Replayed | aichat.py:164-195 | The history after a sequence of input lines, line `i` calling the remote on turn `i`; characterised by `ReplayedStep` and `ReplayedKeepsAlternation` |
| Chat.AfterLineMeaning | aichat.py:168-195 | By the loop's own tests on `line.strip().lower()`: a whitespace-only line and `/quit`, `/help`, `/history` leave the history unchanged; `/clear` empties it; any other line makes an exchange with the line as typed, using that turn's remote outcome |
| Chat.AfterLineKeepsAlternation | aichat.py:164-195 | Any input line keeps an even alternating history even and alternating |
| Chat.ReplayedKeepsAlternation | aichat.py:164-195 | Any sequence of input lines, with any remote outcome on each line's call, keeps an even alternating history (the empty one in particular) even and alternating |
| Chat.HandleLine | aichat.py:164-195 | One pass of the loop reports quit exactly for `/quit`, and leaves the history as `AfterLine` of the old one |
| Chat.LinesBeforeQuitMeaning | aichat.py:164-173 | The number of lines the loop processes is the position of the first `/quit`, or all lines if there is none |
| Chat.Session | aichat.py:164-211 | The loop processes exactly the lines before the first `/quit`; the history is then the replay of those lines; an even alternating history stays one |

## Left out

- `get_api_key` and `initialize_gemini`: environment lookups, interactive prompts, `.env` writes and `genai.configure`. These are I/O and foreign calls.
- `GenerativeModel`, `start_chat`, `send_message` and `response.text`: the network call. It is the `Remote` parameter, a total function from the line number, the history and the prompt to an answer or an exception text.
- GeminiErrors.Classify: tests only `str(e)`. The extra `hasattr(e, 'message')` tests inspect foreign exception objects, so they are not modelled.
- The exact length of `json.dumps`, including escaping and separators, is library behaviour. It is the `Size` parameter. Every general property holds for any size function; the scenario lemmas each fix one.
- Text.Lower: maps only ASCII letters. For these patterns this is the same as Python's `str.lower()`. The only characters outside ASCII that lower to ASCII letters are U+212A (to "k") and U+0130 (to "i" followed by U+0307). Neither can complete a match of "/quit", "/help", "/clear", "/history", "quota" or "billing account".
- The text of the printed error messages, `display_help`, the `/history` listing, and the Markdown and Rich rendering are terminal output only. `Reply` records the kind of message printed.
- `if ai_response:` only decides whether to print. An empty answer is still stored in the history, as the model does.
- `EOFError`, `KeyboardInterrupt` and the broad `except` around the loop body: `Session` ends at `/quit` or at the end of its input lines. A library error raised inside the loop is not modelled.
- `HISTORY_FILE` is never used. Creating the configuration directory is filesystem I/O.
- `get_formatted_history` returns the list object itself. `Formatted` returns its value, so aliasing of that list is not modelled. Nothing in the client mutates it while it is in use.
- `/clear` rebinds the global name to a new list, and `Clear` empties the field. Nothing else holds the old list across lines.
