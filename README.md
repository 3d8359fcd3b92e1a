# snowChat UI core, modelled in Dafny

This project models the logic of `utils/snowchat_ui.py`, the chat front end of
snowChat, and proves properties of that model:

- **`format_message`.** The formatter splits a reply on triple-backtick fences.
  It HTML-escapes every piece. In prose it turns newlines into `<br>`. Each code
  span goes inside a `<pre><code>` block.
- **`get_model_url`.** This picks a model's avatar by an ordered,
  case-insensitive substring table. The first key that matches wins, and the
  default is Mistral.
- **`message_func`.** This covers what a whole message shows: the avatar, the
  role that sets the alignment, and the body. It shows nothing for a blank text.
- **`StreamlitUICallbackHandler`.** This is the token-stream state machine. It
  collects the model's tokens, keeps the final message, and re-renders the bot's
  container after every token.

Modules, one concept each:

| module | file | contents |
|---|---|---|
| `Wrappers` | wrappers.dfy | `Option` |
| `Seqs` | seqs.dfy | three sequence facts used by the proofs |
| `Text` | text.dfy | `str.strip`, `str.lower` and `needle in haystack` (ASCII) |
| `Html` | html.dfy | `html.escape(quote=True)` as a per-character map; `.replace("\n", "<br>")` |
| `Fences` | fences.dfy | the fence scan that the `re.split` / `re.findall` pair performs; the inverse `Rejoin` |
| `Format` | format.dfy | the formatter: the function `Formatted`, the loop method `FormatMessage`, and a reader `ParseProse` / `ParseCode` that inverts it |
| `Avatars` | avatars.dfy | `get_model_url` over an `Icon` enum, and the same lookup as an ordered table |
| `Messages` | messages.dfy | `message_func` as a display unit (avatar, role, body); the bot container's body |
| `Streaming` | streaming.dfy | `StreamlitUICallbackHandler` as a class; the screen placeholder is the ghost field `lastRendered` |

The regular expressions at lines 54-55 are read as the lazy fence scan they
perform. The scan starts at the current position and finds the first "```".
If a closing "```" starts three or more characters later, the nearest such one
ends a code span, and scanning resumes after it. Otherwise the rest of the
text is the last prose piece, so an unterminated fence stays prose. Both calls
find the same matches: `re.split` gives the prose between them, and
`re.findall` gives the code inside them.

The main property of the formatter is a round trip. `ParseProse` reads the
markup back: entities become the characters they escape, `<br>` becomes a
prose newline, and each `<pre><code>` block becomes a code piece. Reading back
`Formatted(text)` gives exactly the split of `text`. It follows that:

- nothing is lost;
- the pieces keep their source order;
- every markup character is escaped;
- prose newlines appear only as `<br>`;
- code newlines stay raw.

## Model

| member | source | states |
|---|---|---|
| Text.Strip | utils/snowchat_ui.py:85 | Stripping never lengthens the text. `StripSlice` says exactly what it keeps. |
| Text.StripSlice | utils/snowchat_ui.py:85 | `strip` returns a slice `s[a..b]`. Everything cut from either end is whitespace. A non-empty result starts and ends with a non-space character. |
| Text.StripEmptyIff | utils/snowchat_ui.py:85-87 | The stripped text is empty exactly when every character is whitespace. |
| Text.Lower | utils/snowchat_ui.py:26 | Lowering keeps the length. `LowerChars` gives the per-character map. |
| Text.LowerChars | utils/snowchat_ui.py:26 | `lower` maps each character in place: ASCII capitals to small letters, everything else unchanged. |
| Text.LowerIdempotent | utils/snowchat_ui.py:26 | Lowering twice is the same as lowering once. |
| Text.Contains | utils/snowchat_ui.py:26 | A needle is found only if it is no longer than the haystack. `ContainsIffOccurs` ties the test to substring occurrence. |
| Text.ContainsIffOccurs | utils/snowchat_ui.py:26 | The `in` test holds exactly when the needle occurs in the haystack at some index. |
| Html.EscapeCharIdentity | utils/snowchat_ui.py:57 | Escaping leaves a character unchanged exactly when it is not one of `& < > " '`. A markup character becomes an entity starting with `&`. |
| Html.EscapeAppend | utils/snowchat_ui.py:57 | Escaping a concatenation is the concatenation of the escaped parts. |
| Html.Escape | utils/snowchat_ui.py:57 | Escaping never shortens the text. `EscapedIsInert`, `EscapedAmpersands` and the round trip below say what the result is. |
| Html.BreakLines | utils/snowchat_ui.py:61 | Replacing newlines with `<br>` never shortens the text. |
| Html.EscapedIsInert | utils/snowchat_ui.py:57 | Escaped text holds no raw `<`, `>`, `"` or `'`. The only markup character it may hold is `&`. |
| Html.EscapedAmpersands | utils/snowchat_ui.py:57 | Every `&` in escaped text begins one of the entities `&amp;`, `&lt;`, `&gt;`, `&quot;` or `&#x27;`. |
| Html.EscapeKeepsNewlines | utils/snowchat_ui.py:62-63 | Escaping keeps the number of newlines, so a code span keeps its line structure. |
| Html.ProseEncoding | utils/snowchat_ui.py:57-61 | Escaped, line-broken prose is each character's image in turn. It holds no raw newline and is at least as long as the input. |
| Fences.FindFence | utils/snowchat_ui.py:54-55 | Returns the first fence at or after the scan position, or reports that none is left. |
| Fences.Scan | utils/snowchat_ui.py:54-55 | The split has exactly one more prose piece than code pieces. |
| Fences.SplitFences | utils/snowchat_ui.py:54-55 | The split of a whole message has exactly one more prose piece than code pieces, so the prose list from `re.split` is one longer than the code list from `re.findall`. |
| Fences.ScanRejoin | utils/snowchat_ui.py:54-55 | Putting the fences back between the pieces gives the original text. |
| Fences.ScanWellSplit | utils/snowchat_ui.py:54-55 | Only the last prose piece may hold a fence. Each fence the scan cuts at is the leftmost one. The last prose piece holds no complete fence pair, so a trailing unterminated fence stays prose. |
| Fences.SplitUnique | utils/snowchat_ui.py:54-55 | Any blocks of that shape that rejoin to the text are the split: the scan is the only such decomposition. |
| Fences.NoPairIsProse | utils/snowchat_ui.py:54-55 | A text without a complete fence pair splits into itself as the single prose piece. |
| Fences.PairGivesCode | utils/snowchat_ui.py:54-55 | A text with a complete fence pair yields at least one code piece. |
| Format.Formatted | utils/snowchat_ui.py:47-65 | The value `format_message` returns. Empty input gives empty output. `FormatRoundTrip` says what the output is, and `FormatEmptyIff` gives the converse of the empty case. |
| Format.FormatMessage | utils/snowchat_ui.py:47-65 | The appending loop computes `Formatted(text)`. Its invariant is that the output so far plus the remaining rounds is the whole result. |
| Format.DecodeEncodedChar | utils/snowchat_ui.py:57-63 | Every encoded character reads back as itself whatever follows it. In prose this uses `<br>` for a newline; in code, a raw newline. |
| Format.NoMarkerAtEncodedChar | utils/snowchat_ui.py:63 | Escaped text never looks like the opening or closing marker of a code block. |
| Format.ParseProseEncoded | utils/snowchat_ui.py:57-61 | Escaped, line-broken prose reads back as exactly that prose. |
| Format.ParseCodeEncoded | utils/snowchat_ui.py:63 | Escaped code reads back as exactly that code. |
| Format.FormatRoundTrip | utils/snowchat_ui.py:54-65 | Reading back the formatted output gives exactly the split of the input: prose and code pieces in source order, every character recovered. |
| Format.FormatInjective | utils/snowchat_ui.py:47-65 | Two messages with the same formatted output are the same message. |
| Format.FormatWithoutFences | utils/snowchat_ui.py:54-65 | Without a complete fence pair, the output is the escaped text with each newline as `<br>`. |
| Format.FormatEmptyIff | utils/snowchat_ui.py:59-65 | The output is empty exactly when the input is empty. |
| Avatars.ModelIcon | utils/snowchat_ui.py:25-44 | A model's avatar is never the user's. |
| Avatars.FirstMatch | utils/snowchat_ui.py:25-44 | Returns the first table entry, in lookup order, whose key occurs in the name; no earlier key occurs. |
| Avatars.ModelIconIsFirstMatch | utils/snowchat_ui.py:25-44 | The branch chain equals the ordered table (qwen, claude, llama, gemma, arctic, gpt, o3, gemini, deepseek, grok) read first-match-first on the lower-cased name. |
| Avatars.DefaultIconIff | utils/snowchat_ui.py:25-44 | The Mistral icon is chosen exactly when no key of the table occurs in the lower-cased name. |
| Avatars.ModelIconCaseInsensitive | utils/snowchat_ui.py:25-44 | The icon of a name and of its lower-cased form are the same. |
| Avatars.ClaudeNameIsClaude | utils/snowchat_ui.py:26-29 | A name containing "claude" in any case and no "q" gets the Claude icon, even if later keys also occur. |
| Avatars.EmptyNameIsMistral | utils/snowchat_ui.py:44 | The empty name gets the default icon. |
| Messages.MessageUnit | utils/snowchat_ui.py:77-87 | What `message_func` shows: nothing, or a display unit whose body is not empty and whose role is the user's exactly for user messages. `MessageSilentIff`, `MessageAvatar` and `MessageBodyReadsBack` state the rest. |
| Messages.MessageSilentIff | utils/snowchat_ui.py:85-87 | `message_func` shows nothing exactly when the text is all whitespace. |
| Messages.MessageAvatar | utils/snowchat_ui.py:77-84 | Among shown messages, the avatar is the user's exactly for user messages. A bot message shows its model's icon. The role is the bot's exactly when the sender is not the user. |
| Messages.MessageBodyReadsBack | utils/snowchat_ui.py:85 | A shown body is the stripped text as one prose piece, escaped, with `<br>` for newlines and no code block. It holds no raw newline. |
| Messages.PlainFormatsToItself | utils/snowchat_ui.py:141 | Text without markup characters, newlines, backticks or outer whitespace is stripped and formatted to itself. |
| Messages.BotBody | utils/snowchat_ui.py:141-143 | The body of the bot's container is never empty. `BotBodyThinkingIff` says when it is the placeholder, and `BotBodyReadsBack` says what it is otherwise. |
| Messages.PlainBotBody | utils/snowchat_ui.py:141-143 | A bot's non-empty plain text is shown as it is. |
| Messages.LoadingBody | utils/snowchat_ui.py:120-121 | The container for the placeholder "Thinking..." shows "Thinking..." itself. |
| Messages.BotBodyThinkingIff | utils/snowchat_ui.py:141-143 | The bot shows "Thinking..." exactly when its stripped text is empty or is "Thinking..." itself. |
| Messages.BotBodyReadsBack | utils/snowchat_ui.py:141 | For non-blank text, the bot's body reads back as the split of the stripped text. |
| Streaming.Join | utils/snowchat_ui.py:129 | `"".join` of the buffer starts with its first token. `JoinSnoc` says how it grows. |
| Streaming.JoinSnoc | utils/snowchat_ui.py:128-129 | Appending a token to the buffer appends it to the joined text. |
| Streaming.StreamlitUICallbackHandler.constructor | utils/snowchat_ui.py:111-118 | A new handler has an empty buffer, has neither started nor ended, and has an empty final message and placeholder. Its avatar is the model's icon. |
| Streaming.StreamlitUICallbackHandler.GetBotMessageContainer | utils/snowchat_ui.py:139-152 | The container holds the handler's avatar, the bot role, and the formatted stripped text, or "Thinking..." when that is empty. |
| Streaming.StreamlitUICallbackHandler.StartLoadingMessage | utils/snowchat_ui.py:120-122 | Shows the "Thinking..." container and changes no other state. |
| Streaming.StreamlitUICallbackHandler.OnLlmNewToken | utils/snowchat_ui.py:124-132 | Appends the token, marks the stream started and leaves "ended" as it was. The final message is the joined buffer: the old message plus the token, or the token alone on a new stream. The screen shows the container for it. The invariant is kept. |
| Streaming.StreamlitUICallbackHandler.OnLlmEnd | utils/snowchat_ui.py:134-137 | Empties the buffer, marks the stream ended and not started, and keeps the final message and the screen. |
| Streaming.StreamHello | utils/snowchat_ui.py:120-137 | For any model: loading, the tokens "Hel" and "lo", then the end leave "Hello" as the final message. The last render is a bot message whose body is exactly "Hello". |
| Streaming.HelloShownAsIs | utils/snowchat_ui.py:141-143 | The bot's container shows the text "Hello" unchanged. |

## Left out

- The image URLs and `st.secrets` lookups (lines 7-23) are deployment configuration. Each avatar is an `Icon` value instead.
- The Streamlit calls `st.write`, `st.empty` and `placeholder.markdown` (lines 106, 113, 122, 131) are host UI output:
  - `message_func`'s output is the returned `Option<DisplayUnit>`;
  - the placeholder is the ghost field `lastRendered`.
- The inline-CSS HTML templates (lines 79-84, 89-105, 144-151) are not modelled; a display unit keeps only the avatar, the role and the body. The template depends on the role and also on which function renders it:
  - `message_func`'s bot template (lines 98-105) differs from the streaming container's (lines 144-151) in its margins;
  - so the same display unit stands for two different HTML outputs, and the model keeps neither template.

  The code block's `<pre … ><code>` markers are modelled exactly.
- Exceptions raised by `st.write`, `st.empty` or `placeholder.markdown` are not modelled; every render is taken to succeed. In the source, a failing render at line 131 propagates after the token was appended at line 128 but before `final_message` is set at line 132. `final_message` then lags the buffer by that token until the next token arrives. `StreamlitUICallbackHandler.Valid` rules that state out, so the model does not describe it.
- `display_dataframe` (lines 154-169) only hands a dataframe to the host framework.
- The `BaseCallbackHandler` base class and the no-op `__call__` (lines 110, 172-173) are framework wiring.
- The `run_id`, `parent_run_id`, `response` and `**kwargs` parameters of the callbacks are unused by the source and are not modelled. `message_func`'s `is_df` parameter is unused too.
- `message_func`'s default arguments `is_user=False` and `model="gpt"` (line 68) are not modelled. `MessageUnit` always takes the sender and the model explicitly, so a call that relies on the defaults is modelled as `MessageUnit(text, false, "gpt")`.
- `str.strip` and `str.lower` are modelled on ASCII only:
  - whitespace is characters 9-13, 28-31 and the space;
  - only `A`-`Z` are lowered.

  Unicode whitespace and case mappings are not modelled.
- General regular-expression matching is not modelled. Only the lazy fence scan that the two patterns perform is.
- Avatars.ClaudeNameIsClaude: the example that "Claude-3-Opus" gets the Claude icon is stated for every name in which "claude" occurs and "q" does not, not for that literal string. "Claude-3-Opus" is one such name.
- `StreamlitUICallbackHandler.Valid` does not record that the avatar is the model's icon. The constructor states that, and the avatar is a constant field.
