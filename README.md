# GenAI Language Learning Tutor, modelled in Dafny

The tutor is a single Streamlit script (`app.py`). On every run of the script it does the following:

- It reads the sidebar settings: a language, a level and three display toggles.
- It takes the user's message. This is either what was typed in the chat box or a quick example clicked earlier.
- It builds a system prompt. The prompt asks the completion service to reply in a fixed line format: `Response:`, `(Pronunciation: …)`, `Translation:` and `Corrections:`, each line ending in a literal `\n` token.
- It sends the prompt, the history and the new message to the completion service.
- It turns every `\n` token of the answer into a real line break.
- It shows each non-blank line of the reply and speaks the `Response:` line in the language's locale.
- It records one user turn and one assistant turn.
- "Clear Chat" empties the turns. "Save Chat" offers them as a `User: …` / `Assistant: …` transcript.

The model is arranged in these modules:

- `PyStr`: the Python `str` builtins the script relies on, with CPython's semantics:
  - `strip()` with the full `isspace` set;
  - `split('\n')`, which always yields at least one piece;
  - `split()[0]`, which raises on a blank label and is modelled as `None`;
  - `join`, `startswith`, and a left-to-right, non-overlapping `replace` and `count`.
- `Chat`: turns and the "Save Chat" transcript.
- `Prompt`: the directive list, the system prompt, the `\n` unescape, and `get_ai_response` with the completion service as a function parameter.
- `Reply`: the language and level menus, the locale table, the reply parser and the speech requests of one reply.
- `Session`: the per-browser-session state (`conversation`, `selected_example`) as a class. It holds the transitions one script run applies, the history drawn at the end of a run, and a run sequence showing that a quick example is sent exactly once.

Two consequences of the code that are easy to miss:

- A transcript of N turns has N lines exactly when no content holds a newline. `Chat.TranscriptLines` gives the lines when no content holds one. `Chat.TranscriptLineCount` gives the general count: the code joins the turns' raw contents with newlines, and a reply normally holds line breaks, so the transcript has N lines plus one per newline inside the contents.
- A submission requests speech for the user's own message in English (app.py:256) before the reply's `Response:` line. `Session.ExchangeFor` puts that request first.

## Model

| member | source | states |
|---|---|---|
| PyStr.StripSpec | app.py:272 | `strip()` returns a slice of the line whose cut-off margins are whitespace and which neither starts nor ends with whitespace. It is empty exactly when the line is blank. |
| PyStr.StripSpaceWord | app.py:275 | Stripping a line made of one leading space and a word gives back the word. |
| PyStr.Split | app.py:270 | `split('\n')` yields at least one piece, and no piece contains the separator. |
| PyStr.JoinSplit | app.py:270 | Joining the pieces of `split(d)` with `d` gives back the string: no character is lost or added. |
| PyStr.SplitJoin | app.py:239-242 | Splitting a join of separator-free parts gives back exactly those parts. |
| PyStr.SplitLength | app.py:270 | `split(d)` yields one more piece than the string has `d` characters. |
| PyStr.FirstWord | app.py:261-262 | `split()[0]` fails (None) exactly on a blank label. Otherwise it is a non-empty run of non-whitespace. |
| PyStr.FirstWordSpec | app.py:261-262 | The first word is the text after the leading whitespace, up to the next whitespace or the end. |
| PyStr.FirstWordOfLabel | app.py:261-262 | A word followed by whitespace and anything else has that word as its first word. |
| PyStr.ReplaceLength | app.py:123 | `replace` changes the length by the count of occurrences times the difference in length. |
| PyStr.CountPositiveIffOccurs | app.py:123 | `count` is positive exactly when the pattern occurs. |
| PyStr.ReplaceAbsent | app.py:123 | `replace` leaves a string without the pattern unchanged. |
| Chat.Entry | app.py:240 | The role can be read back from a transcript line: it starts with `User: ` exactly for a user turn and with `Assistant: ` exactly for any other role. The line ends with the turn's content, unchanged. |
| Chat.EntriesConcat | app.py:239-241 | The entries of two stretches of turns are the entries of each, one after the other. |
| Chat.TranscriptEmptyIff | app.py:238-242 | The transcript is empty exactly when there are no turns. |
| Chat.TranscriptAppend | app.py:239-242 | One more turn adds a newline and that turn's entry at the end of the transcript. |
| Chat.TranscriptLines | app.py:239-242 | When no content holds a newline, the transcript's lines are exactly the entries, one per turn. |
| Chat.TranscriptNewlines | app.py:239-242 | The transcript holds one newline between each two turns plus the newlines inside the contents. |
| Chat.TranscriptLineCount | app.py:239-242 | The transcript has one line per turn plus one per newline inside a content. |
| Prompt.DirectivesFollowFlags | app.py:97-103 | One directive per enabled toggle: each kind is present iff its toggle is on. The order is pronunciation, translation, corrections, and each directive ends in the `\n` token. |
| Prompt.BuildComponents | app.py:97-103 | The list built by the three conditional appends equals the directive list of the toggles. |
| Prompt.TextsConcat | app.py:97-103 | The entries of two lists of directives are the entries of each, one after the other. |
| Prompt.PromptEscapes | app.py:105-111 | The system prompt holds 2 + (enabled toggles) `\n` tokens: the format request, the `Response:` directive and one per optional directive. It also holds any tokens inside the language (twice) and the level. |
| Prompt.JoinedDirectiveEscapes | app.py:110 | The joined directives hold one `\n` token per directive. |
| Prompt.EscapesConcat | app.py:105-111 | Token counts add up over a concatenation unless a token is formed across the seam. |
| Prompt.CountIsEscapes | app.py:123 | `count("\\n")` finds every token, since two tokens never overlap. |
| Prompt.UnescapeLength | app.py:123 | Unescaping shortens the text by one character per token. |
| Prompt.UnescapeFront | app.py:123 | Unescaping keeps a text empty or non-empty, and keeps a leading `n` or its absence. |
| Prompt.UnescapeClears | app.py:123 | No `\n` token is left after unescaping, not even one formed across a replacement. |
| Prompt.UnescapeFixed | app.py:123 | A text without tokens is left unchanged. |
| Prompt.UnescapeIdempotent | app.py:123 | Unescaping twice is the same as unescaping once. |
| Prompt.UnescapePlain | app.py:123 | A backslash-free text in front passes through unescaping unchanged. |
| Prompt.UnescapeTwoLines | app.py:123 | Two backslash-free lines, each ended by a token, unescape to the same lines, each ended by a line break. |
| Prompt.ReplyText | app.py:123-125 | A failure becomes `Error: ` followed by the message. An answer becomes its unescaped content, which holds no token and is shorter by the number of tokens. |
| Prompt.GetAiResponse | app.py:95-125 | The request is the system prompt for the toggles, then the history as given, then the user's message. The reply is the text of the service's outcome. |
| Reply.MenuFirstWords | app.py:148-156 | The prompt receives each menu entry's name without its emoji: Spanish … Chinese, and Beginner, Intermediate, Advanced. |
| Reply.EntryFirstWord | app.py:261-262 | A menu entry made of a name, a space and an emoji has the name as its first word. |
| Reply.LocaleTable | app.py:159-167 | Under `lang_codes.get(language, "en")` each menu language has its code (es, fr, de, it, ja, ko, zh-CN), and any other key gets `en`. The result is `en` exactly for keys outside the menu. |
| Reply.ShownIffStripNonEmpty | app.py:272 | `component.strip()` is truthy exactly for lines holding a non-whitespace character. |
| Reply.SubsequenceSnoc | app.py:270-273 | Adding an element to the end of both lists, or only to the longer one, keeps the subsequence relation. |
| Reply.DisplayedInOrder | app.py:270-273 | The shown lines are a subsequence of the reply's lines, in the same order. |
| Reply.DisplayedCounts | app.py:270-273 | Every non-blank line is shown as often as the reply holds it, and no blank line is shown. |
| Reply.IndentedNotSpoken | app.py:274 | A line indented by whitespace is never spoken, whether or not it is shown, because `startswith` is checked on the raw line. |
| Reply.SpokenTextSpec | app.py:275 | The spoken text drops every occurrence of `Response:` and is shorter than the line by at least the label's length per occurrence. |
| Reply.RemovedLabels | app.py:275 | Removing the label shortens a spoken line by exactly the label's length per occurrence, and there is at least one. |
| Reply.SpokenTextOfLabelled | app.py:274-275 | For a line holding the label only in front, the spoken text is the rest of the line, trimmed. |
| Reply.RemoveFrontLabel | app.py:275 | Removing the label from a line that holds it only in front leaves the rest of the line. |
| Reply.SpokenExact | app.py:271-277 | Every speech request comes from a shown `Response:` line, in the selected language's locale, and every such line yields one. |
| Reply.SpokenCount | app.py:271-277 | There is exactly one speech request per spoken line, duplicate lines included. |
| Reply.RenderReply | app.py:270-279 | The loop shows exactly the reply's components and requests exactly their speech, in order. |
| Reply.SpanishReply | app.py:269-277 | The reply `Response: Hola` / `Translation: Hello` shows those two lines and speaks `Hola` once, in `es`. |
| Reply.SpanishPieces | app.py:270 | That reply splits into its two lines and an empty last piece. |
| Reply.SpanishShown | app.py:271-273 | Of those pieces, the two lines are shown and the empty one is not. |
| Reply.SpanishSpoken | app.py:274-277 | Of those lines, only the `Response:` line is spoken, as `Hola` in `es`. |
| Reply.HolaText | app.py:274-275 | The `Response:` line of that reply is spoken as `Hola`. |
| Session.Submitted | app.py:221-229 | Typed text wins. With nothing typed, the pending example is sent. With neither, nothing is sent. |
| Session.SpanishAnswer | app.py:123-277 | The answer `Response: Hola\\nTranslation: Hello\\n`, with its line breaks written as tokens, becomes a reply that shows those two lines and speaks `Hola` once, in `es`. |
| Session.SpanishUnescape | app.py:123 | Unescaping that answer turns its two tokens into line breaks. |
| Session.PairedAppend | app.py:291-294 | Appending a user turn and then an assistant turn keeps the turns in user/assistant pairs. |
| Session.HistoryConcat | app.py:298-316 | The history of two stretches of turns is the history of each, one after the other. |
| Session.HistoryAfterSubmission | app.py:252-316 | After a submission the history gains exactly two bubbles. The first is the user's message spoken in English. The second is the reply drawn with the same lines and speech as the live reply. |
| Session.HistoryAppend | app.py:298-316 | Two more turns add their two bubbles at the end of the history and change nothing before them. |
| Session.HistoryLocale | app.py:305-308 | The history speaks every past reply in the locale of the language selected now. |
| Session.TutorSession.constructor | app.py:129-132 | A new session has no turns and no pending example. |
| Session.TutorSession.ChooseExample | app.py:210-211 | A quick-example click makes the phrase the pending example and leaves the turns alone. |
| Session.TutorSession.TakePending | app.py:226-229 | The pending example is used, and cleared, only when nothing was typed. Otherwise the typed text is sent and the example stays pending. |
| Session.TutorSession.ClearChat | app.py:234-236 | "Clear Chat" empties the turns and keeps the pairing invariant. |
| Session.TutorSession.SaveChat | app.py:238-249 | "Save Chat" is offered exactly when there are turns, with the non-empty transcript of them. |
| Session.TutorSession.Submit | app.py:252-294 | One submission sends the history as it was before. It appends exactly one user turn and one assistant turn holding the reply text verbatim, errors included. Turns stay in user/assistant pairs. |
| Session.TutorSession.Run | app.py:207-316 | One script run. An example click reruns without sending. "Clear Chat" empties the turns and drops an example taken in that run. Otherwise the transcript is offered for the turns so far, a non-empty message is submitted exactly once, and the history is drawn. A rerun offers no download and draws nothing, since `st.rerun()` stops the run. |
| Session.ExampleSentOnce | app.py:207-294 | On a new session, clicking an example sends nothing. The next run sends the phrase after the system prompt, and the run after that sends nothing; the session then holds exactly the two new turns. |

## Left out

- Streamlit rendering is not modelled: markdown, captions, columns, CSS, the title, the sidebar image and its fallback text. The model records which lines are shown and which speech is requested, not how they look.
- The browser autoplay script (app.py:280-288) is markup only and is not modelled.
- Text-to-speech (`text_to_speech`, gTTS, audio conversion, temporary files) is not part of this model. A speech request is modelled as a text and a locale. The source creates its temporary files with `delete=False`, so there is no cleanup to model.
- The completion service is a parameter `remote` from the request to an answer or a failure. Its model name, temperature, API key and network behaviour are left out. Every `Exception` raised in the request is caught and becomes an `Error:` reply; only interrupts outside `Exception` (such as `KeyboardInterrupt`) are not modelled.
- The clock and the download file name (`chat_<timestamp>.txt`) are left out. The transcript body is modelled.
- `st.chat_input` returning `None` and returning `""` are both modelled as `""`, since the script only tests their truthiness.
- `Session.TutorSession.Run` requires non-blank language and level labels. `split()[0]` would raise on a blank label, and the menus never offer one.
- The set of quick-example phrases (app.py:185-204) is not listed. Any phrase may be clicked, and a click is modelled by its phrase.
- `PyStr.Replace` and `PyStr.Count` require a non-empty pattern. The script only uses `"\\n"` and `"Response:"`, so Python's empty-pattern behaviour is not modelled.
- Streamlit's widget keys, reruns and cross-session isolation are not modelled. A rerun is a flag that `Session.TutorSession.Run` returns.
