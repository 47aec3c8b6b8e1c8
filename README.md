# RAG-assisted chat: a Dafny model

The modelled program is a Streamlit chat script. It answers questions about the boardgame.io
library with retrieval-augmented generation. For each submitted message it does four things:

- It embeds the message with Voyage and queries a Pinecone index for the five nearest
  matches.
- It joins the `content` metadata of those matches into one context string, with a blank
  line between neighbours.
- It lays the context and the question out in a completion prompt between the Anthropic
  library's human and assistant markers. It sends that prompt to the completion service and
  cleans the reply text.
- It records the message and the reply in the session's chat history.

The model has two modules:

- `PyText` (`pytext.dfy`) gives the three Python string built-ins the script relies on, with
  CPython's semantics:
  - `str.strip()` removes the `str.isspace` characters from both ends;
  - `str.replace` rewrites non-overlapping occurrences, scanning left to right;
  - `sep.join` puts the separator between neighbouring parts.
  Each comes with lemmas that characterise it.
- `RagChat` (`rag_chat.dfy`) holds the script's own logic:
  - the context join, including its TypeError on a non-string content;
  - the prompt template;
  - the response cleaning;
  - a `Session` class whose `Submit` method is the submit callback, updating the input field
    and the chat history in place.

The embedding call and the index query together are one opaque function,
`SearchRequest -> Call<seq<Match>>`. The completion call is another,
`CompletionRequest -> Call<string>`, and it returns the reply's `completion` text. Both are
parameters. `Call` records either a returned value or a raised exception. Nothing in the script
catches exceptions, so the model propagates each one unchanged.

Some behaviours of the script that the model reproduces:

- There is no error fallback: nothing catches an exception, and no apology text is produced.
- The reply is normalised only by the two deletions and the strip.
- The prompt always contains the `Context:` header, even when the context is empty.
- An exception raised after the user's turn was recorded leaves that turn in the history with
  no reply.

## Model

| member | source | states |
|---|---|---|
| PyText.IsSpace | rag_streamlit.py:57 | definition: the characters CPython's `str.isspace` accepts, the set `strip()` removes; characterised through `StripIsTrimmedSlice` and `StripFixedPoint` |
| PyText.StripStart | rag_streamlit.py:57 | the result is the suffix of the input left after its leading whitespace, and it does not start with whitespace |
| PyText.StripEnd | rag_streamlit.py:57 | the result is the prefix of the input left before its trailing whitespace, and it does not end with whitespace |
| PyText.Strip | rag_streamlit.py:65 | the result has no whitespace at either end |
| PyText.StripIsTrimmedSlice | rag_streamlit.py:57 | the result is the slice `s[i..j]` of the input, where everything before `i` and everything from `j` on is whitespace |
| PyText.TrailingOfSuffix | rag_streamlit.py:57 | what `rstrip` removes from a suffix of the input is whitespace of the input, and what it keeps is a slice of the input |
| PyText.StripFixedPoint | rag_streamlit.py:57 | stripping leaves a string unchanged exactly when the string has no whitespace at either end |
| PyText.StripIdempotent | rag_streamlit.py:65 | stripping twice gives the same result as stripping once |
| PyText.Replace | rag_streamlit.py:57 | definition: the left-to-right, non-overlapping replace-all of `str.replace` for a non-empty pattern; characterised by `ReplaceAbsent`, `ReplaceShrinks`, `DeleteUnchangedIff`, `ReplaceConcat` and `DeletionJoinsPieces` |
| PyText.AbsentFirstChar | rag_streamlit.py:57 | a pattern whose first character does not appear in a string does not occur in it |
| PyText.ReplaceAbsent | rag_streamlit.py:57 | replace-all returns its input unchanged when the pattern does not occur in it |
| PyText.ReplaceShrinks | rag_streamlit.py:57 | with a replacement shorter than the pattern, replace-all never lengthens its input, and it shortens it whenever the pattern occurs |
| PyText.DeleteUnchangedIff | rag_streamlit.py:57 | deleting every occurrence of a pattern leaves the text unchanged exactly when the pattern does not occur in it |
| PyText.NoStraddleDrop | rag_streamlit.py:57 | dropping a prefix of the left operand keeps the concatenation free of pattern occurrences that straddle the join point |
| PyText.NoStraddleByFirstChar | rag_streamlit.py:57 | no occurrence straddles `a + b` when `b`'s first character is absent from the pattern after its first position |
| PyText.NoStraddleByLastChar | rag_streamlit.py:57 | no occurrence straddles `a + b` when the pattern's last character is absent from the first `|pat| - 1` characters of `b` |
| PyText.ReplaceConcat | rag_streamlit.py:57 | the left-to-right replace-all distributes over a concatenation that no occurrence straddles |
| PyText.ReplaceConcatAtMatch | rag_streamlit.py:57 | the same distribution law, in the case where the scan finds the pattern at the start |
| PyText.ReplaceConcatAtMismatch | rag_streamlit.py:57 | the same distribution law, in the case where the scan copies the first character |
| PyText.ReplaceCopiesFirst | rag_streamlit.py:57 | where the pattern does not start the string, the scan copies the first character and continues with the rest |
| PyText.DeletionJoinsPieces | rag_streamlit.py:57 | deleting an occurrence that sits between two pieces which together spell the pattern leaves exactly that pattern, because replace-all does not rescan its output |
| PyText.Join | rag_streamlit.py:31 | definition: `sep.join(parts)`; characterised by `JoinLength`, `JoinPartAt`, `JoinSeparatorAt` and `JoinSnoc` |
| PyText.OffsetTail | rag_streamlit.py:31 | dropping the first part moves each later part's offset back by that part's length plus one separator |
| PyText.JoinLength | rag_streamlit.py:31 | the joined string ends exactly where the last part ends |
| PyText.JoinPartAt | rag_streamlit.py:31 | each part appears in the joined string at its offset, in list order |
| PyText.JoinSeparatorAt | rag_streamlit.py:31 | between neighbouring parts the joined string holds exactly one separator |
| PyText.JoinSnoc | rag_streamlit.py:31 | joining one more part appends one separator and that part |
| RagChat.ContentOf | rag_streamlit.py:31 | a match contributes its metadata's `content` value, or the empty string when that key is missing |
| RagChat.Contents | rag_streamlit.py:31 | the list of `content` values, one per match and in match order |
| RagChat.FirstNonString | rag_streamlit.py:31 | the result is the index of the first match whose content is not a string, or the number of matches when every content is a string |
| RagChat.JoinContents | rag_streamlit.py:31 | the join succeeds exactly when every content is a string. Otherwise it raises a TypeError that names the first offending match |
| RagChat.NoMatchesEmptyContext | rag_streamlit.py:31 | zero matches give the empty context, which is not an error |
| RagChat.OneMatchContext | rag_streamlit.py:31 | a single match gives exactly its content, with no separator. If that match has no `content` key, the context is empty |
| RagChat.ContextLayout | rag_streamlit.py:31 | each match's content appears in the context at its offset, in the order the index returned them, with one blank line between neighbours, and the context ends where the last content ends |
| RagChat.ContextSnoc | rag_streamlit.py:31 | one more match extends the context by a blank line followed by that match's content |
| RagChat.RetrieveContext | rag_streamlit.py:28-31 | the index is searched for the prompt with model `voyage-3` and top-k 5. An exception from the search propagates; otherwise the result is the join of the returned matches |
| RagChat.FullPrompt | rag_streamlit.py:36-42 | definition: the f-string prompt; characterised by `FullPromptLayout` and `FullPromptInjective` |
| RagChat.FullPromptLayout | rag_streamlit.py:36-42 | the prompt starts with the human marker, then the persona line and `Context:` header, then the context, the `Question:` header, the question, a newline and the assistant marker, each at a fixed offset. So the context comes before the question |
| RagChat.FullPromptInjective | rag_streamlit.py:36-42 | the prompt determines the question and the context once the context's length is known |
| RagChat.CleanResponse | rag_streamlit.py:57 | the cleaned reply has no whitespace at either end |
| RagChat.CleanNoLonger | rag_streamlit.py:57 | cleaning never lengthens the reply |
| RagChat.CleanWithoutArtifacts | rag_streamlit.py:57 | a reply containing neither fragment is only stripped |
| RagChat.DeleteOpening | rag_streamlit.py:57 | in a text wrapped in the two fragments, the first deletion removes exactly the opening fragment |
| RagChat.DeleteClosing | rag_streamlit.py:57 | in a text that ends with the closing fragment and contains no other occurrence of it, the second deletion removes exactly that ending |
| RagChat.CleanUnwrapsTextBlock | rag_streamlit.py:57 | cleaning a text wrapped in the opening and closing fragments gives back that text, stripped |
| RagChat.DeletionJoinsFragments | rag_streamlit.py:57 | deleting an opening fragment can join its neighbours into a new opening fragment |
| RagChat.OpeningSurvivesClosingDeletion | rag_streamlit.py:57 | the closing fragment does not occur in the opening one, so the second deletion leaves the opening fragment unchanged |
| RagChat.OpeningIsStripped | rag_streamlit.py:57 | the final strip leaves the opening fragment unchanged |
| RagChat.CleanCanLeaveArtifact | rag_streamlit.py:57 | a concrete reply whose cleaned form is exactly the opening fragment, so the cleaned text is not always free of the patterns |
| RagChat.FetchClaudeResponse | rag_streamlit.py:34-58 | the assembled prompt is sent with model `claude-3-5-sonnet-20241022` and the given token limit. An exception propagates unchanged; otherwise the result is the completion cleaned by `CleanResponse`, so it is stripped and no longer than the raw completion |
| RagChat.Speaker.Label | rag_streamlit.py:68-74 | the stored label is `"You"` exactly for the user's turns and `"Claude"` for the replies |
| RagChat.Entries | rag_streamlit.py:68-74 | the history as the script stores it: one `(label, text)` pair per turn, in order, with the label `"You"` for the user's turns and `"Claude"` for the replies |
| RagChat.EntriesInjective | rag_streamlit.py:68-74 | two histories with the same pairs are equal, so the turn form loses nothing |
| RagChat.EntriesAppend | rag_streamlit.py:68-74 | appending a turn appends its `(label, text)` pair, as each `append` call does |
| RagChat.HistoryAppend | rag_streamlit.py:68-74 | appending a well-formed turn keeps the chat history well formed |
| RagChat.AppendMessage | rag_streamlit.py:68 | a stripped, non-blank user message can always be appended |
| RagChat.AppendReply | rag_streamlit.py:74 | a stripped reply can be appended right after a user message |
| RagChat.RepliesNeverOutnumberMessages | rag_streamlit.py:64-74 | a well-formed history never holds more Claude turns than user turns, and strictly fewer when it ends with a user turn |
| RagChat.Reply | rag_streamlit.py:72-73 | a reply that comes back is stripped, and it exists only when retrieval succeeded |
| RagChat.ReplyPipeline | rag_streamlit.py:72-73 | retrieval and generation both receive the same question, and generation gets the retrieved context and the default limit of 1000 tokens. An exception from retrieval propagates without generating |
| RagChat.ReplyEndToEnd | rag_streamlit.py:28-58 | when the search call returns matches whose contents are all strings and the completion call answers the prompt built from their join, with model `claude-3-5-sonnet-20241022` and 1000 tokens, the reply is that answer cleaned |
| RagChat.Session.constructor | rag_streamlit.py:61-62 | a new session has an empty chat history and an empty input |
| RagChat.Session.Submit | rag_streamlit.py:64-74 | blank input changes nothing. Otherwise the history becomes the old history plus `("You", stripped input)` and `("Claude", reply)`, and the input becomes `""`. If retrieval or generation raises, only the user turn is added. The history invariant is preserved |

## Left out

- Reading the API keys from the environment and building the clients (rag_streamlit.py:7-20)
  are configuration with foreign SDK objects.
- The embedding call, the index query and the completion call (rag_streamlit.py:29-30, 45-51)
  are network I/O. They are opaque function parameters. The lookup of the reply's
  `completion` field (rag_streamlit.py:54) is part of the completion function.
- The sampling temperature, the embedding vectors and the match scores are floating-point
  values handed to or from external services, and they are not represented.
- The Pinecone response is not modelled as an object. Each match is assumed to carry a
  metadata mapping, as `include_metadata=True` requests.
- The Streamlit page setup, the text area and the history display loop (rag_streamlit.py:22-25,
  76-90) only render. Both display branches are identical. The text area writes the typed text
  into `Session.input`, which callers assign directly.
- `HumanPrompt` and `AiPrompt` are the completion library's marker constants. They are left
  without a value, so every property holds whatever the markers are.
- PyText.Replace: Python's behaviour for an empty pattern is not modelled. For an empty
  pattern Python inserts the replacement at every position, before each character and once at
  the end. The script only deletes two
  non-empty constants.
- The model has no concurrency. Streamlit runs one callback at a time per session.
