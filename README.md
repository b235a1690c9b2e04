# WhisperMesh chat formatting, in Dafny

WhisperMesh is a retrieval-augmented chat application. Most of it is glue around
hosted services (vector store, embedder, language model, speech-to-text) and a
Streamlit user interface. The part with logic of its own is how a chat reply is
turned into HTML before it is shown. This project models that part.

- `parse_structured_message` splits the reply on `"\n"` and walks the lines in
  order. It keeps an HTML accumulator and an `in_code_block` flag. A line that
  starts with `"# "` becomes an `<h3>` heading. A line that starts with `"- "`
  becomes a list item, preceded by `<ul>\n` unless the accumulator already ends
  with it. A line that starts with three backticks opens or closes a
  `<pre><code>` block. Any other line becomes a `<p>` paragraph, but only
  outside a code block. After the loop, `</ul>\n` is appended if the
  accumulator ends with `<ul>\n`.
- `create_chat_message` picks the card's colours and alignment from
  `sender_type`, and builds an `<img>` avatar fragment when `avatar_url` is
  truthy.

Files:

- `pystrings.dfy` (module `PyStrings`): the Python `str` operations used. These
  are `isspace` (Python's full whitespace set), `strip()`, `startswith`,
  `endswith`, `split("\n")` and `"\n".join`.
- `structured_message.dfy` (module `StructuredMessage`): the specification
  and the loop. The per-line function `Step` is folded over the lines by
  `Fragments` and `FlagAfter`, and `Render` joins the fragments.
  `ParseStructuredMessage` is the loop as written, with both of its
  `endswith("<ul>\n")` tests, and it is proved to return `Render(message)`.
- `chat_message.dfy` (module `ChatMessage`): the style and avatar selection,
  and `CreateChatMessage`, which assembles them with the formatted body.

The model proves three quirks of the code as facts:

- The accumulator never ends with `<ul>\n` when a bullet is handled. So every
  bullet opens a new `<ul>`.
- The closing `</ul>\n` is never appended.
- A code block left open at the end is never closed.

## Model

| member | source | states |
|---|---|---|
| `PyStrings.TrimStartSpec` | app/utils/utils.py:146 | the left part that `strip()` removes is exactly the leading whitespace, and what remains is empty or starts with a non-space |
| `PyStrings.TrimEndSpec` | app/utils/utils.py:146 | the right part that `strip()` removes is exactly the trailing whitespace, and what remains is empty or ends with a non-space |
| `PyStrings.Strip` | app/utils/utils.py:146 | `strip()` returns an infix of its argument with only whitespace on either side, and neither end of it is whitespace |
| `PyStrings.StripUnique` | app/utils/utils.py:146 | at most one string satisfies that description, so the description defines `strip()` |
| `PyStrings.StripIdempotent` | app/utils/utils.py:146 | stripping an already stripped text changes nothing |
| `PyStrings.Split` | app/utils/utils.py:139 | `split("\n")` yields at least one piece, and no piece contains a newline |
| `PyStrings.JoinSplit` | app/utils/utils.py:139 | joining the pieces of `split("\n")` with newlines gives back the message |
| `PyStrings.SplitJoin` | app/utils/utils.py:139 | splitting newline-free pieces joined by newlines gives back the pieces |
| `PyStrings.SplitNoNewline` | app/utils/utils.py:139 | a text without a newline splits into itself alone |
| `PyStrings.SplitAppend` | app/utils/utils.py:139 | the lines of `a + "\n" + b` are the lines of `a` followed by the lines of `b` |
| `StructuredMessage.Classify` | app/utils/utils.py:145-164 | a line is a heading exactly when it starts with `"# "`, a bullet exactly when it starts with `"- "`, a fence exactly when it starts with three backticks; the prefixes exclude each other, so the order of the tests cannot change the branch |
| `StructuredMessage.StepShape` | app/utils/utils.py:143-166 | a line emits nothing exactly when it is a paragraph inside a code block; every emitted fragment ends with a newline and never with `<ul>\n`; only fence lines change the flag |
| `StructuredMessage.StepTags` | app/utils/utils.py:155-161 | a line emits `<pre><code>\n` exactly when it is a fence outside a block, and `</code></pre>\n` exactly when it is a fence inside one |
| `StructuredMessage.FragmentsAppend` | app/utils/utils.py:143-166 | for any per-line step, processing the lines of `a + b` gives the fragments of `a`, then the fragments of `b` computed from the flag that `a` left |
| `StructuredMessage.FragmentAt` | app/utils/utils.py:143-166 | for any per-line step, the fragment for line `k` is the step of line `k` under the flag that the lines before it left |
| `StructuredMessage.RenderAppend` | app/utils/utils.py:139-166 | the output for `a + "\n" + b` is the output for `a` followed by the fragments of `b`'s lines, computed from the flag after `a` |
| `StructuredMessage.HeadingLine` | app/utils/utils.py:145-146 | a line starting with `"# "` emits `"<h3>" + strip(line[2:]) + "</h3>\n"`, whether a code block is open or not |
| `StructuredMessage.BulletLine` | app/utils/utils.py:149-152 | a line starting with `"- "` emits `"<ul>\n<li>" + strip(line[2:]) + "</li>\n"`, so every bullet opens a new list |
| `StructuredMessage.FenceLine` | app/utils/utils.py:155-161 | a fence line emits `</code></pre>\n` and clears the flag when a block is open, and otherwise emits `<pre><code>\n` and sets it |
| `StructuredMessage.ParagraphLine` | app/utils/utils.py:164-166 | any other line emits `"<p>" + strip(line) + "</p>\n"` outside a code block and nothing inside one |
| `StructuredMessage.FenceBalance` | app/utils/utils.py:155-161 | from any starting flag, the opening tags plus the initially open block equal the closing tags plus the block still open at the end |
| `StructuredMessage.RenderFenceBalance` | app/utils/utils.py:155-161 | for any message, the openings equal the closings, plus one exactly when a block is still open at the end: nothing closes it |
| `StructuredMessage.RenderShape` | app/utils/utils.py:143-170 | the output is never empty, ends with a newline, and never ends with `<ul>\n`, so the final `</ul>\n` append never happens |
| `StructuredMessage.RenderEmpty` | app/utils/utils.py:139-166 | the empty message gives `<p></p>\n` |
| `StructuredMessage.RenderUnclosedFence` | app/utils/utils.py:155-171 | a message that is just a fence line gives only `<pre><code>\n`, left unclosed |
| `StructuredMessage.AppendLine` | app/utils/utils.py:144-166 | one loop iteration appends the line's fragment and sets the flag the step gives; a bullet leaves out `<ul>\n` only when the accumulator already ends with it |
| `StructuredMessage.ParseStructuredMessage` | app/utils/utils.py:137-171 | the loop, including both `endswith("<ul>\n")` tests, returns exactly the in-order join of the per-line fragments |
| `ChatMessage.SelectStyle` | app/utils/utils.py:176-178 | the style is (`#e0f7fa`, `#00796b`, `flex-start`) exactly when `sender_type == "user"`, and (`#f0f0f5`, `#000`, `flex-end`) exactly otherwise |
| `ChatMessage.AvatarHtml` | app/utils/utils.py:213 | the avatar fragment is empty exactly when `avatar_url` is falsy; otherwise it is the `<img ... class="chat-avatar">` wrapper |
| `ChatMessage.AvatarHtmlInjective` | app/utils/utils.py:213 | different truthy avatar URLs give different fragments |
| `ChatMessage.CreateChatMessage` | app/utils/utils.py:173-227 | the card carries the sender, the selected style, the avatar fragment and the formatted message |

## Left out

- `document_store_init`, `indexing_pipeline_builder` and `retriever_pipeline_builder` (app/utils/utils.py:20-122) only configure and connect third-party components: the vector store, the document converter, cleaner, splitter and embedder, the prompt builder and the model client. Their behaviour lives in those libraries.
- `read_pdf` (app/utils/utils.py:124-126) is a file read. `audio_transcriber` (app/utils/utils.py:128-135) is a remote speech-to-text call. `auto_play_audio` (app/utils/utils.py:229-234) is base64 encoding plus page output. None of these has logic of its own.
- The CSS and HTML template text of `create_chat_message` (app/utils/utils.py:181-224) and the `st.html` call that shows it (app/utils/utils.py:227) are page output. `CreateChatMessage` returns the values that the template interpolates.
- app/main.py is the Streamlit page: argument parsing, secret loading, uploads, audio recording, text-to-speech and the pipeline calls. It is not part of this model.
- `ChatMessage.CreateChatMessage`: `avatar_url` is modelled as an optional string. Python would also accept other values, whose truthiness rules differ, but the callers in app/main.py only pass string literals.
- `PyStrings.IsSpace` follows Python's `str.isspace()` as a fixed list of code points. It is not derived from a Unicode database version.
