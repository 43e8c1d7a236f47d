# AI PDF Reader: session model

This project models the in-memory session of the AI PDF Reader web server
(`app.py`): the text of the last uploaded PDF (`PDF_TEXT`), the
conversation about it (`conversation_history`), and the two request
handlers that use them.

- `POST /upload` (`upload_pdf`) extracts the text of every page, joins the
  page texts with newlines, replaces the stored document with the result,
  clears the conversation and replies with a preview of the first 2000
  characters.
- `POST /ask` (`ask_question`) checks that there is a document, that the
  stripped question is not empty and that an API key is configured. It then
  assembles the message list for the chat-completion service: the
  instruction, the first 8000 characters of the document, the whole
  history and the question. It posts that list and, only when an answer
  comes back, appends the question and the answer to the history.

Modules:

- `Wrappers`: `Option` and `Result`.
- `Text`: Python's `str.strip()` (with the whitespace set of
  `str.isspace()`), prefix slicing `s[:n]`, `sep.join(parts)`, and facts
  about them.
- `Extract`: what the PDF library yields for an upload (`Document`), and
  the page loop that builds the extracted text (`ExtractText`).
- `Chat`: messages, the request body, the outcome of the outbound call,
  and the message-building loop (`BuildMessages`) with its specification
  `Assemble`.
- `App`: the class `Server`, whose fields are the two globals and the API
  key, with the handlers `Upload` and `Ask`; its invariant `Valid()` says
  that the history alternates a user question and an assistant answer, and
  that there is no history without a document. `UploadThenAsk` walks
  through a session: an early question, an upload of two pages, and one
  answered question.

Calls the model cannot see are inputs:

- The PDF library is a `Document` value. Either opening the file raises
  (`Unreadable`), or it gives the pages in order, and each page has text,
  has none (`None`) or raises when its text is extracted.
- The POST to the chat service is a function parameter
  `post: Payload -> HttpResult`. `Ask` returns the payload it passed to
  `post`, or `None` when it returned before the call.
- The JSON body of an ask request is the `question` field if present.
- The API key is the `apiKey` field, set when the server is created.

Two behaviours of the code that the model keeps:

- A page whose text extraction raises aborts the whole upload with status
  500, because the page loop is inside the `try` (app.py:82-91). It is not
  read as an empty page.
- The document message is `PDF_TEXT[:8000]` (app.py:130), so a document of
  at most 8000 characters is sent whole.

## Model

| member | source | states |
|---|---|---|
| `Text.TrimStartSuffix` | app.py:117 | the left half of `strip()` keeps a suffix of the input; all it drops is whitespace, and what it keeps is empty or starts with non-whitespace |
| `Text.TrimEndPrefix` | app.py:117 | the right half of `strip()` keeps a prefix of the input; all it drops is whitespace, and what it keeps is empty or ends with non-whitespace |
| `Text.StripFactor` | app.py:117-118 | the stripped question is the factor of the raw one between a leading and a trailing whitespace run; it is empty exactly when the raw question is all whitespace, and otherwise it starts and ends with non-whitespace |
| `Text.Strip` | app.py:117 | computes `s.strip()` as `TrimEnd(TrimStart(s))`; what it yields is stated by `Text.StripFactor` |
| `Text.StripIdempotent` | app.py:117 | stripping an already stripped question changes nothing |
| `Text.Prefix` | app.py:129-130 | a slice `s[:n]` is a prefix of `s` of length min(n, \|s\|), so it is `s` itself when `s` is no longer than `n` |
| `Text.Join` | app.py:89 | computes `sep.join(parts)`: "" for no parts, the part itself for one, and otherwise the first part, `sep` and the join of the rest; its properties are `Text.JoinSeparatorCount` and `Text.SplitJoin` |
| `Text.JoinSeparatorCount` | app.py:89 | joining n parts with a one-character separator adds exactly n - 1 occurrences of it to those already in the parts |
| `Text.SplitJoin` | app.py:89 | when no part contains the separator, splitting the join at the separator gives back the parts, in order |
| `Extract.PageTexts` | app.py:85-88 | page i contributes its text when it has some, and "" when `extract_text()` gives none |
| `Extract.PageText` | app.py:87 | `page.extract_text() or ""`: a page's text when it has some, "" when it has none |
| `Extract.FirstFailure` | app.py:82-91 | the index of the first page whose extraction raises, with no raising page before it, or the page count when no page raises |
| `Extract.Extraction` | app.py:82-91 | the outcome of extraction: an unreadable file gives the reader's cause; a document succeeds exactly when no page raises, and then its text is the page texts joined with "\n"; otherwise the error is the cause of a raising page with no raising page before it |
| `Extract.ExtractText` | app.py:82-91 | the page loop gives the reader's error when the file cannot be opened, the cause from the first page that raises, and otherwise the page texts joined with "\n" in page order |
| `Extract.ExtractedSeparators` | app.py:84-89 | a document of n pages that all extract has exactly n - 1 newlines in its text besides those inside the page texts |
| `Extract.ExtractedPagesRecoverable` | app.py:84-89 | when no page text holds a newline, splitting the extracted text at newlines gives back every page's text in page order |
| `Chat.Assemble` | app.py:129-147 | computes the message list: the instruction, a system message with `PDF_TEXT[:8000]`, the history, and the question as a user message; its layout is stated by `Chat.AssembleLayout` |
| `Chat.RequestFor` | app.py:149-153 | the request body has model "deepseek-chat", `stream` false and the assembled message list |
| `Chat.AssembleLayout` | app.py:129-147 | the message list has 2 + \|history\| + 1 entries: the fixed instruction; a system message with the prefix of the document of length min(8000, \|document\|); every history entry unchanged and in order; and the question as a user message at the end |
| `Chat.AssembleQuestionLast` | app.py:144-147 | two questions asked against the same document and history give lists that agree on everything before the last message, and the two lists are equal exactly when the questions are |
| `Chat.BuildMessages` | app.py:129-147 | the loop builds the list entry by entry: its length, the instruction, the truncated document, each history entry at position 2 + i, the question last; the result equals `Assemble` |
| `App.Question` | app.py:116-117 | a body with no `question` field (or no JSON at all) gives ""; otherwise the question is the field's value stripped |
| `App.KeyConfigured` | app.py:121 | the key counts as missing exactly when it is unset or the empty string, as `not DEEPSEEK_API_KEY` does |
| `App.AppendTurnAlternates` | app.py:179-181 | appending a user question and then the assistant answer to an alternating history keeps it alternating |
| `App.Server.constructor` | app.py:54-59 | the server starts with no document, no history and the API key it is given |
| `App.Server.Upload` | app.py:68-100 | a missing or unnamed file gives 400, and a parse failure gives 500 with the cause; both leave the document and history unchanged. Otherwise the document becomes the extracted text, the history becomes empty whatever its length was, and the preview is the first min(2000, \|text\|) characters; the invariant is kept |
| `App.Server.Ask` | app.py:103-183 | the checks run in this order: no document (400), then an empty stripped question (400), then no API key (500); none of them makes the call or changes the session. Otherwise the call gets model "deepseek-chat", `stream` false and the assembled list. A transport error, a non-200 status (with the body as details) or an unreadable answer gives 500 and leaves the history unchanged. An answer is returned, and exactly (user, stripped question) then (assistant, answer) are appended. The document never changes and the invariant is kept |

## Left out

- Flask routing, static file serving for `/` and the 404 fallback,
  CORS and `jsonify` are framework glue. Replies are datatypes with a
  status code instead.
- Parsing the request JSON is left out; the body is taken as an optional
  string `question` field. Two paths of the code are therefore not
  modelled. A `question` field that is not a string makes `.strip()` raise,
  and a JSON body that is truthy but not an object (a list, say) makes
  `data.get` raise (app.py:116-117); Flask turns both into a 500.
- The PDF library (`PdfReader`, `extract_text`) is a foreign library. The
  model takes what it yields as input.
- The outbound `requests.post` is network I/O. The headers, the bearer
  token, the 60-second timeout and `resp.json()` are left out; the model
  keeps the payload and the four outcomes.
- An answer is always a string in the model. In the code, a `content` that
  is not a string, such as JSON `null`, is stored in the history and
  returned with status 200 (app.py:175, 181, 183). The model cannot
  represent that value.
- Reading `DEEPSEEK_API_KEY` and `PORT` from the environment and
  `app.run` are process start-up. The key is a constructor argument.
- Concurrent requests on the shared globals are left out; calls are taken
  to be sequential.
- `static/script.js` is browser UI code with no server logic.
- `Text.IsSpace` follows the whitespace set of Python's `str.isspace()` by
  code point. Strings are sequences of Unicode scalar values, with no
  normalisation.
