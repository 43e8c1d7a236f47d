/** The server's in-memory session: the text of the last uploaded PDF and
    the conversation about it, with the upload and ask handlers that
    replace, read and extend them. */
module App {
  import opened Wrappers
  import Text
  import opened Extract
  import opened Chat

  /** At most this many characters of the extracted text are sent back
      after an upload. */
  const PreviewChars: nat := 2000

  const UploadedMessage: string := "PDF uploaded successfully."
  const NoFileError: string := "No PDF file uploaded."
  const ParseErrorPrefix: string := "Failed to parse PDF: "
  const NoPdfError: string := "No PDF uploaded yet."
  const EmptyQuestionError: string := "Question cannot be empty."
  const NoKeyError: string := "DeepSeek API key not configured on server."
  const CallErrorPrefix: string := "Failed to call DeepSeek API: "
  const UpstreamError: string := "DeepSeek API returned an error."
  const InvalidResponsePrefix: string := "Invalid response from DeepSeek API: "

  /** The `file` part of a multipart upload: its file name and what the PDF
      library makes of its contents. */
  datatype FilePart = FilePart(filename: string, document: Document)

  /** The JSON reply of the upload handler and its HTTP status. */
  datatype UploadReply =
    | Uploaded(message: string, preview: string)
    | UploadFailed(status: nat, error: string)
  {
    function Status(): nat {
      if Uploaded? then 200 else status
    }
  }

  /** The JSON reply of the ask handler and its HTTP status; `details`
      carries the upstream body when the service answered with an error. */
  datatype AskReply =
    | Answered(answer: string)
    | AskFailed(status: nat, error: string, details: Option<string>)
  {
    function Status(): nat {
      if Answered? then 200 else status
    }
  }

  /** The question of an ask request, stripped; a body without a
      `question` field (or without JSON at all) counts as "". */
  function Question(field: Option<string>): (q: string)
    ensures field.None? ==> q == ""
    ensures field.Some? ==> q == Text.Strip(field.value)
  {
    Text.Strip(field.GetOr(""))
  }

  /** A key that is unset or empty counts as not configured. */
  function KeyConfigured(apiKey: Option<string>): (b: bool)
    ensures !b <==> apiKey.None? || apiKey == Some("")
  {
    apiKey.Some? && apiKey.value != ""
  }

  /** Each user question in `history` is followed by the assistant's answer. */
  ghost predicate Alternates(history: seq<Msg>)
  {
    && |history| % 2 == 0
    && forall i :: 0 <= i < |history| ==>
         history[i].role == (if i % 2 == 0 then User else Assistant)
  }

  /** Appending a question and its answer keeps the history alternating. */
  lemma AppendTurnAlternates(history: seq<Msg>, question: string, answer: string)
    requires Alternates(history)
    ensures Alternates(history + [Msg(User, question), Msg(Assistant, answer)])
  {
  }

  /** The process-wide session, `PDF_TEXT` and `conversation_history`. */
  class Server {
    var pdfText: string
    var history: seq<Chat.Msg>
    /** The API key as read from the environment at start-up. */
    const apiKey: Option<string>

    /** The history alternates a user question and the assistant's answer
        to it, and there is no conversation without a document. */
    ghost predicate Valid()
      reads this
    {
      Alternates(history) && (history != [] ==> pdfText != "")
    }

    /** Start-up: no document and no conversation. */
    constructor (apiKey: Option<string>)
      ensures Valid()
      ensures pdfText == "" && history == [] && this.apiKey == apiKey
    {
      pdfText := "";
      history := [];
      this.apiKey := apiKey;
    }

    /** `POST /upload`. A missing or unnamed file is refused with 400 and a
        document the PDF library cannot read (or a page it cannot extract)
        with 500, both leaving the session as it was. Otherwise the
        extracted text replaces the document, the conversation starts
        afresh, and the reply holds the first 2000 characters. */
    method Upload(file: Option<FilePart>) returns (reply: UploadReply)
      requires Valid()
      modifies this
      ensures Valid()
      ensures (file.None? || file.value.filename == "") ==>
        && reply == UploadFailed(400, NoFileError)
        && pdfText == old(pdfText) && history == old(history)
      ensures (file.Some? && file.value.filename != "" && Extraction(file.value.document).Failure?) ==>
        && reply == UploadFailed(500, ParseErrorPrefix + Extraction(file.value.document).error)
        && pdfText == old(pdfText) && history == old(history)
      ensures (file.Some? && file.value.filename != "" && Extraction(file.value.document).Success?) ==>
        && pdfText == Extraction(file.value.document).value
        && history == []
        && reply == Uploaded(UploadedMessage, Text.Prefix(pdfText, PreviewChars))
    {
      if file.None? || file.value.filename == "" {
        return UploadFailed(400, NoFileError);
      }
      var extracted := ExtractText(file.value.document);
      if extracted.Failure? {
        return UploadFailed(500, ParseErrorPrefix + extracted.error);
      }
      pdfText := extracted.value;
      history := [];
      var preview := Text.Prefix(extracted.value, PreviewChars);
      reply := Uploaded(UploadedMessage, preview);
    }

    /** `POST /ask`, with the outbound call given as `post`. The checks run
        in order: no document (400), an empty stripped question (400), no
        API key (500); none of them calls `post` (`sent` is None) or changes
        the session. Otherwise `post` receives the assembled request, and a
        failed call, an error status or an unreadable answer gives 500 with
        the session unchanged; an answer is returned and the question and
        answer are appended to the history. The document never changes. */
    method Ask(field: Option<string>, post: Payload -> HttpResult)
      returns (reply: AskReply, sent: Option<Payload>)
      requires Valid()
      modifies this
      ensures Valid()
      ensures pdfText == old(pdfText)
      ensures old(pdfText) == "" ==>
        reply == AskFailed(400, NoPdfError, None) && sent == None
      ensures old(pdfText) != "" && Question(field) == "" ==>
        reply == AskFailed(400, EmptyQuestionError, None) && sent == None
      ensures old(pdfText) != "" && Question(field) != "" && !KeyConfigured(apiKey) ==>
        reply == AskFailed(500, NoKeyError, None) && sent == None
      ensures sent.Some? <==> old(pdfText) != "" && Question(field) != "" && KeyConfigured(apiKey)
      ensures sent.Some? ==>
        && sent.value == RequestFor(old(pdfText), old(history), Question(field))
        && match post(sent.value)
           case RequestFailed(cause) =>
             reply == AskFailed(500, CallErrorPrefix + cause, None)
           case Response(status, body, answerField) =>
             if status != 200 then reply == AskFailed(500, UpstreamError, Some(body))
             else match answerField
                  case Unparsable(cause) =>
                    reply == AskFailed(500, InvalidResponsePrefix + cause, None)
                  case Content(answer) => reply == Answered(answer)
      ensures reply.Answered? ==>
        history == old(history) + [Msg(User, Question(field)), Msg(Assistant, reply.answer)]
      ensures !reply.Answered? ==> history == old(history)
    {
      sent := None;
      if pdfText == "" {
        reply := AskFailed(400, NoPdfError, None);
        return;
      }
      var question := Question(field);
      if question == "" {
        reply := AskFailed(400, EmptyQuestionError, None);
        return;
      }
      if !(apiKey.Some? && apiKey.value != "") {
        reply := AskFailed(500, NoKeyError, None);
        return;
      }
      var messages := BuildMessages(pdfText, history, question);
      var payload := Payload(ModelName, messages, false);
      sent := Some(payload);
      var resp := post(payload);
      if resp.RequestFailed? {
        reply := AskFailed(500, CallErrorPrefix + resp.cause, None);
        return;
      }
      if resp.status != 200 {
        reply := AskFailed(500, UpstreamError, Some(resp.body));
        return;
      }
      if resp.field.Unparsable? {
        reply := AskFailed(500, InvalidResponsePrefix + resp.field.cause, None);
        return;
      }
      var answer := resp.field.answer;
      AppendTurnAlternates(history, question, answer);
      history := history + [Msg(User, question)];
      history := history + [Msg(Assistant, answer)];
      reply := Answered(answer);
    }
  }

  /** A session from start-up: asking before any upload is refused without
      a call; uploading the pages "Hello" and "World" stores "Hello\nWorld"
      and previews all of it; a question then answered "It is a test."
      returns that answer and leaves two entries in the history. */
  method UploadThenAsk()
  {
    var server := new Server(Some("sk-test"));
    var post := (p: Payload) => Response(200, "", Content("It is a test."));

    var early, sentEarly := server.Ask(Some("What is this?"), post);
    assert early == AskFailed(400, NoPdfError, None) && early.Status() == 400;
    assert sentEarly == None;

    var doc := Pages([HasText("Hello"), HasText("World")]);
    assert PageTexts(doc.pages) == ["Hello", "World"];
    assert Text.Join("\n", ["Hello", "World"]) == "Hello\nWorld";
    var up := server.Upload(Some(FilePart("doc.pdf", doc)));
    assert server.pdfText == "Hello\nWorld";
    assert up == Uploaded(UploadedMessage, "Hello\nWorld");

    assert Question(Some("  What is this? ")) == "What is this?";
    var reply, sent := server.Ask(Some("  What is this? "), post);
    assert reply == Answered("It is a test.");
    assert server.history == [Msg(User, "What is this?"), Msg(Assistant, "It is a test.")];
  }
}
