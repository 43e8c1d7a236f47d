/** The messages sent to the chat-completion service, the request body
    that carries them, and what the outbound call can come back with. */
module Chat {
  import Text

  datatype Role = System | User | Assistant

  /** One chat message, `{"role": ..., "content": ...}`. */
  datatype Msg = Msg(role: Role, content: string)

  /** The fixed instruction that opens every request. */
  const SystemPrompt: string :=
    "You are an assistant that answers questions about a PDF. "
    + "Answer the user's question using only the information in the provided PDF. "
    + "If the answer cannot be found in the PDF, say you don't know."

  /** At most this many characters of the document go into a request. */
  const MaxContextChars: nat := 8000

  const ModelName: string := "deepseek-chat"

  /** The JSON request body `{"model", "messages", "stream"}`. */
  datatype Payload = Payload(model: string, messages: seq<Msg>, stream: bool)

  /** Where `resp.json()["choices"][0]["message"]["content"]` leads: to an
      answer, or to an exception (body not JSON, or the path is missing). */
  datatype AnswerField = Content(answer: string) | Unparsable(cause: string)

  /** The outcome of the outbound POST: the request raised (connection
      failure, timeout), or a response came back with a status code, its
      raw body text and what its JSON holds. */
  datatype HttpResult =
    | RequestFailed(cause: string)
    | Response(status: int, body: string, field: AnswerField)

  /** The message list for a question: the instruction, the document cut
      to its first characters, the whole history, the question. */
  function Assemble(pdfText: string, history: seq<Msg>, question: string): seq<Msg>
  {
    [Msg(System, SystemPrompt), Msg(System, Text.Prefix(pdfText, MaxContextChars))]
    + history + [Msg(User, question)]
  }

  /** The request body for a question. */
  function RequestFor(pdfText: string, history: seq<Msg>, question: string): (p: Payload)
    ensures p.model == "deepseek-chat" && !p.stream
    ensures p.messages == Assemble(pdfText, history, question)
  {
    Payload(ModelName, Assemble(pdfText, history, question), false)
  }

  /** The layout of an assembled list: 2 + |history| + 1 messages, the
      instruction first, then the document as a system message holding the
      prefix of the document of length min(8000, |document|), then every
      history entry unchanged and in order, then the question as a user
      message. */
  lemma AssembleLayout(pdfText: string, history: seq<Msg>, question: string)
    ensures var m := Assemble(pdfText, history, question);
      && |m| == 2 + |history| + 1
      && m[0] == Msg(System, SystemPrompt)
      && m[1].role == System && m[1].content <= pdfText
      && |m[1].content| == (if |pdfText| <= MaxContextChars then |pdfText| else MaxContextChars)
      && m[2..2 + |history|] == history
      && m[|m| - 1] == Msg(User, question)
  {
  }

  /** Everything in an assembled list other than the last message is known
      before the question: the question only decides the last message. */
  lemma AssembleQuestionLast(pdfText: string, history: seq<Msg>, q1: string, q2: string)
    ensures Assemble(pdfText, history, q1)[..2 + |history|]
            == Assemble(pdfText, history, q2)[..2 + |history|]
    ensures Assemble(pdfText, history, q1) == Assemble(pdfText, history, q2) <==> q1 == q2
  {
  }

  /** The message-building loop of the ask handler: the instruction, the
      truncated document, each history entry in turn, then the question. */
  method BuildMessages(pdfText: string, history: seq<Msg>, question: string)
    returns (messages: seq<Msg>)
    ensures |messages| == 2 + |history| + 1
    ensures messages[0] == Msg(System, SystemPrompt)
    ensures messages[1] == Msg(System, Text.Prefix(pdfText, MaxContextChars))
    ensures forall i :: 0 <= i < |history| ==> messages[2 + i] == history[i]
    ensures messages[|messages| - 1] == Msg(User, question)
    ensures messages == Assemble(pdfText, history, question)
  {
    var truncatedPdf := Text.Prefix(pdfText, MaxContextChars);
    messages := [];
    messages := messages + [Msg(System, SystemPrompt)];
    messages := messages + [Msg(System, truncatedPdf)];
    var i := 0;
    while i < |history|
      invariant 0 <= i <= |history|
      invariant |messages| == 2 + i
      invariant messages[0] == Msg(System, SystemPrompt)
      invariant messages[1] == Msg(System, truncatedPdf)
      invariant forall j :: 0 <= j < i ==> messages[2 + j] == history[j]
    {
      messages := messages + [history[i]];
      i := i + 1;
    }
    messages := messages + [Msg(User, question)];
    assert messages == Assemble(pdfText, history, question);
  }
}
