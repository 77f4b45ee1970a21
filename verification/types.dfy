/** The data shapes the Ollama adapter reads and produces. */
module OllamaTypes {
  import opened Wrappers

  /** One newline-delimited record of Ollama's /api/generate stream. */
  datatype OllamaRecord = OllamaRecord(model: string, createdAt: string, response: string, done: bool)

  /** Token counts, as produced by the (unmodelled) usage estimator. */
  datatype Usage = Usage(promptTokens: int, completionTokens: int, totalTokens: int)

  /** The incremental text of a streaming choice. */
  datatype Delta = Delta(content: string, role: string)

  datatype StreamingChoice = StreamingChoice(delta: Delta, finishReason: string, index: int)

  /** One canonical event of a streamed completion. */
  datatype StreamingChunk = StreamingChunk(model: string, created: int, usage: Usage, choices: seq<StreamingChoice>)

  /** The full text of a non-streaming choice. */
  datatype ChoiceMessage = ChoiceMessage(content: string, role: string)

  datatype Choice = Choice(message: ChoiceMessage, finishReason: string, index: int)

  /** The canonical non-streaming result. */
  datatype ResultNotStreaming = ResultNotStreaming(model: string, created: int, usage: Usage, choices: seq<Choice>)

  /** One entry of the caller's conversation. */
  datatype Message = Message(role: string, content: string)

  /** The caller's request; an absent `stream` flag is `false`. */
  datatype HandlerParams = HandlerParams(model: string, messages: seq<Message>, stream: bool)

  /** What one `read()` on the response body reader returns; `value` is the decoded text. */
  datatype ReadResult = ReadResult(done: bool, value: Option<string>)

  /** The HTTP response: its status and, unless the body is null, the reads its reader yields. */
  datatype HttpResponse = HttpResponse(status: int, body: Option<seq<ReadResult>>)

  /** The errors a completion call can end with. */
  datatype Error =
    | HttpError(status: int)   // the API answered with a non-ok status
    | DecodeError(line: string) // JSON.parse threw on this trimmed line

  /**
   * The collaborators whose code is not part of this model: the JSON parser
   * (partial), the usage estimator, the prompt combiner and the wall clock,
   * where `clock(k)` is the value the (k+1)-th timestamp read returns.
   */
  datatype Env = Env(
    parse: string -> Option<OllamaRecord>,
    toUsage: (string, string) -> Usage,
    combinePrompts: seq<Message> -> string,
    clock: nat -> int)

  /**
   * A consumed chunk stream: the chunks it yielded, in order, and the error
   * that terminated it, if any.
   */
  datatype Decoded = Decoded(chunks: seq<StreamingChunk>, error: Option<Error>)

  /** What `completions` resolves to, keyed on the request's `stream` flag. */
  datatype CompletionResult = Streaming(stream: Decoded) | NotStreaming(result: ResultNotStreaming)

  const Assistant: string := "assistant"
  const Stop: string := "stop"

  /** `Response.ok`: a status in the range 200-299. */
  predicate IsOk(status: int) {
    200 <= status <= 299
  }
}
