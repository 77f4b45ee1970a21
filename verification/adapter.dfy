/**
 * The Ollama adapter's `completions`: the status check, the streaming branch
 * and the non-streaming aggregation of the decoded chunks into one result.
 */
module OllamaAdapter {
  import opened Wrappers
  import opened OllamaTypes
  import opened OllamaDecoder

  /** `toResponse`: the non-streaming result for the full text `content`. */
  function ToResponse(content: string, model: string, prompt: string, env: Env, created: int): ResultNotStreaming {
    ResultNotStreaming(model, created, env.toUsage(prompt, content),
                       [Choice(ChoiceMessage(content, Assistant), Stop, 0)])
  }

  /** The text of a chunk's first choice, as the aggregation reads it. */
  function ContentOf(c: StreamingChunk): string
    requires |c.choices| > 0
  {
    c.choices[0].delta.content
  }

  predicate AllHaveChoice(chunks: seq<StreamingChunk>) {
    forall i :: 0 <= i < |chunks| ==> |chunks[i].choices| > 0
  }

  /** `chunks.reduce((acc, chunk) => acc += chunk.choices[0].delta.content, acc)`. */
  function ReduceContent(acc: string, chunks: seq<StreamingChunk>): string
    requires AllHaveChoice(chunks)
    decreases |chunks|
  {
    if |chunks| == 0 then acc else ReduceContent(acc + ContentOf(chunks[0]), chunks[1..])
  }

  /** The in-order concatenation of every chunk's text: the reference the fold is measured against. */
  function Contents(chunks: seq<StreamingChunk>): string
    requires AllHaveChoice(chunks)
  {
    if |chunks| == 0 then "" else Contents(chunks[..|chunks| - 1]) + ContentOf(chunks[|chunks| - 1])
  }

  lemma {:induction false} ContentsCons(chunks: seq<StreamingChunk>)
    requires AllHaveChoice(chunks)
    requires |chunks| > 0
    ensures Contents(chunks) == ContentOf(chunks[0]) + Contents(chunks[1..])
    decreases |chunks|
  {
    if |chunks| > 1 {
      var init := chunks[..|chunks| - 1];
      ContentsCons(init);
      assert init[1..] == chunks[1..][..|chunks| - 2];
      assert init[0] == chunks[0];
    } else {
      assert chunks[..0] == [];
    }
  }

  /** Folding from the left with `+=` gives the accumulator followed by the in-order concatenation. */
  lemma {:induction false} ReduceIsConcat(acc: string, chunks: seq<StreamingChunk>)
    requires AllHaveChoice(chunks)
    ensures ReduceContent(acc, chunks) == acc + Contents(chunks)
    decreases |chunks|
  {
    if |chunks| > 0 {
      ReduceIsConcat(acc + ContentOf(chunks[0]), chunks[1..]);
      ContentsCons(chunks);
    }
  }

  /** The fixed shape of the non-streaming result for the full text `content`. */
  predicate ResultCarries(r: ResultNotStreaming, content: string, model: string, prompt: string, env: Env, created: int) {
    && r.model == model
    && r.created == created
    && r.usage == env.toUsage(prompt, content)
    && |r.choices| == 1
    && r.choices[0].index == 0
    && r.choices[0].finishReason == Stop
    && r.choices[0].message == ChoiceMessage(content, Assistant)
  }

  /**
   * The non-streaming branch once the stream was consumed without error:
   * fold the chunk texts from the empty string and build the result, whose
   * timestamp is the one read after every chunk's.
   */
  function Aggregate(chunks: seq<StreamingChunk>, model: string, prompt: string, env: Env, created: int): (r: ResultNotStreaming)
    requires AllHaveChoice(chunks)
    ensures ResultCarries(r, Contents(chunks), model, prompt, env, created)
  {
    ReduceIsConcat("", chunks);
    assert "" + Contents(chunks) == Contents(chunks);
    ToResponse(ReduceContent("", chunks), model, prompt, env, created)
  }

  /** The reads of a body; a null body has none. */
  function BodyReads(body: Option<seq<ReadResult>>): seq<ReadResult> {
    match body
    case None => []
    case Some(rs) => rs
  }

  /**
   * `completions` after the HTTP request: `res` is what the request
   * returned. A non-ok status fails before anything is decoded; with
   * `stream` set the decoded stream is handed back as is; otherwise the
   * whole stream is consumed and its texts folded into one result, unless
   * decoding failed, in which case the call fails with that error.
   */
  function Completions(params: HandlerParams, env: Env, res: HttpResponse): (r: Result<CompletionResult, Error>)
    ensures r == Failure(HttpError(res.status)) <==> !IsOk(res.status)
    ensures IsOk(res.status) && params.stream ==>
              r == Success(Streaming(IterateResponse(BodyReads(res.body), env, params.model, env.combinePrompts(params.messages))))
    ensures IsOk(res.status) && !params.stream ==>
              var prompt := env.combinePrompts(params.messages);
              var d := IterateResponse(BodyReads(res.body), env, params.model, prompt);
              && (r.Success? <==> d.error.None?)
              && (r.Failure? ==> d.error == Some(r.error))
              && (r.Success? ==>
                    r.value.NotStreaming? &&
                    ResultCarries(r.value.result, Contents(d.chunks), params.model, prompt, env, env.clock(|d.chunks|)))
  {
    var model := params.model;
    var prompt := env.combinePrompts(params.messages);
    if !IsOk(res.status) then Failure(HttpError(res.status))
    else if params.stream then Success(Streaming(IterateResponse(BodyReads(res.body), env, model, prompt)))
    else
      var d := IterateResponse(BodyReads(res.body), env, model, prompt);
      match d.error
      case Some(e) => Failure(e)
      case None => Success(NotStreaming(Aggregate(d.chunks, model, prompt, env, env.clock(|d.chunks|))))
  }
}
