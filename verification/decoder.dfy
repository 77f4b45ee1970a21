/**
 * The streaming decoder of the Ollama adapter: building one canonical chunk
 * per record, decoding one body fragment, and the read loop of
 * `iterateResponse` that decodes fragment after fragment.
 */
module OllamaDecoder {
  import opened Wrappers
  import opened OllamaTypes
  import opened Lines

  /** `toStreamingChunk`: one canonical chunk for one record; `created` is the timestamp read for it. */
  function ToStreamingChunk(rec: OllamaRecord, model: string, prompt: string, env: Env, created: int): StreamingChunk {
    StreamingChunk(model, created, env.toUsage(prompt, rec.response),
                   [StreamingChoice(Delta(rec.response, Assistant), Stop, 0)])
  }

  /** The fixed shape every emitted chunk has: the requested model and one assistant choice at index 0 that stops. */
  predicate WellFormedChunk(c: StreamingChunk, model: string) {
    && c.model == model
    && |c.choices| == 1
    && c.choices[0].index == 0
    && c.choices[0].finishReason == Stop
    && c.choices[0].delta.role == Assistant
  }

  /** `c` is the chunk for a record whose text is `response`, stamped `created`. */
  predicate ChunkCarries(c: StreamingChunk, response: string, model: string, prompt: string, env: Env, created: int) {
    && WellFormedChunk(c, model)
    && c.choices[0].delta.content == response
    && c.usage == env.toUsage(prompt, response)
    && c.created == created
  }

  /** `lines[k]` is the first line the parser rejects. */
  predicate FirstRejected(lines: seq<string>, parse: string -> Option<OllamaRecord>, k: nat) {
    && k < |lines|
    && parse(lines[k]).None?
    && forall j :: 0 <= j < k ==> parse(lines[j]).Some?
  }

  /**
   * `.map((line) => JSON.parse(line))`: every line parsed, in order; the
   * first line that throws aborts the whole map and is reported by index.
   */
  function ParseAll(lines: seq<string>, parse: string -> Option<OllamaRecord>): Result<seq<OllamaRecord>, nat> {
    if |lines| == 0 then Success([])
    else
      match parse(lines[0])
      case None => Failure(0)
      case Some(rec) =>
        match ParseAll(lines[1..], parse)
        case Failure(k) => Failure(k + 1)
        case Success(recs) => Success([rec] + recs)
  }

  /** ParseAll succeeds exactly when every line parses, keeps every record in place, and otherwise names the first rejected line. */
  lemma {:induction false} ParseAllSpec(lines: seq<string>, parse: string -> Option<OllamaRecord>)
    ensures var r := ParseAll(lines, parse);
            && (r.Success? <==> forall i :: 0 <= i < |lines| ==> parse(lines[i]).Some?)
            && (r.Success? ==> |r.value| == |lines| && forall i :: 0 <= i < |lines| ==> parse(lines[i]) == Some(r.value[i]))
            && (r.Failure? ==> FirstRejected(lines, parse, r.error))
    decreases |lines|
  {
    if |lines| > 0 {
      ParseAllSpec(lines[1..], parse);
      assert forall i :: 1 <= i < |lines| ==> lines[i] == lines[1..][i - 1];
    }
  }

  /** `.map((response) => this.toStreamingChunk(response, model, prompt))`, reading one timestamp per record. */
  function BuildChunks(recs: seq<OllamaRecord>, model: string, prompt: string, env: Env, base: nat): seq<StreamingChunk> {
    if |recs| == 0 then []
    else [ToStreamingChunk(recs[0], model, prompt, env, env.clock(base))] + BuildChunks(recs[1..], model, prompt, env, base + 1)
  }

  /** One chunk per record, in order, the record at position `i` stamped with the `base + i`-th timestamp. */
  lemma {:induction false} BuildChunksSpec(recs: seq<OllamaRecord>, model: string, prompt: string, env: Env, base: nat)
    ensures var cs := BuildChunks(recs, model, prompt, env, base);
            && |cs| == |recs|
            && forall i :: 0 <= i < |recs| ==> ChunkCarries(cs[i], recs[i].response, model, prompt, env, env.clock(base + i))
    decreases |recs|
  {
    if |recs| > 0 {
      BuildChunksSpec(recs[1..], model, prompt, env, base + 1);
      var cs := BuildChunks(recs, model, prompt, env, base);
      forall i | 1 <= i < |recs|
        ensures ChunkCarries(cs[i], recs[i].response, model, prompt, env, env.clock(base + i))
      {
        assert recs[i] == recs[1..][i - 1];
        assert base + 1 + (i - 1) == base + i;
      }
    }
  }

  /**
   * The parse-then-build pipeline over a batch of trimmed, non-blank lines.
   * `base` is the number of timestamps read before this batch. All lines are
   * parsed before any chunk is built, so a failing batch reads no timestamp.
   */
  function DecodeLines(lines: seq<string>, env: Env, model: string, prompt: string, base: nat): (r: Result<seq<StreamingChunk>, Error>)
    ensures r.Success? <==> forall i :: 0 <= i < |lines| ==> env.parse(lines[i]).Some?
    ensures r.Success? ==> |r.value| == |lines|
    ensures r.Success? ==> forall i :: 0 <= i < |lines| ==>
              env.parse(lines[i]).Some? &&
              ChunkCarries(r.value[i], env.parse(lines[i]).value.response, model, prompt, env, env.clock(base + i))
    ensures r.Failure? ==> exists k: nat :: FirstRejected(lines, env.parse, k) && r.error == DecodeError(lines[k])
  {
    ParseAllSpec(lines, env.parse);
    match ParseAll(lines, env.parse)
    case Failure(k) => Failure(DecodeError(lines[k]))
    case Success(recs) =>
      BuildChunksSpec(recs, model, prompt, env, base);
      Success(BuildChunks(recs, model, prompt, env, base))
  }

  /** A fragment decoder: the text of one read and the number of timestamps read so far. */
  type FragmentDecoder = (string, nat) -> Result<seq<StreamingChunk>, Error>

  /** How one fragment of the body is cut into the lines that are parsed. */
  type LineSplitter = string -> seq<string>

  /** A batch decoder: a batch of lines and the number of timestamps read so far. */
  type BatchDecoder = (seq<string>, nat) -> Result<seq<StreamingChunk>, Error>

  /** The parse-then-build pipeline of a request for `model` with `prompt`, as a batch decoder. */
  function DecodeBatch(env: Env, model: string, prompt: string): BatchDecoder {
    (lines: seq<string>, base: nat) => DecodeLines(lines, env, model, prompt, base)
  }

  /** Decoding a fragment: cut it into lines with `split`, then decode them as one batch. */
  function LinesDecoder(split: LineSplitter, batch: BatchDecoder): FragmentDecoder {
    (text: string, base: nat) => batch(split(text), base)
  }

  /**
   * The decoder `iterateResponse` applies to every fragment of a request for
   * `model` with `prompt`: split, trim, drop blank pieces, parse, build.
   */
  function OllamaFragments(env: Env, model: string, prompt: string): FragmentDecoder {
    LinesDecoder(FragmentLines, DecodeBatch(env, model, prompt))
  }

  /**
   * The read loop followed to the end: each read that carries a value is decoded
   * on its own, with nothing carried over from the previous one; a read
   * without a value (or the end of the reads) stops the loop, and so does a
   * read whose own `done` flag is set, after its value is decoded. A
   * fragment that fails to decode yields none of its chunks and ends the
   * stream with its error.
   */
  function Iterate(rs: seq<ReadResult>, decode: FragmentDecoder, base: nat): Decoded
    decreases |rs|
  {
    if |rs| == 0 then Decoded([], None)
    else
      match rs[0].value
      case None => Decoded([], None)
      case Some(text) =>
        match decode(text, base)
        case Failure(e) => Decoded([], Some(e))
        case Success(cs) =>
          if rs[0].done then Decoded(cs, None)
          else
            var rest := Iterate(rs[1..], decode, base + |cs|);
            Decoded(cs + rest.chunks, rest.error)
  }

  /** Every chunk `decode` builds has the fixed shape for `model`, and its only failures are decode errors. */
  ghost predicate WellFormedDecoder(decode: FragmentDecoder, model: string) {
    forall text, base ::
      && (decode(text, base).Success? ==>
            forall i :: 0 <= i < |decode(text, base).value| ==> WellFormedChunk(decode(text, base).value[i], model))
      && (decode(text, base).Failure? ==> decode(text, base).error.DecodeError?)
  }

  /** Whatever the splitter, a lines decoder builds well-formed chunks and fails only with decode errors. */
  lemma LinesDecoderWellFormed(split: LineSplitter, env: Env, model: string, prompt: string)
    ensures WellFormedDecoder(LinesDecoder(split, DecodeBatch(env, model, prompt)), model)
  {
    forall text, base: nat
      ensures var f := LinesDecoder(split, DecodeBatch(env, model, prompt))(text, base);
              && (f.Success? ==> forall i :: 0 <= i < |f.value| ==> WellFormedChunk(f.value[i], model))
              && (f.Failure? ==> f.error.DecodeError?)
    {
      var f := DecodeLines(split(text), env, model, prompt, base);
      assert LinesDecoder(split, DecodeBatch(env, model, prompt))(text, base) == f;
    }
  }

  /** The read loop yields only chunks its decoder built, so it keeps the decoder's well-formedness. */
  lemma {:induction false} IterateWellFormed(rs: seq<ReadResult>, decode: FragmentDecoder, model: string, base: nat)
    requires WellFormedDecoder(decode, model)
    ensures var d := Iterate(rs, decode, base);
            && (forall i :: 0 <= i < |d.chunks| ==> WellFormedChunk(d.chunks[i], model))
            && (d.error.None? || d.error.value.DecodeError?)
    decreases |rs|
  {
    if |rs| > 0 && rs[0].value.Some? {
      var f := decode(rs[0].value.value, base);
      if f.Success? && !rs[0].done {
        IterateWellFormed(rs[1..], decode, model, base + |f.value|);
        var rest := Iterate(rs[1..], decode, base + |f.value|);
        assert forall i :: |f.value| <= i < |f.value| + |rest.chunks| ==>
                 (f.value + rest.chunks)[i] == rest.chunks[i - |f.value|];
      }
    }
  }

  /** `iterateResponse(response, model, prompt)` consumed to the end. */
  function IterateResponse(rs: seq<ReadResult>, env: Env, model: string, prompt: string): (d: Decoded)
    ensures forall i :: 0 <= i < |d.chunks| ==> WellFormedChunk(d.chunks[i], model)
    ensures d.error.None? || d.error.value.DecodeError?
  {
    LinesDecoderWellFormed(FragmentLines, env, model, prompt);
    IterateWellFormed(rs, OllamaFragments(env, model, prompt), model, 0);
    Iterate(rs, OllamaFragments(env, model, prompt), 0)
  }

  /** One step of `Iterate` on a read that carries a value. */
  lemma IterateStep(rs: seq<ReadResult>, decode: FragmentDecoder, base: nat)
    requires |rs| > 0 && rs[0].value.Some?
    ensures var f := decode(rs[0].value.value, base);
            var rest := Iterate(rs[1..], decode, base + if f.Success? then |f.value| else 0);
            Iterate(rs, decode, base) ==
              if f.Failure? then Decoded([], Some(f.error))
              else if rs[0].done then Decoded(f.value, None)
              else Decoded(f.value + rest.chunks, rest.error)
  {
  }

  /** `whole` is what remains after `chunks` were yielded and decoding resumes at read `i`. */
  ghost predicate Resumes(whole: Decoded, chunks: seq<StreamingChunk>, rs: seq<ReadResult>, i: nat, decode: FragmentDecoder)
    requires i <= |rs|
  {
    var rest := Iterate(rs[i..], decode, |chunks|);
    whole.chunks == chunks + rest.chunks && whole.error == rest.error
  }

  /** One pass of the loop body: one read, decoded and pushed. */
  method ReadOnce(rs: seq<ReadResult>, i: nat, chunks: seq<StreamingChunk>, decode: FragmentDecoder, ghost whole: Decoded)
    returns (chunks': seq<StreamingChunk>, error: Option<Error>, done: bool)
    requires i < |rs|
    requires Resumes(whole, chunks, rs, i, decode)
    ensures done ==> whole == Decoded(chunks', error)
    ensures !done ==> error.None? && Resumes(whole, chunks', rs, i + 1, decode)
  {
    var next := rs[i];
    assert rs[i..][0] == next && rs[i..][1..] == rs[i + 1..];
    chunks', error, done := chunks, None, true;
    if next.value.None? {
      assert chunks + [] == chunks;
    } else {
      var decoded := decode(next.value.value, |chunks|);
      IterateStep(rs[i..], decode, |chunks|);
      if decoded.Failure? {
        error := Some(decoded.error);
        assert chunks + [] == chunks;
      } else {
        done := next.done;
        var cs := decoded.value;
        ghost var rest := Iterate(rs[i + 1..], decode, |chunks| + |cs|);
        assert chunks + (cs + rest.chunks) == (chunks + cs) + rest.chunks;
        assert chunks + cs + [] == chunks + cs;
        chunks' := chunks + cs;
      }
    }
  }

  /**
   * The loop of `iterateResponse` as written: read, decode the fragment
   * with the timestamp count so far, push its chunks, and stop on a read
   * without a value, a read flagged done, or a decode error.
   */
  method IterateResponseLoop(rs: seq<ReadResult>, env: Env, model: string, prompt: string)
    returns (chunks: seq<StreamingChunk>, error: Option<Error>)
    ensures Decoded(chunks, error) == IterateResponse(rs, env, model, prompt)
  {
    var decode := OllamaFragments(env, model, prompt);
    chunks, error := [], None;
    var i := 0;
    var done := false;
    ghost var whole := Iterate(rs, decode, 0);
    assert rs[0..] == rs && [] + whole.chunks == whole.chunks;
    while !done
      invariant 0 <= i <= |rs|
      invariant !done ==> error.None? && Resumes(whole, chunks, rs, i, decode)
      invariant done ==> whole == Decoded(chunks, error)
      decreases |rs| - i, !done
    {
      if i == |rs| {
        // the reader is exhausted: its read returns no value
        done := true;
        assert chunks + [] == chunks;
      } else {
        chunks, error, done := ReadOnce(rs, i, chunks, decode, whole);
        i := i + 1;
      }
    }
  }
}
