/**
 * End-to-end scenarios of the adapter, proved on concrete Ollama streams. The JSON
 * parser is not part of the model, so each scenario states what the parser
 * returns for the raw lines it is given.
 */
module OllamaScenarios {
  import opened Wrappers
  import opened OllamaTypes
  import opened Lines
  import opened OllamaDecoder
  import opened OllamaAdapter
  import opened OllamaProperties

  const Hi: string := "{\"response\":\"hi\",\"done\":false}"
  const There: string := "{\"response\":\" there\",\"done\":true}"
  const Truncated: string := "{\"response\":\"hi"

  /** The parser accepts `line` and reads `response` from it. */
  predicate ParsesAs(env: Env, line: string, response: string) {
    env.parse(line).Some? && env.parse(line).value.response == response
  }

  const Hello: HandlerParams := HandlerParams("m", [Message("user", "hello")], false)

  lemma RecordsAreCleanLines()
    ensures CleanLine(Hi) && CanEndLine(Hi)
    ensures CleanLine(There) && CanEndLine(There)
    ensures CleanLine(Truncated) && CanEndLine(Truncated)
  {
  }

  /** One read per record, each record terminated by a newline, then the end of the body. */
  function PerRecordReads(records: seq<string>): seq<ReadResult> {
    if |records| == 0 then [ReadResult(true, None)]
    else [ReadResult(false, Some(records[0] + "\n"))] + PerRecordReads(records[1..])
  }

  lemma {:induction false} PerRecordLines(records: seq<string>)
    requires forall i :: 0 <= i < |records| ==> CleanLine(records[i]) && CanEndLine(records[i])
    ensures LinesOf(Fragments(PerRecordReads(records)), FragmentLines) == records
    decreases |records|
  {
    var rs := PerRecordReads(records);
    if |records| > 0 {
      TerminatedLineFragment(records[0]);
      PerRecordLines(records[1..]);
      assert rs[1..] == PerRecordReads(records[1..]);
      var frags := Fragments(rs);
      assert frags[0] == records[0] + "\n";
      assert frags[1..] == Fragments(PerRecordReads(records[1..]));
      assert records == [records[0]] + records[1..];
    }
  }

  /** The read loop over one read per record stops at the first record the parser rejects. */
  lemma StopsAtRejected(good: string, bad: string, later: string, split: LineSplitter, env: Env, model: string, prompt: string)
    requires split(good + "\n") == [good] && split(bad + "\n") == [bad]
    requires env.parse(good).Some? && env.parse(bad).None?
    ensures Iterate(PerRecordReads([good, bad, later]), LinesDecoder(split, DecodeBatch(env, model, prompt)), 0)
            == Decoded(DecodeLines([good], env, model, prompt, 0).value, Some(DecodeError(bad)))
  {
    var rs := PerRecordReads([good, bad, later]);
    var decode := LinesDecoder(split, DecodeBatch(env, model, prompt));
    assert decode(good + "\n", 0) == DecodeLines([good], env, model, prompt, 0);
    var first := DecodeLines([good], env, model, prompt, 0);
    assert first.Success? && |first.value| == 1;
    assert decode(bad + "\n", 1) == DecodeLines([bad], env, model, prompt, 1);
    var second := DecodeLines([bad], env, model, prompt, 1);
    var k: nat :| FirstRejected([bad], env.parse, k) && second.error == DecodeError([bad][k]);
    assert rs[1..] == PerRecordReads([bad, later]) by {
      assert [good, bad, later][1..] == [bad, later];
    }
    assert Iterate(rs[1..], decode, 1) == Decoded([], Some(DecodeError(bad)));
    assert first.value + [] == first.value;
  }

  /** Records joined with newlines in a single read, and then the end of the body. */
  function OneRead(records: seq<string>): seq<ReadResult>
    requires |records| > 0
  {
    [ReadResult(false, Some(Join(records))), ReadResult(true, None)]
  }

  lemma OneReadLines(records: seq<string>)
    requires |records| > 0
    requires forall i :: 0 <= i < |records| ==> CleanLine(records[i])
    requires forall i :: 0 <= i < |records| - 1 ==> CanEndLine(records[i])
    ensures LinesOf(Fragments(OneRead(records)), FragmentLines) == records
  {
    var rs := OneRead(records);
    CleanLinesFragment(records);
    assert rs[1..] == [ReadResult(true, None)];
    assert Fragments(rs) == [Join(records)];
    assert [Join(records)][1..] == [];
    assert records + [] == records;
  }

  lemma TwoResponses(parse: string -> Option<OllamaRecord>, first: string, second: string)
    requires parse(first).Some? && parse(second).Some?
    ensures Responses([first, second], parse) == parse(first).value.response + parse(second).value.response
  {
    assert [first, second][1..] == [second];
    assert [second][1..] == [];
    assert Responses([second], parse) == parse(second).value.response + Responses([], parse);
    assert parse(second).value.response + "" == parse(second).value.response;
  }

  /**
   * Scenario A: both records in one newline-delimited body, read without
   * streaming, give the message "hi there".
   */
  lemma ScenarioA(env: Env)
    requires ParsesAs(env, Hi, "hi") && ParsesAs(env, There, " there")
    ensures var r := Completions(Hello, env, HttpResponse(200, Some(OneRead([Hi, There]))));
            && r.Success? && r.value.NotStreaming?
            && |r.value.result.choices| == 1
            && r.value.result.choices[0].message.content == "hi there"
  {
    RecordsAreCleanLines();
    OneReadLines([Hi, There]);
    NonStreamingIsConcatenatedResponses(Hello, env, HttpResponse(200, Some(OneRead([Hi, There]))));
    TwoResponses(env.parse, Hi, There);
    assert "hi" + " there" == "hi there";
  }

  /** The records streamed one read per record decode to their two chunks, in order, without error. */
  lemma HiThereStream(env: Env, prompt: string)
    requires ParsesAs(env, Hi, "hi") && ParsesAs(env, There, " there")
    ensures var d := IterateResponse(PerRecordReads([Hi, There]), env, "m", prompt);
            && d.error.None?
            && |d.chunks| == 2
            && ChunkCarries(d.chunks[0], "hi", "m", prompt, env, env.clock(0))
            && ChunkCarries(d.chunks[1], " there", "m", prompt, env, env.clock(1))
  {
    RecordsAreCleanLines();
    PerRecordLines([Hi, There]);
    IterateResponseIsBatchDecode(PerRecordReads([Hi, There]), env, "m", prompt);
  }

  /**
   * Scenario B: the same records streamed, one read per record, yield two
   * chunks with the texts "hi" and " there", in that order, and no error.
   */
  lemma ScenarioB(env: Env)
    requires ParsesAs(env, Hi, "hi") && ParsesAs(env, There, " there")
    ensures var r := Completions(Hello.(stream := true), env, HttpResponse(200, Some(PerRecordReads([Hi, There]))));
            && r.Success? && r.value.Streaming?
            && r.value.stream.error.None?
            && |r.value.stream.chunks| == 2
            && r.value.stream.chunks[0].choices[0].delta.content == "hi"
            && r.value.stream.chunks[1].choices[0].delta.content == " there"
  {
    HiThereStream(env, env.combinePrompts(Hello.messages));
  }

  /** Scenario C: a status of 500 fails the call with that status, streaming or not. */
  lemma ScenarioC(env: Env, stream: bool, body: Option<seq<ReadResult>>)
    ensures Completions(Hello.(stream := stream), env, HttpResponse(500, body)) == Failure(HttpError(500))
  {
  }

  /**
   * Scenario D: a truncated record between two good ones, one read per
   * record. Streaming keeps the chunk of the first record and then ends with
   * the decode error of the truncated line; without streaming the whole call
   * fails with it.
   */
  lemma ScenarioD(env: Env)
    requires ParsesAs(env, Hi, "hi") && env.parse(Truncated).None?
    ensures var r := Completions(Hello.(stream := true), env, HttpResponse(200, Some(PerRecordReads([Hi, Truncated, There]))));
            && r.Success? && r.value.Streaming?
            && |r.value.stream.chunks| == 1
            && r.value.stream.chunks[0].choices[0].delta.content == "hi"
            && r.value.stream.error == Some(DecodeError(Truncated))
    ensures Completions(Hello, env, HttpResponse(200, Some(PerRecordReads([Hi, Truncated, There]))))
            == Failure(DecodeError(Truncated))
  {
    var prompt := env.combinePrompts(Hello.messages);
    RecordsAreCleanLines();
    TerminatedLineFragment(Hi);
    TerminatedLineFragment(Truncated);
    StopsAtRejected(Hi, Truncated, There, FragmentLines, env, "m", prompt);
    var cs := DecodeLines([Hi], env, "m", prompt, 0).value;
    assert ChunkCarries(cs[0], "hi", "m", prompt, env, env.clock(0));
  }
}
