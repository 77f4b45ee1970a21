/**
 * Properties that relate several calls of the decoder and the adapter:
 * the read loop is the batch decode of every fragment's own lines, reads
 * after the end are ignored, only the `response` field of a record matters,
 * a record cut across two reads is parsed as two lines, and the
 * non-streaming text is the concatenation of every record's response.
 */
module OllamaProperties {
  import opened Wrappers
  import opened OllamaTypes
  import opened Lines
  import opened OllamaDecoder
  import opened OllamaAdapter

  /** The texts the read loop decodes: every value up to the first read without one, or up to a read flagged done. */
  function Fragments(rs: seq<ReadResult>): seq<string>
    decreases |rs|
  {
    if |rs| == 0 then []
    else
      match rs[0].value
      case None => []
      case Some(text) => [text] + (if rs[0].done then [] else Fragments(rs[1..]))
  }

  /** Every fragment's own lines, fragment after fragment. */
  function LinesOf(frags: seq<string>, split: LineSplitter): seq<string> {
    if |frags| == 0 then [] else split(frags[0]) + LinesOf(frags[1..], split)
  }

  lemma FirstRejectedUnique(lines: seq<string>, parse: string -> Option<OllamaRecord>, k1: nat, k2: nat)
    requires FirstRejected(lines, parse, k1) && FirstRejected(lines, parse, k2)
    ensures k1 == k2
  {
  }

  lemma ChunkCarriesUnique(c1: StreamingChunk, c2: StreamingChunk, response: string, model: string, prompt: string, env: Env, created: int)
    requires ChunkCarries(c1, response, model, prompt, env, created)
    requires ChunkCarries(c2, response, model, prompt, env, created)
    ensures c1 == c2
  {
    assert c1.choices[0] == c2.choices[0];
    assert c1.choices == c2.choices;
  }

  lemma DecodeLinesAppendFailFirst(a: seq<string>, b: seq<string>, env: Env, model: string, prompt: string, base: nat)
    requires DecodeLines(a, env, model, prompt, base).Failure?
    ensures DecodeLines(a + b, env, model, prompt, base) == DecodeLines(a, env, model, prompt, base)
  {
    var ra := DecodeLines(a, env, model, prompt, base);
    var r := DecodeLines(a + b, env, model, prompt, base);
    var k: nat :| FirstRejected(a, env.parse, k) && ra.error == DecodeError(a[k]);
    assert (a + b)[k] == a[k];
    assert FirstRejected(a + b, env.parse, k) by {
      forall j | 0 <= j < k ensures env.parse((a + b)[j]).Some? {
        assert (a + b)[j] == a[j];
      }
    }
    var k': nat :| FirstRejected(a + b, env.parse, k') && r.error == DecodeError((a + b)[k']);
    FirstRejectedUnique(a + b, env.parse, k, k');
  }

  lemma DecodeLinesAppendFailSecond(a: seq<string>, b: seq<string>, env: Env, model: string, prompt: string, base: nat)
    requires DecodeLines(a, env, model, prompt, base).Success?
    requires DecodeLines(b, env, model, prompt, base + |a|).Failure?
    ensures DecodeLines(a + b, env, model, prompt, base) == DecodeLines(b, env, model, prompt, base + |a|)
  {
    var rb := DecodeLines(b, env, model, prompt, base + |a|);
    var r := DecodeLines(a + b, env, model, prompt, base);
    var k: nat :| FirstRejected(b, env.parse, k) && rb.error == DecodeError(b[k]);
    assert (a + b)[|a| + k] == b[k];
    assert FirstRejected(a + b, env.parse, |a| + k) by {
      forall j | 0 <= j < |a| + k ensures env.parse((a + b)[j]).Some? {
        if j < |a| {
          assert (a + b)[j] == a[j];
        } else {
          assert (a + b)[j] == b[j - |a|];
        }
      }
    }
    var k': nat :| FirstRejected(a + b, env.parse, k') && r.error == DecodeError((a + b)[k']);
    FirstRejectedUnique(a + b, env.parse, |a| + k, k');
  }

  /** Every line of `a + b` parses when every line of `a` and of `b` does. */
  lemma AllParseAppend(a: seq<string>, b: seq<string>, parse: string -> Option<OllamaRecord>)
    requires forall i :: 0 <= i < |a| ==> parse(a[i]).Some?
    requires forall i :: 0 <= i < |b| ==> parse(b[i]).Some?
    ensures forall i :: 0 <= i < |a + b| ==> parse((a + b)[i]).Some?
  {
    forall i | 0 <= i < |a + b| ensures parse((a + b)[i]).Some? {
      if i < |a| {
        assert (a + b)[i] == a[i];
      } else {
        assert (a + b)[i] == b[i - |a|];
      }
    }
  }

  /** A chunk of the joint decode that comes from a line of `a` is the chunk `a` alone gives for it. */
  lemma AppendChunkLeft(a: seq<string>, b: seq<string>, env: Env, model: string, prompt: string, base: nat, i: nat)
    requires DecodeLines(a, env, model, prompt, base).Success?
    requires DecodeLines(a + b, env, model, prompt, base).Success?
    requires i < |a|
    ensures DecodeLines(a + b, env, model, prompt, base).value[i] == DecodeLines(a, env, model, prompt, base).value[i]
  {
    var c := DecodeLines(a + b, env, model, prompt, base).value[i];
    var ca := DecodeLines(a, env, model, prompt, base).value[i];
    assert (a + b)[i] == a[i];
    ChunkCarriesUnique(c, ca, env.parse(a[i]).value.response, model, prompt, env, env.clock(base + i));
  }

  /** A chunk of the joint decode that comes from a line of `b` is the chunk `b` alone gives for it. */
  lemma AppendChunkRight(a: seq<string>, b: seq<string>, env: Env, model: string, prompt: string, base: nat, j: nat)
    requires DecodeLines(b, env, model, prompt, base + |a|).Success?
    requires DecodeLines(a + b, env, model, prompt, base).Success?
    requires j < |b|
    ensures DecodeLines(a + b, env, model, prompt, base).value[|a| + j] == DecodeLines(b, env, model, prompt, base + |a|).value[j]
  {
    var c := DecodeLines(a + b, env, model, prompt, base).value[|a| + j];
    var cb := DecodeLines(b, env, model, prompt, base + |a|).value[j];
    assert (a + b)[|a| + j] == b[j];
    assert base + |a| + j == base + (|a| + j);
    ChunkCarriesUnique(c, cb, env.parse(b[j]).value.response, model, prompt, env, env.clock(base + |a| + j));
  }

  lemma DecodeLinesAppendSuccess(a: seq<string>, b: seq<string>, env: Env, model: string, prompt: string, base: nat)
    requires DecodeLines(a, env, model, prompt, base).Success?
    requires DecodeLines(b, env, model, prompt, base + |a|).Success?
    ensures DecodeLines(a + b, env, model, prompt, base) ==
            Success(DecodeLines(a, env, model, prompt, base).value + DecodeLines(b, env, model, prompt, base + |a|).value)
  {
    var ca := DecodeLines(a, env, model, prompt, base).value;
    var cb := DecodeLines(b, env, model, prompt, base + |a|).value;
    AllParseAppend(a, b, env.parse);
    var r := DecodeLines(a + b, env, model, prompt, base);
    assert r.Success?;
    forall i | 0 <= i < |a| + |b| ensures r.value[i] == (ca + cb)[i] {
      if i < |a| {
        AppendChunkLeft(a, b, env, model, prompt, base, i);
      } else {
        AppendChunkRight(a, b, env, model, prompt, base, i - |a|);
      }
    }
    assert r.value == ca + cb;
  }

  /** Decoding two batches of lines in one go is decoding the first and then the second, stopping at the first error. */
  lemma DecodeLinesAppend(a: seq<string>, b: seq<string>, env: Env, model: string, prompt: string, base: nat)
    ensures DecodeLines(a + b, env, model, prompt, base) ==
              match DecodeLines(a, env, model, prompt, base)
              case Failure(e) => Failure(e)
              case Success(ca) =>
                match DecodeLines(b, env, model, prompt, base + |a|)
                case Failure(e) => Failure(e)
                case Success(cb) => Success(ca + cb)
  {
    if DecodeLines(a, env, model, prompt, base).Failure? {
      DecodeLinesAppendFailFirst(a, b, env, model, prompt, base);
    } else if DecodeLines(b, env, model, prompt, base + |a|).Failure? {
      DecodeLinesAppendFailSecond(a, b, env, model, prompt, base);
    } else {
      DecodeLinesAppendSuccess(a, b, env, model, prompt, base);
    }
  }

  /** The result of decoding batch `a` and then, if it succeeded, batch `b` after it, stopping at the first error. */
  function Sequenced(batch: BatchDecoder, a: seq<string>, b: seq<string>, base: nat): Result<seq<StreamingChunk>, Error> {
    match batch(a, base)
    case Failure(e) => Failure(e)
    case Success(ca) =>
      match batch(b, base + |ca|)
      case Failure(e) => Failure(e)
      case Success(cb) => Success(ca + cb)
  }

  /**
   * Batch `a` followed by batch `b`. Named so that the `Concatenates`
   * quantifier fires only on this term, not on every `+` of sequences.
   */
  function Concat(a: seq<string>, b: seq<string>): seq<string> {
    a + b
  }

  /**
   * The law a batch decoder must obey for the read loop to be a batch
   * decode: the empty batch yields nothing, and a joined batch decodes as
   * its first half followed by its second.
   */
  ghost predicate Concatenates(batch: BatchDecoder) {
    && (forall base: nat :: batch([], base) == Success([]))
    && (forall a, b, base: nat :: batch(Concat(a, b), base) == Sequenced(batch, a, b, base))
  }

  /** The parse-then-build pipeline obeys the law. */
  lemma DecodeBatchConcatenates(env: Env, model: string, prompt: string)
    ensures Concatenates(DecodeBatch(env, model, prompt))
  {
    var batch := DecodeBatch(env, model, prompt);
    forall base: nat ensures batch([], base) == Success([]) {
      var r := DecodeLines([], env, model, prompt, base);
      assert r.Success? && |r.value| == 0;
    }
    forall a, b, base: nat ensures batch(Concat(a, b), base) == Sequenced(batch, a, b, base) {
      DecodeLinesAppend(a, b, env, model, prompt, base);
    }
  }

  /** The lines of the fragments of `rs`: those of its first read's text, then those of the reads after it. */
  lemma LinesOfFirst(rs: seq<ReadResult>, split: LineSplitter)
    requires |rs| > 0 && rs[0].value.Some?
    ensures LinesOf(Fragments(rs), split) ==
            split(rs[0].value.value) + LinesOf(if rs[0].done then [] else Fragments(rs[1..]), split)
  {
    var text := rs[0].value.value;
    var more := if rs[0].done then [] else Fragments(rs[1..]);
    assert Fragments(rs) == [text] + more;
    assert ([text] + more)[1..] == more;
  }

  /** The batch decode of all the lines read is that of the first fragment's lines followed by the rest's. */
  lemma BatchStep(rs: seq<ReadResult>, split: LineSplitter, batch: BatchDecoder, base: nat)
    requires Concatenates(batch)
    requires |rs| > 0 && rs[0].value.Some?
    ensures var more := if rs[0].done then [] else Fragments(rs[1..]);
            batch(LinesOf(Fragments(rs), split), base) == Sequenced(batch, split(rs[0].value.value), LinesOf(more, split), base)
  {
    var text := rs[0].value.value;
    LinesOfFirst(rs, split);
    var more := if rs[0].done then [] else Fragments(rs[1..]);
    assert batch(Concat(split(text), LinesOf(more, split)), base) == Sequenced(batch, split(text), LinesOf(more, split), base);
  }

  /** One read of the loop, in terms of the batch decode of that read's lines. */
  lemma LoopStep(rs: seq<ReadResult>, split: LineSplitter, batch: BatchDecoder, base: nat)
    requires |rs| > 0 && rs[0].value.Some?
    ensures var f := batch(split(rs[0].value.value), base);
            var rest := Iterate(rs[1..], LinesDecoder(split, batch), base + if f.Success? then |f.value| else 0);
            Iterate(rs, LinesDecoder(split, batch), base) ==
              if f.Failure? then Decoded([], Some(f.error))
              else if rs[0].done then Decoded(f.value, None)
              else Decoded(f.value + rest.chunks, rest.error)
  {
    var decode := LinesDecoder(split, batch);
    assert decode(rs[0].value.value, base) == batch(split(rs[0].value.value), base);
    IterateStep(rs, decode, base);
  }

  lemma {:induction false} BatchWithoutError(rs: seq<ReadResult>, split: LineSplitter, batch: BatchDecoder, base: nat)
    requires Concatenates(batch)
    requires Iterate(rs, LinesDecoder(split, batch), base).error.None?
    ensures batch(LinesOf(Fragments(rs), split), base) == Success(Iterate(rs, LinesDecoder(split, batch), base).chunks)
    decreases |rs|
  {
    if |rs| == 0 || rs[0].value.None? {
      assert Fragments(rs) == [];
    } else {
      BatchStep(rs, split, batch, base);
      LoopStep(rs, split, batch, base);
      var f := batch(split(rs[0].value.value), base);
      if rs[0].done {
        assert f.value + [] == f.value;
      } else {
        BatchWithoutError(rs[1..], split, batch, base + |f.value|);
      }
    }
  }

  lemma {:induction false} BatchFails(rs: seq<ReadResult>, split: LineSplitter, batch: BatchDecoder, base: nat)
    requires Concatenates(batch)
    requires Iterate(rs, LinesDecoder(split, batch), base).error.Some?
    ensures batch(LinesOf(Fragments(rs), split), base) == Failure(Iterate(rs, LinesDecoder(split, batch), base).error.value)
    decreases |rs|
  {
    LoopStep(rs, split, batch, base);
    BatchStep(rs, split, batch, base);
    var f := batch(split(rs[0].value.value), base);
    if f.Success? {
      BatchFails(rs[1..], split, batch, base + |f.value|);
    }
  }

  /** Fragment `k` is the one that failed after the fragments before it yielded `chunks`. */
  ghost predicate FailsAt(frags: seq<string>, k: nat, split: LineSplitter, batch: BatchDecoder, base: nat,
                          chunks: seq<StreamingChunk>, error: Error)
  {
    && k < |frags|
    && batch(LinesOf(frags[..k], split), base) == Success(chunks)
    && batch(split(frags[k]), base + |chunks|) == Failure(error)
  }

  /** A fragment that decodes in front of the failing one shifts the failure by one fragment and prefixes its chunks. */
  lemma FailsAtCons(text: string, more: seq<string>, k: nat, split: LineSplitter, batch: BatchDecoder, base: nat,
                    cs: seq<StreamingChunk>, chunks: seq<StreamingChunk>, error: Error)
    requires Concatenates(batch)
    requires batch(split(text), base) == Success(cs)
    requires FailsAt(more, k, split, batch, base + |cs|, chunks, error)
    ensures FailsAt([text] + more, k + 1, split, batch, base, cs + chunks, error)
  {
    var frags := [text] + more;
    assert frags[..k + 1] == [text] + more[..k];
    assert ([text] + more[..k])[1..] == more[..k];
    var rest := LinesOf(more[..k], split);
    assert LinesOf(frags[..k + 1], split) == split(text) + rest;
    assert batch(Concat(split(text), rest), base) == Sequenced(batch, split(text), rest, base);
    assert frags[k + 1] == more[k];
  }

  /** The loop fails on its first read exactly as that read's own batch does. */
  lemma FailsAtFirst(rs: seq<ReadResult>, split: LineSplitter, batch: BatchDecoder, base: nat)
    requires Concatenates(batch)
    requires |rs| > 0 && rs[0].value.Some? && batch(split(rs[0].value.value), base).Failure?
    ensures var d := Iterate(rs, LinesDecoder(split, batch), base);
            d.error.Some? && FailsAt(Fragments(rs), 0, split, batch, base, d.chunks, d.error.value)
  {
    var text := rs[0].value.value;
    LoopStep(rs, split, batch, base);
    var more := if rs[0].done then [] else Fragments(rs[1..]);
    var frags := [text] + more;
    assert Fragments(rs) == frags;
    assert frags[..0] == [] && frags[0] == text;
  }

  /** A first read that decodes moves the failing fragment of the rest one place on. */
  lemma FailsAtLater(rs: seq<ReadResult>, split: LineSplitter, batch: BatchDecoder, base: nat, k: nat)
    requires Concatenates(batch)
    requires |rs| > 0 && rs[0].value.Some? && !rs[0].done
    requires batch(split(rs[0].value.value), base).Success?
    requires var base' := base + |batch(split(rs[0].value.value), base).value|;
             var rest := Iterate(rs[1..], LinesDecoder(split, batch), base');
             rest.error.Some? && FailsAt(Fragments(rs[1..]), k, split, batch, base', rest.chunks, rest.error.value)
    ensures var d := Iterate(rs, LinesDecoder(split, batch), base);
            d.error.Some? && FailsAt(Fragments(rs), k + 1, split, batch, base, d.chunks, d.error.value)
  {
    var text := rs[0].value.value;
    var f := batch(split(text), base);
    var base' := base + |f.value|;
    var rest := Iterate(rs[1..], LinesDecoder(split, batch), base');
    LoopStep(rs, split, batch, base);
    assert Fragments(rs) == [text] + Fragments(rs[1..]);
    FailsAtCons(text, Fragments(rs[1..]), k, split, batch, base, f.value, rest.chunks, rest.error.value);
  }

  lemma {:induction false} FailingFragment(rs: seq<ReadResult>, split: LineSplitter, batch: BatchDecoder, base: nat)
    returns (k: nat)
    requires Concatenates(batch)
    requires Iterate(rs, LinesDecoder(split, batch), base).error.Some?
    ensures var d := Iterate(rs, LinesDecoder(split, batch), base);
            FailsAt(Fragments(rs), k, split, batch, base, d.chunks, d.error.value)
    decreases |rs|
  {
    LoopStep(rs, split, batch, base);
    var f := batch(split(rs[0].value.value), base);
    if f.Failure? {
      FailsAtFirst(rs, split, batch, base);
      k := 0;
    } else {
      var k' := FailingFragment(rs[1..], split, batch, base + |f.value|);
      FailsAtLater(rs, split, batch, base, k');
      k := k' + 1;
    }
  }

  /**
   * The read loop is the batch decode of the lines of every fragment it
   * reads, each fragment cut on its own, for any batch decoder that obeys
   * the law: it ends without error exactly when that batch decodes, and
   * then yields exactly the chunks of that batch; otherwise it ends with
   * the error of that batch, raised by some fragment k after the chunks of
   * the fragments before it, and none of its own, were yielded.
   */
  lemma IterateIsBatchDecode(rs: seq<ReadResult>, split: LineSplitter, batch: BatchDecoder, base: nat)
    requires Concatenates(batch)
    ensures var d := Iterate(rs, LinesDecoder(split, batch), base);
            var frags := Fragments(rs);
            && (d.error.None? <==> batch(LinesOf(frags, split), base).Success?)
            && (d.error.None? ==> batch(LinesOf(frags, split), base) == Success(d.chunks))
            && (d.error.Some? ==> batch(LinesOf(frags, split), base) == Failure(d.error.value))
            && (d.error.Some? ==>
                  exists k :: 0 <= k < |frags|
                    && batch(LinesOf(frags[..k], split), base) == Success(d.chunks)
                    && batch(split(frags[k]), base + |d.chunks|) == Failure(d.error.value))
  {
    if Iterate(rs, LinesDecoder(split, batch), base).error.None? {
      BatchWithoutError(rs, split, batch, base);
    } else {
      BatchFails(rs, split, batch, base);
      var k := FailingFragment(rs, split, batch, base);
    }
  }

  /**
   * `iterateResponse` is the batch decode of the trimmed, non-blank lines of
   * every fragment read, each fragment split on its own.
   */
  lemma IterateResponseIsBatchDecode(rs: seq<ReadResult>, env: Env, model: string, prompt: string)
    ensures var d := IterateResponse(rs, env, model, prompt);
            var frags := Fragments(rs);
            && (d.error.None? <==> DecodeLines(LinesOf(frags, FragmentLines), env, model, prompt, 0).Success?)
            && (d.error.None? ==> DecodeLines(LinesOf(frags, FragmentLines), env, model, prompt, 0) == Success(d.chunks))
            && (d.error.Some? ==> DecodeLines(LinesOf(frags, FragmentLines), env, model, prompt, 0) == Failure(d.error.value))
            && (d.error.Some? ==>
                  exists k :: 0 <= k < |frags|
                    && DecodeLines(LinesOf(frags[..k], FragmentLines), env, model, prompt, 0) == Success(d.chunks)
                    && DecodeLines(FragmentLines(frags[k]), env, model, prompt, |d.chunks|) == Failure(d.error.value))
  {
    var batch := DecodeBatch(env, model, prompt);
    DecodeBatchConcatenates(env, model, prompt);
    var d := Iterate(rs, LinesDecoder(FragmentLines, batch), 0);
    var frags := Fragments(rs);
    assert batch(LinesOf(frags, FragmentLines), 0) == DecodeLines(LinesOf(frags, FragmentLines), env, model, prompt, 0);
    if d.error.None? {
      BatchWithoutError(rs, FragmentLines, batch, 0);
    } else {
      BatchFails(rs, FragmentLines, batch, 0);
      var k := FailingFragment(rs, FragmentLines, batch, 0);
      assert batch(LinesOf(frags[..k], FragmentLines), 0) == DecodeLines(LinesOf(frags[..k], FragmentLines), env, model, prompt, 0);
      assert batch(FragmentLines(frags[k]), |d.chunks|) == DecodeLines(FragmentLines(frags[k]), env, model, prompt, |d.chunks|);
    }
  }

  /** A read without a value ends decoding just as the end of the stream does: nothing after it is looked at. */
  lemma {:induction false} EmptyReadEndsStream(pre: seq<ReadResult>, done: bool, more: seq<ReadResult>, decode: FragmentDecoder, base: nat)
    ensures Iterate(pre + [ReadResult(done, None)] + more, decode, base) == Iterate(pre, decode, base)
    decreases |pre|
  {
    var rs := pre + [ReadResult(done, None)] + more;
    if |pre| == 0 {
      assert rs[0] == ReadResult(done, None);
    } else {
      assert rs[0] == pre[0];
      assert rs[1..] == pre[1..] + [ReadResult(done, None)] + more;
      if pre[0].value.Some? {
        var f := decode(pre[0].value.value, base);
        if f.Success? && !pre[0].done {
          EmptyReadEndsStream(pre[1..], done, more, decode, base + |f.value|);
        }
      }
    }
  }

  /** A read flagged done ends decoding after its own value: nothing after it is looked at. */
  lemma {:induction false} DoneReadEndsStream(pre: seq<ReadResult>, text: string, more: seq<ReadResult>, decode: FragmentDecoder, base: nat)
    ensures Iterate(pre + [ReadResult(true, Some(text))] + more, decode, base) ==
            Iterate(pre + [ReadResult(true, Some(text))], decode, base)
    decreases |pre|
  {
    var last := ReadResult(true, Some(text));
    if |pre| == 0 {
      assert (pre + [last] + more)[0] == last;
      assert (pre + [last])[0] == last;
    } else {
      assert (pre + [last] + more)[0] == pre[0] && (pre + [last])[0] == pre[0];
      assert (pre + [last] + more)[1..] == pre[1..] + [last] + more;
      assert (pre + [last])[1..] == pre[1..] + [last];
      if pre[0].value.Some? {
        var f := decode(pre[0].value.value, base);
        if f.Success? && !pre[0].done {
          DoneReadEndsStream(pre[1..], text, more, decode, base + |f.value|);
        }
      }
    }
  }

  /** The parsers agree on which lines parse and on the `response` of what they parse. */
  ghost predicate SameResponses(p1: string -> Option<OllamaRecord>, p2: string -> Option<OllamaRecord>) {
    forall x :: (p1(x).Some? <==> p2(x).Some?) && (p1(x).Some? ==> p1(x).value.response == p2(x).value.response)
  }

  lemma DecodeLinesResponseOnly(lines: seq<string>, env: Env, env2: Env, model: string, prompt: string, base: nat)
    requires SameResponses(env.parse, env2.parse)
    requires env2 == env.(parse := env2.parse)
    ensures DecodeLines(lines, env, model, prompt, base) == DecodeLines(lines, env2, model, prompt, base)
  {
    var r1 := DecodeLines(lines, env, model, prompt, base);
    var r2 := DecodeLines(lines, env2, model, prompt, base);
    if r1.Success? {
      assert r2.Success?;
      forall i | 0 <= i < |lines| ensures r1.value[i] == r2.value[i] {
        var response := env.parse(lines[i]).value.response;
        assert env2.parse(lines[i]).value.response == response;
        ChunkCarriesUnique(r1.value[i], r2.value[i], response, model, prompt, env, env.clock(base + i));
      }
      assert r1.value == r2.value;
    } else {
      var k1: nat :| FirstRejected(lines, env.parse, k1) && r1.error == DecodeError(lines[k1]);
      var k2: nat :| FirstRejected(lines, env2.parse, k2) && r2.error == DecodeError(lines[k2]);
      assert FirstRejected(lines, env.parse, k2);
      FirstRejectedUnique(lines, env.parse, k1, k2);
    }
  }

  lemma {:induction false} IterateSameDecoder(rs: seq<ReadResult>, d1: FragmentDecoder, d2: FragmentDecoder, base: nat)
    requires forall text, b :: d1(text, b) == d2(text, b)
    ensures Iterate(rs, d1, base) == Iterate(rs, d2, base)
    decreases |rs|
  {
    if |rs| > 0 && rs[0].value.Some? {
      var f := d1(rs[0].value.value, base);
      if f.Success? && !rs[0].done {
        IterateSameDecoder(rs[1..], d1, d2, base + |f.value|);
      }
    }
  }

  lemma LinesDecoderResponseOnly(rs: seq<ReadResult>, split: LineSplitter, env: Env, env2: Env, model: string, prompt: string)
    requires SameResponses(env.parse, env2.parse)
    requires env2 == env.(parse := env2.parse)
    ensures Iterate(rs, LinesDecoder(split, DecodeBatch(env, model, prompt)), 0)
            == Iterate(rs, LinesDecoder(split, DecodeBatch(env2, model, prompt)), 0)
  {
    var d1 := LinesDecoder(split, DecodeBatch(env, model, prompt));
    var d2 := LinesDecoder(split, DecodeBatch(env2, model, prompt));
    forall text, b: nat ensures d1(text, b) == d2(text, b) {
      DecodeLinesResponseOnly(split(text), env, env2, model, prompt, b);
    }
    IterateSameDecoder(rs, d1, d2, 0);
  }

  /**
   * Only whether a line parses and the `response` of what it parses decide
   * the stream: the record's `done`, `model` and `created_at` fields play no
   * part, in particular not in when decoding stops.
   */
  lemma OnlyResponseMatters(rs: seq<ReadResult>, env: Env, p2: string -> Option<OllamaRecord>, model: string, prompt: string)
    requires SameResponses(env.parse, p2)
    ensures IterateResponse(rs, env, model, prompt) == IterateResponse(rs, env.(parse := p2), model, prompt)
  {
    LinesDecoderResponseOnly(rs, FragmentLines, env, env.(parse := p2), model, prompt);
  }

  lemma CutRecordDecodes(head: string, tail: string, split: LineSplitter, env: Env, model: string, prompt: string)
    requires split(head + tail) == [head + tail] && split(head) == [head]
    requires env.parse(head + tail).Some? && env.parse(head).None?
    ensures var whole := Iterate([ReadResult(false, Some(head + tail))], LinesDecoder(split, DecodeBatch(env, model, prompt)), 0);
            && whole.error.None? && |whole.chunks| == 1
            && ChunkCarries(whole.chunks[0], env.parse(head + tail).value.response, model, prompt, env, env.clock(0))
    ensures Iterate([ReadResult(false, Some(head)), ReadResult(false, Some(tail))], LinesDecoder(split, DecodeBatch(env, model, prompt)), 0)
            == Decoded([], Some(DecodeError(head)))
  {
    var decode := LinesDecoder(split, DecodeBatch(env, model, prompt));
    assert decode(head + tail, 0) == DecodeLines([head + tail], env, model, prompt, 0);
    assert decode(head, 0) == DecodeLines([head], env, model, prompt, 0);
    var one := [ReadResult(false, Some(head + tail))];
    assert one[1..] == [];
    var e := DecodeLines([head], env, model, prompt, 0);
    var k: nat :| FirstRejected([head], env.parse, k) && e.error == DecodeError([head][k]);
  }

  /**
   * No partial line is carried from one read to the next: a record cut
   * across two reads is handed to the parser as two separate lines, so the
   * stream fails on its first half where the same text delivered in one
   * read decodes to one chunk.
   */
  lemma RecordCutAcrossReadsFails(head: string, tail: string, env: Env, model: string, prompt: string)
    requires CleanLine(head) && CleanLine(tail)
    requires env.parse(head + tail).Some? && env.parse(head).None?
    ensures var whole := IterateResponse([ReadResult(false, Some(head + tail))], env, model, prompt);
            && whole.error.None? && |whole.chunks| == 1
            && ChunkCarries(whole.chunks[0], env.parse(head + tail).value.response, model, prompt, env, env.clock(0))
    ensures IterateResponse([ReadResult(false, Some(head)), ReadResult(false, Some(tail))], env, model, prompt)
            == Decoded([], Some(DecodeError(head)))
  {
    var whole := head + tail;
    assert whole[0] == head[0] && whole[|whole| - 1] == tail[|tail| - 1];
    assert CleanLine(whole);
    CleanLinesFragment([whole]);
    CleanLinesFragment([head]);
    CutRecordDecodes(head, tail, FragmentLines, env, model, prompt);
  }

  /** The in-order concatenation of the responses of a batch of lines that all parse. */
  function Responses(lines: seq<string>, parse: string -> Option<OllamaRecord>): string
    requires forall i :: 0 <= i < |lines| ==> parse(lines[i]).Some?
  {
    if |lines| == 0 then "" else parse(lines[0]).value.response + Responses(lines[1..], parse)
  }

  /** A successful batch is the chunk of its first line followed by the batch of the rest. */
  lemma DecodeLinesCons(lines: seq<string>, env: Env, model: string, prompt: string, base: nat)
    requires |lines| > 0 && DecodeLines(lines, env, model, prompt, base).Success?
    ensures var cs := DecodeLines(lines, env, model, prompt, base).value;
            && DecodeLines(lines[1..], env, model, prompt, base + 1) == Success(cs[1..])
            && ChunkCarries(cs[0], env.parse(lines[0]).value.response, model, prompt, env, env.clock(base))
  {
    assert lines == [lines[0]] + lines[1..];
    DecodeLinesAppend([lines[0]], lines[1..], env, model, prompt, base);
  }

  /** The texts of a decoded batch are the responses of its lines, in order. */
  lemma {:induction false} ContentsOfDecodeLines(lines: seq<string>, env: Env, model: string, prompt: string, base: nat)
    requires DecodeLines(lines, env, model, prompt, base).Success?
    ensures AllHaveChoice(DecodeLines(lines, env, model, prompt, base).value)
    ensures Contents(DecodeLines(lines, env, model, prompt, base).value) == Responses(lines, env.parse)
    decreases |lines|
  {
    var cs := DecodeLines(lines, env, model, prompt, base).value;
    if |lines| > 0 {
      DecodeLinesCons(lines, env, model, prompt, base);
      ContentsOfDecodeLines(lines[1..], env, model, prompt, base + 1);
      ContentsCons(cs);
    }
  }

  /**
   * End to end, without streaming: on an ok status the call succeeds exactly
   * when every non-blank line of every fragment read parses, and then the
   * message is the in-order concatenation of those lines' responses, with
   * usage computed once over that whole text.
   */
  lemma NonStreamingIsConcatenatedResponses(params: HandlerParams, env: Env, res: HttpResponse)
    requires IsOk(res.status) && !params.stream
    ensures var lines := LinesOf(Fragments(BodyReads(res.body)), FragmentLines);
            var r := Completions(params, env, res);
            && (r.Success? <==> forall i :: 0 <= i < |lines| ==> env.parse(lines[i]).Some?)
            && (r.Success? ==>
                  && r.value.NotStreaming?
                  && |r.value.result.choices| == 1
                  && r.value.result.choices[0].message.content == Responses(lines, env.parse)
                  && r.value.result.usage == env.toUsage(env.combinePrompts(params.messages), Responses(lines, env.parse)))
  {
    var prompt := env.combinePrompts(params.messages);
    var rs := BodyReads(res.body);
    IterateResponseIsBatchDecode(rs, env, params.model, prompt);
    var lines := LinesOf(Fragments(rs), FragmentLines);
    if DecodeLines(lines, env, params.model, prompt, 0).Success? {
      ContentsOfDecodeLines(lines, env, params.model, prompt, 0);
    }
  }

  /** The sum, over fragments, of the pieces that are not all whitespace. */
  function NonBlankPieces(frags: seq<string>): nat {
    if |frags| == 0 then 0 else CountNonBlank(Split(frags[0])) + NonBlankPieces(frags[1..])
  }

  lemma {:induction false} LinesOfCount(frags: seq<string>)
    ensures |LinesOf(frags, FragmentLines)| == NonBlankPieces(frags)
    decreases |frags|
  {
    if |frags| > 0 {
      FragmentLinesCount(frags[0]);
      LinesOfCount(frags[1..]);
    }
  }

  /** A stream that ends without error yields exactly one chunk per non-blank piece of every fragment read. */
  lemma ChunkCountIsNonBlankPieces(rs: seq<ReadResult>, env: Env, model: string, prompt: string)
    ensures var d := IterateResponse(rs, env, model, prompt);
            d.error.None? ==> |d.chunks| == NonBlankPieces(Fragments(rs))
  {
    IterateResponseIsBatchDecode(rs, env, model, prompt);
    LinesOfCount(Fragments(rs));
  }
}
