# Ollama adapter of litellmjs, modelled in Dafny

This project models the Ollama provider of litellmjs (`src/providers/ollama.ts`),
which turns Ollama's `/api/generate` stream of newline-delimited JSON records into
the library's canonical results:

- `toStreamingChunk`: one canonical streaming chunk per Ollama record.
- `toResponse`: the canonical non-streaming result for a full text.
- `iterateResponse`: the read loop over the response body. Each read is decoded
  on its own. It is split on newlines not preceded by a backslash, each piece is
  trimmed, blank pieces are dropped, every line is `JSON.parse`d and then turned
  into a chunk.
- `completions`: the status check, then either the stream handed back as is
  (`stream: true`) or the stream consumed and its texts folded into one result.

Modules, one per file:

- `Wrappers`: `Option` and `Result`.
- `OllamaTypes`: the records, chunks, results, reads and errors.
- `Lines`: the JavaScript `split(/(?<!\\)\n/)`, `String.prototype.trim` (the
  exact ECMAScript WhiteSpace and LineTerminator set) and the blank-line filter.
- `OllamaDecoder`: `toStreamingChunk`, the parse-then-build pipeline of one
  fragment, the recursive read loop `Iterate`, and the imperative loop
  `IterateResponseLoop`, which is proved equal to it.
- `OllamaAdapter`: `toResponse`, the `reduce` and `completions`.
- `OllamaProperties`: theorems that relate several calls.
- `OllamaScenarios`: end-to-end scenarios, proved on concrete Ollama streams.

The model's inputs:

- The HTTP response is an input: its status and the sequence of reads its body
  reader returns, each read already decoded to text.
- `JSON.parse`, `toUsage`, `combinePrompts` and `getUnixTimestamp` are
  parameters (`Env`). The clock is indexed by how many timestamps were read
  before, so the `k`-th chunk built is stamped `clock(k)`. The non-streaming
  result is stamped with the read after the last chunk's.

Behaviour that the model follows as the code is written (each stated as a theorem):

- No partial line is carried from one read to the next. A record cut across two
  reads is parsed as two lines, and the stream fails on its first half
  (`RecordCutAcrossReadsFails`).
- The record's own `done` field is ignored. Only a read without a value (which
  includes the end of the body), a read flagged `done`, or a line that fails to
  parse ends the loop. A read whose value is present but empty does not
  (`OnlyResponseMatters`, `DoneReadEndsStream`, `EmptyReadEndsStream`,
  `IterateResponseIsBatchDecode`).
- Every non-blank line gives exactly one chunk (`ChunkCountIsNonBlankPieces`).
- A line that fails to parse also discards the chunks of the lines before it in
  the same read, because the whole read is parsed before any of its chunks is
  yielded. The stream ends with that line's error (`IterateResponseIsBatchDecode`).
- An empty stream, without streaming, gives the text `""` with usage
  `toUsage(prompt, "")`, not zero usage (`Completions`, `Aggregate`).

## Model

| member | source | states |
|---|---|---|
| Lines.SplitValid | src/providers/ollama.ts:78 | every piece of a split holds no newline that is a split point, and every piece but the last ends without a backslash, so each separator was a split point |
| Lines.JoinSplit | src/providers/ollama.ts:78 | joining the pieces of a split with "\n" gives back the original text: split loses nothing but the separators |
| Lines.SplitJoin | src/providers/ollama.ts:78 | split inverts join on every well-formed piece sequence, so the split result is the only well-formed one for its text |
| Lines.TrimIsSlice | src/providers/ollama.ts:80 | trim returns a slice of the line whose removed prefix and suffix are all whitespace and whose ends are not whitespace |
| Lines.TrimEmptyIffBlank | src/providers/ollama.ts:80-81 | a piece trims to "" exactly when all of its characters are whitespace, so the filter drops exactly the blank pieces |
| Lines.TrimIdempotent | src/providers/ollama.ts:80 | trimming a trimmed line changes nothing |
| Lines.DropEmptyContents | src/providers/ollama.ts:81 | the filter keeps every non-empty line as often as it occurs and keeps no empty line |
| Lines.DropEmptyAppend | src/providers/ollama.ts:81 | the filter keeps order: filtering a concatenation is concatenating the filtered halves |
| Lines.FragmentLinesCount | src/providers/ollama.ts:78-81 | a fragment yields one line per split piece that is not all whitespace |
| Lines.FragmentLinesTrimmed | src/providers/ollama.ts:78-82 | every line handed to the parser is non-empty and already trimmed |
| Lines.FragmentLinesOfJoin | src/providers/ollama.ts:78-81 | trimmed non-empty lines joined with split-point newlines come back out as exactly those lines |
| Lines.TerminatedLineFragment | src/providers/ollama.ts:78-81 | a clean record followed by its newline yields that record as the only line; the empty piece after the newline is dropped |
| OllamaDecoder.ParseAllSpec | src/providers/ollama.ts:82 | the parse map succeeds exactly when every line parses, and then keeps each record in its line's place; otherwise it reports the first line that throws |
| OllamaDecoder.BuildChunksSpec | src/providers/ollama.ts:27-44 | one chunk per record, in order: the requested model, the record's response as the assistant delta, stop at index 0, usage over prompt and response, and the next timestamp |
| OllamaDecoder.DecodeLines | src/providers/ollama.ts:82-83 | a batch decodes exactly when every line parses, giving one chunk per line carrying that line's response and the base+i-th timestamp; otherwise it fails with the first rejected line |
| OllamaDecoder.IterateWellFormed | src/providers/ollama.ts:83-85 | every chunk the loop yields has the toStreamingChunk shape for the requested model, and the loop ends only with a decode error |
| OllamaDecoder.IterateResponseLoop | src/providers/ollama.ts:65-90 | the while loop as written (read, decode, push, stop on a read without a value, the done flag or an error) yields exactly the chunks and error of the recursive read loop |
| OllamaAdapter.ReduceIsConcat | src/providers/ollama.ts:139-141 | the left fold with += from an accumulator gives the accumulator followed by the in-order concatenation of the chunk texts |
| OllamaAdapter.Aggregate | src/providers/ollama.ts:133-143 | the fold from '' followed by toResponse (src/providers/ollama.ts:46-62): the non-streaming result carries the concatenated chunk texts as its one assistant message, with stop at index 0 and usage over that whole text |
| OllamaAdapter.Completions | src/providers/ollama.ts:115-144 | fails with the status exactly when it is outside 200-299; with stream set hands back the decoded stream; otherwise succeeds exactly when decoding ends without error, fails with that error if not, and stamps the result with the timestamp after the last chunk's |
| OllamaProperties.DecodeLinesAppend | src/providers/ollama.ts:79-83 | decoding two batches of lines in one go is decoding the first and then the second, stopping at the first error |
| OllamaProperties.DecodeBatchConcatenates | src/providers/ollama.ts:79-83 | the parse-then-build pipeline decodes the empty batch to nothing and a joined batch as its halves one after the other |
| OllamaProperties.IterateIsBatchDecode | src/providers/ollama.ts:73-89 | for any splitter and any batch decoder obeying that law, the loop is the batch decode of all lines read: no error exactly when the batch decodes, with the same chunks; otherwise the batch's error, raised by some read k after exactly the chunks of the reads before k |
| OllamaProperties.IterateResponseIsBatchDecode | src/providers/ollama.ts:65-90 | iterateResponse ends without error exactly when every non-blank line of every read parses and then yields their chunks; otherwise it ends with the first rejected line's error after exactly the chunks of the reads before the failing one |
| OllamaProperties.EmptyReadEndsStream | src/providers/ollama.ts:75-88 | a read without a value ends the stream as the end of the body does: nothing after it is read |
| OllamaProperties.DoneReadEndsStream | src/providers/ollama.ts:77 | a read flagged done is decoded and then ends the stream: nothing after it is read |
| OllamaProperties.DecodeLinesResponseOnly | src/providers/ollama.ts:82-83 | two parsers that agree on which lines parse and on the response they read decode every batch to the same result |
| OllamaProperties.OnlyResponseMatters | src/providers/ollama.ts:82-83 | the stream depends only on which lines parse and their response field: a record's done, model and created_at play no part |
| OllamaProperties.RecordCutAcrossReadsFails | src/providers/ollama.ts:74-78 | a record that decodes to one chunk when delivered in one read fails with a decode error of its first half when cut across two reads |
| OllamaProperties.ContentsOfDecodeLines | src/providers/ollama.ts:139-141 | the texts of a decoded batch, concatenated in order, are the responses of its lines |
| OllamaProperties.NonStreamingIsConcatenatedResponses | src/providers/ollama.ts:133-143 | without streaming, on an ok status the call succeeds exactly when every non-blank line read parses, and its message and usage are those of the in-order concatenation of their responses |
| OllamaProperties.ChunkCountIsNonBlankPieces | src/providers/ollama.ts:79-85 | a stream without error yields exactly one chunk per non-blank piece of every read |
| OllamaScenarios.ScenarioA | src/providers/ollama.ts:133-143 | two records in one read, without streaming, give one choice whose text is "hi there" |
| OllamaScenarios.ScenarioB | src/providers/ollama.ts:129-131 | the same records streamed one read each give the chunks "hi" and " there" in order and no error |
| OllamaScenarios.ScenarioD | src/providers/ollama.ts:73-89 | a truncated record between two good ones ends the stream with its decode error after the first chunk, and fails the non-streaming call with it |

## Left out

- `getOllamaResponse` (src/providers/ollama.ts:92-107) and the default base URL (src/providers/ollama.ts:23-25) are left out because they are HTTP I/O. The model takes the response the request returned as input.
- Completions: a rejected `fetch` (src/providers/ollama.ts:121) or a rejected `reader.read()` (src/providers/ollama.ts:74) is a transport failure, and `Error` has no variant for it. Only non-ok statuses and parse failures are modelled.
- Completions: the error message text of a non-ok status is not modelled. Only the status is kept.
- DecodeLines: the unchecked cast `JSON.parse(line) as OllamaResponseChunk` (src/providers/ollama.ts:82) is not modelled. `parse` either rejects a line or returns a record with a string `response`. A line such as `null` parses in JavaScript and then makes `toStreamingChunk` throw a TypeError when it reads `.response`. A record without `response` gives the content `undefined`, and the fold appends the text "undefined". The model represents neither case.
- IterateResponse: each read is taken as already-decoded text. The per-read `new TextDecoder()` (src/providers/ollama.ts:76) is not modelled. In the program it turns a multi-byte UTF-8 sequence cut across two reads into U+FFFD and drops a leading byte order mark on every read. Strings are sequences of characters, not UTF-16 code units.
- IterateResponse: the async generator's laziness is not modelled. A consumer of the stream sees the chunks of earlier reads before the error is thrown, and the stream can be consumed only once. The model gives the finished sequence of chunks with the error that ended it.
- `getUnixTimestamp`, `toUsage` and `combinePrompts` are parameters. Their code is not part of this model.
- The JSON grammar is a parameter (`Env.parse`).
- `src/index.ts` (the provider lookup) is not part of this model.
