# Streaming decoder of the openai-rust client, in Dafny

This project models the one piece of the openai-rust client library with
state of its own: the decoder behind `OpenAIClient::chat_stream`. The HTTP
response body of a streaming chat completion arrives as a sequence of
chunks. A background task takes each successful chunk in arrival order and
splits it on `'\n'`. It keeps the lines that are non-empty and contain `'{'`.
From each kept line it takes the text from the first `'{'` to the end of the
line and trims it. It hands that text to the JSON deserialiser and sends every
event that parses on an unbounded channel, in line order. A failed parse, a
failed send (the receiver was dropped) and an error item of the body stream
are each written to standard error and skipped. No buffer survives from one
chunk to the next.

Modules:

- `Wrappers` (`wrappers.dfy`): `Option`, and two sequence facts the proofs use (`Seqs`).
- `Text` (`text.dfy`): `str::split`, `str::find`, `str::trim` with Rust's Unicode
  whitespace set, and `Join`, the inverse of `Split`.
- `Decoding` (`decoding.dfy`): the specification as functions. It covers the
  line filter, the candidate of a line, the events and diagnostics of a chunk,
  and the same lifted to a whole body. It also holds the lemmas about them.
- `Channel` (`channel.dfy`): the sending half of the channel, a class whose
  `queue` holds every value the channel accepted and whose `receiverAlive`
  says whether the receiver still exists.
- `Client` (`client.dfy`): the spawned task as a class. It holds the parser, the
  sender and the standard-error `log`. `ProcessChunk` is `process_chunk`, and
  `Run` is the `while let Some(chunk)` loop. Each is an imperative loop proved
  equal to the `Decoding` functions.

The JSON deserialiser is a parameter, `parse: string -> Option<E>`. The event
type `E` is left open, because `StreamResponse` is not declared in the
repository's `types.rs`. Chunks are already-decoded strings. Standard error is
the `log` field, a sequence of `Diagnostic` values.

Choices the source leaves open, as modelled:

- A JSON object split across two chunks is lost, not reassembled.
  `SplitObjectIsLost` shows this on a concrete line.
- Dropping the receiver stops delivery but not decoding. Every later event
  becomes a `SendError` in the log (`DroppedReceiverStillDecodes`).

## Model

| member | source | states |
|---|---|---|
| `Text.FirstIndex` | openai-rust/src/client.rs:99 | `find('{')` is `None` exactly when the line has no `'{'`; otherwise it is an index holding `'{'` with no `'{'` before it |
| `Text.IsWhitespace` | openai-rust/src/client.rs:101 | `char::is_whitespace`, the test `trim` uses: membership in the 25 characters with the Unicode White_Space property |
| `Text.Trim` | openai-rust/src/client.rs:101 | the trimmed text neither starts nor ends with a Unicode whitespace character |
| `Text.TrimShape` | openai-rust/src/client.rs:101 | `trim` keeps the slice of the text that starts where `trim_start` stops, character for character; everything before and after that slice is whitespace |
| `Text.TrimStart` | openai-rust/src/client.rs:101 | the result is a suffix of the input, and everything removed is whitespace |
| `Text.TrimEnd` | openai-rust/src/client.rs:101 | the result is a prefix of the input, and everything removed is whitespace |
| `Text.TrimFromNonSpace` | openai-rust/src/client.rs:100-101 | on text starting with a non-whitespace character (here `'{'`), `trim` only removes trailing whitespace |
| `Text.TrimNothingToTrim` | openai-rust/src/client.rs:101 | text that neither starts nor ends with whitespace is its own trim |
| `Text.TrimIdempotent` | openai-rust/src/client.rs:101 | trimming twice is trimming once |
| `Text.Split` | openai-rust/src/client.rs:98 | `split('\n')` yields at least one piece, and no piece contains the separator |
| `Text.SplitNoSeparator` | openai-rust/src/client.rs:98 | a text without `'\n'` is one line |
| `Text.SplitPiecesWithout` | openai-rust/src/client.rs:98 | a character absent from the chunk is absent from each of its lines |
| `Text.SplitConcat` | openai-rust/src/client.rs:98 | splitting `a + "\n" + b` gives the lines of `a` followed by the lines of `b` |
| `Text.JoinSplit` | openai-rust/src/client.rs:98 | joining the lines with `'\n'` gives the chunk back |
| `Text.SplitJoin` | openai-rust/src/client.rs:98 | splitting the join of newline-free lines gives those lines back |
| `Decoding.KeptLines` | openai-rust/src/client.rs:98 | the filtered lines are no more than the lines, and each is non-empty and contains `'{'` |
| `Decoding.Kept` | openai-rust/src/client.rs:98 | the `filter`: a line is kept when it is non-empty and contains `'{'` |
| `Decoding.Lines` | openai-rust/src/client.rs:98 | the lines of a chunk are its `split('\n')` pieces |
| `Decoding.Candidate` | openai-rust/src/client.rs:99-101 | the text handed to the parser: the line from its first `'{'`, trimmed |
| `Decoding.LineCandidates` | openai-rust/src/client.rs:98-101 | a kept line contributes its candidate, any other line nothing |
| `Decoding.Candidates` | openai-rust/src/client.rs:98-101 | the candidates of the lines, in line order |
| `Decoding.ChunkCandidates` | openai-rust/src/client.rs:98-101 | the candidates of a chunk's lines |
| `Decoding.CandidateEvents` | openai-rust/src/client.rs:101-103 | a candidate that parses contributes its parsed value, one that does not nothing |
| `Decoding.Parsed` | openai-rust/src/client.rs:101-103 | the parsed values of the candidates, in candidate order |
| `Decoding.CandidateDiagnostics` | openai-rust/src/client.rs:103-109 | a candidate that fails to parse logs a deserialise error; one that parses logs a send error only when the receiver is gone |
| `Decoding.Diagnostics` | openai-rust/src/client.rs:101-109 | the messages logged for the candidates, in candidate order |
| `Decoding.ChunkEvents` | openai-rust/src/client.rs:97-115 | what `process_chunk` sends for one chunk |
| `Decoding.ChunkDiagnostics` | openai-rust/src/client.rs:97-115 | what `process_chunk` logs for one chunk |
| `Decoding.ItemEvents` | openai-rust/src/client.rs:45-50 | an `Ok` body item sends its chunk's events, an `Err` item nothing |
| `Decoding.ItemDiagnostics` | openai-rust/src/client.rs:45-50 | an `Ok` body item logs its chunk's diagnostics, an `Err` item one error |
| `Decoding.StreamEvents` | openai-rust/src/client.rs:44-51 | what the spawned task sends for the whole body, item by item |
| `Decoding.StreamDiagnostics` | openai-rust/src/client.rs:44-51 | what the spawned task logs for the whole body, item by item |
| `Decoding.KeptLinesExactly` | openai-rust/src/client.rs:98 | a line survives the filter if and only if it is a line of the chunk, non-empty and containing `'{'` |
| `Decoding.CandidateShape` | openai-rust/src/client.rs:99-101 | the parser's input is the line's slice from its first `'{'` (nothing before it has a `'{'`) to the end less trailing whitespace; it starts with `'{'` |
| `Decoding.CandidatesOfKeptLines` | openai-rust/src/client.rs:98-101 | there is one candidate per kept line, in line order, and the k-th is the candidate of the k-th kept line |
| `Decoding.NoBraceNoCandidates` | openai-rust/src/client.rs:98 | a chunk without `'{'` hands nothing to the parser, so it yields no event and no diagnostic |
| `Decoding.TrailingNewlineIgnored` | openai-rust/src/client.rs:98 | the empty line after a final `'\n'` produces nothing |
| `Decoding.PrefixDropped` | openai-rust/src/client.rs:99-101 | for a line `prefix + json` whose prefix (such as `data: `) has no `'{'`, the parser gets exactly `trim(json)` |
| `Decoding.FirstBraceAfterPrefix` | openai-rust/src/client.rs:99-100 | in `prefix + json` with no `'{'` in the prefix, `find('{')` lands at the start of `json` |
| `Decoding.CandidatesOrigin` | openai-rust/src/client.rs:98-101 | every candidate is the candidate of a kept line |
| `Decoding.ParsedOrigin` | openai-rust/src/client.rs:101-103 | every sent event is what the parser made of some candidate |
| `Decoding.EventOrigin` | openai-rust/src/client.rs:98-103 | every event of a chunk is the parse of the candidate of a line that is non-empty and contains `'{'` |
| `Decoding.ParseFailureSkipped` | openai-rust/src/client.rs:107-109 | a candidate that fails to parse adds one deserialise error and nothing else; the candidates after it yield what they would alone |
| `Decoding.EveryCandidateAccounted` | openai-rust/src/client.rs:101-110 | with the receiver alive each candidate yields one event or one deserialise error; with it dropped the k-th diagnostic is a send error when the k-th candidate parses and that candidate's deserialise error when it does not; "No valid JSON found" is never logged |
| `Decoding.CandidatesReceiverDropped` | openai-rust/src/client.rs:101-110 | the same per candidate: without its send errors the log of a dropped receiver is the live one, and it has one send error per parsed candidate |
| `Decoding.KeptLinesAccounted` | openai-rust/src/client.rs:98-110 | the chunk's candidates are the trimmed tails of its kept lines, in line order, so its events are the parses of those tails; with the receiver alive events plus deserialise errors equal the kept lines; with it dropped the k-th diagnostic belongs to the k-th kept line |
| `Decoding.KeptLinesAppend` | openai-rust/src/client.rs:98 | the filter works line by line over concatenated lines |
| `Decoding.CandidatesAppend` | openai-rust/src/client.rs:98-101 | candidate extraction works line by line over concatenated lines |
| `Decoding.ParsedAppend` | openai-rust/src/client.rs:101-106 | events come out candidate by candidate, in order |
| `Decoding.DiagnosticsAppend` | openai-rust/src/client.rs:101-110 | diagnostics come out candidate by candidate, in order |
| `Decoding.CandidatesSnoc` | openai-rust/src/client.rs:98 | one more processed line adds that line's candidate, if any |
| `Decoding.CandidateSnoc` | openai-rust/src/client.rs:101-110 | one more candidate adds its event or its diagnostic at the end |
| `Decoding.SingleCandidate` | openai-rust/src/client.rs:101-110 | a candidate that parses yields its parsed value, with no diagnostic while the receiver is alive and one send error once it is gone; a candidate that does not parse yields no event and one deserialise error naming it |
| `Decoding.StreamEventsAppend` | openai-rust/src/client.rs:44-51 | no state is carried between chunks: the events of a body are those of its first part followed by those of the rest |
| `Decoding.StreamDiagnosticsAppend` | openai-rust/src/client.rs:44-51 | the same for the diagnostics |
| `Decoding.StreamItemSnoc` | openai-rust/src/client.rs:44-51 | one more body item adds what that item alone yields |
| `Decoding.StreamSnoc` | openai-rust/src/client.rs:44-51 | the same step stated on the loop's prefixes |
| `Decoding.ErrorItemSkipped` | openai-rust/src/client.rs:45-50 | an error item adds one logged error and no event; the items around it are unaffected |
| `Decoding.ErrorItemEvents` | openai-rust/src/client.rs:49 | an error item contributes no event |
| `Decoding.ErrorItemDiagnostics` | openai-rust/src/client.rs:49 | an error item contributes exactly one logged error |
| `Decoding.TwoChunks` | openai-rust/src/client.rs:44-47 | two chunks yield the first chunk's output followed by the second's |
| `Decoding.EmptyChunk` | openai-rust/src/client.rs:44-51 | an empty chunk and an empty body yield nothing |
| `Decoding.RechunkAtLineEnd` | openai-rust/src/client.rs:98 | cutting a chunk right after a `'\n'` does not change the candidates |
| `Decoding.AsChunks` | openai-rust/src/client.rs:44-46 | the successful body items carry the given chunk texts, one each, in order |
| `Decoding.ChunkingInvariance` | openai-rust/src/client.rs:44-48 | when every chunk but the last ends with `'\n'`, the body yields the same events and diagnostics as its concatenation in one chunk |
| `Decoding.SplitObjectIsLost` | openai-rust/src/client.rs:44-48 | the line `data: {"id":"1"}` with its newline yields its event as one chunk, but nothing when cut inside the object; the first fragment is logged as a deserialise error |
| `Decoding.WholeEventLine` | openai-rust/src/client.rs:98-103 | the uncut event line yields exactly its event |
| `Decoding.FirstFragment` | openai-rust/src/client.rs:99-109 | the first fragment of the cut line is handed to the parser, fails, and is logged |
| `Decoding.EventLine` | openai-rust/src/client.rs:99-101 | the scenario's lines hand their JSON text, unchanged by `trim`, to the parser |
| `Decoding.DroppedReceiverStillDecodes` | openai-rust/src/client.rs:44-51 | with the receiver dropped the log is the log of a live receiver with send errors added: removing the send errors gives that log back, and there is one send error for each event that would have been delivered |
| `Channel.Sender.constructor` | openai-rust/src/client.rs:41 | a new channel is empty and its receiver is alive |
| `Channel.Sender.Send` | openai-rust/src/client.rs:103 | a send succeeds exactly when the receiver is alive, and only then appends the value |
| `Channel.Sender.DropReceiver` | openai-rust/src/client.rs:54 | dropping the handed-back receiver makes later sends fail and keeps what was accepted |
| `Client.StreamTask.constructor` | openai-rust/src/client.rs:43 | the task starts with the given parser and sender and an empty log |
| `Client.StreamTask.ProcessChunk` | openai-rust/src/client.rs:97-115 | the channel becomes its old contents followed by the chunk's parsed events in line order (nothing when the receiver is gone); the log gains the chunk's diagnostics; the method never fails |
| `Client.StreamTask.ProcessLine` | openai-rust/src/client.rs:98-113 | one line adds its candidate's event and diagnostic; the "No valid JSON found" branch is proved unreachable |
| `Client.StreamTask.ProcessCandidate` | openai-rust/src/client.rs:101-110 | a parsed candidate is sent, a failed send or parse is logged, and nothing else changes |
| `Client.StreamTask.Run` | openai-rust/src/client.rs:43-52 | all body items are processed in order; the channel gains the whole body's events and the log gains its diagnostics, with error items logged and skipped |
| `Client.ChatStream` | openai-rust/src/client.rs:40-54 | a fresh channel and task; after the body ends the channel holds exactly the body's events, in order |

## Left out

- HTTP transport is network I/O and is not part of this model. That covers
  `build_request`, `send_multipart_request`, `chat`, the `send().await` and
  `text().await` calls, and the translation of `send` failures into the
  caller's `Err` (openai-rust/src/client.rs:29-33, 37-38, 80-95).
- File upload is not modelled: `transcription`, `translation`,
  `create_file_part` and `file_stream_body` are filesystem streaming and
  multipart form assembly. The temperature they format is a floating-point
  `to_string`.
- `request.stream = Some(true)` (line 36) is not modelled. It only sets a
  field of the outbound JSON, and the repository's `types.rs` declares no
  `stream` field on `ChatCompletionRequest`.
- `String::from_utf8_lossy` is not modelled: chunks are taken as
  already-decoded strings. A multi-byte character cut across two chunks
  therefore does not become replacement characters here.
- `find` returns a byte index in Rust and a character index here. Both mark
  the same `'{'`, because `'{'` is one byte.
- serde_json deserialisation is the parameter `parse`, an arbitrary total
  function. `JsonDeserializeError` records the rejected candidate instead of
  serde's error value.
- Concurrency is not modelled: `tokio::spawn`, the consumer draining the
  channel while the task runs, and the receiving half's `recv`. The task runs
  each call to completion, and `receiverAlive` cannot change in the middle of
  `ProcessChunk` or `Run`. A receiver dropped mid-chunk is covered only
  between calls (`DropReceiver`).
- The text of the `eprintln!` messages is not modelled. Each message is a
  `Diagnostic` value in `log`.
- The declarative request and response types in `types.rs` and the example
  programs are not modelled. They hold no logic.
